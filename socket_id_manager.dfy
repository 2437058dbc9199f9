/**
 * Model of src/socket_io_adaptor/socket_id_manager.rs: the map from socket id to the
 * connection's delivery handle. The actix `Addr` is the type parameter `H`.
 */
module SocketIdManagers {
  import opened Wrappers

  class SocketIdManager<H> {
    var idSocketMap: map<string, H>

    /** `SocketIdManager::new` (and `Default`): no sockets. */
    constructor()
      ensures idSocketMap == map[]
    {
      idSocketMap := map[];
    }

    /** `get_socket_addr(id)`: the handle stored for `id`, `None` when there is none. */
    function GetSocketAddr(id: string): (addr: Option<H>)
      reads this
      ensures addr.Some? <==> id in idSocketMap
      ensures addr.Some? ==> addr.value == idSocketMap[id]
    {
      if id in idSocketMap then Some(idSocketMap[id]) else None
    }

    /** `add_socket(id, addr)`: store the handle, replacing any earlier one; other ids keep theirs. */
    method AddSocket(id: string, socketAddr: H)
      modifies this
      ensures idSocketMap == old(idSocketMap)[id := socketAddr]
      ensures GetSocketAddr(id) == Some(socketAddr)
      ensures forall other :: other != id ==> GetSocketAddr(other) == old(GetSocketAddr(other))
    {
      idSocketMap := idSocketMap[id := socketAddr];
    }

    /** `remove_socket_by_id(id)`: drop the handle and hand back the one that was stored. */
    method RemoveSocketById(id: string) returns (previous: Option<H>)
      modifies this
      ensures previous == old(GetSocketAddr(id))
      ensures idSocketMap == old(idSocketMap) - {id}
      ensures GetSocketAddr(id) == None
      ensures forall other :: other != id ==> GetSocketAddr(other) == old(GetSocketAddr(other))
    {
      previous := GetSocketAddr(id);
      idSocketMap := idSocketMap - {id};
    }
  }
}
