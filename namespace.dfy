/**
 * Model of src/socket_io_adaptor/namespace.rs: a named namespace owning a room manager and a
 * socket id manager. Every socket is put in a room of its own; an emit resolves the named
 * rooms to their members and sends each member the message once, through its handle.
 */
module Namespaces {
  import opened Wrappers
  import opened RoomTable
  import opened ChatRooms
  import opened SocketIdManagers
  import opened Delivery
  import opened SocketMessages

  class Namespace<H> {
    const name: string
    const chatRoomManager: ChatRoomManager
    const socketIdManager: SocketIdManager<H>

    /** The room manager's membership invariant. */
    ghost predicate Valid()
      reads this, chatRoomManager
    {
      chatRoomManager.Valid()
    }

    /** Every room member has a handle, so the `unwrap` in `emit_to_rooms` cannot fail. */
    ghost predicate Registered()
      reads this, chatRoomManager, socketIdManager
    {
      forall r, sid :: sid in Members(chatRoomManager.State(), r) ==> sid in socketIdManager.idSocketMap
    }

    /** `Namespace::new(name)`: the name, and empty managers. */
    constructor(name: string)
      ensures this.name == name
      ensures fresh(chatRoomManager) && fresh(socketIdManager)
      ensures chatRoomManager.State() == Empty() && socketIdManager.idSocketMap == map[]
      ensures Valid() && Registered()
    {
      this.name := name;
      chatRoomManager := new ChatRoomManager();
      socketIdManager := new SocketIdManager();
    }

    /** `Namespace::default()`: the namespace "/", with empty managers. */
    constructor Default()
      ensures name == "/"
      ensures fresh(chatRoomManager) && fresh(socketIdManager)
      ensures chatRoomManager.State() == Empty() && socketIdManager.idSocketMap == map[]
      ensures Valid() && Registered()
    {
      name := "/";
      chatRoomManager := new ChatRoomManager();
      socketIdManager := new SocketIdManager();
    }

    /** `add_socket(id, addr)`: store the handle and put `id` in the room named `id`. */
    method AddSocket(id: string, socketAddr: H)
      modifies chatRoomManager, socketIdManager
      ensures socketIdManager.idSocketMap == old(socketIdManager.idSocketMap)[id := socketAddr]
      ensures chatRoomManager.State() == AddAll(old(chatRoomManager.State()), id, [id])
      ensures id in Members(chatRoomManager.State(), id)
      ensures old(Valid()) ==> Valid()
      ensures old(Registered()) ==> Registered()
    {
      socketIdManager.AddSocket(id, socketAddr);
      chatRoomManager.Add(id, id);
      AddAllEffect(old(chatRoomManager.State()), id, [id]);
    }

    /** `join_room(id, r)`: the room manager's `add`. Every member stays reachable exactly when `id` has a handle. */
    method JoinRoom(id: string, roomId: string)
      modifies chatRoomManager
      ensures chatRoomManager.State() == AddAll(old(chatRoomManager.State()), id, [roomId])
      ensures old(Valid()) ==> Valid()
      ensures old(Registered()) ==> (Registered() <==> id in socketIdManager.idSocketMap)
    {
      chatRoomManager.Add(id, roomId);
      AddAllEffect(old(chatRoomManager.State()), id, [roomId]);
    }

    /** `leave_room(id, r)`: the room manager's `delete`. */
    method LeaveRoom(id: string, roomId: string)
      modifies chatRoomManager
      ensures chatRoomManager.State() == RoomTable.Delete(old(chatRoomManager.State()), id, roomId)
      ensures old(Valid()) ==> Valid()
      ensures old(Valid() && Registered()) ==> Registered()
    {
      chatRoomManager.Delete(id, roomId);
      if old(Valid()) {
        DeleteEffect(old(chatRoomManager.State()), id, roomId);
      }
    }

    /**
     * `remove_socket(id)`: drop the handle, then `delete_all(id)`. Afterwards `id` is in no
     * room, and its own room is gone unless another socket joined it.
     */
    method RemoveSocket(id: string)
      modifies chatRoomManager, socketIdManager
      ensures socketIdManager.idSocketMap == old(socketIdManager.idSocketMap) - {id}
      ensures chatRoomManager.State() == DeleteAll(old(chatRoomManager.State()), id)
      ensures old(Valid()) ==> Valid()
      ensures old(Valid()) ==> forall r :: id !in Members(chatRoomManager.State(), r)
      ensures old(Valid()) && old(Members(chatRoomManager.State(), id)) == {id} ==> id !in chatRoomManager.rooms
      ensures old(Valid() && Registered()) ==> Registered()
    {
      var _ := socketIdManager.RemoveSocketById(id);
      chatRoomManager.DeleteAll(id);
      if old(Valid()) {
        DeleteAllEffect(old(chatRoomManager.State()), id);
        if old(Members(chatRoomManager.State(), id)) == {id} {
          assert Members(chatRoomManager.State(), id) == {};
        }
      }
    }

    /** `emit_to(r, e, m)`: `emit_to_rooms` with the one room. */
    method EmitTo(room: string, eventName: string, message: string) returns (sent: seq<Delivery<H, SocketMessage>>)
      requires forall sid :: sid in Members(chatRoomManager.State(), room) ==> sid in socketIdManager.idSocketMap
      ensures DeliversOnce(sent, Members(chatRoomManager.State(), room), socketIdManager.idSocketMap, SocketMessage(eventName, message))
    {
      assert [room][..0] == [];
      sent := EmitToRooms([room], eventName, message);
    }

    /**
     * `emit_to_rooms(rs, e, m)`: one `SocketMessage(e, m)` to each distinct member of the rooms
     * in `rs`, and to nobody else. Each member must have a handle (the source unwraps it).
     */
    method EmitToRooms(rooms: seq<string>, eventName: string, message: string) returns (sent: seq<Delivery<H, SocketMessage>>)
      requires forall sid :: sid in Resolve(chatRoomManager.State(), rooms) ==> sid in socketIdManager.idSocketMap
      ensures DeliversOnce(sent, Resolve(chatRoomManager.State(), rooms), socketIdManager.idSocketMap, SocketMessage(eventName, message))
    {
      var sidSet := chatRoomManager.GetAllSidsFromRooms(rooms);
      var msg := SocketMessage(eventName, message);
      sent := [];
      var pending := sidSet;
      DeliversToNobody(socketIdManager.idSocketMap, msg);
      while pending != {}
        invariant pending <= sidSet
        invariant DeliversOnce(sent, sidSet - pending, socketIdManager.idSocketMap, msg)
        decreases pending
      {
        var sid :| sid in pending;
        var addr := socketIdManager.GetSocketAddr(sid).value;
        DeliversOneMore(sent, sidSet - pending, socketIdManager.idSocketMap, msg, sid);
        sent := sent + [Delivery(sid, addr, msg)];
        assert sidSet - pending + {sid} == sidSet - (pending - {sid});
        pending := pending - {sid};
      }
    }

    /** `emit_to_all(e, m)`: `emit_to_rooms` over every stored room, so every socket in some room gets it once. */
    method EmitToAll(eventName: string, message: string) returns (sent: seq<Delivery<H, SocketMessage>>)
      requires Registered()
      ensures DeliversOnce(sent, Everyone(chatRoomManager.State()), socketIdManager.idSocketMap, SocketMessage(eventName, message))
    {
      var rooms := ListOf(chatRoomManager.GetAllRooms());
      ResolveAllRooms(chatRoomManager.State(), rooms);
      forall sid | sid in Everyone(chatRoomManager.State())
        ensures sid in socketIdManager.idSocketMap
      {
        var r :| r in chatRoomManager.rooms && sid in chatRoomManager.rooms[r].sockets;
        assert sid in Members(chatRoomManager.State(), r);
      }
      sent := EmitToRooms(rooms, eventName, message);
    }
  }
}
