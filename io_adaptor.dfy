/**
 * Model of src/socket_io_adaptor/io_adaptor.rs: the unnamed variant of `Namespace` that the
 * namespace manager stores. Its emits carry only the message content.
 */
module IoAdaptors {
  import opened Wrappers
  import opened RoomTable
  import opened ChatRooms
  import opened SocketIdManagers
  import opened Delivery

  class IoAdaptor<H> {
    const chatRoomManager: ChatRoomManager
    const socketIdManager: SocketIdManager<H>

    /** The room manager's membership invariant. */
    ghost predicate Valid()
      reads this, chatRoomManager
    {
      chatRoomManager.Valid()
    }

    /** Every room member has a handle, so the `unwrap` in `emit_to_rooms` cannot fail. */
    ghost predicate Registered()
      reads this, chatRoomManager, socketIdManager
    {
      forall r, sid :: sid in Members(chatRoomManager.State(), r) ==> sid in socketIdManager.idSocketMap
    }

    /** `IoAdaptor::new` (and `Default`): empty managers. */
    constructor()
      ensures fresh(chatRoomManager) && fresh(socketIdManager)
      ensures chatRoomManager.State() == Empty() && socketIdManager.idSocketMap == map[]
      ensures Valid() && Registered()
    {
      chatRoomManager := new ChatRoomManager();
      socketIdManager := new SocketIdManager();
    }

    /** `add_socket(id, addr)`: store the handle and put `id` in the room named `id`. */
    method AddSocket(id: string, socketAddr: H)
      modifies chatRoomManager, socketIdManager
      ensures socketIdManager.idSocketMap == old(socketIdManager.idSocketMap)[id := socketAddr]
      ensures chatRoomManager.State() == AddAll(old(chatRoomManager.State()), id, [id])
      ensures id in Members(chatRoomManager.State(), id)
      ensures old(Valid()) ==> Valid()
      ensures old(Registered()) ==> Registered()
    {
      socketIdManager.AddSocket(id, socketAddr);
      chatRoomManager.Add(id, id);
      AddAllEffect(old(chatRoomManager.State()), id, [id]);
    }

    /** `join_room(id, r)`: the room manager's `add`. Every member stays reachable exactly when `id` has a handle. */
    method JoinRoom(id: string, roomId: string)
      modifies chatRoomManager
      ensures chatRoomManager.State() == AddAll(old(chatRoomManager.State()), id, [roomId])
      ensures old(Valid()) ==> Valid()
      ensures old(Registered()) ==> (Registered() <==> id in socketIdManager.idSocketMap)
    {
      chatRoomManager.Add(id, roomId);
      AddAllEffect(old(chatRoomManager.State()), id, [roomId]);
    }

    /** `leave_room(id, r)`: the room manager's `delete`. */
    method LeaveRoom(id: string, roomId: string)
      modifies chatRoomManager
      ensures chatRoomManager.State() == RoomTable.Delete(old(chatRoomManager.State()), id, roomId)
      ensures old(Valid()) ==> Valid()
      ensures old(Valid() && Registered()) ==> Registered()
    {
      chatRoomManager.Delete(id, roomId);
      if old(Valid()) {
        DeleteEffect(old(chatRoomManager.State()), id, roomId);
      }
    }

    /**
     * `remove_socket(id)`: drop the handle, then `delete_all(id)`. Afterwards `id` is in no
     * room, and its own room is gone unless another socket joined it.
     */
    method RemoveSocket(id: string)
      modifies chatRoomManager, socketIdManager
      ensures socketIdManager.idSocketMap == old(socketIdManager.idSocketMap) - {id}
      ensures chatRoomManager.State() == DeleteAll(old(chatRoomManager.State()), id)
      ensures old(Valid()) ==> Valid()
      ensures old(Valid()) ==> forall r :: id !in Members(chatRoomManager.State(), r)
      ensures old(Valid()) && old(Members(chatRoomManager.State(), id)) == {id} ==> id !in chatRoomManager.rooms
      ensures old(Valid() && Registered()) ==> Registered()
    {
      var _ := socketIdManager.RemoveSocketById(id);
      chatRoomManager.DeleteAll(id);
      if old(Valid()) {
        DeleteAllEffect(old(chatRoomManager.State()), id);
        if old(Members(chatRoomManager.State(), id)) == {id} {
          assert Members(chatRoomManager.State(), id) == {};
        }
      }
    }

    /**
     * `emit_to_rooms(rs, m)`: the content `m` to each distinct member of the rooms in `rs`, and
     * to nobody else. Each member must have a handle (the source unwraps it).
     */
    method EmitToRooms(rooms: seq<string>, message: string) returns (sent: seq<Delivery<H, string>>)
      requires forall sid :: sid in Resolve(chatRoomManager.State(), rooms) ==> sid in socketIdManager.idSocketMap
      ensures DeliversOnce(sent, Resolve(chatRoomManager.State(), rooms), socketIdManager.idSocketMap, message)
    {
      var sidSet := chatRoomManager.GetAllSidsFromRooms(rooms);
      var msg := message;
      sent := [];
      var pending := sidSet;
      DeliversToNobody(socketIdManager.idSocketMap, msg);
      while pending != {}
        invariant pending <= sidSet
        invariant DeliversOnce(sent, sidSet - pending, socketIdManager.idSocketMap, msg)
        decreases pending
      {
        var sid :| sid in pending;
        var addr := socketIdManager.GetSocketAddr(sid).value;
        DeliversOneMore(sent, sidSet - pending, socketIdManager.idSocketMap, msg, sid);
        sent := sent + [Delivery(sid, addr, msg)];
        assert sidSet - pending + {sid} == sidSet - (pending - {sid});
        pending := pending - {sid};
      }
    }

    /** `emit_to_all(m)`: `emit_to_rooms` over every stored room, so every socket in some room gets it once. */
    method EmitToAll(message: string) returns (sent: seq<Delivery<H, string>>)
      requires Registered()
      ensures DeliversOnce(sent, Everyone(chatRoomManager.State()), socketIdManager.idSocketMap, message)
    {
      var rooms := ListOf(chatRoomManager.GetAllRooms());
      ResolveAllRooms(chatRoomManager.State(), rooms);
      forall sid | sid in Everyone(chatRoomManager.State())
        ensures sid in socketIdManager.idSocketMap
      {
        var r :| r in chatRoomManager.rooms && sid in chatRoomManager.rooms[r].sockets;
        assert sid in Members(chatRoomManager.State(), r);
      }
      sent := EmitToRooms(rooms, message);
    }
  }
}
