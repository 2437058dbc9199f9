/**
 * Model of src/socket_io_adaptor/chat_room_manager.rs: a class whose two map fields are
 * updated in place, each mutator proved to leave them as the `RoomTable` functions say, so
 * the lemmas there (consistency kept, effects) carry over to every call.
 */
module ChatRooms {
  import opened RoomTable

  class ChatRoomManager {
    var rooms: map<string, Room>
    var sids: map<string, set<string>>

    /** The two fields as one value. */
    function State(): Tables
      reads this
    {
      Tables(rooms, sids)
    }

    /** The membership invariant every mutator keeps. */
    ghost predicate Valid()
      reads this
    {
      Consistent(State())
    }

    /** `ChatRoomManager::new` (and `Default`): both maps empty. */
    constructor()
      ensures State() == Empty() && Valid()
    {
      rooms := map[];
      sids := map[];
      EmptyConsistent();
    }

    /** `remove_id_from_room`, on the `rooms` field. */
    method RemoveIdFromRoom(id: string, roomId: string)
      modifies this
      ensures rooms == RoomTable.RemoveIdFromRoom(old(rooms), id, roomId)
      ensures sids == old(sids)
    {
      if roomId in rooms {
        var room := rooms[roomId];
        var (room', _) := room.Delete(id);
        rooms := rooms[roomId := room'];
        if room'.Length() == 0 {
          rooms := rooms - {roomId};
        }
      }
    }

    /** `add(id, roomId)`: `add_all` with one room. */
    method Add(id: string, roomId: string)
      modifies this
      ensures State() == RoomTable.AddAll(old(State()), id, [roomId])
      ensures id in Members(State(), roomId) && roomId in RoomsOf(State(), id)
      ensures old(Valid()) ==> Valid()
    {
      AddAll(id, [roomId]);
      AddJoins(old(State()), id, roomId);
    }

    /** `add_all(id, roomIds)`: for each room, record it for `id` and `id` in it, creating entries on demand. */
    method AddAll(id: string, roomIds: seq<string>)
      modifies this
      ensures State() == RoomTable.AddAll(old(State()), id, roomIds)
      ensures old(Valid()) ==> Valid()
    {
      for i := 0 to |roomIds|
        invariant State() == RoomTable.AddAll(old(State()), id, roomIds[..i])
      {
        var roomId := roomIds[i];
        var sid := if id in sids then sids[id] else {};
        sids := sids[id := sid + {roomId}];
        var room := if roomId in rooms then rooms[roomId] else NewRoom();
        rooms := rooms[roomId := room.Add(id)];
        assert roomIds[..i + 1][..i] == roomIds[..i];
      }
      assert roomIds[..|roomIds|] == roomIds;
      if old(Valid()) {
        AddAllConsistent(old(State()), id, roomIds);
      }
    }

    /** `delete(id, roomId)`: drop the room from the entry of `id`, then `remove_id_from_room`. */
    method Delete(id: string, roomId: string)
      modifies this
      ensures State() == RoomTable.Delete(old(State()), id, roomId)
      ensures old(Valid()) ==> Valid()
    {
      if id in sids {
        sids := sids[id := sids[id] - {roomId}];
      }
      RemoveIdFromRoom(id, roomId);
      if old(Valid()) {
        DeleteConsistent(old(State()), id, roomId);
      }
    }

    /** `delete_all(id)`: `remove_id_from_room` for every room listed for `id`, then the entry goes. */
    method DeleteAll(id: string)
      modifies this
      ensures State() == RoomTable.DeleteAll(old(State()), id)
      ensures old(Valid()) ==> Valid()
    {
      RemoveFromNoRooms(rooms, id);
      if id in sids {
        var pending := sids[id];
        ghost var done: set<string> := {};
        while pending != {}
          invariant rooms == RemoveFromRooms(old(rooms), id, done)
          invariant done + pending == old(sids)[id] && done !! pending
          invariant sids == old(sids)
          decreases pending
        {
          var roomId :| roomId in pending;
          RemoveFromRoomsStep(old(rooms), id, done, roomId);
          RemoveIdFromRoom(id, roomId);
          pending := pending - {roomId};
          done := done + {roomId};
        }
      }
      sids := sids - {id};
      if old(Valid()) {
        DeleteAllConsistent(old(State()), id);
      }
    }

    /** `get_all_sids_from_rooms(roomIds)`: the members of the named rooms, each once (a room not stored adds nothing). */
    method GetAllSidsFromRooms(roomIds: seq<string>) returns (sidSet: set<string>)
      ensures sidSet == Resolve(State(), roomIds)
    {
      sidSet := {};
      for i := 0 to |roomIds|
        invariant sidSet == Resolve(State(), roomIds[..i])
      {
        var roomId := roomIds[i];
        assert roomIds[..i + 1][..i] == roomIds[..i];
        if roomId in rooms {
          var pending := rooms[roomId].sockets;
          ghost var before := sidSet;
          while pending != {}
            invariant pending <= rooms[roomId].sockets
            invariant sidSet == before + (rooms[roomId].sockets - pending)
            decreases pending
          {
            var sid :| sid in pending;
            sidSet := sidSet + {sid};
            pending := pending - {sid};
          }
        }
      }
      assert roomIds[..|roomIds|] == roomIds;
    }

    /** `get_all_sids`: every socket that has an entry, which includes every member of every room. */
    function GetAllSids(): (all: set<string>)
      reads this
      ensures forall sid :: sid in all <==> sid in sids
      ensures Valid() ==> forall r, sid :: sid in Members(State(), r) ==> sid in all
    {
      assert Valid() ==> forall r, sid :: sid in Members(State(), r) ==> sid in sids by {
        if Valid() {
          ConsistentQueries(State());
        }
      }
      sids.Keys
    }

    /** `get_socket_rooms(id)`: the rooms `id` is a member of (none for an unknown socket). */
    function GetSocketRooms(id: string): (joined: set<string>)
      reads this
      ensures id !in sids ==> joined == {}
      ensures Valid() ==> forall r :: r in joined <==> id in Members(State(), r)
    {
      assert Valid() ==> forall r :: r in RoomsOf(State(), id) <==> id in Members(State(), r);
      if id in sids then sids[id] else {}
    }

    /** `get_all_rooms`: every stored room, and each of them has a member. */
    function GetAllRooms(): (all: set<string>)
      reads this
      ensures forall r :: r in all <==> r in rooms
      ensures Valid() ==> forall r :: r in all ==> exists sid :: r in RoomsOf(State(), sid)
    {
      assert Valid() ==> forall r :: r in rooms ==> exists sid :: r in RoomsOf(State(), sid) by {
        if Valid() {
          ConsistentQueries(State());
        }
      }
      rooms.Keys
    }
  }
}
