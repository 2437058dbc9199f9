/**
 * The two tables a room manager keeps in step (src/socket_io_adaptor/chat_room_manager.rs and
 * its copy src/socket_io_adaptor/socket_io_adaptor_impl.rs): room id to the room's socket ids,
 * and socket id to the rooms it joined. The functions here say what each mutator does to the
 * pair of maps; the lemmas prove that every mutator keeps the two maps mirror images of each
 * other with no empty room stored, and what each one adds or removes.
 */
module RoomTable {
  /** `Room`: the socket ids in one chat room. */
  datatype Room = Room(sockets: set<string>) {
    /** `Room::add`. */
    function Add(sid: string): Room {
      Room(sockets + {sid})
    }

    /** `Room::delete`: the room without `sid`, and whether `sid` was a member. */
    function Delete(sid: string): (Room, bool) {
      (Room(sockets - {sid}), sid in sockets)
    }

    /** `Room::length`. */
    function Length(): nat {
      |sockets|
    }
  }

  /** `Room::new`. */
  function NewRoom(): Room {
    Room({})
  }

  /** The `rooms` and `sids` fields of a room manager. */
  datatype Tables = Tables(rooms: map<string, Room>, sids: map<string, set<string>>)

  /** The members of room `r`; none when the room is not stored. */
  function Members(t: Tables, r: string): set<string> {
    if r in t.rooms then t.rooms[r].sockets else {}
  }

  /** The rooms socket `sid` joined; none when it has no entry. */
  function RoomsOf(t: Tables, sid: string): set<string> {
    if sid in t.sids then t.sids[sid] else {}
  }

  /** The two maps describe the same membership relation, and no stored room is empty. */
  ghost predicate Consistent(t: Tables) {
    (forall r, sid :: sid in Members(t, r) <==> r in RoomsOf(t, sid)) &&
    (forall r :: r in t.rooms ==> t.rooms[r].sockets != {})
  }

  /** One pass of the `add_all` loop: `id` joins `r` in both maps (entries created on demand). */
  function AddOne(t: Tables, id: string, r: string): Tables {
    var room := if r in t.rooms then t.rooms[r] else NewRoom();
    Tables(t.rooms[r := room.Add(id)], t.sids[id := RoomsOf(t, id) + {r}])
  }

  /** `add_all(id, rs)`: the passes for `rs` in order. */
  function AddAll(t: Tables, id: string, rs: seq<string>): Tables
    decreases |rs|
  {
    if |rs| == 0 then t else AddOne(AddAll(t, id, rs[..|rs| - 1]), id, rs[|rs| - 1])
  }

  /** `remove_id_from_room`: drop `id` from room `r`, and drop the room once it is empty. */
  function RemoveIdFromRoom(rooms: map<string, Room>, id: string, r: string): map<string, Room> {
    if r in rooms then
      var room := rooms[r].Delete(id).0;
      if room.Length() == 0 then rooms - {r} else rooms[r := room]
    else rooms
  }

  /** `delete(id, r)`: `r` leaves the rooms of `id` (the entry stays, maybe empty), then `remove_id_from_room`. */
  function Delete(t: Tables, id: string, r: string): Tables {
    var sids := if id in t.sids then t.sids[id := t.sids[id] - {r}] else t.sids;
    Tables(RemoveIdFromRoom(t.rooms, id, r), sids)
  }

  /** `rooms` after `remove_id_from_room(id, r)` for every `r` in `rs`, in any order. */
  function RemoveFromRooms(rooms: map<string, Room>, id: string, rs: set<string>): map<string, Room> {
    map r | r in rooms && !(r in rs && rooms[r].sockets - {id} == {}) ::
      if r in rs then Room(rooms[r].sockets - {id}) else rooms[r]
  }

  /** `delete_all(id)`: `remove_id_from_room` for each room listed for `id`, then the entry of `id` goes. */
  function DeleteAll(t: Tables, id: string): Tables {
    Tables(RemoveFromRooms(t.rooms, id, RoomsOf(t, id)), t.sids - {id})
  }

  /** `get_all_sids_from_rooms(rs)`: the members of the rooms in `rs`, collected room by room. */
  function Resolve(t: Tables, rs: seq<string>): set<string>
    decreases |rs|
  {
    if |rs| == 0 then {} else Resolve(t, rs[..|rs| - 1]) + Members(t, rs[|rs| - 1])
  }

  /** The tables of `ChatRoomManager::new`. */
  function Empty(): Tables {
    Tables(map[], map[])
  }

  lemma EmptyConsistent()
    ensures Consistent(Empty())
  {
  }

  /** One pass of `add_all` keeps the tables consistent. */
  lemma AddOneConsistent(t: Tables, id: string, r: string)
    requires Consistent(t)
    ensures Consistent(AddOne(t, id, r))
  {
    var t' := AddOne(t, id, r);
    forall r', sid
      ensures sid in Members(t', r') <==> r' in RoomsOf(t', sid)
    {
      assert sid in Members(t, r') <==> r' in RoomsOf(t, sid);
    }
  }

  /** What one pass of `add_all` changes: `id` joins `r` in both maps. */
  lemma AddOneRooms(t: Tables, id: string, r: string)
    ensures forall r' :: Members(AddOne(t, id, r), r') == Members(t, r') + (if r' == r then {id} else {})
    ensures AddOne(t, id, r).rooms.Keys == t.rooms.Keys + {r}
  {
  }

  lemma AddOneSids(t: Tables, id: string, r: string)
    ensures forall sid :: RoomsOf(AddOne(t, id, r), sid) == RoomsOf(t, sid) + (if sid == id then {r} else {})
    ensures AddOne(t, id, r).sids.Keys == t.sids.Keys + {id}
  {
  }

  /** The room side of `add_all(id, rs)`: `id` joins each room of `rs`, and only the rooms of `rs` are created. */
  lemma {:induction false} AddAllRooms(t: Tables, id: string, rs: seq<string>)
    ensures forall r :: Members(AddAll(t, id, rs), r) == Members(t, r) + (if r in rs then {id} else {})
    ensures forall r :: r in AddAll(t, id, rs).rooms <==> r in t.rooms || r in rs
    decreases |rs|
  {
    if |rs| > 0 {
      var front := rs[..|rs| - 1];
      var last := rs[|rs| - 1];
      var before := AddAll(t, id, front);
      assert AddAll(t, id, rs) == AddOne(before, id, last);
      AddAllRooms(t, id, front);
      AddOneRooms(before, id, last);
      assert forall r :: r in rs <==> r in front || r == last by {
        assert rs == front + [last];
      }
    }
  }

  /** The socket side of `add_all(id, rs)`: `id` gains the rooms of `rs`, and no other socket's entry moves. */
  lemma {:induction false} AddAllSids(t: Tables, id: string, rs: seq<string>)
    ensures forall sid :: sid != id ==> RoomsOf(AddAll(t, id, rs), sid) == RoomsOf(t, sid)
    ensures forall r :: r in RoomsOf(AddAll(t, id, rs), id) <==> r in RoomsOf(t, id) || r in rs
    ensures forall sid :: sid in AddAll(t, id, rs).sids <==> sid in t.sids || (sid == id && |rs| > 0)
    decreases |rs|
  {
    if |rs| > 0 {
      var front := rs[..|rs| - 1];
      var last := rs[|rs| - 1];
      var before := AddAll(t, id, front);
      assert AddAll(t, id, rs) == AddOne(before, id, last);
      AddAllSids(t, id, front);
      AddOneSids(before, id, last);
      assert forall r :: r in rs <==> r in front || r == last by {
        assert rs == front + [last];
      }
    }
  }

  /** What `add_all(id, rs)` changes: `id` joins each room of `rs`, in both maps, and nothing else moves. */
  lemma AddAllEffect(t: Tables, id: string, rs: seq<string>)
    ensures forall r :: Members(AddAll(t, id, rs), r) == Members(t, r) + (if r in rs then {id} else {})
    ensures forall sid :: sid != id ==> RoomsOf(AddAll(t, id, rs), sid) == RoomsOf(t, sid)
    ensures forall r :: r in RoomsOf(AddAll(t, id, rs), id) <==> r in RoomsOf(t, id) || r in rs
    ensures forall r :: r in AddAll(t, id, rs).rooms <==> r in t.rooms || r in rs
    ensures forall sid :: sid in AddAll(t, id, rs).sids <==> sid in t.sids || (sid == id && |rs| > 0)
  {
    AddAllRooms(t, id, rs);
    AddAllSids(t, id, rs);
  }

  /** `add_all` keeps the tables consistent. */
  lemma {:induction false} AddAllConsistent(t: Tables, id: string, rs: seq<string>)
    requires Consistent(t)
    ensures Consistent(AddAll(t, id, rs))
    decreases |rs|
  {
    if |rs| > 0 {
      AddAllConsistent(t, id, rs[..|rs| - 1]);
      AddOneConsistent(AddAll(t, id, rs[..|rs| - 1]), id, rs[|rs| - 1]);
    }
  }

  /** `add(id, r)` makes `id` a member of `r` in both directions. */
  lemma AddJoins(t: Tables, id: string, r: string)
    ensures id in Members(AddAll(t, id, [r]), r) && r in RoomsOf(AddAll(t, id, [r]), id)
    ensures r in AddAll(t, id, [r]).rooms && id in AddAll(t, id, [r]).sids
  {
    assert [r][..0] == [];
  }

  /** Set semantics: adding a membership that is already recorded changes nothing. */
  lemma ReAddChangesNothing(t: Tables, id: string, r: string)
    requires id in Members(t, r) && r in RoomsOf(t, id)
    ensures AddAll(t, id, [r]) == t
  {
    assert [r][..0] == [];
    var t' := AddOne(t, id, r);
    assert t'.rooms[r] == t.rooms[r];
    assert t'.rooms == t.rooms;
    assert RoomsOf(t, id) + {r} == t.sids[id];
    assert t'.sids == t.sids;
  }

  /** `delete` keeps the tables consistent. */
  lemma DeleteConsistent(t: Tables, id: string, r: string)
    requires Consistent(t)
    ensures Consistent(Delete(t, id, r))
  {
    var t' := Delete(t, id, r);
    forall r', sid
      ensures sid in Members(t', r') <==> r' in RoomsOf(t', sid)
    {
      assert sid in Members(t, r') <==> r' in RoomsOf(t, sid);
    }
  }

  /** `delete(id, r)` removes exactly the pair (id, r), and `id` keeps its (maybe empty) entry. */
  lemma DeleteEffect(t: Tables, id: string, r: string)
    requires Consistent(t)
    ensures forall r' :: Members(Delete(t, id, r), r') == Members(t, r') - (if r' == r then {id} else {})
    ensures forall sid :: RoomsOf(Delete(t, id, r), sid) == RoomsOf(t, sid) - (if sid == id then {r} else {})
    ensures Delete(t, id, r).sids.Keys == t.sids.Keys
  {
  }

  /** Deleting a membership that does not exist changes nothing. */
  lemma DeleteNonMemberChangesNothing(t: Tables, id: string, r: string)
    requires Consistent(t) && id !in Members(t, r)
    ensures Delete(t, id, r) == t
  {
    var t' := Delete(t, id, r);
    if r in t.rooms {
      assert t.rooms[r].Delete(id).0 == t.rooms[r];
      assert t'.rooms == t.rooms;
    }
    assert id in Members(t, r) <==> r in RoomsOf(t, id);
    if id in t.sids {
      assert t.sids[id] - {r} == t.sids[id];
      assert t'.sids == t.sids;
    }
  }

  /** `RemoveFromRooms` over no rooms leaves the map as it is. */
  lemma RemoveFromNoRooms(rooms: map<string, Room>, id: string)
    ensures RemoveFromRooms(rooms, id, {}) == rooms
  {
    assert RemoveFromRooms(rooms, id, {}).Keys == rooms.Keys;
  }

  /** One more pass of the `delete_all` loop extends the rooms handled by one. */
  lemma RemoveFromRoomsStep(rooms: map<string, Room>, id: string, done: set<string>, r: string)
    requires r !in done
    ensures RemoveIdFromRoom(RemoveFromRooms(rooms, id, done), id, r) == RemoveFromRooms(rooms, id, done + {r})
  {
    var before := RemoveFromRooms(rooms, id, done);
    var after := RemoveFromRooms(rooms, id, done + {r});
    var stepped := RemoveIdFromRoom(before, id, r);
    assert stepped.Keys == after.Keys;
    forall k | k in after
      ensures stepped[k] == after[k]
    {
    }
  }

  /** `delete_all` keeps the tables consistent. */
  lemma DeleteAllConsistent(t: Tables, id: string)
    requires Consistent(t)
    ensures Consistent(DeleteAll(t, id))
  {
    var t' := DeleteAll(t, id);
    forall r, sid
      ensures sid in Members(t', r) <==> r in RoomsOf(t', sid)
    {
      assert sid in Members(t, r) <==> r in RoomsOf(t, sid);
      assert id in Members(t, r) <==> r in RoomsOf(t, id);
    }
  }

  /** After `delete_all(id)`, `id` is in no room and has no entry, and every other socket keeps its rooms. */
  lemma DeleteAllEffect(t: Tables, id: string)
    requires Consistent(t)
    ensures id !in DeleteAll(t, id).sids
    ensures forall r :: Members(DeleteAll(t, id), r) == Members(t, r) - {id}
    ensures forall sid :: sid != id ==> (sid in DeleteAll(t, id).sids <==> sid in t.sids)
    ensures forall sid :: sid != id ==> RoomsOf(DeleteAll(t, id), sid) == RoomsOf(t, sid)
  {
    forall r
      ensures Members(DeleteAll(t, id), r) == Members(t, r) - {id}
    {
      assert id in Members(t, r) <==> r in RoomsOf(t, id);
    }
  }

  /** `get_all_sids_from_rooms(rs)` is the union of the rooms in `rs`; a room not stored adds nothing. */
  lemma {:induction false} ResolveIsUnion(t: Tables, rs: seq<string>)
    ensures forall sid :: sid in Resolve(t, rs) <==> exists i :: 0 <= i < |rs| && sid in Members(t, rs[i])
    decreases |rs|
  {
    if |rs| > 0 {
      var front := rs[..|rs| - 1];
      ResolveIsUnion(t, front);
      forall sid | sid in Resolve(t, rs)
        ensures exists i :: 0 <= i < |rs| && sid in Members(t, rs[i])
      {
        if sid in Resolve(t, front) {
          var i :| 0 <= i < |front| && sid in Members(t, front[i]);
          assert rs[i] == front[i];
        } else {
          assert sid in Members(t, rs[|rs| - 1]);
        }
      }
      forall sid | exists i :: 0 <= i < |rs| && sid in Members(t, rs[i])
        ensures sid in Resolve(t, rs)
      {
        var i :| 0 <= i < |rs| && sid in Members(t, rs[i]);
        if i < |rs| - 1 {
          assert front[i] == rs[i];
        }
      }
    }
  }

  /** In consistent tables every room member has an entry, and every stored room is listed for some socket. */
  lemma ConsistentQueries(t: Tables)
    requires Consistent(t)
    ensures forall r, sid :: sid in Members(t, r) ==> sid in t.sids
    ensures forall r :: r in t.rooms ==> exists sid :: r in RoomsOf(t, sid)
  {
    forall r | r in t.rooms
      ensures exists sid :: r in RoomsOf(t, sid)
    {
      var sid :| sid in t.rooms[r].sockets;
      assert sid in Members(t, r);
      assert r in RoomsOf(t, sid);
    }
    forall r, sid | sid in Members(t, r)
      ensures sid in t.sids
    {
      assert r in RoomsOf(t, sid);
    }
  }

  /** Every socket that is a member of some stored room. */
  ghost function Everyone(t: Tables): set<string> {
    set r, sid | r in t.rooms && sid in t.rooms[r].sockets :: sid
  }

  /** Resolving a list that names exactly the stored rooms gives every member of every room. */
  lemma ResolveAllRooms(t: Tables, rs: seq<string>)
    requires forall r :: r in rs <==> r in t.rooms
    ensures Resolve(t, rs) == Everyone(t)
  {
    ResolveIsUnion(t, rs);
    forall sid | sid in Everyone(t)
      ensures sid in Resolve(t, rs)
    {
      var r :| r in t.rooms && sid in t.rooms[r].sockets;
      var i :| 0 <= i < |rs| && rs[i] == r;
      assert sid in Members(t, rs[i]);
    }
  }

  /** The elements of a set in some order, each once (a `HashMap` key list). */
  method ListOf(s: set<string>) returns (xs: seq<string>)
    ensures forall x :: x in xs <==> x in s
    ensures |xs| == |s|
  {
    xs := [];
    var pending := s;
    while pending != {}
      invariant pending <= s
      invariant forall x :: x in xs <==> x in s - pending
      invariant |xs| + |pending| == |s|
      decreases pending
    {
      var x :| x in pending;
      xs := xs + [x];
      pending := pending - {x};
    }
  }
}
