/**
 The chat server's room coordinator: the module-level dictionaries `users`,
 `rooms`, `roomMessages` and `roomUsers` as the fields of one object, and one
 method per socket handler and helper, each run to completion before the next.

 A history array is shared by two keys of `roomMessages` once a room has been
 renamed, so that a push through one key shows under the other and a loop over
 the keys reaches the shared array twice. The model keeps every history array
 the server has created in `arrays`, in creation order, and a key of
 `roomMessages` holds the index of the array it refers to; `[]` in the source
 (a new array) is a new index.

 `for…in` visits keys in an order the language fixes; it is a parameter here,
 with the requirement that it lists every key. Broadcasts (`io.emit`,
 `io.to(...).emit`), socket group joins and leaves, `Date.now()` (the parameter
 `now`) and the timer are outside the model.
 */
module ChatServer {
  import opened JsString
  import opened ChatState
  import opened Histories
  import opened Reaper

  /** The presence list of every room, as `updateRoomUsers` computes it. */
  function AllPresence(rooms: map<string, Room>, users: map<ConnId, string>): (r: map<string, seq<Option<string>>>)
    ensures r.Keys == rooms.Keys
    ensures forall k :: k in r ==> |r[k]| == |rooms[k].members|
  {
    map k | k in rooms :: Presence(rooms[k].members, users)
  }

  /** The rooms of `rooms` whose names occur in `names`: those a loop over `names` has reached. */
  function Restrict(rooms: map<string, Room>, names: seq<string>): (r: map<string, Room>)
    ensures r.Keys == rooms.Keys * set n | n in names
    ensures forall k :: k in r ==> r[k] == rooms[k]
  {
    map k | k in rooms && k in names :: rooms[k]
  }

  /** A loop over names that lists every room reaches every room. */
  lemma RestrictAll(rooms: map<string, Room>, names: seq<string>)
    requires Covers(names, rooms.Keys)
    ensures Restrict(rooms, names) == rooms
  {
    MapsAgree(Restrict(rooms, names), rooms);
  }

  /** One more name reached. */
  lemma RestrictStep(rooms: map<string, Room>, names: seq<string>, x: string)
    ensures Restrict(rooms, names + [x]) == if x in rooms then Restrict(rooms, names)[x := rooms[x]] else Restrict(rooms, names)
  {
    var want := if x in rooms then Restrict(rooms, names)[x := rooms[x]] else Restrict(rooms, names);
    assert forall n :: n in names + [x] <==> n in names || n == x;
    MapsAgree(Restrict(rooms, names + [x]), want);
  }

  /** One step of the `refresh_all_rooms` loop, on the room `x`, keeps its invariant. */
  lemma RefreshStep(before: map<string, seq<Option<string>>>, rooms: map<string, Room>, users: map<ConnId, string>,
                    names: seq<string>, x: string)
    ensures before + AllPresence(Restrict(rooms, names + [x]), users)
         == if x in rooms then (before + AllPresence(Restrict(rooms, names), users))[x := Presence(rooms[x].members, users)]
            else before + AllPresence(Restrict(rooms, names), users)
  {
    RestrictStep(rooms, names, x);
    var want := if x in rooms then (before + AllPresence(Restrict(rooms, names), users))[x := Presence(rooms[x].members, users)]
                else before + AllPresence(Restrict(rooms, names), users);
    MapsAgree(before + AllPresence(Restrict(rooms, names + [x]), users), want);
  }

  /** The rooms that list `id` among their members, with every occurrence of `id` filtered out. */
  function Leaving(rooms: map<string, Room>, id: ConnId): (r: map<string, Room>)
    ensures r.Keys == set k | k in rooms && id in rooms[k].members
    ensures forall k :: k in r ==> id !in r[k].members && r[k] == rooms[k].(members := r[k].members)
    ensures forall k :: k in r ==> r[k].members == Without(rooms[k].members, id)
  {
    map k | k in rooms && id in rooms[k].members :: rooms[k].(members := Without(rooms[k].members, id))
  }

  /**
   After `disconnect` no room lists the caller, so a second `disconnect` of the same
   id finds no room to change.
   */
  lemma DisconnectClears(rooms: map<string, Room>, id: ConnId)
    ensures forall k :: k in rooms + Leaving(rooms, id) ==> id !in (rooms + Leaving(rooms, id))[k].members
    ensures Leaving(rooms + Leaving(rooms, id), id) == map[]
    ensures var after := rooms + Leaving(rooms, id); after + Leaving(after, id) == after
  {
    var after := rooms + Leaving(rooms, id);
    forall k | k in after ensures id !in after[k].members {
      if k !in Leaving(rooms, id) {
        assert after[k] == rooms[k];
      }
    }
    assert Leaving(after, id).Keys == {};
  }

  /**
   `disconnect` removes the caller the way `leave_room` does and touches no one else:
   in every room each other member keeps its number of entries, and the remaining
   members keep their order.
   */
  lemma DisconnectKeepsOthers(rooms: map<string, Room>, id: ConnId, k: string, x: ConnId, a: seq<ConnId>, b: seq<ConnId>)
    requires k in rooms && x != id && rooms[k].members == a + b
    ensures var after := rooms + Leaving(rooms, id);
      && k in after
      && multiset(after[k].members)[x] == multiset(rooms[k].members)[x]
      && after[k].members == Without(a, id) + Without(b, id)
  {
    WithoutAppend(a, b, id);
  }

  /** One step of the `disconnect` loop, on the room `x`, keeps its invariant. */
  lemma DisconnectStep(rooms0: map<string, Room>, names: seq<string>, x: string, id: ConnId)
    ensures var cur := rooms0 + Leaving(Restrict(rooms0, names), id);
      Leaving(Restrict(rooms0, names + [x]), id)
        == if x in cur && id in cur[x].members
           then Leaving(Restrict(rooms0, names), id)[x := cur[x].(members := Without(cur[x].members, id))]
           else Leaving(Restrict(rooms0, names), id)
  {
    RestrictStep(rooms0, names, x);
    var cur := rooms0 + Leaving(Restrict(rooms0, names), id);
    var want := if x in cur && id in cur[x].members
                then Leaving(Restrict(rooms0, names), id)[x := cur[x].(members := Without(cur[x].members, id))]
                else Leaving(Restrict(rooms0, names), id);
    MapsAgree(Leaving(Restrict(rooms0, names + [x]), id), want);
  }

  class Coordinator {
    var users: map<ConnId, string>
    var rooms: map<string, Room>
    /** For each key of `roomMessages`, the index in `arrays` of the array it refers to. */
    var roomMessages: map<string, nat>
    /** Every history array the server has created, by creation. */
    var arrays: seq<seq<Message>>
    var roomUsers: map<string, seq<Option<string>>>

    /** Every key of `roomMessages` refers to an array that exists. */
    ghost predicate Owned()
      reads this`roomMessages, this`arrays
    {
      Tracks(roomMessages, arrays)
    }

    /** Also, every room has a history array (the handlers index `roomMessages[roomName]` for any room). */
    ghost predicate Valid()
      reads this`roomMessages, this`arrays, this`rooms
    {
      Owned() && rooms.Keys <= roomMessages.Keys
    }

    /** The contents of the history array under every key. */
    ghost function Logs(): (l: map<string, seq<Message>>)
      reads this`roomMessages, this`arrays
      requires Owned()
      ensures l.Keys == roomMessages.Keys
    {
      LogsOf(roomMessages, arrays)
    }

    constructor ()
      ensures Valid()
      ensures users == map[] && rooms == map[] && roomMessages == map[] && arrays == [] && roomUsers == map[]
    {
      users, rooms, roomMessages, arrays, roomUsers := map[], map[], map[], [], map[];
    }

    /**
     `addNewMessageToRooms(text)`: each history array without an entry of this exact
     text gets one, written for the first key under which the loop reaches it.
     Arrays no key refers to are not reachable and not specified.
     */
    method AddNewMessageToRooms(text: string, order: seq<string>)
      requires Owned() && Covers(order, roomMessages.Keys)
      modifies this`arrays
      ensures Owned() && arrays == NoticeFold(old(arrays), roomMessages, order, text)
    {
      var i := 0;
      while i < |order|
        invariant 0 <= i <= |order|
        invariant arrays == NoticeFold(old(arrays), roomMessages, order[..i], text)
      {
        assert order[..i + 1][..i] == order[..i];
        var room := order[i];
        if room in roomMessages && !Mentions(arrays[roomMessages[room]], text) {
          var id := roomMessages[room];
          arrays := arrays[id := arrays[id] + [Message(room, text)]];
        }
        i := i + 1;
      }
      assert order[..i] == order;
    }

    /** `updateRoomUsers(roomName)`: the presence list of the room, member by member. */
    method UpdateRoomUsers(roomName: string)
      requires roomName in rooms
      modifies this`roomUsers
      ensures roomUsers == old(roomUsers)[roomName := Presence(rooms[roomName].members, users)]
    {
      roomUsers := roomUsers[roomName := Presence(rooms[roomName].members, users)];
    }

    /** `register`: binds (or rebinds) the caller's display name. */
    method Register(caller: ConnId, username: string)
      modifies this`users
      ensures users == old(users)[caller := username]
    {
      users := users[caller := username];
    }

    /**
     `send_message`: appends the payload to the key's history array, first creating an
     array when the key has none, then marks the room used now. When no room has the
     name, the handler throws at the timestamp update, after the push (`thrown`).
     */
    method SendMessage(roomName: string, message: string, now: int) returns (thrown: bool)
      requires Valid()
      modifies this`rooms, this`roomMessages, this`arrays
      ensures Valid() && users == old(users) && roomUsers == old(roomUsers)
      ensures thrown <==> roomName !in old(rooms)
      ensures rooms == if thrown then old(rooms) else old(rooms)[roomName := old(rooms)[roomName].(lastUpdated := now)]
      ensures roomName in old(roomMessages) ==>
        && roomMessages == old(roomMessages)
        && arrays == old(arrays)[roomMessages[roomName] := old(arrays)[roomMessages[roomName]] + [Message(roomName, message)]]
      ensures roomName !in old(roomMessages) ==>
        && roomMessages == old(roomMessages)[roomName := |old(arrays)|]
        && arrays == old(arrays) + [[Message(roomName, message)]]
    {
      if roomName !in roomMessages {
        roomMessages := roomMessages[roomName := |arrays|];
        arrays := arrays + [[]];
      }
      var id := roomMessages[roomName];
      arrays := arrays[id := arrays[id] + [Message(roomName, message)]];
      if roomName !in old(roomMessages) {
        assert id == |old(arrays)| && arrays[id] == [] + [Message(roomName, message)] == [Message(roomName, message)];
        assert arrays[..|old(arrays)|] == old(arrays);
        assert arrays == arrays[..|old(arrays)|] + [[Message(roomName, message)]];
      }
      if roomName !in rooms {
        return true;
      }
      rooms := rooms[roomName := rooms[roomName].(lastUpdated := now)];
      return false;
    }

    /**
     The `forEach` of the `user` handler on one history array: in every entry the first
     occurrence of `last` is replaced by `nv`.
     */
    method RewriteArray(id: nat, last: string, nv: string)
      requires id < |arrays|
      modifies this`arrays
      ensures arrays == old(arrays)[id := Rewritten(old(arrays)[id], last, nv)]
    {
      var i := 0;
      while i < |arrays[id]|
        invariant |arrays| == |old(arrays)| && |arrays[id]| == |old(arrays)[id]| && 0 <= i <= |arrays[id]|
        invariant arrays == old(arrays)[id := arrays[id]]
        invariant forall j :: 0 <= j < i ==> arrays[id][j] == RewriteMessage(old(arrays)[id][j], last, nv)
        invariant forall j :: i <= j < |arrays[id]| ==> arrays[id][j] == old(arrays)[id][j]
      {
        var msg := arrays[id][i];
        arrays := arrays[id := arrays[id][i := msg.(message := ReplaceFirst(msg.message, last, nv))]];
        i := i + 1;
      }
      assert arrays[id] == Rewritten(old(arrays)[id], last, nv);
    }

    /**
     `user`: the caller's display name becomes `nv`; every stored message has the first
     occurrence of `last` replaced, once per key under which the loop reaches its
     array; then the rename notice goes to every history.
     */
    method RenameUser(caller: ConnId, last: string, nv: string, order: seq<string>)
      requires Owned() && ListsKeys(order, roomMessages.Keys)
      modifies this`users, this`arrays
      ensures users == old(users)[caller := nv]
      ensures arrays == NoticeFold(RewriteFold(old(arrays), roomMessages, order, last, nv), roomMessages,
                                   order, RenamedUserText(last, nv))
    {
      users := users[caller := nv];
      var i := 0;
      while i < |order|
        invariant 0 <= i <= |order|
        invariant users == old(users)[caller := nv]
        invariant arrays == RewriteFold(old(arrays), roomMessages, order[..i], last, nv)
      {
        assert order[..i + 1][..i] == order[..i];
        var room := order[i];
        if room in roomMessages {
          RewriteArray(roomMessages[room], last, nv);
        }
        i := i + 1;
      }
      assert order[..i] == order;
      AddNewMessageToRooms(RenamedUserText(last, nv), order);
    }

    /**
     `create_room`: unless an active room has the name, a new active room owned by the
     caller, with no members and a new history array; the creation notice goes to every
     history, and the new one holds only that notice.
     */
    method CreateRoom(caller: ConnId, roomName: string, now: int, order: seq<string>)
      requires Valid() && Covers(order, roomMessages.Keys + {roomName})
      modifies this`rooms, this`roomMessages, this`arrays, this`roomUsers
      ensures Valid() && users == old(users)
      ensures old(roomName !in rooms || !rooms[roomName].active) ==>
        && rooms == old(rooms)[roomName := Room(caller, [], true, now)]
        && roomMessages == old(roomMessages)[roomName := |old(arrays)|]
        && arrays == NoticeFold(old(arrays) + [[]], roomMessages, order, CreatedText(NameOf(users, caller), roomName))
        && Logs()[roomName] == [Message(roomName, CreatedText(NameOf(users, caller), roomName))]
        && roomUsers == old(roomUsers)[roomName := []]
      ensures old(roomName in rooms && rooms[roomName].active) ==>
        rooms == old(rooms) && roomMessages == old(roomMessages) && arrays == old(arrays) && roomUsers == old(roomUsers)
    {
      if roomName !in rooms || !rooms[roomName].active {
        var text := CreatedText(NameOf(users, caller), roomName);
        NoticeFoldFresh(arrays, roomMessages, order, text, roomName);
        rooms := rooms[roomName := Room(caller, [], true, now)];
        roomMessages := roomMessages[roomName := |arrays|];
        arrays := arrays + [[]];
        AddNewMessageToRooms(text, order);
        UpdateRoomUsers(roomName);
      }
    }

    /**
     `modify_room`: the owner's room moves to the new key, the new key refers to the same
     history array as the old one, and the rename notice goes to every history. With no
     check on the new name, renaming a room to its own name removes it.
     */
    method ModifyRoom(caller: ConnId, roomName: string, newRoomName: string, order: seq<string>)
      requires Valid() && Covers(order, roomMessages.Keys + {newRoomName})
      modifies this`rooms, this`roomMessages, this`arrays
      ensures Valid() && users == old(users) && roomUsers == old(roomUsers)
      ensures old(roomName in rooms && rooms[roomName].owner == caller) ==>
        && rooms == old(rooms)[newRoomName := old(rooms)[roomName]] - {roomName}
        && roomMessages == old(roomMessages)[newRoomName := old(roomMessages)[roomName]]
        && arrays == NoticeFold(old(arrays), roomMessages, order, RenamedRoomText(roomName, newRoomName, NameOf(users, caller)))
      ensures !old(roomName in rooms && rooms[roomName].owner == caller) ==>
        rooms == old(rooms) && roomMessages == old(roomMessages) && arrays == old(arrays)
    {
      if roomName in rooms && rooms[roomName].owner == caller {
        rooms := rooms[newRoomName := rooms[roomName]];
        roomMessages := roomMessages[newRoomName := roomMessages[roomName]];
        rooms := rooms - {roomName};
        AddNewMessageToRooms(RenamedRoomText(roomName, newRoomName, NameOf(users, caller)), order);
      }
    }

    /**
     `delete_room`: the owner's room stays in `rooms` but inactive, with its owner,
     members and timestamp; the deletion notice goes to every history; then the room's
     key refers to a new, empty history array.
     */
    method DeleteRoom(caller: ConnId, roomName: string, order: seq<string>)
      requires Valid() && Covers(order, roomMessages.Keys)
      modifies this`rooms, this`roomMessages, this`arrays
      ensures Valid() && users == old(users) && roomUsers == old(roomUsers)
      ensures old(roomName in rooms && rooms[roomName].owner == caller) ==>
        && rooms == old(rooms)[roomName := old(rooms)[roomName].(active := false)]
        && roomMessages == old(roomMessages)[roomName := |old(arrays)|]
        && arrays == NoticeFold(old(arrays), old(roomMessages), order, DeletedText(NameOf(users, caller), roomName)) + [[]]
        && Logs()[roomName] == []
      ensures !old(roomName in rooms && rooms[roomName].owner == caller) ==>
        rooms == old(rooms) && roomMessages == old(roomMessages) && arrays == old(arrays)
    {
      if roomName in rooms && rooms[roomName].owner == caller {
        rooms := rooms[roomName := rooms[roomName].(active := false)];
        AddNewMessageToRooms(DeletedText(NameOf(users, caller), roomName), order);
        roomMessages := roomMessages[roomName := |arrays|];
        arrays := arrays + [[]];
      }
    }

    /** `refresh_all_rooms`: every room's presence list is recomputed. */
    method RefreshAllRooms(order: seq<string>)
      requires Covers(order, rooms.Keys)
      modifies this`roomUsers
      ensures roomUsers == old(roomUsers) + AllPresence(rooms, users)
    {
      var i := 0;
      while i < |order|
        invariant 0 <= i <= |order|
        invariant roomUsers == old(roomUsers) + AllPresence(Restrict(rooms, order[..i]), users)
      {
        assert order[..i + 1] == order[..i] + [order[i]];
        RefreshStep(old(roomUsers), rooms, users, order[..i], order[i]);
        if order[i] in rooms {
          UpdateRoomUsers(order[i]);
        }
        i := i + 1;
      }
      assert order[..i] == order;
      RestrictAll(rooms, order);
    }

    /**
     `join_room`: on an active room, the join notice is pushed to its history, the
     caller is appended to its members, the room is marked used now and its presence
     list recomputed.
     */
    method JoinRoom(caller: ConnId, roomName: string, now: int)
      requires Valid()
      modifies this`rooms, this`arrays, this`roomUsers
      ensures Valid() && users == old(users) && roomMessages == old(roomMessages)
      ensures old(roomName in rooms && rooms[roomName].active) ==>
        && rooms == old(rooms)[roomName := old(rooms)[roomName].(members := old(rooms)[roomName].members + [caller], lastUpdated := now)]
        && arrays == old(arrays)[roomMessages[roomName] := old(arrays)[roomMessages[roomName]]
                                   + [Message(roomName, JoinedText(NameOf(users, caller), roomName))]]
        && roomUsers == old(roomUsers)[roomName := Presence(rooms[roomName].members, users)]
      ensures !old(roomName in rooms && rooms[roomName].active) ==>
        rooms == old(rooms) && arrays == old(arrays) && roomUsers == old(roomUsers)
    {
      if roomName in rooms && rooms[roomName].active {
        var id := roomMessages[roomName];
        arrays := arrays[id := arrays[id] + [Message(roomName, JoinedText(NameOf(users, caller), roomName))]];
        rooms := rooms[roomName := rooms[roomName].(members := rooms[roomName].members + [caller])];
        rooms := rooms[roomName := rooms[roomName].(lastUpdated := now)];
        UpdateRoomUsers(roomName);
      }
    }

    /** `join_r`: as `join_room`, without the notice and without touching the timestamp. */
    method JoinSilently(caller: ConnId, roomName: string)
      requires Valid()
      modifies this`rooms, this`roomUsers
      ensures Valid() && users == old(users)
      ensures old(roomName in rooms && rooms[roomName].active) ==>
        && rooms == old(rooms)[roomName := old(rooms)[roomName].(members := old(rooms)[roomName].members + [caller])]
        && roomUsers == old(roomUsers)[roomName := Presence(rooms[roomName].members, users)]
      ensures !old(roomName in rooms && rooms[roomName].active) ==>
        rooms == old(rooms) && roomUsers == old(roomUsers)
    {
      if roomName in rooms && rooms[roomName].active {
        rooms := rooms[roomName := rooms[roomName].(members := rooms[roomName].members + [caller])];
        UpdateRoomUsers(roomName);
      }
    }

    /**
     `leave_room`: on an active room, the leave notice is pushed to its history, every
     occurrence of the caller is filtered out of its members and its presence list is
     recomputed; the timestamp is not touched.
     */
    method LeaveRoom(caller: ConnId, roomName: string)
      requires Valid()
      modifies this`rooms, this`arrays, this`roomUsers
      ensures Valid() && users == old(users) && roomMessages == old(roomMessages)
      ensures old(roomName in rooms && rooms[roomName].active) ==>
        && rooms == old(rooms)[roomName := old(rooms)[roomName].(members := Without(old(rooms)[roomName].members, caller))]
        && arrays == old(arrays)[roomMessages[roomName] := old(arrays)[roomMessages[roomName]]
                                   + [Message(roomName, LeftText(NameOf(users, caller), roomName))]]
        && roomUsers == old(roomUsers)[roomName := Presence(rooms[roomName].members, users)]
      ensures !old(roomName in rooms && rooms[roomName].active) ==>
        rooms == old(rooms) && arrays == old(arrays) && roomUsers == old(roomUsers)
    {
      if roomName in rooms && rooms[roomName].active {
        var id := roomMessages[roomName];
        arrays := arrays[id := arrays[id] + [Message(roomName, LeftText(NameOf(users, caller), roomName))]];
        rooms := rooms[roomName := rooms[roomName].(members := Without(rooms[roomName].members, caller))];
        UpdateRoomUsers(roomName);
      }
    }

    /**
     `disconnect`: the caller is filtered out of the members of every room that lists
     it, whose presence list is then recomputed (with the caller's name still
     registered); finally the caller's name is forgotten. Histories are untouched.
     */
    method Disconnect(caller: ConnId, order: seq<string>)
      requires Covers(order, rooms.Keys)
      modifies this`rooms, this`users, this`roomUsers
      ensures rooms == old(rooms) + Leaving(old(rooms), caller)
      ensures roomUsers == old(roomUsers) + AllPresence(Leaving(old(rooms), caller), old(users))
      ensures users == old(users) - {caller}
    {
      var i := 0;
      while i < |order|
        invariant 0 <= i <= |order| && users == old(users)
        invariant rooms == old(rooms) + Leaving(Restrict(old(rooms), order[..i]), caller)
        invariant roomUsers == old(roomUsers) + AllPresence(Leaving(Restrict(old(rooms), order[..i]), caller), users)
      {
        assert order[..i + 1] == order[..i] + [order[i]];
        RestrictStep(old(rooms), order[..i], order[i]);
        var name := order[i];
        DisconnectStep(old(rooms), order[..i], name, caller);
        if name in rooms && caller in rooms[name].members {
          rooms := rooms[name := rooms[name].(members := Without(rooms[name].members, caller))];
          UpdateRoomUsers(name);
        }
        i := i + 1;
      }
      assert order[..i] == order;
      RestrictAll(old(rooms), order);
      users := users - {caller};
    }

    /**
     `checkInactiveRooms`: the loop over the rooms, each step done by `ExpireIfIdle`. The
     result is the fold `ReapAll`, so exactly the idle active rooms disappear.
     */
    method Reap(now: int, roomOrder: seq<string>, logOrder: seq<string>)
      requires Valid() && Covers(roomOrder, rooms.Keys) && Covers(logOrder, roomMessages.Keys)
      modifies this`rooms, this`roomMessages, this`arrays
      ensures Valid() && users == old(users) && roomUsers == old(roomUsers)
      ensures Store(rooms, roomMessages, arrays)
           == ReapAll(Store(old(rooms), old(roomMessages), old(arrays)), roomOrder, now, logOrder)
      ensures rooms == map k | k in old(rooms) && !Expired(old(rooms)[k], now) :: old(rooms)[k]
      ensures roomMessages == map k | k in old(roomMessages) && !(k in old(rooms) && Expired(old(rooms)[k], now))
                                    :: old(roomMessages)[k]
    {
      ghost var s0 := Store(rooms, roomMessages, arrays);
      var i := 0;
      while i < |roomOrder|
        invariant 0 <= i <= |roomOrder| && rooms.Keys <= roomMessages.Keys
        invariant Store(rooms, roomMessages, arrays) == ReapAll(s0, roomOrder[..i], now, logOrder)
      {
        assert roomOrder[..i + 1][..i] == roomOrder[..i];
        ExpireIfIdle(roomOrder[i], now, logOrder);
        i := i + 1;
      }
      assert roomOrder[..i] == roomOrder;
      ReapRemovesExactlyIdle(s0, roomOrder, now, logOrder);
    }

    /**
     The body of the `checkInactiveRooms` loop for the room `name`: when it is active and
     idle for more than the limit, it is marked inactive, its expiry notice goes to every
     history, and it is removed from `roomMessages` and from `rooms`.
     */
    method ExpireIfIdle(name: string, now: int, logOrder: seq<string>)
      requires Valid() && Covers(logOrder, roomMessages.Keys)
      modifies this`rooms, this`roomMessages, this`arrays
      ensures Valid()
      ensures Store(rooms, roomMessages, arrays) == ReapStep(Store(old(rooms), old(roomMessages), old(arrays)), name, now, logOrder)
    {
      if name in rooms && Expired(rooms[name], now) {
        rooms := rooms[name := rooms[name].(active := false)];
        AddNewMessageToRooms(ExpiredText(name), logOrder);
        roomMessages := roomMessages - {name};
        rooms := rooms - {name};
      }
    }
  }
}
