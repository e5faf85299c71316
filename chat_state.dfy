/**
 Values of the chat server's state and the pure functions that say what its
 handlers do to them: member lists, presence lists, the active-room query, the
 deduplicating "notice to every room" broadcast and the username rewrite of
 stored messages.

 Histories are arrays that two keys of `roomMessages` can share (after a room is
 renamed), so the functions about histories take `refs`, the map from room name
 to the identity of its array, beside `logs`, the map from room name to that
 array's contents. The identity type `T` is generic: the server instantiates it
 with the index of the array in its table of arrays.
 */
module ChatState {
  import opened JsString

  /** A connection (socket) id. */
  type ConnId = string

  datatype Option<T> = None | Some(value: T)

  /** One history entry, `{roomName, message}`. */
  datatype Message = Message(roomName: string, message: string)

  /** One entry of `rooms`. */
  datatype Room = Room(owner: ConnId, members: seq<ConnId>, active: bool, lastUpdated: int)

  /** Milliseconds without activity after which the sweep deletes an active room. */
  const IdleLimit: int := 2 * 60 * 1000

  /** Milliseconds between two sweeps. */
  const SweepPeriod: int := 60 * 100

  /** `users[id]` as JavaScript string concatenation shows it. */
  function NameOf(users: map<ConnId, string>, id: ConnId): string
  {
    if id in users then users[id] else "undefined"
  }

  /** `users[id]` as a presence list holds it (`undefined` for an unregistered id). */
  function Lookup(users: map<ConnId, string>, id: ConnId): Option<string>
  {
    if id in users then Some(users[id]) else None
  }

  function CreatedText(user: string, room: string): string
  {
    "INFO: " + user + " created the channel " + room
  }

  function RenamedRoomText(room: string, newRoom: string, user: string): string
  {
    "INFO: Room " + room + " renamed to " + newRoom + " by " + user
  }

  function DeletedText(user: string, room: string): string
  {
    "INFO: " + user + " deleted the channel " + room
  }

  function JoinedText(user: string, room: string): string
  {
    "INFO: " + user + " joined the channel " + room
  }

  function LeftText(user: string, room: string): string
  {
    "INFO: " + user + " left the channel " + room
  }

  function RenamedUserText(last: string, nv: string): string
  {
    "INFO: " + last + " changed username to " + nv
  }

  function ExpiredText(room: string): string
  {
    "INFO: " + room + " was automatically deleted due to inactivity."
  }

  // ---------------------------------------------------------------------------
  // Member lists and presence

  /** `members.filter(m => m !== id)`: every occurrence of `id` goes, the rest stay. */
  function Without(members: seq<ConnId>, id: ConnId): (r: seq<ConnId>)
    ensures id !in r
    ensures forall x :: x != id ==> multiset(r)[x] == multiset(members)[x]
    ensures id !in members ==> r == members
  {
    if members == [] then []
    else
      assert members == [members[0]] + members[1..];
      if members[0] == id then Without(members[1..], id)
      else [members[0]] + Without(members[1..], id)
  }

  /** The filter keeps the other members in their order. */
  lemma {:induction false} WithoutAppend(a: seq<ConnId>, b: seq<ConnId>, id: ConnId)
    ensures Without(a + b, id) == Without(a, id) + Without(b, id)
  {
    if a == [] {
      assert a + b == b;
    } else {
      assert (a + b)[0] == a[0];
      assert (a + b)[1..] == a[1..] + b;
      WithoutAppend(a[1..], b, id);
    }
  }

  /**
   Leaving after joining: the filter of `leave_room` removes the entry `join_room`
   appended together with every earlier one, so a member who joined twice and left
   once is gone, and one who was not a member ends where it started.
   */
  lemma JoinThenLeave(members: seq<ConnId>, id: ConnId)
    ensures Without(members + [id], id) == Without(members, id)
    ensures id !in members ==> Without(members + [id], id) == members
  {
    WithoutAppend(members, [id], id);
    assert Without([id][1..], id) == [];
  }

  /** `members.map(memberId => users[memberId])`. */
  function Presence(members: seq<ConnId>, users: map<ConnId, string>): (r: seq<Option<string>>)
    ensures |r| == |members|
    ensures forall i :: 0 <= i < |r| ==> (r[i].Some? <==> members[i] in users)
  {
    seq(|members|, i requires 0 <= i < |members| => Lookup(users, members[i]))
  }

  // ---------------------------------------------------------------------------
  // Key enumeration

  /** Map extensionality, stated once for the proofs that need it spelled out. */
  lemma MapsAgree<T>(a: map<string, T>, b: map<string, T>)
    requires a.Keys == b.Keys && forall k :: k in a ==> a[k] == b[k]
    ensures a == b
  {
  }

  predicate Distinct(order: seq<string>)
  {
    forall i, j :: 0 <= i < j < |order| ==> order[i] != order[j]
  }

  /**
   `order` is an order in which `for…in` can visit `keys`: it lists every key once.
   It may list other names too; the loops skip those.
   */
  predicate ListsKeys(order: seq<string>, keys: set<string>)
  {
    Distinct(order) && Covers(order, keys)
  }

  /** Every key appears in `order`. */
  predicate Covers(order: seq<string>, keys: set<string>)
  {
    forall k :: k in keys ==> k in order
  }

  /** `Object.keys(rooms).filter(n => rooms[n].active)`, with the keys in `order`. */
  function ActiveRooms(rooms: map<string, Room>, order: seq<string>): (r: seq<string>)
    ensures forall n :: n in r ==> n in order && n in rooms && rooms[n].active
    ensures forall n :: n in order && n in rooms && rooms[n].active ==> n in r
    ensures Distinct(order) ==> Distinct(r)
  {
    if order == [] then []
    else
      var rest := ActiveRooms(rooms, order[1..]);
      if order[0] in rooms && rooms[order[0]].active then [order[0]] + rest else rest
  }

  // ---------------------------------------------------------------------------
  // The notice broadcast to every tracked room

  /** `h.some(msg => msg.message === text)`. */
  predicate Mentions(h: seq<Message>, text: string)
  {
    exists i :: 0 <= i < |h| && h[i].message == text
  }

  /** How many entries of `h` have exactly the text `text`. */
  function Occurrences(h: seq<Message>, text: string): nat
  {
    if h == [] then 0
    else Occurrences(h[..|h| - 1], text) + (if h[|h| - 1].message == text then 1 else 0)
  }

  lemma {:induction false} MentionsOccurrences(h: seq<Message>, text: string)
    ensures Mentions(h, text) <==> Occurrences(h, text) > 0
  {
    if h != [] {
      var h' := h[..|h| - 1];
      MentionsOccurrences(h', text);
      if Mentions(h', text) {
        var i :| 0 <= i < |h'| && h'[i].message == text;
        assert h[i] == h'[i];
      }
      if Mentions(h, text) && h[|h| - 1].message != text {
        var i :| 0 <= i < |h| && h[i].message == text;
        assert h'[i] == h[i];
      }
    }
  }

  /** Occurrences of any text in an extended history. */
  lemma OccurrencesAppend(h: seq<Message>, m: Message, text: string)
    ensures Occurrences(h + [m], text) == Occurrences(h, text) + (if m.message == text then 1 else 0)
  {
    assert (h + [m])[..|h|] == h;
  }

  /** Some name in `order` holds `v` in `refs`. */
  predicate Holds<T(==)>(order: seq<string>, refs: map<string, T>, v: T)
  {
    exists k :: k in order && k in refs && refs[k] == v
  }

  /** The first name in `order` under which `refs` holds `v`. */
  function FirstHolding<T(==)>(order: seq<string>, refs: map<string, T>, v: T): (k: string)
    requires Holds(order, refs, v)
    ensures k in order && k in refs && refs[k] == v
  {
    if order[0] in refs && refs[order[0]] == v then order[0]
    else
      assert Holds(order[1..], refs, v) by {
        var k :| k in order && k in refs && refs[k] == v;
        assert k != order[0];
        assert k in order[1..];
      }
      FirstHolding(order[1..], refs, v)
  }

  /** If no earlier name holds `v`, the one at `i` is the first. */
  lemma {:induction false} FirstHoldingAt<T>(order: seq<string>, refs: map<string, T>, v: T, i: int)
    requires 0 <= i < |order| && order[i] in refs && refs[order[i]] == v
    requires forall j :: 0 <= j < i ==> !(order[j] in refs && refs[order[j]] == v)
    ensures FirstHolding(order, refs, v) == order[i]
  {
    if i > 0 {
      assert !(order[0] in refs && refs[order[0]] == v);
      assert order[1..][i - 1] == order[i];
      FirstHoldingAt(order[1..], refs, v, i - 1);
    }
  }

  /** One history after the broadcast reaches it through the name `key`. */
  function Noticed(h: seq<Message>, key: string, text: string): (r: seq<Message>)
    ensures Mentions(r, text)
  {
    if Mentions(h, text) then h
    else
      var r := h + [Message(key, text)];
      assert r[|h|].message == text;
      r
  }

  /**
   `addNewMessageToRooms(text)`: every tracked history that has no entry with this
   exact text gets one, written for the first name (in `order`) under which the loop
   reaches that history.
   */
  function NoticeLog<T(==)>(refs: map<string, T>, logs: map<string, seq<Message>>, order: seq<string>, text: string)
    : (r: map<string, seq<Message>>)
    requires logs.Keys == refs.Keys && Covers(order, refs.Keys)
    ensures r.Keys == logs.Keys
  {
    map k | k in logs :: Noticed(logs[k], FirstHolding(order, refs, refs[k]), text)
  }

  /**
   After the broadcast every tracked history contains the text; each history gained
   at most one entry, at its end, carrying the text; and a history that already had
   an entry with this text is unchanged.
   */
  lemma NoticeLogProperties<T>(refs: map<string, T>, logs: map<string, seq<Message>>, order: seq<string>, text: string)
    requires logs.Keys == refs.Keys && Covers(order, refs.Keys)
    ensures var r := NoticeLog(refs, logs, order, text);
      && (forall k :: k in r ==> Mentions(r[k], text))
      && (forall k :: k in r ==> |logs[k]| <= |r[k]| <= |logs[k]| + 1 && r[k][..|logs[k]|] == logs[k])
      && (forall k :: k in r && |r[k]| > |logs[k]| ==> r[k][|logs[k]|].message == text)
      && (forall k :: k in r && Mentions(logs[k], text) ==> r[k] == logs[k])
  {
  }

  /** The broadcast adds its text to a history at most once, and no other text. */
  lemma NoticeLogOccurrences<T>(refs: map<string, T>, logs: map<string, seq<Message>>, order: seq<string>,
                                    text: string, k: string, t: string)
    requires logs.Keys == refs.Keys && Covers(order, refs.Keys) && k in logs
    ensures Occurrences(NoticeLog(refs, logs, order, text)[k], t)
         == Occurrences(logs[k], t) + (if t == text && !Mentions(logs[k], text) then 1 else 0)
  {
    if !Mentions(logs[k], text) {
      OccurrencesAppend(logs[k], Message(FirstHolding(order, refs, refs[k]), text), t);
    }
  }

  // ---------------------------------------------------------------------------
  // The username rewrite of stored messages

  function RewriteMessage(m: Message, last: string, nv: string): Message
  {
    m.(message := ReplaceFirst(m.message, last, nv))
  }

  /** `h.forEach(msg => msg.message = msg.message.replace(last, nv))`. */
  function Rewritten(h: seq<Message>, last: string, nv: string): (r: seq<Message>)
    ensures |r| == |h|
    ensures forall i :: 0 <= i < |h| ==> r[i].roomName == h[i].roomName
  {
    seq(|h|, i requires 0 <= i < |h| => RewriteMessage(h[i], last, nv))
  }

  /** The rewrite applied `n` times. */
  function RewriteN(h: seq<Message>, last: string, nv: string, n: nat): seq<Message>
  {
    if n == 0 then h else Rewritten(RewriteN(h, last, nv, n - 1), last, nv)
  }

  /** Rewriting keeps every entry's place and room name; only the texts change. */
  lemma {:induction false} RewriteNShape(h: seq<Message>, last: string, nv: string, n: nat)
    ensures |RewriteN(h, last, nv, n)| == |h|
    ensures forall i :: 0 <= i < |h| ==> RewriteN(h, last, nv, n)[i].roomName == h[i].roomName
  {
    if n > 0 {
      RewriteNShape(h, last, nv, n - 1);
    }
  }

  /** How many names in `order` hold `v`: how often a loop over `order` reaches it. */
  function CountAliases<T(==)>(order: seq<string>, refs: map<string, T>, v: T): nat
  {
    if order == [] then 0
    else CountAliases(order[..|order| - 1], refs, v)
         + (if order[|order| - 1] in refs && refs[order[|order| - 1]] == v then 1 else 0)
  }

  /** The loop in the `user` handler: each history rewritten once per name that holds it. */
  function RewriteAll<T(==)>(refs: map<string, T>, logs: map<string, seq<Message>>, order: seq<string>,
                             last: string, nv: string): (r: map<string, seq<Message>>)
    requires logs.Keys == refs.Keys
    ensures r.Keys == logs.Keys
  {
    map k | k in logs :: RewriteN(logs[k], last, nv, CountAliases(order, refs, refs[k]))
  }

  /** A history held by one name only is reached exactly once. */
  lemma {:induction false} CountAliasesUnshared<T>(order: seq<string>, refs: map<string, T>, k: string)
    requires Distinct(order) && k in order && k in refs
    requires forall j :: j in refs && j != k ==> refs[j] != refs[k]
    ensures CountAliases(order, refs, refs[k]) == 1
  {
    var n := |order|;
    var init := order[..n - 1];
    assert Distinct(init);
    if order[n - 1] == k {
      assert k !in init;
      CountAliasesAbsent(init, refs, k);
    } else {
      assert k in init by {
        var i :| 0 <= i < n && order[i] == k;
        assert init[i] == k;
      }
      CountAliasesUnshared(init, refs, k);
    }
  }

  lemma {:induction false} CountAliasesAbsent<T>(order: seq<string>, refs: map<string, T>, k: string)
    requires k in refs && k !in order
    requires forall j :: j in refs && j != k ==> refs[j] != refs[k]
    ensures CountAliases(order, refs, refs[k]) == 0
  {
    if order != [] {
      assert order[|order| - 1] != k;
      CountAliasesAbsent(order[..|order| - 1], refs, k);
    }
  }

  /** A history held by two names is reached at least twice. */
  lemma {:induction false} CountAliasesShared<T>(order: seq<string>, refs: map<string, T>, a: string, b: string)
    requires a in order && b in order && a in refs && b in refs && a != b && refs[a] == refs[b]
    ensures CountAliases(order, refs, refs[a]) >= 2
  {
    var n := |order|;
    var init := order[..n - 1];
    if order[n - 1] == a {
      assert b in init by {
        var i :| 0 <= i < n && order[i] == b;
        assert init[i] == b;
      }
      CountAliasesHeld(init, refs, b);
    } else if order[n - 1] == b {
      assert a in init by {
        var i :| 0 <= i < n && order[i] == a;
        assert init[i] == a;
      }
      CountAliasesHeld(init, refs, a);
    } else {
      assert a in init && b in init by {
        var i :| 0 <= i < n && order[i] == a;
        assert init[i] == a;
        var j :| 0 <= j < n && order[j] == b;
        assert init[j] == b;
      }
      CountAliasesShared(init, refs, a, b);
    }
  }

  lemma {:induction false} CountAliasesHeld<T>(order: seq<string>, refs: map<string, T>, k: string)
    requires k in order && k in refs
    ensures CountAliases(order, refs, refs[k]) >= 1
  {
    var n := |order|;
    if order[n - 1] != k {
      assert k in order[..n - 1] by {
        var i :| 0 <= i < n && order[i] == k;
        assert order[..n - 1][i] == k;
      }
      CountAliasesHeld(order[..n - 1], refs, k);
    }
  }

  /**
   The `user` handler on a history that only one name holds: every entry has the first
   occurrence of the old name replaced, once, and no entry is added or removed.
   */
  lemma RewriteAllUnshared<T>(refs: map<string, T>, logs: map<string, seq<Message>>, order: seq<string>,
                                  last: string, nv: string, k: string)
    requires logs.Keys == refs.Keys && ListsKeys(order, refs.Keys) && k in refs
    requires forall j :: j in refs && j != k ==> refs[j] != refs[k]
    ensures RewriteAll(refs, logs, order, last, nv)[k] == Rewritten(logs[k], last, nv)
  {
    CountAliasesUnshared(order, refs, k);
    assert RewriteN(logs[k], last, nv, 1) == Rewritten(RewriteN(logs[k], last, nv, 0), last, nv);
  }

  /**
   A history that two names share (what `modify_room` leaves behind) is rewritten at
   least twice, so the replacement is applied to text it has already produced.
   */
  lemma RewriteAllShared<T>(refs: map<string, T>, logs: map<string, seq<Message>>, order: seq<string>,
                                last: string, nv: string, a: string, b: string)
    requires logs.Keys == refs.Keys && ListsKeys(order, refs.Keys)
    requires a in refs && b in refs && a != b && refs[a] == refs[b]
    ensures exists n :: n >= 2 && RewriteAll(refs, logs, order, last, nv)[a] == RewriteN(logs[a], last, nv, n)
  {
    CountAliasesShared(order, refs, a, b);
    var n := CountAliases(order, refs, refs[a]);
    assert RewriteAll(refs, logs, order, last, nv)[a] == RewriteN(logs[a], last, nv, n);
  }
}
