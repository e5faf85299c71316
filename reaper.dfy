/**
 What one run of the idle sweep (`checkInactiveRooms`) does to the state, as a
 fold over the rooms in the order the loop visits them, and what that fold
 guarantees: exactly the idle active rooms disappear, from `rooms` and from
 `roomMessages`, and every surviving history only grows, gaining each expiry
 notice once.
 */
module Reaper {
  import opened ChatState
  import opened Histories

  /** The part of the server state the sweep touches: `rooms`, `roomMessages` and the arrays. */
  datatype Store = Store(rooms: map<string, Room>, refs: map<string, nat>, arrays: seq<seq<Message>>)

  /** The sweep's test for one room (`room.active && now - room.lastUpdated > 2 * 60 * 1000`). */
  predicate Expired(room: Room, now: int)
  {
    room.active && now - room.lastUpdated > IdleLimit
  }

  /** Every history name refers to an array, and `logOrder` lists every history name. */
  predicate Tracked(s: Store, logOrder: seq<string>)
  {
    Tracks(s.refs, s.arrays) && Covers(logOrder, s.refs.Keys)
  }

  /** The history under the name `k`. */
  function HistoryOf(s: Store, k: string): seq<Message>
    requires Tracks(s.refs, s.arrays) && k in s.refs
  {
    s.arrays[s.refs[k]]
  }

  /** The loop body for the room `name`. */
  function ReapStep(s: Store, name: string, now: int, logOrder: seq<string>): (r: Store)
    requires Tracked(s, logOrder)
    ensures Tracked(r, logOrder) && |r.arrays| == |s.arrays|
  {
    if name in s.rooms && Expired(s.rooms[name], now) then
      Store(s.rooms - {name}, s.refs - {name}, NoticeFold(s.arrays, s.refs, logOrder, ExpiredText(name)))
    else s
  }

  /** The whole loop over `order`. */
  function ReapAll(s: Store, order: seq<string>, now: int, logOrder: seq<string>): (r: Store)
    requires Tracked(s, logOrder)
    ensures Tracked(r, logOrder) && |r.arrays| == |s.arrays|
    ensures r.refs.Keys <= s.refs.Keys
    decreases |order|
  {
    if order == [] then s
    else ReapStep(ReapAll(s, order[..|order| - 1], now, logOrder), order[|order| - 1], now, logOrder)
  }

  /** The loop has visited `k` and found that room idle. */
  predicate Reaped(rooms: map<string, Room>, order: seq<string>, now: int, k: string)
  {
    k in order && k in rooms && Expired(rooms[k], now)
  }

  /** After a prefix of the loop, the rooms it visited and found idle are gone, the rest untouched. */
  lemma {:induction false} ReapAllRooms(s: Store, order: seq<string>, now: int, logOrder: seq<string>)
    requires Tracked(s, logOrder)
    ensures ReapAll(s, order, now, logOrder).rooms
         == map k | k in s.rooms && !Reaped(s.rooms, order, now, k) :: s.rooms[k]
    decreases |order|
  {
    if order != [] {
      var init := order[..|order| - 1];
      var x := order[|order| - 1];
      var p := ReapAll(s, init, now, logOrder);
      ReapAllRooms(s, init, now, logOrder);
      assert order == init + [x];
      var r := ReapStep(p, x, now, logOrder);
      assert r.rooms == if x in p.rooms && Expired(p.rooms[x], now) then p.rooms - {x} else p.rooms;
      assert forall k :: Reaped(s.rooms, order, now, k)
                     <==> Reaped(s.rooms, init, now, k) || (k == x && k in s.rooms && Expired(s.rooms[k], now));
    }
  }

  /** The same for the history names: a history name goes exactly when its room was reaped. */
  lemma {:induction false} ReapAllRefs(s: Store, order: seq<string>, now: int, logOrder: seq<string>)
    requires Tracked(s, logOrder)
    ensures ReapAll(s, order, now, logOrder).refs
         == map k | k in s.refs && !Reaped(s.rooms, order, now, k) :: s.refs[k]
    decreases |order|
  {
    if order != [] {
      var init := order[..|order| - 1];
      var x := order[|order| - 1];
      var p := ReapAll(s, init, now, logOrder);
      ReapAllRooms(s, init, now, logOrder);
      ReapAllRefs(s, init, now, logOrder);
      assert order == init + [x];
      var r := ReapStep(p, x, now, logOrder);
      var gone := x in p.rooms && Expired(p.rooms[x], now);
      assert r.refs == if gone then p.refs - {x} else p.refs;
      assert gone <==> x in s.rooms && Expired(s.rooms[x], now) && !Reaped(s.rooms, init, now, x);
      var want := map k | k in s.refs && !Reaped(s.rooms, order, now, k) :: s.refs[k];
      forall k ensures (k in r.refs <==> k in want) && (k in want ==> r.refs[k] == want[k]) {
        assert Reaped(s.rooms, order, now, k)
           <==> Reaped(s.rooms, init, now, k) || (k == x && k in s.rooms && Expired(s.rooms[k], now));
      }
      assert r.refs.Keys == want.Keys;
      MapsAgree(r.refs, want);
    }
  }

  /**
   The sweep removes from `rooms` exactly the active rooms idle for more than the
   limit, and their histories from `roomMessages`; deleted (inactive) rooms and
   recently used ones keep their entries unchanged.
   */
  lemma ReapRemovesExactlyIdle(s: Store, order: seq<string>, now: int, logOrder: seq<string>)
    requires Tracked(s, logOrder) && Covers(order, s.rooms.Keys)
    ensures ReapAll(s, order, now, logOrder).rooms
         == map k | k in s.rooms && !Expired(s.rooms[k], now) :: s.rooms[k]
    ensures ReapAll(s, order, now, logOrder).refs
         == map k | k in s.refs && !(k in s.rooms && Expired(s.rooms[k], now)) :: s.refs[k]
  {
    ReapAllRooms(s, order, now, logOrder);
    ReapAllRefs(s, order, now, logOrder);
    assert forall k :: k in s.rooms ==> (Reaped(s.rooms, order, now, k) <==> Expired(s.rooms[k], now));
  }

  /** One loop step on a history that survives it. */
  lemma ReapStepLog(p: Store, x: string, now: int, logOrder: seq<string>, k: string)
    requires Tracked(p, logOrder) && k in ReapStep(p, x, now, logOrder).refs
    ensures k in p.refs
    ensures HistoryOf(ReapStep(p, x, now, logOrder), k)
         == if x in p.rooms && Expired(p.rooms[x], now)
            then NoticeLog(p.refs, LogsOf(p.refs, p.arrays), logOrder, ExpiredText(x))[k] else HistoryOf(p, k)
  {
    if x in p.rooms && Expired(p.rooms[x], now) {
      NoticeFoldLog(p.arrays, p.refs, logOrder, ExpiredText(x));
    }
  }

  /** One loop step keeps the old entries of a surviving history as a prefix. */
  lemma ReapStepPrefix(p: Store, x: string, now: int, logOrder: seq<string>, k: string)
    requires Tracked(p, logOrder) && k in ReapStep(p, x, now, logOrder).refs
    ensures k in p.refs
    ensures var b, c := HistoryOf(p, k), HistoryOf(ReapStep(p, x, now, logOrder), k);
      |b| <= |c| && c[..|b|] == b
  {
    ReapStepLog(p, x, now, logOrder, k);
    if x in p.rooms && Expired(p.rooms[x], now) {
      NoticeLogProperties(p.refs, LogsOf(p.refs, p.arrays), logOrder, ExpiredText(x));
    }
  }

  /** A history that survives the sweep keeps its old entries as a prefix. */
  lemma {:induction false} ReapAllLogPrefix(s: Store, order: seq<string>, now: int, logOrder: seq<string>, k: string)
    requires Tracked(s, logOrder)
    requires k in ReapAll(s, order, now, logOrder).refs
    ensures var h := HistoryOf(ReapAll(s, order, now, logOrder), k);
      |HistoryOf(s, k)| <= |h| && h[..|HistoryOf(s, k)|] == HistoryOf(s, k)
    decreases |order|
  {
    if order != [] {
      var init := order[..|order| - 1];
      var x := order[|order| - 1];
      var p := ReapAll(s, init, now, logOrder);
      ReapStepPrefix(p, x, now, logOrder, k);
      ReapAllLogPrefix(s, init, now, logOrder, k);
      var a, b, c := HistoryOf(s, k), HistoryOf(p, k), HistoryOf(ReapAll(s, order, now, logOrder), k);
      assert c[..|a|] == c[..|b|][..|a|];
    }
  }

  /**
   A history that survives the sweep holds each text at most once more than before,
   and then only a text it did not hold at all: each expiry notice is added once.
   */
  lemma {:induction false} ReapAllLogOnce(s: Store, order: seq<string>, now: int, logOrder: seq<string>,
                                            k: string, t: string)
    requires Tracked(s, logOrder)
    requires k in ReapAll(s, order, now, logOrder).refs
    ensures var h := HistoryOf(ReapAll(s, order, now, logOrder), k);
      Occurrences(h, t) == Occurrences(HistoryOf(s, k), t) || (Occurrences(HistoryOf(s, k), t) == 0 && Occurrences(h, t) == 1)
    decreases |order|
  {
    if order != [] {
      var init := order[..|order| - 1];
      var x := order[|order| - 1];
      var p := ReapAll(s, init, now, logOrder);
      ReapStepLog(p, x, now, logOrder, k);
      ReapAllLogOnce(s, init, now, logOrder, k, t);
      if x in p.rooms && Expired(p.rooms[x], now) {
        NoticeLogOccurrences(p.refs, LogsOf(p.refs, p.arrays), logOrder, ExpiredText(x), k, t);
        MentionsOccurrences(HistoryOf(p, k), ExpiredText(x));
      }
    }
  }

  /** A history that survives the sweep contains the expiry notice of every idle room the loop visited. */
  lemma {:induction false} ReapAllLogNotices(s: Store, order: seq<string>, now: int, logOrder: seq<string>,
                                               k: string, y: string)
    requires Tracked(s, logOrder)
    requires k in ReapAll(s, order, now, logOrder).refs
    requires y in order && y in s.rooms && Expired(s.rooms[y], now)
    ensures Mentions(HistoryOf(ReapAll(s, order, now, logOrder), k), ExpiredText(y))
    decreases |order|
  {
    var init := order[..|order| - 1];
    var x := order[|order| - 1];
    var p := ReapAll(s, init, now, logOrder);
    var h := HistoryOf(ReapAll(s, order, now, logOrder), k);
    ReapStepLog(p, x, now, logOrder, k);
    assert order == init + [x];
    if x in p.rooms && Expired(p.rooms[x], now) {
      NoticeLogProperties(p.refs, LogsOf(p.refs, p.arrays), logOrder, ExpiredText(x));
    }
    if y in init {
      ReapAllLogNotices(s, init, now, logOrder, k, y);
      if x in p.rooms && Expired(p.rooms[x], now) {
        MentionsPrefix(HistoryOf(p, k), h, ExpiredText(y));
      }
    } else {
      assert y == x;
      ReapAllRooms(s, init, now, logOrder);
      assert y in p.rooms;
    }
  }

  /** A text found in a history is still found once entries are appended. */
  lemma MentionsPrefix(h: seq<Message>, h': seq<Message>, text: string)
    requires |h| <= |h'| && h'[..|h|] == h
    requires Mentions(h, text)
    ensures Mentions(h', text)
  {
    var i :| 0 <= i < |h| && h[i].message == text;
    assert h'[i] == h[i];
  }
}
