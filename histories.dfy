/**
 The history arrays as the server holds them: a table `arrays` of every array
 created, and `refs`, the index of the array each key of `roomMessages` refers to.
 The loops of `addNewMessageToRooms` and of the `user` handler work on that table
 key by key; `NoticeFold` and `RewriteFold` are those loops as folds over the
 keys, and the lemmas here say what they mean for the history under each key:
 `NoticeLog` and `RewriteAll`.
 */
module Histories {
  import opened ChatState

  /** Every key refers to an array of the table. */
  predicate Tracks(refs: map<string, nat>, arrays: seq<seq<Message>>)
  {
    forall k :: k in refs ==> refs[k] < |arrays|
  }

  /** The history under every key. */
  function LogsOf(refs: map<string, nat>, arrays: seq<seq<Message>>): (l: map<string, seq<Message>>)
    requires Tracks(refs, arrays)
    ensures l.Keys == refs.Keys
  {
    map k | k in refs :: arrays[refs[k]]
  }

  /**
   The loop of `addNewMessageToRooms` over the keys `order`: the array a key refers to
   gets an entry for that key unless it already has one with the text.
   */
  function NoticeFold(arrays: seq<seq<Message>>, refs: map<string, nat>, order: seq<string>, text: string)
    : (r: seq<seq<Message>>)
    requires Tracks(refs, arrays)
    ensures |r| == |arrays|
    decreases |order|
  {
    if order == [] then arrays
    else
      var b := NoticeFold(arrays, refs, order[..|order| - 1], text);
      var x := order[|order| - 1];
      if x in refs && !Mentions(b[refs[x]], text) then b[refs[x] := b[refs[x]] + [Message(x, text)]] else b
  }

  /** Extending the keys after the first holder of `v` does not change the first holder. */
  lemma {:induction false} FirstHoldingPrefix(init: seq<string>, x: string, refs: map<string, nat>, v: nat)
    requires Holds(init, refs, v)
    ensures Holds(init + [x], refs, v)
    ensures FirstHolding(init + [x], refs, v) == FirstHolding(init, refs, v)
    decreases |init|
  {
    var k :| k in init && k in refs && refs[k] == v;
    assert k in init + [x];
    if !(init[0] in refs && refs[init[0]] == v) {
      assert k in init[1..];
      assert (init + [x])[1..] == init[1..] + [x];
      FirstHoldingPrefix(init[1..], x, refs, v);
    }
  }

  /**
   After the loop over `order`, an array a key refers to carries the notice written
   for the first key of `order` that refers to it, or is untouched when no key of
   `order` does.
   */
  lemma {:induction false} NoticeFoldAt(arrays: seq<seq<Message>>, refs: map<string, nat>, order: seq<string>,
                                        text: string, k: string)
    requires Tracks(refs, arrays) && k in refs
    ensures NoticeFold(arrays, refs, order, text)[refs[k]]
         == if Holds(order, refs, refs[k])
            then Noticed(arrays[refs[k]], FirstHolding(order, refs, refs[k]), text)
            else arrays[refs[k]]
    decreases |order|
  {
    if order != [] {
      var init := order[..|order| - 1];
      var x := order[|order| - 1];
      var v := refs[k];
      assert order == init + [x];
      NoticeFoldAt(arrays, refs, init, text, k);
      if Holds(init, refs, v) {
        FirstHoldingPrefix(init, x, refs, v);
      } else if x in refs && refs[x] == v {
        assert forall j :: 0 <= j < |init| ==> order[j] == init[j];
        FirstHoldingAt(order, refs, v, |init|);
      } else {
        assert !Holds(order, refs, v);
      }
    }
  }

  /** The loop of `addNewMessageToRooms` over every key does to the histories what `NoticeLog` says. */
  lemma NoticeFoldLog(arrays: seq<seq<Message>>, refs: map<string, nat>, order: seq<string>, text: string)
    requires Tracks(refs, arrays) && Covers(order, refs.Keys)
    ensures LogsOf(refs, NoticeFold(arrays, refs, order, text)) == NoticeLog(refs, LogsOf(refs, arrays), order, text)
  {
    var after := LogsOf(refs, NoticeFold(arrays, refs, order, text));
    var want := NoticeLog(refs, LogsOf(refs, arrays), order, text);
    forall k | k in refs ensures after[k] == want[k] {
      NoticeFoldAt(arrays, refs, order, text, k);
      assert Holds(order, refs, refs[k]);
    }
    MapsAgree(after, want);
  }

  /** The loop of the `user` handler over the keys `order`: each key's array is rewritten in turn. */
  function RewriteFold(arrays: seq<seq<Message>>, refs: map<string, nat>, order: seq<string>, last: string, nv: string)
    : (r: seq<seq<Message>>)
    requires Tracks(refs, arrays)
    ensures |r| == |arrays|
    decreases |order|
  {
    if order == [] then arrays
    else
      var b := RewriteFold(arrays, refs, order[..|order| - 1], last, nv);
      var x := order[|order| - 1];
      if x in refs then b[refs[x] := Rewritten(b[refs[x]], last, nv)] else b
  }

  /** An array is rewritten once for every key of `order` that refers to it. */
  lemma {:induction false} RewriteFoldAt(arrays: seq<seq<Message>>, refs: map<string, nat>, order: seq<string>,
                                         last: string, nv: string, v: nat)
    requires Tracks(refs, arrays) && v < |arrays|
    ensures RewriteFold(arrays, refs, order, last, nv)[v] == RewriteN(arrays[v], last, nv, CountAliases(order, refs, v))
    decreases |order|
  {
    if order != [] {
      RewriteFoldAt(arrays, refs, order[..|order| - 1], last, nv, v);
    }
  }

  /** The loop of the `user` handler does to the histories what `RewriteAll` says. */
  lemma RewriteFoldLog(arrays: seq<seq<Message>>, refs: map<string, nat>, order: seq<string>, last: string, nv: string)
    requires Tracks(refs, arrays)
    ensures LogsOf(refs, RewriteFold(arrays, refs, order, last, nv)) == RewriteAll(refs, LogsOf(refs, arrays), order, last, nv)
  {
    var after := LogsOf(refs, RewriteFold(arrays, refs, order, last, nv));
    var want := RewriteAll(refs, LogsOf(refs, arrays), order, last, nv);
    forall k | k in refs ensures after[k] == want[k] {
      RewriteFoldAt(arrays, refs, order, last, nv, refs[k]);
    }
    MapsAgree(after, want);
  }

  /**
   The `user` handler as a whole: each history is rewritten once per key that refers
   to its array, then the rename notice goes to every history.
   */
  lemma RenameLogs(arrays: seq<seq<Message>>, refs: map<string, nat>, order: seq<string>, last: string, nv: string)
    requires Tracks(refs, arrays) && Covers(order, refs.Keys)
    ensures var rewritten := RewriteFold(arrays, refs, order, last, nv);
      LogsOf(refs, NoticeFold(rewritten, refs, order, RenamedUserText(last, nv)))
        == NoticeLog(refs, RewriteAll(refs, LogsOf(refs, arrays), order, last, nv), order, RenamedUserText(last, nv))
  {
    var rewritten := RewriteFold(arrays, refs, order, last, nv);
    RewriteFoldLog(arrays, refs, order, last, nv);
    NoticeFoldLog(rewritten, refs, order, RenamedUserText(last, nv));
  }

  /**
   A key added for a new, empty array that no other key refers to receives exactly the
   notice of the broadcast that follows (the history `create_room` leaves).
   */
  lemma NoticeFoldFresh(arrays: seq<seq<Message>>, refs: map<string, nat>, order: seq<string>, text: string, name: string)
    requires Tracks(refs, arrays) && Covers(order, refs.Keys + {name})
    ensures Tracks(refs[name := |arrays|], arrays + [[]])
    ensures NoticeFold(arrays + [[]], refs[name := |arrays|], order, text)[|arrays|] == [Message(name, text)]
  {
    var refs' := refs[name := |arrays|];
    var arrays' := arrays + [[]];
    NoticeFoldAt(arrays', refs', order, text, name);
    assert Holds(order, refs', |arrays|);
    FirstHoldingOnly(order, refs', |arrays|, name);
    assert !Mentions(arrays'[|arrays|], text);
  }

  /** When only `name` holds `v`, it is the first holder. */
  lemma FirstHoldingOnly(order: seq<string>, refs: map<string, nat>, v: nat, name: string)
    requires name in order && name in refs && refs[name] == v
    requires forall k :: k in refs && k != name ==> refs[k] != v
    ensures Holds(order, refs, v) && FirstHolding(order, refs, v) == name
  {
    assert Holds(order, refs, v);
  }
}
