/**
 The two JavaScript string operations the chat server relies on when it rewrites
 stored messages: `indexOf` and `String.prototype.replace` with a string (not a
 regular-expression) pattern, which replaces only the FIRST occurrence.
 */
module JsString {

  /** True when `pat` occurs in `s` starting at index `i`. */
  predicate OccursAt(s: string, pat: string, i: int)
  {
    0 <= i && i + |pat| <= |s| && s[i..i + |pat|] == pat
  }

  /**
   `s.indexOf(pat, from)` for `from <= |s|`: the first index at or after `from` where
   `pat` occurs, or -1.
   */
  function IndexFrom(s: string, pat: string, from: nat): (r: int)
    requires from <= |s|
    ensures r == -1 || (from <= r && OccursAt(s, pat, r))
    ensures forall j :: from <= j && (r == -1 || j < r) ==> !OccursAt(s, pat, j)
    decreases |s| - from
  {
    if from + |pat| > |s| then -1
    else if s[from..from + |pat|] == pat then from
    else IndexFrom(s, pat, from + 1)
  }

  /**
   The replacement text that `replace` inserts for one match when the pattern is a
   string: with no capture groups, only `$$`, `$&`, `` $` `` and `$'` are special;
   every other character, including a `$` before anything else, is copied.
   */
  function Expand(rep: string, matched: string, before: string, after: string): string
    decreases |rep|
  {
    if |rep| >= 2 && rep[0] == '$' && rep[1] == '$' then "$" + Expand(rep[2..], matched, before, after)
    else if |rep| >= 2 && rep[0] == '$' && rep[1] == '&' then matched + Expand(rep[2..], matched, before, after)
    else if |rep| >= 2 && rep[0] == '$' && rep[1] == '`' then before + Expand(rep[2..], matched, before, after)
    else if |rep| >= 2 && rep[0] == '$' && rep[1] == '\'' then after + Expand(rep[2..], matched, before, after)
    else if rep == [] then []
    else [rep[0]] + Expand(rep[1..], matched, before, after)
  }

  /** `s.replace(pat, rep)` with a string `pat`: only the first occurrence is replaced. */
  function ReplaceFirst(s: string, pat: string, rep: string): string
  {
    var p := IndexFrom(s, pat, 0);
    if p == -1 then s
    else s[..p] + Expand(rep, pat, s[..p], s[p + |pat|..]) + s[p + |pat|..]
  }

  /** A replacement without `$` is inserted verbatim. */
  lemma {:induction false} ExpandLiteral(rep: string, matched: string, before: string, after: string)
    requires '$' !in rep
    ensures Expand(rep, matched, before, after) == rep
    decreases |rep|
  {
    if rep != [] {
      assert rep[0] != '$';
      assert '$' !in rep[1..] by {
        forall i | 0 <= i < |rep[1..]| ensures rep[1..][i] != '$' {
          assert rep[1..][i] == rep[i + 1];
        }
      }
      ExpandLiteral(rep[1..], matched, before, after);
      assert rep == [rep[0]] + rep[1..];
    }
  }

  /** Text in which `pat` does not occur is left as it is. */
  lemma ReplaceFirstAbsent(s: string, pat: string, rep: string)
    requires forall i :: !OccursAt(s, pat, i)
    ensures ReplaceFirst(s, pat, rep) == s
  {
  }

  /**
   Reference reading of `replace` for a `$`-free replacement: when `p` is the first
   place where `pat` occurs, exactly that occurrence becomes `rep`.
   */
  lemma ReplaceFirstAt(s: string, pat: string, rep: string, p: int)
    requires '$' !in rep
    requires OccursAt(s, pat, p)
    requires forall j :: 0 <= j < p ==> !OccursAt(s, pat, j)
    ensures ReplaceFirst(s, pat, rep) == s[..p] + rep + s[p + |pat|..]
  {
    var q := IndexFrom(s, pat, 0);
    assert q == p;
    ExpandLiteral(rep, pat, s[..p], s[p + |pat|..]);
  }

  /**
   Applying the same rename twice is not the same as applying it once when the new
   name contains the old one: "bob" becomes "bobby" once and "bobbyby" twice.
   */
  lemma ReplaceFirstTwice()
    ensures ReplaceFirst("bob", "bob", "bobby") == "bobby"
    ensures ReplaceFirst(ReplaceFirst("bob", "bob", "bobby"), "bob", "bobby") == "bobbyby"
  {
    ReplaceFirstAt("bob", "bob", "bobby", 0);
    ReplaceFirstAt("bobby", "bob", "bobby", 0);
    assert "bobby"[3..] == "by";
  }
}
