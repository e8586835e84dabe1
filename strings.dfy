/**
 * The few Python string operations the service relies on: `startswith`,
 * `find` and `split` with an explicit separator, plus `join` as the partner
 * that undoes `split`.
 */
module Strings {
  import opened Wrappers

  /** `sep` occurs in `s` starting at index `i`. */
  predicate OccursAt(s: string, sep: string, i: nat) {
    i + |sep| <= |s| && s[i..i + |sep|] == sep
  }

  /** Python's `s.startswith(prefix)`. */
  predicate StartsWith(s: string, prefix: string) {
    OccursAt(s, prefix, 0)
  }

  /** `sep` occurs somewhere in `s`. */
  predicate Contains(s: string, sep: string) {
    exists i: nat | i <= |s| :: OccursAt(s, sep, i)
  }

  /** `c` is one of the ASCII digits '0'..'9'. */
  predicate IsAsciiDigit(c: char) {
    '0' <= c <= '9'
  }

  predicate AllDigits(s: string) {
    forall i :: 0 <= i < |s| ==> IsAsciiDigit(s[i])
  }

  /** An occurrence at index j + 1 of `s` is one at index j of its tail. */
  lemma OccursInTail(s: string, sep: string)
    requires |s| > 0
    ensures forall j: nat :: 0 < j ==> (OccursAt(s, sep, j) <==> OccursAt(s[1..], sep, j - 1))
  {
    forall j: nat | 0 < j
      ensures OccursAt(s, sep, j) <==> OccursAt(s[1..], sep, j - 1)
    {
      if j + |sep| <= |s| {
        assert s[1..][j - 1..j - 1 + |sep|] == s[j..j + |sep|];
      }
    }
  }

  /** Python's `s.find(sep)`: the index of the first occurrence of `sep`, if any. */
  function Find(s: string, sep: string): (r: Option<nat>)
    ensures r.Some? ==> OccursAt(s, sep, r.value)
    ensures r.Some? ==> forall j: nat :: j < r.value ==> !OccursAt(s, sep, j)
    ensures r.None? ==> forall j: nat :: !OccursAt(s, sep, j)
    decreases |s|
  {
    if |s| < |sep| then None
    else if s[..|sep|] == sep then Some(0)
    else
      OccursInTail(s, sep);
      match Find(s[1..], sep)
      case None => None
      case Some(i) => Some(i + 1)
  }

  /**
   * Python's `s.split(sep)` for a non-empty separator: the first piece is
   * the text in front of the first occurrence, and there is more than one
   * piece exactly when the separator occurs.
   */
  function Split(s: string, sep: string): (parts: seq<string>)
    requires |sep| > 0
    ensures |parts| >= 1
    ensures FirstPiece(s, sep, parts[0])
    ensures |parts| > 1 <==> Contains(s, sep)
    decreases |s|
  {
    match Find(s, sep)
    case None => [s]
    case Some(i) =>
      assert OccursAt(s, sep, i) && i <= |s|;
      [s[..i]] + Split(s[i + |sep|..], sep)
  }

  /** Python's `sep.join(parts)`. */
  function Join(parts: seq<string>, sep: string): string
    requires |parts| >= 1
  {
    if |parts| == 1 then parts[0] else parts[0] + sep + Join(parts[1..], sep)
  }

  /** Joining the pieces of a split with the same separator gives back the string. */
  lemma {:induction false} JoinSplit(s: string, sep: string)
    requires |sep| > 0
    ensures Join(Split(s, sep), sep) == s
    decreases |s|
  {
    if Find(s, sep).Some? {
      var i := Find(s, sep).value;
      JoinSplit(s[i + |sep|..], sep);
      JoinCons(s[..i], Split(s[i + |sep|..], sep), sep);
      CutAround(s, i, |sep|);
    }
  }

  /** A string is the part before a slice, the slice, and the part after. */
  lemma CutAround(s: string, i: nat, k: nat)
    requires i + k <= |s|
    ensures s == s[..i] + s[i..i + k] + s[i + k..]
  {
  }

  /** Joining a list with one more element in front. */
  lemma JoinCons(p: string, parts: seq<string>, sep: string)
    requires |parts| >= 1
    ensures Join([p] + parts, sep) == p + sep + Join(parts, sep)
  {
    assert ([p] + parts)[1..] == parts;
  }

  /**
   * `piece` is the text of `s` in front of the first occurrence of `sep`
   * (all of `s` when `sep` does not occur).
   */
  ghost predicate FirstPiece(s: string, sep: string, piece: string) {
    && piece <= s
    && (forall j: nat :: j < |piece| ==> !OccursAt(s, sep, j))
    && (|piece| == |s| || OccursAt(s, sep, |piece|))
  }

  /** There is only one first piece. */
  lemma FirstPieceUnique(s: string, sep: string, p: string, q: string)
    requires FirstPiece(s, sep, p) && FirstPiece(s, sep, q)
    ensures p == q
  {
    if |p| < |q| {
      assert false;
    } else if |q| < |p| {
      assert false;
    }
    assert p == s[..|p|] && q == s[..|q|];
  }

  /** Splitting a string that starts with the separator yields an empty first element. */
  lemma SplitLeadingSeparator(sep: string, rest: string)
    requires |sep| > 0
    ensures Split(sep + rest, sep) == [""] + Split(rest, sep)
  {
    var s := sep + rest;
    assert OccursAt(s, sep, 0) by { assert s[..|sep|] == sep; }
    assert Find(s, sep) == Some(0);
    assert s[|sep|..] == rest;
  }

  /** A string without `c` has no occurrence of a separator that contains `c`. */
  lemma AbsentCharRulesOut(s: string, sep: string, k: nat)
    requires k < |sep| && sep[k] !in s
    ensures !Contains(s, sep)
  {
    forall i: nat | i <= |s|
      ensures !OccursAt(s, sep, i)
    {
      if i + |sep| <= |s| {
        assert s[i..i + |sep|][k] == s[i + k];
        assert s[i + k] != sep[k];
      }
    }
  }
}
