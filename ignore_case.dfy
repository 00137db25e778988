/** Ordinal, case-insensitive substring search: the part of
    `String.IndexOf(value, StringComparison.OrdinalIgnoreCase)` that the popup's
    filter relies on. Case folding is ASCII only. */
module IgnoreCase {

  /** Folds an ASCII upper-case letter to its lower-case form. */
  function Fold(c: char): (f: char)
    ensures !('A' <= f <= 'Z')
    ensures f == c || ('A' <= c <= 'Z' && f as int == c as int + 32)
  {
    if 'A' <= c <= 'Z' then (c as int + 32) as char else c
  }

  /** `p` occurs in `s` at position `i`, comparing folded characters. */
  predicate MatchesAt(s: string, p: string, i: nat)
  {
    i + |p| <= |s| && forall j :: 0 <= j < |p| ==> Fold(s[i + j]) == Fold(p[j])
  }

  /** `p` is a substring of `s` ignoring case. */
  ghost predicate Contains(s: string, p: string)
  {
    exists i: nat :: MatchesAt(s, p, i)
  }

  /** The first position at or after `from` where `p` occurs in `s`, or -1. */
  function IndexOfFrom(s: string, p: string, from: nat): (r: int)
    requires from <= |s|
    decreases |s| - from
    ensures r == -1 || (from <= r && MatchesAt(s, p, r))
    ensures r == -1 <==> forall i: nat :: from <= i ==> !MatchesAt(s, p, i)
    ensures forall i: nat :: from <= i < r ==> !MatchesAt(s, p, i)
  {
    if from + |p| > |s| then -1
    else if MatchesAt(s, p, from) then from
    else IndexOfFrom(s, p, from + 1)
  }

  /** `s.IndexOf(p, StringComparison.OrdinalIgnoreCase)`: the first position of
      `p` in `s` ignoring case, or -1 when there is none. */
  function IndexOf(s: string, p: string): (r: int)
    ensures r == -1 <==> !Contains(s, p)
    ensures r != -1 ==> 0 <= r && MatchesAt(s, p, r)
    ensures forall i: nat :: i < r ==> !MatchesAt(s, p, i)
    ensures p == [] ==> r == 0
  {
    assert p == [] ==> MatchesAt(s, p, 0);
    IndexOfFrom(s, p, 0)
  }
}
