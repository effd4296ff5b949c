/**
  Python's `str.find`, `str.count`, `str.split` and `str.join` for a
  non-empty separator: occurrences are found left to right and do not overlap.
*/
module PyStrings {
  import opened Wrappers

  /** `d` occurs in `s` starting at position `j`. */
  predicate OccursAt(s: string, d: string, j: nat) {
    j + |d| <= |s| && s[j..j + |d|] == d
  }

  /** `d` does not occur anywhere in `s`. */
  ghost predicate Free(s: string, d: string) {
    forall j: nat :: !OccursAt(s, d, j)
  }

  /** `s.find(d, start)`: the leftmost occurrence of `d` at or after `start`. */
  function Find(s: string, d: string, start: nat): (r: Option<nat>)
    decreases |s| - start
    ensures r.Some? ==> start <= r.value && OccursAt(s, d, r.value)
    ensures r.Some? ==> forall j: nat :: start <= j < r.value ==> !OccursAt(s, d, j)
    ensures r.None? ==> forall j: nat :: start <= j ==> !OccursAt(s, d, j)
  {
    if start + |d| > |s| then None
    else if s[start..start + |d|] == d then Some(start)
    else Find(s, d, start + 1)
  }

  /** `s.count(d)`: the number of non-overlapping occurrences, scanned left to right. */
  function Count(s: string, d: string): nat
    requires |d| > 0
    decreases |s|
  {
    match Find(s, d, 0)
    case None => 0
    case Some(k) => 1 + Count(s[k + |d|..], d)
  }

  /** `d.join(parts)`. */
  function Join(parts: seq<string>, d: string): string
    decreases |parts|
  {
    if |parts| == 0 then ""
    else if |parts| == 1 then parts[0]
    else parts[0] + d + Join(parts[1..], d)
  }

  /** A prefix of `s` that stops before the first occurrence of `d` is free of `d`. */
  lemma PrefixFree(s: string, d: string, k: nat)
    requires |d| > 0 && k <= |s|
    requires forall j: nat :: j < k ==> !OccursAt(s, d, j)
    ensures Free(s[..k], d)
  {
    forall j: nat | OccursAt(s[..k], d, j)
      ensures false
    {
      assert s[..k][j..j + |d|] == s[j..j + |d|];
      assert OccursAt(s, d, j);
    }
  }

  /** `s.split(d)`: the pieces between consecutive occurrences of `d`. */
  function Split(s: string, d: string): (parts: seq<string>)
    requires |d| > 0
    decreases |s|
    ensures |parts| >= 1
    ensures Join(parts, d) == s
    ensures forall i :: 0 <= i < |parts| ==> Free(parts[i], d)
  {
    match Find(s, d, 0)
    case None =>
      assert s[..|s|] == s;
      PrefixFree(s, d, |s|);
      [s]
    case Some(k) =>
      var rest := Split(s[k + |d|..], d);
      PrefixFree(s, d, k);
      assert s[..k] + d + s[k + |d|..] == s by {
        assert s[k..k + |d|] == d;
        assert s == s[..k] + s[k..k + |d|] + s[k + |d|..];
      }
      [s[..k]] + rest
  }

  /** Before the first occurrence at `k`, `d` does not occur in `s[..k] + d` either. */
  lemma FirstPieceLeftmost(s: string, d: string, k: nat)
    requires |d| > 0 && OccursAt(s, d, k)
    requires forall j: nat :: j < k ==> !OccursAt(s, d, j)
    ensures forall j: nat :: j < k ==> !OccursAt(s[..k] + d, d, j)
  {
    var t := s[..k + |d|];
    assert s[..k] + s[k..k + |d|] == t;
    forall j: nat | j < k
      ensures !OccursAt(t, d, j)
    {
      assert !OccursAt(s, d, j);
      if j + |d| <= |t| {
        assert t[j..j + |d|] == s[j..j + |d|];
      }
    }
  }

  /** Leftmost pieces: none of `parts` but the last holds an occurrence of `d` that runs into the separator after it. */
  ghost predicate LeftmostPieces(parts: seq<string>, d: string) {
    forall i: nat, j: nat :: i + 1 < |parts| && j < |parts[i]| ==> !OccursAt(parts[i] + d, d, j)
  }

  /** Each piece but the last one ends at the LEFTMOST occurrence of `d` that follows it. */
  lemma {:induction false} SplitLeftmost(s: string, d: string)
    requires |d| > 0
    ensures LeftmostPieces(Split(s, d), d)
    decreases |s|
  {
    match Find(s, d, 0)
    case None =>
    case Some(k) =>
      var rest := Split(s[k + |d|..], d);
      SplitLeftmost(s[k + |d|..], d);
      FirstPieceLeftmost(s, d, k);
      var parts := [s[..k]] + rest;
      assert Split(s, d) == parts;
      forall i: nat, j: nat | i + 1 < |parts| && j < |parts[i]|
        ensures !OccursAt(parts[i] + d, d, j)
      {
        if i > 0 {
          assert parts[i] == rest[i - 1];
        }
      }
  }

  /** `s.split(d)` has one more piece than `s.count(d)`. */
  lemma {:induction false} SplitCount(s: string, d: string)
    requires |d| > 0
    ensures |Split(s, d)| == Count(s, d) + 1
    decreases |s|
  {
    match Find(s, d, 0)
    case None =>
    case Some(k) =>
      SplitCount(s[k + |d|..], d);
  }
}
