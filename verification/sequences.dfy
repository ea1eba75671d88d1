/** Generic sequence operations the tour model is built from: reversal,
    rotation, the identity tour `Range(n)` and the permutation predicate. */
module Sequences {

  /** The conventional Some/None wrapper, used for the source's nil results
      and for its panics and fatal errors. */
  datatype Option<+T> = None | Some(value: T)

  /** s read back to front. */
  function Reverse<T>(s: seq<T>): (r: seq<T>)
    ensures |r| == |s|
    ensures forall p :: 0 <= p < |s| ==> r[p] == s[|s| - 1 - p]
  {
    seq(|s|, p requires 0 <= p < |s| => s[|s| - 1 - p])
  }

  lemma {:induction false} ReversePreservesMultiset<T>(s: seq<T>)
    ensures multiset(Reverse(s)) == multiset(s)
  {
    if |s| > 0 {
      var init := s[..|s| - 1];
      ReversePreservesMultiset(init);
      assert s == init + [s[|s| - 1]];
      assert Reverse(s) == [s[|s| - 1]] + Reverse(init);
    }
  }

  /** s reversed when `flag` holds, unchanged otherwise. */
  function ReverseIf<T>(s: seq<T>, flag: bool): seq<T>
  {
    if flag then Reverse(s) else s
  }

  lemma ReverseIfAllBelow(s: seq<nat>, flag: bool, n: nat)
    requires AllBelow(s, n)
    ensures AllBelow(ReverseIf(s, flag), n)
  {
  }

  /** The cyclic rotation of s that starts at position `start`. */
  function Rotate<T>(s: seq<T>, start: nat): (r: seq<T>)
    requires start <= |s|
    ensures |r| == |s|
    ensures forall p :: 0 <= p < |s| - start ==> r[p] == s[start + p]
    ensures forall p :: |s| - start <= p < |s| ==> r[p] == s[p - (|s| - start)]
    ensures multiset(r) == multiset(s)
  {
    assert s == s[..start] + s[start..];
    s[start..] + s[..start]
  }

  /** x mod n for 0 <= x < 2n: a position that has gone at most once round
      a cycle of n positions. */
  function Wrap(x: nat, n: nat): (r: nat)
    requires x < 2 * n
    ensures r < n
  {
    if x < n then x else x - n
  }

  /** Position p of the rotation holds position (p + start) mod |s| of s. */
  lemma RotateIndex<T>(s: seq<T>, start: nat, p: nat)
    requires start <= |s| && p < |s|
    ensures Rotate(s, start)[p] == s[Wrap(p + start, |s|)]
  {
  }

  /** The tour that visits the nodes 0 .. n-1 in index order. */
  function Range(n: nat): (r: seq<nat>)
    ensures |r| == n
    ensures forall p :: 0 <= p < n ==> r[p] == p
  {
    seq(n, p => p)
  }

  /** n copies of 0: what Go's `make([]int, n)` holds before anything is appended. */
  function Zeros(n: nat): (r: seq<nat>)
    ensures |r| == n
    ensures forall p :: 0 <= p < n ==> r[p] == 0
  {
    seq(n, p => 0)
  }

  /** The set {0, ..., n-1}: the keys of Go's `notVisited` map when it is built. */
  function RangeSet(n: nat): (r: set<nat>)
    ensures forall x: nat :: x in r <==> x < n
    ensures |r| == n
  {
    if n == 0 then {} else
      var r := RangeSet(n - 1) + {n - 1};
      assert n - 1 !in RangeSet(n - 1);
      r
  }

  predicate AllBelow(s: seq<nat>, n: nat)
  {
    forall p :: 0 <= p < |s| ==> s[p] < n
  }

  predicate Distinct(s: seq<nat>)
  {
    forall p, q :: 0 <= p < q < |s| ==> s[p] != s[q]
  }

  /** s lists each of the nodes 0 .. n-1 exactly once. */
  predicate IsPermutation(s: seq<nat>, n: nat)
  {
    |s| == n && AllBelow(s, n) && Distinct(s)
  }

  lemma RangeIsPermutation(n: nat)
    ensures IsPermutation(Range(n), n)
  {
  }

  /** A value occurring in the multiset of s occurs at some position of s. */
  lemma AllBelowByMultiset(s: seq<nat>, t: seq<nat>, n: nat)
    requires AllBelow(s, n)
    requires multiset(t) == multiset(s)
    ensures AllBelow(t, n)
  {
    forall p | 0 <= p < |t|
      ensures t[p] < n
    {
      assert t[p] in multiset(t);
      assert t[p] in s;
    }
  }

  lemma {:induction false} DistinctCountsAtMostOne(s: seq<nat>, x: nat)
    requires Distinct(s)
    ensures multiset(s)[x] <= 1
  {
    if |s| > 0 {
      var init := s[..|s| - 1];
      assert s == init + [s[|s| - 1]];
      assert Distinct(init);
      DistinctCountsAtMostOne(init, x);
      if x == s[|s| - 1] {
        assert x !in init;
      }
    }
  }

  lemma RepeatCountsTwice(t: seq<nat>, p: nat, q: nat)
    requires p < q < |t| && t[p] == t[q]
    ensures multiset(t)[t[p]] >= 2
  {
    assert t == t[..q] + t[q..];
    assert t[p] in t[..q];
    assert t[q..][0] == t[p];
    assert t[p] in t[q..];
  }

  /** Rearranging a permutation of 0 .. n-1 yields a permutation of 0 .. n-1. */
  lemma {:induction false} PermutationByMultiset(s: seq<nat>, t: seq<nat>, n: nat)
    requires IsPermutation(s, n)
    requires multiset(t) == multiset(s)
    ensures IsPermutation(t, n)
  {
    assert |t| == |multiset(t)| == |multiset(s)| == |s|;
    AllBelowByMultiset(s, t, n);
    forall p, q | 0 <= p < q < |t|
      ensures t[p] != t[q]
    {
      if t[p] == t[q] {
        RepeatCountsTwice(t, p, q);
        DistinctCountsAtMostOne(s, t[p]);
        assert false;
      }
    }
  }

  /** s with the entries at positions x and y exchanged. */
  function SwapAt<T>(s: seq<T>, x: nat, y: nat): (r: seq<T>)
    requires x < |s| && y < |s|
    ensures |r| == |s| && r[x] == s[y] && r[y] == s[x]
    ensures forall p :: 0 <= p < |s| && p != x && p != y ==> r[p] == s[p]
  {
    s[x := s[y]][y := s[x]]
  }

  /** Exchanging two entries keeps every element and its count. */
  lemma SwapAtMultiset<T>(s: seq<T>, x: nat, y: nat)
    requires x < |s| && y < |s|
    ensures multiset(SwapAt(s, x, y)) == multiset(s)
  {
  }
}
