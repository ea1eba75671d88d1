/** The 3-opt move of tspsolver/tspsolver.go: `calculateDiff3` predicts the
    change of tour length for one reconnection case, `swap3` performs it.

    Cutting the edges after positions i < j < k splits the cycle into
      S1 = positions i+1 .. j,  S2 = positions j+1 .. k,
      S3 = positions k+1 .. i (wrapping round the end);
    the new tour is S1, S2, S3 in that order, with segment b+1 reversed iff
    bit b of the case number l is set.

    This module states the behaviour the test suite fixes, which differs
    from the code as written in two places (both modelled as written in the
    AsWritten module):
    - `calculateDiff3` indexes position k+1 without reducing it mod n; the
      tests need position n to be position 0, as here.
    - `swap3` builds its result with `make` followed by `append` (length 2n)
      and reverses with index arithmetic that does not give the tours the
      test suite expects; here the result is the reassembled tour of length n.
    `swap3` also overwrites the tour in place; here it returns the new tour. */
module ThreeOptMove {
  import opened Sequences
  import opened Tour

  /** The tests on l&1, l&2 and l&4. Dafny's `/` and `%` round towards minus
      infinity for a positive divisor, so these are the two's-complement bits
      of l for every int, negative ones included. */
  predicate ReverseFirst(l: int) { l % 2 == 1 }
  predicate ReverseSecond(l: int) { (l / 2) % 2 == 1 }
  predicate ReverseThird(l: int) { (l / 4) % 2 == 1 }

  /** A cut triple: positions 0 <= i < j < k < n of a tour of n nodes. */
  predicate ValidCut(s: seq<nat>, i: nat, j: nat, k: nat)
  {
    i < j < k < |s|
  }

  /** The case formulas of `calculateDiff3`, with `k1` standing for the
      position after k. Any l other than 1..7 is the original tour. */
  function Diff3At(dm: Matrix, s: seq<nat>, l: int, i: nat, j: nat, k: nat, k1: nat): int
    requires OnMatrix(dm, s) && ValidCut(s, i, j, k) && k1 < |s|
  {
    var i1, j1 := i + 1, j + 1;
    // the edges cut at i, j and k
    var cutI: int, cutJ: int, cutK: int := Cost(dm, s, i, i1), Cost(dm, s, j, j1), Cost(dm, s, k, k1);
    match l
    case 1 => - cutI - cutJ + Cost(dm, s, i, j) + Cost(dm, s, i1, j1)
    case 2 => - cutJ - cutK + Cost(dm, s, j, k) + Cost(dm, s, j1, k1)
    case 4 => - cutK - cutI + Cost(dm, s, k, i) + Cost(dm, s, k1, i1)
    case 3 => - cutI - cutJ - cutK + Cost(dm, s, i, j) + Cost(dm, s, i1, k) + Cost(dm, s, j1, k1)
    case 6 => - cutI - cutJ - cutK + Cost(dm, s, j, k) + Cost(dm, s, j1, i) + Cost(dm, s, k1, i1)
    case 5 => - cutI - cutJ - cutK + Cost(dm, s, k, i) + Cost(dm, s, k1, j) + Cost(dm, s, i1, j1)
    case 7 => - cutI - cutJ - cutK + Cost(dm, s, i1, k) + Cost(dm, s, j1, i) + Cost(dm, s, k1, j)
    case _ => 0
  }

  /** calculateDiff3 with the position after k taken mod n, as the tests
      require. The case table agrees with the reversal bits of l: case l is
      the change of junction edges when segment b+1 is turned round for
      each set bit b, and every l outside 0..7 leaves the tour as it is. */
  function Diff3(dm: Matrix, s: seq<nat>, l: int, i: nat, j: nat, k: nat): (r: int)
    requires OnMatrix(dm, s) && ValidCut(s, i, j, k)
    ensures 0 <= l <= 7 ==>
      r == JunctionDelta(dm, ReverseFirst(l), ReverseSecond(l), ReverseThird(l),
                         s[i], s[i + 1], s[j], s[j + 1], s[k], s[Wrap(k + 1, |s|)])
    ensures !(1 <= l <= 7) ==> r == 0
  {
    if 0 <= l <= 7 then
      Diff3AtIsJunctionDelta(dm, s, l, i, j, k, Wrap(k + 1, |s|));
      Diff3At(dm, s, l, i, j, k, Wrap(k + 1, |s|))
    else
      Diff3At(dm, s, l, i, j, k, Wrap(k + 1, |s|))
  }

  /** Case by case, the formula of calculateDiff3 is the junction change
      for the reversal bits of l. */
  lemma Diff3AtIsJunctionDelta(dm: Matrix, s: seq<nat>, l: int, i: nat, j: nat, k: nat, k1: nat)
    requires OnMatrix(dm, s) && ValidCut(s, i, j, k) && k1 < |s| && 0 <= l <= 7
    ensures Diff3At(dm, s, l, i, j, k, k1)
         == JunctionDelta(dm, ReverseFirst(l), ReverseSecond(l), ReverseThird(l),
                          s[i], s[i + 1], s[j], s[j + 1], s[k], s[k1])
  {
    if l == 0 {
      assert !ReverseFirst(l) && !ReverseSecond(l) && !ReverseThird(l);
    } else if l == 1 {
      assert ReverseFirst(l) && !ReverseSecond(l) && !ReverseThird(l);
    } else if l == 2 {
      assert !ReverseFirst(l) && ReverseSecond(l) && !ReverseThird(l);
    } else if l == 3 {
      assert ReverseFirst(l) && ReverseSecond(l) && !ReverseThird(l);
    } else if l == 4 {
      assert !ReverseFirst(l) && !ReverseSecond(l) && ReverseThird(l);
    } else if l == 5 {
      assert ReverseFirst(l) && !ReverseSecond(l) && ReverseThird(l);
    } else if l == 6 {
      assert !ReverseFirst(l) && ReverseSecond(l) && ReverseThird(l);
    } else {
      assert ReverseFirst(l) && ReverseSecond(l) && ReverseThird(l);
    }
  }

  /** S1 = positions i+1 .. j. */
  function Segment1(s: seq<nat>, i: nat, j: nat, k: nat): seq<nat>
    requires ValidCut(s, i, j, k)
  {
    s[i + 1..j + 1]
  }

  /** S2 = positions j+1 .. k. */
  function Segment2(s: seq<nat>, i: nat, j: nat, k: nat): seq<nat>
    requires ValidCut(s, i, j, k)
  {
    s[j + 1..k + 1]
  }

  /** S3 = positions k+1 .. n-1 followed by 0 .. i. */
  function Segment3(s: seq<nat>, i: nat, j: nat, k: nat): seq<nat>
    requires ValidCut(s, i, j, k)
  {
    s[k + 1..] + s[..i + 1]
  }

  /** Read one after the other, the segments are the rotation of the tour
      that starts at position i+1. */
  lemma SegmentsFormRotation(s: seq<nat>, i: nat, j: nat, k: nat)
    requires ValidCut(s, i, j, k)
    ensures Segment1(s, i, j, k) + Segment2(s, i, j, k) + Segment3(s, i, j, k) == Rotate(s, i + 1)
  {
    assert s[i + 1..] == s[i + 1..j + 1] + s[j + 1..k + 1] + s[k + 1..];
  }

  /** The three segments, each reversed when its flag is set. */
  function Reassemble(s: seq<nat>, f1: bool, f2: bool, f3: bool, i: nat, j: nat, k: nat): seq<nat>
    requires ValidCut(s, i, j, k)
  {
    ReverseIf(Segment1(s, i, j, k), f1) + ReverseIf(Segment2(s, i, j, k), f2) + ReverseIf(Segment3(s, i, j, k), f3)
  }

  /** swap3, as a pure function returning the new tour: the rotation of the
      tour that starts at position i+1, with the positions of S1 (the first
      j-i), of S2 (the next k-j) and of S3 (the last n-k+i) each read
      backwards when the case number says so. */
  function Swap3(s: seq<nat>, l: int, i: nat, j: nat, k: nat): (r: seq<nat>)
    requires ValidCut(s, i, j, k)
    ensures |r| == |s|
    ensures multiset(r) == multiset(s)
  {
    ReassembleMultiset(s, ReverseFirst(l), ReverseSecond(l), ReverseThird(l), i, j, k);
    Reassemble(s, ReverseFirst(l), ReverseSecond(l), ReverseThird(l), i, j, k)
  }

  /** Where each node of the new tour comes from: position p of swap3's
      result holds position SourcePosition(p) of the original tour. */
  lemma Swap3Positions(s: seq<nat>, l: int, i: nat, j: nat, k: nat)
    requires ValidCut(s, i, j, k)
    ensures forall p :: 0 <= p < |s| ==>
      Swap3(s, l, i, j, k)[p] == s[SourcePosition(|s|, ReverseFirst(l), ReverseSecond(l), ReverseThird(l), i, j, k, p)]
  {
    forall p | 0 <= p < |s|
      ensures Swap3(s, l, i, j, k)[p] == s[SourcePosition(|s|, ReverseFirst(l), ReverseSecond(l), ReverseThird(l), i, j, k, p)]
    {
      ReassembleAt(s, ReverseFirst(l), ReverseSecond(l), ReverseThird(l), i, j, k, p);
    }
  }

  /** The position of the original tour that position p of the new tour is
      read from: the first j-i positions take S1 (from i+1 onwards, or from j
      backwards), the next k-j take S2 (from j+1 on, or from k back), the
      rest take S3 (from k+1 on, or from i back), going round the end of the
      tour where needed. */
  function SourcePosition(n: nat, f1: bool, f2: bool, f3: bool, i: nat, j: nat, k: nat, p: nat): nat
    requires i < j < k < n && p < n
  {
    if p < j - i then (if f1 then j - p else i + 1 + p)
    else if p < k - i then (if f2 then j + k - i - p else i + 1 + p)
    else if f3 then Wrap(k + n - p, n) else Wrap(i + 1 + p, n)
  }

  lemma ReassembleMultiset(s: seq<nat>, f1: bool, f2: bool, f3: bool, i: nat, j: nat, k: nat)
    requires ValidCut(s, i, j, k)
    ensures |Reassemble(s, f1, f2, f3, i, j, k)| == |s|
    ensures multiset(Reassemble(s, f1, f2, f3, i, j, k)) == multiset(s)
  {
    var a, b, c := Segment1(s, i, j, k), Segment2(s, i, j, k), Segment3(s, i, j, k);
    SegmentsFormRotation(s, i, j, k);
    ReversePreservesMultiset(a);
    ReversePreservesMultiset(b);
    ReversePreservesMultiset(c);
  }

  lemma Concat3Index(x: seq<nat>, y: seq<nat>, z: seq<nat>, p: nat)
    requires p < |x| + |y| + |z|
    ensures (x + y + z)[p] == if p < |x| then x[p] else if p < |x| + |y| then y[p - |x|] else z[p - |x| - |y|]
  {
  }

  lemma FirstAt(s: seq<nat>, f1: bool, i: nat, j: nat, k: nat, q: nat)
    requires ValidCut(s, i, j, k) && q < j - i
    ensures |ReverseIf(Segment1(s, i, j, k), f1)| == j - i
    ensures ReverseIf(Segment1(s, i, j, k), f1)[q] == s[if f1 then j - q else i + 1 + q]
  {
    var a := Segment1(s, i, j, k);
    assert |a| == j - i;
    if f1 {
      assert ReverseIf(a, f1)[q] == a[j - i - 1 - q];
    }
  }

  lemma SecondAt(s: seq<nat>, f2: bool, i: nat, j: nat, k: nat, q: nat)
    requires ValidCut(s, i, j, k) && q < k - j
    ensures |ReverseIf(Segment2(s, i, j, k), f2)| == k - j
    ensures ReverseIf(Segment2(s, i, j, k), f2)[q] == s[if f2 then k - q else j + 1 + q]
  {
    var b := Segment2(s, i, j, k);
    assert |b| == k - j;
    if f2 {
      assert ReverseIf(b, f2)[q] == b[k - j - 1 - q];
    }
  }

  lemma ThirdAt(s: seq<nat>, f3: bool, i: nat, j: nat, k: nat, q: nat)
    requires ValidCut(s, i, j, k) && q < |s| - k + i
    ensures |ReverseIf(Segment3(s, i, j, k), f3)| == |s| - k + i
    ensures ReverseIf(Segment3(s, i, j, k), f3)[q] == s[if f3 then Wrap(i + |s| - q, |s|) else Wrap(k + 1 + q, |s|)]
  {
    var n := |s|;
    var c := Segment3(s, i, j, k);
    assert |c| == n - k + i;
    var x := if f3 then n - k + i - 1 - q else q;
    assert ReverseIf(c, f3)[q] == c[x];
    assert c[x] == s[Wrap(k + 1 + x, n)];
  }

  lemma ReassembleAt(s: seq<nat>, f1: bool, f2: bool, f3: bool, i: nat, j: nat, k: nat, p: nat)
    requires ValidCut(s, i, j, k) && p < |s|
    ensures |Reassemble(s, f1, f2, f3, i, j, k)| == |s|
    ensures Reassemble(s, f1, f2, f3, i, j, k)[p] == s[SourcePosition(|s|, f1, f2, f3, i, j, k, p)]
  {
    var a', b', c' := ReverseIf(Segment1(s, i, j, k), f1), ReverseIf(Segment2(s, i, j, k), f2), ReverseIf(Segment3(s, i, j, k), f3);
    ReassembleMultiset(s, f1, f2, f3, i, j, k);
    Concat3Index(a', b', c', p);
    if p < j - i {
      FirstAt(s, f1, i, j, k, p);
    } else if p < k - i {
      FirstAt(s, f1, i, j, k, 0);
      SecondAt(s, f2, i, j, k, p - (j - i));
    } else {
      FirstAt(s, f1, i, j, k, 0);
      SecondAt(s, f2, i, j, k, 0);
      ThirdAt(s, f3, i, j, k, p - (k - i));
    }
  }

  /** The end points of the three segments: S1 runs from position i+1 to j,
      S2 from j+1 to k, S3 from k+1 (mod n) to i. */
  lemma SegmentEnds(s: seq<nat>, i: nat, j: nat, k: nat)
    requires ValidCut(s, i, j, k)
    ensures var a, b, c := Segment1(s, i, j, k), Segment2(s, i, j, k), Segment3(s, i, j, k);
      && |a| == j - i && |b| == k - j && |c| == |s| - k + i
      && a[0] == s[i + 1] && a[|a| - 1] == s[j]
      && b[0] == s[j + 1] && b[|b| - 1] == s[k]
      && c[0] == s[Wrap(k + 1, |s|)] && c[|c| - 1] == s[i]
  {
    var c := Segment3(s, i, j, k);
    if k + 1 == |s| {
      assert c == s[..i + 1];
    } else {
      assert c[0] == s[k + 1];
    }
  }

  /** Every node of the reassembled tour is a node of the original one. */
  lemma Swap3OnMatrix(dm: Matrix, s: seq<nat>, l: int, i: nat, j: nat, k: nat)
    requires OnMatrix(dm, s) && ValidCut(s, i, j, k)
    ensures OnMatrix(dm, Swap3(s, l, i, j, k))
  {
    AllBelowByMultiset(s, Swap3(s, l, i, j, k), |dm|);
  }

  /** A 3-opt move keeps a permutation of 0 .. n-1 a permutation. */
  lemma Swap3Permutes(s: seq<nat>, l: int, i: nat, j: nat, k: nat)
    requires ValidCut(s, i, j, k) && IsPermutation(s, |s|)
    ensures IsPermutation(Swap3(s, l, i, j, k), |s|)
  {
    PermutationByMultiset(s, Swap3(s, l, i, j, k), |s|);
  }

  lemma ReverseIfOnMatrix(dm: Matrix, x: seq<nat>, flag: bool)
    requires OnMatrix(dm, x) && Symmetric(dm)
    ensures OnMatrix(dm, ReverseIf(x, flag))
    ensures PathCost(dm, ReverseIf(x, flag)) == PathCost(dm, x)
  {
    if flag {
      PathCostReverse(dm, x);
    }
  }

  /** The nodes of each segment are nodes of the matrix. */
  lemma SegmentsOnMatrix(dm: Matrix, s: seq<nat>, i: nat, j: nat, k: nat)
    requires OnMatrix(dm, s) && ValidCut(s, i, j, k)
    ensures OnMatrix(dm, Segment1(s, i, j, k)) && OnMatrix(dm, Segment2(s, i, j, k)) && OnMatrix(dm, Segment3(s, i, j, k))
  {
    var c := Segment3(s, i, j, k);
    forall p | 0 <= p < |c|
      ensures c[p] < |dm|
    {
      if p < |s| - (k + 1) {
        assert c[p] == s[k + 1 + p];
      } else {
        assert c[p] == s[p - (|s| - (k + 1))];
      }
    }
  }

  /** The first and last node of a segment once its reversal flag is applied. */
  lemma ReverseIfEnds(x: seq<nat>, flag: bool)
    requires |x| > 0
    ensures |ReverseIf(x, flag)| == |x|
    ensures ReverseIf(x, flag)[0] == if flag then x[|x| - 1] else x[0]
    ensures ReverseIf(x, flag)[|x| - 1] == if flag then x[0] else x[|x| - 1]
  {
  }

  /** The three edges that join the segments after the move minus the three
      cut edges, in terms of the nodes on either side of the cuts: ni, ni1 at
      the cut after i, nj, nj1 after j, nk, nk1 after k. */
  function JunctionDelta(dm: Matrix, f1: bool, f2: bool, f3: bool, ni: nat, ni1: nat, nj: nat, nj1: nat, nk: nat, nk1: nat): int
    requires Square(dm) && ni < |dm| && ni1 < |dm| && nj < |dm| && nj1 < |dm| && nk < |dm| && nk1 < |dm|
  {
    // S1 runs ni1 .. nj, S2 runs nj1 .. nk, S3 runs nk1 .. ni, each turned
    // round when its flag is set
    var first1, last1 := if f1 then nj else ni1, if f1 then ni1 else nj;
    var first2, last2 := if f2 then nk else nj1, if f2 then nj1 else nk;
    var first3, last3 := if f3 then ni else nk1, if f3 then nk1 else ni;
    (dm[last1][first2] + dm[last2][first3] + dm[last3][first1]) as int
      - (dm[nj][nj1] + dm[nk][nk1] + dm[ni][ni1])
  }

  /** The tour length split at the three cuts: the cost inside each segment
      plus the three cut edges. */
  lemma LengthAtCuts(dm: Matrix, s: seq<nat>, i: nat, j: nat, k: nat)
    requires OnMatrix(dm, s) && ValidCut(s, i, j, k)
    ensures var a, b, c := Segment1(s, i, j, k), Segment2(s, i, j, k), Segment3(s, i, j, k);
      OnMatrix(dm, a) && OnMatrix(dm, b) && OnMatrix(dm, c) && |a| > 0 && |b| > 0 && |c| > 0 &&
      Distance(dm, s) == PathCost(dm, a) + PathCost(dm, b) + PathCost(dm, c)
                       + Link(dm, a, b) + Link(dm, b, c) + Link(dm, c, a)
  {
    var a, b, c := Segment1(s, i, j, k), Segment2(s, i, j, k), Segment3(s, i, j, k);
    SegmentsOnMatrix(dm, s, i, j, k);
    SegmentsFormRotation(s, i, j, k);
    DistanceRotate(dm, s, i + 1);
    DistanceOfThree(dm, a, b, c);
  }

  /** The reassembled tour's length: the same segment costs as before plus
      the three new junction edges. */
  lemma LengthOfReassembly(dm: Matrix, s: seq<nat>, f1: bool, f2: bool, f3: bool, i: nat, j: nat, k: nat)
    requires OnMatrix(dm, s) && Symmetric(dm) && ValidCut(s, i, j, k)
    ensures var a, b, c := Segment1(s, i, j, k), Segment2(s, i, j, k), Segment3(s, i, j, k);
      var a', b', c' := ReverseIf(a, f1), ReverseIf(b, f2), ReverseIf(c, f3);
      OnMatrix(dm, a') && OnMatrix(dm, b') && OnMatrix(dm, c') && |a'| > 0 && |b'| > 0 && |c'| > 0 &&
      OnMatrix(dm, Reassemble(s, f1, f2, f3, i, j, k)) &&
      Distance(dm, Reassemble(s, f1, f2, f3, i, j, k))
        == PathCost(dm, a) + PathCost(dm, b) + PathCost(dm, c)
         + Link(dm, a', b') + Link(dm, b', c') + Link(dm, c', a')
  {
    var a, b, c := Segment1(s, i, j, k), Segment2(s, i, j, k), Segment3(s, i, j, k);
    var a', b', c' := ReverseIf(a, f1), ReverseIf(b, f2), ReverseIf(c, f3);
    SegmentsOnMatrix(dm, s, i, j, k);
    ReverseIfOnMatrix(dm, a, f1);
    ReverseIfOnMatrix(dm, b, f2);
    ReverseIfOnMatrix(dm, c, f3);
    DistanceOfThree(dm, a', b', c');
  }

  /** The new junction edges minus the cut edges, read off the end nodes of
      the segments. */
  lemma JunctionsOfReassembly(dm: Matrix, s: seq<nat>, f1: bool, f2: bool, f3: bool, i: nat, j: nat, k: nat)
    requires OnMatrix(dm, s) && ValidCut(s, i, j, k)
    ensures var a, b, c := Segment1(s, i, j, k), Segment2(s, i, j, k), Segment3(s, i, j, k);
      var a', b', c' := ReverseIf(a, f1), ReverseIf(b, f2), ReverseIf(c, f3);
      OnMatrix(dm, a) && OnMatrix(dm, b) && OnMatrix(dm, c) && |a| > 0 && |b| > 0 && |c| > 0 &&
      OnMatrix(dm, a') && OnMatrix(dm, b') && OnMatrix(dm, c') && |a'| > 0 && |b'| > 0 && |c'| > 0 &&
      (Link(dm, a', b') + Link(dm, b', c') + Link(dm, c', a')) as int
        - (Link(dm, a, b) + Link(dm, b, c) + Link(dm, c, a))
        == JunctionDelta(dm, f1, f2, f3, s[i], s[i + 1], s[j], s[j + 1], s[k], s[Wrap(k + 1, |s|)])
  {
    var a, b, c := Segment1(s, i, j, k), Segment2(s, i, j, k), Segment3(s, i, j, k);
    SegmentEnds(s, i, j, k);
    SegmentsOnMatrix(dm, s, i, j, k);
    ReverseIfEnds(a, f1);
    ReverseIfEnds(b, f2);
    ReverseIfEnds(c, f3);
    ReverseIfAllBelow(a, f1, |dm|);
    ReverseIfAllBelow(b, f2, |dm|);
    ReverseIfAllBelow(c, f3, |dm|);
  }

  /** Reassembling the segments changes the tour length by the change of the
      junction edges: the segments themselves keep their cost, reversed or
      not, over a symmetric matrix. */
  lemma ReassembleDistance(dm: Matrix, s: seq<nat>, f1: bool, f2: bool, f3: bool, i: nat, j: nat, k: nat)
    requires OnMatrix(dm, s) && Symmetric(dm) && ValidCut(s, i, j, k)
    ensures OnMatrix(dm, Reassemble(s, f1, f2, f3, i, j, k))
    ensures Distance(dm, Reassemble(s, f1, f2, f3, i, j, k))
         == Distance(dm, s) + JunctionDelta(dm, f1, f2, f3, s[i], s[i + 1], s[j], s[j + 1], s[k], s[Wrap(k + 1, |s|)])
  {
    LengthAtCuts(dm, s, i, j, k);
    LengthOfReassembly(dm, s, f1, f2, f3, i, j, k);
    JunctionsOfReassembly(dm, s, f1, f2, f3, i, j, k);
  }

  /** Delta consistency: over a symmetric matrix, the length of the tour
      `swap3` produces exceeds the original length by exactly what
      `calculateDiff3` predicts, for each case 0..7 and every cut. */
  lemma DeltaConsistency(dm: Matrix, s: seq<nat>, l: int, i: nat, j: nat, k: nat)
    requires OnMatrix(dm, s) && Symmetric(dm) && ValidCut(s, i, j, k) && 0 <= l <= 7
    ensures OnMatrix(dm, Swap3(s, l, i, j, k))
    ensures Distance(dm, Swap3(s, l, i, j, k)) == Distance(dm, s) + Diff3(dm, s, l, i, j, k)
  {
    ReassembleDistance(dm, s, ReverseFirst(l), ReverseSecond(l), ReverseThird(l), i, j, k);
  }

  /** Case 0, and any l outside 1..7, is the original tour: calculateDiff3
      predicts no change, and swap3 with no bit set yields the rotation that
      starts at position i+1, which has the same length. */
  lemma IdentityCase(dm: Matrix, s: seq<nat>, l: int, i: nat, j: nat, k: nat)
    requires OnMatrix(dm, s) && ValidCut(s, i, j, k) && !(1 <= l <= 7)
    ensures Diff3(dm, s, l, i, j, k) == 0
    ensures l == 0 ==> Swap3(s, l, i, j, k) == Rotate(s, i + 1)
    ensures l == 0 ==> OnMatrix(dm, Swap3(s, l, i, j, k)) && Distance(dm, Swap3(s, l, i, j, k)) == Distance(dm, s)
  {
    if l == 0 {
      SegmentsFormRotation(s, i, j, k);
      DistanceRotate(dm, s, i + 1);
    }
  }

  /** When S3 is the single node at position 0 (i = 0, k = n-1), reversing it
      changes nothing: case 4 is the rotation by one position and costs
      nothing, as the test at (0, 4, 7) expects. */
  lemma SingleNodeThirdSegment(dm: Matrix, s: seq<nat>, j: nat)
    requires OnMatrix(dm, s) && 0 < j && j + 1 < |s|
    ensures Swap3(s, 4, 0, j, |s| - 1) == Rotate(s, 1)
    ensures Diff3(dm, s, 4, 0, j, |s| - 1) == 0
  {
    SingleNodeThirdSegmentRotates(s, j);
    assert Wrap(|s|, |s|) == 0;
    assert !ReverseFirst(4) && !ReverseSecond(4) && ReverseThird(4);
  }

  lemma SingleNodeThirdSegmentRotates(s: seq<nat>, j: nat)
    requires 0 < j && j + 1 < |s|
    ensures Swap3(s, 4, 0, j, |s| - 1) == Rotate(s, 1)
  {
    assert !ReverseFirst(4) && !ReverseSecond(4) && ReverseThird(4);
    ReassembleSingleNode(s, j);
  }

  lemma ReassembleSingleNode(s: seq<nat>, j: nat)
    requires 0 < j && j + 1 < |s|
    ensures Reassemble(s, false, false, true, 0, j, |s| - 1) == Rotate(s, 1)
  {
    var k := |s| - 1;
    var c := Segment3(s, 0, j, k);
    assert |c| == 1;
    assert Reverse(c) == c;
    SegmentsFormRotation(s, 0, j, k);
  }

  /** The tour 0, 1, ..., 7 the test suite starts from. */
  function EightNodes(): (r: seq<nat>)
  {
    [0, 1, 2, 3, 4, 5, 6, 7]
  }

  /** Swap3 in terms of the three segments it is given. */
  lemma Swap3OfSegments(s: seq<nat>, l: int, i: nat, j: nat, k: nat, a: seq<nat>, b: seq<nat>, c: seq<nat>)
    requires ValidCut(s, i, j, k)
    requires Segment1(s, i, j, k) == a && Segment2(s, i, j, k) == b && Segment3(s, i, j, k) == c
    ensures Swap3(s, l, i, j, k) == ReverseIf(a, ReverseFirst(l)) + ReverseIf(b, ReverseSecond(l)) + ReverseIf(c, ReverseThird(l))
  {
  }

  /* The tours the test suite expects from swap3 on the tour 0, 1, ..., 7,
     one lemma per test vector (case l, cut i, j, k). */

  lemma Swap3Example1()
    ensures Swap3(EightNodes(), 1, 0, 1, 4) == [1, 2, 3, 4, 5, 6, 7, 0]
  {
    var a: seq<nat>, b: seq<nat>, c: seq<nat> := [1], [2, 3, 4], [5, 6, 7, 0];
    var a': seq<nat>, b': seq<nat>, c': seq<nat> := [1], [2, 3, 4], [5, 6, 7, 0];
    var e: seq<nat> := [1, 2, 3, 4, 5, 6, 7, 0];
    assert a' + b' + c' == e;
    assert Reverse(a) == a' by { assert |a| == 1; }
    assert ReverseFirst(1) && !ReverseSecond(1) && !ReverseThird(1);
    Swap3OfSegments(EightNodes(), 1, 0, 1, 4, a, b, c);
  }

  lemma Swap3Example2()
    ensures Swap3(EightNodes(), 1, 1, 2, 6) == [2, 3, 4, 5, 6, 7, 0, 1]
  {
    var a: seq<nat>, b: seq<nat>, c: seq<nat> := [2], [3, 4, 5, 6], [7, 0, 1];
    var a': seq<nat>, b': seq<nat>, c': seq<nat> := [2], [3, 4, 5, 6], [7, 0, 1];
    var e: seq<nat> := [2, 3, 4, 5, 6, 7, 0, 1];
    assert a' + b' + c' == e;
    assert Reverse(a) == a' by { assert |a| == 1; }
    assert ReverseFirst(1) && !ReverseSecond(1) && !ReverseThird(1);
    Swap3OfSegments(EightNodes(), 1, 1, 2, 6, a, b, c);
  }

  lemma Swap3Example3()
    ensures Swap3(EightNodes(), 1, 0, 4, 7) == [4, 3, 2, 1, 5, 6, 7, 0]
  {
    var a: seq<nat>, b: seq<nat>, c: seq<nat> := [1, 2, 3, 4], [5, 6, 7], [0];
    var a': seq<nat>, b': seq<nat>, c': seq<nat> := [4, 3, 2, 1], [5, 6, 7], [0];
    var e: seq<nat> := [4, 3, 2, 1, 5, 6, 7, 0];
    assert a' + b' + c' == e;
    assert Reverse(a) == a';
    assert ReverseFirst(1) && !ReverseSecond(1) && !ReverseThird(1);
    Swap3OfSegments(EightNodes(), 1, 0, 4, 7, a, b, c);
  }

  lemma Swap3Example4()
    ensures Swap3(EightNodes(), 1, 1, 4, 6) == [4, 3, 2, 5, 6, 7, 0, 1]
  {
    var a: seq<nat>, b: seq<nat>, c: seq<nat> := [2, 3, 4], [5, 6], [7, 0, 1];
    var a': seq<nat>, b': seq<nat>, c': seq<nat> := [4, 3, 2], [5, 6], [7, 0, 1];
    var e: seq<nat> := [4, 3, 2, 5, 6, 7, 0, 1];
    assert a' + b' + c' == e;
    assert Reverse(a) == a';
    assert ReverseFirst(1) && !ReverseSecond(1) && !ReverseThird(1);
    Swap3OfSegments(EightNodes(), 1, 1, 4, 6, a, b, c);
  }

  lemma Swap3Example5()
    ensures Swap3(EightNodes(), 2, 0, 4, 7) == [1, 2, 3, 4, 7, 6, 5, 0]
  {
    var a: seq<nat>, b: seq<nat>, c: seq<nat> := [1, 2, 3, 4], [5, 6, 7], [0];
    var a': seq<nat>, b': seq<nat>, c': seq<nat> := [1, 2, 3, 4], [7, 6, 5], [0];
    var e: seq<nat> := [1, 2, 3, 4, 7, 6, 5, 0];
    assert a' + b' + c' == e;
    assert Reverse(b) == b';
    assert !ReverseFirst(2) && ReverseSecond(2) && !ReverseThird(2);
    Swap3OfSegments(EightNodes(), 2, 0, 4, 7, a, b, c);
  }

  lemma Swap3Example6()
    ensures Swap3(EightNodes(), 2, 1, 4, 6) == [2, 3, 4, 6, 5, 7, 0, 1]
  {
    var a: seq<nat>, b: seq<nat>, c: seq<nat> := [2, 3, 4], [5, 6], [7, 0, 1];
    var a': seq<nat>, b': seq<nat>, c': seq<nat> := [2, 3, 4], [6, 5], [7, 0, 1];
    var e: seq<nat> := [2, 3, 4, 6, 5, 7, 0, 1];
    assert a' + b' + c' == e;
    assert Reverse(b) == b';
    assert !ReverseFirst(2) && ReverseSecond(2) && !ReverseThird(2);
    Swap3OfSegments(EightNodes(), 2, 1, 4, 6, a, b, c);
  }

  lemma Swap3Example7()
    ensures Swap3(EightNodes(), 4, 0, 4, 7) == [1, 2, 3, 4, 5, 6, 7, 0]
  {
    var a: seq<nat>, b: seq<nat>, c: seq<nat> := [1, 2, 3, 4], [5, 6, 7], [0];
    var a': seq<nat>, b': seq<nat>, c': seq<nat> := [1, 2, 3, 4], [5, 6, 7], [0];
    var e: seq<nat> := [1, 2, 3, 4, 5, 6, 7, 0];
    assert a' + b' + c' == e;
    assert Reverse(c) == c' by { assert |c| == 1; }
    assert !ReverseFirst(4) && !ReverseSecond(4) && ReverseThird(4);
    Swap3OfSegments(EightNodes(), 4, 0, 4, 7, a, b, c);
  }

  lemma Swap3Example8()
    ensures Swap3(EightNodes(), 4, 1, 4, 6) == [2, 3, 4, 5, 6, 1, 0, 7]
  {
    var a: seq<nat>, b: seq<nat>, c: seq<nat> := [2, 3, 4], [5, 6], [7, 0, 1];
    var a': seq<nat>, b': seq<nat>, c': seq<nat> := [2, 3, 4], [5, 6], [1, 0, 7];
    var e: seq<nat> := [2, 3, 4, 5, 6, 1, 0, 7];
    assert a' + b' + c' == e;
    assert Reverse(c) == c';
    assert !ReverseFirst(4) && !ReverseSecond(4) && ReverseThird(4);
    Swap3OfSegments(EightNodes(), 4, 1, 4, 6, a, b, c);
  }

  lemma Swap3Example9()
    ensures Swap3(EightNodes(), 3, 0, 4, 7) == [4, 3, 2, 1, 7, 6, 5, 0]
  {
    var a: seq<nat>, b: seq<nat>, c: seq<nat> := [1, 2, 3, 4], [5, 6, 7], [0];
    var a': seq<nat>, b': seq<nat>, c': seq<nat> := [4, 3, 2, 1], [7, 6, 5], [0];
    var e: seq<nat> := [4, 3, 2, 1, 7, 6, 5, 0];
    assert a' + b' + c' == e;
    assert Reverse(a) == a';
    assert Reverse(b) == b';
    assert ReverseFirst(3) && ReverseSecond(3) && !ReverseThird(3);
    Swap3OfSegments(EightNodes(), 3, 0, 4, 7, a, b, c);
  }

  lemma Swap3Example10()
    ensures Swap3(EightNodes(), 3, 1, 2, 6) == [2, 6, 5, 4, 3, 7, 0, 1]
  {
    var a: seq<nat>, b: seq<nat>, c: seq<nat> := [2], [3, 4, 5, 6], [7, 0, 1];
    var a': seq<nat>, b': seq<nat>, c': seq<nat> := [2], [6, 5, 4, 3], [7, 0, 1];
    var e: seq<nat> := [2, 6, 5, 4, 3, 7, 0, 1];
    assert a' + b' + c' == e;
    assert Reverse(a) == a' by { assert |a| == 1; }
    assert Reverse(b) == b';
    assert ReverseFirst(3) && ReverseSecond(3) && !ReverseThird(3);
    Swap3OfSegments(EightNodes(), 3, 1, 2, 6, a, b, c);
  }

  lemma Swap3Example11()
    ensures Swap3(EightNodes(), 5, 0, 4, 7) == [4, 3, 2, 1, 5, 6, 7, 0]
  {
    var a: seq<nat>, b: seq<nat>, c: seq<nat> := [1, 2, 3, 4], [5, 6, 7], [0];
    var a': seq<nat>, b': seq<nat>, c': seq<nat> := [4, 3, 2, 1], [5, 6, 7], [0];
    var e: seq<nat> := [4, 3, 2, 1, 5, 6, 7, 0];
    assert a' + b' + c' == e;
    assert Reverse(a) == a';
    assert Reverse(c) == c' by { assert |c| == 1; }
    assert ReverseFirst(5) && !ReverseSecond(5) && ReverseThird(5);
    Swap3OfSegments(EightNodes(), 5, 0, 4, 7, a, b, c);
  }

  lemma Swap3Example12()
    ensures Swap3(EightNodes(), 5, 1, 2, 6) == [2, 3, 4, 5, 6, 1, 0, 7]
  {
    var a: seq<nat>, b: seq<nat>, c: seq<nat> := [2], [3, 4, 5, 6], [7, 0, 1];
    var a': seq<nat>, b': seq<nat>, c': seq<nat> := [2], [3, 4, 5, 6], [1, 0, 7];
    var e: seq<nat> := [2, 3, 4, 5, 6, 1, 0, 7];
    assert a' + b' + c' == e;
    assert Reverse(a) == a' by { assert |a| == 1; }
    assert Reverse(c) == c';
    assert ReverseFirst(5) && !ReverseSecond(5) && ReverseThird(5);
    Swap3OfSegments(EightNodes(), 5, 1, 2, 6, a, b, c);
  }

  lemma Swap3Example13()
    ensures Swap3(EightNodes(), 6, 0, 4, 7) == [1, 2, 3, 4, 7, 6, 5, 0]
  {
    var a: seq<nat>, b: seq<nat>, c: seq<nat> := [1, 2, 3, 4], [5, 6, 7], [0];
    var a': seq<nat>, b': seq<nat>, c': seq<nat> := [1, 2, 3, 4], [7, 6, 5], [0];
    var e: seq<nat> := [1, 2, 3, 4, 7, 6, 5, 0];
    assert a' + b' + c' == e;
    assert Reverse(b) == b';
    assert Reverse(c) == c' by { assert |c| == 1; }
    assert !ReverseFirst(6) && ReverseSecond(6) && ReverseThird(6);
    Swap3OfSegments(EightNodes(), 6, 0, 4, 7, a, b, c);
  }

  lemma Swap3Example14()
    ensures Swap3(EightNodes(), 6, 1, 2, 6) == [2, 6, 5, 4, 3, 1, 0, 7]
  {
    var a: seq<nat>, b: seq<nat>, c: seq<nat> := [2], [3, 4, 5, 6], [7, 0, 1];
    var a': seq<nat>, b': seq<nat>, c': seq<nat> := [2], [6, 5, 4, 3], [1, 0, 7];
    var e: seq<nat> := [2, 6, 5, 4, 3, 1, 0, 7];
    assert a' + b' + c' == e;
    assert Reverse(b) == b';
    assert Reverse(c) == c';
    assert !ReverseFirst(6) && ReverseSecond(6) && ReverseThird(6);
    Swap3OfSegments(EightNodes(), 6, 1, 2, 6, a, b, c);
  }

  lemma Swap3Example15()
    ensures Swap3(EightNodes(), 7, 0, 4, 7) == [4, 3, 2, 1, 7, 6, 5, 0]
  {
    var a: seq<nat>, b: seq<nat>, c: seq<nat> := [1, 2, 3, 4], [5, 6, 7], [0];
    var a': seq<nat>, b': seq<nat>, c': seq<nat> := [4, 3, 2, 1], [7, 6, 5], [0];
    var e: seq<nat> := [4, 3, 2, 1, 7, 6, 5, 0];
    assert a' + b' + c' == e;
    assert Reverse(a) == a';
    assert Reverse(b) == b';
    assert Reverse(c) == c' by { assert |c| == 1; }
    assert ReverseFirst(7) && ReverseSecond(7) && ReverseThird(7);
    Swap3OfSegments(EightNodes(), 7, 0, 4, 7, a, b, c);
  }

  lemma Swap3Example16()
    ensures Swap3(EightNodes(), 7, 1, 2, 6) == [2, 6, 5, 4, 3, 1, 0, 7]
  {
    var a: seq<nat>, b: seq<nat>, c: seq<nat> := [2], [3, 4, 5, 6], [7, 0, 1];
    var a': seq<nat>, b': seq<nat>, c': seq<nat> := [2], [6, 5, 4, 3], [1, 0, 7];
    var e: seq<nat> := [2, 6, 5, 4, 3, 1, 0, 7];
    assert a' + b' + c' == e;
    assert Reverse(a) == a' by { assert |a| == 1; }
    assert Reverse(b) == b';
    assert Reverse(c) == c';
    assert ReverseFirst(7) && ReverseSecond(7) && ReverseThird(7);
    Swap3OfSegments(EightNodes(), 7, 1, 2, 6, a, b, c);
  }
}
