/** The four places where the code of tspsolver/tspsolver.go and
    tspsolver/algo.go, read literally, does not do what its tests and
    comments ask for. Each is modelled here as written, next to a lemma that
    exhibits the difference; the rest of the model uses the intended
    behaviour (Diff3, Swap3 and RandomPath). */
module AsWritten {
  import opened Sequences
  import opened Tour
  import opened ThreeOptMove
  import opened Construction

  /** calculateDiff3 as written: position k+1 is not reduced mod n, so when
      k is the last position every case that reads it indexes past the end
      of the tour, a run-time panic (None). Elsewhere it agrees with Diff3. */
  function Diff3AsWritten(dm: Matrix, s: seq<nat>, l: int, i: nat, j: nat, k: nat): (r: Option<int>)
    requires OnMatrix(dm, s) && ValidCut(s, i, j, k)
    ensures r.None? <==> k + 1 == |s| && 2 <= l <= 7
    ensures r.Some? ==> r.value == Diff3(dm, s, l, i, j, k)
  {
    if k + 1 < |s| then Some(Diff3At(dm, s, l, i, j, k, k + 1))
    else if 2 <= l <= 7 then None
    // case 1 and the default case do not read position k+1
    else Some(Diff3At(dm, s, l, i, j, k, 0))
  }

  /** The test of case 2 at (0, 4, 7) on eight nodes: the code as written
      panics, while the intended calculateDiff3 gives the change of length
      that the move really causes. */
  lemma Diff3AsWrittenOnTest(dm: Matrix)
    requires OnMatrix(dm, EightNodes()) && Symmetric(dm)
    ensures Diff3AsWritten(dm, EightNodes(), 2, 0, 4, 7) == None
    ensures OnMatrix(dm, Swap3(EightNodes(), 2, 0, 4, 7))
    ensures Distance(dm, Swap3(EightNodes(), 2, 0, 4, 7)) == Distance(dm, EightNodes()) + Diff3(dm, EightNodes(), 2, 0, 4, 7)
  {
    DeltaConsistency(dm, EightNodes(), 2, 0, 4, 7);
  }

  /** The indices a+p and b-p of every step p in pos .. stop-1 lie in a
      buffer of n entries. */
  predicate LoopInRange(n: int, pos: int, stop: int, a: int, b: int)
  {
    pos >= stop || (0 <= a + pos && a + stop <= n && 0 <= b - stop + 1 && b - pos < n)
  }

  /** One reversal loop of swap3: for pos from `pos` while pos < `stop`,
      exchange entries a+pos and b-pos; None when an index is out of range
      (a run-time panic), which happens exactly when some step's index
      falls outside the buffer. */
  function SwapLoop(buf: seq<nat>, pos: int, stop: int, a: int, b: int): (r: Option<seq<nat>>)
    ensures r.Some? <==> LoopInRange(|buf|, pos, stop, a, b)
    ensures r.Some? ==> |r.value| == |buf|
    decreases stop - pos
  {
    if pos >= stop then Some(buf)
    else if (0 <= a + pos < |buf|) && (0 <= b - pos < |buf|) then
      var x: nat, y: nat := a + pos, b - pos;
      SwapLoop(SwapAt(buf, x, y), pos + 1, stop, a, b)
    else None
  }

  /** A reversal loop run only when `run` holds, on the result of the
      loops before it; a panic there is passed on. */
  function LoopIf(run: bool, buf: Option<seq<nat>>, pos: int, stop: int, a: int, b: int): (r: Option<seq<nat>>)
    ensures r.Some? <==> buf.Some? && (run ==> LoopInRange(|buf.value|, pos, stop, a, b))
    ensures r.Some? ==> |r.value| == |buf.value|
  {
    if buf.None? then None
    else if run then SwapLoop(buf.value, pos, stop, a, b)
    else buf
  }

  /** The three reversal loops of swap3 on a buffer, with the segment
      lengths it computes, each loop run when its bit of l is set. They
      panic exactly when a loop that runs leaves the buffer. */
  function ReversalLoops(buf: seq<nat>, l: int, len1: int, len2: int, len3: int): (r: Option<seq<nat>>)
    ensures r.Some? <==>
      (ReverseFirst(l) ==> LoopInRange(|buf|, 0, len1 / 2, 0, len1 - 1)) &&
      (ReverseSecond(l) ==> LoopInRange(|buf|, len1, len1 + len2 / 2, len1, len1 + len2 - 1)) &&
      (ReverseThird(l) ==> LoopInRange(|buf|, len2, len1 + len2 + len3 / 2, len1 + len2, len1 + len2 + len3 - 1))
    ensures r.Some? ==> |r.value| == |buf|
  {
    var b1 := LoopIf(ReverseFirst(l), Some(buf), 0, len1 / 2, 0, len1 - 1);
    var b2 := LoopIf(ReverseSecond(l), b1, len1, len1 + len2 / 2, len1, len1 + len2 - 1);
    LoopIf(ReverseThird(l), b2, len2, len1 + len2 + len3 / 2, len1 + len2, len1 + len2 + len3 - 1)
  }

  /** The rotation swap3 appends: entry pos is node (pos + i + 1) mod n. */
  function Rotation(s: seq<nat>, i: nat): (r: seq<nat>)
    requires i < |s|
    ensures |r| == |s|
  {
    seq(|s|, pos requires 0 <= pos < |s| => s[(pos + i + 1) % |s|])
  }

  /** The buffer swap3 appends is the rotation of the tour that starts
      after position i, the one the three segments form. */
  lemma RotationIsRotate(s: seq<nat>, i: nat)
    requires i < |s|
    ensures Rotation(s, i) == Rotate(s, i + 1)
  {
    var n := |s|;
    forall p | 0 <= p < n
      ensures Rotation(s, i)[p] == Rotate(s, i + 1)[p]
    {
      WrapIsMod(p + i + 1, n);
      RotateIndex(s, i + 1, p);
    }
  }

  /** Wrap is the remainder mod n on 0 .. 2n-1. */
  lemma WrapIsMod(x: nat, n: nat)
    requires x < 2 * n
    ensures x % n == Wrap(x, n)
  {
    if x >= n {
      assert x == 1 * n + (x - n);
    }
  }

  /** The length swap3 computes for the circular segment from position
      `from` to position `stop` of a tour of n nodes. */
  function SegmentLength(from: int, stop: int, n: int): int
    requires n > 0
  {
    (stop - from + 1 + n) % n
  }

  /** At a cut (i, j, k) the three segment lengths are j-i, k-j and n-k+i. */
  lemma SegmentLengths(n: nat, i: nat, j: nat, k: nat)
    requires i < j < k < n
    ensures SegmentLength(i + 1, j, n) == j - i
    ensures SegmentLength(j + 1, k, n) == k - j
    ensures SegmentLength(k + 1, i, n) == n - k + i
  {
    ModOfShifted(j - i, n);
    ModOfShifted(k - j, n);
    ModOfSmall(n - k + i, n);
  }

  lemma ModOfShifted(d: nat, n: nat)
    requires 0 < d < n
    ensures (d + n) % n == d
  {
    assert (d + n) == 1 * n + d;
  }

  lemma ModOfSmall(d: nat, n: nat)
    requires 0 < d < n
    ensures d % n == d
  {
  }

  /** swap3 as written: `make([]int, n)` followed by n appends gives a
      slice of 2n entries, the first n of them zero, and the reversal loops
      run over that slice. They stay inside it, so it never panics. */
  function Swap3AsWritten(s: seq<nat>, l: int, i: nat, j: nat, k: nat): (r: Option<seq<nat>>)
    requires ValidCut(s, i, j, k)
    ensures r.Some? && |r.value| == 2 * |s|
  {
    var n := |s|;
    SegmentLengths(n, i, j, k);
    ReversalLoopsInRange(Zeros(n) + Rotation(s, i), l, j - i, k - j, n - k + i);
    ReversalLoops(Zeros(n) + Rotation(s, i), l,
      SegmentLength(i + 1, j, n), SegmentLength(j + 1, k, n), SegmentLength(k + 1, i, n))
  }

  /** swap3 as written never panics, but always leaves a tour of twice the
      length, which is never what Swap3 returns. */
  lemma Swap3AsWrittenDoublesLength(s: seq<nat>, l: int, i: nat, j: nat, k: nat)
    requires ValidCut(s, i, j, k)
    ensures Swap3AsWritten(s, l, i, j, k).Some?
    ensures |Swap3AsWritten(s, l, i, j, k).value| == 2 * |s|
    ensures Swap3AsWritten(s, l, i, j, k).value != Swap3(s, l, i, j, k)
  {
    assert |Swap3(s, l, i, j, k)| == |s|;
  }

  /** When neither the second nor the third loop runs (cases 0 and 1),
      swap3 as written leaves n zeros followed by the rotation: the first
      loop only exchanges entries below j - i < n, all of them zeros. */
  lemma Swap3AsWrittenKeepsZeros(s: seq<nat>, l: int, i: nat, j: nat, k: nat)
    requires ValidCut(s, i, j, k) && !ReverseSecond(l) && !ReverseThird(l)
    ensures Swap3AsWritten(s, l, i, j, k) == Some(Zeros(|s|) + Rotation(s, i))
  {
    var n := |s|;
    var buf := Zeros(n) + Rotation(s, i);
    SegmentLengths(n, i, j, k);
    if ReverseFirst(l) {
      SwapLoopOfZeros(buf, n, 0, (j - i) / 2, 0, j - i - 1);
    }
  }

  /** A reversal loop whose indices all lie among the leading zeros of the
      buffer leaves it unchanged. */
  lemma {:induction false} SwapLoopOfZeros(buf: seq<nat>, m: nat, pos: int, stop: int, a: int, b: int)
    requires m <= |buf| && forall p :: 0 <= p < m ==> buf[p] == 0
    requires pos >= stop || (0 <= a + pos && a + stop <= m && 0 <= b - stop + 1 && b - pos < m)
    ensures SwapLoop(buf, pos, stop, a, b) == Some(buf)
    decreases stop - pos
  {
    if pos < stop {
      var x: nat, y: nat := a + pos, b - pos;
      assert SwapAt(buf, x, y) == buf;
      SwapLoopOfZeros(buf, m, pos + 1, stop, a, b);
    }
  }

  /** The test of case 4 at (0, 4, 7) on the tour 0 .. 7, as written: the
      buffer is eight zeros followed by 1, 2, ..., 7, 0, and the third loop
      (pos 3 .. 6, indices 7 + pos and 7 - pos) exchanges entries 10, 11,
      12, 13 with entries 4, 3, 2, 1, mixing the zeros into the tour. */
  lemma Swap3AsWrittenOnCase4()
    ensures Swap3AsWritten(EightNodes(), 4, 0, 4, 7)
         == Some([0, 6, 5, 4, 3, 0, 0, 0, 1, 2, 0, 0, 0, 0, 7, 0])
  {
    var rot: seq<nat> := [1, 2, 3, 4, 5, 6, 7, 0];
    RotationOfEight(0, rot);
    SegmentLengths(8, 0, 4, 7);
    var b0: seq<nat> := [0, 0, 0, 0, 0, 0, 0, 0, 1, 2, 3, 4, 5, 6, 7, 0];
    assert Zeros(8) + rot == b0;
    assert !ReverseFirst(4) && !ReverseSecond(4) && ReverseThird(4);
    assert Swap3AsWritten(EightNodes(), 4, 0, 4, 7) == SwapLoop(b0, 3, 7, 7, 7);
    ThirdLoopOnCase4(b0);
  }

  /** The four steps of that third loop. */
  lemma ThirdLoopOnCase4(b0: seq<nat>)
    requires b0 == [0, 0, 0, 0, 0, 0, 0, 0, 1, 2, 3, 4, 5, 6, 7, 0]
    ensures SwapLoop(b0, 3, 7, 7, 7) == Some([0, 6, 5, 4, 3, 0, 0, 0, 1, 2, 0, 0, 0, 0, 7, 0])
  {
    var b2: seq<nat> := [0, 0, 0, 4, 3, 0, 0, 0, 1, 2, 0, 0, 5, 6, 7, 0];
    FirstStepsOnCase4(b0, b2);
    LastStepsOnCase4(b2);
  }

  lemma FirstStepsOnCase4(b0: seq<nat>, b2: seq<nat>)
    requires b0 == [0, 0, 0, 0, 0, 0, 0, 0, 1, 2, 3, 4, 5, 6, 7, 0]
    requires b2 == [0, 0, 0, 4, 3, 0, 0, 0, 1, 2, 0, 0, 5, 6, 7, 0]
    ensures SwapLoop(b0, 3, 7, 7, 7) == SwapLoop(b2, 5, 7, 7, 7)
  {
    var b1: seq<nat> := [0, 0, 0, 0, 3, 0, 0, 0, 1, 2, 0, 4, 5, 6, 7, 0];
    assert b0[10 := b0[4]][4 := b0[10]] == b1;
    assert b1[11 := b1[3]][3 := b1[11]] == b2;
  }

  lemma LastStepsOnCase4(b2: seq<nat>)
    requires b2 == [0, 0, 0, 4, 3, 0, 0, 0, 1, 2, 0, 0, 5, 6, 7, 0]
    ensures SwapLoop(b2, 5, 7, 7, 7) == Some([0, 6, 5, 4, 3, 0, 0, 0, 1, 2, 0, 0, 0, 0, 7, 0])
  {
    var b3: seq<nat> := [0, 0, 5, 4, 3, 0, 0, 0, 1, 2, 0, 0, 0, 6, 7, 0];
    var b4: seq<nat> := [0, 6, 5, 4, 3, 0, 0, 0, 1, 2, 0, 0, 0, 0, 7, 0];
    assert b2[12 := b2[2]][2 := b2[12]] == b3;
    assert b3[13 := b3[1]][1 := b3[13]] == b4;
  }

  /** The reversal loops stay in range on any buffer at least twice as long
      as the three segments together. */
  lemma ReversalLoopsInRange(buf: seq<nat>, l: int, len1: nat, len2: nat, len3: nat)
    requires 2 * (len1 + len2 + len3) <= |buf|
    ensures ReversalLoops(buf, l, len1, len2, len3).Some?
    ensures |ReversalLoops(buf, l, len1, len2, len3).value| == |buf|
  {
    var h1, h2, h3 := len1 / 2, len2 / 2, len3 / 2;
    assert h1 <= len1 && h2 <= len2 && h3 <= len3;
  }

  /** The reversal loops alone, on a buffer of the intended length n: the
      first loop reverses S1, but the second and third loops start at the
      segment's offset and then add it again. */
  function Swap3ReversalsAsWritten(s: seq<nat>, l: int, i: nat, j: nat, k: nat): (r: Option<seq<nat>>)
    requires ValidCut(s, i, j, k)
  {
    var n := |s|;
    ReversalLoops(Rotation(s, i), l,
      SegmentLength(i + 1, j, n), SegmentLength(j + 1, k, n), SegmentLength(k + 1, i, n))
  }

  /** The test of case 2 at (1, 4, 6) on the tour 0 .. 7: even on a
      buffer of length n the second loop starts at position len1 and adds
      len1 again, so it exchanges entries 6 and 1 instead of 4 and 5. */
  lemma Swap3ReversalsAsWrittenOnCase2()
    ensures Swap3ReversalsAsWritten(EightNodes(), 2, 1, 4, 6) == Some([2, 0, 4, 5, 6, 7, 3, 1])
    ensures Swap3(EightNodes(), 2, 1, 4, 6) == [2, 3, 4, 6, 5, 7, 0, 1]
  {
    var rot: seq<nat> := [2, 3, 4, 5, 6, 7, 0, 1];
    RotationOfEight(1, rot);
    SegmentLengths(8, 1, 4, 6);
    assert Swap3ReversalsAsWritten(EightNodes(), 2, 1, 4, 6) == ReversalLoops(rot, 2, 3, 2, 3);
    ReversalLoopsOnCase2();
    Swap3Example6();
  }

  /** The loops of case 2 on the rotation [2, 3, 4, 5, 6, 7, 0, 1] with
      segment lengths 3, 2 and 3: one step of the second loop, which
      exchanges entries 6 and 1. */
  lemma ReversalLoopsOnCase2()
    ensures ReversalLoops([2, 3, 4, 5, 6, 7, 0, 1], 2, 3, 2, 3) == Some([2, 0, 4, 5, 6, 7, 3, 1])
  {
    var rot: seq<nat> := [2, 3, 4, 5, 6, 7, 0, 1];
    var swapped: seq<nat> := [2, 0, 4, 5, 6, 7, 3, 1];
    assert rot[6 := rot[1]][1 := rot[6]] == swapped;
    assert SwapLoop(rot, 3, 4, 3, 4) == SwapLoop(swapped, 4, 4, 3, 4);
    assert !ReverseFirst(2) && ReverseSecond(2) && !ReverseThird(2);
  }

  /** The test of case 4 at (0, 4, 7) on the tour 0 .. 7: the third loop
      starts at position len2 = 3 and reads entry len1 + len2 + 3 = 10 of a
      buffer of 8, a run-time panic. */
  lemma Swap3ReversalsAsWrittenOnCase4()
    ensures Swap3ReversalsAsWritten(EightNodes(), 4, 0, 4, 7) == None
  {
    SegmentLengths(8, 0, 4, 7);
    assert ReverseThird(4);
    assert !LoopInRange(8, 3, 7, 7, 7);
  }

  /** The rotation of the tour 0 .. 7 that starts after position i. */
  lemma RotationOfEight(i: nat, r: seq<nat>)
    requires i < 8 && |r| == 8
    requires forall p :: 0 <= p < 8 ==> r[p] == (p + i + 1) % 8
    ensures Rotation(EightNodes(), i) == r
  {
  }

  /** randomPath as written: `make([]int, n)` followed by n appends, then a
      shuffle of the first n entries, which are all zero. */
  function RandomPathAsWritten(n: nat, draw: nat -> nat): (r: seq<nat>)
    ensures |r| == 2 * n && multiset(r) == multiset(Zeros(n)) + multiset(Range(n))
  {
    Shuffle(Zeros(n) + Range(n), n, draw)
  }

  /** Whatever the draws, randomPath as written returns n zeros followed by
      the identity tour: 2n entries, never a permutation of 0 .. n-1 when
      n > 0, whereas RandomPath always is one. */
  lemma RandomPathAsWrittenIsFixed(n: nat, draw: nat -> nat)
    ensures RandomPathAsWritten(n, draw) == Zeros(n) + Range(n)
    ensures n > 0 ==> !IsPermutation(RandomPathAsWritten(n, draw), n)
    ensures IsPermutation(RandomPath(n, draw), n)
  {
    ShuffleOfZeros(Zeros(n) + Range(n), n, draw);
  }

  /** Shuffling entries that are all zero changes nothing. */
  lemma {:induction false} ShuffleOfZeros(buf: seq<nat>, m: nat, draw: nat -> nat)
    requires m <= |buf| && forall p :: 0 <= p < m ==> buf[p] == 0
    ensures Shuffle(buf, m, draw) == buf
    decreases m
  {
    if m > 1 {
      var x, y := m - 1, draw(m - 1) % m;
      assert SwapAt(buf, x, y) == buf;
      ShuffleOfZeros(buf, m - 1, draw);
    }
  }
}
