/** The 3-opt hill climb `_3opt` of tspsolver/algo.go: at every cut triple
    (i, j, k) in lexicographic order it evaluates the seven cases, takes the
    one with the strictly least change (the lowest l on ties) and applies
    it if the change is negative, then scans again from the top. It stops
    after a scan that finds nothing to apply. */
module LocalSearch {
  import opened Sequences
  import opened Tour
  import opened ThreeOptMove

  /** No case of the move at cut (i, j, k) shortens the tour. */
  predicate NoImprovingAt(dm: Matrix, s: seq<nat>, i: nat, j: nat, k: nat)
    requires OnMatrix(dm, s) && ValidCut(s, i, j, k)
  {
    forall l :: 1 <= l <= 7 ==> Diff3(dm, s, l, i, j, k) >= 0
  }

  /** A 3-opt local optimum: no case at any cut shortens the tour. */
  predicate LocalOptimum(dm: Matrix, s: seq<nat>)
    requires OnMatrix(dm, s)
  {
    forall i, j, k :: 0 <= i < j < k < |s| ==> NoImprovingAt(dm, s, i, j, k)
  }

  /** (i', j', k') comes before (i, j, k) in the scan order of the three
      nested loops. */
  predicate ScannedBefore(i': nat, j': nat, k': nat, i: nat, j: nat, k: nat)
  {
    i' < i || (i' == i && (j' < j || (j' == j && k' < k)))
  }

  /** A case applied at a cut. */
  datatype Move = Move(l: int, i: nat, j: nat, k: nat)

  /** The loop over l = 1 .. 7 at one cut: `diff` starts at 0 and only a
      strictly smaller change replaces it, so `conf` stays 0 unless some case
      shortens the tour, and is then the lowest case of least change. */
  method BestCase(dm: Matrix, s: seq<nat>, i: nat, j: nat, k: nat) returns (diff: int, conf: int)
    requires OnMatrix(dm, s) && ValidCut(s, i, j, k)
    ensures (conf == 0 && diff == 0) || (1 <= conf <= 7 && diff == Diff3(dm, s, conf, i, j, k) < 0)
    ensures forall l :: 1 <= l <= 7 ==> diff <= Diff3(dm, s, l, i, j, k)
    ensures forall l :: 1 <= l < conf ==> diff < Diff3(dm, s, l, i, j, k)
  {
    diff, conf := 0, 0;
    var l := 1;
    while l < 8
      invariant 1 <= l <= 8
      invariant (conf == 0 && diff == 0) || (1 <= conf < l && diff == Diff3(dm, s, conf, i, j, k) < 0)
      invariant forall l' :: 1 <= l' < l ==> diff <= Diff3(dm, s, l', i, j, k)
      invariant forall l' :: 1 <= l' < conf ==> diff < Diff3(dm, s, l', i, j, k)
    {
      var localDiff := Diff3(dm, s, l, i, j, k);
      if localDiff < diff {
        diff, conf := localDiff, l;
      }
      l := l + 1;
    }
  }

  /** One scan of the three nested loops: the first cut, in scan order, at
      which some case shortens the tour, with the case BestCase picks there;
      None when there is no such cut, that is, at a local optimum. */
  method FirstImprovingMove(dm: Matrix, s: seq<nat>) returns (m: Option<Move>)
    requires OnMatrix(dm, s)
    ensures m.None? <==> LocalOptimum(dm, s)
    ensures m.Some? ==> ValidCut(s, m.value.i, m.value.j, m.value.k) && 1 <= m.value.l <= 7
    ensures m.Some? ==> Diff3(dm, s, m.value.l, m.value.i, m.value.j, m.value.k) < 0
    ensures m.Some? ==> forall l :: 1 <= l <= 7 ==>
      Diff3(dm, s, m.value.l, m.value.i, m.value.j, m.value.k) <= Diff3(dm, s, l, m.value.i, m.value.j, m.value.k)
    ensures m.Some? ==> forall l :: 1 <= l < m.value.l ==>
      Diff3(dm, s, m.value.l, m.value.i, m.value.j, m.value.k) < Diff3(dm, s, l, m.value.i, m.value.j, m.value.k)
    ensures m.Some? ==> forall i, j, k :: 0 <= i < j < k < |s| && ScannedBefore(i, j, k, m.value.i, m.value.j, m.value.k) ==>
      NoImprovingAt(dm, s, i, j, k)
  {
    var n := |s|;
    var i := 0;
    while i < n - 2
      invariant 0 <= i
      invariant forall i', j', k' :: 0 <= i' < j' < k' < n && i' < i ==> NoImprovingAt(dm, s, i', j', k')
    {
      var j := i + 1;
      while j < n - 1
        invariant i < j
        invariant forall i', j', k' :: 0 <= i' < j' < k' < n && ScannedBefore(i', j', k', i, j, j + 1) ==> NoImprovingAt(dm, s, i', j', k')
      {
        var found := ImprovingAtCut(dm, s, i, j);
        if found.Some? {
          assert !NoImprovingAt(dm, s, i, j, found.value.k);
          return Some(found.value);
        }
        j := j + 1;
      }
      i := i + 1;
    }
    return None;
  }

  /** The innermost loop of the scan: for fixed i < j, the first k in
      j+1 .. n-1 at which some case shortens the tour, with the case
      BestCase picks there; None when there is none. */
  method ImprovingAtCut(dm: Matrix, s: seq<nat>, i: nat, j: nat) returns (m: Option<Move>)
    requires OnMatrix(dm, s) && i < j && j + 1 < |s|
    ensures m.None? ==> forall k :: j < k < |s| ==> NoImprovingAt(dm, s, i, j, k)
    ensures m.Some? ==> m.value.i == i && m.value.j == j && j < m.value.k < |s| && 1 <= m.value.l <= 7
    ensures m.Some? ==> Diff3(dm, s, m.value.l, i, j, m.value.k) < 0
    ensures m.Some? ==> forall l :: 1 <= l <= 7 ==>
      Diff3(dm, s, m.value.l, i, j, m.value.k) <= Diff3(dm, s, l, i, j, m.value.k)
    ensures m.Some? ==> forall l :: 1 <= l < m.value.l ==>
      Diff3(dm, s, m.value.l, i, j, m.value.k) < Diff3(dm, s, l, i, j, m.value.k)
    ensures m.Some? ==> forall k :: j < k < m.value.k ==> NoImprovingAt(dm, s, i, j, k)
  {
    var k := j + 1;
    while k < |s|
      invariant j < k <= |s|
      invariant forall k' :: j < k' < k ==> NoImprovingAt(dm, s, i, j, k')
    {
      var diff, conf := BestCase(dm, s, i, j, k);
      if diff < 0 {
        return Some(Move(conf, i, j, k));
      }
      k := k + 1;
    }
    return None;
  }

  /** _3opt: apply first-improvement moves until the tour is a local
      optimum. The tour length is a natural number that every applied move
      lowers, which bounds the number of scans. */
  method ThreeOpt(dm: Matrix, nodes: seq<nat>) returns (r: seq<nat>)
    requires OnMatrix(dm, nodes) && Symmetric(dm)
    ensures |r| == |nodes| && multiset(r) == multiset(nodes)
    ensures OnMatrix(dm, r) && Distance(dm, r) <= Distance(dm, nodes)
    ensures LocalOptimum(dm, r)
    ensures |nodes| < 3 ==> r == nodes
  {
    r := nodes;
    var improved := true;
    while improved
      invariant |r| == |nodes| && multiset(r) == multiset(nodes)
      invariant OnMatrix(dm, r) && Distance(dm, r) <= Distance(dm, nodes)
      invariant !improved ==> LocalOptimum(dm, r)
      invariant |nodes| < 3 ==> r == nodes
      decreases Distance(dm, r), improved
    {
      var m := FirstImprovingMove(dm, r);
      match m
      case None =>
        improved := false;
      case Some(mv) =>
        DeltaConsistency(dm, r, mv.l, mv.i, mv.j, mv.k);
        r := Swap3(r, mv.l, mv.i, mv.j, mv.k);
    }
  }

  /** What a local optimum means for the tour: over a symmetric matrix, no
      3-opt move of any case at any cut yields a shorter tour. */
  lemma LocalOptimumIsFinal(dm: Matrix, s: seq<nat>, l: int, i: nat, j: nat, k: nat)
    requires OnMatrix(dm, s) && Symmetric(dm) && LocalOptimum(dm, s)
    requires ValidCut(s, i, j, k) && 0 <= l <= 7
    ensures OnMatrix(dm, Swap3(s, l, i, j, k))
    ensures Distance(dm, Swap3(s, l, i, j, k)) >= Distance(dm, s)
  {
    if l == 0 {
      IdentityCase(dm, s, l, i, j, k);
    } else {
      DeltaConsistency(dm, s, l, i, j, k);
      assert NoImprovingAt(dm, s, i, j, k);
      assert Diff3(dm, s, l, i, j, k) >= 0;
    }
  }

  /** Conversely, a tour that no move can shorten is a local optimum: the
      predicate says exactly that no move improves the tour. */
  lemma FinalIsLocalOptimum(dm: Matrix, s: seq<nat>)
    requires OnMatrix(dm, s) && Symmetric(dm)
    requires forall l, i, j, k :: 1 <= l <= 7 && 0 <= i < j < k < |s| ==>
      OnMatrix(dm, Swap3(s, l, i, j, k)) && Distance(dm, Swap3(s, l, i, j, k)) >= Distance(dm, s)
    ensures LocalOptimum(dm, s)
  {
    forall i, j, k | 0 <= i < j < k < |s|
      ensures NoImprovingAt(dm, s, i, j, k)
    {
      forall l | 1 <= l <= 7
        ensures Diff3(dm, s, l, i, j, k) >= 0
      {
        DeltaConsistency(dm, s, l, i, j, k);
      }
    }
  }
}
