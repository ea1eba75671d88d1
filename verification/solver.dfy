/** solveSLS of tspsolver/tspsolver.go: build the initial tours, improve each
    with the 3-opt hill climb and return the shortest result. */
module Solver {
  import opened Sequences
  import opened Tour
  import opened Construction
  import opened LocalSearch

  /** The selection loop of solveSLS: the position of the shortest tour.
      The running minimum starts above every length (None stands for the
      initial MaxFloat64) and only a strictly shorter tour replaces it, so
      the earliest of several shortest tours wins; an empty list gives None
      (Go's nil path). */
  method SelectShortest(dm: Matrix, paths: seq<seq<nat>>) returns (best: Option<nat>)
    requires Square(dm) && forall t :: 0 <= t < |paths| ==> AllBelow(paths[t], |dm|)
    ensures best.None? <==> |paths| == 0
    ensures best.Some? ==> best.value < |paths|
    ensures best.Some? ==> forall t :: 0 <= t < |paths| ==> Distance(dm, paths[best.value]) <= Distance(dm, paths[t])
    ensures best.Some? ==> forall t :: 0 <= t < best.value ==> Distance(dm, paths[best.value]) < Distance(dm, paths[t])
  {
    best := None;
    var t := 0;
    while t < |paths|
      invariant 0 <= t <= |paths|
      invariant best.None? <==> t == 0
      invariant best.Some? ==> best.value < t
      invariant best.Some? ==> forall u :: 0 <= u < t ==> Distance(dm, paths[best.value]) <= Distance(dm, paths[u])
      invariant best.Some? ==> forall u :: 0 <= u < best.value ==> Distance(dm, paths[best.value]) < Distance(dm, paths[u])
    {
      var dist := ComputeDistance(dm, paths[t]);
      if best.None? || dist < Distance(dm, paths[best.value]) {
        best := Some(t);
      }
      t := t + 1;
    }
  }

  /** solveSLS(num): `initial` holds the tours getInitialPaths builds,
      `improved` the same tours after the hill climb, and `best` the
      position in `improved` of the tour returned. */
  method SolveSLS(dm: Matrix, num: int, draws: nat -> nat -> nat)
      returns (initial: seq<seq<nat>>, improved: seq<seq<nat>>, best: Option<nat>)
    requires Square(dm) && Symmetric(dm)
    ensures |initial| == |improved| == if num < 0 then 0 else num
    ensures forall t :: 0 <= t < |initial| ==> InitialPath(dm, draws, t, initial[t])
    ensures forall t :: 0 <= t < |improved| ==>
      IsPermutation(initial[t], |dm|) && IsPermutation(improved[t], |dm|) && LocalOptimum(dm, improved[t])
      && Distance(dm, improved[t]) <= Distance(dm, initial[t])
    ensures best.None? <==> num <= 0
    ensures best.Some? ==>
      best.value < |improved| && IsPermutation(improved[best.value], |dm|) &&
      forall t :: 0 <= t < |improved| && IsPermutation(improved[t], |dm|) ==>
        Distance(dm, improved[best.value]) <= Distance(dm, improved[t])
    ensures best.Some? ==>
      forall t :: 0 <= t < best.value && IsPermutation(improved[t], |dm|) ==>
        Distance(dm, improved[best.value]) < Distance(dm, improved[t])
  {
    initial := GetInitialPaths(dm, num, draws);
    improved := [];
    var t := 0;
    while t < |initial|
      invariant 0 <= t <= |initial| && |improved| == t
      invariant forall u :: 0 <= u < t ==>
        IsPermutation(initial[u], |dm|) && IsPermutation(improved[u], |dm|) && LocalOptimum(dm, improved[u])
        && Distance(dm, improved[u]) <= Distance(dm, initial[u])
    {
      assert InitialPath(dm, draws, t, initial[t]);
      var tour := ThreeOpt(dm, initial[t]);
      PermutationByMultiset(initial[t], tour, |dm|);
      improved := improved + [tour];
      t := t + 1;
    }
    best := SelectShortest(dm, improved);
  }
}
