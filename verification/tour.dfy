/** The tour (`Path` in tspsolver/tspsolver.go): a sequence of node indices
    over a square cost matrix, its cyclic length and the position-based cost
    lookup used by move evaluation. Costs are natural numbers rather than
    float64, so every sum below is exact. */
module Tour {
  import opened Sequences

  /** dm[a][b] is the cost of the edge between nodes a and b. */
  type Matrix = seq<seq<nat>>

  predicate Square(dm: Matrix)
  {
    forall a :: 0 <= a < |dm| ==> |dm[a]| == |dm|
  }

  predicate Symmetric(dm: Matrix)
    requires Square(dm)
  {
    forall a, b :: 0 <= a < |dm| && 0 <= b < |dm| ==> dm[a][b] == dm[b][a]
  }

  predicate ZeroDiagonal(dm: Matrix)
    requires Square(dm)
  {
    forall a :: 0 <= a < |dm| ==> dm[a][a] == 0
  }

  /** Every node of the tour indexes a row and a column of the matrix. */
  predicate OnMatrix(dm: Matrix, s: seq<nat>)
  {
    Square(dm) && AllBelow(s, |dm|)
  }

  /** The cost between the nodes at tour positions x and y (not node ids).
      Between consecutive positions it is the step by which the path grows,
      and from the last position to the first it is the edge that closes
      the tour. */
  function Cost(dm: Matrix, s: seq<nat>, x: nat, y: nat): (r: nat)
    requires OnMatrix(dm, s) && x < |s| && y < |s|
    ensures x + 1 == y ==> PathCost(dm, s[..y + 1]) == PathCost(dm, s[..y]) + r
    ensures x == |s| - 1 && y == 0 ==> Distance(dm, s) == PathCost(dm, s) + r
  {
    if x + 1 == y then
      PathCostExtend(dm, s, x);
      dm[s[x]][s[y]]
    else
      dm[s[x]][s[y]]
  }

  /** Over a symmetric matrix with zero diagonal, the position cost is
      symmetric and a position is at cost 0 from itself. */
  lemma CostSymmetry(dm: Matrix, s: seq<nat>, x: nat, y: nat)
    requires OnMatrix(dm, s) && x < |s| && y < |s|
    requires Symmetric(dm) && ZeroDiagonal(dm)
    ensures Cost(dm, s, x, y) == Cost(dm, s, y, x)
    ensures Cost(dm, s, x, x) == 0
  {
  }

  /** The edge from the last node of a to the first node of b. */
  function Link(dm: Matrix, a: seq<nat>, b: seq<nat>): nat
    requires OnMatrix(dm, a) && AllBelow(b, |dm|) && |a| > 0 && |b| > 0
  {
    dm[a[|a| - 1]][b[0]]
  }

  /** The length of s read as an open path: the sum of its consecutive edges. */
  function PathCost(dm: Matrix, s: seq<nat>): nat
    requires OnMatrix(dm, s)
  {
    if |s| <= 1 then 0 else PathCost(dm, s[..|s| - 1]) + dm[s[|s| - 2]][s[|s| - 1]]
  }

  /** The length of s read as a closed tour: the open path plus the edge
      from the last node back to the first. The empty tour has length 0. */
  function Distance(dm: Matrix, s: seq<nat>): nat
    requires OnMatrix(dm, s)
  {
    if |s| == 0 then 0 else PathCost(dm, s) + dm[s[|s| - 1]][s[0]]
  }

  /** Path.Distance: the loop over positions that adds the edge from
      position p to position (p+1) mod n, for every p. */
  method ComputeDistance(dm: Matrix, s: seq<nat>) returns (dist: nat)
    requires OnMatrix(dm, s)
    ensures dist == Distance(dm, s)
  {
    dist := 0;
    var n := |s|;
    var p := 0;
    while p < n
      invariant 0 <= p <= n
      invariant dist == if p == n then Distance(dm, s) else PathCost(dm, s[..p + 1])
    {
      if p + 1 < n {
        assert (p + 1) % n == p + 1;
        PathCostExtend(dm, s, p);
      } else {
        assert (p + 1) % n == 0;
        assert s[..p + 1] == s;
      }
      dist := dist + dm[s[p]][s[(p + 1) % n]];
      p := p + 1;
    }
  }

  lemma PathCostExtend(dm: Matrix, s: seq<nat>, p: nat)
    requires OnMatrix(dm, s) && p + 1 < |s|
    ensures PathCost(dm, s[..p + 2]) == PathCost(dm, s[..p + 1]) + dm[s[p]][s[p + 1]]
  {
    assert s[..p + 2][..p + 1] == s[..p + 1];
  }

  /** Concatenating two non-empty paths adds exactly the edge that joins them. */
  lemma {:induction false} PathCostAppend(dm: Matrix, a: seq<nat>, b: seq<nat>)
    requires OnMatrix(dm, a) && AllBelow(b, |dm|) && |a| > 0 && |b| > 0
    ensures OnMatrix(dm, a + b)
    ensures PathCost(dm, a + b) == PathCost(dm, a) + Link(dm, a, b) + PathCost(dm, b)
  {
    var ab := a + b;
    if |b| > 1 {
      var b' := b[..|b| - 1];
      assert ab[..|ab| - 1] == a + b';
      PathCostAppend(dm, a, b');
    } else {
      assert ab[..|ab| - 1] == a;
    }
  }

  /** Over a symmetric matrix a path costs the same in both directions. */
  lemma {:induction false} PathCostReverse(dm: Matrix, s: seq<nat>)
    requires OnMatrix(dm, s) && Symmetric(dm)
    ensures OnMatrix(dm, Reverse(s))
    ensures PathCost(dm, Reverse(s)) == PathCost(dm, s)
  {
    if |s| > 1 {
      var init := s[..|s| - 1];
      PathCostReverse(dm, init);
      assert Reverse(s) == [s[|s| - 1]] + Reverse(init);
      PathCostAppend(dm, [s[|s| - 1]], Reverse(init));
    }
  }

  /** A tour assembled from two non-empty pieces: both pieces, the edge
      joining them and the closing edge. */
  lemma DistanceOfTwo(dm: Matrix, a: seq<nat>, b: seq<nat>)
    requires OnMatrix(dm, a) && AllBelow(b, |dm|) && |a| > 0 && |b| > 0
    ensures OnMatrix(dm, a + b)
    ensures Distance(dm, a + b) == PathCost(dm, a) + Link(dm, a, b) + PathCost(dm, b) + Link(dm, b, a)
  {
    PathCostAppend(dm, a, b);
  }

  /** A tour assembled from three non-empty segments: the three segments
      and the three edges that join them cyclically. */
  lemma DistanceOfThree(dm: Matrix, a: seq<nat>, b: seq<nat>, c: seq<nat>)
    requires OnMatrix(dm, a) && AllBelow(b, |dm|) && AllBelow(c, |dm|)
    requires |a| > 0 && |b| > 0 && |c| > 0
    ensures OnMatrix(dm, a + b + c)
    ensures Distance(dm, a + b + c)
         == PathCost(dm, a) + PathCost(dm, b) + PathCost(dm, c)
          + Link(dm, a, b) + Link(dm, b, c) + Link(dm, c, a)
  {
    PathCostAppend(dm, a, b);
    PathCostAppend(dm, a + b, c);
  }

  /** Every rotation of a tour has the same length. */
  lemma DistanceRotate(dm: Matrix, s: seq<nat>, start: nat)
    requires OnMatrix(dm, s) && start <= |s|
    ensures OnMatrix(dm, Rotate(s, start))
    ensures Distance(dm, Rotate(s, start)) == Distance(dm, s)
  {
    if 0 < start < |s| {
      var a, b := s[..start], s[start..];
      assert s == a + b;
      DistanceOfTwo(dm, a, b);
      DistanceOfTwo(dm, b, a);
    } else {
      assert Rotate(s, start) == s;
    }
  }

  /** The five-node matrix of the test suite. */
  function FiveNodes(): (dm: Matrix)
  {
    [[0, 3, 4, 2, 7], [3, 0, 4, 6, 3], [4, 4, 0, 5, 8], [2, 6, 5, 0, 6], [7, 3, 8, 6, 0]]
  }

  /** The distances the test suite checks on its five-node matrix: the tour
      in index order, with the closing edge from 4 back to 0 ... */
  lemma DistanceExample1()
    ensures OnMatrix(FiveNodes(), [0, 1, 2, 3, 4]) && Distance(FiveNodes(), [0, 1, 2, 3, 4]) == 25
  {
    var dm := FiveNodes();
    var s: seq<nat> := [0, 1, 2, 3, 4];
    assert s[..2] == [0, 1] && s[..2][..1] == [0];
    assert s[..3] == [0, 1, 2] && s[..3][..2] == s[..2];
    assert s[..4] == [0, 1, 2, 3] && s[..4][..3] == s[..3];
    assert s[..|s| - 1] == s[..4];
    assert PathCost(dm, s[..2]) == 3;
    assert PathCost(dm, s[..3]) == 7;
    assert PathCost(dm, s[..4]) == 12;
    assert PathCost(dm, s) == 18;
  }

  /** ... and a shuffled tour. */
  lemma DistanceExample2()
    ensures OnMatrix(FiveNodes(), [0, 3, 1, 4, 2]) && Distance(FiveNodes(), [0, 3, 1, 4, 2]) == 23
  {
    var dm := FiveNodes();
    var t: seq<nat> := [0, 3, 1, 4, 2];
    assert t[..2] == [0, 3] && t[..2][..1] == [0];
    assert t[..3] == [0, 3, 1] && t[..3][..2] == t[..2];
    assert t[..4] == [0, 3, 1, 4] && t[..4][..3] == t[..3];
    assert t[..|t| - 1] == t[..4];
    assert PathCost(dm, t[..2]) == 2;
    assert PathCost(dm, t[..3]) == 8;
    assert PathCost(dm, t[..4]) == 11;
    assert PathCost(dm, t) == 19;
  }
}
