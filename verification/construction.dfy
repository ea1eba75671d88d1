/** The initial tours of tspsolver/algo.go: the greedy nearest-neighbour
    tour, the random tour and the split between them in getInitialPaths.

    The random generator is a parameter: a draw function stands for the
    values `rand.Shuffle` obtains, so a random tour is the Fisher-Yates
    shuffle of 0 .. n-1 under an arbitrary sequence of draws. */
module Construction {
  import opened Sequences
  import opened Tour

  /** rand.Shuffle(m, swap) applied to the first m entries of buf: for i
      from m-1 down to 1, entry i is exchanged with entry draw(i) mod (i+1),
      the generator's choice in 0 .. i. */
  function Shuffle(buf: seq<nat>, m: nat, draw: nat -> nat): (r: seq<nat>)
    requires m <= |buf|
    ensures |r| == |buf|
    ensures multiset(r) == multiset(buf)
    ensures forall p :: m <= p < |buf| ==> r[p] == buf[p]
    decreases m
  {
    if m <= 1 then buf
    else
      SwapAtMultiset(buf, m - 1, draw(m - 1) % m);
      Shuffle(SwapAt(buf, m - 1, draw(m - 1) % m), m - 1, draw)
  }

  /** randomPath, with the slice built at its intended length n: the
      shuffle of the identity tour. */
  function RandomPath(n: nat, draw: nat -> nat): (r: seq<nat>)
    ensures IsPermutation(r, n)
  {
    RangeIsPermutation(n);
    PermutationByMultiset(Range(n), Shuffle(Range(n), n, draw), n);
    Shuffle(Range(n), n, draw)
  }

  /** Each step of the tour goes to a nearest node among those not yet
      visited: the edge out of position p-1 is no longer than the edge from
      the same node to any node visited later. */
  predicate Greedy(dm: Matrix, nodes: seq<nat>)
    requires OnMatrix(dm, nodes)
  {
    forall p, q :: 1 <= p <= q < |nodes| ==> dm[nodes[p - 1]][nodes[p]] <= dm[nodes[p - 1]][nodes[q]]
  }

  /** The inner loop of nearestNeighborPath: scan the unvisited nodes in
      an unspecified order (Go's map iteration), keeping the first one seen
      at the least cost. None stands for the initial +Inf. */
  method NearestUnvisited(dm: Matrix, node: nat, notVisited: set<nat>) returns (next: nat)
    requires Square(dm) && node < |dm| && notVisited != {}
    requires forall x :: x in notVisited ==> x < |dm|
    ensures next in notVisited
    ensures forall x :: x in notVisited ==> dm[node][next] <= dm[node][x]
  {
    var best: Option<nat> := None;
    var remaining := notVisited;
    while remaining != {}
      invariant remaining <= notVisited
      invariant best.None? ==> remaining == notVisited
      invariant best.Some? ==> best.value in notVisited && best.value !in remaining
      invariant best.Some? ==> forall x :: x in notVisited && x !in remaining ==> dm[node][best.value] <= dm[node][x]
      decreases |remaining|
    {
      var x :| x in remaining;
      if best.None? || dm[node][x] < dm[node][best.value] {
        best := Some(x);
      }
      remaining := remaining - {x};
    }
    next := best.value;
  }

  /** nearestNeighborPath: start at `start`, then repeatedly move to a
      cheapest unvisited node; ties may go to any of the cheapest nodes. */
  method NearestNeighborPath(dm: Matrix, start: nat) returns (nodes: seq<nat>)
    requires Square(dm) && start < |dm|
    ensures IsPermutation(nodes, |dm|)
    ensures nodes[0] == start
    ensures Greedy(dm, nodes)
  {
    var n := |dm|;
    nodes := [start];
    var notVisited := RangeSet(n) - {start};
    var node := start;
    var i := 0;
    while i < n - 1
      invariant 0 <= i <= n - 1
      invariant |nodes| == i + 1 && nodes[0] == start && node == nodes[i]
      invariant AllBelow(nodes, n) && Distinct(nodes)
      invariant forall x: nat :: x in notVisited <==> x < n && x !in nodes
      invariant |notVisited| == n - 1 - i
      invariant forall p, x :: 1 <= p < |nodes| && 0 <= x < n && x !in nodes[..p] ==> dm[nodes[p - 1]][nodes[p]] <= dm[nodes[p - 1]][x]
    {
      assert |notVisited| > 0;
      var next := NearestUnvisited(dm, node, notVisited);
      ExtendGreedy(dm, nodes, next);
      nodes := nodes + [next];
      notVisited := notVisited - {next};
      node := next;
      i := i + 1;
    }
    GreedyByChoices(dm, nodes);
  }

  /** A path whose every step was a cheapest choice among the nodes not
      on the path so far is greedy. */
  lemma GreedyByChoices(dm: Matrix, nodes: seq<nat>)
    requires OnMatrix(dm, nodes) && Distinct(nodes)
    requires forall p, x :: 1 <= p < |nodes| && 0 <= x < |dm| && x !in nodes[..p] ==> dm[nodes[p - 1]][nodes[p]] <= dm[nodes[p - 1]][x]
    ensures Greedy(dm, nodes)
  {
    forall p, q | 1 <= p <= q < |nodes|
      ensures dm[nodes[p - 1]][nodes[p]] <= dm[nodes[p - 1]][nodes[q]]
    {
      assert nodes[q] !in nodes[..p];
    }
  }

  /** Appending a nearest node not yet on the path keeps the path greedy. */
  lemma ExtendGreedy(dm: Matrix, nodes: seq<nat>, next: nat)
    requires Square(dm) && AllBelow(nodes, |dm|) && |nodes| > 0 && next < |dm| && next !in nodes
    requires forall x :: 0 <= x < |dm| && x !in nodes ==> dm[nodes[|nodes| - 1]][next] <= dm[nodes[|nodes| - 1]][x]
    requires forall p, x :: 1 <= p < |nodes| && 0 <= x < |dm| && x !in nodes[..p] ==> dm[nodes[p - 1]][nodes[p]] <= dm[nodes[p - 1]][x]
    ensures var t := nodes + [next];
      forall p, x :: 1 <= p < |t| && 0 <= x < |dm| && x !in t[..p] ==> dm[t[p - 1]][t[p]] <= dm[t[p - 1]][x]
  {
    var t := nodes + [next];
    forall p, x | 1 <= p < |t| && 0 <= x < |dm| && x !in t[..p]
      ensures dm[t[p - 1]][t[p]] <= dm[t[p - 1]][x]
    {
      if p < |nodes| {
        assert t[..p] == nodes[..p];
      } else {
        assert t[..p] == nodes;
      }
    }
  }

  /** What the t-th initial tour is: for t < n a greedy tour from start
      node t, beyond that the random tour drawn with `draws(t - n)`. */
  predicate InitialPath(dm: Matrix, draws: nat -> nat -> nat, t: nat, tour: seq<nat>)
    requires Square(dm)
  {
    IsPermutation(tour, |dm|) &&
    if t < |dm| then tour[0] == t && Greedy(dm, tour)
    else tour == RandomPath(|dm|, draws(t - |dm|))
  }

  /** getInitialPaths: `num` tours (none for a negative num), the first
      min(num, n) of them nearest-neighbour tours from the start nodes 0, 1,
      ... in order, the rest random tours. */
  method GetInitialPaths(dm: Matrix, num: int, draws: nat -> nat -> nat) returns (paths: seq<seq<nat>>)
    requires Square(dm)
    ensures |paths| == if num < 0 then 0 else num
    ensures forall t :: 0 <= t < |paths| ==> InitialPath(dm, draws, t, paths[t])
  {
    var nnPaths, randomPaths := 0, 0;
    if |dm| < num {
      nnPaths := |dm|;
      randomPaths := num - nnPaths;
    } else {
      nnPaths := num;
    }
    paths := [];
    var t := 0;
    while t < nnPaths
      invariant 0 <= t && |paths| == t
      invariant nnPaths <= |dm| && t <= (if nnPaths < 0 then 0 else nnPaths)
      invariant forall u :: 0 <= u < t ==> InitialPath(dm, draws, u, paths[u])
    {
      var tour := NearestNeighborPath(dm, t);
      paths := paths + [tour];
      t := t + 1;
    }
    var r := 0;
    while r < randomPaths
      invariant 0 <= r <= randomPaths
      invariant |paths| == (if nnPaths < 0 then 0 else nnPaths) + r
      invariant r > 0 ==> nnPaths == |dm|
      invariant forall u :: 0 <= u < |paths| ==> InitialPath(dm, draws, u, paths[u])
    {
      paths := paths + [RandomPath(|dm|, draws(r))];
      r := r + 1;
    }
  }
}
