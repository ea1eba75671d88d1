# tspsolver in Dafny

This project models the core of a Go solver for the symmetric travelling
salesman problem. The solver:

- builds a set of initial tours: greedy nearest-neighbour tours from
  successive start nodes, then random shuffles;
- improves each tour by a first-improvement 3-opt hill climb (`_3opt`);
- returns the shortest tour it finds (`solveSLS`).

A 3-opt move cuts the tour after positions i < j < k. That gives three
segments, which it joins again in the same order, each one reversed or not.
The case number l = 0 .. 7 says which segments are reversed.
`calculateDiff3` predicts the change in tour length for a case, and `swap3`
carries the case out.

The model also covers the pure helpers of the driver in `main.go`:

- reading the sort key `order` out of a problem file name (`NewInput`);
- the comparator that sorts problems by that key;
- the number of restarts a problem of n nodes gets.

Modules, one file each:

- `Sequences` (sequences.dfy): reversal, rotation, the identity tour and
  permutations.
- `Tour` (tour.dfy): the cost matrix, the cyclic tour length
  (`Path.Distance`) and the position cost (`Path.cost`).
- `ThreeOptMove` (move3.dfy): `calculateDiff3` and `swap3`, plus the main
  theorem. Over a symmetric matrix, the predicted change is exactly the
  change in tour length.
- `Construction` (construction.dfy): `nearestNeighborPath`, `randomPath` and
  `getInitialPaths`.
- `LocalSearch` (local_search.dfy): `_3opt`. It terminates at a 3-opt local
  optimum, never lengthens the tour, and keeps its nodes.
- `Solver` (solver.dfy): `solveSLS`.
- `Driver` (driver.dfy): `NewInput`, the `sort.Slice` comparator and the
  restart count of `main.go`.
- `AsWritten` (findings.dfy): the places where the code as written differs
  from what its own tests expect. See "Findings".

Modelling choices:

- Costs are natural numbers, not `float64`, so every sum is exact.
- Methods that mutate a `Path` in place are modelled as functions that
  return the new tour.
- The random generator is a parameter. A draw function supplies the values
  `rand.Shuffle` would obtain.

## Model

| member | source | states |
|---|---|---|
| Tour.Cost | tspsolver/tspsolver.go:29-31 | The cost of positions x and y is the matrix entry of their nodes. For consecutive positions it is the edge that extends the open path from x to y. For the last and first positions it is the closing edge, which completes the open path to the cyclic tour length. |
| Tour.ComputeDistance | tspsolver/tspsolver.go:20-27 | The loop that adds the edge from each position p to position (p+1) mod n computes the closed-tour length: the open path plus the edge from the last node back to the first, and 0 for the empty tour. |
| Tour.CostSymmetry | tspsolver/tspsolver_test.go:126-135 | Over a symmetric matrix with a zero diagonal, cost(x, y) == cost(y, x) for all tour positions, and cost(x, x) == 0. |
| Tour.PathCostReverse | tspsolver/tspsolver_test.go:145-149 | Over a symmetric matrix an open path has the same cost in both directions. This is why reversing a segment only changes the edges at its ends. |
| Tour.DistanceRotate | tspsolver/tspsolver.go:20-27 | Every rotation of a tour has the same length, so the cyclic length does not depend on which node is listed first. |
| Tour.DistanceExample1 | tspsolver/tspsolver_test.go:118-120 | On the five-node test matrix, the tour 0,1,2,3,4 has length 25. |
| Tour.DistanceExample2 | tspsolver/tspsolver_test.go:137-139 | On the five-node test matrix, the tour 0,3,1,4,2 has length 23. |
| ThreeOptMove.Swap3 | tspsolver/tspsolver.go:55-88 | The new tour has the length and the multiset of nodes of the old one: a move only rearranges nodes. |
| ThreeOptMove.Swap3Positions | tspsolver/tspsolver.go:59-85 | Position p of the new tour holds the old node at a position given independently by SourcePosition: S1, S2, S3 read from i+1, j+1, k+1 (mod n), each read backwards exactly when bit 0, 1 or 2 of l is set. |
| ThreeOptMove.Swap3Permutes | tspsolver/tspsolver.go:55-88 | A permutation of 0 .. n-1 stays a permutation of 0 .. n-1 after any move. |
| ThreeOptMove.SegmentsFormRotation | tspsolver/tspsolver.go:62-64 | Read one after another, the three segments are the tour rotated to start after position i. This is the buffer swap3 fills before reversing. |
| ThreeOptMove.Diff3 | tspsolver/tspsolver.go:33-53 | calculateDiff3 with position k+1 taken mod n. For l in 0 .. 7, each case formula equals the junction change computed independently from the reversal bits of l: the three edges that join the segments after the move, minus the three cut edges. Every l outside 1 .. 7 gives 0, the original tour. |
| ThreeOptMove.Diff3AtIsJunctionDelta | tspsolver/tspsolver.go:38-48 | Case by case, each of the seven `calculateDiff3` formulas equals the junction change computed from the reversal bits of l. |
| ThreeOptMove.DeltaConsistency | tspsolver/tspsolver.go:33-88 | Over a symmetric matrix, for every case l in 0 .. 7 and every cut i < j < k, the length after swap3 equals the length before plus calculateDiff3. |
| ThreeOptMove.IdentityCase | tspsolver/tspsolver.go:49-51 | Outside 1 .. 7 calculateDiff3 is 0. Case 0 is the tour rotated to start after i, which has the same length. |
| ThreeOptMove.SingleNodeThirdSegment | tspsolver/tspsolver_test.go:198-201 | With i = 0 and k = n-1 the third segment is one node, so case 4 is a pure rotation, and its predicted change is 0 on any matrix. |
| ThreeOptMove.Swap3Example1 | tspsolver/tspsolver_test.go:168-171 | Case 1 at (0, 1, 4) on the tour 0..7 gives 1,2,3,4,5,6,7,0. |
| ThreeOptMove.Swap3Example2 | tspsolver/tspsolver_test.go:173-176 | Case 1 at (1, 2, 6) gives 2,3,4,5,6,7,0,1. |
| ThreeOptMove.Swap3Example3 | tspsolver/tspsolver_test.go:178-181 | Case 1 at (0, 4, 7) gives 4,3,2,1,5,6,7,0. |
| ThreeOptMove.Swap3Example4 | tspsolver/tspsolver_test.go:183-186 | Case 1 at (1, 4, 6) gives 4,3,2,5,6,7,0,1. |
| ThreeOptMove.Swap3Example5 | tspsolver/tspsolver_test.go:188-191 | Case 2 at (0, 4, 7) gives 1,2,3,4,7,6,5,0. |
| ThreeOptMove.Swap3Example6 | tspsolver/tspsolver_test.go:193-196 | Case 2 at (1, 4, 6) gives 2,3,4,6,5,7,0,1. |
| ThreeOptMove.Swap3Example7 | tspsolver/tspsolver_test.go:198-201 | Case 4 at (0, 4, 7) gives 1,2,3,4,5,6,7,0. |
| ThreeOptMove.Swap3Example8 | tspsolver/tspsolver_test.go:203-206 | Case 4 at (1, 4, 6) gives 2,3,4,5,6,1,0,7. |
| ThreeOptMove.Swap3Example9 | tspsolver/tspsolver_test.go:208-211 | Case 3 at (0, 4, 7) gives 4,3,2,1,7,6,5,0. |
| ThreeOptMove.Swap3Example10 | tspsolver/tspsolver_test.go:213-216 | Case 3 at (1, 2, 6) gives 2,6,5,4,3,7,0,1. |
| ThreeOptMove.Swap3Example11 | tspsolver/tspsolver_test.go:218-221 | Case 5 at (0, 4, 7) gives 4,3,2,1,5,6,7,0. |
| ThreeOptMove.Swap3Example12 | tspsolver/tspsolver_test.go:223-226 | Case 5 at (1, 2, 6) gives 2,3,4,5,6,1,0,7. |
| ThreeOptMove.Swap3Example13 | tspsolver/tspsolver_test.go:228-231 | Case 6 at (0, 4, 7) gives 1,2,3,4,7,6,5,0. |
| ThreeOptMove.Swap3Example14 | tspsolver/tspsolver_test.go:233-236 | Case 6 at (1, 2, 6) gives 2,6,5,4,3,1,0,7. |
| ThreeOptMove.Swap3Example15 | tspsolver/tspsolver_test.go:238-241 | Case 7 at (0, 4, 7) gives 4,3,2,1,7,6,5,0. |
| ThreeOptMove.Swap3Example16 | tspsolver/tspsolver_test.go:243-246 | Case 7 at (1, 2, 6) gives 2,6,5,4,3,1,0,7. |
| Construction.Shuffle | tspsolver/algo.go:67 | rand.Shuffle under any sequence of draws keeps the length and the multiset of entries, and leaves entries past the shuffled prefix in place. |
| Construction.RandomPath | tspsolver/algo.go:61-72 | Whatever the draws, the random tour is a permutation of 0 .. n-1. |
| Construction.NearestUnvisited | tspsolver/algo.go:42-49 | The node chosen from any non-empty unvisited set, scanned in any order, is in the set and no farther from the current node than any other unvisited node. |
| Construction.NearestNeighborPath | tspsolver/algo.go:31-59 | The tour starts at the start node, is a permutation of 0 .. n-1, and is greedy: every step is no longer than the step from the same node to any node visited later. |
| Construction.GreedyByChoices | tspsolver/algo.go:41-53 | A path whose every step was a cheapest choice among the nodes not yet on it satisfies the greedy property. |
| Construction.GetInitialPaths | tspsolver/algo.go:8-29 | Returns max(num, 0) tours. For t < n, tour t is a greedy permutation starting at node t; the rest are random permutations. |
| LocalSearch.BestCase | tspsolver/algo.go:87-95 | Returns conf = 0 and diff = 0 when no case shortens the tour. Otherwise conf is the lowest case of strictly least negative change and diff is that change. |
| LocalSearch.FirstImprovingMove | tspsolver/algo.go:84-100 | None exactly at a 3-opt local optimum. Otherwise it is the first cut in loop order at which a case shortens the tour, with the best case there; no earlier cut has an improving case. |
| LocalSearch.ImprovingAtCut | tspsolver/algo.go:86-99 | For fixed i < j, None exactly when no k after j has an improving case. Otherwise it is the first such k, with the best case there. |
| LocalSearch.ThreeOpt | tspsolver/algo.go:78-106 | Terminates with the same multiset of nodes, a length no greater than at the start, and a 3-opt local optimum. Tours of fewer than 3 nodes are unchanged. |
| LocalSearch.LocalOptimumIsFinal | tspsolver/algo.go:97-104 | At a local optimum over a symmetric matrix, no move of any case at any cut gives a shorter tour. |
| LocalSearch.FinalIsLocalOptimum | tspsolver/algo.go:97-104 | Conversely, a tour that no move can shorten is a local optimum, so the stopping condition means exactly "no move helps". |
| Solver.SelectShortest | tspsolver/tspsolver.go:102-112 | None exactly for an empty list. Otherwise it picks a shortest tour, the earliest of several (strict `<`). |
| Solver.SolveSLS | tspsolver/tspsolver.go:94-113 | Builds the initial tours, improves each into a local optimum that is no longer and is still a permutation, and returns the position of a shortest improved tour, the earliest of several (strict `<`); None exactly when num <= 0. |
| Driver.TrimSuffix | main.go:60 | If s ends with the suffix, the result followed by the suffix is s. Otherwise the result is s. |
| Driver.TrimSuffixOfAppend | main.go:60 | A name built as x + suffix is trimmed back to exactly x. |
| Driver.Split | main.go:61 | There is always at least one piece, no piece contains the separator, and joining the pieces with the separator gives back the input. |
| Driver.SplitJoin | main.go:61 | Splitting a join of separator-free pieces gives back exactly those pieces. |
| Driver.Atoi | main.go:63-66 | A result exactly when the string is an optional sign followed by at least one digit and the value fits int64; the result is that signed value. |
| Driver.SignSplit | main.go:63 | A string splits into sign and digits in only one way, so Atoi's value is well defined. |
| Driver.AtoiDecimal | main.go:63 | Atoi reads back the decimal rendering of every natural up to MaxInt64. |
| Driver.AtoiNegative | main.go:63 | A minus sign before the rendering of v reads back as -v, down to MinInt64. |
| Driver.AtoiOutOfRange | main.go:63-66 | One past either end of the int64 range is an error, the fatal path of NewInput. |
| Driver.ParseFields | main.go:62-68 | A result exactly when every field parses; it holds each field's value in order. |
| Driver.ParseOrder | main.go:57-74 | A result exactly when the ".txt"-trimmed name has at least two '-'-separated fields and every field after the second parses. Entry t is the value of field t+2. |
| Driver.ParseOrderOfFileName | main.go:57-74 | Round trip: for two leading fields without '-' and any naturals up to MaxInt64, the name built from them parses back to exactly those naturals. |
| Driver.ParseOrderOneField | main.go:61 | A name with only one field makes the slice [2:] go out of range, so the result is an error. |
| Driver.LessFrom | main.go:98-104 | From key k on, "less" is only ever answered at a key where a's entry is smaller. "Not less" comes from a key where a's entry is larger, or from all five keys being present and equal. |
| Driver.Less | main.go:96-106 | The comparator says "less" exactly when a is lexicographically smaller than b on the first five keys. It fails exactly when an order runs out of keys before the two differ. |
| Driver.LessFromIsLexicographic | main.go:98-104 | The same lexicographic characterisation from any key k on, for orders that agree before k. |
| Driver.LessDefined | main.go:98-104 | On orders of at least five keys the comparator always returns an answer. |
| Driver.LessOfEqualKeys | main.go:98-105 | Orders that agree on all five keys (from key k on) compare as not less: the loop falls through to `return false`. |
| Driver.LessIrreflexive | main.go:105 | No order is less than itself. |
| Driver.LessAsymmetric | main.go:99-103 | If a is less than b, b is not less than a. |
| Driver.LessTransitive | main.go:98-104 | If a < b and b < c then a < c, so the comparator is a strict order, as sort.Slice needs. |
| Driver.CeilDiv | main.go:117 | The least r with r * d >= x: the ceiling of x / d. |
| Driver.RestartCount | main.go:116-117 | The restart count lies in 1 .. 1000; an empty problem (1000/0 = +Inf) gets 1000. |
| Driver.RestartCountIsCeiling | main.go:116-117 | For n > 0, below the cap the count is the ceiling of 3 * 10^9 / n^3. The count is 1000 exactly when 999 * n^3 < 3 * 10^9. |
| Driver.RestartCountMonotone | main.go:116-117 | Larger problems never get more restarts. |
| Driver.RestartCountThreshold | main.go:116-117 | Problems of up to 144 nodes get the full 1000 restarts; from 145 nodes on, fewer. |
| AsWritten.Diff3AsWritten | tspsolver/tspsolver.go:33-53 | calculateDiff3 as written indexes position k+1 unreduced. It panics (None) exactly when k = n-1 and the case reads that edge (l in 2 .. 7); otherwise it agrees with the corrected formula. |
| AsWritten.Diff3AsWrittenOnTest | tspsolver/tspsolver_test.go:188-191 | On the test's case 2 at (0, 4, 7) of eight nodes the code as written panics. The corrected formula gives the real change of length. |
| AsWritten.SwapLoop | tspsolver/tspsolver.go:68-70 | A reversal loop runs without panicking exactly when every index it touches is in range, and keeps the buffer length. |
| AsWritten.SegmentLengths | tspsolver/tspsolver.go:59-61 | At a cut i < j < k the lengths swap3 computes are j-i, k-j and n-k+i. |
| AsWritten.Swap3AsWritten | tspsolver/tspsolver.go:55-88 | swap3 as written, on the buffer of n zeros followed by the rotation that lines 57-64 build: for every case and every cut it runs without a panic and leaves 2n entries. |
| AsWritten.ReversalLoops | tspsolver/tspsolver.go:66-85 | The three reversal loops, each run when its bit of l is set, panic exactly when a loop that runs indexes outside the buffer; otherwise the buffer keeps its length. |
| AsWritten.Swap3AsWrittenDoublesLength | tspsolver/tspsolver.go:57-88 | swap3 as written never panics, but always leaves a tour of length 2n, which is never the intended tour. |
| AsWritten.Swap3AsWrittenKeepsZeros | tspsolver/tspsolver.go:57-71 | When neither the second nor the third loop runs (cases 0 and 1), the result is exactly n zeros followed by the rotation: the first loop only exchanges zeros. The second and third loops can swap zeros into the tour; Swap3AsWrittenOnCase4 shows one such case. |
| AsWritten.SwapLoopOfZeros | tspsolver/tspsolver.go:68-70 | A reversal loop whose indices all lie among the buffer's leading zeros leaves the buffer unchanged. |
| AsWritten.Swap3AsWrittenOnCase4 | tspsolver/tspsolver.go:55-88 | On the tour 0..7, case 4 at (0, 4, 7) as written gives the 16 entries 0,6,5,4,3,0,0,0,1,2,0,0,0,0,7,0. |
| AsWritten.RotationIsRotate | tspsolver/tspsolver.go:62-64 | The buffer filled from `(i+1+p) % n` for p = 0 .. n-1 is the tour rotated to start at position i+1. |
| AsWritten.ReversalLoopsInRange | tspsolver/tspsolver.go:66-85 | On a buffer at least twice the total segment length, all three reversal loops stay in range. |
| AsWritten.Swap3ReversalsAsWrittenOnCase2 | tspsolver/tspsolver_test.go:193-196 | Even on a buffer of the intended length, the reversal loops turn case 2 at (1, 4, 6) into 2,0,4,5,6,7,3,1, not the 2,3,4,6,5,7,0,1 the test suite expects. |
| AsWritten.Swap3ReversalsAsWrittenOnCase4 | tspsolver/tspsolver_test.go:198-201 | On a buffer of n entries (once the allocation of lines 57-64 is fixed), the third loop of case 4 at (0, 4, 7) indexes past the end and panics. |
| AsWritten.RandomPathAsWritten | tspsolver/algo.go:61-72 | randomPath as written: the n zeros of `make` followed by the appended 0 .. n-1, shuffled in its first n entries. The result has 2n entries: n zeros plus each node once. |
| AsWritten.RandomPathAsWrittenIsFixed | tspsolver/algo.go:61-72 | randomPath as written returns n zeros followed by 0 .. n-1 whatever the draws. That is not a permutation for n > 0; the corrected RandomPath always is. |
| AsWritten.ShuffleOfZeros | tspsolver/algo.go:67 | Shuffling a prefix of zeros changes nothing, so the shuffle as written never reaches the appended nodes. |

## Left out

- `tspsolver/io.go` (`ReadMatrix`) is not part of this model. It does file I/O; the matrix is a parameter.
- `main.go` outside the helpers is left out. That covers the directory listing, the worker goroutines and channels, the output file and timing, and the `exp()` experiment; all of it is I/O or concurrency.
- `float64` arithmetic: costs are natural numbers. Rounding, NaN and infinities are not modelled. The `MaxFloat64` and `+Inf` starting minima become `None`.
- `RestartCount`: computes `ceil(3 * (1000/n)^3)` exactly in integers. It does not model the rounding of `1000.0 / n` and the cubing in `float64`, which may differ by one where 3 * 10^9 / n^3 is at or very near an integer. For n = 0 it models the `+Inf` factor as the cap of 1000.
- The `math/rand` generator and its seed are left out. Its draws are a parameter, so every result holds for every sequence of draws.
- The commented-out `_2opt` path is not implemented in the source. The `TspSolver.SolveSLS(iteration, "3opt")`, `New(dm, 0)` and `Len()` calls in `main.go` are left out too, because the solver file shown does not declare them.
- `Path.Len` and `New` are left out. They are trivial accessors and constructors.
- `sort.Slice` itself is left out; the model proves that its comparator is a strict order on five-key orders.
- `TestSLS` is left out: it prints timings for a 1000-node file and asserts nothing. The other tests' calls to `RandomPath(dm, r)`, `NearestNeighborPath` and a three-argument `getInitialPaths` do not match the shown signatures; their properties are stated on the shown functions instead.
- In-place mutation (`swap3` assigning `p.nodes`, `_3opt` mutating its argument) is modelled by returning the new tour.
- `Construction.NearestNeighborPath`: requires `start < n`. `getInitialPaths` only passes such starts. In Go an out-of-range start panics on `dm[node]` as soon as n > 1.
- `Driver.ParseOrderOfFileName`: covers non-negative order values only, because '-' is also the field separator.
- LocalSearch.ThreeOpt: termination and the local optimum are established for square, symmetric matrices only. `ThreeOpt` and `Solver.SolveSLS` require `Symmetric(dm)`; the Go code never checks it. On an asymmetric matrix, a move's predicted change need not be the real one, so the hill climb is not proved to stop.
- `ThreeOptMove.DeltaConsistency`: holds only for symmetric matrices, because reversing a segment reverses its edges. The solver is meant for symmetric instances.
- `Construction.NearestUnvisited`: the scan order of Go's map is arbitrary. The model picks any order, so ties may resolve to any cheapest node, not to a particular one.

## Findings

| source | as written | input that shows it | evidently intended | confidence | as-written member | corrected member |
|---|---|---|---|---|---|---|
| tspsolver/tspsolver.go:38-48 | `calculateDiff3` reads `p.cost(k, k+1)` with k+1 unreduced. | k = n-1, e.g. case 2 at (0, 4, 7) on eight nodes (tspsolver_test.go:190): index 8 is out of range and Go panics. | Position k+1 taken mod n, as the test's expected change requires. | not executed | AsWritten.Diff3AsWrittenOnTest | ThreeOptMove.DeltaConsistency |
| tspsolver/tspsolver.go:57-64 | `make([]int, n)` followed by n `append`s. | Any tour: swap3 leaves 2n entries. For example, case 4 at (0, 4, 7) on 0..7 gives 0,6,5,4,3,0,0,0,1,2,0,0,0,0,7,0. | `make([]int, 0, n)` or indexed assignment, giving a tour of n nodes. | not executed | AsWritten.Swap3AsWrittenOnCase4 | ThreeOptMove.Swap3Permutes |
| tspsolver/tspsolver.go:74-85 | The second and third reversal loops start at `pos := len1` and `pos := len2` and also add len1 (and len2) to the index. | On a buffer of n entries (once the allocation of lines 57-64 is fixed): case 2 at (1, 4, 6) on 0..7 gives 2,0,4,5,6,7,3,1 instead of 2,3,4,6,5,7,0,1, and case 4 at (0, 4, 7) indexes past the end. On the 2n buffer actually allocated nothing panics, but the result is still wrong. | Each loop reverses exactly its own segment of the rotated buffer. | not executed | AsWritten.Swap3ReversalsAsWrittenOnCase2 | ThreeOptMove.Swap3Example6 |
| tspsolver/algo.go:63-67 | `make([]int, n)` followed by n `append`s, then `rand.Shuffle(n, …)`. | Any n > 0: the result is n zeros then 0..n-1, and the shuffle only permutes the zeros. | A random permutation of 0 .. n-1. | not executed | AsWritten.RandomPathAsWrittenIsFixed | Construction.RandomPath |
