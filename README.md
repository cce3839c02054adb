# PSSC search core in Dafny

A model of the search core of a heuristic for the Partial Set Covering
problem. Given `nSets` candidate sets over the points `[0, nPoints)`, the
heuristic picks few sets whose union covers at least 90% of the points.

The model covers these parts:

- the instance. Its constructor flags *useless* sets (empty, or contained in
  another set) and *support* sets (the only coverer of some point).
- the greedy constructive. A greedy add phase keeps per-point cover counts up
  to date. It is followed by a single ascending redundancy-removal pass.
- the three neighbourhoods: drop, swap and add. Each has an exploration and a
  move.
- the shake: random additions, then drops until none is left.
- the variable neighbourhood search loop.

A point set is a `set<int>`. The 90% threshold is the exact integer
`MinCovered(n) = ceil(9n/10) = (9n+9)/10`. Every random choice of the Java code
(`nextBoolean`, `nextInt`) is a nondeterministic choice (`:|`), so each
property holds for every outcome of the random generator.

Files, one module each:

- `coverage.dfy`: point sets, union of chosen sets, cover counts, the
  threshold, and the lemmas about them.
- `instance.dfy`: `PsscInstance` (a class with constant fields) and its two
  preprocessing passes.
- `solution.dfy`: `PsscSolution`, the live solution. It holds a mutable
  `chosen` set and exposes `AddSet`, `RemoveSet` and `Score() == |chosen|`.
- `neighborhood.dfy`: the moves of all three neighbourhoods as one datatype,
  with their execution, score change and equality. It also holds the
  covered-point scan that every exploration starts with.
- `remove_neighborhood.dfy`, `swap_neighborhood.dfy`, `add_neighborhood.dfy`:
  the three explorations.
- `greedy_constructive.dfy`: `construct`, with its `coverCount` array.
- `shake.dfy`: `shake`.
- `vns_runner.dfy`: `algorithm`.

The model follows the code where its comments say otherwise:

- The drop test is `|covered \ cover(s)| >= 90%`. That is only a lower bound
  on what stays covered, so some removable sets are never offered.
- The swap's "uniquely covered" set always equals the whole `cover(out)`. A
  swap is therefore offered exactly when `cover(out)` is non-empty and
  contained in `cover(in)`.
- The constructive's fallback to the first unselected set is reached only
  when every set is already chosen. Then no set is left to add and the
  Java `construct` fails. The model reports this as `ok == false`, which happens
  exactly when the whole pool misses the threshold.

## Model

| member | source | states |
|---|---|---|
| Instance.ComputeUselessSets | src/main/java/es/urjc/etsii/grafo/PSSC/model/PSSCInstance.java:44-57 | The dominance pass flags `j` iff `j` is an index of the table and `cover(j)` is empty or contained in some other set's cover. |
| Instance.FlaggedIffUseless | src/main/java/es/urjc/etsii/grafo/PSSC/model/PSSCInstance.java:46-57 | Some iteration of the pass flags `j` iff `j` is useless. An empty set flags itself; a non-empty set flags every other set it contains. |
| Instance.DuplicatesBothUseless | src/main/java/es/urjc/etsii/grafo/PSSC/model/PSSCInstance.java:51-53 | Two distinct sets with equal coverage are both useless. |
| Instance.ContainedSetUseless | src/main/java/es/urjc/etsii/grafo/PSSC/model/PSSCInstance.java:52-53 | With B = {0,1} inside A = {0,1,2}, B is useless and A is not. |
| Instance.ComputeSupportSets | src/main/java/es/urjc/etsii/grafo/PSSC/model/PSSCInstance.java:59-70 | The support pass flags `s` iff `s` is an index of the table and is the only coverer of some point below `nPoints`. |
| Instance.SingleCoverer | src/main/java/es/urjc/etsii/grafo/PSSC/model/PSSCInstance.java:61-69 | The coverers of a point are exactly `{s}` iff `s` covers it and no other set does. |
| Instance.PsscInstance.constructor | src/main/java/es/urjc/etsii/grafo/PSSC/model/PSSCInstance.java:39-77 | Keeps the sizes and the table. Its useless and support sets are exactly the characterised ones, so both lie within `[0, nSets)`. |
| Instance.PsscInstance.CoveredPoints | src/main/java/es/urjc/etsii/grafo/PSSC/model/PSSCInstance.java:121-123 | The points of a set all lie in `[0, nPoints)`. |
| Instance.PsscInstance.CompareTo | src/main/java/es/urjc/etsii/grafo/PSSC/model/PSSCInstance.java:87-90 | The result is -1, 0 or 1 and has the sign of `nSets - other.nSets`. |
| Instance.CompareAntisymmetric | src/main/java/es/urjc/etsii/grafo/PSSC/model/PSSCInstance.java:87-90 | Comparing `a` with `b` gives the negation of comparing `b` with `a`. |
| Coverage.FractionIsThreshold | src/main/java/es/urjc/etsii/grafo/PSSC/model/neigh/RemoveNeighborhood.java:38-39 | The ratio test `x / n >= 0.9` in exact arithmetic, `10x >= 9n`, is the same as `x >= ceil(0.9 n)`, the constructive's threshold. |
| Coverage.MinCovered | src/main/java/es/urjc/etsii/grafo/PSSC/constructives/PSSCGreedyConstructive.java:39 | `ceil(0.9 * nPoints)`: the least integer `r` with `10r >= 9 nPoints`. |
| RemoveNeighborhood.MeetsFraction | src/main/java/es/urjc/etsii/grafo/PSSC/model/neigh/RemoveNeighborhood.java:38-39 | The ratio test holds iff the universe is non-empty and `x` reaches the constructive's threshold `MinCovered(n)`. An empty universe fails it, as the NaN comparison does. |
| Neighborhood.ScoreChange | src/main/java/es/urjc/etsii/grafo/PSSC/model/neigh/SwapNeighborhood.java:76 | `getScoreChange` of the three moves lies in [-1, 1]. It is negative exactly for a drop (-1 at RemoveNeighborhood.java:64) and positive exactly for an add (+1 at AddNeighborhood.java:64). A swap scores 0. |
| Neighborhood.ComputeCovered | src/main/java/es/urjc/etsii/grafo/PSSC/model/neigh/RemoveNeighborhood.java:26-30 | The or-ing scan over the chosen sets yields exactly the union of their covers. |
| Neighborhood.Equals | src/main/java/es/urjc/etsii/grafo/PSSC/model/neigh/SwapNeighborhood.java:80-82 | Two moves are equal iff they have the same kind and the same set indices. This covers the `equals` of all three move classes. |
| Neighborhood.ApplyScore | src/main/java/es/urjc/etsii/grafo/PSSC/model/neigh/SwapNeighborhood.java:68-76 | An executable move changes the number of chosen sets by exactly its score change: -1 for a drop, 0 for a swap, +1 for an add. |
| Neighborhood.Execute | src/main/java/es/urjc/etsii/grafo/PSSC/model/neigh/RemoveNeighborhood.java:57-64 | Executing a move leaves the chosen sets as the move's exact edit: minus `s`, minus `out` plus `in`, or plus `s`. The score changes by the move's score change. |
| Neighborhood.AddThenRemove | src/main/java/es/urjc/etsii/grafo/PSSC/model/neigh/AddNeighborhood.java:57-62 | A drop of the same set undoes an executed add. |
| RemoveNeighborhood.Explore | src/main/java/es/urjc/etsii/grafo/PSSC/model/neigh/RemoveNeighborhood.java:21-44 | Offers only drops. It offers `Remove(s)` iff `s` is chosen and the covered points outside `cover(s)` still reach 90% of a non-empty universe. Drops come in ascending `s` order. |
| RemoveNeighborhood.RemoveKeepsThreshold | src/main/java/es/urjc/etsii/grafo/PSSC/model/neigh/RemoveNeighborhood.java:35-41 | After an offered drop, the remaining sets still meet the threshold. |
| RemoveNeighborhood.RemoveIsConservative | src/main/java/es/urjc/etsii/grafo/PSSC/model/neigh/RemoveNeighborhood.java:35-36 | With two copies of the only set covering a one-point universe, dropping either keeps full coverage, yet neither drop is offered. |
| SwapNeighborhood.UniqueIsWholeCover | src/main/java/es/urjc/etsii/grafo/PSSC/model/neigh/SwapNeighborhood.java:32-37 | `outCover \ (covered \ outCover)` is all of `outCover`. |
| SwapNeighborhood.Explore | src/main/java/es/urjc/etsii/grafo/PSSC/model/neigh/SwapNeighborhood.java:20-53 | Offers only swaps. It offers `Swap(out, in)` iff `out` is chosen, `in` is an unchosen index, `cover(out)` is non-empty and `cover(out)` ⊆ `cover(in)`. Swaps are ordered by `out`, then by `in`. |
| SwapNeighborhood.SwapKeepsCoverage | src/main/java/es/urjc/etsii/grafo/PSSC/model/neigh/SwapNeighborhood.java:45-48 | An offered swap never uncovers a point, so it keeps the threshold. |
| AddNeighborhood.Explore | src/main/java/es/urjc/etsii/grafo/PSSC/model/neigh/AddNeighborhood.java:21-44 | Offers only adds of unchosen sets. It offers `Add(s)` iff `s` is an unchosen index whose cover has a point not yet covered. Adds come in ascending order. |
| AddNeighborhood.AddGrowsCoverage | src/main/java/es/urjc/etsii/grafo/PSSC/model/neigh/AddNeighborhood.java:35-40 | An offered add strictly enlarges the covered point set and its size. |
| GreedyConstructive.Gain | src/main/java/es/urjc/etsii/grafo/PSSC/constructives/PSSCGreedyConstructive.java:57-65 | The gain scan, reading the cover counts, returns the number of points of the set not yet covered. |
| GreedyConstructive.SelectBest | src/main/java/es/urjc/etsii/grafo/PSSC/constructives/PSSCGreedyConstructive.java:51-73 | For every coin flip: -1 iff every set is chosen. Otherwise the pick is unchosen and its gain is at least that of every unchosen set. A zero-gain pick is the first unchosen set. |
| GreedyConstructive.FirstUnselected | src/main/java/es/urjc/etsii/grafo/PSSC/constructives/PSSCGreedyConstructive.java:76-80 | Returns the least unchosen index, or -1 iff every set is chosen. |
| GreedyConstructive.BumpPoints | src/main/java/es/urjc/etsii/grafo/PSSC/constructives/PSSCGreedyConstructive.java:86-92 | Each point of the added set gains one in its count and no other count changes. The new-coverage counter grows by the points that had count zero. |
| GreedyConstructive.AddCounts | src/main/java/es/urjc/etsii/grafo/PSSC/constructives/PSSCGreedyConstructive.java:83-92 | After an add, each count again equals the number of chosen sets covering the point, and `covered` equals the size of the new union. |
| GreedyConstructive.WouldLose | src/main/java/es/urjc/etsii/grafo/PSSC/constructives/PSSCGreedyConstructive.java:102-113 | The loss scan, early exit included, judges a drop safe exactly when the other chosen sets still cover `min` points. |
| GreedyConstructive.DropPoints | src/main/java/es/urjc/etsii/grafo/PSSC/constructives/PSSCGreedyConstructive.java:117-123 | Each point of the dropped set loses one from its count and no other count changes. The lost counter counts the points left with count zero. |
| GreedyConstructive.RemoveCounts | src/main/java/es/urjc/etsii/grafo/PSSC/constructives/PSSCGreedyConstructive.java:115-123 | After a drop, the counts again equal the number of chosen sets covering each point, and `covered` equals the size of the new union. |
| GreedyConstructive.AddPhase | src/main/java/es/urjc/etsii/grafo/PSSC/constructives/PSSCGreedyConstructive.java:50-93 | Only adds sets, keeps the count invariant and `covered` equal to the size of the union. It stops with the threshold met, or with every set chosen and the threshold missed. It terminates because each iteration adds an unchosen set. |
| GreedyConstructive.PassDropsFirstCopy | src/main/java/es/urjc/etsii/grafo/PSSC/constructives/PSSCGreedyConstructive.java:98-124 | With two copies of the only set of a one-point universe, the ascending pass drops the first copy and keeps the second. |
| GreedyConstructive.RemovePhase | src/main/java/es/urjc/etsii/grafo/PSSC/constructives/PSSCGreedyConstructive.java:98-128 | The result is exactly that of the first-fit ascending pass `Pass`: each chosen set, in increasing order, is dropped iff the sets still chosen then meet the threshold without it. Only drops happen, coverage never falls below the threshold, and no kept set can be dropped alone while keeping it. |
| GreedyConstructive.Construct | src/main/java/es/urjc/etsii/grafo/PSSC/constructives/PSSCGreedyConstructive.java:33-131 | From the empty solution it succeeds iff the whole pool meets the threshold, and otherwise stops with every set chosen. On success the result meets the threshold and no kept set can be dropped alone without falling below it. The add phase terminates because each iteration adds an unchosen set. |
| Shake.DrawUnselected | src/main/java/es/urjc/etsii/grafo/PSSC/shake/ExamplePSSCShake.java:25-29 | Draws an index in `[0, nSets)` using between 1 and 10 draws. A chosen index is returned only after all 10 draws. |
| Shake.Shake | src/main/java/es/urjc/etsii/grafo/PSSC/shake/ExamplePSSCShake.java:18-43 | At most `k` previously unselected sets end up added, and the size grows by at most `k`. The drop loop terminates, and afterwards the drop neighbourhood offers no move. An input meeting the threshold gives an output meeting it. An output below the threshold has dropped nothing, since drops happen only while the threshold stays met. |
| VnsRunner.NextNeighborhood | src/main/java/es/urjc/etsii/grafo/PSSC/algorithms/PSSCVNSRunner.java:62-67 | The index stays in {0, 1, 2}, meaning drop, swap and add. It advances by one and wraps to 0 exactly after 2. |
| VnsRunner.Step | src/main/java/es/urjc/etsii/grafo/PSSC/algorithms/PSSCVNSRunner.java:54-72 | The best score never rises. It changes iff an applied move scores below it, and then `k` and `plateau` reset to 0. Otherwise `plateau` rises by exactly 1 and `k` moves to the next neighbourhood. |
| VnsRunner.ShakeOnlyAfterAdd | src/main/java/es/urjc/etsii/grafo/PSSC/algorithms/PSSCVNSRunner.java:66-70 | The shake runs iff the add neighbourhood came back empty. |
| VnsRunner.StepDecreases | src/main/java/es/urjc/etsii/grafo/PSSC/algorithms/PSSCVNSRunner.java:47-73 | Each iteration lowers the pair `(bestScore, 200 - plateau)` lexicographically. |
| VnsRunner.Explore | src/main/java/es/urjc/etsii/grafo/PSSC/algorithms/PSSCVNSRunner.java:22-26 | Neighbourhood 0, 1 and 2 are the drop, swap and add explorations: each offers exactly the moves that exploration emits, and only moves of its kind. Every offered move is executable and keeps a solution meeting the threshold at or above it. |
| VnsRunner.Search | src/main/java/es/urjc/etsii/grafo/PSSC/algorithms/PSSCVNSRunner.java:43-74 | The loop terminates with `plateau == 200`, and the best score never exceeds the starting score. The solution returned is the live one, not a best-ever copy. It still meets the threshold if the constructed solution did. |
| VnsRunner.Algorithm | src/main/java/es/urjc/etsii/grafo/PSSC/algorithms/PSSCVNSRunner.java:38-75 | Succeeds iff the instance is feasible and has at least one set; on success the returned solution meets the threshold. |

## Left out

- Floating point. The threshold `Math.ceil(0.9 * nPoints)` and the drop test
  `size / (double) nPoints >= 0.9` use the exact rational threshold. Rounding
  of the double `0.9` is not modelled. A zero-point universe makes the drop
  test's quotient NaN, which fails the comparison, and the model keeps that.
- The random generator and its seeding. Every draw is a nondeterministic
  choice. Properties hold for all outcomes; no distribution is modelled.
- `notifyUpdate`, the cached score and the move framework's bookkeeping.
  `PSSCSolution` and `PSSCBaseMove` are not part of this model. A minimal
  solution stands in with a `chosen` set, `Score() == |chosen|`, and
  `AddSet`/`RemoveSet` guarded as their callers guarantee.
- The exploration result stream. An exploration returns its moves as a
  sequence, and only the first element is consumed (`findFirst`).
- The `p == nPoints - 1` and `s == nSets - 1` guards before `nextSetBit`.
  Every cover is required to lie within `[0, nPoints)`, so each scan is a
  plain ascending loop over the points.
- `toString`, `hashCode`, `setProperty` and the name of the instance:
  presentation and reporting only.
- `ConstructiveExperiment`: wiring that only lists the algorithms.
- GreedyConstructive.Construct: requires an empty starting solution, which
  is how its one caller, `algorithm`, invokes it.
- GreedyConstructive.Construct: does not model the exception the Java `construct`
  raises when every set is chosen and the threshold is still missed. It
  reports `ok == false` and leaves every set chosen.
- VnsRunner.Algorithm: reports `ok == false` instead of the exceptions. The
  constructive fails on an infeasible instance. The shake's `nextInt(0)`
  fails on an instance without sets.
- Instance.PsscInstance.constructor: requires the table length to equal
  `nSets` and every cover to lie within `[0, nPoints)`. The Java constructor assumes
  both without checking.
