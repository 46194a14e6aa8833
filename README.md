# DTC: triangulation DBSCAN with density-guided partitions, in Dafny

`dtc.py` clusters 2-D points. Its clustering engine works only with integer point positions and with triangles, which are triples of positions. This project models that engine and proves what it promises. It has five parts:

- **Neighbour graph** (`neighbors.dfy`, module `NeighborGraph`). `find_neighbors` derives a point's duplicate-free neighbour list from a triangle list. `check_point` calls a point a core point when it has at least `minPts` neighbours.
- **Triangle pruning** (`pruning.dfy`, module `Pruning`). `glob_loc_removal` works in two passes.
  - The global pass turns flagged areas and flagged edges into a `deleted` position list. Edge `i` belongs to triangle `i // 3`. The pass then deletes those rows (`np.delete`).
  - The local pass lists every triangle holding both ends of a flagged (point, neighbour) pair. It then drops those triangles with the paired `a.remove` / `b.remove` scan over a copy of the list.
- **Flood fill** (`floodfill.dfy`, module `FloodFill`). This is the triangulation-DBSCAN worklist loop of `tri_dbscan`.
  - It uses an `unvisited` list, a `current_stack` set and a cluster counter `C`.
  - The start point is a nondeterministic pick among the unvisited points.
  - The left merge that joins the labels back to the rows is modelled too.
- **Seed-path partitioning** (`seedpath.dfy`, module `SeedPath`). These are `find_closest_neighbor` and `kde_clustering`.
  - A path starts at the densest point and grows greedily. Each step takes the shortest triangulation edge from the path to a point off it.
  - First there are `min_sample` unconditional steps. Then bounded steps follow, which stop before the first step that exceeds `mean + 4·std` of the recorded step sizes.
  - The path's points leave the pool. Rounds repeat until the pool is empty or fewer than three points remain.
  - As written, a round that runs out of unchosen neighbours before `min_sample + 2` points goes on with a None point and raises. That always happens on a pool of 3 to `min_sample + 1` points. The model keeps this version (`KdeClusteringAsWritten`) and a corrected one (`KdeClustering`) in which such a round ends its path where it got stuck; see Findings.
- **Label post-processing** (`labels.dfy`, module `Labels`).
  - The 1-NN overwrite replaces noise labels (0), in place on an array.
  - Reconciliation renames labels across partitions.
  - `pd.factorize(...) + 1` relabels the clusters densely.

`seqs.dfy` (module `Seqs`) holds the list operations the source relies on:
- `list.remove` (`RemoveFirst`);
- `Series.unique` (`Unique`);
- `np.delete` and boolean-mask filtering (`DropPositions`);
- `.loc` with a position list (`Select`).

Collections are sequences. The neighbour lists built with `list(set(...))` are sequences without duplicates whose order carries no meaning. The flood-fill `current_stack` is a sequence that may list a point more than once. Popping a point removes every copy of it, so the stack behaves as the Python set. The one in-place overwrite of a label column is an `array`.

The following are parameters:
- coordinates, as a distance function `dist` on point positions;
- the triangulation, as a triangle list, or a `delaunay` function from a pool to its triangles;
- densities, as a sequence of reals;
- the float statistics that flag triangles, edges and pairs, as flag inputs;
- the 1-NN classifier, as a function `nearest` giving a labelled row for each noise row.

## Model

| member | source | states |
|---|---|---|
| NeighborGraph.FindNeighbors | dtc.py:44-55 | The list has no duplicates, never holds the point itself, and its count is its length. q is listed iff some triangle holds both the point and q. |
| NeighborGraph.NeighborsSymmetric | dtc.py:51-55 | q is a neighbour of p iff p is a neighbour of q. |
| NeighborGraph.NeighborsInRange | dtc.py:51-55 | For a triangulation over n points, every neighbour is a position in 0..n-1. |
| NeighborGraph.NeighborsShrink | dtc.py:51-55 | Deleting triangles only removes neighbours: the new list is contained in the old one and the count does not grow. |
| NeighborGraph.CheckPoint | dtc.py:79-90 | The flag is true iff the neighbour count is at least minPts. The returned list is exactly the neighbour set. |
| Seqs.RemoveFirst | dtc.py:166-169 | `list.remove` on a present value shortens the list by one and takes away exactly one copy of that value, as a multiset. |
| Seqs.Unique | dtc.py:321 | The distinct values have no duplicates, and a value is among them iff it occurs in the input. |
| Seqs.DropPositionsAt | dtc.py:129 | Deleting rows by position keeps every surviving row, in order. Row k lands at its rank among the survivors. |
| Pruning.GlobalRemoval | dtc.py:118-129 | `deleted` holds k iff triangle k has a flagged area or holds a flagged edge e with e // 3 == k. The kept triangles are exactly the rows whose position is not deleted, in order; duplicate positions collapse. Every unflagged triangle survives at its rank, and the count does not grow. |
| Pruning.GlobalKeepsOnlyUnflagged | dtc.py:118-129 | Every triangle the global pass keeps is an input triangle at an unflagged position. |
| Pruning.CollectMatching | dtc.py:157-163 | The nested loop builds exactly the `delete` list: for each flagged pair in order, every triangle holding both of its ends. |
| Pruning.MatchingCoversFlagged | dtc.py:159-163 | A triangle holding a flagged pair occurs in `delete` at least as often as in the triangle list. |
| Pruning.RemoveScan | dtc.py:164-170 | The paired remove scan over a copy of `a` keeps exactly the positions that the copy-counting rule spares, in order. |
| Pruning.ScanRemovesFlagged | dtc.py:157-170 | The positions the scan drops are exactly the triangles holding both ends of some flagged pair. |
| Pruning.LocalRemoval | dtc.py:157-170 | The result is the input, in order, minus exactly the triangles holding a flagged pair. No survivor holds a flagged pair, every triangle without one survives, and the count does not grow. |
| Pruning.GlobLocRemoval | dtc.py:94-178 | The result is exactly the local pass applied to what the global pass keeps. Both passes together never add triangles. Every survivor is an input triangle at a position the global pass did not flag, and it holds no flagged pair. Every triangle with neither a global flag nor a flagged pair survives. |
| FloodFill.PopStep | dtc.py:285-299 | Popping a point from the stack and recording it keeps the invariants. Every stacked point stays unvisited, `unvisited` and the recorded ids split 0..n-1 without repetition, labels lie in 0..C and are positive exactly for core points, and the expansion invariant holds. |
| FloodFill.ReachStep | dtc.py:285-299 | Popping a point keeps two facts. Every stacked point is the start point or a neighbour of a point labelled C. Every point labelled C is joined to the start point by a walk through adjacent core points. |
| FloodFill.ExpandCluster | dtc.py:284-299 | The inner loop keeps all of these invariants and empties the stack. `unvisited` strictly shrinks, so `remove` never fails and the loop ends. Earlier entries stay as they were. New entries carry label C or 0, and every point labelled C is joined to the start point by a walk through adjacent core points. |
| FloodFill.SeparatedStep | dtc.py:276-301 | After one cluster is grown, two entries with the same positive label are still joined by a walk through adjacent core points. |
| FloodFill.AllVisited | dtc.py:276-301 | Once nothing is unvisited, the loop invariants give one entry per point 0..n-1. Labels are positive exactly for core points, and adjacent clustered points share a label. |
| FloodFill.TriDbscan | dtc.py:273-301 | C starts at 1 and goes up by one per pick. Each pick removes at least one unvisited point, so the final C is at most n + 1, and at least 2 when there is a point. Each point 0..n-1 gets exactly one (index, label) entry. Labels lie in 0..C-1 and are positive iff the point is a core point of the pruned triangles. Two adjacent clustered points carry the same label. Two points with the same positive label are joined by a walk through adjacent core points. |
| FloodFill.JoinedSameLabel | dtc.py:276-301 | Given the flood fill's final facts, two clustered points joined by a walk through core points carry the same label. |
| FloodFill.LabelsAreComponents | dtc.py:273-301 | The positive labels are exactly the connected components of the core points: two core points share a label iff a walk through adjacent core points joins them. |
| FloodFill.JoinLabels | dtc.py:302-306 | After the left merge on `index`, row i carries the label recorded for point i. |
| SeedPath.ArgMin | dtc.py:74 | `np.argmin` and `min(key=...)` give the first position of a smallest value in the extended order, where inf is above every real. |
| SeedPath.ArgMax | dtc.py:202 | `idxmax` gives the first position of the largest density. |
| SeedPath.FindClosestNeighbor | dtc.py:59-75 | The result is (None, inf) iff every neighbour is already chosen. Otherwise it is an unchosen neighbour, its distance is the stated one, and that distance is no larger than any other unchosen neighbour's. |
| SeedPath.CandidateAt | dtc.py:214-217 | Entry j of `possible_min_steps` is the closest unchosen neighbour of the j-th path point. |
| SeedPath.NextStep | dtc.py:213-218 | The loop over the path builds `possible_min_steps` and returns its first minimum, which is the next greedy step. |
| SeedPath.NextIsShortestEdge | dtc.py:213-220 | The next step is None iff every neighbour of every path point is on the path. Otherwise it is an edge from a path point to a point off the path, and no such edge is shorter. |
| SeedPath.NoneLeftMeansEnclosed | dtc.py:213-220 | A None step means the path has no edge leaving it. |
| SeedPath.NearestIsShortest | dtc.py:213-220 | A real step leaves the path along an edge, and no edge leaving the path is shorter. |
| SeedPath.StepOffPath | dtc.py:219 | The point a greedy step appends is new to the path and is a position of the point set. |
| SeedPath.FirstStep | dtc.py:206-210 | The first step, taken from the seed alone, is the greedy step of the one-point path. |
| SeedPath.GreedySteps | dtc.py:212-220 | The `min_sample` phase appends exactly `count` new points by greedy steps. It reports being stuck when no step is possible. |
| SeedPath.BoundedSteps | dtc.py:222-232 | The second phase appends at most `rounds` points. Each appended step is within the threshold. When the phase ends early, the step it refused exceeds mean + 4·std, or was impossible; that step is not appended. |
| SeedPath.GrowPath | dtc.py:201-232 | The path starts at the densest point and is a greedy chain of distinct points. If it grows it has between min_sample + 2 and min_sample + 2 + max(0, m - 10) points. Stuck means no step was possible before the second phase. |
| SeedPath.RoundKeepsSplit | dtc.py:234-238 | Moving a round's path from the pool into a new part keeps every label of the first pool in exactly one place: in some part or in the pool. |
| SeedPath.PoolRound | dtc.py:190-232 | One round triangulates the pool and grows the path from its densest row. A grown round satisfies everything GrowPath promises for Grown. A stuck one has at most min_sample + 1 points and no unchosen neighbour left. |
| SeedPath.RoundStep | dtc.py:234-238 | Recording a round's part and keeping only the rows off its path keeps the loop state, and the pool strictly shrinks. Each part is the labels of its round's path. |
| SeedPath.GrownNeedsRows | dtc.py:201-232 | A grown round lists min_sample + 2 distinct rows of its pool, so the pool has at least that many rows. |
| SeedPath.PartitionNeedsRows | dtc.py:186-242 | If the loop ends normally after grown rounds, the first pool had fewer than 3 rows or at least min_sample + 2. |
| SeedPath.KdeClusteringAsWritten | dtc.py:182-242 | Every completed round ran on at least 3 rows and grew a whole path. A normal end leaves fewer than 3 rows. Each part is the labels of its round's path, and the parts and the rest hold every input label exactly once. A crash happens in a round on at least 3 rows that got stuck. A first pool of 3 to min_sample + 1 rows always crashes. |
| SeedPath.KdeClustering | dtc.py:182-242 | This is the corrected loop: a stuck round's path becomes a part too. Every round ran on at least 3 rows and grew a whole path or got stuck. The loop always ends with fewer than 3 rows left. Each part is the labels of its round's path, and the parts and the rest hold every input label exactly once. |
| Labels.NoiseRows | dtc.py:310-312 | The rows selected by `est_clust == 0` are exactly the noise rows, in increasing order. |
| Labels.AssignRows | dtc.py:316 | `.loc` assignment writes the i-th value to the i-th selected row and changes no other row. |
| Labels.ReassignNoise | dtc.py:307-316 | Only rows labelled 0 change. Each one takes the label of its nearest labelled row, so no label is 0 afterwards. |
| Labels.MaxOr0 | dtc.py:325-328 | The result is 0 for an empty frame. Otherwise it is the largest existing label. |
| Labels.RelabelKeeps | dtc.py:339-340 | A label not used by earlier partitions maps to itself. |
| Labels.RelabelFresh | dtc.py:334-338 | The k-th distinct label that is already in use maps to the start value plus the number of in-use labels up to position k in first-appearance order. That gives max + 1, max + 2, and so on. |
| Labels.RelabelApart | dtc.py:334-338 | Two different in-use labels get different new labels. |
| Labels.ReconciledKept | dtc.py:339-343 | In the mapped column, a row whose label is new keeps it. |
| Labels.ReconciledFreshRange | dtc.py:334-343 | A row whose label is in use gets a label in max+1 .. max+n. |
| Labels.ReconciledApart | dtc.py:334-343 | Rows with different in-use labels get different labels. |
| Labels.MapLabels | dtc.py:320-343 | The loop over the distinct labels, with its counter and dict, produces the reconciled column. |
| Labels.ReconcileAsWritten | dtc.py:320-343 | With the counter started at the largest existing label: lengths are kept, new labels keep their value, no mapped label is in use by earlier partitions, and equal labels stay equal. |
| Labels.KeptLabelMeetsFresh | dtc.py:325-340 | With existing labels [1, 2], the labels [1, 2, 3] map to [3, 4, 3], so two clusters merge. |
| Labels.Reconcile | dtc.py:320-343 | This is the corrected reconciliation. New labels keep their value, no mapped label is in use, and two rows get the same mapped label iff they had the same label. |
| Labels.ReconcileStep | dtc.py:320-345 | Appending the next partition's reconciled labels keeps the loop state, and the concatenated frame grows by exactly those labels. |
| Labels.ReconcileAll | dtc.py:265-345 | The partition loop with the corrected reconciliation. The first partition is unchanged. The concatenated frame is exactly the outputs in order. A label no earlier output uses keeps its value. Within a partition, labels are equal after iff equal before. Labels of different partitions never coincide. |
| Labels.Factorize | dtc.py:464 | Codes lie in 1..k for k distinct labels, and two rows get the same code iff they have the same label. |
| Labels.FactorizeOnto | dtc.py:464 | Every code 1..k is used, and the k-th distinct label gets k. |
| Labels.FactorizeFirstAppearance | dtc.py:464 | A label seen for the first time at row i gets one more than the number of distinct labels before i. A repeated label gets an earlier code. |

## Left out

- Delaunay triangulation (dtc.py:103, 194) is a call into scipy. The triangles are an input, and in the partition loop they come from a `delaunay` function.
- The triangle flags (Heron areas, `pdist` edge lengths, and mean/std cut-offs with mixed ddof, dtc.py:106-127 and 140-156) are float statistics. They enter the pruning model as flag sequences and flagged pairs.
- `gaussian_kde` and the `density.csv` write/read round trip (dtc.py:253-258) are numerics and file I/O. The densities are an input sequence.
- The 1-NN classifier (dtc.py:313-315, 444-446) is a foreign call. It becomes the `nearest` function, which must return a row with a nonzero label.
  - Labels.ReassignNoise: the source crashes in `knn.fit` when every point is noise. The model excludes that case with the requirement on `nearest`.
- Plotting, colours and printing (dtc.py:132-136, 172-177, 184, 234, 260-262, 347-395, 449-462) are output only.
- Floating point: step sizes and densities are mathematical reals. The `mean + 4·std` test is compared exactly, with squares in place of the square root. Rounding is not modelled.
- Python set order: `list(set(...))` in find_neighbors and `current_stack.pop()` have an unspecified order. The model uses first-appearance order for the neighbour list and an arbitrary pick for the pop.
  - SeedPath.FindClosestNeighbor: ties between equally distant neighbours may resolve differently in the source, because its candidate order follows set iteration.
- `random.choice` is modelled as a nondeterministic pick from `unvisited`. The properties hold for every pick.
- pandas bookkeeping: only the position-to-`index` mapping is kept. That covers `reset_index`, `iloc`/`loc` and the merge on `index`. Column selection and dtype handling are not part of this model.
- SeedPath.GrowPath: a None first or `min_sample` step makes the source go on with a None point and raise at the next `data.loc` (dtc.py:68 or 235). The model stops with the `Stuck` outcome and keeps the stuck path. `KdeClusteringAsWritten` returns `Crashed` with that round, and `KdeClustering` records it as a part. The model does not describe the exception itself.
- SeedPath.KdeClustering: the points of an initial cluster are returned as labels. Whether they later feed `iloc` as positions is not part of this model.
- In the partitioned mode, the source's flood fill, noise overwrite and reconciliation run once per initial cluster. The model proves each block on its own and chains only the reconciliation (`ReconcileAll`). The parts of `ReconcileAll` are the label columns the earlier blocks produce.
- Labels.ReconcileAll: uses the corrected `Reconcile`, not the code as written. The discrepancy is under Findings.
- The source never special-cases label 0 during reconciliation. The model follows the code. After the 1-NN overwrite no 0 labels remain, because `nearest` names a labelled row.

## Findings

| source | as written | input that shows it | evidently intended | confidence | as-written member | corrected member |
|---|---|---|---|---|---|---|
| dtc.py:325-340 | Fresh labels for the labels already in use count up from `max(existing_clusters)`. A label not in use keeps its own value, even when it is above that maximum, so it can equal a fresh label. | Earlier partitions used {1, 2}. The next partition's flood fill gives labels [1, 2, 3]. The mapping is 1→3, 2→4, 3→3, so clusters 1 and 3 merge. | Distinct clusters of one partition keep distinct labels. Start the counter above every label of both the earlier partitions and the current one. | medium, not executed | Labels.ReconcileAsWritten, Labels.KeptLabelMeetsFresh | Labels.Reconcile |
| dtc.py:201-235 | A round whose path runs out of unchosen neighbours before `min_sample + 2` points appends None and keeps going. `data.loc` then fails on the None label (dtc.py:68 or 235). A path lists distinct rows, so it cannot reach `min_sample + 2` points in a pool of fewer rows. | Any pool left with 3 to `min_sample + 1` rows, e.g. a first pool of 5 points with the default `min_sample` of 12. | Every round yields an initial cluster until fewer than three points remain. A path that cannot grow ends where it is. | high, not executed | SeedPath.KdeClusteringAsWritten, SeedPath.GrownNeedsRows | SeedPath.KdeClustering |
