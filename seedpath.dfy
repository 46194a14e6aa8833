/**
 * The density-guided initial partition (kde_clustering in dtc.py): from the densest point,
 * a path grows greedily along triangulation edges, always taking the shortest edge from a
 * point on the path to a point off it; the path becomes one initial cluster and its points
 * leave the pool, until fewer than three points remain.
 *
 * Positions 0..m-1 are the rows of the current (reset-index) data frame. Coordinates are
 * represented by a distance function on positions (the Euclidean norm of the difference).
 */
module SeedPath {
  import opened Seqs
  import opened NeighborGraph

  /** A step size: a real number, or the float('inf') that stands for "no step possible". */
  datatype Ext = Finite(v: real) | Infinity

  /** a <= b in the extended order, infinity above every real. */
  predicate Le(a: Ext, b: Ext) {
    b.Infinity? || (a.Finite? && a.v <= b.v)
  }

  /** numpy.argmin / min(key=...): the first position holding the smallest value. */
  function ArgMin(xs: seq<Ext>): (k: nat)
    requires |xs| > 0
    ensures k < |xs|
    ensures forall j :: 0 <= j < |xs| ==> Le(xs[k], xs[j])
    ensures forall j :: 0 <= j < k ==> !Le(xs[j], xs[k])
  {
    if |xs| == 1 then 0
    else
      var n := |xs| - 1;
      var k := ArgMin(xs[..n]);
      assert forall j :: 0 <= j < n ==> xs[..n][j] == xs[j];
      if Le(xs[k], xs[n]) then k else n
  }

  /** pandas idxmax on a default index: the first position holding the largest value. */
  function ArgMax(xs: seq<real>): (k: nat)
    requires |xs| > 0
    ensures k < |xs|
    ensures forall j :: 0 <= j < |xs| ==> xs[j] <= xs[k]
    ensures forall j :: 0 <= j < k ==> xs[j] < xs[k]
  {
    if |xs| == 1 then 0
    else
      var n := |xs| - 1;
      var k := ArgMax(xs[..n]);
      assert forall j :: 0 <= j < n ==> xs[..n][j] == xs[j];
      if xs[n] > xs[k] then n else k
  }

  /** The result of find_closest_neighbor: (None, inf), or a point and its distance. */
  datatype Closest = NoneLeft | Nearest(point: int, dist: real) {
    function Size(): Ext {
      if NoneLeft? then Infinity else Finite(dist)
    }
  }

  /** `[idx for idx in neighbors if idx not in chosen]`. */
  function Unchosen(neighbors: seq<int>, chosen: seq<int>): (r: seq<int>)
    ensures forall q :: q in r <==> q in neighbors && q !in chosen
  {
    if neighbors == [] then []
    else (if neighbors[0] in chosen then [] else [neighbors[0]]) + Unchosen(neighbors[1..], chosen)
  }

  /** The distances from p to each of qs, in order. */
  function DistancesFrom(dist: (int, int) -> real, p: int, qs: seq<int>): (r: seq<Ext>)
    ensures |r| == |qs| && forall i :: 0 <= i < |qs| ==> r[i] == Finite(dist(p, qs[i]))
  {
    seq(|qs|, i requires 0 <= i < |qs| => Finite(dist(p, qs[i])))
  }

  /**
   * find_closest_neighbor: among the neighbours of p that are not chosen yet, the first one
   * at the smallest distance, or NoneLeft when every neighbour is chosen.
   */
  function FindClosestNeighbor(dist: (int, int) -> real, p: int, neighbors: seq<int>, chosen: seq<int>): (r: Closest)
    ensures r.NoneLeft? ==> forall q :: q in neighbors ==> q in chosen
    ensures (forall q :: q in neighbors ==> q in chosen) ==> r.NoneLeft?
    ensures r.Nearest? ==> r.point in neighbors && r.point !in chosen && r.dist == dist(p, r.point)
    ensures r.Nearest? ==> forall q :: q in neighbors && q !in chosen ==> r.dist <= dist(p, q)
  {
    var cands := Unchosen(neighbors, chosen);
    if cands == [] then
      assert forall q :: q in neighbors ==> q in chosen by {
        forall q | q in neighbors
          ensures q in chosen
        {
          assert q !in cands;
        }
      }
      NoneLeft
    else
      var ds := DistancesFrom(dist, p, cands);
      var k := ArgMin(ds);
      assert cands[k] in cands;
      assert forall q :: q in neighbors && q !in chosen ==> dist(p, cands[k]) <= dist(p, q) by {
        forall q | q in neighbors && q !in chosen
          ensures dist(p, cands[k]) <= dist(p, q)
        {
          var j :| 0 <= j < |cands| && cands[j] == q;
          assert Le(ds[k], ds[j]);
        }
      }
      Nearest(cands[k], dist(p, cands[k]))
  }

  /** The candidate step out of a point p: its closest neighbour off the path. */
  function StepOut(dist: (int, int) -> real, tris: seq<Triangle>, path: seq<int>): int -> Closest {
    p => FindClosestNeighbor(dist, p, FindNeighbors(p, tris).0, path)
  }

  /** [f(p) for p in pts]. */
  function MapSteps(f: int -> Closest, pts: seq<int>): (r: seq<Closest>)
    ensures |r| == |pts|
  {
    if pts == [] then [] else MapSteps(f, pts[..|pts| - 1]) + [f(pts[|pts| - 1])]
  }

  lemma {:induction false} MapStepsAt(f: int -> Closest, pts: seq<int>, j: int)
    requires 0 <= j < |pts|
    ensures MapSteps(f, pts)[j] == f(pts[j])
  {
    var n := |pts| - 1;
    if j < n {
      assert pts[..n][j] == pts[j];
      MapStepsAt(f, pts[..n], j);
    }
  }

  /** The candidate step out of each point of the path, in path order (`possible_min_steps`). */
  function Candidates(dist: (int, int) -> real, tris: seq<Triangle>, path: seq<int>): (r: seq<Closest>)
    ensures |r| == |path|
  {
    MapSteps(StepOut(dist, tris, path), path)
  }

  /** Position j of the candidate list is the closest unchosen neighbour of path[j]. */
  lemma CandidateAt(dist: (int, int) -> real, tris: seq<Triangle>, path: seq<int>, j: int)
    requires 0 <= j < |path|
    ensures Candidates(dist, tris, path)[j] == FindClosestNeighbor(dist, path[j], FindNeighbors(path[j], tris).0, path)
  {
    MapStepsAt(StepOut(dist, tris, path), path, j);
  }

  function Sizes(cs: seq<Closest>): (r: seq<Ext>)
    ensures |r| == |cs| && forall i :: 0 <= i < |cs| ==> r[i] == cs[i].Size()
  {
    seq(|cs|, i requires 0 <= i < |cs| => cs[i].Size())
  }

  /** The step the path takes next: the first candidate of smallest size. */
  function Next(dist: (int, int) -> real, tris: seq<Triangle>, path: seq<int>): Closest
    requires |path| > 0
  {
    var cs := Candidates(dist, tris, path);
    cs[ArgMin(Sizes(cs))]
  }

  /** A neighbour q of p off the path bounds the candidate step out of p. */
  lemma CandidateBound(dist: (int, int) -> real, tris: seq<Triangle>, path: seq<int>, p: int, q: int)
    requires Adjacent(tris, p, q) && q !in path
    ensures FindClosestNeighbor(dist, p, FindNeighbors(p, tris).0, path).Nearest?
    ensures FindClosestNeighbor(dist, p, FindNeighbors(p, tris).0, path).dist <= dist(p, q)
  {
    assert q in FindNeighbors(p, tris).0;
  }

  /**
   * The greedy rule: the next step is NoneLeft exactly when every neighbour of the path is
   * on it; otherwise it is an edge from a path point to a point off the path, and no such edge
   * is shorter.
   */
  lemma NextIsShortestEdge(dist: (int, int) -> real, tris: seq<Triangle>, path: seq<int>)
    requires |path| > 0
    ensures Next(dist, tris, path).NoneLeft? <==>
              forall i, q :: 0 <= i < |path| && Adjacent(tris, path[i], q) ==> q in path
    ensures var r := Next(dist, tris, path);
            r.Nearest? ==>
              && r.point !in path
              && (exists i :: 0 <= i < |path| && Adjacent(tris, path[i], r.point) && r.dist == dist(path[i], r.point))
              && forall i, q :: 0 <= i < |path| && Adjacent(tris, path[i], q) && q !in path ==> r.dist <= dist(path[i], q)
  {
    var cs := Candidates(dist, tris, path);
    var k := ArgMin(Sizes(cs));
    if cs[k].NoneLeft? {
      NoneLeftMeansEnclosed(dist, tris, path);
    } else {
      NearestIsShortest(dist, tris, path);
    }
  }

  /** When the smallest candidate is NoneLeft, every neighbour of every path point is on the path. */
  lemma NoneLeftMeansEnclosed(dist: (int, int) -> real, tris: seq<Triangle>, path: seq<int>)
    requires |path| > 0 && Next(dist, tris, path).NoneLeft?
    ensures forall i, q :: 0 <= i < |path| && Adjacent(tris, path[i], q) ==> q in path
  {
    var cs := Candidates(dist, tris, path);
    var k := ArgMin(Sizes(cs));
    forall i, q | 0 <= i < |path| && Adjacent(tris, path[i], q)
      ensures q in path
    {
      assert Le(Sizes(cs)[k], Sizes(cs)[i]);
      CandidateAt(dist, tris, path, i);
      assert q in FindNeighbors(path[i], tris).0;
    }
  }

  /** A Nearest next step is an edge from the path to a point off it, and no such edge is shorter. */
  lemma NearestIsShortest(dist: (int, int) -> real, tris: seq<Triangle>, path: seq<int>)
    requires |path| > 0 && Next(dist, tris, path).Nearest?
    ensures var r := Next(dist, tris, path);
              && r.point !in path
              && (exists i :: 0 <= i < |path| && Adjacent(tris, path[i], r.point) && r.dist == dist(path[i], r.point))
              && forall i, q :: 0 <= i < |path| && Adjacent(tris, path[i], q) && q !in path ==> r.dist <= dist(path[i], q)
  {
    var cs := Candidates(dist, tris, path);
    var k := ArgMin(Sizes(cs));
    var r := cs[k];
    CandidateAt(dist, tris, path, k);
    assert Adjacent(tris, path[k], r.point);
    forall i, q | 0 <= i < |path| && Adjacent(tris, path[i], q) && q !in path
      ensures r.dist <= dist(path[i], q)
    {
      CandidateAt(dist, tris, path, i);
      CandidateBound(dist, tris, path, path[i], q);
      assert Le(Sizes(cs)[k], Sizes(cs)[i]);
    }
  }

  /** One step is `min(possible_min_steps, key=step size)`; the candidate list is built by a loop. */
  method NextStep(dist: (int, int) -> real, tris: seq<Triangle>, path: seq<int>) returns (next: Closest)
    requires |path| > 0
    ensures next == Next(dist, tris, path)
  {
    var possible: seq<Closest> := [];
    for i := 0 to |path|
      invariant possible == MapSteps(StepOut(dist, tris, path), path[..i])
    {
      var neighbors := FindNeighbors(path[i], tris).0;
      var step := FindClosestNeighbor(dist, path[i], neighbors, path);
      assert step == StepOut(dist, tris, path)(path[i]);
      assert path[..i + 1][..i] == path[..i];
      possible := possible + [step];
    }
    assert path[..|path|] == path;
    next := possible[ArgMin(Sizes(possible))];
  }

  function Sum(xs: seq<real>): real {
    if xs == [] then 0.0 else Sum(xs[..|xs| - 1]) + xs[|xs| - 1]
  }

  function Mean(xs: seq<real>): real
    requires |xs| > 0
  {
    Sum(xs) / (|xs| as real)
  }

  function SquaredDeviations(xs: seq<real>, mu: real): (r: seq<real>)
    ensures |r| == |xs|
  {
    seq(|xs|, i requires 0 <= i < |xs| => (xs[i] - mu) * (xs[i] - mu))
  }

  /** The population variance, the square of numpy.std with its default ddof = 0. */
  function Variance(xs: seq<real>): real
    requires |xs| > 0
  {
    Mean(SquaredDeviations(xs, Mean(xs)))
  }

  /**
   * `step > mean(steps) + 4 * std(steps)`, with the square root removed: x exceeds
   * mu + 4 * sigma iff x - mu is positive and its square exceeds 16 * sigma^2.
   * Infinity exceeds every threshold.
   */
  predicate TooLong(x: Ext, steps: seq<real>)
    requires |steps| > 0
  {
    x.Infinity? ||
    var d := x.v - Mean(steps);
    d > 0.0 && d * d > 16.0 * Variance(steps)
  }

  /** Each point after the first is the step the greedy rule picks from the path before it. */
  ghost predicate Chain(dist: (int, int) -> real, tris: seq<Triangle>, path: seq<int>, steps: seq<real>)
    decreases |steps|
  {
    && |path| == |steps| + 1
    && (|steps| > 0 ==>
          var n := |steps|;
          && Chain(dist, tris, path[..n], steps[..n - 1])
          && Next(dist, tris, path[..n]) == Nearest(path[n], steps[n - 1]))
  }

  /** Appending the step the greedy rule picks keeps the chain. */
  lemma ChainAppend(dist: (int, int) -> real, tris: seq<Triangle>, path: seq<int>, steps: seq<real>, q: int, d: real)
    requires Chain(dist, tris, path, steps)
    requires Next(dist, tris, path) == Nearest(q, d)
    ensures Chain(dist, tris, path + [q], steps + [d])
  {
    assert (path + [q])[..|steps| + 1] == path;
    assert (steps + [d])[..|steps|] == steps;
  }

  /** The point the greedy rule picks is a new point of the point set. */
  lemma StepOffPath(dist: (int, int) -> real, tris: seq<Triangle>, path: seq<int>, n: int)
    requires |path| > 0 && NoDup(path)
    requires ValidTriangles(tris, n) && forall x :: x in path ==> 0 <= x < n
    requires Next(dist, tris, path).Nearest?
    ensures var q := Next(dist, tris, path).point; NoDup(path + [q]) && 0 <= q < n
  {
    var r := Next(dist, tris, path);
    NextIsShortestEdge(dist, tris, path);
    var i :| 0 <= i < |path| && Adjacent(tris, path[i], r.point) && r.dist == dist(path[i], r.point);
    NeighborsInRange(tris, n, path[i]);
    NoDupAppend(path, [r.point]);
  }

  /** A path grown so far: the chain holds and it lists distinct points of the set. */
  ghost predicate Grows(dist: (int, int) -> real, tris: seq<Triangle>, path: seq<int>, steps: seq<real>, n: int) {
    |path| > 0 && Chain(dist, tris, path, steps) && NoDup(path) && forall x :: x in path ==> 0 <= x < n
  }

  /** Taking the greedy step keeps a grown path a grown path. */
  lemma Extend(dist: (int, int) -> real, tris: seq<Triangle>, path: seq<int>, steps: seq<real>, n: int)
    requires Grows(dist, tris, path, steps, n) && ValidTriangles(tris, n)
    requires Next(dist, tris, path).Nearest?
    ensures var r := Next(dist, tris, path);
            Grows(dist, tris, path + [r.point], steps + [r.dist], n) && (path + [r.point])[0] == path[0]
  {
    var r := Next(dist, tris, path);
    ChainAppend(dist, tris, path, steps, r.point, r.dist);
    StepOffPath(dist, tris, path, n);
  }

  /** The first step, taken by find_closest_neighbor from the seed alone, is the greedy step. */
  lemma FirstStep(dist: (int, int) -> real, tris: seq<Triangle>, seed: int, n: int)
    requires 0 <= seed < n
    ensures FindClosestNeighbor(dist, seed, FindNeighbors(seed, tris).0, [seed]) == Next(dist, tris, [seed])
    ensures Grows(dist, tris, [seed], [], n)
  {
  }

  /** The outcome of growing one path; Stuck stands for the crash that follows a None step. */
  datatype Outcome = Grown(path: seq<int>, steps: seq<real>) | Stuck(path: seq<int>, steps: seq<real>)

  /**
   * The `for _ in range(min_sample)` phase: take the greedy step `count` times; stuck (the
   * source goes on with a None point and crashes) as soon as no step is possible.
   */
  method GreedySteps(dist: (int, int) -> real, tris: seq<Triangle>, path0: seq<int>, steps0: seq<real>, n: int, count: nat)
    returns (path: seq<int>, steps: seq<real>, stuck: bool)
    requires Grows(dist, tris, path0, steps0, n) && ValidTriangles(tris, n)
    ensures Grows(dist, tris, path, steps, n) && path[0] == path0[0]
    ensures stuck ==> |path0| <= |path| < |path0| + count && Next(dist, tris, path).NoneLeft?
    ensures !stuck ==> |path| == |path0| + count
  {
    path, steps := path0, steps0;
    for i := 0 to count
      invariant |path| == |path0| + i && path[0] == path0[0]
      invariant Grows(dist, tris, path, steps, n)
    {
      var next := NextStep(dist, tris, path);
      if next.NoneLeft? {
        return path, steps, true;
      }
      Extend(dist, tris, path, steps, n);
      path := path + [next.point];
      steps := steps + [next.dist];
    }
    stuck := false;
  }

  /** Every step recorded after the first `from` ones was within the threshold of the steps before it. */
  predicate WithinThreshold(steps: seq<real>, from: nat)
    decreases |steps|
  {
    |steps| <= from ||
    var n := |steps| - 1;
    n > 0 && !TooLong(Finite(steps[n]), steps[..n]) && WithinThreshold(steps[..n], from)
  }

  /** Recording a step that is within the threshold keeps every recorded step within it. */
  lemma ThresholdAppend(steps: seq<real>, from: nat, d: real)
    requires WithinThreshold(steps, from) && |steps| > 0 && !TooLong(Finite(d), steps)
    ensures WithinThreshold(steps + [d], from)
  {
    assert (steps + [d])[..|steps|] == steps;
  }

  /**
   * The `for _ in range(len(data) - 10)` phase: take up to `rounds` greedy steps, stopping
   * before the first one that is too long compared with the steps so far (an impossible
   * step counts as infinitely long).
   */
  method BoundedSteps(dist: (int, int) -> real, tris: seq<Triangle>, path0: seq<int>, steps0: seq<real>, n: int, rounds: nat)
    returns (path: seq<int>, steps: seq<real>)
    requires Grows(dist, tris, path0, steps0, n) && ValidTriangles(tris, n) && |steps0| > 0
    ensures Grows(dist, tris, path, steps, n) && path[0] == path0[0]
    ensures |path0| <= |path| <= |path0| + rounds
    ensures WithinThreshold(steps, |steps0|)
    ensures |path| < |path0| + rounds ==> TooLong(Next(dist, tris, path).Size(), steps)
  {
    path, steps := path0, steps0;
    for j := 0 to rounds
      invariant |path| == |path0| + j && path[0] == path0[0]
      invariant Grows(dist, tris, path, steps, n)
      invariant WithinThreshold(steps, |steps0|)
    {
      var next := NextStep(dist, tris, path);
      if TooLong(next.Size(), steps) {
        return;
      }
      Extend(dist, tris, path, steps, n);
      ThresholdAppend(steps, |steps0|, next.dist);
      path := path + [next.point];
      steps := steps + [next.dist];
    }
  }

  /** The rounds of the second phase on m points: `range(m - 10)`, empty when m <= 10. */
  function ExtraRounds(m: int): (r: nat)
    ensures m > 10 ==> r == m - 10
    ensures m <= 10 ==> r == 0
  {
    if m > 10 then m - 10 else 0
  }

  /**
   * One round of kde_clustering on m points: start at the densest point, take the closest
   * neighbour, then minSample greedy steps, then up to m - 10 more greedy steps, stopping at
   * the first one that is too long (or impossible). A None step before the second phase makes
   * the source crash on the None label: that is the Stuck outcome.
   */
  method GrowPath(density: seq<real>, tris: seq<Triangle>, dist: (int, int) -> real, minSample: nat)
    returns (r: Outcome)
    requires |density| > 0 && ValidTriangles(tris, |density|)
    ensures Grows(dist, tris, r.path, r.steps, |density|) && r.path[0] == ArgMax(density)
    ensures r.Stuck? ==> |r.path| <= minSample + 1 && Next(dist, tris, r.path).NoneLeft?
    ensures r.Grown? ==> minSample + 2 <= |r.path| <= minSample + 2 + ExtraRounds(|density|)
    ensures r.Grown? ==> WithinThreshold(r.steps, minSample + 1)
    ensures r.Grown? && |r.path| < minSample + 2 + ExtraRounds(|density|) ==>
              TooLong(Next(dist, tris, r.path).Size(), r.steps)
  {
    var m := |density|;
    var seed := ArgMax(density);
    var path := [seed];
    var steps: seq<real> := [];
    var first := FindClosestNeighbor(dist, seed, FindNeighbors(seed, tris).0, path);
    FirstStep(dist, tris, seed, m);
    if first.NoneLeft? {
      return Stuck(path, steps);
    }
    Extend(dist, tris, path, steps, m);
    path := path + [first.point];
    steps := steps + [first.dist];
    var stuck;
    path, steps, stuck := GreedySteps(dist, tris, path, steps, m, minSample);
    if stuck {
      return Stuck(path, steps);
    }
    var rounds := ExtraRounds(m);
    var whole, recorded := BoundedSteps(dist, tris, path, steps, m, rounds);
    assert WithinThreshold(recorded, minSample + 1) by {
      assert |steps| == minSample + 1;
    }
    return Grown(whole, recorded);
  }

  /** A row of the pool: the `index` label of the point in the whole data set, and its density. */
  datatype Row = Row(id: int, density: real)

  function RowIds(pool: seq<Row>): (r: seq<int>)
    ensures |r| == |pool| && forall i :: 0 <= i < |pool| ==> r[i] == pool[i].id
  {
    seq(|pool|, i requires 0 <= i < |pool| => pool[i].id)
  }

  function Densities(pool: seq<Row>): (r: seq<real>)
    ensures |r| == |pool| && forall i :: 0 <= i < |pool| ==> r[i] == pool[i].density
  {
    seq(|pool|, i requires 0 <= i < |pool| => pool[i].density)
  }

  /** Deleting rows deletes their labels at the same positions. */
  lemma {:induction false} DropPositionsIds(pool: seq<Row>, del: set<int>, ids: seq<int>)
    requires ids == RowIds(pool)
    ensures RowIds(DropPositions(pool, del)) == DropPositions(ids, del)
    decreases |pool|
  {
    if pool != [] {
      var n := |pool| - 1;
      DropPositionsIds(pool[..n], del, ids[..n]);
    }
  }

  /**
   * Taking the rows on a path out of the pool and recording their labels as a new part keeps
   * every label of the first pool in exactly one place.
   */
  lemma RoundKeepsSplit(parts: seq<seq<int>>, pool: seq<Row>, pool0: seq<Row>, path: seq<int>)
    requires NoDup(Flatten(parts) + RowIds(pool))
    requires Elements(Flatten(parts) + RowIds(pool)) == Elements(RowIds(pool0))
    requires |Flatten(parts)| + |pool| == |pool0|
    requires NoDup(path) && forall x :: x in path ==> 0 <= x < |pool|
    ensures forall i :: 0 <= i < |path| ==> 0 <= path[i] < |pool|
    ensures var part := Select(RowIds(pool), path);
            var pool' := DropPositions(pool, Elements(path));
            && NoDup(Flatten(parts + [part]) + RowIds(pool'))
            && Elements(Flatten(parts + [part]) + RowIds(pool')) == Elements(RowIds(pool0))
            && |Flatten(parts + [part])| + |pool'| == |pool0|
            && |part| == |path|
  {
    assert forall i :: 0 <= i < |path| ==> path[i] in path;
    var ids := RowIds(pool);
    var part := Select(ids, path);
    var rest := DropPositions(ids, Elements(path));
    NoDupAppend(Flatten(parts), ids);
    SplitByPositions(ids, path);
    DropPositionsIds(pool, Elements(path), ids);
    assert Flatten(parts + [part]) == Flatten(parts) + part;
    NoDupAppend(Flatten(parts), part + rest);
    assert Flatten(parts) + part + rest == Flatten(parts) + (part + rest);
    calc {
      Elements(Flatten(parts) + (part + rest));
      Elements(Flatten(parts)) + Elements(part + rest);
      Elements(Flatten(parts)) + Elements(ids);
      Elements(Flatten(parts) + ids);
    }
  }

  /** The distance between two positions of a pool whose rows carry the labels ids. */
  function PoolDist(dist: (int, int) -> real, ids: seq<int>): (int, int) -> real {
    (i: int, j: int) => if 0 <= i < |ids| && 0 <= j < |ids| then dist(ids[i], ids[j]) else 0.0
  }

  /** One round of kde_clustering: the pool it ran on, and the path and the steps grown in it. */
  datatype Round = Round(pool: seq<Row>, path: seq<int>, steps: seq<real>)

  /** The round ran on a non-empty pool and grew its path greedily from the densest row. */
  ghost predicate Started(rd: Round, dist: (int, int) -> real, delaunay: seq<int> -> seq<Triangle>) {
    && |rd.pool| > 0
    && Grows(PoolDist(dist, RowIds(rd.pool)), delaunay(RowIds(rd.pool)), rd.path, rd.steps, |rd.pool|)
    && rd.path[0] == ArgMax(Densities(rd.pool))
  }

  /** The round grew a whole path: the Grown outcome of GrowPath on its pool. */
  ghost predicate GrownIn(rd: Round, dist: (int, int) -> real, delaunay: seq<int> -> seq<Triangle>, minSample: nat) {
    && Started(rd, dist, delaunay)
    && minSample + 2 <= |rd.path| <= minSample + 2 + ExtraRounds(|rd.pool|)
    && WithinThreshold(rd.steps, minSample + 1)
    && (|rd.path| < minSample + 2 + ExtraRounds(|rd.pool|) ==>
          TooLong(Next(PoolDist(dist, RowIds(rd.pool)), delaunay(RowIds(rd.pool)), rd.path).Size(), rd.steps))
  }

  /** The round ran out of unchosen neighbours before its path had minSample + 2 points. */
  ghost predicate StuckIn(rd: Round, dist: (int, int) -> real, delaunay: seq<int> -> seq<Triangle>, minSample: nat) {
    && Started(rd, dist, delaunay)
    && |rd.path| <= minSample + 1
    && Next(PoolDist(dist, RowIds(rd.pool)), delaunay(RowIds(rd.pool)), rd.path).NoneLeft?
  }

  /** Every point of the round's path is a position of its pool. */
  predicate OnPool(rd: Round) {
    forall i :: 0 <= i < |rd.path| ==> 0 <= rd.path[i] < |rd.pool|
  }

  /** The rows the round leaves in the pool, at reset positions. */
  function After(rd: Round): seq<Row> {
    DropPositions(rd.pool, Elements(rd.path))
  }

  /** The `index` labels of the rows on the round's path: one initial cluster. */
  function Part(rd: Round): (r: seq<int>)
    requires OnPool(rd)
    ensures |r| == |rd.path|
    ensures forall i :: 0 <= i < |rd.path| ==> r[i] == rd.pool[rd.path[i]].id
  {
    Select(RowIds(rd.pool), rd.path)
  }

  /** The first round runs on pool0, each later one on what the one before left, and rest is what is left. */
  ghost predicate Chained(pool0: seq<Row>, rounds: seq<Round>, rest: seq<Row>) {
    && (|rounds| == 0 ==> rest == pool0)
    && (|rounds| > 0 ==> rounds[0].pool == pool0 && rest == After(rounds[|rounds| - 1]))
    && forall k :: 0 <= k < |rounds| - 1 ==> rounds[k + 1].pool == After(rounds[k])
  }

  /** Each part lists the labels on the path of the round at the same index. */
  ghost predicate Records(parts: seq<seq<int>>, rounds: seq<Round>) {
    |parts| == |rounds| && forall k :: 0 <= k < |rounds| ==> OnPool(rounds[k]) && parts[k] == Part(rounds[k])
  }

  /** Every round ran on at least three rows and grew a whole path. */
  ghost predicate AllGrown(rounds: seq<Round>, dist: (int, int) -> real, delaunay: seq<int> -> seq<Triangle>, minSample: nat) {
    forall k :: 0 <= k < |rounds| ==> |rounds[k].pool| >= 3 && GrownIn(rounds[k], dist, delaunay, minSample)
  }

  /** Every round ran on at least three rows and grew a whole path or got stuck. */
  ghost predicate AllRan(rounds: seq<Round>, dist: (int, int) -> real, delaunay: seq<int> -> seq<Triangle>, minSample: nat) {
    forall k :: 0 <= k < |rounds| ==>
      |rounds[k].pool| >= 3 && (GrownIn(rounds[k], dist, delaunay, minSample) || StuckIn(rounds[k], dist, delaunay, minSample))
  }

  /**
   * The rounds ran one after the other from pool0 and left rest; each part lists the labels
   * on its round's path; and the parts and rest together hold every label of pool0 exactly once.
   */
  ghost predicate SplitsPool(pool0: seq<Row>, parts: seq<seq<int>>, rounds: seq<Round>, pool: seq<Row>) {
    && NoDup(Flatten(parts) + RowIds(pool))
    && Elements(Flatten(parts) + RowIds(pool)) == Elements(RowIds(pool0))
    && |Flatten(parts)| + |pool| == |pool0|
    && Chained(pool0, rounds, pool)
    && Records(parts, rounds)
  }

  /** Recording a round's part and leaving what it did not take keeps the loop state. */
  lemma RoundStep(pool0: seq<Row>, parts: seq<seq<int>>, rounds: seq<Round>, pool: seq<Row>, rd: Round)
    requires SplitsPool(pool0, parts, rounds, pool)
    requires rd.pool == pool && |rd.path| > 0 && NoDup(rd.path) && OnPool(rd)
    ensures SplitsPool(pool0, parts + [Part(rd)], rounds + [rd], After(rd))
    ensures |After(rd)| < |pool|
  {
    RoundKeepsSplit(parts, pool, pool0, rd.path);
    assert Flatten(parts + [Part(rd)]) == Flatten(parts) + Part(rd);
    var rounds' := rounds + [rd];
    assert forall k :: 0 <= k < |rounds| ==> rounds'[k] == rounds[k];
  }

  /** The positions 0, ..., m - 1 of a pool of m rows. */
  function Positions(m: nat): (r: set<int>)
    ensures forall x :: x in r <==> 0 <= x < m
    ensures |r| == m
  {
    if m == 0 then {} else Positions(m - 1) + {m - 1}
  }

  /** A grown path lists distinct rows of its pool, so the pool has at least minSample + 2 rows. */
  lemma GrownNeedsRows(rd: Round, dist: (int, int) -> real, delaunay: seq<int> -> seq<Triangle>, minSample: nat)
    requires GrownIn(rd, dist, delaunay, minSample)
    ensures minSample + 2 <= |rd.pool|
  {
    NoDupCard(rd.path);
    SubsetCard(Elements(rd.path), Positions(|rd.pool|));
  }

  /**
   * A loop that left fewer than three rows after grown rounds only started on fewer than
   * three rows or on at least minSample + 2.
   */
  lemma PartitionNeedsRows(pool0: seq<Row>, rounds: seq<Round>, rest: seq<Row>,
                           dist: (int, int) -> real, delaunay: seq<int> -> seq<Triangle>, minSample: nat)
    requires Chained(pool0, rounds, rest) && AllGrown(rounds, dist, delaunay, minSample) && |rest| < 3
    ensures |pool0| < 3 || minSample + 2 <= |pool0|
  {
    if |rounds| > 0 {
      GrownNeedsRows(rounds[0], dist, delaunay, minSample);
    }
  }

  /** A started round's path is a non-empty list of distinct positions of its pool. */
  lemma StartedOnPool(rd: Round, dist: (int, int) -> real, delaunay: seq<int> -> seq<Triangle>)
    requires Started(rd, dist, delaunay)
    ensures |rd.path| > 0 && NoDup(rd.path) && OnPool(rd)
  {
    assert forall i :: 0 <= i < |rd.path| ==> rd.path[i] in rd.path;
  }

  /** Appending a grown round keeps every round grown. */
  lemma AllGrownAppend(rounds: seq<Round>, rd: Round, dist: (int, int) -> real, delaunay: seq<int> -> seq<Triangle>, minSample: nat)
    requires AllGrown(rounds, dist, delaunay, minSample)
    requires |rd.pool| >= 3 && GrownIn(rd, dist, delaunay, minSample)
    ensures AllGrown(rounds + [rd], dist, delaunay, minSample)
  {
    var rounds' := rounds + [rd];
    forall k | 0 <= k < |rounds'|
      ensures |rounds'[k].pool| >= 3 && GrownIn(rounds'[k], dist, delaunay, minSample)
    {
      if k < |rounds| {
        assert rounds'[k] == rounds[k];
      } else {
        assert rounds'[k] == rd;
      }
    }
  }

  /** Appending a round that grew or got stuck keeps every round run. */
  lemma AllRanAppend(rounds: seq<Round>, rd: Round, dist: (int, int) -> real, delaunay: seq<int> -> seq<Triangle>, minSample: nat)
    requires AllRan(rounds, dist, delaunay, minSample)
    requires |rd.pool| >= 3 && (GrownIn(rd, dist, delaunay, minSample) || StuckIn(rd, dist, delaunay, minSample))
    ensures AllRan(rounds + [rd], dist, delaunay, minSample)
  {
    var rounds' := rounds + [rd];
    forall k | 0 <= k < |rounds'|
      ensures |rounds'[k].pool| >= 3
      ensures GrownIn(rounds'[k], dist, delaunay, minSample) || StuckIn(rounds'[k], dist, delaunay, minSample)
    {
      if k < |rounds| {
        assert rounds'[k] == rounds[k];
      } else {
        assert rounds'[k] == rd;
      }
    }
  }

  /** The state of the as-written loop: every round so far grew a whole path. */
  ghost predicate GrownLoop(pool0: seq<Row>, parts: seq<seq<int>>, rounds: seq<Round>, pool: seq<Row>,
                            dist: (int, int) -> real, delaunay: seq<int> -> seq<Triangle>, minSample: nat) {
    SplitsPool(pool0, parts, rounds, pool) && AllGrown(rounds, dist, delaunay, minSample)
  }

  /** The state of the corrected loop: every round so far grew a whole path or got stuck. */
  ghost predicate RanLoop(pool0: seq<Row>, parts: seq<seq<int>>, rounds: seq<Round>, pool: seq<Row>,
                          dist: (int, int) -> real, delaunay: seq<int> -> seq<Triangle>, minSample: nat) {
    SplitsPool(pool0, parts, rounds, pool) && AllRan(rounds, dist, delaunay, minSample)
  }

  /** A grown round on at least three rows advances the as-written loop. */
  lemma GrownAdvance(pool0: seq<Row>, parts: seq<seq<int>>, rounds: seq<Round>, rd: Round,
                     dist: (int, int) -> real, delaunay: seq<int> -> seq<Triangle>, minSample: nat)
    requires GrownLoop(pool0, parts, rounds, rd.pool, dist, delaunay, minSample)
    requires |rd.pool| >= 3 && GrownIn(rd, dist, delaunay, minSample)
    ensures OnPool(rd)
    ensures GrownLoop(pool0, parts + [Part(rd)], rounds + [rd], After(rd), dist, delaunay, minSample)
    ensures |After(rd)| < |rd.pool|
  {
    StartedOnPool(rd, dist, delaunay);
    RoundStep(pool0, parts, rounds, rd.pool, rd);
    AllGrownAppend(rounds, rd, dist, delaunay, minSample);
  }

  /** A round on at least three rows, grown or stuck, advances the corrected loop. */
  lemma RanAdvance(pool0: seq<Row>, parts: seq<seq<int>>, rounds: seq<Round>, rd: Round,
                   dist: (int, int) -> real, delaunay: seq<int> -> seq<Triangle>, minSample: nat)
    requires RanLoop(pool0, parts, rounds, rd.pool, dist, delaunay, minSample)
    requires |rd.pool| >= 3 && (GrownIn(rd, dist, delaunay, minSample) || StuckIn(rd, dist, delaunay, minSample))
    ensures OnPool(rd)
    ensures RanLoop(pool0, parts + [Part(rd)], rounds + [rd], After(rd), dist, delaunay, minSample)
    ensures |After(rd)| < |rd.pool|
  {
    StartedOnPool(rd, dist, delaunay);
    RoundStep(pool0, parts, rounds, rd.pool, rd);
    AllRanAppend(rounds, rd, dist, delaunay, minSample);
  }

  /** What the as-written loop promises when it stops with fewer than three rows left. */
  lemma GrownFinish(pool0: seq<Row>, parts: seq<seq<int>>, rounds: seq<Round>, pool: seq<Row>,
                    dist: (int, int) -> real, delaunay: seq<int> -> seq<Triangle>, minSample: nat)
    requires GrownLoop(pool0, parts, rounds, pool, dist, delaunay, minSample) && |pool| < 3
    ensures AllGrown(rounds, dist, delaunay, minSample) && SplitsPool(pool0, parts, rounds, pool)
    ensures |pool0| < 3 || minSample + 2 <= |pool0|
  {
    PartitionNeedsRows(pool0, rounds, pool, dist, delaunay, minSample);
  }

  /** What the as-written loop promises when a round gets stuck. */
  lemma GrownCrash(pool0: seq<Row>, parts: seq<seq<int>>, rounds: seq<Round>, pool: seq<Row>,
                   dist: (int, int) -> real, delaunay: seq<int> -> seq<Triangle>, minSample: nat)
    requires GrownLoop(pool0, parts, rounds, pool, dist, delaunay, minSample)
    ensures AllGrown(rounds, dist, delaunay, minSample) && Chained(pool0, rounds, pool)
  {
  }

  /**
   * One round of kde_clustering on a pool: triangulate it and grow the path from its densest
   * row. `grown` is false when the path ran out of unchosen neighbours before the bounded
   * phase, where the source goes on with a None point.
   */
  method PoolRound(pool: seq<Row>, dist: (int, int) -> real, delaunay: seq<int> -> seq<Triangle>, minSample: nat)
    returns (rd: Round, grown: bool)
    requires |pool| > 0 && forall ids :: ValidTriangles(delaunay(ids), |ids|)
    ensures rd.pool == pool
    ensures grown ==> GrownIn(rd, dist, delaunay, minSample)
    ensures !grown ==> StuckIn(rd, dist, delaunay, minSample)
  {
    var ids := RowIds(pool);
    var outcome := GrowPath(Densities(pool), delaunay(ids), PoolDist(dist, ids), minSample);
    rd := Round(pool, outcome.path, outcome.steps);
    grown := outcome.Grown?;
  }

  /** The outcome of kde_clustering as written: the rounds it ran, and the round it crashed in. */
  datatype Partition =
    | Partitioned(parts: seq<seq<int>>, rounds: seq<Round>, rest: seq<Row>)
    | Crashed(rounds: seq<Round>, stuck: Round)

  /**
   * kde_clustering as written: grow a path in the current pool, record the `index` labels of
   * its points as one initial cluster, remove those rows and reset the positions, until fewer
   * than three rows are left. A round that runs out of neighbours before minSample + 2 points
   * appends None to the path and the lookup of its rows fails: that is the Crashed outcome,
   * and it is certain on a pool of three to minSample + 1 rows. `dist` gives the distance
   * between two `index` labels and `delaunay` the triangles (over positions) of a pool given
   * by its labels.
   */
  method KdeClusteringAsWritten(pool0: seq<Row>, dist: (int, int) -> real, delaunay: seq<int> -> seq<Triangle>, minSample: nat)
    returns (r: Partition)
    requires NoDup(RowIds(pool0))
    requires forall ids :: ValidTriangles(delaunay(ids), |ids|)
    ensures AllGrown(r.rounds, dist, delaunay, minSample)
    ensures r.Partitioned? ==> SplitsPool(pool0, r.parts, r.rounds, r.rest) && |r.rest| < 3
    ensures r.Crashed? ==> Chained(pool0, r.rounds, r.stuck.pool) && |r.stuck.pool| >= 3 && StuckIn(r.stuck, dist, delaunay, minSample)
    ensures 3 <= |pool0| < minSample + 2 ==> r.Crashed?
  {
    var parts: seq<seq<int>> := [];
    var rounds: seq<Round> := [];
    var pool := pool0;
    var finished := false;
    while !finished
      invariant GrownLoop(pool0, parts, rounds, pool, dist, delaunay, minSample)
      invariant finished ==> |pool| == 0
      decreases |pool|, !finished
    {
      if |pool| < 3 {
        break;
      }
      var rd, grown := PoolRound(pool, dist, delaunay, minSample);
      if !grown {
        GrownCrash(pool0, parts, rounds, pool, dist, delaunay, minSample);
        return Crashed(rounds, rd);
      }
      GrownAdvance(pool0, parts, rounds, rd, dist, delaunay, minSample);
      parts, rounds, pool := parts + [Part(rd)], rounds + [rd], After(rd);
      if |pool| == 0 {
        finished := true;
      }
    }
    GrownFinish(pool0, parts, rounds, pool, dist, delaunay, minSample);
    return Partitioned(parts, rounds, pool);
  }

  /**
   * kde_clustering with a round that runs out of unchosen neighbours ending its path there,
   * as the bounded phase does, instead of going on with a None point. Every round then
   * yields an initial cluster, and the loop ends with fewer than three rows left, every
   * label of the first pool in exactly one part or in the rest.
   */
  method KdeClustering(pool0: seq<Row>, dist: (int, int) -> real, delaunay: seq<int> -> seq<Triangle>, minSample: nat)
    returns (parts: seq<seq<int>>, rounds: seq<Round>, rest: seq<Row>)
    requires NoDup(RowIds(pool0))
    requires forall ids :: ValidTriangles(delaunay(ids), |ids|)
    ensures AllRan(rounds, dist, delaunay, minSample)
    ensures SplitsPool(pool0, parts, rounds, rest) && |rest| < 3
  {
    parts, rounds, rest := [], [], pool0;
    var finished := false;
    while !finished
      invariant RanLoop(pool0, parts, rounds, rest, dist, delaunay, minSample)
      invariant finished ==> |rest| == 0
      decreases |rest|, !finished
    {
      if |rest| < 3 {
        return;
      }
      var rd, grown := PoolRound(rest, dist, delaunay, minSample);
      RanAdvance(pool0, parts, rounds, rd, dist, delaunay, minSample);
      parts, rounds, rest := parts + [Part(rd)], rounds + [rd], After(rd);
      if |rest| == 0 {
        finished := true;
      }
    }
  }
}
