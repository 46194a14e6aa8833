/**
 * The triangulation-DBSCAN flood fill of tri_dbscan in dtc.py (the loop appears twice in the
 * source, once per partition in density-guided mode and once in direct mode, identically).
 * Points are the positions 0..n-1 of the data frame, which is also what the triangles index.
 */
module FloodFill {
  import opened Seqs
  import opened NeighborGraph

  /** The point ids recorded in the `clusters` list of (index, label) pairs. */
  function Ids(clusters: seq<(int, int)>): (r: seq<int>)
    ensures |r| == |clusters|
    ensures forall i :: 0 <= i < |clusters| ==> r[i] == clusters[i].0
  {
    seq(|clusters|, i requires 0 <= i < |clusters| => clusters[i].0)
  }

  /** Every positive label recorded for q equals L. */
  ghost predicate LabelledWith(clusters: seq<(int, int)>, q: int, L: int) {
    forall f :: f in clusters && f.0 == q && f.1 > 0 ==> f.1 == L
  }

  /**
   * The work stack of the loop is a Python set used only through add, pop and update; it is
   * modelled as a sequence whose order carries no meaning, and these two helpers are the
   * removal of the popped point and the `set(neighbors) & set(unvisited)` filter.
   */
  function Without(xs: seq<int>, x: int): (r: seq<int>)
    ensures forall y :: y in r <==> y in xs && y != x
  {
    if xs == [] then [] else (if xs[0] == x then [] else [xs[0]]) + Without(xs[1..], x)
  }

  function Keeping(xs: seq<int>, ys: seq<int>): (r: seq<int>)
    ensures forall y :: y in r <==> y in xs && y in ys
  {
    if xs == [] then [] else (if xs[0] in ys then [xs[0]] else []) + Keeping(xs[1..], ys)
  }

  /**
   * The expansion invariant: every neighbour q of a point labelled L > 0 is either waiting on
   * the stack of the cluster being grown (L == c), or already visited and, if it is a
   * clustered point, labelled L too.
   */
  ghost predicate Expanded(tris: seq<Triangle>, clusters: seq<(int, int)>, stack: seq<int>,
                           unvisited: seq<int>, c: int) {
    forall e, q :: e in clusters && e.1 > 0 && Adjacent(tris, e.0, q) ==>
      (q in stack && e.1 == c) || (q !in unvisited && LabelledWith(clusters, q, e.1))
  }

  /** Appending the entry for a popped point keeps the expansion invariant. */
  lemma ExpandStep(tris: seq<Triangle>, clusters: seq<(int, int)>, stack: seq<int>, unvisited: seq<int>,
                   c: int, curr: int, mark: int, stack': seq<int>, unvisited': seq<int>)
    requires Expanded(tris, clusters, stack, unvisited, c)
    requires curr in stack && curr in unvisited && curr !in Ids(clusters)
    requires mark == c || mark == 0
    requires forall q :: q in unvisited' <==> q in unvisited && q != curr
    requires forall q :: q in stack' <==>
               (q in stack && q != curr) || (mark == c && Adjacent(tris, curr, q) && q in unvisited')
    ensures Expanded(tris, clusters + [(curr, mark)], stack', unvisited', c)
  {
    var clusters' := clusters + [(curr, mark)];
    forall e, q | e in clusters' && e.1 > 0 && Adjacent(tris, e.0, q)
      ensures (q in stack' && e.1 == c) || (q !in unvisited' && LabelledWith(clusters', q, e.1))
    {
      if e == (curr, mark) {
        if q in unvisited' {
          assert q in stack';
        } else {
          assert Adjacent(tris, q, curr);
          forall f | f in clusters' && f.0 == q && f.1 > 0
            ensures f.1 == c
          {
            if f != (curr, mark) {
              assert f in clusters;
            }
          }
        }
      } else {
        assert e in clusters;
        if q in stack && e.1 == c && q != curr {
          assert q in stack';
        } else if q in stack && e.1 == c {
          forall f | f in clusters
            ensures f.0 != curr
          {
            var i :| 0 <= i < |clusters| && clusters[i] == f;
            assert Ids(clusters)[i] == f.0;
          }
        } else {
          assert q !in unvisited && LabelledWith(clusters, q, e.1);
          assert q != curr;
        }
      }
    }
  }

  /**
   * Bookkeeping of the loop: `unvisited` and the ids in `clusters` split 0..n-1 between them,
   * each without repetition.
   */
  ghost predicate Split(n: nat, clusters: seq<(int, int)>, unvisited: seq<int>) {
    && NoDup(unvisited) && (forall x :: x in unvisited ==> 0 <= x < n)
    && |clusters| + |unvisited| == n
    && NoDup(Ids(clusters))
    && (forall x :: x in Ids(clusters) ==> 0 <= x < n && x !in unvisited)
    && (forall x :: 0 <= x < n ==> x in unvisited || x in Ids(clusters))
  }

  /** Every recorded label lies in 0..top and is positive exactly for core points. */
  ghost predicate LabelsUpTo(tris: seq<Triangle>, minPts: int, clusters: seq<(int, int)>, top: int) {
    forall e :: e in clusters ==> 0 <= e.1 <= top && (e.1 > 0 <==> IsCore(tris, minPts, e.0))
  }

  // ---------------------------------------------------------------- density-connected components

  /** A walk along triangle edges that passes through core points only. */
  ghost predicate CorePath(tris: seq<Triangle>, minPts: int, chain: seq<int>) {
    && |chain| > 0
    && (forall i :: 0 <= i < |chain| ==> IsCore(tris, minPts, chain[i]))
    && (forall i :: 0 <= i < |chain| - 1 ==> Adjacent(tris, chain[i], chain[i + 1]))
  }

  /** p and q are core points in one component of the core points of the triangle graph. */
  ghost predicate Joined(tris: seq<Triangle>, minPts: int, p: int, q: int) {
    exists chain :: CorePath(tris, minPts, chain) && chain[0] == p && chain[|chain| - 1] == q
  }

  /** A core point is joined to itself. */
  lemma JoinedSelf(tris: seq<Triangle>, minPts: int, p: int)
    requires IsCore(tris, minPts, p)
    ensures Joined(tris, minPts, p, p)
  {
    assert CorePath(tris, minPts, [p]);
  }

  /** A walk to q extends along an edge to a core neighbour r of q. */
  lemma JoinedStep(tris: seq<Triangle>, minPts: int, p: int, q: int, r: int)
    requires Joined(tris, minPts, p, q) && Adjacent(tris, q, r) && IsCore(tris, minPts, r)
    ensures Joined(tris, minPts, p, r)
  {
    var chain :| CorePath(tris, minPts, chain) && chain[0] == p && chain[|chain| - 1] == q;
    var longer := chain + [r];
    assert CorePath(tris, minPts, longer) by {
      forall i | 0 <= i < |longer|
        ensures IsCore(tris, minPts, longer[i])
      {
        if i < |chain| {
          assert longer[i] == chain[i];
        }
      }
      forall i | 0 <= i < |longer| - 1
        ensures Adjacent(tris, longer[i], longer[i + 1])
      {
        if i < |chain| - 1 {
          assert longer[i] == chain[i] && longer[i + 1] == chain[i + 1];
        }
      }
    }
  }

  /** The walk taken from its last point back to its first. */
  function Backwards(chain: seq<int>): (r: seq<int>)
    ensures |r| == |chain| && forall i :: 0 <= i < |chain| ==> r[i] == chain[|chain| - 1 - i]
  {
    seq(|chain|, i requires 0 <= i < |chain| => chain[|chain| - 1 - i])
  }

  /** Edges have no direction, so a walk through core points can be taken backwards. */
  lemma BackwardsCorePath(tris: seq<Triangle>, minPts: int, chain: seq<int>)
    requires CorePath(tris, minPts, chain)
    ensures CorePath(tris, minPts, Backwards(chain))
  {
    var back, n := Backwards(chain), |chain|;
    forall i | 0 <= i < n
      ensures IsCore(tris, minPts, back[i])
    {
      assert back[i] == chain[n - 1 - i];
    }
    forall i | 0 <= i < n - 1
      ensures Adjacent(tris, back[i], back[i + 1])
    {
      assert Adjacent(tris, chain[n - 2 - i], chain[n - 1 - i]);
    }
  }

  /** Walks can be taken backwards. */
  lemma JoinedSymmetric(tris: seq<Triangle>, minPts: int, p: int, q: int)
    requires Joined(tris, minPts, p, q)
    ensures Joined(tris, minPts, q, p)
  {
    var chain :| CorePath(tris, minPts, chain) && chain[0] == p && chain[|chain| - 1] == q;
    BackwardsCorePath(tris, minPts, chain);
    var back := Backwards(chain);
    assert back[0] == q && back[|back| - 1] == p;
  }

  /** Two walks that meet at q join into one. */
  lemma JoinedTransitive(tris: seq<Triangle>, minPts: int, p: int, q: int, r: int)
    requires Joined(tris, minPts, p, q) && Joined(tris, minPts, q, r)
    ensures Joined(tris, minPts, p, r)
  {
    var a :| CorePath(tris, minPts, a) && a[0] == p && a[|a| - 1] == q;
    var b :| CorePath(tris, minPts, b) && b[0] == q && b[|b| - 1] == r;
    var ab := a + b[1..];
    assert CorePath(tris, minPts, ab) by {
      forall i | 0 <= i < |ab|
        ensures IsCore(tris, minPts, ab[i])
      {
        if i >= |a| {
          assert ab[i] == b[i - |a| + 1];
        }
      }
      forall i | 0 <= i < |ab| - 1
        ensures Adjacent(tris, ab[i], ab[i + 1])
      {
        if i < |a| - 1 {
          assert ab[i] == a[i] && ab[i + 1] == a[i + 1];
        } else if i == |a| - 1 {
          assert ab[i] == b[0] && ab[i + 1] == b[1];
        } else {
          assert ab[i] == b[i - |a| + 1] && ab[i + 1] == b[i - |a| + 2];
        }
      }
    }
    assert ab[|ab| - 1] == r by {
      if |b| == 1 {
        assert ab == a;
      }
    }
  }

  /** Every point on the stack of cluster c is its start, or a neighbour of a point labelled c. */
  ghost predicate StackReach(tris: seq<Triangle>, clusters: seq<(int, int)>, stack: seq<int>, c: int, start: int) {
    forall x :: x in stack ==> x == start || exists e :: e in clusters && e.1 == c && Adjacent(tris, e.0, x)
  }

  /** Every point labelled c is joined to the start of cluster c. */
  ghost predicate GrownFrom(tris: seq<Triangle>, minPts: int, clusters: seq<(int, int)>, c: int, start: int) {
    forall e :: e in clusters && e.1 == c ==> Joined(tris, minPts, start, e.0)
  }

  /** Two points with the same positive label are joined. */
  ghost predicate Separated(tris: seq<Triangle>, minPts: int, clusters: seq<(int, int)>) {
    forall e, f :: e in clusters && f in clusters && e.1 > 0 && e.1 == f.1 ==> Joined(tris, minPts, e.0, f.0)
  }

  /** Popping curr keeps the stack and the points labelled c reachable from the start. */
  lemma ReachStep(tris: seq<Triangle>, minPts: int, clusters: seq<(int, int)>, stack: seq<int>,
                  unvisited: seq<int>, c: int, start: int, curr: int)
    requires c >= 1 && curr in stack
    requires StackReach(tris, clusters, stack, c, start) && GrownFrom(tris, minPts, clusters, c, start)
    ensures var mark := if IsCore(tris, minPts, curr) then c else 0;
            && StackReach(tris, clusters + [(curr, mark)], NextStack(tris, minPts, stack, unvisited, curr), c, start)
            && GrownFrom(tris, minPts, clusters + [(curr, mark)], c, start)
  {
    var mark := if IsCore(tris, minPts, curr) then c else 0;
    var clusters' := clusters + [(curr, mark)];
    if IsCore(tris, minPts, curr) {
      if curr == start {
        JoinedSelf(tris, minPts, start);
      } else {
        var e :| e in clusters && e.1 == c && Adjacent(tris, e.0, curr);
        JoinedStep(tris, minPts, start, e.0, curr);
      }
    }
    var stack' := NextStack(tris, minPts, stack, unvisited, curr);
    forall x | x in stack'
      ensures x == start || exists e :: e in clusters' && e.1 == c && Adjacent(tris, e.0, x)
    {
      if x !in Without(stack, curr) {
        assert (curr, mark) in clusters' && Adjacent(tris, curr, x);
      } else if x != start {
        var e :| e in clusters && e.1 == c && Adjacent(tris, e.0, x);
        assert e in clusters';
      }
    }
  }

  /**
   * After cluster c is grown from start on top of clusters0, two points with the same
   * positive label are still joined.
   */
  lemma SeparatedStep(tris: seq<Triangle>, minPts: int, clusters0: seq<(int, int)>, clusters: seq<(int, int)>,
                      c: int, start: int)
    requires Separated(tris, minPts, clusters0) && clusters0 <= clusters
    requires forall e :: e in clusters0 ==> e.1 < c
    requires forall i :: |clusters0| <= i < |clusters| ==> clusters[i].1 == c || clusters[i].1 == 0
    requires GrownFrom(tris, minPts, clusters, c, start)
    ensures Separated(tris, minPts, clusters)
  {
    forall e, f | e in clusters && f in clusters && e.1 > 0 && e.1 == f.1
      ensures Joined(tris, minPts, e.0, f.0)
    {
      if e.1 == c {
        JoinedSymmetric(tris, minPts, start, e.0);
        JoinedTransitive(tris, minPts, e.0, start, f.0);
      } else {
        var i :| 0 <= i < |clusters| && clusters[i] == e;
        var j :| 0 <= j < |clusters| && clusters[j] == f;
        assert clusters0[i] == e && clusters0[j] == f;
      }
    }
  }

  /** The stack after popping curr, pushing its unvisited neighbours when it is a core point. */
  function NextStack(tris: seq<Triangle>, minPts: int, stack: seq<int>, unvisited: seq<int>, curr: int): seq<int>
  {
    var (isCore, neighbors) := CheckPoint(minPts, curr, tris);
    Without(stack, curr) + (if isCore then Keeping(neighbors, unvisited) else [])
  }

  /** Popping curr from the stack and recording it with its label keeps the bookkeeping. */
  lemma PopStep(n: nat, tris: seq<Triangle>, minPts: int, clusters: seq<(int, int)>, stack: seq<int>,
                unvisited: seq<int>, c: int, curr: int)
    requires Split(n, clusters, unvisited) && LabelsUpTo(tris, minPts, clusters, c)
    requires Expanded(tris, clusters, stack, unvisited, c)
    requires c >= 1 && curr in stack && forall x :: x in stack ==> x in unvisited
    ensures var mark := if IsCore(tris, minPts, curr) then c else 0;
            var unvisited' := RemoveFirst(unvisited, curr);
            var stack' := NextStack(tris, minPts, stack, unvisited, curr);
            && Split(n, clusters + [(curr, mark)], unvisited')
            && LabelsUpTo(tris, minPts, clusters + [(curr, mark)], c)
            && Expanded(tris, clusters + [(curr, mark)], stack', unvisited', c)
            && forall x :: x in stack' ==> x in unvisited'
  {
    var mark := if IsCore(tris, minPts, curr) then c else 0;
    var unvisited' := RemoveFirst(unvisited, curr);
    PopSplit(n, clusters, unvisited, curr, mark);
    var stack' := NextStack(tris, minPts, stack, unvisited, curr);
    ExpandStep(tris, clusters, stack, unvisited, c, curr, mark, stack', unvisited');
  }

  /** Moving curr from `unvisited` to a new entry of `clusters` keeps the split of 0..n-1. */
  lemma PopSplit(n: nat, clusters: seq<(int, int)>, unvisited: seq<int>, curr: int, mark: int)
    requires Split(n, clusters, unvisited) && curr in unvisited
    ensures Split(n, clusters + [(curr, mark)], RemoveFirst(unvisited, curr))
    ensures curr !in Ids(clusters)
    ensures forall q :: q in RemoveFirst(unvisited, curr) <==> q in unvisited && q != curr
  {
    RemoveFirstNoDup(unvisited, curr);
    assert Ids(clusters + [(curr, mark)]) == Ids(clusters) + [curr];
    NoDupAppend(Ids(clusters), [curr]);
  }

  /**
   * The inner loop: grow cluster c from `start`, popping points from the stack until it is
   * empty; every popped point is recorded with c if it is a core point and 0 otherwise.
   */
  method ExpandCluster(n: nat, tris: seq<Triangle>, minPts: int, clusters0: seq<(int, int)>, unvisited0: seq<int>,
                       c: int, start: int)
    returns (clusters: seq<(int, int)>, unvisited: seq<int>)
    requires c >= 1 && start in unvisited0
    requires Split(n, clusters0, unvisited0) && LabelsUpTo(tris, minPts, clusters0, c - 1)
    requires Expanded(tris, clusters0, [], unvisited0, c)
    ensures Split(n, clusters, unvisited) && LabelsUpTo(tris, minPts, clusters, c)
    ensures Expanded(tris, clusters, [], unvisited, c)
    ensures |unvisited| < |unvisited0|
    ensures clusters0 <= clusters
    ensures forall i :: |clusters0| <= i < |clusters| ==> clusters[i].1 == c || clusters[i].1 == 0
    ensures forall e :: e in clusters && e.1 == c ==> Joined(tris, minPts, start, e.0)
  {
    clusters, unvisited := clusters0, unvisited0;
    var stack := [start];
    while |stack| != 0
      invariant forall x :: x in stack ==> x in unvisited
      invariant |unvisited| <= |unvisited0| && (stack == [] ==> |unvisited| < |unvisited0|)
      invariant Split(n, clusters, unvisited)
      invariant LabelsUpTo(tris, minPts, clusters, c)
      invariant Expanded(tris, clusters, stack, unvisited, c)
      invariant clusters0 <= clusters
      invariant forall i :: |clusters0| <= i < |clusters| ==> clusters[i].1 == c || clusters[i].1 == 0
      invariant StackReach(tris, clusters, stack, c, start) && GrownFrom(tris, minPts, clusters, c, start)
      decreases |unvisited|
    {
      var at :| 0 <= at < |stack|;
      var curr := stack[at];
      var (isCore, neighbors) := CheckPoint(minPts, curr, tris);
      PopStep(n, tris, minPts, clusters, stack, unvisited, c, curr);
      ReachStep(tris, minPts, clusters, stack, unvisited, c, start, curr);
      var mark := if isCore then c else 0;
      clusters := clusters + [(curr, mark)];
      stack := NextStack(tris, minPts, stack, unvisited, curr);
      unvisited := RemoveFirst(unvisited, curr);
    }
  }

  /** With an empty stack the expansion invariant does not depend on the cluster being grown. */
  lemma NextCluster(tris: seq<Triangle>, clusters: seq<(int, int)>, unvisited: seq<int>, c: int)
    requires Expanded(tris, clusters, [], unvisited, c)
    ensures Expanded(tris, clusters, [], unvisited, c + 1)
  {
    forall e, q | e in clusters && e.1 > 0 && Adjacent(tris, e.0, q)
      ensures (q in [] && e.1 == c + 1) || (q !in unvisited && LabelledWith(clusters, q, e.1))
    {
      assert q !in [];
      assert (q in [] && e.1 == c) || (q !in unvisited && LabelledWith(clusters, q, e.1));
    }
  }

  /** At the start every point 0..n-1 is unvisited and nothing is recorded. */
  lemma NothingVisited(n: nat, tris: seq<Triangle>, minPts: int, unvisited: seq<int>)
    requires unvisited == seq(n, i => i)
    ensures Split(n, [], unvisited) && LabelsUpTo(tris, minPts, [], 0)
    ensures Expanded(tris, [], [], unvisited, 1)
  {
    forall x | 0 <= x < n
      ensures x in unvisited
    {
      assert unvisited[x] == x;
    }
  }

  /** When no point is left unvisited, the bookkeeping gives the properties of the clustering. */
  lemma AllVisited(n: nat, tris: seq<Triangle>, minPts: int, clusters: seq<(int, int)>, unvisited: seq<int>, c: int)
    requires |unvisited| == 0
    requires Split(n, clusters, unvisited) && LabelsUpTo(tris, minPts, clusters, c - 1)
    requires Expanded(tris, clusters, [], unvisited, c)
    ensures |clusters| == n
    ensures NoDup(Ids(clusters))
    ensures forall i :: i in Ids(clusters) <==> 0 <= i < n
    ensures forall e :: e in clusters ==> 0 <= e.1 < c
    ensures forall e :: e in clusters ==> (e.1 > 0 <==> IsCore(tris, minPts, e.0))
    ensures forall e, f :: e in clusters && f in clusters && e.1 > 0 && f.1 > 0 && Adjacent(tris, e.0, f.0) ==>
              e.1 == f.1
  {
    forall e, f | e in clusters && f in clusters && e.1 > 0 && f.1 > 0 && Adjacent(tris, e.0, f.0)
      ensures e.1 == f.1
    {
      assert LabelledWith(clusters, f.0, e.1);
    }
  }

  /**
   * The clustering loop: pick a random unvisited point, grow a cluster from it through core
   * points with a set as work stack, and label every popped point with the current cluster
   * number if it is a core point, or 0 (noise) otherwise; the number goes up after every
   * pick, even when the pick found only noise.
   */
  method TriDbscan(n: nat, tris: seq<Triangle>, minPts: int) returns (clusters: seq<(int, int)>, c: int)
    ensures c >= 1
    ensures c <= n + 1
    ensures n > 0 ==> c >= 2
    ensures |clusters| == n
    ensures NoDup(Ids(clusters))
    ensures forall i :: i in Ids(clusters) <==> 0 <= i < n
    ensures forall e :: e in clusters ==> 0 <= e.1 < c
    ensures forall e :: e in clusters ==> (e.1 > 0 <==> IsCore(tris, minPts, e.0))
    ensures forall e, f :: e in clusters && f in clusters && e.1 > 0 && f.1 > 0 && Adjacent(tris, e.0, f.0) ==>
              e.1 == f.1
    ensures forall e, f :: e in clusters && f in clusters && e.1 > 0 && e.1 == f.1 ==> Joined(tris, minPts, e.0, f.0)
  {
    c := 1;
    var unvisited: seq<int> := seq(n, i => i);
    clusters := [];
    NothingVisited(n, tris, minPts, unvisited);
    while |unvisited| != 0
      invariant c >= 1
      invariant c - 1 + |unvisited| <= n
      invariant c == 1 ==> |unvisited| == n
      invariant Split(n, clusters, unvisited)
      invariant LabelsUpTo(tris, minPts, clusters, c - 1)
      invariant Expanded(tris, clusters, [], unvisited, c)
      invariant Separated(tris, minPts, clusters)
      decreases |unvisited|
    {
      var pick :| 0 <= pick < |unvisited|;
      var start, before := unvisited[pick], clusters;
      assert forall e :: e in before ==> e.1 < c;
      clusters, unvisited := ExpandCluster(n, tris, minPts, clusters, unvisited, c, start);
      SeparatedStep(tris, minPts, before, clusters, c, start);
      NextCluster(tris, clusters, unvisited, c);
      c := c + 1;
    }
    AllVisited(n, tris, minPts, clusters, unvisited, c);
  }

  /** A vertex adjacent to a point of a valid triangulation is a position of the point set. */
  lemma AdjacentInRange(tris: seq<Triangle>, n: int, p: int, q: int)
    requires ValidTriangles(tris, n) && Adjacent(tris, p, q)
    ensures 0 <= q < n
  {
    var t :| t in tris && t.Has(p) && t.Has(q);
    var i :| 0 <= i < |tris| && tris[i] == t;
  }

  /** Along a walk through core points, every point carries the label of the first one. */
  lemma {:induction false} LabelAlongChain(n: nat, tris: seq<Triangle>, minPts: int, clusters: seq<(int, int)>,
                                           chain: seq<int>, L: int, k: int)
    requires ValidTriangles(tris, n)
    requires forall i :: i in Ids(clusters) <==> 0 <= i < n
    requires forall e :: e in clusters ==> (e.1 > 0 <==> IsCore(tris, minPts, e.0))
    requires forall e, f :: e in clusters && f in clusters && e.1 > 0 && f.1 > 0 && Adjacent(tris, e.0, f.0) ==>
               e.1 == f.1
    requires CorePath(tris, minPts, chain) && (chain[0], L) in clusters && 0 <= k < |chain|
    ensures (chain[k], L) in clusters
    decreases k
  {
    if k > 0 {
      LabelAlongChain(n, tris, minPts, clusters, chain, L, k - 1);
      LabelStep(n, tris, minPts, clusters, chain[k - 1], chain[k], L);
    }
  }

  /** A label on a core point passes along an edge to a core neighbour. */
  lemma LabelStep(n: nat, tris: seq<Triangle>, minPts: int, clusters: seq<(int, int)>, p: int, q: int, L: int)
    requires ValidTriangles(tris, n)
    requires forall i :: i in Ids(clusters) <==> 0 <= i < n
    requires forall e :: e in clusters ==> (e.1 > 0 <==> IsCore(tris, minPts, e.0))
    requires forall e, f :: e in clusters && f in clusters && e.1 > 0 && f.1 > 0 && Adjacent(tris, e.0, f.0) ==>
               e.1 == f.1
    requires (p, L) in clusters && IsCore(tris, minPts, p) && IsCore(tris, minPts, q) && Adjacent(tris, p, q)
    ensures (q, L) in clusters
  {
    AdjacentInRange(tris, n, p, q);
    assert q in Ids(clusters);
    var j :| 0 <= j < |clusters| && Ids(clusters)[j] == q;
    var h := clusters[j];
    assert h in clusters && h.0 == q;
    assert h.1 == L;
  }

  /**
   * The clustering's labels are the components of the core points: two clustered points
   * carry the same label exactly when a walk through core points joins them.
   */
  lemma LabelsAreComponents(n: nat, tris: seq<Triangle>, minPts: int, clusters: seq<(int, int)>)
    requires ValidTriangles(tris, n)
    requires NoDup(Ids(clusters)) && forall i :: i in Ids(clusters) <==> 0 <= i < n
    requires forall e :: e in clusters ==> (e.1 > 0 <==> IsCore(tris, minPts, e.0))
    requires forall e, f :: e in clusters && f in clusters && e.1 > 0 && f.1 > 0 && Adjacent(tris, e.0, f.0) ==>
               e.1 == f.1
    requires Separated(tris, minPts, clusters)
    ensures forall e, f :: e in clusters && f in clusters && e.1 > 0 && f.1 > 0 ==>
              (e.1 == f.1 <==> Joined(tris, minPts, e.0, f.0))
  {
    forall e, f | e in clusters && f in clusters && e.1 > 0 && f.1 > 0 && Joined(tris, minPts, e.0, f.0)
      ensures e.1 == f.1
    {
      JoinedSameLabel(n, tris, minPts, clusters, e, f);
    }
  }

  /** Each point appears once in the clustering, so it carries one label. */
  lemma OneEntryPerPoint(clusters: seq<(int, int)>, g: (int, int), h: (int, int))
    requires NoDup(Ids(clusters)) && g in clusters && h in clusters && g.0 == h.0
    ensures g == h
  {
    var a :| 0 <= a < |clusters| && clusters[a] == g;
    var b :| 0 <= b < |clusters| && clusters[b] == h;
    assert Ids(clusters)[a] == Ids(clusters)[b];
  }

  /** The label of the first point travels along a walk to the last one. */
  lemma JoinedSameLabel(n: nat, tris: seq<Triangle>, minPts: int, clusters: seq<(int, int)>, e: (int, int), f: (int, int))
    requires ValidTriangles(tris, n)
    requires NoDup(Ids(clusters)) && forall i :: i in Ids(clusters) <==> 0 <= i < n
    requires forall e :: e in clusters ==> (e.1 > 0 <==> IsCore(tris, minPts, e.0))
    requires forall e, f :: e in clusters && f in clusters && e.1 > 0 && f.1 > 0 && Adjacent(tris, e.0, f.0) ==>
               e.1 == f.1
    requires e in clusters && f in clusters && Joined(tris, minPts, e.0, f.0)
    ensures e.1 == f.1
  {
    var chain :| CorePath(tris, minPts, chain) && chain[0] == e.0 && chain[|chain| - 1] == f.0;
    LabelAlongChain(n, tris, minPts, clusters, chain, e.1, |chain| - 1);
    OneEntryPerPoint(clusters, f, (f.0, e.1));
  }

  /**
   * The est_clust column after the left merge of the labels on `index`: row i gets the label
   * recorded for point i.
   */
  function JoinLabels(n: nat, clusters: seq<(int, int)>): (col: seq<int>)
    requires forall i :: 0 <= i < n ==> i in Ids(clusters)
    ensures |col| == n
    ensures forall i :: 0 <= i < n ==> (i, col[i]) in clusters
  {
    seq(n, i requires 0 <= i < n => clusters[IndexOf(Ids(clusters), i)].1)
  }
}
