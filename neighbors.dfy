/**
 * The neighbour graph of a triangulation (find_neighbors and check_point in dtc.py).
 * Adjacency is always derived from the triangle list that is passed in; nothing is cached.
 */
module NeighborGraph {
  import opened Seqs

  /** One simplex of the triangulation: three point positions, in the order it lists them. */
  datatype Triangle = Triangle(a: int, b: int, c: int) {
    /** p is one of the three vertices (`pindex in simplex`). */
    predicate Has(p: int) {
      p == a || p == b || p == c
    }
  }

  /** Every vertex of every triangle is a position of a point set with n points. */
  predicate ValidTriangles(tris: seq<Triangle>, n: int) {
    forall i :: 0 <= i < |tris| ==>
      0 <= tris[i].a < n && 0 <= tris[i].b < n && 0 <= tris[i].c < n
  }

  /** p and q are distinct vertices of one triangle of tris. */
  ghost predicate Adjacent(tris: seq<Triangle>, p: int, q: int) {
    p != q && exists t :: t in tris && t.Has(p) && t.Has(q)
  }

  /** The vertices of t other than p, in simplex order. */
  function Others(t: Triangle, p: int): (r: seq<int>)
    ensures forall q :: q in r <==> t.Has(q) && q != p
  {
    (if t.a != p then [t.a] else []) + (if t.b != p then [t.b] else []) + (if t.c != p then [t.c] else [])
  }

  /** The `neighbors` list of find_neighbors, extended triangle by triangle, before deduplication. */
  function Collected(p: int, tris: seq<Triangle>): (r: seq<int>)
    ensures forall q :: q in r <==> Adjacent(tris, p, q)
    decreases |tris|
  {
    if tris == [] then []
    else
      var n := |tris| - 1;
      assert tris == tris[..n] + [tris[n]];
      Collected(p, tris[..n]) + (if tris[n].Has(p) then Others(tris[n], p) else [])
  }

  /**
   * find_neighbors(p, tris): the neighbours of p without duplicates, and their number.
   * The list is in order of first appearance; the source's list(set(...)) order is the
   * iteration order of a Python set.
   */
  function FindNeighbors(p: int, tris: seq<Triangle>): (r: (seq<int>, nat))
    ensures NoDup(r.0) && r.1 == |r.0|
    ensures p !in r.0
    ensures forall q :: q in r.0 <==> Adjacent(tris, p, q)
  {
    var ns := Unique(Collected(p, tris));
    (ns, |ns|)
  }

  /** check_point: is p a core point (at least minPts neighbours), and its neighbour list. */
  function CheckPoint(minPts: int, p: int, tris: seq<Triangle>): (r: (bool, seq<int>))
    ensures r.0 <==> |r.1| >= minPts
    ensures NoDup(r.1) && forall q :: q in r.1 <==> Adjacent(tris, p, q)
  {
    var (neighbors, count) := FindNeighbors(p, tris);
    if count >= minPts then (true, neighbors) else (false, neighbors)
  }

  /** A point whose neighbour count in tris reaches minPts. */
  predicate IsCore(tris: seq<Triangle>, minPts: int, p: int) {
    CheckPoint(minPts, p, tris).0
  }

  /** The neighbour relation is symmetric: q is a neighbour of p iff p is one of q. */
  lemma NeighborsSymmetric(tris: seq<Triangle>, p: int, q: int)
    ensures q in FindNeighbors(p, tris).0 <==> p in FindNeighbors(q, tris).0
  {
  }

  /** Neighbours of a point of a valid triangulation are positions of the point set. */
  lemma NeighborsInRange(tris: seq<Triangle>, n: int, p: int)
    requires ValidTriangles(tris, n)
    ensures forall q :: q in FindNeighbors(p, tris).0 ==> 0 <= q < n
  {
    forall q | q in FindNeighbors(p, tris).0
      ensures 0 <= q < n
    {
      var t :| t in tris && t.Has(p) && t.Has(q);
      var i :| 0 <= i < |tris| && tris[i] == t;
    }
  }

  /** Removing triangles can only remove neighbours. */
  lemma NeighborsShrink(tris: seq<Triangle>, sub: seq<Triangle>, p: int)
    requires forall t :: t in sub ==> t in tris
    ensures forall q :: q in FindNeighbors(p, sub).0 ==> q in FindNeighbors(p, tris).0
    ensures FindNeighbors(p, sub).1 <= FindNeighbors(p, tris).1
  {
    var small := FindNeighbors(p, sub).0;
    var big := FindNeighbors(p, tris).0;
    forall q | q in small
      ensures q in big
    {
      var t :| t in sub && t.Has(p) && t.Has(q);
      assert t in tris;
    }
    assert Elements(small) <= Elements(big);
    NoDupCard(small);
    NoDupCard(big);
    assert |Elements(small)| <= |Elements(big)| by {
      SubsetCard(Elements(small), Elements(big));
    }
  }

  lemma SubsetCard(a: set<int>, b: set<int>)
    requires a <= b
    ensures |a| <= |b|
  {
    assert b == a + (b - a);
  }
}
