/**
 * The index bookkeeping of glob_loc_removal in dtc.py. The statistics that decide which
 * triangles, edges and (point, neighbour) pairs are anomalous are floating-point work and
 * come in as flags; what is modelled is how those flags turn into deleted triangles.
 */
module Pruning {
  import opened Seqs
  import opened NeighborGraph

  // ---------------------------------------------------------------- global pass

  /**
   * Triangle k is marked by the global pass: its area is flagged, or some flagged edge e of
   * the flattened edge list (three edges per triangle) belongs to it, that is e / 3 == k.
   */
  ghost predicate GloballyFlagged(areaFlagged: seq<bool>, edgeFlagged: seq<bool>, k: int) {
    (0 <= k < |areaFlagged| && areaFlagged[k])
    || exists e :: 0 <= e < |edgeFlagged| && e / 3 == k && edgeFlagged[e]
  }

  /**
   * The global pass: collect the `deleted` positions (flagged areas, then flagged edges
   * mapped to their triangle) and delete those rows of the simplex list.
   */
  method GlobalRemoval(tris: seq<Triangle>, areaFlagged: seq<bool>, edgeFlagged: seq<bool>)
    returns (deleted: seq<int>, kept: seq<Triangle>)
    requires |areaFlagged| == |tris| && |edgeFlagged| == 3 * |tris|
    ensures forall k :: k in deleted <==> GloballyFlagged(areaFlagged, edgeFlagged, k)
    ensures forall k :: k in deleted ==> 0 <= k < |tris|
    ensures kept == DropPositions(tris, Elements(deleted))
    ensures |kept| <= |tris|
    ensures forall k :: 0 <= k < |tris| && !GloballyFlagged(areaFlagged, edgeFlagged, k) ==>
              Rank(Elements(deleted), k) < |kept| && kept[Rank(Elements(deleted), k)] == tris[k]
  {
    deleted := [];
    var i := 0;
    while i < |areaFlagged|
      invariant 0 <= i <= |areaFlagged|
      invariant forall k :: k in deleted <==> 0 <= k < i && areaFlagged[k]
    {
      if areaFlagged[i] {
        deleted := deleted + [i];
      }
      i := i + 1;
    }
    i := 0;
    while i < |edgeFlagged|
      invariant 0 <= i <= |edgeFlagged|
      invariant forall k :: k in deleted ==> 0 <= k < |tris|
      invariant forall k :: k in deleted <==>
        (0 <= k < |areaFlagged| && areaFlagged[k])
        || exists e :: 0 <= e < i && e / 3 == k && edgeFlagged[e]
    {
      if edgeFlagged[i] {
        deleted := deleted + [i / 3];
      }
      i := i + 1;
    }
    kept := DropPositions(tris, Elements(deleted));
    forall k | 0 <= k < |tris| && !GloballyFlagged(areaFlagged, edgeFlagged, k)
      ensures Rank(Elements(deleted), k) < |kept| && kept[Rank(Elements(deleted), k)] == tris[k]
    {
      DropPositionsAt(tris, Elements(deleted), k);
    }
  }

  /** Every triangle the global pass keeps is an input triangle that was not marked. */
  lemma GlobalKeepsOnlyUnflagged(tris: seq<Triangle>, areaFlagged: seq<bool>, edgeFlagged: seq<bool>,
                                 deleted: seq<int>, t: Triangle)
    requires |areaFlagged| == |tris| && |edgeFlagged| == 3 * |tris|
    requires forall k :: k in deleted <==> GloballyFlagged(areaFlagged, edgeFlagged, k)
    requires t in DropPositions(tris, Elements(deleted))
    ensures exists k :: 0 <= k < |tris| && tris[k] == t && !GloballyFlagged(areaFlagged, edgeFlagged, k)
  {
    DropPositionsMember(tris, Elements(deleted), t);
  }

  // ---------------------------------------------------------------- local pass

  /** Triangle t has both ends of the flagged (point, neighbour) pair pr. */
  predicate HasPair(t: Triangle, pr: (int, int)) {
    t.Has(pr.0) && t.Has(pr.1)
  }

  /** t has both ends of some flagged pair. */
  ghost predicate HasFlaggedPair(t: Triangle, pairs: seq<(int, int)>) {
    exists pr :: pr in pairs && HasPair(t, pr)
  }

  /** The triangles of tris, in order, that have both ends of pr. */
  function WithPair(pr: (int, int), tris: seq<Triangle>): (r: seq<Triangle>)
    ensures forall t :: t in r ==> HasPair(t, pr)
    ensures forall t :: HasPair(t, pr) ==> multiset(r)[t] == multiset(tris)[t]
    decreases |tris|
  {
    if tris == [] then []
    else
      var n := |tris| - 1;
      assert tris == tris[..n] + [tris[n]];
      WithPair(pr, tris[..n]) + (if HasPair(tris[n], pr) then [tris[n]] else [])
  }

  /**
   * The `delete` list of the local pass: for each flagged pair in order, every triangle that
   * has both of its ends (a triangle matching several pairs is listed once per pair).
   */
  function Matching(pairs: seq<(int, int)>, tris: seq<Triangle>): (r: seq<Triangle>)
    ensures forall t :: t in r ==> HasFlaggedPair(t, pairs)
    decreases |pairs|
  {
    if pairs == [] then []
    else
      var n := |pairs| - 1;
      assert pairs == pairs[..n] + [pairs[n]];
      Matching(pairs[..n], tris) + WithPair(pairs[n], tris)
  }

  /** A triangle with a flagged pair is listed in `delete` at least as often as in tris. */
  lemma {:induction false} MatchingCoversFlagged(pairs: seq<(int, int)>, tris: seq<Triangle>, t: Triangle)
    requires HasFlaggedPair(t, pairs)
    ensures multiset(Matching(pairs, tris))[t] >= multiset(tris)[t]
    decreases |pairs|
  {
    var n := |pairs| - 1;
    if HasPair(t, pairs[n]) {
      assert multiset(WithPair(pairs[n], tris))[t] == multiset(tris)[t];
    } else {
      var pr :| pr in pairs && HasPair(t, pr);
      assert pairs == pairs[..n] + [pairs[n]];
      assert pr in pairs[..n];
      MatchingCoversFlagged(pairs[..n], tris, t);
    }
  }

  /** One more triangle scanned for pr. */
  lemma WithPairStep(pr: (int, int), tris: seq<Triangle>, j: int)
    requires 0 <= j < |tris|
    ensures WithPair(pr, tris[..j + 1]) == WithPair(pr, tris[..j]) + (if HasPair(tris[j], pr) then [tris[j]] else [])
  {
    assert tris[..j + 1][..j] == tris[..j];
  }

  /** One more flagged pair processed. */
  lemma MatchingStep(pairs: seq<(int, int)>, tris: seq<Triangle>, i: int)
    requires 0 <= i < |pairs|
    ensures Matching(pairs[..i + 1], tris) == Matching(pairs[..i], tris) + WithPair(pairs[i], tris)
  {
    assert pairs[..i + 1][..i] == pairs[..i];
  }

  /** The nested loop that builds `delete` from the flagged pairs and the triangles. */
  method CollectMatching(pairs: seq<(int, int)>, tris: seq<Triangle>) returns (delete: seq<Triangle>)
    ensures delete == Matching(pairs, tris)
  {
    delete := [];
    var i := 0;
    while i < |pairs|
      invariant 0 <= i <= |pairs|
      invariant delete == Matching(pairs[..i], tris)
    {
      var j := 0;
      var row := [];
      while j < |tris|
        invariant 0 <= j <= |tris|
        invariant row == WithPair(pairs[i], tris[..j])
      {
        WithPairStep(pairs[i], tris, j);
        if HasPair(tris[j], pairs[i]) {
          row := row + [tris[j]];
        }
        j := j + 1;
      }
      assert tris[..j] == tris;
      MatchingStep(pairs, tris, i);
      delete := delete + row;
      i := i + 1;
    }
    assert pairs[..i] == pairs;
  }

  /**
   * The positions the paired remove scan drops: position k goes when fewer copies of tris[k]
   * occur before it than `delete` holds (each removal consumes one copy from `delete`).
   */
  function ScanRemoved(tris: seq<Triangle>, del: multiset<Triangle>): set<int> {
    set k | 0 <= k < |tris| && multiset(tris[..k])[tris[k]] < del[tris[k]]
  }

  /** An earlier occurrence of a value is counted in every later prefix. */
  lemma CountGrows(c: seq<Triangle>, j: int, k: int)
    requires 0 <= j < k <= |c|
    ensures multiset(c[..k])[c[j]] >= multiset(c[..j])[c[j]] + 1
  {
    assert c[..k] == c[..j] + [c[j]] + c[j + 1..k];
  }

  /** When the scan drops position k, no earlier copy of tris[k] survived before it. */
  lemma ScanDropsCurrent(c: seq<Triangle>, del: multiset<Triangle>, k: int)
    requires 0 <= k < |c| && k in ScanRemoved(c, del)
    ensures c[k] !in DropPositions(c[..k], ScanRemoved(c, del))
  {
    var R := ScanRemoved(c, del);
    DropPositionsMember(c[..k], R, c[k]);
    forall j | 0 <= j < k && j !in R
      ensures c[..k][j] != c[k]
    {
      if c[j] == c[k] {
        CountGrows(c, j, k);
      }
    }
  }

  /** How many copies of t are still in `delete` after the scan has passed the prefix seen. */
  function Left(del: multiset<Triangle>, seen: seq<Triangle>, t: Triangle): nat {
    if del[t] > multiset(seen)[t] then del[t] - multiset(seen)[t] else 0
  }

  /** The bookkeeping of `b` across one step of the scan. */
  lemma ScanStepLeft(b: seq<Triangle>, b0: multiset<Triangle>, seen: seq<Triangle>, t: Triangle)
    requires forall u :: multiset(b)[u] == Left(b0, seen, u)
    ensures t in b ==> forall u :: multiset(RemoveFirst(b, t))[u] == Left(b0, seen + [t], u)
    ensures t !in b ==> forall u :: multiset(b)[u] == Left(b0, seen + [t], u)
  {
    assert multiset(seen + [t]) == multiset(seen) + multiset{t};
  }

  /** Position k of the scan: the next survivor list, depending on whether b still holds a copy. */
  lemma ScanStepKept(copy: seq<Triangle>, b0: multiset<Triangle>, k: int, inB: bool)
    requires 0 <= k < |copy|
    requires inB <==> b0[copy[k]] > multiset(copy[..k])[copy[k]]
    ensures inB ==> copy[k] in DropPositions(copy[..k], ScanRemoved(copy, b0)) + copy[k..]
    ensures (if inB then RemoveFirst(DropPositions(copy[..k], ScanRemoved(copy, b0)) + copy[k..], copy[k])
             else DropPositions(copy[..k], ScanRemoved(copy, b0)) + copy[k..])
            == DropPositions(copy[..k + 1], ScanRemoved(copy, b0)) + copy[k + 1..]
  {
    var R := ScanRemoved(copy, b0);
    var kept := DropPositions(copy[..k], R);
    var rest := copy[k + 1..];
    assert copy[k..] == [copy[k]] + rest;
    if inB {
      assert k in R;
      assert DropPositions(copy[..k + 1], R) == kept by {
        DropPositionsStep(copy, R, k);
      }
      assert copy[k] !in kept by {
        ScanDropsCurrent(copy, b0, k);
      }
      assert kept + copy[k..] == kept + [copy[k]] + rest;
      RemoveFirstAfter(kept, copy[k], rest);
    } else {
      assert k !in R;
      assert DropPositions(copy[..k + 1], R) == kept + [copy[k]] by {
        DropPositionsStep(copy, R, k);
      }
      assert kept + copy[k..] == kept + [copy[k]] + rest;
    }
  }

  /** The state of the paired scan once it has passed the first k positions of copy. */
  ghost predicate ScanState(copy: seq<Triangle>, b0: multiset<Triangle>, k: int, a: seq<Triangle>, b: seq<Triangle>) {
    0 <= k <= |copy| &&
    a == DropPositions(copy[..k], ScanRemoved(copy, b0)) + copy[k..] &&
    forall u :: multiset(b)[u] == Left(b0, copy[..k], u)
  }

  /** One step of the scan keeps its state: remove copy[k] from both lists when b still holds it. */
  lemma ScanStep(copy: seq<Triangle>, b0: multiset<Triangle>, k: int, a: seq<Triangle>, b: seq<Triangle>)
    requires k < |copy| && ScanState(copy, b0, k, a, b)
    ensures copy[k] in b ==> copy[k] in a && ScanState(copy, b0, k + 1, RemoveFirst(a, copy[k]), RemoveFirst(b, copy[k]))
    ensures copy[k] !in b ==> ScanState(copy, b0, k + 1, a, b)
  {
    var t := copy[k];
    assert copy[..k + 1] == copy[..k] + [t];
    ScanStepLeft(b, b0, copy[..k], t);
    assert multiset(b)[t] == Left(b0, copy[..k], t);
    assert t in b <==> multiset(b)[t] > 0;
    ScanStepKept(copy, b0, k, t in b);
  }

  /**
   * The paired scan `for i in a[:]: if i in b: a.remove(i); b.remove(i)` over the list a of
   * triangles and the list b of triangles to delete.
   */
  method RemoveScan(a0: seq<Triangle>, b0: seq<Triangle>) returns (a: seq<Triangle>)
    ensures a == DropPositions(a0, ScanRemoved(a0, multiset(b0)))
  {
    var copy := a0;
    a := a0;
    var b := b0;
    var k := 0;
    assert copy[..0] == [] && copy[0..] == copy;
    while k < |copy|
      invariant ScanState(copy, multiset(b0), k, a, b)
      decreases |copy| - k
    {
      var t := copy[k];
      ScanStep(copy, multiset(b0), k, a, b);
      if t in b {
        a := RemoveFirst(a, t);
        b := RemoveFirst(b, t);
      }
      k := k + 1;
    }
    assert copy[..k] == a0 && copy[k..] == [];
  }

  /**
   * The scan drops exactly the triangles that have both ends of some flagged pair:
   * the scan's position rule and the geometric rule pick the same positions.
   */
  lemma ScanRemovesFlagged(tris: seq<Triangle>, pairs: seq<(int, int)>)
    ensures ScanRemoved(tris, multiset(Matching(pairs, tris))) ==
            set k | 0 <= k < |tris| && HasFlaggedPair(tris[k], pairs)
  {
    var m := multiset(Matching(pairs, tris));
    forall k | 0 <= k < |tris|
      ensures multiset(tris[..k])[tris[k]] < m[tris[k]] <==> HasFlaggedPair(tris[k], pairs)
    {
      if HasFlaggedPair(tris[k], pairs) {
        MatchingCoversFlagged(pairs, tris, tris[k]);
        CountGrows(tris, k, |tris|);
        assert tris[..|tris|] == tris;
      }
      if multiset(tris[..k])[tris[k]] < m[tris[k]] {
        assert tris[k] in Matching(pairs, tris);
      }
    }
  }

  /**
   * The local pass: build `delete` from the flagged pairs and run the paired remove scan.
   * Survivors keep their order, none has both ends of a flagged pair, every dropped
   * triangle has both ends of one, and the count never grows.
   */
  method LocalRemoval(tris: seq<Triangle>, pairs: seq<(int, int)>) returns (kept: seq<Triangle>)
    ensures kept == DropPositions(tris, set k | 0 <= k < |tris| && HasFlaggedPair(tris[k], pairs))
    ensures |kept| <= |tris|
    ensures forall t :: t in kept ==> t in tris && !HasFlaggedPair(t, pairs)
    ensures forall k :: 0 <= k < |tris| && !HasFlaggedPair(tris[k], pairs) ==> tris[k] in kept
  {
    var delete := CollectMatching(pairs, tris);
    kept := RemoveScan(tris, delete);
    ScanRemovesFlagged(tris, pairs);
    var D := set k | 0 <= k < |tris| && HasFlaggedPair(tris[k], pairs);
    forall t | t in kept
      ensures t in tris && !HasFlaggedPair(t, pairs)
    {
      DropPositionsMember(tris, D, t);
    }
    forall k | 0 <= k < |tris| && !HasFlaggedPair(tris[k], pairs)
      ensures tris[k] in kept
    {
      DropPositionsAt(tris, D, k);
    }
  }

  /**
   * glob_loc_removal: the global pass, then the local pass on what it kept. The pairs are
   * those the local statistics flag on the globally pruned triangles.
   */
  method GlobLocRemoval(tris: seq<Triangle>, areaFlagged: seq<bool>, edgeFlagged: seq<bool>,
                        pairs: seq<(int, int)>) returns (pruned: seq<Triangle>)
    requires |areaFlagged| == |tris| && |edgeFlagged| == 3 * |tris|
    ensures var kept := DropPositions(tris, set k | 0 <= k < |tris| && GloballyFlagged(areaFlagged, edgeFlagged, k));
            pruned == DropPositions(kept, set j | 0 <= j < |kept| && HasFlaggedPair(kept[j], pairs))
    ensures |pruned| <= |tris|
    ensures forall t :: t in pruned ==>
      !HasFlaggedPair(t, pairs)
      && exists k :: 0 <= k < |tris| && tris[k] == t && !GloballyFlagged(areaFlagged, edgeFlagged, k)
    ensures forall k :: 0 <= k < |tris| && !GloballyFlagged(areaFlagged, edgeFlagged, k) && !HasFlaggedPair(tris[k], pairs) ==>
              tris[k] in pruned
  {
    var deleted, kept := GlobalRemoval(tris, areaFlagged, edgeFlagged);
    assert Elements(deleted) == set k | 0 <= k < |tris| && GloballyFlagged(areaFlagged, edgeFlagged, k);
    pruned := LocalRemoval(kept, pairs);
    forall k | 0 <= k < |tris| && !GloballyFlagged(areaFlagged, edgeFlagged, k) && !HasFlaggedPair(tris[k], pairs)
      ensures tris[k] in pruned
    {
      var j := Rank(Elements(deleted), k);
      assert kept[j] == tris[k];
    }
    forall t | t in pruned
      ensures exists k :: 0 <= k < |tris| && tris[k] == t && !GloballyFlagged(areaFlagged, edgeFlagged, k)
    {
      GlobalKeepsOnlyUnflagged(tris, areaFlagged, edgeFlagged, deleted, t);
    }
  }
}
