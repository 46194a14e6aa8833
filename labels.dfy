/**
 * Label post-processing after the flood fill: the 1-nearest-neighbour overwrite of
 * noise labels, the reconciliation of labels across seed-path partitions, and the
 * dense relabelling with pandas.factorize.
 */
module Labels {
  import opened Seqs

  // ---------------------------------------------------------------------------
  // Noise overwrite (dtc.py:307-316 in KDE mode, dtc.py:437-447 in direct mode)
  // ---------------------------------------------------------------------------

  /** The rows selected by the mask `est_clust == 0`, in row order. */
  method NoiseRows(labels: seq<int>) returns (noise: seq<int>)
    ensures forall a :: 0 <= a < |noise| ==> 0 <= noise[a] < |labels| && labels[noise[a]] == 0
    ensures forall a, b :: 0 <= a < b < |noise| ==> noise[a] < noise[b]
    ensures forall j :: 0 <= j < |labels| && labels[j] == 0 ==> j in noise
  {
    noise := [];
    for i := 0 to |labels|
      invariant forall a :: 0 <= a < |noise| ==> 0 <= noise[a] < i && labels[noise[a]] == 0
      invariant forall a, b :: 0 <= a < b < |noise| ==> noise[a] < noise[b]
      invariant forall j :: 0 <= j < i && labels[j] == 0 ==> j in noise
    {
      if labels[i] == 0 {
        noise := noise + [i];
      }
    }
  }

  /** `.loc[rows, 'est_clust'] = values`: the k-th selected row receives the k-th value. */
  method AssignRows(labels: array<int>, rows: seq<int>, values: seq<int>)
    requires |rows| == |values|
    requires forall a :: 0 <= a < |rows| ==> 0 <= rows[a] < labels.Length
    requires forall a, b :: 0 <= a < b < |rows| ==> rows[a] < rows[b]
    modifies labels
    ensures forall a :: 0 <= a < |rows| ==> labels[rows[a]] == values[a]
    ensures forall j :: 0 <= j < labels.Length && j !in rows ==> labels[j] == old(labels[j])
  {
    for k := 0 to |rows|
      invariant forall a :: 0 <= a < k ==> labels[rows[a]] == values[a]
      invariant forall j :: 0 <= j < labels.Length && j !in rows[..k] ==> labels[j] == old(labels[j])
    {
      labels[rows[k]] := values[k];
    }
    assert rows[..|rows|] == rows;
  }

  /**
   * Rows labelled 0 are noise. The 1-NN classifier is fitted on the non-noise rows
   * and predicts a label for every noise row; the predictions are written back into
   * the noise rows in row order. The classifier is the oracle `nearest`: for a noise
   * row it names the labelled row whose label is predicted. Its precondition also
   * rules out the empty training set, on which the classifier fails.
   */
  method ReassignNoise(labels: array<int>, nearest: int -> int)
    requires forall i :: 0 <= i < labels.Length && labels[i] == 0 ==>
      0 <= nearest(i) < labels.Length && labels[nearest(i)] != 0
    modifies labels
    ensures forall i :: 0 <= i < labels.Length && old(labels[i]) != 0 ==> labels[i] == old(labels[i])
    ensures forall i :: 0 <= i < labels.Length && old(labels[i]) == 0 ==> labels[i] == old(labels[nearest(i)])
    ensures forall i :: 0 <= i < labels.Length ==> labels[i] != 0
  {
    var before := labels[..];
    var noise := NoiseRows(before);
    if |noise| != 0 {
      // knn.predict on the noise rows, computed before any label is overwritten
      var predicted := seq(|noise|, a requires 0 <= a < |noise| => before[nearest(noise[a])]);
      AssignRows(labels, noise, predicted);
    }
    forall i | 0 <= i < labels.Length && before[i] == 0
      ensures labels[i] == before[nearest(i)]
    {
      var a :| 0 <= a < |noise| && noise[a] == i;
    }
  }

  // ---------------------------------------------------------------------------
  // Reconciliation across partitions (dtc.py:320-345)
  // ---------------------------------------------------------------------------

  /** max(existing), or 0 when no partition has been labelled yet (dtc.py:325-328). */
  function MaxOr0(s: seq<int>): (m: int)
    ensures forall x :: x in s ==> x <= m
    ensures s == [] ==> m == 0
    ensures s != [] ==> m in s
  {
    if s == [] then 0
    else if |s| == 1 then s[0]
    else
      var m := MaxOr0(s[1..]);
      assert forall x :: x in s ==> x == s[0] || x in s[1..];
      if s[0] > m then s[0] else m
  }

  /** How many values of s are labels that earlier partitions already use. */
  function CountIn(s: seq<int>, existing: seq<int>): (k: nat)
    ensures k <= |s|
  {
    if s == [] then 0
    else CountIn(s[..|s| - 1], existing) + (if s[|s| - 1] in existing then 1 else 0)
  }

  /**
   * The dictionary `cluster_mapping` after the loop has visited `uniques` with the
   * counter starting at `top`: a used label takes the next counter value, any other
   * label keeps its value.
   */
  function Relabel(uniques: seq<int>, existing: seq<int>, top: int): (m: map<int, int>)
    ensures forall u :: u in m <==> u in uniques
  {
    if uniques == [] then map[]
    else
      var n := |uniques| - 1;
      var u := uniques[n];
      assert forall x :: x in uniques <==> x in uniques[..n] || x == u;
      Relabel(uniques[..n], existing, top)[u := if u in existing then top + CountIn(uniques[..n], existing) + 1 else u]
  }

  /** A label that no earlier partition uses keeps its value. */
  lemma {:induction false} RelabelKeeps(uniques: seq<int>, existing: seq<int>, top: int, u: int)
    requires u in uniques && u !in existing
    ensures Relabel(uniques, existing, top)[u] == u
  {
    var n := |uniques| - 1;
    if uniques[n] != u {
      assert uniques == uniques[..n] + [uniques[n]];
      RelabelKeeps(uniques[..n], existing, top, u);
    }
  }

  /** One more step of the loop: the label at position k gets its value, the counter moves if it is used. */
  lemma RelabelStep(uniques: seq<int>, existing: seq<int>, top: int, k: int)
    requires 0 <= k < |uniques|
    ensures CountIn(uniques[..k + 1], existing) == CountIn(uniques[..k], existing) + (if uniques[k] in existing then 1 else 0)
    ensures Relabel(uniques[..k + 1], existing, top) ==
      Relabel(uniques[..k], existing, top)[uniques[k] :=
        if uniques[k] in existing then top + CountIn(uniques[..k], existing) + 1 else uniques[k]]
  {
    assert uniques[..k + 1][..k] == uniques[..k];
  }

  /** A label before the last one keeps the value the shorter walk gave it. */
  lemma RelabelEarlier(uniques: seq<int>, existing: seq<int>, top: int, k: int)
    requires NoDup(uniques) && 0 <= k < |uniques| - 1
    ensures var n := |uniques| - 1;
            Relabel(uniques, existing, top)[uniques[k]] == Relabel(uniques[..n], existing, top)[uniques[k]]
  {
    var n := |uniques| - 1;
    assert uniques[k] != uniques[n];
    assert uniques[..n][k] == uniques[k];
  }

  /** The k-th used label in iteration order (counting from 1) maps to top + k. */
  lemma {:induction false} RelabelFresh(uniques: seq<int>, existing: seq<int>, top: int, k: int)
    requires NoDup(uniques) && 0 <= k < |uniques| && uniques[k] in existing
    ensures Relabel(uniques, existing, top)[uniques[k]] == top + CountIn(uniques[..k + 1], existing)
  {
    var n := |uniques| - 1;
    if k == n {
      RelabelStep(uniques, existing, top, n);
      assert uniques[..n + 1] == uniques;
    } else {
      var p := uniques[..n];
      RelabelEarlier(uniques, existing, top, k);
      assert p[k] == uniques[k] && p[..k + 1] == uniques[..k + 1];
      RelabelFresh(p, existing, top, k);
    }
  }

  /** The count of used labels along longer prefixes never shrinks. */
  lemma {:induction false} CountInMonotone(s: seq<int>, existing: seq<int>, i: int, j: int)
    requires 0 <= i <= j <= |s|
    ensures CountIn(s[..i], existing) <= CountIn(s[..j], existing)
    decreases j
  {
    if i < j {
      assert s[..j][..j - 1] == s[..j - 1];
      CountInMonotone(s, existing, i, j - 1);
    }
  }

  /** A used label at position b counts strictly more used labels up to it than any earlier position a. */
  lemma CountInBefore(s: seq<int>, existing: seq<int>, a: int, b: int)
    requires 0 <= a < b < |s| && s[b] in existing
    ensures CountIn(s[..a + 1], existing) < CountIn(s[..b + 1], existing)
  {
    CountInMonotone(s, existing, a + 1, b);
    CountInStep(s, existing, b + 1);
  }

  /** A used label at the end of a prefix adds one to the count. */
  lemma CountInStep(s: seq<int>, existing: seq<int>, j: int)
    requires 0 < j <= |s| && s[j - 1] in existing
    ensures CountIn(s[..j], existing) == CountIn(s[..j - 1], existing) + 1
  {
    assert s[..j][..j - 1] == s[..j - 1];
  }

  /** Two different used labels receive different fresh values. */
  lemma RelabelApart(uniques: seq<int>, existing: seq<int>, top: int, a: int, b: int)
    requires NoDup(uniques) && 0 <= a < |uniques| && 0 <= b < |uniques| && a != b
    requires uniques[a] in existing && uniques[b] in existing
    ensures Relabel(uniques, existing, top)[uniques[a]] != Relabel(uniques, existing, top)[uniques[b]]
  {
    RelabelFresh(uniques, existing, top, a);
    RelabelFresh(uniques, existing, top, b);
    if a < b {
      CountInBefore(uniques, existing, a, b);
    } else {
      CountInBefore(uniques, existing, b, a);
    }
  }

  /**
   * The label column after `.map(cluster_mapping)`, the loop having visited the
   * distinct labels in order of first appearance.
   */
  function Reconciled(existing: seq<int>, labels: seq<int>, top: int): (r: seq<int>)
    ensures |r| == |labels|
  {
    var m := Relabel(Unique(labels), existing, top);
    seq(|labels|, i requires 0 <= i < |labels| => m[labels[i]])
  }

  /** A label that no earlier partition uses keeps its value in the reconciled column. */
  lemma ReconciledKept(existing: seq<int>, labels: seq<int>, top: int, i: int)
    requires 0 <= i < |labels| && labels[i] !in existing
    ensures Reconciled(existing, labels, top)[i] == labels[i]
  {
    RelabelKeeps(Unique(labels), existing, top, labels[i]);
  }

  /**
   * A used label becomes top + k in the reconciled column, k counting the used labels
   * up to it in order of first appearance.
   */
  lemma ReconciledFresh(existing: seq<int>, labels: seq<int>, top: int, i: int)
    requires 0 <= i < |labels| && labels[i] in existing
    ensures Reconciled(existing, labels, top)[i] ==
      top + CountIn(Unique(labels)[..IndexOf(Unique(labels), labels[i]) + 1], existing)
  {
    var u := Unique(labels);
    RelabelFresh(u, existing, top, IndexOf(u, labels[i]));
  }

  /** So a used label lands in top + 1 .. top + |labels|, above every value top bounds. */
  lemma ReconciledFreshRange(existing: seq<int>, labels: seq<int>, top: int, i: int)
    requires 0 <= i < |labels| && labels[i] in existing
    ensures top < Reconciled(existing, labels, top)[i] <= top + |labels|
  {
    var u := Unique(labels);
    var k := IndexOf(u, labels[i]);
    var c := CountIn(u[..k + 1], existing);
    assert Reconciled(existing, labels, top)[i] == top + c by {
      ReconciledFresh(existing, labels, top, i);
    }
    assert 0 < c by {
      CountInStep(u, existing, k + 1);
    }
    assert c <= k + 1 <= |labels| by {
      assert |u[..k + 1]| == k + 1;
      UniqueNoLonger(labels);
    }
  }

  /** Two different labels that earlier partitions both use receive different fresh values. */
  lemma ReconciledApart(existing: seq<int>, labels: seq<int>, top: int, i: int, j: int)
    requires 0 <= i < |labels| && 0 <= j < |labels|
    requires labels[i] in existing && labels[j] in existing && labels[i] != labels[j]
    ensures Reconciled(existing, labels, top)[i] != Reconciled(existing, labels, top)[j]
  {
    var u := Unique(labels);
    RelabelApart(u, existing, top, IndexOf(u, labels[i]), IndexOf(u, labels[j]));
  }

  /**
   * The reconciliation loop of one partition: walk the distinct labels in order of
   * first appearance, giving a label already used by earlier partitions the next
   * counter value, then map the column through the dictionary.
   */
  method MapLabels(existing: seq<int>, labels: seq<int>, top: int) returns (mapped: seq<int>)
    ensures mapped == Reconciled(existing, labels, top)
  {
    var uniques := Unique(labels);
    var counter := top;
    var mapping: map<int, int> := map[];
    for k := 0 to |uniques|
      invariant counter == top + CountIn(uniques[..k], existing)
      invariant mapping == Relabel(uniques[..k], existing, top)
    {
      var cluster := uniques[k];
      RelabelStep(uniques, existing, top, k);
      if cluster in existing {
        counter := counter + 1;
        mapping := mapping[cluster := counter];
      } else {
        mapping := mapping[cluster := cluster];
      }
    }
    assert uniques[..|uniques|] == uniques;
    mapped := seq(|labels|, i requires 0 <= i < |labels| => mapping[labels[i]]);
  }

  /**
   * The reconciliation as the source writes it: the counter starts at the largest
   * label of earlier partitions. No mapped label is used by an earlier partition,
   * but a label that keeps its value can meet a fresh one (see KeptLabelMeetsFresh).
   */
  method ReconcileAsWritten(existing: seq<int>, labels: seq<int>) returns (mapped: seq<int>)
    ensures mapped == Reconciled(existing, labels, MaxOr0(existing))
    ensures |mapped| == |labels|
    ensures forall i :: 0 <= i < |labels| && labels[i] !in existing ==> mapped[i] == labels[i]
    ensures forall i :: 0 <= i < |labels| ==> mapped[i] !in existing
    ensures forall i, j :: 0 <= i < |labels| && 0 <= j < |labels| && labels[i] == labels[j] ==>
      mapped[i] == mapped[j]
  {
    var top := MaxOr0(existing);
    mapped := MapLabels(existing, labels, top);
    forall i | 0 <= i < |labels|
      ensures labels[i] !in existing ==> mapped[i] == labels[i]
      ensures mapped[i] !in existing
    {
      if labels[i] in existing {
        ReconciledFreshRange(existing, labels, top, i);
      } else {
        ReconciledKept(existing, labels, top, i);
      }
    }
  }

  /**
   * With existing labels {1, 2} and partition labels 1, 2, 3, label 1 is relabelled to 3
   * while label 3 keeps its value: two clusters of the partition merge.
   */
  lemma KeptLabelMeetsFresh()
    ensures Reconciled([1, 2], [1, 2, 3], MaxOr0([1, 2])) == [3, 4, 3]
  {
    assert MaxOr0([1, 2]) == 2 by {
      assert [1, 2][1..] == [2];
    }
    UniqueOfDistinct();
    RelabelOfDistinct();
    var r := Reconciled([1, 2], [1, 2, 3], 2);
    assert r[0] == 3 && r[1] == 4 && r[2] == 3;
  }

  /** The distinct values of [1, 2, 3] in order of first appearance. */
  lemma UniqueOfDistinct()
    ensures Unique([1, 2, 3]) == [1, 2, 3]
  {
    assert [1][..0] == [];
    assert [1, 2][..1] == [1];
    assert [1, 2, 3][..2] == [1, 2];
  }

  /** The dictionary for partition labels 1, 2, 3 against existing labels 1, 2 and counter 2. */
  lemma RelabelOfDistinct()
    ensures Relabel([1, 2, 3], [1, 2], 2) == map[1 := 3, 2 := 4, 3 := 3]
  {
    var existing := [1, 2];
    assert [1][..0] == [];
    assert [1, 2][..1] == [1];
    assert [1, 2, 3][..2] == [1, 2];
    assert CountIn([], existing) == 0;
    assert CountIn([1], existing) == 1;
    assert CountIn([1, 2], existing) == 2;
    assert Relabel([1], existing, 2) == map[1 := 3];
    assert Relabel([1, 2], existing, 2) == map[1 := 3, 2 := 4];
  }

  /**
   * The reconciliation with the counter starting above every label of earlier
   * partitions and of this one: distinct labels of the partition stay distinct, and
   * no mapped label is used by an earlier partition.
   */
  method Reconcile(existing: seq<int>, labels: seq<int>) returns (mapped: seq<int>)
    ensures |mapped| == |labels|
    ensures forall i :: 0 <= i < |labels| && labels[i] !in existing ==> mapped[i] == labels[i]
    ensures forall i :: 0 <= i < |labels| ==> mapped[i] !in existing
    ensures forall i, j :: 0 <= i < |labels| && 0 <= j < |labels| ==>
      (mapped[i] == mapped[j] <==> labels[i] == labels[j])
  {
    var top := MaxOr0(existing + labels);
    assert forall x :: x in existing ==> x in existing + labels;
    assert forall i :: 0 <= i < |labels| ==> labels[i] in existing + labels;
    mapped := MapLabels(existing, labels, top);
    forall i | 0 <= i < |labels|
      ensures labels[i] !in existing ==> mapped[i] == labels[i]
      ensures labels[i] in existing ==> top < mapped[i]
    {
      if labels[i] in existing {
        ReconciledFreshRange(existing, labels, top, i);
      } else {
        ReconciledKept(existing, labels, top, i);
      }
    }
    forall i, j | 0 <= i < |labels| && 0 <= j < |labels| && labels[i] != labels[j]
      ensures mapped[i] != mapped[j]
    {
      if labels[i] in existing && labels[j] in existing {
        ReconciledApart(existing, labels, top, i, j);
      }
    }
  }

  /**
   * The first |out| partitions are reconciled: each keeps its length, keeps every label no
   * earlier output uses, keeps exactly its own label classes, and shares no label with an
   * earlier one; and every label placed so far is in the concatenated column.
   */
  ghost predicate ReconciledSoFar(parts: seq<seq<int>>, out: seq<seq<int>>) {
    && |out| <= |parts|
    && (forall p :: 0 <= p < |out| ==> |out[p]| == |parts[p]|)
    && (forall p, i :: 0 <= p < |out| && 0 <= i < |parts[p]| && parts[p][i] !in Flatten(out[..p]) ==>
          out[p][i] == parts[p][i])
    && (forall p, i, j :: 0 <= p < |out| && 0 <= i < |parts[p]| && 0 <= j < |parts[p]| ==>
          (out[p][i] == out[p][j] <==> parts[p][i] == parts[p][j]))
    && (forall p, q, i, j :: 0 <= p < q < |out| && 0 <= i < |parts[p]| && 0 <= j < |parts[q]| ==>
          out[p][i] != out[q][j])
    && (forall p, i :: 0 <= p < |out| && 0 <= i < |parts[p]| ==> out[p][i] in Flatten(out))
  }

  /** mapped is the next partition reconciled against every label placed so far (the ensures of Reconcile). */
  ghost predicate NextReconciled(parts: seq<seq<int>>, out: seq<seq<int>>, mapped: seq<int>)
    requires |out| < |parts|
  {
    var labels, existing := parts[|out|], Flatten(out);
    && |mapped| == |labels|
    && (forall i :: 0 <= i < |labels| && labels[i] !in existing ==> mapped[i] == labels[i])
    && (forall i :: 0 <= i < |labels| ==> mapped[i] !in existing)
    && (forall i, j :: 0 <= i < |labels| && 0 <= j < |labels| ==> (mapped[i] == mapped[j] <==> labels[i] == labels[j]))
  }

  /** Appending keeps the earlier outputs and their prefixes, and the column grows by mapped. */
  lemma AppendOutput(out: seq<seq<int>>, mapped: seq<int>)
    ensures forall p :: 0 <= p <= |out| ==> (out + [mapped])[..p] == out[..p]
    ensures Flatten(out + [mapped]) == Flatten(out) + mapped
  {
    assert (out + [mapped])[..|out|] == out;
  }

  /** The appended partition keeps its length, its free labels and its label classes. */
  lemma StepKeeps(parts: seq<seq<int>>, out: seq<seq<int>>, mapped: seq<int>)
    requires ReconciledSoFar(parts, out) && |out| < |parts| && NextReconciled(parts, out, mapped)
    ensures var out' := out + [mapped];
      && (forall p :: 0 <= p < |out'| ==> |out'[p]| == |parts[p]|)
      && (forall p, i :: 0 <= p < |out'| && 0 <= i < |parts[p]| && parts[p][i] !in Flatten(out'[..p]) ==>
            out'[p][i] == parts[p][i])
      && (forall p, i, j :: 0 <= p < |out'| && 0 <= i < |parts[p]| && 0 <= j < |parts[p]| ==>
            (out'[p][i] == out'[p][j] <==> parts[p][i] == parts[p][j]))
  {
    AppendOutput(out, mapped);
  }

  /** The appended partition shares no label with an earlier one, and every label is placed. */
  lemma StepApart(parts: seq<seq<int>>, out: seq<seq<int>>, mapped: seq<int>)
    requires ReconciledSoFar(parts, out) && |out| < |parts| && NextReconciled(parts, out, mapped)
    ensures var out' := out + [mapped];
      && (forall p, q, i, j :: 0 <= p < q < |out'| && 0 <= i < |parts[p]| && 0 <= j < |parts[q]| ==>
            out'[p][i] != out'[q][j])
      && (forall p, i :: 0 <= p < |out'| && 0 <= i < |parts[p]| ==> out'[p][i] in Flatten(out'))
  {
    var k, out' := |out|, out + [mapped];
    AppendOutput(out, mapped);
    forall p, q, i, j | 0 <= p < q < |out'| && 0 <= i < |parts[p]| && 0 <= j < |parts[q]|
      ensures out'[p][i] != out'[q][j]
    {
      if q == k {
        assert out'[p][i] in Flatten(out);
      }
    }
    forall p, i | 0 <= p < |out'| && 0 <= i < |parts[p]|
      ensures out'[p][i] in Flatten(out')
    {
      if p < k {
        assert out'[p][i] in Flatten(out);
      } else {
        assert out'[p][i] == mapped[i];
      }
    }
  }

  /** Appending the next partition, reconciled against every label placed so far, keeps the loop state. */
  lemma ReconcileStep(parts: seq<seq<int>>, out: seq<seq<int>>, mapped: seq<int>)
    requires ReconciledSoFar(parts, out) && |out| < |parts| && NextReconciled(parts, out, mapped)
    ensures Flatten(out + [mapped]) == Flatten(out) + mapped
    ensures ReconciledSoFar(parts, out + [mapped])
  {
    AppendOutput(out, mapped);
    StepKeeps(parts, out, mapped);
    StepApart(parts, out, mapped);
  }

  /**
   * The partition loop of KDE mode (dtc.py:264-345), label column only: each
   * partition's labels are reconciled against every label placed so far and then
   * appended. Clusters of different partitions never share a label, and within a
   * partition two points share a label exactly when the flood fill gave them one.
   */
  method ReconcileAll(parts: seq<seq<int>>) returns (out: seq<seq<int>>, final: seq<int>)
    ensures |out| == |parts|
    ensures forall p :: 0 <= p < |parts| ==> |out[p]| == |parts[p]|
    ensures |parts| > 0 ==> out[0] == parts[0]
    ensures forall p, i, j :: 0 <= p < |parts| && 0 <= i < |parts[p]| && 0 <= j < |parts[p]| ==>
      (out[p][i] == out[p][j] <==> parts[p][i] == parts[p][j])
    ensures forall p, q, i, j :: 0 <= p < q < |parts| && 0 <= i < |parts[p]| && 0 <= j < |parts[q]| ==>
      out[p][i] != out[q][j]
    ensures forall p, i :: 0 <= p < |parts| && 0 <= i < |parts[p]| ==> out[p][i] in final
    ensures final == Flatten(out)
    ensures forall p, i :: 0 <= p < |parts| && 0 <= i < |parts[p]| && parts[p][i] !in Flatten(out[..p]) ==>
      out[p][i] == parts[p][i]
  {
    out := [];
    final := [];
    for k := 0 to |parts|
      invariant |out| == k && final == Flatten(out) && ReconciledSoFar(parts, out)
      invariant k > 0 ==> out[0] == parts[0]
    {
      var mapped := Reconcile(final, parts[k]);
      if k == 0 {
        assert forall i :: 0 <= i < |mapped| ==> mapped[i] == parts[k][i];
      }
      ReconcileStep(parts, out, mapped);
      out := out + [mapped];
      final := final + mapped;
    }
  }

  // ---------------------------------------------------------------------------
  // Dense relabelling (dtc.py:464)
  // ---------------------------------------------------------------------------

  /**
   * pandas.factorize(labels)[0] + 1: each label is replaced by one plus the position
   * of its first appearance among the distinct labels.
   */
  function Factorize(labels: seq<int>): (r: seq<int>)
    ensures |r| == |labels|
    ensures forall i :: 0 <= i < |labels| ==> 1 <= r[i] <= |Unique(labels)|
    ensures forall i, j :: 0 <= i < |labels| && 0 <= j < |labels| ==> (r[i] == r[j] <==> labels[i] == labels[j])
  {
    var u := Unique(labels);
    seq(|labels|, i requires 0 <= i < |labels| => IndexOf(u, labels[i]) + 1)
  }

  /** Every code 1..k is used, k being the number of distinct labels: code k + 1 names the k-th distinct label. */
  lemma FactorizeOnto(labels: seq<int>)
    ensures forall k :: 0 <= k < |Unique(labels)| ==>
      exists i :: 0 <= i < |labels| && labels[i] == Unique(labels)[k] && Factorize(labels)[i] == k + 1
  {
    var u := Unique(labels);
    forall k | 0 <= k < |u|
      ensures exists i :: 0 <= i < |labels| && labels[i] == u[k] && Factorize(labels)[i] == k + 1
    {
      var i := IndexOf(labels, u[k]);
      IndexOfNoDup(u, k);
      assert Factorize(labels)[i] == k + 1;
    }
  }

  /**
   * Codes follow first appearance: a label seen for the first time at position i
   * receives one more than the number of distinct labels before i, and a repeated
   * label receives a code already handed out.
   */
  lemma {:induction false} FactorizeFirstAppearance(labels: seq<int>, i: int)
    requires 0 <= i < |labels|
    ensures labels[i] !in labels[..i] ==> Factorize(labels)[i] == |Unique(labels[..i])| + 1
    ensures labels[i] in labels[..i] ==> Factorize(labels)[i] <= |Unique(labels[..i])|
  {
    var u := Unique(labels);
    var before := Unique(labels[..i]);
    if labels[i] in labels[..i] {
      UniquePrefix(labels, i);
      var k := IndexOf(before, labels[i]);
      assert u[k] == labels[i];
      IndexOfNoDup(u, k);
    } else {
      UniquePrefix(labels, i + 1);
      assert labels[..i + 1][..i] == labels[..i];
      assert Unique(labels[..i + 1]) == before + [labels[i]];
      assert u[|before|] == labels[i];
      IndexOfNoDup(u, |before|);
    }
  }
}
