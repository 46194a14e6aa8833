/**
 * Sequence operations the clustering engine borrows from Python, numpy and pandas:
 * list.remove, Series.unique, numpy.delete (and boolean-mask filtering), each with
 * the property the engine relies on.
 */
module Seqs {

  /** No value occurs twice in s. */
  predicate NoDup<T(==)>(s: seq<T>) {
    forall i, j :: 0 <= i < j < |s| ==> s[i] != s[j]
  }

  /** The set of the values of s (Python's set(s)). */
  function Elements<T>(s: seq<T>): set<T> {
    set x | x in s
  }

  /** A duplicate-free sequence has as many values as positions. */
  lemma {:induction false} NoDupCard<T>(s: seq<T>)
    requires NoDup(s)
    ensures |Elements(s)| == |s|
  {
    if s != [] {
      var n := |s| - 1;
      assert NoDup(s[..n]);
      NoDupCard(s[..n]);
      assert s == s[..n] + [s[n]];
      assert Elements(s) == Elements(s[..n]) + {s[n]};
      assert s[n] !in Elements(s[..n]);
    }
  }

  /** A concatenation is duplicate-free iff both halves are and they share no value. */
  lemma NoDupAppend<T>(a: seq<T>, b: seq<T>)
    ensures NoDup(a + b) <==> NoDup(a) && NoDup(b) && Elements(a) !! Elements(b)
  {
    if NoDup(a) && NoDup(b) && Elements(a) !! Elements(b) {
      forall i, j | 0 <= i < j < |a + b|
        ensures (a + b)[i] != (a + b)[j]
      {
        if j >= |a| && i < |a| {
          assert (a + b)[i] in Elements(a);
          assert (a + b)[j] == b[j - |a|] && b[j - |a|] in Elements(b);
        }
      }
    }
    if NoDup(a + b) {
      assert a == (a + b)[..|a|];
      assert b == (a + b)[|a|..];
      forall i, j | 0 <= i < |a| && 0 <= j < |b|
        ensures a[i] != b[j]
      {
        assert (a + b)[i] == a[i] && (a + b)[|a| + j] == b[j];
      }
    }
  }

  /** Python's list.remove(x): drops the first occurrence of x. */
  function RemoveFirst<T(==)>(s: seq<T>, x: T): (r: seq<T>)
    requires x in s
    ensures |r| == |s| - 1
    ensures multiset(r) == multiset(s) - multiset{x}
  {
    assert s == [s[0]] + s[1..];
    if s[0] == x then s[1..] else [s[0]] + RemoveFirst(s[1..], x)
  }

  /** Splitting off the head of the left operand of a concatenation. */
  lemma ConsSplit<T>(p: seq<T>, q: seq<T>)
    requires |p| > 0
    ensures p + q == [p[0]] + (p[1..] + q)
  {
    assert p == [p[0]] + p[1..];
  }

  /** When the first occurrence of x follows p, remove takes exactly that one. */
  lemma {:induction false} RemoveFirstAfter<T>(p: seq<T>, x: T, q: seq<T>)
    requires x !in p
    ensures RemoveFirst(p + [x] + q, x) == p + q
  {
    if p == [] {
      assert p + [x] + q == [x] + q;
    } else {
      var s := p + [x] + q;
      ConsSplit(p, [x] + q);
      ConsSplit(p, q);
      assert s == [p[0]] + (p[1..] + [x] + q);
      RemoveFirstAfter(p[1..], x, q);
    }
  }

  /** On a duplicate-free list, remove deletes x and nothing else. */
  lemma RemoveFirstNoDup<T>(s: seq<T>, x: T)
    requires NoDup(s) && x in s
    ensures NoDup(RemoveFirst(s, x))
    ensures forall y :: y in RemoveFirst(s, x) <==> y in s && y != x
  {
    var i := IndexOf(s, x);
    var p, q := s[..i], s[i + 1..];
    assert s == p + [x] + q;
    RemoveFirstAfter(p, x, q);
    NoDupAppend(p + [x], q);
    NoDupAppend(p, [x]);
    assert x in Elements(p + [x]);
    assert Elements(p) <= Elements(p + [x]);
    NoDupAppend(p, q);
  }

  /** pandas Series.unique: the distinct values of s in order of first appearance. */
  function Unique<T(==,!new)>(s: seq<T>): (r: seq<T>)
    ensures NoDup(r)
    ensures forall x :: x in r <==> x in s
    decreases |s|
  {
    if s == [] then []
    else
      var n := |s| - 1;
      assert s == s[..n] + [s[n]];
      var u := Unique(s[..n]);
      if s[n] in u then u else u + [s[n]]
  }

  /** There are no more distinct values than positions. */
  lemma {:induction false} UniqueNoLonger<T(!new)>(s: seq<T>)
    ensures |Unique(s)| <= |s|
  {
    if s != [] {
      UniqueNoLonger(s[..|s| - 1]);
    }
  }

  /** The distinct values of a prefix come first among the distinct values of the whole. */
  lemma {:induction false} UniquePrefix<T(!new)>(s: seq<T>, j: nat)
    requires j <= |s|
    ensures Unique(s[..j]) <= Unique(s)
    decreases |s| - j
  {
    if j == |s| {
      assert s[..j] == s;
    } else {
      UniquePrefix(s, j + 1);
      assert s[..j + 1][..j] == s[..j];
    }
  }

  /** The first position of x in s. */
  function IndexOf<T(==)>(s: seq<T>, x: T): (k: nat)
    requires x in s
    ensures k < |s| && s[k] == x
    ensures forall j :: 0 <= j < k ==> s[j] != x
  {
    if s[0] == x then 0 else 1 + IndexOf(s[1..], x)
  }

  /** In a sequence without duplicates the first position of s[k] is k. */
  lemma IndexOfNoDup<T>(s: seq<T>, k: int)
    requires NoDup(s) && 0 <= k < |s|
    ensures IndexOf(s, s[k]) == k
  {
  }

  /** Number of positions below k that are not in del: where position k lands after deletion. */
  function Rank(del: set<int>, k: nat): (r: nat)
    ensures r <= k
  {
    if k == 0 then 0 else Rank(del, k - 1) + (if k - 1 in del then 0 else 1)
  }

  /**
   * numpy.delete(s, del, 0), and boolean-mask filtering: the elements of s whose position
   * is not in del, in their original order. Duplicate positions in the index list collapse
   * because del is a set.
   */
  function DropPositions<T>(s: seq<T>, del: set<int>): (r: seq<T>)
    ensures |r| == Rank(del, |s|)
    decreases |s|
  {
    if s == [] then []
    else
      var n := |s| - 1;
      DropPositions(s[..n], del) + (if n in del then [] else [s[n]])
  }

  /** Deletion over a prefix one element longer. */
  lemma DropPositionsStep<T>(s: seq<T>, del: set<int>, k: int)
    requires 0 <= k < |s|
    ensures DropPositions(s[..k + 1], del) == DropPositions(s[..k], del) + (if k in del then [] else [s[k]])
  {
    assert s[..k + 1][..k] == s[..k];
  }

  /** A kept position k lands at Rank(del, k): deletion keeps the survivors in order. */
  lemma {:induction false} DropPositionsAt<T>(s: seq<T>, del: set<int>, k: int)
    requires 0 <= k < |s| && k !in del
    ensures Rank(del, k) < |DropPositions(s, del)|
    ensures DropPositions(s, del)[Rank(del, k)] == s[k]
    decreases |s|
  {
    var n := |s| - 1;
    if k < n {
      DropPositionsAt(s[..n], del, k);
      RankMonotone(del, k + 1, n);
    }
  }

  /** Rank never decreases. */
  lemma {:induction false} RankMonotone(del: set<int>, j: nat, k: nat)
    requires j <= k
    ensures Rank(del, j) <= Rank(del, k)
    decreases k - j
  {
    if j < k {
      RankMonotone(del, j, k - 1);
    }
  }

  /** The survivors are exactly the values at positions outside del. */
  lemma {:induction false} DropPositionsMember<T>(s: seq<T>, del: set<int>, x: T)
    ensures x in DropPositions(s, del) <==> exists k :: 0 <= k < |s| && k !in del && s[k] == x
    decreases |s|
  {
    if s != [] {
      var n := |s| - 1;
      var d := DropPositions(s[..n], del);
      var tail := if n in del then [] else [s[n]];
      assert DropPositions(s, del) == d + tail;
      assert x in d + tail <==> x in d || x in tail;
      DropPositionsMember(s[..n], del, x);
      if x in d {
        var k :| 0 <= k < n && k !in del && s[..n][k] == x;
        assert s[k] == x;
      }
      if exists k :: 0 <= k < |s| && k !in del && s[k] == x {
        var k :| 0 <= k < |s| && k !in del && s[k] == x;
        if k < n {
          assert s[..n][k] == x;
          assert x in d;
        } else {
          assert x in tail;
        }
      }
    }
  }

  /** Deleting positions keeps a duplicate-free sequence duplicate-free. */
  lemma {:induction false} DropPositionsNoDup<T>(s: seq<T>, del: set<int>)
    requires NoDup(s)
    ensures NoDup(DropPositions(s, del))
    decreases |s|
  {
    if s != [] {
      var n := |s| - 1;
      assert NoDup(s[..n]);
      DropPositionsNoDup(s[..n], del);
      var r' := DropPositions(s[..n], del);
      if n !in del {
        DropPositionsMember(s[..n], del, s[n]);
        assert forall k :: 0 <= k < n ==> s[..n][k] != s[n];
        NoDupAppend(r', [s[n]]);
      } else {
        assert DropPositions(s, del) == r' + [];
      }
    }
  }

  /** The concatenation of a list of lists, in order. */
  function Flatten<T>(parts: seq<seq<T>>): seq<T> {
    if parts == [] then [] else Flatten(parts[..|parts| - 1]) + parts[|parts| - 1]
  }

  /** The values of s at the positions ps, in the order of ps (pandas .loc with a label list). */
  function Select<T>(s: seq<T>, ps: seq<int>): (r: seq<T>)
    requires forall i :: 0 <= i < |ps| ==> 0 <= ps[i] < |s|
    ensures |r| == |ps| && forall i :: 0 <= i < |ps| ==> r[i] == s[ps[i]]
  {
    seq(|ps|, i requires 0 <= i < |ps| => s[ps[i]])
  }

  /**
   * Taking the rows at ps out of a duplicate-free s splits it in two: the taken rows and
   * the remaining ones together hold every value of s exactly once.
   */
  lemma SplitByPositions<T>(s: seq<T>, ps: seq<int>)
    requires NoDup(s) && NoDup(ps)
    requires forall i :: 0 <= i < |ps| ==> 0 <= ps[i] < |s|
    ensures NoDup(Select(s, ps) + DropPositions(s, Elements(ps)))
    ensures Elements(Select(s, ps) + DropPositions(s, Elements(ps))) == Elements(s)
    ensures |Select(s, ps)| + |DropPositions(s, Elements(ps))| == |s|
  {
    var taken := Select(s, ps);
    var rest := DropPositions(s, Elements(ps));
    DropPositionsNoDup(s, Elements(ps));
    assert NoDup(taken) by {
      forall i, j | 0 <= i < j < |taken|
        ensures taken[i] != taken[j]
      {
        assert ps[i] != ps[j];
      }
    }
    forall x | x in taken
      ensures x !in rest
    {
      var i :| 0 <= i < |taken| && taken[i] == x;
      DropPositionsMember(s, Elements(ps), x);
      forall k | 0 <= k < |s| && k !in Elements(ps)
        ensures s[k] != x
      {
        assert ps[i] in Elements(ps);
      }
    }
    NoDupAppend(taken, rest);
    forall x | x in s
      ensures x in taken + rest
    {
      var k :| 0 <= k < |s| && s[k] == x;
      if k in Elements(ps) {
        var i :| 0 <= i < |ps| && ps[i] == k;
        assert taken[i] == x;
      } else {
        DropPositionsAt(s, Elements(ps), k);
      }
    }
    forall x | x in rest
      ensures x in s
    {
      DropPositionsMember(s, Elements(ps), x);
    }
    assert Elements(taken + rest) == Elements(s);
    NoDupCard(taken + rest);
    NoDupCard(s);
  }
}
