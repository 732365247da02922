/** Local sorting of the received edges (parallel-shards.cpp lines 322-330):
    the edge list is sorted by (source, target) only when it is not already. */
module LocalSorter {
  import opened Graph

  /** The comparator of lines 322-323: lexicographic on (i, j); the weight
      plays no part. */
  predicate Less(e0: Edge, e1: Edge)
  {
    e0.i < e1.i || (e0.i == e1.i && e0.j < e1.j)
  }

  /** No later edge is less than an earlier one. */
  predicate Sorted(s: seq<Edge>)
  {
    forall a, b :: 0 <= a < b < |s| ==> !Less(s[b], s[a])
  }

  /** What std::is_sorted checks: no edge is less than its predecessor. */
  predicate AdjacentSorted(s: seq<Edge>)
  {
    forall k :: 0 < k < |s| ==> !Less(s[k], s[k - 1])
  }

  /** Less is a strict order on (i, j), so its complement chains. */
  lemma NotLessTransitive(x: Edge, y: Edge, z: Edge)
    requires !Less(y, x) && !Less(z, y)
    ensures !Less(z, x)
  {
  }

  /** Checking neighbours suffices. */
  lemma {:induction false} AdjacentSortedIsSorted(s: seq<Edge>)
    ensures AdjacentSorted(s) <==> Sorted(s)
    decreases |s|
  {
    if |s| > 1 && AdjacentSorted(s) {
      var n := |s| - 1;
      AdjacentSortedIsSorted(s[..n]);
      assert AdjacentSorted(s[..n]);
      forall a | 0 <= a < n
        ensures !Less(s[n], s[a])
      {
        assert s[..n][a] == s[a] && s[..n][n - 1] == s[n - 1];
        NotLessTransitive(s[a], s[n - 1], s[n]);
      }
    }
  }

  /** std::is_sorted with the comparator (line 325). */
  method IsSorted(a: array<Edge>) returns (b: bool)
    ensures b <==> Sorted(a[..])
  {
    AdjacentSortedIsSorted(a[..]);
    var k := 1;
    while k < a.Length
      invariant 1 <= k && (a.Length > 0 ==> k <= a.Length)
      invariant forall m :: 0 < m < k && m < a.Length ==> !Less(a[m], a[m - 1])
    {
      if Less(a[k], a[k - 1]) {
        return false;
      }
      k := k + 1;
    }
    return true;
  }

  /** Stands in for std::sort (line 329): a sort by insertion, swapping an
      edge back past every greater predecessor. */
  method Sort(a: array<Edge>)
    modifies a
    ensures Sorted(a[..])
    ensures multiset(a[..]) == old(multiset(a[..]))
  {
    if a.Length == 0 {
      return;
    }
    var n := 1;
    while n < a.Length
      invariant 1 <= n <= a.Length
      invariant Sorted(a[..n])
      invariant multiset(a[..]) == old(multiset(a[..]))
    {
      InsertLast(a, n);
      n := n + 1;
    }
    assert a[..] == a[..n];
  }

  /** Moves a[n] back into the sorted prefix a[..n]. */
  method InsertLast(a: array<Edge>, n: nat)
    requires n < a.Length && Sorted(a[..n])
    modifies a
    ensures Sorted(a[..n + 1])
    ensures a[n + 1..] == old(a[n + 1..])
    ensures multiset(a[..]) == old(multiset(a[..]))
  {
    var j := n;
    while j > 0 && Less(a[j], a[j - 1])
      invariant 0 <= j <= n
      invariant forall x, y :: 0 <= x < y <= n && y != j ==> !Less(a[y], a[x])
      invariant forall y :: j < y <= n ==> !Less(a[y], a[j])
      invariant a[n + 1..] == old(a[n + 1..])
      invariant multiset(a[..]) == old(multiset(a[..]))
    {
      a[j - 1], a[j] := a[j], a[j - 1];
      j := j - 1;
    }
  }

  /** Lines 325-330: the list ends sorted and a permutation of what was
      received; a list that was already sorted is not touched. */
  method SortIfUnsorted(a: array<Edge>)
    modifies a
    ensures Sorted(a[..])
    ensures multiset(a[..]) == old(multiset(a[..]))
    ensures old(Sorted(a[..])) ==> a[..] == old(a[..])
  {
    var sorted := IsSorted(a);
    if !sorted {
      Sort(a);
    }
  }
}
