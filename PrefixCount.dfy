/** The CSR row offsets (parallel-shards.cpp lines 308-316): rank 0 sums the
    ranks' degree tables and turns the sum into prefix counts in place. */
module PrefixCount {
  import opened Seqs
  import opened Graph
  import opened EdgeRedistributor

  /** The number of edges of ds whose source is below u. */
  function CountBelow(ds: seq<Edge>, u: int): nat
  {
    if ds == [] then 0
    else CountBelow(ds[..|ds| - 1], u) + (if ds[|ds| - 1].i < u then 1 else 0)
  }

  predicate SourcesIn(ds: seq<Edge>, V: int)
  {
    forall k :: 0 <= k < |ds| ==> 0 <= ds[k].i < V
  }

  lemma {:induction false} CountBelowStep(ds: seq<Edge>, u: int)
    ensures CountBelow(ds, u + 1) == CountBelow(ds, u) + Degree(ds, u)
    decreases |ds|
  {
    if ds != [] {
      CountBelowStep(ds[..|ds| - 1], u);
    }
  }

  lemma {:induction false} CountBelowBounds(ds: seq<Edge>, V: int)
    requires SourcesIn(ds, V)
    ensures CountBelow(ds, 0) == 0 && CountBelow(ds, V) == |ds|
    decreases |ds|
  {
    if ds != [] {
      CountBelowBounds(ds[..|ds| - 1], V);
    }
  }

  /** The prefix sums of a degree table are the row offsets: entry k of the
      inclusive prefix sum counts the edges whose source is below k. */
  lemma {:induction false} DegreePrefix(ds: seq<Edge>, V: nat, k: nat)
    requires k <= V && SourcesIn(ds, V)
    ensures Sum(DegreeTable(ds, V)[..k + 1]) == CountBelow(ds, k)
    decreases k
  {
    var t := DegreeTable(ds, V);
    if k == 0 {
      CountBelowBounds(ds, V);
      assert t[..1] == [0];
      assert Sum([0]) == Sum([]) + 0;
    } else {
      DegreePrefix(ds, V, k - 1);
      SumPrefixStep(t, k);
      CountBelowStep(ds, k - 1);
    }
  }

  /** Lines 308-309: MPI_Reduce of `count` entries, in place at rank 0. The
      first count entries become the sum over the ranks; the others keep
      rank 0's own values. */
  function ReducedAtRoot(tables: seq<seq<int>>, count: nat): (t: seq<int>)
    requires |tables| > 0 && forall r :: 0 <= r < |tables| ==> |tables[r]| == |tables[0]|
    requires count <= |tables[0]|
    ensures |t| == |tables[0]|
  {
    seq(|tables[0]|, k requires 0 <= k < |tables[0]| =>
      if k < count then Sum(Column(tables, k)) else tables[0][k])
  }

  /** The degree tables of all ranks, by rank. */
  function DegreeTables(dss: seq<seq<Edge>>, V: nat): (ts: seq<seq<int>>)
    ensures |ts| == |dss| && forall r :: 0 <= r < |dss| ==> ts[r] == DegreeTable(dss[r], V)
  {
    seq(|dss|, r requires 0 <= r < |dss| => DegreeTable(dss[r], V))
  }

  lemma {:induction false} DegreeAppendSeq(a: seq<Edge>, b: seq<Edge>, v: int)
    ensures Degree(a + b, v) == Degree(a, v) + Degree(b, v)
    decreases |b|
  {
    if b == [] {
      assert a + b == a;
    } else {
      var c := a + b;
      DegreeAppendSeq(a, b[..|b| - 1], v);
      assert c[..|c| - 1] == a + b[..|b| - 1];
      assert c[|c| - 1] == b[|b| - 1];
    }
  }

  /** Summing degrees over ranks gives the degree in all the edges sent. */
  lemma {:induction false} DegreeOfConcat(dss: seq<seq<Edge>>, V: nat, v: nat)
    requires v < V
    ensures Sum(Column(DegreeTables(dss, V), v + 1)) == Degree(Concat(dss), v)
    decreases |dss|
  {
    if dss != [] {
      var n := |dss| - 1;
      DegreeOfConcat(dss[..n], V, v);
      assert Column(DegreeTables(dss, V), v + 1)[..n] == Column(DegreeTables(dss[..n], V), v + 1);
      DegreeAppendSeq(Concat(dss[..n]), dss[n], v);
    }
  }

  /** Entries 0 .. count-1 of the reduced table are those of the degree table
      of all the edges sent. */
  lemma ReducedIsGlobalDegrees(dss: seq<seq<Edge>>, V: nat, count: nat, k: nat)
    requires |dss| > 0 && count <= V + 1 && k < count
    ensures ReducedAtRoot(DegreeTables(dss, V), count)[k] == DegreeTable(Concat(dss), V)[k]
  {
    if k == 0 {
      ReducedFirst(dss, V, count);
    } else {
      ReducedDegree(dss, V, count, k);
      DegreeTableAt(Concat(dss), V, k);
    }
  }

  lemma DegreeTableAt(ds: seq<Edge>, V: nat, k: nat)
    requires 0 < k <= V
    ensures DegreeTable(ds, V)[k] == Degree(ds, k - 1)
  {
    var v := k - 1;
    assert DegreeTable(ds, V)[v + 1] == Degree(ds, v);
  }

  lemma ReducedFirst(dss: seq<seq<Edge>>, V: nat, count: nat)
    requires |dss| > 0 && 0 < count <= V + 1
    ensures ReducedAtRoot(DegreeTables(dss, V), count)[0] == 0
  {
    var ts := DegreeTables(dss, V);
    assert ReducedAtRoot(ts, count)[0] == Sum(Column(ts, 0));
    ZeroColumn(dss, V);
  }

  lemma ReducedDegree(dss: seq<seq<Edge>>, V: nat, count: nat, k: nat)
    requires |dss| > 0 && count <= V + 1 && 0 < k < count
    ensures ReducedAtRoot(DegreeTables(dss, V), count)[k] == Degree(Concat(dss), k - 1)
  {
    var ts := DegreeTables(dss, V);
    assert ReducedAtRoot(ts, count)[k] == Sum(Column(ts, k));
    var v := k - 1;
    DegreeOfConcat(dss, V, v);
    assert Column(ts, v + 1) == Column(ts, k);
  }

  lemma ZeroColumn(dss: seq<seq<Edge>>, V: nat)
    ensures Sum(Column(DegreeTables(dss, V), 0)) == 0
  {
    var c := Column(DegreeTables(dss, V), 0);
    assert forall r :: 0 <= r < |c| ==> c[r] == 0 * c[r];
    SumScale(c, c, 0);
  }

  /** Lines 315-316 at rank 0: entries 1 .. n-1 each add the entry before,
      so entry k becomes the sum of entries 0 .. k; entries from n on are
      left alone. */
  method PrefixSumInPlace(a: array<int>, n: nat)
    requires n <= a.Length
    modifies a
    ensures forall k :: 0 <= k < n ==> a[k] == Sum(old(a[..])[..k + 1])
    ensures forall k :: n <= k < a.Length ==> a[k] == old(a[k])
  {
    ghost var s := a[..];
    if n > 0 {
      assert s[..1] == [s[0]];
      assert Sum([s[0]]) == Sum([]) + s[0];
    }
    var i := 1;
    while i < n
      invariant 1 <= i && (n > 0 ==> i <= n)
      invariant forall k :: 0 <= k < i && k < n ==> a[k] == Sum(s[..k + 1])
      invariant forall k :: 0 <= k < a.Length && (i <= k || n <= k) ==> a[k] == s[k]
    {
      SumPrefixStep(s, i);
      a[i] := a[i] + a[i - 1];
      i := i + 1;
    }
  }

  /** The offsets stage as the code runs it, with the vertex count V as
      count for the reduction and for the prefix loop: entry i, for i < V,
      holds the number of edges sent whose source is below i, entry 0 is 0,
      and the entries never decrease. */
  lemma RootOffsets(dss: seq<seq<Edge>>, V: nat, i: nat, j: nat)
    requires |dss| > 0 && i <= j < V
    requires forall r :: 0 <= r < |dss| ==> SourcesIn(dss[r], V)
    ensures Sum(ReducedAtRoot(DegreeTables(dss, V), V)[..i + 1]) == CountBelow(Concat(dss), i)
    ensures Sum(ReducedAtRoot(DegreeTables(dss, V), V)[..1]) == 0
    ensures Sum(ReducedAtRoot(DegreeTables(dss, V), V)[..i + 1]) <= Sum(ReducedAtRoot(DegreeTables(dss, V), V)[..j + 1])
  {
    var red := ReducedAtRoot(DegreeTables(dss, V), V);
    var g := Concat(dss);
    ConcatSources(dss, V);
    forall k | 0 <= k <= j
      ensures red[k] == DegreeTable(g, V)[k]
    {
      ReducedIsGlobalDegrees(dss, V, V, k);
    }
    assert red[..i + 1] == DegreeTable(g, V)[..i + 1];
    assert red[..j + 1] == DegreeTable(g, V)[..j + 1];
    assert red[..1] == DegreeTable(g, V)[..1];
    DegreePrefix(g, V, i);
    DegreePrefix(g, V, j);
    DegreePrefix(g, V, 0);
    CountBelowMonotone(g, i, j);
  }

  lemma {:induction false} CountBelowMonotone(ds: seq<Edge>, u: int, w: int)
    requires u <= w
    ensures CountBelow(ds, u) <= CountBelow(ds, w)
    decreases |ds|
  {
    if ds != [] {
      CountBelowMonotone(ds[..|ds| - 1], u, w);
    }
  }

  lemma {:induction false} ConcatSources(dss: seq<seq<Edge>>, V: int)
    requires forall r :: 0 <= r < |dss| ==> SourcesIn(dss[r], V)
    ensures SourcesIn(Concat(dss), V)
    decreases |dss|
  {
    if dss != [] {
      var n := |dss| - 1;
      ConcatSources(dss[..n], V);
      var a, b := Concat(dss[..n]), dss[n];
      assert forall k :: |a| <= k < |a + b| ==> (a + b)[k] == b[k - |a|];
    }
  }

  /** With V + 1 as the count for both the reduction and the prefix loop,
      the table gains its last entry, the total number of edges E; this is
      the V + 1 entry table the edge region of line 402 leaves room for. */
  lemma CorrectedOffsets(dss: seq<seq<Edge>>, V: nat, i: nat)
    requires |dss| > 0 && i <= V
    requires forall r :: 0 <= r < |dss| ==> SourcesIn(dss[r], V)
    ensures Sum(ReducedAtRoot(DegreeTables(dss, V), V + 1)[..i + 1]) == CountBelow(Concat(dss), i)
    ensures Sum(ReducedAtRoot(DegreeTables(dss, V), V + 1)[..V + 1]) == |Concat(dss)|
  {
    var red := ReducedAtRoot(DegreeTables(dss, V), V + 1);
    var g := Concat(dss);
    ConcatSources(dss, V);
    forall k | 0 <= k <= V
      ensures red[k] == DegreeTable(g, V)[k]
    {
      ReducedIsGlobalDegrees(dss, V, V + 1, k);
    }
    assert red == DegreeTable(g, V);
    DegreePrefix(g, V, i);
    DegreePrefix(g, V, V);
    CountBelowBounds(g, V);
  }

  /** As written, the count V leaves the last entry outside the reduction:
      it keeps rank 0's own count of the edges leaving vertex V - 1. */
  lemma AsWrittenLastEntry(dss: seq<seq<Edge>>, V: nat)
    requires |dss| > 0 && V > 0
    ensures ReducedAtRoot(DegreeTables(dss, V), V)[V] == Degree(dss[0], V - 1)
  {
  }
}
