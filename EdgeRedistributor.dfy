/** Part 2 of the conversion (parallel-shards.cpp lines 241-305): every
    record is sent, as itself and reversed, to the rank owning its source
    vertex, the per-vertex degrees are counted, and the buckets are laid out
    in one send buffer and exchanged. */
module EdgeRedistributor {
  import opened Seqs
  import opened Graph
  import opened VertexPartition

  /** Lines 249 and 259: the directed edges a rank sends, record k giving
      (i, j, w) and then (j, i, w). */
  function Doubled(es: seq<Edge>): (ds: seq<Edge>)
    ensures |ds| == 2 * |es|
    ensures forall k :: 0 <= k < |es| ==> ds[2 * k] == es[k] && ds[2 * k + 1] == Reverse(es[k])
  {
    if es == [] then []
    else Doubled(es[..|es| - 1]) + [es[|es| - 1], Reverse(es[|es| - 1])]
  }

  lemma DoubledStep(es: seq<Edge>, i: nat)
    requires i < |es|
    ensures Doubled(es[..i + 1]) == Doubled(es[..i]) + [es[i], Reverse(es[i])]
  {
    assert es[..i + 1][..i] == es[..i];
  }

  /** The edges of ds whose source rank p owns, in the order they are sent. */
  function Bucket(ds: seq<Edge>, parts: seq<int>, p: int): seq<Edge>
    requires Sorted(parts)
  {
    if ds == [] then []
    else Bucket(ds[..|ds| - 1], parts, p) + (if Owner(parts, ds[|ds| - 1].i) == p then [ds[|ds| - 1]] else [])
  }

  /** outEdges after the loop: one bucket per rank. */
  function Buckets(ds: seq<Edge>, parts: seq<int>, nprocs: nat): (bs: seq<seq<Edge>>)
    requires Sorted(parts)
    ensures |bs| == nprocs && forall p :: 0 <= p < nprocs ==> bs[p] == Bucket(ds, parts, p)
  {
    seq(nprocs, p requires 0 <= p < nprocs => Bucket(ds, parts, p))
  }

  /** The number of edges of ds leaving vertex v. */
  function Degree(ds: seq<Edge>, v: int): nat
  {
    if ds == [] then 0
    else Degree(ds[..|ds| - 1], v) + (if ds[|ds| - 1].i == v then 1 else 0)
  }

  /** Sending one more edge appends it to its owner's bucket only. */
  lemma BucketAppend(ds: seq<Edge>, d: Edge, parts: seq<int>, p: int)
    requires Sorted(parts)
    ensures Bucket(ds + [d], parts, p) == Bucket(ds, parts, p) + (if Owner(parts, d.i) == p then [d] else [])
  {
    assert (ds + [d])[..|ds|] == ds;
  }

  lemma BucketsAppend(ds: seq<Edge>, d: Edge, parts: seq<int>, nprocs: nat)
    requires Sorted(parts) && 0 <= Owner(parts, d.i) < nprocs
    ensures Buckets(ds + [d], parts, nprocs)
         == Buckets(ds, parts, nprocs)[Owner(parts, d.i) := Bucket(ds, parts, Owner(parts, d.i)) + [d]]
  {
    var o := Owner(parts, d.i);
    var after := Buckets(ds + [d], parts, nprocs);
    var updated := Buckets(ds, parts, nprocs)[o := Bucket(ds, parts, o) + [d]];
    forall p | 0 <= p < nprocs
      ensures after[p] == updated[p]
    {
      BucketAppend(ds, d, parts, p);
    }
    assert after == updated;
  }

  /** edgeCount after counting the edges of ds (lines 247 and 257): entry 0
      stays zero and entry v + 1 is the number of edges leaving v. */
  function DegreeTable(ds: seq<Edge>, V: nat): (t: seq<int>)
    ensures |t| == V + 1 && t[0] == 0
    ensures forall v :: 0 <= v < V ==> t[v + 1] == Degree(ds, v)
  {
    seq(V + 1, k requires 0 <= k < V + 1 => if k == 0 then 0 else Degree(ds, k - 1))
  }

  lemma DegreeTableAppend(ds: seq<Edge>, d: Edge, V: nat)
    requires 0 <= d.i < V
    ensures DegreeTable(ds + [d], V) == DegreeTable(ds, V)[d.i + 1 := DegreeTable(ds, V)[d.i + 1] + 1]
  {
    assert (ds + [d])[..|ds|] == ds;
  }

  /** One endpoint of lines 242-249 (or 252-259): the owner of d's source
      is looked up, the source's count is incremented and d is appended to the
      owner's bucket. */
  method Send(outEdges: seq<seq<Edge>>, edgeCount: array<int>, parts: seq<int>, V: nat, nprocs: nat,
              d: Edge, ghost ds: seq<Edge>)
    returns (outEdges': seq<seq<Edge>>)
    requires nprocs >= 1 && parts == Parts(V, nprocs) && 0 <= d.i < V
    requires Sorted(parts) && outEdges == Buckets(ds, parts, nprocs)
    requires edgeCount[..] == DegreeTable(ds, V)
    modifies edgeCount
    ensures outEdges' == Buckets(ds + [d], parts, nprocs)
    ensures edgeCount[..] == DegreeTable(ds + [d], V)
  {
    var vertex := d.i;
    OwnerSpec(V, nprocs, vertex);
    var owner := Owner(parts, vertex);
    edgeCount[vertex + 1] := edgeCount[vertex + 1] + 1;
    DegreeTableAppend(ds, d, V);
    BucketsAppend(ds, d, parts, nprocs);
    outEdges' := outEdges[owner := outEdges[owner] + [d]];
  }

  /** Lines 215-216 and 241-260 on one rank: outEdges receives the doubled
      edges bucket by bucket and edgeCount counts the edges leaving each
      vertex. V is the vertex count the edgeCount vector is sized by, and
      every endpoint read must be below it. */
  method Distribute(edgeList: seq<Edge>, parts: seq<int>, V: nat, nprocs: nat)
    returns (outEdges: seq<seq<Edge>>, edgeCount: array<int>)
    requires nprocs >= 1 && parts == Parts(V, nprocs)
    requires forall k :: 0 <= k < |edgeList| ==> InGraph(edgeList[k], V)
    ensures Sorted(parts)
    ensures outEdges == Buckets(Doubled(edgeList), parts, nprocs)
    ensures fresh(edgeCount) && edgeCount[..] == DegreeTable(Doubled(edgeList), V)
  {
    PartsShape(V, nprocs);
    edgeCount := new int[V + 1](_ => 0);
    outEdges := seq(nprocs, _ => []);
    assert edgeCount[..] == DegreeTable([], V);
    var i := 0;
    while i < |edgeList|
      invariant 0 <= i <= |edgeList|
      invariant outEdges == Buckets(Doubled(edgeList[..i]), parts, nprocs)
      invariant edgeCount[..] == DegreeTable(Doubled(edgeList[..i]), V)
    {
      ghost var ds := Doubled(edgeList[..i]);
      var e := edgeList[i];
      DoubledStep(edgeList, i);
      outEdges := Send(outEdges, edgeCount, parts, V, nprocs, e, ds);
      outEdges := Send(outEdges, edgeCount, parts, V, nprocs, Edge(e.j, e.i, e.w), ds + [e]);
      assert ds + [e] + [Reverse(e)] == ds + [e, Reverse(e)];
      i := i + 1;
    }
    assert edgeList[..i] == edgeList;
  }

  /** One record reaches exactly the buckets of its two endpoints' owners:
      (i, j, w) goes to owner(i), (j, i, w) to owner(j), and no other bucket
      changes. */
  lemma RecordBuckets(es: seq<Edge>, e: Edge, parts: seq<int>, p: int)
    requires Sorted(parts)
    ensures Bucket(Doubled(es + [e]), parts, p)
         == Bucket(Doubled(es), parts, p)
            + (if Owner(parts, e.i) == p then [e] else [])
            + (if Owner(parts, e.j) == p then [Reverse(e)] else [])
  {
    var ds := Doubled(es);
    DoubledStep(es + [e], |es|);
    assert (es + [e])[..|es|] == es;
    assert (es + [e])[..|es| + 1] == es + [e];
    assert ds + [e, Reverse(e)] == (ds + [e]) + [Reverse(e)];
    BucketAppend(ds, e, parts, p);
    BucketAppend(ds + [e], Reverse(e), parts, p);
  }

  lemma DoubledInGraph(es: seq<Edge>, V: int)
    requires forall k :: 0 <= k < |es| ==> InGraph(es[k], V)
    ensures forall k :: 0 <= k < |Doubled(es)| ==> InGraph(Doubled(es)[k], V)
  {
    var ds := Doubled(es);
    forall k | 0 <= k < |ds|
      ensures InGraph(ds[k], V)
    {
      assert ds[2 * (k / 2)] == es[k / 2];
    }
  }

  /** The buckets partition the edges sent: their sizes add up to the number
      of edges, and together they hold exactly those edges. */
  lemma {:induction false} BucketsPartition(ds: seq<Edge>, V: nat, nprocs: nat)
    requires nprocs >= 1
    requires forall k :: 0 <= k < |ds| ==> 0 <= ds[k].i < V
    ensures Sorted(Parts(V, nprocs))
    ensures Sum(Lengths(Buckets(ds, Parts(V, nprocs), nprocs))) == |ds|
    ensures multiset(Concat(Buckets(ds, Parts(V, nprocs), nprocs))) == multiset(ds)
    decreases |ds|
  {
    PartsShape(V, nprocs);
    var parts := Parts(V, nprocs);
    if ds == [] {
      var bs := Buckets(ds, parts, nprocs);
      SumScale(Lengths(bs), Lengths(bs), 0);
      EmptyConcat(bs);
    } else {
      var n := |ds| - 1;
      var d := ds[n];
      BucketsPartition(ds[..n], V, nprocs);
      OwnerSpec(V, nprocs, d.i);
      var o := Owner(parts, d.i);
      LastSplit(ds);
      BucketsAppend(ds[..n], d, parts, nprocs);
      var before := Buckets(ds[..n], parts, nprocs);
      SumIncrementAt(Lengths(before), Lengths(Buckets(ds, parts, nprocs)), o);
      ConcatMultisetUpdate(before, o, d);
    }
  }

  lemma {:induction false} EmptyConcat<T>(ss: seq<seq<T>>)
    requires forall p :: 0 <= p < |ss| ==> ss[p] == []
    ensures Concat(ss) == []
    decreases |ss|
  {
    if ss != [] {
      EmptyConcat(ss[..|ss| - 1]);
    }
  }

  /** Every edge of bucket p has its source in rank p's vertex range. */
  lemma {:induction false} BucketOwned(ds: seq<Edge>, V: nat, nprocs: nat, p: nat)
    requires nprocs >= 1 && p < nprocs
    ensures Sorted(Parts(V, nprocs))
    ensures forall d: Edge :: d in Bucket(ds, Parts(V, nprocs), p) ==>
              Parts(V, nprocs)[p] <= d.i < Parts(V, nprocs)[p + 1]
    decreases |ds|
  {
    PartsShape(V, nprocs);
    if ds != [] {
      BucketOwned(ds[..|ds| - 1], V, nprocs, p);
    }
  }

  /** Lines 270-278: ssize holds the bucket sizes, sdispls their exclusive
      prefix sums, and spos ends as the total. */
  method SendCounts(outEdges: seq<seq<Edge>>) returns (ssize: array<int>, sdispls: array<int>, spos: int)
    ensures fresh(ssize) && fresh(sdispls)
    ensures ssize[..] == Lengths(outEdges)
    ensures sdispls[..] == ExclusiveScan(Lengths(outEdges))
    ensures spos == Sum(Lengths(outEdges))
  {
    var nprocs := |outEdges|;
    ghost var ls := Lengths(outEdges);
    ssize := new int[nprocs](_ => 0);
    sdispls := new int[nprocs](_ => 0);
    spos := 0;
    var p := 0;
    while p < nprocs
      invariant 0 <= p <= nprocs
      invariant forall q :: 0 <= q < p ==> ssize[q] == ls[q]
      invariant forall q :: 0 <= q < p ==> sdispls[q] == Sum(ls[..q])
      invariant spos == Sum(ls[..p])
    {
      ssize[p] := |outEdges[p]|;
      sdispls[p] := spos;
      SumPrefixStep(ls, p);
      spos := spos + ssize[p];
      p := p + 1;
    }
    assert ls[..p] == ls;
    assert ssize[..] == ls;
  }

  /** The memcpy of line 283: src is copied into dst at position at. */
  method CopyInto(dst: array<Edge>, at: nat, src: seq<Edge>)
    requires at + |src| <= dst.Length
    modifies dst
    ensures forall q :: 0 <= q < dst.Length && !(at <= q < at + |src|) ==> dst[q] == old(dst[q])
    ensures forall q :: at <= q < at + |src| ==> dst[q] == src[q - at]
    ensures dst[..at + |src|] == old(dst[..at]) + src
  {
    var k := 0;
    while k < |src|
      invariant 0 <= k <= |src|
      invariant forall q :: 0 <= q < dst.Length && !(at <= q < at + k) ==> dst[q] == old(dst[q])
      invariant forall q :: at <= q < at + k ==> dst[q] == src[q - at]
    {
      dst[at + k] := src[k];
      k := k + 1;
    }
    assert dst[..at + |src|] == old(dst[..at]) + src;
  }

  /** Lines 280-285: the buckets are copied one after the other into one
      buffer of spos entries. */
  method Flatten(outEdges: seq<seq<Edge>>, spos: int) returns (sredata: array<Edge>)
    requires spos == Sum(Lengths(outEdges))
    ensures fresh(sredata) && sredata[..] == Concat(outEdges)
  {
    ConcatLength(outEdges);
    sredata := new Edge[spos](_ => Edge(0, 0, ZeroWeight));
    var pos := 0;
    var p := 0;
    while p < |outEdges|
      invariant 0 <= p <= |outEdges|
      invariant pos == |Concat(outEdges[..p])| && pos <= spos == sredata.Length
      invariant sredata[..pos] == Concat(outEdges[..p])
    {
      ConcatStep(outEdges, p);
      ConcatPrefix(outEdges, p + 1);
      CopyInto(sredata, pos, outEdges[p]);
      pos := pos + |outEdges[p]|;
      p := p + 1;
    }
    assert outEdges[..p] == outEdges;
    assert sredata[..] == sredata[..pos];
  }

  /** The slice sredata[sdispls[p] .. sdispls[p] + ssize[p]), which
      MPI_Alltoallv sends to rank p, is bucket p. */
  lemma SendSlice(outEdges: seq<seq<Edge>>, p: nat)
    requires p < |outEdges|
    ensures var sdispls := ExclusiveScan(Lengths(outEdges));
      0 <= sdispls[p] && sdispls[p] + |outEdges[p]| <= |Concat(outEdges)| &&
      Concat(outEdges)[sdispls[p] .. sdispls[p] + |outEdges[p]|] == outEdges[p]
  {
    ConcatSlice(outEdges, p);
  }

  /** Lines 293-297: rdispls are the exclusive prefix sums of rsize and rpos
      ends as the total. */
  method RecvDispls(rsize: array<int>) returns (rdispls: array<int>, rpos: int)
    ensures fresh(rdispls)
    ensures rdispls[..] == ExclusiveScan(rsize[..])
    ensures rpos == Sum(rsize[..])
  {
    rdispls := new int[rsize.Length](_ => 0);
    rpos := 0;
    var p := 0;
    while p < rsize.Length
      invariant 0 <= p <= rsize.Length
      invariant forall q :: 0 <= q < p ==> rdispls[q] == Sum(rsize[..q])
      invariant rpos == Sum(rsize[..p])
    {
      rdispls[p] := rpos;
      SumPrefixStep(rsize[..], p);
      assert rsize[..][..p] == rsize[..p] && rsize[..][..p + 1] == rsize[..p + 1];
      rpos := rpos + rsize[p];
      p := p + 1;
    }
    assert rsize[..p] == rsize[..];
  }

  /** The collectives of lines 291 and 299-302, over the buckets outs[p] of
      every rank p: rank r receives from each rank p, in rank order, the
      bucket p built for r. */
  predicate Square(outs: seq<seq<seq<Edge>>>)
  {
    forall p :: 0 <= p < |outs| ==> |outs[p]| == |outs|
  }

  function SentTo(outs: seq<seq<seq<Edge>>>, r: nat): (col: seq<seq<Edge>>)
    requires Square(outs) && r < |outs|
    ensures |col| == |outs| && forall p :: 0 <= p < |outs| ==> col[p] == outs[p][r]
  {
    seq(|outs|, p requires 0 <= p < |outs| => outs[p][r])
  }

  /** rsize on rank r after MPI_Alltoall (line 291). */
  function RecvSizes(outs: seq<seq<seq<Edge>>>, r: nat): (rsize: seq<int>)
    requires Square(outs) && r < |outs|
    ensures rsize == Lengths(SentTo(outs, r))
  {
    seq(|outs|, p requires 0 <= p < |outs| => |outs[p][r]|)
  }

  /** rredata on rank r after MPI_Alltoallv (lines 299-302). */
  function Received(outs: seq<seq<seq<Edge>>>, r: nat): seq<Edge>
    requires Square(outs) && r < |outs|
  {
    Concat(SentTo(outs, r))
  }

  /** The receive displacements place rank p's bucket for r at rdispls[p]. */
  lemma ReceiveSlice(outs: seq<seq<seq<Edge>>>, r: nat, p: nat)
    requires Square(outs) && r < |outs| && p < |outs|
    ensures var rdispls := ExclusiveScan(RecvSizes(outs, r));
      0 <= rdispls[p] && rdispls[p] + |outs[p][r]| <= |Received(outs, r)| &&
      Received(outs, r)[rdispls[p] .. rdispls[p] + |outs[p][r]|] == outs[p][r]
  {
    ConcatSlice(SentTo(outs, r), p);
  }

  /** Received edges belong to the receiver: when every rank's buckets are
      those of Distribute, every edge rank r receives has its source in r's
      vertex range. */
  lemma ReceivedOwned(lists: seq<seq<Edge>>, V: nat, r: nat)
    requires |lists| >= 1 && r < |lists|
    ensures Sorted(Parts(V, |lists|))
    ensures var outs := seq(|lists|, p requires 0 <= p < |lists| => Buckets(Doubled(lists[p]), Parts(V, |lists|), |lists|));
      Square(outs) &&
      forall d: Edge :: d in Received(outs, r) ==> Parts(V, |lists|)[r] <= d.i < Parts(V, |lists|)[r + 1]
  {
    var nprocs := |lists|;
    PartsShape(V, nprocs);
    var outs := seq(nprocs, p requires 0 <= p < nprocs => Buckets(Doubled(lists[p]), Parts(V, nprocs), nprocs));
    var col := SentTo(outs, r);
    forall p | 0 <= p < nprocs
      ensures forall d: Edge :: d in col[p] ==> Parts(V, nprocs)[r] <= d.i < Parts(V, nprocs)[r + 1]
    {
      BucketOwned(Doubled(lists[p]), V, nprocs, r);
    }
    ConcatMembers(col, Parts(V, nprocs)[r], Parts(V, nprocs)[r + 1]);
  }

  lemma {:induction false} ConcatMembers(ss: seq<seq<Edge>>, lo: int, hi: int)
    requires forall p :: 0 <= p < |ss| ==> forall d: Edge :: d in ss[p] ==> lo <= d.i < hi
    ensures forall d: Edge :: d in Concat(ss) ==> lo <= d.i < hi
    decreases |ss|
  {
    if ss != [] {
      ConcatMembers(ss[..|ss| - 1], lo, hi);
    }
  }

  /** The number of edges each rank receives, and sends, by rank. */
  function ReceivedTotals(outs: seq<seq<seq<Edge>>>): (t: seq<int>)
    requires Square(outs)
    ensures |t| == |outs| && forall r :: 0 <= r < |outs| ==> t[r] == |Received(outs, r)|
  {
    seq(|outs|, r requires 0 <= r < |outs| => |Received(outs, r)|)
  }

  function SentTotals(outs: seq<seq<seq<Edge>>>): (t: seq<int>)
    ensures |t| == |outs| && forall p :: 0 <= p < |outs| ==> t[p] == Sum(Lengths(outs[p]))
  {
    seq(|outs|, p requires 0 <= p < |outs| => Sum(Lengths(outs[p])))
  }

  /** Entry [p][r]: the number of edges rank p sends to rank r. */
  function SizeTable(outs: seq<seq<seq<Edge>>>): (m: seq<seq<int>>)
    requires Square(outs)
    ensures |m| == |outs| && forall p :: 0 <= p < |outs| ==> m[p] == Lengths(outs[p])
  {
    seq(|outs|, p requires 0 <= p < |outs| => Lengths(outs[p]))
  }

  lemma ColumnReceived(outs: seq<seq<seq<Edge>>>, r: nat)
    requires Square(outs) && r < |outs|
    ensures Sum(Column(SizeTable(outs), r)) == |Received(outs, r)|
  {
    ConcatLength(SentTo(outs, r));
    assert Column(SizeTable(outs), r) == Lengths(SentTo(outs, r));
  }

  /** The exchange loses and invents nothing: the edges received over all
      ranks are as many as the edges sent over all ranks. */
  lemma ExchangeConserves(outs: seq<seq<seq<Edge>>>)
    requires Square(outs)
    ensures Sum(ReceivedTotals(outs)) == Sum(SentTotals(outs))
  {
    var n := |outs|;
    var m := SizeTable(outs);
    SumRowsColumns(m, n);
    assert RowSums(m) == SentTotals(outs);
    forall r | 0 <= r < n
      ensures ColumnSums(m, n)[r] == ReceivedTotals(outs)[r]
    {
      ColumnReceived(outs, r);
    }
    assert ColumnSums(m, n) == ReceivedTotals(outs);
  }
}
