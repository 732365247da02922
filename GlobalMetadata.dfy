/** The global edge and vertex counts (parallel-shards.cpp lines 197-201):
    the MPI_SUM and MPI_MAX reductions over the ranks' local values, taken
    as functions of a sequence indexed by rank. */
module GlobalMetadata {
  import opened Wrappers
  import opened Seqs
  import opened Graph
  import opened ShardNames
  import opened VertexPartition
  import opened EdgeIngestor
  import opened EdgeRedistributor

  /** MPI_MAX over the ranks. */
  function MaxOf(s: seq<int>): (m: int)
    requires |s| > 0
    ensures forall r :: 0 <= r < |s| ==> s[r] <= m
    ensures exists r :: 0 <= r < |s| && s[r] == m
  {
    if |s| == 1 then s[0]
    else
      var m := MaxOf(s[..|s| - 1]);
      if s[|s| - 1] > m then s[|s| - 1] else m
  }

  /** Line 197: MPI_SUM of the local numEdges. */
  function GlobalNumEdges(localNumEdges: seq<int>): int
  {
    Sum(localNumEdges)
  }

  /** Lines 198-201 as written: the largest vertex id, plus one only for
      zero-based input. */
  function GlobalNumVerticesAsWritten(localNumVertices: seq<int>, oneBased: bool): int
    requires |localNumVertices| > 0
  {
    MaxOf(localNumVertices) + (if oneBased then 0 else 1)
  }

  /** The vertex count the rest of the conversion needs: the ids are already
      zero-based when reduced (one-based ids are decremented at line 162), so
      the count is the largest id plus one in both cases. */
  function GlobalNumVertices(localNumVertices: seq<int>): int
    requires |localNumVertices| > 0
  {
    MaxOf(localNumVertices) + 1
  }

  /** Every rank reports twice its record count (line 182), so the global
      edge count is twice the number of records read over all shards. */
  lemma GlobalEdgesDoubled(records: seq<int>, localNumEdges: seq<int>)
    requires |records| == |localNumEdges|
    requires forall r :: 0 <= r < |records| ==> localNumEdges[r] == 2 * records[r]
    ensures GlobalNumEdges(localNumEdges) == 2 * Sum(records)
  {
    SumScale(records, localNumEdges, 2);
  }

  /** The distribution and exchange (lines 240-305) deliver exactly the global
      edge count of line 197: when every edge read lies in the graph, the
      ranks together receive as many edges as the ranks' local numEdges
      (twice their records, line 182) add up to. */
  lemma ReceivedIsGlobalEdges(lists: seq<seq<Edge>>, V: nat)
    requires |lists| >= 1
    requires forall p, k :: 0 <= p < |lists| && 0 <= k < |lists[p]| ==> InGraph(lists[p][k], V)
    ensures Sorted(Parts(V, |lists|))
    ensures var outs := seq(|lists|, p requires 0 <= p < |lists| => Buckets(Doubled(lists[p]), Parts(V, |lists|), |lists|));
      Square(outs) &&
      Sum(ReceivedTotals(outs)) == GlobalNumEdges(seq(|lists|, p requires 0 <= p < |lists| => 2 * |lists[p]|))
  {
    var nprocs := |lists|;
    PartsShape(V, nprocs);
    var outs := seq(nprocs, p requires 0 <= p < nprocs => Buckets(Doubled(lists[p]), Parts(V, nprocs), nprocs));
    var localNumEdges := seq(nprocs, p requires 0 <= p < nprocs => 2 * |lists[p]|);
    forall p | 0 <= p < nprocs
      ensures SentTotals(outs)[p] == localNumEdges[p]
    {
      SentIsDoubled(lists[p], V, nprocs);
    }
    SentIsLocalEdges(outs, localNumEdges);
    GlobalEdgesDoubled(seq(nprocs, p requires 0 <= p < nprocs => |lists[p]|), localNumEdges);
  }

  /** One rank sends each of its edges twice over the buckets. */
  lemma SentIsDoubled(es: seq<Edge>, V: nat, nprocs: nat)
    requires nprocs >= 1
    requires forall k :: 0 <= k < |es| ==> InGraph(es[k], V)
    ensures Sorted(Parts(V, nprocs))
    ensures Sum(Lengths(Buckets(Doubled(es), Parts(V, nprocs), nprocs))) == 2 * |es|
  {
    DoubledInGraph(es, V);
    BucketsPartition(Doubled(es), V, nprocs);
  }

  lemma SentIsLocalEdges(outs: seq<seq<seq<Edge>>>, localNumEdges: seq<int>)
    requires Square(outs) && |localNumEdges| == |outs|
    requires forall p :: 0 <= p < |outs| ==> SentTotals(outs)[p] == localNumEdges[p]
    ensures Sum(ReceivedTotals(outs)) == GlobalNumEdges(localNumEdges)
  {
    ExchangeConserves(outs);
    assert SentTotals(outs) == localNumEdges;
  }

  /** With the corrected count every edge read lies in the graph: an
      endpoint is at least 0 and at most its rank's local maximum (as
      ReadShard ensures). */
  lemma EdgesInCorrectedGraph(lists: seq<seq<Edge>>, localNumVertices: seq<int>)
    requires |lists| == |localNumVertices| > 0
    requires forall r, k :: 0 <= r < |lists| && 0 <= k < |lists[r]| ==>
               0 <= lists[r][k].i <= localNumVertices[r] && 0 <= lists[r][k].j <= localNumVertices[r]
    ensures forall r, k :: 0 <= r < |lists| && 0 <= k < |lists[r]| ==>
              InGraph(lists[r][k], GlobalNumVertices(localNumVertices))
  {
  }

  /** As written, with one-based input an edge reaching the largest vertex
      id falls outside the graph of GlobalNumVerticesAsWritten vertices. */
  lemma AsWrittenMissesLargestVertex(localNumVertices: seq<int>, e: Edge)
    requires |localNumVertices| > 0
    requires e.i == MaxOf(localNumVertices) || e.j == MaxOf(localNumVertices)
    ensures !InGraph(e, GlobalNumVerticesAsWritten(localNumVertices, true))
  {
  }

  /** A one-based shard 1__1.csv read with ORG_WEIGHT, holding the single
      line "1,2,0,1.0" (fields v0 = 1, v1 = 2, info = 0 and a weight): the record
      becomes edge (0, 1), so the largest id is 1 and lines 198-201 give
      one vertex. With one rank, vertex 1 is then owned by rank 1, which
      does not exist, and edgeCount[1 + 1] lies past the two entries
      allocated at line 215. The corrected count is 2 and holds the edge. */
  lemma OneBasedCountCounterexample(dir: string, shardCount: int, w: Weight)
    ensures DecodeOffsets(ShardPath(dir, 1, 1), shardCount) == Some(ShardOffsets(0, 0))
    ensures var e := Normalise(Fields(1, 2, 0, w), OrgWeight, true, ShardOffsets(0, 0));
      && e == Edge(0, 1, w)
      && GlobalNumVerticesAsWritten([1], true) == 1
      && Parts(1, 1) == [0, 1]
      && Owner(Parts(1, 1), e.j) == 1
      && e.j + 1 >= GlobalNumVerticesAsWritten([1], true) + 1
      && !InGraph(e, GlobalNumVerticesAsWritten([1], true))
      && GlobalNumVertices([1]) == 2 && InGraph(e, GlobalNumVertices([1]))
  {
    DecodeShardPath(dir, 1, 1, shardCount);
    PartsShape(1, 1);
    assert Parts(1, 1) == [0, 1];
    assert UpperBound([0, 1], 1, 0, 2) == 2;
  }

  /** Negative ids reach the exchange. The entry checks allow start index
      0 (lines 79-81), and a tile (0, cj) decodes to v_lo = -shardCount at
      line 131; with one-based input an id 0 becomes -1 at line 162. Either
      id is owned by rank -1 (lines 245-246). */
  lemma NegativeIdCounterexample(dir: string, ci: nat, cj: nat, shardCount: int, V: nat, P: nat, w: Weight)
    requires ci == 0 && cj <= IntMax
    requires shardCount >= 1 && P >= 1
    ensures DecodeOffsets(ShardPath(dir, ci, cj), shardCount) == Some(ShardOffsets(-shardCount, (cj - 1) * shardCount))
    ensures Sorted(Parts(V, P))
    ensures var e := Normalise(Fields(0, 1, 0, w), OrgWeight, false, ShardOffsets(-shardCount, (cj - 1) * shardCount));
      e.i == -shardCount && Owner(Parts(V, P), e.i) == -1
    ensures var e := Normalise(Fields(0, 1, 0, w), OrgWeight, true, ShardOffsets(0, 0));
      e == Edge(-1, 0, w) && Owner(Parts(V, P), e.i) == -1
  {
    TileZeroOffsets(dir, ci, cj, shardCount);
    NegativeIdUnowned(V, P, -shardCount);
    NegativeIdUnowned(V, P, -1);
  }

  lemma TileZeroOffsets(dir: string, ci: nat, cj: nat, shardCount: int)
    requires ci == 0 && cj <= IntMax
    ensures DecodeOffsets(ShardPath(dir, ci, cj), shardCount) == Some(ShardOffsets(-shardCount, (cj - 1) * shardCount))
  {
    DecodeShardPath(dir, ci, cj, shardCount);
    RowZeroOffsets(DecodeOffsets(ShardPath(dir, ci, cj), shardCount), ci - 1, cj - 1, shardCount);
  }

  lemma RowZeroOffsets(o: Option<ShardOffsets>, d: int, e: int, shardCount: int)
    requires d == -1 && o == Some(ShardOffsets(d * shardCount, e * shardCount))
    ensures o == Some(ShardOffsets(-shardCount, e * shardCount))
  {
  }
}
