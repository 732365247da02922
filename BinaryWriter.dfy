/** Part 3 of the conversion (parallel-shards.cpp lines 340-421): rank 0
    writes the vertex and edge counts and the row offsets, then every rank
    writes its CSR entries at its own offset, each buffer in writes of at
    most INT_MAX bytes. */
module BinaryWriter {
  import opened Seqs
  import opened Graph
  import opened ShardNames
  import opened ByteCodec

  /** data placed at offset, offset + 1, ... */
  function Span(offset: int, data: seq<Byte>): map<int, Byte>
    decreases |data|
  {
    if data == [] then map[]
    else Span(offset, data[..|data| - 1])[offset + |data| - 1 := data[|data| - 1]]
  }

  /** A span covers exactly the positions offset .. offset + |data| - 1,
      with the data in order. */
  lemma {:induction false} SpanSpec(offset: int, data: seq<Byte>)
    ensures forall k :: k in Span(offset, data) <==> offset <= k < offset + |data|
    ensures forall k :: offset <= k < offset + |data| ==> Span(offset, data)[k] == data[k - offset]
    decreases |data|
  {
    if data != [] {
      SpanSpec(offset, data[..|data| - 1]);
    }
  }

  /** Two adjacent spans make one. */
  lemma SpanJoin(offset: int, a: seq<Byte>, b: seq<Byte>)
    ensures Span(offset, a) + Span(offset + |a|, b) == Span(offset, a + b)
  {
    SpanSpec(offset, a);
    SpanSpec(offset + |a|, b);
    SpanSpec(offset, a + b);
    var l, r := Span(offset, a) + Span(offset + |a|, b), Span(offset, a + b);
    forall k | k in l
      ensures k in r && l[k] == r[k]
    {
    }
    forall k | k in r
      ensures k in l
    {
    }
    assert l.Keys == r.Keys;
  }

  /** The output file opened at line 340, as the bytes written so far. */
  class OutputFile {
    var bytes: map<int, Byte>

    constructor ()
      ensures bytes == map[]
    {
      bytes := map[];
    }

    /** MPI_File_write_at of count bytes, count being an int. */
    method WriteAt(offset: int, data: seq<Byte>)
      requires 0 <= offset && |data| <= IntMax
      modifies this
      ensures bytes == old(bytes) + Span(offset, data)
    {
      bytes := bytes + Span(offset, data);
    }
  }

  function Min(a: int, b: int): int
  {
    if a <= b then a else b
  }

  /** One more chunk extends what is written by the chunk's bytes. */
  lemma WriteStep(base: map<int, Byte>, cur: map<int, Byte>, offset: int, off: int, payload: seq<Byte>, t: nat, c: nat)
    requires t + c <= |payload| && off == offset + t
    requires cur == base + Span(offset, payload[..t])
    ensures cur + Span(off, payload[t..t + c]) == base + Span(offset, payload[..t + c])
  {
    var a, b := payload[..t], payload[t..t + c];
    assert a + b == payload[..t + c];
    var s1, s2, s := Span(offset, a), Span(offset + t, b), Span(offset, payload[..t + c]);
    SpanJoin(offset, a, b);
    assert s1 + s2 == s;
    UnionAssoc(base, s1, s2);
  }

  lemma UnionAssoc(a: map<int, Byte>, b: map<int, Byte>, c: map<int, Byte>)
    ensures (a + b) + c == a + (b + c)
  {
    var l, r := (a + b) + c, a + (b + c);
    forall k | k in l
      ensures k in r && l[k] == r[k]
    {
    }
    assert l.Keys == r.Keys;
  }

  /** Lines 363-380, and the same code at 404-421: a buffer shorter than
      INT_MAX goes in one write; a longer one in chunks of INT_MAX bytes
      and a last, shorter chunk. The chunks are consecutive, none is longer
      than INT_MAX, together they cover the buffer, and the file ends as
      after one unbounded write. */
  method BoundedWrite(f: OutputFile, offset: int, payload: seq<Byte>) returns (ghost chunks: seq<int>)
    requires 0 <= offset
    modifies f
    ensures f.bytes == old(f.bytes) + Span(offset, payload)
    ensures forall k :: 0 <= k < |chunks| ==> 0 <= chunks[k] <= IntMax
    ensures Sum(chunks) == |payload|
  {
    var tot := |payload|;
    if tot < IntMax {
      f.WriteAt(offset, payload);
      chunks := [tot];
      assert Sum(chunks) == Sum([]) + tot;
    } else {
      var chunk := IntMax;
      var transf := 0;
      var off := offset;
      chunks := [];
      while transf < tot
        invariant 0 <= transf <= tot && off == offset + transf
        invariant chunk == Min(IntMax, tot - transf)
        invariant forall k :: 0 <= k < |chunks| ==> 0 <= chunks[k] <= IntMax
        invariant Sum(chunks) == transf
        invariant f.bytes == old(f.bytes) + Span(offset, payload[..transf])
        decreases tot - transf
      {
        WriteStep(old(f.bytes), f.bytes, offset, off, payload, transf, chunk);
        f.WriteAt(off, payload[transf..transf + chunk]);
        SumAppend(chunks, [chunk]);
        assert Sum([chunk]) == Sum([]) + chunk;
        chunks := chunks + [chunk];
        transf := transf + chunk;
        off := off + chunk;
        if tot - transf < IntMax {
          chunk := tot - transf;
        }
      }
      assert payload[..transf] == payload;
    }
  }

  /** Byte offsets of the file (lines 360-364 and 402): the vertex count at
      0, the edge count at 8, the row offsets from 16, and the edge region
      after a table of V + 1 offsets. */
  const HeaderSize: nat := 2 * ElemSize

  function EdgeRegionStart(V: int): int
  {
    HeaderSize + (V + 1) * ElemSize
  }

  /** Line 402: rank r writes at the region start plus the CSR entries of
      the ranks before it, e_offset being MPI_Exscan of numEdges (0 on
      rank 0, which the initialisation at line 396 provides). */
  function EdgeOffset(V: int, numEdges: seq<int>, r: nat): int
    requires r < |numEdges|
  {
    EdgeRegionStart(V) + ExclusiveScan(numEdges)[r] * EntrySize
  }

  predicate NonNegative(s: seq<int>)
  {
    forall r :: 0 <= r < |s| ==> s[r] >= 0
  }

  /** The ranks' edge ranges follow one another in rank order, the first
      at the start of the edge region, and do not overlap. */
  lemma EdgeRanges(V: int, numEdges: seq<int>, r: nat, s: nat)
    requires NonNegative(numEdges) && r < s < |numEdges|
    ensures EdgeOffset(V, numEdges, 0) == EdgeRegionStart(V)
    ensures EdgeOffset(V, numEdges, r + 1) == EdgeOffset(V, numEdges, r) + numEdges[r] * EntrySize
    ensures EdgeOffset(V, numEdges, r) + numEdges[r] * EntrySize <= EdgeOffset(V, numEdges, s)
  {
    ExclusiveScanSteps(numEdges);
    PrefixSumMonotone(numEdges, r + 1, s);
  }

  /** The last rank's range ends where the whole edge array ends. */
  lemma EdgeRegionEnd(V: int, numEdges: seq<int>)
    requires |numEdges| > 0
    ensures EdgeOffset(V, numEdges, |numEdges| - 1) + numEdges[|numEdges| - 1] * EntrySize
         == EdgeRegionStart(V) + Sum(numEdges) * EntrySize
  {
    ExclusiveScanSteps(numEdges);
  }

  /** Lines 390-393 as written: csrCols starts with numEdges default
      entries and emplace_back adds the received edges after them. `blank`
      is the default-constructed entry. */
  function CsrColumnsAsWritten(rredata: seq<Edge>, blank: CsrEntry): seq<CsrEntry>
  {
    seq(|rredata|, _ => blank) + CsrColumns(rredata)
  }

  /** The evident intent: entry k is the target and weight of edge k. */
  function CsrColumns(rredata: seq<Edge>): (cols: seq<CsrEntry>)
    ensures |cols| == |rredata|
    ensures forall k :: 0 <= k < |rredata| ==> cols[k] == CsrEntry(rredata[k].j, rredata[k].w)
  {
    seq(|rredata|, k requires 0 <= k < |rredata| => CsrEntry(rredata[k].j, rredata[k].w))
  }

  /** tot_bytes covers numEdges entries from the start of csrCols, so the
      code writes the default entries: any received edge whose target or
      weight differs from the default one is missing from the file. */
  lemma AsWrittenColumnsAreBlank(rredata: seq<Edge>, blank: CsrEntry, k: nat)
    requires k < |rredata|
    ensures |CsrColumnsAsWritten(rredata, blank)| == 2 * |rredata|
    ensures CsrColumnsAsWritten(rredata, blank)[..|rredata|] == seq(|rredata|, _ => blank)
    ensures CsrEntry(rredata[k].j, rredata[k].w) != blank ==>
              CsrColumnsAsWritten(rredata, blank)[..|rredata|][k] != CsrColumns(rredata)[k]
  {
    assert CsrColumnsAsWritten(rredata, blank)[..|rredata|] == seq(|rredata|, _ => blank);
  }

  /** Lines 355-380 on rank 0: the two counts and then `entries` entries of
      edgeCount; the code as written passes V entries (tot_bytes at line
      360), the evident intent is V + 1. */
  method WriteHeader(f: OutputFile, V: int, E: int, edgeCount: seq<int>, entries: nat)
    requires entries <= |edgeCount|
    modifies f
    ensures f.bytes == old(f.bytes) + Span(0, Int64Bytes(V)) + Span(ElemSize, Int64Bytes(E))
                       + Span(HeaderSize, ElemsBytes(edgeCount[..entries]))
  {
    f.WriteAt(0, Int64Bytes(V));
    f.WriteAt(ElemSize, Int64Bytes(E));
    ghost var chunks := BoundedWrite(f, HeaderSize, ElemsBytes(edgeCount[..entries]));
  }

  /** Lines 388-421 on one rank, corrected: the CSR entries of the
      received, sorted edges (CsrColumns), written at the rank's offset.
      As written, they are appended after the numEdges default entries
      csrCols starts with (lines 389-393), the first numEdges are written,
      and so the payload is CsrColumnsAsWritten(rredata, blank)[..|rredata|], whose
      entries all keep their default value (AsWrittenColumnsAreBlank). */
  method WriteEdges(f: OutputFile, V: int, numEdges: seq<int>, rank: nat, rredata: seq<Edge>)
    requires rank < |numEdges| && numEdges[rank] == |rredata| && NonNegative(numEdges)
    requires V >= 0
    modifies f
    ensures f.bytes == old(f.bytes) + Span(EdgeOffset(V, numEdges, rank), EntriesBytes(CsrColumns(rredata)))
  {
    ExclusiveScanSteps(numEdges);
    SumNonNegative(numEdges[..rank]);
    var offset := EdgeOffset(V, numEdges, rank);
    ghost var chunks := BoundedWrite(f, offset, EntriesBytes(CsrColumns(rredata)));
  }

  /** As written, the table ends 8 bytes short of the edge region: the byte
      right after the V written offsets lies outside every span WriteHeader
      writes, whatever the edge count E, and before every rank's edge data,
      so no offset equal to the edge total is written. */
  lemma AsWrittenTableGap(V: nat, E: int, edgeCount: seq<int>, numEdges: seq<int>, r: nat, data: seq<Byte>)
    requires V <= |edgeCount|
    requires NonNegative(numEdges) && r < |numEdges|
    ensures var gap := HeaderSize + V * ElemSize;
      && gap !in Span(0, Int64Bytes(V)) + Span(ElemSize, Int64Bytes(E)) + Span(HeaderSize, ElemsBytes(edgeCount[..V]))
      && gap !in Span(EdgeOffset(V, numEdges, r), data)
      && HeaderSize + |ElemsBytes(edgeCount[..V])| == gap
      && gap < EdgeRegionStart(V) <= EdgeOffset(V, numEdges, r)
  {
    ExclusiveScanSteps(numEdges);
    SumNonNegative(numEdges[..r]);
    SpanSpec(0, Int64Bytes(V));
    SpanSpec(ElemSize, Int64Bytes(E));
    SpanSpec(HeaderSize, ElemsBytes(edgeCount[..V]));
    SpanSpec(EdgeOffset(V, numEdges, r), data);
  }

  /** With V + 1 entries the table fills the bytes from 16 up to the edge
      region exactly. */
  lemma CorrectedTableAdjoinsEdges(V: nat, edgeCount: seq<int>)
    requires |edgeCount| == V + 1
    ensures HeaderSize + |ElemsBytes(edgeCount)| == EdgeRegionStart(V)
    ensures forall k :: k in Span(HeaderSize, ElemsBytes(edgeCount)) <==> HeaderSize <= k < EdgeRegionStart(V)
  {
    SpanSpec(HeaderSize, ElemsBytes(edgeCount));
  }

  /** The bytes of every rank's CSR entries, by rank. */
  function Blobs(columns: seq<seq<CsrEntry>>): (bs: seq<seq<Byte>>)
    ensures |bs| == |columns| && forall r :: 0 <= r < |columns| ==> bs[r] == EntriesBytes(columns[r])
  {
    seq(|columns|, r requires 0 <= r < |columns| => EntriesBytes(columns[r]))
  }

  /** The file of the corrected conversion: the two counts, V + 1 row
      offsets and the ranks' CSR entries in rank order. */
  function FileImage(V: int, E: int, offsets: seq<int>, columns: seq<seq<CsrEntry>>): seq<Byte>
  {
    Int64Bytes(V) + Int64Bytes(E) + ElemsBytes(offsets) + Concat(Blobs(columns))
  }

  /** The writes of ranks 0 .. n-1 at lines 404-421, each at its EdgeOffset. */
  function RankWrites(V: int, columns: seq<seq<CsrEntry>>, n: nat): map<int, Byte>
    requires n <= |columns|
  {
    if n == 0 then map[]
    else RankWrites(V, columns, n - 1) + Span(EdgeOffset(V, Lengths(columns), n - 1), EntriesBytes(columns[n - 1]))
  }

  /** The bytes of ranks 0 .. m-1 take 16 bytes per CSR entry. */
  lemma BlobsPrefixLength(columns: seq<seq<CsrEntry>>, m: nat)
    requires m <= |columns|
    ensures |Concat(Blobs(columns)[..m])| == EntrySize * Sum(Lengths(columns)[..m])
  {
    var bs := Blobs(columns)[..m];
    var ls := Lengths(columns)[..m];
    ConcatLength(bs);
    var lb := Lengths(bs);
    forall q | 0 <= q < m
      ensures lb[q] == EntrySize * ls[q]
    {
      assert bs[q] == EntriesBytes(columns[q]);
    }
    SumScale(ls, lb, EntrySize);
  }

  /** Rank n - 1 writes right after the bytes of the ranks before it. */
  lemma RankWriteStep(V: int, columns: seq<seq<CsrEntry>>, n: nat, prev: map<int, Byte>)
    requires 0 < n <= |columns|
    requires prev == Span(EdgeRegionStart(V), Concat(Blobs(columns)[..n - 1]))
    ensures prev + Span(EdgeOffset(V, Lengths(columns), n - 1), EntriesBytes(columns[n - 1]))
         == Span(EdgeRegionStart(V), Concat(Blobs(columns)[..n]))
  {
    var bs := Blobs(columns);
    var before := Concat(bs[..n - 1]);
    BlobsPrefixLength(columns, n - 1);
    assert EdgeOffset(V, Lengths(columns), n - 1) == EdgeRegionStart(V) + |before|;
    ConcatStep(bs, n - 1);
    JoinAt(EdgeRegionStart(V), prev, EdgeOffset(V, Lengths(columns), n - 1), before,
           EntriesBytes(columns[n - 1]), Concat(bs[..n]));
  }

  /** SpanJoin with the pieces given by name. */
  lemma JoinAt(start: int, prev: map<int, Byte>, off: int, a: seq<Byte>, b: seq<Byte>, whole: seq<Byte>)
    requires prev == Span(start, a) && off == start + |a| && whole == a + b
    ensures prev + Span(off, b) == Span(start, whole)
  {
    SpanJoin(start, a, b);
  }

  lemma {:induction false} RankWritesSpan(V: int, columns: seq<seq<CsrEntry>>, n: nat)
    requires n <= |columns|
    ensures RankWrites(V, columns, n) == Span(EdgeRegionStart(V), Concat(Blobs(columns)[..n]))
    decreases n
  {
    if n == 0 {
      assert Blobs(columns)[..0] == [];
    } else {
      RankWritesSpan(V, columns, n - 1);
      RankWriteStep(V, columns, n, RankWrites(V, columns, n - 1));
    }
  }

  /** With V + 1 offsets, rank 0's writes and every rank's edge write
      together lay down the file image from byte 0 with no hole. */
  lemma WritesComposeFile(V: nat, E: int, offsets: seq<int>, columns: seq<seq<CsrEntry>>)
    requires |offsets| == V + 1
    ensures Span(0, Int64Bytes(V)) + Span(ElemSize, Int64Bytes(E)) + Span(HeaderSize, ElemsBytes(offsets))
            + RankWrites(V, columns, |columns|)
         == Span(0, FileImage(V, E, offsets, columns))
  {
    var h1, h2, t := Int64Bytes(V), Int64Bytes(E), ElemsBytes(offsets);
    var body := Concat(Blobs(columns));
    var m1 := Span(0, h1) + Span(ElemSize, h2);
    JoinAt(0, Span(0, h1), ElemSize, h1, h2, h1 + h2);
    var m2 := m1 + Span(HeaderSize, t);
    JoinAt(0, m1, HeaderSize, h1 + h2, t, h1 + h2 + t);
    RankWritesSpan(V, columns, |columns|);
    assert Blobs(columns)[..|columns|] == Blobs(columns);
    JoinAt(0, m2, EdgeRegionStart(V), h1 + h2 + t, body, FileImage(V, E, offsets, columns));
  }

  lemma SliceAfter(a: seq<Byte>, b: seq<Byte>, lo: nat, hi: nat)
    requires lo <= hi <= |b|
    ensures (a + b)[|a| + lo .. |a| + hi] == b[lo..hi]
  {
  }

  /** A slice of the piece y = x[lo..hi] is the matching slice of x. */
  lemma SliceWithin(x: seq<Byte>, lo: nat, hi: nat, y: seq<Byte>, a: nat, b: nat)
    requires lo <= hi <= |x| && x[lo..hi] == y && a <= b <= |y|
    ensures x[lo + a .. lo + b] == y[a..b]
  {
    assert forall q :: 0 <= q < b - a ==> x[lo + a .. lo + b][q] == y[a..b][q];
  }

  /** Reading the file image back: bytes 0-7 hold V, bytes 8-15 hold E and
      bytes 16 + 8k .. 16 + 8k + 7 hold row offset k. */
  lemma FileImageHeader(V: nat, E: int, offsets: seq<int>, columns: seq<seq<CsrEntry>>, k: nat)
    requires |offsets| == V + 1 && k <= V
    requires V <= Int64Max && Int64Min <= E <= Int64Max && Int64Min <= offsets[k] <= Int64Max
    ensures var img := FileImage(V, E, offsets, columns);
      && |img| >= EdgeRegionStart(V)
      && FromInt64Bytes(img[0..ElemSize]) == V
      && FromInt64Bytes(img[ElemSize..HeaderSize]) == E
      && FromInt64Bytes(img[HeaderSize + ElemSize * k .. HeaderSize + ElemSize * k + ElemSize]) == offsets[k]
  {
    var h1, h2, t := Int64Bytes(V), Int64Bytes(E), ElemsBytes(offsets);
    var body := Concat(Blobs(columns));
    var img := FileImage(V, E, offsets, columns);
    assert img == h1 + h2 + t + body;
    assert img[0..ElemSize] == h1;
    assert img[ElemSize..HeaderSize] == h2;
    ElemAt(offsets, k);
    SliceOfPrefix(h1 + h2 + t, body, HeaderSize + ElemSize * k, HeaderSize + ElemSize * k + ElemSize);
    SliceAfter(h1 + h2, t, ElemSize * k, ElemSize * k + ElemSize);
    Int64RoundTrip(V);
    Int64RoundTrip(E);
    Int64RoundTrip(offsets[k]);
  }

  /** Reading the file image back: edge k of rank r is the CSR entry at the
      rank's edge offset plus k entries. */
  lemma FileImageEntry(V: nat, E: int, offsets: seq<int>, columns: seq<seq<CsrEntry>>, r: nat, k: nat)
    requires |offsets| == V + 1 && r < |columns| && k < |columns[r]|
    ensures var at := EdgeOffset(V, Lengths(columns), r) + EntrySize * k;
      var img := FileImage(V, E, offsets, columns);
      0 <= at && at + EntrySize <= |img| && img[at .. at + EntrySize] == EntryBytes(columns[r][k])
  {
    var head := Int64Bytes(V) + Int64Bytes(E) + ElemsBytes(offsets);
    var body := Concat(Blobs(columns));
    assert FileImage(V, E, offsets, columns) == head + body;
    var pos := BodyEntry(columns, r, k);
    assert EdgeOffset(V, Lengths(columns), r) + EntrySize * k == |head| + pos;
    SliceAfter(head, body, pos, pos + EntrySize);
  }

  /** Within the edge bytes, edge k of rank r starts at pos. */
  lemma BodyEntry(columns: seq<seq<CsrEntry>>, r: nat, k: nat) returns (pos: nat)
    requires r < |columns| && k < |columns[r]|
    ensures pos == EntrySize * (ExclusiveScan(Lengths(columns))[r] + k)
    ensures pos + EntrySize <= |Concat(Blobs(columns))|
    ensures Concat(Blobs(columns))[pos .. pos + EntrySize] == EntryBytes(columns[r][k])
  {
    var bs := Blobs(columns);
    var body := Concat(bs);
    ConcatSlice(bs, r);
    var lo := Sum(Lengths(bs)[..r]);
    BlobOffset(columns, r);
    EntryAt(columns[r], k);
    var a, b := EntrySize * k, EntrySize * k + EntrySize;
    var blob := bs[r];
    assert blob == EntriesBytes(columns[r]);
    SliceWithin(body, lo, lo + |blob|, blob, a, b);
    pos := lo + a;
  }

  /** Rank r's bytes start 16 bytes per entry of the ranks before it. */
  lemma BlobOffset(columns: seq<seq<CsrEntry>>, r: nat)
    requires r < |columns|
    ensures Sum(Lengths(Blobs(columns))[..r]) == EntrySize * ExclusiveScan(Lengths(columns))[r]
  {
    var bs := Blobs(columns);
    BlobsPrefixLength(columns, r);
    ConcatLength(bs[..r]);
    assert Lengths(bs[..r]) == Lengths(bs)[..r];
  }
}
