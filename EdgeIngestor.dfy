/** Reading a rank's shard into its local edge list (parallel-shards.cpp
    lines 119-182), on lines already split into their fields. */
module EdgeIngestor {
  import opened Wrappers
  import opened Graph
  import opened ShardNames

  /** The weight modes of lines 152-159, taken as three separate variants. */
  datatype WeightMode = OrgWeight | AbsWeight | Unweighted

  /** One line of a shard split into its fields: two endpoint columns, the
      auxiliary count and the weight column (unused when unweighted). */
  datatype Fields = Fields(v0: int, v1: int, info: int, w: Weight)

  /** Lines 152-159: the weight kept for a line. */
  function LineWeight(mode: WeightMode, w: Weight): Weight
  {
    match mode
    case OrgWeight => w
    case AbsWeight => Fabs(w)
    case Unweighted => ZeroWeight
  }

  /** Lines 161-170: a one-based line is shifted to zero base, then the
      shard's offsets are added to the two columns. */
  function Normalise(f: Fields, mode: WeightMode, oneBased: bool, off: ShardOffsets): Edge
  {
    var base := if oneBased then 1 else 0;
    Edge(f.v0 - base + off.vLo, f.v1 - base + off.vHi, LineWeight(mode, f.w))
  }

  /** Lines 140-176: every line becomes one edge of edgeList, in file order;
      numVertices (0 before the loop, line 83) ends as the largest of 0 and
      all the endpoints read. */
  method ReadShard(lines: seq<Fields>, mode: WeightMode, oneBased: bool, off: ShardOffsets)
    returns (edgeList: seq<Edge>, numVertices: int)
    ensures |edgeList| == |lines|
    ensures forall k :: 0 <= k < |lines| ==> edgeList[k] == Normalise(lines[k], mode, oneBased, off)
    ensures 0 <= numVertices
    ensures forall k :: 0 <= k < |edgeList| ==> edgeList[k].i <= numVertices && edgeList[k].j <= numVertices
    ensures numVertices == 0 || exists k :: 0 <= k < |edgeList| && (edgeList[k].i == numVertices || edgeList[k].j == numVertices)
  {
    edgeList := [];
    numVertices := 0;
    var n := 0;
    while n < |lines|
      invariant 0 <= n <= |lines| && |edgeList| == n
      invariant forall k :: 0 <= k < n ==> edgeList[k] == Normalise(lines[k], mode, oneBased, off)
      invariant 0 <= numVertices
      invariant forall k :: 0 <= k < n ==> edgeList[k].i <= numVertices && edgeList[k].j <= numVertices
      invariant numVertices == 0 || exists k :: 0 <= k < n && (edgeList[k].i == numVertices || edgeList[k].j == numVertices)
    {
      var f := lines[n];
      var v0, v1 := f.v0, f.v1;
      if oneBased {
        v0 := v0 - 1;
        v1 := v1 - 1;
      }
      v0 := v0 + off.vLo;
      v1 := v1 + off.vHi;
      edgeList := edgeList + [Edge(v0, v1, LineWeight(mode, f.w))];
      if v0 > numVertices {
        numVertices := v0;
      }
      if v1 > numVertices {
        numVertices := v1;
      }
      n := n + 1;
    }
  }

  /** What a rank holds after reading: its edge list, its largest vertex id
      and numEdges of line 182. */
  datatype LocalInput = LocalInput(edgeList: seq<Edge>, numVertices: int, numEdges: int)

  /** Lines 119-182 for one rank. A rank without a shard reads nothing; a
      shard whose name does not decode (substr or stoi throws) is None. The
      lines of each file are given by `contents`. */
  method IngestRank(fileProc: map<nat, string>, rank: nat, contents: string -> seq<Fields>,
                    mode: WeightMode, oneBased: bool, shardCount: int)
    returns (r: Option<LocalInput>)
    ensures rank !in fileProc ==> r == Some(LocalInput([], 0, 0))
    ensures rank in fileProc ==> (r.None? <==> DecodeOffsets(fileProc[rank], shardCount).None?)
    ensures r.Some? ==> r.value.numEdges == 2 * |r.value.edgeList| && 0 <= r.value.numVertices
    ensures r.Some? && rank in fileProc ==>
              var lines := contents(fileProc[rank]);
              var off := DecodeOffsets(fileProc[rank], shardCount).value;
              |r.value.edgeList| == |lines| &&
              forall k :: 0 <= k < |lines| ==> r.value.edgeList[k] == Normalise(lines[k], mode, oneBased, off)
    ensures r.Some? ==> forall k :: 0 <= k < |r.value.edgeList| ==>
              r.value.edgeList[k].i <= r.value.numVertices && r.value.edgeList[k].j <= r.value.numVertices
    ensures r.Some? ==>
              (r.value.numVertices == 0 ||
               exists k :: 0 <= k < |r.value.edgeList| &&
                 (r.value.edgeList[k].i == r.value.numVertices || r.value.edgeList[k].j == r.value.numVertices))
  {
    if rank !in fileProc {
      return Some(LocalInput([], 0, 0));
    }
    var fileName := fileProc[rank];
    var off := DecodeOffsets(fileName, shardCount);
    if off.None? {
      return None;
    }
    var edgeList, numVertices := ReadShard(contents(fileName), mode, oneBased, off.value);
    r := Some(LocalInput(edgeList, numVertices, |edgeList| * 2));
  }
}
