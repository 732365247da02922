/** Shard discovery and assignment (parallel-shards.cpp lines 93-124): the
    tiles (ci, cj) of [start, end]² are visited row-major and each one whose
    file exists goes to the next rank 0, 1, 2, ... */
module ShardAssigner {
  import opened Wrappers
  import opened ShardNames

  datatype Tile = Tile(ci: nat, cj: nat)

  function TilePath(dir: string, t: Tile): string
  {
    ShardPath(dir, t.ci, t.cj)
  }

  /** Row-major order: ci first, then cj. */
  predicate Before(s: Tile, t: Tile)
  {
    s.ci < t.ci || (s.ci == t.ci && s.cj < t.cj)
  }

  predicate InSquare(t: Tile, start: nat, end: nat)
  {
    start <= t.ci <= end && start <= t.cj <= end
  }

  predicate RowMajor(ts: seq<Tile>)
  {
    forall a, b :: 0 <= a < b < |ts| ==> Before(ts[a], ts[b])
  }

  /** The tiles (ci, start), ..., (ci, cjEnd - 1) whose shard file exists,
      in the order the inner loop visits them. */
  function ExistingInRow(dir: string, fileExists: string -> bool, ci: nat, start: nat, cjEnd: nat): seq<Tile>
    decreases cjEnd
  {
    if cjEnd <= start then []
    else
      ExistingInRow(dir, fileExists, ci, start, cjEnd - 1)
      + (if fileExists(ShardPath(dir, ci, cjEnd - 1)) then [Tile(ci, cjEnd - 1)] else [])
  }

  /** The existing tiles of rows start .. ciEnd - 1, columns start .. end, row-major. */
  function ExistingInRows(dir: string, fileExists: string -> bool, start: nat, end: nat, ciEnd: nat): seq<Tile>
    decreases ciEnd
  {
    if ciEnd <= start then []
    else
      ExistingInRows(dir, fileExists, start, end, ciEnd - 1)
      + ExistingInRow(dir, fileExists, ciEnd - 1, start, end + 1)
  }

  /** The tiles of [start, end]² whose shard file exists, in visiting order:
      the p-th of them goes to rank p. */
  function AssignedTiles(dir: string, fileExists: string -> bool, start: nat, end: nat): seq<Tile>
  {
    ExistingInRows(dir, fileExists, start, end, end + 1)
  }

  /** The rank map built at line 109: rank p reads the p-th tile of ts. */
  function RankMap(dir: string, ts: seq<Tile>): map<nat, string>
  {
    map p | 0 <= p < |ts| :: TilePath(dir, ts[p])
  }

  function ShardAssignment(dir: string, fileExists: string -> bool, start: nat, end: nat): map<nat, string>
  {
    RankMap(dir, AssignedTiles(dir, fileExists, start, end))
  }

  lemma RankMapAppend(dir: string, ts: seq<Tile>, t: Tile)
    ensures RankMap(dir, ts + [t]) == RankMap(dir, ts)[|ts| := TilePath(dir, t)]
  {
  }

  /** Lines 93-115. The assertions of lines 79-81 are the precondition. */
  method DiscoverShards(dir: string, fileExists: string -> bool, start: nat, end: nat)
    returns (fileProc: map<nat, string>)
    requires start <= end
    ensures fileProc == ShardAssignment(dir, fileExists, start, end)
  {
    fileProc := map[];
    var proc: nat := 0;
    ghost var seen: seq<Tile> := [];
    var ci := start;
    while ci < end + 1
      invariant start <= ci <= end + 1
      invariant seen == ExistingInRows(dir, fileExists, start, end, ci)
      invariant proc == |seen| && fileProc == RankMap(dir, seen)
    {
      fileProc, proc := ScanRow(dir, fileExists, ci, start, end, fileProc, proc, seen);
      seen := seen + ExistingInRow(dir, fileExists, ci, start, end + 1);
      ci := ci + 1;
    }
  }

  /** The inner loop of lines 95-114 over row ci: each existing tile goes to
      the next rank. */
  method ScanRow(dir: string, fileExists: string -> bool, ci: nat, start: nat, end: nat,
                 fileProc0: map<nat, string>, proc0: nat, ghost seen0: seq<Tile>)
    returns (fileProc: map<nat, string>, proc: nat)
    requires start <= end + 1
    requires proc0 == |seen0| && fileProc0 == RankMap(dir, seen0)
    ensures proc == |seen0 + ExistingInRow(dir, fileExists, ci, start, end + 1)|
    ensures fileProc == RankMap(dir, seen0 + ExistingInRow(dir, fileExists, ci, start, end + 1))
  {
    fileProc, proc := fileProc0, proc0;
    ghost var seen := seen0;
    var cj := start;
    while cj < end + 1
      invariant start <= cj <= end + 1
      invariant seen == seen0 + ExistingInRow(dir, fileExists, ci, start, cj)
      invariant proc == |seen| && fileProc == RankMap(dir, seen)
    {
      // construct the file name and check whether the file exists
      var fileName := ShardPath(dir, ci, cj);
      ghost var row := ExistingInRow(dir, fileExists, ci, start, cj);
      assert ExistingInRow(dir, fileExists, ci, start, cj + 1)
          == row + (if fileExists(fileName) then [Tile(ci, cj)] else []);
      if fileExists(fileName) {
        assert seen0 + (row + [Tile(ci, cj)]) == seen + [Tile(ci, cj)];
        RankMapAppend(dir, seen, Tile(ci, cj));
        fileProc := fileProc[proc := fileName];
        proc := proc + 1;
        seen := seen + [Tile(ci, cj)];
      }
      cj := cj + 1;
    }
  }

  /** Lines 122-124: the shard a rank reads, if any. */
  function RankShard(fileProc: map<nat, string>, rank: nat): Option<string>
  {
    if rank in fileProc then Some(fileProc[rank]) else None
  }

  lemma {:induction false} ExistingInRowShape(dir: string, fileExists: string -> bool, ci: nat, start: nat, cjEnd: nat)
    ensures RowMajor(ExistingInRow(dir, fileExists, ci, start, cjEnd))
    ensures forall t :: t in ExistingInRow(dir, fileExists, ci, start, cjEnd) <==>
                        t.ci == ci && start <= t.cj < cjEnd && fileExists(TilePath(dir, t))
    decreases cjEnd
  {
    if cjEnd > start {
      ExistingInRowShape(dir, fileExists, ci, start, cjEnd - 1);
    }
  }

  lemma {:induction false} ExistingInRowsShape(dir: string, fileExists: string -> bool, start: nat, end: nat, ciEnd: nat)
    ensures RowMajor(ExistingInRows(dir, fileExists, start, end, ciEnd))
    ensures forall t :: t in ExistingInRows(dir, fileExists, start, end, ciEnd) <==>
                        start <= t.ci < ciEnd && start <= t.cj <= end && fileExists(TilePath(dir, t))
    decreases ciEnd
  {
    if ciEnd > start {
      var g := ExistingInRows(dir, fileExists, start, end, ciEnd - 1);
      var r := ExistingInRow(dir, fileExists, ciEnd - 1, start, end + 1);
      ExistingInRowsShape(dir, fileExists, start, end, ciEnd - 1);
      ExistingInRowShape(dir, fileExists, ciEnd - 1, start, end + 1);
      forall a, b | 0 <= a < b < |g + r| ensures Before((g + r)[a], (g + r)[b]) {
        if b >= |g| && a < |g| {
          assert g[a] in g;
          assert r[b - |g|] in r;
        }
      }
    }
  }

  /** The assignment: keys 0 .. k-1 hold the k existing shards, row-major,
      one shard per key, and every existing shard of the square has a key;
      ranks from k on read nothing. Which keys are read depends on nprocs
      (RanksRead). */
  lemma ShardAssignmentSpec(dir: string, fileExists: string -> bool, start: nat, end: nat)
    ensures var ts := AssignedTiles(dir, fileExists, start, end);
      var fileProc := ShardAssignment(dir, fileExists, start, end);
      && (forall p: nat :: p in fileProc <==> p < |ts|)
      && (forall p: nat :: p < |ts| ==> fileProc[p] == TilePath(dir, ts[p]))
      && RowMajor(ts)
      && (forall t :: t in ts <==> InSquare(t, start, end) && fileExists(TilePath(dir, t)))
      && (forall rank: nat :: rank >= |ts| ==> RankShard(fileProc, rank) == None)
  {
    ExistingInRowsShape(dir, fileExists, start, end, end + 1);
  }

  /** Distinct ranks read distinct files. */
  lemma AssignmentInjective(dir: string, fileExists: string -> bool, start: nat, end: nat, p: nat, q: nat)
    requires end <= IntMax
    requires p in ShardAssignment(dir, fileExists, start, end)
    requires q in ShardAssignment(dir, fileExists, start, end)
    requires p != q
    ensures ShardAssignment(dir, fileExists, start, end)[p] != ShardAssignment(dir, fileExists, start, end)[q]
  {
    var ts := AssignedTiles(dir, fileExists, start, end);
    ShardAssignmentSpec(dir, fileExists, start, end);
    var s, t := ts[p], ts[q];
    assert s in ts && t in ts;
    assert s != t by {
      if p < q {
        assert Before(s, t);
      } else {
        assert Before(t, s);
      }
    }
    DecodeShardPath(dir, s.ci, s.cj, 1);
    DecodeShardPath(dir, t.ci, t.cj, 1);
  }

  /** The files read by ranks 0 .. nprocs-1 (line 122). */
  function FilesRead(fileProc: map<nat, string>, nprocs: nat): set<string>
  {
    set rank: nat | rank < nprocs && rank in fileProc :: fileProc[rank]
  }

  /** Nothing at lines 109-111 bounds proc by nprocs: with nprocs ranks, the
      files read are exactly the first min(k, nprocs) of the k existing
      shards, and an existing shard at position nprocs or later is read by
      no rank. */
  lemma RanksRead(dir: string, fileExists: string -> bool, start: nat, end: nat, nprocs: nat)
    requires end <= IntMax
    ensures var ts := AssignedTiles(dir, fileExists, start, end);
      var fileProc := ShardAssignment(dir, fileExists, start, end);
      && (forall rank: nat :: rank < nprocs ==>
            RankShard(fileProc, rank) == if rank < |ts| then Some(TilePath(dir, ts[rank])) else None)
      && FilesRead(fileProc, nprocs) == (set q: nat | q < |ts| && q < nprocs :: TilePath(dir, ts[q]))
      && (forall q :: nprocs <= q < |ts| ==> TilePath(dir, ts[q]) !in FilesRead(fileProc, nprocs))
  {
    var ts := AssignedTiles(dir, fileExists, start, end);
    var fileProc := ShardAssignment(dir, fileExists, start, end);
    ShardAssignmentSpec(dir, fileExists, start, end);
    forall q | nprocs <= q < |ts|
      ensures TilePath(dir, ts[q]) !in FilesRead(fileProc, nprocs)
    {
      if TilePath(dir, ts[q]) in FilesRead(fileProc, nprocs) {
        var rank: nat :| rank < nprocs && rank in fileProc && fileProc[rank] == TilePath(dir, ts[q]);
        AssignmentInjective(dir, fileExists, start, end, rank, q);
      }
    }
  }
}
