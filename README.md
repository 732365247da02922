# parallel-shards: a verified model of the sharded CSV to binary CSR conversion

`loadParallelFileShards` (parallel-converters/parallel-shards.cpp) turns a
square of CSV edge-list shards `"<ci>__<cj>.csv"` into one binary CSR
graph file. It runs in these stages:

- The existing shards are numbered 0, 1, 2, ... in row-major order, and rank
  p reads shard p. Nothing bounds the numbering by the number of ranks, so
  with more shards than ranks the shards numbered nprocs and above are read
  by no rank, and their edges are dropped.
- Each rank reads its shard into an edge list, shifting the vertex ids by
  offsets it decodes from the shard's name.
- The ranks agree on the vertex and edge counts.
- The vertices are split into contiguous ranges, one per rank.
- Every edge is sent, in both directions, to the owners of its endpoints.
- The per-vertex degree counts become CSR row offsets.
- Each rank sorts what it received.
- Rank 0 writes the counts and the offsets, and every rank writes a
  numEdges-entry CSR payload at its own position, in writes of at most
  `INT_MAX` bytes. As written, that payload holds only default entries (see
  Findings); the model's `WriteEdges` writes the corrected CSR entries.

The Dafny project models each stage in the form the code has.

- **Loops become methods with invariants.** These are the discovery loop, the
  read loop, the `parts` fill, the bucketing loop, the displacement and
  flattening loops, the in-place prefix sum, the sort and the chunked writes.
- **Pure code becomes functions with lemmas.** These are the name decoding,
  `upper_bound`, the comparator and the offset arithmetic.
- **MPI collectives become functions over a sequence indexed by rank.** A sum,
  a maximum, an exclusive scan, and a transpose-and-concatenate for
  `Alltoallv`.

| module | stage |
|---|---|
| `Wrappers`, `Seqs`, `Graph` | Option; sums, concatenation, exclusive scans, row/column sums; the edge tuple |
| `ShardNames` | `std::to_string`, `std::stoi`, `find`, `find_last_of`, the shard path and its decoding (lines 98-99, 126-132) |
| `ShardAssigner` | discovery of the existing shards and the rank map (lines 93-124) |
| `EdgeIngestor` | record normalisation and the local vertex maximum (lines 119-182) |
| `GlobalMetadata` | global edge and vertex counts (lines 197-201) |
| `VertexPartition` | `parts`, `localNumVertices`, owner lookup (lines 207-213, 245-246) |
| `EdgeRedistributor` | doubling into buckets, degree counts, displacements, flattening, the exchange (lines 215-305) |
| `PrefixCount` | reduction of the degree tables and the prefix sum (lines 308-316) |
| `LocalSorter` | sort only if unsorted (lines 322-330) |
| `ByteCodec` | the little-endian bytes of GraphElem and of the 16-byte CSR entry |
| `BinaryWriter` | the output file, chunked writes, file layout (lines 353-421) |

Integers are unbounded (`int`). A weight is its 64-bit IEEE-754 pattern
(`bv64`): it is carried unchanged, and `fabs` clears the sign bit. The
output file is a class holding a map from byte position to byte, and a write
is a map union.

## Model

| member | source | states |
|---|---|---|
| ShardNames.NatToString | parallel-converters/parallel-shards.cpp:98 | `std::to_string` of a non-negative id is a non-empty string of decimal digits |
| ShardNames.DigitsValueOfNatToString | parallel-converters/parallel-shards.cpp:98 | the digits of `to_string(n)` denote n |
| ShardNames.NatToStringInjective | parallel-converters/parallel-shards.cpp:98 | distinct ids give distinct decimal strings |
| ShardNames.Stoi | parallel-converters/parallel-shards.cpp:131-132 | `std::stoi` gives a value in the 32-bit int range, or fails (no digits, or out of range) |
| ShardNames.StoiOfNatToString | parallel-converters/parallel-shards.cpp:131-132 | `stoi(to_string(n)) == n` for every n up to INT_MAX |
| ShardNames.FindFrom | parallel-converters/parallel-shards.cpp:127-129 | `find` returns the first occurrence at or after the start, and npos only when there is none |
| ShardNames.FindLast | parallel-converters/parallel-shards.cpp:126 | `find_last_of` returns the last position holding the character, and npos only when there is none |
| ShardNames.ShardName | parallel-converters/parallel-shards.cpp:98 | definition: `to_string(ci) + "__" + to_string(cj) + ".csv"`. Its decoding is proved by DotOfShardName, SeparatorOfShardName and DecodeShardPath |
| ShardNames.ShardPath | parallel-converters/parallel-shards.cpp:99 | definition: the directory, a `/`, then the shard name. LastSlashOfShardPath proves the name is recovered after the last `/` |
| ShardNames.FileNameOf | parallel-converters/parallel-shards.cpp:126 | the file name is a suffix of the path with no `/` in it, and when shorter than the path it follows a `/`. With no `/` at all, npos + 1 wraps to 0 and the whole path is kept |
| ShardNames.StripExtension | parallel-converters/parallel-shards.cpp:127 | the result is a prefix of the file name holding no `.`, and is followed by a `.` when shorter. With no `.` the whole name is kept, as `substr(0, npos)` does |
| ShardNames.RightPart | parallel-converters/parallel-shards.cpp:128 | the result is a suffix of noext. With no `__`, npos + 2 wraps to 1 and it fails only on an empty noext; otherwise it fails (`substr` throws `out_of_range`) exactly when the start position `u + 2` lies past the end of noext |
| ShardNames.LeftPart | parallel-converters/parallel-shards.cpp:129 | the result is a prefix of noext, and all of noext when there is no `__` (a length of npos) |
| ShardNames.ScaleOffsets | parallel-converters/parallel-shards.cpp:131-132 | succeeds exactly when `stoi` succeeds on both indices. ScaleOffsetsOf gives the values `(l-1)*shardCount` and `(r-1)*shardCount` |
| ShardNames.DecodeOffsets | parallel-converters/parallel-shards.cpp:126-132 | definition: the composition of lines 126-132, failing where `substr` or `stoi` throws. DecodeShardPath proves it inverts ShardPath |
| ShardNames.LastSlashOfShardPath | parallel-converters/parallel-shards.cpp:99-126 | the last '/' of a shard path is the one line 99 inserts, so the file name is recovered whatever the directory holds |
| ShardNames.DotOfShardName | parallel-converters/parallel-shards.cpp:98-127 | the first '.' of a shard name closes the second index |
| ShardNames.SeparatorOfShardName | parallel-converters/parallel-shards.cpp:98-129 | the first "__" of a shard name follows the first index |
| ShardNames.DecodeShardPath | parallel-converters/parallel-shards.cpp:98-132 | decoding the path built for tile (ci, cj) gives `v_lo = (ci-1)*shardCount` and `v_hi = (cj-1)*shardCount` |
| ShardAssigner.DiscoverShards | parallel-converters/parallel-shards.cpp:93-115 | the loop builds exactly `ShardAssignment`: the p-th existing tile in row-major order goes to rank p |
| ShardAssigner.ScanRow | parallel-converters/parallel-shards.cpp:95-114 | one pass of the inner loop appends row ci's existing tiles in column order, numbering them on from proc |
| ShardAssigner.RankMapAppend | parallel-converters/parallel-shards.cpp:109-111 | inserting the next file under key `proc` and then counting it extends the rank map by one entry |
| ShardAssigner.ExistingInRowsShape | parallel-converters/parallel-shards.cpp:94-115 | the tiles visited are in row-major order, and a tile is among them iff it lies in the visited rows and columns and its file exists |
| ShardAssigner.ShardAssignmentSpec | parallel-converters/parallel-shards.cpp:93-124 | keys 0..k-1 of the rank map hold the k existing shards, in row-major order, one each. Every existing shard of the square has a key, and ranks k and above find nothing |
| ShardAssigner.RanksRead | parallel-converters/parallel-shards.cpp:93-124 | with nprocs ranks, rank p reads shard p when p < k and nothing otherwise; the files read are exactly the first min(k, nprocs) shards, and a shard numbered nprocs or above is read by no rank |
| ShardAssigner.RankShard | parallel-converters/parallel-shards.cpp:122-124 | definition: the `fileProc.find(rank)` lookup, with no shard when the key is absent. ShardAssignmentSpec and RanksRead state what each rank gets |
| ShardAssigner.AssignmentInjective | parallel-converters/parallel-shards.cpp:93-124 | distinct ranks read distinct files |
| Graph.Fabs | parallel-converters/parallel-shards.cpp:156 | `fabs` clears the sign bit and keeps all the other bits of the weight |
| EdgeIngestor.LineWeight | parallel-converters/parallel-shards.cpp:152-159 | definition: the weight as read with ORG_WEIGHT, its `fabs` with ABS_WEIGHT, and 0 unweighted. ReadShard applies it to every record |
| EdgeIngestor.Normalise | parallel-converters/parallel-shards.cpp:161-168 | definition: both ids less one when one-based, then plus v_lo and v_hi. ReadShard states that record k becomes this edge |
| EdgeIngestor.ReadShard | parallel-converters/parallel-shards.cpp:140-176 | record k becomes edge k, with both ids decremented when one-based and then shifted by v_lo and v_hi. numVertices is the largest of 0 and every endpoint, and is attained when positive |
| EdgeIngestor.IngestRank | parallel-converters/parallel-shards.cpp:119-182 | a rank without a shard has no edges and counts 0. A shard name that does not decode fails. Otherwise the edges are its normalised records, numVertices bounds every endpoint and is attained when positive, and numEdges is twice their number |
| GlobalMetadata.GlobalNumEdges | parallel-converters/parallel-shards.cpp:197 | definition: MPI_SUM of the local numEdges. GlobalEdgesDoubled and ReceivedIsGlobalEdges give its value |
| GlobalMetadata.GlobalNumVerticesAsWritten | parallel-converters/parallel-shards.cpp:198-201 | definition: MPI_MAX of the local maxima, plus one only when zero-based. AsWrittenMissesLargestVertex and OneBasedCountCounterexample show what it misses |
| GlobalMetadata.MaxOf | parallel-converters/parallel-shards.cpp:198 | MPI_MAX is an upper bound of every rank's value and is one of them |
| GlobalMetadata.GlobalEdgesDoubled | parallel-converters/parallel-shards.cpp:182-197 | the global edge count is twice the total number of records |
| GlobalMetadata.OneBasedCountCounterexample | parallel-converters/parallel-shards.cpp:161-201 | a one-based shard with the line `1,2,0,1.0` (fields 1, 2, 0 and a weight) gives a count of 1 vertex, yet has an edge to vertex 1, which no rank owns; the corrected count 2 holds it |
| GlobalMetadata.ReceivedIsGlobalEdges | parallel-converters/parallel-shards.cpp:182-305 | when every edge lies in the graph, the edges all ranks receive in the exchange add up to the global edge count, twice the records read |
| GlobalMetadata.NegativeIdCounterexample | parallel-converters/parallel-shards.cpp:79-249 | start index 0 passes the entry checks and then tile (0, cj) decodes to `v_lo = -shardCount`, and a one-based id 0 becomes -1. In both cases the owner is -1 for any partition |
| GlobalMetadata.AsWrittenMissesLargestVertex | parallel-converters/parallel-shards.cpp:198-201 | with one-based input, an edge that reaches the largest id falls outside the graph the code counts |
| GlobalMetadata.EdgesInCorrectedGraph | parallel-converters/parallel-shards.cpp:172-201 | with the count max+1, every edge read lies inside the graph |
| VertexPartition.Parts | parallel-converters/parallel-shards.cpp:207-211 | nprocs + 1 boundaries `V*i/nprocs`. PartsShape proves they start at 0, end at V and never decrease |
| VertexPartition.LocalNumVertices | parallel-converters/parallel-shards.cpp:213 | definition: `V*(rank+1)/nprocs - V*rank/nprocs`. RangeSizes proves it is the range size `parts[rank+1] - parts[rank]` and bounds it |
| VertexPartition.BuildParts | parallel-converters/parallel-shards.cpp:207-211 | the filled array is `parts[i] = V*i/nprocs` for i = 0..nprocs |
| VertexPartition.PartsShape | parallel-converters/parallel-shards.cpp:207-211 | `parts[0] = 0`, `parts[nprocs] = V`, and `parts` never decreases |
| VertexPartition.RangeSizes | parallel-converters/parallel-shards.cpp:207-213 | `localNumVertices` of rank r is `parts[r+1]-parts[r]`, which is floor(V/nprocs) or that plus one, and exactly V/nprocs when nprocs divides V |
| VertexPartition.UpperBound | parallel-converters/parallel-shards.cpp:245 | `upper_bound` returns the first position whose boundary exceeds v: all before it are at most v, all from it on exceed v |
| VertexPartition.Owner | parallel-converters/parallel-shards.cpp:245-246 | definition: `upper_bound` minus one. OwnerSpec, OwnerUnique and NegativeIdUnowned characterise it |
| VertexPartition.OwnerSpec | parallel-converters/parallel-shards.cpp:245-246 | for 0 <= v < V the owner is a rank, and its range `[parts[o], parts[o+1])` holds v. A vertex on a boundary goes to the last range that starts at it |
| VertexPartition.NegativeIdUnowned | parallel-converters/parallel-shards.cpp:245-246 | a negative vertex id gets owner -1: `upper_bound` stops at `parts[0] = 0` |
| VertexPartition.OwnerUnique | parallel-converters/parallel-shards.cpp:245-246 | the owner is the only rank whose range holds v |
| EdgeRedistributor.Doubled | parallel-converters/parallel-shards.cpp:241-260 | record k is sent as (i, j, w) and then as (j, i, w) |
| EdgeRedistributor.DoubledStep | parallel-converters/parallel-shards.cpp:241-260 | one iteration sends exactly the record and its reverse |
| EdgeRedistributor.Buckets | parallel-converters/parallel-shards.cpp:242-259 | nprocs buckets, bucket p holding the sent edges whose source rank p owns, in sending order. BucketsPartition and BucketOwned give its properties |
| EdgeRedistributor.DegreeTable | parallel-converters/parallel-shards.cpp:242-259 | V + 1 entries: entry 0 is 0 and entry v+1 counts the sent edges whose source is v |
| EdgeRedistributor.BucketAppend | parallel-converters/parallel-shards.cpp:249 | sending an edge appends it to its source's owner's bucket and to no other |
| EdgeRedistributor.DegreeTableAppend | parallel-converters/parallel-shards.cpp:247 | sending an edge adds one to `edgeCount[source+1]` and changes no other entry |
| EdgeRedistributor.Send | parallel-converters/parallel-shards.cpp:242-249 | one endpoint's step moves the buckets and `edgeCount` to those of the edges sent so far plus this one |
| EdgeRedistributor.Distribute | parallel-converters/parallel-shards.cpp:215-260 | `outEdges` ends as the buckets of the doubled edge list by source owner, and `edgeCount` as its degree table (entry v+1 is the out-degree of v) |
| EdgeRedistributor.RecordBuckets | parallel-converters/parallel-shards.cpp:241-260 | a record (i, j, w) adds (i, j, w) to bucket owner(i) and (j, i, w) to bucket owner(j). No other bucket changes |
| EdgeRedistributor.BucketsPartition | parallel-converters/parallel-shards.cpp:241-260 | the bucket sizes add up to the number of edges sent, and the buckets together are a permutation of them |
| EdgeRedistributor.BucketOwned | parallel-converters/parallel-shards.cpp:245-249 | every edge in bucket p has its source in rank p's range |
| EdgeRedistributor.SendCounts | parallel-converters/parallel-shards.cpp:270-278 | `ssize` are the bucket sizes, `sdispls` their exclusive prefix sums, and the final `spos` their total |
| EdgeRedistributor.CopyInto | parallel-converters/parallel-shards.cpp:283 | `memcpy` places the bucket at the position given and leaves every other slot unchanged |
| EdgeRedistributor.Flatten | parallel-converters/parallel-shards.cpp:280-285 | `sredata` is the buckets concatenated in rank order |
| EdgeRedistributor.SendSlice | parallel-converters/parallel-shards.cpp:270-285 | `sredata[sdispls[p] .. sdispls[p]+ssize[p])` is bucket p |
| EdgeRedistributor.RecvDispls | parallel-converters/parallel-shards.cpp:293-297 | `rdispls` are the exclusive prefix sums of `rsize`, and the final `rpos` their total |
| EdgeRedistributor.RecvSizes | parallel-converters/parallel-shards.cpp:291 | after the Alltoall, rank r's `rsize[p]` is the size of rank p's bucket for r |
| EdgeRedistributor.ReceiveSlice | parallel-converters/parallel-shards.cpp:293-302 | on rank r, `rredata[rdispls[p] .. rdispls[p]+rsize[p])` is rank p's bucket for r |
| EdgeRedistributor.Received | parallel-converters/parallel-shards.cpp:299-302 | definition: the buckets for rank r of ranks 0, 1, ... concatenated in rank order, as MPI_Alltoallv delivers them. ReceiveSlice, ReceivedOwned and ExchangeConserves give its properties |
| EdgeRedistributor.ReceivedOwned | parallel-converters/parallel-shards.cpp:241-302 | every edge a rank receives has its source in that rank's vertex range |
| EdgeRedistributor.ExchangeConserves | parallel-converters/parallel-shards.cpp:291-305 | the edges received over all ranks are as many as those sent |
| PrefixCount.DegreeOfConcat | parallel-converters/parallel-shards.cpp:308-309 | summing entry v+1 of every rank's degree table gives the degree of v among all the edges sent |
| PrefixCount.ReducedAtRoot | parallel-converters/parallel-shards.cpp:308-309 | definition: MPI_SUM at the root over the first count entries, the rest keeping rank 0's values; its ensures gives the table's length. ReducedIsGlobalDegrees and AsWrittenLastEntry prove what the entries are |
| PrefixCount.ReducedIsGlobalDegrees | parallel-converters/parallel-shards.cpp:308-309 | the first `count` entries of the reduced table are the degree table of all the edges sent |
| PrefixCount.PrefixSumInPlace | parallel-converters/parallel-shards.cpp:315-316 | entry k < n becomes the sum of the old entries 0..k; entries from n on are unchanged |
| PrefixCount.DegreePrefix | parallel-converters/parallel-shards.cpp:247-316 | the inclusive prefix sum of a degree table at k is the number of edges whose source is below k |
| PrefixCount.RootOffsets | parallel-converters/parallel-shards.cpp:308-316 | as written (count V), for i < V `edgeCount[i]` ends as the number of edges sent whose source is below i; `edgeCount[0] = 0`, and the entries never decrease |
| PrefixCount.AsWrittenLastEntry | parallel-converters/parallel-shards.cpp:308-309 | entry V is left out of the reduction and keeps rank 0's own degree of vertex V-1 |
| PrefixCount.CorrectedOffsets | parallel-converters/parallel-shards.cpp:308-316 | with count V+1, entry i counts edges with source below i, and entry V is the total edge count |
| LocalSorter.Less | parallel-converters/parallel-shards.cpp:322-323 | definition: the `ecmp` comparator, ordering by i and then by j. AdjacentSortedIsSorted and the sort contracts are stated over it |
| LocalSorter.AdjacentSortedIsSorted | parallel-converters/parallel-shards.cpp:322-325 | no edge less than its predecessor iff no edge less than any earlier one |
| LocalSorter.IsSorted | parallel-converters/parallel-shards.cpp:325 | `is_sorted` with the comparator is true iff the list is sorted by (i, j) |
| LocalSorter.Sort | parallel-converters/parallel-shards.cpp:329 | the list ends sorted by (i, j) and is a permutation of the input |
| LocalSorter.SortIfUnsorted | parallel-converters/parallel-shards.cpp:325-330 | the list ends sorted and is a permutation of what was received; a list already sorted is not touched |
| ByteCodec.LittleEndianRoundTrip | parallel-converters/parallel-shards.cpp:355-356 | n little-endian bytes of x < 256^n read back as x |
| ByteCodec.Int64RoundTrip | parallel-converters/parallel-shards.cpp:355-364 | every 64-bit GraphElem reads back from its 8 two's-complement bytes |
| ByteCodec.EntryRoundTrip | parallel-converters/parallel-shards.cpp:393-405 | a CSR entry's target and weight bits read back from its 16 bytes |
| ByteCodec.ElemAt | parallel-converters/parallel-shards.cpp:364 | entry k of a GraphElem array sits at bytes 8k..8k+8 of its image |
| ByteCodec.EntryAt | parallel-converters/parallel-shards.cpp:405 | entry k of the CSR column array sits at bytes 16k..16k+16 of its image |
| BinaryWriter.SpanSpec | parallel-converters/parallel-shards.cpp:355-413 | a write of data at offset covers exactly offset..offset+\|data\|-1, with the data in order |
| BinaryWriter.SpanJoin | parallel-converters/parallel-shards.cpp:372-375 | two adjacent writes place the same bytes as one write of both |
| BinaryWriter.OutputFile.WriteAt | parallel-converters/parallel-shards.cpp:355-413 | `MPI_File_write_at` of at most INT_MAX bytes puts them at the offset and keeps the rest of the file |
| BinaryWriter.BoundedWrite | parallel-converters/parallel-shards.cpp:363-380 | no chunk exceeds INT_MAX, the chunks add up to the buffer, and the file ends as after one unbounded write of the buffer |
| BinaryWriter.EdgeOffset | parallel-converters/parallel-shards.cpp:397-402 | definition: `16 + 8(V+1) + 16*e_offset`, with e_offset the exclusive scan of numEdges. EdgeRanges and EdgeRegionEnd prove the ranges contiguous and disjoint |
| BinaryWriter.EdgeRanges | parallel-converters/parallel-shards.cpp:397-402 | rank 0 writes at the start of the edge region. Each rank's range ends where the next begins, so the ranges are disjoint and contiguous in rank order |
| BinaryWriter.EdgeRegionEnd | parallel-converters/parallel-shards.cpp:397-402 | the last rank's range ends at 16 + 8(V+1) + 16 times the edge total |
| BinaryWriter.WriteHeader | parallel-converters/parallel-shards.cpp:355-380 | rank 0 places V at byte 0, E at byte 8 and the given offset entries from byte 16 |
| BinaryWriter.CsrColumns | parallel-converters/parallel-shards.cpp:390-393 | entry k of the intended column array is the target and weight of received edge k |
| BinaryWriter.WriteEdges | parallel-converters/parallel-shards.cpp:388-421 | corrected write: a rank places the CSR entries of its received edges (`CsrColumns`) at `16 + 8(V+1) + 16*e_offset`. As written, the payload is `CsrColumnsAsWritten(rredata, blank)[..numEdges]`, which is all default entries (`AsWrittenColumnsAreBlank`) |
| BinaryWriter.CsrColumnsAsWritten | parallel-converters/parallel-shards.cpp:389-393 | definition: numEdges default entries followed by the received edges' entries. AsWrittenColumnsAreBlank proves the written first half is all default |
| BinaryWriter.AsWrittenColumnsAreBlank | parallel-converters/parallel-shards.cpp:389-405 | as written, the bytes written are the numEdges default entries, so a received edge's entry is missing when it differs from the default |
| BinaryWriter.AsWrittenTableGap | parallel-converters/parallel-shards.cpp:355-402 | as written, byte 16+8V lies outside the spans `WriteHeader` writes with the V-entry table `edgeCount[..V]`, for any edge count E, and before every rank's edge write, so it is never written |
| BinaryWriter.CorrectedTableAdjoinsEdges | parallel-converters/parallel-shards.cpp:360-402 | a table of V+1 offsets fills exactly the bytes from 16 up to the edge region |
| BinaryWriter.RankWritesSpan | parallel-converters/parallel-shards.cpp:397-421 | the edge writes of ranks 0..n-1 together place their entries contiguously from the start of the edge region |
| BinaryWriter.WritesComposeFile | parallel-converters/parallel-shards.cpp:353-421 | with V+1 offsets, the header, table and every rank's edge write together form the file image from byte 0, with no hole |
| BinaryWriter.FileImageHeader | parallel-converters/parallel-shards.cpp:355-364 | from the file image, bytes 0-7 read back as V, bytes 8-15 as E and bytes 16+8k.. as offset k |
| BinaryWriter.FileImageEntry | parallel-converters/parallel-shards.cpp:397-405 | from the file image, the 16 bytes at rank r's offset plus 16k read back as its entry k |

## Left out

- EdgeRedistributor.Distribute: requires every endpoint to lie in [0, V). The
  code does not ensure the lower bound. Start index 0 is allowed by lines
  79-81 and makes tile (0, cj) give `v_lo = -shardCount` at line 131. A
  one-based id 0 becomes -1 at line 162. A negative id gets owner -1 at
  lines 245-246, and line 249 then indexes `outEdges[-1]`, which is outside
  the vector (NegativeIdCounterexample). The model does not cover that run.
  EdgesInCorrectedGraph likewise assumes non-negative ids.
- With more existing shards than ranks, the shards numbered nprocs and
  above are read by no rank. The code neither reports nor redistributes
  them, and the model states this as it is (RanksRead).
- The MPI runtime is not modelled: barriers, `MPI_File_open`/`close`, the
  Abort on a failed open (lines 340-346), and the tuple datatype
  built at lines 219-233. Collectives are functions over a sequence indexed by
  rank: `Allreduce` SUM and MAX, `Exscan`, `Alltoall`/`Alltoallv` and
  `Reduce`.
- The `MPI_IN_PLACE` reduction at lines 308-309 is modelled as rank 0's
  result only. The other ranks also pass `MPI_IN_PLACE` as the send buffer
  of `MPI_Reduce`, which MPI allows only at the root. The model takes each
  rank's own degree table as its contribution, and does not model the other
  ranks' buffers.
- `MPI_Exscan` at line 397 leaves rank 0's receive buffer undefined; the
  model takes 0 for rank 0, the value from the initialiser at line 396.
- The byte images assume little-endian order and a 16-byte `Edge` (64-bit
  GraphElem, a double weight, no padding). Those types are declared in the
  header parallel-shards.hpp, which is not part of this model.
- File existence and shard contents are parameters. `fileExists` stands in
  for the `ifstream` check at lines 102-106, and `contents` gives the lines
  of a shard already split into fields.
- The `getline`/`istringstream` extraction is not modelled, and neither is
  the record pushed for a trailing empty line by `while (!ifs.eof())`. No
  property here claims the input has no such line.
- Weight modes are three exclusive variants. At lines 152-159 the branches
  fall through: with `ORG_WEIGHT` the `else` extracts again from a consumed
  stream. That is not replicated.
- In unweighted mode the source leaves `w` uninitialised; the model uses 0.
- Fixed-width overflow is not modelled: the 64-bit GraphElem arithmetic, and
  the `(int)` casts of bucket sizes and displacements at lines 275-277 and
  293-297. Integers are unbounded. `stoi`'s 32-bit range is modelled.
- Floating point is not modelled: the weight is an opaque 64-bit pattern.
- Debug and console printing is not modelled.
- LocalSorter.Sort: stands in for `std::sort` with an insertion sort. The
  contracts claim only sortedness and permutation, not the library's order
  among equal (i, j) keys.
- Edge's default constructor lives in the header parallel-shards.hpp, which is
  not part of this model. The default CSR entry is therefore the parameter
  `blank`.
- The clean-up at lines 430-437 only empties the local vectors (`clear()`) and is not modelled.

## Findings

| source | as written | input that shows it | evidently intended | confidence | as-written member | corrected member |
|---|---|---|---|---|---|---|
| parallel-converters/parallel-shards.cpp:200-201 | the vertex count is the largest id plus one only for zero-based input, though one-based ids were already shifted to zero base at lines 161-164 | one rank, one-based shard `1__1.csv`, read with `ORG_WEIGHT`, with the line `1,2,0,1.0`: the edge (0, 1) gives a count of 1, vertex 1 is owned by rank 1, which does not exist, and `edgeCount[2]` is past the 2 entries allocated | largest id plus one in both cases | not executed | GlobalMetadata.OneBasedCountCounterexample | GlobalMetadata.EdgesInCorrectedGraph |
| parallel-converters/parallel-shards.cpp:308-316, 360-364 | `edgeCount` has V+1 entries, but only V are reduced, prefix-summed and written, while line 402 starts the edge region after V+1 entries | any graph with V >= 1: byte 16+8V is never written, and entry V (the edge total) never reaches the file | count V+1 in the reduction, the prefix loop and `tot_bytes` | not executed | BinaryWriter.AsWrittenTableGap | PrefixCount.CorrectedOffsets |
| parallel-converters/parallel-shards.cpp:389-405 | `csrCols(numEdges)` already holds numEdges default entries; `emplace_back` appends the real ones after them, and the write of `numEdges*sizeof(Edge)` bytes takes the defaults | a rank receiving one edge whose target or weight differs from the default entry writes the default entry instead | reserve, or assign `csrCols[i]` | not executed | BinaryWriter.AsWrittenColumnsAreBlank | BinaryWriter.WriteEdges |
