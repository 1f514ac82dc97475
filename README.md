# Verified model of the seastar filesystem write path

This project models two classes from the seastar filesystem's write path in Dafny.

- `to_disk_buffer` is an alignment-constrained write buffer. It is initialised with a maximum size, an alignment and the disk offset of its cluster. Callers store bytes at the write position and acknowledge them. A flush takes the unflushed segment `[beg, end)`, zero-pads it up to the next multiple of the alignment, and hands that aligned range to the block device. The next segment then starts at the padded end, so consecutive device writes never overlap.
- `data_cluster_contents_info` records what one data cluster holds. It is an ordered map from disk offset to an extent (an owning inode and a file range), plus a running count of live data bytes. `add_data` stores a new extent that must not overlap its neighbours. `cut_data` replaces an extent by at most two surviving pieces: the left piece stays at the same key and the right piece moves to the tail of the former extent.

Files:

- `units.dfy` (module `Units`): bytes (`u8`), 64-bit unsigned offsets (`u64`, `U64_MODULUS`, `SIZE_MAX`), `Option` and the half-open `Range`.
- `bitwise.dfy` (module `Bitwise`): the power-of-two helpers `is_power_of_2`, `mod_by_power_of_2` and `round_up_to_multiple_of_power_of_2`, defined arithmetically and proved to round up to the least aligned value.
- `disk_buffer.dfy` (module `DiskBuffer`): class `ToDiskBuffer`, whose byte buffer is an `array<u8>` that flushes zero-fill in place.
  - Each flush returns the device write it issues as a `WriteRequest`: disk offset, buffer offset, length and bytes. Each issued write is also appended to a ghost log.
  - The write's completion is the separate function `CompleteWrite`, applied to the byte count the device reports.
  - The class invariant `Valid()` says three things about the log: writes lie end to end from buffer offset 0 up to the flushed mark; each write is aligned and inside the buffer; and the buffer still holds every write's bytes.
  - Lemmas derive the on-disk ordering, contiguity, disjointness and alignment of the writes from that invariant.
- `cluster_contents.dfy` (module `ClusterContents`): class `DataClusterContentsInfo`, a `map<nat, ClusterDataVec>` field and a `nat` counter. Its invariant says the file ranges are well formed, the extents' disk ranges `[key, key + size)` are pairwise disjoint, and the counter equals the sum of the sizes (`SumSizes`).

## Model

| member | source | states |
|---|---|---|
| Bitwise.IsPowerOf2 | src/fs/to_disk_buffer.hh:69-71 | a power of two is at least 1, so zero is rejected as an alignment |
| Bitwise.ModByPowerOf2 | src/fs/to_disk_buffer.hh:72-77 | the remainder is below the alignment and at most x, and taking it away from x leaves a multiple of the alignment |
| Bitwise.RoundUpToMultipleOfPowerOf2 | src/fs/to_disk_buffer.hh:117-120 | the result is a multiple of the alignment, not below x and less than one alignment above it |
| Bitwise.RoundUpIsLeast | src/fs/to_disk_buffer.hh:117-120 | rounding up never passes any aligned bound at or above x, so the padded end of a segment never passes max_size |
| Bitwise.RoundUpOfMultiple | src/fs/to_disk_buffer.hh:105-107 | rounding an aligned value leaves it unchanged, so a full buffer has no room left after a flush |
| Bitwise.PowerOf2DividesModulus | src/fs/to_disk_buffer.hh:135 | every power of two up to 2^64 divides 2^64, so alignment survives the wrap-around of a 64-bit disk offset |
| DiskBuffer.DiskAddress | src/fs/to_disk_buffer.hh:135 | the disk offset is the cluster's offset plus the buffer offset when that sum fits in 64 bits, and that sum less 2^64 when it overflows once |
| DiskBuffer.InitCheck | src/fs/to_disk_buffer.hh:69-80 | no error exactly when the configuration is valid; each error is reported exactly when its check is the first to fail, in the source's order |
| DiskBuffer.ToDiskBuffer.constructor | src/fs/to_disk_buffer.hh:39-46 | the default state: every size zero, an empty segment at 0, no writes issued |
| DiskBuffer.ToDiskBuffer.Init | src/fs/to_disk_buffer.hh:67-92 | returns InitCheck's verdict; a failure changes no field; a success installs the three arguments, a fresh buffer of max_size bytes and the segment [0,0), so that bytes_left() == max_size |
| DiskBuffer.ToDiskBuffer.FlushToDisk | src/fs/to_disk_buffer.hh:104-135 | with beg == max_size nothing changes and no write is issued; otherwise it pads [end, round_up(end)) with zeros and leaves the rest of the buffer unchanged, issues one write of [beg, round_up(end)) at cluster_beg_offset + beg, appends it to the log, opens the empty aligned segment at round_up(end), and leaves bytes_left() equal to the previous bytes_left_after_flush_if_done_now() |
| DiskBuffer.FlushKeepsInvariant | src/fs/to_disk_buffer.hh:116-133 | a flush of a non-empty remainder keeps the padded end within the buffer, sends the segment's bytes followed by zeros, and restores the invariant: the log stays chained, aligned and intact |
| DiskBuffer.ZeroFill | src/fs/to_disk_buffer.hh:121-126 | the memset zeroes exactly [lo, hi) and leaves every other byte unchanged |
| DiskBuffer.CompleteWrite | src/fs/to_disk_buffer.hh:136-143 | the completion fails with "Partial write" exactly when the reported byte count differs from the write's length, and passes exactly when they are equal |
| DiskBuffer.ChainedInOrder | src/fs/to_disk_buffer.hh:97-100 | writes that lie end to end are in increasing order, pairwise disjoint in the buffer, and all end by the flushed mark |
| DiskBuffer.DiskWritesInOrder | src/fs/to_disk_buffer.hh:97-100 | when the cluster lies below 2^64, each write goes to cluster_beg_offset + its buffer offset, starts on disk where the previous one ended, and no two writes overlap on disk |
| DiskBuffer.DiskWritesAligned | src/fs/to_disk_buffer.hh:111-119 | every issued write is aligned on disk in offset and in length |
| DiskBuffer.AlignedAddress | src/fs/to_disk_buffer.hh:135 | an aligned buffer offset in an aligned cluster has an aligned disk address, even when the 64-bit sum wraps |
| DiskBuffer.KeptPrefixKeepsWrites | src/fs/to_disk_buffer.hh:96 | changing the buffer only at or above the flushed mark leaves every write in flight intact |
| DiskBuffer.StoreKeepsInvariant | src/fs/to_disk_buffer.hh:96 | storing bytes at the write position, within the room left, keeps the invariant, because every issued write lies below the flushed mark |
| DiskBuffer.AppendKeepsLog | src/fs/to_disk_buffer.hh:129-135 | a write issued where the log ends keeps the log chained in the buffer, aligned and intact |
| DiskBuffer.ToDiskBuffer.StartNewUnflushedData | src/fs/to_disk_buffer.hh:148 | the hook run when a new segment opens changes neither the object nor the buffer in this class |
| DiskBuffer.ToDiskBuffer.PrepareUnflushedDataForFlush | src/fs/to_disk_buffer.hh:150 | the hook run before a flush changes neither the object nor the buffer in this class |
| DiskBuffer.ToDiskBuffer.GetWrite | src/fs/to_disk_buffer.hh:152-154 | the write position lies bytes_left() bytes before max_size, at or above the flushed mark, past every issued write |
| DiskBuffer.ToDiskBuffer.StoreAtWritePosition | src/fs/to_disk_buffer.hh:152-154 | storing at the write position replaces exactly the bytes at [end, end + n) and keeps the invariant |
| DiskBuffer.ToDiskBuffer.AcknowledgeWrite | src/fs/to_disk_buffer.hh:156-159 | with len <= bytes_left(), only unflushed.end moves, by len; bytes_left() drops by len |
| DiskBuffer.ToDiskBuffer.BytesLeft | src/fs/to_disk_buffer.hh:163 | the room left and the segment's end add up to max_size |
| DiskBuffer.ToDiskBuffer.BytesLeftAfterFlushIfDoneNow | src/fs/to_disk_buffer.hh:165-167 | the room after a flush issued now is aligned, is at most bytes_left(), and is less than one alignment below it |
| DiskBuffer.InitScenario | src/fs/to_disk_buffer.hh:67-92 | init(4096, 512, 8192) succeeds and leaves all 4096 bytes free |
| DiskBuffer.FirstFlushScenario | src/fs/to_disk_buffer.hh:104-135 | on that buffer, storing 100 bytes and flushing returns a 512-byte write from buffer offset 0 to disk offset 8192 that carries the 100 stored bytes followed by 412 zero bytes, and opens the segment [512, 512) |
| DiskBuffer.SecondFlushScenario | src/fs/to_disk_buffer.hh:104-143 | 50 more bytes flushed from [512, 512) go to disk offset 8704 as a 512-byte write from buffer offset 512, the next segment is [1024, 1024), and only a completion of all 512 bytes passes |
| ClusterContents.Emplace | src/fs/data_cluster_contents_info.hh:55 | emplace inserts when the key is absent and leaves the map unchanged when it is present |
| ClusterContents.SumSizesRemove | src/fs/data_cluster_contents_info.hh:57 | the live-byte total splits at any stored key into that extent's size plus the rest |
| ClusterContents.SumSizesInsert | src/fs/data_cluster_contents_info.hh:57 | storing an extent at a fresh key adds exactly its size to the total |
| ClusterContents.SumZero | src/fs/data_cluster_contents_info.hh:50-52 | the total is zero exactly when every stored range is empty |
| ClusterContents.NeighbourChecksSuffice | src/fs/data_cluster_contents_info.hh:58-61 | in a disjoint map, an extent clear of its predecessor and its successor is clear of every stored extent, and conversely |
| ClusterContents.InsertKeepsWellFormed | src/fs/data_cluster_contents_info.hh:55-61 | storing an extent clear of all the others keeps them well formed and disjoint |
| ClusterContents.RemoveExtent | src/fs/data_cluster_contents_info.hh:65-66 | extracting an extent keeps the others disjoint, removes its size from the total, and leaves its disk range free |
| ClusterContents.RightPieceKey | src/fs/data_cluster_contents_info.hh:77 | the right piece is stored at the key where its disk range ends exactly where the former extent's ends, and not before the former extent's key |
| ClusterContents.AfterCut | src/fs/data_cluster_contents_info.hh:65-78 | after the cut every other extent is unchanged, a non-empty left piece sits at the former key with the former inode, an empty left piece leaves that key free unless the right piece lands there, and no key appears besides the old ones and the right piece's key |
| ClusterContents.CutAway | src/fs/data_cluster_contents_info.hh:79 | the bytes removed from the live count are the width of the hole between the two pieces, and with the pieces' sizes they add up to the former size |
| ClusterContents.RightKeyFresh | src/fs/data_cluster_contents_info.hh:76-78 | the emplace of a non-empty right piece always inserts: no other extent and no non-empty left piece starts at the tail key |
| ClusterContents.CutKeepsInvariant | src/fs/data_cluster_contents_info.hh:64-79 | cut_data keeps the extents well formed and disjoint, and the total drops by exactly the bytes cut away |
| ClusterContents.CutPlacesPieces | src/fs/data_cluster_contents_info.hh:71-78 | the keys after the cut are exactly the other keys, plus the offset for a non-empty left piece and the tail key for a non-empty right piece; both pieces keep the former inode; other entries are untouched |
| ClusterContents.UnsignedSize | src/fs/data_cluster_contents_info.hh:70 | a range's size in unsigned 64-bit arithmetic is below 2^64 and equals its true size for a well-formed range |
| ClusterContents.CutAssertionsAdmitInvertedPiece | src/fs/data_cluster_contents_info.hh:68-70 | for every stored extent whose end on disk plus one stays below 2^64, the checks as written accept an inverted right piece; its unsigned size is SIZE_MAX, and the key computed for it lies one byte past the former extent's end |
| ClusterContents.CutScenario | src/fs/data_cluster_contents_info.hh:64-80 | cutting [1000, 3000) out of the first of those extents leaves [0, 1000) at key 0, moves [3000, 4096) to key 3000, keeps the second extent, and lowers the counter to 2196 |
| ClusterContents.DataClusterContentsInfo.constructor | src/fs/data_cluster_contents_info.hh:42-43 | an empty map and a zero counter |
| ClusterContents.DataClusterContentsInfo.GetData | src/fs/data_cluster_contents_info.hh:46-48 | the stored extents are well formed and disjoint, and their sizes sum to the counter |
| ClusterContents.DataClusterContentsInfo.IsEmpty | src/fs/data_cluster_contents_info.hh:50-52 | true exactly when every stored range is empty |
| ClusterContents.DataClusterContentsInfo.AddData | src/fs/data_cluster_contents_info.hh:54-62 | given a fresh key and an extent that fits between its neighbours, the map gains exactly that entry, every other entry is unchanged, and the counter grows by the range's size |
| ClusterContents.DataClusterContentsInfo.CutData | src/fs/data_cluster_contents_info.hh:64-80 | the map becomes the extracted map with the surviving pieces stored; the counter drops by former.size() - left.size() - right.size() |
| ClusterContents.AddScenario | src/fs/data_cluster_contents_info.hh:54-62 | two adjacent extents can be added, and the counter becomes their total size, 4196 |

## Left out

- The futures and continuations of flush_to_disk and the block device itself are not modelled. A flush returns the device write it would issue, and `CompleteWrite` models the continuation on the reported byte count.
- The rule that a caller must not start a second flush while one is pending is a concurrency obligation and is not modelled. The ghost log shows that writes issued one after another never overlap.
- StartNewUnflushedData and PrepareUnflushedDataForFlush are the empty hooks of this class. Subclass overrides are not part of this model.
- The memory alignment of `temporary_buffer::aligned`, and the move and copy semantics of the class, are not modelled: they concern allocation and ownership. The fresh Dafny array's contents are arbitrary, like the source's uninitialised memory. No contract depends on the initial bytes.
- `std::numeric_limits<size_t>::max()` is the constant `SIZE_MAX` = 2^64 - 1, assuming a 64-bit size_t. Since the arguments are 64-bit, the MAX_SIZE_TOO_BIG branch cannot be reached; it is kept as written.
- The bit-twiddling bodies of seastar/fs/bitwise.hh are not part of this model. The helpers are specified arithmetically.
- DiskBuffer.ToDiskBuffer.BytesLeftAfterFlushIfDoneNow requires that init succeeded (alignment != 0). Rounding up to a multiple of 0 has no meaning, and the class comment requires init before use.
- DiskBuffer.DiskWritesInOrder: the on-disk contiguity is proved when cluster_beg_offset + max_size <= 2^64. The disk offset itself is computed with 64-bit wrap-around.
- Bitwise.RoundUpToMultipleOfPowerOf2 rounds in unbounded integers. A round-up that would overflow 64 bits cannot occur, because the rounded value never passes max_size.
- Units.Range.IsEmpty takes an empty range to be one with beg == end, and Units.Range.Size takes the size to be end - beg. The range header and fs/units.hh, which define `range::is_empty()`, `range::size()` and the offset types, are not part of this model. The finding below assumes these definitions and unsigned 64-bit offsets.
- ClusterContents.CutAssertionsAdmitInvertedPiece requires the former extent's key plus its size plus one to stay below 2^64. Without that bound the key computed as written wraps around further.
- ClusterContents: disk offsets and the counter are unbounded naturals. The model does not capture the 64-bit wrap of `disk_offset + size` or of the size_t counter.
- ClusterContents.DataClusterContentsInfo.AddData requires a well-formed range (beg <= end). The source does not check this, but every stored range must be well formed for the counter to equal the sum of sizes.
- ClusterContents.DataClusterContentsInfo.CutData requires both pieces to be well formed. This is the corrected check of the finding below.
- The include/seastar/fs/exceptions.hh file holds only exception classes with constant messages, so there is nothing to model.
- The apps/fs_perf/test_runner.hh benchmark harness is not modelled: sharded services, timing and floating-point statistics.
- include/seastar/parquet/parquet/printer.h holds printing declarations only.
- src/kafka/protocol/api_versions_response.hh declares its codec, but the bodies are not part of this model.

## Findings

| source | as written | input that shows it | evidently intended | confidence | as-written member | corrected member |
|---|---|---|---|---|---|---|
| src/fs/data_cluster_contents_info.hh:70 | `new_left_range.size() >= 0 && new_right_range.size() >= 0` always holds, because the size is an unsigned 64-bit difference, so inverted pieces are accepted | any extent `former` stored at a key `off` with off + former.size() + 1 < 2^64, with left `[former.beg, former.beg)` and right `[former.end + 1, former.end)`: all of lines 66-70 pass and right.size() wraps to SIZE_MAX. If `is_empty()` is `beg == end`, as the model assumes, the right piece is emplaced one byte past the former extent's end. If it were `beg >= end`, the piece would be dropped, and the counter would fall by former.size() + 1 modulo 2^64 instead of former.size(). The counter is wrong in both cases | reject pieces whose end lies before their beginning (`beg <= end` for both), so that the pieces stay inside the former extent and the counter stays the sum of sizes | medium: it rests on file offsets being unsigned 64-bit and on `range::size()` being end - beg, and the stated effect also depends on `range::is_empty()`; neither definition is part of this model; not executed | ClusterContents.CutAssertionsAdmitInvertedPiece | ClusterContents.CutKeepsInvariant |
