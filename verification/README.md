# Verification of ruzu's storage engine and query core

This project models, in Dafny 4.11, the parts of the ruzu graph database on which its
durability and its query answers rest, and proves properties of the model. It stands beside
the Rust sources; nothing of the original is needed to verify it:

    dafny verify dfyconfig.toml

Code that works step by step is modelled by classes and loops that are proved against
specification functions on plain values, and what the system promises is proved about those
functions. The files, from the disk upwards:

| file | contents |
|---|---|
| `Bytes`, `Disk`, `Eviction`, `BufferPool` | pages, the page file, the eviction queue, and the page cache with dirty bits and pin counts |
| `PageState` | the packed 64-bit page word and the compare-and-swap protocol of many threads on it |
| `MultiPage`, `Header`, `Persist` | blobs over page ranges, the database header, and saving the three payloads and the header |
| `NodeTable`, `CsrGroups`, `RelTable` | node tables with their key index; compressed adjacency groups and relationship tables |
| `Wal` | frames of the write-ahead log, writer, reader and replayer |
| `Recovery` | the state machine of creations, checkpoints, crashes and restarts |
| `Statements` | what the creating statements and log records do, by the cells, edges and records they leave |
| `LostTransactions` | exactly when a reused transaction id or a badly named row spoils recovery |
| `ReplayLog`, `Durability` | replaying a log file; runs over its bytes, with crashes at any of them, and exactly which can always be opened again |
| `Image`, `Database` | the checkpoint image, and the database object over real pages and log bytes |
| `PathSearch` | the queue-driven search behind variable-length patterns |
| `ParallelCsv` | block-wise CSV reading |
| `Expr`, `Plans`, `Executor` | expressions, logical plans with their rows, the optimizer and the planner; row-wise execution |

bincode, crc32 and UUIDs appear as codecs: functions with the one law that decoding undoes
encoding (for the header, for numbers that fit their 32-bit fields). The clock, fsync, locks,
rayon and hash-map iteration orders appear as arbitrary order or not at all.

## Where the code and its promises part

Each of these is a theorem below; the code is modelled as it is.

- Recovery: a node creation that leaves out a column, or names one the table does not have,
  is rejected, but its padded row is already in the log and replay inserts it
  (`MissingColumnComesBack`, `UnknownColumnComesBack`, exact condition in `NodeStepRecovers`).
- Recovery: transaction ids start again at 1 after every open while the log is kept, so a
  later transaction can commit a torn one (`TornPersonComesBack`, `TornTransactionReturns`).
  Exactly when that spoils recovery: for any log `NodeCreationRecovers` and
  `RelCreationRecovers`, over whole runs `RunRecoversExactly`, and for one transaction torn
  at the end of the log `LostRowRecovers` and `LostEdgeRecovers`.
- Buffer pool: `pin` takes pages behind the allocated end of the file. A later allocation can
  then hand out a page that a frame already holds, so that one page is in two frames and the
  page table knows one of them (`OnePageTwice`), or cut off pages written behind its new end.
  `NewPage` and `AllocatePageRange` state exactly when the pool survives.
- Recovery: a crash between the page flush and the log truncation replays the log over
  tables that hold it; node rows are rejected again, edges are doubled (`SecondReplay`, and
  `EdgeIsDoubled` for a log with one edge).
- Recovery: a crash that leaves one to three bytes of a frame opens cleanly, and the writer
  appends behind those bytes. Every creation logged from then on is lost or makes opening fail
  (`AppendedReads`; create, crash inside a length prefix, reopen, create: `CreationBehindTail`).
  `RunIsDurableExactly` says for whole runs over the bytes of the log when the files always open
  with the live tables.
- Recovery: until the first checkpoint the page file has no header, so after a crash before it
  the database cannot be opened and its log is never read (`NeverSaved`).
- Log: the record length is cast to 32 bits (`FrameReadsIffShort`); a tail of four bytes or
  more that is no whole frame makes opening fail instead of ending the log (`CutReads`); the
  writer takes the checksum flag from the configuration and not from the header, so frames
  without checksums are lost where they are expected (`UncheckedFramesAreLost`), and frames
  with them where they are not (`CheckedFramesAreLost`), in both cases unless there are none.
- Blobs: a payload of 4 GiB or more comes back cut (`RoundTrip`, `StoredLoads`).
- `unlock_to_marked` is documented to panic on an unlocked page and never refuses
  (`UnlockNeverRefuses`); a caller without the lock breaks mutual exclusion exactly on a
  LOCKED page (`ForeignUnlockBreaks`).
- `insert_batch` does not check the types of its values, `insert` does (`BatchIsOneByOne`,
  `IllTypedBatch`).
- The eviction queue is called least recently used and orders frames by their last unpin:
  of two pages the one accessed first stays if it is released last
  (`ReleasedFirstEvictedFirst`). Releases keep the order of accesses exactly if each frame
  released was accessed after every unpinned one (`UnpinKeepsAccessOrder`); then the victim
  is the least recently accessed frame (`VictimIsLeastRecentlyAccessed`).
- Group ids of relationship tables are cut to 32 bits, so node ids 2^49 apart share edges
  (`SlotIsGroupAndLocal`, `SmallIdsAreExact`).
- Variable-length search compares bare offsets, so between two different tables it drops
  edges that are no loops (`OneHopAgrees`, `EqualOffsetsLoseEdge`).
- The planner's comment says that a variable-length path is converted to a path expansion; the
  code puts the expansion on top of the single hop. The rows agree for all tables exactly if
  the pattern has no path (`StackedPathsAgree`).
- Parallel CSV: where the first line after a block's first byte starts exactly at the block's
  end, the block returns nothing and that line is lost (`LineIsLost`). Any other line is cut
  where it reaches more than one block size behind the end of its block, so a line that
  starts at that end is cut as soon as its content exceeds one block (`LineIsCut`). Both happen at
  every block size. All lines come out whole exactly if neither happens
  (`ParallelLinesAreExact`).
- The optimizer compares constants without the integer-to-float promotion that execution
  uses (`FoldingAgreesWithFilters`).
- Pushing a filter below a projection is wrong for a column that the projection computes
  (`RenamedColumnIsLost`); plans of the planner never have that shape.

## Model

| member | source | states |
|---|---|---|
| `Bytes.Le32RoundTrip` | src/lib.rs:65-155 | The 4-byte little-endian prefix reads back as the number modulo 2^32. |
| `Bytes.LowByteFirst` | src/storage/wal/writer.rs:127-150 | The least significant byte of a length comes first. |
| `Disk.OverlapsMeansSharedPage` | src/storage/mod.rs:88-102 | `overlaps` holds if and only if some page lies in both ranges. |
| `Disk.SetLen` | src/storage/page/disk_manager.rs:151-165 | Resizing the file keeps what every page below the new end reads as. |
| `Disk.WriteAt` | src/storage/page/disk_manager.rs:107-121 | A page write changes what that page reads as and no other. |
| `Disk.DiskManager.AllocatePageRange` | src/storage/page/disk_manager.rs:151-165 | An empty request fails; otherwise the next pages in order, and the file grows to their end. |
| `Disk.AllocationLosesOnlyPagesBehindTheEnd` | src/storage/page/disk_manager.rs:151-165 | Allocation keeps what all pages read as exactly when nothing but zeros was written behind the new end. |
| `Eviction.QueueFits` | src/storage/buffer_pool/eviction.rs:33-44 | Pigeonhole: a duplicate-free queue of frame indices never exceeds the number of frames. |
| `Eviction.WithoutIsRanked` | src/storage/buffer_pool/eviction.rs:56-58 | Removing an entry keeps the others in the order of their ranks. |
| `Eviction.WithoutPicks` | src/storage/buffer_pool/eviction.rs:56-58 | Exactly the other entries stay, in their order. |
| `Eviction.LruEvictionQueue.Push` | src/storage/buffer_pool/eviction.rs:33-44 | The entry moves to the back; the trim keeps the newest entries up to the capacity. |
| `Eviction.LruEvictionQueue.Pop` | src/storage/buffer_pool/eviction.rs:49-51 | Takes the oldest entry, or none from an empty queue. |
| `Eviction.LruEvictionQueue.Remove` | src/storage/buffer_pool/eviction.rs:56-58 | Drops the entry wherever it stands and keeps the order of the rest. |
| `BufferPool.PushKeepsAll` | src/storage/buffer_pool/mod.rs:276-288 | The capacity trim of a push never drops an entry, and the queue stays ordered by last unpin. |
| `BufferPool.FirstUnpinnedIsVictim` | src/storage/buffer_pool/mod.rs:305-347 | The first entry of the queue that is not pinned is the frame whose last unpin is oldest. |
| `BufferPool.BufferPool.FindOrEvictFrame` | src/storage/buffer_pool/mod.rs:291-302 | Fails exactly if every frame is pinned; takes the first empty frame, else the victim; no page reads differently; nothing dirty means no disk write. |
| `BufferPool.BufferPool.EvictFrame` | src/storage/buffer_pool/mod.rs:305-347 | Evicts the unpinned frame with the oldest last unpin, after writing it back if dirty; every page reads as before. |
| `BufferPool.BufferPool.PopVictim` | src/storage/buffer_pool/mod.rs:305-347 | Skips stale entries; finds a frame exactly if one is unpinned, and loses no other unpinned frame. |
| `BufferPool.BufferPool.Pin` | src/storage/buffer_pool/mod.rs:120-169 | Hands out a handle on the page; fails exactly on a miss with all frames pinned; no page reads differently, page table and frames stay inverse to each other, and the queue stays in the order of accesses if it was. |
| `BufferPool.BufferPool.NewPage` | src/storage/buffer_pool/mod.rs:176-206 | A zeroed page at the allocated end, pinned and dirty. Page table and frames stay inverse if and only if no other frame held that page; pool and every view survive if and only if, besides, what read as non-zero at or behind it waits in a dirty frame other than the one freed. The queue keeps the order of accesses. |
| `BufferPool.BufferPool.AllocatePageRange` | src/storage/buffer_pool/mod.rs:215-218 | Reserves the next pages; pool and every view survive if and only if what reads as non-zero behind the new end waits in a dirty frame. |
| `BufferPool.AfterResize` | src/storage/page/disk_manager.rs:151-165 | Cutting or growing the file keeps clean frames equal to disk and every view if and only if everything non-zero behind the new end is dirty in the cache. |
| `BufferPool.PlacedTableOk` | src/storage/buffer_pool/mod.rs:176-206 | Putting a page into an empty frame keeps page table and frames inverse if and only if the table did not have the page; otherwise two frames hold it. |
| `BufferPool.AfterNewPage` | src/storage/buffer_pool/mod.rs:176-206 | The exact conditions of a new page on the frames, the table and the file. |
| `BufferPool.OnePageTwice` | src/storage/buffer_pool/mod.rs:120-206 | On an empty file, pinning page 0 and allocating a page gives page 0 in two frames. |
| `BufferPool.UnpinKeepsAccessOrder` | src/storage/buffer_pool/mod.rs:276-288 | Releasing a frame keeps the queue in the order of last accesses if and only if the frame was accessed after every unpinned one. |
| `BufferPool.VictimIsLeastRecentlyAccessed` | src/storage/buffer_pool/mod.rs:305-347 | While the orders agree the victim is the least recently accessed frame. |
| `BufferPool.ReleasedFirstEvictedFirst` | src/storage/buffer_pool/mod.rs:120-169 | Pin 1, pin 2, drop 2, drop 1: the victim is page 2, though page 1 was accessed first. |
| `BufferPool.BufferPool.Data` | src/storage/buffer_pool/mod.rs:413-418 | A handle reads the current bytes of its own page. |
| `BufferPool.BufferPool.WriteData` | src/storage/buffer_pool/mod.rs:422-427 | A write through a handle changes its own page only, and marks it dirty; the queue keeps the order of accesses. |
| `BufferPool.BufferPool.Unpin` | src/storage/buffer_pool/mod.rs:276-288 | Drops one pin; the last one puts the frame at the back of the queue and makes it the newest. In a pool whose queue is in the order of accesses it stays so if and only if pins remain or the frame was accessed after every unpinned one. |
| `BufferPool.BufferPool.FlushPage` | src/storage/buffer_pool/mod.rs:231-255 | Afterwards the disk reads as the page does; no view and no other disk page changes; the queue keeps the order of accesses. |
| `BufferPool.BufferPool.FlushAll` | src/storage/buffer_pool/mod.rs:262-273 | Afterwards the disk alone reads as the pool does, for every page, whatever the order. |
| `PageState.PackInjective` | src/storage/buffer_pool/page_state.rs:58-94 | Two packed words are equal only if dirty flag, state and version all are. |
| `PageState.PackCommutes` | src/storage/buffer_pool/page_state.rs:97-223 | Each operation tests and installs, bit for bit, what it does on the three fields. |
| `PageState.PackEmbeds` | src/storage/buffer_pool/page_state.rs:58-223 | The machine on the packed word does, bit for bit, what the machine on the three fields does, and loses nothing. |
| `PageState.SetDirtyCommutes` | src/storage/buffer_pool/page_state.rs:97-113 | Setting the dirty bit leaves state and version alone. |
| `PageState.ClearDirtyCommutes` | src/storage/buffer_pool/page_state.rs:97-113 | Clearing the dirty bit leaves state and version alone. |
| `PageState.StepKeepsInv` | src/storage/buffer_pool/page_state.rs:97-223 | Every single load or compare-exchange of any thread keeps mutual exclusion. |
| `PageState.LockIsExclusive` | src/storage/buffer_pool/page_state.rs:97-223 | Mutual exclusion holds after every interleaving. |
| `PageState.RunFromNew` | src/storage/buffer_pool/page_state.rs:58-63 | From a new page, in every interleaving: LOCKED if and only if exactly one thread holds the lock, and never two. |
| `PageState.RunCommutes` | src/storage/buffer_pool/page_state.rs:97-223 | A run on the packed word is the image of the run on the fields, step by step, with the same locks and evictions. |
| `PageState.WordIsExclusive` | src/storage/buffer_pool/page_state.rs:97-223 | On the 64-bit word, in every interleaving from a new page: LOCKED if and only if exactly one thread holds the lock. |
| `PageState.VersionCountsBumps` | src/storage/buffer_pool/page_state.rs:118-223 | The version counts the locks and evictions that succeeded. |
| `PageState.VersionGrows` | src/storage/buffer_pool/page_state.rs:118-223 | Below the wrap, versions grow by one per lock or eviction. |
| `PageState.OptimisticRead` | src/storage/buffer_pool/page_state.rs:49-94 | An unlocked word and later the same version: nobody locked, evicted or held the page in between. |
| `PageState.WordOptimisticRead` | src/storage/buffer_pool/page_state.rs:49-94 | The same for a reader of the 64-bit word after any run, by its state and version bits. |
| `PageState.WrapRestartsVersions` | src/storage/buffer_pool/page_state.rs:137-163 | A lock on the last version succeeds and installs version 0, so the wrap bound is needed. |
| `PageState.UnlockNeverRefuses` | src/storage/buffer_pool/page_state.rs:165-185 | Unlocking succeeds from every word, against its documentation. |
| `PageState.ForeignUnlockBreaks` | src/storage/buffer_pool/page_state.rs:165-185 | An unlock by a thread that does not hold the lock breaks mutual exclusion if and only if the page is LOCKED. |
| `PageState.LoadDecides` | src/storage/buffer_pool/page_state.rs:97-223 | After any run from a new page a load goes on to its compare-exchange exactly from these states of the word: 3 for `try_lock_from_evicted`, 0 and 2 for `try_lock` and `try_evict`, 2 for `mark_to_unlocked`, all for the others; otherwise the call returns. |
| `PageState.FailureKeepsWord` | src/storage/buffer_pool/page_state.rs:97-223 | A compare-exchange that fails changes nothing; `set_dirty`, `try_lock` and `unlock_to_marked` start over, the others return. |
| `PageState.SuccessMoves` | src/storage/buffer_pool/page_state.rs:97-223 | In every run from a new page, which state bits a successful operation leaves and enters, and that locking, unlocking and rescuing keep bit 63, evictions and locks on evicted pages clear it and `set_dirty` sets it as asked. |
| `PageState.DirtySurvives` | src/storage/buffer_pool/page_state.rs:97-223 | From every word and in every interleaving bit 63 stays 1 unless a step clears it, by `set_dirty(false)`, an eviction or a lock on an evicted page, and stays 0 unless `set_dirty(true)` succeeds. |
| `MultiPage.PagesNeededIsLeast` | src/lib.rs:52-60 | The page count is the least that holds the data and its prefix. |
| `MultiPage.PayloadLies` | src/lib.rs:65-112 | The length prefix is at the start of the first page and every byte of the data at its place behind it, page by page. |
| `MultiPage.RoundTrip` | src/lib.rs:65-155 | Decoding written pages gives the data cut to its length modulo 2^32: the data itself if and only if it is shorter than 4 GiB. |
| `MultiPage.WriteMultiPage` | src/lib.rs:65-112 | Rejects data longer than the range; otherwise the pages hold prefix, data and zeros, byte by byte, and no other page changes. |
| `MultiPage.ReadMultiPage` | src/lib.rs:118-155 | Reads what the pages of the range decode to and changes no page. |
| `Header.ValidateRanges` | src/storage/mod.rs:226-266 | Accepts exactly the headers whose ranges share no page with each other or with page 0. |
| `Header.RangesFit32` | src/storage/mod.rs:135-190 | Ranges inside a file of at most 2^32 pages fit their 32-bit fields. |
| `Header.LoadedHeaderMeans` | src/lib.rs:446-500 | A header is loaded if and only if page 0 decodes to it, magic and version are good, its checksum is that of the header with zero in its place, and every range lies inside the file. |
| `Header.SavedHeaderLoads` | src/lib.rs:446-500 | A checksummed header over the start of page 0 passes every test of the loader and reads back. |
| `Persist.ChooseRange` | src/lib.rs:625-728 | The old range if the data still fits it, else fresh pages at the end of the file; no page changes. |
| `Persist.FreshIsApart` | src/lib.rs:625-728 | A fresh range meets no range inside the old file. |
| `Persist.NewRangesOk` | src/lib.rs:625-728 | Replacing a range by itself or by fresh pages keeps all three disjoint, off page 0 and inside the file. |
| `Persist.SaveAllData` | src/lib.rs:625-728 | All three payloads end up stored, each in a range large enough for it; the ranges stay disjoint and inside the file; fails only for a payload no range can hold. |
| `Persist.SaveHeader` | src/lib.rs:731-752 | Only the start of page 0 changes; the three payloads stay stored. |
| `Persist.StoredLoads` | src/lib.rs:118-155 | Once flushed, the disk alone gives a payload back, whole if and only if it is shorter than 4 GiB. |
| `Persist.CheckpointPages` | src/lib.rs:786-812 | For any pool capacity and no live handles, after save, header and flush the disk alone holds a loadable header and the three payloads. |
| `NodeTable.Position` | src/catalog/schema.rs:246-248 | The first column of that name, if there is one. |
| `NodeTable.AppendKeepsTableOk` | src/storage/table.rs:125-181 | Appending a row with a fresh key keeps the index exact: every key to its row and nothing else. |
| `NodeTable.InsertKeepsTableOk` | src/storage/table.rs:125-181 | Every insertion, accepted or rejected, keeps the index exact. |
| `NodeTable.InsertionMeans` | src/storage/table.rs:125-181 | By cells: a row is accepted if and only if every column is given, everything given suits its column and no row has its key cells; then each column gains the row's value under its name. |
| `NodeTable.FromDataRestores` | src/storage/table.rs:59-92 | Saving the columns and rebuilding the index gives the same table. |
| `NodeTable.FromDataIsOk` | src/storage/table.rs:59-83 | Loading any saved columns, ragged ones included, gives a table with an exact index if and only if the columns are complete and no key comes twice. |
| `NodeTable.AppendAllKeys` | src/storage/table.rs:259-360 | After a batch the index holds the old keys and those of the batch, and is exact. |
| `NodeTable.BatchSplits` | src/storage/table.rs:259-360 | Splitting a batch changes neither whether it is accepted nor the resulting table. |
| `NodeTable.BatchMeans` | src/storage/table.rs:259-360 | By cells: an accepted batch adds its rows in order, each value in the column it was named for. |
| `NodeTable.BatchIsOneByOne` | src/storage/table.rs:125-360 | Inserting the rows one by one all succeeds, with the batch's result, exactly when the batch is accepted and its values are well typed. |
| `NodeTable.IllTypedBatch` | src/storage/table.rs:259-360 | A batch of one value of another type is appended, while inserting the row alone is rejected. |
| `NodeTable.NamesAreExact` | src/storage/table.rs:259-360 | As many names as columns and none missing leaves no room for an unknown name. |
| `NodeTable.FindByPkIsUnique` | src/storage/table.rs:200-226 | With a one-column key, a lookup finds a row exactly if its key column holds the value. |
| `NodeTable.FindsFirst` | src/storage/table.rs:200-226 | For any key: a lookup finds a row if and only if the column belongs to the key, the row's cell is the value and no earlier row's is. |
| `NodeTable.NodeTable.FromSaved` | src/storage/table.rs:59-83 | The loop rebuilds the index of the saved rows; cells that the columns do not have are skipped in the keys. |
| `NodeTable.NodeTable.Validate` | src/storage/table.rs:125-181 | Accepts exactly the rows with every column present, no unknown one, and every value null or of its column's type. |
| `NodeTable.NodeTable.Insert` | src/storage/table.rs:125-181 | Succeeds exactly for an acceptable row with a fresh key, appends it cell by cell, and otherwise changes nothing. |
| `NodeTable.NodeTable.InsertBatch` | src/storage/table.rs:259-360 | All rows or none: an accepted batch is appended cell by cell, a failing one leaves the table untouched. |
| `CsrGroups.OffsetsMonotone` | src/storage/rel_table.rs:186-233 | Offsets of a valid group never decrease and stay inside the edge arrays. |
| `CsrGroups.WithEdgeEdges` | src/storage/rel_table.rs:267-289 | An insertion keeps the group valid, appends to exactly one node's edges and leaves every other node's unchanged. |
| `CsrGroups.WithEdgeSlices` | src/storage/rel_table.rs:267-289 | Both arrays' slices of every node survive the shift of the offsets. |
| `CsrGroups.GrownEdges` | src/storage/rel_table.rs:476-513 | Growing a group by empty nodes keeps it valid and every node's edges. |
| `CsrGroups.SlotIsGroupAndLocal` | src/storage/rel_table.rs:435-473 | Group and local index together are the node id modulo 2^49. |
| `CsrGroups.LinkedEdges` | src/storage/rel_table.rs:435-513 | Linking appends one edge to the nodes of that slot and to no other node of any group. |
| `CsrGroups.InsertRefines` | src/storage/rel_table.rs:435-473 | Each insertion is one more line of the edge log: forward, backward, ids and properties all answer as the log does. |
| `CsrGroups.InsertedGainsEdge` | src/storage/rel_table.rs:435-473 | The source lists one more edge to the target, the target one more from the source, both last and under the next id; no other slot's lists change, and the properties are kept under that id. |
| `CsrGroups.RunRefines` | src/storage/rel_table.rs:435-473 | After any sequence of insertions the table is the log of the accepted ones. |
| `CsrGroups.SmallIdsAreExact` | src/storage/rel_table.rs:435-473 | Below 2^49 no two node ids share a slot. |
| `CsrGroups.DirectionsAgree` | src/storage/rel_table.rs:519-559 | Every logged edge is listed at its source and at its target. |
| `CsrGroups.LoggedOut` | src/storage/rel_table.rs:519-536 | A (target, id) pair is listed at a node exactly if the log has that edge leaving it. |
| `CsrGroups.LoggedIn` | src/storage/rel_table.rs:542-559 | A (source, id) pair is listed at a node exactly if the log has that edge entering it. |
| `CsrGroups.OutEdgesIncrease` | src/storage/rel_table.rs:519-536 | A node's edges come in insertion order, with increasing ids below the next id. |
| `CsrGroups.FullListing` | src/storage/rel_table.rs:585-599 | Listing every group lists every logged edge once. |
| `CsrGroups.FromDataRestores` | src/storage/rel_table.rs:363-412 | Saving the groups in any order and loading them gives back the same table. |
| `RelTable.CsrNodeGroup.Validate` | src/storage/rel_table.rs:186-233 | Accepts a group exactly if all five invariants hold. |
| `RelTable.CsrNodeGroup.AddNodeEdges` | src/storage/rel_table.rs:243-257 | Appends one node with its edges and leaves the others unchanged. |
| `RelTable.CsrNodeGroup.InsertEdge` | src/storage/rel_table.rs:267-289 | The in-place insertion and offset loop give the shifted group; an index beyond the nodes is refused without change. |
| `RelTable.CsrNodeGroup.Grow` | src/storage/rel_table.rs:476-513 | The loop adds empty nodes until there are enough. |
| `RelTable.Link` | src/storage/rel_table.rs:435-513 | Finding or making the group, growing it and inserting is one linking step of the index. |
| `RelTable.RelTable.Insert` | src/storage/rel_table.rs:435-473 | Fails exactly on a wrong number of properties; otherwise the log grows by this edge and its id is the old length. |
| `RelTable.RelTable.InsertBatch` | src/storage/rel_table.rs:618-647 | All edges in order or none. |
| `RelTable.RelTable.GetForwardEdges` | src/storage/rel_table.rs:519-536 | The logged edges leaving the node, oldest first. |
| `RelTable.RelTable.GetBackwardEdges` | src/storage/rel_table.rs:542-559 | The logged edges entering the node, oldest first. |
| `RelTable.RelTable.Iter` | src/storage/rel_table.rs:585-599 | Lists every logged edge exactly once, whatever order the groups come in. |
| `RelTable.RelTable.ToData` | src/storage/rel_table.rs:405-412 | Hands out every group once, in some order, with ids and properties. |
| `RelTable.RelTable.FromSaved` | src/storage/rel_table.rs:363-401 | Collects the saved groups by their ids. |
| `Wal.FrameReads` | src/storage/wal/reader.rs:100-148 | A frame reads back as its record, whatever follows it. |
| `Wal.FrameReadsIffShort` | src/storage/wal/writer.rs:127-150 | A frame reads back exactly if its encoding is shorter than 4 GiB. |
| `Wal.LogReadsBack` | src/storage/wal/reader.rs:155-163 | Any list of short records reads back under the flag it was written with, in front of whatever follows. |
| `Wal.LogReadsIffShort` | src/storage/wal/writer.rs:127-150 | A list of records reads back if and only if every encoding is shorter than 4 GiB. |
| `Wal.CutReads` | src/storage/wal/reader.rs:100-163 | A log cut at any byte reads as its whole frames; the end is clean exactly if fewer than four bytes are left over, and otherwise reading fails. |
| `Wal.EarlyReadMisses` | src/storage/wal/reader.rs:100-148 | A reader that starts one to four bytes before a frame does not find its record, with or without checksums. |
| `Wal.AppendedReads` | src/storage/wal/writer.rs:31-77 | Behind fewer than four torn bytes the log with what is appended reads back if and only if nothing is appended, or there are no torn bytes and every new encoding is short. |
| `Wal.CutFileReads` | src/storage/wal/reader.rs:100-163 | A log file cut at any byte behind its header reads as its whole frames, or fails if four bytes or more are left over, also when it already ended in torn bytes. |
| `Wal.UncheckedFramesAreLost` | src/storage/wal/writer.rs:31-77 | Records appended without checksums to a log that asks for them never read back, unless there are none. |
| `Wal.CheckedFrameMisreads` | src/storage/wal/reader.rs:100-148 | A record appended with checksums to a log without them reads back itself, and its checksum is taken for the length of the next frame. |
| `Wal.CheckedFramesAreLost` | src/storage/wal/writer.rs:31-77 | Records appended with checksums to a log without them never read back, unless there are none. |
| `Wal.HeaderOpens` | src/storage/wal/writer.rs:79-101 | A written header opens and gives back its checksum flag. |
| `Wal.HeaderMeans` | src/storage/wal/mod.rs:67-80 | Short files, wrong magic bytes and newer versions are refused; otherwise byte 28 is the flag. |
| `Wal.WalWriter.Append` | src/storage/wal/writer.rs:127-150 | Appends the length in four bytes, the encoding, and with checksums its checksum; a well-formed log stays one with this record appended. |
| `Wal.WalWriter.Truncate` | src/storage/wal/writer.rs:183-201 | The header stays, no record does, and numbering starts again. |
| `Wal.WalReader.ReadRecord` | src/storage/wal/reader.rs:100-148 | End, error or record as the frame at the position says; a record it returns is what the bytes behind the length decode to, under a checksum that matches, and only then the position moves. |
| `Wal.WalReader.ReadAll` | src/storage/wal/reader.rs:155-163 | All records up to a clean end, or an error. |
| `Wal.CommittedOf` | src/storage/wal/reader.rs:221-248 | The transactions that some record of the log commits. |
| `Wal.WalReplayer.Analyze` | src/storage/wal/reader.rs:221-248 | Keeps every record read and exactly the set of transactions they commit. |
| `Wal.WalReplayer.RecordsToApply` | src/storage/wal/reader.rs:262-266 | The records of committed transactions, in log order. |
| `Wal.AppliedAreCommitted` | src/storage/wal/reader.rs:221-266 | The records to apply are, in log order, exactly those whose transaction some record of the log commits. |
| `Wal.ApplyTransaction` | src/storage/wal/reader.rs:221-266 | A whole transaction at the end of the log is applied last, unless its id belongs to a torn one. |
| `Wal.PartApplies` | src/storage/wal/reader.rs:221-266 | A transaction cut short counts exactly if its data is there and its id was committed before. |
| `Wal.TornCommits` | src/storage/wal/reader.rs:221-266 | Torn data is applied once a later transaction with the same id commits. |
| `Recovery.NodeTableById` | src/catalog/schema.rs:133-150 | With unique ids the lookup by id finds the table itself. |
| `Recovery.PaddedRowKeeps` | src/lib.rs:1075-1173 | The logged row rebuilds the statement's row exactly if it names the schema's columns, neither more nor fewer. |
| `Recovery.NodeStepRecovers` | src/lib.rs:1075-1173 | While no torn transaction has the next id: after a node creation replay gives the live tables if and only if the columns are named exactly or the padded row is rejected as well. |
| `Recovery.RelStepRecovers` | src/lib.rs:1501-1598 | While no torn transaction has the next id, replay after a relationship creation gives the live tables. |
| `Recovery.StepRecovers` | src/lib.rs:786-812 | Creations, checkpoints, restarts and crashes that keep whole records each keep the state recoverable, while no torn transaction's id is used again. |
| `Recovery.RunRecovers` | src/lib.rs:340-440 | In every run of them replaying the committed log over the last checkpoint gives exactly the live tables. |
| `Recovery.PlainRunRecovers` | src/lib.rs:249-337 | As long as no crash tears a transaction, this needs nothing about transaction ids, though they restart at 1. |
| `Recovery.TraceSurvives` | src/storage/wal/reader.rs:221-266 | Whatever number of records survives, they replay to one of the states the run went through. |
| `Recovery.CrashKeepsPrefix` | src/lib.rs:340-373 | After any run, checkpoints and restarts in it included, a crash that drops records of the creations since the last of them leaves the state after a prefix of the operations, with every operation whose records survived. |
| `Recovery.TornTransactionReturns` | src/lib.rs:325-337 | The next transaction with a torn one's id brings the torn data back on replay. |
| `Recovery.SecondReplay` | src/lib.rs:786-812 | Replaying a log over tables that already hold it changes nothing if and only if it adds no edge. |
| `Recovery.EdgeIsDoubled` | src/lib.rs:786-812 | A log that creates one edge, replayed over tables that hold it, creates it twice. |
| `Recovery.MissingColumnComesBack` | src/lib.rs:1075-1173 | A rejected creation that leaves out a column makes the log disagree with the live tables. |
| `Recovery.UnknownColumnComesBack` | src/lib.rs:1075-1173 | So does one that names an unknown column. |
| `Recovery.TornPersonComesBack` | src/lib.rs:325-337 | Create, crash before the commit, reopen, create: the lost row is back after the next replay. |
| `Statements.NodeStepMeans` | src/lib.rs:1075-1173 | Creating a node, by cells: the row of the last properties of each name, whole numbers promoted for FLOAT64, is logged padded with nulls in one transaction; the table gains exactly that row if it can be inserted, and nothing else changes. |
| `Statements.RelStepMeans` | src/lib.rs:1501-1598 | Creating a relationship: if both key filters are met, by the first such rows s and d, and the property count fits, the edge leads from s to d in both indexes and in the logged record, with the literals' values in order; in every other case nothing changes. |
| `Statements.RowRecordMeans` | src/lib.rs:376-440 | Replaying a record with one row pairs its values with the columns and adds that row to the table of its id if it can be inserted. |
| `Statements.EdgeRecordMeans` | src/lib.rs:376-440 | Replaying a record of an edge adds it in its direction to the table of its id, unless the property count is wrong. |
| `LostTransactions.LostRowsMatch` | src/storage/table.rs:125-181 | Two tables that read the same rows, one with and one without the lost ones, end up equal if and only if each lost row is rejected or inserted again as the very next row. |
| `LostTransactions.ItemsReplay` | src/lib.rs:376-440 | What replay makes of each node table with and without the records of the next id. |
| `LostTransactions.RelsRecover` | src/lib.rs:376-440 | The relationship tables come out the same if and only if no lost edge is accepted. |
| `LostTransactions.NodeCreationRecovers` | src/lib.rs:1075-1173 | For every log and every statement: after a node creation replay gives the live tables if and only if what its commit brings back changes nothing and the row is named exactly or rejected when padded. |
| `LostTransactions.RelCreationRecovers` | src/lib.rs:1501-1598 | For every log: after a relationship creation that logs something replay gives the live tables if and only if what its commit brings back changes nothing. |
| `LostTransactions.RunRecoversExactly` | src/lib.rs:325-373 | A run of creations, checkpoints, restarts and crashes that keep whole records is recoverable throughout if and only if every creation in it logs nothing or is harmless in that sense. |
| `LostTransactions.LostRowRecovers` | src/lib.rs:325-337 | A row torn at the end of the log spoils the next creation of its id if and only if the live table accepts it and that creation does not insert the same row. |
| `LostTransactions.LostEdgeRecovers` | src/lib.rs:325-337 | An edge torn at the end of the log spoils the next creation of its id if and only if its table accepts it. |
| `ReplayLog.TableNameById` | src/catalog/schema.rs:133-150 | The loops over both maps find the table of an id in any iteration order. |
| `ReplayLog.BuildRow` | src/lib.rs:1075-1173 | Later properties win, and whole numbers become floats where the column is FLOAT64. |
| `ReplayLog.LoggedValues` | src/lib.rs:1075-1173 | The logged row in schema order, with null for what is missing. |
| `ReplayLog.RebuildRow` | src/lib.rs:376-440 | Pairs values with columns up to the shorter list. |
| `ReplayLog.ApplyRecord` | src/lib.rs:376-440 | Applies one record in place as the replay function says; a relationship table that is not in memory counts as an empty one and is made; rejected rows and edges are skipped. |
| `ReplayLog.ReplayWal` | src/lib.rs:340-373 | Replays the committed records of a log file; a file without a good header counts as empty, a bad frame is an error. |
| `ReplayLog.OpeningGivesLiveTables` | src/lib.rs:340-373 | If the state is recoverable and the file holds its log, opening gives exactly the live tables. |
| `Durability.CutFileReplays` | src/lib.rs:340-373 | A log file cut at any byte behind its header replays its whole frames, or is refused if four bytes or more are left over. |
| `Durability.CrashAtAnyByte` | src/lib.rs:340-373 | After any run, checkpoints and restarts in it included, and a cut at any byte of the frames of the creations since the last of them, opening gives the state after a prefix with every creation whose frames are whole, or refuses a torn frame. |
| `Durability.CreationIsDurable` | src/storage/wal/writer.rs:31-77 | With or without torn bytes at the end of the file, a creation that logs something can be opened again with the live tables if and only if it is harmless, its encodings are short and there are no torn bytes. |
| `Durability.CrashIsDurable` | src/lib.rs:340-373 | A crash at any byte of the log file opens again if and only if it leaves fewer than four bytes of a torn frame, and then with exactly the tables of the whole frames. |
| `Durability.StepIsDurable` | src/lib.rs:249-373 | Checkpoints, crashes at any byte with a restart, and creations each leave files that open with exactly the live tables if and only if the step is sound in that sense. |
| `Durability.RunIsDurableExactly` | src/lib.rs:249-373 | In a run of them every state can be opened from its files with exactly the live tables if and only if every step is sound. |
| `Durability.CreationBehindTail` | src/storage/wal/writer.rs:31-77 | Create, crash inside the length prefix, reopen, create: the reopening is clean and has the old tables, and the second creation cannot be opened again. |
| `Image.LoadNodes` | src/lib.rs:503-541 | Saved tables that the catalog knows, whatever their columns hold, and an empty one for every schema without data. |
| `Image.LoadRels` | src/lib.rs:569-622 | Saved relationship tables and an empty one for every schema without data; data for a table the catalog does not know is an error. |
| `Image.CollectAllNodes` | src/lib.rs:503-541 | What is loaded from a complete listing of node tables, in any order, are the saved tables. |
| `Image.CollectAllRels` | src/lib.rs:569-622 | What is loaded from a complete listing, in any order of tables and groups, are the saved tables. |
| `Image.EncodeTables` | src/lib.rs:625-728 | The three payloads encode the catalog and every table once. |
| `Image.LoadPages` | src/lib.rs:446-500 | Through a fresh pool the header and the payloads read as the file holds them. |
| `Image.DecodeImage` | src/lib.rs:446-622 | The payloads of a checkpoint decode to its catalog and tables. |
| `Database.Database.Create` | src/lib.rs:249-337 | A new database has pages 0 to 3 reserved, disjoint header ranges inside the file, an empty log, and a page file of zeros. |
| `Database.Database.Open` | src/lib.rs:249-337 | The page file and the log file alone decide the result: the last image with the committed log replayed over it, ids starting at 1; fails exactly on a zero-sized pool, a page file without a good header, or a bad frame. |
| `Database.NeverSaved` | src/lib.rs:249-337 | A database that is created, changed and lost before its first checkpoint cannot be opened again, whatever its log holds. |
| `Database.Database.Restart` | src/lib.rs:249-337 | Dropping all memory and opening the page file and the log file of an intact, recoverable database gives its live tables. |
| `Database.Database.Execute` | src/lib.rs:846-929 | Every creating statement is its step of the state machine, with the cells, edges and records it leaves told one by one; it appends exactly the frames of what it logs, and the files keep holding the last image and the log. |
| `Database.Database.CreateNode` | src/lib.rs:1075-1173 | Logs begin, padded row and commit, then inserts the row that the properties give; succeeds exactly if the table accepts it. |
| `Database.Database.CreateRel` | src/lib.rs:1501-1598 | Inserts the edge from the source's row to the target's and then logs it; fails exactly for unknown tables or a wrong number of properties, and does nothing if an end is not found. |
| `Database.Database.Checkpoint` | src/lib.rs:786-812 | The live tables become the image on disk and the log becomes empty; fails only if a payload exceeds any page range. |
| `PathSearch.LevelIsExact` | src/lib.rs:1601-1673 | Level k of the search holds exactly the simple walks of length k. |
| `PathSearch.WeightDecreases` | src/lib.rs:1601-1673 | Each turn of the queue loop lowers the summed weight of the queue by one, so the loop ends. |
| `PathSearch.SearchIsLevels` | src/lib.rs:1601-1673 | The queue finds the levels one after the other. |
| `PathSearch.MatchesAreExact` | src/lib.rs:1601-1673 | One match per simple walk with length from max(1, min) to max and a passing end, none twice, shorter ones first. |
| `PathSearch.TableListsOnce` | src/storage/rel_table.rs:519-536 | A relationship table lists no edge twice, so parallel edges count separately. |
| `PathSearch.MadeRowShows` | src/lib.rs:1646-1663 | A row has a column exactly if some projection shows it: a cell of the source table at the source, or of the destination table at the walk's end; the last such projection counts. |
| `PathSearch.CollectMultiHopRows` | src/lib.rs:1601-1673 | The rows answer the query: one row for each simple walk within the bounds from each source whose end has the expected cell, no other and none twice, source by source and shorter walks first, and each shows the cells of its source and its end. |
| `PathSearch.Visit` | src/lib.rs:1601-1673 | One edge adds a row if the walk is long enough and its end passes, and a queue entry if it can go on. |
| `PathSearch.OneHopAgrees` | src/lib.rs:1601-1795 | `*1..1` answers as the single hop does exactly when no passing edge leads back to the source's own offset. |
| `PathSearch.FewerThanSingleHop` | src/lib.rs:1676-1795 | The path form never lists more rows than the single hop. |
| `PathSearch.EqualOffsetsLoseEdge` | src/lib.rs:1601-1673 | An edge between equal offsets of two tables is dropped by `*1..1` and found by the single hop. |
| `ParallelCsv.LineEnds` | src/storage/csv/parallel.rs:621-635 | A line has no newline but its last byte, and only the last line may lack one. |
| `ParallelCsv.LinesAreTheFile` | src/storage/csv/parallel.rs:389-483 | The lines hold no newline and, each with one behind it, are the file again; only the last newline may be missing. |
| `ParallelCsv.HeaderIsDropped` | src/storage/csv/parallel.rs:435-446 | With a header exactly the first line is held back, without one none. |
| `ParallelCsv.SeekToRowStart` | src/storage/csv/parallel.rs:621-635 | The start of the next line, or the end of the data; offset 0 stays. |
| `ParallelCsv.StartsSplit` | src/storage/csv/parallel.rs:389-483 | The lines up to a boundary and those from the next line start on are all the lines. |
| `ParallelCsv.BlockBounds` | src/storage/csv/parallel.rs:61-70 | The blocks are not empty, adjoin, and end with the file. |
| `ParallelCsv.BlockIsExact` | src/storage/csv/parallel.rs:389-483 | A block delivers the lines it owns, whole, if and only if it loses none and the content of none reaches beyond its slice; a newline alone may lie behind it. |
| `ParallelCsv.ParallelLinesAreExact` | src/storage/csv/parallel.rs:552-604 | All blocks together deliver each line after the header once, whole and in file order, if and only if every block fits. |
| `ParallelCsv.LineIsLost` | src/storage/csv/parallel.rs:402-417 | For every block size: behind two lines of exactly one block each the next line is lost, whatever the file goes on with. |
| `ParallelCsv.LineIsCut` | src/storage/csv/parallel.rs:419-423 | For every block size: a line one byte longer than a block that starts at the end of the first block comes out one byte short, whatever follows. |
| `ParallelCsv.AllShortLinesFit` | src/storage/csv/parallel.rs:389-483 | The slices always hold lines strictly shorter than a block. |
| `ParallelCsv.HasQuotedNewline` | src/storage/csv/parallel.rs:651-663 | True exactly if some newline stands behind an odd number of quotes, counted from the start. |
| `ParallelCsv.BlockScanIsExact` | src/storage/csv/parallel.rs:402-430 | If every block's slice holds its lines with their newlines, some scanned block reports a quoted newline if and only if one scan of the whole file does, though each block restarts the quote state. |
| `ParallelCsv.ReadLines` | src/storage/csv/parallel.rs:389-483 | The reader loop parses the slice's lines up to the first that starts behind the block; without `ignore_errors` the first bad line fails the block. |
| `ParallelCsv.ParseAllIsImport` | src/storage/csv/parallel.rs:448-472 | Without `ignore_errors` an import of some lines fails if and only if one of them is bad, with it never; and then rows and errors are those of the good and the bad lines, one for one and in order. |
| `ParallelCsv.ProcessBlock` | src/storage/csv/parallel.rs:389-483 | Nothing, a quoted-newline error, or the parse of the block's lines. |
| `ParallelCsv.ProcessBlocks` | src/storage/csv/parallel.rs:552-604 | The results are in block order whatever order the blocks finish in. |
| `ParallelCsv.Aggregate` | src/storage/csv/parallel.rs:552-604 | Any failed block fails the import; otherwise rows and errors are put together in block order. |
| `ParallelCsv.CombinedIsTaken` | src/storage/csv/parallel.rs:552-604 | The combined result is the parse of all delivered lines, or an error if a scan reports. |
| `ParallelCsv.ParallelReadAll` | src/storage/csv/parallel.rs:552-604 | For lines shorter than a block, or whenever the slices hold their lines: it fails if a newline is quoted, or if some data line is bad and errors are not ignored; otherwise rows and errors come from the good and the bad lines, one for one and in file order, as in one sequential pass. |
| `Values.StringsCompare` | src/types/value.rs:248-260 | One string is less if it is a proper prefix or has the smaller character at the first place where they differ. |
| `Expr.TryEvaluateConstant` | src/planner/optimizer/mod.rs:71-141 | The loops classify as the quantified definition does. |
| `Expr.ComparisonMeans` | src/planner/optimizer/mod.rs:144-158 | The six operators on two values: numbers by size, false before true, strings as in a dictionary; null and mixed types compare false. |
| `Expr.GroundIsDecided` | src/planner/optimizer/mod.rs:71-141 | An expression of constants alone is always classified; one false operand decides a conjunction, one true one a disjunction, and a negation turns its operand around. |
| `Expr.ConstIsValue` | src/planner/optimizer/mod.rs:71-158 | A True or False classification is the predicate's value on every row. |
| `Expr.SimplifyPredicate` | src/planner/optimizer/mod.rs:161-239 | The loops with their early returns compute the simplified predicate, in which nothing is left to simplify. |
| `Expr.SimplifyIsNormal` | src/planner/optimizer/mod.rs:161-239 | The result has no comparison of constants, no decided operand and no conjunction or disjunction of fewer than two; a decided predicate becomes the constant. |
| `Expr.SimplifyKeepsTruth` | src/planner/optimizer/mod.rs:161-239 | On every row the simplified predicate is true exactly when the predicate is. |
| `Expr.SimplifyKeepsConst` | src/planner/optimizer/mod.rs:161-239 | Simplification never changes the constant classification. |
| `Expr.SimplifyIsIdempotent` | src/planner/optimizer/mod.rs:161-239 | Simplifying twice is simplifying once. |
| `Expr.CollectColumnsFromExpr` | src/planner/optimizer/projection_pushdown.rs:94-124 | Adds exactly the columns the expression mentions. |
| `Expr.ValueDependsOnColumns` | src/planner/optimizer/projection_pushdown.rs:94-124 | An expression has the same value on rows that agree on its collected columns. |
| `Plans.PushToScan` | src/planner/optimizer/filter_pushdown.rs:19-63 | A filter moved into a scan keeps rows, order and columns if the scan's projection lets its columns through. |
| `Plans.PushThroughProjection` | src/planner/optimizer/filter_pushdown.rs:19-63 | A filter moved below a projection keeps them if its columns pass through unchanged. |
| `Plans.PruneProjection` | src/planner/optimizer/projection_pushdown.rs:22-81 | A scan cut down to the required columns, in any order, gives the same projected rows. |
| `Plans.SimplifyKeepsFilter` | src/planner/optimizer/mod.rs:251-281 | Simplifying, dropping or emptying a filter keeps rows and columns. |
| `Plans.FoldKeepsFilter` | src/planner/optimizer/mod.rs:294-314 | Folding a constant filter keeps rows and columns. |
| `Plans.RewriteKeepsMeaning` | src/planner/optimizer/mod.rs:45-52 | Every rule keeps rows, order and columns of every plan that is safe for it, also one built by hand. |
| `Plans.FilterPicks` | src/planner/optimizer/filter_pushdown.rs:19-63 | A filter keeps exactly the rows on which its predicate is true, in their order. |
| `Plans.RewritesMean` | src/planner/optimizer/mod.rs:45-52 | What each rule does to a plan: a filter over a scan becomes the scan's last filter, one over a projection moves below it, a decided one goes, an undecided one is simplified, and a scan is cut to the required columns. |
| `Plans.RenamedColumnIsLost` | src/planner/optimizer/filter_pushdown.rs:19-63 | A filter on a computed column loses its row when pushed below the projection. |
| `Plans.RulesKeepPlannable` | src/planner/mod.rs:153-182 | Every rule is safe on the planner's plans and makes another plan of the same kind. |
| `Plans.OwnNames` | src/planner/optimizer/projection_pushdown.rs:22-81 | The required columns of the variable without their prefix, in any order. |
| `Plans.RewriteProjection` | src/planner/optimizer/projection_pushdown.rs:22-81 | Replaces the scan's projection by the required columns, or by none if there are none; unreported, at most an old projection is dropped. |
| `Plans.PlanQueryGraph` | src/planner/mod.rs:104-146 | The plan is the first node's scan and then each relationship in turn, a path as a hop and an expansion with its own lower and upper bound; its rows are those of the pattern. |
| `Plans.StackedPathsAgree` | src/planner/mod.rs:104-146 | The plan's rows are those of the pattern with each path in place of its single hop, for all tables and operators, if and only if the pattern has no path. |
| `Plans.MakePlan` | src/planner/mod.rs:65-100 | The plan is the pattern's with filter, projection, sort and limit around it in this order, each if the query has it, and its rows are accordingly; fails exactly on an empty pattern. |
| `Plans.CutMeans` | src/planner/mod.rs:65-100 | A limit drops the rows skipped and keeps the next ones up to its number. |
| `Plans.Optimize` | src/planner/mod.rs:153-162 | Runs the rules one after the other, each on what the one before it left; any of them, in any order and number, keep rows, order and columns of every plan the planner builds. |
| `Plans.OptimizeWithTracking` | src/planner/mod.rs:169-182 | The same, and names exactly the rules that reported a change, in the order they ran; a run without any changes at most a scan's old projection. |
| `Executor.EvaluateExpression` | src/executor/mod.rs:277-315 | A missing column fails. Numbers compare by size under the six operators, a whole number next to a float at the float's scale, booleans with false first, strings as in a dictionary; null and mixed types fail. |
| `Executor.FoldingAgreesWithFilters` | src/executor/mod.rs:263-269 | Folding and filtering compare alike for all operators exactly if not one side is an integer and the other a float. |
| `Executor.OutputRowMeans` | src/executor/extend.rs:109-134 | An answer is refused exactly for ids beyond 2^63; otherwise each column is a property of the relationship, one of the two ids, or the input row's. |
| `Executor.SourceMeans` | src/executor/extend.rs:65-95 | The id comes from `_id` of the variable, else from its `id`, else from the third lookup, and a negative one is refused. |
| `Executor.RowAnswers` | src/executor/extend.rs:138-161 | An input row with an id has one answer for each edge it is traversed along, in their order. |
| `Executor.AnswersInTurn` | src/executor/extend.rs:138-161 | Answers to several inputs come input by input. |
| `Executor.ExtendOperator.FetchEdges` | src/executor/extend.rs:97-107 | The logged edges leaving the node, entering it, or both with the leaving ones first. |
| `Executor.ExtendOperator.CreateOutputRow` | src/executor/extend.rs:109-134 | The input row with the reached id and, for a named relationship, its id and logged properties; ids beyond 2^63 fail. |
| `Executor.ExtendOperator.Next` | src/executor/extend.rs:138-161 | Hands out the remaining answers one by one: every edge of every input row in order, one error per row without an id or per error of the input, then nothing. |

## Left out

- I/O errors, fsync, buffering inside the log writer, mmap, locks, rayon scheduling and `unsafe` slices: the disk is a sequence of pages that never fails, blocks finish in any order.
- Page and file numbers: only file 0 exists; page indexes are unbounded and images are claimed only for files of at most 2^32 pages; pin counts never saturate.
- `read_page` on a partly written last page, and cache statistics.
- Concurrency of the buffer pool itself: it runs one call at a time; only the page word is modelled with threads. `PageState::reset` is not modelled.
- Arc and hash-map identity of tables: inside `Database` tables are values, taken out into objects to be changed in place and put back, so aliasing between queries and updates is not captured.
- Version 1 and 2 headers and their migration, and a failed checkpoint's partly updated header ranges.
- CREATE TABLE and catalog changes, CSV imports and their rows: not logged by the code, so the schema is fixed and `Database.Create` starts from a given catalog.
- ApplyRecord: every node table of the catalog is in memory, as loading always makes one; that rows of a missing one are skipped is not modelled.
- Open: a page file with a good header is one that a completed checkpoint has written; crashes in the middle of a checkpoint are not modelled. An empty catalog payload is not modelled because encodings are never empty. A table payload that fails to decode is silently taken as no tables by the code; with an invertible codec it cannot happen.
- EarlyReadMisses, AppendedReads, CheckedFramesAreLost: one assumption on the codec, that the first appended encoding does not show again in its own frame one to four bytes early; for begin records it fails only if all their bytes are zero, and their transaction ids start at 1. Decoding reads a whole encoding and may leave bytes behind it unread.
- Floats are whole multiples of 2^-1074: no NaN, infinities, signed zero or rounding, and no Float32, Date and Timestamp values.
- Integers are unbounded where the code counts rows, offsets, log sequence numbers and transaction ids in 64 bits.
- StepRecovers, RunRecovers, RunRecoversExactly: crashes keep whole records; `Durability.RunIsDurableExactly` has crashes at any byte.
- InsertEdge: on a group without nodes the code subtracts one from zero for its error text, which panics in debug builds; the model returns the error.
- Log records of node deletion, update and relationship deletion, which nothing writes; row counts of `ReplayResult`.
- CSV: row numbers, byte counts, progress, delimiters, CRLF, blank lines and ragged rows; the row parser is a function of the line's bytes and the quote character is not a newline. Blocks of size 0 make the code divide by zero. The configuration check accepts sizes from 64 KiB to 16 MiB; what is proved holds for every positive size.
- WHERE clauses on variable-length paths, which the search does not receive.
- OneHopAgrees: compares with the single hop without its WHERE clause and without relationship columns, which the path form does not have.
- FewerThanSingleHop: the same comparison.
- FoldingAgreesWithFilters: no NaN; with NaN on the float side a mixed pair agrees, because neither comparison has an ordering.
- The grammar, the binder, EXPLAIN text, DataFusion and vectorized execution, ORDER BY and aggregates in `lib.rs`; in plans they are arbitrary functions of their input rows.
- Rules that users add to the planner; the four built-in ones are modelled.
- SrcNodeId: the third lookup scans a hash map for some column that ends in `.id`; what it finds is a parameter.
- Equality by debug text in the simplification rule is equality of expressions.
