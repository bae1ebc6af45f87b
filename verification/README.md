# Verification of mqlog

mqlog is an append-only log that a program embeds. Its C sources have three layers and a checksum,
and this project models each and proves what it keeps:

- `MbpTreeShape.dfy`, `MbpTreeHeap.dfy`, `MbpTreeFacts.dfy`, `MbpTree.dfy`: the monotonic B+tree of
  `src/mbptree.c`. The nodes are objects with arrays, parent pointers and a leaf chain, updated in
  place, with splits that climb along the parents. `MbpTreeShape` is the same tree as plain values,
  level by level; `MbpTreeHeap` says when the heap agrees with it after each store; `MbpTreeFacts` holds
  what is proved about search, iterators, depth and reading order. A `Tree` carries the sequence of
  accepted pairs as `contents`.
- `MbpTreeLock.dfy`: the two-field lock of the tree as a system of steps.
- `Crc32Table.dfy`, `Crc32.dfy`: the checksum, its table, and its division by a polynomial (section 8 of
  RFC 1952; the FCS of section 3.2.9 of IEEE 802.3).
- `Prot.dfy`: the frame header, byte by byte.
- `SegmentLayout.dfy`, `Segment.dfy`: a segment: a buffer of bytes with frames, an index of offsets, the
  write and sync marks, and recovery by a scan of the index.
- `SegmentDisk.dfy`: the two files of a segment as msync has left them on disk, beside the mapped memory, and
  what recovery finds there when the power is lost.
- `SegmentRoom.dfy`: how many index entries a segment has against how many frames its buffer takes.
- `SegmentSteps.dfy`: the same segment with every load and store a step of its own, under sequential
  consistency, with any number of writers and lock-free readers, and with crashes.
- `SegmentSync.dfy`: a sync of the segment by single steps, beside writers and committed readers.
- `MqlogLayout.dfy`, `MqlogDisk.dfy`, `MqlogFiles.dfy`, `Mqlog.dfy`: the log over a directory of segments, found through a
  tree with branch factor 7. It refines a sequence of entries. The directory has, for every file, what is
  mapped and what is on disk.
- `MqlogCrash.dfy`: a crash of the log in the middle of a write or of a rollover.
- `MqlogPower.dfy`: the log after the loss of power, and what committed reads hand out of files that were
  never flushed.
- `MqlogSteps.dfy`: the log with every load and store a step of its own, with rollovers beside reads, and
  writes that go through all their steps.

`dafny verify dfyconfig.toml` checks everything.

## Conventions and findings

- A branch factor below 3 is excluded (`src/mbptree.c:126-127`): the middle slot of a full node would not
  hold a live key. mqlog uses 7 (`src/mqlog.c:12`).
- `mbptree_leaf_first` is the floor of zero (`src/mbptree.c:444-446`): in a tree whose least key is above 0 it
  gives an invalid iterator. It starts at the first pair if and only if that has the key 0
  (`MbpTree.Tree.LeafFirst`), as the first segment of a log has (`src/mqlog.c:51`).
- `calculate_index_size` is commented as a ceiling and its result is used as a number of bytes
  (`src/segment.c:224-227`, `src/segment.c:356-368`). The model follows the code: a segment of `size` bytes
  has `(size + 1) / 12 / 8` index entries. So it is not true that a write that fits has an index entry, and
  a write to a segment whose index is full would store past its end; writes require a free slot. With
  payloads of at least n bytes there always is one if and only if
  `Capacity(size) * (12 + n) + n + 24 > size` (`SegmentRoom.WritesHaveSlotsExactly`): from 84 bytes on for
  every size, in a page of 4096 bytes from 83 on, and not with one byte.
- Recovery needs a slot beyond the frames and fails without (`src/segment.c:221`), so a segment whose index
  is full is lost on reopening. With payloads of at least n bytes that never happens if and only if
  `Capacity(size) * (12 + n) + 12 > size` (`SegmentRoom.SlotsStayFreeExactly`): from 86 bytes on for every
  size of a page or more. `SegmentRoom.EightyFourIsLost` is a page with 42 payloads of 84 bytes, all of
  them taken and none given back.
- `sync_data` narrows the number of flushed bytes to an int (`src/segment.c:295-313`). A flush of two
  gigabytes or more makes the data durable, but is reported as a failure and leaves the index unflushed;
  `Segment.Segment.Sync` and `Mqlog.Log.Close` give the exact condition, and `SegmentRoom.TwoGigabytes` is
  such a segment.
- `segment_open` sets the sync mark to the write mark and flushes nothing (`src/segment.c:418-419`). After
  that, committed reads hand out everything that is mapped. What they rely on is durable if and only if the
  files on disk agreed with the mapped ones up to the write mark before (`Mqlog.Open`), as they do after a
  close without a failing msync of data (`Mqlog.Reopen`). Otherwise it is not: in `MqlogPower.UnflushedIsRead`
  an entry is written, never synced, and handed out by a committed read of the reopened log, while the file
  on disk is all zeros.
- `mqlog_sync` takes no mutex (`src/mqlog.c:295-303`), so that a write can be in the middle of its stores when a
  sync loads the write offset. The sync mark then passes a frame that was not flushed whole, and a committed
  read hands it out once it is complete in memory: `SegmentSync.SyncRaces` is such a run, without a failing
  msync. A flush puts on disk every frame below its end if and only if memory holds them all when it is done
  (`SegmentSync.FlushExactly`). When no writer is at the stores of a frame that a flush covers, committed reads
  hand out only what is on disk (`SegmentSync.CommittedIsDurable`).
- When msync of the index fails, or the flush of the data is taken for a failure, the data mark moves and the
  index mark does not (`src/segment.c:295-333`, `src/segment.c:608-615`). With the data mark at the start of a page
  the next sync has no bytes to flush, stops before the index, and reports success
  (`SegmentDisk.RetryLeavesIndex`); `SegmentRoom.IndexLeftBehind` is such a segment. A sync that reports success
  gets the whole segment on disk if and only if its index was there already, or holds at most one entry, or
  there were data beyond the mark, or the mark was inside a page (`SegmentDisk.CompletedSecures`). After the loss
  of power all that committed reads could read is found again if and only if the index mark has kept up, or
  there was but one such frame (`SegmentDisk.CommittedSurvive`).
- `segment_open` refuses a size that is no multiple of the page size, for files that are loaded too
  (`src/segment.c:341`, `src/mqlog.c:157-170`): a log is not opened on a machine with larger pages than
  some file of it (`MqlogLayout.LargerPageRefuses`).
- `marked_eos` looks at the last twelve bytes whatever they are (`src/segment.c:287-292`). A segment that has not
  ended is taken for ended if and only if the two bytes that stand twelve before the end of its last frame are
  0xaa, which may be bytes of the payload or of the checksum (`SegmentRoom.MarkedByFrame`); it is then left
  early. A payload of twelve bytes that begins so is enough (`SegmentRoom.LooksEnded`). The log theorems hold
  all the same.
- A payload that no segment takes leaves files with an end marker alone (`src/mqlog.c:59-64`,
  `src/mqlog.c:79-87`), or such a marker in a last segment without entries. From then on the log refuses every
  payload (`Mqlog.Log.RefusedForGood`). After the next opening those files count as one entry that no read
  returns, a `Hole`, and the log takes payloads again (`Mqlog.Reopen`).
- A last segment without entries, as a crash of a rollover leaves it, is loaded and written to. When it ends
  before it has an entry, the segment after it has the same base, and `create_segment` opens the same files a
  second time, or fails with ELFLEOP when they have another size (`Mqlog.Log.TryWrite`).
- mbptree.h calls the tree thread-safe. Appends never overlap appends or descents
  (`MbpTreeLock.Exclusion`), but a lookup whose compare-and-swap was prepared while an append held the lock
  brings the exclusive bit back (`src/mbptree.c:462-472`), and then nothing gets the lock again:
  `MbpTreeLock.StuckExactly` says at which step, `MbpTreeLock.LostExactly` in which runs, and
  `MbpTreeLock.LosesLock` is one. When no lookup looks
  at the lock while an append is at work, as under the mutex of the log, it never happens
  (`MbpTreeLock.NeverLost`).
- `mqlog_sync` flushes the last segment only (`src/mqlog.c:295-303`): after it nothing is withheld from committed
  reads if and only if nothing of the segments before was (`Mqlog.Log.Sync`). After the loss of power the files
  tile the offsets if and only if the sync marks of all segments but the last are at their ends
  (`MqlogPower.PowerLossTiles`), and nothing is lost if and only if that of the last is, too
  (`MqlogPower.NothingLostExactly`). A sync that follows a rollover does not bring that about, and reports success
  (`MqlogPower.SyncMissesRollover`); nor does every close without an error (`MqlogPower.CloseAndLose`).

## Model

| member | source | states |
|---|---|---|
| `MbpTree.AppendAll` | src/mbptree.c:314-381 | After any sequence of appends to a new tree its contents are exactly the pairs whose key is above all keys before them in the sequence. |
| `MbpTree.Tree.constructor` | src/mbptree.c:383-404 | A new tree is valid, empty and unlocked. |
| `MbpTree.Tree.TryAppend` | src/mbptree.c:314-381 | With the lock taken, a key above the last one is appended, whatever leaves, splits and roots that takes; any other key is refused with ELIDXNM and nothing at all changes. Leaves only ever gain right neighbours. |
| `MbpTree.Tree.Append` | src/mbptree.c:412-432 | With the lock held by anyone the append is refused with ELIDXLK; otherwise it does what TryAppend does and leaves the lock free. Every standing iterator keeps its place among the contents. |
| `MbpTree.Tree.MoveKeys` | src/mbptree.c:129-132 | The keys right of the middle one move to the right node in order, and their old slots are cleared. |
| `MbpTree.Tree.MoveChildren` | src/mbptree.c:134-142 | The children right of the middle one move with them and point to their new parent; nothing else changes. |
| `MbpTree.Tree.MoveHalfNode` | src/mbptree.c:110-147 | Returns the key in slot branch_factor/2; the left node keeps that many keys, those before it, and the right node has those after it. |
| `MbpTree.Tree.AddChild` | src/mbptree.c:195-202 | A pending child hung on a parent with room restores the whole invariant. |
| `MbpTree.Tree.SplitBelowRoot` | src/mbptree.c:219-229 | Splitting a full inner node leaves a valid tree but for the new right half, pending one level up with the middle key as its separator. |
| `MbpTree.Tree.SplitRoot` | src/mbptree.c:149-183 | Splitting the full root gives a valid tree that is one level higher. |
| `MbpTree.Tree.AppendNode` | src/mbptree.c:189-210 | From any pending level the climb ends in a valid tree with the same leaves. |
| `MbpTree.Tree.SplitNode` | src/mbptree.c:212-232 | The same, from a full parent below the root; the climb terminates. |
| `MbpTree.Tree.AppendLeaf` | src/mbptree.c:234-273 | A new leaf still unknown to its parent becomes part of a valid tree, and the last leaf. |
| `MbpTree.Tree.HangLeaf` | src/mbptree.c:340-351 | The pair goes to a new last leaf behind the full one; only the address in the parent is still missing. |
| `MbpTree.Tree.AppendFirst` | src/mbptree.c:330-366 | When the full last leaf is the root, a new leaf and a root over the two hold the old pairs and the new one. |
| `MbpTree.Tree.LastValue` | src/mbptree.c:434-442 | The value of the greatest key, or nothing exactly when the tree is empty. |
| `MbpTree.Tree.FindLeaf` | src/mbptree.c:292-312 | The descent by separators ends at the one leaf whose key range covers the key. |
| `MbpTree.Tree.LeafFloor` | src/mbptree.c:448-498 | An iterator at the greatest stored key not above the given one; an invalid iterator exactly when every key is above it; ELIDXLK while an append holds the lock. |
| `MbpTree.Tree.LeafFirst` | src/mbptree.c:444-446 | It is the floor of zero: at the first pair if and only if that has the key 0, and invalid otherwise; ELIDXLK while an append holds the lock. |
| `MbpTree.LeafIterator.ValidExactly` | src/mbptree.c:500-505 | Wherever an iterator is in a leaf of the tree, it is valid if and only if that is a position of the contents. |
| `MbpTree.LeafIterator.Current` | src/mbptree.c:507-514 | An iterator at position g reads pair g of the contents. |
| `MbpTree.LeafIterator.Next` | src/mbptree.c:516-536 | The next position, across leaves, and invalid exactly after the last pair. |
| `MbpTree.ReadOn` | src/mbptree.c:500-536 | Repeated moves of an iterator visit every pair from its position on, once and in order, and then it is invalid. |
| `MbpTree.ReadFrom` | src/mbptree.c:448-536 | A floor lookup followed by moves gives the contents from the greatest key not above the given one on, and nothing when every key is above it. |
| `MbpTree.Tree.ReadsLeftToRight` | src/mbptree.c:292-312 | Following child pointers from the root, left to right, reads exactly the contents, whose keys ascend strictly. |
| `MbpTree.Tree.Shape` | src/mbptree.c:110-273 | In every valid tree all leaves are at one depth; every leaf but the last is full and points to the next; every inner node with a right neighbour has exactly branch_factor/2 keys; the last one of a level has at least ceil(branch_factor/2)-1 (1 for the root). |
| `MbpTree.Tree.Child` | src/mbptree.c:119-273 | Every child points back to its parent, and the separator on its left is the first key under it. |
| `MbpTree.Tree.Depth` | src/mbptree.c:189-232 | A tree with h inner levels holds at least (bf-1)*(bf/2+1)^(h-1)+1 pairs, so climbs and descents are of logarithmic length. |
| `MbpTreeShape.LinkLastKeepsTree` | src/mbptree.c:197-202 | Giving the last node of a level its pending child completes the tree. |
| `MbpTreeShape.SplitKeepsTree` | src/mbptree.c:219-231 | Halving a full inner node and giving the right half the pending child moves the missing link one level up and keeps everything else. |
| `MbpTreeShape.SplitTopKeepsTree` | src/mbptree.c:155-182 | Halving the full root under a new root completes the tree. |
| `MbpTreeShape.StoreKeepsTree` | src/mbptree.c:323-328 | A pair stored in a last leaf with room gives a tree over the longer contents. |
| `MbpTreeShape.ChainKeepsTree` | src/mbptree.c:340-351 | A new last leaf gives a tree over the longer contents, with one link missing. |
| `MbpTreeShape.GrowRootKeepsTree` | src/mbptree.c:330-366 | The first root over two leaves gives a tree over the longer contents. |
| `MbpTreeFacts.Descend` | src/mbptree.c:300-311 | The child before the first greater separator covers the key, when the node does. |
| `MbpTreeFacts.LeafFloorIsFloor` | src/mbptree.c:481-493 | The last slot not above the key, in the leaf that covers it, is the floor among all pairs. |
| `MbpTreeFacts.NoFloor` | src/mbptree.c:481-493 | When that leaf has no such slot, no leaf has. |
| `MbpTreeFacts.StandsFirm` | src/mbptree.c:314-381 | A position that an iterator stands on is the same position of any later contents of the tree. |
| `MbpTreeFacts.StandsNext` | src/mbptree.c:516-536 | Behind the last slot of a full leaf the chain leads to the next position. |
| `MbpTreeFacts.DepthIsLogarithmic` | src/mbptree.c:189-232 | The bound of `Depth`, from the widths of the levels. |
| `MbpTreeFacts.ReadsContents` | src/mbptree.c:292-312 | Reading by child pointers agrees with the leaf chain, level by level. |
| `MbpTreeFacts.AcceptsRecords` | src/mbptree.c:319-321 | Comparing with the last key only accepts exactly the pairs above all earlier ones. |
| `MbpTreeLock.NextKeeps` | src/mbptree.c:412-477 | At every step the shared field counts the descents, and an append has the whole lock. |
| `MbpTreeLock.RunKeeps` | src/mbptree.c:412-477 | The same over every interleaving of appends and lookups. |
| `MbpTreeLock.Exclusion` | src/mbptree.c:412-477 | In every interleaving no append overlaps another append or a descent, even when a lookup swaps from a stale snapshot. |
| `MbpTreeLock.StuckExactly` | src/mbptree.c:462-472 | The lock is lost at a step if and only if a lookup's swap succeeds there from a snapshot that has the exclusive bit. |
| `MbpTreeLock.LostExactly` | src/mbptree.c:412-477 | A run from the free lock ends with it lost if and only if some lookup's swap in it succeeded from a snapshot that had the exclusive bit. |
| `MbpTreeLock.StuckForEver` | src/mbptree.c:412-472 | Once lost, the lock stays lost in every run: no append and no descent ever begins again. |
| `MbpTreeLock.LosesLock` | src/mbptree.c:462-477 | A run of one append and one lookup that loses it. |
| `MbpTreeLock.NeverLost` | src/mqlog.c:110-134 | In every run where no lookup takes its snapshot while an append is at work the lock is never lost, and is free whenever nothing is at work. |
| `MbpTreeLock.AppendAlone` | src/mbptree.c:412-432 | An append on its own has the whole lock if and only if nobody had any of it, changes nothing otherwise, and gives all of it back. |
| `MbpTreeLock.LookupAlone` | src/mbptree.c:462-477 | A lookup on its own descends if and only if no append has the lock, beside any number of lookups, is refused with the lock as it was otherwise, and gives back what it took. |
| `MbpTreeLock.LateSwap` | src/mbptree.c:462-474 | Whatever others do between the look of a lookup at the lock and its swap, it descends if and only if no append has the lock then and as many lookups descend as when it looked; otherwise it is refused and the lock stays as it is. |
| `Crc32.Crc32` | src/crc32.c:92-101 | The loop over the table gives the complemented remainder of the bitwise division of the message by 0xedb88320, for every buffer and start. |
| `Crc32.LookupEntry` | src/crc32.c:46-90 | Each of the 256 entries is the remainder of its index after eight shift steps. |
| `Crc32.TableRound` | src/crc32.c:97 | One table round equals eight shift steps of the register with the byte added. |
| `Crc32.ByteIn` | src/crc32.c:97 | Adding a byte at once and shifting eight times equals taking its bits one at a time. |
| `Crc32.Chains` | src/crc32.c:92-101 | The checksum of two buffers one after the other is that of their concatenation. |
| `Crc32.DivideLinear` | src/crc32.c:92-101 | The remainders of two messages differ by the remainder of their difference. |
| `Crc32.BurstLeavesRemainder` | src/crc32.c:92-101 | No difference that spans at most 32 bits has remainder zero. |
| `Crc32.DetectsBurst` | src/crc32.c:92-101 | Two messages of one length whose differences lie within 32 consecutive bits never have the same checksum. |
| `Crc32.DetectsFourBytes` | src/crc32.c:92-101 | So too when they differ only inside four consecutive bytes, at any place and with any start. |
| `Crc32.Residue` | src/crc32.c:92-101 | For every message and start, four more bytes give the checksum 0x2144df1c if and only if they are the checksum of the message, lowest byte first. |
| `Crc32.LeadingZero` | src/crc32.c:92-101 | A zero byte in front of a message changes its checksum, for every message and from every start but 0xffffffff. |
| `Crc32.CheckValue` | src/crc32.c:92-101 | The digits from 1 to 9 in ASCII have the checksum 0xcbf43926. |
| `Prot.HeaderReads` | src/prot.h:26-32 | The flags and the size of a header in memory read back as they were stored. |
| `SegmentLayout.FrameReads` | src/segment.c:514-605 | A complete frame reads back as its flags, its size and its payload, and these are its bytes: ef be 00 00, the size with its header, the checksum of the payload from zero, both lowest byte first, and the payload. |
| `SegmentLayout.PutFrameHolds` | src/segment.c:514-529 | The stores of the writer, in their order, leave a complete frame, byte by byte as in `FrameReads`, and touch nothing before or after it. |
| `SegmentLayout.PutEosHolds` | src/segment.c:268-275 | The stores of the end marker leave one, the bytes aa aa 00 00 0c 00 00 00, and touch nothing before them and nothing after, the checksum field included. |
| `SegmentLayout.Capacity` | src/segment.c:193-227 | The index has one slot for every 96 bytes of size + 1, rounded down: 96 * Capacity(size) <= size + 1 < 96 * (Capacity(size) + 1). |
| `SegmentLayout.WriteKeeps` | src/segment.c:474-539 | After a write of what fits the frames still tile the buffer from 0 to the write mark, each index entry is the sum of the sizes before it, and twelve bytes are left for an end marker. |
| `SegmentLayout.EosKeeps` | src/segment.c:254-278 | There is always room for the end marker, and it keeps all frames. |
| `SegmentLayout.ReadsFrame` | src/segment.c:562-605 | The index entry of each frame leads to it, below the write mark. |
| `SegmentLayout.RecoversFile` | src/segment.c:193-222 | The scan finds exactly the number of frames and the end of the last one, or 1 and 12 for an end marker alone, if and only if the index has a slot left; otherwise it fails. |
| `SegmentLayout.CloseLeaves` | src/segment.c:426-443 | Any state of a segment leaves files that recovery reads as its frames; an end marker after frames is dropped. |
| `SegmentLayout.SyncedBoundary` | src/segment.c:550-574 | A frame begins below the sync mark if and only if it lies wholly below it. |
| `SegmentDisk.FlushCovers` | src/segment.c:295-333 | A flushed range is durable up to its end if and only if what comes before the range was durable already. |
| `SegmentDisk.SyncFlushesPages` | src/segment.c:295-333 | What a sync does to the marks and the disk, for every outcome of the two msync, in terms of bytes: the data from the start of the page of the mark to the end; then, if there were bytes to flush and fewer than 2^31, the index entries from the page of the index mark on. |
| `SegmentDisk.SyncMakesSafe` | src/segment.c:295-333 | After a sync all data below the sync mark are durable if and only if those before the page of the old mark were. |
| `SegmentDisk.SyncKeepsSound` | src/segment.c:295-333 | A sync, whichever msync of it fails, keeps on disk what the marks say: durable data, a durable index up to its mark with nothing after, and no stray first header. |
| `SegmentDisk.WriteKeepsSafe` | src/segment.c:504-539 | A write leaves everything below the sync mark as it is on disk. |
| `SegmentDisk.OpenedAgrees` | src/segment.c:414-419 | With the sync mark at the end, as opening sets it, the mark says what is durable if and only if the files on disk agree with the mapped ones already. |
| `SegmentDisk.ReopenedSyncKeeps` | src/mqlog.c:66-87 | Closing the files of an ended last segment without entries a second time keeps on disk what its own segment has there. |
| `SegmentDisk.PowerLossLeaves` | src/segment.c:193-222 | Whatever was synced and whatever msync failed, the files on disk are whole frames that recovery reads: those with a durable index entry and the first one without; or an end marker alone. |
| `SegmentDisk.PowerLossRecovers` | src/segment.c:193-222 | The scan of the files on disk finds exactly that, if and only if a slot is left. |
| `SegmentDisk.CommittedSurvive` | src/segment.c:295-333 | Exactly the frames below the sync mark are found after the loss of power if and only if the index mark is at the last of them, or there is at most one. |
| `SegmentDisk.RetryLeavesIndex` | src/segment.c:608-615 | With the data mark at its end and at the start of a page, a sync succeeds and leaves an index behind that was not durable. |
| `SegmentDisk.LastsExactly` | src/segment.c:193-222 | After the loss of power all frames of a segment are found if and only if all are below its sync mark and its index mark is at the last of them, or there is one. |
| `SegmentDisk.SecuresExactly` | src/segment.c:295-333 | A sync whose msync of the data succeeds gets a segment there if and only if its index was there already, or holds at most one entry, or is flushed. |
| `SegmentDisk.CompletedSecures` | src/segment.c:608-615 | A sync that reports success gets it there if and only if the index was there already, or holds at most one entry, or there were data beyond the mark, or the mark was inside a page. |
| `SegmentRoom.WritesHaveSlotsExactly` | src/segment.c:224-227 | Every write of at least n bytes that fits, to a segment with payloads of at least n bytes, has an index slot if and only if Capacity(size) * (12 + n) + n + 24 > size. |
| `SegmentRoom.SlotsStayFreeExactly` | src/segment.c:193-222 | Every segment with payloads of at least n bytes has a slot left for recovery if and only if Capacity(size) * (12 + n) + 12 > size. |
| `SegmentRoom.Fill` | src/segment.c:459-545 | A new segment takes k payloads of zeros, as long as they fit and there are slots, and has not ended then: the witness of both conditions. |
| `SegmentRoom.FullIsLost` | src/segment.c:221 | Recovery fails on the files of a segment whose index is full. |
| `SegmentRoom.EightyFour` | src/segment.c:224-227 | Payloads of at least 84 bytes have index slots in a segment of any size. |
| `SegmentRoom.EightySix` | src/segment.c:224-227 | Payloads of at least 86 bytes leave a slot in every segment of a page or more. |
| `SegmentRoom.EightyFourIsLost` | src/segment.c:193-227 | A page that took 42 payloads of 84 bytes and gives none of them back. |
| `SegmentRoom.PageOverruns` | src/segment.c:224-227 | In a page, writes of one byte and of 82 run out of slots and writes of 83 do not; payloads of 84 and of 85 can leave no slot for recovery. |
| `SegmentRoom.MarkedByFrame` | src/segment.c:280-293 | A segment with frames that has not ended is taken for ended if and only if the twelve bytes at the end of its last frame begin with the flags of an end marker. |
| `SegmentRoom.LooksEnded` | src/segment.c:280-293 | A page with one payload of twelve bytes that is taken for ended while it has room. |
| `SegmentRoom.TwoGigabytes` | src/segment.c:295-315 | A reachable segment with 2^31 bytes to flush, whose sync is reported as a failure. |
| `SegmentRoom.IndexLeftBehind` | src/segment.c:608-615 | Two frames to the end of a page, whose index msync failed once: the next sync reports success and changes nothing, and after the loss of power one frame is found. |
| `Segment.FindWOffsetPair` | src/segment.c:193-222 | The loop returns the first free slot and the end of the frame before it, or fails when there is none. |
| `Segment.Open` | src/segment.c:335-424 | Opening files gives a segment with exactly the frames they hold, and the sync mark at their end, and fails if and only if the index has no slot left. |
| `Segment.Segment.Claim` | src/segment.c:229-252 | The write mark moves exactly when it is what the caller last saw. |
| `Segment.Segment.MarkEos` | src/segment.c:254-278 | The end marker is stored at the mark, byte by byte, which moves past it and keeps its index; a lost race changes nothing. |
| `Segment.Segment.Publish` | src/segment.c:504-539 | The frame stands at the claimed place, byte by byte, and its index entry leads there; nothing else changes. |
| `Segment.Segment.Write` | src/segment.c:459-545 | A write of n bytes adds one complete frame if n + 24 bytes are left, or ends the segment, or finds it ended and stores nothing, and in each case the whole new state is given, the frame or the marker byte by byte; no earlier frame changes, and the sync mark stays. |
| `Segment.Segment.Read` | src/segment.c:547-606 | Offset i gives the complete payload of frame i, or nothing past the end; with committed reads, exactly the frames below the sync mark. |
| `Segment.Segment.SyncData` | src/segment.c:295-313 | msync of the data from the page of the mark on: the mark moves to the end and the number of bytes comes back as an int; a fault changes nothing. |
| `Segment.Segment.SyncIndex` | src/segment.c:315-333 | msync of the index entries from the page of the mark on: the mark moves to the end and the number of entries comes back; a fault changes nothing. |
| `Segment.Segment.Sync` | src/segment.c:608-615 | The sync mark never passes the write mark and always sits at the end of a frame or marker. The new marks and the new files on disk are given exactly, for every outcome of the two msync, and so is what is returned: ELDTSYN when an msync fails, the narrowed number when 2^31 bytes or more were flushed, and otherwise by how many entries the index mark moved. |
| `SegmentSteps.NextKeeps` | src/segment.c:229-606 | Every single load and store, of any writer or reader, keeps the invariant of the segment, and claims only go forward. |
| `SegmentSteps.StoresArePutFrame` | src/segment.c:504-539 | The single stores of a claim, run to the end, leave what the sequential writer leaves. |
| `SegmentSteps.StoresArePutEos` | src/segment.c:268-275 | The same of the single stores of an end marker. |
| `SegmentSteps.WriteAlone` | src/segment.c:459-545 | From any state at rest, which has room for an end marker, a write on its own can do all its steps, and leaves what the sequential writer leaves: a frame more, an end marker, or nothing new when it finds a marker. |
| `SegmentSteps.ClaimsTile` | src/segment.c:229-252 | In every interleaving of writers up to the first end marker each index below the mark belongs to one claim, and the regions are disjoint, inside the buffer, and tile it up to the mark. |
| `SegmentSteps.NeverTorn` | src/segment.c:547-606 | In every interleaving a read that returns a length returned exactly the payload claimed at its offset, complete, and that stays so whatever is written afterwards. |
| `SegmentSteps.StaysReadable` | src/segment.c:486-606 | A frame that can be read can be read for ever, with the same bytes. |
| `SegmentSteps.ReadableIsRead` | src/segment.c:547-606 | In every run a read of such a frame that has begun returns it after its five loads, whatever writers and other readers do in between. |
| `SegmentSteps.ReadAgain` | src/segment.c:547-606 | After a read has returned a length, every later read of that offset, in every run, returns the same place and length. |
| `SegmentSteps.OutOfOrder` | src/segment.c:490-539 | From any state at rest with room for two frames there is a run of two writers after which the second frame can be read and nothing of the first is stored. |
| `SegmentSteps.Refusals` | src/segment.c:547-606 | In every run a read finds an invalid header only at the first offset, once that is claimed; at an offset that is not claimed when it has returned, it finds nothing. |
| `SegmentSteps.UnclaimedIsRefused` | src/segment.c:547-560 | In every run a read of an offset that is still unclaimed after its first two loads has returned, with nothing. |
| `SegmentSteps.FirstIsAnswered` | src/segment.c:547-606 | In every run a read of the first offset that begins when it is claimed is answered after its loads with the frame or with an invalid header, never with nothing. |
| `SegmentSteps.SerialKeeps` | src/segment.c:486-539 | With one writer at a time at most the last claim is unfinished. |
| `SegmentSteps.CrashLeaves` | src/segment.c:254-545 | After any prefix of the stores of a frame or of an end marker the files hold all frames whose write was complete, at most the one in flight besides, and each of them complete; or an end marker alone, with its size in place. |
| `SegmentSteps.CrashRecovers` | src/segment.c:193-222 | The scan after the crash finds exactly that, if and only if a slot is left. |
| `SegmentSteps.StartKeeps` | src/segment.c:400-419 | A reopened segment is a state to go on from, whatever lies beyond its frames. |
| `SegmentSteps.RoundGoesOn` | src/segment.c:193-222 | Recovery after a round succeeds if and only if a slot is left, and then finds the start of the next round, or an end marker alone, after which nothing is written. |
| `SegmentSteps.RoundsKeep` | src/segment.c:193-222 | Through any number of rounds of running, crashing at any store, and recovering with a slot left and more than an end marker alone, no frame that was whole at the start of a round is lost or changed. |
| `SegmentSync.NextKeeps` | src/segment.c:229-615 | Every step of a sync whose flush is orderly, and every load and store beside it, keeps every frame below the sync mark on disk, and every reader below the mark. |
| `SegmentSync.CommittedIsDurable` | src/segment.c:547-615 | In every interleaving in which no writer is at the stores of a frame that a flush covers, committed reads hand out only payloads that are on disk, complete. |
| `SegmentSync.FlushExactly` | src/segment.c:295-318 | After a flush all frames below its end are on disk if and only if memory holds all of them when it is done. |
| `SegmentSync.QuietIsOrderly` | src/mqlog.c:269-303 | A flush with no writer at its stores, as under a mutex, is such a one. |
| `SegmentSync.SyncAlone` | src/segment.c:295-313 | A sync on its own puts the data from the page of the mark up to the write offset on disk and moves the mark there; with a fault it changes neither. |
| `SegmentSync.SyncRaces` | src/mqlog.c:295-303 | A run of one write and one sync without a fault, after which a committed read has handed out a payload that is not on disk. |
| `MqlogLayout.ContentsAt` | src/mqlog.c:141-144 | The segments tile the offsets: entry j of a segment is at its base plus j. |
| `MqlogLayout.ContentsLength` | src/segment.c:450-452 | The write offset of the last segment is the number of entries of the log. |
| `MqlogLayout.BasesAscend` | src/mqlog.c:70-92 | Bases ascend strictly, each where the segment before ends. |
| `MqlogLayout.FloorFinds` | src/mqlog.c:118-144 | The segment with the greatest base not above an offset holds the offset, if and only if the log does. |
| `MqlogLayout.WriteExtends` | src/mqlog.c:58 | A frame written to the last segment appends one entry to the log. |
| `MqlogLayout.EndKeepsContents` | src/mqlog.c:66-71 | Ending a segment changes no entry and no offset. |
| `MqlogLayout.FoundTiles` | src/mqlog.c:147-186 | What recovery finds of all segments tiles the same offsets with the same entries; an end marker in a last segment without entries counts as one more. |
| `MqlogLayout.ListingIsOrder` | src/mqlog.c:151-179 | An ascending listing of the directory is the order of the segments. |
| `MqlogLayout.LargeHasSlot` | src/segment.c:224-227 | In a log with payloads of at least 84 bytes the last segment has an index slot for whatever it has room for. |
| `MqlogLayout.LargerLeaveSlots` | src/segment.c:193-227 | In a log with payloads of at least 86 bytes every segment can be recovered. |
| `MqlogLayout.LargerPageRefuses` | src/mqlog.c:157-170 | A log that a machine with pages of 4096 bytes opens and one with pages of 65536 does not. |
| `MqlogDisk.LostTiles` | src/mqlog.c:147-186 | The segments as they are found on disk tile the offsets if and only if the sync marks of all but the last are at their ends; they hold a prefix of the log then, cut off in the last one. |
| `MqlogDisk.NothingIsLost` | src/mqlog.c:147-186 | They hold all of the log if and only if every sync mark is at the end of its segment. |
| `MqlogDisk.OpenedAllAgree` | src/segment.c:414-419 | `SegmentDisk.OpenedAgrees` for all segments of a log. |
| `MqlogDisk.ClosedAreFound` | src/mqlog.c:236-267 | A log whose durable data are what its marks say, closed without a failing msync of data, has all its data on disk. |
| `MqlogDisk.ClosedAreFoundWhole` | src/mqlog.c:236-267 | With its indexes as its marks say, too, it is on disk as it will be found if and only if every mark is at the end of its segment. |
| `MqlogDisk.ClosedLast` | src/mqlog.c:236-267 | After a close without a failing msync of data every mark is there if and only if each index was there before, or holds at most one entry, or was flushed. |
| `MqlogDisk.ClosedStays` | src/mqlog.c:225-228 | Closing segments that were just loaded keeps on disk what was there as it is found. |
| `MqlogLayout.UnsyncedKept` | src/mqlog.c:39-103 | While a log grows and its sync marks stay, exactly those of its old entries are beyond the marks that were before. |
| `MqlogLayout.NewIsUnsynced` | src/mqlog.c:39-103 | The entry that a write adds is beyond the sync mark. |
| `MqlogLayout.SyncedLast` | src/mqlog.c:295-303 | After a sync of the last segment an entry is beyond its mark if and only if it was before and is in an earlier segment. |
| `MqlogFiles.OpenSegment` | src/segment.c:335-424 | A size that is no multiple of the page size is refused; missing files are created, zeroed; a file of another size is refused; else as `Segment.Open`. Nothing is flushed. |
| `Mqlog.Log.CreateSegment` | src/mqlog.c:23-37 | The segment after the last one is on new files, or on those of an earlier oversized payload, or on those of a last segment without entries; it fails exactly when the latter have another size. |
| `Mqlog.Log.CloseDropped` | src/mqlog.c:79-87 | Closing a segment that took nothing, whatever its msync does, keeps the log and what is on disk of it; when that of the data does not fail, the end marker is on disk then. |
| `Mqlog.Log.TryWrite` | src/mqlog.c:39-103 | With the mutex held, a payload is appended to the sequence of entries, in the last segment or in a new one based at the next offset, or is refused with ELNOWCP or ELFLEOP; which of these is given exactly. A refusal changes no entry, the sync marks of all segments stay, and what is on disk stays what they say; the end marker of refused payloads is on disk, unless its msync fails. |
| `Mqlog.Log.TakesExactly` | src/mqlog.c:57-100 | Without an earlier refusal, and with a last segment of the size the log is opened with, n bytes are taken if and only if n + 24 is at most that size, however full the last segment is and whatever its last bytes look like. |
| `Mqlog.Log.RefusedForGood` | src/mqlog.c:79-87 | After a refused payload, none is taken any more. |
| `Mqlog.Log.Write` | src/mqlog.c:269-289 | Nothing happens for an empty payload or while the mutex is held; otherwise as `TryWrite`, and the mutex is released. With committed reads no old entry is withheld that was not, none is released, and the new one is withheld. |
| `Mqlog.Log.FindSegment` | src/mqlog.c:118-137 | The index leads to the segment with the greatest base not above the offset; none is found only in an empty log. |
| `Mqlog.Log.Read` | src/mqlog.c:105-145 | Offset k gives exactly entry k of the log, whichever segment holds it, and ELNORD past the end; with committed reads, entries are withheld exactly while they are beyond the sync mark. |
| `Mqlog.Log.Sync` | src/mqlog.c:295-303 | The marks and the files on disk of the last segment change as in `Segment.Segment.Sync`, and no others, and what that returns is returned, 0 for an empty log. An entry is withheld from committed reads then if and only if it was before and is in an earlier segment. |
| `Mqlog.Log.MarkedIsRead` | src/segment.c:550-574 | With every frame below its mark no entry is withheld. |
| `Mqlog.Log.Close` | src/mqlog.c:236-267 | The traversal visits every segment once and in order, and the marks and files on disk of each are then as its own sync leaves them. It counts one error for each segment whose msync fails or that has 2^31 bytes to flush. What is on disk stays what the marks say. |
| `Mqlog.Log.IndexDepth` | src/mqlog.c:12 | With branch factor 7, an index with h inner levels leads to at least 6 * 4^(h-1) + 1 segments. |
| `Mqlog.Log.LeavesFiles` | src/mqlog.c:236-267 | A closed log leaves the files of its segments and perhaps one end marker alone, and nothing else. |
| `Mqlog.LoadSegments` | src/mqlog.c:147-186 | Loading the files in ascending order gives a log with exactly what they hold, up to the first that is no whole number of pages or has no slot left in its index, and every sync mark at its end; it succeeds if and only if there is none such. |
| `Mqlog.Open` | src/mqlog.c:188-234 | The same for an ascending listing of a directory; a size that is no multiple of the page size is refused first. When loading fails, exactly the segments loaded so far are closed. Otherwise what is on disk stays, no entry is withheld, and what committed reads rely on is durable if and only if it was on disk before. |
| `Mqlog.CloseLoaded` | src/mqlog.c:225-228 | That close changes on disk only the files of these segments, each exactly as by a sync from its end, for every fault of msync, and keeps there what was as it is found. |
| `Mqlog.Reopen` | src/mqlog.c:147-267 | Closing, with any faults of msync, and opening again succeeds if and only if all sizes are whole pages and every index has a slot left, and gives the same entries at the same offsets, in a log that takes payloads again. When no msync of data failed: what committed reads rely on is durable if it was before, and all that the new marks say is on disk if and only if the close got every index there; a refused payload must have its end marker on disk besides. |
| `Mqlog.WriteAll` | src/mqlog.c:39-103 | Any run of payloads of at least 84 bytes is appended in order, across any number of rollovers, up to the first one with n + 24 above the segment size, from where on all are refused. |
| `Mqlog.WriteAndReopen` | src/mqlog.c:39-267 | After any run of payloads of at least 86 bytes the log can be closed and opened again, and holds its entries and those of the run. When none was refused, or no msync fails for the one that was, their data are durable if those of the log were, and all that the new marks say is on disk if and only if the close got every index there. |
| `Mqlog.RoundTrip` | src/mqlog.c:39-267 | The same from an empty directory, without faults: the log that is opened again holds the payloads up to the first oversized one, and no others; its data are durable, and with segments of less than 2^31 bytes all of it is on disk. |
| `MqlogCrash.CrashKeepsEntries` | src/mqlog.c:66-88 | After a crash at any store of a write, from the creation of its segment on, the files tile the offsets again, with all entries of ended segments, all complete frames of the last one, at most the one in flight besides, and nothing else but for an end marker alone. |
| `MqlogCrash.CrashSlots` | src/mqlog.c:147-186 | All of them can be recovered if and only if the ended segments could be and the last one has a slot left for what the crash left of it. |
| `MqlogCrash.RolloverStarts` | src/mqlog.c:70-78 | The files of a segment that was just created are a state from which writes and crashes go on, and recovery finds them as they were created. |
| `MqlogCrash.OpenAfterCrash` | src/mqlog.c:147-234 | Opening the directory after such a crash succeeds if and only if sizes are whole pages and every index has a slot left, and gives a log with exactly those entries, to write to and to crash again. |
| `MqlogPower.PowerLossTiles` | src/mqlog.c:147-186 | After the loss of power all files of a log, that of a refused payload included, tile the offsets if and only if the sync marks of the segments before the last file are at their ends; what is found is then the log, cut off in the last file. |
| `MqlogPower.NothingLostExactly` | src/mqlog.c:147-186 | All that the log holds is found if and only if every sync mark is at the end of its segment. |
| `MqlogPower.CloseAndLose` | src/mqlog.c:236-267 | After a close that reports no error, the loss of power loses nothing if and only if in each segment the index was on disk before, or holds at most one entry, or there were data beyond the mark, or the mark was inside a page. |
| `MqlogPower.OpenAfterPowerLoss` | src/mqlog.c:147-234 | Opening them then succeeds if and only if sizes are whole pages and every index has a slot left, and gives exactly that, in a log whose marks say what is on disk, to write to and to lose power again. |
| `MqlogPower.ReopenUnclosed` | src/mqlog.c:188-234 | A log that was not closed has, opened again, all its entries; what committed reads rely on is durable if and only if it was on disk. |
| `MqlogPower.UnflushedIsRead` | src/segment.c:418-419 | A run in which a committed read hands out an entry of which nothing is on disk. |
| `MqlogPower.SyncMissesRollover` | src/mqlog.c:295-303 | A run of two writes and a successful sync after which the files on disk do not tile the offsets. |
| `MqlogSteps.NextKeeps` | src/mqlog.c:39-145 | Every load and store in any segment, every rollover, from a segment that has ended or only looks so, and every lookup of a segment keeps the tiling of the offsets; claims are only added. |
| `MqlogSteps.OpenedKeeps` | src/mqlog.c:147-186 | A log that was opened, with any number of segments, is a state to go on from, unless one of its files is an end marker alone. |
| `MqlogSteps.OpenedEntry` | src/mqlog.c:118-144 | Each of its entries is claimed in the floor segment of its offset. |
| `MqlogSteps.RunsInSegment` | src/mqlog.c:128-144 | Any run of the log, looked at in one segment, is a run of that segment alone. |
| `MqlogSteps.FloorHas` | src/mqlog.c:118-137 | The segment with the greatest base not above an offset has claimed it, if and only if the log has. |
| `MqlogSteps.LogNeverTorn` | src/mqlog.c:105-145 | A read that has returned a length handed out exactly the payload of its offset, complete, and that stays so through every run, rollovers included; no other segment ever has the offset. |
| `MqlogSteps.FoundIsRead` | src/mqlog.c:105-145 | A read that finds its segment when the frame of its offset is readable returns that frame after its loads, though writers go on and segments follow in between. |
| `MqlogSteps.LogRefusals` | src/mqlog.c:105-145 | In every run of the log a read finds an invalid header only at the first offset of a segment, once that is claimed; at an offset that is not claimed in its segment it finds nothing. |
| `MqlogSteps.BeyondIsRefused` | src/mqlog.c:105-145 | In every run a read of an offset that the log has still not reached after two of its loads has returned, with nothing, though writers go on and segments follow in between. |
| `MqlogSteps.WriteAppends` | src/mqlog.c:39-103 | From a log at rest, whose last segment has an entry, a write of n bytes with n + 24 at most the segment size can do all its steps, ending the last segment and creating one after it where that does not take the payload, and appends it as the next entry. |

## Left out

- Opening, sizing, mapping and naming of files (`src/segment.c:59-191`, `src/util.c:18-90`): files are arrays, the directory is a map from base offsets to them, its listing is a sequence, and msync copies a range to the image of a file on disk. Nothing else gets there: a page that the kernel writes back on its own is not modelled, and the creation of files is durable at once.
- Allocation failures and ELIDXPC (`src/mbptree.c:342-346`, `src/mbptree.c:370-375`): allocation always succeeds; those paths do not restore the tree.
- The breadth-first iterator and printing (`src/mbptree.c:538-637`), which serve debugging; freeing of memory; benchmarks and the test framework.
- Weak memory: every load and store is sequentially consistent. A payload is stored byte by byte, a header field at once.
- pthread internals: the mutex is a flag, and trylock on a held one is the only failure.
- mqlog_open over a directory whose files do not tile the offsets or are not listed in ascending order: load_segments appends in the order readdir gives. A crash between the creation of the index file and that of the data file (`src/segment.c:358-384`).
- Integers: an offset of the log is below 2^64 (a requirement of writes) and a size below 2^32 (`src/segment.c:338`); size_t sums of payload lengths do not wrap. The narrowing of flushed bytes to an int is modelled.
- Pages smaller than 4096 bytes, and segments of no page.
- `MbpTreeLock.NextKeeps`: takes the decrement of the shared field (`src/mbptree.c:477`), a plain load and store, as one step, and does not let the counter wrap on the way up; nothing is claimed about progress.
- `MbpTree.Tree.LeafFloor`: runs the descent and the scan of the leaf in one call; that the scan runs after the release of the lock (`src/mbptree.c:482-488`) is only safe under the mutex of the log.
- `SegmentSteps.ClaimsTile`: runs stop with the first claim of an end marker, since the check for the marker and its claim are separate steps (`src/segment.c:461-465`), and a claim of a frame needs an index slot.
- `SegmentSteps.NeverTorn`: is for dirty reads; committed reads are in `SegmentSync` and in the sequential model.
- `SegmentSteps.CrashLeaves`: takes the mapped memory as what survives, as after the end of a process; the loss of power is in `SegmentDisk.PowerLossLeaves`, between operations and not in the middle of one.
- `MqlogSteps.LogNeverTorn`: is for dirty reads, in logs without a file that holds an end marker alone (a `Hole`); loads of the tree run under the mutex and are one step, and writers claim in the last segment only, as under the mutex.
- `SegmentSync.CommittedIsDurable`: is for one syncing thread; msync copies a range at one moment. That mqlog_sync reads the tree without the mutex is not part of this model.
- `Segment.Open`: is for files that hold whole frames in order, or an end marker alone, which is all that closing and crashing leave (`SegmentLayout.CloseLeaves`, `SegmentSteps.CrashLeaves`); `Segment.FindWOffsetPair` is for any files whose index entries lie inside the buffer.
- `Segment.Segment.Read`: without a writer at work its refusals of an entry that is zero and of a header that is no header do not come up, nor does a lost claim in `Segment.Segment.Write`; they are in `SegmentSteps.Refusals` and `SegmentSteps.FirstIsAnswered`, and in `Segment.Segment.Claim`.
- `Segment.Segment.Write`: requires an index slot for the frame, because the code would store outside the index.
- `Mqlog.Log.TryWrite`: requires an index slot in the last segment.
- `MqlogPower.SyncMissesRollover`: is one run, as is `MqlogPower.UnflushedIsRead`; the general conditions are in `MqlogPower.PowerLossTiles` and `Mqlog.Open`.
- `Mqlog.Log.Close`: the segments it visits are synced but stay objects; nothing is unmapped.
