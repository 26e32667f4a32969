# Passthrough I/O: a verified model

This project models, in Dafny, the data path of the modified Linux block layer in
`kernel_modification/` and three user-space companions that drive NVMe devices.

* **Iterator to pages to bios to user memory.** A scattered user buffer (`iov_iter`) becomes
  pinned pages (`UserPages`, `BvecPages`), the pages become coalesced bio_vecs under hardware limits
  (`Bvecs`, `Bios`, `PinnedBio`, `DirectMap`), the bios become the chain of one request
  (`MapUser`, with `OneBio` for when one is enough and `Seams` for where segments meet inside a
  page), or the data bounces through kernel pages (`Ferry`, `Bounce`, `BounceChain`); completion
  or unmapping undoes everything. The iterator itself is in `Cursor` (arithmetic on values) and
  `IovIter` (the object that is updated in place); `Pipes` is its pipe flavour and `SaveRestore`
  its save and restore.
* **Completion and life cycle of bios.** `BioChain` is chained completion as a state machine
  over atomic steps, `BioCaches` the per-CPU bio cache, `GuardEod` the guard at the end of a
  device.
* **User space.** `Crc32` is the table-driven checksum, `LayerStores` the store that keeps the
  tensors of a model's layers on one flat disk, `FanOut` the splitting of one transfer into
  concurrent commands.

Objects that the source updates in place are classes here. Their methods state what they do
to an abstract value: a cursor to an offset in one flat address sequence, a bio_vec table to a
list of physical bytes and to a per-page walk, a pipe to a list of buffers, a disk to a map of
tensors. Lemmas about those values say what the program relies on.

Conventions. Pages are frame numbers and `PAGE_SIZE` is 4096. Memory is an array of bytes, and
page references are a multiset of frames. What the program meets but does not decide is a
parameter: the byte at which user memory faults, what get_user_pages returns, whether an
allocation succeeds, the verdict of the request-merge check, the architecture's say in
merging two physical pages, the order in which threads run. 32-bit sums that can wrap are
written with `Wrap32`. `mm.refs` after a call equal to what it was before means that
every page was put exactly as often as it was taken.

Results that a reader may not expect:

* Reverting undoes an advance exactly when the amount is at most `MAX_RW_COUNT`; larger ones
  are ignored by the code (`RevertUndoesAdvance`).
* `bio_map_user_iov` keeps, unwalked, one reference for every piece that is merged inside a page
  (`kernel_modification/blk-map.c:350-383`). The exact guard of such a merge is `MergesInPageIff`.
  For a whole `blk_rq_map_user_iov` call of at most `MAX_RW_COUNT` bytes the references that stay
  behind are at most the frames in which two consecutive non-empty segments physically meet, one
  for each such seam, and exactly these when the call succeeds and neither the segment size, the
  sector limit nor the architecture refuses the merge (`MapUserIov`); the iovec
  {(8192, 512), (8704, 512)} leaks one (`SharedPageLeaks`).
* Taking the pages of an iterator window by window takes each page once, except that a window
  which the caller's size or `MAX_RW_COUNT` ends inside a page leaves that page to the next one
  too (`NPagesAdvance`, `DrainPages`).
* Extracting pages from a bio_vec iterator that stands at an empty bio_vec whose address is not
  on a page start takes one page reference and returns 0 bytes (`GetBvecPages`). `iov_iter_bvec`
  takes any array without a look at the lengths (`kernel_modification/iov_iter.c:1013-1026`), so
  a caller can pass one; `iov_iter_advance` never stops at one. The mapping and pinning paths
  here take bio_vec iterators apart before they come to this function.
* A prune of the bio cache by as many bios as the free list has would go on to free the interrupt
  list as a whole (`PruneTooMuchIff`; `PruneTooMuchExample` frees three of two). No caller does that:
  `bio_alloc_cache_prune` is static and both callers (`kernel_modification/bio.c:738` and
  `kernel_modification/bio.c:755`) ask for -1U, where no more is freed than asked for
  (`FullPruneExact`).
* A read mapping that fails on the copying path overwrites the bytes that its successful rounds
  had bounced with zeros; the user's memory stays as it was exactly when these bytes were zero
  already, so always when the first round fails (`MapUserCopy`, `ZeroedUnchangedIff`). With room
  for one page a bio and no memory for the second bio, a read of two pages ends with ENOMEM and
  the first page zero (`SecondRoundFails`).
* The stored checksum of a tensor covers eight bytes only. Among changes of up to four
  consecutive bytes it sees exactly those that touch them (`DataCrcDetectsIff`).
* Two children that fail at once can both find their parent without an error, and the later one
  then replaces the earlier one's status; nothing else but a driver does (`FirstErrorStays`).
* Linking an optimizer's hash to a layer keeps hashes one-to-one exactly when the hash is new;
  the code does not check (`LinkOneToOneIff`, `SharedHash`).
* `guard_bio_eod` compares whole sectors, so a bio whose size is not a multiple of 512 can end
  less than a sector behind the device (`ByteExactIff`).

## Model

| member | source | states |
|---|---|---|
| Cursor.SeekPosition | kernel_modification/iov_iter.c:876-893 | the advance loop stays in bounds and lands on the one canonical cursor at the requested flat position, across zero-length segments |
| Cursor.UnwindPosition | kernel_modification/iov_iter.c:946-978 | the revert loop stays in bounds and lands on the one canonical cursor that many bytes earlier |
| Cursor.RevertUndoesAdvance | kernel_modification/iov_iter.c:895-979 | from a canonical cursor, reverting k after advancing k restores index, offset, nr_segs and count if and only if k is at most MAX_RW_COUNT |
| Cursor.AdvanceComposes | kernel_modification/iov_iter.c:876-893 | advancing twice is advancing once by the sum |
| Cursor.SuffixCursor | kernel_modification/blk-map.c:21-37 | a copy of only the remaining segments, with the index at 0, delivers the same addresses |
| IovIter.Iter.Advance | kernel_modification/iov_iter.c:856-913 | exactly min(size, count) addresses leave the front of the flat sequence; the cursor becomes the specified one |
| IovIter.Iter.Revert | kernel_modification/iov_iter.c:915-979 | the last bytes before the cursor are in front of it again; too large an amount changes nothing |
| IovIter.Iter.StepInSegment | kernel_modification/iov_iter.c:1504-1510 | the hand-made move of a bvec extraction consumes r bytes of the current segment and keeps index plus nr_segs |
| IovIter.Iter.IterateIovec | kernel_modification/iov_iter.c:30-49 | for every segment layout and fault position, exactly the first n flat bytes move, with n the bytes before the fault, and the cursor stands n further |
| IovIter.Iter.IterateBuf | kernel_modification/iov_iter.c:20-28 | a contiguous user buffer moves the bytes before the fault |
| IovIter.Iter.IterateBvec | kernel_modification/iov_iter.c:51-77 | the page-by-page loop moves exactly the first n flat bytes |
| IovIter.Iter.IterateAndAdvance | kernel_modification/iov_iter.c:119-160 | every kind of iterator copies a flat prefix, whatever faults |
| IovIter.Iter.CopyToIter | kernel_modification/iov_iter.c:521-536 | the bytes before the fault go to the iterator's memory in flat order; a data source is refused |
| IovIter.Iter.CopyFromIter | kernel_modification/iov_iter.c:627-641 | the bytes before the fault come from the iterator's memory in flat order; a non-source is refused |
| IovIter.Iter.CopyPage | kernel_modification/iov_iter.c:689-768 | a copy that crosses pages is still one flat prefix; short only by a fault or the end of the iterator |
| IovIter.Iter.CopyFromIterFull | kernel_modification/uio.h:191-199 | all bytes are copied and consumed, or the iterator delivers again what it did before; after more than MAX_RW_COUNT bytes the revert is refused and they stay consumed |
| IovIter.MovedTwice | kernel_modification/iov_iter.c:30-77 | two adjacent chunk copies are one copy of the concatenated addresses |
| SaveRestore.SaveRunRestore | kernel_modification/iov_iter.c:2012-2036 | after any sequence of advances, reverts, copies, page extractions from user memory or bio_vecs, truncations and reexpansions, restore brings back index, nr_segs, offset and count |
| SaveRestore.Perform | kernel_modification/uio.h:74-80 | every single operation does its work, keeps the distance to the saved position accounted for, and the count within what the saved position had left |
| Alignment.IsAligned | kernel_modification/iov_iter.c:1195-1215 | the OR over bases and lengths is clear under a mask exactly when every non-empty remaining stretch starts and ends aligned; with nothing left, when the address it stands at is aligned |
| Alignment.AlignedAfter | kernel_modification/iov_iter.c:1195-1215 | consuming a multiple of the alignment inside one segment keeps the rest aligned |
| Alignment.LimitsMean | kernel_modification/bio.c:1017-1125 | for the addresses, the limits of a table mean: every entry in one window between segment boundaries, and memory left and entered on multiples of the virt boundary between entries |
| UserPages.FirstSegment | kernel_modification/iov_iter.c:1414-1432 | the address of the next byte and how many bytes follow it contiguously, zero-length segments skipped |
| UserPages.CountPages | kernel_modification/iov_iter.c:1735-1753 | the number of pages the remaining bytes touch, segment by segment, capped |
| UserPages.NPagesAdvance | kernel_modification/iov_iter.c:1735-1753 | consuming any window of contiguous bytes lowers the page count by exactly the window's pages, but for a page that the window ends inside of, which the next window takes again |
| UserPages.AddressSpace.GetUserPages | kernel_modification/iov_iter.c:1483-1485 | a short pin takes one reference to each of the first pages and to no other |
| UserPages.GetPages | kernel_modification/iov_iter.c:1296-1310 | a successful extraction pins exactly ceil((start + r) / PAGE_SIZE) pages, consumes exactly r bytes and writes only its own slice of the page array |
| UserPages.WindowLargest | kernel_modification/iov_iter.c:1483-1490 | an extraction yields all that was asked for, unless one byte more would need more pages than allowed or pinned |
| UserPages.GetPagesAlloc | kernel_modification/iov_iter.c:1450-1491 | the same into a fresh array; for every short result the pages still to come drop by exactly the pages pinned, up to a page that the caller's size or MAX_RW_COUNT cuts |
| UserPages.DrainPages | kernel_modification/iov_iter.c:1450-1491 | extracting until nothing is left succeeds when every pin and allocation does, and takes in total exactly the pages that iov_npages counts, however the pins fall short; only windows that a size limit ends inside a page take that page twice, and there are none up to the limits |
| UserPages.NPagesAfter | kernel_modification/iov_iter.c:1735-1753 | the same page account for any cursor that stands r bytes further on, as after iov_iter_advance and iov_iter_revert |
| BvecPages.FirstBvecSegment | kernel_modification/iov_iter.c:1435-1448 | the physical address of the next byte and how many bytes of its bio_vec follow; a used-up bio_vec yields none |
| BvecPages.GetBvecPages | kernel_modification/iov_iter.c:1493-1512 | for r > 0, references to exactly the consecutive pages under the r bytes consumed, for any page limit; for r = 0 none, or for an empty bio_vec that does not begin on a page one to that page; ENOMEM exactly without an array or a page to take; index plus nr_segs is kept |
| Bvecs.SegmentsCover | kernel_modification/bio.c:1257-1267 | the per-page walk visits exactly the frames of the bio_vecs and their pieces cover exactly the bytes |
| Bvecs.MergeMeaning | kernel_modification/bio.c:907-955 | a piece that page_is_mergeable lets in continues the last entry byte by byte, and adds a frame to the walk exactly when it is not in the same page |
| Bvecs.SamePageIff | kernel_modification/bio.c:907-955 | a merge is reported as same-page exactly when the piece does not begin at a page boundary |
| Bvecs.MergesInPageIff | kernel_modification/bio.c:907-1125 | a piece that begins inside a page is merged exactly when it physically continues the last entry, the architecture allows it, and segment size, sector limit and 32-bit size have room; boundary, wrapped sum and sanitizer never decide it |
| Bvecs.HwAddSound | kernel_modification/bio.c:1017-1125 | one bio_add_hw_page on an in-page piece keeps all limits and a 32-bit size that is the true sum, although the sector test can wrap, and adds exactly the piece or nothing |
| Bvecs.HwAddExact | kernel_modification/bio.c:907-1125 | bio_add_hw_page takes a piece exactly when some table with it keeps all limits: merged when it continues the last entry, nothing forbids the merge and the grown table keeps them, appended when only the longer table does, refused otherwise |
| Bvecs.MergeableIff | kernel_modification/bio.c:907-955 | page_is_mergeable comes down to physical contiguity, the architecture's say, and no sanitizer across a page boundary |
| Bvecs.CoalescingIsAppending | kernel_modification/bio.c:973-1125 | after any sequence of offers the table obeys vec, segment, sector, segment-size, boundary and virt-boundary limits and describes exactly the concatenation of the pieces taken |
| Bvecs.TakenDescribes | kernel_modification/bio.c:973-1004 | carrying out an allowed merge or an append extends bytes, walk and size by exactly the piece |
| Bvecs.EmptyTakesOne | kernel_modification/bio.c:1054-1125 | an empty bio accepts an in-page piece under the stated limits |
| Bvecs.ReferencesBalanceIff | kernel_modification/blk-map.c:350-383 | references kept and references released differ by the pieces that pass the guards of a merge inside a page, and agree if and only if there is none |
| Bvecs.ReferenceLeakExample | kernel_modification/blk-map.c:350-383 | two pieces that meet inside frame 5: two references taken, one entry of 1024 bytes, one page walked |
| Bios.Bio.AddHwPage | kernel_modification/bio.c:1054-1125 | the object carries out the specified outcome: a piece is taken whole exactly when some table with it keeps all limits; a rejected piece changes nothing and reports no same-page merge, so that the conditional put of blk-map.c never runs; no word behind the table is touched |
| Bios.Bio.TryMergePage | kernel_modification/bio.c:973-1004 | the merge into the last bio_vec of the raw table, or nothing |
| Bios.Bio.PageSegments | kernel_modification/bio.c:1257-1267 | the stretches that bio_for_each_segment_all visits |
| PinnedBio.AddPages | kernel_modification/bio.c:1379-1392 | the add loop with its page pointers in the free bvec slots: no bio_vec written reaches a pointer that is still to be read by it or by the put loop, for any merge pattern |
| PinnedBio.PutPages | kernel_modification/bio.c:1394-1397 | every page the add loop did not reach is put once |
| PinnedBio.GetPagesOnce | kernel_modification/bio.c:1332-1400 | one window: without a zone append it takes exactly the whole blocks of the window, or fails with the pin's error or EFAULT when there is none; bytes consumed equal bytes gained in bi_size, the bio describes exactly these bytes, and holds one reference for every page of its walk; a zone append that takes less was refused its next piece |
| PinnedBio.IovIterGetPages | kernel_modification/bio.c:1422-1437 | the same over all rounds, with termination: success as soon as the first window has a whole block, the first round's error otherwise, and for an iterator in whole blocks that can be pinned it ends with the iterator empty or the table full |
| PinnedBio.ReleasePages | kernel_modification/bio.c:1257-1267 | one put for every page of the walk, so that the reference counts are those from before |
| PinnedBio.PinAndRelease | kernel_modification/bio.c:1332-1438 | any number of fills and a release leave every reference count as it was, although in between the bio held one reference for every page of its walk and described exactly the bytes consumed, at least the first window's whole blocks |
| DirectMap.MapPages | kernel_modification/blk-map.c:347-376 | the page loop adds whole pages of the window in order within all limits, stops only at a page end and only where no table with the next piece keeps the limits, and leaks a reference exactly when the first piece passes the guards of a merge inside a page |
| DirectMap.MapWindow | kernel_modification/blk-map.c:300-390 | one round: it fails exactly with what the array's allocation and get_user_pages say; bytes gained equal bytes consumed also after the revert, references grow as the page count falls, limits and page budget are kept, an aligned round into an empty bio makes progress, and what leaks is at most, or without refusing limits exactly, the seam the round goes across; a window that the device cannot reach is given back whole, and any other one ends early only where the limits refuse the next piece |
| DirectMap.LeakIsSeam | kernel_modification/blk-map.c:350-376 | the guards of the leaking merge hold for the first piece at a segment start exactly when its byte physically follows the byte before it, as far as the limits allow |
| Seams.NoneInside | kernel_modification/blk-map.c:350-376 | inside one segment there is no seam |
| DirectMap.HwAddCases | kernel_modification/bio.c:1054-1125 | every merge is one that page_is_mergeable allows, into the last page exactly when the piece begins inside it; an empty bio with a slot refuses nothing |
| MapUser.MapOneBio | kernel_modification/blk-map.c:265-404 | one bio that describes the next bytes in order, or everything as it was; it succeeds when nothing on the way fails, and an error is that of something that did; it leaves something only where the limits refuse the next piece, with fewer entries than pages |
| MapUser.Request.Append | kernel_modification/blk-map.c:590-611 | the bio joins the request's chain and its length, or EINVAL and nothing |
| MapUser.UnmapUser | kernel_modification/blk-map.c:840-860 | releasing a chain puts each page as often as the chain holds it |
| MapUser.MapUserIov | kernel_modification/blk-map.c:685-746 | for an aligned iterator the mapping ends, with success when no allocation, pin or merge fails and otherwise with the error of one that does; on success the chain's pages, concatenated, are exactly the iterator's bytes in order, every bio keeps all limits and goes on as long as they allow, so that where one bio may hold everything there is one, and no later round matters; on failure nothing stays mapped; up to MAX_RW_COUNT bytes the pages walked and the references leaked are together as many as iov_npages counts, and the leaked ones are at most the frames of the seams between segments, and exactly these when no limit refuses the merge |
| MapUser.TakesAll | kernel_modification/blk-map.c:300-390 | with room for everything in one bio (sectors, segments, and the gap test of blk_rq_map_user_iov), the bio leaves nothing |
| OneBio.NothingRefused | kernel_modification/blk-map.c:700-706 | where the gaps between segments pass iov_iter_gap_alignment and sectors and segments suffice, no piece of the iterator is refused |
| MapUser.SeamsOnPages | kernel_modification/blk-map.c:350-383 | segments that all begin on pages have no seam, so nothing leaks |
| MapUser.SharedPageLeaks | kernel_modification/blk-map.c:350-383 | the seams of the iovec {(8192, 512), (8704, 512)} are the frame of page 2, once |
| Ferry.FerryBio | kernel_modification/blk-map.c:46-98 | bio and iterator bytes are exchanged one for one in order, up to a fault that is reported |
| Ferry.FerriedTwice | kernel_modification/blk-map.c:46-98 | two consecutive exchanges are one exchange of the concatenated addresses |
| Bounce.OwnsBoth | kernel_modification/blk-map.c:168-207 | the fresh pages of two bios are still distinct and apart from what was in use |
| Bounce.AddBouncePages | kernel_modification/blk-map.c:168-207 | the bio owns freshly allocated pages, each once, in whole pages within all limits, at least one; a refused page is freed again; ENOMEM only when one of the pages the allocator came up with was not free; it stops early only where the limits refuse the next page, and never when one bio may hold all |
| Bounce.ZeroFill | kernel_modification/bio.c:610-618 | exactly the bio's bytes become zero |
| Bounce.FreePages | kernel_modification/bio.c:1528-1535 | each page of the walk is freed once |
| Bounce.Preload | kernel_modification/blk-map.c:212-224 | on a write the pages hold the next user bytes in order, on a read zeros, and the iterator moves past them |
| BounceChain.CopyOneBio | kernel_modification/blk-map.c:129-232 | one bounced bio with its private iterator copy from before the advance, or every page free again; ENOMEM, EFAULT and EINVAL each only for what causes them, so success when nothing does |
| BounceChain.MapUserCopy | kernel_modification/blk-map.c:685-746 | the copying path ends; on success the chain's pages hold exactly the flattened user bytes (zeros for a read) and the private copies name exactly the user's bytes; one bio is made where one may hold everything; it fails only for a cause in the round after the successful ones, always where that round finds no memory for its bio; then every page is free, a write leaves user memory as it was, and a read without faults leaves it with the n bytes of the successful rounds zeroed |
| BounceChain.ZeroedUnchangedIff | kernel_modification/blk-map.c:738-745 | such a failed read changes nothing exactly when those n bytes were zero already |
| BounceChain.SecondRoundFails | kernel_modification/blk-map.c:714-745 | a read of two pages in two bios, the second of which finds no memory: ENOMEM, and the user's first page is zero |
| BounceChain.UncopyOne | kernel_modification/blk-map.c:107-127 | after a read the bio's bytes are at its own slice of the user's segments; without a user address space nothing is copied and EINTR comes back |
| BounceChain.UnmapCopied | kernel_modification/blk-map.c:840-860 | every bio goes back to its own slice, each without a fault of its own completely whatever faulted elsewhere, an error is reported, and every page is freed once |
| BounceChain.CompleteCopied | kernel_modification/blk-map.c:840-860 | whatever the device left in the chain's pages is, byte for byte, what the distinct user bytes are after a read; nothing else of user memory changes |
| BioChain.InvStep | kernel_modification/bio.c:313-347 | every atomic step of chaining and completing keeps count, status and phase of every bio consistent |
| BioChain.EndsOnce | kernel_modification/bio.c:1637-1702 | in every run and at every moment, a root's bi_end_io has run at most once, only after its whole tree completed and every chained bio was put once, and its status is non-zero if and only if a bio of the tree failed, and then a status that a driver gave to one of them |
| BioChain.FirstErrorStays | kernel_modification/bio.c:313-321 | a status that a bio has is replaced only by a driver, or by the error of a child that found it 0 when it looked |
| BioChain.CountPositive | kernel_modification/bio.c:1646 | the BUG_ON on __bi_remaining never fires |
| BioChain.NoStall | kernel_modification/bio.c:1669-1700 | once all holders have called bio_endio, some step is possible until every root has ended once and every chained bio was put once |
| BioChain.StepsRunOut | kernel_modification/bio.c:1669-1700 | every completion step brings the run closer to its end |
| BioCaches.BioSet.Splice | kernel_modification/bio.c:417-431 | the interrupt list becomes the free list with its count; a warning exactly when the free list is not empty |
| BioCaches.BioSet.AllocCached | kernel_modification/bio.c:433-457 | a cached bio exactly when the free list has one or the threshold is reached; the splice there never warns |
| BioCaches.BioSet.Put | kernel_modification/bio.c:761-789 | the bio goes to exactly one list, or is freed when more than ALLOC_CACHE_MAX are cached |
| BioCaches.BioSet.PruneList | kernel_modification/bio.c:704-718 | the first nr bios are freed, once each; for nr 0 all of them |
| BioCaches.BioSet.Prune | kernel_modification/bio.c:720-728 | exactly the stated number of bios is freed from the front of both lists together, the rest stays cached, and no other bio is touched |
| BioCaches.PruneTooMuchIff | kernel_modification/bio.c:720-728 | more than asked for is freed exactly when nr is 0 or the length of the free list, so never with the -1U of both callers |
| BioCaches.BioSet.CpuDead | kernel_modification/bio.c:730-742 | every bio the CPU had cached is freed once, and nothing else changes |
| BioCaches.BioSet.Destroy | kernel_modification/bio.c:744-759 | every bio that any CPU had cached is freed once, and nothing else changes |
| BioCaches.BioSet.Alloc | kernel_modification/bio.c:493-581 | a bio that nobody holds: from the cache exactly when the caller may use it and it has one, else from the mempool |
| BioCaches.BioSet.Run | kernel_modification/bio.c:417-789 | over any sequence of allocations, puts, prunes and CPU removals every allocation hands out a bio and none that somebody holds, and the bios in use are those handed out and not put |
| BioCaches.GivenBetween | kernel_modification/bio.c:417-789 | between two times that a bio is handed out it was put |
| GuardEod.EodBio.Truncate | kernel_modification/bio.c:630-668 | a read's bytes from the new size to the old one are zeroed across any segments, and no other byte |
| GuardEod.GuardBioEod | kernel_modification/bio.c:682-702 | a bio is cut exactly when it starts inside the device and its whole sectors run past the end, and it then ends on the device's last byte; other bios are let through |
| GuardEod.TailZeroHeadKept | kernel_modification/bio.c:646-656 | the truncated bytes read as zero and all earlier ones as before |
| GuardEod.ByteExactIff | kernel_modification/bio.c:697-701 | the end in bytes is inside the device exactly unless the size reaches into the sector behind it without filling it |
| Pipes.PipeIter.AppendPipe | kernel_modification/iov_iter.c:273-303 | room for up to a page at the end of the queue, never past max_usage; count plus queue and the references stay accounted for |
| Pipes.PipeIter.CopyPipeToIter | kernel_modification/iov_iter.c:458-480 | the bytes that found room are in the queue's new bytes and nowhere else in memory; short only when the pipe is full or the page then due is not free |
| Pipes.PipeIter.CopyPageToIterPipe | kernel_modification/iov_iter.c:305-337 | the page joins the queue with a reference or extends the last buffer |
| Pipes.PipeIter.AlwaysSane | kernel_modification/iov_iter.c:196-232 | the object invariant, which every operation keeps, implies the source's sanity check |
| Pipes.PipeIter.GetPages | kernel_modification/iov_iter.c:1330-1358 | r bytes of fresh room on exactly ceil((start + r) / PAGE_SIZE) pages that cover the queue's new bytes, each with a reference for the caller; short only at the page limit, when the pipe is full, or at the page that cannot be had; every error has its cause |
| Pipes.PipeIter.Revert | kernel_modification/iov_iter.c:915-941 | the queue loses exactly its last bytes, the pages given up are released, and the cursor is where the shorter queue ends |
| Pipes.DropUndoesGrowth | kernel_modification/iov_iter.c:915-941 | taking back what was appended leaves the queue as it was, buffer lengths included |
| Pipes.DroppedAddrs | kernel_modification/iov_iter.c:924-938 | dropping k bytes removes exactly the last k queued addresses |
| Pipes.Run | kernel_modification/iov_iter.c:196-337 | any mix of byte copies, page copies, page extractions and reverts keeps the sanity check, the limit on the pipe's length, count plus queued bytes, and the account of references |
| Pipes.RunAndRevert | kernel_modification/iov_iter.c:915-941 | after any such run one revert of what it added restores queue, heads, signed last_offset and count; only the references handed out remain |
| Pipes.DropKeepsGrowth | kernel_modification/iov_iter.c:924-938 | a revert over no more than was added leaves what was there before untouched |
| Crc32.GenerateTable | phison_version/nvme_transfer/crc32.h:8-24 | entry i is eight steps of the shift register from i |
| Crc32.Update | phison_version/nvme_transfer/crc32.h:26-35 | the table form equals bit-by-bit division by the reflected polynomial 0xEDB88320, on every buffer and every checksum so far |
| Crc32.ZeroByte | phison_version/nvme_transfer/crc32.h:26-35 | the checksum of one zero byte is 0xD202EF8D |
| Crc32.TableStep | phison_version/nvme_transfer/crc32.h:32 | eight register steps are the table entry of the low byte xored with the rest shifted down |
| Crc32.StepsTakeBits | phison_version/nvme_transfer/crc32.h:8-24 | stepping with the bits xored in beforehand is feeding them one at a time |
| Crc32.Chaining | phison_version/nvme_transfer/crc32.h:26-35 | checksumming in pieces is checksumming the concatenation |
| Crc32.BurstDetected | phison_version/nvme_transfer/crc32.h:26-35 | two buffers that differ, but only within four consecutive bytes, always get different checksums |
| Crc32.GenCrcFromData | phison_version/nvme_transfer/layer_manager.cpp:446-459 | the checksum of the first eight bytes, whatever the size |
| Crc32.DataCrcDetectsIff | phison_version/nvme_transfer/layer_manager.cpp:446-459 | of changes within four consecutive bytes, exactly those that touch the first eight bytes show |
| LayerStores.RegionsDisjoint | phison_version/nvme_transfer/layer_manager.cpp:503-516 | no two tensors of any layers share a byte, and all lie below the next offset |
| LayerStores.RegisterOk | phison_version/nvme_transfer/layer_manager.cpp:503-516 | a new layer lies behind all others |
| LayerStores.OwnSizeFits | phison_version/nvme_transfer/layer_manager.cpp:461-501 | a tensor's own size fits its region when its parameter count is at most the registered one |
| LayerStores.OverflowHitsNext | phison_version/nvme_transfer/layer_manager.cpp:509-514 | a write stays clear of every later tensor of the store and of the blocks not handed out yet exactly when it is no longer than its region |
| LayerStores.LayerStore.Register | phison_version/nvme_transfer/layer_manager.cpp:163-181 | blocks for a new layer, or the first assertion or conversion that fails |
| LayerStores.LayerStore.FindByHash | phison_version/nvme_transfer/layer_manager.cpp:210-217 | the first layer, in the map's order, that is linked to the hash |
| LayerStores.LayerStore.Link | phison_version/nvme_transfer/layer_manager.cpp:187-209 | the layer just read is linked to the hash exactly under the tested conditions, otherwise nothing changes, and the first assertion or conversion that fails is reported; links and blocks that exist stay |
| LayerStores.LayerStore.Transfer | phison_version/nvme_transfer/nvme-ioctl.cpp:191-243 | the synchronous command loop moves exactly the whole blocks of the range, when the device has them |
| LayerStores.LayerStore.WriteTensor | phison_version/nvme_transfer/layer_manager.cpp:256-298 | the data and its checksum are stored; every other tensor that the write does not reach is what it was, and that is every one when the data fits the region |
| LayerStores.LayerStore.ReadTensor | phison_version/nvme_transfer/layer_manager.cpp:298-416 | the data last written comes back, and the comparison with the stored checksum decides |
| LayerStores.LayerStore.Access | phison_version/nvme_transfer/layer_manager.cpp:163-416 | the store behaves like a map from layer and tensor type to data; layers keep their blocks and links; a checksum mismatch means that less than a block was read, or that the store does not hold the tensor: not written yet, last written with size 0, reached by a write too long for another tensor, or lost to a transfer that failed; a read is refused exactly when the stored checksum differs from its data's, and everything that fails before a transfer is named, with the books after it |
| LayerStores.TensorByName | phison_version/nvme_transfer/layer_manager.cpp:461-516 | exactly the five names mean a tensor, each at the block that its place in the layer gives it, with its own width |
| LayerStores.KindsDiffer | phison_version/nvme_transfer/layer_manager.cpp:461-501 | two names of a layer are one tensor exactly when their types agree, and for parameters their units |
| LayerStores.NoneAboutLeaves | phison_version/nvme_transfer/layer_manager.cpp:256-298 | calls for other files, with sizes that fit, leave a tensor alone |
| LayerStores.NumberIsDecimal | phison_version/nvme_transfer/layer_manager.cpp:507-508 | the leading digits are a decimal number, and anything else ends it |
| LayerStores.WriteHolds | phison_version/nvme_transfer/layer_manager.cpp:256-298 | after a write of any length the disk holds the tensor as far as its region goes and every tensor the write does not reach, with their checksums |
| LayerStores.RememberedFits | phison_version/nvme_transfer/layer_manager.cpp:256-298 | a write within its region replaces that tensor and reaches no other one |
| LayerStores.AccessAll | phison_version/nvme_transfer/layer_manager.cpp:163-416 | any sequence of calls keeps the store in order, every known layer's blocks and link, and every tensor held that no call writes or reaches, with its data |
| LayerStores.FittingLeaves | phison_version/nvme_transfer/layer_manager.cpp:256-298 | a write within its region leaves every other tensor held |
| LayerStores.WriteRunRead | phison_version/nvme_transfer/layer_manager.cpp:163-416 | over any calls that neither write a tensor nor reach it, so over any whose files name another type or layer and whose sizes fit, a read returns the data last written to it and its checksum is accepted; by layer number the read succeeds |
| LayerStores.SameNameSameBlocks | phison_version/nvme_transfer/layer_manager.cpp:163-252 | two successful calls for one layer number, or for one hash while hashes are one-to-one, go to the same layer at the same blocks, whatever calls come in between |
| LayerStores.LinkOneToOneIff | phison_version/nvme_transfer/layer_manager.cpp:195-199 | linking keeps hashes one-to-one exactly when no layer has the hash yet |
| LayerStores.SharedHash | phison_version/nvme_transfer/layer_manager.cpp:187-217 | two layers linked to one hash: a file of that hash changes its layer |
| FanOut.Submit | my_version/nvme_transfer/include/submit_handler.h:41-49 | the requests tile the block range and the buffer without gaps, ceil(blocks / 4096) of them, also through the 16-bit zero-based count |
| FanOut.Unique | my_version/nvme_transfer/include/submit_handler.h:41-49 | no block of the transfer is in two requests |
| FanOut.TargetsDiffer | my_version/nvme_transfer/include/submit_handler.h:41-49 | the block numbers and buffer addresses in the commands never put two blocks in one place |
| FanOut.TilesInBounds | my_version/nvme_transfer/include/submit_handler.h:41-49 | the addresses in the commands stay inside the buffer and the file's block range |
| FanOut.PhaseCopies | my_version/nvme_transfer/include/submit_handler.h:50-54 | a device that puts every block where its command's block number and buffer address say copies exactly the n blocks in a phase, whatever the order of the single-block transfers |
| FanOut.SubmitTest | my_version/nvme_transfer/include/submit_handler.h:40-107 | for every order inside either phase the read buffer equals the write buffer, the comparison succeeds, and no other block of the device changes |
| FanOut.FanOutThreads | my_version/ioctl_thread/ioctl_thread_pool.cpp:89-117 | the preallocated arrays of ceil(bytes / (896 * 512)) entries are filled exactly, and the requests tile the buffer |

## Left out

- `kernel_modification/ioctl.c`: permissions, io_uring glue and dispatch over driver calls that are not part of this model.
- The xarray, discard, checksum, hash, compat and machine-check variants of the iterator, `pipe_advance`, and the `_contiguous` duplicates: other data structures or near copies.
- The choice between mapping and copying at the head of `blk_rq_map_user_iov`, and `blk_rq_map_user_bvec`: only the two loops behind it are modelled; `IsAligned` is the alignment part of the choice.
- `map_data`, kernel-buffer mapping, integrity, crypto, cgroups, tracing, mempools, the rescuer workqueue and `printk`.
- The ITER_BVEC branch of `bio_iov_iter_get_pages`: it takes the iterator's table over and pins nothing.
- UBUF and KVEC iterators in the bounce path, whose copy in `bio_alloc_map_data` treats every iterator as an iovec.
- MapUserIov: the page total is stated up to MAX_RW_COUNT bytes; above, where a window can end in the middle of a page, and for a call that fails, the leaked references are not stated exactly; when limits refuse a merge they are only bounded by the seams.
- CopyOneBio: a fault or a page that cannot be had is stated as a necessary cause of its error only, since the loops need not come to it.
- MapUserCopy: requires a count of at most UINT_MAX, because `len` is a 32-bit word there; a multiple of 2^32 would make no progress.
- MapUserCopy: when user memory faults while a failed read is undone, the contract says only that nothing outside the bounced bytes changes.
- IterateIovec: a copy stops at the first byte that faults; a partial copy inside an architecture's copy routine that reports less than it wrote is not modelled, nor is `access_ok`.
- Concurrency inside one address space: page references are counted, but another thread's mapping changes are not part of the model.
- InvStep: drivers write a status only to report an error; a driver that clears a child's error is not covered. Steps are atomic and sequentially consistent.
- Chain: the forest that a run builds is ordered by an arbitrary rank, which excludes cycles; the code does not check for them.
- Put: reference counts above one are not modelled; it is the last `bio_put`. A migration between CPUs inside an operation is excluded as in the source.
- PipeIter: `head` and `tail` do not wrap, readers of the pipe are locked out, and `push_page` is not given a page of a buffer that it goes on to fill.
- LayerStore: the transfer is the synchronous command loop of `nvme_operation_handler`, which the built configuration (`asyncFeat 1`, `posixMemalignFeat 0`, `phison_version/nvme_transfer/nvme-ioctl.cpp:31-33`) compiles out; the asynchronous bounce buffers used instead copy every chunk from or to the start of the data and do not keep the round trip.
- Transfer: a size below one block fails in the model; the code sends it as 65536 blocks, past the end of the caller's buffer. 64-bit overflow of block numbers is not modelled.
- WriteTensor: after a transfer that fails part-way, where the program stops, the contract holds nothing of what was stored.
- Number: `stoull` accepts leading blanks and a sign and refuses numbers of more than 64 bits; file names are taken in their split form.
- Locate: a directory other than the two known ones makes the code use uninitialised block numbers; the model lets the call fail.
- SubmitTest: the write branch that is compiled out, timing, huge pages and I/O errors are not modelled; sizes are those for which the source's `int` arithmetic does not overflow.
- FanOutThreads: thread creation and the joining loop, which keeps only the last thread's error, are left out.
