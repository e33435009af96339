# DRBD bookkeeping, modelled and verified

DRBD replicates block writes to several peers.  What must survive crashes and lost
connections rests on bookkeeping: a dirty bitmap shared by all peers, an activity log in
front of it, reference counts and flags of requests, epochs on the wire, intervals on the
disk, and data generation UUIDs.  This project models these in Dafny and proves what they
are for.

- `BitmapLayout`, `BitmapSpec`, `Bitmap`, `BitmapBulk`, `BitmapResize`: all peers' bits are
  interleaved word by word across pages.  The loops over words and pages refine one plain bit
  sequence per peer; growth is exact under a guard that is necessary, too.
- `BitmapHints`, `ActLog`, `CrashSafety`, `SyncRange`: the write-ahead protocol between
  activity log, bitmap pages and submitted writes, as a state machine whose steps are the locked
  regions and the submission and completion of single page writes.  A block is *owed* from its
  submission until it is known to be good on the peer, or its bit was cleared.
- `LogReplay`: the striped on-disk ring, the records in it, and what reading them back yields.
- `CrashRecovery`: the write-ahead protocol on that ring and with the collected hints, up to what is known
  after a crash.
- `Requests`, `TransferLog`, `CachePointers`, `Dagtags`, `PeerAck`, `PeerAckList`: the request state machine with any number
  of peers.  References in excess of their holders are debts; each method settles what it takes on.
- `Barriers`: submitters, epoch closers and one sender, in steps as fine as their shared reads
  and writes.
- `IntervalTree`, `Conflicts`: the augmented interval tree against a linear scan, and who may
  touch the disk.
- `Resync`: one pass of resync requests.
- `Uuids`: UUIDs are conserved until the history overflows.
- `Arithmetic`, `Wrappers`: shared helpers.

Some promises do not hold of the code as it is.  For each there is first an input, a run or a family of
failing inputs that shows it, then the exact condition under which it does hold:

- growth of the bitmap: `ThreeSlotsMiss`; `CoverageExact`, `GrowthExact`, `GrowthClear`
- crash safety: `UnguardedRun`; `CrashSafeExactly`, with the guard of `AlwaysCrashSafe`
- completion of requests: `ReadAnswered`; `Reported`
- exclusion on the disk: `AbortedOverlap`; `SubmitExclusive`
- no lost wakeup when a local write leaves: `Misses`; `LeavesExactly`
- peer acks, as to the sending node: `OwnBitWrong`; `AcksExactly`, with the condition at each merge in `OosSent`
- the pointer to requests that wait for an ack, over a resend: `StaleAckPending`; `Resend`
- marking of writes with 32 slots: `MaskOfThirtyTwo`; `MaskReaches`, `SetSync`
- alignment of resync requests: `NotAligned`; `AlignedInPeerUnits`
- the log ring across the wrap of its number: `WrapCollides`; `RingAcrossWrap`
- a packed UUID history, which a bare primary flag breaks: `BareFlagPushed`; `PushPacked`

Conventions: integers are unbounded, apart from the transaction number in `RingAcrossWrap` and the slot mask in
`SetSync`, whose shift C leaves open for 31 bits and more: it is taken modulo 32, and overflow wraps around.  Flag words
are sets of flags.  Numbers stand for pointers, in the order of the transfer log or of addresses.  The
kernel's `lru_cache` and red-black trees are not part of the repository; what is relied on is written
down where they are used.  Randomness, disk states of peers, rates, and outcomes of single operations
are parameters.

## Model

| member | source | states |
|---|---|---|
| `BitmapLayout.PositionInjective` | drbd/drbd_bitmap.c:457-472 | no two bits of any two slots share an address in the interleaved bitmap |
| `BitmapLayout.OwnerPosition` | drbd/drbd_bitmap.c:457-472 | every address belongs to exactly one bit of one slot: the inverse of the address computation |
| `BitmapLayout.LastBitOnPageIsLast` | drbd/drbd_bitmap.c:474-481 | a later bit of the slot is on the same page if and only if it is not behind the computed last bit |
| `BitmapSpec.AppliedPerSlot` | drbd/drbd_bitmap.c:534-766 | the effect on the interleaved memory is, slot by slot and bit by bit, that of the operation on one plain bit sequence per peer |
| `BitmapSpec.OtherSlotsKept` | drbd/drbd_bitmap.c:534-766 | no operation on one slot changes a bit of another one |
| `BitmapSpec.WeightAfter` | drbd/drbd_bitmap.c:744-766 | the number of set bits of the slot changes by exactly the count that the operation adds to the cached weight |
| `BitmapSpec.OpKeepsWeights` | drbd/drbd_bitmap.c:744-766 | cached weights that are exact stay exact over any operation on any range |
| `BitmapSpec.RoundDirties` | drbd/drbd_bitmap.c:722-742 | one round of an operation changes its page exactly if it counted a changed bit, which is when it flags the page for write-out |
| `Bitmap.Bitmap.BmOp` | drbd/drbd_bitmap.c:534-766 | the page and word loops for set, clear, test, count, merge, extract and find do to memory, weight, page flags and buffer what one operation on the plain bit sequence of the slot does, and return its exact count or first match; all other slots are untouched |
| `Bitmap.Bitmap.TestBit` | drbd/drbd_bitmap.c:534-766 | a bit test answers the bit of the slot, without a change to anything |
| `BitmapBulk.ManyBitsOp` | drbd/drbd_bitmap.c:1688-1714 | page-by-page setting or clearing terminates and equals one operation on the whole range |
| `BitmapBulk.CountBits` | drbd/drbd_bitmap.c:853-870 | recounting page by page makes every cached weight the number of set bits below the bitmap size |
| `BitmapResize.CoverageExact` | drbd/drbd_bitmap.c:1004-1093 | the three fills of growth reach every new bit of every slot if and only if no slot's old tail word lies on a page before the last existing one, unless the growth fits on it |
| `BitmapResize.EvenRowsPerPage` | drbd/drbd_bitmap.c:1004-1093 | that guard holds for all sizes when the slot count divides half the words of a page |
| `BitmapResize.ThreeSlotsMiss` | drbd/drbd_bitmap.c:1031-1048 | with three slots on 4k pages, growth from 10913 bits leaves bit 10944 of slot 0 unreached |
| `BitmapResize.Resize` | drbd/drbd_bitmap.c:897-1111 | growing, shrinking, dropping and failing to resize: old bits are kept, new bits are as the fills leave them, flags and weights follow; each error comes exactly under its condition and leaves the bitmap as it was |
| `BitmapResize.GrowthExact` | drbd/drbd_bitmap.c:1004-1093 | growing with set new bits, whatever stale bits were behind the old end, leaves the cached weights exact if and only if each new bit is reached or was set already; under the guard that holds and every new bit is set, and with nothing stale it holds only under the guard |
| `BitmapResize.GrowthClear` | drbd/drbd_bitmap.c:1004-1093 | growing with clear new bits leaves the cached weights exact if and only if stale bits are only where the fill reaches; under the guard that holds and the new bits are clear |
| `BitmapHints.ShiftsGiveExtentBits` | drbd/drbd_actlog.c:301-304 | for all bit granularities from 4 KiB to one extent the bits per extent have the shape the page bound rests on |
| `BitmapHints.RangeCovered` | drbd/drbd_bitmap.c:1576-1591 | the page range that is computed for a bit range contains the words of all slots for all its bits |
| `BitmapHints.ExtentOnTwoPages` | drbd/drbd_bitmap.c:1557-1591 | the words of one extent, for up to 32 slots, lie on at most two pages |
| `BitmapHints.Hints.MarkTransaction` | drbd/drbd_actlog.c:347-365 | the hints of a transaction cover every page of every evicted extent for all slots, each page once, and never exceed the 128 entries |
| `ActLog.Log.BeginIoFastpath` | drbd/drbd_actlog.c:256-274 | succeeds exactly for a single extent that is in the log for good, and takes one reference on it |
| `ActLog.Log.BeginIoNonblock` | drbd/drbd_actlog.c:536-566 | references are taken extent by extent from where the last attempt stopped; on failure those taken are kept, the place to resume is recorded, and the cache refuses that extent |
| `ActLog.Log.PutActlog` | drbd/drbd_actlog.c:508-534 | each extent with a user loses exactly one reference and no other does; with a user for each, none is passed over; a wakeup is asked for exactly if one became unused |
| `ActLog.GetsRefs` | drbd/drbd_actlog.c:536-566 | a chain of activations adds one reference to exactly the extents it covers, and extents with users do not move |
| `ActLog.PutsRefs` | drbd/drbd_actlog.c:508-534 | giving back a range takes exactly one reference off each extent in it |
| `CrashSafety.StepKeeps` | drbd/drbd_actlog.c:324-413 | every step of submission, hinted, lazy and other bitmap write-out, log transaction, commit, completion and sync marking keeps the invariant of log, bitmap and requests |
| `CrashSafety.WriteLogExact` | drbd/drbd_bitmap.c:1451-1468 | writing the log in a consistent state is safe if and only if no owed block of a leaving extent depends on a page write still under way |
| `CrashSafety.CrashSafeExactly` | drbd/drbd_actlog.c:324-413 | for every run from attach on, with blocks owed and marked then: at each moment each block written locally and not known OK on a peer has its extent in the on-disk log or its bit in the on-disk bitmap, if and only if each log write satisfies that condition |
| `CrashSafety.AlwaysCrashSafe` | drbd/drbd_actlog.c:473-506 | every run in which no log write overtakes a write of a hinted page is crash safe at every moment |
| `CrashSafety.UnguardedRun` | drbd/drbd_bitmap.c:1451-1485 | a run that is not crash safe: a page with a set and a cleared bit is written lazily, the hinted write-out skips it while that write is not complete, and the extent leaves the log before the bit is on disk |
| `CrashSafety.ReferencesConserved` | drbd/drbd_actlog.c:508-579 | in every run the reference count of each extent is the number of requests that hold it, also when an activation fails half way and resumes, so giving back never meets an unused extent |
| `CrashRecovery.ReplayIsDiskLog` | drbd/drbd_actlog.c:306-413 | in every run in which each log write puts its record into the ring, a crash at any moment, also with rubbish in the block being written, leaves a ring whose replay yields exactly the extents that count as logged |
| `CrashRecovery.CrashRecovers` | drbd/drbd_actlog.c:306-413 | end to end: recovery by replaying the ring and reading the bitmap finds each owed block in an extent or in the bitmap, in every run whose log writes satisfy the condition |
| `CrashRecovery.WriteRecord` | drbd/drbd_actlog.c:324-413 | a transaction of the journal is such a log write |
| `CrashRecovery.MarkLeaving` | drbd/drbd_actlog.c:347-365 | the hints that the loop over the slots to be changed collects are enough for the transaction to begin |
| `SyncRange.SetExact` | drbd/drbd_actlog.c:834-836 | a bit is set if and only if some sector of its block was written |
| `SyncRange.ClearExact` | drbd/drbd_actlog.c:838-846 | a bit is cleared if and only if all sectors of its block that the device has were written |
| `SyncRange.ClearWithinSet` | drbd/drbd_actlog.c:834-846 | what may be cleared is a part of what would be set |
| `SyncRange.SetSync` | drbd/drbd_actlog.c:804-887 | each slot in the mask is updated once, with the set range or the clear range, others not at all; the slots that changed are reported; that holds with fewer than 32 slots, and with 32 nothing changes; empty writes and writes behind the end change nothing |
| `SyncRange.MaskReaches` | drbd/drbd_actlog.c:824-824 | with up to 32 slots, the mask of all slots, computed with ints of 32 bits, has the bits of all slots if and only if there are fewer than 32 |
| `SyncRange.MaskOfThirtyTwo` | drbd/drbd_actlog.c:824-824 | with 32 slots it is zero |
| `LogReplay.OnDiskSector` | drbd/drbd_actlog.c:306-322 | a transaction's eight sectors lie inside the area of the log |
| `LogReplay.RingDistinct` | drbd/drbd_actlog.c:306-322 | as many consecutive transactions as the ring has blocks never share a block of the striped ring |
| `LogReplay.RingAcrossWrap` | drbd/drbd_actlog.c:312-315 | across the wrap-around of the 32 bit transaction number this holds if and only if the ring size divides 2^32 |
| `LogReplay.ReplayExact` | drbd/drbd_actlog.c:347-388 | replaying the last ceil(slots/919) transactions or more, context before updates, rebuilds the slot-to-extent map from any starting point |
| `LogReplay.RingSuffices` | drbd/drbd_nl.c:2302-2328 | with the number of slots that is allowed, the transactions needed for replay fit the ring with one block to spare |
| `LogReplay.Recovery` | drbd/drbd_actlog.c:306-393 | whatever a torn write leaves in the block being written, the blocks before it still yield the map as it was committed |
| `LogReplay.Journal.WriteTransaction` | drbd/drbd_actlog.c:324-413 | the record written takes the slots from their old to their new extents, goes to the next block, replaces no record still needed and advances number and context cycle |
| `LogReplay.Journal.Relabel` | drbd/drbd_actlog.c:551-554 | a slot chosen for a new extent changes nothing that the ring yields |
| `LogReplay.Journal.BeginIoCommit` | drbd/drbd_actlog.c:473-506 | with changes pending the ring yields the new extents before they become current; without, nothing is written |
| `LogReplay.Journal.Initialize` | drbd/drbd_actlog.c:620-645 | after initialization each block of the ring, whatever it held, has a record that leads to the current map, and all but the first carry just that map |
| `Requests.TablePermitted` | drbd/drbd_req.c:1138-1439 | no event takes a reference where nobody holds one, given that submission events come during submission, aborts hit pending requests and resends hit requests on the log |
| `Requests.FlaggedCompletion` | drbd/drbd_req.c:912-1045 | any permitted change of flags leaves completion_ref equal to its holders plus what is about to be put, and never raises it from zero |
| `Requests.FlaggedRefs` | drbd/drbd_req.c:912-1080 | the same for done_ref and oos_send_ref |
| `Requests.WalkStep` | drbd/drbd_req.c:532-574 | what one round of the walk puts on a write is exactly what is then owed on the next write |
| `Requests.InOrder` | drbd/drbd_req.c:532-574 | data writes are done, and leave the transfer log, in transfer log order |
| `Requests.Accounting` | drbd/drbd_req.c:912-1080 | in every state: the three counts are the numbers of their holders, each is zero exactly when nothing holds it, and writes are done and leave in order; a request that is done was completed unless aborted |
| `Requests.Reported` | drbd/drbd_req.c:583-756 | when the last completion reference goes, the upper layers are told, with success if any copy is good, if and only if no peer's queue holds the request and it is not to be retried; it is retried unless the disk still owes an answer |
| `Requests.ReadAnswered` | drbd/drbd_req.c:608-636 | a remote read whose data arrives is reported exactly if the sender took it off its queue by then; if not, it is neither reported nor retried |
| `TransferLog.Resource.PutRefTlWalk` | drbd/drbd_req.c:532-574 | the walk along the chain settles all references that are put, wherever it stops, and changes no flag but those of announcements it releases |
| `TransferLog.Resource.ReqDone` | drbd/drbd_req.c:299-326 | out-of-sync announcements are released or skipped depending on whether a bit was set, and nothing that counts changes |
| `TransferLog.Resource.PutCompletionRef` | drbd/drbd_req.c:729-756 | putting completion references reports or retries at zero and keeps all counts equal to their holders |
| `TransferLog.Resource.ModRqState` | drbd/drbd_req.c:912-1080 | every permitted change of flags keeps all three counts of all requests equal to their holders; what is done, off the log or reported stays so, and a completion count of zero stays zero |
| `TransferLog.Resource.ReqMod` | drbd/drbd_req.c:1138-1439 | every event does, and changes exactly the flags of its row of the table |
| `TransferLog.Resource.BarrierAcked` | drbd/drbd_req.c:1410-1428 | a write that was for the peer is then done towards it and not pending |
| `TransferLog.Resource.AddWrite` | drbd/drbd_req.c:2086-2143 | a new data write is linked behind the previous one, with the references the chain needs, and is marked for each peer as data, out-of-sync or not at all |
| `TransferLog.Resource.AddRead` | drbd/drbd_req.c:2127-2141 | a remote read is queued for one peer |
| `TransferLog.Resource.AddFlush` | drbd/drbd_req.c:1727-1765 | an empty flush counts as done on each peer that is up to date |
| `TransferLog.Resource.FinishSubmit` | drbd/drbd_req.c:2187-2189 | the submitter's reference goes last, and may complete the request |
| `TransferLog.Resource.Retry` | drbd/drbd_main.c:3375-3414 | a retried request gives back the reference that kept it from being done |
| `PeerAck.PeerAcks.OosSent` | drbd/drbd_req.c:351-387 | a write replaces the pending one only with equal peers, no waiting activity log extent and room in the window; every write so far is still told rightly as to the peers; what is told stays exact, also for the sending node, if and only if the pending write was not dropped or had the same outcome there |
| `PeerAck.PeerAcks.Flush` | drbd/drbd_main.c:3604-3613 | flushing tells what is pending and changes nothing that is told |
| `PeerAck.PeerAcks.QueueWork` | drbd/drbd_req.c:131-158 | queued writes become acks in order, with the mask of their peers, and nothing that is told changes |
| `PeerAck.PeerAcks.Differs` | drbd/drbd_req.c:170-180 | two writes differ exactly if some peer has one and not the other |
| `PeerAck.FirstAckTrue` | drbd/drbd_req.c:351-387 | in every state the first ack at or after a write is that of this or a later write, and carries this write's own OK bit for every peer, whatever was merged, cut or flushed |
| `PeerAck.AcksExactly` | drbd/drbd_req.c:170-180 | in every run all first acks are right for the sending node, too, if and only if no write was dropped in favour of one with another outcome there |
| `PeerAck.OwnBitWrong` | drbd/drbd_req.c:170-180 | a run to an ack that is wrong about the sending node itself, which is not compared when writes are merged |
| `PeerAckList.AckList.Queue` | drbd/drbd_req.c:95-129 | an ack is queued for all that are connected, to be sent where its write was sent, and does not enter the list if nobody is connected |
| `PeerAckList.AckList.Process` | drbd/drbd_receiver.c:10550-10597 | a connection takes its part of the list: it has then sent, in order and once, all acks that were ever meant for it, or a proper prefix if a send fails; other connections keep theirs, and an ack leaves with the last one that takes it |
| `PeerAckList.AckList.Cleanup` | drbd/drbd_receiver.c:11357-11372 | a lost connection takes its part without sending; other connections keep theirs |
| `PeerAckList.PeerHears` | drbd/drbd_req.c:95-158 | each peer that has a write is itself sent the first ack at or after it, and that is true of all peers |
| `Dagtags.LeavesInOrder` | drbd/drbd_req.c:2086-2096 | a data write that leaves the transfer log, at any moment of a walk, has a later tag than all that left before |
| `CachePointers.TableOrderly` | drbd/drbd_req.c:1138-1439 | all events but submission and resend can only end a condition of the pointers, except for being sent |
| `CachePointers.TableSound` | drbd/drbd_req.c:1138-1439 | no event leaves a request waiting for an answer that it has, or that is done |
| `CachePointers.Connection.ModNet` | drbd/drbd_req.c:983-1051 | after any such change the three pointers are what a walk along the log finds |
| `CachePointers.Connection.OnEvent` | drbd/drbd_req.c:1138-1439 | so they are after every event other than submission and resend |
| `CachePointers.Connection.Add` | drbd/drbd_req.c:2134-2141 | a request added at the end keeps them so |
| `CachePointers.Connection.Remove` | drbd/drbd_req.c:816-835 | and so does removal of a request that meets no condition |
| `CachePointers.Connection.NextRequest` | drbd/drbd_sender.c:3365-3405 | the sender's next request is the oldest that is queued, or none while that is not ready |
| `CachePointers.Connection.Advance` | drbd/drbd_req.c:851-888 | going on from the request that the pointer was at finds the oldest one that meets the condition |
| `CachePointers.Connection.Resend` | drbd/drbd_state.c:3283-3294 | a resend of all requests on the log leaves the sender with no next request and the pointer to unfinished requests right, so that its scan finds the oldest queued one; the pointer to requests that wait for an ack agrees with a scan if and only if it was not set |
| `CachePointers.StaleAckPending` | drbd/drbd_req.c:1382-1409 | a run to a pointer to requests that wait for an ack that does not agree with a scan |
| `Barriers.NothingLeft` | drbd/drbd_sender.c:3496-3523 | when the idle sender has read a closed epoch and then a tag it has seen, no write of its epoch is left in any stage of submission |
| `Barriers.FramedWell` | drbd/drbd_sender.c:3554-3608 | the reference stream: writes of an epoch are together, directly followed by one barrier with its number before any later epoch, and no number comes twice |
| `Barriers.BarriersNeverEarly` | drbd/drbd_sender.c:3454-3608 | under every interleaving of submitters, epoch closers and the sender the wire is that reference stream of the writes sent, with at most the barrier of the last epoch after it |
| `IntervalTree.HighestEnd` | drbd/drbd_interval.c:20-22 | the note at a root is the highest end below it, and some interval has it |
| `IntervalTree.RotatedRight` | drbd/drbd_interval.c:21-22 | a right rotation keeps order and notes |
| `IntervalTree.RotatedLeft` | drbd/drbd_interval.c:21-22 | a left rotation keeps order and notes |
| `IntervalTree.RebalancingKeeps` | drbd/drbd_interval.c:21-22 | any rotations at any nodes keep order and notes of the whole tree |
| `IntervalTree.Insert` | drbd/drbd_interval.c:47-78 | insertion with whatever rotations follow keeps the order by sector and identity and the notes, adds the interval at its one place, and fails exactly if it is there |
| `IntervalTree.UpdateSize` | drbd/drbd_interval.c:128-138 | a change of size with propagation that stops at the first unchanged note leaves a valid tree with only that interval changed |
| `IntervalTree.FindOverlap` | drbd/drbd_interval.c:152-180 | the search by notes finds the first overlapping interval in order, or none exactly if there is none |
| `IntervalTree.NextOverlap` | drbd/drbd_interval.c:182-198 | the next overlapping interval in order, or none |
| `IntervalTree.ForEachOverlap` | drbd/drbd_interval.h:177-180 | the iteration visits exactly what a linear scan of all intervals finds, in order |
| `IntervalTree.ScanExact` | drbd/drbd_interval.h:177-180 | that scan yields each overlapping interval once, in order, and nothing else |
| `Conflicts.Device.FindConflict` | drbd/drbd_int.h:3077-3158 | returns the first interval in the way and marks the verify requests passed before it |
| `Conflicts.SubmitKeeps` | drbd/drbd_int.h:3042-3062 | what is submitted with no conflict keeps the exclusion, the marks of verify requests and everybody's wakeup |
| `Conflicts.SubmitExclusive` | drbd/drbd_int.h:3086-3106 | what is submitted with no conflict keeps it strictly true that no two overlapping intervals with a write among them are on the disk, unless the other is a verify request, if and only if it is no local write that overlaps an aborted one |
| `Conflicts.AbortedOverlap` | drbd/drbd_req.c:694-714 | a run to two overlapping writes on the disk, the first one completed before the disk was done with it |
| `Conflicts.ReleaseKeeps` | drbd/drbd_req.c:464-530 | after a change to one interval, releasing its range leaves nobody parked without an interval that blocks it |
| `Conflicts.Device.SubmitWrite` | drbd/drbd_req.c:2207-2248 | submits exactly if nothing is in the way; a local write leaves if the first one in the way is local and to be retried, else it is parked; others are at most marked; keeps: no two overlapping intervals on the disk with a write among them unless the other is a verify request or one of two local writes was aborted, verify requests know of writes on the disk, and whoever is parked is blocked by an interval still there |
| `Conflicts.Device.SendResync` | drbd/drbd_sender.c:492-514 | a resync request is sent exactly if nothing but writes of its own peer is in the way; keeps the same |
| `Conflicts.Device.SubmitResync` | drbd/drbd_receiver.c:2592-2620 | a received resync reply is written exactly if nothing is in the way; keeps the same |
| `Conflicts.Device.SubmitRead` | drbd/drbd_receiver.c:3632-3677 | a resync read waits for writes, a verify request does not; keeps the same |
| `Conflicts.Device.Verify` | drbd/drbd_sender.c:1495-1508 | a verify request goes ahead and carries the conflict mark exactly if something was in the way; keeps the same |
| `Conflicts.Device.LockPeersInSync` | drbd/drbd_receiver.c:2320-2340 | the lock is taken exactly if no write is in the way; keeps the same |
| `Conflicts.Device.BackingComplete` | drbd/drbd_sender.c:372-376 | the end of a local write on disk wakes all that overlap it; keeps the same |
| `Conflicts.Device.Complete` | drbd/drbd_req.c:694-714 | so does its completion, also if it was aborted; keeps the same |
| `Conflicts.Device.RemovePeer` | drbd/drbd_receiver.c:1902-1916 | so does removal of a peer request, unless it was a verify request; keeps the same |
| `Conflicts.Device.RemoveLocal` | drbd/drbd_req.c:254-264 | a local write that leaves wakes nobody; the exclusion and the marks are kept, and wakeups under the condition of `LeavesExactly` |
| `Conflicts.LeavesExactly` | drbd/drbd_req.c:261-264 | no wakeup is lost by that, whatever else is in the tree, if and only if the write was done on disk and completed, or never submitted |
| `Conflicts.OverlapOrder` | drbd/drbd_interval.h:177-180 | the iteration over the interval tree gives the list of overlapping intervals that these operations work on |
| `Conflicts.InsertInTree` | drbd/drbd_interval.c:47-78 | insertion into the tree keeps it in step with the intervals |
| `Resync.NearestPower` | drbd/drbd_sender.c:1181-1191 | rounding yields a power of two, and none is nearer |
| `Resync.OptimalAligned` | drbd/drbd_sender.c:1157-1179 | a request of the optimal size starts at a multiple of it |
| `Resync.AlignedInPeerUnits` | drbd/drbd_sender.c:1392-1395 | if bits of the peer are larger, that fails: for any start it holds if and only if the start is a multiple of the largest request in units of the peer, or no multiple of the largest request in bits and the units are the same |
| `Resync.NotAligned` | drbd/drbd_sender.c:1385-1395 | two starts that the loop can reach at which it fails, one on each side |
| `Resync.Extend` | drbd/drbd_sender.c:1397-1410 | a request grows only over adjacent blocks with set bits, up to the optimal size |
| `Resync.MakeRequests` | drbd/drbd_sender.c:1347-1460 | the requests ascend, are disjoint and at most of the maximum size, cover every set bit passed and no block without one, and exactly the unclipped sectors requested are added to those in flight; the pass goes on until the number is used up, the bitmap ends, or one of the named early exits, with what it returns and where it resumes, also on failure |
| `Resync.ClippedReaches` | drbd/drbd_sender.c:1415-1417 | a request cut off at the end of the device still reaches all its bits |
| `Uuids.PushKeeps` | drbd/drbd_main.c:4684-4712 | pushing conserves all that is known but what falls out of a full history, and no entry comes up twice |
| `Uuids.PushPacked` | drbd/drbd_main.c:4684-4712 | entries stay packed at the front if and only if not the bare primary flag is pushed while no zero is anywhere |
| `Uuids.BareFlagPushed` | drbd/drbd_main.c:4684-4712 | one history that is not packed any more |
| `Uuids.ReceivedKeeps` | drbd/drbd_main.c:5360-5417 | a new current UUID with rotation and replaced slots conserves all, the old current one included |
| `Uuids.UuidsConserved` | drbd/drbd_main.c:4684-5448 | over any sequence of slot replacements and received current UUIDs each real UUID in use at any time is known at the end or fell out of a full history, and history entries are distinct |
| `Uuids.HistoryPacked` | drbd/drbd_main.c:4684-5448 | over any such sequence without a bare flag the history stays packed |
| `Uuids.MetaData.PushHistory` | drbd/drbd_main.c:4684-4712 | search and shift in place do what the specification says |
| `Uuids.MetaData.SetBitmap` | drbd/drbd_main.c:4773-4785 | a replaced bitmap UUID goes to the history |
| `Uuids.MetaData.SetBitmapSlots` | drbd/drbd_main.c:5422-5448 | the same for each chosen slot in turn |
| `Uuids.MetaData.RotateCurrent` | drbd/drbd_main.c:4819-4892 | whichever peers are chosen, the current UUID goes only to slots that are empty or have it |
| `Uuids.MetaData.ReceivedNewCurrent` | drbd/drbd_main.c:5360-5417 | rotation, slots, current UUID and history in that order, as specified |

## Left out

- Locks, RCU, memory barriers, bios, timers, work queues, transports, netlink, debugfs and proc: replaced by atomic steps, abstract disks and an abstract wire.
- The receiver, the state engine, two-phase commit and the coder for bitmap transfer, apart from the places in the receiver that submit or remove intervals.
- Failure of meta data I/O within a log transaction, and the variants for persistent memory.
- Shrinking the activity log, resizing the cache, and mounting with the log disabled.
- The reader of the on-disk log, which is user-space code: `Replay` says what it has to do.
- Copying one bitmap slot to another, merging during resync, and bitmap checksums.
- Joining of resync discards, which changes intervals that are in the tree.
- IntervalTree.Insert: works on a tree of values with an explicit path, so updates in place of shared nodes are not captured; the choice of rotations is left open.
- Removal from the interval tree is a contract of the kernel's library.
- Reads and out-of-sync information between replicated writes in `Barriers`, send failures and reconnects.
- Epoch closing by completion and by epoch size in `TransferLog`: in `Barriers` an epoch may be closed at any time.
- Statistics, congestion and the transition from Ahead to SyncSource in `TransferLog`.
- Requests are records in a sequence in `TransferLog`, so aliasing of request objects and their destruction are not captured.
- Uuids.MetaData.RotateCurrent: which peers are chosen depends on their disk states and is left open, so what is proved holds for every choice; the dagtags kept with bitmap UUIDs are not modelled.
- Pulling UUIDs from the history, and the UUID changes at the end of a resync and on day 0.
- `drbd_set_in_sync` and `drbd_set_out_of_sync` for a single peer, which compute their ranges by expressions of their own.
- BitmapResize.GrowthExact: for bitmaps in which a page holds at least two words of each slot, which 4k pages and up to 32 slots satisfy.
- CrashSafety.StepKeeps: states the invariant of the steps, the safety that follows is stated by CrashSafeExactly.
- CachePointers.Connection.ModNet: for the sender sending what is first in its queue, as it does.
- PeerAck.FirstAckTrue: for flags of peers that no longer change once a write is off the transfer log, and a fixed set of connections.
- TransferLog.Resource.ReqDone: the bitmap update and giving back the activity log extents are a parameter, whether a bit was set; what they do is in `SyncRange.SetSync` and `ActLog.Log.PutActlog`.
- PeerAck.PeerAcks.QueueWork: makes the acks only; the masks of connections that an ack is queued for and sent to are in `PeerAckList.AckList.Queue`.
- PeerAckList.AckList.Cleanup: a connection that is lost does not come back in this model, and the flag of the pending write towards it is not cleared; the highest tag seen per connection is left out.
- CrashSafety.CrashSafeExactly: what completion marks is marked for every peer, which `SyncRange.SetSync` does with fewer than 32 slots.
