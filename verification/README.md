# libcdma: verified model of the rings, the request encoding and the doorbell allocator

libcdma is the user-space half of a DMA engine. A program posts work requests into a
submission ring (JFS), the device executes them and reports through a completion ring (JFC),
and the program polls that ring. This project models the parts of the library that carry the
state and the arithmetic, in Dafny, and proves what they promise. `dafny verify dfyconfig.toml`
checks all of it.

| file | part of the library | form |
|---|---|---|
| `Bits.dfy` | 32/64-bit wrap-around, powers of two, masks, phase bits | functions and lemmas |
| `Common.dfy` | ring geometry, the queue structure, the running pointer | class `JettyQueue` |
| `CompletionRing.dfy` | the completion ring, its phase bit, the FIFO it stands for | specification |
| `JfcPoll.dfy`, `JfcPollExact.dfy`, `JfcClean.dfy`, `JfcCleanExact.dfy`, `JfcCleanAll.dfy` | polling and cleaning as functions on ring values | specification |
| `JfcRuns.dfy` | device writes, polls, cleans and queue deletions in any order | state machine |
| `Jfc.dfy` | the completion queue object, updated in place | class `CompletionQueue`, methods |
| `Sqe.dfy`, `SqeStream.dfy` | the wire form of a request, and a device-side parser | printer and parser |
| `SqeFill.dfy` | filling the 256-byte scratch buffer field by field | methods over an array |
| `SendQueue.dfy`, `SendQueueProps.dfy` | the submission ring, the log of requests it stands for | specification |
| `Jfs.dfy` | creating a send queue, posting lists, announcing | methods over `JettyQueue` |
| `QueueRuns.dfy` | poster, device and poller interleaved | state machine |
| `SwDoorbell.dfy` | the software doorbell allocator | classes `Context`, `DbPage` |
| `LogRate.dfy` | the atomic rate limiter of the log | state machine |

Where the library changes state in place the model does too: each such method is proved equal
to a function on values (`Value()` of the object before and after), and the promises are
lemmas about that function. Free-running 32-bit indices are truncations of unbounded counters
that only the proofs see, so wrap-around is part of every statement.

## Results

**Completion ring.** The phase bit of a slot is a function of the number of entries produced
and of nothing else, and no operation disturbs that. In every interleaving of device writes,
polling calls, safe cleans and deletions of queues, the entries taken followed by the entries
pending are the entries written, in order and each once (`JfcRuns.RunConserves`,
`JfcRuns.RunIsFifo`). The doorbell word is the one the run started with until a poll reports
something or a clean frees something; from then on it is the 22-bit truncation of the consumer
position right after the last such event, which is never ahead of the present one. (A recycled
word is not cleared by the library, so the first value is arbitrary.)

**What a poll answers.** Every record hands out the context stored for the block its entry
reports, for any mix of queues in one batch, and each queue's index ends where the entries taken
say (`JfcPollExact.LoopReportsBlocks`). The return value is the number of ordinary entries in
front, up to the limit; it is -1 exactly when the first other entry among those polled names no
queue or has a status outside the table (`JfcPollExact.PollAnswers`).

**Cleaning does not always remove what it should, and the project says exactly when it does.**
Deleting a send queue relies on the clean (`cdma_u_jfs.c:159-189`): after it no pending entry may
point at the freed queue. The upward scan of `cdma_u_clean_jfc` tests every index against the
lap of the consumer index, so it cannot see past the end of the ring. With `o` the consumer
slot, `m` entries outstanding and `cnt` slots:

- `o + m < cnt` and `ci + cnt < 2^32`: every pending entry of the queue is removed, the others
  stay in order.
- `o + m > cnt`, below that limit: only the part up to the ring end is cleaned. Entries of the queue beyond it stay
  pending (`JfcCleanAll.WrapKeepsAnEntry`, on a ring of any size).
- `ci + cnt >= 2^32`: the limit test at line 584 makes the scan empty and nothing is removed.
- `o + m == cnt`, below that limit: every slot reads as new, the scan runs one slot past a full lap and the
  compaction visits consumed entries too. On a ring of 64 slots with one entry outstanding, in the
  last slot, and consumed entries of the cleaned queue in the others, the consumer index ends at
  126 with 64 entries produced (`JfcCleanAll.OverrunOf64`); with `ci + cnt + 1 == 2^32` the scan
  never stops (`JfcCleanExact.CleanDivergesExactly`).

`JfcCleanAll.CleanRemovesAllExactly` proves that a clean removes all pending entries of the queue
and nothing else if and only if `JfcCleanAll.CleanComplete`, a condition on the ring before the
call, holds. `JfcCleanExact.CleanFiltersExactly` does the same for the weaker promise that nothing
is lost. After a complete clean, and as long as the device writes no entry of the queue, no poll
of any run takes one (`JfcRuns.CleanedIsNeverPolled`), and after such a deletion no poll follows
a reference to the queue (`JfcRuns.DeletedIsNeverFollowed`).

**Submission ring.** With the poster at six points of its call, the device and the two halves
of a poll interleaved, `c <= announced <= p <= c + cnt` holds, every outstanding slot keeps the
block and the context of its request, and the contexts handed to the caller are the ones posted
with the blocks that were reported, in order and each once (`QueueRuns.RunIsSafe`,
`QueueRuns.StepProtects`). From any outstanding request boundary the device-side parser recovers exactly the accepted requests,
across the ring end (`SendQueueProps.RingParses`). List posting is prefix-atomic
(`Jfs.PostSqWr`). The direct path is taken if and only if the device offers it, one request was
accepted, its block is the only outstanding one, and some request of the list that was looked at
is a plain read or write with at most one entry that moves data (`SendQueueProps.NoticeExactly`);
there it is sound (`SendQueueProps.DirectIsSound`). And a queue created for `d` requests takes a
valid request whenever fewer than `d` are outstanding (`SendQueueProps.DepthGuarantee`).

**Sixteen bits of block index.** `JfcPoll.IndexRebuiltExactly`: rebuilding the consumer index
from `entry_idx` is right for a reported position `s` if and only if the slot of `s` is below
2^16. For rings of at most 2^16 blocks that is every position.

**Software doorbells.** A context refines a set of live addresses: allocation adds one fresh
aligned address inside a page, freeing removes exactly that one, the page list stays
well formed in both directions, use counts equal the used bits, and no empty page stays.

**Log rate.** Messages allowed never exceed `5 * (1 + resets)` in any interleaving of the
atomic steps and in runs of any length, as long as no increment wraps the counter;
`LogRate.BoundBreaks` is a run of a fresh limiter in which one does and the bound fails.

## Model

| member | source | states |
|---|---|---|
| Bits.MaskIsMod | cdma_u_jfc.c:165-172 | masking an index with `2^k - 1` is its remainder, for all indices |
| Bits.AndPow2 | cdma_u_jfs.c:458 | the bit just above the index mask is the parity of the lap |
| Bits.AndHighMask | cdma_u_db.c:164 | masking off the low k bits of a word rounds it down to a multiple of `2^k` |
| Bits.TruncSlot | cdma_u_jfc.c:165-172 | a counter truncated to 32 bits falls on the same slot of a power-of-two ring |
| Bits.TruncLap | cdma_u_jfc.c:181-182 | truncation to 32 bits keeps the lap parity in rings below 2^32 slots |
| Common.RoundupIsLeast | cdma_u_common.h:158-161 | `roundup_pow_of_two` gives a power of two that is at most `2^j` exactly when its argument is: the least one not below it |
| Common.RoundupScaled | cdma_u_common.c:41-42 | rounding commutes with scaling by a power of two, which is why buffer and block exponents agree |
| Common.AlignIsCeiling | cdma_u_common.h:163-166 | `align` returns the multiple of the unit in `[val, val + unit)` |
| Common.AlignPower2 | cdma_u_common.h:176-184 | the counting loop ends, with the ceiling of the binary logarithm |
| Common.GeometryFits | cdma_u_common.c:41-46 | for every depth, entry size and power-of-two page: a power-of-two number of blocks, at least `max_cnt`, that fills the buffer exactly; the buffer is the rounded depth times the rounded entry size, or a page if that is more |
| Common.JettyQueue.AllocQueueBuf | cdma_u_common.c:34-72 | on success a shaped queue over fresh zeroed memory with `baseblk_cnt >= max_cnt` and a whole number of pages; on failure no context array stays; indices untouched |
| Common.PtrFollowsIndex | cdma_u_common.h:204-209 | advancing the pointer by n blocks and folding gives the address of slot `(pos + n) % cnt`, for n up to a full lap |
| CompletionRing.LocalIdFields | cdma_u_jfc.c:591 | an entry is of queue j exactly when its high and low number fields are the high and low part of j |
| CompletionRing.OthersIsDrop | cdma_u_jfc.c:591-600 | removing the entries of j, told from the two number fields, is the removal that all cleaning results speak of |
| CompletionRing.PayloadKeeps | cdma_u_jfc.c:597-599 | what results compare of an entry is everything but the phase bit |
| CompletionRing.DoorbellMask | cdma_u_jfc.c:504 | the doorbell mask keeps 22 bits |
| CompletionRing.InitialRing | cdma_u_common.c:12-32 | a zero-filled ring with index zero satisfies the ring invariant and is empty |
| CompletionRing.PhaseTest | cdma_u_jfc.c:174-187 | what the phase test answers at any index, for any ring state: it compares with the lap of the consumer, not of the index |
| CompletionRing.NewWithinLap | cdma_u_jfc.c:174-187 | the three cases: exact up to the outstanding count, exact up to the ring end, or always "new" |
| CompletionRing.HeadIsPending | cdma_u_jfc.c:174-187 | at the consumer index the test says "new" if and only if an entry is pending, and shows the oldest one; wrap-around included |
| CompletionRing.ConsumeOne | cdma_u_jfc.c:328 | stepping the index removes exactly the head of the FIFO and keeps the invariant |
| CompletionRing.ProduceAppends | cdma_u_jfc.c:181-184 | a device write with the phase of its lap appends to the FIFO, overwrites nothing pending and keeps every phase bit right |
| JfcPoll.IndexRebuilt | cdma_u_jfc.c:189-204 | in rings of at most 2^16 blocks the 16-bit block index moves the consumer index to exactly the reported position |
| JfcPoll.IndexRebuiltExactly | cdma_u_jfc.c:189-204 | for rings of any size: it does so if and only if the slot of the reported position is below 2^16 |
| JfcPoll.CompletionReportsContext | cdma_u_jfc.c:266-316 | a valid ordinary completion for block s reports the context stored for s and leaves the index at s + 1, touching nothing else |
| JfcPoll.PollOneTakesHead | cdma_u_jfc.c:318-344 | one poll takes exactly the head of the FIFO, or changes nothing when it is empty; no record if and only if the poll is an error; a record copies every field of its entry, the queue number by its two parts; the doorbell stays |
| JfcPollExact.TableLookup | cdma_u_jfc.c:206-264 | the status of a pair is the one an array of seven rows and five columns holds, in the numbers of the interface, and none outside it |
| JfcPollExact.TableExactly | cdma_u_jfc.c:215-251 | which pairs mean something; success is 0/0 only; no pair means flush done or suspend done |
| JfcPollExact.TableInjective | cdma_u_jfc.c:215-251 | different valid pairs are different statuses |
| JfcPollExact.PollOneSays | cdma_u_jfc.c:318-344 | "empty" with a record exactly for a flush marker, without one exactly for an empty ring, "error" exactly for an entry without queue or with an invalid status, "ok" exactly for the others |
| JfcPollExact.PollOneKinds | cdma_u_jfc.c:266-344 | a flush marker hands out the context at the unmoved index, reports flush done and raises the flag of its queue only; an entry without queue, or an invalid flush entry, leaves the queues alone |
| JfcPollExact.PollOneReportsBlock | cdma_u_jfc.c:189-344 | a poll of an entry for block s hands out the context stored for s and leaves the index at s + 1, or at s and with no record if the status is invalid; nothing else changes |
| JfcPollExact.LoopEnds | cdma_u_jfc.c:497-501 | the loop reports exactly the ordinary entries in front, and its end state is told by the next entry |
| JfcPollExact.LoopReportsBlocks | cdma_u_jfc.c:497-501 | each record of a batch hands out the context of its block, over any number of queues; every index ends where the entries taken say; a flag goes up exactly for a final flush marker |
| JfcPollExact.PollAnswers | cdma_u_jfc.c:483-509 | the return value from the pending entries: their number if all are ordinary, zero on an empty ring, else -1 or the count before the first special one, by its kind |
| JfcPoll.PollLoopTakesPrefix | cdma_u_jfc.c:497-501 | a batch takes a prefix of the FIFO in order and reports all of it with the status of the table and every field copied, except the last entry when it ended on an error or a flush marker |
| JfcClean.ScanResult | cdma_u_jfc.c:583-586 | how far the scan goes, for every ring state, or that it never stops |
| JfcClean.CompactFilters | cdma_u_jfc.c:588-601 | compacting at most one lap right-aligns the entries whose number fields do not say j in order, moves no phase bit and leaves every other slot alone |
| JfcClean.ScannedPartFiltered | cdma_u_jfc.c:583-607 | a scan that stops inside the window filters what it scanned, advances the index by the number removed and rings the doorbell if there was any |
| JfcClean.CleanFiltersAwayFromEnd | cdma_u_jfc.c:583-607 | unless the outstanding window ends exactly at the ring end, a clean filters the part it scans, stably and in place, and leaves the part it does not scan pending as it was |
| JfcCleanExact.CompactOverrun | cdma_u_jfc.c:588-601 | what a compaction of one slot more than the ring leaves: the kept entries, rotated by one |
| JfcCleanExact.CleanFiltersExactly | cdma_u_jfc.c:583-607 | a clean loses nothing and filters what it scans if and only if the ring is in a safe state (a condition on the ring before the call) |
| JfcCleanExact.CleanDivergesExactly | cdma_u_jfc.c:583-586 | the scan never stops if and only if the window ends at the ring end and `ci + cnt + 1 == 2^32` |
| JfcCleanAll.CleanRemovesAllExactly | cdma_u_jfc.c:563-610 | a clean removes every pending entry whose number fields say j, keeps all others in order and advances the index by the number removed, if and only if a condition on the ring before the call holds, given state by state; equivalently, if the clean is safe and the unscanned part holds no entry of the queue |
| JfcCleanAll.UnscannedStays | cdma_u_jfc.c:583-586 | what the scan does not reach is pending as before, entries of the cleaned queue included |
| JfcCleanAll.WrapKeepsAnEntry | cdma_u_jfc.c:583-586 | on a ring of any size: a wrapped window of two entries of which the clean leaves the second, of the cleaned queue, pending |
| JfcCleanAll.OverrunRunsPast | cdma_u_jfc.c:583-607 | one outstanding entry of another queue in the last slot and consumed entries of the cleaned queue elsewhere: the index advances by a whole lap less one |
| JfcCleanAll.OverrunLosesAnEntry | cdma_u_jfc.c:583-607 | on a ring of any size: in its first lap that overrun loses the outstanding entry, and beyond two slots leaves the index ahead of the producer |
| JfcCleanAll.OverrunOf64 | cdma_u_jfc.c:47-48 | the same on the smallest ring that is created: 64 entries produced, consumer index 126 |
| JfcRuns.WriteStep | cdma_u_jfc.c:181-184 | a device write appends to the pending entries and touches neither doorbell nor consumer position |
| JfcRuns.PollStep | cdma_u_jfc.c:483-509 | a polling call takes a prefix of the pending entries; it leaves the doorbell at the present position exactly when it reported something, else untouched |
| JfcRuns.CleanMoves | cdma_u_jfc.c:563-610 | a safe clean drops the entries of the queue from the scanned part of the pending ones and rings the doorbell exactly when it freed something |
| JfcRuns.CleanFreesExactly | cdma_u_jfc.c:563-610 | among safe cleans exactly the complete ones leave no pending entry of the queue |
| JfcRuns.DeleteStep | cdma_u_jfs.c:159-189 | deleting a queue after a complete clean leaves no pending entry that names it |
| JfcRuns.RunConserves | cdma_u_jfc.c:483-610 | over all runs of writes, polls, safe cleans and deletions: taken then pending is what was written, in order, for every queue not cleaned; the doorbell is the initial word if nothing rang it, else the truncated position right after the last ring, which lies between the first and the present consumer position |
| JfcRuns.RunIsFifo | cdma_u_jfc.c:318-344 | over all runs without cleans: taken then pending is exactly the sequence written |
| JfcRuns.RunTakes | cdma_u_jfc.c:318-344 | over all runs, polls only take entries of queues that exist, and none of a number that is neither pending nor written |
| JfcRuns.CleanedIsNeverPolled | cdma_u_jfc.c:563-610 | after a complete clean and with no later device write for the queue, no poll of any run takes an entry of it |
| JfcRuns.DeletedIsNeverFollowed | cdma_u_jfs.c:159-189 | after a queue is deleted with a complete clean, no poll of any run follows a reference to it |
| Jfc.CompletionQueue.GetNextCqe | cdma_u_jfc.c:165-187 | the slot found in the array is the one the specification names, or none |
| Jfc.CompletionQueue.TakeEntry | cdma_u_jfc.c:324-328 | taking an entry moves the consumer index by one exactly when there is an entry, and nothing else |
| Jfc.CompletionQueue.PollOne | cdma_u_jfc.c:318-344 | new state of ring and all send queues, and the record, are those of the specification |
| Jfc.CompletionQueue.PollEntries | cdma_u_jfc.c:497-501 | the loop writes the records of the specification to the front of the output, and stops where it does |
| Jfc.CompletionQueue.PollJfc | cdma_u_jfc.c:483-509 | whole new state, records and return value of a polling call, doorbell included |
| Jfc.ParseEntry | cdma_u_jfc.c:286-316 | moves, looks up and steps the one send queue named, as specified for valid, invalid and flush entries |
| Jfc.CompletionQueue.ScanEnd | cdma_u_jfc.c:583-586 | the scanning loop ends where the specification says, or is found to loop for ever |
| Jfc.CompletionQueue.Sweep | cdma_u_jfc.c:588-601 | the downward loop with its signed 32-bit test is the specified compaction of the array, and counts what it freed |
| Jfc.CompletionQueue.CleanJfc | cdma_u_jfc.c:563-610 | whole new state of the clean; it hangs, it loses nothing, and it removes every pending entry of the queue, exactly under the three conditions proved above |
| Jfc.CreateJfc | cdma_u_jfc.c:41-64 | null exactly when buffer or doorbell cannot be had; a created queue is valid, empty, has at least the asked depth and at least 64 entries, in a buffer of the exact size, whatever the recycled doorbell word holds |
| Sqe.BlockCountIsCeiling | cdma_u_jfs.c:48-53 | the wrapping 32-bit formula is the exact ceiling for both control lengths, zero entries included |
| Sqe.AcceptedExactly | cdma_u_jfs.c:191-225 | which requests pass the checks, opcode by opcode, in the limits 11 and 6 and the lengths 4, 8 and 16 |
| Sqe.BufferHoldsExactly | cdma_u_jfs.c:531-535 | an accepted request fits the four-block buffer if and only if it has at most 13 entries of non-zero length, and only plain writes can have more |
| Sqe.SmallQueuesFit | cdma_u_jfs.c:209-225 | in a queue of at most 13 entries per request every accepted request fits |
| Sqe.RequestFits | cdma_u_jfs.c:476-502 | an accepted request takes 1 to 4 blocks, no more than the per-request maximum computed at creation, and all its words fit them, atomic operands included, for queues of any entry limit |
| Sqe.Word0Fields | cdma_u_jfs.h:36-47 | the bit-fields of the first word do not disturb each other, whatever block index is patched in |
| Sqe.HeaderDecodes | cdma_u_jfs.h:36-62 | every header field reads back, the remote side as the fields of the request give it, whatever follows the header and whatever block index was patched in |
| Sqe.AtomicDecodes | cdma_u_jfs.c:349-429 | atomic operands of 4, 8 or 16 bytes read back, swap before compare |
| Sqe.NotifyDecodes | cdma_u_jfs.c:286-296 | notify token, value, address and data read back |
| Sqe.TransfersAreKept | cdma_u_jfs.c:247-256 | skipping zero-length entries leaves exactly the entries that move data, in order |
| Sqe.PatchedExactly | cdma_u_jfs.c:604-608 | the index patched in goes to the low half of the first word and nothing else changes |
| Sqe.OpDecodes | cdma_u_jfs.c:431-449 | the operation part of any accepted request decodes to its meaning |
| SqeStream.RequestDecodes | cdma_u_jfs.c:451-502 | the block count found from the first block alone is the one posted, and the request decodes to its meaning |
| SqeStream.RemoteDecodes | cdma_u_jfs.c:274-417 | the remote side on the wire is the destination entry of an atomic, the first source entry of a read, the first destination entry of a write or notify |
| SqeStream.ParseInvertsPrint | cdma_u_jfs.c:235-502 | parsing the blocks of any list of accepted requests gives back the list of their meanings |
| SqeFill.SetCtl | cdma_u_jfs.c:457-466 | the field-by-field stores make the specified header words, without remote part |
| SqeFill.SetRemote | cdma_u_jfs.c:274-284 | the stores for the remote side and the entry count complete the header and leave the tail alone |
| SqeFill.FillMultiSge | cdma_u_jfs.c:235-259 | zero-length entries are dropped, the others packed in order, nothing beyond them written |
| SqeFill.FillWrite | cdma_u_jfs.c:261-299 | the buffer is header, notify words and entries of a write or notify request, zero elsewhere |
| SqeFill.FillRead | cdma_u_jfs.c:301-335 | the same for a read, with the roles of the lists swapped |
| SqeFill.FillCas | cdma_u_jfs.c:349-390 | refused exactly for lengths other than 4, 8, 16; otherwise swap operand then compare operand |
| SqeFill.FillFaa | cdma_u_jfs.c:392-429 | refused exactly for lengths other than 4, 8; otherwise the operand |
| SendQueue.OverflowIsExact | cdma_u_jfs.c:504-508 | the wrapping room test is the exact one on the true counters |
| SendQueue.OwnerIsLapParity | cdma_u_jfs.c:458 | the owner bit is set exactly on even laps of the true position |
| SendQueue.TagIsContext | cdma_u_jfs.c:576-577 | each block of a logged request is tagged with the context its caller gave |
| SendQueue.OverlayAt | cdma_u_jfs.c:510-529 | after a split copy block j sits at slot `(pi + j) % cnt` and every other slot within a lap is unchanged |
| SendQueue.OverlayMirrors | cdma_u_jfs.c:510-529 | a copy that passed the room test touches no outstanding slot |
| SendQueue.PostOneKeeps | cdma_u_jfs.c:531-582 | a post that is taken keeps the ring invariant and extends the log by exactly that request |
| SendQueue.RefusedExactly | cdma_u_jfs.c:531-582 | a post is refused with -22 exactly for an unacceptable request, and with -12 exactly when an acceptable one does not fit |
| SendQueue.PostPrefixLogs | cdma_u_jfs.c:634-642 | posting a list logs exactly the requests before the first refused one, in order; that one leaves no trace |
| SendQueueProps.RingParses | cdma_u_jfs.c:510-529 | from any outstanding boundary to the producer position the parser recovers the accepted requests, ring end or not |
| SendQueueProps.PatchKeeps | cdma_u_jfs.c:604-608 | writing the producer index into the newest one-block request keeps the invariant |
| SendQueueProps.DirectIsSound | cdma_u_jfs.c:644-652 | when the direct path is chosen one request was accepted, it has one block, that block is the only outstanding one, and the pointer is at it, whichever request raised the flag |
| SendQueueProps.WantsDirectExactly | cdma_u_jfs.c:557-558 | a request asks for the direct path exactly when the device offers it and the request is an accepted plain read or write with at most one entry that moves data, which are the accepted requests of one block |
| SendQueueProps.FlagMeans | cdma_u_jfs.c:557-558 | the flag is raised exactly when the device offers the path and some request the call looked at, taken or refused for lack of room, is such a one |
| SendQueueProps.NeverDirectUnoffered | cdma_u_jfs.c:557-558 | a device that does not offer the path is never sent a block directly |
| SendQueueProps.DirectExactly | cdma_u_jfs.c:644-652 | the direct path is chosen if and only if the device offers it, one request was accepted, one block is outstanding on the true counters, and some request looked at fits one block |
| SendQueueProps.NoticeExactly | cdma_u_jfs.c:604-652 | what the device is told after something was accepted: the block exactly in that case, with the low half of the producer position in it, else the doorbell with the producer position |
| SendQueueProps.AnnounceKeeps | cdma_u_jfs.c:604-652 | either way of announcing keeps the invariant and the meaning of every request, and carries the new producer position |
| SendQueueProps.OutstandingBound | cdma_u_jfs.c:66-72 | outstanding requests account for all outstanding blocks |
| SendQueueProps.DepthGuarantee | cdma_u_jfs.c:66-75 | with fewer than d requests outstanding a valid request is never refused for lack of room |
| Jfs.SetSqe | cdma_u_jfs.c:451-474 | the scratch buffer holds the printed request, or EINVAL exactly for an unsupported atomic length |
| Jfs.CopyToSq | cdma_u_jfs.c:510-529 | ENOMEM and nothing written, or the two-part copy that makes one overlay at the producer slot |
| Jfs.FillWrid | cdma_u_jfs.c:576-577 | the context goes to every block of the request, around the ring |
| Jfs.Commit | cdma_u_jfs.c:569-579 | pointer, contexts and index advance together and keep agreeing |
| Jfs.PostOneWr | cdma_u_jfs.c:531-582 | whole new state of one post; a refused request changes nothing; the direct flag is raised before the room test, exactly for an offered path and an accepted request that fits one block |
| Jfs.PostAll | cdma_u_jfs.c:634-642 | the loop stops at the first refused request with the state of the prefix before it |
| Jfs.Tell | cdma_u_jfs.c:644-652 | nothing, the doorbell, or the patched block, as specified |
| Jfs.PostSqWr | cdma_u_jfs.c:622-657 | prefix atomicity on the object: log, return value and failing request, with the ring invariant; the notice is quiet exactly when nothing was accepted, direct exactly under the condition above, and carries the producer position |
| Jfs.SizingFitsExactly | cdma_u_common.c:41-42 | rounded block count times block size stays below 2^32 if and only if at most 2^25 blocks are needed |
| Jfs.CreateSq | cdma_u_jfs.c:55-83 | a created queue satisfies the ring invariant with an empty log has room for `depth` requests of the largest size in a buffer of the exact size, and records the blocks of such a request |
| QueueRuns.TellReady | cdma_u_jfs.c:644-652 | when the direct path was chosen, the remembered slot is still that of the one outstanding block when the block is sent |
| QueueRuns.CopyKeeps | cdma_u_jfs.c:510-529 | copying with a consumer index loaded earlier keeps the invariant, however far the poller has moved since |
| QueueRuns.MoveReaches | cdma_u_jfc.c:189-204 | a poll of a reported block moves the index exactly to it and finds its context |
| QueueRuns.StepKeeps | cdma_u_jfs.c:622-657 | every step of poster, device and poller keeps the whole invariant |
| QueueRuns.FreshIsGood | cdma_u_jfs.c:41-46 | a fresh pair of queues satisfies it |
| QueueRuns.RunIsSafe | cdma_u_jfs.c:504-582 | in every run: counters in order, outstanding blocks and contexts intact and readable, nothing accepted left unannounced after a call; every reported context is the right one, in order and once |
| QueueRuns.StepProtects | cdma_u_jfs.c:510-529 | no step overwrites an outstanding block or context, except the block index the direct path patches in |
| QueueRuns.ToldIsPosted | cdma_u_jfc.c:303 | in every safe state, whatever was handed out for a block is the context given with its request |
| QueueRuns.StepsMakePoll | cdma_u_jfc.c:318-344 | the two halves of a poll, with nothing in between, are the poll of the completion queue, context included |
| QueueRuns.StepsMakePost | cdma_u_jfs.c:563-579 | copy, fill and index update together are the sequential post |
| SwDoorbell.BitmapAlloc | cdma_u_db.c:17-33 | all bits start free, tail bits included |
| SwDoorbell.FfsIsLowest | cdma_u_db.c:101 | the find-first-set result is the lowest set bit |
| SwDoorbell.BitmapUseIdx | cdma_u_db.c:88-112 | fails exactly when no slot below the count is free; otherwise takes the lowest and flips only that bit |
| SwDoorbell.BitmapFreeIdx | cdma_u_db.c:114-126 | frees exactly one bit; an index outside changes nothing |
| SwDoorbell.SearchSucceeds | cdma_u_db.c:136-148 | where the result of the search is ignored it cannot fail |
| SwDoorbell.TakeSlot | cdma_u_db.c:145-148 | the page gains exactly one address that was not live and its count stays right |
| SwDoorbell.Context.LinkFront | cdma_u_db.c:63-67 | the pointer updates put the page in front of a list linked in both directions |
| SwDoorbell.Context.AddDbPage | cdma_u_db.c:40-77 | a new page is in front with nothing live on it; on failure nothing changes |
| SwDoorbell.Context.LivesDisjoint | cdma_u_db.c:147 | different pages hand out different addresses |
| SwDoorbell.Context.AllocSwDb | cdma_u_db.c:128-153 | the live set grows by exactly one fresh 64-byte aligned address inside a page; null exactly when all pages are full and none can be had; a new page is taken only when all are full |
| SwDoorbell.Context.UnlinkPage | cdma_u_db.c:174-180 | the pointer updates leave exactly the list without that page, in both directions |
| SwDoorbell.Context.RemovePage | cdma_u_db.c:173-184 | removing an emptied page keeps the invariant and the live addresses of the others |
| SwDoorbell.Context.FreeSwDb | cdma_u_db.c:155-191 | the live set loses exactly that address; an address on no page changes nothing |
| LogRate.StepKeepsBudget | cdma_u_log.c:47-61 | every atomic step of any thread, short of an increment that wraps the counter, keeps the message budget |
| LogRate.RateBound | cdma_u_log.c:39-62 | allowed messages never exceed 5 * (1 + resets), over all interleavings of any length in which no increment wraps the counter |
| LogRate.AllSeeRight | cdma_u_log.c:47-61 | in every run, a thread counts itself in only against a window that holds its time, and tries to replace only one that does not |
| LogRate.SwapExactly | cdma_u_log.c:52-60 | only a thread that saw the present window replaces it, with its own time; one that comes too late loads again |
| LogRate.CallDecides | cdma_u_log.c:39-62 | an undisturbed call resets exactly when its time is before the window or at least 5 seconds into it, else is let through exactly if fewer than 5 were counted; and the whole new state |
| LogRate.FreshWithinBudget | cdma_u_log.h:34-37 | the zero-initialised limiter is within budget, for any number of threads |
| LogRate.WrapReopens | cdma_u_log.c:61 | with the budget spent and the counter at its largest value, two more calls in the window break the bound |
| LogRate.BoundBreaks | cdma_u_log.c:39-62 | a fresh limiter reaches that: after 2^31 + 1 calls in one window more than 5 * (1 + resets) messages were allowed |

## Left out

- Commands to the kernel, memory mapping, event waiting and re-arming, the public wrappers and
  front ends, and the unwinding of create and delete: input/output or thin code. Allocation is
  a parameter that says whether memory was obtained and where; mapped memory is zero-filled.
- Locks are modelled by one step per locked region, except that poster and poller hold
  different locks and interleave. Barriers, the doorbell write and the 64-byte copy of the
  direct path are one announce step.
- Addresses are natural numbers, and an entry of the completion ring holds the reference of its
  send queue instead of two halves of a pointer. Words of a completion entry that consumers
  only copy are one field.
- Common.JettyQueue.AllocQueueBuf: requires that rounded count times entry size is at most 2^31
  (no 32-bit overflow in sizing), and an empty context array before the call.
- Common.AlignPower2: requires an argument of at most 2^31; above it the shift of the source
  is undefined.
- Jfc.CreateJfc: requires entries of at least two bytes, which bounds the ring by 2^30 entries;
  the source lays a structure of 64 bytes over each.
- Jfs.CreateSq: requires at most 2^25 blocks, beyond which the sizing product overflows 32 bits
  (Jfs.SizingFitsExactly).
- Sqe.RequestFits: requires a request that fits the scratch buffer of four blocks, as every
  accepted one does except plain writes of more than 13 entries (Sqe.BufferHoldsExactly).
- Jfs.PostSqWr: requires the same of each request of the list that the checks let through.
- QueueRuns.RunIsSafe: requires at most 2^16 blocks, the rings in which the 16-bit index is
  always enough; JfcPoll.IndexRebuiltExactly says what happens in larger ones. Cleans are
  interleaved in JfcRuns only, flush markers pass through without their flag, and the device is
  taken to report announced blocks in increasing order, at most once each.
- JfcRuns.RunConserves: admits cleans in safe states and deletions with complete cleans only;
  JfcCleanExact.CleanFiltersExactly and JfcCleanAll.CleanRemovesAllExactly say exactly which
  those are. The device is taken to write no entry of a queue that was deleted.
- Jfc.CompletionQueue.CleanJfc: a scan that never stops is an out-parameter, and the signed
  test of the downward loop is read as two's complement, where strict C leaves overflow
  undefined.
- Jfc.CompletionQueue.PollJfc: the fields an erroneous poll leaves half-filled in the caller's
  record are not modelled.
- SwDoorbell.Context.FreeSwDb: requires a live address or one on no page; giving back a dead
  address of a live page is outside what the library promises. The page being released is not
  given its decremented count, nor unmapped.
- Common.RoundupIsLeast: arguments from one on; the source never passes zero.
- LogRate.RateBound: a failing clock, which lets every message through, is left out.
- A recycled doorbell word is not cleared by the library, so a new completion queue starts with
  an arbitrary one; the code is followed in this.
- Token identifiers, the path number and the notify token are cut to the widths of their
  fields, as the bit-fields of the source do; the parser therefore returns the cut values.
