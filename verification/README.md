# UFTP block transfer and repair: a verified model

UFTP sends a file to many receivers at once over multicast UDP. The sender cuts the file into sections
and blocks, sends the blocks at a limited rate, and then asks with DONE; each receiver answers with
STATUS packets that carry a bitmap of the blocks it misses, section by section, or with COMPLETE. The
sender resends what was complained about until every receiver has finished or been given up.

This project models that exchange in Dafny and proves what it is for: a receiver that the sender holds to
be done has the file, no complaint is lost on the way, and one lossless round of repair is enough.

`dafny verify dfyconfig.toml` checks everything.

## How it is laid out

Each component has its state and steps as a value with functions on it, which the properties are about, and,
where the program changes an object in place, a class with the program's fields, methods and loops whose
postconditions say that they do what the functions say.

| files | what they hold |
|---|---|
| `Geometry.dfy` | sections, blocks and the index conversions, with their 16-bit fields |
| `NakCodec.dfy` | the bytes of a missing-block bitset and the scan that reads them |
| `Messages.dfy`, `Wire.dfy` | the messages, their bytes, and the in-place byte swapping |
| `Disk.dfy`, `Receiver.dfy`, `ReceiverFacts.dfy` | the receiving task: handlers, posted writes, invariant, reassembly |
| `CountGuard.dfy`, `Feedback.dfy` | the completion test over whole delivery sequences; what a DONE brings back |
| `Sender.dfy`, `SenderSafety.dfy` | the sending task as atomic steps between lock points, and what every interleaving keeps |
| `SenderFaults.dfy` | exactly which runs can fail an assertion, and which leave the sender stuck |
| `RateControl.dfy`, `InitialPass.dfy`, `Progress.dfy` | the byte bucket, the initial pass through it, and how it gets to its end |
| `Repair.dfy` | one lossless round of repair |
| `Packing.dfy`, `Addressing.dfy` | receiver ids spread over packets, and whom DONE and FILE_INFO reach |
| `Protocol.dfy` | the sender, the receivers and the network together |
| `Lossless.dfy` | a whole transfer, from the announcement to the file on disk |
| `Trail.dfy`, `Recovery.dfy` | what every run leaves on the network; repair of one receiver from any reachable world |
| `Losses.dfy` | everything in flight is lost, and every receiver is served all the same |
| `SenderHeeds.dfy`, `SenderJobs.dfy` | how each input bears on each receiver, what ends the file, what is resent; what is scheduled, and when an assertion fails |
| `Refusals.dfy` | what the rate limit refuses is made up for |
| `Offering.dfy` | announcements that are declined, repeated or whose acknowledgement is lost |
| `OnTheWire.dfy` | the packets of every run arrive as they were sent |
| `Registration.dfy`, `AnnounceChain.dfy` | REGISTER, REG_CONF and the count that gates the latter; the way to the transfer |
| `GroupSize.dfy` | the one-byte encoding of a group size |
| `ReceiverTask.dfy`, `SenderTask.dfy`, `Worker.dfy`, `DeliverySession.dfy` | the objects themselves |
| `Common.dfy` | bytes, options, ordered iteration, facts about division |

## How to read it

- A run is a sequence of inputs or steps of any length and in any order; timers, refusals, arrivals and the
  order in which the two threads take the lock are all free. A step that is not enabled changes nothing.
- The network is the set of everything ever sent. Anything in it may be delivered at any time, any number of
  times, or never. Where everything on its way is to be lost for good, the set is emptied.
- A fault is a failed assertion, a division by zero or an access outside a bitset or buffer. The program
  defines nothing after it, so a faulted task does nothing more. Where the properties exclude a fault they say so.
- `log` in the sender's state and `confirmed` in the session's are history, for stating properties; the program has no such fields.
- The end-to-end properties assume what the program needs: 0 < size < 2^32, a section count that fits 16 bits,
  room for at least one receiver id in a packet (block_size >= 4), a nonzero file id.

## Where the program does not do what it seems to mean

- A section of which nothing has arrived gets an empty bitset when a DONE asks for it
  (`receiver/detail/file_receive_task.cpp:456-457`). The STATUS is then empty and the sender ignores it, and the
  next block of that section is marked outside the bitset. `Feedback.FeedbackIsExactIff` and
  `Feedback.ReportedUnseenFaults` say exactly when.
- `count` has 32 bits and wraps. Below 2^32 deliveries to a section the completion test is exact
  (`CountGuard.GuardNeverHides`); at 2^32 it can miss completion (`CountGuard.WrapHidesCompletion`).
- The section count is cut to 16 bits and an empty file divides by zero (`Geometry.LearnPartitionsIff`).
- The high word of the size is masked and not shifted (`sender/detail/file_send_task.cpp:103`), so it is always
  zero on the wire (`Wire.SizeDecodesModulo`).
- The loops at `sender/detail/file_send_task.cpp:163`, `173` and `268` work on copies and change no receiver,
  contrary to their comments; the model has them change nothing.
- If the last block of a repair pass is refused and no NAK has come in, the phase moves on, no DONE is posted and
  the sender is stuck (`SenderSafety.RepairPassPostsDoneIff`, `SenderFaults.RefusedLastBlockStalls`). If NAKs have
  come in, the pass goes round again while the refused block is kept or the job that resumes it is posted. These are
  exactly the runs from which an assertion can fail, the one at `sender/detail/file_send_task.cpp:352` by a further
  refusal or the one at line 404 by a refused DONE (`SenderFaults.SmoothRunsNeverFault`,
  `SenderFaults.RefusedRewindCanFault`, `SenderFaults.KeptRewindFaultsAtDone`); both states are reached
  (`SenderFaults.StallIsReached`, `SenderFaults.RefusedRewindIsReached`).
- A receiver that registers between the refusal of a REG_CONF and the next room in the bucket is not confirmed
  (`Registration.GateIsSoundIff`). The refusal also ends the announcing, and the transfer is never entered
  (`Registration.RefusalEndsAnnouncing`, `Registration.LateReceiverIsForgotten`).
- In a closed group the ANNOUNCE goes out without the handler that schedules what follows
  (`sender/detail/files_delivery_session.cpp:144-145`), so no round and no transfer come after it;
  the runs of the model include those in which they do.
- Silence is only ever counted against receivers that have not answered DONE at all. One that has complained once
  and then falls silent is never given up, and the file is never finished (`SenderHeeds.ComplainerIsNeverGivenUp`).
- A transfer speed below 80 bytes a second makes the bucket's size zero (`sender/detail/worker.cpp:25`), and nothing
  is ever sent (`Progress.NothingWithoutBucket`).
- With a robustness factor of zero no round of REG_CONF is ever held, and the transfer is never entered
  (`AnnounceChain.NoTransferWithoutRounds`).
- From 98437500 on a group size's exponent needs a fourth bit, which falls on the mantissa (`GroupSize.ErrorBoundIff`).
- COMPLETE is sent when the last write has been posted, not when it has been done. The end-to-end property
  therefore speaks of what is written once the posted jobs have run.

## Model

| member | source | states |
|---|---|---|
| `Protocol.DoneMeansDelivered` | sender/detail/file_send_task.cpp:586-627 | End-to-end safety: in every run of one sender and any receivers over a network that loses, repeats and reorders packets, a receiver that the sender holds to be done has finished, and either never opened the file (it rejected it or had it already) or what it has written is the source byte for byte and closed; when its file thread has caught up, so is the file on disk |
| `Protocol.FinishedMeansDelivered` | sender/detail/file_send_task.cpp:410-470 | When the file is declared finished in the data phase, each receiver that counts as done has the source byte for byte, and none is active or has NAKs outstanding |
| `SenderHeeds.FinishedMeansServed` | sender/detail/file_send_task.cpp:439-470 | If silence is an error and the file has not failed, then once the file is declared finished in the data phase, every receiver that answered its announcement and did not abort is settled, with the source written byte for byte and closed or the file never opened: none is given up |
| `Losses.LossesAreMadeGood` | sender/detail/file_send_task.cpp:410-470 | Losses are made good: in any reachable world in which the sender waits for answers, with rounds left if a receiver is silent, and in which every receiver not given up, finished or not, has opened the file, has seen every section and has no complete section hidden by a wrapped count, let everything on the network be lost; from that very world a run leads to one in which all these receivers are done, nothing is left to their file threads, the source is on their disks in closed files, and the file has since been declared complete |
| `Recovery.RepairSucceeds` | sender/detail/file_send_task.cpp:410-470 | From any reachable world in which the sender waits for answers, a receiver that it has not given up, finished or not, has opened the file and seen every section, and no other receiver's silence is an error, a run leads to a world in which the sender holds that receiver to be done, nothing is left to its file thread, and the source is on its disk in a closed file, whatever the other receivers have got |
| `Lossless.TransferSucceeds` | sender/detail/file_send_task.cpp:193-234 | From every start with one receiver a run, on a network that loses nothing, leads to a world in which the sender holds the receiver to be done and has declared the file complete, no job is left to the receiver's file thread, and the source is on its disk in a closed file |
| `Offering.DecliningSucceeds` | receiver/detail/file_receive_task.cpp:171-193 | From every start with one receiver that has the file on disk already or does not accept it, a run leads to a world in which the sender, still announcing, holds the receiver to be done and the file to be complete, and the receiver never opened the file |
| `Offering.LostAckIsMadeGood` | receiver/detail/file_receive_task.cpp:195-200 | Take any reachable world in which a receiver has opened the file and the sender, still announcing, has not heard so, and let everything on the network be lost: a run leads on to a world in which the receiver counts as active and nothing else has changed |
| `Trail.RunsAreDocumented` | sender/detail/file_send_task.cpp:293-408 | In every run that starts with no NAKs outstanding: every block logged as sent and every block that has arrived anywhere is on the network as the sender's own packet, every STATUS comes from a receiver that a DONE has named, and so does every receiver that has NAKs outstanding, and every active one while the sender waits |
| `Protocol.RunsAreSound` | sender/detail/file_send_task.cpp:193-627 | The system invariant of every run: only true FILE_INFO, FILE_SEG, DONE and STATUS packets are ever on the network, every receiver is untouched, declined, faulted or a faithful copy in progress, and a COMPLETE comes only from a finished receiver |
| `Protocol.EmittedTruthful` | sender/detail/file_send_task.cpp:298-376 | Every FILE_SEG the sender emits carries the section, block and bytes of a block of the source that exists, whatever interleaving led to it; every DONE names the file and a section that exists |
| `Protocol.StepInRange` | sender/detail/file_send_task.cpp:193-288 | No step of either thread puts a block number at or above the block count into the NAK sets, in flight or aside |
| `Protocol.DoneOnlyByComplete` | sender/detail/file_send_task.cpp:511-549 | The only steps that make a receiver done are the arrival of a COMPLETE of its own and, while announcing, of a FILE_INFO_ACK of its own whose done bit is set |
| `Protocol.DoneReply` | receiver/detail/file_receive_task.cpp:330-368 | A receiver in any state it can reach answers DONE with true STATUS packets of its own, sends COMPLETE only once finished, never faults on it and never stops being finished |
| `Protocol.FileSegReply` | receiver/detail/file_receive_task.cpp:289-326 | A delivery of a true block leaves every receiver in one of its sound states: finished receivers stay finished, and one that is receiving stays a faithful copy or faults |
| `Protocol.FileInfoReply` | receiver/detail/file_receive_task.cpp:73-204 | Announcing starts a faithful reception with the sender's own geometry, computed from the size on the wire, or ends in a finished, unopened task |
| `Offering.FileInfoLearned` | receiver/detail/file_receive_task.cpp:84-193 | A receiver that waits and is named learns file id and size, counts no section as complete, and answers by acknowledging, by COMPLETE, or by a COMPLETE that rejects, as its file system says; it faults exactly if there is nothing to be divided or a multiple of 2^16 sections |
| `Offering.FileInfoAnsweredIff` | receiver/detail/file_receive_task.cpp:195-208 | At any other time a FILE_INFO changes nothing, and is answered, by the same acknowledgement again, if and only if it names the receiver and the very file that it is receiving |
| `Geometry.LearnPartitionsIff` | detail/file_transfer_base.cpp:7-15 | The computed sections hold all the blocks, each is nonempty and none exceeds min(8*block_size, 65535), if and only if the file is not empty and the section count fits its 16 bits |
| `Geometry.LearnIsValid` | detail/file_transfer_base.cpp:7-15 | A nonempty file whose section count fits 16 bits gets a geometry in which nothing was truncated |
| `Geometry.LearnIsTight` | detail/file_transfer_base.cpp:7-15 | Such a file is cut into as few blocks as hold it, these into as few sections as hold them with at most 8*block_size and at most 65535 blocks each, the larger sections come first, and none has more than one block more than another |
| `Geometry.WideCountIsLeast` | detail/file_transfer_base.cpp:10-11 | The blocks of a file fit into c sections of at most 8*block_size and at most 65535 blocks each if and only if c is at least the section count, before it is cut to 16 bits |
| `Geometry.ValidPartitions` | detail/file_transfer_base.cpp:48-53 | Section sizes add up to the block count, are positive, differ by at most one, and each section's NAK map fits in block_size bytes |
| `Geometry.PairRoundTrip` | detail/file_transfer_base.cpp:26-47 | For every (section, block) that names a block, the absolute index is below the block count and converts back to the pair |
| `Geometry.AbsRoundTrip` | detail/file_transfer_base.cpp:26-47 | Every absolute index below the block count converts to a pair that names a block and back to itself |
| `Geometry.AbsOrderIsLexicographic` | detail/file_transfer_base.cpp:40-47 | Absolute order is the lexicographic order of (section, block) |
| `Geometry.AbsIsOffset` | detail/file_transfer_base.cpp:40-47 | A section starts where the sizes of the sections before it end |
| `Geometry.BlocksTile` | sender/detail/file_send_task.cpp:326-339 | Blocks at multiples of block_size are nonempty, stay inside the file, abut each other, and the last one ends with the file |
| `Geometry.ByteHasBlock` | sender/detail/file_send_task.cpp:326-339 | Every byte position of the file lies inside a block |
| `ReceiverTask.FileTransferBase.OnFileSizeLearned` | detail/file_transfer_base.cpp:7-15 | Assigns the geometry fields, 16-bit truncations included, as the specification says; reports a division by zero exactly when the specification has no geometry |
| `ReceiverTask.FileTransferBase.ShareOut` | detail/file_transfer_base.cpp:11-15 | Sharing blocks out over a truncated section count assigns the fields of the specified geometry |
| `NakCodec.ExtractLostBlocksIds` | detail/message.cpp:75-111 | The scan that skips zero words, with its tail, finds for every map length and for words of four and of eight bytes the same ids as a bit-by-bit scan |
| `NakCodec.ScanWord` | detail/message.cpp:85-98 | A word is skipped only if none of its bits is set; otherwise exactly its set bits are added |
| `NakCodec.ScanByte` | detail/message.cpp:90-95 | Exactly the set bits of one byte are added |
| `NakCodec.WordIsZeroIff` | detail/message.cpp:86-86 | A native word is zero exactly if all its bytes are |
| `NakCodec.BitOfPacked` | receiver/detail/file_receive_task.cpp:455-458 | Bit i of the bytes written out for the missing-block bitset is bit i of the bitset, and zero past its end |
| `NakCodec.ScanOfPacked` | detail/message.cpp:75-111 | Scanning the bytes of a missing-block bitset of up to 2^16 bits gives back exactly the missing blocks |
| `NakCodec.ScanIff` | detail/message.cpp:75-111 | A bit-by-bit scan finds an id if and only if some set bit has that position, cut to 16 bits |
| `ReceiverFacts.CompleteIsSource` | receiver/detail/file_receive_task.cpp:295-324 | Reassembly: once every section is marked complete, the written file is the source byte for byte, whatever the order and repetition of the deliveries and with a short last block |
| `ReceiverFacts.DataBlockKeeps` | receiver/detail/file_receive_task.cpp:289-326 | Delivering any block of the source, new or repeated, keeps the receiver's invariant: what has arrived is on disk at its place or about to be, unless the delivery faults |
| `ReceiverFacts.DeliveryMarks` | receiver/detail/file_receive_task.cpp:308-324 | A delivery marks exactly its own block as arrived and posts its write; it faults if and only if the section's bitset is the empty one left by a report |
| `ReceiverFacts.StrayBlockFaultsIff` | receiver/detail/file_receive_task.cpp:308-324 | A block of a section that the file does not have is an access out of range if and only if its number is at least the smaller section size, or that size is one |
| `ReceiverFacts.WriteKeepsBlocks` | receiver/detail/file_receive_task.cpp:302-306 | A write at index*block_size puts its block in place and disturbs no other block |
| `Disk.ClosedIsFinal` | receiver/detail/file_receive_task.cpp:340-357 | Nothing that is posted changes a file that has been closed |
| `ReceiverFacts.FileThreadKeeps` | receiver/detail/file_receive_task.cpp:302-306 | Running posted writes one by one changes nothing about what will have been written |
| `ReceiverFacts.DoneKeeps` | receiver/detail/file_receive_task.cpp:330-368 | DONE keeps the invariant, and is answered by COMPLETE only when every section is complete |
| `ReceiverFacts.DoneIsAnswered` | receiver/detail/file_receive_task.cpp:330-368 | A DONE that does not concern the receiver changes nothing. One that does is answered by COMPLETE exactly when every section is complete, as often as it comes, and what is written is then closed; otherwise by one STATUS for each unfinished section up to the one it names, in ascending order, and it faults exactly if the file has no such section |
| `ReceiverFacts.ReportKeeps` | receiver/detail/file_receive_task.cpp:362-368 | Reporting sections changes no record but for adding empty ones for sections not seen, and never overruns a packet |
| `ReceiverFacts.ReportOverrunsIff` | receiver/detail/file_receive_task.cpp:444-459 | A report overruns its packet, and is then not sent, if and only if the section's bitset has more bits than a block has |
| `ReceiverFacts.AcceptStarts` | receiver/detail/file_receive_task.cpp:84-187 | Accepting a file announced with its true size opens an empty file and starts with the invariant in place |
| `CountGuard.BookkeepingIsExact` | receiver/detail/file_receive_task.cpp:308-324 | After any deliveries no access has faulted, the bitsets are the exact complement of what arrived, the counts are the numbers of deliveries modulo 2^32, and a section is marked exactly if it was once seen complete |
| `CountGuard.GuardNeverHides` | receiver/detail/file_receive_task.cpp:317-323 | With fewer than 2^32 deliveries to a section, it is marked complete if and only if every one of its blocks has arrived |
| `CountGuard.DistinctAtMostDeliveries` | receiver/detail/file_receive_task.cpp:318-319 | The distinct blocks received of a section are never more than the deliveries counted for it |
| `CountGuard.WrapHidesCompletion` | receiver/detail/file_receive_task.cpp:318-323 | At 2^32 deliveries the guard does hide completion: deliveries are constructed after which all blocks of the section have arrived and it is not marked |
| `Feedback.FeedbackIsExactIff` | receiver/detail/file_receive_task.cpp:362-368 | The union of the NAKs that one DONE provokes is exactly the set of missing blocks if and only if something of every section has arrived |
| `Feedback.FeedbackBlocks` | sender/detail/file_send_task.cpp:566-577 | Mapped to absolute numbers at the sender, exact feedback is exactly the missing blocks' numbers, all below the block count |
| `Feedback.UnseenIsSilent` | receiver/detail/file_receive_task.cpp:456-457 | A section of which nothing has arrived has no bits to report |
| `Feedback.ReportedUnseenFaults` | receiver/detail/file_receive_task.cpp:317-317 | After a DONE, the next block of a section is written outside an empty bitset if and only if nothing of that section had arrived |
| `ReceiverTask.FileReceiveTask.constructor` | receiver/detail/file_receive_task.cpp:18-22 | A new task waits for FILE_INFO with nothing recorded |
| `ReceiverTask.FileReceiveTask.OnFileInfoReceived` | receiver/detail/file_receive_task.cpp:73-204 | The fields and the reply after FILE_INFO are those of the specification, for each answer of the file system; a zero divisor stops the task |
| `ReceiverTask.FileReceiveTask.OnDataBlockReceived` | receiver/detail/file_receive_task.cpp:289-326 | The fields after a block, with its posted write, are those of the specification, out-of-range accesses included |
| `ReceiverTask.FileReceiveTask.OnDoneReceived` | receiver/detail/file_receive_task.cpp:330-368 | The fields and replies after DONE are those of the specification |
| `ReceiverTask.FileReceiveTask.ReportSections` | receiver/detail/file_receive_task.cpp:363-367 | The loop over sections sends and changes what the recursive specification says |
| `ReceiverTask.FileReceiveTask.DoReportStatus` | receiver/detail/file_receive_task.cpp:444-459 | One STATUS with the bitset's bytes; operator[] leaves an empty record behind for a section that has none |
| `ReceiverTask.FileReceiveTask.RunFileThread` | receiver/detail/file_receive_task.cpp:302-306 | Running the oldest posted job leaves what will have been written unchanged |
| `SenderSafety.NoNakIsEverLost` | sender/detail/file_send_task.cpp:235-288 | In every interleaving of STATUS arrivals, lock acquisitions, sends, refusals and timers, every accepted NAK's block has been sent since it arrived, or is in the unsent part of this pass, waits for the next pass, is in the file thread's hand, or is kept for when the bucket has room |
| `SenderSafety.StepKeepsCoherent` | sender/detail/file_send_task.cpp:193-288 | Phase, cursor and file-thread position stay in step: repair passes only run after the last block was picked, and the iterator is unset outside a repair pass and set while a block to be resent is in hand |
| `SenderSafety.LockKeepsBlocks` | sender/detail/file_send_task.cpp:249-288 | The region that moves, swaps and clears the NAK sets drops no block |
| `SenderSafety.CompletesOnlyWhenRepaired` | sender/detail/file_send_task.cpp:410-470 | In the data phase the file is declared complete only by a step after which no receiver is active or has outstanding NAKs |
| `SenderSafety.NoneBecomesActive` | sender/detail/file_send_task.cpp:511-582 | Once data is being sent, no step makes a receiver active again |
| `SenderSafety.NoneActiveAfterRounds` | sender/detail/file_send_task.cpp:410-470 | After more than robust_factor calls of on_wait_receivers_status_end, no receiver is active |
| `SenderSafety.RoundsCountCalls` | sender/detail/file_send_task.cpp:410-440 | While a receiver is active in the data phase, the round counter equals the number of those calls and is at most robust_factor |
| `SenderSafety.RepairPassPostsDoneIff` | sender/detail/file_send_task.cpp:259-276 | At the end of a repair pass without new NAKs, DONE is posted if and only if the pass's last block was not refused |
| `SenderHeeds.StandingFollows` | sender/detail/file_send_task.cpp:492-648 | Every step of either thread makes of every receiver what the input says, and nothing else: done by its COMPLETE for this file while the sender announces or waits, and by its acknowledgement with the done bit while it announces; active by one without it; in need of repair by a STATUS with a set bit unless it is done; aborted by its ABORT; given up at the end of a wait that has used up the rounds, if it is active |
| `SenderHeeds.DoneIff` | sender/detail/file_send_task.cpp:511-627 | In every run the receivers that count as done are exactly those that the sender has heard to be done, by COMPLETE or acknowledgement, with no ABORT or other acknowledgement since |
| `SenderHeeds.FinishesIff` | sender/detail/file_send_task.cpp:410-470 | The file is declared finished by exactly these steps: a COMPLETE after which everybody is done; the end of an announcing after which nobody is to be sent anything; the end of a wait with no NAKs outstanding and nobody silent, or with the rounds used up where silence is no error |
| `SenderHeeds.FailsIff` | sender/detail/file_send_task.cpp:439-458 | The file is declared failed if and only if a wait ends with the rounds used up, some receiver is active, and quit_on_error is set |
| `SenderHeeds.NoneLostUnlessFailed` | sender/detail/file_send_task.cpp:439-458 | With quit_on_error no run gives a receiver up without declaring the file failed |
| `SenderHeeds.ComplainerIsNeverGivenUp` | sender/detail/file_send_task.cpp:438-470 | A receiver that has complained and then falls silent is never given up: no continuation, of however many rounds, declares the file finished |
| `SenderHeeds.AnnouncesAgainIff` | sender/detail/file_send_task.cpp:130-180 | After a FILE_INFO the announcing goes on exactly while rounds are left and somebody has neither opened the file nor declined it; otherwise the transfer starts with the rounds reset, or the file is finished if there is nothing to send or nobody to send to |
| `SenderHeeds.RoundsCountAnnouncements` | sender/detail/file_send_task.cpp:148-158 | In every run the round counter counts the rounds of announcing, of which there are at most one more than the robustness factor unless the file is declared finished for want of anything to send |
| `SenderHeeds.NotedIff` | sender/detail/file_send_task.cpp:552-582 | A block is noted as complained about exactly when a STATUS for this file comes from a known receiver that is not done and has the bit of that block set |
| `SenderHeeds.OnlyComplaintsAreResent` | sender/detail/file_send_task.cpp:235-288 | The other side of NoNakIsEverLost: in every run the records hold, and a repair pass resends, only blocks that an earlier STATUS complained about |
| `SenderJobs.JobsFollow` | sender/detail/file_send_task.cpp:173-180 | Nothing that is posted is lost or runs twice: the pending do_transfer jobs, do_send_done jobs and waits change exactly by what begins - the transfer, a repair, room for what was refused, the end of a pass, a DONE that is taken - and by what runs |
| `SenderJobs.JobFindsNothing` | sender/detail/file_send_task.cpp:193-198 | A do_transfer job that starts while there is nothing to transfer ends and leaves everything else as it is |
| `SenderJobs.FaultsIff` | sender/detail/file_send_task.cpp:349-407 | An assertion fails exactly when a block or DONE is refused while something refused before is still kept, or a kept block is refused again |
| `SenderJobs.RoundsGoRound` | sender/detail/file_send_task.cpp:410-440 | In every run the round counter of the data phase is the number of calls of on_wait_receivers_status_end modulo one more than the robustness factor |
| `Refusals.RefusedBlockIsMadeUp` | sender/detail/file_send_task.cpp:349-361 | A block of the initial pass, or any but the last of a repair pass, that the rate limit refuses is sent when there is room, and the pass goes on with the next one: the task is then in the very state in which it would be had the block been taken |
| `Refusals.RefusedDoneIsMadeUp` | sender/detail/file_send_task.cpp:401-407 | A refused DONE followed by room in the bucket leads to the same state as an accepted one |
| `Refusals.RefusedRepetitionIsMadeUp` | sender/detail/file_send_task.cpp:423-424 | So does a DONE that the end of a wait repeats |
| `SenderFaults.SmoothRunsNeverFault` | sender/detail/file_send_task.cpp:349-360 | No assertion fails in any run in which no repair pass goes round again after a refusal of its last block, given that a bucket with room takes the kept block |
| `SenderFaults.BucketRunsNeverFault` | sender/detail/file_send_task.cpp:472-484 | The same for the task together with its byte bucket, in every phase and whatever is refused, without assuming that the bucket takes the kept block: it does whenever it says that it has room |
| `SenderFaults.RefusedRewindCanFault` | sender/detail/file_send_task.cpp:259-288 | Conversely: after the first such rewind, with the refused block still kept or already resumed, some continuation in which no kept block is offered again fails an assertion |
| `SenderFaults.KeptRewindFaultsAtDone` | sender/detail/file_send_task.cpp:401-406 | With the block still kept, a continuation in which every block is taken ends with a DONE whose refusal fails the assertion that no task is kept |
| `SenderFaults.RefusedRewindIsReached` | sender/detail/file_send_task.cpp:259-288 | For every file of one block with one receiver, runs without earlier failure reach such a rewind, with the block kept and with it resumed |
| `SenderFaults.RefusedLastBlockStalls` | sender/detail/file_send_task.cpp:265-277 | After a refused last block without new NAKs the sender is stuck: in every continuation it stays in the waiting phase, and it never sends a DONE, posts one, or waits for an answer again |
| `SenderFaults.StallIsReached` | sender/detail/file_send_task.cpp:265-277 | For every file of one block with one receiver a run reaches that refusal |
| `Sender.StepKeepsConfig` | sender/detail/file_send_task.cpp:193-627 | No step changes the file, the session parameters or the set of receivers |
| `InitialPass.ExactlyOnceInOrder` | sender/detail/file_send_task.cpp:193-234 | For every pattern of refusals and timer rounds the blocks accepted into the queue are 0, 1, 2, ... without gap or repeat, no assertion fails during the pass, and when the phase moves on all blocks are in |
| `InitialPass.DoneAfterLastBlock` | sender/detail/file_send_task.cpp:225-233 | DONE is posted only when blocks 0..block_count-1 have all been accepted, in order |
| `Progress.PassCanFinish` | sender/detail/file_send_task.cpp:193-234 | The rate limit never stops the initial pass: from wherever a run of task and bucket has brought it, with whatever was refused on the way, moves lead on to its end, with every block of the file on the wire, once and in order, nothing queued, and DONE posted |
| `Progress.NothingWithoutBucket` | sender/detail/worker.cpp:283-303 | With a speed so low that the bucket has size zero, no run sends or queues anything |
| `Repair.OneLosslessRound` | sender/detail/file_send_task.cpp:410-470 | One lossless repair round finishes the file: from any partial reception that has seen every section, with no other receiver silent or the silent ones now given up, if the DONE and the STATUS packets it provokes arrive, then when the wait ends, in any round, the sender sends what was complained about now or set aside before, and nothing else, and posts DONE; and any delivery of what it sent, up to 2^32 to a section, completes every section |
| `Repair.RepairRound` | sender/detail/file_send_task.cpp:235-288 | The sender's side of the round: an unrefused pass, and another for NAKs set aside, sends exactly the recorded blocks and posts DONE |
| `Repair.RoundTripOfNaks` | sender/detail/file_send_task.cpp:552-582 | The DONE changes nothing at the receiver, and its STATUS packets add exactly the missing blocks to the NAK records |
| `Repair.PassSendsAll` | sender/detail/file_send_task.cpp:235-276 | An unrefused repair pass sends each recorded block once, in ascending order, then likewise those set aside meanwhile, and posts DONE |
| `Repair.WaitThenPass` | sender/detail/file_send_task.cpp:431-437 | When the wait ends in a repair, the pass that follows sends exactly the recorded NAKs |
| `Repair.MissingDelivered` | receiver/detail/file_receive_task.cpp:308-324 | Delivering what was missing completes every section, in any order and with any repetition, up to 2^32 deliveries to a section |
| `Repair.TakeAllCollects` | sender/detail/file_send_task.cpp:566-577 | A waiting sender adds exactly the blocks that a sequence of STATUS packets complains about |
| `SenderTask.FileSendTask.constructor` | sender/detail/file_send_task.cpp:13-24 | A new task announces, with nothing picked, complained about or posted |
| `SenderTask.FileSendTask.DoTransfer` | sender/detail/file_send_task.cpp:193-291 | The whole loop, whatever the worker answers and the network thread does while the lock is released, goes through a run of the specified steps: exactly the given turns, with the lock taken in between; so no NAK is lost on the way, and phase, iterator and thread stay in step |
| `SenderTask.FileSendTask.NetworkThread` | sender/detail/file_send_task.cpp:472-627 | Any sequence of acknowledgements, STATUS, COMPLETE, aborts, timers, posted DONEs and room in the bucket takes the fields through the run of the specified steps, and keeps every NAK accounted for |
| `SenderTask.FileSendTask.SendInOrder` | sender/detail/file_send_task.cpp:199-234 | The branch of the initial pass is a run of the specified steps |
| `SenderTask.FileSendTask.Resend` | sender/detail/file_send_task.cpp:235-288 | The branch of the repair pass is a run of the specified steps, and says when it goes round again |
| `SenderTask.FileSendTask.LeaveRepair` | sender/detail/file_send_task.cpp:259-288 | The end of a repair pass: the sets are swapped, and the pass rewinds, moves on or stays as specified |
| `SenderTask.FileSendTask.PickLost` | sender/detail/file_send_task.cpp:238-246 | The block under the iterator is the least one not yet reached, and the iterator moves past it |
| `SenderTask.FileSendTask.OnStatusMsgReceived` | sender/detail/file_send_task.cpp:552-582 | The NAK sets and the receiver's standing after STATUS are those of the specification |
| `SenderTask.FileSendTask.RecordNaks` | sender/detail/file_send_task.cpp:566-577 | The blocks complained about go into the set that the phase calls for, and nothing else changes |
| `SenderTask.FileSendTask.OnCompleteMsgReceived` | sender/detail/file_send_task.cpp:585-627 | The receiver's standing after COMPLETE, and whether the file is then finished |
| `SenderTask.FileSendTask.OnWaitReceiversStatusEnd` | sender/detail/file_send_task.cpp:410-470 | Counts the round and then asks again, repairs, gives up or finishes as specified |
| `SenderTask.FileSendTask.GiveUpReceivers` | sender/detail/file_send_task.cpp:441-453 | The loop marks exactly the active receivers as lost, and reports whether there were any and whether NAKs are outstanding |
| `SenderTask.FileSendTask.LookAtReceivers` | sender/detail/file_send_task.cpp:415-422 | The loop reports whether a receiver is active and whether one has NAKs outstanding |
| `SenderTask.FileSendTask.CountResponses` | sender/detail/file_send_task.cpp:131-146 | The loop reports whether all receivers have answered, none has, and all are done |
| `SenderTask.FileSendTask.AnnounceRoundEnds` | sender/detail/file_send_task.cpp:130-180 | After a FILE_INFO: announce again, start the transfer with the rounds reset, or finish |
| `Addressing.DoneReachesIff` | sender/detail/file_send_task.cpp:385-400 | A receiver finds itself in one of the DONE packets if and only if it is active or has NAKs outstanding |
| `Addressing.DonePacketFits` | sender/detail/file_send_task.cpp:367-376 | Each DONE packet names the file and its last section, its ids fit a block's worth of bytes, and only the last one has room for another |
| `Addressing.FileInfoReachesIff` | sender/detail/file_send_task.cpp:125-128 | A FILE_INFO reaches exactly the receivers that are registered and have not answered |
| `RateControl.RateIsControlled` | sender/detail/worker.cpp:152-172 | Over every history of offers and timer rounds: the stored total is the queued bytes and stays below the bucket size plus one packet; what was sent followed by what is queued is what was accepted, in order; n rounds send at most n*(per_round - 1 + max_packet) bytes |
| `RateControl.SendRoundKeeps` | sender/detail/worker.cpp:162-172 | A round sends a prefix of the queue, stops short of its budget only when the queue is empty, and exceeds it by less than a packet |
| `RateControl.SendPacketKeeps` | sender/detail/worker.cpp:283-303 | A packet is refused exactly when rate control is on and the bucket is full, and otherwise goes to the back |
| `RateControl.TotalIsModulo` | sender/detail/worker.cpp:152-172 | In every history, whatever the sizes of bucket and packets, the stored total is the number of queued bytes modulo 2^32, and so is right exactly below 2^32 |
| `Worker.Worker.constructor` | sender/detail/worker.cpp:16-32 | An empty queue with the bucket and round sizes that the transfer speed gives |
| `Worker.Worker.SendPacket` | sender/detail/worker.cpp:267-304 | The fields after an offer; sent plus queued grows by exactly the packet if it was taken |
| `Worker.Worker.LoopDoRcSend` | sender/detail/worker.cpp:152-195 | The fields after a timer round; sent plus queued is unchanged, and the round stays within its budget plus one packet |
| `Worker.Worker.WriteReceiversId` | sender/detail/worker.cpp:134-150 | The buffer's front holds the ids of the picked receivers of the stretch passed over, its rest is untouched |
| `Worker.Worker.BuildTargetedPackets` | sender/detail/worker.cpp:316-331 | The packets are the packed id lists, numbered on from the header's sequence number modulo 2^16, and the next free number is left behind |
| `Packing.PackIsComplete` | sender/detail/worker.cpp:318-329 | The id lists together are exactly the picked receivers in map order; every list fits and only the last may be short |
| `Packing.FindsItselfIff` | detail/message.cpp:391-398 | A receiver finds its id in some packet if and only if the filter picked it |
| `Packing.NoneListedTwice` | sender/detail/worker.cpp:134-150 | No receiver is listed twice |
| `Packing.NumberedAt` | sender/detail/worker.cpp:324-328 | The k-th packet's sequence number is the first one's plus k modulo 2^16 |
| `Packing.PassedFits` | sender/detail/worker.cpp:143-148 | The ids written fit the buffer, and it is full unless the map has ended |
| `Registration.GateIsSoundIff` | sender/detail/files_delivery_session.cpp:163-198 | Over every run with fewer than 2^32 registrations, a response count of zero means in every state that no non-proxy receiver waits for its confirmation, if and only if no receiver registers between the refusal of a REG_CONF and the moment the bucket has room |
| `Registration.FlagsTellTheHistory` | sender/detail/files_delivery_session.cpp:226-284 | In every run: a non-proxy's confirm_sent is set if and only if a REG_CONF has listed it since the latest REGISTER came from it or for it, a proxy's never is, and a receiver waits to be told if and only if such a REGISTER has come since the latest REG_CONF; both histories are read off the inputs that arrived |
| `Registration.RegisterIsHeard` | sender/detail/files_delivery_session.cpp:226-284 | While announcing, a REGISTER without clients from a source that is no known proxy leaves that receiver waiting to be told, however often it has been told before, and counts it once; one with clients does so for each of them, and makes its source a proxy, unless the source is known and is none; no other member changes, and the count wraps at 2^32 |
| `Registration.ListsWhoAwaits` | sender/detail/files_delivery_session.cpp:174-184 | The REG_CONF packets list exactly the registered, unconfirmed receivers that are not proxies |
| `Registration.ConfirmAgrees` | sender/detail/files_delivery_session.cpp:163-198 | A round that sends leaves nobody waiting, and its marks agree with its packets although they are set before the worker answers; the count is cleared if the worker takes them, and otherwise the round is kept, against an assertion if one is kept already |
| `Registration.RefusalEndsAnnouncing` | sender/detail/files_delivery_session.cpp:118-127 | A refused REG_CONF ends the announcing for good: in every continuation no further REG_CONF is made, no ANNOUNCE follows, the transfer is not entered, and whoever waits to be told goes on waiting, although the bucket gets room |
| `Registration.LateReceiverIsForgotten` | sender/detail/files_delivery_session.cpp:186-198 | A receiver that registers after that, for the first time or again, is, in every continuation, never told that it is registered |
| `Registration.RefusalIsReached` | sender/detail/files_delivery_session.cpp:186-193 | From every start that announces at least once more, a run reaches the refusal |
| `AnnounceChain.AnnouncementsAreCounted` | sender/detail/files_delivery_session.cpp:111-136 | In every run the round counter is the number of ANNOUNCEs that have gone out, a round of REG_CONF is ahead only while there are rounds left, and the transfer is ahead only after exactly one ANNOUNCE more than the robustness factor |
| `AnnounceChain.NeverFaults` | sender/detail/files_delivery_session.cpp:186-193 | In no run does the assertion of do_send_registered_confirm fail: no REG_CONF is refused while an earlier refusal is kept |
| `AnnounceChain.EntersTransferIff` | sender/detail/files_delivery_session.cpp:286-304 | In every run announcing gives way to the transfer exactly when the last ANNOUNCE has been waited for and some receiver has been listed in a REG_CONF since its latest REGISTER came |
| `AnnounceChain.TransferIsReached` | sender/detail/files_delivery_session.cpp:111-136 | Unless the robustness factor is zero, a run in which no REG_CONF is refused leads from every start, with any receiver that registers after the first ANNOUNCE, to the transfer |
| `AnnounceChain.NoTransferWithoutRounds` | sender/detail/files_delivery_session.cpp:118-136 | With a robustness factor of zero no run tells anybody or gets to the transfer |
| `DeliverySession.FilesDeliverySession.HandleAll` | sender/detail/files_delivery_session.cpp:108-198 | Whatever happens during registration, in any order - ANNOUNCE sent, REGISTER, the end of a round, room in the bucket, the end of announcing - takes the fields through a run of the specification, and the flags tell who was put in a REG_CONF since its latest REGISTER and who still waits |
| `DeliverySession.FilesDeliverySession.constructor` | sender/detail/files_delivery_session.cpp:26-36 | A session starts to announce with mute members and nothing counted |
| `DeliverySession.FilesDeliverySession.OnRegisterMsgReceived` | sender/detail/files_delivery_session.cpp:226-284 | The members and the count after a REGISTER, from a receiver or a proxy |
| `DeliverySession.FilesDeliverySession.DoSendRegisteredConfirm` | sender/detail/files_delivery_session.cpp:163-198 | The members, the count and the kept task after a round, and whether announcing goes on |
| `DeliverySession.FilesDeliverySession.PackConfirmations` | sender/detail/files_delivery_session.cpp:174-187 | The packing loop with the filter that marks as it picks: its packets are the packed ids of those who waited, and exactly those are marked |
| `DeliverySession.FilesDeliverySession.WriteAwaiting` | sender/detail/worker.cpp:134-150 | The ids written and the marks made for one packet are those of the stretch of receivers passed over |
| `DeliverySession.FilesDeliverySession.EnterTransferPhase` | sender/detail/files_delivery_session.cpp:286-304 | The transfer starts exactly if a registered receiver has been told so |
| `Wire.BuildThenParse` | detail/message.cpp:345-474 | Wire round trip: FILE_SEG, STATUS, DONE and COMPLETE with any field values and payload, built on a host of either byte order and parsed on one of either, come back unchanged |
| `Wire.BuiltBytes` | detail/message.cpp:345-474 | The bytes of the four messages on the wire, from either host: role 9 to 12, header length 2, big-endian fields, and the payload |
| `Wire.ParsesIff` | detail/message.cpp:345-474 | A packet is taken for one of the four messages if and only if its first byte says so and its header is at least eight bytes long and inside the packet |
| `OnTheWire.PacketsArriveAsSent` | detail/message.cpp:345-474 | In every run of the whole system, with a file id of 16 bits and member ids of 32, each FILE_SEG, DONE, STATUS and COMPLETE on the network fits its fields, and building and parsing it between hosts of any byte order gives the same message |
| `OnTheWire.SegLength` | sender/detail/file_send_task.cpp:300-341 | The length at which the rate control counts a block is that of the protocol header and of the bytes of its FILE_SEG on the wire |
| `Wire.Field16` | detail/message.cpp:370-374 | A 16-bit field is on the wire most significant byte first, whichever host wrote it, and any host reads it back |
| `Wire.IdsField` | detail/message.cpp:391-398 | Receiver ids come back in number, order and value |
| `Wire.ReadyIsBuilt` | detail/message.cpp:370-374 | Swapping the assigned fields in place gives the message on the wire |
| `Wire.FieldsSwapped` | detail/message.cpp:357-359 | The swaps change the header fields, each by itself, and no other byte |
| `Wire.SwapFields` | detail/message.cpp:345-374 | In place, the fields of the message's role are swapped |
| `Wire.ParseInPlace` | detail/message.cpp:345-368 | In place, parsing gives the specified message, or none if role or lengths do not fit |
| `Wire.SizeDecodesModulo` | sender/detail/file_send_task.cpp:103-104 | The size arrives modulo 2^32: exact if and only if it is below 2^32 |
| `GroupSize.ErrorBoundIff` | detail/message.cpp:26-59 | A group size comes back within 16 per cent and a half if and only if it is below 98437500 |
| `GroupSize.ExponentFitsIff` | detail/message.cpp:26-46 | The encoded exponent, carry included, fits its three bits if and only if the size is below 98437500 |
| `GroupSize.CombineIsOr` | detail/message.cpp:43-43 | The byte is mantissa shifted by three, or-ed with the exponent: a fourth bit of the exponent falls on the lowest of the mantissa |
| `GroupSize.CarryError` | detail/message.cpp:37-43 | When the mantissa would take six bits, the carried encoding still keeps the bound |
| `GroupSize.CutOffIsSmall` | detail/message.cpp:43-43 | From 98437500 on the exponent loses a bit and what comes back is below a hundred |
| `GroupSize.MantissaTimesPower` | detail/message.cpp:31-36 | Mantissa times power of ten is the number that was scaled down |
| `GroupSize.QuantizeGroupSize` | detail/message.cpp:26-46 | The loop and the carry compute the specified byte |
| `GroupSize.DequantizeGroupSize` | detail/message.cpp:48-59 | The loop computes the specified size |

## Left out

- Sockets, multicast, timers, threads, strands, interfaces and the file system: delivery, timing, refusal and the file system's answer to an announcement are free inputs; stream errors are not modelled.
- Concurrency below the lock: what a thread does between two lock points is one atomic step. `m_current_block_idx` and `m_reach_eof` are read and written by the file thread alone, so picking a block counts as part of the step before the lock is released.
- `quantize_grtt` and `dequantize_grtt`: they need logarithm and exponential.
- Floating point in the group size: doubles are exact reals.
- Resuming a partly refused group of packets: `m_blocked_packets_params` is not cleared after it (`sender/detail/worker.cpp:183-188`), so a group may be resumed again; the model lets packets of such a group be delivered from the moment they were built, and `InitialPass` assumes there is none.
- Moving between files and ending the session: `do_send_next_file`, a DONE with file id 0, and what a receiver does with a DONE or FILE_INFO that leaves it out or names another file, which starts another task.
- Proxies in the file task (FILE_INFO_ACK, COMPLETE and ABORT on behalf of others); they are modelled in registration.
- Symbolic links, directories, path handling, free space, moving the finished file into place, extensions, encryption, congestion control.
- Announcing: FILE_INFO refused by the worker counts as sent later, and rounds after the file was declared finished are allowed although the program cancels them; so is a second declaration after `on_file_send_complete`.
- Termination of a file: a receiver with NAKs outstanding that falls silent keeps the repair loop going (SenderHeeds.ComplainerIsNeverGivenUp), so only the bounded-round property is stated.
- The rest of the wire format: ANNOUNCE, REGISTER, REG_CONF and FILE_INFO but for its size, timestamps, and the protocol header, from which the sender of a STATUS or COMPLETE is taken.
- Integer overflow in the `int` products of `detail/file_transfer_base.cpp:28-43`, which needs more than 2^31 blocks, is not modelled; for files below 2^32 bytes with blocks of four bytes or more there are fewer.
- Progress reports, listeners, console output, execution units, front ends and build files.
- Geometry.Learn: a zero block size counts as a division by zero along with a zero section count; fields are cut to 16 bits but the block count is unbounded, where the program has 64 bits.
- Packing.Pack: requires room for one id, because without it the program's loop never ends.
- Repair.OneLosslessRound: no send is refused; refusals at the end of a pass are the subject of `SenderFaults.dfy`. If another receiver is silent and rounds are left, the wait ends with another DONE and not with a repair, and if silence is an error it ends the file.
- SenderTask.FileSendTask.DoTransfer: followed for as many blocks as the environment's turns are given, since a run can go on for as long as NAKs keep coming in.
- Worker.Worker.BuildTargetedPackets: the worker's state is only the sequence number here; handing the packets to `send_packet` one by one is not part of it.
- DeliverySession.FilesDeliverySession.HandleAll: a refused ANNOUNCE, which counts as sent later, and its kept packet or task.
- Registration.RefusalEndsAnnouncing: how REG_CONF packets that were kept by the worker are resumed.
- Registration.GateIsSoundIff: the response count wraps at 2^32, so the gate is stated for runs with fewer registrations; round trip times are left out.
- Lossless.TransferSucceeds: one receiver and one order of steps without losses or repair; runs with losses are the subject of Recovery.RepairSucceeds.
- Recovery.RepairSucceeds: it says that the end can be reached, not that it will be, and packets sent before may still arrive on the way; Losses.LossesAreMadeGood is about those that do not. A receiver that has seen nothing of a section is left out of both, for the reason given above.
- Progress.PassCanFinish: it says that the end can be reached; without a transfer speed nothing is refused, and there is nothing to show.
- Refusals.RefusedBlockIsMadeUp: the last block of a repair pass, for which it is false (SenderSafety.RepairPassPostsDoneIff, SenderFaults.RefusedRewindCanFault).
- Losses.LossesAreMadeGood: the run it leads to loses nothing more and refuses no send.
- Protocol.DoneReply: a DONE with file id 0, which ends the session, and one that leaves the receiver out, after which a finished task gives way to the next, change nothing here.
- Protocol.FileInfoReply: directories and symbolic links, and a FILE_INFO that starts the next file.
- Protocol.DoneOnlyByComplete: receivers that a proxy speaks for.
- ReceiverTask.FileReceiveTask.OnFileInfoReceived: regular files only; path, space and timestamp checks are one answer of the file system.
- ReceiverTask.FileReceiveTask.OnDoneReceived: as for Protocol.DoneReply.
- SenderHeeds.StandingFollows: receivers that a proxy speaks for; that COMPLETE also clears `confirm_sent`, which only the registration before the transfer reads.
- SenderTask.FileSendTask.OnCompleteMsgReceived: as for SenderHeeds.StandingFollows.
- SenderTask.FileSendTask.NetworkThread: a proxy's messages for other receivers.
- Addressing.FileInfoReachesIff: the filter also leaves proxies out, which this task's receivers are not.
- Worker.Worker.LoopDoRcSend: the resumption of a kept group of packets before the employer is told (`sender/detail/worker.cpp:183-188`).
- Protocol.DoneMeansDelivered: writes to disk do not fail, receivers use the announced block size, and the session's receivers take part in one file's transfer.
