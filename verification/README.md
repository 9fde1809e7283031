# GenericUSBXHCI: rings and queues

A Dafny model of the lock-free rings and the queues inside the GenericUSBXHCI xHCI host-controller driver, with proofs
of what they are for. `dafny verify dfyconfig.toml` checks everything.

The driver talks to the controller through rings of 16-byte TRBs whose cycle bits say who owns a slot, and to itself
(interrupt context, work loop, callbacks) through intrusive lists and index queues without locks. The model keeps that
form: each object that the driver updates in place is a class with the same fields, each of its functions is a method
with the same branches, and each C++ store to memory that somebody else reads is a separate store here, after which
the other parties take any number of steps.

## What is modelled

**The transfer ring** (`Trb`, `Hardware`, `Runs`, `RingState`, `RingSteps`, `RingWalk`, `Admission`, `TransferRing`,
`TransferSpec`, `Transfers`, `TransferTiling`, `TransferWalk`, `IsochFrames`, `CommandResults`). `Hardware` is the
consumer of xHCI 1.0 section 4.9.2: it stops at a cycle mismatch, follows links, toggles on Toggle Cycle, and executes
everything else. A *route* is the way from the dequeue index to the first TRB that is not published yet; it turns back
to the start of the ring at most once, at the terminal link or at a mid-ring link left by relocation. `Grows` says of
one store that, wherever on the route the controller stands, it afterwards sees what it saw before followed by what
the store published, which is nothing for all stores but one of a fragment. `RingState.Ring.Inv` is the invariant of
the cycle bits. `TransferRings.TransferRing` carries the C++ code (`GetNextTRB` with relocation, `CloseFragment`,
`PutBackTRB`, `CanTDFragmentFit`, `SetTRDQPtr`, `ReinitTransferRing`, `CountRingToED`); its ghost controller `hw` runs
an arbitrary number of steps after every store, and `history` is all that was ever published; `Queue()` are the TRBs
that are pending, and `Order()` the slots they lie in. `Transfers.CreateTransfer` is `_createTransfer` on top of it.

**Asynchronous endpoints** (`AsyncQueue`, `AsyncHistory`, `AsyncSplit`, `AsyncEndpoint`, `AsyncChain`, `AsyncRing`).
`TDQueue` is a head, tail and count triple whose tail's `next` is stale. `AsyncEndpoint` has the four lists and the
whole life cycle of a TD. Its ghost `log` records every TD ever submitted, how many bytes of it the controller has
moved, what the driver has been told of that (nothing, the TD's bytes, or those of the whole transfer), and how many
TDs have passed through `Complete`; `handed` is what the completer was given. `AsyncRings.AsyncRing` puts such an
endpoint on a transfer ring: its invariant says of every scheduled TD where on the ring its TRBs lie, with its last
one at `lastTrbIndex`. A ring is `Clean` when it holds nothing but the TRBs of the scheduled TDs; TRBs of TDs that
were given up while the controller could not be moved may lie in front of them, and (`spoiled`) fragments of a TD
whose layout failed half-way in between. When an endpoint has halted inside a TD, the dequeue index passes the
controller: all of the invariant but the controller's place (`Kept`) holds until the controller is moved.

**Streams** (`StreamRings`): the nine-entry-stack quicksort over (address, descriptor, mapping) triples and the binary
search that relies on it.

**Events** (`CycleRing`, `EventQueue`, `EventRing`): the event ring, the interrupt filter and the polling thread as
atomic steps in any order. **Isochronous completion** (`IsochRanges`, `IsochDone`, `IsochSchedule`): the slots, the
interrupt's last-in-first-out done list with its 32-bit counters, and the thread that turns it round; and the TDs' place
on the ring. **Commands** (`CycleRing`,
`CommandRing`): the command ring and its callbacks into local variables of waiting threads. **Completions**
(`Completions`): the reentrant queue of completions.

The controller, the interrupt and the thread that interleave with a method are modelled by methods that take any
number of arbitrary steps (`OthersRun`, `InterruptsRun`, `ThreadRuns`); a property that holds in every `Valid()` state
holds in every state that such a run can reach. Methods of classes state their whole new state in terms of the old
one; the lemmas beside them say what that means.

Where the code and its comments differ, the code is followed. `PutBackTRB` gives up only the open fragment (the
comment at Transfers.cpp:363-368 says so); `Abort` leaves commands queued of which no TD is on the ring;
`GetTDFromActiveQueueWithIndex` completes the TDs it passes over as successes, and counts what they have moved as
missing unless a later event counts the whole transfer. What the code does wrong is stated with an input and with the
condition under which it is right: `RingSteps.WipedUnder` and `UnmovedGoesWrong` (a ring wiped under a controller that
is not moved), `AsyncHistory.ReportIsRequestLessMoved` and `LostEvent` (a lost event), `CommandRing.AfterReturn` and
`LateCall` (a callback copied before it is wiped).

## Model

| member | source | states |
|---|---|---|
| Hardware.NextOnRoute | Transfers.cpp:510-596 | one step of the xHCI 4.9.2 walk from the start of a clear route executes exactly its first TRB, or follows its one link, and lands on the route again |
| Hardware.SuffixFrom | Transfers.cpp:510-596 | from any place on a clear route the walk still sees exactly the rest of the published TRBs, across a link at the end or in the middle of the ring |
| Hardware.AdvanceFollows | Transfers.cpp:510-596 | after any number of steps what the controller executed plus what it still sees is the whole published history; it never leaves the route |
| Hardware.RunsToTheEnd | Transfers.cpp:599-611 | a controller that is left running executes everything published, stops at the first unpublished slot, and nothing else |
| Hardware.Invisible | Transfers.cpp:556-583 | a store outside the route, or one that keeps the cycle bit of the slot where the route stops, changes nothing for a controller anywhere on the route |
| Hardware.TurnsHome | Transfers.cpp:566-580 | turning the slot where the controller stops into a link home publishes nothing: the controller goes on to index 0 and stops there |
| Hardware.Publishes | Transfers.cpp:599-611 | toggling one cycle bit publishes the whole run of slots behind it, in order, for a controller anywhere on the route |
| Hardware.PublishesToLink | Transfers.cpp:599-611 | the same when the run ends at the terminal link, which then leads the controller to index 0 |
| Runs.RunIsFifo | Transfers.cpp:510-611 | over any interleaving of stores and controller steps, the controller executes a prefix of what was published, in the order of publication |
| RingSteps.TakePlainKeeps | Transfers.cpp:585-595 | handing out the next slot keeps the ring invariant, the route and all pending TRBs |
| RingSteps.TakeLastKeeps | Transfers.cpp:525-540 | so does handing out the last slot, with the terminal link given to the controller and the cycle state toggled while the fragment is open |
| RingSteps.RelocatedKeeps | Transfers.cpp:542-583 | so does relocating an open fragment that straddles the terminal link: pending TRBs stay the same, and the route now turns at the fragment's old first slot |
| RingSteps.TookPending | Transfers.cpp:542-583 | no slot that holds a pending TRB is among those overwritten by relocation, and none stops being pending |
| RingSteps.FillKeeps | Transfers.cpp:424-428 | writing the TRB just handed out, with its cycle bit unless it is the fragment's first, keeps the invariant and what is pending |
| RingSteps.PublishGrows | Transfers.cpp:599-611 | closing a fragment adds exactly its TRBs, in order, behind what the controller already sees |
| RingSteps.PublishedInPlace | Transfers.cpp:542-583 | the TRBs of a fragment occupy one contiguous range of slots in front of the terminal link |
| RingSteps.PublishedSlots | Transfers.cpp:599-611 | none of these slots was pending before, and they are the only ones that become pending |
| RingSteps.RollBackKeeps | Transfers.cpp:640-666 | giving up an open fragment at any point, the link crossed or the fragment relocated or not, keeps the invariant, the route and what is pending |
| RingSteps.RollBackUndoesTake | Transfers.cpp:640-666 | and leads back to the enqueue index and cycle state from before the fragment; only relocation moves them on, to index 0 of the next lap |
| RingSteps.ReseatKeeps | Transfers.cpp:161-183 | moving the dequeue index to any TRB boundary, mid-ring link or end of the pending region keeps the invariant; what is pending is then the suffix from there |
| RingSteps.ReseatCycle | Transfers.cpp:168-174 | the cycle state that SetTRDQPtr picks is the one that the controller would have at that index had it come in order |
| RingSteps.NextIndexNames | Interrupts.cpp:776-780 | the index behind a pending TRB names the next place of the route, exactly one TRB further on |
| RingSteps.RetireFollows | Interrupts.cpp:776-780 | retiring up to any pending TRB removes exactly these TRBs from the front of the queue; the controller is on the new route if and only if it has executed that TRB, and otherwise has some left to execute |
| RingSteps.OrderOnce | Transfers.cpp:510-611 | every pending TRB lies in a slot of its own |
| RingSteps.MidRelocated | Transfers.cpp:542-583 | relocation makes a mid-ring link behind all that is pending, chained as GetNextTRB says; no other step of the producer makes one |
| RingSteps.MidReseated | Transfers.cpp:161-183 | a new dequeue index leaves the link where it is, with that many TRBs fewer in front of it, or in front of the dequeue index |
| RingSteps.FitsPublish | Transfers.cpp:599-611 | a terminal link that is chained exactly if the pending TRB in front of it is stays so when a fragment is published whose last TRB it fits to; no other step needs more |
| RingSteps.WipedUnder | Transfers.cpp:99-126 | a controller that has drained a ring which is then wiped, and is not moved, stands where the producer goes on if and only if the ring was at index 0 in its first cycle state |
| RingSteps.WipedUnderAny | Transfers.cpp:84-126 | wherever it is among TRBs that were given up, only for a ring that was empty, at index 0 and in its first cycle state |
| RingSteps.UnmovedGoesWrong | Transfers.cpp:118-126 | otherwise it executes cleared slots or never sees what is published |
| RingSteps.UnmovedInput | Transfers.cpp:118-126 | an input for which that happens: one TRB published, executed and retired, then the ring wiped |
| RingWalk.TrailStep | Rings.cpp:113-126 | the successor computed by CountRingToED is the next TRB of the pending region across wrap and mid-ring link, and equals the enqueue index only at its end |
| RingWalk.TrailIsPending | Rings.cpp:100-128 | the TRBs that CountRingToED walks are what the controller has still to execute from there |
| Admission.RoomSurvives | Transfers.cpp:251-274 | a closed condition on the indices decides exactly whether k more slots can be taken whatever way the fragments are closed in between |
| Admission.ReservationCovers | Transfers.cpp:254-259 | the TRBs reserved for n bytes are enough for every page offset, with one more for EVENT_DATA |
| Admission.ReservationNeeded | Transfers.cpp:254-259 | and no fewer would do: at the last byte of a page n bytes need all of them |
| TransferRings.TransferRing.constructor | Rings.cpp:20-48 | a new ring satisfies the invariant with nothing pending, and a controller at index 0 with cycle state 1 |
| TransferRings.TransferRing.GetNextTRB | Transfers.cpp:510-596 | null exactly when the ring is full for its case, and then nothing has changed; otherwise one more slot of the open fragment, nothing published, everything pending kept, with the controller running between all stores; the chain bits of terminal and mid-ring link |
| TransferRings.TransferRing.Relocate | Transfers.cpp:542-583 | the store-by-store relocation: the fragment is repeated at the start of the ring, nothing is published at any store, and the old first slot becomes a link home |
| TransferRings.TransferRing.FillTRB | Transfers.cpp:400-428 | word-by-word stores of one TRB stay invisible to the controller |
| TransferRings.TransferRing.CloseFragment | Transfers.cpp:599-611 | the queue and the history grow by exactly the TRBs of the fragment; without an open fragment nothing happens |
| TransferRings.TransferRing.PutBackTRB | Transfers.cpp:640-666 | the walk back ends at the fragment's first slot and leaves the state that rolling back defines; what is pending is unchanged for a controller anywhere |
| TransferRings.TransferRing.CanTDFragmentFit | Transfers.cpp:251-274 | true if and only if the slots reserved for that many bytes can all be taken whatever way the fragments fall |
| TransferRings.TransferRing.Retire | Interrupts.cpp:776-780 | for an event at any pending TRB the queue loses exactly the TRBs up to it; the ring stays valid if and only if the controller has executed that TRB |
| TransferRings.TransferRing.SetTRDQPtr | Transfers.cpp:140-189 | by endpoint state and command result, either nothing changes or the controller stands at the index with the cycle state of that place and will see exactly the rest of the queue |
| CommandResults.SetDequeue | Transfers.cpp:140-189 | in terms of the command's completion code: the controller stands at the index exactly when the command was sent and the code is 1 (SUCCESS), whatever the slot; otherwise nothing has changed |
| CommandResults.SucceedsExactly | Command.cpp:226-233 | results of SUCCESS, and no others, are taken for success; the context state error is the one that SetTRDQPtr reports itself |
| CommandResults.ResultsDiffer | Command.cpp:226-233 | a result tells SUCCESS and its slot from every error, and the errors from each other |
| TransferRings.TransferRing.ReinitTransferRing | Transfers.cpp:89-137 | a ring that is not empty is kept, and is valid afterwards if and only if it was or the controller can be put at its oldest pending TRB; an empty ring is as new again whether or not the controller can be moved, and if it cannot, the ring is usable if and only if it was at index 0 in its first cycle state |
| TransferRings.TransferRing.ReturnAllTransfersAndReinitRing | Transfers.cpp:82-85 | with the controller anywhere among TRBs that are given up: the ring is as new again, and usable if the controller is moved to its start |
| TransferRings.TransferRing.ControllerRuns | Transfers.cpp:510-611 | the controller may go on at any time between calls |
| TransferRings.TransferRing.CountRingToED | Rings.cpp:100-128 | terminates; returns the index where the chain of pending TRBs ends and adds exactly the byte counts of the NORMAL TRBs behind the start |
| Transfers.GenerateNextPhysicalSegment | Transfers.cpp:614-637 | the piece ends with the segment, at the next 64 KiB boundary or with the TD, whichever comes first; an IOMMU failure is reported |
| Transfers.CreateTransfer | Transfers.cpp:301-507 | all TRBs of the TD are published in order behind what was pending; the index range returned holds its last fragment, which starts behind the last cut, and for a TD that is not cut all of it; on failure the closed fragments stay and the open one leaves no trace; no failure when the segments break at pages and the reservation fits; the ring has then room for no fewer slots than before less those taken; a mid-ring link made inside the TD is chained; if the request asks for an interrupt, the last TRB raises an event; a mid-ring link made just in front of the TD is chained if and only if bytes of its transaction precede it; the terminal link is chained exactly if the TRB in front of it is |
| Transfers.AdmitTransfer | Async.cpp:188-211 | a TD of at most maxTDBytes that is admitted is always laid out completely, at any page offset and across wrap and relocation |
| Transfers.FinishWithEvent | Transfers.cpp:468-499 | the EVENT_DATA TRB carries its own bus address, lies in the same contiguous range as the rest of the last fragment, and is published with it |
| TransferSpec.PieceBreaksAtPage | Transfers.cpp:385-388 | with segments that break only at pages, a piece that does not end the TD ends at a page boundary |
| TransferSpec.NeededStep | Transfers.cpp:251-274 | each TRB laid out uses up at least one of the pages that the reservation counts |
| TransferSpec.TdReserved | Transfers.cpp:251-274 | with segments that break only at pages a TD, its EVENT_DATA TRB included, has no more TRBs than are reserved for it |
| TransferSpec.LastTells | Transfers.cpp:443-494 | the last TRB of a TD raises an event if the request asks for an interrupt; otherwise that of a TD of one TRB exactly if the request's own control word says so, and the EVENT_DATA TRB of a longer one exactly on an IN endpoint, with its interrupt blocked; its type, its BEI and ISP bits, its chain bit, and the address that EVENT_DATA carries |
| TransferSpec.FirstCarries | Transfers.cpp:376-427 | the first TRB carries the type and the passed-through bits of the control word that the request comes with, and the immediate data in their order |
| TransferTiling.DataTrbsTile | Transfers.cpp:356-441 | the data TRBs move the TD's bytes one after the other without gap or overlap; each lies in one segment, none crosses 64 KiB, each is as long as these and the TD allow, and TD Size is the number of packets to come in the transaction, at most 31 (xHCI 1.0 section 4.11.2.4) |
| TransferTiling.DataTrbsChain | Transfers.cpp:405-423 | all data TRBs are chained unless the data is immediate, and only the last of a final TD with several asks for Evaluate Next TRB |
| TransferTiling.CutsAtBursts | Transfers.cpp:429-438 | a TD is cut behind exactly those TRBs that end behind whole bursts and are not its last; an isochronous one never is |
| TransferTiling.FragmentsHoldWholeBursts | Transfers.cpp:429-438 | between two cuts, and from the start of a TD that begins behind whole bursts, a fragment moves a multiple of the max burst payload (xHCI 1.0 section 4.11.7.1) |
| TransferWalk.OnlyLastTells | Transfers.cpp:440-494 | no TRB of a TD but the last asks for an event, and all others are chained to the next |
| TransferWalk.EndsWithTD | Rings.cpp:100-128 | a walk from any TRB of a TD ends at the TD's last one |
| TransferWalk.TrailSlot | Rings.cpp:113-126 | the index that the walk has reached is the slot of the TRB it has come to, across wrap and mid-ring link |
| TransferWalk.BytesBehind | Transfers.cpp:356-441 | the NORMAL TRBs behind a data TRB are for exactly the bytes that those up to it are not for |
| TransferWalk.CountsTheRest | Rings.cpp:100-128 | so that REM and what CountRingToED adds to it are the bytes of the TD less those moved, when a mid-ring link inside the TD is chained (AsyncRing.WalkFindsTD: it always is) |
| IsochFrames.ScheduleFrames | Isoch.cpp:225-272 | the slot ranges of the frames of a TD are disjoint from each other and from all that was pending; each range is as long as the frame's TRBs, which are queued in order; a frame that failed owns nothing and left nothing behind; with room for what is reserved for all frames, and segments that break only at pages, none fails |
| IsochFrames.IsochTD.FrameForEventIndex | Isoch.cpp:631-642 | the first frame that owns the slot, the only one if the ranges are disjoint; -1 if and only if none does |
| AsyncQueue.TDQueue.Get | Async.cpp:636-648 | takes the first TD off, whatever the tail's link says; null only for an empty list |
| AsyncQueue.TDQueue.Put | Async.cpp:651-659 | appends, and touches no link but that of the old tail |
| AsyncQueue.TDQueue.PutAtHead | Async.cpp:662-670 | prepends, and touches no link but that of the TD |
| AsyncHistory.OldestCompleted | Async.cpp:481-508 | completing the oldest TD keeps the books: its command is handed over if and only if the TD is the last of its transfer |
| AsyncHistory.OldestMissed | Async.cpp:486-489 | what Complete leaves in the command's scratch word, in 32 bits, is what the driver takes its TDs so far to have failed to move, in relative and in absolute mode |
| AsyncHistory.Recorded | Interrupts.cpp:784-810 | a shortfall computed from REM, from an event-data count or from an absolute EDTLA records that the TD was heard of, and changes the account of no other |
| AsyncHistory.MovedSilently | Interrupts.cpp:784-810 | bytes that the controller moves of a TD of which nothing was heard, scheduled, given up or completed, change nothing in the driver's books nor in any report, unless a count of the whole transfer came behind it |
| AsyncHistory.Submitted | Async.cpp:145-171 | submitting one more piece of a transfer keeps the books |
| AsyncHistory.MissedIsRest | Async.cpp:486-489 | whichever events were lost, what the driver takes to be missing at a TD is what the transfer has not moved up to there and the bytes moved that it was not told of; summing shortfalls and overwriting with preceding + this - EDTLA agree in that |
| AsyncHistory.UnreportedIffUnheard | Async.cpp:244-292 | there are no such bytes if and only if each TD of the transfer that moved bytes was heard of or is in front of an absolute count |
| AsyncHistory.ReportIsRequestLessMoved | Async.cpp:498-501 | the value reported for a command is the request less the bytes moved by all its TDs, orphans included, if and only if each of its TDs that moved bytes was heard of or is in front of an absolute count |
| AsyncHistory.LostEvent | Async.cpp:268-286 | an input: two TDs of ten bytes, both moved, the first one's event lost; relative counts report ten bytes missing, an absolute one none |
| AsyncHistory.Contiguous | Async.cpp:408-425 | the TDs of one command that are in flight follow one another, which FlushTDs relies on |
| AsyncHistory.ReportedOnce | Async.cpp:490-506 | a command is reported as often as a final TD of it has passed through Complete, if it has an action, and never otherwise |
| AsyncHistory.ReportedValue | Async.cpp:490-506 | each of these reports carries what the driver takes to be missing, in 32 bits |
| AsyncSplit.TDsHoldWholeBursts | Async.cpp:46-49 | maxTDBytes is more than 64 KiB and at most 128 KiB, and the largest such multiple of the max burst payload where there is one |
| AsyncSplit.PiecesTile | Async.cpp:137-171 | the TDs of a request follow one another from 0 to its end, all but the last are full, and exactly the last is final |
| AsyncSplit.SeveralPieces | Async.cpp:120-147 | a TD is marked as one of several exactly if the request is longer than one TD |
| AsyncSplit.PiecesStartAtBursts | Async.cpp:137-171 | each TD of a request starts behind whole bursts, whether the request is split or not |
| AsyncEndpoints.AsyncEndpoint.SetParameters | Async.cpp:35-50 | for a burst of n = maxPacketSize * (1 + maxBurst) * (1 + multiple) bytes, 0 < n < 128 KB, maxTDBytes is the largest multiple of n in 128 KB; it is 128 KB for longer bursts; 32-bit wrap-around; always in the range that the rest relies on |
| AsyncEndpoints.AsyncEndpoint.constructor | Async.cpp:35-50 | the same for a new endpoint, with nothing submitted |
| AsyncEndpoints.AsyncEndpoint.CreateTDs | Async.cpp:98-173 | the three refusals, which change nothing, and otherwise exactly the pieces of the request at the end of the queued list |
| AsyncEndpoints.AsyncEndpoint.GetTDFromActiveQueueWithIndex | Async.cpp:244-292 | the first scheduled TD with that last index; those in front of it are completed first, in order; null if and only if there is none, and then nothing changes |
| AsyncEndpoints.AsyncEndpoint.ControllerMoves | Interrupts.cpp:784-810 | the controller may move any bytes of a TD of which nothing was told and behind which no count of its whole transfer came, also when the driver has given it up, with or without an event that tells of it |
| AsyncEndpoints.AsyncEndpoint.ScheduledSilent | Interrupts.cpp:784-810 | each scheduled or queued TD is such a one |
| AsyncEndpoints.AsyncEndpoint.LiveAsks | Async.cpp:138-171 | every TD in flight asks for its interrupt, the final one of a command among them |
| AsyncEndpoints.AsyncEndpoint.RecordEvent | Interrupts.cpp:784-810 | from the event's count, in each of the three modes and in 32 bits, the books record that the TD was heard of, with the bytes it moved; an absolute count includes those of TDs whose events were lost |
| AsyncEndpoints.AsyncEndpoint.FlushTDs | Async.cpp:401-448 | the lists' part: exactly the scheduled TDs in front that belong to the command are done; the re-seating index by option |
| AsyncEndpoints.AsyncEndpoint.MoveTDsFromReadyQToDoneQ | Async.cpp:451-461 | the same for the queued list; without a command, all of it |
| AsyncEndpoints.AsyncEndpoint.FlushCommand | Async.cpp:340-349 | after both, no TD of the command is left in either list |
| AsyncEndpoints.AsyncEndpoint.RetireAndFlush | Async.cpp:295-355 | the held TD is done; with flush no TD of its command is left in either list, and all others keep their order; where the controller is asked to go on by endpoint state |
| AsyncEndpoints.AsyncEndpoint.Abort | Async.cpp:222-241 | the scheduled list is emptied; of the queued TDs exactly those whose command has a TD on the ring go with it, and the rest stay in order; everything done is completed in order |
| AsyncEndpoints.AsyncEndpoint.CompleteOldest | Async.cpp:481-508 | one round accounts for the oldest TD and frees it, and keeps the invariant of the whole endpoint |
| AsyncEndpoints.AsyncEndpoint.Complete | Async.cpp:475-509 | every TD that is done is completed, in order, once, and is then free |
| AsyncEndpoints.AsyncEndpoint.GetTDFromFreeQueue | Async.cpp:364-374 | a TD that is on no list and says nothing |
| AsyncEndpoints.AsyncEndpoint.PutTDonDoneQueue | Async.cpp:377-392 | the held TD goes behind those done |
| AsyncEndpoints.AsyncEndpoint.Conservation | Async.cpp:98-509 | in every state, completed ++ done ++ held ++ scheduled ++ queued is exactly the submission history, in order; in each TD in flight preceding + this + following is the request's total, the interrupt is asked for, and multiTDTransaction says whether the transfer has other TDs |
| AsyncEndpoints.AsyncEndpoint.EachOnce | Async.cpp:636-670 | no TD is on two lists or twice on one, the free list included, and each count is the length of its list |
| AsyncEndpoints.AsyncEndpoint.HandedOnce | Async.cpp:475-509 | over any run a command with an action is handed to the completer exactly as often as a final TD of it has passed through Complete, and one without never |
| AsyncEndpoints.AsyncEndpoint.HandedValue | Async.cpp:498-501 | and what is handed over is the request less the bytes moved if and only if each TD that moved bytes was heard of or is in front of an absolute count |
| AsyncEndpoints.AsyncEndpoint.NoneBehind | Async.cpp:408-425 | a command with a done TD has none in a list whose first TD is not its own |
| AsyncChain.TidyIsAll | Async.cpp:188-211 | TDs that lie on the ring one behind the other, with nothing in front of them, are all that is pending |
| AsyncChain.TidyCovers | Async.cpp:188-211 | behind what was given up, every pending TRB belongs to a TD |
| AsyncChain.Appended | Async.cpp:188-211 | a TD laid out behind the others keeps them where they are |
| AsyncChain.Dropped | Async.cpp:401-448 | with the first TDs, everything up to their last TRB leaves the ring, and the others stay in order with nothing in front of them |
| AsyncChain.GivenUp | Async.cpp:408-425 | if their TRBs stay on the ring, they lie in front of the others |
| AsyncChain.LastIsEnd | Async.cpp:250-252 | the last TRBs of the TDs are in different slots: an index that is one TD's last is at that TD's end and nobody else's |
| AsyncChain.AppendedThrough | Transfers.cpp:542-583 | if the mid-ring link goes through a TD on the ring, it is chained, whether it was there before or was made while the TD was laid out |
| AsyncRings.AsyncRing.CreateTDs | Async.cpp:98-173 | queueing a command's TDs leaves those on the ring as they are; the refusals, and otherwise exactly the pieces of the request; each piece starts behind whole bursts if the endpoint was made for its burst size (Create) |
| AsyncRings.AsyncRing.Create | Async.cpp:35-50 | an endpoint made for a burst size of less than 128 KB has TDs that hold whole bursts |
| AsyncRings.AsyncRing.PutOnRing | Async.cpp:192-203 | a TD laid out lies behind all that is pending, with its last TRB at the index returned; one that failed leaves the others where they are |
| AsyncRings.AsyncRing.ScheduleTDs | Async.cpp:176-219 | TDs go from queued to scheduled and onto the ring in order, only while it admits another one; one that cannot be laid out stays first in line; none while aborting; with segments as the driver reckons with, none fails half-way, a clean ring stays clean, and it goes on until none is queued or the ring admits no more; each is laid out with its own control word, immediate data and segments, and asks for its interrupt |
| AsyncRings.AsyncRing.FragmentsOnRing | Transfers.cpp:429-438 | between two places where a TD on the ring is cut, and from its start to the first, whole bursts of the endpoint are moved, if its TDs were submitted behind whole bursts |
| AsyncRings.AsyncRing.LastRaises | Async.cpp:192-206 | the last TRB of every TD on the ring raises an event; it is chained to what follows exactly if the TD has several TRBs and is not the last of its transaction |
| AsyncRings.AsyncRing.LinkContinues | Transfers.cpp:525-540 | the terminal link is chained exactly if the pending TRB in front of it is |
| AsyncRings.AsyncRing.LastAt | Async.cpp:250-252 | of the TDs scheduled, the one whose last TRB an event is for has its lastTrbIndex there, and no other has |
| AsyncRings.AsyncRing.TakeEvent | Interrupts.cpp:756-783 | an event at a TD's last TRB finds that TD, completes those in front of it, and takes exactly the TRBs up to it off the ring; one for a TRB that was given up finds none and changes no list; the early return for an empty ring is never taken; the ring is valid afterwards if and only if the controller has executed that TRB |
| AsyncRings.AsyncRing.EventsAreFor | Interrupts.cpp:756-759 | without an error, an event is for the last TRB of a scheduled TD or for a TRB that was given up |
| AsyncRings.AsyncRing.WalkFindsTD | Interrupts.cpp:757-766 | for an event at any TRB of a TD, across wrap and mid-ring link, CountRingToED comes to the TD's lastTrbIndex, and to the bytes of the TD less those moved |
| AsyncRings.AsyncRing.FlushOnRing | Async.cpp:415-447 | moving the controller to the index that FlushTDs names takes exactly what lies up to the last TD flushed off the ring |
| AsyncRings.AsyncRing.FlushTDs | Async.cpp:401-448 | with its SetTRDQPtr: if the controller is moved, what is pending is what came behind the TDs flushed: exactly the TRBs of the TDs still scheduled, unless a layout had failed half-way; if it is not, nothing on the ring changes |
| AsyncRings.AsyncRing.MoveToEnd | Async.cpp:312-320 | with nothing scheduled any more, moving the quiesced controller to the enqueue index leaves nothing pending |
| AsyncRings.AsyncRing.RetireTDs | Async.cpp:295-361 | the TD is done; with flush no TD of its command is left in either list; the controller is moved by endpoint state; then what is done is completed, and, unless the endpoint has halted, queued TDs are scheduled until none is queued or the ring admits no more; a clean ring stays clean unless TDs were flushed and the controller not moved |
| AsyncRings.AsyncRing.ProcessTransferEvent | Interrupts.cpp:756-815 | for an event of a TRB that has been executed: its TD, and no other, is told what the event says and retired, TDs in front of it are completed without having been heard of; it is completed itself, with all that were flushed, exactly when there was an error or it asks for that, as the final TD of a command does; unless its command is flushed, the ring then holds exactly the TRBs of the TDs scheduled |
| AsyncRings.AsyncRing.ProcessHaltedEvent | Interrupts.cpp:757-815 | for an error at a TRB in the middle of a TD on which the endpoint has halted: no TD has that index, CountRingToED leads to the TD, which is told of exactly the bytes not moved and completed, with the rest of its command unless it is the final one; all TDs and TRBs behind stay as they were, but the dequeue index has passed the controller and the ring is not valid |
| AsyncRings.AsyncRing.ReinitTransferRing | Transfers.cpp:89-126 | after that, endpoint and ring are as they should be if and only if the controller can be moved; nothing pending is lost |
| AsyncRings.AsyncRing.Abort | Async.cpp:222-241 | nothing is scheduled any more, and what is pending is nobody's, wherever the controller is |
| AsyncRings.AsyncRing.NothingScheduled | Transfers.cpp:81-83 | nothing is scheduled on a ring whose dequeue index is its enqueue index, so that nothing is forgotten when Abort is not called |
| AsyncRings.AsyncRing.ReturnAllTransfersAndReinitRing | Transfers.cpp:64-86 | the scheduled TDs and their commands are given up, and ring and endpoint are as in the beginning if the controller can be moved |
| AsyncRings.AsyncRing.ControllerRuns | Transfers.cpp:510-611 | between the calls the controller executes TRBs and moves bytes, of scheduled TDs and of those given up; nothing of the invariant depends on how far it is |
| StreamRings.DiffIsOrder | GenericUSBXHCI.h:465 | on 16-byte-aligned addresses below 2^63 the signed shifted difference orders as the addresses do |
| StreamRings.Exchange | Streams.cpp:22-33 | address, descriptor and mapping of two rings change places together, and nothing else changes |
| StreamRings.Partition | Streams.cpp:41-56 | a permutation with everything up to the result at most the pivot and everything behind it more; if the result is the right end, nothing has moved |
| StreamRings.HalvesFit | Streams.cpp:61-92 | a stretch bounded by n halved k times has length times 2^k at most n |
| StreamRings.BrokenStack | Streams.cpp:80-92 | putting the longer part aside keeps the bound of n / 2^k on the stretch at depth k, and the work that is left shrinks |
| StreamRings.OnTop | Streams.cpp:61-71 | so for up to 511 rings a stretch that has still to be broken is never in the last of the nine places |
| StreamRings.Sort | Streams.cpp:59-94 | terminates without overflowing the stack, with rings 1 to maxStream sorted by address, triples kept together, and a permutation of what was there |
| StreamRings.AtMostOne | Streams.cpp:160-183 | an address lies in at most one of the sorted pages |
| StreamRings.LinearFinds | Streams.cpp:160-183 | the linear scan that the binary search is compared with finds the first ring that holds the address, and none only if there is none |
| StreamRings.LinksAreNobodys | Streams.cpp:174-177 | nobody is found for the address of a ring's terminal link |
| StreamRings.FindStream | Streams.cpp:160-183 | for every 64-bit address and every prefix of the rings, the binary search agrees with the linear scan and gives the TRB index; the ring found is the only one |
| StreamRings.SortedPages | Streams.cpp:223-234 | distinct pages, once sorted, can be searched |
| StreamRings.AllocStreams | Streams.cpp:223-241 | each stream without memory gets a page of its own, address and mapping stay together, the result can be searched, and the stream context of each has the address of the ring that it now owns |
| StreamRings.NewRings | Streams.cpp:223-234 | a ring that gets its memory starts in cycle state 1 with a page full of TRBs, mapped one page behind the other |
| CycleRings.OldestItem | Interrupts.cpp:187-191 | the cycle bit at the dequeue index matches if and only if there is an entry to be consumed, and then it is the oldest |
| CycleRings.Consumes | Interrupts.cpp:192-196 | going past it, across the end of the ring with the cycle state flipped, leaves exactly the others |
| CycleRings.Posts | Command.cpp:160-178 | writing an entry with the producer's cycle bit appends it for the consumer, across the end of the ring |
| CycleRings.RingFull | Command.cpp:150-158 | the index test finds the ring full exactly when all slots but one are taken |
| EventQueue.QueueEmptyOrFull | Interrupts.cpp:239-242 | the bounce queue's index tests decide empty and full exactly |
| EventQueue.EachHasOneFate | Interrupts.cpp:198-250 | each fetched event is handled, bounced or counted as an overflow, and never two of these |
| EventRings.EventRing.FilterEventRing | Interrupts.cpp:175-251 | with controller and thread running between its steps, it fetches the oldest unfetched event once, if there is one; it handles port status changes, and command completions and transfers that their handler accepts, and no others; all others it bounces, or counts as lost if the queue was full from the start |
| EventRings.EventRing.FilterDecide | Interrupts.cpp:198-245 | which events are handled at once, by kind and the handler's answer; an overflow only with the bounce queue full |
| EventRings.EventRing.PollEventRing2 | Interrupts.cpp:258-366 | with the filter running between its steps, it takes the oldest bounced event, or a cleared entry if the event was taken early; false only for an empty queue |
| EventRings.EventRing.PollForCMDCompletions | Interrupts.cpp:374-414 | when it finishes, of the events on the queue exactly the command completions and stopped transfers are taken |
| EventRings.EventRing.ScanStep | Interrupts.cpp:381-413 | one entry is looked at and taken if and only if it is of the kind looked for and was not taken before |
| EventRings.EventRing.Accounted | Interrupts.cpp:175-251 | in every state: handled + bounced + overflowed = fetched, and the bounced events are a subsequence of those posted, in order |
| EventRings.EventRing.DispatchedOnce | Interrupts.cpp:295-356 | an event that left the bounce queue was dispatched once: in turn with its own contents, or early and then not again |
| EventRings.EventRing.TransferReaches | Interrupts.cpp:175-356 | over any run, a transfer event that the interrupt has not accepted has left the queue in turn or early, is on it or in the hands of filter or thread, or was counted as an overflow |
| IsochDone.SameCount | Isoch.cpp:412-413 | 32-bit counts agree only if the counts are equal, as long as fewer than 2^32 TDs wait |
| IsochDone.Scheduled | Isoch.cpp:344-369 | putting a TD into the next slot keeps the slots a queue; the slot is empty |
| IsochDone.IsochEndpoint.Schedule | Isoch.cpp:344-369 | a TD goes behind those in slots; it is refused only when at least 126 of the 128 slots are taken |
| IsochDone.IsochEndpoint.ProcessTransferEvent | Interrupts.cpp:605-650 | with the thread running between its steps: exactly the TDs in front of the one that the event's slot belongs to, and that one for an event of its last frame, are completed, in slot order; the return value |
| IsochDone.OwnerOwns | Isoch.cpp:631-642 | if no slot belongs to two TDs, that TD is the one whose frames own the slot, and no other |
| IsochSchedule.ScheduleTD | Isoch.cpp:209-272 | a TD laid out on the ring behind those scheduled: the slots of all of them are pending, those of each behind those of the TDs in front of it |
| IsochSchedule.InTurnDisjoint | Isoch.cpp:631-642 | so that no slot belongs to two TDs |
| IsochSchedule.EventKeeps | Interrupts.cpp:605-645 | it stays so when everything up to an event's slot leaves the ring, for the TDs that stay scheduled, if the event is for its owner's last frame, and for all but the owner otherwise |
| IsochSchedule.HalfLaidOut | Isoch.cpp:219-272 | a TD that is in its slot already while its frames are being laid out does not change what an event for a TD in front of it completes |
| IsochDone.IsochEndpoint.WalkStep | Interrupts.cpp:615-645 | one slot of that walk |
| IsochDone.IsochEndpoint.ReverseOne | Isoch.cpp:406-415 | the thread never writes to a TD that it has returned already |
| IsochDone.IsochEndpoint.NextToReverse | Isoch.cpp:412-414 | it follows a link only as long as there are TDs of its snapshot left, so it never follows a stale one |
| IsochDone.IsochEndpoint.RetireIsocTransactions | Isoch.cpp:398-424 | with the interrupt running between its steps: the TDs published at its start and not returned before reach the done queue in the order of completion, each once; it visits producerCount - consumerCount of them |
| IsochDone.IsochEndpoint.Places | Interrupts.cpp:633-639 | no TD is in two places: in a slot, on the done list, or twice on either |
| CommandRings.ResultOf | Command.cpp:226-233 | no command result is the value that says there is no answer |
| CommandRings.CommandRing.constructor | Command.cpp:52-67 | a new ring with no command out |
| CommandRings.CommandRing.EnqueBegin | Command.cpp:150-164 | refused if and only if all slots but one are taken; the command and its callback are written without being seen |
| CommandRings.CommandRing.EnqueCMD | Command.cpp:146-182 | with controller and interrupt running between its stores: accepted commands are issued in order, each with one callback entry |
| CommandRings.CommandRing.TakeCallback | Command.cpp:185-215 | the oldest command out is completed and its callback entry copied and cleared; a stop or a bad address takes none |
| CommandRings.CommandRing.CallCallback | Command.cpp:216-217 | a copied callback writes its own command's result into its own cell, and into no other |
| CommandRings.CommandRing.DoCMDCompletion | Command.cpp:185-219 | both together: the callback of the oldest command out is called at most once, with its own result and into its own cell |
| CommandRings.CommandRing.WalkIsOutstanding | Command.cpp:172-178 | the controller's walk by cycle bits (xHCI 1.0 section 4.9.3), through the link and across the wrap, sees exactly the commands issued and not fetched, in order |
| CommandRings.CommandRing.AnsweredHasNoEntry | Command.cpp:212-217 | once a cell has an answer no callback entry refers to it |
| CommandRings.CommandRing.AnswerOf | Command.cpp:212-217 | a command that has an answer has it in its cell, unless the interrupt has copied its callback and not called it yet |
| CommandRings.CommandRing.WaitForCMD | Command.cpp:108-143 | when it returns no callback entry refers to its local result, whether it was answered, late, timed out or refused; it returns the answer to its own command, and -1 exactly if there is none or the interrupt has copied its callback by then and not called it yet; in that case wiping the entry came too late |
| CommandRings.CommandRing.AfterReturn | Command.cpp:134-142 | after it has returned, its local result can be written to if and only if the interrupt had copied its callback by then |
| CommandRings.LateCall | Command.cpp:134-142 | a run in which that happens |
| Completions.Completer.GetItem | Completer.cpp:22-40 | the oldest free item, a new one, or null exactly if none is free and there is no memory |
| Completions.Completer.AddItem | Completer.cpp:16-56 | the completion is appended with its contents; without memory it is given to the owner at once or refused, and the queue is as before |
| Completions.Completer.TakeFirst | Completer.cpp:66-85 | the oldest completion is delivered with its contents, and its item kept for reuse exactly if fewer than 16 are |
| Completions.Completer.InternalFlush | Completer.cpp:59-90 | everything added, also by the callbacks while it runs, is delivered once, in insertion order and with its original contents; at most 16 items are kept and freeCount is their number |
| Completions.Completer.Flush | Completer.cpp:59-90 | a flush asked for by a callback does nothing, any other one leaves nothing undelivered |

## Left out

- TransferRings.TransferRing.ReturnAllTransfersAndReinitRing: of a ring that was not empty, whose controller cannot be moved, it is stated that it is as new and the controller where it was (`RingSteps.WipedUnderAny` says when that is right); the doorbell flag, with which ReinitTransferRing schedules queued TDs (Transfers.cpp:127-137), is left out.
- TransferRings.TransferRing.Retire: the event is for a pending TRB; duplicate or spurious events, which move the dequeue index all the same, are not modelled (Interrupts.cpp:742-783).
- TransferRings.TransferRing.CountRingToED: the walk starts at a pending TRB or at the enqueue index; from any other index, which a spurious event may carry, nothing is said of it.
- TransferRings.TransferRing.FillTRB: one C++ word is one store, but the 16-byte copy of a relocated TRB is one store, and the flip of its cycle bit another.
- Transfers.CreateTransfer: a TD that fails half-way keeps the fragments that were closed, as in the code; taking back a whole TD is not attempted there. The IOMMU is an oracle without empty segments; that laying out never fails is proved for segments that break only at page boundaries. Word c is two fields, without the interrupter target of multi-interrupter builds.
- IsochFrames.ScheduleFrames: the frame identifiers, burst counts, request lengths and whether the last frame asks for an interrupt are given; the TRB counts of a new TD are zero before.
- AsyncRings.AsyncRing.ScheduleTDs: doorbells are left out; control words, immediate data and segments of each TD are given.
- AsyncRings.AsyncRing.ProcessTransferEvent: the event is for a pending TRB that the controller has executed, and for the last one of a TD or for one that was given up (`EventsAreFor`). What the event says is right.
- AsyncRings.AsyncRing.ProcessHaltedEvent: an error at a data TRB of a TD with several, with the endpoint still halted; for the final TD of a command, RetireTDs calls ScheduleTDs while the controller has not been moved, and that call is not part of it (`reschedule` says that it is due). Isochronous endpoints take `TransferRing.Retire` alone.
- AsyncEndpoints.AsyncEndpoint.CreateTDs: allocation succeeds, the command has no TD in flight, and the bytes of immediate data are not copied.
- AsyncEndpoints.AsyncEndpoint.ControllerMoves: bytes that move after the TD was told of, or after a later count of the whole transfer, are not modelled: the report has been made without them.
- AsyncEndpoints.AsyncEndpoint.RecordEvent: the count of an event is right and below 2^32, though events may be lost.
- AsyncRings.AsyncRing.ReinitTransferRing: the doorbell flag is left out, as for the ring alone.
- AsyncRings.AsyncRing.RetireTDs: quiescing lets the controller run on; restarting streams and the doorbell are left out; what the owner of a completed command does meanwhile is not modelled.
- StreamRings.DiffIsOrder: says nothing of addresses from 2^63 on; FindStream does take event addresses of all 64 bits.
- StreamRings.AllocStreams: the pages are distinct, page-aligned and below 2^63; MakeBuffer's failure and the initialisation of each ring's terminal link (proved for TransferRing) are not repeated.
- EventRings.EventRing.Post: the controller posts only if the event ring is not full; the dequeue pointer register and segments beyond the first are left out.
- EventRings.EventRing.PollForCMDCompletions: losing the controller half-way is a nondeterministic early return.
- IsochDone.IsochEndpoint.ProcessTransferEvent: the error codes of a transfer that has run only, with the endpoint's tdsScheduled flag true throughout; that no slot belongs to two TDs is a hypothesis of what is said of the owner (`IsochSchedule.InTurnDisjoint`).
- IsochDone.IsochEndpoint.Schedule: one step, of a TD that is laid out; the source fills the slot first (`IsochSchedule.HalfLaidOut`).
- IsochSchedule.EventKeeps: after an event for a frame in the middle, its TD stays scheduled with slots that are no longer pending; what happens if the ring comes round to those is not modelled.
- IsochDone.IsochEndpoint.RetireIsocTransactions: the done queue, which the superclass keeps, is a sequence that a client takes from; there are fewer than 2^32 TDs; returning the queue and rescheduling (Isoch.cpp:425-437) and the deferred queue are left out.
- CommandRings.CommandRing.DoCMDCompletion: the controller completes commands in the order in which it fetches them and stops where it says; one party at a time handles completions; the ring has at least two slots besides the link.
- CommandRings.CommandRing.WaitForCMD: calls are serialized; time-outs and CommandAbort are the other parties making any number of steps; each call's local result is a new cell.
- Completions.Completer.InternalFlush: callbacks add finitely many completions in one flush (a budget), so that it terminates; freeing memory is dropping the item.
- Completions.Completer.AddItem: what an owner does inside an immediate completion is not modelled.
- FreeSlotsOnRing, an estimate that ignores the contiguity that relocation needs.
- ParkRing, QuiesceEndpoint, StartEndpoint, ClearStopTDs, AddDummyCommand and DoStopCompletion.
- release, nuke and MoveAllTDsFromReadyQToDoneQ of asynchronous endpoints; Completer::Finalize.
- Timeout heuristics (NeedTimeouts, UpdateTimeouts), soft retries and isochronous scheduling against the frame clock.
- CreateStream, DeleteStreams, RestartStreams and CleanupPartialStreamAllocations.
- Memory allocation, DMA mapping, register access, thread wake-up and locks: parameters or atomic steps.
- Root hub, power management, slots and contexts, descriptors, errata tables, diagnostics, user client and xhcdump: they would add easy members only.
