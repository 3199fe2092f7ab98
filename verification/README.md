# SPQR: a verified model of the file transfer and of the server's client slots

SPQR moves files over UDP with a Selective Repeat protocol (`src/protocol.c`). The sender cuts
the file into packets, keeps a circular window of slots, marks slots acknowledged one by one and
slides; the receiver buffers packets that arrive early, writes contiguous runs, and acknowledges
everything. Sequence numbers are slot numbers: there are only as many of them as the window has
slots. This project models both ends, the two channels between them, the adaptive timeout of
`src/common.c`, and the allocation of client slots in `src/spqr_server.c`, and proves what these
promise. File contents, packet size, window size and error limit are parameters; every theorem
is for all of their values.

## How the model is built

| file | what it holds |
|---|---|
| `Protocol.dfy`, `Chunks.dfy` | datagrams and constants; how a file becomes packets, and packets slots |
| `Receiver.dfy`, `ReceiverRuns.dfy` | one arrival, and whole runs of the receiver alone |
| `ReceiverTrace.dfy` | which packets the receiver writes, even when packets beyond its window reach it |
| `ReceiverProcess.dfy` | the receiver as a class with a window array, proved against `Receive` |
| `Sender.dfy`, `SenderRuns.dfy` | one acknowledgment or timeout, and whole runs of the sender alone |
| `SenderHistory.dfy` | counters, timeout, flags and packets of the sender, read off the events it has seen |
| `SenderProcess.dfy` | the sender as a class with a window array, proved against `OnAck`, `OnTimeout`, `Finish` |
| `Network.dfy` | both ends and two multisets of datagrams in flight; runs; the invariant of well-behaved runs |
| `Agreement.dfy` | what every run on any network keeps: agreement on the outcome, ranges of all numbers |
| `Closing.dfy` | how a transfer is brought to an end, and what each end is told and left with |
| `Safety.dfy`, `Staleness.dfy` | when the bytes written are a prefix of the file, and exactly which transfers keep to that |
| `Timely.dfy`, `Termination.dfy`, `Completion.dfy` | runs with timely timeouts: accuracy of acknowledgments, bounds, progress |
| `Verdict.dfy` | from which states a transfer can still succeed, and with which outcomes it can end |
| `Finiteness.dfy` | runs without duplication are finite; exactly when timeouts are bounded with it |
| `Bitmask.dfy`, `ClientSlots.dfy`, `ClientTable.dfy` | the packed bitmask, the slot protocol of parent and children, the tables as a class |

A loop body of the program is a method on a class; the method's contract says that it computes
a step function, and the lemmas are about the step functions. A `System` puts the two ends
together: any datagram in flight may arrive, be lost or be duplicated next, and a timeout may
fire at any moment. The loss simulator is a parameter of each step (the set of slots it lets
through, or a flag for a single acknowledgment); no handler tries a slot twice.

Three numbers tie a well-behaved state to the file: `c` packets read by the sender, `r` packets
written by the receiver, and a horizon `h` up to which an acknowledged slot can be believed.
`Coherent` is the invariant over both windows, both channels and the file. In a run where the
sender may be deceived the receiver can write packets out of order; there the sequence `ks` of the
packet numbers it has written takes the place of `r`, and `Honest` is the invariant. Runs come in
four disciplines:

* `AnyNetwork`: loss, reordering, duplication, timeouts at any time;
* `NoDuplication`: the same without duplication;
* `MatchingAcks`: every acknowledgment the sender consumes names the offset of the slot's present
  occupant, or finds the slot acknowledged already (a check the program does not make);
* `TimelyTimeouts`: no duplication, and a timeout that retransmits fires only when nothing is in
  flight. This holds when a round trip is shorter than the timeout, since each acknowledgment
  restarts the wait.

## What was found

* **Success is never reported wrongly, on any network** (`AgreedOnEveryRun`). With loss, reordering,
  duplication and premature timeouts, for every file: the receiver finishes only with the whole
  file, and the sender reports success only then. The receiver writes each packet in its own slot
  and at least a window after the one before it there, so only the file in order fills the count.
* **The bytes written so far are a prefix of the file as long as acknowledgments match their slots**
  (`PrefixIfAcksMatch`), and timely runs consume only matching acknowledgments
  (`AccurateOnTimelyRuns`, `PrefixIfTimely`).
* **Without timing assumptions that prefix property holds for exactly the files of at most two
  windows** (`PrefixWhateverTheTiming`, `PrefixOnAnyNetwork`): `wait_ack` matches an acknowledgment
  by slot only, so a second acknowledgment for packet 0 can be taken for one of packet
  `windowSize`; the sender slides past a packet that never arrived and the receiver writes a later
  one in its place. Such a transfer leaves a wrong partial file, can never finish and is never
  reported as a success (`WrongRunIsLost`, `WrongIsNeverFinished`). With the shipped settings
  (32 slots of 1500 bytes, 25 errors) that concerns files above 96000 bytes. The one other case in which
  only prefixes are written is an error limit of one, under which nothing is ever retransmitted. The paper calls sequence
  numbers unique per packet and says that duplicate acknowledgments are ignored (paper/01, lines 98
  and 116); the code reuses `windowSize` numbers for a window of `windowSize` slots. The model
  follows the code.
* **An empty file can never be transferred** (`SucceedsIffNonEmpty`), although the README promises
  reliable transfer of files: there is no packet to acknowledge, so the sender can only give up.
* **Agreement is one-way.** If the sender reports success the receiver has the whole file; but for
  every non-empty file there is a timely run in which all final acknowledgments are lost and the
  sender fails although the receiver is done (`SenderFailsAlone`, `CompletionIsReportedIffEmpty`).
  `EveryStateVerdict` says of every reachable state whether success is still possible.
* **Without duplication every run is finite, whatever the timing** (`NoEndlessRun`). With it, the
  number of timeouts is bounded only for an empty file or an error limit of one
  (`TimeoutsBoundedIff`): every copy of an acknowledgment starts the errors from zero again.
* **A reported write error is forgotten if it ends the waiting** (`EndingCounts`, `LastCountDecides`):
  `wait_ack` returns on such a byte count like on the end of the transfer, and `main_sender` looks
  only at the byte counts that come later. A packet with a slot number beyond the window ends the
  receiver's loop if it is the very first one to arrive, as no count has been announced then
  (`StrayArrival`).
* **With every client slot busy the search leaves the number one past the end** (`ClaimSlot`): the
  `continue` at src/spqr_server.c:433 belongs to the inner loop, so the parent goes on with it.

## Model

| member | source | states |
|---|---|---|
| `Chunks.CountFormula` | src/protocol.c:326 | the sender's quotient formula is the number of reads of one packet size that consume the file |
| `Chunks.ChunkShape` | src/protocol.c:336-343 | every packet of the file has 1 to packetSize bytes, moves the file to the next offset, and past the last one nothing is read |
| `Chunks.ChunksJoinToFile` | src/protocol.c:333-350 | packetisation round trip: all chunks joined in index order are the file, and any first k of them are its prefix |
| `Chunks.OffsetNamesChunk` | src/protocol.c:342 | two packets with the same cumulative offset are the same packet |
| `Chunks.CountBySize` | src/protocol.c:326 | a file has at most k packets exactly if it has at most k packet sizes of bytes |
| `Receiver.FlagMeansBeyond` | src/protocol.c:47 | between arrivals every slot of the window is flagged received exactly when its stored offset lies beyond the bytes written |
| `Receiver.DuplicateTestMeaning` | src/protocol.c:47 | for every packet of the file below r + windowSize the three-way test means exactly "already written or buffered" |
| `Receiver.WriteBaseStep` | src/protocol.c:71-89 | one drain step writes exactly the next packet, keeps the window's meaning one packet further, and changes nothing about what is in hand |
| `Receiver.DrainRun` | src/protocol.c:67-90 | the iteration cap never cuts off a deliverable packet: the drain ends at an empty base slot with the same packets in hand |
| `Receiver.AnnounceChunk` | src/protocol.c:36-40 | the first packet sets the countdown to the packet count; from then on it is the number of unwritten packets |
| `Receiver.LoopTestMeaning` | src/protocol.c:103 | the countdown is exhausted exactly when every packet is written |
| `Receiver.ReceiveChunk` | src/protocol.c:17-103 | any packet below r + windowSize, in any order and however often, adds exactly itself to what is in hand, the longest contiguous run is written, the acknowledgment names it, and the loop ends exactly with the last packet |
| `Receiver.ArrivalSlots` | src/protocol.c:63-101 | the window after such an arrival, slot by slot: packets written are released with both flags cleared, the others keep what they hold, and the flag of the named slot says whether the acknowledgment got through |
| `ReceiverRuns.ReceiverCorrect` | src/protocol.c:17-105 | for every run with arbitrary loss, duplication and reordering: the output is the file up to the first packet that never arrived, and the loop is left exactly when all packets of a non-empty file arrived |
| `ReceiverTrace.ReceiveTracked` | src/protocol.c:17-103 | one arrival of any packet of the file, however far ahead: the trace of written packets only grows, each in its own slot and a window after the last one there, and the loop ends exactly when it is as long as the file |
| `ReceiverTrace.FullTraceIsFile` | src/protocol.c:70-103 | a trace as long as the file is the file in order |
| `ReceiverRuns.FinishesOnlyWhole` | src/protocol.c:17-105 | for every run on packets of the file, without any bound on how far ahead they are: the output is the written packets joined, and the receiver finishes only with the whole file |
| `ReceiverTrace.BufferedStays` | src/protocol.c:47-64 | whatever arrives, a slot that buffers a packet keeps that packet, and an arrival changes no slot but the one it names |
| `ReceiverRuns.StrayArrival` | src/protocol.c:27-32 | at any moment of such a run a slot number beyond the window is answered by an end-of-transfer acknowledgment, nothing is stored or written, and the loop is left exactly if nothing had arrived before |
| `ReceiverProcess.Process.constructor` | src/protocol.c:112-138 | the initial window array and counters |
| `ReceiverProcess.Process.ReceivePacket` | src/protocol.c:17-103 | the loop body on the array computes `Receive`, with its abort, out-of-range, duplicate and store branches |
| `ReceiverProcess.Process.WriteContiguous` | src/protocol.c:67-90 | the capped drain loop on the array computes `Drain` |
| `ReceiverProcess.Process.SendFinalAcks` | src/protocol.c:172-179 | exactly MAX_RETRIES copies of the end-of-transfer acknowledgment, carrying the bytes written |
| `Sender.TimeoutStaysGood` | src/common.c:143-156 | both updates keep the timeout in range and on the grid of time units, and move it one unit exactly when not at the bound |
| `Sender.FilledLayout` | src/protocol.c:329-350 | the initial fill is a proper window with nothing acknowledged |
| `Sender.RefillStep` | src/protocol.c:266-291 | refilling an acknowledged base puts exactly the next packet of the file there and leaves every other packet's verdict alone |
| `Sender.SlideRun` | src/protocol.c:263-292 | the slide stops only at an unacknowledged base or the end of the file, never because of its count, and sends exactly the packets it reads that pass the loss simulator |
| `Sender.AckMarksOccupant` | src/protocol.c:249-293 | an acknowledgment makes exactly the present occupant of its slot acknowledged, whichever packet it was meant for |
| `SenderRuns.WindowIsExact` | src/protocol.c:207-295 | for every run, in any order of acknowledgments: slot k mod w holds packet k of the last w read, offsets are min((k+1)P, size), the base is c mod w and unacknowledged while bytes remain, the count has not run out, the bytes read are the chunks joined, the timeout is in range |
| `SenderHistory.EventsDecide` | src/protocol.c:222-250 | for every run, from the list of events alone: the errors are the timeouts since the last acknowledgment, the confirmed offset is the highest acknowledged, the timeout is one unit down per data acknowledgment and one up per timeout that retransmits within its bounds, and the waiting has ended exactly by an ending acknowledgment or the last timeout allowed |
| `SenderHistory.ResendIsExact` | src/protocol.c:222-241 | for every run, with any acknowledgments: a timeout sends a slot that passes the loss simulator if and only if it is not both acknowledged and reached by the offset of some acknowledgment of the run; it sends nothing else, in slot order |
| `SenderHistory.FirstPassIsExact` | src/protocol.c:189-204 | the first pass sends exactly the slots that pass, in slot order |
| `SenderHistory.PassStopsAtEmpty` | src/protocol.c:191-203 | on any window only the last packet of a pass can be empty, a passing unacknowledged slot is left out only after one, and exactly the slots sent are flagged |
| `SenderHistory.AckSendsWhatItReads` | src/protocol.c:263-292 | for every run one more data acknowledgment sends exactly the packets it makes the sender read that pass, in file order |
| `SenderHistory.RepeatedAckIsIdle` | src/protocol.c:253-254 | for every run an acknowledgment for a slot already acknowledged changes the errors, the confirmed offset and the timeout only, and sends nothing |
| `SenderHistory.SentFlagMeansSent` | src/protocol.c:229-287 | for every run a slot is flagged sent exactly if its packet has been sent at least once, and nothing is sent that was not read |
| `SenderHistory.CountIsExact` | src/protocol.c:263-269 | for every run the count is the packet count less one for each packet the slide read and one for each read in vain, of which there are no more than acknowledged slots |
| `SenderProcess.Process.constructor` | src/protocol.c:299-350 | counting and filling on the array give `FilledSender` |
| `SenderProcess.Process.SendDataToReceiver` | src/protocol.c:189-204 | the first pass sends and flags exactly the unacknowledged slots that pass the loss simulator, in slot order, up to the first empty packet it transmits |
| `SenderProcess.StartSender` | src/protocol.c:333-358 | fill followed by the first pass gives the initial state of every run |
| `SenderProcess.Process.HandleAck` | src/protocol.c:243-293 | the acknowledgment branch on the array computes `OnAck` |
| `SenderProcess.Process.SlideWindow` | src/protocol.c:263-292 | the slide loop on the array computes `Slide` |
| `SenderProcess.Process.HandleTimeout` | src/protocol.c:222-241 | the timeout branch on the array computes `OnTimeout` |
| `SenderProcess.Process.Resend` | src/protocol.c:228-239 | the retransmission loop sends and flags exactly the offered slots that pass, in slot order |
| `SenderProcess.Process.IncreaseTimeout` | src/common.c:143-148 | the stored timeout becomes `IncreasedTimeout` of itself |
| `SenderProcess.Process.DecreaseTimeout` | src/common.c:151-156 | the stored timeout becomes `DecreasedTimeout` of itself |
| `SenderProcess.Process.FinishTransfer` | src/protocol.c:374-402 | the value returned and the abort packet are those of `Finish` |
| `Agreement.StepStaysHonest` | src/protocol.c:17-402 | every step of either end or of the network keeps the invariant of all runs and only extends the trace of what is written |
| `Agreement.AgreedOnEveryRun` | src/protocol.c:173-179 | agreement on the outcome for every file and every run on any network: the receiver completes only with the whole file, the sender reports success only then, and a file is removed only after failure was reported |
| `Agreement.WrongIsNeverFinished` | src/protocol.c:103 | once the bytes written are not a prefix of the file, no continuation on any network finishes or reports success |
| `Closing.AbortedIffTold` | src/protocol.c:24 | on every run over any network the receiver has given up exactly if a packet with the abort number was delivered to it, and then its output is gone |
| `Closing.StepAborts` | src/protocol.c:24 | an arriving abort packet is the only step that makes the receiver give up; it is not acknowledged and removes the output |
| `Closing.AbortedForGood` | src/protocol.c:156-170 | a receiver that gave up stays as it is and acknowledges nothing in every continuation |
| `Closing.GivingUpIsTold` | src/protocol.c:383-396 | on every run over any network a sender out of errors, once it has returned, has put a packet in flight whose arrival makes a receiver still in its loop give up and remove the file |
| `Closing.SuccessSendsNothing` | src/protocol.c:376-402 | on every such run the sender puts nothing in flight on returning if and only if it reports success, and fails if and only if it is out of errors |
| `Closing.LastCountDecides` | src/protocol.c:365-402 | whatever acknowledgments come late: success exactly if the last byte count is no write error and errors are left, an abort packet exactly if it is none and no errors are left, and the timeout is cleared |
| `Closing.EndingCounts` | src/protocol.c:246 | a byte count beyond the file, a write error and the end-of-transfer number all end the waiting loop, whichever slot is named |
| `Closing.SuccessIffFinalTaken` | src/protocol.c:219-402 | on every run over any network a sender that has returned reports success exactly if it took the final acknowledgment while waiting |
| `Closing.TimeoutOnRuns` | src/protocol.c:307-374 | on every run over any network the timeout is in range until the sender returns, and cleared then |
| `Agreement.InFlightIsKnown` | src/protocol.c:246 | in every run on any network no datagram in flight is out of range for its receiver, only the final acknowledgment ends the waiting loop, and whichever packet arrives first carries the undecremented count |
| `Agreement.NumbersInRange` | src/protocol.c:207-295 | in every run on any network every counter, offset and datagram field stays within the packet count, the file size, the packet size or the error limit, so no integer of the program wraps when these fit its types |
| `Safety.WindowsOverlapOnRuns` | src/protocol.c:263-292 | window synchronisation: sbase <= r <= c <= r + windowSize in every reachable state, with c and r the packets that both ends' byte counts stand for |
| `Safety.BelievedOccupant` | src/protocol.c:249-257 | a matching acknowledgment vouches for the slot's occupant only if the receiver has that packet; one for an unacknowledged packet is for the occupant |
| `Safety.StepKeeps` | src/protocol.c:17-295 | every step of either end or of the channels keeps the invariant, when the acknowledgment it may consume is believable |
| `Safety.PrefixIfAcksMatch` | src/protocol.c:17-402 | end-to-end safety for every run whose consumed acknowledgments match: the output is the first sizeReceived bytes of the file |
| `Safety.PrefixIfTwoWindows` | src/protocol.c:17-402 | the same for every run whatsoever, when the file has at most two windows of packets |
| `Timely.AccurateOnTimelyRuns` | src/protocol.c:249-257 | ack accuracy: at every moment of every timely run each data acknowledgment in flight carries the offset of its slot's occupant, which is unacknowledged and in the receiver's hands |
| `Timely.SelectiveOnTimelyRuns` | src/protocol.c:228-239 | selective retransmission: at every moment of every timely run the disjunctive resend test offers exactly the unacknowledged slots |
| `Timely.FreshStep` | src/protocol.c:17-295 | every timely step keeps at most one datagram in flight per packet, and none for acknowledged packets |
| `Timely.PrefixIfTimely` | src/protocol.c:17-402 | every timely run writes a prefix of the file and consumes only matching acknowledgments |
| `Termination.TimelyRunsEnd` | src/protocol.c:219-258 | a timely run of N packets has at most (N + 1) * maxErrors timeouts and a bounded number of steps, and can go on exactly until the sender has returned, the channels are empty and the receiver is not about to finish |
| `Termination.TimelyRunsReachEnd` | src/protocol.c:219-258 | every timely run can be continued to such an end |
| `Finiteness.StepDescends` | src/protocol.c:219-295 | every step without duplication uses something up: what is unsettled, then old datagrams, then errors left, then datagrams in flight |
| `Finiteness.NoEndlessRun` | src/protocol.c:219-295 | on a network that does not duplicate no run goes on for ever, whatever the timing |
| `Finiteness.TimeoutsBoundedIff` | src/protocol.c:222-243 | on a network that duplicates the number of timeouts is bounded if and only if the file is empty or the error limit is one |
| `Completion.ProgressOnTimelyRuns` | src/protocol.c:222-239 | at every point of a timely run with empty channels and an unfinished receiver a timeout offers the packet the receiver waits for, or the sender's unacknowledged base |
| `Verdict.LosslessTransferSucceeds` | src/protocol.c:298-402 | a loss-free transfer of a non-empty file succeeds without a timeout |
| `Verdict.EmptyFileNeverSucceeds` | src/protocol.c:326-359 | no run of an empty file ends in success on either side |
| `Verdict.SucceedsIffNonEmpty` | src/protocol.c:298-402 | some timely run succeeds if and only if the file is non-empty |
| `Verdict.EveryStateVerdict` | src/protocol.c:172-402 | of every state a timely run can reach: some continuation succeeds if and only if a condition on the phases, the errors and the datagrams in flight holds |
| `Verdict.QuietPointVerdict` | src/protocol.c:172-241 | at every reachable point with both channels empty and the sender waiting, one round of retransmission without losses is enough whenever success is possible at all |
| `Verdict.SenderFailsAlone` | src/protocol.c:172-179 | for every non-empty file a timely run ends with the whole file at the receiver and failure reported by the sender |
| `Verdict.CompletionIsReportedIffEmpty` | src/protocol.c:172-402 | every timely run in which the receiver completes and the sender returns ends in success, if and only if the file is empty |
| `Verdict.StrandedNeverSucceeds` | src/protocol.c:222-227 | with an error limit of one, a lost packet that something has to wait for makes success impossible |
| `Verdict.DoomedNeverSucceeds` | src/protocol.c:222-227 | a sender that gave up, or that waits for a receiver already gone, fails in every continuation |
| `Staleness.WrongRun` | src/protocol.c:249-257 | for every file of more than two windows, a run with one premature timeout (or one duplicated datagram) after which the output is not the prefix it is counted as |
| `Staleness.WrongRunIsLost` | src/protocol.c:249-257 | no continuation of that run finishes the file or reports success |
| `Staleness.PrefixWhateverTheTiming` | src/protocol.c:222-257 | without duplication, all runs write a prefix of the file if and only if it has at most two windows of bytes or the error limit is one |
| `Staleness.PrefixOnAnyNetwork` | src/protocol.c:222-257 | with duplication, all runs write a prefix of the file if and only if it has at most two windows of bytes |
| `Bitmask.WithBitIn` | src/spqr_server.c:111-126 | setting one bit of the packed mask changes that bit only |
| `ClientTable.Table.SetBit` | src/spqr_server.c:111-119 | exactly the named slot takes the given state |
| `ClientTable.Table.GetBit` | src/spqr_server.c:122-126 | one for a busy slot, zero for a free one |
| `ClientTable.Table.ClaimSlot` | src/spqr_server.c:424-435 | the lowest free slot is returned and marked, the result is in range if and only if some slot was free, and then it is the claiming step |
| `ClientTable.Table.FreeSlot` | src/spqr_server.c:454 | on the state of parent and children, the child's call is the freeing step |
| `ClientTable.Table.RecordChild` | src/spqr_server.c:460 | the child's entry is written, and on the state of parent and children this is the recording step |
| `ClientTable.Table.ReapChild` | src/spqr_server.c:470-476 | the first entry naming the child, and its bit, are cleared, nothing else changes, and this is the reaping step |
| `ClientSlots.StepKeeps` | src/spqr_server.c:423-477 | claim, fork, record, free, exit, kill and reap, in any interleaving, keep the slot invariant |
| `ClientSlots.SlotsAreSound` | src/spqr_server.c:423-477 | running children have distinct ports among those of the slots, a busy bit and a parent that knows them; every busy bit belongs to an unreaped child or the claim in progress; with no children left all slots are free |
| `ClientSlots.ReapSparesReusedSlots` | src/spqr_server.c:468-477 | reaping an old child leaves a newer child's slot busy and named |
| `ClientSlots.ReapClears` | src/spqr_server.c:468-477 | in every reachable state reaping unlists the child, leaves no entry naming it, frees its slot if it still owned it, and changes no other slot |
| `ClientSlots.KeepsSlotUntilFreed` | src/spqr_server.c:446-475 | a running child keeps its slot, bit and entry until it frees the slot or is reaped, even if it is killed |
| `ClientSlots.EverySlotComesBack` | src/spqr_server.c:423-477 | from every reachable state, without new clients, a continuation ends with no children and all slots free: one in which all children exit by themselves, and one in which all are killed |

## Left out

- ReceivePacket: requires the abort marker or a slot number of at least 0, because for other negative numbers the program indexes outside its window; the failing calls of `recvfrom`, `sendto` and `fwrite` are not modelled.
- HandleAck: requires a slot number inside a window of at least one slot unless the acknowledgment ends the transfer, for the same reason.
- SendDataToReceiver: the exit on a zero-length `sendto` result is not modelled, only the one on an empty packet.
- NoEndlessRun: gives no number of steps; `TimelyRunsEnd` does, for timely runs.
- ClaimSlot: states the result one past the end when all slots are busy, but not what the program does with it; the later steps assume a free slot.
- Integer widths: numbers are unbounded; `NumbersInRange` shows what must fit the program's types. The error counter is a 16-bit number and never exceeds the error limit while the sender waits.
- A packet whose size exceeds its payload buffer makes `fwrite` read beyond the buffer; the model writes the whole buffer instead. No packet of a file is like that.
- The waiting time of the receiver: it has no timeout, so if a failed sender's single abort packet is lost it waits for ever; the model leaves it in `Receiving`.
- The loop that swallows late acknowledgments ends when `recvfrom` times out; here it may end at any moment, which allows more runs.
- Sockets, addresses, `select`, signals, shared-memory set-up, `fork` itself and the file system: abstract steps, and a byte sequence with a read position.
- Bit writes of parent and children are atomic, and `fork` returns a process id different from every unreaped one.
- The opening and closing handshakes, the command dialogue, draining between two transfers, and datagrams of other transfers.
- Progress bars, file lists, emojis, throughput figures, loss probabilities and build scripts.
