# Verification of the master/worker library

The library runs one computation on several machines. A master cuts a block of bytes into slices,
sends one slice to each worker over TCP, and collects one result packet from each, with a single
`poll` loop over non-blocking sockets. A worker reads its slice, runs a method on several threads,
packs what the threads return into one packet and sends it back. The example program integrates a
function this way.

This project models the library in Dafny and proves that it does what it is for: however the network
fragments and interleaves, whatever fails, a run that succeeds has delivered to every worker exactly
its slice and from every worker exactly its answer; a run that fails leaves nothing behind and has a
real reason; nothing deadlocks or runs for ever; and the distributed integral is the sequential one,
with the exact condition under which that is true of the midpoint rule.

`dafny verify dfyconfig.toml` checks everything.

## How it fits together

- `Common`, `Framing`: the size header as a codec, `SplitPoint` with its 64-bit arithmetic written
  out, length-prefixed packets and nested packets.
- `Protocol`: the master's slots and the worker processes as one transition system over bounded FIFO
  channels. A step moves any positive number of bytes that fit, so every fragmentation and every
  interleaving is a run. Workers may crash, and may turn rogue and write arbitrary bytes. What has gone
  wrong is kept apart by connection: a slot has an excuse to fail only if its own worker has failed or a
  system call of the master has.
- `ProtocolSafety`: one inductive invariant (conservation of bytes in both directions, for every
  worker), and from it stream safety, exact delivery, and that closing early never loses a result.
- `ProtocolProgress`: deadlock freedom for channels of any positive capacity, connection by connection,
  and a bound on the number of steps of every run, faults or not.
- `Network`: the system calls that the master makes. Every call lets the workers take any number of
  steps and then does anything the kernel may do. Its ghost field `sys` is the state of `Protocol`;
  a call can change it only by protocol steps, so whatever the master does is a run of the protocol
  and inherits its theorems.
- `Transfer`, `WorkerStates`, `Master`: `src/master.c`, imperative, proved against `Network`.
- `WorkerIO`, `Packing`, `Threads`, `WorkerRun`, `WorkerProgram`: `src/worker.c`. `Threads` stands for
  the POSIX threads. A `Socket` of `WorkerIO` carries the protocol's state, too: as long as its user does
  what a worker of the protocol does, each call is a step of that worker, and `WorkerProgram` shows that
  a whole worker process never does anything else.
- `Integral`, `IntegralSamples`, `IntegralSplit`, `IntegralWorker`, `IntegralMaster`: the example, over
  exact reals, up to the value that `main` prints. `IntegralSamples` says which points the two summation
  rules look at and with what weight, without reference to how they are computed.

Assumptions: `size_t` is 64 bits and `int` is 32 bits wide; doubles are exact reals (only the values that
pass through memory are assumed to survive it); `patience` counts how often calls may still return
for no good reason (EINTR, spurious readiness), which is finite but arbitrary; when `poll` reports
that the peer closed, all its bytes are readable; TCP connections are FIFO channels.

Two things the proofs brought out:

- Distributing `LongMethod2` does not preserve its answer in general. `IntegralSplit.DistributionIff`
  gives the exact condition, in whole numbers: for every worker, the number of workers times its number of
  threads divides the sequential number of steps. `IntegralSplit.ThreeWorkersDiffer` is a concrete
  configuration that fails it.
- When `pthread_tryjoin_np` fails, the code sets the thread's `joined` flag although the thread was not
  joined, and can then free the record of a running thread: `Threads.Pthreads.ReleasedWhileRunning` is
  that run. This is the only way: in every run, every thread has exited before its record is freed except
  those whose own join has failed.

## Model

| member | source | states |
|---|---|---|
| Common.ClusterEncodeSize | include/common.h:27-32 | the loop writes the 8-byte big-endian header of any 64-bit value and touches no other byte of the buffer |
| Common.ClusterDecodeSize | include/common.h:34-40 | the shifts lose no bit: the result is the 64-bit value whose header the 8 bytes are |
| Common.DecodeEncode | include/common.h:27-40 | decoding undoes encoding for every 64-bit value |
| Common.EncodeDecode | include/common.h:27-40 | encoding undoes decoding for every 8-byte string, so the codec is a bijection |
| Common.HeaderBytes | include/common.h:27-32 | the header written out: byte 0 is the digit of weight 256^7, byte 7 is the value modulo 256 |
| Common.ComputeSplitPoint | include/common.h:53-58 | with every operation taken modulo 2^64, the split form is the exact floor of size * index / parts, also where size * index needs more than 64 bits: the result times parts is at most size * index, and less than parts below it |
| Common.SplitPointParts | include/common.h:53-58 | quotient and remainder part together are the floor of the whole product |
| Common.SplitPointBalanced | include/common.h:53-58 | the parts differ by at most one byte: each has size / parts bytes or one more |
| Common.AllSlicesCover | src/master.c:164-166 | the slices of all workers concatenate to the data: no byte is dropped or sent twice |
| Framing.WantOnFrame | src/worker.c:143-174 | a packet reader asks for no byte beyond the current packet and stops exactly at its end |
| Framing.FramePrefixFree | src/worker.c:143-190 | a stream starts with one packet in one way only |
| Framing.StreamUnique | src/worker.c:143-190 | a stream made by writing packets one after another determines them, empty ones included |
| Framing.ReadBack | src/worker.c:143-174 | cutting one packet off the stream of several gives the first and leaves the stream of the others |
| Framing.PackInjective | src/worker.c:290-301 | the nested packet determines the items, their number, order and sizes |
| Protocol.StepReachable | src/master.c:271-481 | runs are closed under steps, which is what ties each system call of the master to the protocol |
| ProtocolSafety.SoundPeerNeverGone | src/master.c:397-479 | a worker that has closed normally has left enough bytes to complete the current phase, so no peer-closed test can hit it |
| ProtocolSafety.AdvanceKeeps | src/master.c:349-352 | completing a phase neither adds nor loses a byte, and the header read becomes the size of the result buffer |
| ProtocolSafety.WorkerComputeKeeps | src/worker.c:436-441 | a worker that has read a complete packet has read exactly its slice |
| ProtocolSafety.StepInv | src/master.c:271-481 | the invariant (field bounds, phase offsets, contents of `sizeBuffer`, conservation of bytes both ways for every worker, no slot Failed without an excuse of its own) is kept by every step of master, workers and faults |
| ProtocolSafety.ReachableInv | src/master.c:271-481 | every reachable state of master plus workers satisfies the invariant |
| ProtocolSafety.StreamSafety | src/worker.c:143-190 | in every reachable state and for every worker, honest, crashed or rogue: what it has read followed by what is in flight is a prefix of its framed slice; what the master has read followed by what is in flight is what the worker has written, which unless it is rogue is a prefix of its framed answer to that slice; of a Failed slot, what is in flight is still the end of what the worker has written |
| ProtocolSafety.DoneIsDelivered | src/master.c:467-471 | a Done slot holds the first packet its worker ever wrote, and, unless that is rogue, the answer to exactly its slice |
| ProtocolSafety.NoFalseFailure | src/master.c:443-479 | as long as a worker follows the protocol and no call of the master has failed, its slot is not Failed and cannot be made so, however early it closes after its answer and whatever happens to the other workers |
| ProtocolProgress.StepLowers | src/master.c:271-481 | in every state that satisfies the invariant, faults or not, every step of master and workers strictly lowers one measure (remaining states, weighted above any 64-bit size, bytes left in the current phase and bytes on their way, although a result's size is unknown until its header is read), and no fault raises it |
| ProtocolProgress.RunsAreBounded | src/master.c:271-492 | in every run, however many faults strike, master and workers together take at most 14 * 2^64 + 8 steps for each worker |
| ProtocolProgress.NeverStuck | src/master.c:321-481 | deadlock freedom: with any positive channel capacity, for each slot in a reachable state that is not Done and has no excuse to fail, a step other than a fault accepts the next worker or moves this connection on, whatever has happened to the others |
| ProtocolProgress.MaximalRunsDeliver | src/master.c:271-492 | in a run that only faults could continue, every slot without an excuse is Done and its result is the worker's answer to exactly its slice |
| Transfer.WritePart | src/master.c:76-90 | across partial sends, EINTR and a full channel, the offset returned is exactly how far the buffer has entered the channel, the next call resumes there, and pending implies progress whenever there was room |
| Transfer.ReadPart | src/master.c:92-106 | the same for receiving: the buffer is filled with consecutive bytes, failure means a fault or a peer gone before the phase was complete, and a closed connection is never left pending |
| Transfer.RecvInto | src/master.c:94-104 | receiving in several calls fills the buffer as one call would |
| WorkerStates.CarveTask | src/master.c:164-166 | offset and size of a slice stay within the data and select exactly that slice |
| WorkerStates.EnterWorker | src/master.c:159-170 | an accepted worker starts in SendTaskSize at offset 0, with its slice's offset and size, and with that size encoded in `sizeBuffer` |
| WorkerStates.MarkFailed | src/master.c:342-347 | setting a worker to Failed is a protocol step, so it takes a fault of that worker or a failing call of the master |
| WorkerStates.SendPhase | src/master.c:335-395 | both sending states: the slot and the protocol move together, a complete phase is always left, a phase that a closed connection leaves incomplete fails the slot, the slot fails only with an excuse of its own, and any report that matters lowers its work |
| WorkerStates.ReadSizePhase | src/master.c:397-451 | the header is read into `sizeBuffer` and a complete one is never left waiting, the result buffer gets the announced size, an empty result is Done at once, a close that is visible with the last bytes does not fail the worker, a close that leaves the header incomplete does |
| WorkerStates.ReadDataPhase | src/master.c:453-480 | the result is read into its buffer; a full buffer is never left waiting, the worker is Done only after a read that filled it, and a close that leaves it incomplete fails the worker |
| Master.CountDoneAll | src/master.c:271 | `doneWorkers` reaches the capacity exactly when every worker is Done |
| Master.ReportsStay | src/master.c:321-326 | handling one worker leaves the poll reports of the others valid |
| Master.AcceptLeavesReports | src/master.c:314-326 | a worker accepted in a round has no active poll entry in it, and the reports of the others stay valid |
| Master.PolledPending | src/master.c:328-395 | right after poll every report fits the worker's state: a closed connection that is still to be sent to is reported writable |
| Master.Master.PreparePollFds | src/master.c:176-214 | an entry is active exactly for the listener while slots are free, and for an accepted worker in a transfer state, with the events of its direction |
| Master.Master.MasterAcceptWorker | src/master.c:135-174 | at most one more slot is filled: with its slice, in SendTaskSize at offset 0; the others are unchanged, and a connection that is not entered is closed |
| Master.Master.HandleWorker | src/master.c:328-480 | the dispatch on the worker's state changes only that worker and its result, POLLERR or POLLNVAL fails it, after POLLHUP or POLLRDHUP its state is another one, and each useful report lowers its work |
| Master.Master.HandleWorkers | src/master.c:321-481 | the loop keeps `doneWorkers` equal to the number of Done workers, no worker Failed and nothing that is read complete left waiting; it stops at the first failure, of a worker with an excuse of its own, with all later workers as they were, and it does not pass an active entry that reports POLLERR or POLLNVAL; workers without an active entry stay as they were; a useful report lowers the total work |
| Master.Master.HandleRound | src/master.c:307-485 | any of the four error bits of the listener ends the run; a round with a truthful report lowers the total work, uses up patience, or ends the run; no worker is Failed if the run goes on; a worker accepted in the round has not been handled in it |
| Master.Master.PollTimeoutMs | src/master.c:66-74 | -1 exactly without a limit; otherwise the time that is left, or 0, only when the deadline has passed |
| Master.Master.PollSetNeverDead | src/master.c:176-214 | whenever the loop polls, that is with a worker not Done and none Failed, some descriptor is active, whatever faults there have been |
| Master.Master.NoLostWakeup | src/master.c:176-214 | poll never sleeps through work: whenever the loop polls, for each slot that is not Done and has no excuse to fail, the listener is active if the slot is free; otherwise its entry is active, and the bits that the kernel has for it wake the master up to something useful, or its worker can take a step |
| Master.Master.ClosedWakes | src/master.c:197-207 | a closed connection of a slot in a transfer state always wakes the master up, also when the slot has an excuse to fail: the bits that the kernel has for its entry include POLLRDHUP |
| Master.Master.PollRound | src/master.c:271-491 | one iteration keeps the loop invariant, with no worker Failed while the status is 0, and lowers the work left, or uses up patience, or ends the run; it ends the run if the timer has gone off, and it returns 0 after handling a report only if the clock, read once more, is within the limit |
| Master.Master.AwaitReports | src/master.c:271-305 | with a limit, poll is asked to return by the deadline; the run is given up once the timer has gone off, and only after a fault or at the deadline |
| Master.Master.PollLoop | src/master.c:267-492 | the loop terminates, with every worker Done within the limit or with status 1 after a fault or when the time is up; with a negative limit always with status 1 |
| Master.Master.CloseAllWorkers | src/master.c:116-123 | every accepted socket is closed once; a worker that was Done stays Done and every other accepted worker is Failed |
| Master.Master.FreeResults | src/master.c:125-133 | every result is empty |
| Master.Master.MasterRun | src/master.c:240-504 | all or nothing: 0 with all workers Done, every result the answer to exactly its slice (the first packet of a rogue worker), and the clock not past the limit; 1 with all results empty, all sockets closed, exactly the accepted workers that the protocol has not brought to Done marked Failed, and only for bad arguments, which change nothing, after a fault, or when the time is up; a negative limit always gives 1; the timer is stopped |
| Master.Master.MasterDestroy | include/master.h:63-82 | after either outcome, every connection still open is closed exactly once, and so is the listener |
| WorkerIO.WriteAll | src/worker.c:92-118 | the whole buffer goes out in order however the calls fragment it; on failure, which takes a failing call, a proper prefix has gone out; on the next part of an answer, every call is a step of the protocol |
| WorkerIO.ReadAll | src/worker.c:120-141 | the buffer is filled with the next bytes of the stream; it fails only if a call has failed or the stream has ended; on a part of a task, every call is a step of the protocol |
| WorkerIO.ReadPacket | src/worker.c:143-174 | exactly one frame is taken off the stream; it fails only if a call has failed or the stream has ended |
| WorkerIO.WritePacket | src/worker.c:176-190 | exactly one frame goes out; on failure, which takes a failing call, a proper prefix of it |
| Packing.AddSize | src/worker.c:263-270 | the addition is refused exactly when it would wrap |
| Packing.PackSize | src/worker.c:273-282 | the packet takes 8 bytes, and for each item 8 more than its size |
| Packing.PackedSize | src/worker.c:272-282 | the sizing pass succeeds exactly when every result is valid and the true packet size fits, and then it is that size |
| Packing.FillPacket | src/worker.c:290-301 | every write of the filling pass is inside the buffer, which ends up full and equal to the packing of the results in index order |
| Packing.PackThreadResults | src/worker.c:272-307 | it succeeds exactly when every thread has returned a packet whose data is not NULL unless its size is 0, the size is below 2^64 and there is memory; then the packet is the packing of the results, otherwise the old packet stays |
| WorkerRun.JoinReadyThreads | src/worker.c:234-261 | `joinedThreads` is the number of `joined` flags, no thread is joined twice, flags are never lowered, and the status is 1 exactly if a thread joined in this round had been cancelled or could not be joined |
| WorkerRun.CancelUnjoinedThreads | src/worker.c:226-232 | every created thread that is not joined is asked to cancel, and nothing else changes |
| WorkerRun.CreateThreads | src/worker.c:482-540 | threads are created in order with their index, the count and the task, thread i on core firstCore + i % cores; after a failing call no further thread is created, so that fewer than wanted exist; exactly at the deadline it cancels, once, and creates no more; if the timer has gone off, the limit has passed or the master is gone before, it creates none |
| WorkerRun.JoinThreads | src/worker.c:542-562 | the loop terminates, at the latest through the deadline and the cancellation, with every created thread marked joined; the status is 1 exactly if a call failed or the deadline was noticed; the threads are cancelled exactly if it was noticed, once |
| WorkerRun.JoinRound | src/worker.c:542-562 | while a thread is not joined, a master that is gone gives status 1, and a timer that has gone off or a limit that has passed gets the threads cancelled; otherwise the round comes closer to the end |
| WorkerRun.JoinedOrExited | src/worker.c:241-254 | a thread marked joined has exited, unless its own join has failed |
| Threads.Pthreads.ReleasedWhileRunning | src/worker.c:242-251 | the run in which a record is freed while its thread is running: one thread is created, its join fails, its flag is set all the same, and the records are released |
| WorkerRun.ItemsAreAnswers | src/worker.c:494-499 | in whatever order the threads finish, the records hold the answers by thread index |
| WorkerRun.FinishedPacking | src/worker.c:570-572 | packing the records succeeds exactly when every thread could be configured and every answer is valid, and gives the worker's answer |
| WorkerRun.Worker.WorkerRun | src/worker.c:447-579 | bad resources, down to firstCore + cores above 1024, give 1 and touch nothing; otherwise 0 exactly when no call failed, the deadline was not noticed, every thread was configured and every answer is valid; then the clock is not past the limit, all threads were created, each on its core, none cancelled, and the result is the packing of the answers by index; otherwise the result is unchanged; a master that is gone at the start gives 1; records are released only after every thread is marked joined, and every thread has then exited except those whose own join has failed; without a limit no deadline is noticed; the timer is stopped |
| WorkerProgram.WorkerSendResult | src/worker.c:581-598 | the framed result goes out, or a prefix of it and an error; nothing is sent without a socket or to a master that is gone |
| WorkerProgram.WorkerMain | examples/integral_worker.c:106-128 | every call of a worker process on its socket is a step of the protocol's worker, so every state on its way is reachable; it reads exactly its slice and ends finished with its whole framed answer, its threads joined within the limit, or crashed after a prefix of it; it is never rogue and fails only for a reason |
| Integral.LongMethod | examples/integral.c:36-44 | the loop sums f over the integers between the truncated bounds |
| Integral.LongMethod2 | examples/integral.c:13-34 | the loop computes the midpoint rule: one rectangle of the step width at the midpoint of every step |
| IntegralSamples.LongMethodSamples | examples/integral.c:36-44 | which integers the sum visits, written out: k counts once, exactly if it is not below the lower bound and below the upper one, both cut towards zero |
| IntegralSamples.LongMethodMisses | examples/integral.c:36-44 | no point between the integers counts |
| IntegralSamples.LongMethodLinear | examples/integral.c:36-44 | the sum is linear in f |
| IntegralSamples.LongMethodLocal | examples/integral.c:36-44 | functions that agree wherever a spike would be seen have the same sum |
| IntegralSamples.LongMethod2Samples | examples/integral.c:21-33 | which points the rule samples and with what weight, written out: the midpoints of n equal steps, each with the width of a step, where n is 200000000 times the length, cut to an integer, but at least 1 |
| IntegralSamples.LongMethod2Misses | examples/integral.c:13-34 | no other point counts, and none at all if the interval is empty or backwards |
| IntegralSamples.LongMethod2Linear | examples/integral.c:26-33 | the rule is linear in f |
| IntegralSamples.LongMethod2Local | examples/integral.c:26-33 | functions that agree wherever a spike would be seen have the same value |
| Integral.LongDistributes | examples/integral.c:36-44 | over any chain of pieces, forwards or backwards, the sums of `LongMethod` telescope to the sum over the whole |
| Integral.AffineDistributes | examples/integral.c:13-34 | over any forward chain of pieces, the sums of `LongMethod2` for c + m * x are its exact integral |
| Integral.SameGridSuffices | examples/integral.c:26-33 | pieces that share the step width of the whole interval add up to the sequential sum for every function |
| Integral.SameGridNecessary | examples/integral.c:26-33 | if the pieces add up for the function that is 1 at the first sample of a piece and 0 elsewhere, that piece has the step width of the whole |
| Integral.MidpointDistributesIff | examples/integral.c:13-34 | the pieces add up to the sequential `LongMethod2` for every function if and only if every piece has the step width of the whole interval |
| IntegralSplit.CutStep | examples/integral_worker.c:48-50 | all parts of a cut have the same length |
| IntegralSplit.AllPiecesChain | examples/integral_worker.c:48-50 | the pieces of all threads of all workers form one chain from the first to the last bound, in the direction of the interval |
| IntegralSplit.DistributedLongMethod | examples/integral_master.c:108-143 | the threads' total of `LongMethod` is the sequential value for every number of workers, all thread counts and all bounds |
| IntegralSplit.DistributedAffine | examples/integral_master.c:108-143 | the threads' total of `LongMethod2` is the exact integral of c + m * x |
| IntegralSplit.DistributedLongMethod2 | examples/integral_master.c:108-143 | the threads' total of `LongMethod2` is the sequential value for every function exactly when the interval is empty or backwards or all step widths agree |
| IntegralSplit.SameGridIffDivides | examples/integral.c:21-26 | all step widths are the sequential one exactly if, for every worker, the number of workers times its number of threads divides the sequential number of steps |
| IntegralSplit.DistributionIff | examples/integral_worker.c:48-53 | both methods in one: distribution preserves the answer for every function if and only if the method is `LongMethod`, the interval is empty or backwards, or, for every worker, the number of workers times its number of threads divides the sequential number of steps |
| IntegralSplit.WholePiecesDistribute | examples/integral.c:21-26 | if LONG_METHOD_STEPS times the length of every piece is a positive integer, `LongMethod2` is unchanged |
| IntegralSplit.EqualGridDistributes | examples/integral_worker.c:48-50 | equal thread counts, with LONG_METHOD_STEPS times the common piece length a positive integer, leave `LongMethod2` unchanged |
| IntegralSplit.ThreeWorkersDiffer | examples/integral_worker.c:98-102 | on the example's interval, three workers with the default two threads change the value for some function: 6 does not divide 200000000 |
| IntegralWorker.ThreadAnswer | examples/integral_worker.c:32-55 | a thread answers 8 bytes that decode to the value of its part of the task |
| IntegralWorker.AnswersValue | examples/integral_worker.c:32-55 | the decoded answers of all threads sum to the total over the parts of the task |
| IntegralWorker.IntegralAnswerable | examples/integral_worker.c:32-55 | for every task of the example all threads give valid packets whose packing fits into a size_t |
| IntegralWorker.IntegralWorkerMain | examples/integral_worker.c:86-128 | the example's worker process: 0 after reading exactly its task and sending the whole framed packet of its threads' answers; 1 only if a call failed, the time was up, a thread could not be configured or the resources are bad, and then it has crashed after a prefix of that packet |
| IntegralMaster.FindItem | examples/integral_master.c:49-59 | a record is accepted exactly when its header says 8 and all its bytes are there; no subtraction wraps |
| IntegralMaster.ParsedIsPrefix | examples/integral_master.c:48-65 | on the packing of some records, what has been parsed is a prefix of them and the next one is where the parser looks |
| IntegralMaster.AddPackedResults | examples/integral_master.c:36-68 | accepts exactly the packings of 8-byte records and adds all of them; otherwise it names the flaw and has added the records before it; at most size / 16 + 1 records are looked at, however large the count |
| IntegralMaster.MakeTasks | examples/integral_master.c:108-113 | the loop stores the part of each worker |
| IntegralMaster.WorkerTaskParts | examples/integral_master.c:108-113 | the parts are consecutive, from the first bound to the last, all of the same length, each with an equal share of `eps` |
| IntegralMaster.SliceIsTask | examples/integral_master.c:123 | the byte slice of each worker is exactly its task |
| IntegralMaster.AddAll | examples/integral_master.c:133-143 | the accumulated value is the sum of what all packets hold; it fails only on a packet that is no packing of results |
| IntegralMaster.SharesAddUp | examples/integral_master.c:108-143 | the workers' shares add up to the total over the pieces of all threads |
| IntegralMaster.RunCluster | examples/integral_master.c:123-143 | whatever the network does, status 0 without a rogue worker means the value is the sum of the workers' shares, collected within the limit; status 1 has a real reason; every connection and the listener are closed |
| IntegralMaster.IntegralMain | examples/integral_master.c:70-153 | end to end: with status 0 and no rogue worker, the printed value is the total over all threads' pieces, and the sequential answer wherever distribution preserves it, always so for `LongMethod`; it was collected within the limit; status 1 always without memory or socket, and only without those or a positive number of workers, after a fault, or when the time is up; every connection and the listener are closed |

## Left out

- Real sockets: `getaddrinfo`, `connect`, `bind`, `listen`, socket options and keepalive settings (src/common_multiplexing.c, `WorkerInit`) are calls that may fail.
- Signals and the interval timer of src/deadline_timer.c: the deadline is a flag that can be raised once the clock has reached it. The "already reported" flag and all printing are left out.
- Failure of `clock_gettime`, which makes `NowMs` return -1.
- A connection that breaks with an error after the worker's whole answer has arrived: POLLERR counts as a fault.
- A second run on the same `Master`, which would start with the slots of the first.
- A result size above SIZE_MAX: with a 64-bit `size_t` the branch cannot be taken.
- Master.Master.MasterRun: without a positive limit poll has no timeout; a poll that nothing would ever end is counted as a failing call, and the clause that names the reasons for status 1 says nothing more, because the clock always meets it. A NULL master is not modelled.
- WorkerRun.Worker.WorkerRun: without a positive limit the join loop is assumed to see every thread end after some time. A NULL worker or method and the overflow of `firstCore + cores` as a 32-bit sum are not modelled, nor is the freeing of the threads' results by `DestroyThreadResults`. The answer of a thread is a function of its task, so a method with side effects is not covered.
- WorkerProgram.WorkerMain: a receive on which nothing ever arrives is counted as the end of the stream, which the socket timeouts turn into an error.
- WorkerStates.TakeResultSize: when the result buffer cannot be allocated, the C code has already stored the announced size in the slot and in the result; the model leaves the slot's size as it was. The run then fails and the results are emptied.
- WorkerStates.SendPhase: the C code repeats the same statements for the two sending states; the model has them once.
- Integral.LongMethod2: rounding of doubles, and the undefined conversion of a number of steps that does not fit into `long`.
- Integral.LongMethod: the undefined conversion of bounds that do not fit into `long`, and the parameter `eps`, which neither method uses.
- IntegralWorker.ThreadAnswer: the allocation of the result packet is assumed to succeed; its failure would make the answer invalid, which `WorkerRun` reports.
- IntegralMaster.IntegralMain: argument parsing, `MasterInit` beyond its check of the worker count, and the freeing of the program's own arrays.
- Records of workers and packets are values in arrays, where C updates structs in place; aliasing between them is not modelled.
- The functions that the example integrates and the commented-out Simpson rule: the theorems hold for every function.
