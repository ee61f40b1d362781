/** What the master does with one worker after a poll: the body of the loop over the workers in
    `MasterRun` (src/master.c). The caller's struct is passed in and handed back. */
module WorkerStates {
  import opened Common
  import opened Protocol
  import opened ProtocolSafety
  import opened ProtocolProgress
  import opened Network
  import opened Transfer

  /** What a slot's poll entry asks for: its transfer direction and the peer's close, or nothing. */
  function WantedEvents(slot: MasterWorker): PollBits {
    NO_BITS.(pollIn := slot.Reading(), pollOut := slot.Sending(), rdhup := slot.Sending() || slot.Reading())
  }

  predicate Active(slot: MasterWorker) {
    slot.Sending() || slot.Reading()
  }

  /** What every round leaves of a slot: it has not failed, and what it reads is not complete, so that
      there is something to wait for. */
  predicate Steady(slot: MasterWorker) {
    slot.state != Failed && (slot.Reading() ==> slot.transferOffset < slot.PhaseSize())
  }

  /** What is known of a poll report until its worker is handled. */
  predicate Reported(slot: MasterWorker, link: Link, revents: PollBits, own: bool) {
    var excused := own || !Honest(link.proc);
    && (revents.pollIn ==> slot.Reading())
    && (revents.pollOut ==> slot.Sending())
    && (revents.PeerClosed() ==> link.closed)
    && (revents.PeerClosed() && !excused ==> revents.pollIn || revents.pollOut)
    && (revents.Broken() ==> excused)
  }

  /** The descriptors of the first `count` accepted connections. */
  function Descriptors(count: int): (fds: set<int>)
    ensures forall fd :: fd in fds <==> 0 <= fd < count
  {
    if count <= 0 then {} else Descriptors(count - 1) + {count - 1}
  }

  // ----- Accepting a worker -----

  /** The part of `data` that worker `index` gets. */
  method CarveTask(data: seq<byte>, index: nat, parts: nat) returns (taskOffset: nat, taskSize: nat)
    requires |data| < WORD && index < parts <= INT_MAX
    ensures taskOffset + taskSize <= |data|
    ensures data[taskOffset..taskOffset + taskSize] == Slice(data, index, parts)
  {
    SplitPointMono(|data|, index, parts);
    taskOffset := ComputeSplitPoint(|data|, index, parts);
    var taskEnd := ComputeSplitPoint(|data|, index + 1, parts);
    taskSize := taskEnd - taskOffset;
  }

  /** The kernel's part of `MasterAcceptWorker`: accept() and the socket options, undone on failure. */
  method AcceptSocket(net: Kernel, next: nat) returns (workerSocket: int, failed: bool)
    requires net.Valid() && next == net.sys.count < |net.cfg.tasks|
    requires net.open == Descriptors(next)
    modifies net`links, net`sys, net`patience, net`open, net`nonBlocking
    ensures net.Valid() && net.Elapsed() && LaterLinks(old(net.links), net.links)
    ensures net.sys == old(net.sys).(links := net.links, faults := net.sys.faults)
    ensures workerSocket == -1 || workerSocket == next
    ensures net.open == Descriptors(if workerSocket == -1 then next else next + 1)
    ensures workerSocket == -1 ==> if failed then net.sys.faults.any else net.patience < old(net.patience)
    ensures workerSocket != -1 ==> !failed && workerSocket in net.nonBlocking
  {
    var again;
    workerSocket, again := net.AcceptConnection(next);
    if workerSocket == -1 {
      return -1, !again;
    }
    var ok := ConfigureSocket(net, workerSocket);
    if !ok {
      net.Close(workerSocket);
      return -1, true;
    }
    failed := false;
  }

  /** The socket options, then the non-blocking mode. */
  method ConfigureSocket(net: Kernel, fd: int) returns (ok: bool)
    requires net.Valid()
    modifies net`links, net`sys, net`nonBlocking
    ensures net.Valid() && net.Elapsed() && LaterLinks(old(net.links), net.links)
    ensures net.sys == old(net.sys).(links := net.links, faults := net.sys.faults)
    ensures if ok then fd in net.nonBlocking else net.sys.faults.any
  {
    ok := net.MayFail();
    if ok {
      ok := net.SetNonBlocking(fd);
    }
  }

  /** Fills in the slot of an accepted worker, whose calls never wait, and lets the protocol see it. */
  method EnterWorker(net: Kernel, next: nat, taskOffset: nat, taskSize: nat) returns (worker: MasterWorker)
    requires net.Valid() && next == net.sys.count < |net.cfg.tasks|
    requires taskSize == |net.cfg.tasks[next]| < WORD && next in net.nonBlocking
    modifies net`sys
    ensures net.Valid()
    ensures net.sys == old(net.sys).(count := next + 1, slots := old(net.sys.slots)[next := worker])
    ensures worker.state == SendTaskSize && worker.transferOffset == 0 && worker.socketFd == next
    ensures worker.taskOffset == taskOffset && worker.taskSize == taskSize && worker.sizeBuffer == EncodeSize(taskSize)
  {
    var sizeBuffer := new byte[HEADER_SIZE];
    ClusterEncodeSize(taskSize, sizeBuffer, 0);
    assert sizeBuffer[..] == EncodeSize(taskSize);
    worker := MasterWorker(next, SendTaskSize, 0, taskOffset, taskSize, 0, sizeBuffer[..]);
    net.Take(Accept(taskOffset));
  }

  // ----- The state changes as steps of the protocol -----

  /** From `a` to `b`, apart from what time does, only slot `i` has changed. */
  ghost predicate SlotChanged(a: System, b: System, i: nat, slot: MasterWorker) {
    i < |a.slots| && b == a.(slots := a.slots[i := slot], links := b.links, faults := b.faults)
  }

  /** The same, with the slot's result. */
  ghost predicate PeerChanged(a: System, b: System, i: nat, slot: MasterWorker, result: seq<byte>) {
    && i < |a.slots| && i < |a.results|
    && b == a.(slots := a.slots[i := slot], results := a.results[i := result], links := b.links, faults := b.faults)
  }

  lemma FailStep(cfg: Config, s: System, i: nat)
    requires s.Shape(cfg) && i < s.count && Active(s.slots[i])
    requires s.Excused(i) || PeerGone(s.At(i))
    ensures Enabled(cfg, s, MasterStep(i, MFail))
    ensures Apply(cfg, s, MasterStep(i, MFail)) == s.(slots := s.slots[i := s.slots[i].(state := Failed)])
  {
    assert s.links == s.links[i := s.links[i]] && s.results == s.results[i := s.results[i]];
  }

  lemma AdvanceStep(cfg: Config, s: System, i: nat, blank: seq<byte>)
    requires s.Shape(cfg) && i < s.count && Active(s.slots[i])
    requires s.slots[i].transferOffset == s.slots[i].PhaseSize()
    requires s.slots[i].state == ReadResultSize ==>
             |s.slots[i].sizeBuffer| == HEADER_SIZE && |blank| == DecodeSize(s.slots[i].sizeBuffer)
    ensures Enabled(cfg, s, MasterStep(i, MAdvance(blank)))
    ensures var q := Advance(s.At(i), blank);
            Apply(cfg, s, MasterStep(i, MAdvance(blank))) ==
              s.(slots := s.slots[i := q.slot], results := s.results[i := q.result])
  {
    assert s.links == s.links[i := s.links[i]];
  }

  /** The bounds that the invariant puts on a slot in a transfer state. */
  lemma SlotBounds(cfg: Config, s: System, i: nat)
    requires cfg.Valid() && Reachable(cfg, s) && i < s.count && s.slots[i].state != Failed
    ensures var slot := s.slots[i];
            && slot.transferOffset <= slot.PhaseSize() < WORD
            && slot.socketFd == i
            && |slot.sizeBuffer| == HEADER_SIZE
            && (slot.Sending() ==> |Outgoing(cfg, i, slot)| == slot.PhaseSize())
            && (slot.Reading() ==> |Incoming(s.At(i))| == slot.PhaseSize())
            && slot.taskSize == |cfg.tasks[i]| < WORD
            && (slot.state == ReadResultSize ==> s.results[i] == [])
  {
    ReachableInv(cfg, s);
    assert PeerInv(cfg, i, s.At(i));
  }

  /** Completing a phase, or moving bytes in it, lowers the work left. */
  lemma AdvanceWork(slot: MasterWorker, next: MasterWorkerState, offset: nat, resultSize: nat)
    requires Active(slot) && slot.taskSize < WORD && (next == ReadResultData ==> resultSize < WORD)
    requires offset <= slot.PhaseSize()
    requires match slot.state
             case SendTaskSize => next == SendTaskData
             case SendTaskData => next == ReadResultSize
             case ReadResultSize => next == ReadResultData || next == Done
             case _ => next == Done
    ensures var after := slot.(transferOffset := 0, state := next, resultSize := resultSize);
            SlotWork(after) < SlotWork(slot.(transferOffset := offset))
  {
  }

  lemma OffsetWork(slot: MasterWorker, offset: nat)
    requires Active(slot)
    requires slot.transferOffset <= offset <= slot.PhaseSize()
    ensures SlotWork(slot.(transferOffset := offset)) <= SlotWork(slot)
    ensures slot.transferOffset < offset ==> SlotWork(slot.(transferOffset := offset)) < SlotWork(slot)
  {
  }

  /** `worker->state = Failed`, allowed only after a fault or when the peer is gone; the protocol
      shows that a fault has happened in either case. */
  method MarkFailed(net: Kernel, i: nat, worker: MasterWorker) returns (failed: MasterWorker)
    requires net.Valid() && i < net.sys.count && worker == net.sys.slots[i] && Active(worker)
    requires net.sys.Excused(i) || PeerGone(net.sys.At(i))
    modifies net`sys
    ensures net.Valid() && net.sys.faults.any && net.sys.Excused(i)
    ensures failed == worker.(state := Failed)
    ensures net.sys == old(net.sys).(slots := old(net.sys.slots)[i := failed])
  {
    ReachableInv(net.cfg, net.sys);
    assert PeerInv(net.cfg, i, net.sys.At(i)) && (!net.sys.faults.any ==> Sound(net.sys.At(i)));
    if !net.sys.Excused(i) {
      SoundPeerNeverGone(net.cfg, i, net.sys.At(i));
      assert false;
    }
    FailStep(net.cfg, net.sys, i);
    net.Take(MasterStep(i, MFail));
    failed := worker.(state := Failed);
  }

  /** The state after a completed phase other than the reading of the size header. */
  function NextState(state: MasterWorkerState): MasterWorkerState {
    match state
    case SendTaskSize => SendTaskData
    case SendTaskData => ReadResultSize
    case _ => Done
  }

  method CompletePhase(net: Kernel, i: nat, worker: MasterWorker) returns (after: MasterWorker)
    requires net.Valid() && i < net.sys.count && worker == net.sys.slots[i]
    requires Active(worker) && worker.state != ReadResultSize && worker.transferOffset == worker.PhaseSize()
    modifies net`sys
    ensures net.Valid() && net.sys == old(net.sys).(slots := old(net.sys.slots)[i := after])
    ensures after == worker.(transferOffset := 0, state := NextState(worker.state))
    ensures SlotWork(after) < SlotWork(worker)
  {
    SlotBounds(net.cfg, net.sys, i);
    AdvanceWork(worker, NextState(worker.state), worker.transferOffset, worker.resultSize);
    AdvanceStep(net.cfg, net.sys, i, []);
    assert net.sys.results == net.sys.results[i := net.sys.results[i]];
    net.Take(MasterStep(i, MAdvance([])));
    after := worker.(transferOffset := 0, state := NextState(worker.state));
  }

  /** What handling a worker ensures, in terms of the worker before and after. */
  predicate Progressed(room: nat, link: Link, revents: PollBits, before: MasterWorker, after: MasterWorker,
                       failed: bool) {
    && after.taskOffset == before.taskOffset && after.taskSize == before.taskSize && after.socketFd == before.socketFd
    && (failed <==> after.state == Failed)
    && (Active(after) || after.state == Done || after.state == Failed)
    && SlotWork(after) <= SlotWork(before)
    && (!failed && Useful(room, link, revents) ==> SlotWork(after) < SlotWork(before))
  }

  /** The peer-closed test at the end of each state: the peer closed, and the phase is still not over. */
  method FailIfClosed(net: Kernel, i: nat, worker: MasterWorker, phase: MasterWorkerState, revents: PollBits)
    returns (after: MasterWorker, failed: bool)
    requires net.Valid() && i < net.sys.count && worker == net.sys.slots[i]
    requires revents.PeerClosed() && worker.state == phase ==>
             Active(worker) && (net.sys.Excused(i) || PeerGone(net.sys.At(i)))
    modifies net`sys
    ensures net.Valid() && net.sys == old(net.sys).(slots := old(net.sys.slots)[i := after])
    ensures failed <==> revents.PeerClosed() && worker.state == phase
    ensures after == if failed then worker.(state := Failed) else worker
    ensures failed ==> net.sys.faults.any && net.sys.Excused(i)
  {
    after, failed := worker, false;
    if revents.PeerClosed() && worker.state == phase {
      after := MarkFailed(net, i, worker);
      failed := true;
    }
  }

  const WRITABLE := NO_BITS.(pollOut := true)

  /** Sends what fits and advances when the phase is complete. */
  method SendMore(net: Kernel, i: nat, worker: MasterWorker, buffer: seq<byte>)
    returns (after: MasterWorker, failed: bool)
    requires net.Valid() && i < net.sys.count && worker == net.sys.slots[i]
    requires worker.Sending() && worker.socketFd == i && buffer == Outgoing(net.cfg, i, worker)
    modifies net`links, net`sys, net`patience
    ensures net.Valid() && net.Elapsed()
    ensures LaterOthers(old(net.links), net.links, i) && Later(old(net.links[i]), net.links[i])
    ensures SlotChanged(old(net.sys), net.sys, i, after)
    ensures Progressed(net.cfg.room, old(net.links[i]), WRITABLE, worker, after, failed)
    ensures after.state == worker.state || after.state == NextState(worker.state) || after.state == Failed
    ensures after.state == worker.state ==> after.transferOffset < after.PhaseSize()
    ensures after.state == NextState(worker.state) ==> SlotWork(after) < SlotWork(worker)
    ensures !failed ==> Steady(after)
    ensures failed ==> net.sys.faults.any && net.sys.Excused(i)
  {
    SlotBounds(net.cfg, net.sys, i);
    var status, offset := WritePart(net, worker.socketFd, buffer, worker.PhaseSize(), worker.transferOffset);
    after := worker.(transferOffset := offset);
    OffsetWork(worker, offset);
    failed := false;
    if status.TransferFailed? {
      after := MarkFailed(net, i, after);
      failed := true;
    } else if status.TransferComplete? {
      after := CompletePhase(net, i, after);
    }
  }

  /** Both sending states: send, and give up on a peer that closed before the phase was complete. */
  method SendPhase(net: Kernel, i: nat, worker: MasterWorker, buffer: seq<byte>, revents: PollBits)
    returns (after: MasterWorker, failed: bool)
    requires net.Valid() && i < net.sys.count && worker == net.sys.slots[i]
    requires worker.Sending() && worker.socketFd == i && buffer == Outgoing(net.cfg, i, worker)
    requires Reported(worker, net.links[i], revents, net.sys.faults.own) && !revents.Broken()
    modifies net`links, net`sys, net`patience
    ensures net.Valid() && net.Elapsed() && LaterOthers(old(net.links), net.links, i)
    ensures SlotChanged(old(net.sys), net.sys, i, after)
    ensures Progressed(net.cfg.room, old(net.links[i]), revents, worker, after, failed)
    ensures after.state == worker.state || after.state == NextState(worker.state) || after.state == Failed
    ensures after.state == worker.state && revents.pollOut ==> after.transferOffset < after.PhaseSize()
    ensures !failed ==> Steady(after)
    ensures revents.hup || revents.rdhup ==> after.state != worker.state
    ensures failed ==> net.sys.faults.any && net.sys.Excused(i)
  {
    after := worker;
    if revents.pollOut {
      after, failed := SendMore(net, i, worker, buffer);
      if failed {
        return;
      }
    }
    after, failed := FailIfClosed(net, i, after, worker.state, revents);
  }

  const READABLE := NO_BITS.(pollIn := true)

  /** Reads more of the size header; when it is complete, the result buffer is allocated, or, for an
      empty result, the worker is Done. */
  method ReadHeader(net: Kernel, i: nat, worker: MasterWorker, packet: ClusterPacket)
    returns (after: MasterWorker, result: ClusterPacket, failed: bool)
    requires net.Valid() && i < net.sys.count && worker == net.sys.slots[i] && packet.data == net.sys.results[i]
    requires worker.state == ReadResultSize && worker.socketFd == i
    modifies net`links, net`sys, net`patience
    ensures net.Valid() && net.Elapsed()
    ensures LaterOthers(old(net.links), net.links, i) && Later(old(net.links[i]), net.links[i])
    ensures PeerChanged(old(net.sys), net.sys, i, after, result.data)
    ensures Progressed(net.cfg.room, old(net.links[i]), READABLE, worker, after, failed)
    ensures after.state == ReadResultData || after.state == Done ==> result.size == after.resultSize
    ensures after.state == ReadResultSize ==> after.transferOffset < HEADER_SIZE && !old(net.links[i].closed)
    ensures !failed ==> Steady(after)
    ensures failed ==> net.sys.faults.any && net.sys.Excused(i)
  {
    SlotBounds(net.cfg, net.sys, i);
    result := packet;
    var status, filled, offset := ReadPart(net, worker.socketFd, worker.sizeBuffer, HEADER_SIZE, worker.transferOffset);
    after := worker.(sizeBuffer := filled, transferOffset := offset);
    OffsetWork(worker.(sizeBuffer := filled), offset);
    failed := false;
    if status.TransferFailed? {
      after := MarkFailed(net, i, after);
      failed := true;
    } else if status.TransferComplete? {
      after, result, failed := TakeResultSize(net, i, after, result);
    }
  }

  /** The state in which the size header is read. */
  method ReadSizePhase(net: Kernel, i: nat, worker: MasterWorker, packet: ClusterPacket, revents: PollBits)
    returns (after: MasterWorker, result: ClusterPacket, failed: bool)
    requires net.Valid() && i < net.sys.count && worker == net.sys.slots[i] && packet.data == net.sys.results[i]
    requires worker.state == ReadResultSize && worker.socketFd == i
    requires Reported(worker, net.links[i], revents, net.sys.faults.own) && !revents.Broken()
    modifies net`links, net`sys, net`patience
    ensures net.Valid() && net.Elapsed() && LaterOthers(old(net.links), net.links, i)
    ensures PeerChanged(old(net.sys), net.sys, i, after, result.data)
    ensures Progressed(net.cfg.room, old(net.links[i]), revents, worker, after, failed)
    ensures after.state == ReadResultData || after.state == Done ==> result.size == after.resultSize
    ensures after.state == ReadResultSize && revents.pollIn ==> after.transferOffset < HEADER_SIZE
    ensures !failed && Steady(worker) ==> Steady(after)
    ensures revents.hup || revents.rdhup ==> after.state != worker.state
    ensures failed ==> net.sys.faults.any && net.sys.Excused(i)
  {
    after, result := worker, packet;
    if revents.pollIn {
      after, result, failed := ReadHeader(net, i, worker, packet);
      if failed {
        return;
      }
    }
    after, failed := FailIfClosed(net, i, after, ReadResultSize, revents);
  }

  /** The header is complete: decode it and allocate the result. */
  method TakeResultSize(net: Kernel, i: nat, worker: MasterWorker, packet: ClusterPacket)
    returns (after: MasterWorker, result: ClusterPacket, failed: bool)
    requires net.Valid() && i < net.sys.count && worker == net.sys.slots[i] && packet.data == net.sys.results[i]
    requires worker.state == ReadResultSize && worker.transferOffset == HEADER_SIZE
    modifies net`links, net`sys
    ensures net.Valid() && net.Elapsed() && LaterLinks(old(net.links), net.links)
    ensures PeerChanged(old(net.sys), net.sys, i, after, result.data)
    ensures after.taskOffset == worker.taskOffset && after.taskSize == worker.taskSize &&
            after.socketFd == worker.socketFd
    ensures SlotWork(after) < SlotWork(worker)
    ensures if failed then after.state == Failed else after.state == ReadResultData || after.state == Done
    ensures failed ==> net.sys.faults.any && net.sys.Excused(i)
    ensures !failed ==> result.size == after.resultSize && Steady(after)
  {
    SlotBounds(net.cfg, net.sys, i);
    var size := ClusterDecodeSize(worker.sizeBuffer);
    DecodeEncode(size);
    var buffer: seq<byte> := [];
    result := ClusterPacket([], size);
    if size > 0 {
      var ok;
      ok, buffer := net.Malloc(size);
      if !ok {
        after := MarkFailed(net, i, worker);
        return after, result, true;
      }
    }
    after := StoreResultSize(net, i, worker, buffer);
    result := ClusterPacket(buffer, size);
    failed := false;
  }

  /** A slot whose result has announced its size. */
  function Announced(worker: MasterWorker, size: nat): MasterWorker {
    worker.(transferOffset := 0, resultSize := size, state := if size == 0 then Done else ReadResultData)
  }

  method StoreResultSize(net: Kernel, i: nat, worker: MasterWorker, buffer: seq<byte>) returns (after: MasterWorker)
    requires net.Valid() && i < net.sys.count && worker == net.sys.slots[i]
    requires worker.state == ReadResultSize && worker.transferOffset == HEADER_SIZE
    requires |worker.sizeBuffer| == HEADER_SIZE && |buffer| == DecodeSize(worker.sizeBuffer)
    modifies net`sys
    ensures net.Valid()
    ensures net.sys == old(net.sys).(slots := old(net.sys.slots)[i := after],
            results := old(net.sys.results)[i := buffer])
    ensures after == Announced(worker, |buffer|)
    ensures SlotWork(after) < SlotWork(worker)
  {
    SlotBounds(net.cfg, net.sys, i);
    AdvanceStep(net.cfg, net.sys, i, buffer);
    AdvanceWork(worker, if buffer == [] then Done else ReadResultData, HEADER_SIZE, |buffer|);
    net.Take(MasterStep(i, MAdvance(buffer)));
    after := Announced(worker, |buffer|);
  }

  /** Reads more of the result; when its buffer is full, the worker is Done. */
  method ReadBody(net: Kernel, i: nat, worker: MasterWorker, packet: ClusterPacket)
    returns (after: MasterWorker, result: ClusterPacket, failed: bool)
    requires net.Valid() && i < net.sys.count && worker == net.sys.slots[i] && packet.data == net.sys.results[i]
    requires worker.state == ReadResultData && worker.socketFd == i && packet.size == worker.resultSize
    modifies net`links, net`sys, net`patience
    ensures net.Valid() && net.Elapsed()
    ensures LaterOthers(old(net.links), net.links, i) && Later(old(net.links[i]), net.links[i])
    ensures PeerChanged(old(net.sys), net.sys, i, after, result.data)
    ensures Progressed(net.cfg.room, old(net.links[i]), READABLE, worker, after, failed)
    ensures after.resultSize == worker.resultSize && result.size == packet.size
    ensures after.state == ReadResultData || after.state == Done || after.state == Failed
    ensures after.state == ReadResultData ==> after.transferOffset < after.resultSize && !old(net.links[i].closed)
    ensures !failed ==> Steady(after)
    ensures failed ==> net.sys.faults.any && net.sys.Excused(i)
  {
    SlotBounds(net.cfg, net.sys, i);
    var status, filled, offset := ReadPart(net, worker.socketFd, packet.data, worker.resultSize, worker.transferOffset);
    after, result := worker.(transferOffset := offset), packet.(data := filled);
    OffsetWork(worker, offset);
    failed := false;
    if status.TransferFailed? {
      after := MarkFailed(net, i, after);
      failed := true;
    } else if status.TransferComplete? {
      after := CompletePhase(net, i, after);
    }
  }

  /** The state in which the result is read. A full buffer is never left waiting, and a worker is Done
      only after a read that filled it. */
  method ReadDataPhase(net: Kernel, i: nat, worker: MasterWorker, packet: ClusterPacket, revents: PollBits)
    returns (after: MasterWorker, result: ClusterPacket, failed: bool)
    requires net.Valid() && i < net.sys.count && worker == net.sys.slots[i] && packet.data == net.sys.results[i]
    requires worker.state == ReadResultData && worker.socketFd == i && packet.size == worker.resultSize
    requires Reported(worker, net.links[i], revents, net.sys.faults.own) && !revents.Broken()
    modifies net`links, net`sys, net`patience
    ensures net.Valid() && net.Elapsed() && LaterOthers(old(net.links), net.links, i)
    ensures PeerChanged(old(net.sys), net.sys, i, after, result.data)
    ensures Progressed(net.cfg.room, old(net.links[i]), revents, worker, after, failed)
    ensures result.size == after.resultSize == worker.resultSize
    ensures after.state == ReadResultData && revents.pollIn ==> after.transferOffset < after.resultSize
    ensures !revents.pollIn ==> after.state != Done && after.transferOffset == worker.transferOffset && result == packet
    ensures !failed && Steady(worker) ==> Steady(after)
    ensures revents.hup || revents.rdhup ==> after.state != worker.state
    ensures failed ==> net.sys.faults.any && net.sys.Excused(i)
  {
    after, result := worker, packet;
    if revents.pollIn {
      after, result, failed := ReadBody(net, i, worker, packet);
      if failed {
        return;
      }
    }
    after, failed := FailIfClosed(net, i, after, ReadResultData, revents);
  }
}
