/** The master: one poll loop that drives every worker's state machine (src/master.c).

    `MasterRun` is proved to be a run of `Protocol`: at every system call the kernel's ghost state
    `sys` agrees with the fields of this class, so every theorem about reachable states holds of it.
  */
module Master {
  import opened Common
  import opened Protocol
  import opened ProtocolSafety
  import opened ProtocolProgress
  import opened Network
  import opened WorkerStates

  /** The number of workers that are Done. */
  function CountDone(slots: seq<MasterWorker>): (n: nat)
    ensures n <= |slots|
  {
    if slots == [] then 0
    else CountDone(slots[..|slots| - 1]) + (if slots[|slots| - 1].state == Done then 1 else 0)
  }

  lemma {:induction false} CountDoneUpdate(slots: seq<MasterWorker>, i: nat, slot: MasterWorker)
    requires i < |slots|
    ensures CountDone(slots[i := slot]) + (if slots[i].state == Done then 1 else 0) ==
            CountDone(slots) + (if slot.state == Done then 1 else 0)
    decreases |slots|
  {
    var n := |slots| - 1;
    if i == n {
      assert slots[i := slot][..n] == slots[..n];
    } else {
      assert slots[i := slot][..n] == slots[..n][i := slot];
      CountDoneUpdate(slots[..n], i, slot);
    }
  }

  /** What changing one slot does to the two totals over all slots. */
  lemma Recount(slots: seq<MasterWorker>, i: nat, slot: MasterWorker)
    requires i < |slots|
    requires slots[i].state == Done ==> slot.state == Done
    ensures CountDone(slots[i := slot]) ==
            CountDone(slots) + (if slot.state == Done && slots[i].state != Done then 1 else 0)
    ensures TotalWork(slots[i := slot]) - TotalWork(slots) == SlotWork(slot) - SlotWork(slots[i])
  {
    CountDoneUpdate(slots, i, slot);
    TotalWorkUpdate(slots, i, slot);
  }

  lemma {:induction false} CountDoneAll(slots: seq<MasterWorker>)
    ensures CountDone(slots) == |slots| <==> forall i :: 0 <= i < |slots| ==> slots[i].state == Done
    decreases |slots|
  {
    if slots != [] {
      var n := |slots| - 1;
      CountDoneAll(slots[..n]);
      assert forall i :: 0 <= i < n ==> slots[..n][i] == slots[i];
    }
  }

  /** Task `i` is part `i` of the data. */
  predicate IsSlice(cfg: Config, data: seq<byte>, i: int) {
    0 <= i < |cfg.tasks| && cfg.tasks[i] == Slice(data, i, |cfg.tasks|)
  }

  /** The workers' tasks are the parts of the data. */
  ghost predicate Sliced(cfg: Config, data: seq<byte>) {
    forall i :: 0 <= i < |cfg.tasks| ==> IsSlice(cfg, data, i)
  }

  /** What every round starts from: no worker has failed, and none has read all that it waits for. */
  ghost predicate AllSteady(slots: seq<MasterWorker>) {
    forall i :: 0 <= i < |slots| ==> Steady(slots[i])
  }

  /** A slot as `MasterAcceptWorker` leaves it: nothing has been sent yet. */
  predicate IsNew(slot: MasterWorker) {
    slot.state == SendTaskSize && slot.transferOffset == 0
  }

  /** Of the slots from `a` on, at most one was accepted, it is new, and it has no poll entry. */
  predicate JustAccepted(slots: seq<MasterWorker>, fds: seq<PollFd>, a: int, b: int)
    requires |fds| == |slots| + 1
  {
    a <= b <= a + 1 && (a < b ==> 0 <= a < |slots| && IsNew(slots[a]) && fds[1 + a].fd < 0)
  }

  /** The poll entry of slot `i`: inactive unless the worker is accepted and in a transfer state. */
  function PollEntry(slot: MasterWorker, i: int, workersCount: int): PollFd {
    if i < workersCount && slot.socketFd >= 0 && Active(slot) then PollFd(i, WantedEvents(slot), NO_BITS)
    else PollFd(-1, NO_BITS, NO_BITS)
  }

  /** What the poll array says about worker `j`, as long as it is not handled yet. */
  predicate Pending(slots: seq<MasterWorker>, links: seq<Link>, own: bool, fds: seq<PollFd>, j: int)
    requires 0 <= j < |slots| == |links| && |fds| == |slots| + 1
  {
    fds[1 + j].fd >= 0 ==> Active(slots[j]) && Reported(slots[j], links[j], fds[1 + j].revents, own)
  }

  ghost predicate AllPending(slots: seq<MasterWorker>, links: seq<Link>, own: bool, fds: seq<PollFd>, i: int)
    requires 0 <= i && |slots| == |links| && |fds| == |slots| + 1
  {
    forall j :: i <= j < |slots| ==> Pending(slots, links, own, fds, j)
  }

  /** Handling worker `i` uses up its report and leaves the others good. */
  lemma ReportsStay(room: nat, slots: seq<MasterWorker>, links: seq<Link>, own: bool, fds: seq<PollFd>, i: int,
                    slot: MasterWorker, links': seq<Link>, own': bool)
    requires 0 <= i < |slots| == |links| && |fds| == |slots| + 1
    requires LaterOthers(links, links', i) && (own ==> own')
    requires AllPending(slots, links, own, fds, i)
    ensures AllPending(slots[i := slot], links', own', fds, i + 1)
    ensures UsefulFrom(room, links, fds, i) ==> UsefulEntry(room, links, fds, i) || UsefulFrom(room, links', fds, i + 1)
  {
    var slots' := slots[i := slot];
    forall j | i + 1 <= j < |slots'|
      ensures Pending(slots', links', own', fds, j)
    {
      assert Pending(slots, links, own, fds, j);
      assert LaterLink(links[j], links'[j]);
    }
    forall j | i + 1 <= j < |links| && UsefulEntry(room, links, fds, j)
      ensures UsefulEntry(room, links', fds, j)
    {
      assert LaterLink(links[j], links'[j]);
    }
  }

  /** None of the first `n` active entries reports a broken connection. */
  ghost predicate NoneBroken(fds: seq<PollFd>, n: int)
    requires 0 <= n < |fds|
  {
    forall k :: 0 < k <= n && fds[k].fd >= 0 ==> !fds[k].revents.err && !fds[k].revents.nval
  }

  /** What the loop over the workers keeps, compared with where it started. */
  ghost predicate RoundSoFar(room: nat, start: seq<MasterWorker>, startLinks: seq<Link>, slots: seq<MasterWorker>,
                             links: seq<Link>, own: bool, fds: seq<PollFd>, i: int)
    requires 0 <= i && |start| == |startLinks| == |slots| == |links| && |fds| == |slots| + 1
  {
    && AllSteady(slots) && i < |fds| && NoneBroken(fds, i)
    && AllPending(slots, links, own, fds, i)
    && TotalWork(slots) <= TotalWork(start)
    && (UsefulFrom(room, startLinks, fds, 0) ==> TotalWork(slots) < TotalWork(start) || UsefulFrom(room, links, fds, i))
  }

  /** The slots that the loop has not come to yet, and those without an active entry, are as before. */
  ghost predicate Untouched(before: seq<MasterWorker>, slots: seq<MasterWorker>, fds: seq<PollFd>, i: int)
    requires |before| == |slots| && |fds| == |slots| + 1
  {
    forall j :: 0 <= j < |slots| && (i <= j || fds[1 + j].fd < 0) ==> slots[j] == before[j]
  }

  /** What handling worker `i` means for the round: the reports still to be handled stay good, and a
      useful report lowers the work left. */
  lemma EntryHandled(room: nat, start: seq<MasterWorker>, startLinks: seq<Link>, slots: seq<MasterWorker>,
                     links: seq<Link>, own: bool, fds: seq<PollFd>, i: int, slot: MasterWorker, links': seq<Link>,
                     own': bool, failed: bool)
    requires 0 <= i < |start| == |startLinks| == |slots| == |links| && |fds| == |slots| + 1
    requires RoundSoFar(room, start, startLinks, slots, links, own, fds, i)
    requires Untouched(start, slots, fds, i)
    requires LaterOthers(links, links', i) && (own ==> own')
    requires slots[i].state == Done ==> slot.state == Done
    requires !failed ==> Steady(slot) && (fds[1 + i].fd >= 0 ==> !fds[1 + i].revents.err && !fds[1 + i].revents.nval)
    requires SlotWork(slot) <= SlotWork(slots[i])
    requires !failed && UsefulEntry(room, links, fds, i) ==> SlotWork(slot) < SlotWork(slots[i])
    requires fds[1 + i].fd < 0 ==> slot == slots[i]
    ensures !failed ==> RoundSoFar(room, start, startLinks, slots[i := slot], links', own', fds, i + 1)
    ensures Untouched(start, slots[i := slot], fds, i + 1)
    ensures TotalWork(slots[i := slot]) <= TotalWork(start)
    ensures CountDone(slots[i := slot]) ==
            CountDone(slots) + (if slot.state == Done && slots[i].state != Done then 1 else 0)
  {
    ReportsStay(room, slots, links, own, fds, i, slot, links', own');
    Recount(slots, i, slot);
  }

  /** Right after poll, every report is as `Pending` says: with the invariant, a closed connection that
      is still to be sent to has consumed everything, so it was reported writable. */
  lemma PolledPending(cfg: Config, s: System, fds: seq<PollFd>)
    requires cfg.Valid() && Reachable(cfg, s) && |fds| == |cfg.tasks| + 1
    requires forall j :: 0 <= j < |cfg.tasks| ==> Answered(cfg, s, fds, j)
    ensures AllPending(s.slots, s.links, s.faults.own, fds, 0)
  {
    ReachableInv(cfg, s);
    forall j | 0 <= j < |s.slots|
      ensures Pending(s.slots, s.links, s.faults.own, fds, j)
    {
      ClosedHasRead(cfg, s, j);
      AnsweredPending(cfg, s, fds, j);
    }
  }

  lemma ClosedHasRead(cfg: Config, s: System, j: int)
    requires cfg.Valid() && Inv(cfg, s) && 0 <= j < |cfg.tasks|
    ensures Active(s.slots[j]) && !s.Excused(j) && s.links[j].closed ==> s.links[j].toWorker == []
  {
    assert PeerInv(cfg, j, s.At(j));
    if Active(s.slots[j]) && !s.Excused(j) {
      SoundPeerNeverGone(cfg, j, s.At(j));
    }
  }

  lemma AnsweredPending(cfg: Config, s: System, fds: seq<PollFd>, j: int)
    requires s.Shape(cfg) && cfg.room > 0 && |fds| == |cfg.tasks| + 1
    requires 0 <= j < |cfg.tasks| && Answered(cfg, s, fds, j)
    requires Active(s.slots[j]) && !s.Excused(j) && s.links[j].closed ==> s.links[j].toWorker == []
    ensures Pending(s.slots, s.links, s.faults.own, fds, j)
  {
  }

  /** The entry that was prepared for slot `j`, with honest bits. */
  predicate Answered(cfg: Config, s: System, fds: seq<PollFd>, j: int)
    requires 0 <= j < |s.slots| == |s.links| && |fds| == |s.slots| + 1
  {
    var entry := PollEntry(s.slots[j], j, s.count);
    && fds[1 + j].fd == entry.fd && fds[1 + j].events == entry.events
    && if entry.fd < 0 then fds[1 + j].revents == NO_BITS
       else HonestBits(cfg.room, s.links[j], entry.events, fds[1 + j].revents, s.faults.own)
  }

  /** Accepting a worker touches only a slot whose poll entry is inactive, so the reports of this
      round stay good and none of them is about the new worker. */
  lemma AcceptLeavesReports(room: nat, slots: seq<MasterWorker>, links: seq<Link>, own: bool, fds: seq<PollFd>,
                            slots': seq<MasterWorker>, links': seq<Link>, own': bool, k: int)
    requires |slots| == |links| == |slots'| && |fds| == |slots| + 1 && 0 <= k < |slots|
    requires slots[k].state == MasterWorkerEmpty && slots' == slots[k := slots'[k]]
    requires LaterLinks(links, links') && (own ==> own')
    requires AllPending(slots, links, own, fds, 0)
    ensures AllPending(slots', links', own', fds, 0)
    ensures fds[1 + k].fd < 0
    ensures UsefulFrom(room, links, fds, 0) ==> UsefulFrom(room, links', fds, 0)
  {
    assert Pending(slots, links, own, fds, k);
    forall j | 0 <= j < |slots'|
      ensures Pending(slots', links', own', fds, j)
    {
      assert Pending(slots, links, own, fds, j);
      assert LaterLink(links[j], links'[j]);
    }
    forall j | 0 <= j < |links| && UsefulEntry(room, links, fds, j)
      ensures UsefulEntry(room, links', fds, j)
    {
      assert LaterLink(links[j], links'[j]);
    }
  }

  /** What an attempt to accept a worker means for the round. */
  ghost predicate AcceptStep(room: nat, slots: seq<MasterWorker>, links: seq<Link>, slots': seq<MasterWorker>,
                             links': seq<Link>, own': bool, fds: seq<PollFd>)
    requires |slots| == |links| == |slots'| == |links'| && |fds| == |slots| + 1
  {
    && AllPending(slots', links', own', fds, 0)
    && (UsefulFrom(room, links, fds, 0) ==> UsefulFrom(room, links', fds, 0))
    && AllSteady(slots')
    && CountDone(slots') == CountDone(slots)
    && (slots' == slots || TotalWork(slots') < TotalWork(slots))
  }

  /** From `slots` with `a` workers to `slots'` with `b`: slot `a` is new, or nothing has changed. */
  predicate AcceptedAt(slots: seq<MasterWorker>, slots': seq<MasterWorker>, a: int, b: int) {
    if a == b then slots' == slots
    else b == a + 1 && 0 <= a < |slots| == |slots'| && slots' == slots[a := slots'[a]] && IsNew(slots'[a])
  }

  lemma AcceptedOne(room: nat, slots: seq<MasterWorker>, links: seq<Link>, own: bool, fds: seq<PollFd>,
                    slots': seq<MasterWorker>, links': seq<Link>, own': bool, k: int, b: int)
    requires |slots| == |links| == |slots'| && |fds| == |slots| + 1 && 0 <= k < |slots|
    requires slots[k].state == MasterWorkerEmpty && AcceptedAt(slots, slots', k, b)
    requires LaterLinks(links, links') && (own ==> own')
    requires AllPending(slots, links, own, fds, 0) && AllSteady(slots)
    ensures AcceptStep(room, slots, links, slots', links', own', fds)
    ensures JustAccepted(slots', fds, k, b)
    ensures k != b ==> slots' != slots
  {
    AcceptLeavesReports(room, slots, links, own, fds, slots', links', own', k);
    Recount(slots, k, slots'[k]);
  }

  /** What a round comes to: `useful` says that poll reported something truthfully, `spent` that a call
      returned for no good reason. */
  ghost predicate RoundOutcome(slots: seq<MasterWorker>, slots': seq<MasterWorker>, fds: seq<PollFd>, a: int, b: int,
                               useful: bool, spent: bool, failed: bool)
    requires |fds| == |slots'| + 1
  {
    && JustAccepted(slots', fds, a, b)
    && (!failed ==> AllSteady(slots') && 0 <= b < |fds| && NoneBroken(fds, b))
    && TotalWork(slots') <= TotalWork(slots)
    && (!failed && useful ==> TotalWork(slots') < TotalWork(slots) || spent)
  }

  /** The accept and the loop over the workers together. */
  lemma RoundDone(room: nat, slots: seq<MasterWorker>, links: seq<Link>, slots': seq<MasterWorker>, links': seq<Link>,
                  own': bool, slots'': seq<MasterWorker>, fds: seq<PollFd>, a: int, b: int, handled: int, spent: bool,
                  failed: bool)
    requires |slots| == |links| == |slots'| == |links'| == |slots''| && |fds| == |slots| + 1
    requires AcceptStep(room, slots, links, slots', links', own', fds) && JustAccepted(slots', fds, a, b)
    requires fds[0].revents.pollIn ==> slots' != slots || spent
    requires Untouched(slots', slots'', fds, handled)
    requires !failed ==> AllSteady(slots'') && 0 <= b < |fds| && NoneBroken(fds, b)
    requires TotalWork(slots'') <= TotalWork(slots')
    requires !failed && UsefulFrom(room, links', fds, 0) ==> TotalWork(slots'') < TotalWork(slots')
    ensures RoundOutcome(slots, slots'', fds, a, b,
                         fds[0].revents.pollIn || UsefulFrom(room, links, fds, 0), spent, failed)
  {
  }

  datatype PollAnswer = Ready | Retry | GiveUp

  class Master {
    var listenSocketFd: int
    var workers: array<MasterWorker>
    var workersCount: int
    var workersCapacity: int
    var maxTimeMs: int

    /** The master's fields are its part of the protocol state. */
    ghost predicate Synced(net: Kernel, results: array<ClusterPacket>)
      reads this, workers, net, results
    {
      && net.Valid()
      && workers.Length == results.Length == workersCapacity == |net.cfg.tasks|
      && 0 <= workersCount == net.sys.count
      && net.sys.slots == workers[..]
      && |net.sys.results| == workersCapacity
      && (forall i :: 0 <= i < workersCapacity ==> results[i].data == net.sys.results[i])
    }

    /** Every accepted worker's slice is its task. */
    ghost predicate Carved(cfg: Config, data: seq<byte>)
      reads this, workers
    {
      workers.Length == |cfg.tasks| && forall i :: 0 <= i < workers.Length && workers[i].state != MasterWorkerEmpty ==>
        && workers[i].taskOffset + workers[i].taskSize <= |data|
        && data[workers[i].taskOffset..workers[i].taskOffset + workers[i].taskSize] == cfg.tasks[i]
    }

    /** A worker that has announced its result's size has it stored in the result, too. */
    ghost predicate Measured(results: array<ClusterPacket>)
      reads this, workers, results
    {
      workers.Length == results.Length && forall i :: 0 <= i < workers.Length ==> SizeStored(workers[i], results[i])
    }

    predicate SizeStored(worker: MasterWorker, result: ClusterPacket) {
      worker.state == ReadResultData || worker.state == Done ==> result.size == worker.resultSize
    }

    /** The three together. */
    ghost predicate Consistent(net: Kernel, results: array<ClusterPacket>, data: seq<byte>)
      reads this, workers, net, results
    {
      Synced(net, results) && Carved(net.cfg, data) && Measured(results)
    }

    /** Consistent while a run distributes `data`, with exactly the accepted connections open. */
    ghost predicate Running(net: Kernel, results: array<ClusterPacket>, data: seq<byte>)
      reads this, workers, net, results
    {
      && Consistent(net, results, data)
      && Sliced(net.cfg, data) && |data| < WORD && workersCapacity <= INT_MAX
      && net.open == Descriptors(workersCount)
    }

    /** `MasterPrepare`: every slot starts empty. */
    constructor (requiredWorkers: int, listenSocketFd: int, maxTimeMs: int)
      requires 0 < requiredWorkers <= INT_MAX
      ensures workers.Length == workersCapacity == requiredWorkers && workersCount == 0
      ensures this.listenSocketFd == listenSocketFd && this.maxTimeMs == maxTimeMs
      ensures forall i :: 0 <= i < workers.Length ==> workers[i] == EMPTY_WORKER
      ensures fresh(workers)
    {
      this.listenSocketFd := listenSocketFd;
      this.maxTimeMs := maxTimeMs;
      workers := new MasterWorker[requiredWorkers](_ => EMPTY_WORKER);
      workersCount := 0;
      workersCapacity := requiredWorkers;
    }

    // ----- The poll set -----

    /** The poll set as `PreparePollFds` builds it. */
    ghost predicate Prepared(fds: seq<PollFd>)
      reads this, workers
    {
      && workers.Length == workersCapacity && |fds| == workersCapacity + 1
      && fds[0] == PollFd(if workersCount < workersCapacity then listenSocketFd else -1,
                          NO_BITS.(pollIn := workersCount < workersCapacity), NO_BITS)
      && forall i :: 0 <= i < workersCapacity ==> fds[1 + i] == PollEntry(workers[i], i, workersCount)
    }

    /** Rebuilds the poll set: the listener is active exactly while slots are free, a worker exactly
        while it is accepted and in a transfer state. */
    method PreparePollFds(pollFds: array<PollFd>)
      requires workers.Length == workersCapacity && 0 <= workersCount <= workersCapacity
      requires pollFds.Length == workersCapacity + 1
      requires listenSocketFd >= 0
      requires forall i :: 0 <= i < workersCapacity ==> workers[i].socketFd == -1 || workers[i].socketFd == i
      modifies pollFds
      ensures Prepared(pollFds[..])
    {
      if workersCount < workersCapacity {
        pollFds[0] := PollFd(listenSocketFd, NO_BITS.(pollIn := true), NO_BITS);
      } else {
        pollFds[0] := PollFd(-1, NO_BITS, NO_BITS);
      }
      var i := 0;
      while i < workersCapacity
        invariant 0 <= i <= workersCapacity
        invariant pollFds[0] == PollFd(if workersCount < workersCapacity then listenSocketFd else -1,
                                       NO_BITS.(pollIn := workersCount < workersCapacity), NO_BITS)
        invariant forall k :: 0 <= k < i ==> pollFds[1 + k] == PollEntry(workers[k], k, workersCount)
      {
        pollFds[1 + i] := PollFd(-1, NO_BITS, NO_BITS);
        if i < workersCount && workers[i].socketFd >= 0 {
          match workers[i].state {
            case SendTaskSize | SendTaskData =>
              pollFds[1 + i] := pollFds[1 + i].(fd := workers[i].socketFd,
                events := NO_BITS.(pollOut := true, rdhup := true));
            case ReadResultSize | ReadResultData =>
              pollFds[1 + i] := pollFds[1 + i].(fd := workers[i].socketFd,
                events := NO_BITS.(pollIn := true, rdhup := true));
            case MasterWorkerEmpty | Done | Failed =>
          }
        }
        i := i + 1;
      }
    }

    // ----- Accepting a worker -----

    /** `MasterAcceptWorker`: takes the next connection and gives it its slice. */
    method MasterAcceptWorker(net: Kernel, results: array<ClusterPacket>, data: seq<byte>) returns (failed: bool)
      requires Running(net, results, data) && workersCount < workersCapacity
      modifies this`workersCount, workers, net`links, net`sys, net`patience, net`open, net`nonBlocking
      ensures Running(net, results, data)
      ensures net.Elapsed() && LaterLinks(old(net.links), net.links)
      ensures failed ==> net.sys.faults.any
      ensures AcceptedAt(old(workers[..]), workers[..], old(workersCount), workersCount)
      ensures workersCount == old(workersCount) && !failed ==> net.patience < old(net.patience)
    {
      assert IsSlice(net.cfg, data, workersCount);
      var workerSocket;
      workerSocket, failed := AcceptSocket(net, workersCount);
      if workerSocket == -1 {
        return;
      }
      var taskOffset, taskSize := CarveTask(data, workersCount, workersCapacity);
      var worker := EnterWorker(net, workersCount, taskOffset, taskSize);
      StoreWorker(net, results, data, worker);
    }

    /** Puts the accepted worker into its slot, which the protocol has already given it. */
    method StoreWorker(net: Kernel, results: array<ClusterPacket>, ghost data: seq<byte>, worker: MasterWorker)
      requires net.Valid() && workers.Length == results.Length == workersCapacity == |net.cfg.tasks|
      requires 0 <= workersCount < workersCapacity && net.sys.count == workersCount + 1
      requires net.sys.slots == workers[..][workersCount := worker] && |net.sys.results| == workersCapacity
      requires forall i :: 0 <= i < workersCapacity ==> results[i].data == net.sys.results[i]
      requires Carved(net.cfg, data) && Measured(results) && worker.state == SendTaskSize
      requires worker.taskOffset + worker.taskSize <= |data|
      requires data[worker.taskOffset..worker.taskOffset + worker.taskSize] == net.cfg.tasks[workersCount]
      modifies this`workersCount, workers
      ensures Consistent(net, results, data)
      ensures workersCount == old(workersCount) + 1
      ensures workers[..] == old(workers[..])[old(workersCount) := worker]
    {
      workers[workersCount] := worker;
      workersCount := workersCount + 1;
    }

    // ----- Handling the poll reports -----

    /** Dispatches on the worker's state. */
    method Dispatch(net: Kernel, i: nat, before: MasterWorker, packetBefore: ClusterPacket, taskData: seq<byte>,
                    revents: PollBits)
      returns (worker: MasterWorker, packet: ClusterPacket, failed: bool)
      requires net.Valid() && i < net.sys.count && before == net.sys.slots[i] && packetBefore.data == net.sys.results[i]
      requires Active(before) && Reported(before, net.links[i], revents, net.sys.faults.own)
      requires before.state == SendTaskData ==> taskData == net.cfg.tasks[i]
      requires SizeStored(before, packetBefore)
      modifies net`links, net`sys, net`patience
      ensures net.Valid() && net.Elapsed() && LaterOthers(old(net.links), net.links, i)
      ensures PeerChanged(old(net.sys), net.sys, i, worker, packet.data)
      ensures Progressed(net.cfg.room, old(net.links[i]), revents, before, worker, failed)
      ensures SizeStored(worker, packet)
      ensures !failed && Steady(before) ==> Steady(worker)
      ensures failed ==> net.sys.faults.any && net.sys.Excused(i)
      ensures revents.err || revents.nval ==> failed
      ensures revents.hup || revents.rdhup ==> worker.state != before.state
    {
      SlotBounds(net.cfg, net.sys, i);
      worker, packet := before, packetBefore;
      assert net.sys.results == net.sys.results[i := packet.data];
      if revents.Broken() {
        worker := MarkFailed(net, i, worker);
        failed := true;
      } else {
        match worker.state {
          case SendTaskSize =>
            worker, failed := SendPhase(net, i, worker, worker.sizeBuffer, revents);
          case SendTaskData =>
            worker, failed := SendPhase(net, i, worker, taskData, revents);
          case ReadResultSize =>
            worker, packet, failed := ReadSizePhase(net, i, worker, packet, revents);
          case ReadResultData =>
            worker, packet, failed := ReadDataPhase(net, i, worker, packet, revents);
        }
      }
    }

    /** Handles the reported events of one worker. */
    method HandleWorker(net: Kernel, results: array<ClusterPacket>, data: seq<byte>, i: nat, revents: PollBits)
      returns (failed: bool)
      requires Consistent(net, results, data)
      requires i < workersCount && Active(workers[i])
      requires Reported(workers[i], net.links[i], revents, net.sys.faults.own)
      modifies workers, results, net`links, net`sys, net`patience
      ensures Synced(net, results) && net.Elapsed() && LaterOthers(old(net.links), net.links, i)
      ensures workers[..] == old(workers[..])[i := workers[i]]
      ensures results[..] == old(results[..])[i := results[i]]
      ensures Progressed(net.cfg.room, old(net.links[i]), revents, old(workers[i]), workers[i], failed)
      ensures SizeStored(workers[i], results[i])
      ensures revents.err || revents.nval ==> failed
      ensures revents.hup || revents.rdhup ==> workers[i].state != old(workers[i]).state
      ensures failed ==> net.sys.faults.any && workers[i].state == Failed && net.sys.Excused(i)
      ensures !failed && Steady(old(workers[i])) ==> Steady(workers[i])
    {
      var worker, packet := workers[i], results[i];
      var taskData := if worker.taskSize == 0 then [] else data[worker.taskOffset..worker.taskOffset + worker.taskSize];
      worker, packet, failed := Dispatch(net, i, worker, packet, taskData, revents);
      workers[i], results[i] := worker, packet;
    }

    /** One iteration of the loop over the workers. */
    method HandleEntry(net: Kernel, results: array<ClusterPacket>, data: seq<byte>, pollFd: PollFd, i: int)
      returns (failed: bool)
      requires Consistent(net, results, data)
      requires 0 <= i < workersCount
      requires pollFd.fd >= 0 ==>
               Active(workers[i]) && Reported(workers[i], net.links[i], pollFd.revents, net.sys.faults.own)
      modifies workers, results, net`links, net`sys, net`patience
      ensures Consistent(net, results, data)
      ensures net.Elapsed() && LaterOthers(old(net.links), net.links, i)
      ensures workers[..] == old(workers[..])[i := workers[i]]
      ensures pollFd.fd >= 0 && (pollFd.revents.err || pollFd.revents.nval) ==> failed
      ensures failed ==> net.sys.faults.any && workers[i].state == Failed && net.sys.Excused(i)
      ensures !failed && Steady(old(workers[i])) ==> Steady(workers[i])
      ensures SlotWork(workers[i]) <= SlotWork(old(workers[i]))
      ensures !failed && pollFd.fd >= 0 && Useful(net.cfg.room, old(net.links[i]), pollFd.revents) ==>
                SlotWork(workers[i]) < SlotWork(old(workers[i]))
      ensures old(workers[i]).state == Done ==> workers[i].state == Done
      ensures pollFd.fd < 0 ==> workers[i] == old(workers[i])
    {
      if pollFd.fd < 0 || pollFd.revents == NO_BITS {
        return false;
      }
      failed := HandleWorker(net, results, data, i, pollFd.revents);
    }

    /** The same, with what it means for the round: the counter of Done workers, the reports still to be
        handled, and the work left. */
    method HandleNext(net: Kernel, results: array<ClusterPacket>, data: seq<byte>, pollFd: PollFd, i: int,
                      doneBefore: int, ghost fds: seq<PollFd>, ghost start: seq<MasterWorker>,
                      ghost startLinks: seq<Link>)
      returns (failed: bool, doneWorkers: int)
      requires Consistent(net, results, data)
      requires 0 <= i < workersCount && doneBefore == CountDone(workers[..])
      requires |fds| == workersCapacity + 1 && pollFd == fds[1 + i]
      requires |start| == |startLinks| == workersCapacity && Untouched(start, workers[..], fds, i)
      requires RoundSoFar(net.cfg.room, start, startLinks, workers[..], net.links, net.sys.faults.own, fds, i)
      modifies workers, results, net`links, net`sys, net`patience
      ensures Consistent(net, results, data)
      ensures net.Elapsed()
      ensures doneWorkers == CountDone(workers[..])
      ensures failed ==> net.sys.faults.any && workers[i].state == Failed && net.sys.Excused(i)
      ensures Untouched(start, workers[..], fds, i + 1)
      ensures TotalWork(workers[..]) <= TotalWork(start)
      ensures !failed ==>
                RoundSoFar(net.cfg.room, start, startLinks, workers[..], net.links, net.sys.faults.own, fds, i + 1)
    {
      ghost var slots, links, own := workers[..], net.links, net.sys.faults.own;
      var wasDone := workers[i].state == Done;
      assert Pending(slots, links, own, fds, i);
      failed := HandleEntry(net, results, data, pollFd, i);
      EntryHandled(net.cfg.room, start, startLinks, slots, links, own, fds, i, workers[i], net.links,
        net.sys.faults.own, failed);
      doneWorkers := doneBefore;
      if workers[i].state == Done && !wasDone {
        doneWorkers := doneWorkers + 1;
      }
    }

    /** No entry beyond the accepted workers is active. */
    lemma NoneUnaccepted(net: Kernel, results: array<ClusterPacket>, fds: seq<PollFd>)
      requires Synced(net, results) && |fds| == workersCapacity + 1
      requires AllPending(workers[..], net.links, net.sys.faults.own, fds, workersCount)
      ensures !UsefulFrom(net.cfg.room, net.links, fds, workersCount)
    {
      ReachableInv(net.cfg, net.sys);
      forall j | workersCount <= j < workersCapacity
        ensures !UsefulEntry(net.cfg.room, net.links, fds, j)
      {
        assert Pending(workers[..], net.links, net.sys.faults.own, fds, j);
        assert net.sys.slots[j].state == MasterWorkerEmpty;
      }
    }

    /** The loop over the workers after one poll. It stops at the first failure, at worker `at`; the
        workers behind that one, and those without an active entry, are as before. */
    method HandleWorkers(net: Kernel, results: array<ClusterPacket>, data: seq<byte>, fds: seq<PollFd>, doneBefore: int)
      returns (failed: bool, doneWorkers: int, ghost at: int)
      requires Consistent(net, results, data)
      requires doneBefore == CountDone(workers[..]) && AllSteady(workers[..])
      requires |fds| == workersCapacity + 1
      requires AllPending(workers[..], net.links, net.sys.faults.own, fds, 0)
      modifies workers, results, net`links, net`sys, net`patience
      ensures Consistent(net, results, data)
      ensures net.Elapsed()
      ensures doneWorkers == CountDone(workers[..])
      ensures !failed ==> AllSteady(workers[..]) && NoneBroken(fds, workersCount)
      ensures failed ==>
                && 0 <= at < workersCount && workers[at].state == Failed && net.sys.Excused(at) && net.sys.faults.any
                && Untouched(old(workers[..]), workers[..], fds, at + 1)
      ensures Untouched(old(workers[..]), workers[..], fds, workersCount)
      ensures TotalWork(workers[..]) <= TotalWork(old(workers[..]))
      ensures !failed && old(UsefulFrom(net.cfg.room, net.links, fds, 0)) ==>
                TotalWork(workers[..]) < TotalWork(old(workers[..]))
    {
      doneWorkers, at := doneBefore, 0;
      ghost var start, startLinks := workers[..], net.links;
      var i := 0;
      while i < workersCount
        invariant 0 <= i <= workersCount
        invariant Consistent(net, results, data)
        invariant net.Elapsed()
        invariant doneWorkers == CountDone(workers[..])
        invariant Untouched(start, workers[..], fds, i)
        invariant RoundSoFar(net.cfg.room, start, startLinks, workers[..], net.links, net.sys.faults.own, fds, i)
      {
        failed, doneWorkers := HandleNext(net, results, data, fds[1 + i], i, doneWorkers, fds, start, startLinks);
        if failed {
          at := i;
          return;
        }
        i := i + 1;
      }
      NoneUnaccepted(net, results, fds);
      failed := false;
    }

    /** What the loop has after poll: the prepared entries with the kernel's answers. */
    ghost predicate AllAnswered(net: Kernel, fds: seq<PollFd>)
      reads this, net
    {
      && net.sys.Shape(net.cfg) && |fds| == |net.cfg.tasks| + 1
      && (fds[0].revents.pollIn ==> workersCount < workersCapacity)
      && (fds[0].revents.Broken() || fds[0].revents.PeerClosed() ==> net.sys.faults.any)
      && forall j :: 0 <= j < |net.cfg.tasks| ==> Answered(net.cfg, net.sys, fds, j)
    }

    /** What is left of a round after poll: the listener, then the workers. A round with a truthful
        report lowers the work left, consumes patience, or ends the run. */
    method HandleRound(net: Kernel, results: array<ClusterPacket>, data: seq<byte>, pollFds: array<PollFd>,
                       doneBefore: int)
      returns (failed: bool, doneWorkers: int)
      requires Running(net, results, data)
      requires doneBefore == CountDone(workers[..]) && AllSteady(workers[..])
      requires pollFds.Length == workersCapacity + 1 && AllAnswered(net, pollFds[..])
      modifies this`workersCount, workers, results, net`links, net`sys, net`patience, net`open, net`nonBlocking
      ensures Running(net, results, data) && net.Elapsed()
      ensures doneWorkers == CountDone(workers[..])
      ensures failed ==> net.sys.faults.any
      ensures var listener := pollFds[0].revents;
              listener.err || listener.hup || listener.nval || listener.rdhup ==> failed
      ensures RoundOutcome(old(workers[..]), workers[..], pollFds[..], old(workersCount), workersCount,
                           old(net.SomethingUseful(pollFds[..])), net.patience < old(net.patience), failed)
    {
      PolledPending(net.cfg, net.sys, pollFds[..]);
      if pollFds[0].revents.Broken() || pollFds[0].revents.PeerClosed() {
        return true, doneBefore;
      }
      failed, doneWorkers := HandleReports(net, results, data, pollFds[..], doneBefore);
    }

    /** The accept, if the listener was readable, and the workers. */
    method HandleReports(net: Kernel, results: array<ClusterPacket>, data: seq<byte>, fds: seq<PollFd>, doneBefore: int)
      returns (failed: bool, doneWorkers: int)
      requires Running(net, results, data)
      requires doneBefore == CountDone(workers[..]) && AllSteady(workers[..])
      requires |fds| == workersCapacity + 1 && (fds[0].revents.pollIn ==> workersCount < workersCapacity)
      requires AllPending(workers[..], net.links, net.sys.faults.own, fds, 0)
      modifies this`workersCount, workers, results, net`links, net`sys, net`patience, net`open, net`nonBlocking
      ensures Running(net, results, data) && net.Elapsed()
      ensures doneWorkers == CountDone(workers[..])
      ensures failed ==> net.sys.faults.any
      ensures RoundOutcome(old(workers[..]), workers[..], fds, old(workersCount), workersCount,
                           old(net.SomethingUseful(fds)), net.patience < old(net.patience), failed)
    {
      ghost var slots, links, a, patience := workers[..], net.links, workersCount, net.patience;
      failed := AcceptIfReported(net, results, data, fds[0].revents.pollIn, fds);
      if failed {
        return true, doneBefore;
      }
      failed, doneWorkers := HandleTheRest(net, results, data, fds, doneBefore, slots, links, a, patience);
    }

    /** The workers, after the accept of a round that began with `slots`, `links`, `a` workers and `patience`. */
    method HandleTheRest(net: Kernel, results: array<ClusterPacket>, data: seq<byte>, fds: seq<PollFd>,
                         doneBefore: int, ghost slots: seq<MasterWorker>, ghost links: seq<Link>, ghost a: int,
                         ghost patience: nat)
      returns (failed: bool, doneWorkers: int)
      requires Consistent(net, results, data)
      requires |fds| == workersCapacity + 1 && |slots| == |links| == workersCapacity
      requires AcceptStep(net.cfg.room, slots, links, workers[..], net.links, net.sys.faults.own, fds)
      requires doneBefore == CountDone(workers[..]) && JustAccepted(workers[..], fds, a, workersCount)
      requires fds[0].revents.pollIn ==> workers[..] != slots || net.patience < patience
      modifies workers, results, net`links, net`sys, net`patience
      ensures Consistent(net, results, data)
      ensures net.Elapsed()
      ensures doneWorkers == CountDone(workers[..])
      ensures failed ==> net.sys.faults.any
      ensures RoundOutcome(slots, workers[..], fds, a, workersCount,
                           fds[0].revents.pollIn || UsefulFrom(net.cfg.room, links, fds, 0),
                           net.patience < patience, failed)
    {
      ghost var slots', links', own' := workers[..], net.links, net.sys.faults.own;
      ghost var at;
      failed, doneWorkers, at := HandleWorkers(net, results, data, fds, doneBefore);
      RoundDone(net.cfg.room, slots, links, slots', links', own', workers[..], fds, a, workersCount, workersCount,
                net.patience < patience, failed);
    }

    method AcceptIfReported(net: Kernel, results: array<ClusterPacket>, data: seq<byte>, reported: bool,
                            ghost fds: seq<PollFd>)
      returns (failed: bool)
      requires Running(net, results, data) && (reported ==> workersCount < workersCapacity)
      requires |fds| == workersCapacity + 1 && AllSteady(workers[..])
      requires AllPending(workers[..], net.links, net.sys.faults.own, fds, 0)
      modifies this`workersCount, workers, net`links, net`sys, net`patience, net`open, net`nonBlocking
      ensures Running(net, results, data) && net.Elapsed()
      ensures failed ==> net.sys.faults.any
      ensures JustAccepted(workers[..], fds, old(workersCount), workersCount)
      ensures AcceptStep(net.cfg.room, old(workers[..]), old(net.links),
                         workers[..], net.links, net.sys.faults.own, fds)
      ensures reported && !failed ==> workers[..] != old(workers[..]) || net.patience < old(net.patience)
    {
      failed := false;
      if reported {
        failed := AcceptReported(net, results, data, fds);
      }
    }

    /** The listener was readable: the accept, and what it leaves of the workers' reports. */
    method AcceptReported(net: Kernel, results: array<ClusterPacket>, data: seq<byte>, ghost fds: seq<PollFd>)
      returns (failed: bool)
      requires Running(net, results, data) && workersCount < workersCapacity
      requires |fds| == workersCapacity + 1 && AllSteady(workers[..])
      requires AllPending(workers[..], net.links, net.sys.faults.own, fds, 0)
      modifies this`workersCount, workers, net`links, net`sys, net`patience, net`open, net`nonBlocking
      ensures Running(net, results, data) && net.Elapsed()
      ensures failed ==> net.sys.faults.any
      ensures JustAccepted(workers[..], fds, old(workersCount), workersCount)
      ensures AcceptStep(net.cfg.room, old(workers[..]), old(net.links),
                         workers[..], net.links, net.sys.faults.own, fds)
      ensures failed || workers[..] != old(workers[..]) || net.patience < old(net.patience)
    {
      ghost var slots, links, own, k := workers[..], net.links, net.sys.faults.own, workersCount;
      NextIsEmpty(net, results);
      failed := MasterAcceptWorker(net, results, data);
      ghost var slots' := workers[..];
      AcceptedOne(net.cfg.room, slots, links, own, fds, slots', net.links, net.sys.faults.own, k, workersCount);
    }

    lemma NextIsEmpty(net: Kernel, results: array<ClusterPacket>)
      requires Synced(net, results) && workersCount < workersCapacity
      ensures workers[workersCount].state == MasterWorkerEmpty
    {
      ReachableInv(net.cfg, net.sys);
      assert net.sys.slots[workersCount].state == MasterWorkerEmpty;
    }

    // ----- The poll loop -----

    /** Without a limit there is no timeout. */
    method PollTimeoutMs(net: Kernel, startTime: int) returns (timeoutMs: int)
      requires net.Valid() && startTime <= net.now && maxTimeMs <= INT_MAX
      modifies net`now, net`expired, net`firstReading
      ensures net.Valid() && net.Elapsed()
      ensures timeoutMs == -1 || 0 <= timeoutMs <= INT_MAX
      ensures timeoutMs == -1 <==> maxTimeMs <= 0
      ensures maxTimeMs > 0 ==>
                if timeoutMs == 0 then startTime + maxTimeMs <= net.now
                else net.now + timeoutMs == startTime + maxTimeMs
    {
      if maxTimeMs <= 0 {
        return -1;
      }
      var now := net.NowMs();
      var remaining := maxTimeMs - (now - startTime);
      timeoutMs := if remaining <= 0 then 0 else if remaining > INT_MAX then INT_MAX else remaining;
    }

    lemma SocketsNumbered(net: Kernel, results: array<ClusterPacket>)
      requires Synced(net, results)
      ensures forall i :: 0 <= i < workersCapacity ==> workers[i].socketFd == -1 || workers[i].socketFd == i
    {
      ReachableInv(net.cfg, net.sys);
      forall i | 0 <= i < workersCapacity
        ensures workers[i].socketFd == -1 || workers[i].socketFd == i
      {
        assert PeerInv(net.cfg, i, net.sys.At(i));
      }
    }

    /** The poll set is never dead: while some worker is not Done, and none has Failed, which the loop
        keeps, the listener or a worker is active. */
    lemma PollSetNeverDead(net: Kernel, results: array<ClusterPacket>, fds: seq<PollFd>)
      requires Synced(net, results) && Prepared(fds) && listenSocketFd >= 0
      requires CountDone(workers[..]) < workersCapacity && AllSteady(workers[..])
      ensures exists k :: 0 <= k < |fds| && fds[k].fd >= 0
    {
      ReachableInv(net.cfg, net.sys);
      if workersCount < workersCapacity {
        assert fds[0].fd >= 0;
      } else {
        CountDoneAll(workers[..]);
        var i :| 0 <= i < workersCapacity && workers[i].state != Done;
        assert PeerInv(net.cfg, i, net.sys.At(i));
        assert fds[1 + i].fd >= 0;
      }
    }

    /** Slot `i` waits for the listener, which is active; or the kernel's bits for its entry wake the master
        up to something that it can do; or its worker can take a step. */
    ghost predicate Watched(net: Kernel, fds: seq<PollFd>, i: nat)
      requires i < |net.links| && i < |net.cfg.tasks| && |fds| == |net.links| + 1
      reads this, net
    {
      if i >= workersCount then fds[0].fd >= 0
      else
        && fds[1 + i].fd >= 0
        && (Useful(net.cfg.room, net.links[i], Readiness(net.cfg.room, net.links[i], fds[1 + i].events)) ||
            exists act :: WorkerEnabled(net.cfg, i, net.links[i], act))
    }

    /** poll() is never left sleeping through work: every slot without an excuse that is not Done is watched. */
    lemma NoLostWakeup(net: Kernel, results: array<ClusterPacket>, fds: seq<PollFd>, i: nat)
      requires Synced(net, results) && Prepared(fds) && listenSocketFd >= 0
      requires AllSteady(workers[..]) && i < workersCapacity
      requires !net.sys.Excused(i) && workers[i].state != Done
      ensures Watched(net, fds, i)
    {
      ReachableInv(net.cfg, net.sys);
      var p := net.sys.At(i);
      assert PeerInv(net.cfg, i, p) && Steady(p.slot);
      assert i < workersCount <==> p.slot.state != MasterWorkerEmpty;
      if i < workersCount {
        assert fds[1 + i] == PollEntry(workers[i], i, workersCount);
        if p.slot.Sending() && |p.link.toWorker| >= net.cfg.room {
          var act := ReceiverMoves(net.cfg, i, p);
        } else if p.slot.Reading() && p.link.toMaster == [] && !p.link.closed {
          var act := WorkerMoves(net.cfg, i, p);
        }
      }
    }

    /** A closed connection wakes the master up to it as long as its worker is in a transfer state, also when
        nothing can be sent or read any more: the end of the peer is always asked for. */
    lemma ClosedWakes(net: Kernel, results: array<ClusterPacket>, fds: seq<PollFd>, i: nat)
      requires Synced(net, results) && Prepared(fds)
      requires i < workersCount && Active(workers[i]) && net.links[i].closed
      ensures fds[1 + i].fd == i && Readiness(net.cfg.room, net.links[i], fds[1 + i].events).rdhup
    {
      SocketsNumbered(net, results);
      ReachableInv(net.cfg, net.sys);
      assert PeerInv(net.cfg, i, net.sys.At(i));
      assert fds[1 + i] == PollEntry(workers[i], i, workersCount);
    }

    lemma AllWatched(net: Kernel, results: array<ClusterPacket>, fds: seq<PollFd>)
      requires Synced(net, results) && Prepared(fds) && listenSocketFd >= 0
      requires AllSteady(workers[..])
      ensures forall i :: 0 <= i < workersCapacity && !net.sys.Excused(i) && workers[i].state != Done ==>
              Watched(net, fds, i)
    {
      forall i | 0 <= i < workersCapacity && !net.sys.Excused(i) && workers[i].state != Done
        ensures Watched(net, fds, i)
      {
        NoLostWakeup(net, results, fds, i);
      }
    }

    lemma RoundAnswered(net: Kernel, fds: seq<PollFd>, prepared: seq<PollFd>)
      requires net.sys.Shape(net.cfg) && net.sys.links == net.links
      requires workers[..] == net.sys.slots && workersCount == net.sys.count && workersCapacity == |net.cfg.tasks|
      requires Prepared(prepared)
      requires net.Polled(fds, prepared)
      ensures AllAnswered(net, fds)
    {
      forall j | 0 <= j < |net.cfg.tasks|
        ensures Answered(net.cfg, net.sys, fds, j)
      {
        assert prepared[1 + j] == PollEntry(workers[j], j, workersCount);
        assert ReportOk(net.cfg.room, net.sys.faults.own, fds[1 + j], net.links[j]);
      }
    }

    /** The loop of `MasterRun`: it ends with every worker Done, or with status 1 after a fault or at
        the deadline. Each round lowers the work left or consumes patience, so it terminates. */
    method PollLoop(net: Kernel, results: array<ClusterPacket>, data: seq<byte>, startTime: int) returns (status: int)
      requires Running(net, results, data) && listenSocketFd >= 0 && maxTimeMs <= INT_MAX
      requires CountDone(workers[..]) == 0 && AllSteady(workers[..])
      requires startTime <= net.now && net.deadline <= startTime + maxTimeMs && net.firstReading == Some(startTime)
      modifies this`workersCount, workers, results, net
      ensures Running(net, results, data) && net.Elapsed()
      ensures status == 0 || status == 1
      ensures status == 0 ==> CountDone(workers[..]) == workersCapacity
      ensures status == 0 < workersCapacity ==> net.now - startTime <= maxTimeMs
      ensures maxTimeMs < 0 < workersCapacity ==> status == 1
      ensures status != 0 ==> net.sys.faults.any || net.deadline <= net.now
    {
      var pollFds := new PollFd[workersCapacity + 1](_ => PollFd(0, NO_BITS, NO_BITS));
      var doneWorkers := 0;
      status := 0;
      while doneWorkers < workersCapacity
        invariant Running(net, results, data) && net.Elapsed()
        invariant status == 0 && doneWorkers == CountDone(workers[..]) && AllSteady(workers[..])
        invariant doneWorkers == workersCapacity > 0 ==> net.now - startTime <= maxTimeMs
        decreases TotalWork(workers[..]), net.patience
      {
        status, doneWorkers := PollRound(net, results, data, pollFds, startTime, doneWorkers);
        if status != 0 {
          break;
        }
      }
    }

    /** One round of the loop. Unless it ends the run, it lowers the work left or consumes patience. */
    method PollRound(net: Kernel, results: array<ClusterPacket>, data: seq<byte>, pollFds: array<PollFd>,
                     startTime: int, doneBefore: int)
      returns (status: int, doneWorkers: int)
      requires Running(net, results, data) && listenSocketFd >= 0 && maxTimeMs <= INT_MAX
      requires doneBefore == CountDone(workers[..]) < workersCapacity && AllSteady(workers[..])
      requires pollFds.Length == workersCapacity + 1
      requires startTime <= net.now && net.deadline <= startTime + maxTimeMs && net.firstReading == Some(startTime)
      modifies this`workersCount, workers, results, pollFds, net
      ensures Running(net, results, data) && net.Elapsed()
      ensures status == 0 || status == 1
      ensures doneWorkers == CountDone(workers[..])
      ensures status == 0 ==> AllSteady(workers[..])
      ensures status == 0 ==> net.now - startTime <= maxTimeMs || workers[..] == old(workers[..])
      ensures old(net.expired) ==> status == 1
      ensures status == 0 ==> TotalWork(workers[..]) < TotalWork(old(workers[..])) ||
                              (TotalWork(workers[..]) == TotalWork(old(workers[..])) &&
                                net.patience < old(net.patience))
      ensures status != 0 ==> net.sys.faults.any || net.deadline <= net.now
    {
      doneWorkers := doneBefore;
      var answer := AwaitReports(net, results, pollFds, startTime);
      if answer.Retry? {
        return 0, doneWorkers;
      }
      if answer.GiveUp? {
        return 1, doneWorkers;
      }
      status, doneWorkers := FinishRound(net, results, data, pollFds, startTime, doneBefore);
    }

    /** The rest of a round: the reports are handled, and the clock is looked at once more. */
    method FinishRound(net: Kernel, results: array<ClusterPacket>, data: seq<byte>, pollFds: array<PollFd>,
                       startTime: int, doneBefore: int)
      returns (status: int, doneWorkers: int)
      requires Running(net, results, data) && net.deadline <= startTime + maxTimeMs
      requires doneBefore == CountDone(workers[..]) && AllSteady(workers[..])
      requires pollFds.Length == workersCapacity + 1 && AllAnswered(net, pollFds[..])
      modifies this`workersCount, workers, results, net
      ensures Running(net, results, data) && net.Elapsed()
      ensures status == 0 || status == 1
      ensures doneWorkers == CountDone(workers[..])
      ensures status == 0 ==> AllSteady(workers[..]) && net.now - startTime <= maxTimeMs
      ensures TotalWork(workers[..]) <= TotalWork(old(workers[..]))
      ensures status == 0 && old(net.SomethingUseful(pollFds[..])) ==>
                TotalWork(workers[..]) < TotalWork(old(workers[..])) || net.patience < old(net.patience)
      ensures status != 0 ==> net.sys.faults.any || net.deadline <= net.now
    {
      var failed;
      failed, doneWorkers := HandleRound(net, results, data, pollFds, doneBefore);
      if failed {
        return 1, doneWorkers;
      }
      var now := net.NowMs();
      status := if now - startTime > maxTimeMs then 1 else 0;
    }

    /** The first half of a round: the deadline checks, the poll set and poll itself. */
    method AwaitReports(net: Kernel, results: array<ClusterPacket>, pollFds: array<PollFd>, startTime: int)
      returns (answer: PollAnswer)
      requires Synced(net, results) && pollFds.Length == workersCapacity + 1
      requires listenSocketFd >= 0 && maxTimeMs <= INT_MAX
      requires CountDone(workers[..]) < workersCapacity && AllSteady(workers[..])
      requires startTime <= net.now && net.deadline <= startTime + maxTimeMs
      modifies pollFds, net`links, net`sys, net`patience, net`now, net`expired, net`firstReading, net`wakeBy
      ensures Synced(net, results) && net.Elapsed()
      ensures answer.Ready? ==> AllAnswered(net, pollFds[..])
      ensures answer.Ready? ==> net.patience < old(net.patience) || net.SomethingUseful(pollFds[..])
      ensures old(net.expired) ==> answer.GiveUp?
      ensures answer.GiveUp? || (maxTimeMs > 0 ==> net.wakeBy.Some? && net.wakeBy.value <= startTime + maxTimeMs)
      ensures answer.Retry? ==> net.patience < old(net.patience) && !net.expired
      ensures answer.GiveUp? ==> net.sys.faults.any || net.deadline <= net.now
    {
      var expired := net.DeadlineTimerExpired();
      if expired {
        return GiveUp;
      }
      WatchWorkers(net, results, pollFds);
      answer := WaitForReports(net, results, pollFds, startTime);
    }

    /** The poll of a prepared set, for as long as there is time left. */
    method WaitForReports(net: Kernel, results: array<ClusterPacket>, pollFds: array<PollFd>, startTime: int)
      returns (answer: PollAnswer)
      requires Synced(net, results) && Prepared(pollFds[..]) && maxTimeMs <= INT_MAX
      requires startTime <= net.now && net.deadline <= startTime + maxTimeMs
      modifies pollFds, net`links, net`sys, net`patience, net`now, net`expired, net`firstReading, net`wakeBy
      ensures Synced(net, results) && net.Elapsed()
      ensures answer.Ready? ==> AllAnswered(net, pollFds[..])
      ensures answer.Ready? ==> net.patience < old(net.patience) || net.SomethingUseful(pollFds[..])
      ensures answer.GiveUp? || (maxTimeMs > 0 ==> net.wakeBy.Some? && net.wakeBy.value <= startTime + maxTimeMs)
      ensures answer.Retry? ==> net.patience < old(net.patience) && !net.expired
      ensures answer.GiveUp? ==> net.sys.faults.any || net.deadline <= net.now
    {
      ghost var prepared := pollFds[..];
      var timeoutMs := PollTimeoutMs(net, startTime);
      if timeoutMs == 0 {
        return GiveUp;
      }
      answer := WaitInPoll(net, pollFds, timeoutMs);
      if answer.Ready? {
        RoundAnswered(net, pollFds[..], prepared);
      }
    }

    /** The poll set of a round: something is watched, and so is everybody the round may be waiting for. */
    method WatchWorkers(net: Kernel, results: array<ClusterPacket>, pollFds: array<PollFd>)
      requires Synced(net, results) && pollFds.Length == workersCapacity + 1 && listenSocketFd >= 0
      requires CountDone(workers[..]) < workersCapacity && AllSteady(workers[..])
      modifies pollFds
      ensures Prepared(pollFds[..])
      ensures exists k :: 0 <= k < pollFds.Length && pollFds[k].fd >= 0
      ensures forall i :: 0 <= i < workersCapacity && !net.sys.Excused(i) && workers[i].state != Done ==>
              Watched(net, pollFds[..], i)
    {
      SocketsNumbered(net, results);
      PreparePollFds(pollFds);
      PollSetNeverDead(net, results, pollFds[..]);
      AllWatched(net, results, pollFds[..]);
    }

    /** poll() and what its answer means for the round. */
    method WaitInPoll(net: Kernel, pollFds: array<PollFd>, timeoutMs: int) returns (answer: PollAnswer)
      requires net.Valid() && timeoutMs != 0 && pollFds.Length == |net.links| + 1
      modifies pollFds, net`links, net`sys, net`patience, net`now, net`expired, net`wakeBy
      ensures net.Valid() && net.Elapsed()
      ensures net.sys == old(net.sys).(links := net.links, faults := net.sys.faults)
      ensures net.wakeBy == if timeoutMs < 0 then None else Some(old(net.now) + timeoutMs)
      ensures answer.Ready? ==> net.Polled(pollFds[..], old(pollFds[..]))
      ensures answer.Ready? ==> net.patience < old(net.patience) || net.SomethingUseful(pollFds[..])
      ensures answer.Retry? ==> net.patience < old(net.patience) && !net.expired
      ensures answer.GiveUp? ==>
                || net.sys.faults.any || net.deadline <= net.now
                || (timeoutMs > 0 && old(net.now) + timeoutMs <= net.now)
    {
      var pollResult, interrupted := net.Poll(pollFds, timeoutMs);
      if pollResult < 0 {
        if interrupted {
          var expired := net.DeadlineTimerExpired();
          return if expired then GiveUp else Retry;
        }
        return GiveUp;
      }
      answer := if pollResult == 0 then GiveUp else Ready;
    }

    // ----- The end of a run -----

    /** A slot of a run that has failed. */
    function Closed(worker: MasterWorker): MasterWorker {
      worker.(socketFd := -1, state := if worker.state == Done then Done else Failed)
    }

    /** Closes every accepted socket, each once, and marks every worker that is not Done as Failed. */
    method CloseAllWorkers(net: Kernel)
      requires 0 <= workersCount <= workers.Length && net.open == Descriptors(workersCount)
      requires forall i :: 0 <= i < workersCount ==> workers[i].socketFd == i
      modifies workers, net`open
      ensures net.open == {}
      ensures forall i :: 0 <= i < workersCount ==>
                workers[i] == Closed(old(workers[i]))
      ensures forall i :: 0 <= i < workersCount ==>
                workers[i].socketFd == -1 && workers[i].state == if old(workers[i].state) == Done then Done else Failed
      ensures forall i :: workersCount <= i < workers.Length ==> workers[i] == old(workers[i])
    {
      var i := 0;
      while i < workersCount
        invariant 0 <= i <= workersCount
        invariant net.open == Descriptors(workersCount) - Descriptors(i)
        invariant forall k :: 0 <= k < i ==>
                    workers[k] == Closed(old(workers[k]))
        invariant forall k :: i <= k < workers.Length ==> workers[k] == old(workers[k])
      {
        if workers[i].socketFd >= 0 {
          net.Close(workers[i].socketFd);
        }
        workers[i] := workers[i].(socketFd := -1);
        if workers[i].state != Done {
          workers[i] := workers[i].(state := Failed);
        }
        i := i + 1;
      }
    }

    method FreeResults(results: array<ClusterPacket>)
      requires results.Length == workersCapacity
      modifies results
      ensures AllEmpty(results)
    {
      var i := 0;
      while i < workersCapacity
        invariant 0 <= i <= workersCapacity
        invariant forall k :: 0 <= k < i ==> results[k] == EMPTY_PACKET
      {
        results[i] := EMPTY_PACKET;
        i := i + 1;
      }
    }

    ghost predicate AllEmpty(results: array<ClusterPacket>)
      reads results
    {
      forall i :: 0 <= i < results.Length ==> results[i] == EMPTY_PACKET
    }

    /** A master that was just initialised, and a kernel that nobody has used yet. */
    ghost predicate Unused(net: Kernel)
      reads this, workers, net
    {
      && net.Valid() && net.sys == Init(net.cfg) && net.open == {} && !net.armed
      && workers.Length == workersCapacity == |net.cfg.tasks| && workersCount == 0
      && forall i :: 0 <= i < workers.Length ==> workers[i] == EMPTY_WORKER
    }

    predicate BadArguments(data: seq<byte>, size: nat, results: array?<ClusterPacket>)
      reads this
    {
      (data == [] && size > 0) || results == null || listenSocketFd < 0 || workersCapacity <= 0
    }

    /** Every worker is Done and every result is in: the first packet that worker wrote, and, unless
        the worker turned rogue, its answer to exactly its slice of the data. */
    ghost predicate Complete(net: Kernel, results: array<ClusterPacket>)
      reads this, workers, net, results
    {
      && Synced(net, results) && workersCount == workersCapacity && net.open == Descriptors(workersCapacity)
      && forall i :: 0 <= i < workersCapacity ==>
           && workers[i].state == Done
           && results[i].size == workers[i].resultSize == |results[i].data|
           && Delivered(net.cfg, i, net.sys.At(i))
    }

    /** Distributes `data` and collects one packet from each worker, all or nothing: it returns 0 with
        everything delivered, or 1 with every result empty, every accepted socket closed and every
        worker that was not Done marked Failed; and it returns 1 only for bad arguments, after a fault,
        or because the time was up. */
    method MasterRun(net: Kernel, data: seq<byte>, size: nat, results: array?<ClusterPacket>) returns (status: int)
      requires (workersCapacity > 0 ==> Unused(net)) && maxTimeMs <= INT_MAX
      requires (data == [] || |data| == size) && size < WORD
      requires |data| == size ==> Sliced(net.cfg, data)
      requires results != null && workersCapacity > 0 ==> results.Length == workersCapacity
      modifies this`workersCount, workers, net, results
      ensures status == 0 || status == 1
      ensures old(BadArguments(data, size, results)) ==>
                status == 1 && unchanged(this) && unchanged(workers) && unchanged(net) &&
                  (results != null ==> unchanged(results))
      ensures !old(BadArguments(data, size, results)) && status != 0 ==>
                && AllEmpty(results)
                && net.open == {}
                && (net.sys.faults.any || old(net.now) + maxTimeMs <= net.now)
                && Abandoned(net)
      ensures status == 0 ==> results != null && Complete(net, results)
      ensures status == 0 ==>
                net.firstReading.Some? && old(net.now) <= net.firstReading.value &&
                net.now <= net.firstReading.value + maxTimeMs
      ensures maxTimeMs < 0 ==> status == 1
      ensures !old(BadArguments(data, size, results)) ==> !net.armed
      ensures net.listening == old(net.listening)
    {
      if (data == [] && size > 0) || results == null || listenSocketFd < 0 || workersCapacity <= 0 {
        return 1;
      }
      status := Distribute(net, data, results);
    }

    /** `MasterRun` after its check of the arguments. */
    method Distribute(net: Kernel, data: seq<byte>, results: array<ClusterPacket>) returns (status: int)
      requires Unused(net) && maxTimeMs <= INT_MAX && listenSocketFd >= 0
      requires 0 < workersCapacity == results.Length && |data| < WORD
      requires Sliced(net.cfg, data)
      modifies this`workersCount, workers, net, results
      ensures status == 0 || status == 1
      ensures status == 0 ==> Complete(net, results)
      ensures status != 0 ==> AllEmpty(results) && net.open == {} && Abandoned(net)
      ensures status != 0 ==> net.sys.faults.any || old(net.now) + maxTimeMs <= net.now
      ensures status == 0 ==>
                net.firstReading.Some? && old(net.now) <= net.firstReading.value &&
                net.now <= net.firstReading.value + maxTimeMs
      ensures maxTimeMs < 0 ==> status == 1
      ensures !net.armed && net.listening == old(net.listening)
    {
      var ok, startTime := Prepare(net, data, results);
      if !ok {
        return 1;
      }
      status := RunToEnd(net, results, data, startTime);
    }

    /** The poll loop and what comes after it. */
    method RunToEnd(net: Kernel, results: array<ClusterPacket>, data: seq<byte>, startTime: int) returns (status: int)
      requires Running(net, results, data) && listenSocketFd >= 0 && maxTimeMs <= INT_MAX && workersCapacity > 0
      requires CountDone(workers[..]) == 0 && AllSteady(workers[..])
      requires startTime <= net.now && net.deadline <= startTime + maxTimeMs && net.firstReading == Some(startTime)
      modifies this`workersCount, workers, results, net
      ensures status == 0 || status == 1
      ensures status == 0 ==> Complete(net, results) && net.now - startTime <= maxTimeMs
      ensures status != 0 ==> AllEmpty(results) && net.open == {} && Abandoned(net)
      ensures status != 0 ==> net.sys.faults.any || net.deadline <= net.now
      ensures maxTimeMs < 0 ==> status == 1
      ensures !net.armed && net.deadline == old(net.deadline)
      ensures net.firstReading == Some(startTime) && net.listening == old(net.listening)
    {
      status := PollLoop(net, results, data, startTime);
      FinishRun(net, results, data, status);
    }

    /** What comes before the loop: the results are emptied, the poll set is allocated, the timer is started. */
    method Prepare(net: Kernel, ghost data: seq<byte>, results: array<ClusterPacket>) returns (ok: bool, startTime: int)
      requires Unused(net) && results.Length == workersCapacity
      modifies results, net
      ensures AllEmpty(results) && net.open == {} && old(net.now) <= net.now
      ensures ok ==> old(net.now) <= startTime == net.now && net.firstReading == Some(startTime)
      ensures !ok ==> !net.armed
      ensures net.listening == old(net.listening)
      ensures ok ==> old(net.now) + maxTimeMs <= net.deadline <= startTime + maxTimeMs
      ensures !ok ==> net.sys.faults.any
      ensures Consistent(net, results, data)
      ensures CountDone(workers[..]) == 0 && AllSteady(workers[..])
    {
      NothingDone(workers[..]);
      startTime := net.now;
      FreeResults(results);
      ok := net.MayFail();
      if ok {
        ok := net.DeadlineTimerStart(maxTimeMs);
      }
      if ok {
        startTime := net.NowMs();
      }
    }

    /** The end of a run: on failure everything is closed and freed. */
    method FinishRun(net: Kernel, results: array<ClusterPacket>, ghost data: seq<byte>, status: int)
      requires Consistent(net, results, data)
      requires net.open == Descriptors(workersCount)
      requires status == 0 ==> CountDone(workers[..]) == workersCapacity
      modifies workers, results, net`open, net`armed, net`expired
      ensures !net.armed
      ensures status == 0 ==> Complete(net, results)
      ensures status != 0 ==> AllEmpty(results) && net.open == {} && Abandoned(net)
    {
      net.DeadlineTimerStop();
      Settled(net, results);
      if status != 0 {
        CloseAllWorkers(net);
        FreeResults(results);
      } else {
        AllDelivered(net, results);
      }
    }

    /** How a failed run leaves the slots: accepted workers closed, and Failed exactly if the protocol had
        not brought them to Done. */
    ghost predicate Abandoned(net: Kernel)
      reads this, workers, net
    {
      && 0 <= workersCount <= workersCapacity == workers.Length == |net.sys.slots|
      && (forall i :: 0 <= i < workersCount ==>
            && workers[i].socketFd == -1
            && workers[i].state == if net.sys.slots[i].state == Done then Done else Failed)
      && (forall i :: workersCount <= i < workersCapacity ==> workers[i] == EMPTY_WORKER)
    }

    /** The open connections are those that the slots hold, each its own. */
    ghost predicate Holds(net: Kernel)
      reads this, workers, net
    {
      && workers.Length == workersCapacity
      && (forall i :: 0 <= i < workers.Length ==> workers[i].socketFd == -1 || workers[i].socketFd == i)
      && (forall fd :: fd in net.open <==> 0 <= fd < workers.Length && workers[fd].socketFd == fd)
      && (net.listening <==> listenSocketFd >= 0)
    }

    lemma CompleteHolds(net: Kernel, results: array<ClusterPacket>)
      requires Complete(net, results) && (net.listening <==> listenSocketFd >= 0)
      ensures Holds(net)
    {
      Settled(net, results);
    }

    /** Closes what is still open, each connection once, and leaves an empty master. */
    method MasterDestroy(net: Kernel)
      requires Holds(net)
      modifies this, net`open, net`listening
      ensures net.open == {} && !net.listening
      ensures listenSocketFd == -1 && workers.Length == 0 && workersCount == 0 && workersCapacity == 0
    {
      var i := 0;
      while i < workersCapacity
        invariant 0 <= i <= workersCapacity == workers.Length && workers == old(workers)
        invariant forall fd :: fd in net.open <==> i <= fd < workers.Length && workers[fd].socketFd == fd
        invariant listenSocketFd == old(listenSocketFd) && net.listening == old(net.listening)
      {
        if workers[i].socketFd >= 0 {
          net.Close(workers[i].socketFd);
        }
        i := i + 1;
      }
      assert forall fd: int :: fd !in net.open;
      if listenSocketFd >= 0 {
        net.CloseListener();
      }
      listenSocketFd, workersCount, workersCapacity := -1, 0, 0;
      workers := new MasterWorker[0](_ => EMPTY_WORKER);
    }

    /** Accepted workers hold the descriptor of their slot; the other slots are empty. */
    lemma Settled(net: Kernel, results: array<ClusterPacket>)
      requires Synced(net, results)
      ensures workersCount <= workersCapacity
      ensures forall i :: 0 <= i < workersCount ==> workers[i].socketFd == i
      ensures forall i :: workersCount <= i < workersCapacity ==> workers[i] == EMPTY_WORKER
    {
      ReachableInv(net.cfg, net.sys);
      forall i | 0 <= i < workersCapacity
        ensures i < workersCount ==> workers[i].socketFd == i
        ensures workersCount <= i ==> workers[i] == EMPTY_WORKER
      {
        assert PeerInv(net.cfg, i, net.sys.At(i));
      }
    }

    lemma AllDelivered(net: Kernel, results: array<ClusterPacket>)
      requires Synced(net, results) && Measured(results)
      requires CountDone(workers[..]) == workersCapacity && net.open == Descriptors(workersCount)
      ensures Complete(net, results)
    {
      CountDoneAll(workers[..]);
      ReachableInv(net.cfg, net.sys);
      forall i | 0 <= i < workersCapacity
        ensures workers[i].state == Done && i < workersCount
        ensures results[i].size == workers[i].resultSize == |results[i].data|
        ensures Delivered(net.cfg, i, net.sys.At(i))
      {
        assert workers[..][i].state == Done && SizeStored(workers[i], results[i]);
        assert PeerInv(net.cfg, i, net.sys.At(i));
        DoneIsDelivered(net.cfg, net.sys, i);
      }
      assert workersCapacity - 1 < workersCount;
    }
  }

  lemma {:induction false} NothingDone(slots: seq<MasterWorker>)
    requires forall i :: 0 <= i < |slots| ==> slots[i] == EMPTY_WORKER
    ensures CountDone(slots) == 0
    decreases |slots|
  {
    if slots != [] {
      NothingDone(slots[..|slots| - 1]);
    }
  }
}
