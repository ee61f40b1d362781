/** Progress of the composed system: it never deadlocks, and no run goes on for ever. */
module ProtocolProgress {
  import opened Common
  import opened Framing
  import opened Protocol
  import opened ProtocolSafety

  // ----- A measure that every step lowers -----

  function Left(size: nat, offset: nat): nat {
    if offset <= size then size - offset else 0
  }

  /** Work left in a slot: its remaining states, weighted above any 64-bit size, then the bytes left
      in its current phase. The size of a result need not be known before its header arrives. */
  function SlotWork(slot: MasterWorker): nat {
    var bytes := Left(slot.PhaseSize(), slot.transferOffset);
    match slot.state
    case MasterWorkerEmpty => 5 * WORD
    case SendTaskSize => 4 * WORD + bytes
    case SendTaskData => 3 * WORD + bytes
    case ReadResultSize => 2 * WORD + bytes
    case ReadResultData => WORD + bytes
    case _ => 0
  }

  function TotalWork(slots: seq<MasterWorker>): nat {
    if slots == [] then 0 else TotalWork(slots[..|slots| - 1]) + SlotWork(slots[|slots| - 1])
  }

  /** Work left for a worker process, and the bytes on their way to it. */
  function LinkWork(link: Link): nat {
    |link.toWorker| +
    match link.proc
    case Receiving => (if |link.got| < HEADER_SIZE then 4 * WORD else 3 * WORD) + Want(link.got)
    case Answering(packet, sent) => 1 + Left(|Frame(packet)|, sent)
    case _ => 0
  }

  function TotalLinkWork(links: seq<Link>): nat {
    if links == [] then 0 else TotalLinkWork(links[..|links| - 1]) + LinkWork(links[|links| - 1])
  }

  /** A byte still to be sent counts twice: sending it leaves it on its way. */
  function Measure(s: System): nat {
    2 * TotalWork(s.slots) + TotalLinkWork(s.links)
  }

  lemma {:induction false} TotalWorkUpdate(slots: seq<MasterWorker>, i: nat, slot: MasterWorker)
    requires i < |slots|
    ensures TotalWork(slots[i := slot]) + SlotWork(slots[i]) == TotalWork(slots) + SlotWork(slot)
    decreases |slots|
  {
    var n := |slots| - 1;
    if i == n {
      assert slots[i := slot][..n] == slots[..n];
    } else {
      assert slots[i := slot][..n] == slots[..n][i := slot];
      TotalWorkUpdate(slots[..n], i, slot);
    }
  }

  lemma {:induction false} TotalLinkWorkUpdate(links: seq<Link>, i: nat, link: Link)
    requires i < |links|
    ensures TotalLinkWork(links[i := link]) + LinkWork(links[i]) == TotalLinkWork(links) + LinkWork(link)
    decreases |links|
  {
    var n := |links| - 1;
    if i == n {
      assert links[i := link][..n] == links[..n];
    } else {
      assert links[i := link][..n] == links[..n][i := link];
      TotalLinkWorkUpdate(links[..n], i, link);
    }
  }

  predicate IsFault(step: Step) {
    step.FaultStep? || step.Trouble?
  }

  /** Every step of the master lowers the slot's work, a send by at least the bytes that it moves. */
  lemma MasterStepWorks(cfg: Config, i: nat, p: Peer, act: MasterAct, own: bool)
    requires cfg.Valid() && i < |cfg.tasks| && SlotInv(cfg, i, p.slot, p.result)
    requires MasterEnabled(cfg, i, p, act, own)
    ensures SlotWork(MasterApply(cfg, i, p, act, own).slot) + (if act.MSend? then act.count else 1) <= SlotWork(p.slot)
  {
    match act
    case MSend(count) => MovingWorks(p.slot, count, p.slot.sizeBuffer);
    case MRecv(count) => MovingWorks(p.slot, count, MasterApply(cfg, i, p, act, own).slot.sizeBuffer);
    case MAdvance(blank) => AdvanceWorks(p, blank);
    case MFail =>
  }

  lemma MovingWorks(slot: MasterWorker, count: nat, buffer: seq<byte>)
    requires slot.Sending() || slot.Reading()
    requires slot.transferOffset + count <= slot.PhaseSize()
    ensures SlotWork(slot.(transferOffset := slot.transferOffset + count, sizeBuffer := buffer)) + count ==
            SlotWork(slot)
  {
  }

  lemma AdvanceWorks(p: Peer, blank: seq<byte>)
    requires p.slot.Sending() || p.slot.Reading()
    requires p.slot.taskSize < WORD
    requires p.slot.state == ReadResultSize ==> |blank| < WORD
    ensures SlotWork(Advance(p, blank).slot) < SlotWork(p.slot)
  {
  }

  lemma MasterStepLink(cfg: Config, i: nat, p: Peer, act: MasterAct, own: bool)
    requires i < |cfg.tasks| && MasterEnabled(cfg, i, p, act, own)
    ensures LinkWork(MasterApply(cfg, i, p, act, own).link) == LinkWork(p.link) + (if act.MSend? then act.count else 0)
  {
  }

  lemma WorkerStepWorks(cfg: Config, i: nat, link: Link, act: WorkerAct)
    requires cfg.Valid() && WorkerEnabled(cfg, i, link, act)
    ensures LinkWork(WorkerApply(cfg, i, link, act)) < LinkWork(link)
  {
    match act
    case WRead(count) =>
      if link.proc.Receiving? {
        ReadLowersWant(link.got, link.toWorker[..count]);
      }
    case WCompute =>
    case WWrite(count) =>
    case WClose =>
  }

  lemma ReadLowersWant(got: seq<byte>, more: seq<byte>)
    requires 0 < |more| <= Want(got)
    ensures Want(got + more) < Want(got) || (|got| < HEADER_SIZE <= |got + more|)
  {
    if |got| >= HEADER_SIZE {
      assert (got + more)[..HEADER_SIZE] == got[..HEADER_SIZE];
    }
  }

  lemma FaultStepWorks(cfg: Config, link: Link, act: FaultAct)
    requires FaultEnabled(cfg, link, act)
    ensures LinkWork(FaultApply(cfg, link, act)) <= LinkWork(link)
  {
  }

  lemma MasterStepLowers(cfg: Config, s: System, i: nat, act: MasterAct)
    requires cfg.Valid() && Inv(cfg, s) && Enabled(cfg, s, MasterStep(i, act))
    ensures Measure(Apply(cfg, s, MasterStep(i, act))) < Measure(s)
  {
    var p, own := s.At(i), s.faults.own;
    var q := MasterApply(cfg, i, p, act, own);
    MasterStepWorks(cfg, i, p, act, own);
    MasterStepLink(cfg, i, p, act, own);
    TotalWorkUpdate(s.slots, i, q.slot);
    TotalLinkWorkUpdate(s.links, i, q.link);
  }

  /** In every state that satisfies the invariant, faults or not: a step that is no fault strictly lowers
      the measure, and a fault does not raise it. */
  lemma StepLowers(cfg: Config, s: System, step: Step)
    requires cfg.Valid() && Inv(cfg, s) && Enabled(cfg, s, step)
    ensures Measure(Apply(cfg, s, step)) <= Measure(s)
    ensures !IsFault(step) ==> Measure(Apply(cfg, s, step)) < Measure(s)
  {
    match step
    case Accept(taskOffset) =>
      TotalWorkUpdate(s.slots, s.count, AcceptedWorker(s.count, taskOffset, |cfg.tasks[s.count]|));
    case MasterStep(i, act) =>
      MasterStepLowers(cfg, s, i, act);
    case WorkerStep(i, act) =>
      var link := WorkerApply(cfg, i, s.links[i], act);
      WorkerStepWorks(cfg, i, s.links[i], act);
      TotalLinkWorkUpdate(s.links, i, link);
    case FaultStep(i, act) =>
      FaultStepWorks(cfg, s.links[i], act);
      TotalLinkWorkUpdate(s.links, i, FaultApply(cfg, s.links[i], act));
    case Trouble =>
  }

  /** The steps of a run that are no faults. */
  function Moves(steps: seq<Step>): (n: nat)
    ensures n <= |steps|
  {
    if steps == [] then 0
    else Moves(steps[..|steps| - 1]) + (if IsFault(steps[|steps| - 1]) then 0 else 1)
  }

  lemma {:induction false} MovesAfter(cfg: Config, states: seq<System>, steps: seq<Step>)
    requires cfg.Valid() && IsRun(cfg, states, steps)
    ensures Moves(steps) + Measure(states[|steps|]) <= Measure(Init(cfg))
    decreases |steps|
  {
    var n := |steps| - 1;
    if n >= 0 {
      ShorterRun(cfg, states, steps);
      MovesAfter(cfg, states[..n + 1], steps[..n]);
      LastStepLowers(cfg, states, steps);
    }
  }

  lemma ShorterRun(cfg: Config, states: seq<System>, steps: seq<Step>)
    requires IsRun(cfg, states, steps) && steps != []
    ensures IsRun(cfg, states[..|steps|], steps[..|steps| - 1])
  {
    forall k | 0 <= k < |steps| - 1
      ensures Follows(cfg, states[..|steps|][k], steps[..|steps| - 1][k], states[..|steps|][k + 1])
    {
      assert Follows(cfg, states[k], steps[k], states[k + 1]);
    }
  }

  lemma LastStepLowers(cfg: Config, states: seq<System>, steps: seq<Step>)
    requires cfg.Valid() && IsRun(cfg, states, steps) && steps != []
    ensures var n := |steps| - 1;
            Measure(states[n + 1]) + (if IsFault(steps[n]) then 0 else 1) <= Measure(states[n])
  {
    var n := |steps| - 1;
    RunInv(cfg, states, steps, n);
    assert Follows(cfg, states[n], steps[n], states[n + 1]);
    StepLowers(cfg, states[n], steps[n]);
  }

  lemma {:induction false} InitialWork(slots: seq<MasterWorker>, links: seq<Link>)
    requires |slots| == |links|
    requires forall i :: 0 <= i < |slots| ==> slots[i] == EMPTY_WORKER && links[i] == FRESH_LINK
    ensures 2 * TotalWork(slots) + TotalLinkWork(links) == |slots| * (14 * WORD + HEADER_SIZE)
    decreases |slots|
  {
    if slots != [] {
      var n := |slots| - 1;
      InitialWork(slots[..n], links[..n]);
    }
  }

  /** In every run, master and workers together take at most `14 * 2^64 + 8` steps for each worker,
      however many faults strike in between; so every run with finitely many faults ends. */
  lemma RunsAreBounded(cfg: Config, states: seq<System>, steps: seq<Step>)
    requires cfg.Valid() && IsRun(cfg, states, steps)
    ensures Moves(steps) <= |cfg.tasks| * (14 * WORD + HEADER_SIZE)
  {
    MovesAfter(cfg, states, steps);
    InitialWork(Init(cfg).slots, Init(cfg).links);
  }

  // ----- Deadlock freedom -----

  /** A step that sending needs: the next send, or the worker making room for it. */
  lemma SenderMoves(cfg: Config, s: System, i: nat) returns (step: Step)
    requires cfg.Valid() && Inv(cfg, s) && i < s.count && Sound(s.At(i))
    requires s.slots[i].Sending()
    ensures !IsFault(step) && Enabled(cfg, s, step) && Concerns(step, i)
  {
    var p := s.At(i);
    assert PeerInv(cfg, i, p);
    if p.slot.transferOffset == p.slot.PhaseSize() {
      step := MasterStep(i, MAdvance([]));
    } else if |p.link.toWorker| < cfg.room {
      step := MasterStep(i, MSend(1));
    } else {
      var act := ReceiverMoves(cfg, i, p);
      step := WorkerStep(i, act);
    }
  }

  /** An honest worker with bytes on their way to it can read. */
  lemma ReceiverMoves(cfg: Config, i: nat, p: Peer) returns (act: WorkerAct)
    requires cfg.Valid() && i < |cfg.tasks| && PeerInv(cfg, i, p) && Sound(p)
    requires |p.link.toWorker| >= cfg.room
    ensures WorkerEnabled(cfg, i, p.link, act)
  {
    if p.link.proc.Receiving? {
      WantOnFrame(p.link.got, cfg.tasks[i]);
    }
    act := WRead(1);
  }

  /** A step that reading needs: the next read, or the worker on its way to write. */
  lemma ReaderMoves(cfg: Config, s: System, i: nat) returns (step: Step)
    requires cfg.Valid() && Inv(cfg, s) && i < s.count && Sound(s.At(i))
    requires s.slots[i].Reading()
    ensures !IsFault(step) && Enabled(cfg, s, step) && Concerns(step, i)
  {
    var p := s.At(i);
    assert PeerInv(cfg, i, p);
    if p.slot.transferOffset == p.slot.PhaseSize() {
      var size := if p.slot.state == ReadResultSize then DecodeSize(p.slot.sizeBuffer) else 0;
      step := MasterStep(i, MAdvance(seq(size, _ => 0 as byte)));
    } else if p.link.toMaster != [] {
      step := MasterStep(i, MRecv(1));
    } else {
      var act := WorkerMoves(cfg, i, p);
      step := WorkerStep(i, act);
    }
  }

  /** What the worker does while the master waits for its answer with nothing in flight. */
  lemma WorkerMoves(cfg: Config, i: nat, p: Peer) returns (act: WorkerAct)
    requires cfg.Valid() && i < |cfg.tasks| && PeerInv(cfg, i, p) && Sound(p)
    requires p.slot.Reading() && p.slot.transferOffset < p.slot.PhaseSize() && p.link.toMaster == []
    ensures WorkerEnabled(cfg, i, p.link, act)
  {
    match p.link.proc
    case Receiving =>
      WantOnFrame(p.link.got, cfg.tasks[i]);
      act := if p.link.toWorker == [] then WCompute else WRead(1);
      assert p.link.toWorker == [] ==> p.link.got + p.link.toWorker == p.link.got;
    case Answering(packet, sent) =>
      act := if sent < |Frame(packet)| then WWrite(1) else WClose;
    case Finished(_) =>
      SoundPeerNeverGone(cfg, i, p);
      assert false;
  }

  /** A step of one connection, or the acceptance of the next. */
  predicate Concerns(step: Step, i: nat) {
    match step
    case Accept(_) => true
    case MasterStep(k, _) => k == i
    case WorkerStep(k, _) => k == i
    case FaultStep(k, _) => k == i
    case Trouble => false
  }

  /** As long as slot `i` has no excuse to fail and is not Done, a step other than a fault can be taken
      that accepts the next worker or moves this connection on, with channels of any positive capacity
      and whatever has happened to the other workers: the composed system never deadlocks. */
  lemma NeverStuck(cfg: Config, s: System, i: nat) returns (step: Step)
    requires cfg.Valid() && Reachable(cfg, s) && i < |cfg.tasks|
    requires !s.Excused(i) && s.slots[i].state != Done
    ensures !IsFault(step) && Enabled(cfg, s, step) && Concerns(step, i)
  {
    ReachableInv(cfg, s);
    if s.count < |cfg.tasks| {
      step := Accept(0);
    } else {
      StillActive(cfg, s, i);
      if s.slots[i].Sending() {
        step := SenderMoves(cfg, s, i);
      } else {
        step := ReaderMoves(cfg, s, i);
      }
    }
  }

  lemma StillActive(cfg: Config, s: System, i: nat)
    requires Inv(cfg, s) && i < s.count && !s.Excused(i) && s.slots[i].state != Done
    ensures Sound(s.At(i)) && (s.slots[i].Sending() || s.slots[i].Reading())
  {
    assert Blameless(s.faults.own, s.At(i));
  }

  /** A run that can only be continued by faults has driven every connection without an excuse to its
      end: the slot is Done and holds the worker's answer to exactly its task. With `RunsAreBounded`,
      every run gets there unless faults strike for ever. */
  lemma MaximalRunsDeliver(cfg: Config, states: seq<System>, steps: seq<Step>, i: nat)
    requires cfg.Valid() && IsRun(cfg, states, steps)
    requires i < |cfg.tasks| && states[|steps|].Shape(cfg) && !states[|steps|].Excused(i)
    requires forall step :: !IsFault(step) ==> !Enabled(cfg, states[|steps|], step)
    ensures states[|steps|].slots[i].state == Done
    ensures states[|steps|].results[i] == cfg.run(i, cfg.tasks[i])
  {
    var s := states[|steps|];
    assert Reachable(cfg, s);
    if s.slots[i].state != Done {
      var step := NeverStuck(cfg, s, i);
      assert false;
    }
    DoneIsDelivered(cfg, s, i);
  }
}
