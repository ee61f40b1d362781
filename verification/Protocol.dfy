/** The master and its workers as one transition system.

    The master's slots (src/master.c) and the worker processes (src/worker.c) run concurrently and
    talk over bounded FIFO channels. A step moves any positive number of bytes that fit, so every
    fragmentation and every interleaving is a run of this system. Workers may crash, or turn rogue
    and write arbitrary bytes. What has gone wrong is remembered: a worker's fault in its own state,
    a failing system call of the master in `faults.own`, and either in `faults.any`.
  */
module Protocol {
  import opened Common
  import opened Framing

  /** `tasks[i]` goes to the worker in slot `i`, which answers `run(i, tasks[i])`;
      each channel holds at most `room` bytes. */
  datatype Config = Config(tasks: seq<seq<byte>>, room: nat, run: (nat, seq<byte>) -> seq<byte>)
  {
    ghost predicate Valid() {
      && 0 < |tasks| <= INT_MAX
      && Sized(tasks)
      && room > 0
      && forall i: nat, task: seq<byte> :: |run(i, task)| < WORD
    }
  }

  // ----- The master's side -----

  datatype MasterWorkerState =
    | MasterWorkerEmpty
    | SendTaskSize
    | SendTaskData
    | ReadResultSize
    | ReadResultData
    | Done
    | Failed

  /** `sizeBuffer` holds the task's size while it is sent, then the result's size as it arrives. */
  datatype MasterWorker = MasterWorker(
    socketFd: int,
    state: MasterWorkerState,
    transferOffset: nat,
    taskOffset: nat,
    taskSize: nat,
    resultSize: nat,
    sizeBuffer: seq<byte>)
  {
    predicate Sending() {
      state == SendTaskSize || state == SendTaskData
    }

    predicate Reading() {
      state == ReadResultSize || state == ReadResultData
    }

    /** The number of bytes that the current phase transfers. */
    function PhaseSize(): nat {
      match state
      case SendTaskSize => HEADER_SIZE
      case SendTaskData => taskSize
      case ReadResultSize => HEADER_SIZE
      case ReadResultData => resultSize
      case _ => 0
    }
  }

  const EMPTY_WORKER := MasterWorker(-1, MasterWorkerEmpty, 0, 0, 0, 0, [0, 0, 0, 0, 0, 0, 0, 0])

  /** A worker as `MasterAcceptWorker` leaves it. */
  function AcceptedWorker(fd: int, taskOffset: nat, taskSize: nat): MasterWorker {
    MasterWorker(fd, SendTaskSize, 0, taskOffset, taskSize, 0, EncodeSize(taskSize))
  }

  // ----- The worker's side -----

  /** What a worker process is doing: it reads its task packet, computes, and writes the result packet;
      `Finished` and `Crashed` have closed the socket. `written` is everything a crashed or rogue worker
      ever wrote. */
  datatype WorkerProc =
    | Receiving
    | Answering(packet: seq<byte>, sent: nat)
    | Finished(answer: seq<byte>)
    | Crashed(written: seq<byte>)
    | Rogue(written: seq<byte>)

  /** A worker that still follows the protocol. */
  predicate Honest(proc: WorkerProc) {
    proc.Receiving? || proc.Answering? || proc.Finished?
  }

  function WorkerWrote(proc: WorkerProc): seq<byte> {
    match proc
    case Receiving => []
    case Answering(packet, sent) => if sent <= |Frame(packet)| then Frame(packet)[..sent] else []
    case Finished(packet) => Frame(packet)
    case Crashed(written) => written
    case Rogue(written) => written
  }

  /** How much one call may still write: a call never spans the header and the body. */
  function Due(packet: seq<byte>, sent: nat): nat {
    if sent < HEADER_SIZE then HEADER_SIZE - sent
    else if sent < |Frame(packet)| then |Frame(packet)| - sent
    else 0
  }

  /** The two channels of one connection, whether the worker has closed its end, everything the worker
      has read, and the worker. */
  datatype Link = Link(toWorker: seq<byte>, toMaster: seq<byte>, closed: bool, got: seq<byte>, proc: WorkerProc)

  const FRESH_LINK := Link([], [], false, [], Receiving)

  /** One slot of the master, the result it collects, and the connection it talks over. */
  datatype Peer = Peer(slot: MasterWorker, result: seq<byte>, link: Link)

  // ----- Steps of one peer -----

  datatype MasterAct =
    | MSend(count: nat)               // one send() call that moved `count` bytes
    | MRecv(count: nat)               // one recv() call that moved `count` bytes
    | MAdvance(blank: seq<byte>)      // the phase is complete; `blank` is a newly allocated result
    | MFail                           // worker->state = Failed

  datatype WorkerAct =
    | WRead(count: nat)
    | WCompute
    | WWrite(count: nat)
    | WClose

  datatype FaultAct =
    | Crash
    | Babble(bytes: seq<byte>)

  /** The buffer that the current phase sends from. */
  function Outgoing(cfg: Config, i: nat, slot: MasterWorker): seq<byte>
    requires i < |cfg.tasks|
  {
    if slot.state == SendTaskSize then slot.sizeBuffer
    else if slot.state == SendTaskData then cfg.tasks[i]
    else []
  }

  /** The buffer that the current phase reads into. */
  function Incoming(p: Peer): seq<byte> {
    if p.slot.state == ReadResultSize then p.slot.sizeBuffer
    else if p.slot.state == ReadResultData then p.result
    else []
  }

  /** `buffer` after `bytes` were stored at `offset`. */
  function Splice(buffer: seq<byte>, offset: nat, bytes: seq<byte>): (r: seq<byte>)
    requires offset + |bytes| <= |buffer|
    ensures |r| == |buffer|
    ensures r[..offset + |bytes|] == buffer[..offset] + bytes
  {
    buffer[..offset] + bytes + buffer[offset + |bytes|..]
  }

  /** The peer closed and the current phase can no longer be completed. */
  predicate PeerGone(p: Peer) {
    && p.link.closed
    && (p.slot.Sending() || p.slot.Reading())
    && (p.slot.Sending() ==> p.slot.transferOffset < p.slot.PhaseSize())
    && (p.slot.Reading() ==> p.slot.transferOffset + |p.link.toMaster| < p.slot.PhaseSize())
  }

  predicate MasterEnabled(cfg: Config, i: nat, p: Peer, act: MasterAct, own: bool)
    requires i < |cfg.tasks|
  {
    match act
    case MSend(count) =>
      && p.slot.Sending() && 0 < count
      && p.slot.transferOffset + count <= |Outgoing(cfg, i, p.slot)|
      && |p.link.toWorker| + count <= cfg.room
    case MRecv(count) =>
      && p.slot.Reading() && 0 < count
      && p.slot.transferOffset + count <= |Incoming(p)|
      && count <= |p.link.toMaster|
    case MAdvance(blank) =>
      && (p.slot.Sending() || p.slot.Reading())
      && p.slot.transferOffset == p.slot.PhaseSize()
      && (p.slot.state == ReadResultSize ==>
        |p.slot.sizeBuffer| == HEADER_SIZE && |blank| == DecodeSize(p.slot.sizeBuffer))
    case MFail =>
      && (p.slot.Sending() || p.slot.Reading())
      && (own || !Honest(p.link.proc) || PeerGone(p))
  }

  function MasterApply(cfg: Config, i: nat, p: Peer, act: MasterAct, own: bool): Peer
    requires i < |cfg.tasks|
    requires MasterEnabled(cfg, i, p, act, own)
  {
    match act
    case MSend(count) =>
      var off := p.slot.transferOffset;
      p.(slot := p.slot.(transferOffset := off + count),
         link := p.link.(toWorker := p.link.toWorker + Outgoing(cfg, i, p.slot)[off..off + count]))
    case MRecv(count) =>
      var off := p.slot.transferOffset;
      var buffer := Splice(Incoming(p), off, p.link.toMaster[..count]);
      var link := p.link.(toMaster := p.link.toMaster[count..]);
      if p.slot.state == ReadResultSize then
        Peer(p.slot.(transferOffset := off + count, sizeBuffer := buffer), p.result, link)
      else
        Peer(p.slot.(transferOffset := off + count), buffer, link)
    case MAdvance(blank) =>
      Advance(p, blank)
    case MFail =>
      p.(slot := p.slot.(state := Failed))
  }

  /** The state change when a phase is complete. */
  function Advance(p: Peer, blank: seq<byte>): Peer {
    var slot := p.slot.(transferOffset := 0);
    match p.slot.state
    case SendTaskSize => p.(slot := slot.(state := SendTaskData))
    case SendTaskData => p.(slot := slot.(state := ReadResultSize))
    case ReadResultSize =>
      p.(slot := slot.(state := if blank == [] then Done else ReadResultData, resultSize := |blank|),
         result := blank)
    case ReadResultData => p.(slot := slot.(state := Done))
    case _ => p
  }

  predicate WorkerEnabled(cfg: Config, i: nat, link: Link, act: WorkerAct) {
    match act
    case WRead(count) =>
      && 0 < count <= |link.toWorker|
      && ((link.proc.Receiving? && count <= Want(link.got)) || (link.proc.Rogue? && !link.closed))
    case WCompute => link.proc.Receiving? && |link.got| >= HEADER_SIZE && Want(link.got) == 0
    case WWrite(count) =>
      && link.proc.Answering? && 0 < count <= Due(link.proc.packet, link.proc.sent)
      && |link.toMaster| + count <= cfg.room
    case WClose => link.proc.Answering? && link.proc.sent == |Frame(link.proc.packet)|
  }

  function WorkerApply(cfg: Config, i: nat, link: Link, act: WorkerAct): Link
    requires WorkerEnabled(cfg, i, link, act)
  {
    match act
    case WRead(count) =>
      link.(toWorker := link.toWorker[count..], got := link.got + link.toWorker[..count])
    case WCompute => link.(proc := Answering(cfg.run(i, link.got[HEADER_SIZE..]), 0))
    case WWrite(count) =>
      var packet, sent := link.proc.packet, link.proc.sent;
      link.(toMaster := link.toMaster + Frame(packet)[sent..sent + count],
            proc := Answering(packet, sent + count))
    case WClose => link.(closed := true, proc := Finished(link.proc.packet))
  }

  predicate FaultEnabled(cfg: Config, link: Link, act: FaultAct) {
    && !link.closed
    && (act.Babble? ==> |link.toMaster| + |act.bytes| <= cfg.room)
  }

  function FaultApply(cfg: Config, link: Link, act: FaultAct): Link
    requires FaultEnabled(cfg, link, act)
  {
    match act
    case Crash =>
      link.(closed := true, proc := if link.proc.Rogue? then link.proc else Crashed(WorkerWrote(link.proc)))
    case Babble(bytes) =>
      link.(toMaster := link.toMaster + bytes, proc := Rogue(WorkerWrote(link.proc) + bytes))
  }

  // ----- The whole system -----

  /** Whether anything has gone wrong, and whether a system call of the master has. */
  datatype Faults = Faults(any: bool, own: bool)

  const NO_FAULTS := Faults(false, false)

  datatype System = System(
    count: nat,
    slots: seq<MasterWorker>,
    results: seq<seq<byte>>,
    links: seq<Link>,
    faults: Faults)
  {
    predicate Shape(cfg: Config) {
      |slots| == |results| == |links| == |cfg.tasks| && count <= |cfg.tasks|
    }

    function At(i: nat): Peer
      requires i < |slots| && i < |results| && i < |links|
    {
      Peer(slots[i], results[i], links[i])
    }

    function WithPeer(i: nat, p: Peer): System
      requires i < |slots| && i < |results| && i < |links|
    {
      this.(slots := slots[i := p.slot], results := results[i := p.result], links := links[i := p.link])
    }

    /** Slot `i` may be given up: its worker has failed, or a call of the master has. */
    predicate Excused(i: int)
      requires 0 <= i < |links|
    {
      faults.own || !Honest(links[i].proc)
    }
  }

  datatype Step =
    | Accept(taskOffset: nat)
    | MasterStep(i: nat, mact: MasterAct)
    | WorkerStep(i: nat, wact: WorkerAct)
    | FaultStep(i: nat, fact: FaultAct)
    | Trouble                            // a system call of the master failed

  function Init(cfg: Config): System {
    System(0, seq(|cfg.tasks|, _ => EMPTY_WORKER), seq(|cfg.tasks|, _ => []), seq(|cfg.tasks|, _ => FRESH_LINK),
      NO_FAULTS)
  }

  predicate Enabled(cfg: Config, s: System, step: Step) {
    && s.Shape(cfg)
    && match step
       case Accept(_) => s.count < |cfg.tasks|
       case MasterStep(i, act) => i < s.count && MasterEnabled(cfg, i, s.At(i), act, s.faults.own)
       case WorkerStep(i, act) => i < |cfg.tasks| && WorkerEnabled(cfg, i, s.links[i], act)
       case FaultStep(i, act) => i < |cfg.tasks| && FaultEnabled(cfg, s.links[i], act)
       case Trouble => true
  }

  function Apply(cfg: Config, s: System, step: Step): System
    requires Enabled(cfg, s, step)
  {
    match step
    case Accept(taskOffset) =>
      s.(count := s.count + 1, slots := s.slots[s.count := AcceptedWorker(s.count, taskOffset, |cfg.tasks[s.count]|)])
    case MasterStep(i, act) => s.WithPeer(i, MasterApply(cfg, i, s.At(i), act, s.faults.own))
    case WorkerStep(i, act) => s.(links := s.links[i := WorkerApply(cfg, i, s.links[i], act)])
    case FaultStep(i, act) =>
      s.(links := s.links[i := FaultApply(cfg, s.links[i], act)], faults := s.faults.(any := true))
    case Trouble => s.(faults := Faults(true, true))
  }

  /** `states` is the run that takes `steps` from the initial state. */
  ghost predicate IsRun(cfg: Config, states: seq<System>, steps: seq<Step>) {
    && |states| == |steps| + 1
    && states[0] == Init(cfg)
    && forall k :: 0 <= k < |steps| ==> Follows(cfg, states[k], steps[k], states[k + 1])
  }

  ghost predicate Follows(cfg: Config, s: System, step: Step, t: System) {
    Enabled(cfg, s, step) && t == Apply(cfg, s, step)
  }

  ghost predicate Reachable(cfg: Config, s: System) {
    && s.Shape(cfg)
    && exists states: seq<System>, steps: seq<Step> :: IsRun(cfg, states, steps) && states[|steps|] == s
  }

  lemma InitReachable(cfg: Config)
    ensures Reachable(cfg, Init(cfg))
  {
    assert IsRun(cfg, [Init(cfg)], []) && [Init(cfg)][0] == Init(cfg);
  }

  lemma StepReachable(cfg: Config, s: System, step: Step)
    requires Reachable(cfg, s)
    requires Enabled(cfg, s, step)
    ensures Reachable(cfg, Apply(cfg, s, step))
  {
    var states, steps :| IsRun(cfg, states, steps) && states[|steps|] == s;
    var t := Apply(cfg, s, step);
    var states', steps' := states + [t], steps + [step];
    forall k | 0 <= k < |steps'|
      ensures Follows(cfg, states'[k], steps'[k], states'[k + 1])
    {
      if k < |steps| {
        assert Follows(cfg, states[k], steps[k], states[k + 1]);
      }
    }
    assert IsRun(cfg, states', steps') && states'[|steps'|] == t;
    assert t.Shape(cfg);
  }
}
