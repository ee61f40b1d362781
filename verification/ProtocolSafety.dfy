/** What every step of the protocol keeps: no byte is lost, duplicated or reordered, and a slot that
    is Done holds exactly the packet its worker wrote. */
module ProtocolSafety {
  import opened Common
  import opened Framing
  import opened Protocol

  /** Every byte the master has written to the worker so far. */
  function MasterWrote(cfg: Config, i: nat, slot: MasterWorker): seq<byte>
    requires i < |cfg.tasks|
  {
    var task := cfg.tasks[i];
    match slot.state
    case MasterWorkerEmpty => []
    case SendTaskSize => if slot.transferOffset <= |slot.sizeBuffer| then slot.sizeBuffer[..slot.transferOffset] else []
    case SendTaskData =>
      EncodeSize(|task|) + (if slot.transferOffset <= |task| then task[..slot.transferOffset] else [])
    case _ => Frame(task)
  }

  /** Every byte the master has read from the worker so far. */
  function MasterGot(p: Peer): seq<byte> {
    match p.slot.state
    case ReadResultSize =>
      if p.slot.transferOffset <= |p.slot.sizeBuffer| then p.slot.sizeBuffer[..p.slot.transferOffset] else []
    case ReadResultData =>
      EncodeSize(p.slot.resultSize) +
        (if p.slot.transferOffset <= |p.result| then p.result[..p.slot.transferOffset] else [])
    case Done => Frame(p.result)
    case _ => []
  }

  /** The fields of a slot fit its state: offsets stay within the phase, and `sizeBuffer` holds the
      task's size while that is sent and the result's size once it has been read. */
  predicate SlotInv(cfg: Config, i: nat, slot: MasterWorker, result: seq<byte>)
    requires i < |cfg.tasks|
  {
    && |slot.sizeBuffer| == HEADER_SIZE
    && (slot.state == MasterWorkerEmpty ==> slot == EMPTY_WORKER)
    && (slot.state != MasterWorkerEmpty ==> slot.socketFd == i && slot.taskSize == |cfg.tasks[i]|)
    && (slot.state != Failed ==> slot.transferOffset <= slot.PhaseSize())
    && (slot.state == SendTaskSize ==> slot.sizeBuffer == EncodeSize(slot.taskSize))
    && (slot.state == ReadResultData ==> 0 < slot.resultSize)
    && (slot.state == ReadResultData || slot.state == Done ==>
          slot.resultSize == |result| < WORD && slot.sizeBuffer == EncodeSize(|result|))
    && (slot.state in {MasterWorkerEmpty, SendTaskSize, SendTaskData, ReadResultSize} ==> result == [])
  }

  predicate ProcInv(cfg: Config, i: nat, link: Link)
    requires i < |cfg.tasks|
  {
    var task, answer := cfg.tasks[i], cfg.run(i, cfg.tasks[i]);
    match link.proc
    case Receiving => !link.closed
    case Answering(packet, sent) =>
      !link.closed && link.got == Frame(task) && packet == answer && sent <= |Frame(packet)|
    case Finished(packet) => link.closed && link.got == Frame(task) && packet == answer
    case Crashed(written) => link.closed && written <= Frame(answer)
    case Rogue(_) => true
  }

  /** Conservation: what one side has consumed, followed by what is in flight, is what the other side
      has written; and what the master writes is a prefix of one frame, whatever the worker does. */
  predicate Conserved(cfg: Config, i: nat, p: Peer)
    requires i < |cfg.tasks|
  {
    && p.link.got + p.link.toWorker <= Frame(cfg.tasks[i])
    && EndsWith(WorkerWrote(p.link.proc), p.link.toMaster)
    && (p.slot.state != Failed ==>
          && p.link.got + p.link.toWorker == MasterWrote(cfg, i, p.slot)
          && WorkerWrote(p.link.proc) == MasterGot(p) + p.link.toMaster)
  }

  predicate EndsWith(s: seq<byte>, tail: seq<byte>) {
    |tail| <= |s| && s[|s| - |tail|..] == tail
  }

  predicate PeerInv(cfg: Config, i: nat, p: Peer)
    requires i < |cfg.tasks|
  {
    && SlotInv(cfg, i, p.slot, p.result)
    && ProcInv(cfg, i, p.link)
    && Conserved(cfg, i, p)
    && |p.link.toWorker| <= cfg.room && |p.link.toMaster| <= cfg.room
  }

  /** A slot is Failed only for a reason of its own: its worker's fault, or a failing call of the master. */
  predicate Blameless(own: bool, p: Peer) {
    !own && Honest(p.link.proc) ==> p.slot.state != Failed
  }

  /** Nothing has gone wrong with this peer. */
  predicate Sound(p: Peer) {
    Honest(p.link.proc) && p.slot.state != Failed
  }

  ghost predicate Inv(cfg: Config, s: System) {
    && s.Shape(cfg)
    && (forall i :: 0 <= i < |cfg.tasks| ==> PeerInv(cfg, i, s.At(i)))
    && (forall i :: 0 <= i < |cfg.tasks| ==> (i < s.count <==> s.slots[i].state != MasterWorkerEmpty))
    && (forall i :: 0 <= i < |cfg.tasks| ==> Blameless(s.faults.own, s.At(i)))
    && (!s.faults.any ==> !s.faults.own && forall i :: 0 <= i < |cfg.tasks| ==> Sound(s.At(i)))
  }

  // ----- One lemma per kind of step -----

  /** A closed honest worker has its whole task behind it and its whole answer in flight or read,
      so a phase can always be completed: the peer-closed tests never hit a sound peer. */
  lemma SoundPeerNeverGone(cfg: Config, i: nat, p: Peer)
    requires cfg.Valid() && i < |cfg.tasks|
    requires PeerInv(cfg, i, p) && Honest(p.link.proc)
    ensures !PeerGone(p)
    ensures p.link.closed && (p.slot.Sending() || p.slot.Reading()) ==>
              && p.link.toWorker == []
              && p.slot.PhaseSize() - p.slot.transferOffset <= |p.link.toMaster|
              && (p.slot.Sending() ==> p.slot.transferOffset == p.slot.PhaseSize())
  {
    var task := cfg.tasks[i];
    if p.link.closed && (p.slot.Sending() || p.slot.Reading()) {
      var answer := p.link.proc.answer;
      assert Frame(task) + p.link.toWorker == MasterWrote(cfg, i, p.slot);
      assert |MasterWrote(cfg, i, p.slot)| >= |Frame(task)|;
      assert Frame(answer) == MasterGot(p) + p.link.toMaster;
      if p.slot.state == ReadResultData {
        assert EncodeSize(|answer|) == Frame(answer)[..HEADER_SIZE] == MasterGot(p)[..HEADER_SIZE] ==
               EncodeSize(|p.result|);
        DecodeEncode(|answer|);
        DecodeEncode(|p.result|);
      }
    }
  }

  lemma SendKeeps(cfg: Config, i: nat, p: Peer, count: nat, own: bool)
    requires cfg.Valid() && i < |cfg.tasks| && PeerInv(cfg, i, p)
    requires MasterEnabled(cfg, i, p, MSend(count), own)
    ensures PeerInv(cfg, i, MasterApply(cfg, i, p, MSend(count), own))
  {
    var q := MasterApply(cfg, i, p, MSend(count), own);
    var off := p.slot.transferOffset;
    var sent := Outgoing(cfg, i, p.slot)[off..off + count];
    SentMore(cfg, i, p.slot, count);
    Appended(p.link.got, p.link.toWorker, sent);
    assert q.link.got + q.link.toWorker == MasterWrote(cfg, i, q.slot);
    assert MasterGot(q) == MasterGot(p);
    assert SlotInv(cfg, i, q.slot, q.result);
    MasterWroteIsPrefix(cfg, i, q);
    assert q.link.got + q.link.toWorker <= Frame(cfg.tasks[i]);
  }

  lemma SentMore(cfg: Config, i: nat, slot: MasterWorker, count: nat)
    requires i < |cfg.tasks| && slot.Sending()
    requires slot.transferOffset + count <= |Outgoing(cfg, i, slot)|
    ensures var off := slot.transferOffset;
            MasterWrote(cfg, i, slot.(transferOffset := off + count)) ==
            MasterWrote(cfg, i, slot) + Outgoing(cfg, i, slot)[off..off + count]
  {
    var off, buffer := slot.transferOffset, Outgoing(cfg, i, slot);
    TakeMore(buffer, off, count);
    Appended(EncodeSize(|cfg.tasks[i]|), buffer[..off], buffer[off..off + count]);
  }

  lemma Appended(a: seq<byte>, b: seq<byte>, c: seq<byte>)
    ensures a + (b + c) == (a + b) + c
  {
  }

  lemma MasterWroteIsPrefix(cfg: Config, i: nat, p: Peer)
    requires i < |cfg.tasks|
    requires SlotInv(cfg, i, p.slot, p.result)
    ensures MasterWrote(cfg, i, p.slot) <= Frame(cfg.tasks[i])
  {
    var task := cfg.tasks[i];
    if p.slot.state == SendTaskData {
      assert task == task[..p.slot.transferOffset] + task[p.slot.transferOffset..];
    }
  }

  lemma RecvKeeps(cfg: Config, i: nat, p: Peer, count: nat, own: bool)
    requires cfg.Valid() && i < |cfg.tasks| && PeerInv(cfg, i, p)
    requires MasterEnabled(cfg, i, p, MRecv(count), own)
    ensures PeerInv(cfg, i, MasterApply(cfg, i, p, MRecv(count), own))
  {
    var q := MasterApply(cfg, i, p, MRecv(count), own);
    var off := p.slot.transferOffset;
    GotMore(EncodeSize(p.slot.resultSize), Incoming(p), off, p.link.toMaster[..count]);
    assert MasterGot(q) == MasterGot(p) + p.link.toMaster[..count];
    PrefixSplit(MasterGot(p), p.link.toMaster, count);
    TailOfSum(MasterGot(q), q.link.toMaster);
  }

  lemma TailOfSum(head: seq<byte>, tail: seq<byte>)
    ensures EndsWith(head + tail, tail)
  {
  }

  lemma GotMore(head: seq<byte>, buffer: seq<byte>, off: nat, bytes: seq<byte>)
    requires off + |bytes| <= |buffer|
    ensures Splice(buffer, off, bytes)[..off + |bytes|] == buffer[..off] + bytes
    ensures head + (buffer[..off] + bytes) == (head + buffer[..off]) + bytes
  {
  }

  lemma AdvanceKeeps(cfg: Config, i: nat, p: Peer, blank: seq<byte>, own: bool)
    requires cfg.Valid() && i < |cfg.tasks| && PeerInv(cfg, i, p)
    requires MasterEnabled(cfg, i, p, MAdvance(blank), own)
    ensures PeerInv(cfg, i, MasterApply(cfg, i, p, MAdvance(blank), own))
  {
    var q := MasterApply(cfg, i, p, MAdvance(blank), own);
    var task := cfg.tasks[i];
    if p.slot.state == SendTaskSize {
      assert MasterWrote(cfg, i, q.slot) == EncodeSize(|task|) == MasterWrote(cfg, i, p.slot);
    } else if p.slot.state == SendTaskData {
      assert task[..|task|] == task;
      assert MasterWrote(cfg, i, q.slot) == MasterWrote(cfg, i, p.slot);
    } else if p.slot.state == ReadResultSize {
      EncodeDecode(p.slot.sizeBuffer);
      assert p.slot.sizeBuffer[..HEADER_SIZE] == p.slot.sizeBuffer;
      assert MasterGot(q) == MasterGot(p);
    } else {
      assert p.result[..|p.result|] == p.result;
      assert MasterGot(q) == MasterGot(p);
    }
  }

  lemma MasterStepKeeps(cfg: Config, i: nat, p: Peer, act: MasterAct, own: bool)
    requires cfg.Valid() && i < |cfg.tasks| && PeerInv(cfg, i, p)
    requires MasterEnabled(cfg, i, p, act, own)
    requires Blameless(own, p)
    ensures var q := MasterApply(cfg, i, p, act, own);
            && PeerInv(cfg, i, q)
            && Blameless(own, q)
            && q.link.proc == p.link.proc
            && q.slot.state != MasterWorkerEmpty && p.slot.state != MasterWorkerEmpty
  {
    match act
    case MSend(count) => SendKeeps(cfg, i, p, count, own);
    case MRecv(count) => RecvKeeps(cfg, i, p, count, own);
    case MAdvance(blank) => AdvanceKeeps(cfg, i, p, blank, own);
    case MFail =>
      if !own && Honest(p.link.proc) {
        SoundPeerNeverGone(cfg, i, p);
      }
  }

  lemma PrefixSplit(a: seq<byte>, b: seq<byte>, count: nat)
    requires count <= |b|
    ensures (a + b[..count]) + b[count..] == a + b
  {
  }

  lemma WorkerReadKeeps(cfg: Config, i: nat, p: Peer, count: nat)
    requires cfg.Valid() && i < |cfg.tasks| && PeerInv(cfg, i, p)
    requires WorkerEnabled(cfg, i, p.link, WRead(count))
    ensures PeerInv(cfg, i, p.(link := WorkerApply(cfg, i, p.link, WRead(count))))
  {
    var link := WorkerApply(cfg, i, p.link, WRead(count));
    PrefixSplit(p.link.got, p.link.toWorker, count);
    assert link.got + link.toWorker == p.link.got + p.link.toWorker;
  }

  /** A worker that has read a complete packet has read exactly its task. */
  lemma WorkerComputeKeeps(cfg: Config, i: nat, p: Peer)
    requires cfg.Valid() && i < |cfg.tasks| && PeerInv(cfg, i, p)
    requires WorkerEnabled(cfg, i, p.link, WCompute)
    ensures p.link.got == Frame(cfg.tasks[i])
    ensures PeerInv(cfg, i, p.(link := WorkerApply(cfg, i, p.link, WCompute)))
  {
    var got, task := p.link.got, cfg.tasks[i];
    assert got <= got + p.link.toWorker <= Frame(task);
    WantOnFrame(got, task);
  }

  lemma PushConserves(cfg: Config, i: nat, p: Peer, proc: WorkerProc, bytes: seq<byte>)
    requires i < |cfg.tasks| && Conserved(cfg, i, p)
    requires WorkerWrote(proc) == WorkerWrote(p.link.proc) + bytes
    ensures Conserved(cfg, i, p.(link := p.link.(toMaster := p.link.toMaster + bytes, proc := proc)))
  {
    TailGrows(WorkerWrote(p.link.proc), p.link.toMaster, bytes);
    Appended(MasterGot(p), p.link.toMaster, bytes);
  }

  /** A worker that pushes `bytes` into the channel and has written just that much more. */
  lemma PushKeeps(cfg: Config, i: nat, p: Peer, proc: WorkerProc, bytes: seq<byte>)
    requires i < |cfg.tasks| && PeerInv(cfg, i, p)
    requires ProcInv(cfg, i, p.link.(proc := proc))
    requires |p.link.toMaster| + |bytes| <= cfg.room
    requires WorkerWrote(proc) == WorkerWrote(p.link.proc) + bytes
    ensures PeerInv(cfg, i, p.(link := p.link.(toMaster := p.link.toMaster + bytes, proc := proc)))
  {
    PushConserves(cfg, i, p, proc, bytes);
  }

  lemma TailGrows(s: seq<byte>, tail: seq<byte>, more: seq<byte>)
    requires EndsWith(s, tail)
    ensures EndsWith(s + more, tail + more)
  {
    var head := s[..|s| - |tail|];
    assert s == head + tail;
    Appended(head, tail, more);
    TailOfSum(head, tail + more);
  }

  lemma WorkerWriteKeeps(cfg: Config, i: nat, p: Peer, count: nat)
    requires cfg.Valid() && i < |cfg.tasks| && PeerInv(cfg, i, p)
    requires WorkerEnabled(cfg, i, p.link, WWrite(count))
    ensures PeerInv(cfg, i, p.(link := WorkerApply(cfg, i, p.link, WWrite(count))))
  {
    var packet, sent := p.link.proc.packet, p.link.proc.sent;
    TakeMore(Frame(packet), sent, count);
    PushKeeps(cfg, i, p, Answering(packet, sent + count), Frame(packet)[sent..sent + count]);
  }

  lemma TakeMore(s: seq<byte>, from: nat, count: nat)
    requires from + count <= |s|
    ensures s[..from + count] == s[..from] + s[from..from + count]
  {
  }

  lemma WorkerStepKeeps(cfg: Config, i: nat, p: Peer, act: WorkerAct)
    requires cfg.Valid() && i < |cfg.tasks| && PeerInv(cfg, i, p)
    requires WorkerEnabled(cfg, i, p.link, act)
    ensures var q := p.(link := WorkerApply(cfg, i, p.link, act));
            PeerInv(cfg, i, q) && (Honest(q.link.proc) <==> Honest(p.link.proc))
  {
    match act
    case WRead(count) => WorkerReadKeeps(cfg, i, p, count);
    case WCompute => WorkerComputeKeeps(cfg, i, p);
    case WWrite(count) => WorkerWriteKeeps(cfg, i, p, count);
    case WClose =>
      assert Frame(p.link.proc.packet)[..p.link.proc.sent] == Frame(p.link.proc.packet);
  }

  lemma FaultStepKeeps(cfg: Config, i: nat, p: Peer, act: FaultAct)
    requires cfg.Valid() && i < |cfg.tasks| && PeerInv(cfg, i, p)
    requires FaultEnabled(cfg, p.link, act)
    ensures PeerInv(cfg, i, p.(link := FaultApply(cfg, p.link, act)))
  {
    if act.Babble? {
      PushKeeps(cfg, i, p, Rogue(WorkerWrote(p.link.proc) + act.bytes), act.bytes);
    } else {
      CrashKeeps(cfg, i, p);
    }
  }

  lemma CrashKeeps(cfg: Config, i: nat, p: Peer)
    requires cfg.Valid() && i < |cfg.tasks| && PeerInv(cfg, i, p) && !p.link.closed
    ensures PeerInv(cfg, i, p.(link := FaultApply(cfg, p.link, Crash)))
  {
    var q := p.(link := FaultApply(cfg, p.link, Crash));
    assert WorkerWrote(q.link.proc) == WorkerWrote(p.link.proc);
    assert ProcInv(cfg, i, q.link);
  }

  lemma InitInv(cfg: Config)
    requires cfg.Valid()
    ensures Inv(cfg, Init(cfg))
  {
    forall i | 0 <= i < |cfg.tasks|
      ensures PeerInv(cfg, i, Init(cfg).At(i)) && Sound(Init(cfg).At(i))
    {
      assert Init(cfg).At(i) == Peer(EMPTY_WORKER, [], FRESH_LINK);
      FreshInv(cfg, i);
    }
  }

  lemma FreshInv(cfg: Config, i: nat)
    requires cfg.Valid() && i < |cfg.tasks|
    ensures PeerInv(cfg, i, Peer(EMPTY_WORKER, [], FRESH_LINK))
  {
    assert [] + [] <= Frame(cfg.tasks[i]);
  }

  lemma AcceptKeeps(cfg: Config, i: nat, p: Peer, taskOffset: nat)
    requires cfg.Valid() && i < |cfg.tasks| && PeerInv(cfg, i, p)
    requires p.slot.state == MasterWorkerEmpty
    ensures PeerInv(cfg, i, p.(slot := AcceptedWorker(i, taskOffset, |cfg.tasks[i]|)))
  {
    var q := p.(slot := AcceptedWorker(i, taskOffset, |cfg.tasks[i]|));
    assert MasterWrote(cfg, i, q.slot) == [];
  }

  lemma AcceptInv(cfg: Config, s: System, taskOffset: nat)
    requires cfg.Valid() && Inv(cfg, s) && s.count < |cfg.tasks|
    ensures Inv(cfg, Apply(cfg, s, Accept(taskOffset)))
  {
    var t := Apply(cfg, s, Accept(taskOffset));
    AcceptKeeps(cfg, s.count, s.At(s.count), taskOffset);
    assert t.At(s.count) == s.At(s.count).(slot := t.slots[s.count]);
    OnePeer(cfg, s, t, s.count);
  }

  lemma MasterStepInv(cfg: Config, s: System, i: nat, act: MasterAct)
    requires cfg.Valid() && Inv(cfg, s) && Enabled(cfg, s, MasterStep(i, act))
    ensures Inv(cfg, Apply(cfg, s, MasterStep(i, act)))
  {
    var q := MasterApply(cfg, i, s.At(i), act, s.faults.own);
    MasterStepKeeps(cfg, i, s.At(i), act, s.faults.own);
    PeerOnly(cfg, s, i, q);
  }

  lemma PeerOnly(cfg: Config, s: System, i: nat, q: Peer)
    requires Inv(cfg, s) && i < s.count
    requires PeerInv(cfg, i, q) && q.slot.state != MasterWorkerEmpty
    requires Blameless(s.faults.own, q) && q.link.proc == s.links[i].proc
    ensures Inv(cfg, s.WithPeer(i, q))
  {
    assert s.WithPeer(i, q).At(i) == q;
    assert !s.faults.any ==> Sound(s.At(i));
    OnePeer(cfg, s, s.WithPeer(i, q), i);
  }

  lemma WorkerStepInv(cfg: Config, s: System, i: nat, act: WorkerAct)
    requires cfg.Valid() && Inv(cfg, s) && Enabled(cfg, s, WorkerStep(i, act))
    ensures Inv(cfg, Apply(cfg, s, WorkerStep(i, act)))
  {
    WorkerStepKeeps(cfg, i, s.At(i), act);
    LinkOnly(cfg, s, i, WorkerApply(cfg, i, s.links[i], act), s.faults);
  }

  lemma FaultStepInv(cfg: Config, s: System, i: nat, act: FaultAct)
    requires cfg.Valid() && Inv(cfg, s) && Enabled(cfg, s, FaultStep(i, act))
    ensures Inv(cfg, Apply(cfg, s, FaultStep(i, act)))
  {
    FaultStepKeeps(cfg, i, s.At(i), act);
    LinkOnly(cfg, s, i, FaultApply(cfg, s.links[i], act), s.faults.(any := true));
  }

  /** The invariant is inductive. */
  lemma StepInv(cfg: Config, s: System, step: Step)
    requires cfg.Valid() && Inv(cfg, s)
    requires Enabled(cfg, s, step)
    ensures Inv(cfg, Apply(cfg, s, step))
  {
    match step
    case Accept(taskOffset) => AcceptInv(cfg, s, taskOffset);
    case MasterStep(i, act) => MasterStepInv(cfg, s, i, act);
    case WorkerStep(i, act) => WorkerStepInv(cfg, s, i, act);
    case FaultStep(i, act) => FaultStepInv(cfg, s, i, act);
    case Trouble =>
      forall i | 0 <= i < |cfg.tasks|
        ensures PeerInv(cfg, i, s.(faults := Faults(true, true)).At(i))
      {
        assert s.(faults := Faults(true, true)).At(i) == s.At(i);
      }
  }

  lemma LinkOnly(cfg: Config, s: System, i: nat, link: Link, faults: Faults)
    requires Inv(cfg, s) && i < |cfg.tasks|
    requires PeerInv(cfg, i, s.At(i).(link := link))
    requires Honest(link.proc) ==> Honest(s.links[i].proc)
    requires faults.own == s.faults.own && (s.faults.any ==> faults.any)
    requires !faults.any ==> Sound(s.At(i).(link := link))
    ensures Inv(cfg, s.(links := s.links[i := link], faults := faults))
  {
    var t := s.(links := s.links[i := link], faults := faults);
    assert t.At(i) == s.At(i).(link := link);
    assert Blameless(s.faults.own, s.At(i));
    OnePeer(cfg, s, t, i);
  }

  ghost predicate OthersSame(s: System, t: System, k: nat) {
    && |s.slots| == |t.slots| == |s.results| == |t.results| == |s.links| == |t.links|
    && forall i :: 0 <= i < |s.slots| && i != k ==>
      t.slots[i] == s.slots[i] && t.results[i] == s.results[i] && t.links[i] == s.links[i]
  }

  /** A step that touches only peer `k` keeps the invariant when it keeps it of that peer. */
  lemma OnePeer(cfg: Config, s: System, t: System, k: nat)
    requires Inv(cfg, s) && t.Shape(cfg) && k < |cfg.tasks|
    requires OthersSame(s, t, k)
    requires PeerInv(cfg, k, t.At(k)) && Blameless(t.faults.own, t.At(k))
    requires k < t.count <==> t.slots[k].state != MasterWorkerEmpty
    requires t.count == s.count || (t.count == s.count + 1 && k == s.count)
    requires t.faults.own == s.faults.own && (s.faults.any ==> t.faults.any)
    requires !t.faults.any ==> Sound(t.At(k))
    ensures Inv(cfg, t)
  {
    forall i | 0 <= i < |cfg.tasks|
      ensures PeerInv(cfg, i, t.At(i))
      ensures Blameless(t.faults.own, t.At(i))
      ensures !t.faults.any ==> Sound(t.At(i))
      ensures i < t.count <==> t.slots[i].state != MasterWorkerEmpty
    {
      if i != k {
        SamePeer(cfg, s, t, k, i);
      }
    }
  }

  lemma SamePeer(cfg: Config, s: System, t: System, k: nat, i: nat)
    requires Inv(cfg, s) && t.Shape(cfg) && i < |cfg.tasks| && i != k
    requires OthersSame(s, t, k)
    requires t.count == s.count || (t.count == s.count + 1 && k == s.count)
    ensures PeerInv(cfg, i, t.At(i)) && Blameless(s.faults.own, t.At(i))
    ensures !s.faults.any ==> Sound(t.At(i))
    ensures i < t.count <==> t.slots[i].state != MasterWorkerEmpty
  {
    assert t.At(i) == s.At(i);
  }

  lemma {:induction false} RunInv(cfg: Config, states: seq<System>, steps: seq<Step>, k: nat)
    requires cfg.Valid() && IsRun(cfg, states, steps) && k <= |steps|
    ensures Inv(cfg, states[k])
  {
    if k == 0 {
      InitInv(cfg);
    } else {
      RunInv(cfg, states, steps, k - 1);
      assert Follows(cfg, states[k - 1], steps[k - 1], states[k]);
      StepInv(cfg, states[k - 1], steps[k - 1]);
    }
  }

  /** Every reachable state satisfies the invariant. */
  lemma ReachableInv(cfg: Config, s: System)
    requires cfg.Valid() && Reachable(cfg, s)
    ensures Inv(cfg, s)
  {
    var states, steps :| IsRun(cfg, states, steps) && states[|steps|] == s;
    RunInv(cfg, states, steps, |steps|);
  }

  // ----- What the invariant means -----

  /** Stream safety, in every reachable state. What a worker has read, honest, crashed or rogue,
      followed by what is in flight, is what the master has sent, a prefix of the worker's framed task.
      What the master has read followed by what is in flight is what the worker has written, which is a
      prefix of its framed answer to exactly that task unless it is rogue; once the slot is Failed, what
      is in flight is still the end of it. */
  lemma StreamSafety(cfg: Config, s: System, i: nat)
    requires cfg.Valid() && Reachable(cfg, s) && i < |cfg.tasks|
    ensures s.links[i].got + s.links[i].toWorker <= Frame(cfg.tasks[i])
    ensures s.slots[i].state != Failed ==>
              && s.links[i].got + s.links[i].toWorker == MasterWrote(cfg, i, s.slots[i])
              && MasterGot(s.At(i)) + s.links[i].toMaster == WorkerWrote(s.links[i].proc)
    ensures EndsWith(WorkerWrote(s.links[i].proc), s.links[i].toMaster)
    ensures !s.links[i].proc.Rogue? ==> WorkerWrote(s.links[i].proc) <= Frame(cfg.run(i, cfg.tasks[i]))
  {
    ReachableInv(cfg, s);
    assert PeerInv(cfg, i, s.At(i));
  }

  /** What a Done slot holds: the first packet its worker wrote, whatever the worker did; and the
      answer to exactly its task, unless the worker turned rogue. */
  ghost predicate Delivered(cfg: Config, i: nat, p: Peer)
    requires i < |cfg.tasks|
  {
    && p.slot.resultSize == |p.result|
    && Frame(p.result) <= WorkerWrote(p.link.proc)
    && (!p.link.proc.Rogue? ==> p.result == cfg.run(i, cfg.tasks[i]))
  }

  lemma DoneIsDelivered(cfg: Config, s: System, i: nat)
    requires cfg.Valid() && Reachable(cfg, s) && i < |cfg.tasks|
    requires s.slots[i].state == Done
    ensures Delivered(cfg, i, s.At(i))
  {
    ReachableInv(cfg, s);
    var p := s.At(i);
    assert PeerInv(cfg, i, p);
    assert WorkerWrote(p.link.proc) == Frame(p.result) + p.link.toMaster;
    if !p.link.proc.Rogue? {
      var answer := cfg.run(i, cfg.tasks[i]);
      WrittenPrefix(answer, p.result, p.link.toMaster);
    }
  }

  lemma WrittenPrefix(answer: seq<byte>, result: seq<byte>, inFlight: seq<byte>)
    requires |answer| < WORD && |result| < WORD
    requires Frame(result) + inFlight <= Frame(answer)
    ensures result == answer
  {
    FrameInFrame(result, inFlight, answer);
  }

  /** Early close never loses a result: as long as no call of the master fails, an honest worker is
      never marked Failed, however early it closes after writing its answer and whatever happens to the
      other workers. */
  lemma NoFalseFailure(cfg: Config, s: System, i: nat, act: MasterAct)
    requires cfg.Valid() && Reachable(cfg, s) && i < s.count && i < |cfg.tasks|
    requires !s.Excused(i)
    ensures s.slots[i].state != Failed
    ensures act == MFail ==> !Enabled(cfg, s, MasterStep(i, act))
  {
    ReachableInv(cfg, s);
    assert Blameless(s.faults.own, s.At(i)) && PeerInv(cfg, i, s.At(i));
    SoundPeerNeverGone(cfg, i, s.At(i));
  }
}
