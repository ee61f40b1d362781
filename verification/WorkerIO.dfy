/** The worker's blocking packet I/O (src/worker.c).

    A socket is the worker's end of one connection of `Protocol`. As long as its user does what a worker
    of the protocol does (`attached`), every call is a step of that worker, and the whole system goes on
    between the calls; `received` and `sent` are then what the protocol says the worker has read and
    written. The packet functions themselves do not depend on that: what they promise about `received`
    and `sent` holds of every use.
  */
module WorkerIO {
  import opened Common
  import opened Framing
  import opened Protocol
  import ProtocolSafety

  class Socket {
    const cfg: Config
    const slot: nat               // the slot of the master that this connection belongs to
    var sys: System
    var received: seq<byte>
    var sent: seq<byte>
    var patience: nat             // how often calls may still be interrupted
    var masterGone: bool          // the master has closed the connection
    ghost var broken: bool        // a call has failed, or the stream has ended
    ghost var attached: bool

    ghost predicate Valid()
      reads this
    {
      && cfg.Valid() && slot < |cfg.tasks| && sys.Shape(cfg)
      && (attached ==>
            && Reachable(cfg, sys) && (Proc().Receiving? || Proc().Answering?) && !sys.links[slot].closed
            && sys.links[slot].got == received && WorkerWrote(Proc()) == sent)
    }

    function Proc(): WorkerProc
      requires slot < |sys.links|
      reads this
    {
      sys.links[slot].proc
    }

    /** The worker is still reading, and `size` bytes do not reach beyond the current part of its task. */
    ghost predicate MayRead(size: nat)
      requires slot < |sys.links|
      reads this
    {
      attached && Proc().Receiving? && size <= Want(received)
    }

    /** The worker is answering, and `bytes` come next in the current part of its answer. */
    ghost predicate MayWrite(packet: seq<byte>, bytes: seq<byte>)
      requires slot < |sys.links|
      reads this
    {
      attached && Proc() == Answering(packet, |sent|) && NextPart(packet, |sent|, bytes)
    }

    constructor (cfg: Config, slot: nat, patience: nat)
      requires cfg.Valid() && slot < |cfg.tasks|
      ensures Valid() && this.cfg == cfg && this.slot == slot
      ensures attached && Proc() == Receiving && received == [] && sent == []
    {
      this.cfg, this.slot, this.patience := cfg, slot, patience;
      sys, received, sent, broken, attached, masterGone := Init(cfg), [], [], false, true, false;
      new;
      InitReachable(cfg);
    }

    /** The master and the other workers take any number of steps, and faults may strike the others. */
    method Others()
      requires Valid()
      modifies this`sys
      ensures Valid() && Proc() == old(Proc())
    {
      var steps: nat :| steps >= 0;
      while steps > 0
        invariant Valid() && Proc() == old(Proc())
      {
        var step: Step := *;
        if Enabled(cfg, sys, step) && !Own(step) {
          OthersLeaveWorker(cfg, sys, step, slot);
          Take(step);
        }
        steps := steps - 1;
      }
    }

    predicate Own(step: Step)
      reads this
    {
      (step.WorkerStep? || step.FaultStep?) && step.i == slot
    }

    method Take(step: Step)
      requires cfg.Valid() && Enabled(cfg, sys, step)
      modifies this`sys
      ensures sys == Apply(cfg, old(sys), step) && sys.Shape(cfg)
      ensures old(Reachable(cfg, sys)) ==> Reachable(cfg, sys)
    {
      if Reachable(cfg, sys) {
        StepReachable(cfg, sys, step);
      }
      sys := Apply(cfg, sys, step);
    }

    method Hiccup() returns (r: Option<Outcome>)
      requires Valid()
      modifies this`sys, this`patience, this`broken
      ensures Valid() && Proc() == old(Proc())
      ensures r.Some? ==> r.value == Interrupted || r.value == Error
      ensures patience <= old(patience) && (old(broken) ==> broken)
      ensures r == Some(Interrupted) ==> patience < old(patience)
      ensures r == Some(Error) ==> broken
    {
      Others();
      var interrupted: bool := *;
      if * {
        broken := true;
        return Some(Error);
      }
      if interrupted && patience > 0 {
        patience := patience - 1;
        return Some(Interrupted);
      }
      r := None;
    }

    /** WorkerCheckMasterAlive(): it never misses a master that was gone before the call. */
    method MasterAlive() returns (alive: bool)
      modifies this`masterGone, this`broken
      ensures old(masterGone) ==> !alive
      ensures broken == (old(broken) || !alive)
    {
      var goes: bool := *;
      var fails: bool := *;
      masterGone := masterGone || goes;
      alive := !masterGone && !fails;
      broken := broken || !alive;
    }

    /** recv(): 0 bytes only at the end of the stream. */
    method Recv(size: nat) returns (r: Outcome, bytes: seq<byte>)
      requires Valid() && size > 0
      modifies this`sys, this`received, this`patience, this`broken, this`attached
      ensures Valid()
      ensures patience <= old(patience) && (old(broken) ==> broken)
      ensures r.Moved? ==> r.count == |bytes| <= size && received == old(received) + bytes
      ensures !r.Moved? ==> received == old(received)
      ensures r.Interrupted? ==> patience < old(patience)
      ensures r == Moved(0) || r == Error || r == WouldBlock ==> broken
      ensures old(MayRead(size)) ==> attached && Proc().Receiving?
    {
      bytes := [];
      var hiccup := Hiccup();
      if hiccup.Some? {
        return hiccup.value, [];
      }
      var link := sys.links[slot];
      if link.proc.Receiving? && size <= Want(link.got) {
        if link.toWorker == [] {
          broken := true;
          return Moved(0), [];
        }
        var most := if |link.toWorker| < size then |link.toWorker| else size;
        var count: nat :| 0 < count <= most;
        bytes := link.toWorker[..count];
        Take(WorkerStep(slot, WRead(count)));
      } else {
        attached := false;
        bytes :| |bytes| <= size;
        if bytes == [] {
          broken := true;
        }
      }
      received := received + bytes;
      r := Moved(|bytes|);
    }

    /** send() of at least one byte; `packet` is what the worker would answer with. */
    method Send(bytes: seq<byte>, ghost packet: seq<byte>) returns (r: Outcome)
      requires Valid() && bytes != []
      modifies this`sys, this`sent, this`patience, this`broken, this`attached
      ensures Valid()
      ensures patience <= old(patience) && (old(broken) ==> broken)
      ensures r.Moved? ==> r.count <= |bytes| && sent == old(sent) + bytes[..r.count]
      ensures !r.Moved? ==> sent == old(sent)
      ensures r.Interrupted? ==> patience < old(patience)
      ensures r == Moved(0) || r == Error || r == WouldBlock ==> broken
      ensures old(MayWrite(packet, bytes)) ==> attached && Proc() == Answering(packet, |sent|)
    {
      var hiccup := Hiccup();
      if hiccup.Some? {
        return hiccup.value;
      }
      var link := sys.links[slot];
      var count: nat;
      if link.proc.Answering? && NextPart(link.proc.packet, link.proc.sent, bytes) {
        if |link.toMaster| >= cfg.room {
          broken := true;
          return Error;
        }
        var most := if |bytes| < cfg.room - |link.toMaster| then |bytes| else cfg.room - |link.toMaster|;
        count :| 0 < count <= most;
        Take(WorkerStep(slot, WWrite(count)));
        WrittenMore(link.proc.packet, link.proc.sent, bytes, count);
      } else {
        attached := false;
        count :| count <= |bytes|;
        if count == 0 {
          broken := true;
        }
      }
      sent := sent + bytes[..count];
      r := Moved(count);
    }

    /** The task has been read completely and its answer is known. */
    method Compute()
      requires Valid() && attached && Proc().Receiving? && |received| >= HEADER_SIZE && Want(received) == 0
      modifies this`sys
      ensures Valid() && received == Frame(cfg.tasks[slot])
      ensures Proc() == Answering(cfg.run(slot, cfg.tasks[slot]), 0)
    {
      ProtocolSafety.ReachableInv(cfg, sys);
      assert ProtocolSafety.PeerInv(cfg, slot, sys.At(slot));
      ProtocolSafety.WorkerComputeKeeps(cfg, slot, sys.At(slot));
      assert Frame(cfg.tasks[slot])[HEADER_SIZE..] == cfg.tasks[slot];
      Take(WorkerStep(slot, WCompute));
    }

    /** close(): the end of a worker that has sent its whole answer, and the crash of any other. */
    method Close()
      requires Valid() && attached
      modifies this`sys, this`attached
      ensures old(attached) && Reachable(cfg, sys) && sys.links[slot].closed && sys.links[slot].got == received
      ensures Proc() == match old(Proc())
                        case Answering(packet, k) => if k == |Frame(packet)| then Finished(packet) else Crashed(sent)
                        case _ => Crashed(sent)
    {
      var proc := Proc();
      attached := false;
      if proc.Answering? && proc.sent == |Frame(proc.packet)| {
        Take(WorkerStep(slot, WClose));
      } else {
        Take(FaultStep(slot, Crash));
      }
    }
  }

  lemma OthersLeaveWorker(cfg: Config, s: System, step: Step, slot: nat)
    requires Enabled(cfg, s, step) && slot < |cfg.tasks|
    requires !((step.WorkerStep? || step.FaultStep?) && step.i == slot)
    ensures var t := Apply(cfg, s, step);
            && t.Shape(cfg)
            && t.links[slot].proc == s.links[slot].proc && t.links[slot].got == s.links[slot].got
            && t.links[slot].closed == s.links[slot].closed
  {
  }

  /** `bytes` come after the first `k` bytes of the framed packet and do not span its header and body. */
  predicate NextPart(packet: seq<byte>, k: nat, bytes: seq<byte>) {
    k + |bytes| <= |Frame(packet)| && bytes == Frame(packet)[k..k + |bytes|] && |bytes| <= Due(packet, k)
  }

  lemma WrittenMore(packet: seq<byte>, k: nat, bytes: seq<byte>, count: nat)
    requires NextPart(packet, k, bytes) && count <= |bytes|
    ensures bytes[..count] == Frame(packet)[k..k + count]
    ensures Frame(packet)[..k] + bytes[..count] == Frame(packet)[..k + count]
  {
    ProtocolSafety.TakeMore(Frame(packet), k, count);
  }

  lemma RestIsNext(packet: seq<byte>, k: nat, bytes: seq<byte>, count: nat)
    requires NextPart(packet, k, bytes) && count <= |bytes|
    ensures NextPart(packet, k + count, bytes[count..])
  {
    assert bytes[count..] == Frame(packet)[k + count..k + |bytes|];
  }

  /** Reading part of what may be read leaves room for the rest. */
  lemma RestIsWanted(got: seq<byte>, more: seq<byte>, size: nat)
    requires |more| <= size <= Want(got)
    ensures size - |more| <= Want(got + more)
  {
    if |got| >= HEADER_SIZE {
      assert (got + more)[..HEADER_SIZE] == got[..HEADER_SIZE];
    }
  }

  /** send() with what remains to be sent after it. */
  method SendSome(socket: Socket, bytes: seq<byte>, ghost packet: seq<byte>) returns (r: Outcome)
    requires socket.Valid() && bytes != []
    modifies socket`sys, socket`sent, socket`patience, socket`broken, socket`attached
    ensures socket.Valid()
    ensures socket.patience <= old(socket.patience) && (old(socket.broken) ==> socket.broken)
    ensures r.Moved? ==> r.count <= |bytes| && socket.sent == old(socket.sent) + bytes[..r.count]
    ensures !r.Moved? ==> socket.sent == old(socket.sent)
    ensures r.Interrupted? ==> socket.patience < old(socket.patience)
    ensures r == Moved(0) || r == Error || r == WouldBlock ==> socket.broken
    ensures old(socket.MayWrite(packet, bytes)) ==> socket.MayWrite(packet, bytes[if r.Moved? then r.count else 0..])
  {
    ghost var before := |socket.sent|;
    r := socket.Send(bytes, packet);
    if NextPart(packet, before, bytes) {
      RestIsNext(packet, before, bytes, if r.Moved? then r.count else 0);
    }
  }

  /** Sends the whole buffer, however the calls fragment it. */
  method WriteAll(socket: Socket, buffer: seq<byte>, ghost packet: seq<byte>) returns (ok: bool)
    requires socket.Valid()
    modifies socket`sys, socket`sent, socket`patience, socket`broken, socket`attached
    ensures socket.Valid()
    ensures ok ==> socket.sent == old(socket.sent) + buffer
    ensures old(socket.sent) <= socket.sent <= old(socket.sent) + buffer
    ensures old(socket.broken) ==> socket.broken
    ensures !ok ==> socket.broken && |socket.sent| < |old(socket.sent)| + |buffer|
    ensures old(socket.MayWrite(packet, buffer)) ==>
            socket.attached && socket.Proc() == Answering(packet, |socket.sent|)
  {
    ghost var before, writable := socket.sent, socket.MayWrite(packet, buffer);
    var offset := 0;
    while offset < |buffer|
      invariant 0 <= offset <= |buffer|
      invariant socket.Valid() && socket.sent == before + buffer[..offset]
      invariant old(socket.broken) ==> socket.broken
      invariant writable ==> socket.MayWrite(packet, buffer[offset..])
      decreases |buffer| - offset, socket.patience
    {
      var written := SendSome(socket, buffer[offset..], packet);
      if written.Interrupted? {
        continue;
      }
      if !written.Moved? || written.count == 0 {
        PartIsPrefix(before, buffer, offset);
        return false;
      }
      Skipped(before, buffer, offset, written.count);
      offset := offset + written.count;
    }
    assert buffer[..offset] == buffer;
    ok := true;
  }

  lemma PartIsPrefix(before: seq<byte>, s: seq<byte>, offset: nat)
    requires offset <= |s|
    ensures before <= before + s[..offset] <= before + s
  {
  }

  lemma Skipped(before: seq<byte>, s: seq<byte>, offset: nat, count: nat)
    requires offset + count <= |s|
    ensures s[offset..][count..] == s[offset + count..]
    ensures before + s[..offset] + s[offset..][..count] == before + s[..offset + count]
  {
    assert s[..offset] + s[offset..][..count] == s[..offset + count];
  }

  /** Fills the whole buffer with the next bytes of the stream. */
  method ReadAll(socket: Socket, buffer: array<byte>) returns (ok: bool)
    requires socket.Valid()
    modifies buffer, socket`sys, socket`received, socket`patience, socket`broken, socket`attached
    ensures socket.Valid()
    ensures ok ==> socket.received == old(socket.received) + buffer[..]
    ensures old(socket.received) <= socket.received
    ensures old(socket.broken) ==> socket.broken
    ensures !ok ==> socket.broken && |socket.received| < |old(socket.received)| + buffer.Length
    ensures old(socket.MayRead(buffer.Length)) ==> socket.attached && socket.Proc().Receiving?
  {
    var offset := 0;
    while offset < buffer.Length
      invariant 0 <= offset <= buffer.Length
      invariant socket.Valid() && socket.received == old(socket.received) + buffer[..offset]
      invariant old(socket.broken) ==> socket.broken
      invariant old(socket.MayRead(buffer.Length)) ==> socket.MayRead(buffer.Length - offset)
      decreases buffer.Length - offset, socket.patience
    {
      ghost var got := socket.received;
      var received, bytes := socket.Recv(buffer.Length - offset);
      if received.Interrupted? {
        continue;
      }
      if !received.Moved? || received.count == 0 {
        return false;
      }
      if buffer.Length - offset <= Want(got) {
        RestIsWanted(got, bytes, buffer.Length - offset);
      }
      CopyInto(buffer, offset, bytes);
      offset := offset + received.count;
    }
    assert buffer[..offset] == buffer[..];
    ok := true;
  }

  /** Reads one packet: it takes exactly one frame off the stream, and fails only when a call has failed
      or the stream has ended. A worker that has read nothing yet reads as the protocol says. */
  method ReadPacket(socket: Socket) returns (ok: bool, packet: ClusterPacket)
    requires socket.Valid()
    modifies socket`sys, socket`received, socket`patience, socket`broken, socket`attached
    ensures socket.Valid()
    ensures ok ==> packet.size == |packet.data| < WORD && socket.received == old(socket.received) + Frame(packet.data)
    ensures old(socket.received) <= socket.received
    ensures !ok ==> socket.broken
    ensures old(socket.broken) ==> socket.broken
    ensures old(socket.attached && socket.received == [] && socket.Proc().Receiving?) ==>
            socket.attached && socket.Proc().Receiving?
  {
    ghost var start := socket.received;
    packet := EMPTY_PACKET;
    var sizeBuffer := new byte[HEADER_SIZE];
    ok := ReadAll(socket, sizeBuffer);
    if !ok {
      return;
    }
    var size := ClusterDecodeSize(sizeBuffer[..]);
    DecodeEncode(size);
    if size == 0 {
      assert start + sizeBuffer[..] == start + Frame([]);
      return true, ClusterPacket([], 0);
    }
    var memory: bool := *;
    if !memory {
      socket.broken := true;
      return false, EMPTY_PACKET;
    }
    HeaderWants(start, sizeBuffer[..], size);
    var data := new byte[size];
    ok := ReadAll(socket, data);
    if !ok {
      return false, EMPTY_PACKET;
    }
    packet := ClusterPacket(data[..], size);
    Joined(start, sizeBuffer[..], data[..]);
  }

  /** After its header, a packet's body is wanted. */
  lemma HeaderWants(start: seq<byte>, header: seq<byte>, size: nat)
    requires |header| == HEADER_SIZE && DecodeSize(header) == size
    ensures start == [] ==> Want(start + header) == size
  {
    if start == [] {
      assert (start + header)[..HEADER_SIZE] == header;
    }
  }

  lemma Joined(start: seq<byte>, header: seq<byte>, body: seq<byte>)
    ensures (start + header) + body == start + (header + body)
  {
  }

  /** Writes one packet as one frame. A worker that is about to answer with it writes as the protocol says. */
  method WritePacket(socket: Socket, packet: ClusterPacket) returns (ok: bool)
    requires socket.Valid() && packet.size == |packet.data| < WORD
    modifies socket`sys, socket`sent, socket`patience, socket`broken, socket`attached
    ensures socket.Valid()
    ensures ok ==> socket.sent == old(socket.sent) + Frame(packet.data)
    ensures old(socket.sent) <= socket.sent <= old(socket.sent) + Frame(packet.data)
    ensures !ok ==> socket.broken && |socket.sent| < |old(socket.sent)| + |Frame(packet.data)|
    ensures old(socket.attached && socket.sent == [] && socket.Proc() == Answering(packet.data, 0)) ==>
              socket.attached && socket.Proc() == Answering(packet.data, |socket.sent|)
  {
    ghost var start := socket.sent;
    var sizeBuffer := new byte[HEADER_SIZE];
    ClusterEncodeSize(packet.size, sizeBuffer, 0);
    var header := sizeBuffer[..];
    assert header == EncodeSize(packet.size);
    FrameParts(header, packet.data);
    Joined(start, header, packet.data);
    ok := WriteAll(socket, header, packet.data);
    if ok && packet.size > 0 {
      ok := WriteAll(socket, packet.data, packet.data);
    }
  }

  /** A frame is its header part, then its body part. */
  lemma FrameParts(header: seq<byte>, data: seq<byte>)
    requires header == EncodeSize(|data|)
    ensures NextPart(data, 0, header)
    ensures NextPart(data, HEADER_SIZE, data)
  {
    assert Frame(data)[HEADER_SIZE..HEADER_SIZE + |data|] == data;
  }
}
