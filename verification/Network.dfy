/** The system calls that the master makes, over the channels of `Protocol`.

    Every call first lets the workers run for a while, then does one of the things the kernel may
    do, chosen freely. The ghost field `sys` is the state of the whole protocol: a call that moves
    bytes is one step of it, so whatever a method does with these calls is a run of the protocol.

    `patience` is how often calls may still return for no good reason (EINTR, spurious readiness);
    it is finite but arbitrary. `now` is the monotone clock.
  */
module Network {
  import opened Common
  import opened Protocol
  import ProtocolSafety

  /** The poll events that the master looks at. */
  datatype PollBits = PollBits(pollIn: bool, pollOut: bool, rdhup: bool, err: bool, hup: bool, nval: bool)
  {
    predicate PeerClosed() {
      hup || rdhup
    }

    predicate Broken() {
      err || nval
    }
  }

  const NO_BITS := PollBits(false, false, false, false, false, false)

  datatype PollFd = PollFd(fd: int, events: PollBits, revents: PollBits)

  /** A close and a worker's fault are for ever. */
  predicate Later(a: Link, b: Link) {
    (a.closed ==> b.closed) && (Honest(b.proc) ==> Honest(a.proc))
  }

  /** What time alone can do to a connection, as far as the other calls rely on it. */
  predicate LaterLink(a: Link, b: Link) {
    Later(a, b) && |a.toMaster| <= |b.toMaster| && |b.toWorker| <= |a.toWorker|
  }

  ghost predicate LaterLinks(a: seq<Link>, b: seq<Link>) {
    |a| == |b| && forall i :: 0 <= i < |a| ==> LaterLink(a[i], b[i])
  }

  /** `LaterLinks` except for connection `fd`. */
  ghost predicate LaterOthers(a: seq<Link>, b: seq<Link>, fd: int) {
    |a| == |b| && forall i :: 0 <= i < |a| && i != fd ==> LaterLink(a[i], b[i])
  }

  /** The readiness that poll may report for connection `link`: requested bits only, a reported close
      is a real one, and, unless the worker or a call of the master (`own`) has failed, a closed connection
      is also readable, and writable while there is room. */
  predicate HonestBits(room: nat, link: Link, events: PollBits, bits: PollBits, own: bool) {
    var excused := own || !Honest(link.proc);
    && (bits.pollIn ==> events.pollIn)
    && (bits.pollOut ==> events.pollOut)
    && (bits.rdhup ==> events.rdhup)
    && (bits.PeerClosed() ==> link.closed)
    && (bits.PeerClosed() && events.pollIn ==> bits.pollIn || excused)
    && (bits.PeerClosed() && events.pollOut && |link.toWorker| < room ==> bits.pollOut || excused)
    && (bits.Broken() ==> excused)
  }

  /** Handling these bits cannot be in vain. */
  predicate Useful(room: nat, link: Link, bits: PollBits) {
    || bits.Broken()
    || bits.PeerClosed()
    || (bits.pollOut && |link.toWorker| < room)
    || (bits.pollIn && (link.toMaster != [] || link.closed))
  }

  /** The bits of which poll may not miss all: what the kernel knows of connection `link`. */
  function Readiness(room: nat, link: Link, events: PollBits): PollBits {
    NO_BITS.(pollIn := events.pollIn && (link.toMaster != [] || link.closed),
             pollOut := events.pollOut && |link.toWorker| < room,
             rdhup := events.rdhup && link.closed)
  }

  /** An inactive entry reports nothing, an active one honest bits. */
  predicate ReportOk(room: nat, own: bool, pollFd: PollFd, link: Link) {
    if pollFd.fd < 0 then pollFd.revents == NO_BITS
    else HonestBits(room, link, pollFd.events, pollFd.revents, own)
  }

  /** The entries of the first `n` connections have been filled in. */
  ghost predicate ReportedUpTo(room: nat, own: bool, links: seq<Link>, before: seq<PollFd>, fds: seq<PollFd>, n: int) {
    && |fds| == |before| == |links| + 1 && 0 <= n <= |links|
    && (forall k :: 0 <= k < |fds| ==> fds[k].fd == before[k].fd && fds[k].events == before[k].events)
    && (forall k :: 0 <= k < n ==> ReportOk(room, own, fds[1 + k], links[k]))
  }

  /** What is known of the entries before only becomes weaker. */
  lemma ReportedStep(room: nat, own: bool, own': bool, links: seq<Link>, before: seq<PollFd>, fds: seq<PollFd>, i: int,
                     pollFd: PollFd)
    requires 0 <= i < |links| && ReportedUpTo(room, own, links, before, fds, i) && (own ==> own')
    requires pollFd.fd == fds[1 + i].fd && pollFd.events == fds[1 + i].events && ReportOk(room, own', pollFd, links[i])
    ensures ReportedUpTo(room, own', links, before, fds[1 + i := pollFd], i + 1)
  {
    forall k | 0 <= k < i
      ensures ReportOk(room, own', fds[1 + k], links[k])
    {
      assert ReportOk(room, own, fds[1 + k], links[k]);
    }
  }

  predicate UsefulEntry(room: nat, links: seq<Link>, fds: seq<PollFd>, j: int)
    requires 0 <= j < |links| && |fds| == |links| + 1
  {
    fds[1 + j].fd >= 0 && Useful(room, links[j], fds[1 + j].revents)
  }

  ghost predicate UsefulFrom(room: nat, links: seq<Link>, fds: seq<PollFd>, i: int)
    requires 0 <= i && |fds| == |links| + 1
  {
    exists j :: i <= j < |links| && UsefulEntry(room, links, fds, j)
  }

  class Kernel {
    const cfg: Config
    var links: seq<Link>
    var open: set<int>        // accepted descriptors that are not closed yet
    var now: int
    var deadline: int         // when the armed timer goes off
    var armed: bool           // whether the timer was started
    var expired: bool         // the timer's flag
    var patience: nat
    var listening: bool       // whether the listener is open
    var nonBlocking: set<int> // descriptors that have been set to answer EAGAIN instead of waiting
    ghost var sys: System
    ghost var firstReading: Option<int>   // what the clock showed when it was first read after the timer was started
    ghost var wakeBy: Option<int>         // when the last poll had to return, if ever

    ghost predicate Valid()
      reads this
    {
      && cfg.Valid()
      && Reachable(cfg, sys)
      && sys.links == links
      && (expired ==> armed && deadline <= now)
    }

    constructor (cfg: Config, patience: nat, now: int, listening: bool)
      requires cfg.Valid()
      ensures Valid() && this.cfg == cfg && sys == Init(cfg) && open == {} && !armed && this.listening == listening
    {
      this.cfg := cfg;
      links := Init(cfg).links;
      open := {};
      this.now := now;
      deadline := now;
      armed, expired := false, false;
      this.patience := patience;
      this.listening := listening;
      nonBlocking := {};
      sys := Init(cfg);
      firstReading, wakeBy := None, None;
      new;
      InitReachable(cfg);
    }

    /** What every call keeps: time goes on, faults and the expired timer stay, and the master's
        part of the protocol state changes only where the call says so. */
    twostate predicate Elapsed()
      reads this
    {
      && old(now) <= now
      && patience <= old(patience)
      && deadline == old(deadline) && armed == old(armed)
      && (old(expired) ==> expired)
      && (old(firstReading).Some? ==> firstReading == old(firstReading))
      && listening == old(listening)
      && (old(sys.faults.any) ==> sys.faults.any)
      && (old(sys.faults.own) ==> sys.faults.own)
      && |links| == |old(links)|
    }

    ghost method Take(step: Step)
      requires cfg.Valid() && Reachable(cfg, sys) && Enabled(cfg, sys, step)
      modifies this`sys
      ensures Reachable(cfg, sys) && sys == Apply(cfg, old(sys), step)
    {
      StepReachable(cfg, sys, step);
      sys := Apply(cfg, sys, step);
    }

    ghost method Fault()
      requires Valid()
      modifies this`sys
      ensures Valid() && sys == old(sys).(faults := Faults(true, true))
    {
      Take(Trouble);
    }

    /** Something fails on connection `fd`: its worker's fault, or else the master's trouble. */
    ghost method Blame(fd: nat)
      requires Valid() && fd < |links|
      modifies this`sys
      ensures Valid() && Elapsed() && sys == old(sys).(faults := sys.faults)
      ensures sys.Excused(fd) && sys.faults.any
    {
      ProtocolSafety.ReachableInv(cfg, sys);
      assert !sys.faults.any ==> ProtocolSafety.Sound(sys.At(fd));
      if Honest(sys.links[fd].proc) {
        Fault();
      }
    }

    /** The workers take any number of steps, and faults may strike them. */
    method Interleave()
      requires Valid()
      modifies this`links, this`sys
      ensures Valid() && Elapsed() && LaterLinks(old(links), links)
      ensures sys == old(sys).(links := links, faults := sys.faults)
    {
      var steps: nat :| steps >= 0;
      while steps > 0
        invariant Valid() && Elapsed() && LaterLinks(old(links), links)
        invariant sys == old(sys).(links := links, faults := sys.faults)
      {
        var i: int := *;
        var act: WorkerAct := *;
        var fault: FaultAct := *;
        if 0 <= i < |links| {
          if * {
            WorkerMoves(i, act);
          } else {
            FaultStrikes(i, fault);
          }
        }
        steps := steps - 1;
      }
    }

    /** One step of one worker, if it can take it. */
    method WorkerMoves(i: nat, act: WorkerAct)
      requires Valid() && i < |links|
      modifies this`links, this`sys
      ensures Valid() && Elapsed() && LaterLinks(old(links), links)
      ensures sys == old(sys).(links := links, faults := sys.faults)
    {
      if WorkerEnabled(cfg, i, links[i], act) {
        Take(WorkerStep(i, act));
        links := links[i := WorkerApply(cfg, i, links[i], act)];
      }
    }

    method FaultStrikes(i: nat, act: FaultAct)
      requires Valid() && i < |links|
      modifies this`links, this`sys
      ensures Valid() && Elapsed() && LaterLinks(old(links), links)
      ensures sys == old(sys).(links := links, faults := sys.faults)
    {
      if FaultEnabled(cfg, links[i], act) {
        Take(FaultStep(i, act));
        links := links[i := FaultApply(cfg, links[i], act)];
      }
    }

    /** What any call on a descriptor may do first: let time pass, fail, or be interrupted. The
        listener is not the descriptor of a connection. */
    method Prelude(fd: int) returns (r: Option<Outcome>)
      requires Valid()
      modifies this`links, this`sys, this`patience
      ensures Valid() && Elapsed() && LaterLinks(old(links), links)
      ensures sys == old(sys).(links := links, faults := sys.faults)
      ensures r.Some? ==> r.value in {Error, Moved(0), Interrupted}
      ensures r == Some(Interrupted) ==> patience < old(patience)
      ensures r == Some(Error) || r == Some(Moved(0)) ==> sys.faults.any && (0 <= fd < |links| ==> sys.Excused(fd))
    {
      Interleave();
      var interrupted: bool := *;
      if * {
        if 0 <= fd < |links| {
          Blame(fd);
        } else {
          Fault();
        }
        return Some(if interrupted then Moved(0) else Error);
      }
      if patience > 0 && interrupted {
        patience := patience - 1;
        return Some(Interrupted);
      }
      r := None;
    }

    /** send() on a connection, offering the unsent rest of the phase's buffer. */
    method Send(fd: nat, bytes: seq<byte>) returns (r: Outcome)
      requires Valid()
      requires fd < sys.count && sys.slots[fd].Sending()
      requires sys.slots[fd].transferOffset < |Outgoing(cfg, fd, sys.slots[fd])|
      requires bytes == Outgoing(cfg, fd, sys.slots[fd])[sys.slots[fd].transferOffset..]
      modifies this`links, this`sys, this`patience
      ensures Valid() && Elapsed() && LaterOthers(old(links), links, fd)
      ensures Later(old(links[fd]), links[fd])
      ensures r.Error? || r == Moved(0) ==> sys.Excused(fd)
      ensures r.Moved? && r.count > 0 ==>
                && r.count <= |bytes|
                && sys == old(sys).(slots := old(sys.slots)[fd := Sent(old(sys.slots[fd]), r.count)], links := links,
                  faults := sys.faults)
      ensures !r.Moved? || r.count == 0 ==>
                && sys == old(sys).(links := links, faults := sys.faults)
                && LaterLinks(old(links), links)
      ensures r.Interrupted? ==> patience < old(patience)
      ensures r.WouldBlock? ==> |old(links)[fd].toWorker| >= cfg.room
    {
      var hiccup := Prelude(fd);
      if hiccup.Some? {
        r := hiccup.value;
      } else if |links[fd].toWorker| >= cfg.room {
        r := WouldBlock;
      } else {
        r := Push(fd, bytes);
      }
    }

    method Push(fd: nat, bytes: seq<byte>) returns (r: Outcome)
      requires Valid()
      requires fd < sys.count && sys.slots[fd].Sending()
      requires sys.slots[fd].transferOffset < |Outgoing(cfg, fd, sys.slots[fd])|
      requires bytes == Outgoing(cfg, fd, sys.slots[fd])[sys.slots[fd].transferOffset..]
      requires |links[fd].toWorker| < cfg.room
      modifies this`links, this`sys
      ensures Valid()
      ensures r.Moved? && 0 < r.count <= |bytes|
      ensures sys == old(sys).(slots := old(sys.slots)[fd := Sent(old(sys.slots[fd]), r.count)], links := links)
      ensures links == old(links)[fd := links[fd]] && links[fd].closed == old(links[fd].closed) &&
              links[fd].proc == old(links[fd].proc)
    {
      var most := if |bytes| < cfg.room - |links[fd].toWorker| then |bytes| else cfg.room - |links[fd].toWorker|;
      var count: nat :| 0 < count <= most;
      SendStep(cfg, sys, fd, count, bytes);
      Take(MasterStep(fd, MSend(count)));
      links := links[fd := links[fd].(toWorker := links[fd].toWorker + bytes[..count])];
      r := Moved(count);
    }

    /** recv() on a connection, asking for the missing rest of the phase's buffer. */
    method Recv(fd: nat, size: nat) returns (r: Outcome, bytes: seq<byte>)
      requires Valid()
      requires fd < sys.count && sys.slots[fd].Reading()
      requires 0 < size && sys.slots[fd].transferOffset + size == |Incoming(sys.At(fd))|
      modifies this`links, this`sys, this`patience
      ensures Valid() && Elapsed() && LaterOthers(old(links), links, fd)
      ensures Later(old(links[fd]), links[fd])
      ensures r.Moved? && r.count > 0 ==>
                && r.count == |bytes| <= size
                && sys == old(sys).WithPeer(fd, Received(old(sys.At(fd)), bytes)).(links := links, faults := sys.faults)
      ensures r.Moved? && r.count == 0 ==> sys.Excused(fd) || (links[fd].closed && links[fd].toMaster == [])
      ensures !r.Moved? || r.count == 0 ==>
                && sys == old(sys).(links := links, faults := sys.faults)
                && LaterLinks(old(links), links)
      ensures r.Interrupted? ==> patience < old(patience)
      ensures r.WouldBlock? ==> old(links[fd].toMaster) == [] && !old(links[fd].closed)
      ensures r.Error? ==> sys.Excused(fd)
    {
      bytes := [];
      var hiccup := Prelude(fd);
      if hiccup.Some? {
        r := hiccup.value;
      } else {
        r, bytes := Pull(fd, size);
      }
    }

    /** recv() when nothing hinders it. */
    method Pull(fd: nat, size: nat) returns (r: Outcome, bytes: seq<byte>)
      requires Valid()
      requires fd < sys.count && sys.slots[fd].Reading()
      requires 0 < size && sys.slots[fd].transferOffset + size == |Incoming(sys.At(fd))|
      modifies this`links, this`sys
      ensures Valid()
      ensures links == old(links)[fd := links[fd]] && links[fd].closed == old(links[fd].closed) &&
              links[fd].proc == old(links[fd].proc)
      ensures if old(links[fd].toMaster) == [] then
                r == (if links[fd].closed then Moved(0) else WouldBlock) && links == old(links) && sys == old(sys)
              else
                && r.Moved? && 0 < r.count == |bytes| <= size
                && sys == old(sys).WithPeer(fd, Received(old(sys.At(fd)), bytes)).(links := links)
    {
      bytes := [];
      if links[fd].toMaster == [] {
        r := if links[fd].closed then Moved(0) else WouldBlock;
      } else {
        r, bytes := PullSome(fd, size);
      }
    }

    method PullSome(fd: nat, size: nat) returns (r: Outcome, bytes: seq<byte>)
      requires Valid()
      requires fd < sys.count && sys.slots[fd].Reading()
      requires 0 < size && sys.slots[fd].transferOffset + size == |Incoming(sys.At(fd))|
      requires links[fd].toMaster != []
      modifies this`links, this`sys
      ensures Valid()
      ensures r.Moved? && 0 < r.count == |bytes| <= size
      ensures sys == old(sys).WithPeer(fd, Received(old(sys.At(fd)), bytes)).(links := links)
      ensures links == old(links)[fd := links[fd]] && links[fd].closed == old(links[fd].closed) &&
              links[fd].proc == old(links[fd].proc)
    {
      var most := if |links[fd].toMaster| < size then |links[fd].toMaster| else size;
      var count: nat :| 0 < count <= most;
      bytes := links[fd].toMaster[..count];
      RecvStep(cfg, sys, fd, count);
      Take(MasterStep(fd, MRecv(count)));
      links := links[fd := links[fd].(toMaster := links[fd].toMaster[count..])];
      r := Moved(count);
    }

    /** accept(): a descriptor, or -1. Descriptors are numbered in the order of acceptance. */
    method AcceptConnection(next: nat) returns (fd: int, again: bool)
      requires Valid() && next == sys.count
      requires sys.count < |cfg.tasks| && sys.count !in open
      modifies this`links, this`sys, this`patience, this`open
      ensures Valid() && Elapsed() && LaterLinks(old(links), links)
      ensures sys == old(sys).(links := links, faults := sys.faults)
      ensures fd == -1 || fd == sys.count
      ensures open == if fd == -1 then old(open) else old(open) + {fd}
      ensures fd == -1 && again ==> patience < old(patience)
      ensures fd == -1 && !again ==> sys.faults.any
    {
      var hiccup := Prelude(-1);
      if hiccup.Some? {
        fd, again := -1, hiccup.value.Interrupted?;
      } else {
        fd, again := next, false;
        open := open + {fd};
      }
    }

    /** shutdown() and close(): a descriptor is closed only once. */
    method Close(fd: int)
      requires fd in open
      modifies this`open
      ensures open == old(open) - {fd}
    {
      open := open - {fd};
    }

    /** close() of the listener. */
    method CloseListener()
      requires listening
      modifies this`listening
      ensures !listening
    {
      listening := false;
    }

    /** fcntl(): from now on the descriptor answers EAGAIN instead of waiting. */
    method SetNonBlocking(fd: int) returns (ok: bool)
      requires Valid()
      modifies this`links, this`sys, this`nonBlocking
      ensures Valid() && Elapsed() && LaterLinks(old(links), links)
      ensures sys == old(sys).(links := links, faults := sys.faults)
      ensures if ok then fd in nonBlocking else sys.faults == Faults(true, true)
    {
      ok := MayFail();
      if ok {
        nonBlocking := nonBlocking + {fd};
      }
    }

    /** The bits that poll reports for one connection. */
    method ChooseBits(i: nat, events: PollBits) returns (bits: PollBits)
      requires Valid() && i < |links|
      modifies this`sys
      ensures Valid() && Elapsed() && sys == old(sys).(faults := sys.faults)
      ensures HonestBits(cfg.room, links[i], events, bits, sys.faults.own)
    {
      var want: PollBits := *;
      var lie: bool := *;
      var hup, rdhup := links[i].closed && want.hup, links[i].closed && want.rdhup && events.rdhup;
      if want.Broken() || lie {
        Blame(i);
      }
      bits := PollBits(
        events.pollIn && (want.pollIn || (!lie && (hup || rdhup))),
        events.pollOut && (want.pollOut || (!lie && (hup || rdhup) && |links[i].toWorker| < cfg.room)),
        rdhup, want.err, hup, want.nval);
    }

    /** What poll() promises about the array it has filled in. */
    ghost predicate Polled(fds: seq<PollFd>, before: seq<PollFd>)
      reads this
    {
      && |fds| == |before| == |links| + 1
      && (fds[0].revents.pollIn ==> fds[0].events.pollIn)
      && (fds[0].revents.Broken() || fds[0].revents.PeerClosed() ==> sys.faults.any)
      && ReportedUpTo(cfg.room, sys.faults.own, links, before, fds, |links|)
    }

    /** Some descriptor was reported truthfully: handling this round will not be in vain. */
    ghost predicate SomethingUseful(fds: seq<PollFd>)
      requires |fds| == |links| + 1
      reads this
    {
      fds[0].revents.pollIn || UsefulFrom(cfg.room, links, fds, 0)
    }

    /** poll(): -1, or 0 after the timeout, or a number of descriptors. A negative timeout never ends; a
        call that nothing else would ever end counts as a failing call. */
    method Poll(fds: array<PollFd>, timeoutMs: int) returns (result: int, interrupted: bool)
      requires Valid() && timeoutMs != 0
      requires fds.Length == |links| + 1
      modifies fds, this`links, this`sys, this`patience, this`now, this`expired, this`wakeBy
      ensures Valid() && Elapsed() && LaterLinks(old(links), links)
      ensures sys == old(sys).(links := links, faults := sys.faults)
      ensures result < 0 ==> if interrupted then patience < old(patience) else sys.faults.any
      ensures wakeBy == if timeoutMs < 0 then None else Some(old(now) + timeoutMs)
      ensures result == 0 ==> timeoutMs > 0 && now >= old(now) + timeoutMs
      ensures result > 0 ==> Polled(fds[..], old(fds[..]))
      ensures result > 0 ==> patience < old(patience) || SomethingUseful(fds[..])
    {
      var start := now;
      wakeBy := if timeoutMs < 0 then None else Some(now + timeoutMs);
      Tick();
      var hiccup := Prelude(-1);
      if hiccup.Some? {
        return -1, hiccup.value.Interrupted?;
      }
      var timedOut: bool := *;
      if !timedOut || timeoutMs < 0 {
        var woken := WakeUp(fds);
        if woken {
          return 1, false;
        }
      }
      if timeoutMs < 0 {
        Fault();
        return -1, false;
      }
      now := if now < start + timeoutMs then start + timeoutMs else now;
      return 0, false;
    }

    /** poll() returns because of a truthful report, or, as long as there is patience, for no good reason. */
    method WakeUp(fds: array<PollFd>) returns (woken: bool)
      requires Valid() && fds.Length == |links| + 1
      modifies fds, this`sys, this`patience
      ensures Valid() && Elapsed() && sys == old(sys).(faults := sys.faults)
      ensures woken ==> Polled(fds[..], old(fds[..]))
      ensures woken ==> patience < old(patience) || SomethingUseful(fds[..])
    {
      Report(fds);
      woken := FindUseful(fds);
      if !woken && patience > 0 {
        patience := patience - 1;
        woken := true;
      }
    }

    method Report(fds: array<PollFd>)
      requires Valid() && fds.Length == |links| + 1
      modifies fds, this`sys
      ensures Valid() && Elapsed() && sys == old(sys).(faults := sys.faults)
      ensures Polled(fds[..], old(fds[..]))
    {
      var bits: PollBits := *;
      bits := bits.(pollIn := bits.pollIn && fds[0].events.pollIn);
      if bits.Broken() || bits.PeerClosed() {
        Fault();
      }
      ghost var before := fds[..];
      fds[0] := fds[0].(revents := bits);
      var i := 0;
      while i < |links|
        invariant 0 <= i <= |links|
        invariant Valid() && Elapsed() && sys == old(sys).(faults := sys.faults)
        invariant fds[0].revents == bits && (bits.Broken() || bits.PeerClosed() ==> sys.faults.any)
        invariant ReportedUpTo(cfg.room, sys.faults.own, links, before, fds[..], i)
      {
        ghost var own, now := sys.faults.own, fds[..];
        var pollFd := ReportOne(fds[1 + i], i);
        ReportedStep(cfg.room, own, sys.faults.own, links, before, now, i, pollFd);
        fds[1 + i] := pollFd;
        assert fds[..] == now[1 + i := pollFd];
        i := i + 1;
      }
    }

    /** Fills in one entry. */
    method ReportOne(before: PollFd, i: nat) returns (pollFd: PollFd)
      requires Valid() && i < |links|
      modifies this`sys
      ensures Valid() && Elapsed() && sys == old(sys).(faults := sys.faults)
      ensures pollFd.fd == before.fd && pollFd.events == before.events
      ensures ReportOk(cfg.room, sys.faults.own, pollFd, links[i])
    {
      pollFd := before.(revents := NO_BITS);
      if before.fd >= 0 {
        var bits := ChooseBits(i, before.events);
        pollFd := before.(revents := bits);
      }
    }

    method FindUseful(fds: array<PollFd>) returns (found: bool)
      requires fds.Length == |links| + 1
      ensures found ==> SomethingUseful(fds[..])
    {
      found := fds[0].revents.pollIn;
      var i := 0;
      while i < |links|
        invariant 0 <= i <= |links|
        invariant found ==> SomethingUseful(fds[..])
      {
        if fds[1 + i].fd >= 0 && Useful(cfg.room, links[i], fds[1 + i].revents) {
          assert UsefulEntry(cfg.room, links, fds[..], i);
          found := true;
        }
        i := i + 1;
      }
    }

    /** Any other call that may fail: setsockopt, fcntl, calloc, sigaction. */
    method MayFail() returns (ok: bool)
      requires Valid()
      modifies this`links, this`sys
      ensures Valid() && Elapsed() && LaterLinks(old(links), links)
      ensures sys == old(sys).(links := links, faults := sys.faults)
      ensures !ok ==> sys.faults == Faults(true, true)
    {
      Interleave();
      ok := *;
      if !ok {
        Fault();
      }
    }

    /** malloc(): a buffer with arbitrary contents. */
    method Malloc(size: nat) returns (ok: bool, buffer: seq<byte>)
      requires Valid()
      modifies this`links, this`sys
      ensures Valid() && Elapsed() && LaterLinks(old(links), links)
      ensures sys == old(sys).(links := links, faults := sys.faults)
      ensures ok ==> |buffer| == size
      ensures !ok ==> sys.faults == Faults(true, true)
    {
      ok := MayFail();
      assert |seq(size, _ => 0 as byte)| == size;
      buffer :| |buffer| == size;
    }

    /** Time passes; once the deadline has come, the timer may go off. */
    method Tick()
      requires Valid()
      modifies this`now, this`expired
      ensures Valid() && Elapsed()
    {
      var delay: nat :| delay >= 0;
      now := now + delay;
      var fired: bool := *;
      if armed && deadline <= now && fired {
        expired := true;
      }
    }

    /** The monotone clock. */
    method NowMs() returns (t: int)
      requires Valid()
      modifies this`now, this`expired, this`firstReading
      ensures Valid() && Elapsed() && old(now) <= now == t
      ensures firstReading == if old(firstReading).None? then Some(t) else old(firstReading)
    {
      Tick();
      t := now;
      firstReading := if firstReading.None? then Some(t) else firstReading;
    }

    /** A timer with a non-positive timeout is not started and never expires. */
    method DeadlineTimerStart(timeoutMs: int) returns (ok: bool)
      requires Valid() && !armed
      modifies this`links, this`sys, this`deadline, this`armed, this`expired, this`firstReading
      ensures Valid() && LaterLinks(old(links), links)
      ensures sys == old(sys).(links := links, faults := sys.faults)
      ensures old(sys.faults.any) ==> sys.faults.any
      ensures !expired && deadline == now + timeoutMs && armed == (ok && timeoutMs > 0)
      ensures firstReading == None
      ensures !ok ==> sys.faults.any
    {
      expired, deadline, firstReading := false, now + timeoutMs, None;
      if timeoutMs <= 0 {
        return true;
      }
      ok := MayFail();
      armed := ok;
    }

    /** The timer's flag. */
    method DeadlineTimerExpired() returns (r: bool)
      requires Valid()
      modifies this`now, this`expired
      ensures Valid() && Elapsed()
      ensures r == expired
    {
      Tick();
      r := expired;
    }

    method DeadlineTimerStop()
      requires Valid()
      modifies this`armed, this`expired
      ensures Valid() && !armed && !expired
    {
      armed, expired := false, false;
    }
  }

  function Sent(slot: MasterWorker, count: nat): MasterWorker {
    slot.(transferOffset := slot.transferOffset + count)
  }

  /** A reading peer whose phase has filled `buffer` up to `offset`. */
  function Filled(p: Peer, buffer: seq<byte>, offset: nat): Peer {
    if p.slot.state == ReadResultSize then p.(slot := p.slot.(transferOffset := offset, sizeBuffer := buffer))
    else p.(slot := p.slot.(transferOffset := offset), result := buffer)
  }

  function Received(p: Peer, bytes: seq<byte>): Peer
    requires p.slot.transferOffset + |bytes| <= |Incoming(p)|
  {
    Filled(p, Splice(Incoming(p), p.slot.transferOffset, bytes), p.slot.transferOffset + |bytes|)
  }

  lemma SendStep(cfg: Config, s: System, fd: nat, count: nat, bytes: seq<byte>)
    requires s.Shape(cfg) && fd < s.count && s.slots[fd].Sending()
    requires s.slots[fd].transferOffset <= |Outgoing(cfg, fd, s.slots[fd])|
    requires bytes == Outgoing(cfg, fd, s.slots[fd])[s.slots[fd].transferOffset..]
    requires 0 < count <= |bytes| && |s.links[fd].toWorker| + count <= cfg.room
    ensures Enabled(cfg, s, MasterStep(fd, MSend(count)))
    ensures Apply(cfg, s, MasterStep(fd, MSend(count))) ==
            s.(slots := s.slots[fd := Sent(s.slots[fd], count)],
               links := s.links[fd := s.links[fd].(toWorker := s.links[fd].toWorker + bytes[..count])])
  {
    var off := s.slots[fd].transferOffset;
    assert Outgoing(cfg, fd, s.slots[fd])[off..off + count] == bytes[..count];
    assert s.results == s.results[fd := s.results[fd]];
  }

  lemma RecvStep(cfg: Config, s: System, fd: nat, count: nat)
    requires s.Shape(cfg) && fd < s.count && s.slots[fd].Reading()
    requires s.slots[fd].transferOffset + count <= |Incoming(s.At(fd))|
    requires 0 < count <= |s.links[fd].toMaster|
    ensures Enabled(cfg, s, MasterStep(fd, MRecv(count)))
    ensures Apply(cfg, s, MasterStep(fd, MRecv(count))) ==
            s.WithPeer(fd, Received(s.At(fd), s.links[fd].toMaster[..count]))
             .(links := s.links[fd := s.links[fd].(toMaster := s.links[fd].toMaster[count..])])
  {
  }
}
