/** The master's resumable transfers: `WritePart` and `ReadPart` of src/master.c. */
module Transfer {
  import opened Common
  import opened Protocol
  import opened Network

  datatype TransferStatus = TransferComplete | TransferPending | TransferFailed

  /** Since `start`, nothing but the offset of one slot has changed, time aside. */
  ghost predicate SentTo(start: System, now: System, fd: nat, offset: nat)
    requires fd < |start.slots|
  {
    var slot := start.slots[fd].(transferOffset := offset);
    now == start.(slots := start.slots[fd := slot], links := now.links, faults := now.faults)
  }

  /** Sends what is left of the phase's buffer until it is gone or the channel is full. The offset it
      returns is where the next call resumes; the protocol state has moved by exactly those bytes. */
  method WritePart(net: Kernel, socketFd: nat, buffer: seq<byte>, size: nat, start: nat)
    returns (status: TransferStatus, offset: nat)
    requires net.Valid() && socketFd < net.sys.count && net.sys.slots[socketFd].Sending()
    requires buffer == Outgoing(net.cfg, socketFd, net.sys.slots[socketFd]) && size == |buffer|
    requires start == net.sys.slots[socketFd].transferOffset <= size
    modifies net`links, net`sys, net`patience
    ensures net.Valid() && net.Elapsed() && LaterOthers(old(net.links), net.links, socketFd)
    ensures Later(old(net.links[socketFd]), net.links[socketFd])
    ensures SentTo(old(net.sys), net.sys, socketFd, offset)
    ensures start <= offset <= size
    ensures status.TransferComplete? ==> offset == size
    ensures status.TransferPending? ==> offset < size
    ensures status.TransferFailed? ==> net.sys.Excused(socketFd)
    ensures status.TransferPending? && |old(net.links)[socketFd].toWorker| < net.cfg.room ==> start < offset
  {
    offset := start;
    assert net.sys.slots == net.sys.slots[socketFd := net.sys.slots[socketFd].(transferOffset := offset)];
    while offset < size
      invariant start <= offset <= size
      invariant net.Valid() && net.Elapsed() && LaterOthers(old(net.links), net.links, socketFd)
      invariant Later(old(net.links[socketFd]), net.links[socketFd])
      invariant SentTo(old(net.sys), net.sys, socketFd, offset)
      invariant offset == start ==> LaterLinks(old(net.links), net.links)
      decreases size - offset, net.patience
    {
      var written := net.Send(socketFd, buffer[offset..]);
      match written {
        case Interrupted =>
          continue;
        case WouldBlock =>
          return TransferPending, offset;
        case Error =>
          return TransferFailed, offset;
        case Moved(count) =>
          if count == 0 {
            return TransferFailed, offset;
          }
          offset := offset + count;
      }
    }
    status := TransferComplete;
  }

  /** Since `start`, nothing but the buffer and the offset of one reading slot has changed, time aside. */
  ghost predicate ReadTo(start: System, now: System, fd: nat, filled: seq<byte>, offset: nat)
    requires fd < |start.slots| && |start.slots| == |start.results| == |start.links|
  {
    now == start.WithPeer(fd, Filled(start.At(fd), filled, offset)).(links := now.links, faults := now.faults)
  }

  /** Receives into what is left of the phase's buffer until it is full or nothing is readable.
      On a connection whose peer had already closed it never stays pending. */
  method ReadPart(net: Kernel, socketFd: nat, buffer: seq<byte>, size: nat, start: nat)
    returns (status: TransferStatus, filled: seq<byte>, offset: nat)
    requires net.Valid() && socketFd < net.sys.count && net.sys.slots[socketFd].Reading()
    requires buffer == Incoming(net.sys.At(socketFd)) && size == |buffer| == net.sys.slots[socketFd].PhaseSize()
    requires start == net.sys.slots[socketFd].transferOffset <= size
    modifies net`links, net`sys, net`patience
    ensures net.Valid() && net.Elapsed() && LaterOthers(old(net.links), net.links, socketFd)
    ensures Later(old(net.links[socketFd]), net.links[socketFd])
    ensures |filled| == size
    ensures net.sys == old(net.sys).WithPeer(socketFd, Filled(old(net.sys.At(socketFd)), filled, offset))
                                   .(links := net.links, faults := net.sys.faults)
    ensures start <= offset <= size
    ensures status.TransferComplete? ==> offset == size
    ensures status.TransferPending? ==> offset < size
    ensures status.TransferFailed? ==> net.sys.Excused(socketFd) || PeerGone(net.sys.At(socketFd))
    ensures status.TransferPending? ==>
              !old(net.links)[socketFd].closed && (old(net.links)[socketFd].toMaster != [] ==> start < offset)
  {
    filled, offset := buffer, start;
    assert ReadTo(net.sys, net.sys, socketFd, filled, offset);
    while offset < size
      invariant start <= offset <= size == |filled|
      invariant net.Valid() && net.Elapsed() && LaterOthers(old(net.links), net.links, socketFd)
      invariant Later(old(net.links[socketFd]), net.links[socketFd])
      invariant ReadTo(old(net.sys), net.sys, socketFd, filled, offset)
      invariant offset == start ==> LaterLinks(old(net.links), net.links)
      decreases size - offset, net.patience
    {
      var received, bytes := RecvInto(net, socketFd, filled, offset, old(net.sys));
      match received {
        case Interrupted =>
          continue;
        case WouldBlock =>
          return TransferPending, filled, offset;
        case Error =>
          return TransferFailed, filled, offset;
        case Moved(count) =>
          if count == 0 {
            return TransferFailed, filled, offset;
          }
          filled := Splice(filled, offset, bytes);
          offset := offset + count;
      }
    }
    status := TransferComplete;
  }

  /** One recv() call of a transfer that began in state `start` and has come to `offset`. */
  method RecvInto(net: Kernel, socketFd: nat, filled: seq<byte>, offset: nat, ghost start: System)
    returns (received: Outcome, bytes: seq<byte>)
    requires net.Valid() && socketFd < net.sys.count && socketFd < |start.slots| &&
             |start.slots| == |start.results| == |start.links|
    requires start.slots[socketFd].Reading()
    requires ReadTo(start, net.sys, socketFd, filled, offset)
    requires offset < |filled|
    modifies net`links, net`sys, net`patience
    ensures net.Valid() && net.Elapsed() && LaterOthers(old(net.links), net.links, socketFd)
    ensures Later(old(net.links[socketFd]), net.links[socketFd])
    ensures received.Moved? && received.count > 0 ==>
              && received.count == |bytes| <= |filled| - offset
              && ReadTo(start, net.sys, socketFd, Splice(filled, offset, bytes), offset + |bytes|)
    ensures !received.Moved? || received.count == 0 ==>
              && ReadTo(start, net.sys, socketFd, filled, offset)
              && LaterLinks(old(net.links), net.links)
    ensures received.Moved? && received.count == 0 ==>
            net.sys.Excused(socketFd) || (net.links[socketFd].closed && net.links[socketFd].toMaster == [])
    ensures received.Interrupted? ==> net.patience < old(net.patience)
    ensures received.WouldBlock? ==> old(net.links[socketFd].toMaster) == [] && !old(net.links[socketFd].closed)
    ensures received.Error? ==> net.sys.Excused(socketFd)
  {
    ghost var links, faults := net.links, net.sys.faults;
    Resume(start, socketFd, filled, offset, [], links, faults);
    received, bytes := net.Recv(socketFd, |filled| - offset);
    if received.Moved? && received.count > 0 {
      Resume(start, socketFd, filled, offset, bytes, links, faults);
    }
  }

  /** Receiving in two calls is receiving in one: the second call resumes at the first one's offset. */
  lemma Resume(s: System, fd: nat, filled: seq<byte>, offset: nat, bytes: seq<byte>, links: seq<Link>, faults: Faults)
    requires fd < |s.slots| && |s.slots| == |s.results| == |s.links| == |links|
    requires s.slots[fd].Reading() && offset + |bytes| <= |filled|
    ensures var mid := s.WithPeer(fd, Filled(s.At(fd), filled, offset)).(links := links, faults := faults);
            && Incoming(mid.At(fd)) == filled && mid.slots[fd].transferOffset == offset
            && var end := s.WithPeer(fd, Filled(s.At(fd), Splice(filled, offset, bytes), offset + |bytes|));
               var there := mid.WithPeer(fd, Received(mid.At(fd), bytes));
               there.slots == end.slots && there.results == end.results && there.count == end.count
  {
  }
}
