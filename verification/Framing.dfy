/** Length-prefixed packets: an 8-byte size header, then that many bytes. */
module Framing {
  import opened Common

  function Frame(packet: seq<byte>): (s: seq<byte>)
    ensures |s| == HEADER_SIZE + |packet|
  {
    EncodeSize(|packet|) + packet
  }

  /** How many more bytes a reader that has consumed `got` of a frame still asks for: first the
      rest of the header, then the rest of the body the header announces. */
  function Want(got: seq<byte>): nat {
    if |got| < HEADER_SIZE then HEADER_SIZE - |got|
    else
      var size := DecodeSize(got[..HEADER_SIZE]);
      if |got| - HEADER_SIZE < size then HEADER_SIZE + size - |got| else 0
  }

  /** On a prefix of a frame, the reader asks for no byte beyond that frame, and stops exactly
      when it has all of it. */
  lemma WantOnFrame(got: seq<byte>, packet: seq<byte>)
    requires |packet| < WORD
    requires got <= Frame(packet)
    ensures |got| + Want(got) <= |Frame(packet)|
    ensures Want(got) == 0 <==> got == Frame(packet)
    ensures got == Frame(packet) ==> got[HEADER_SIZE..] == packet
  {
    if |got| >= HEADER_SIZE {
      assert got[..HEADER_SIZE] == Frame(packet)[..HEADER_SIZE] == EncodeSize(|packet|);
      DecodeEncode(|packet|);
    }
    assert Frame(packet)[HEADER_SIZE..] == packet;
  }

  /** Frames are prefix-free: a byte stream can be cut into its first packet in one way only. */
  lemma FramePrefixFree(p: seq<byte>, restP: seq<byte>, q: seq<byte>, restQ: seq<byte>)
    requires |p| < WORD && |q| < WORD
    requires Frame(p) + restP == Frame(q) + restQ
    ensures p == q && restP == restQ
  {
    var s, t := Frame(p) + restP, Frame(q) + restQ;
    assert EncodeSize(|p|) == s[..HEADER_SIZE] == t[..HEADER_SIZE] == EncodeSize(|q|);
    DecodeEncode(|p|);
    DecodeEncode(|q|);
    assert p == s[HEADER_SIZE..HEADER_SIZE + |p|];
    assert q == t[HEADER_SIZE..HEADER_SIZE + |p|];
    assert restP == s[HEADER_SIZE + |p|..];
    assert restQ == t[HEADER_SIZE + |p|..];
  }

  /** A complete frame at the start of (a part of) another frame is that frame. */
  lemma FrameInFrame(p: seq<byte>, rest: seq<byte>, q: seq<byte>)
    requires |p| < WORD && |q| < WORD
    requires Frame(p) + rest <= Frame(q)
    ensures p == q && rest == []
  {
    var missing := Completion(Frame(p), rest, Frame(q));
    FramePrefixFree(p, rest + missing, q, []);
  }

  lemma Completion(frame: seq<byte>, rest: seq<byte>, whole: seq<byte>) returns (missing: seq<byte>)
    requires frame + rest <= whole
    ensures frame + (rest + missing) == whole + []
  {
    missing := whole[|frame + rest|..];
  }

  /** The stream made by writing `packets` one after the other. */
  function FrameAll(packets: seq<seq<byte>>): seq<byte> {
    if packets == [] then [] else Frame(packets[0]) + FrameAll(packets[1..])
  }

  ghost predicate Sized(packets: seq<seq<byte>>) {
    forall i :: 0 <= i < |packets| ==> |packets[i]| < WORD
  }

  /** A stream of frames determines the packets, including empty ones, and their number. */
  lemma {:induction false} StreamUnique(ps: seq<seq<byte>>, qs: seq<seq<byte>>)
    requires Sized(ps) && Sized(qs)
    requires FrameAll(ps) == FrameAll(qs)
    ensures ps == qs
  {
    if ps != [] && qs != [] {
      FramePrefixFree(ps[0], FrameAll(ps[1..]), qs[0], FrameAll(qs[1..]));
      StreamUnique(ps[1..], qs[1..]);
      assert ps == [ps[0]] + ps[1..];
      assert qs == [qs[0]] + qs[1..];
    }
  }

  lemma {:induction false} FrameAllAppend(packets: seq<seq<byte>>, packet: seq<byte>)
    ensures FrameAll(packets + [packet]) == FrameAll(packets) + Frame(packet)
  {
    if packets == [] {
      assert packets + [packet] == [packet];
      assert FrameAll([packet]) == Frame(packet) + FrameAll([]);
    } else {
      assert (packets + [packet])[1..] == packets[1..] + [packet];
      FrameAllAppend(packets[1..], packet);
      assert Frame(packets[0]) + (FrameAll(packets[1..]) + Frame(packet)) == FrameAll(packets) + Frame(packet);
    }
  }

  /** A reader of the stream `FrameAll(packets)` that cuts off one frame gets the first packet and is
      left with the stream of the others. */
  lemma ReadBack(packets: seq<seq<byte>>, packet: seq<byte>, rest: seq<byte>)
    requires Sized(packets) && packets != [] && |packet| < WORD
    requires FrameAll(packets) == Frame(packet) + rest
    ensures packet == packets[0] && rest == FrameAll(packets[1..])
  {
    FramePrefixFree(packets[0], FrameAll(packets[1..]), packet, rest);
  }

  /** The nested packet of a worker: the number of items, then each item as a packet of its own. */
  function Pack(items: seq<seq<byte>>): seq<byte> {
    EncodeSize(|items|) + FrameAll(items)
  }

  /** Packing loses nothing: the packed bytes determine the items, their order and their sizes. */
  lemma PackInjective(ps: seq<seq<byte>>, qs: seq<seq<byte>>)
    requires Sized(ps) && Sized(qs)
    requires Pack(ps) == Pack(qs)
    ensures ps == qs
  {
    assert FrameAll(ps) == Pack(ps)[HEADER_SIZE..] == Pack(qs)[HEADER_SIZE..] == FrameAll(qs);
    StreamUnique(ps, qs);
  }
}
