/**
 * Packets over a TCP stream: a 16-bit big-endian length and the payload (section 2 of RFC 4571).
 * The kernel is an adversary that accepts and returns any number of bytes.
 */
module TcpFraming {
  import opened Bytes
  import opened ByteOrder

  const MAX_PACKET_SIZE: nat := 65536
  const PACKET_LEN_SIZE: nat := 2
  const BUF_SIZE: nat := MAX_PACKET_SIZE + PACKET_LEN_SIZE

  type Packet = seq<byte>

  // ------------------------------------------------------------------------ the framing

  /** The length field; it cannot hold lengths of 65536 and more. */
  function Length(n: nat): (s: seq<byte>)
    ensures |s| == 2
  {
    SetBE(n, PACKET_LEN_SIZE)
  }

  function GetBE16(s: seq<byte>): (n: nat)
    requires |s| >= 2
    ensures n < 65536 && Length(n) == s[..2] && n == (s[0] as int) * 256 + s[1]
  {
    var field := s[..PACKET_LEN_SIZE];
    assert field[..1] == [s[0]] && [s[0]][..0] == [];
    BigEndianBytes(field);
    GetBE(field)
  }

  lemma LengthRoundTrip(n: nat, rest: seq<byte>)
    ensures GetBE16(Length(n) + rest) == n % 65536
  {
    assert (Length(n) + rest)[..2] == Length(n);
    BigEndianRoundTrip(n, 2);
    assert Pow256(2) == 256 * Pow256(1);
  }

  predicate Sendable(packets: seq<Packet>) {
    forall i :: 0 <= i < |packets| ==> |packets[i]| < 65536
  }

  function Frame(p: Packet): (f: seq<byte>)
    ensures |f| == |p| + 2
  {
    Length(|p|) + p
  }

  function Frames(packets: seq<Packet>): seq<byte>
    requires Sendable(packets)
  {
    if packets == [] then [] else Frame(packets[0]) + Frames(packets[1..])
  }

  lemma {:induction false} FramesCons(p: Packet, packets: seq<Packet>)
    requires |p| < 65536 && Sendable(packets)
    ensures Sendable([p] + packets) && Frames([p] + packets) == Frame(p) + Frames(packets)
  {
    assert ([p] + packets)[1..] == packets;
  }

  lemma {:induction false} FramesConcat(a: seq<Packet>, b: seq<Packet>)
    requires Sendable(a) && Sendable(b)
    ensures Sendable(a + b) && Frames(a + b) == Frames(a) + Frames(b)
  {
    if a == [] {
      assert a + b == b;
    } else {
      assert a + b == [a[0]] + (a[1..] + b);
      FramesConcat(a[1..], b);
      FramesCons(a[0], a[1..] + b);
      ConcatAssociative(Frame(a[0]), Frames(a[1..]), Frames(b));
    }
  }

  lemma FramesSnoc(a: seq<Packet>, p: Packet)
    requires Sendable(a) && |p| < 65536
    ensures Sendable(a + [p]) && Frames(a + [p]) == Frames(a) + Frame(p)
  {
    FramesConcat(a, [p]);
    assert Frames([p]) == Frame(p) + Frames([]);
  }

  /** A whole frame is at the front of `s`. */
  predicate HasFrame(s: seq<byte>) {
    |s| >= PACKET_LEN_SIZE && |s| >= PACKET_LEN_SIZE + GetBE16(s)
  }

  /** The reference receiver: cut whole frames off the front for as long as there is one. */
  function Deframe(s: seq<byte>): (seq<Packet>, seq<byte>)
    decreases |s|
  {
    if !HasFrame(s) then ([], s)
    else
      var n := GetBE16(s);
      var (ps, tail) := Deframe(s[n + 2..]);
      ([s[2..n + 2]] + ps, tail)
  }

  lemma FrameSplit(s: seq<byte>)
    requires HasFrame(s)
    ensures s == Frame(s[2..GetBE16(s) + 2]) + s[GetBE16(s) + 2..]
  {
    assert s == s[..2] + s[2..];
  }

  /** Nothing is lost: the packets' frames and the tail are the input, and the tail holds no frame. */
  lemma {:induction false} DeframeExact(s: seq<byte>)
    ensures var (ps, tail) := Deframe(s);
            Sendable(ps) && Frames(ps) + tail == s && !HasFrame(tail) && |tail| < 65537
    decreases |s|
  {
    if !HasFrame(s) {
      assert [] + s == s;
    } else {
      var n := GetBE16(s);
      var p, rest := s[2..n + 2], s[n + 2..];
      var (ps, tail) := Deframe(rest);
      DeframeExact(rest);
      FrameSplit(s);
      FramesCons(p, ps);
      ConcatAssociative(Frame(p), Frames(ps), tail);
    }
  }

  lemma FrontFrame(p: Packet, rest: seq<byte>)
    requires |p| < 65536
    ensures var s := Frame(p) + rest;
            HasFrame(s) && GetBE16(s) == |p| && s[2..|p| + 2] == p && s[|p| + 2..] == rest
  {
    LengthRoundTrip(|p|, p + rest);
    assert Frame(p) + rest == Length(|p|) + (p + rest);
  }

  /** A packet survives framing exactly when its length fits in the length field. */
  lemma {:induction false} FrameIsReadBack(p: Packet)
    ensures Deframe(Frame(p)) == ([p], []) <==> |p| < 65536
    ensures |p| >= 65536 ==> Deframe(Frame(p)).0 != [] && Deframe(Frame(p)).0[0] == p[..|p| % 65536]
  {
    assert Frame(p) + [] == Frame(p);
    if |p| < 65536 {
      FrontFrame(p, []);
      assert [p] + [] == [p];
    } else {
      LengthRoundTrip(|p|, p);
      assert Frame(p)[2..|p| % 65536 + 2] == p[..|p| % 65536];
    }
  }

  /** 65536 bytes, which the size check lets through, would arrive as an empty packet and rubbish. */
  lemma {:induction false} OversizedPacketIsLost(p: Packet)
    requires |p| == 65536
    ensures |p| <= BUF_SIZE && Deframe(Frame(p)).0 != [] && Deframe(Frame(p)).0[0] == []
  {
    FrameIsReadBack(p);
  }

  /** Frames are a prefix code: whole frames come off exactly, whatever follows them. */
  lemma {:induction false} DeframeFrames(packets: seq<Packet>, rest: seq<byte>)
    requires Sendable(packets)
    ensures Deframe(Frames(packets) + rest) == (packets + Deframe(rest).0, Deframe(rest).1)
  {
    if packets == [] {
      assert Frames(packets) + rest == rest;
      assert [] + Deframe(rest).0 == Deframe(rest).0;
    } else {
      var p := packets[0];
      var tail := Frames(packets[1..]) + rest;
      ConcatAssociative(Frame(p), Frames(packets[1..]), rest);
      FrontFrame(p, tail);
      DeframeFrames(packets[1..], rest);
      ConcatAssociative([p], packets[1..], Deframe(rest).0);
      assert packets == [p] + packets[1..];
    }
  }

  lemma {:induction false} DeframeSplits(ps: seq<Packet>, tail: seq<byte>, more: seq<byte>, whole: seq<byte>)
    requires Sendable(ps) && whole == Frames(ps) + tail + more
    ensures Deframe(whole) == (ps + Deframe(tail + more).0, Deframe(tail + more).1)
  {
    ConcatAssociative(Frames(ps), tail, more);
    DeframeFrames(ps, tail + more);
  }

  /** Reading on never changes what was already cut off. */
  lemma {:induction false} DeframePrefix(s: seq<byte>, more: seq<byte>)
    ensures Deframe(s).0 <= Deframe(s + more).0
  {
    var (ps, tail) := Deframe(s);
    DeframeExact(s);
    DeframeSplits(ps, tail, more, s + more);
  }

  /** A deframing whose packets follow others. */
  function Behind(packets: seq<Packet>, r: (seq<Packet>, seq<byte>)): (seq<Packet>, seq<byte>) {
    (packets + r.0, r.1)
  }

  lemma DeframeEnds(packets: seq<Packet>, s: seq<byte>)
    requires !HasFrame(s)
    ensures Behind(packets, Deframe(s)) == (packets, s)
  {
    assert packets + [] == packets;
  }

  lemma {:induction false} DeframeSteps(packets: seq<Packet>, s: seq<byte>)
    requires HasFrame(s)
    ensures var n := GetBE16(s);
            Behind(packets, Deframe(s)) == Behind(packets + [s[2..n + 2]], Deframe(s[n + 2..]))
  {
    var n := GetBE16(s);
    ConcatAssociative(packets, [s[2..n + 2]], Deframe(s[n + 2..]).0);
  }

  // ------------------------------------------------------------------------ one end of a connection

  /** AssertFails: the packet passes the size check, but not the assertion on the buffer. */
  datatype SendResult = Accepted | Dropped | NoProgress | TooLong | AssertFails

  class AsyncTcpSocket {
    const inbuf: array<byte>
    const outbuf: array<byte>
    var inpos: nat
    var outpos: nat

    /** The kernel's side: all bytes given to it and taken from it. */
    var wire: seq<byte>
    var received: seq<byte>
    /** The packets behind those bytes. */
    ghost var accepted: seq<Packet>
    ghost var delivered: seq<Packet>

    /** Sending side: what is on the wire and what is pending are whole frames of accepted packets. */
    ghost predicate OutValid()
      reads this, outbuf
    {
      && outbuf.Length == BUF_SIZE && outpos <= BUF_SIZE
      && Sendable(accepted) && wire + outbuf[..outpos] == Frames(accepted)
    }

    /** Receiving side: everything received is delivered, up to a tail without a whole frame. */
    ghost predicate InValid()
      reads this, inbuf
    {
      && inbuf.Length == BUF_SIZE && inpos <= BUF_SIZE
      && Deframe(received) == (delivered, inbuf[..inpos])
    }

    ghost predicate Valid()
      reads this, inbuf, outbuf
    {
      inbuf != outbuf && OutValid() && InValid()
    }

    constructor ()
      ensures Valid() && fresh(inbuf) && fresh(outbuf)
      ensures wire == [] && accepted == [] && received == [] && delivered == []
    {
      inbuf := new byte[BUF_SIZE](_ => 0);
      outbuf := new byte[BUF_SIZE](_ => 0);
      inpos, outpos := 0, 0;
      wire, accepted, received, delivered := [], [], [], [];
    }

    /** The kernel takes up to `kernel` of the pending bytes; it takes none, or fails, if that is not positive. */
    method FlushOutBuffer(kernel: int) returns (res: int)
      requires outpos <= outbuf.Length
      modifies this`outpos, this`wire, outbuf
      ensures res == if kernel > old(outpos) then old(outpos) else kernel
      ensures res <= 0 ==> outpos == old(outpos) && wire == old(wire) && outbuf[..] == old(outbuf[..])
      ensures res > 0 ==> res <= old(outpos) && outpos == old(outpos) - res
      ensures outpos <= outbuf.Length && wire + outbuf[..outpos] == old(wire + outbuf[..outpos])
      ensures old(wire) <= wire
    {
      res := if kernel > outpos then outpos else kernel;
      if res <= 0 {
        return;
      }
      var pending := outbuf[..outpos];
      outpos := outpos - res;
      forall i | 0 <= i < outpos {
        outbuf[i] := outbuf[i + res];
      }
      assert outbuf[..outpos] == pending[res..];
      assert wire + pending[..res] + pending[res..] == wire + pending;
      wire := wire + pending[..res];
    }

    method AppendToOutBuffer(data: seq<byte>)
      requires outpos + |data| < outbuf.Length
      modifies this`outpos, outbuf
      ensures outpos == old(outpos) + |data| && outbuf[..outpos] == old(outbuf[..outpos]) + data
    {
      forall i | 0 <= i < |data| {
        outbuf[outpos + i] := data[i];
      }
      outpos := outpos + |data|;
    }

    /**
     * Sends a packet or drops it whole: it is accepted when the kernel took at least one byte of
     * its frame, and leaves no trace otherwise.
     */
    method Send(packet: Packet, kernel: int) returns (r: SendResult)
      requires OutValid()
      modifies this`outpos, this`wire, this`accepted, outbuf
      ensures OutValid() && old(wire) <= wire
      ensures r.TooLong? <==> |packet| > BUF_SIZE
      ensures r.Dropped? <==> |packet| <= BUF_SIZE && old(outpos) > 0
      ensures r.AssertFails? <==> 65536 <= |packet| <= BUF_SIZE && old(outpos) == 0
      ensures r.NoProgress? <==> |packet| < 65536 && old(outpos) == 0 && kernel <= 0
      ensures accepted == if r.Accepted? then old(accepted) + [packet] else old(accepted)
      ensures !r.Accepted? ==> wire == old(wire) && outpos == old(outpos)
      ensures r.Accepted? ==> |wire| == |old(wire)| + Min(kernel, |packet| + 2)
    {
      if |packet| > BUF_SIZE {
        return TooLong;
      }
      if outpos != 0 {
        return Dropped;
      }
      if PACKET_LEN_SIZE + |packet| >= outbuf.Length {
        return AssertFails;
      }
      assert wire == Frames(accepted) by {
        assert wire + outbuf[..0] == wire;
      }
      AppendToOutBuffer(Length(|packet|));
      AppendToOutBuffer(packet);
      assert outbuf[..outpos] == Frame(packet) by {
        assert outbuf[..0] + Length(|packet|) == Length(|packet|);
      }
      var res := FlushOutBuffer(kernel);
      if res <= 0 {
        outpos := 0;
        assert wire + outbuf[..0] == wire;
        return NoProgress;
      }
      FramesSnoc(accepted, packet);
      accepted := accepted + [packet];
      return Accepted;
    }

    /** `ready`: the socket reports that it can send again. */
    method OnWriteEvent(kernel: int) returns (ready: bool)
      requires OutValid()
      modifies this`outpos, this`wire, outbuf
      ensures OutValid() && old(wire) <= wire
      ensures ready <==> outpos == 0
      ensures outpos == old(outpos) - (if kernel <= 0 then 0 else Min(kernel, old(outpos)))
      ensures ready ==> wire == Frames(accepted)
    {
      if outpos > 0 {
        var _ := FlushOutBuffer(kernel);
      }
      ready := outpos == 0;
      assert ready ==> wire + outbuf[..outpos] == wire;
    }

    /** Delivers the packet of n bytes at the front and moves the rest down. */
    method CutFrame(n: nat)
      requires PACKET_LEN_SIZE + n <= inpos <= inbuf.Length
      modifies this`inpos, this`delivered, inbuf
      ensures inpos == old(inpos) - (PACKET_LEN_SIZE + n)
      ensures inbuf[..inpos] == old(inbuf[..inpos])[n + 2..]
      ensures delivered == old(delivered) + [old(inbuf[..inpos])[2..n + 2]]
    {
      delivered := delivered + [inbuf[..inpos][2..n + 2]];
      inpos := inpos - (PACKET_LEN_SIZE + n);
      forall i | 0 <= i < inpos {
        inbuf[i] := inbuf[i + PACKET_LEN_SIZE + n];
      }
    }

    /** Cuts every whole frame off the front of the buffer, moving the rest down each time. */
    method ProcessInput()
      requires inpos <= inbuf.Length
      modifies this`inpos, this`delivered, inbuf
      ensures inpos <= inbuf.Length && inpos < 65537 && !HasFrame(inbuf[..inpos])
      ensures Behind(old(delivered), Deframe(old(inbuf[..inpos]))) == (delivered, inbuf[..inpos])
    {
      ghost var goal := Behind(delivered, Deframe(inbuf[..inpos]));
      while true
        invariant inpos <= inbuf.Length && Behind(delivered, Deframe(inbuf[..inpos])) == goal
        decreases inpos
      {
        ghost var s, before := inbuf[..inpos], delivered;
        if inpos < PACKET_LEN_SIZE {
          DeframeEnds(delivered, s);
          return;
        }
        var n := GetBE16([inbuf[0], inbuf[1]]);
        assert n == GetBE16(s);
        if inpos < PACKET_LEN_SIZE + n {
          DeframeEnds(delivered, s);
          return;
        }
        CutFrame(n);
        DeframeSteps(before, s);
      }
    }

    /** Recv: `data` is appended to the buffered tail. */
    method TakeIn(data: seq<byte>)
      requires InValid() && inpos + |data| <= BUF_SIZE
      modifies this`inpos, this`received, inbuf
      ensures inpos <= BUF_SIZE && received == old(received) + data
      ensures Deframe(received) == Behind(delivered, Deframe(inbuf[..inpos]))
    {
      ghost var tail := inbuf[..inpos];
      forall i | 0 <= i < |data| {
        inbuf[inpos + i] := data[i];
      }
      inpos := inpos + |data|;
      assert inbuf[..inpos] == tail + data;
      DeframeExact(received);
      DeframeSplits(delivered, tail, data, received + data);
      received := received + data;
    }

    /**
     * The kernel, which holds `arrived`, returns up to `kernel` bytes of it that fit, or an error if
     * that is negative. There is always room, so the overflow branch is never taken.
     */
    method OnReadEvent(arrived: seq<byte>, kernel: int) returns (taken: nat)
      requires InValid()
      modifies this`inpos, this`received, this`delivered, inbuf
      ensures InValid() && inpos < 65537 < BUF_SIZE
      ensures old(inpos) < 65537
      ensures taken == if kernel < 0 then 0 else Min(Min(kernel, |arrived|), BUF_SIZE - old(inpos))
      ensures received == old(received) + arrived[..taken] && old(delivered) <= delivered
    {
      DeframeExact(received);
      assert inpos < BUF_SIZE;
      if kernel < 0 {
        assert received + arrived[..0] == received;
        return 0;
      }
      taken := Min(Min(kernel, |arrived|), BUF_SIZE - inpos);
      TakeIn(arrived[..taken]);
      ProcessInput();
      DeframeExact(received);
      if inpos >= BUF_SIZE {
        assert false;
      }
    }
  }

  // ------------------------------------------------------------------------ end to end

  /**
   * Whatever part of the sender's bytes has arrived, the packets delivered are a prefix of the
   * packets accepted: in order, unchanged and with their boundaries.
   */
  lemma {:induction false} DeliveredIsPrefixOfAccepted(
    accepted: seq<Packet>, pending: seq<byte>, wire: seq<byte>, received: seq<byte>)
    requires Sendable(accepted) && wire + pending == Frames(accepted) && received <= wire
    ensures Deframe(received).0 <= accepted
  {
    var later := wire[|received|..] + pending;
    assert received + later == Frames(accepted) + [];
    DeframePrefix(received, later);
    DeframeFrames(accepted, []);
    assert accepted + [] == accepted;
  }

  /** Once everything has been sent and has arrived, every accepted packet has been delivered. */
  lemma {:induction false} AllSentIsAllDelivered(accepted: seq<Packet>)
    requires Sendable(accepted)
    ensures Deframe(Frames(accepted)) == (accepted, [])
  {
    assert Frames(accepted) + [] == Frames(accepted);
    DeframeFrames(accepted, []);
    assert accepted + [] == accepted;
  }

  /** One event of a session, chosen by the application or the kernel. */
  method SessionStep(sender: AsyncTcpSocket, receiver: AsyncTcpSocket)
    requires sender.Valid() && receiver.Valid() && sender != receiver
    requires {sender.inbuf, sender.outbuf} !! {receiver.inbuf, receiver.outbuf}
    requires receiver.received <= sender.wire
    modifies sender, receiver, sender.outbuf, receiver.inbuf
    ensures sender.Valid() && receiver.Valid() && receiver.received <= sender.wire
  {
    var event: int, kernel: int := *, *;
    if event == 0 {
      var packet: Packet := *;
      var _ := sender.Send(packet, kernel);
    } else if event == 1 {
      var _ := sender.OnWriteEvent(kernel);
    } else {
      var _ := receiver.OnReadEvent(sender.wire[|receiver.received|..], kernel);
    }
  }

  /**
   * Any run of a sender and a receiver: `steps` events, each a Send, a write event at the sender, or
   * a read event at the receiver that is offered whatever has been written and not yet read.
   */
  method Session(sender: AsyncTcpSocket, receiver: AsyncTcpSocket, steps: nat)
    requires sender.Valid() && receiver.Valid() && sender != receiver
    requires {sender.inbuf, sender.outbuf} !! {receiver.inbuf, receiver.outbuf}
    requires receiver.received <= sender.wire
    modifies sender, receiver, sender.outbuf, receiver.inbuf
    ensures sender.Valid() && receiver.Valid() && receiver.received <= sender.wire
    ensures receiver.delivered <= sender.accepted
    ensures sender.outpos == 0 && receiver.received == sender.wire ==>
              receiver.delivered == sender.accepted && receiver.inpos == 0
  {
    for i := 0 to steps
      invariant sender.Valid() && receiver.Valid() && receiver.received <= sender.wire
    {
      SessionStep(sender, receiver);
    }
    DeliveredIsPrefixOfAccepted(
      sender.accepted, sender.outbuf[..sender.outpos], sender.wire, receiver.received);
    if sender.outpos == 0 {
      assert sender.wire + sender.outbuf[..0] == sender.wire;
      AllSentIsAllDelivered(sender.accepted);
    }
  }
}
