/** What is sent for each message that is received, octet by octet. */
module Answers {
  import opened Bytes
  import opened OpenFlow
  import opened Wrappers
  import C = ControllerSpec
  import F = Framing

  /** What send was given. */
  datatype Wire = Wire(sock: Sock, octets: seq<byte>)

  /** What the switch at sock is told. */
  datatype Sent = Sent(sock: Sock, msg: Message)

  function Tag(sock: Sock, ms: seq<Message>): seq<Sent> {
    seq(|ms|, i requires 0 <= i < |ms| => Sent(sock, ms[i]))
  }

  /** What was sent is the octets of the messages. */
  ghost predicate Says(sent: seq<Wire>, out: seq<Sent>) {
    |sent| == |out| && forall i :: 0 <= i < |sent| ==> sent[i] == Wire(out[i].sock, Encode(out[i].msg))
  }

  /** So that is what the switches read. */
  lemma SaysIsRead(sent: seq<Wire>, out: seq<Sent>)
    requires Says(sent, out)
    ensures |sent| == |out|
    ensures forall i :: 0 <= i < |sent| ==> sent[i].sock == out[i].sock && Decode(sent[i].octets) == Some(out[i].msg)
  {
    forall i | 0 <= i < |sent| ensures Decode(sent[i].octets) == Some(out[i].msg) {
      EncodeDecodes(out[i].msg);
    }
  }

  /** The messages for the switch at sock, as they are sent. */
  function Wires(sock: Sock, ms: seq<Message>): seq<Wire> {
    seq(|ms|, i requires 0 <= i < |ms| => Wire(sock, Encode(ms[i])))
  }

  lemma SaysMore(before: seq<Wire>, after: seq<Wire>, out: seq<Sent>, sock: Sock, ms: seq<Message>)
    requires Says(before, out) && Says(after, out + Tag(sock, ms))
    ensures after == before + Wires(sock, ms)
  {
    hide Encode;
    var more := out + Tag(sock, ms);
    forall i | 0 <= i < |after| ensures after[i] == (before + Wires(sock, ms))[i] {
      assert more[i] == if i < |out| then out[i] else Tag(sock, ms)[i - |out|];
    }
  }

  // ------------------------------------------------------------------ what is sent for a message, octet by octet

  /** A hello is answered by a hello and a features request. */
  lemma HelloAnswer(c: C.CState, sock: Sock, m: seq<byte>)
    requires F.Sound(m) && m[1] == 0
    ensures var (c', ms) := C.Step(c, sock, F.EventOf(m));
            && c' == c.(xid := (c.xid + 2) % 0x1_0000_0000)
            && Wires(sock, ms) == [Wire(sock, [1, 0, 0, 8] + Be32(c.xid)),
                                   Wire(sock, [1, 5, 0, 8] + Be32((c.xid + 1) % 0x1_0000_0000))]
  {
    var next := C.NextXid(c.xid);
    ThreeIds(c.xid);
    assert Encode(Hello(c.xid)) == Header(0, 8, c.xid) && Encode(FeaturesRequest(next)) == Header(5, 8, next);
    hide Header, Encode, Be32, Wires, C.NextXid;
    HeaderIs(0, c.xid);
    HeaderIs(5, next);
    TwoWires(sock, Hello(c.xid), FeaturesRequest(next));
  }

  lemma HeaderIs(type_: byte, xid: uint32)
    ensures Header(type_, 8, xid) == [1, type_, 0, 8] + Be32(xid)
  {
    assert Be16(8) == [0, 8];
  }

  lemma OneWire(sock: Sock, m: Message)
    ensures Wires(sock, [m]) == [Wire(sock, Encode(m))]
  {
  }

  lemma TwoWires(sock: Sock, m: Message, n: Message)
    ensures Wires(sock, [m, n]) == [Wire(sock, Encode(m)), Wire(sock, Encode(n))]
  {
  }

  /** A features reply by a configuration, with no flags and 128 octets of each missed frame, and a barrier request. */
  lemma FeaturesAnswer(c: C.CState, sock: Sock, m: seq<byte>)
    requires F.Sound(m) && m[1] == 6
    ensures var (c', ms) := C.Step(c, sock, F.EventOf(m));
            && c' == c.(xid := (c.xid + 2) % 0x1_0000_0000)
            && Wires(sock, ms) == [Wire(sock, [1, 9, 0, 12] + Be32(c.xid) + [0, 0, 0, 0x80]),
                                   Wire(sock, [1, 18, 0, 8] + Be32((c.xid + 1) % 0x1_0000_0000))]
  {
    var next, config := C.NextXid(c.xid), OpenFlow.SetConfig(c.xid, 0, 0x80);
    ThreeIds(c.xid);
    assert Encode(config) == Header(9, 12, c.xid) + Be16(0) + Be16(0x80);
    assert Encode(BarrierRequest(next)) == Header(18, 8, next);
    hide Header, Encode, Be16, Be32, Wires, C.NextXid;
    SetConfigIs(c.xid);
    HeaderIs(18, next);
    TwoWires(sock, config, BarrierRequest(next));
  }

  lemma SetConfigIs(xid: uint32)
    ensures Header(9, 12, xid) + Be16(0) + Be16(0x80) == [1, 9, 0, 12] + Be32(xid) + [0, 0, 0, 0x80]
  {
    assert Be16(12) == [0, 12] && Be16(0) == [0, 0] && Be16(0x80) == [0, 0x80];
    hide Be16, Be32;
  }

  /** An echo request by an echo reply with the same id. */
  lemma EchoAnswer(c: C.CState, sock: Sock, m: seq<byte>)
    requires F.Sound(m) && m[1] == 2
    ensures C.Step(c, sock, F.EventOf(m)).0 == c
    ensures Wires(sock, C.Step(c, sock, F.EventOf(m)).1) == [Wire(sock, [1, 3, 0, 8] + m[4..8])]
  {
    Be32OfU32(m, 4);
    HeaderIs(3, U32At(m, 4));
    hide Header, Be32, U32At;
    OneWire(sock, EchoReply(U32At(m, 4)));
  }

  /** Messages of other types, and packet-ins whose reason is 0, are not answered. */
  lemma NoAnswer(c: C.CState, sock: Sock, m: seq<byte>)
    requires F.Sound(m) && (m[1] !in {0, 2, 6, 10} || (m[1] == 10 && m[16] == 0))
    ensures C.Step(c, sock, F.EventOf(m)) == (c, []) && Wires(sock, []) == []
  {
  }

  /** The globals after learning from a packet-in: the first port for a sender stays. */
  function Learned(c: C.CState, sock: Sock, m: seq<byte>): C.CState
    requires |m| >= 30
  {
    if (sock, m[24..30]) in c.ll then c else c.(ll := c.ll[(sock, m[24..30]) := U16At(m, 14)])
  }

  /** A packet-in, not for want of a flow, whose frame is neither an ARP reply (type 0x0806, opcode 2) nor addressed to
      its sender. */
  predicate IsOrdinary(m: seq<byte>) {
    && |m| >= 32 && 18 + U16At(m, 12) <= |m| && m[1] == 10 && m[16] != 0 && m[18..24] != m[24..30]
    && !(FieldIs(m, 30, [8, 6]) && FieldIs(m, 38, [0, 2]))
  }

  /** The packet-out that floods the frame of a packet-in. */
  function FloodOctets(xid: uint32, m: seq<byte>): seq<byte>
    requires |m| >= 18 && 18 + U16At(m, 12) <= |m| && U16At(m, 12) + 24 < 0x1_0000
  {
    [1, 13] + Be16(24 + U16At(m, 12)) + Be32(xid) + [0xff, 0xff, 0xff, 0xff] + m[14..16] + [0, 8] +
    [0, 0, 0, 8] + [0xff, 0xfb] + [0, 0] + m[18..18 + U16At(m, 12)]
  }

  /** A frame that is neither an ARP reply nor addressed to its sender goes back in a packet-out to port 0xfffb, that is
      OFPP_FLOOD, as received on the port it came in on. */
  lemma FloodAnswer(c: C.CState, sock: Sock, m: seq<byte>)
    requires F.Sound(m) && IsOrdinary(m)
    ensures var (c', ms) := C.Step(c, sock, F.EventOf(m));
            && c' == Learned(c, sock, m).(xid := (c.xid + 1) % 0x1_0000_0000)
            && Wires(sock, ms) == [Wire(sock, FloodOctets(c.xid, m))]
            && FloodOctets(c.xid, m) ==
               [1, 13] + Be16(24 + U16At(m, 12)) + Be32(c.xid) + [0xff, 0xff, 0xff, 0xff] + m[14..16] + [0, 8] +
               [0, 0, 0, 8] + [0xff, 0xfb] + [0, 0] + m[18..18 + U16At(m, 12)]
  {
    var frame: Frame := m[18..18 + U16At(m, 12)];
    FrameOctets(m, frame);
    SendFrameOctets(c.xid, U16At(m, 14), OFPP_FLOOD, frame);
    Be16OfU16(m, 14);
    assert Be16(OFPP_FLOOD) == [0xff, 0xfb];
    hide IsArpReply, IsLoopback, Src, Dst, Encode, Be16, Be32;
    OneWire(sock, SendFrame(c.xid, U16At(m, 14), OFPP_FLOOD, frame));
  }

  /** All of this together. */
  lemma AllAnswers(c: C.CState, sock: Sock, m: seq<byte>)
    requires F.Sound(m)
    ensures var (c', ms) := C.Step(c, sock, F.EventOf(m));
            var wires, next := Wires(sock, ms), (c.xid + 1) % 0x1_0000_0000;
            && (m[1] == 0 ==> wires == [Wire(sock, [1, 0, 0, 8] + Be32(c.xid)), Wire(sock, [1, 5, 0, 8] + Be32(next))])
            && (m[1] == 6 ==> wires == [Wire(sock, [1, 9, 0, 12] + Be32(c.xid) + [0, 0, 0, 0x80]),
                                        Wire(sock, [1, 18, 0, 8] + Be32(next))])
            && (IsOrdinary(m) ==> c'.ll == Learned(c, sock, m).ll && wires == [Wire(sock, FloodOctets(c.xid, m))])
  {
    hide Wires, C.Step, F.EventOf;
    if m[1] == 0 {
      HelloAnswer(c, sock, m);
    } else if m[1] == 6 {
      FeaturesAnswer(c, sock, m);
    } else if IsOrdinary(m) {
      FloodAnswer(c, sock, m);
    }
  }

  /** A frame addressed to its own sender, which is not an ARP reply, is answered by one flow for the pair, output to the
      port it came in on. The counter stays. */
  lemma LoopAnswer(c: C.CState, sock: Sock, m: seq<byte>)
    requires F.Sound(m) && m[1] == 10 && m[16] != 0
    requires !(FieldIs(m, 30, [8, 6]) && FieldIs(m, 38, [0, 2])) && m[18..24] == m[24..30]
    ensures var (c', ms) := C.Step(c, sock, F.EventOf(m));
            var c1, key := Learned(c, sock, m), C.FlowKey(m[18..24], m[24..30]);
            && c' == c1.(flows := if (sock, key) in c1.flows then c1.flows else c1.flows[(sock, key) := U16At(m, 14)])
            && Wires(sock, ms) ==
               [Wire(sock, [1, 14, 0, 80] + Be32(c.xid) + [0, 0x10, 0, 0x13, 0, 0] + m[18..24] + m[24..30] + Zeros(36) +
                           [0x80, 0, 0xff, 0xff, 0xff, 0xff, 0xff, 0xff, 0, 0, 0, 0, 0, 8] + m[14..16] + [0, 0])]
  {
    FrameOctets(m, m[18..18 + U16At(m, 12)]);
    AddFlowOctets(c.xid, m[18..24], m[24..30], U16At(m, 14));
    Be16OfU16(m, 14);
    hide IsArpReply, IsLoopback, Src, Dst, Encode, Be16, Be32;
    OneWire(sock, AddFlow(c.xid, m[18..24], m[24..30], U16At(m, 14)));
  }

  /** An ARP reply is answered by two flows, the one back to its sender through the port it came in on, the other to its
      target through the port learned for that, or 0, and handed back in a packet-out to port 0xfff9, that is
      OFPP_TABLE. */
  lemma ReplyAnswer(c: C.CState, sock: Sock, m: seq<byte>)
    requires F.Sound(m) && m[1] == 10 && m[16] != 0 && FieldIs(m, 30, [8, 6]) && FieldIs(m, 38, [0, 2])
    ensures var (c', ms) := C.Step(c, sock, F.EventOf(m));
            var c1, len := Learned(c, sock, m), U16At(m, 12);
            var dst: Mac, src: Mac := m[18..24], m[24..30];
            var port := if (sock, dst) in c1.ll then c1.ll[(sock, dst)] else 0;
            && c' == c1.(xid := (c.xid + 3) % 0x1_0000_0000,
                         flows := C.FirstWins(C.FirstWins(c1.flows, (sock, C.FlowKey(dst, src)), U16At(m, 14)),
                                              (sock, C.FlowKey(src, dst)), port))
            && Wires(sock, ms) ==
               [Wire(sock, [1, 14, 0, 80] + Be32(c.xid) + [0, 0x10, 0, 0x13, 0, 0] + dst + src + Zeros(36) +
                           [0x80, 0, 0xff, 0xff, 0xff, 0xff, 0xff, 0xff, 0, 0, 0, 0, 0, 8] + m[14..16] + [0, 0]),
                Wire(sock, [1, 14, 0, 80] + Be32((c.xid + 1) % 0x1_0000_0000) + [0, 0x10, 0, 0x13, 0, 0] + src + dst +
                           Zeros(36) + [0x80, 0, 0xff, 0xff, 0xff, 0xff, 0xff, 0xff, 0, 0, 0, 0, 0, 8] + Be16(port) +
                           [0, 0]),
                Wire(sock, [1, 13] + Be16(24 + len) + Be32((c.xid + 2) % 0x1_0000_0000) + [0xff, 0xff, 0xff, 0xff] +
                           m[14..16] + [0, 8] + [0, 0, 0, 8] + [0xff, 0xf9] + [0, 0] + m[18..18 + len])]
  {
    var frame: Frame := m[18..18 + U16At(m, 12)];
    var x1, x2 := (c.xid + 1) % 0x1_0000_0000, (c.xid + 2) % 0x1_0000_0000;
    var c1, dst: Mac, src: Mac := Learned(c, sock, m), m[18..24], m[24..30];
    var port := if (sock, dst) in c1.ll then c1.ll[(sock, dst)] else 0;
    FrameOctets(m, frame);
    ThreeMessages(c, c1, sock, m, frame, port, x1, x2);
    hide *;
    AddFlowOctets(c.xid, dst, src, U16At(m, 14));
    AddFlowOctets(x1, src, dst, port);
    TableOctets(x2, m, frame);
    Be16OfU16(m, 14);
    ThreeWires(sock, AddFlow(c.xid, dst, src, U16At(m, 14)), AddFlow(x1, src, dst, port),
               SendFrame(x2, U16At(m, 14), OFPP_TABLE, frame));
  }

  lemma TableOctets(xid: uint32, m: seq<byte>, frame: Frame)
    requires |m| >= 18
    ensures Encode(SendFrame(xid, U16At(m, 14), OFPP_TABLE, frame)) ==
            [1, 13] + Be16(24 + |frame|) + Be32(xid) + [0xff, 0xff, 0xff, 0xff] + m[14..16] + [0, 8] +
            [0, 0, 0, 8] + [0xff, 0xf9] + [0, 0] + frame
  {
    SendFrameOctets(xid, U16At(m, 14), OFPP_TABLE, frame);
    Be16OfU16(m, 14);
    assert Be16(OFPP_TABLE) == [0xff, 0xf9];
    hide Encode, Be16, Be32;
  }

  lemma ThreeWires(sock: Sock, m: Message, n: Message, o: Message)
    ensures Wires(sock, [m, n, o]) == [Wire(sock, Encode(m)), Wire(sock, Encode(n)), Wire(sock, Encode(o))]
  {
  }

  lemma ThreeMessages(c: C.CState, c1: C.CState, sock: Sock, m: seq<byte>, frame: Frame, port: uint16, x1: uint32,
                      x2: uint32)
    requires F.Sound(m) && m[1] == 10 && m[16] != 0 && frame == m[18..18 + U16At(m, 12)] && IsArpReply(frame)
    requires |m| >= 30 && Src(frame) == m[24..30] && Dst(frame) == m[18..24] && c1 == Learned(c, sock, m)
    requires port == if (sock, Dst(frame)) in c1.ll then c1.ll[(sock, Dst(frame))] else 0
    requires x1 == (c.xid + 1) % 0x1_0000_0000 && x2 == (c.xid + 2) % 0x1_0000_0000
    ensures C.Step(c, sock, F.EventOf(m)) ==
            (c1.(xid := (c.xid + 3) % 0x1_0000_0000,
                 flows := C.FirstWins(C.FirstWins(c1.flows, (sock, C.FlowKey(Dst(frame), Src(frame))), U16At(m, 14)),
                                      (sock, C.FlowKey(Src(frame), Dst(frame))), port)),
             [AddFlow(c.xid, Dst(frame), Src(frame), U16At(m, 14)), AddFlow(x1, Src(frame), Dst(frame), port),
              SendFrame(x2, U16At(m, 14), OFPP_TABLE, frame)])
  {
    ThreeIds(c.xid);
    hide IsArpReply, IsLoopback, Src, Dst, AddFlow, SendFrame, C.NextXid;
    var inPort := U16At(m, 14);
    assert C.LearnFrom(c, sock, inPort, frame) == c1;
    assert C.FindPort(c1, sock, Dst(frame)) == port;
    var (e, mods) := C.EstablishFlows(c1, sock, inPort, frame);
    assert mods == [AddFlow(c.xid, Dst(frame), Src(frame), inPort), AddFlow(x1, Src(frame), Dst(frame), port)];
    var back := SendFrame(x2, inPort, OFPP_TABLE, frame);
    assert C.MakeSendPacketOut(e, inPort, OFPP_TABLE, frame) == (e.(xid := C.NextXid(e.xid)), [back]);
    assert mods + [back] == [mods[0], mods[1], back];
    assert C.Step(c, sock, F.EventOf(m)) == C.HandlePacketIn(c, sock, inPort, frame);
  }

  lemma ThreeIds(x: uint32)
    ensures C.NextXid(x) == (x + 1) % 0x1_0000_0000 && C.NextXid(C.NextXid(x)) == (x + 2) % 0x1_0000_0000
    ensures C.NextXid(C.NextXid(C.NextXid(x))) == (x + 3) % 0x1_0000_0000
  {
  }

  /** Where the fields of the frame lie in a packet-in, and what makes it an ARP reply: type 0x0806 and opcode 2. */
  lemma FrameOctets(m: seq<byte>, frame: Frame)
    requires |m| >= 18 && 18 + U16At(m, 12) <= |m| && m[18..18 + U16At(m, 12)] == frame
    ensures |m| >= 32 && Src(frame) == m[24..30] && Dst(frame) == m[18..24]
    ensures IsArpReply(frame) <==> FieldIs(m, 30, [8, 6]) && FieldIs(m, 38, [0, 2])
    ensures IsLoopback(frame) <==> m[18..24] == m[24..30]
  {
    assert |frame| >= 14 && |m| >= 18 + |frame|;
    forall k | 0 <= k < |frame| ensures frame[k] == m[18 + k] {
    }
    assert frame[6..12] == m[24..30];
    assert frame[0..6] == m[18..24];
    assert U16At(frame, 12) == 0x0806 <==> m[30..32] == [8, 6];
    if m[30..32] == [8, 6] {
      assert |frame| >= 22 && frame[20] == m[38] && frame[21] == m[39];
      assert m[38..40] == [m[38], m[39]];
    }
  }
}
