/**
 OpenFlow 1.0 messages: the constants the controller uses, a decoder that follows the
 struct layouts of the protocol, and the octet buffers the controller fills in.
 */
module OpenFlow {
  import opened Bytes
  import opened Wrappers

  const OFP_HDR_LEN: nat := 8
  const OFP_FLOWMOD_LEN: nat := 80
  const PKT_OUT_HDR_LEN: nat := 24

  const OFPP_TABLE: uint16 := 0xfff9
  const OFPP_FLOOD: uint16 := 0xfffb

  const OFPFC_ADD: uint16 := 0

  /** The socket of a switch's connection, which also serves as the name of the switch. */
  type Sock = int

  type Mac = m: seq<byte> | |m| == 6 witness [0, 0, 0, 0, 0, 0]

  // ------------------------------------------------------------------ Ethernet frames

  predicate IsArp(frame: seq<byte>)
    requires |frame| >= 14
  {
    U16At(frame, 12) == 0x0806
  }

  /** Long enough for every field the controller looks at: the two addresses and the type,
      and for an ARP frame its opcode. */
  predicate Classifiable(frame: seq<byte>) {
    |frame| >= 14 && (IsArp(frame) ==> |frame| >= 22)
  }

  /** A frame the controller can classify and put into one packet-out. */
  predicate IsFrame(f: seq<byte>) {
    Classifiable(f) && PKT_OUT_HDR_LEN + |f| < 0x1_0000
  }

  type Frame = f: seq<byte> | IsFrame(f) witness seq(14, _ => 0)

  function Dst(frame: Frame): Mac { frame[0..6] }

  function Src(frame: Frame): Mac { frame[6..12] }

  predicate IsArpReply(frame: Frame) {
    IsArp(frame) && U16At(frame, 20) == 2
  }

  predicate IsLoopback(frame: Frame) {
    Dst(frame) == Src(frame)
  }

  /** An ARP reply is a frame of type 0x0806 whose opcode is 2; an ARP request, whose opcode is 1, is none. */
  lemma ArpOctets(frame: Frame)
    ensures frame[12..14] == [8, 6] ==> |frame| >= 22
    ensures IsArpReply(frame) <==> frame[12..14] == [8, 6] && |frame| >= 22 && frame[20..22] == [0, 2]
    ensures Dst(frame) == frame[0..6] && Src(frame) == frame[6..12]
    ensures IsLoopback(frame) <==> frame[0..6] == frame[6..12]
  {
    assert frame[12..14] == [frame[12], frame[13]];
    if |frame| >= 22 {
      assert frame[20..22] == [frame[20], frame[21]];
    }
  }

  // ------------------------------------------------------------------ messages to a switch

  datatype Match = Match(
    wildcards: uint32, inPort: uint16, dlSrc: Mac, dlDst: Mac, dlVlan: uint16, dlVlanPcp: byte, dlType: uint16,
    nwTos: byte, nwProto: byte, nwSrc: uint32, nwDst: uint32, tpSrc: uint16, tpDst: uint16)

  datatype Output = Output(port: uint16, maxLen: uint16)

  datatype Message =
    | Hello(xid: uint32)
    | FeaturesRequest(xid: uint32)
    | SetConfig(xid: uint32, flags: uint16, missSendLen: uint16)
    | BarrierRequest(xid: uint32)
    | EchoReply(xid: uint32)
    | FlowMod(xid: uint32, pattern: Match, cookieHi: uint32, cookieLo: uint32, command: uint16,
              idleTimeout: uint16, hardTimeout: uint16, priority: uint16, bufferId: uint32, outPort: uint16,
              modFlags: uint16, action: Output)
    | PacketOut(xid: uint32, bufferId: uint32, inPort: uint16, action: Output, frame: Frame)

  /** The match a flow for traffic from src to dst carries: 0x00100013 in the wildcard word, both
      addresses, and zero everywhere else. */
  function PairMatch(src: Mac, dst: Mac): Match {
    Match(0x0010_0013, 0, src, dst, 0, 0, 0, 0, 0, 0, 0, 0, 0)
  }

  /** A permanent flow "from src to dst, output to port", added with the default priority. */
  function AddFlow(xid: uint32, src: Mac, dst: Mac, port: uint16): Message {
    FlowMod(xid, PairMatch(src, dst), 0, 0, OFPFC_ADD, 0, 0, 0x8000, 0xffff_ffff, 0xffff, 0, Output(port, 0))
  }

  /** An unbuffered frame to be sent out of the given port, as if received on inPort. */
  function SendFrame(xid: uint32, inPort: uint16, port: uint16, frame: Frame): Message {
    PacketOut(xid, 0xffff_ffff, inPort, Output(port, 0), frame)
  }

  // ------------------------------------------------------------------ decoding

  function MatchAt(b: seq<byte>, i: nat): Match
    requires i + 40 <= |b|
  {
    Match(U32At(b, i), U16At(b, i + 4), b[i + 6..i + 12], b[i + 12..i + 18], U16At(b, i + 18), b[i + 20],
          U16At(b, i + 22), b[i + 24], b[i + 25], U32At(b, i + 28), U32At(b, i + 32), U16At(b, i + 36), U16At(b, i + 38))
  }

  /** A single action of type OFPAT_OUTPUT and length 8 at offset i. */
  function OutputAt(b: seq<byte>, i: nat): Option<Output>
    requires i + 8 <= |b|
  {
    if U16At(b, i) == 0 && U16At(b, i + 2) == 8 then Some(Output(U16At(b, i + 4), U16At(b, i + 6))) else None
  }

  /** The message a switch reads from b: version 1, a length field that equals the number of octets,
      and the body laid out as the struct of the message type says. */
  function Decode(b: seq<byte>): Option<Message> {
    if |b| < OFP_HDR_LEN || b[0] != 1 || U16At(b, 2) != |b| then
      None
    else
      var xid := U32At(b, 4);
      match b[1]
      case 0 => if |b| == 8 then Some(Hello(xid)) else None
      case 3 => if |b| == 8 then Some(EchoReply(xid)) else None
      case 5 => if |b| == 8 then Some(FeaturesRequest(xid)) else None
      case 9 => if |b| == 12 then Some(SetConfig(xid, U16At(b, 8), U16At(b, 10))) else None
      case 13 =>
        if |b| < 24 || U16At(b, 14) != 8 || OutputAt(b, 16).None? || !IsFrame(b[24..]) then
          None
        else
          Some(PacketOut(xid, U32At(b, 8), U16At(b, 12), OutputAt(b, 16).value, b[24..]))
      case 14 =>
        if |b| != 80 || OutputAt(b, 72).None? then
          None
        else
          Some(FlowMod(xid, MatchAt(b, 8), U32At(b, 48), U32At(b, 52), U16At(b, 56), U16At(b, 58), U16At(b, 60),
                       U16At(b, 62), U32At(b, 64), U16At(b, 68), U16At(b, 70), OutputAt(b, 72).value))
      case 18 => if |b| == 8 then Some(BarrierRequest(xid)) else None
      case _ => None
  }

  // ------------------------------------------------------------------ encoding

  function Header(type_: byte, length: uint16, xid: uint32): (h: seq<byte>)
    ensures |h| == OFP_HDR_LEN
  {
    [1, type_] + Be16(length) + Be32(xid)
  }

  function MatchOctets(m: Match): (b: seq<byte>)
    ensures |b| == 40
  {
    Be32(m.wildcards) + Be16(m.inPort) + m.dlSrc + m.dlDst + Be16(m.dlVlan) + [m.dlVlanPcp, 0] + Be16(m.dlType) +
    [m.nwTos, m.nwProto, 0, 0] + Be32(m.nwSrc) + Be32(m.nwDst) + Be16(m.tpSrc) + Be16(m.tpDst)
  }

  function OutputOctets(action: Output): (b: seq<byte>)
    ensures |b| == 8
  {
    [0, 0, 0, 8] + Be16(action.port) + Be16(action.maxLen)
  }

  /** The octets of a message. */
  function Encode(m: Message): seq<byte> {
    match m
    case Hello(xid) => Header(0, 8, xid)
    case FeaturesRequest(xid) => Header(5, 8, xid)
    case SetConfig(xid, flags, missSendLen) => Header(9, 12, xid) + Be16(flags) + Be16(missSendLen)
    case BarrierRequest(xid) => Header(18, 8, xid)
    case EchoReply(xid) => Header(3, 8, xid)
    case PacketOut(xid, bufferId, inPort, action, frame) =>
      Header(13, PKT_OUT_HDR_LEN + |frame|, xid) + Be32(bufferId) + Be16(inPort) + Be16(8) + OutputOctets(action) + frame
    case FlowMod(xid, pattern, cookieHi, cookieLo, command, idle, hard, priority, bufferId, outPort, modFlags, action) =>
      Header(14, 80, xid) + MatchOctets(pattern) + FlowModFields(m) + OutputOctets(action)
  }

  /** What lies between the match and the action of a flow-mod. */
  function FlowModFields(m: Message): (b: seq<byte>)
    requires m.FlowMod?
    ensures |b| == 24
  {
    (Be32(m.cookieHi) + Be32(m.cookieLo) + Be16(m.command) + Be16(m.idleTimeout) + Be16(m.hardTimeout)) +
    (Be16(m.priority) + Be32(m.bufferId) + Be16(m.outPort) + Be16(m.modFlags))
  }

  /** A field of an inner part is the same field of the whole. */
  lemma FieldsOfPart(before: seq<byte>, part: seq<byte>, after: seq<byte>)
    ensures var b, n := before + part + after, |before|;
            && (forall i :: 0 <= i < |part| ==> b[n + i] == part[i])
            && (forall i :: 0 <= i && i + 2 <= |part| ==> U16At(b, n + i) == U16At(part, i))
            && (forall i :: 0 <= i && i + 4 <= |part| ==> U32At(b, n + i) == U32At(part, i))
  {
  }

  lemma MatchReadsBack(m: Match)
    ensures MatchAt(MatchOctets(m), 0) == m
  {
    var b := MatchOctets(m);
    assert b[0..4] == Be32(m.wildcards) && b[4..6] == Be16(m.inPort) && b[6..12] == m.dlSrc && b[12..18] == m.dlDst;
    assert b[18..20] == Be16(m.dlVlan) && b[20] == m.dlVlanPcp && b[22..24] == Be16(m.dlType);
    assert b[24] == m.nwTos && b[25] == m.nwProto && b[28..32] == Be32(m.nwSrc) && b[32..36] == Be32(m.nwDst);
    assert b[36..38] == Be16(m.tpSrc) && b[38..40] == Be16(m.tpDst);
  }

  lemma MatchOfPart(before: seq<byte>, m: Match, after: seq<byte>)
    ensures MatchAt(before + MatchOctets(m) + after, |before|) == m
  {
    var part := MatchOctets(m);
    var b, n := before + part + after, |before|;
    FieldsOfPart(before, part, after);
    MatchReadsBack(m);
    assert b[n + 6..n + 12] == part[6..12] && b[n + 12..n + 18] == part[12..18];
    hide MatchOctets, U16At, U32At;
  }

  lemma OutputOfPart(before: seq<byte>, action: Output, after: seq<byte>)
    ensures OutputAt(before + OutputOctets(action) + after, |before|) == Some(action)
  {
    var part := OutputOctets(action);
    FieldsOfPart(before, part, after);
    assert part[4..6] == Be16(action.port) && part[6..8] == Be16(action.maxLen);
  }

  lemma HeaderReadsBack(type_: byte, length: uint16, xid: uint32, after: seq<byte>)
    ensures var b := Header(type_, length, xid) + after;
            b[0] == 1 && b[1] == type_ && U16At(b, 2) == length && U32At(b, 4) == xid
  {
    var h := Header(type_, length, xid);
    assert h[2..4] == Be16(length) && h[4..8] == Be32(xid);
  }

  lemma FieldsReadBack(before: seq<byte>, m: Message, after: seq<byte>)
    requires m.FlowMod?
    ensures var b, n := before + FlowModFields(m) + after, |before|;
            && U32At(b, n) == m.cookieHi && U32At(b, n + 4) == m.cookieLo && U16At(b, n + 8) == m.command
            && U16At(b, n + 10) == m.idleTimeout && U16At(b, n + 12) == m.hardTimeout && U16At(b, n + 14) == m.priority
            && U32At(b, n + 16) == m.bufferId && U16At(b, n + 20) == m.outPort && U16At(b, n + 22) == m.modFlags
  {
    var a := Be32(m.cookieHi) + Be32(m.cookieLo) + Be16(m.command) + Be16(m.idleTimeout) + Be16(m.hardTimeout);
    var b := Be16(m.priority) + Be32(m.bufferId) + Be16(m.outPort) + Be16(m.modFlags);
    assert a[0..4] == Be32(m.cookieHi) && a[4..8] == Be32(m.cookieLo) && a[8..10] == Be16(m.command);
    assert a[10..12] == Be16(m.idleTimeout) && a[12..14] == Be16(m.hardTimeout);
    assert b[0..2] == Be16(m.priority) && b[2..6] == Be32(m.bufferId) && b[6..8] == Be16(m.outPort);
    assert b[8..10] == Be16(m.modFlags);
    var whole := before + FlowModFields(m) + after;
    assert whole == before + a + (b + after) && whole == (before + a) + b + after;
    FieldsOfPart(before, a, b + after);
    FieldsOfPart(before + a, b, after);
    hide FlowModFields;
  }

  lemma FlowModHeader(m: Message)
    requires m.FlowMod?
    ensures var b := Encode(m);
            |b| == 80 && b[0] == 1 && b[1] == 14 && U16At(b, 2) == 80 && U32At(b, 4) == m.xid
    ensures MatchAt(Encode(m), 8) == m.pattern
  {
    var h, mo, ff, oo := Header(14, 80, m.xid), MatchOctets(m.pattern), FlowModFields(m), OutputOctets(m.action);
    hide Header, MatchOctets, FlowModFields, OutputOctets, MatchAt, U16At, U32At;
    assert Encode(m) == h + mo + (ff + oo) && Encode(m) == h + (mo + ff + oo);
    hide Encode;
    HeaderReadsBack(14, 80, m.xid, mo + ff + oo);
    MatchOfPart(h, m.pattern, ff + oo);
  }

  lemma FlowModReadsBack(m: Message)
    requires m.FlowMod?
    ensures Decode(Encode(m)) == Some(m)
  {
    var hm, ff, oo := Header(14, 80, m.xid) + MatchOctets(m.pattern), FlowModFields(m), OutputOctets(m.action);
    FlowModHeader(m);
    hide Header, MatchOctets, FlowModFields, OutputOctets, MatchAt, OutputAt, U16At, U32At;
    assert Encode(m) == hm + ff + oo && Encode(m) == (hm + ff) + oo + [];
    hide Encode;
    FieldsReadBack(hm, m, oo);
    OutputOfPart(hm + ff, m.action, []);
    DecodesFrom(Encode(m), m);
  }

  lemma DecodesFrom(b: seq<byte>, m: Message)
    requires m.FlowMod? && |b| == 80 && b[0] == 1 && b[1] == 14 && U16At(b, 2) == 80 && U32At(b, 4) == m.xid
    requires MatchAt(b, 8) == m.pattern && OutputAt(b, 72) == Some(m.action)
    requires U32At(b, 48) == m.cookieHi && U32At(b, 52) == m.cookieLo && U16At(b, 56) == m.command
    requires U16At(b, 58) == m.idleTimeout && U16At(b, 60) == m.hardTimeout && U16At(b, 62) == m.priority
    requires U32At(b, 64) == m.bufferId && U16At(b, 68) == m.outPort && U16At(b, 70) == m.modFlags
    ensures Decode(b) == Some(m)
  {
    hide MatchAt, OutputAt, U16At, U32At;
  }

  lemma PacketOutReadsBack(m: Message)
    requires m.PacketOut?
    ensures Decode(Encode(m)) == Some(m)
  {
    var n := PKT_OUT_HDR_LEN + |m.frame|;
    var h, oo := Header(13, n, m.xid), OutputOctets(m.action);
    var mid := Be32(m.bufferId) + Be16(m.inPort) + Be16(8);
    var b := Encode(m);
    assert b == h + (mid + oo + m.frame) && b == h + mid + (oo + m.frame) && b == (h + mid) + oo + m.frame;
    HeaderReadsBack(13, n, m.xid, mid + oo + m.frame);
    FieldsOfPart(h, mid, oo + m.frame);
    assert mid[0..4] == Be32(m.bufferId) && mid[4..6] == Be16(m.inPort) && mid[6..8] == Be16(8);
    assert U32At(mid, 0) == m.bufferId && U16At(mid, 4) == m.inPort && U16At(mid, 6) == 8;
    OutputOfPart(h + mid, m.action, m.frame);
    assert b[24..] == m.frame;
    hide Header, OutputOctets, OutputAt, U16At, U32At, Encode;
  }

  /** What a switch decodes from the octets of a message is that message. */
  lemma EncodeDecodes(m: Message)
    ensures Decode(Encode(m)) == Some(m)
  {
    match m
    case FlowMod(_, _, _, _, _, _, _, _, _, _, _, _) => FlowModReadsBack(m);
    case PacketOut(_, _, _, _, _) => PacketOutReadsBack(m);
    case SetConfig(xid, flags, missSendLen) =>
      var b := Encode(m);
      HeaderReadsBack(9, 12, xid, Be16(flags) + Be16(missSendLen));
      assert b == Header(9, 12, xid) + (Be16(flags) + Be16(missSendLen));
      assert b[8..10] == Be16(flags) && b[10..12] == Be16(missSendLen);
    case _ =>
      var b := Encode(m);
      HeaderReadsBack(b[1], 8, m.xid, []);
      assert b == b + [];
  }

  // ------------------------------------------------------------------ the buffers the controller fills in

  /** raw_flowmod with its fixed fields, a zeroed match, and an action whose port is still zero. */
  function FlowModTemplate(xid: uint32): (b: seq<byte>)
    ensures |b| == OFP_FLOWMOD_LEN
  {
    var b := Put(Zeros(OFP_FLOWMOD_LEN), 0, Header(14, 80, xid));
    var b := Put(b, 8, Be32(0x0010_0013));
    var b := Put(b, 62, Be16(0x8000));
    var b := Put(b, 64, Be32(0xffff_ffff));
    var b := Put(b, 68, Be16(0xffff));
    var b := Put(b, 72, Be16(0));
    Put(b, 74, Be16(8))
  }

  /** The parts of raw_flowmod that differ from one flow to the next. */
  function FlowModBuffer(xid: uint32, src: Mac, dst: Mac, port: uint16): (b: seq<byte>)
    ensures |b| == OFP_FLOWMOD_LEN
  {
    Put(Put(Put(FlowModTemplate(xid), 14, src), 20, dst), 76, Be16(port))
  }

  /** The order in which establishFlows and sendLoopFlow write the fields makes no difference. */
  lemma FlowModInSourceOrder(xid: uint32, src: Mac, dst: Mac, port: uint16)
    ensures var b := Put(Zeros(OFP_FLOWMOD_LEN), 0, Header(14, 80, xid));
            var b := Put(Put(Put(b, 8, Be32(0x0010_0013)), 14, src), 20, dst);
            var b := Put(Put(Put(b, 62, Be16(0x8000)), 64, Be32(0xffff_ffff)), 68, Be16(0xffff));
            Put(Put(Put(b, 72, Be16(0)), 74, Be16(8)), 76, Be16(port)) == FlowModBuffer(xid, src, dst, port)
  {
  }

  /** The flow-mod, octet by octet. */
  lemma FlowModOctets(xid: uint32, src: Mac, dst: Mac, port: uint16)
    ensures FlowModBuffer(xid, src, dst, port) ==
            [1, 14, 0, 80] + Be32(xid) + [0, 0x10, 0, 0x13, 0, 0] + src + dst + Zeros(36) +
            [0x80, 0, 0xff, 0xff, 0xff, 0xff, 0xff, 0xff, 0, 0, 0, 0, 0, 8] + Be16(port) + [0, 0]
  {
    var t, b := FlowModTemplate(xid), FlowModBuffer(xid, src, dst, port);
    TemplateOctets(xid);
    assert b[..14] == t[..14] && b[26..76] == t[26..76] && b[78..] == t[78..];
    assert b[14..20] == src && b[20..26] == dst && b[76..78] == Be16(port);
    hide FlowModBuffer, FlowModTemplate, Be16, Be32;
    assert b == b[..14] + b[14..20] + b[20..26] + b[26..76] + b[76..78] + b[78..];
  }

  lemma TemplateOctets(xid: uint32)
    ensures var t := FlowModTemplate(xid);
            && t[..14] == [1, 14, 0, 80] + Be32(xid) + [0, 0x10, 0, 0x13, 0, 0]
            && t[26..76] == Zeros(36) + [0x80, 0, 0xff, 0xff, 0xff, 0xff, 0xff, 0xff, 0, 0, 0, 0, 0, 8]
            && t[78..] == [0, 0]
  {
  }

  lemma PairMatchOctets(src: Mac, dst: Mac)
    ensures MatchOctets(PairMatch(src, dst)) == [0, 0x10, 0, 0x13, 0, 0] + src + dst + Zeros(22)
  {
  }

  lemma AddFlowFields(xid: uint32, src: Mac, dst: Mac, port: uint16)
    ensures FlowModFields(AddFlow(xid, src, dst, port)) ==
            Zeros(14) + [0x80, 0, 0xff, 0xff, 0xff, 0xff, 0xff, 0xff, 0, 0]
  {
  }

  lemma AddFlowOctets(xid: uint32, src: Mac, dst: Mac, port: uint16)
    ensures Encode(AddFlow(xid, src, dst, port)) ==
            [1, 14, 0, 80] + Be32(xid) + [0, 0x10, 0, 0x13, 0, 0] + src + dst + Zeros(36) +
            [0x80, 0, 0xff, 0xff, 0xff, 0xff, 0xff, 0xff, 0, 0, 0, 0, 0, 8] + Be16(port) + [0, 0]
  {
    PairMatchOctets(src, dst);
    AddFlowFields(xid, src, dst, port);
    assert Header(14, 80, xid) == [1, 14, 0, 80] + Be32(xid);
    assert OutputOctets(Output(port, 0)) == [0, 0, 0, 8] + Be16(port) + [0, 0];
    assert Zeros(22) + Zeros(14) == Zeros(36);
    hide Header, MatchOctets, FlowModFields, OutputOctets, Be16, Be32;
  }

  /** It is the intended ADD flow, with nothing else set, and that is what the switch decodes. */
  lemma FlowModDecodes(xid: uint32, src: Mac, dst: Mac, port: uint16)
    ensures FlowModBuffer(xid, src, dst, port) == Encode(AddFlow(xid, src, dst, port))
    ensures Decode(FlowModBuffer(xid, src, dst, port)) == Some(AddFlow(xid, src, dst, port))
  {
    FlowModOctets(xid, src, dst, port);
    AddFlowOctets(xid, src, dst, port);
    EncodeDecodes(AddFlow(xid, src, dst, port));
    hide FlowModBuffer, Encode, Decode;
  }

  /** Overwriting the id, both addresses and the port of one flow-mod gives another one, with no octet left over
      from the first. */
  lemma FlowModReuse(x1: uint32, s1: Mac, d1: Mac, p1: uint16, x2: uint32, s2: Mac, d2: Mac, p2: uint16)
    ensures Put(Put(Put(Put(FlowModBuffer(x1, s1, d1, p1), 4, Be32(x2)), 14, s2), 20, d2), 76, Be16(p2))
         == FlowModBuffer(x2, s2, d2, p2)
  {
  }

  /** raw_pkt_out. The in_port field is copied in network order from the packet-in. */
  function PacketOutBuffer(xid: uint32, inPort: uint16, port: uint16, frame: Frame): (b: seq<byte>)
    ensures |b| == PKT_OUT_HDR_LEN + |frame|
  {
    var b := Put(Zeros(PKT_OUT_HDR_LEN + |frame|), 0, Header(13, PKT_OUT_HDR_LEN + |frame|, xid));
    var b := Put(b, 8, Be32(0xffff_ffff));
    var b := Put(b, 12, Be16(inPort));
    var b := Put(b, 14, Be16(8));
    var b := Put(b, 16, Be16(0));
    var b := Put(b, 18, Be16(8));
    var b := Put(b, 20, Be16(port));
    Put(b, 24, frame)
  }

  /** The packet-out, octet by octet. */
  lemma PacketOutOctets(xid: uint32, inPort: uint16, port: uint16, frame: Frame)
    ensures PacketOutBuffer(xid, inPort, port, frame) ==
            [1, 13] + Be16(24 + |frame|) + Be32(xid) + [0xff, 0xff, 0xff, 0xff] + Be16(inPort) + [0, 8] +
            [0, 0, 0, 8] + Be16(port) + [0, 0] + frame
  {
  }

  lemma SendFrameOctets(xid: uint32, inPort: uint16, port: uint16, frame: Frame)
    ensures Encode(SendFrame(xid, inPort, port, frame)) ==
            [1, 13] + Be16(24 + |frame|) + Be32(xid) + [0xff, 0xff, 0xff, 0xff] + Be16(inPort) + [0, 8] +
            [0, 0, 0, 8] + Be16(port) + [0, 0] + frame
  {
  }

  /** It is the in_port, the one output action, and the frame octet for octet, and that is what the switch decodes. */
  lemma PacketOutDecodes(xid: uint32, inPort: uint16, port: uint16, frame: Frame)
    ensures PacketOutBuffer(xid, inPort, port, frame) == Encode(SendFrame(xid, inPort, port, frame))
    ensures Decode(PacketOutBuffer(xid, inPort, port, frame)) == Some(SendFrame(xid, inPort, port, frame))
  {
    PacketOutOctets(xid, inPort, port, frame);
    SendFrameOctets(xid, inPort, port, frame);
    EncodeDecodes(SendFrame(xid, inPort, port, frame));
    hide PacketOutBuffer, Encode, Decode;
  }
}
