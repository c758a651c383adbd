/** How recvData cuts the octet stream of a connection into messages, and what it takes each message to be. */
module Framing {
  import opened Bytes
  import opened OpenFlow
  import opened ControllerSpec

  /** The longest message that switches send here. */
  const MAX_MESSAGE: nat := 1008

  /** The size of the array payload in recvData. */
  const PAYLOAD_SIZE: nat := 1000

  /** A packet-in that announces a frame holds that frame. */
  predicate HoldsFrame(m: seq<byte>) {
    |m| >= 18 && (m[16] != 0 ==> 18 + U16At(m, 12) <= |m| && IsFrame(m[18..18 + U16At(m, 12)]))
  }

  /** A message recvData can take: its length field is right, and it is not too long. */
  predicate WellFormed(m: seq<byte>) {
    OFP_HDR_LEN <= |m| <= MAX_MESSAGE && U16At(m, 2) == |m|
  }

  /** A message the controller can go on to handle. */
  predicate Sound(m: seq<byte>) {
    WellFormed(m) && (m[1] == 10 ==> HoldsFrame(m))
  }

  /** What the message makes the controller do. */
  function EventOf(m: seq<byte>): Event
    requires Sound(m)
  {
    match m[1]
    case 0 => GotHello
    case 6 => GotFeatures
    case 2 => GotEcho(U32At(m, 4))
    case 10 => if m[16] == 0 then GotNoMatch else GotPacketIn(U16At(m, 14), m[18..18 + U16At(m, 12)])
    case 12 => GotPortStatus
    case _ => GotOther
  }

  /** A packet-in, octet by octet: dropped if its reason is 0, that is OFPR_NO_MATCH, and otherwise handled with the
      in_port and the frame it carries. */
  lemma PacketInIsRead(xid: uint32, bufferId: uint32, inPort: uint16, reason: byte, pad: byte, frame: Frame)
    requires 18 + |frame| <= MAX_MESSAGE
    ensures var m := [1, 10] + Be16(18 + |frame|) + Be32(xid) + Be32(bufferId) + Be16(|frame|) + Be16(inPort) +
                     [reason, pad] + frame;
            Sound(m) && EventOf(m) == if reason == 0 then GotNoMatch else GotPacketIn(inPort, frame)
  {
    var h, part := Header(10, 18 + |frame|, xid), Be32(bufferId) + Be16(|frame|) + Be16(inPort) + [reason, pad];
    var m := [1, 10] + Be16(18 + |frame|) + Be32(xid) + Be32(bufferId) + Be16(|frame|) + Be16(inPort) + [reason, pad] +
             frame;
    assert part[4..6] == Be16(|frame|) && part[6..8] == Be16(inPort) && part[8] == reason;
    assert U16At(part, 4) == |frame| && U16At(part, 6) == inPort;
    assert m == h + part + frame && m == h + (part + frame);
    FieldsOfPart(h, part, frame);
    HeaderReadsBack(10, 18 + |frame|, xid, part + frame);
    assert m[18..18 + |frame|] == frame;
    hide Be16, Be32, U16At, U32At;
  }

  /** Hello, echo request and features reply, octet by octet, with whatever follows the header. */
  lemma HeadersAreRead(type_: byte, xid: uint32, body: seq<byte>)
    requires 8 + |body| <= MAX_MESSAGE && type_ != 10
    ensures var m := [1, type_] + Be16(8 + |body|) + Be32(xid) + body;
            && Sound(m)
            && (EventOf(m) == GotHello <==> type_ == 0)
            && (EventOf(m) == GotFeatures <==> type_ == 6)
            && (EventOf(m) == GotEcho(xid) <==> type_ == 2)
            && (type_ !in {0, 2, 6} ==> EventOf(m).GotPortStatus? || EventOf(m).GotOther?)
  {
    HeaderReadsBack(type_, 8 + |body|, xid, body);
    assert [1, type_] + Be16(8 + |body|) + Be32(xid) + body == Header(type_, 8 + |body|, xid) + body;
    hide Be16, Be32, U16At, U32At;
  }

  /** The message at the front of a stream, as far as the length field says. */
  predicate HasFirst(stream: seq<byte>) {
    |stream| >= OFP_HDR_LEN && U16At(stream, 2) <= |stream| && WellFormed(stream[..U16At(stream, 2)])
  }

  function First(stream: seq<byte>): (m: seq<byte>)
    requires HasFirst(stream)
    ensures WellFormed(m)
  {
    stream[..U16At(stream, 2)]
  }

  function Rest(stream: seq<byte>): (r: seq<byte>)
    requires HasFirst(stream)
    ensures |r| < |stream|
  {
    assert U16At(stream[..U16At(stream, 2)], 2) == U16At(stream, 2);
    stream[U16At(stream, 2)..]
  }

  /** The octets of whole messages. */
  predicate IsStream(stream: seq<byte>)
    decreases |stream|
  {
    stream == [] || (HasFirst(stream) && IsStream(Rest(stream)))
  }

  /** What repeated calls of recvData recover. */
  function Messages(stream: seq<byte>): seq<seq<byte>>
    requires IsStream(stream)
    decreases |stream|
  {
    if stream == [] then [] else [First(stream)] + Messages(Rest(stream))
  }

  function Concat(ms: seq<seq<byte>>): seq<byte> {
    if ms == [] then [] else ms[0] + Concat(ms[1..])
  }

  /** Messages sent back to back are recovered one by one, in order, with nothing left over. */
  lemma {:induction false} FramingRecovers(ms: seq<seq<byte>>)
    requires forall m :: m in ms ==> WellFormed(m)
    ensures IsStream(Concat(ms)) && Messages(Concat(ms)) == ms
  {
    if ms != [] {
      var m, stream := ms[0], Concat(ms);
      FramingRecovers(ms[1..]);
      assert WellFormed(m) && U16At(stream, 2) == U16At(m, 2);
      assert stream[..|m|] == m && stream[|m|..] == Concat(ms[1..]);
    }
  }

  /** And the other way round: no octet is lost or made up. */
  lemma {:induction false} FramingIsLossless(stream: seq<byte>)
    requires IsStream(stream)
    ensures Concat(Messages(stream)) == stream
    ensures forall m :: m in Messages(stream) ==> WellFormed(m)
    decreases |stream|
  {
    if stream != [] {
      FramingIsLossless(Rest(stream));
      assert Messages(stream)[1..] == Messages(Rest(stream));
      assert First(stream) + Rest(stream) == stream;
    }
  }

  // ------------------------------------------------------------------ several connections

  /** The octets of whole messages that the controller can handle. */
  predicate IsInput(stream: seq<byte>)
    ensures IsInput(stream) ==> IsStream(stream)
    decreases |stream|
  {
    stream == [] || (HasFirst(stream) && Sound(First(stream)) && IsInput(Rest(stream)))
  }

  /** The inputs the controller handles when the select loop finds the given sockets ready, in that order. A ready
      socket without data is at its end, and is passed over. */
  function Inputs(streams: map<Sock, seq<byte>>, ready: seq<Sock>): seq<Input>
    requires forall s :: s in streams ==> IsInput(streams[s])
    decreases |ready|
  {
    if ready == [] then []
    else
      var s := ready[0];
      if s !in streams || streams[s] == [] then Inputs(streams, ready[1..])
      else
        assert IsInput(streams[s]);
        [Input(s, EventOf(First(streams[s])))] + Inputs(streams[s := Rest(streams[s])], ready[1..])
  }

  /** One turn of the select loop. */
  lemma InputsUnfold(streams: map<Sock, seq<byte>>, ready: seq<Sock>)
    requires ready != [] && forall s :: s in streams ==> IsInput(streams[s])
    ensures var s := ready[0];
            if s !in streams || streams[s] == [] then Inputs(streams, ready) == Inputs(streams, ready[1..])
            else
              && HasFirst(streams[s]) && Sound(First(streams[s])) && IsInput(Rest(streams[s]))
              && Inputs(streams, ready) ==
                 [Input(s, EventOf(First(streams[s])))] + Inputs(streams[s := Rest(streams[s])], ready[1..])
  {
    var s := ready[0];
    if s in streams {
      assert IsInput(streams[s]);
    }
  }

  lemma NothingReady(streams: map<Sock, seq<byte>>)
    requires forall s :: s in streams ==> IsInput(streams[s])
    ensures Inputs(streams, []) == []
  {
  }

  /** How often s is ready. */
  function Count(s: Sock, ready: seq<Sock>): nat {
    if ready == [] then 0 else (if ready[0] == s then 1 else 0) + Count(s, ready[1..])
  }

  /** The inputs from one socket. */
  function From(s: Sock, run: seq<Input>): seq<Event> {
    if run == [] then [] else (if run[0].sock == s then [run[0].event] else []) + From(s, run[1..])
  }

  function Events(stream: seq<byte>): seq<Event>
    requires IsInput(stream)
    decreases |stream|
  {
    if stream == [] then [] else [EventOf(First(stream))] + Events(Rest(stream))
  }

  function Prefix<T>(s: seq<T>, n: nat): seq<T> {
    if n < |s| then s[..n] else s
  }

  /** However the connections are interleaved, each one delivers its own messages in order. */
  lemma {:induction false} InputsKeepOrder(streams: map<Sock, seq<byte>>, ready: seq<Sock>, s: Sock)
    requires forall r :: r in streams ==> IsInput(streams[r])
    requires s in streams
    ensures From(s, Inputs(streams, ready)) == Prefix(Events(streams[s]), Count(s, ready))
    decreases |ready|
  {
    if ready != [] {
      var r := ready[0];
      if r !in streams || streams[r] == [] {
        InputsKeepOrder(streams, ready[1..], s);
      } else {
        var streams' := streams[r := Rest(streams[r])];
        var i := Input(r, EventOf(First(streams[r])));
        InputsKeepOrder(streams', ready[1..], s);
        assert ([i] + Inputs(streams', ready[1..]))[1..] == Inputs(streams', ready[1..]);
        if r == s {
          var es, n := Events(Rest(streams[s])), Count(s, ready[1..]);
          assert Prefix([i.event] + es, n + 1) == [i.event] + Prefix(es, n);
        }
      }
    }
  }
}
