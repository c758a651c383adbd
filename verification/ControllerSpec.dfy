/**
 The controller as a state machine over its three globals: the transaction counter, the learned
 ports and the local flow table. Runs are sequences of messages received from switches, oldest first.
 */
module ControllerSpec {
  import opened Bytes
  import opened OpenFlow

  datatype FlowKey = FlowKey(src: Mac, dst: Mac)

  datatype CState = CState(xid: uint32, ll: map<(Sock, Mac), uint16>, flows: map<(Sock, FlowKey), uint16>)

  const START := CState(1, map[], map[])

  /** What recvData tells apart. A packet-in whose reason is OFPR_NO_MATCH is dropped unread. */
  datatype Event =
    | GotHello
    | GotFeatures
    | GotEcho(xid: uint32)
    | GotNoMatch
    | GotPacketIn(inPort: uint16, frame: Frame)
    | GotPortStatus
    | GotOther

  datatype Input = Input(sock: Sock, event: Event)

  function NextXid(x: uint32): uint32 {
    (x as int + 1) % 0x1_0000_0000
  }

  /** addPathNode and addFlowNode keep what is already there. */
  function FirstWins<K, V>(m: map<K, V>, k: K, v: V): map<K, V> {
    if k in m then m else m[k := v]
  }

  function FindPort(c: CState, sock: Sock, mac: Mac): uint16 {
    if (sock, mac) in c.ll then c.ll[(sock, mac)] else 0
  }

  function LearnFrom(c: CState, sock: Sock, inPort: uint16, frame: Frame): CState {
    c.(ll := FirstWins(c.ll, (sock, Src(frame)), inPort))
  }

  /** Both flow-mods of establishFlows: the way back to the sender of the ARP reply, then the way to its target. */
  function EstablishFlows(c: CState, sock: Sock, inPort: uint16, frame: Frame): (CState, seq<Message>) {
    var port := FindPort(c, sock, Dst(frame));
    var back := FirstWins(c.flows, (sock, FlowKey(Dst(frame), Src(frame))), inPort);
    var both := FirstWins(back, (sock, FlowKey(Src(frame), Dst(frame))), port);
    (c.(xid := NextXid(NextXid(c.xid)), flows := both),
     [AddFlow(c.xid, Dst(frame), Src(frame), inPort), AddFlow(NextXid(c.xid), Src(frame), Dst(frame), port)])
  }

  function MakeSendPacketOut(c: CState, inPort: uint16, port: uint16, frame: Frame): (CState, seq<Message>) {
    (c.(xid := NextXid(c.xid)), [SendFrame(c.xid, inPort, port, frame)])
  }

  /** The flow-mod of sendLoopFlow carries the current id, which stays unused otherwise. */
  function SendLoopFlow(c: CState, sock: Sock, inPort: uint16, frame: Frame): (CState, seq<Message>) {
    (c.(flows := FirstWins(c.flows, (sock, FlowKey(Dst(frame), Src(frame))), inPort)),
     [AddFlow(c.xid, Dst(frame), Src(frame), inPort)])
  }

  function HandlePacketIn(c: CState, sock: Sock, inPort: uint16, frame: Frame): (CState, seq<Message>) {
    var c := LearnFrom(c, sock, inPort, frame);
    if IsArpReply(frame) then
      var (c1, mods) := EstablishFlows(c, sock, inPort, frame);
      var (c2, out) := MakeSendPacketOut(c1, inPort, OFPP_TABLE, frame);
      (c2, mods + out)
    else if IsLoopback(frame) then
      SendLoopFlow(c, sock, inPort, frame)
    else
      MakeSendPacketOut(c, inPort, OFPP_FLOOD, frame)
  }

  /** One call of recvData: the new globals and the messages sent, all of them to the same socket. */
  function Step(c: CState, sock: Sock, event: Event): (CState, seq<Message>) {
    match event
    case GotHello => (c.(xid := NextXid(NextXid(c.xid))), [Hello(c.xid), FeaturesRequest(NextXid(c.xid))])
    case GotFeatures =>
      (c.(xid := NextXid(NextXid(c.xid))), [SetConfig(c.xid, 0, 0x80), BarrierRequest(NextXid(c.xid))])
    case GotEcho(xid) => (c, [EchoReply(xid)])
    case GotPacketIn(inPort, frame) => HandlePacketIn(c, sock, inPort, frame)
    case _ => (c, [])
  }

  /** The globals after a run. */
  function After(run: seq<Input>): CState {
    if run == [] then
      START
    else
      Step(After(run[..|run| - 1]), run[|run| - 1].sock, run[|run| - 1].event).0
  }

  /** The messages sent in response to the t-th input. */
  function SentAt(run: seq<Input>, t: nat): seq<Message>
    requires t < |run|
  {
    Step(After(run[..t]), run[t].sock, run[t].event).1
  }

  lemma AfterPrefix(run: seq<Input>, t: nat)
    requires t < |run|
    ensures After(run[..t + 1]) == Step(After(run[..t]), run[t].sock, run[t].event).0
  {
    assert run[..t + 1][..t] == run[..t];
  }

  // ------------------------------------------------------------------ learning

  /** The input is a frame from mac, reported by the switch at sock. */
  predicate Reports(i: Input, sock: Sock, mac: Mac) {
    i.sock == sock && i.event.GotPacketIn? && Src(i.event.frame) == mac
  }

  /** The first report of mac by sock, or |run|. */
  function FirstReport(run: seq<Input>, sock: Sock, mac: Mac): (i: nat)
    ensures i <= |run|
    ensures forall j :: 0 <= j < i ==> !Reports(run[j], sock, mac)
    ensures i < |run| ==> Reports(run[i], sock, mac)
  {
    if run == [] || Reports(run[0], sock, mac) then 0 else 1 + FirstReport(run[1..], sock, mac)
  }

  /** The first learned port wins and stays: after any run the learned ports are exactly the in_ports of the first
      reports. */
  lemma {:induction false} LearnsFirstReport(run: seq<Input>, sock: Sock, mac: Mac)
    ensures var i := FirstReport(run, sock, mac);
            if i == |run| then (sock, mac) !in After(run).ll
            else (sock, mac) in After(run).ll && After(run).ll[(sock, mac)] == run[i].event.inPort
  {
    if run != [] {
      var n := |run| - 1;
      LearnsFirstReport(run[..n], sock, mac);
      LearnsOne(run);
      FirstReportOf(run, sock, mac);
    }
  }

  /** A packet-in adds its sender to what has been learned, if it is new, and nothing else does. */
  lemma LearnsOne(run: seq<Input>)
    requires run != []
    ensures var t := |run| - 1;
            After(run).ll == match run[t].event
                             case GotPacketIn(inPort, frame) =>
                               FirstWins(After(run[..t]).ll, (run[t].sock, Src(frame)), inPort)
                             case _ => After(run[..t]).ll
  {
    hide IsArpReply, IsLoopback, FirstWins, FindPort, Src, Dst;
  }

  lemma FirstReportOf(run: seq<Input>, sock: Sock, mac: Mac)
    requires run != []
    ensures var t := |run| - 1;
            var j := FirstReport(run[..t], sock, mac);
            FirstReport(run, sock, mac) == if j < t then j else if Reports(run[t], sock, mac) then t else t + 1
  {
    hide Reports;
    var n := |run| - 1;
    var i, j := FirstReport(run, sock, mac), FirstReport(run[..n], sock, mac);
    assert j < n ==> run[..n][j] == run[j];
    assert i < n ==> run[..n][i] == run[i];
  }

  // ------------------------------------------------------------------ justified forwarding

  /** Physical ports start from 1, and so no learned port is zero. */
  lemma KnownHasPort(run: seq<Input>, sock: Sock, mac: Mac)
    requires PhysicalPorts(run)
    ensures (sock, mac) in After(run).ll <==> FindPort(After(run), sock, mac) != 0
  {
    LearnsFirstReport(run, sock, mac);
    var i := FirstReport(run, sock, mac);
    assert i < |run| ==> run[i].event.GotPacketIn?;
  }

  ghost predicate PhysicalPorts(run: seq<Input>) {
    forall i :: 0 <= i < |run| && run[i].event.GotPacketIn? ==> run[i].event.inPort >= 1
  }

  /** A frame from mac had been reported by sock on the given port by the time the t-th input was handled. */
  ghost predicate Seen(run: seq<Input>, t: nat, sock: Sock, mac: Mac, port: uint16)
    requires t < |run|
  {
    exists i :: 0 <= i <= t && Reports(run[i], sock, mac) && run[i].event.inPort == port
  }

  ghost predicate Unseen(run: seq<Input>, t: nat, sock: Sock, mac: Mac)
    requires t < |run|
  {
    forall i :: 0 <= i <= t ==> !Reports(run[i], sock, mac)
  }

  lemma FindPortIsJustified(run: seq<Input>, t: nat, sock: Sock, mac: Mac)
    requires t < |run|
    ensures var port := FindPort(After(run[..t + 1]), sock, mac);
            && (port != 0 ==> Seen(run, t, sock, mac, port))
            && (Unseen(run, t, sock, mac) ==> port == 0)
            && (PhysicalPorts(run) && port == 0 ==> Unseen(run, t, sock, mac))
  {
    var pre := run[..t + 1];
    LearnsFirstReport(pre, sock, mac);
    var i := FirstReport(pre, sock, mac);
    assert forall j :: 0 <= j <= t ==> pre[j] == run[j];
  }

  /** Every flow-mod ever sent, for whatever topology: a non-zero port is one on which that switch had reported a frame
      from the flow's destination, and the port is zero exactly when it had reported no such frame. */
  lemma JustifiedForwarding(run: seq<Input>, t: nat, k: nat)
    requires t < |run| && k < |SentAt(run, t)| && SentAt(run, t)[k].FlowMod?
    ensures var mod := SentAt(run, t)[k];
            && (mod.action.port != 0 ==> Seen(run, t, run[t].sock, mod.pattern.dlDst, mod.action.port))
            && (PhysicalPorts(run) ==>
                  (mod.action.port == 0 <==> Unseen(run, t, run[t].sock, mod.pattern.dlDst)))
  {
    AfterPrefix(run, t);
    var sock, ev := run[t].sock, run[t].event;
    FindPortIsJustified(run, t, sock, Dst(ev.frame));
    assert Reports(run[t], sock, Src(ev.frame));
    var c := LearnFrom(After(run[..t]), sock, ev.inPort, ev.frame);
    assert After(run[..t + 1]).ll == c.ll;
    assert FindPort(After(run[..t + 1]), sock, Dst(ev.frame)) == FindPort(c, sock, Dst(ev.frame));
  }

  // ------------------------------------------------------------------ the local flow table

  /** On every switch the local flow table is closed under swapping source and destination. */
  lemma {:induction false} FlowsAreSymmetric(run: seq<Input>, sock: Sock, a: Mac, b: Mac)
    ensures (sock, FlowKey(a, b)) in After(run).flows <==> (sock, FlowKey(b, a)) in After(run).flows
  {
    if run != [] {
      FlowsAreSymmetric(run[..|run| - 1], sock, a, b);
    }
  }

  // ------------------------------------------------------------------ the switch's flow table

  /** An OpenFlow switch given one message: OFPFC_ADD replaces the entry with an identical match (section 4.6 of the
      OpenFlow Switch Specification 1.0.0). An entry is taken to match exactly its two addresses. */
  function Apply(table: map<FlowKey, uint16>, m: Message): map<FlowKey, uint16> {
    if m.FlowMod? && m.command == OFPFC_ADD then
      table[FlowKey(m.pattern.dlSrc, m.pattern.dlDst) := m.action.port]
    else
      table
  }

  function ApplyAll(table: map<FlowKey, uint16>, ms: seq<Message>): map<FlowKey, uint16>
    decreases |ms|
  {
    if ms == [] then table else ApplyAll(Apply(table, ms[0]), ms[1..])
  }

  lemma {:induction false} ApplyAllConcat(table: map<FlowKey, uint16>, ms: seq<Message>, ns: seq<Message>)
    ensures ApplyAll(table, ms + ns) == ApplyAll(ApplyAll(table, ms), ns)
    decreases |ms|
  {
    if ms == [] {
      assert ms + ns == ns;
    } else {
      assert (ms + ns)[1..] == ms[1..] + ns;
      ApplyAllConcat(Apply(table, ms[0]), ms[1..], ns);
    }
  }

  /** The flow table of the switch at sock once it has processed everything sent to it in a run. */
  function SwitchTable(run: seq<Input>, sock: Sock): map<FlowKey, uint16> {
    if run == [] then
      map[]
    else
      var t := |run| - 1;
      var before := SwitchTable(run[..t], sock);
      if run[t].sock == sock then ApplyAll(before, SentAt(run, t)) else before
  }

  /** What a step sends, applied to a table, message by message. */
  lemma AppliedStep(c: CState, sock: Sock, event: Event, table: map<FlowKey, uint16>)
    ensures ApplyAll(table, Step(c, sock, event).1) ==
            match event
            case GotPacketIn(inPort, frame) =>
              var back, there := FlowKey(Dst(frame), Src(frame)), FlowKey(Src(frame), Dst(frame));
              if IsArpReply(frame) then
                table[back := inPort][there := FindPort(LearnFrom(c, sock, inPort, frame), sock, Dst(frame))]
              else if IsLoopback(frame) then table[back := inPort]
              else table
            case _ => table
  {
    match event
    case GotPacketIn(inPort, frame) =>
      var ms := Step(c, sock, event).1;
      ApplyOne(table, ms[0]);
      if |ms| == 3 {
        ApplyOne(Apply(table, ms[0]), ms[1]);
        ApplyAllConcat(table, [ms[0]], [ms[1]]);
        ApplyAllConcat(table, [ms[0]] + [ms[1]], [ms[2]]);
        assert ms == [ms[0]] + [ms[1]] + [ms[2]];
        HeadersDoNotApply([ms[2]], Apply(Apply(table, ms[0]), ms[1]));
      } else {
        assert ms == [ms[0]];
      }
    case GotHello => HeadersDoNotApply(Step(c, sock, event).1, table);
    case GotFeatures => HeadersDoNotApply(Step(c, sock, event).1, table);
    case GotEcho(_) => HeadersDoNotApply(Step(c, sock, event).1, table);
    case _ =>
  }

  lemma ApplyOne(table: map<FlowKey, uint16>, m: Message)
    ensures ApplyAll(table, [m]) == Apply(table, m)
  {
    assert [m][1..] == [];
  }

  lemma {:induction false} HeadersDoNotApply(ms: seq<Message>, table: map<FlowKey, uint16>)
    requires forall m :: m in ms ==> !m.FlowMod?
    ensures ApplyAll(table, ms) == table
    decreases |ms|
  {
    if ms != [] {
      HeadersDoNotApply(ms[1..], table);
    }
  }

  /** In every run the switch ends up with an entry for exactly the flows the controller has noted down. */
  lemma {:induction false} MirrorsKeys(run: seq<Input>, sock: Sock, key: FlowKey)
    ensures key in SwitchTable(run, sock) <==> (sock, key) in After(run).flows
  {
    if run != [] {
      var t := |run| - 1;
      MirrorsKeys(run[..t], sock, key);
      AppliedStep(After(run[..t]), run[t].sock, run[t].event, SwitchTable(run[..t], sock));
    }
  }

  /** Every entry of the switch's table points to a port on which it reported the destination, or nowhere. */
  lemma {:induction false} TableIsJustified(run: seq<Input>, sock: Sock, key: FlowKey)
    requires key in SwitchTable(run, sock) && SwitchTable(run, sock)[key] != 0
    ensures run != [] && Seen(run, |run| - 1, sock, key.dst, SwitchTable(run, sock)[key])
  {
    assert run != [];
    var t := |run| - 1;
    var pre := run[..t];
    var port := SwitchTable(run, sock)[key];
    if key in SwitchTable(pre, sock) && SwitchTable(pre, sock)[key] == port {
      TableIsJustified(pre, sock, key);
      hide SwitchTable;
      var i :| 0 <= i <= |pre| - 1 && Reports(pre[i], sock, key.dst) && pre[i].event.inPort == port;
      assert Reports(run[i], sock, key.dst);
    } else {
      AppliedStep(After(pre), run[t].sock, run[t].event, SwitchTable(pre, sock));
      assert run[t].sock == sock && run[t].event.GotPacketIn?;
      EntryIsJustified(run, key, port);
    }
  }

  /** A port that the latest input, a packet-in, gives to the flow key. */
  lemma EntryIsJustified(run: seq<Input>, key: FlowKey, port: uint16)
    requires run != [] && run[|run| - 1].event.GotPacketIn? && port != 0
    requires var t := |run| - 1;
             var frame := run[t].event.frame;
             var c := LearnFrom(After(run[..t]), run[t].sock, run[t].event.inPort, frame);
             || (key == FlowKey(Dst(frame), Src(frame)) && port == run[t].event.inPort)
             || (key == FlowKey(Src(frame), Dst(frame)) && port == FindPort(c, run[t].sock, Dst(frame)))
    ensures Seen(run, |run| - 1, run[|run| - 1].sock, key.dst, port)
  {
    var t := |run| - 1;
    assert Reports(run[t], run[t].sock, Src(run[t].event.frame));
    assert run[..t + 1] == run;
    AfterPrefix(run, t);
    FindPortIsJustified(run, t, run[t].sock, key.dst);
    LearnsOne(run);
    hide After, Src, Dst, FirstWins;
  }

  /** What one more input does to the notes. */
  lemma NotesOne(run: seq<Input>)
    requires run != []
    ensures var t := |run| - 1;
            var c, sock := After(run[..t]), run[t].sock;
            After(run).flows == match run[t].event
                                case GotPacketIn(inPort, frame) =>
                                  var back, there := FlowKey(Dst(frame), Src(frame)), FlowKey(Src(frame), Dst(frame));
                                  var port := FindPort(LearnFrom(c, sock, inPort, frame), sock, Dst(frame));
                                  if IsArpReply(frame) then
                                    FirstWins(FirstWins(c.flows, (sock, back), inPort), (sock, there), port)
                                  else if IsLoopback(frame) then FirstWins(c.flows, (sock, back), inPort)
                                  else c.flows
                                case _ => c.flows
  {
    hide IsArpReply, IsLoopback, FirstWins, FindPort, Src, Dst;
  }

  /** The same holds for what the controller has noted. */
  lemma {:induction false} NotesAreJustified(run: seq<Input>, sock: Sock, key: FlowKey)
    requires (sock, key) in After(run).flows && After(run).flows[(sock, key)] != 0
    ensures run != [] && Seen(run, |run| - 1, sock, key.dst, After(run).flows[(sock, key)])
  {
    assert run != [];
    var t := |run| - 1;
    var pre := run[..t];
    var port := After(run).flows[(sock, key)];
    NotesOne(run);
    hide After, IsArpReply, IsLoopback, LearnFrom, FindPort;
    if (sock, key) in After(pre).flows {
      NotesAreJustified(pre, sock, key);
      var i :| 0 <= i <= |pre| - 1 && Reports(pre[i], sock, key.dst) && pre[i].event.inPort == port;
      assert Reports(run[i], sock, key.dst);
    } else {
      assert run[t].sock == sock && run[t].event.GotPacketIn?;
      EntryIsJustified(run, key, port);
    }
  }

  // ------------------------------------------------------------------ when the ports agree as well

  /** The switch's table and the controller's notes about it agree, ports included. */
  ghost predicate Mirrors(flows: map<(Sock, FlowKey), uint16>, sock: Sock, table: map<FlowKey, uint16>) {
    forall key :: (key in table <==> (sock, key) in flows) && (key in table ==> table[key] == flows[(sock, key)])
  }

  predicate NotedAs(flows: map<(Sock, FlowKey), uint16>, sock: Sock, key: FlowKey, port: uint16) {
    (sock, key) in flows ==> flows[(sock, key)] == port
  }

  /** What the controller has to find in its own tables for the next packet-in not to spoil the agreement. */
  predicate KeepsMirror(c: CState, sock: Sock, inPort: uint16, frame: Frame) {
    var port := FindPort(LearnFrom(c, sock, inPort, frame), sock, Dst(frame));
    var back, there := FlowKey(Dst(frame), Src(frame)), FlowKey(Src(frame), Dst(frame));
    if IsArpReply(frame) && IsLoopback(frame) then
      NotedAs(FirstWins(c.flows, (sock, back), inPort), sock, back, port)
    else if IsArpReply(frame) then NotedAs(c.flows, sock, back, inPort) && NotedAs(c.flows, sock, there, port)
    else if IsLoopback(frame) then NotedAs(c.flows, sock, back, inPort)
    else true
  }

  lemma MirrorOne(flows: map<(Sock, FlowKey), uint16>, sock: Sock, table: map<FlowKey, uint16>, k: FlowKey, p: uint16)
    requires Mirrors(flows, sock, table)
    ensures Mirrors(FirstWins(flows, (sock, k), p), sock, table[k := p]) <==> NotedAs(flows, sock, k, p)
  {
    var flows', table' := FirstWins(flows, (sock, k), p), table[k := p];
    if Mirrors(flows', sock, table') {
      assert k in table' && table'[k] == flows'[(sock, k)];
    }
  }

  lemma MirrorTwo(flows: map<(Sock, FlowKey), uint16>, sock: Sock, table: map<FlowKey, uint16>,
                  k1: FlowKey, p1: uint16, k2: FlowKey, p2: uint16)
    requires Mirrors(flows, sock, table)
    ensures Mirrors(FirstWins(FirstWins(flows, (sock, k1), p1), (sock, k2), p2), sock, table[k1 := p1][k2 := p2])
            <==> if k1 == k2 then NotedAs(FirstWins(flows, (sock, k1), p1), sock, k1, p2)
                 else NotedAs(flows, sock, k1, p1) && NotedAs(flows, sock, k2, p2)
  {
    var flows' := FirstWins(FirstWins(flows, (sock, k1), p1), (sock, k2), p2);
    var table' := table[k1 := p1][k2 := p2];
    if Mirrors(flows', sock, table') {
      assert k1 in table' && table'[k1] == flows'[(sock, k1)];
      assert k2 in table' && table'[k2] == flows'[(sock, k2)];
    }
  }

  /** Full agreement survives a packet-in exactly when KeepsMirror held before it. */
  lemma MirrorStepExactly(c: CState, sock: Sock, inPort: uint16, frame: Frame, table: map<FlowKey, uint16>)
    requires Mirrors(c.flows, sock, table)
    ensures var (c', sent) := HandlePacketIn(c, sock, inPort, frame);
            Mirrors(c'.flows, sock, ApplyAll(table, sent)) <==> KeepsMirror(c, sock, inPort, frame)
  {
    AppliedStep(c, sock, GotPacketIn(inPort, frame), table);
    var back, there := FlowKey(Dst(frame), Src(frame)), FlowKey(Src(frame), Dst(frame));
    if IsArpReply(frame) {
      var port := FindPort(LearnFrom(c, sock, inPort, frame), sock, Dst(frame));
      MirrorTwo(c.flows, sock, table, back, inPort, there, port);
      assert IsLoopback(frame) <==> back == there;
    } else {
      MirrorOne(c.flows, sock, table, back, inPort);
    }
  }

  /** The t-th input does not spoil the agreement about sock. */
  predicate KeptAt(run: seq<Input>, t: nat, sock: Sock)
    requires t < |run|
  {
    run[t].sock == sock && run[t].event.GotPacketIn? ==>
      KeepsMirror(After(run[..t]), sock, run[t].event.inPort, run[t].event.frame)
  }

  ghost predicate MirroredAt(run: seq<Input>, t: nat, sock: Sock)
    requires t <= |run|
  {
    Mirrors(After(run[..t]).flows, sock, SwitchTable(run[..t], sock))
  }

  lemma MirrorInput(run: seq<Input>, t: nat, sock: Sock)
    requires t < |run| && MirroredAt(run, t, sock)
    ensures MirroredAt(run, t + 1, sock) <==> KeptAt(run, t, sock)
  {
    var c, table := After(run[..t]), SwitchTable(run[..t], sock);
    assert run[..t + 1][..t] == run[..t];
    AppliedStep(c, run[t].sock, run[t].event, table);
    if run[t].sock == sock && run[t].event.GotPacketIn? {
      MirrorStepExactly(c, sock, run[t].event.inPort, run[t].event.frame, table);
    }
  }

  /** Over whole runs: table and notes agree all along if and only if no input is met unprepared. */
  lemma {:induction false} MirrorsExactly(run: seq<Input>, sock: Sock)
    ensures (forall t :: 0 <= t <= |run| ==> MirroredAt(run, t, sock)) <==>
            (forall t :: 0 <= t < |run| ==> KeptAt(run, t, sock))
  {
    if forall t :: 0 <= t <= |run| ==> MirroredAt(run, t, sock) {
      forall t | 0 <= t < |run| ensures KeptAt(run, t, sock) {
        assert MirroredAt(run, t, sock) && MirroredAt(run, t + 1, sock);
        MirrorInput(run, t, sock);
      }
    }
    if forall t :: 0 <= t < |run| ==> KeptAt(run, t, sock) {
      var n := 0;
      while n < |run|
        invariant n <= |run| && forall t :: 0 <= t <= n ==> MirroredAt(run, t, sock)
      {
        assert KeptAt(run, n, sock);
        MirrorInput(run, n, sock);
        n := n + 1;
      }
    }
  }

  /** No host is ever reported on a second port of the same switch. */
  ghost predicate StablePorts(run: seq<Input>) {
    forall i, j, sock, mac ::
      0 <= i < |run| && 0 <= j < |run| && Reports(run[i], sock, mac) && Reports(run[j], sock, mac)
      ==> run[i].event.inPort == run[j].event.inPort
  }

  predicate IsArpReplyInput(i: Input) {
    i.event.GotPacketIn? && IsArpReply(i.event.frame)
  }

  /** Whenever an ARP reply is handled, its target has been reported by the same switch. */
  ghost predicate TargetsKnown(run: seq<Input>) {
    forall t :: 0 <= t < |run| && IsArpReplyInput(run[t]) ==> !Unseen(run, t, run[t].sock, Dst(run[t].event.frame))
  }

  lemma PrefixAssumptions(run: seq<Input>)
    requires run != [] && StablePorts(run) && TargetsKnown(run)
    ensures StablePorts(run[..|run| - 1]) && TargetsKnown(run[..|run| - 1])
  {
    var pre := run[..|run| - 1];
    forall t | 0 <= t < |pre| && IsArpReplyInput(pre[t])
      ensures !Unseen(pre, t, pre[t].sock, Dst(pre[t].event.frame))
    {
      assert IsArpReplyInput(run[t]);
      var i :| 0 <= i <= t && Reports(run[i], run[t].sock, Dst(run[t].event.frame));
      assert Reports(pre[i], pre[t].sock, Dst(pre[t].event.frame));
    }
  }

  /** If there is an entry for key, its port is the learned port of its destination. */
  ghost predicate IsLearned(c: CState, sock: Sock, key: FlowKey, table: map<FlowKey, uint16>) {
    && ((sock, key) in c.flows ==>
          (sock, key.dst) in c.ll && c.flows[(sock, key)] == c.ll[(sock, key.dst)])
    && (key in table ==> (sock, key.dst) in c.ll && table[key] == c.ll[(sock, key.dst)])
  }

  lemma StepKeepsLearned(c: CState, sock: Sock, inPort: uint16, frame: Frame, key: FlowKey, table: map<FlowKey, uint16>)
    requires IsLearned(c, sock, key, table)
    requires FindPort(LearnFrom(c, sock, inPort, frame), sock, Src(frame)) == inPort
    requires IsArpReply(frame) ==> (sock, Dst(frame)) in LearnFrom(c, sock, inPort, frame).ll
    ensures var (c', sent) := HandlePacketIn(c, sock, inPort, frame);
            IsLearned(c', sock, key, ApplyAll(table, sent))
  {
    AppliedStep(c, sock, GotPacketIn(inPort, frame), table);
  }

  /** Under those two assumptions every noted flow, and every entry of the switch, has the learned port. */
  lemma {:induction false} PortsAreLearned(run: seq<Input>, sock: Sock, key: FlowKey)
    requires StablePorts(run) && TargetsKnown(run)
    ensures IsLearned(After(run), sock, key, SwitchTable(run, sock))
  {
    if run != [] {
      var t := |run| - 1;
      var pre := run[..t];
      var i, ev := run[t].sock, run[t].event;
      PrefixAssumptions(run);
      PortsAreLearned(pre, sock, key);
      if ev.GotPacketIn? && i == sock {
        assert Reports(run[t], i, Src(ev.frame));
        LearnsFirstReport(run, i, Src(ev.frame));
        LearnsFirstReport(run, i, Dst(ev.frame));
        assert IsArpReply(ev.frame) ==> IsArpReplyInput(run[t]);
        StepKeepsLearned(After(pre), i, ev.inPort, ev.frame, key, SwitchTable(pre, sock));
      } else {
        AppliedStep(After(pre), i, ev, SwitchTable(pre, sock));
      }
    }
  }

  /** If hosts stay where they are and every ARP reply answers a known host, the switch's table and the controller's
      notes are the same map in every run. */
  lemma MirrorsPorts(run: seq<Input>, sock: Sock)
    requires StablePorts(run) && TargetsKnown(run)
    ensures Mirrors(After(run).flows, sock, SwitchTable(run, sock))
  {
    forall key
      ensures key in SwitchTable(run, sock) <==> (sock, key) in After(run).flows
      ensures key in SwitchTable(run, sock) ==> SwitchTable(run, sock)[key] == After(run).flows[(sock, key)]
    {
      MirrorsKeys(run, sock, key);
      PortsAreLearned(run, sock, key);
    }
  }

  /** An ARP reply frame (22 octets are enough to show it) and a plain one. */
  function ArpReplyFrame(dst: Mac, src: Mac): (f: Frame)
    ensures IsArpReply(f) && Dst(f) == dst && Src(f) == src
  {
    dst + src + [8, 6] + [0, 0, 0, 0, 0, 0] + [0, 2]
  }

  function PlainFrame(dst: Mac, src: Mac): (f: Frame)
    ensures !IsArpReply(f) && Dst(f) == dst && Src(f) == src
  {
    dst + src + [8, 0]
  }

  /** Without TargetsKnown the ports can part: a replies to b before b has been reported, then b shows up on port 2, and
      a replies again. The controller still notes port 0 for the traffic from a to b, the switch has port 2. */
  lemma PortsCanDisagree(sock: Sock, a: Mac, b: Mac)
    requires a != b
    ensures var run := [Input(sock, GotPacketIn(1, ArpReplyFrame(b, a))), Input(sock, GotPacketIn(2, PlainFrame(a, b))),
                        Input(sock, GotPacketIn(1, ArpReplyFrame(b, a)))];
            && StablePorts(run)
            && (sock, FlowKey(a, b)) in After(run).flows && After(run).flows[(sock, FlowKey(a, b))] == 0
            && FlowKey(a, b) in SwitchTable(run, sock) && SwitchTable(run, sock)[FlowKey(a, b)] == 2
  {
    var f, g := ArpReplyFrame(b, a), PlainFrame(a, b);
    var i1, i2 := Input(sock, GotPacketIn(1, f)), Input(sock, GotPacketIn(2, g));
    var run := [i1, i2, i1];
    assert run[..2] == [i1, i2] && [i1, i2][..1] == [i1] && [i1][..0] == [];
    assert IsArpReply(f) && !IsLoopback(f) && !IsArpReply(g) && !IsLoopback(g);
    hide ArpReplyFrame, PlainFrame, IsArpReply, IsLoopback, Src, Dst, After, SwitchTable, Step, ApplyAll;
    assert StablePorts(run) by {
      assert forall i :: 0 <= i < |run| ==> run[i] == i1 || run[i] == i2;
    }
    hide StablePorts;
    RunUnfolds([i1]);
    RunUnfolds([i1, i2]);
    RunUnfolds(run);
    ReplyStep(START, sock, 1, f, map[]);
    PlainStep(After([i1]), sock, 2, g, SwitchTable([i1], sock));
    ReplyStep(After([i1, i2]), sock, 1, f, SwitchTable([i1, i2], sock));
  }

  lemma RunUnfolds(run: seq<Input>)
    requires run != []
    ensures var t := |run| - 1;
            var (c, ms) := Step(After(run[..t]), run[t].sock, run[t].event);
            After(run) == c && SwitchTable(run, run[t].sock) == ApplyAll(SwitchTable(run[..t], run[t].sock), ms)
    ensures After([]) == START && SwitchTable([], run[|run| - 1].sock) == map[]
  {
    hide Step, ApplyAll;
  }

  /** What an ARP reply, or an ordinary frame, does to notes, learned ports and the switch's table. */
  lemma ReplyStep(c: CState, sock: Sock, inPort: uint16, frame: Frame, table: map<FlowKey, uint16>)
    requires IsArpReply(frame)
    ensures var (c', ms) := Step(c, sock, GotPacketIn(inPort, frame));
            var back, there := FlowKey(Dst(frame), Src(frame)), FlowKey(Src(frame), Dst(frame));
            var port := FindPort(LearnFrom(c, sock, inPort, frame), sock, Dst(frame));
            && c'.ll == FirstWins(c.ll, (sock, Src(frame)), inPort)
            && c'.flows == FirstWins(FirstWins(c.flows, (sock, back), inPort), (sock, there), port)
            && ApplyAll(table, ms) == table[back := inPort][there := port]
  {
    AppliedStep(c, sock, GotPacketIn(inPort, frame), table);
    hide ApplyAll, FirstWins, FindPort;
  }

  lemma PlainStep(c: CState, sock: Sock, inPort: uint16, frame: Frame, table: map<FlowKey, uint16>)
    requires !IsArpReply(frame) && !IsLoopback(frame)
    ensures var (c', ms) := Step(c, sock, GotPacketIn(inPort, frame));
            && c'.ll == FirstWins(c.ll, (sock, Src(frame)), inPort) && c'.flows == c.flows
            && ApplyAll(table, ms) == table
  {
    AppliedStep(c, sock, GotPacketIn(inPort, frame), table);
    hide ApplyAll, FirstWins, FindPort;
  }

  // ------------------------------------------------------------------ transaction ids

  predicate SendsLoopFlow(event: Event) {
    event.GotPacketIn? && !IsArpReply(event.frame) && IsLoopback(event.frame)
  }

  /** Echo replies and loop flow-mods are not counted. */
  predicate Counted(event: Event) {
    !event.GotEcho? && !SendsLoopFlow(event)
  }

  function Xids(ms: seq<Message>): (x: seq<uint32>)
    ensures |x| == |ms|
  {
    seq(|ms|, i requires 0 <= i < |ms| => ms[i].xid)
  }

  /** The ids of the counted messages of a run, in the order of sending. */
  function CountedXids(run: seq<Input>): seq<uint32> {
    if run == [] then
      []
    else
      var t := |run| - 1;
      CountedXids(run[..t]) + if Counted(run[t].event) then Xids(SentAt(run, t)) else []
  }

  /** The n-th id, counting from 0 and wrapping around at 2^32. */
  function NthXid(n: nat): uint32 {
    n % 0x1_0000_0000
  }

  lemma NextIsNth(n: nat)
    ensures NextXid(NthXid(n)) == NthXid(n + 1)
  {
  }

  lemma NthXidsDiffer(i: nat, j: nat)
    requires i < j
    ensures j - i < 0x1_0000_0000 ==> NthXid(i) != NthXid(j)
    ensures j - i == 0x1_0000_0000 ==> NthXid(i) == NthXid(j)
  {
  }

  lemma StepXids(c: CState, sock: Sock, event: Event, n: nat)
    requires c.xid == NthXid(n)
    ensures Counted(event) ==>
              && Step(c, sock, event).0.xid == NthXid(n + |Step(c, sock, event).1|)
              && forall k :: 0 <= k < |Step(c, sock, event).1| ==> Step(c, sock, event).1[k].xid == NthXid(n + k)
    ensures !Counted(event) ==> Step(c, sock, event).0.xid == c.xid
  {
    NextIsNth(n);
    NextIsNth(n + 1);
    NextIsNth(n + 2);
  }

  /** Counted messages are numbered consecutively from 1, modulo 2^32, and the counter is always one ahead. */
  lemma {:induction false} XidsAreConsecutive(run: seq<Input>)
    ensures After(run).xid == NthXid(1 + |CountedXids(run)|)
    ensures forall k :: 0 <= k < |CountedXids(run)| ==> CountedXids(run)[k] == NthXid(1 + k)
  {
    hide After, CountedXids, Step, Counted, NthXid, Xids;
    if run == [] {
      NoneCounted();
    } else {
      var t := |run| - 1;
      XidsAreConsecutive(run[..t]);
      var c, before := After(run[..t]), CountedXids(run[..t]);
      CountedXidsUnfold(run);
      StepXids(c, run[t].sock, run[t].event, 1 + |before|);
      if Counted(run[t].event) {
        MoreXids(before, Step(c, run[t].sock, run[t].event).1);
      }
    }
  }

  lemma MoreXids(before: seq<uint32>, ms: seq<Message>)
    requires forall k :: 0 <= k < |before| ==> before[k] == NthXid(1 + k)
    requires forall k :: 0 <= k < |ms| ==> ms[k].xid == NthXid(1 + |before| + k)
    ensures forall k :: 0 <= k < |before + Xids(ms)| ==> (before + Xids(ms))[k] == NthXid(1 + k)
  {
    hide NthXid;
    forall k | |before| <= k < |before + Xids(ms)| ensures (before + Xids(ms))[k] == NthXid(1 + k) {
      assert ms[k - |before|].xid == NthXid(1 + |before| + (k - |before|));
    }
  }

  lemma NoneCounted()
    ensures CountedXids([]) == [] && After([]).xid == NthXid(1)
  {
  }

  lemma CountedXidsUnfold(run: seq<Input>)
    requires run != []
    ensures var t := |run| - 1;
            var (c, ms) := Step(After(run[..t]), run[t].sock, run[t].event);
            && After(run) == c
            && CountedXids(run) == CountedXids(run[..t]) + if Counted(run[t].event) then Xids(ms) else []
  {
    hide Step, Counted;
  }

  /** Two counted messages fewer than 2^32 apart never share an id; 2^32 apart they do. */
  lemma XidsAreDistinct(run: seq<Input>, i: nat, j: nat)
    requires i < j < |CountedXids(run)|
    ensures j - i < 0x1_0000_0000 ==> CountedXids(run)[i] != CountedXids(run)[j]
    ensures j - i == 0x1_0000_0000 ==> CountedXids(run)[i] == CountedXids(run)[j]
  {
    XidsAreConsecutive(run);
    NthXidsDiffer(1 + i, 1 + j);
  }

  // ------------------------------------------------------------------ ids of all messages but echo replies

  /** The id a message carries, and whether it is a counted one. */
  datatype Stamp = Stamp(xid: uint32, counted: bool)

  /** The input makes the controller send something other than an echo reply. */
  predicate SendsNumbered(event: Event) {
    event.GotHello? || event.GotFeatures? || event.GotPacketIn?
  }

  /** The stamps of the messages sent in response to an event. */
  function StampsOf(event: Event, ms: seq<Message>): seq<Stamp> {
    if event.GotEcho? then [] else seq(|ms|, i requires 0 <= i < |ms| => Stamp(ms[i].xid, Counted(event)))
  }

  function StampsAt(run: seq<Input>, t: nat): seq<Stamp>
    requires t < |run|
  {
    StampsOf(run[t].event, SentAt(run, t))
  }

  /** All messages of a run but the echo replies, in the order of sending. */
  function Stamps(run: seq<Input>): seq<Stamp> {
    if run == [] then []
    else
      var t := |run| - 1;
      Stamps(run[..t]) + StampsAt(run, t)
  }

  /** How many of them are counted. */
  function CountedIn(stamps: seq<Stamp>): nat {
    if stamps == [] then 0
    else CountedIn(stamps[..|stamps| - 1]) + if stamps[|stamps| - 1].counted then 1 else 0
  }

  lemma {:induction false} AllCountedIn(before: seq<Stamp>, more: seq<Stamp>)
    requires forall i :: 0 <= i < |more| ==> more[i].counted
    ensures CountedIn(before + more) == CountedIn(before) + |more|
    decreases |more|
  {
    if more == [] {
      assert before + more == before;
    } else {
      var n := |more| - 1;
      AllCountedIn(before, more[..n]);
      assert (before + more)[..|before| + n] == before + more[..n];
    }
  }

  lemma OneCountedIn(before: seq<Stamp>, stamp: Stamp)
    ensures CountedIn(before + [stamp]) == CountedIn(before) + if stamp.counted then 1 else 0
  {
    assert (before + [stamp])[..|before|] == before;
  }

  /** What one input adds: nothing, one loop flow-mod, or counted messages, with ids from the counter onwards. */
  ghost predicate Adds(event: Event, more: seq<Stamp>, n: nat) {
    && (more == [] <==> !SendsNumbered(event))
    && (if SendsLoopFlow(event) then |more| == 1 && !more[0].counted else AllCounted(more))
    && (forall i :: 0 <= i < |more| ==> more[i].xid == NthXid(n + i))
  }

  predicate AllCounted(stamps: seq<Stamp>) {
    forall i :: 0 <= i < |stamps| ==> stamps[i].counted
  }

  lemma StampsOfStep(run: seq<Input>, t: nat)
    requires t < |run|
    ensures Adds(run[t].event, StampsAt(run, t), 1 + |CountedXids(run[..t])|)
  {
    var c, event, n := After(run[..t]), run[t].event, 1 + |CountedXids(run[..t])|;
    XidsAreConsecutive(run[..t]);
    StepXids(c, run[t].sock, event, n);
    HowManySent(c, run[t].sock, event);
    hide After, CountedXids, NthXid, IsArpReply, IsLoopback, Step, Adds, StampsOf;
    StampsAdd(event, SentAt(run, t), n);
  }

  lemma StampsAdd(event: Event, ms: seq<Message>, n: nat)
    requires ms == [] <==> !SendsNumbered(event) && !event.GotEcho?
    requires SendsLoopFlow(event) ==> |ms| == 1 && ms[0].xid == NthXid(n)
    requires Counted(event) ==> forall k :: 0 <= k < |ms| ==> ms[k].xid == NthXid(n + k)
    ensures Adds(event, StampsOf(event, ms), n)
  {
    hide NthXid, IsArpReply, IsLoopback;
    assert n + 0 == n;
  }

  lemma HowManySent(c: CState, sock: Sock, event: Event)
    ensures var ms := Step(c, sock, event).1;
            && |ms| == (match event
                        case GotHello => 2
                        case GotFeatures => 2
                        case GotEcho(_) => 1
                        case GotPacketIn(_, frame) => if IsArpReply(frame) then 3 else 1
                        case _ => 0)
            && (SendsLoopFlow(event) ==> ms[0].xid == c.xid)
  {
    hide IsArpReply, IsLoopback, FirstWins, FindPort, NextXid;
  }

  lemma StampsRecursion(run: seq<Input>)
    requires run != []
    ensures Stamps(run) == Stamps(run[..|run| - 1]) + StampsAt(run, |run| - 1)
  {
    hide StampsAt;
  }

  lemma CountedXidsRecursion(run: seq<Input>)
    requires run != []
    ensures var t := |run| - 1;
            |CountedXids(run)| == |CountedXids(run[..t])| + if SendsLoopFlow(run[t].event) then 0 else |StampsAt(run, t)|
  {
    hide SentAt, SendsLoopFlow;
  }

  lemma {:induction false} StampsUnfold(run: seq<Input>)
    requires run != []
    ensures var t := |run| - 1;
            && Stamps(run) == Stamps(run[..t]) + StampsAt(run, t)
            && Adds(run[t].event, StampsAt(run, t), 1 + |CountedXids(run[..t])|)
            && |CountedXids(run)| ==
               |CountedXids(run[..t])| + if SendsLoopFlow(run[t].event) then 0 else |StampsAt(run, t)|
  {
    StampsOfStep(run, |run| - 1);
    StampsRecursion(run);
    CountedXidsRecursion(run);
    hide Stamps, StampsAt, CountedXids, SentAt, Adds, SendsLoopFlow;
  }

  lemma {:induction false} StampsCount(run: seq<Input>)
    ensures CountedIn(Stamps(run)) == |CountedXids(run)|
  {
    hide StampsAt, CountedXids, SendsLoopFlow, SendsNumbered;
    if run == [] {
      assert Stamps(run) == [] && CountedXids(run) == [] by {
        NoStamps();
      }
    } else {
      var t := |run| - 1;
      var before, more := Stamps(run[..t]), StampsAt(run, t);
      StampsCount(run[..t]);
      StampsUnfold(run);
      hide Stamps;
      if SendsLoopFlow(run[t].event) {
        assert more == [more[0]];
        OneCountedIn(before, more[0]);
      } else {
        AllCountedIn(before, more);
      }
    }
  }

  lemma NoStamps()
    ensures Stamps([]) == [] && CountedXids([]) == []
  {
  }

  /** The k-th message other than an echo reply carries the id that comes after those of the counted messages before it,
      whether it is counted itself or not. */
  lemma {:induction false} XidsExactly(run: seq<Input>, k: nat)
    requires k < |Stamps(run)|
    ensures Stamps(run)[k].xid == NthXid(1 + CountedIn(Stamps(run)[..k]))
  {
    NoStamps();
    hide Stamps, StampsAt, CountedXids, SendsLoopFlow, SendsNumbered, NthXid;
    assert run != [];
    var t := |run| - 1;
    var before, more := Stamps(run[..t]), StampsAt(run, t);
    StampsUnfold(run);
    if k < |before| {
      XidsExactly(run[..t], k);
      assert Stamps(run)[..k] == before[..k];
    } else {
      StampsCount(run[..t]);
      assert Stamps(run)[..k] == before + more[..k - |before|];
      AllCountedIn(before, more[..k - |before|]);
    }
  }

  ghost predicate NoLoopFlows(run: seq<Input>) {
    forall t :: 0 <= t < |run| ==> !SendsLoopFlow(run[t].event)
  }

  /** No loop flow-mod is followed by another message that is not an echo reply. */
  ghost predicate LoopFlowsComeLast(run: seq<Input>) {
    forall t, u :: 0 <= t < u < |run| && SendsLoopFlow(run[t].event) ==> !SendsNumbered(run[u].event)
  }

  /** All messages but the last are counted. */
  ghost predicate AllButLastCounted(stamps: seq<Stamp>) {
    forall i :: 0 <= i < |stamps| - 1 ==> stamps[i].counted
  }

  lemma AllCountedConcat(before: seq<Stamp>, more: seq<Stamp>)
    ensures AllCounted(before + more) <==> AllCounted(before) && AllCounted(more)
  {
    assert forall i :: 0 <= i < |before| ==> (before + more)[i] == before[i];
    assert forall i :: 0 <= i < |more| ==> (before + more)[|before| + i] == more[i];
  }

  lemma AllButLastConcat(before: seq<Stamp>, more: seq<Stamp>)
    requires more != [] && AllButLastCounted(more)
    ensures AllButLastCounted(before + more) <==> AllCounted(before)
  {
    assert forall i :: 0 <= i < |before| ==> (before + more)[i] == before[i];
    assert forall i :: 0 <= i < |more| ==> (before + more)[|before| + i] == more[i];
  }

  lemma OneMoreInput(run: seq<Input>)
    requires run != []
    ensures var t := |run| - 1;
            && (NoLoopFlows(run) <==> NoLoopFlows(run[..t]) && !SendsLoopFlow(run[t].event))
            && (LoopFlowsComeLast(run) <==>
                  LoopFlowsComeLast(run[..t]) && (SendsNumbered(run[t].event) ==> NoLoopFlows(run[..t])))
  {
    hide SendsLoopFlow, SendsNumbered;
    var t := |run| - 1;
    assert forall u :: 0 <= u < t ==> run[..t][u] == run[u];
  }

  lemma {:induction false} AllAreCounted(run: seq<Input>)
    ensures AllCounted(Stamps(run)) <==> NoLoopFlows(run)
  {
    NoStamps();
    hide Stamps, StampsAt, CountedXids, NoLoopFlows, SendsLoopFlow, SendsNumbered, NthXid;
    if run == [] {
      NoInputs();
    } else {
      var t := |run| - 1;
      AllAreCounted(run[..t]);
      StampsUnfold(run);
      OneMoreInput(run);
      AllCountedConcat(Stamps(run[..t]), StampsAt(run, t));
    }
  }

  lemma NoInputs()
    ensures NoLoopFlows([]) && LoopFlowsComeLast([])
  {
  }

  lemma {:induction false} LoopFlowsLast(run: seq<Input>)
    ensures AllButLastCounted(Stamps(run)) <==> LoopFlowsComeLast(run)
  {
    NoStamps();
    hide Stamps, StampsAt, CountedXids, NoLoopFlows, LoopFlowsComeLast, SendsLoopFlow, SendsNumbered, NthXid;
    if run == [] {
      NoInputs();
    } else {
      var t := |run| - 1;
      var before, more := Stamps(run[..t]), StampsAt(run, t);
      LoopFlowsLast(run[..t]);
      AllAreCounted(run[..t]);
      StampsUnfold(run);
      OneMoreInput(run);
      if more == [] {
        assert before + more == before;
      } else {
        AllButLastConcat(before, more);
        assert NoLoopFlows(run[..t]) ==> LoopFlowsComeLast(run[..t]) by {
          NoneMeansLast(run[..t]);
        }
      }
    }
  }

  lemma NoneMeansLast(run: seq<Input>)
    ensures NoLoopFlows(run) ==> LoopFlowsComeLast(run)
  {
  }

  /** Messages fewer than 2^32 apart, echo replies not counted, never share an id. */
  ghost predicate XidsDiffer(stamps: seq<Stamp>) {
    forall i, j :: 0 <= i < j < |stamps| && j - i < 0x1_0000_0000 ==> stamps[i].xid != stamps[j].xid
  }

  lemma {:induction false} CountedUpTo(stamps: seq<Stamp>, k: nat)
    requires k <= |stamps| && forall i :: 0 <= i < k ==> stamps[i].counted
    ensures CountedIn(stamps[..k]) == k
  {
    assert [] + stamps[..k] == stamps[..k];
    AllCountedIn([], stamps[..k]);
  }

  /** The ids of all messages but the echo replies are distinct, as far as the counter goes, if and only if no loop
      flow-mod is followed by another such message. */
  lemma XidsDifferExactly(run: seq<Input>)
    ensures XidsDiffer(Stamps(run)) <==> LoopFlowsComeLast(run)
  {
    LoopFlowsLast(run);
    var stamps := Stamps(run);
    hide Stamps, LoopFlowsComeLast;
    if AllButLastCounted(stamps) {
      forall i, j | 0 <= i < j < |stamps| && j - i < 0x1_0000_0000 ensures stamps[i].xid != stamps[j].xid {
        XidsExactly(run, i);
        XidsExactly(run, j);
        CountedUpTo(stamps, i);
        CountedUpTo(stamps, j);
        NthXidsDiffer(1 + i, 1 + j);
      }
    }
    if XidsDiffer(stamps) {
      forall i | 0 <= i < |stamps| - 1 ensures stamps[i].counted {
        XidsExactly(run, i);
        XidsExactly(run, i + 1);
        assert stamps[..i + 1] == stamps[..i] + [stamps[i]];
        OneCountedIn(stamps[..i], stamps[i]);
        assert stamps[i].xid != stamps[i + 1].xid;
      }
    }
  }

  /** A run in which they are not: two frames addressed to their own sender give two flow-mods with id 1. */
  lemma LoopFlowsShareXid(sock: Sock, mac: Mac, port: uint16)
    ensures var i := Input(sock, GotPacketIn(port, PlainFrame(mac, mac)));
            Stamps([i, i]) == [Stamp(1, false), Stamp(1, false)] && !XidsDiffer(Stamps([i, i]))
  {
    var i := Input(sock, GotPacketIn(port, PlainFrame(mac, mac)));
    var run := [i, i];
    assert run[..1] == [i] && [i][..0] == [];
    assert Stamps([]) == [];
    StampsUnfold([i]);
    StampsUnfold(run);
    hide Stamps, StampsAt, CountedXids;
    NoStamps();
    assert SendsLoopFlow(i.event);
    var stamps := Stamps(run);
    assert stamps == [stamps[0], stamps[1]];
    assert 0 <= 0 < 1 < |stamps| && stamps[0].xid == stamps[1].xid;
  }

  /** A message that is not counted: an echo reply carries the id of its request, a loop flow-mod the one that the next
      counted message, if any, will carry. */
  lemma UncountedXids(run: seq<Input>, t: nat)
    requires t < |run| && !Counted(run[t].event)
    ensures |SentAt(run, t)| == 1
    ensures run[t].event.GotEcho? ==> SentAt(run, t)[0] == EchoReply(run[t].event.xid)
    ensures SendsLoopFlow(run[t].event) ==> SentAt(run, t)[0].xid == NthXid(1 + |CountedXids(run[..t])|)
  {
    XidsAreConsecutive(run[..t]);
  }
}
