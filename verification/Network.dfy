/**
 The controller at work: switches, hosts and cables around it, first-in first-out connections, and every
 interleaving of what they do.

 A trail lists the locations at which a frame has arrived so far. Trails and the controller's log record
 history; no switch, and not the controller, looks at a trail.
 */
module Network {
  import opened Bytes
  import opened OpenFlow
  import opened ControllerSpec
  import T = Topology

  type Trail = seq<T.Loc>

  datatype Flight = Flight(frame: Frame, trail: Trail, at: T.Loc)

  datatype Up = Up(event: Event, trail: Trail)

  datatype Down = Down(msg: Message, trail: Trail)

  datatype Net = Net(
    log: seq<Input>,                           // what the controller has handled
    tables: map<Sock, map<FlowKey, uint16>>,   // the switches' flow tables
    up: map<Sock, seq<Up>>,                    // messages to the controller, oldest first
    down: map<Sock, seq<Down>>,                // messages to the switches, oldest first
    air: multiset<Flight>)                     // frames on cables, with the port they will arrive at

  const QUIET := Net([], map[], map[], map[], multiset{})

  datatype Action =
    | HostSends(mac: Mac, frame: Frame)
    | Arrives(flight: Flight, punt: bool)
    | Lost(flight: Flight)
    | Talks(sock: Sock, event: Event)
    | Serves(sock: Sock)
    | Applies(sock: Sock, punt: bool)

  function Queue<M>(q: map<Sock, seq<M>>, s: Sock): seq<M> {
    if s in q then q[s] else []
  }

  function Table(net: Net, s: Sock): map<FlowKey, uint16> {
    if s in net.tables then net.tables[s] else map[]
  }

  function Messages(ds: seq<Down>): seq<Message> {
    seq(|ds|, i requires 0 <= i < |ds| => ds[i].msg)
  }

  function Tagged(ms: seq<Message>, trail: Trail): seq<Down> {
    seq(|ms|, i requires 0 <= i < |ms| => Down(ms[i], trail))
  }

  // ------------------------------------------------------------------ what a switch does

  /** Output to one port: nothing leaves through the port the frame is said to have come in on, or through a port
      without a cable to another switch. */
  function Emit(topo: T.Topology, s: Sock, inPort: uint16, port: uint16, frame: Frame, trail: Trail): multiset<Flight> {
    var l := T.Loc(s, port);
    if l in topo.link && port != inPort then multiset{Flight(frame, trail, topo.link[l])} else multiset{}
  }

  /** OFPP_FLOOD: all physical ports except the input port. */
  function Flood(topo: T.Topology, s: Sock, inPort: uint16, frame: Frame, trail: Trail): multiset<Flight> {
    multiset(set l | l in topo.link && l.sw == s && l.port != inPort :: Flight(frame, trail, topo.link[l]))
  }

  /** A frame meets the flow table. On a miss the controller is asked, either by the table-miss rule (punt is false,
      reason OFPR_NO_MATCH) or by an explicit action (punt is true, reason OFPR_ACTION). */
  function Lookup(topo: T.Topology, net: Net, s: Sock, inPort: uint16, frame: Frame, trail: Trail, punt: bool): Net {
    var key := FlowKey(Src(frame), Dst(frame));
    if key in Table(net, s) then
      net.(air := net.air + Emit(topo, s, inPort, Table(net, s)[key], frame, trail))
    else
      net.(up := net.up[s := Queue(net.up, s) + [Up(if punt then GotPacketIn(inPort, frame) else GotNoMatch, trail)]])
  }

  predicate Enabled(topo: T.Topology, net: Net, a: Action) {
    match a
    case HostSends(mac, frame) => mac in topo.host && Src(frame) == mac
    case Arrives(flight, _) => flight in net.air
    case Lost(flight) => flight in net.air
    case Talks(_, event) => !event.GotPacketIn?
    case Serves(s) => Queue(net.up, s) != []
    case Applies(s, _) => Queue(net.down, s) != []
  }

  /** The first message is taken off the connection and, if it is a flow-mod, applied. */
  function TakeFirst(net: Net, s: Sock): Net
    requires Queue(net.down, s) != []
  {
    net.(down := net.down[s := Queue(net.down, s)[1..]],
         tables := net.tables[s := Apply(Table(net, s), Queue(net.down, s)[0].msg)])
  }

  function Do(topo: T.Topology, net: Net, a: Action): Net
    requires Enabled(topo, net, a)
  {
    match a
    case HostSends(mac, frame) => net.(air := net.air + multiset{Flight(frame, [], topo.host[mac])})
    case Arrives(f, punt) =>
      Lookup(topo, net.(air := net.air - multiset{f}), f.at.sw, f.at.port, f.frame, f.trail + [f.at], punt)
    case Lost(f) => net.(air := net.air - multiset{f})
    case Talks(s, event) => net.(up := net.up[s := Queue(net.up, s) + [Up(event, [])]])
    case Serves(s) =>
      var u := Queue(net.up, s)[0];
      var sent := Step(After(net.log), s, u.event).1;
      net.(log := net.log + [Input(s, u.event)],
           up := net.up[s := Queue(net.up, s)[1..]],
           down := net.down[s := Queue(net.down, s) + Tagged(sent, u.trail)])
    case Applies(s, punt) =>
      var d := Queue(net.down, s)[0];
      var rest := TakeFirst(net, s);
      match d.msg
      case PacketOut(_, _, inPort, action, frame) =>
        if action.port == OFPP_FLOOD then rest.(air := rest.air + Flood(topo, s, inPort, frame, d.trail))
        else if action.port == OFPP_TABLE then Lookup(topo, rest, s, inPort, frame, d.trail, punt)
        else rest.(air := rest.air + Emit(topo, s, inPort, action.port, frame, d.trail))
      case _ => rest
  }

  ghost predicate IsStep(topo: T.Topology, net: Net, a: Action, net': Net) {
    Enabled(topo, net, a) && net' == Do(topo, net, a)
  }

  /** One state before and one after each action. */
  ghost predicate IsPath(topo: T.Topology, nets: seq<Net>, acts: seq<Action>) {
    && |nets| == |acts| + 1
    && forall i :: 0 <= i < |acts| ==> IsStep(topo, nets[i], acts[i], nets[i + 1])
  }

  ghost predicate IsExecution(topo: T.Topology, nets: seq<Net>, acts: seq<Action>) {
    IsPath(topo, nets, acts) && nets[0] == QUIET
  }

  /** Some execution ends in net. */
  ghost predicate Reachable(topo: T.Topology, net: Net) {
    exists nets, acts :: IsExecution(topo, nets, acts) && nets[|acts|] == net
  }

  lemma QuietIsReachable(topo: T.Topology)
    ensures Reachable(topo, QUIET)
  {
    assert IsExecution(topo, [QUIET], []);
  }

  lemma StepIsReachable(topo: T.Topology, net: Net, a: Action)
    requires Reachable(topo, net) && Enabled(topo, net, a)
    ensures Reachable(topo, Do(topo, net, a))
  {
    var nets, acts :| IsExecution(topo, nets, acts) && nets[|acts|] == net;
    var nets', acts' := nets + [Do(topo, net, a)], acts + [a];
    hide Do, Enabled;
    forall i | 0 <= i < |acts'| ensures IsStep(topo, nets'[i], acts'[i], nets'[i + 1]) {
      assert i < |acts| ==> IsStep(topo, nets[i], acts[i], nets[i + 1]);
    }
    assert IsExecution(topo, nets', acts') && nets'[|acts'|] == Do(topo, net, a);
  }

  // ------------------------------------------------------------------ the invariant

  /** The trail is a journey of a frame from its sender to l. */
  ghost predicate Arrived(topo: T.Topology, frame: Frame, trail: Trail, l: T.Loc) {
    T.From(topo, Src(frame), trail) && T.Last(trail) == l
  }

  ghost predicate AirOk(topo: T.Topology, air: multiset<Flight>) {
    forall f :: f in air ==> Arrived(topo, f.frame, f.trail + [f.at], f.at)
  }

  ghost predicate UpMsgOk(topo: T.Topology, s: Sock, u: Up) {
    u.event.GotPacketIn? ==> Arrived(topo, u.event.frame, u.trail, T.Loc(s, u.event.inPort))
  }

  ghost predicate UpOk(topo: T.Topology, up: map<Sock, seq<Up>>) {
    forall s, i :: 0 <= i < |Queue(up, s)| ==> UpMsgOk(topo, s, Queue(up, s)[i])
  }

  /** A flow's port is zero or lies toward its destination. */
  ghost predicate LeadsTo(topo: T.Topology, s: Sock, dst: Mac, port: uint16) {
    port != 0 ==> T.Toward(topo, dst, T.Loc(s, port))
  }

  ghost predicate DownMsgOk(topo: T.Topology, s: Sock, d: Down) {
    match d.msg
    case FlowMod(_, pattern, _, _, _, _, _, _, _, _, _, action) => LeadsTo(topo, s, pattern.dlDst, action.port)
    case PacketOut(_, _, inPort, _, frame) => Arrived(topo, frame, d.trail, T.Loc(s, inPort))
    case _ => true
  }

  ghost predicate DownOk(topo: T.Topology, down: map<Sock, seq<Down>>) {
    forall s, i :: 0 <= i < |Queue(down, s)| ==> DownMsgOk(topo, s, Queue(down, s)[i])
  }

  ghost predicate LogOk(topo: T.Topology, log: seq<Input>) {
    forall i :: 0 <= i < |log| && log[i].event.GotPacketIn? ==>
      T.Toward(topo, Src(log[i].event.frame), T.Loc(log[i].sock, log[i].event.inPort))
  }

  ghost predicate TableOk(topo: T.Topology, s: Sock, table: map<FlowKey, uint16>) {
    forall key :: key in table ==> LeadsTo(topo, s, key.dst, table[key])
  }

  ghost predicate TablesOk(topo: T.Topology, net: Net) {
    forall s :: TableOk(topo, s, Table(net, s))
  }

  /** Once switch s has applied what is on its way, its table is the one the controller's run determines. */
  ghost predicate CaughtUp(net: Net, s: Sock) {
    ApplyAll(Table(net, s), Messages(Queue(net.down, s))) == SwitchTable(net.log, s)
  }

  ghost predicate Inv(topo: T.Topology, net: Net) {
    && AirOk(topo, net.air)
    && UpOk(topo, net.up)
    && DownOk(topo, net.down)
    && LogOk(topo, net.log)
    && TablesOk(topo, net)
    && forall s :: CaughtUp(net, s)
  }

  // ------------------------------------------------------------------ it holds in every state of every execution

  lemma OneHopOn(topo: T.Topology, frame: Frame, trail: Trail, s: Sock, inPort: uint16, l: T.Loc)
    requires T.Valid(topo) && Arrived(topo, frame, trail, T.Loc(s, inPort))
    requires l in topo.link && l.sw == s && l.port != inPort
    ensures Arrived(topo, frame, trail + [topo.link[l]], topo.link[l])
  {
    assert T.Hop(topo, T.Loc(s, inPort), topo.link[l]);
    var w := trail + [topo.link[l]];
    forall i | 0 < i < |w| ensures T.Hop(topo, w[i - 1], w[i]) {
      if i < |trail| {
        assert T.Hop(topo, trail[i - 1], trail[i]);
      }
    }
  }

  lemma EmitOk(topo: T.Topology, s: Sock, inPort: uint16, port: uint16, frame: Frame, trail: Trail)
    requires T.Valid(topo) && Arrived(topo, frame, trail, T.Loc(s, inPort))
    ensures AirOk(topo, Emit(topo, s, inPort, port, frame, trail))
  {
    var l := T.Loc(s, port);
    if l in topo.link && port != inPort {
      OneHopOn(topo, frame, trail, s, inPort, l);
    }
  }

  lemma FloodOk(topo: T.Topology, s: Sock, inPort: uint16, frame: Frame, trail: Trail)
    requires T.Valid(topo) && Arrived(topo, frame, trail, T.Loc(s, inPort))
    ensures AirOk(topo, Flood(topo, s, inPort, frame, trail))
  {
    forall f | f in Flood(topo, s, inPort, frame, trail)
      ensures Arrived(topo, f.frame, f.trail + [f.at], f.at)
    {
      var l :| l in topo.link && l.sw == s && l.port != inPort && f == Flight(frame, trail, topo.link[l]);
      OneHopOn(topo, frame, trail, s, inPort, l);
    }
  }

  lemma LookupOk(topo: T.Topology, net: Net, s: Sock, inPort: uint16, frame: Frame, trail: Trail, punt: bool)
    requires T.Valid(topo) && Inv(topo, net) && Arrived(topo, frame, trail, T.Loc(s, inPort))
    ensures Inv(topo, Lookup(topo, net, s, inPort, frame, trail, punt))
  {
    var net' := Lookup(topo, net, s, inPort, frame, trail, punt);
    var key := FlowKey(Src(frame), Dst(frame));
    if key in Table(net, s) {
      EmitOk(topo, s, inPort, Table(net, s)[key], frame, trail);
    } else {
      forall r, i | 0 <= i < |Queue(net'.up, r)| ensures UpMsgOk(topo, r, Queue(net'.up, r)[i]) {
        assert r != s || i < |Queue(net.up, s)| ==> Queue(net'.up, r)[i] == Queue(net.up, r)[i];
      }
    }
    forall r ensures CaughtUp(net', r) && TableOk(topo, r, Table(net', r)) {
      assert CaughtUp(net, r) && TableOk(topo, r, Table(net, r));
    }
  }

  /** Every flow-mod the controller sends leads toward its destination. */
  lemma ModsLead(topo: T.Topology, log: seq<Input>, t: nat, k: nat)
    requires LogOk(topo, log) && t < |log| && k < |SentAt(log, t)| && SentAt(log, t)[k].FlowMod?
    ensures LeadsTo(topo, log[t].sock, SentAt(log, t)[k].pattern.dlDst, SentAt(log, t)[k].action.port)
  {
    JustifiedForwarding(log, t, k);
  }

  lemma LogGrows(topo: T.Topology, net: Net, s: Sock)
    requires LogOk(topo, net.log) && Queue(net.up, s) != [] && UpMsgOk(topo, s, Queue(net.up, s)[0])
    ensures var net' := Do(topo, net, Serves(s));
            && LogOk(topo, net'.log)
            && SentAt(net'.log, |net.log|) == Step(After(net.log), s, Queue(net.up, s)[0].event).1
            && SwitchTable(net'.log, s) == ApplyAll(SwitchTable(net.log, s), SentAt(net'.log, |net.log|))
            && forall r :: r != s ==> SwitchTable(net'.log, r) == SwitchTable(net.log, r)
  {
    var net' := Do(topo, net, Serves(s));
    assert net'.log[..|net.log|] == net.log;
    forall i | 0 <= i < |net'.log| && net'.log[i].event.GotPacketIn?
      ensures T.Toward(topo, Src(net'.log[i].event.frame), T.Loc(net'.log[i].sock, net'.log[i].event.inPort))
    {
      assert i < |net.log| ==> net'.log[i] == net.log[i];
    }
  }

  lemma AnswerIsOk(topo: T.Topology, net: Net, s: Sock, k: nat)
    requires LogOk(topo, net.log) && Queue(net.up, s) != [] && UpMsgOk(topo, s, Queue(net.up, s)[0])
    requires k < |Step(After(net.log), s, Queue(net.up, s)[0].event).1|
    ensures var u := Queue(net.up, s)[0];
            DownMsgOk(topo, s, Down(Step(After(net.log), s, u.event).1[k], u.trail))
  {
    var net', u := Do(topo, net, Serves(s)), Queue(net.up, s)[0];
    LogGrows(topo, net, s);
    var m := SentAt(net'.log, |net.log|)[k];
    if m.FlowMod? {
      ModsLead(topo, net'.log, |net.log|, k);
    } else if m.PacketOut? {
      HandsBack(After(net.log), s, u.event, k);
    }
    hide Step, After;
  }

  /** A packet-out hands back the frame of the packet-in it answers, and says where it came in. */
  lemma HandsBack(c: CState, s: Sock, event: Event, k: nat)
    requires k < |Step(c, s, event).1| && Step(c, s, event).1[k].PacketOut?
    ensures var m := Step(c, s, event).1[k];
            event.GotPacketIn? && m.inPort == event.inPort && m.frame == event.frame
  {
    hide IsArpReply, IsLoopback, FirstWins, FindPort;
  }

  lemma AnswersOk(topo: T.Topology, net: Net, s: Sock)
    requires DownOk(topo, net.down) && LogOk(topo, net.log)
    requires Queue(net.up, s) != [] && UpMsgOk(topo, s, Queue(net.up, s)[0])
    ensures DownOk(topo, Do(topo, net, Serves(s)).down)
  {
    hide Step, After, DownMsgOk, UpMsgOk, LogOk;
    var net', u := Do(topo, net, Serves(s)), Queue(net.up, s)[0];
    var sent := Step(After(net.log), s, u.event).1;
    forall r, i | 0 <= i < |Queue(net'.down, r)| ensures DownMsgOk(topo, r, Queue(net'.down, r)[i]) {
      var n := |Queue(net.down, r)|;
      if r != s || i < n {
        assert Queue(net'.down, r)[i] == Queue(net.down, r)[i];
      } else {
        AnswerIsOk(topo, net, s, i - n);
      }
    }
  }

  lemma ServesCaughtUp(topo: T.Topology, net: Net, s: Sock, r: Sock)
    requires LogOk(topo, net.log) && Queue(net.up, s) != [] && UpMsgOk(topo, s, Queue(net.up, s)[0])
    requires CaughtUp(net, r) && TableOk(topo, r, Table(net, r))
    ensures CaughtUp(Do(topo, net, Serves(s)), r) && TableOk(topo, r, Table(Do(topo, net, Serves(s)), r))
  {
    hide Step, After, SwitchTable, ApplyAll;
    var net' := Do(topo, net, Serves(s));
    LogGrows(topo, net, s);
    if r == s {
      var sent := SentAt(net'.log, |net.log|);
      ApplyAllConcat(Table(net, s), Messages(Queue(net.down, s)), sent);
      assert Messages(Queue(net'.down, s)) == Messages(Queue(net.down, s)) + sent;
    }
  }

  lemma ServesOk(topo: T.Topology, net: Net, s: Sock)
    requires T.Valid(topo) && Inv(topo, net) && Enabled(topo, net, Serves(s))
    ensures Inv(topo, Do(topo, net, Serves(s)))
  {
    assert UpMsgOk(topo, s, Queue(net.up, s)[0]);
    LogGrows(topo, net, s);
    AnswersOk(topo, net, s);
    var up := Do(topo, net, Serves(s)).up;
    forall r, i | 0 <= i < |Queue(up, r)| ensures UpMsgOk(topo, r, Queue(up, r)[i]) {
      assert Queue(up, r)[i] == Queue(net.up, r)[if r == s then i + 1 else i];
    }
    forall r ensures CaughtUp(Do(topo, net, Serves(s)), r) && TableOk(topo, r, Table(Do(topo, net, Serves(s)), r)) {
      ServesCaughtUp(topo, net, s, r);
    }
  }

  lemma TakeFirstOk(topo: T.Topology, net: Net, s: Sock)
    requires Inv(topo, net) && Queue(net.down, s) != []
    ensures Inv(topo, TakeFirst(net, s))
  {
    var net', d := TakeFirst(net, s), Queue(net.down, s)[0];
    assert DownMsgOk(topo, s, d);
    forall r, i | 0 <= i < |Queue(net'.down, r)| ensures DownMsgOk(topo, r, Queue(net'.down, r)[i]) {
      assert Queue(net'.down, r)[i] == Queue(net.down, r)[if r == s then i + 1 else i];
    }
    forall r ensures CaughtUp(net', r) && TableOk(topo, r, Table(net', r)) {
      assert CaughtUp(net, r) && TableOk(topo, r, Table(net, r));
      if r == s {
        assert Messages(Queue(net.down, s))[1..] == Messages(Queue(net'.down, s));
      }
    }
  }

  lemma MoreAir(topo: T.Topology, net: Net, air: multiset<Flight>)
    requires Inv(topo, net) && AirOk(topo, air)
    ensures Inv(topo, net.(air := air))
  {
    var net' := net.(air := air);
    forall s ensures CaughtUp(net', s) && TableOk(topo, s, Table(net', s)) {
      assert CaughtUp(net, s) && TableOk(topo, s, Table(net, s));
    }
  }

  lemma AppliesOk(topo: T.Topology, net: Net, s: Sock, punt: bool)
    requires T.Valid(topo) && Inv(topo, net) && Enabled(topo, net, Applies(s, punt))
    ensures Inv(topo, Do(topo, net, Applies(s, punt)))
  {
    var d, rest := Queue(net.down, s)[0], TakeFirst(net, s);
    assert DownMsgOk(topo, s, d);
    TakeFirstOk(topo, net, s);
    if d.msg.PacketOut? {
      var inPort, port, frame := d.msg.inPort, d.msg.action.port, d.msg.frame;
      if port == OFPP_FLOOD {
        FloodOk(topo, s, inPort, frame, d.trail);
        MoreAir(topo, rest, rest.air + Flood(topo, s, inPort, frame, d.trail));
      } else if port == OFPP_TABLE {
        LookupOk(topo, rest, s, inPort, frame, d.trail, punt);
      } else {
        EmitOk(topo, s, inPort, port, frame, d.trail);
        MoreAir(topo, rest, rest.air + Emit(topo, s, inPort, port, frame, d.trail));
      }
    }
  }

  lemma TalksOk(topo: T.Topology, net: Net, s: Sock, event: Event)
    requires Inv(topo, net) && !event.GotPacketIn?
    ensures Inv(topo, net.(up := net.up[s := Queue(net.up, s) + [Up(event, [])]]))
  {
    var net' := net.(up := net.up[s := Queue(net.up, s) + [Up(event, [])]]);
    forall r, i | 0 <= i < |Queue(net'.up, r)| ensures UpMsgOk(topo, r, Queue(net'.up, r)[i]) {
      assert r != s || i < |Queue(net.up, s)| ==> Queue(net'.up, r)[i] == Queue(net.up, r)[i];
    }
    forall r ensures CaughtUp(net', r) && TableOk(topo, r, Table(net', r)) {
      assert CaughtUp(net, r) && TableOk(topo, r, Table(net, r));
    }
  }

  lemma ArrivesOk(topo: T.Topology, net: Net, f: Flight, punt: bool)
    requires T.Valid(topo) && Inv(topo, net) && f in net.air
    ensures Inv(topo, Do(topo, net, Arrives(f, punt)))
  {
    assert Arrived(topo, f.frame, f.trail + [f.at], f.at);
    MoreAir(topo, net, net.air - multiset{f});
    LookupOk(topo, net.(air := net.air - multiset{f}), f.at.sw, f.at.port, f.frame, f.trail + [f.at], punt);
  }

  lemma HostSendsOk(topo: T.Topology, net: Net, mac: Mac, frame: Frame)
    requires Inv(topo, net) && mac in topo.host && Src(frame) == mac
    ensures Inv(topo, Do(topo, net, HostSends(mac, frame)))
  {
    assert Arrived(topo, frame, [topo.host[mac]], topo.host[mac]);
    assert [] + [topo.host[mac]] == [topo.host[mac]];
    MoreAir(topo, net, net.air + multiset{Flight(frame, [], topo.host[mac])});
  }

  lemma StepOk(topo: T.Topology, net: Net, a: Action)
    requires T.Valid(topo) && Inv(topo, net) && Enabled(topo, net, a)
    ensures Inv(topo, Do(topo, net, a))
  {
    match a
    case HostSends(mac, frame) => HostSendsOk(topo, net, mac, frame);
    case Arrives(f, punt) => ArrivesOk(topo, net, f, punt);
    case Lost(f) => MoreAir(topo, net, net.air - multiset{f});
    case Talks(s, event) => TalksOk(topo, net, s, event);
    case Serves(s) => ServesOk(topo, net, s);
    case Applies(s, punt) => AppliesOk(topo, net, s, punt);
  }

  lemma QuietOk(topo: T.Topology)
    ensures Inv(topo, QUIET)
  {
  }

  lemma {:induction false} InvThroughout(topo: T.Topology, nets: seq<Net>, acts: seq<Action>, i: nat)
    requires T.Valid(topo) && IsExecution(topo, nets, acts) && i < |nets|
    ensures Inv(topo, nets[i])
  {
    if i == 0 {
      QuietOk(topo);
    } else {
      hide Inv, Do, Enabled;
      InvThroughout(topo, nets, acts, i - 1);
      assert IsStep(topo, nets[i - 1], acts[i - 1], nets[i]);
      StepOk(topo, nets[i - 1], acts[i - 1]);
    }
  }

  lemma InvAlways(topo: T.Topology, net: Net)
    requires T.Valid(topo) && Reachable(topo, net)
    ensures Inv(topo, net)
  {
    var nets, acts :| IsExecution(topo, nets, acts) && nets[|acts|] == net;
    InvThroughout(topo, nets, acts, |acts|);
  }

  // ------------------------------------------------------------------ what follows from it

  /** A frame on its way, as the list of locations it has arrived at. */
  ghost predicate OnTheWay(net: Net, frame: Frame, trail: Trail) {
    || (exists f :: f in net.air && f.frame == frame && f.trail + [f.at] == trail)
    || (exists s, i :: 0 <= i < |Queue(net.up, s)| && Queue(net.up, s)[i].trail == trail
                    && Queue(net.up, s)[i].event.GotPacketIn? && Queue(net.up, s)[i].event.frame == frame)
    || (exists s, i :: 0 <= i < |Queue(net.down, s)| && Queue(net.down, s)[i].trail == trail
                    && Queue(net.down, s)[i].msg.PacketOut? && Queue(net.down, s)[i].msg.frame == frame)
  }

  lemma TrailsAreJourneys(topo: T.Topology, net: Net, frame: Frame, trail: Trail)
    requires Inv(topo, net) && OnTheWay(net, frame, trail)
    ensures T.From(topo, Src(frame), trail)
  {
    if f :| f in net.air && f.frame == frame && f.trail + [f.at] == trail {
      assert Arrived(topo, frame, trail, f.at);
    } else if s, i :| 0 <= i < |Queue(net.up, s)| && Queue(net.up, s)[i].trail == trail
                      && Queue(net.up, s)[i].event.GotPacketIn? && Queue(net.up, s)[i].event.frame == frame {
      assert UpMsgOk(topo, s, Queue(net.up, s)[i]);
    } else {
      var s, i :| 0 <= i < |Queue(net.down, s)| && Queue(net.down, s)[i].trail == trail
                  && Queue(net.down, s)[i].msg.PacketOut? && Queue(net.down, s)[i].msg.frame == frame;
      assert DownMsgOk(topo, s, Queue(net.down, s)[i]);
    }
  }

  /** On a forest no frame ever visits a switch twice, each cable takes it one further away from its sender, and it
      crosses fewer cables than there are switches. */
  lemma NoLoops(topo: T.Topology, net: Net, frame: Frame, trail: Trail)
    requires T.Valid(topo) && T.Forest(topo) && Reachable(topo, net) && OnTheWay(net, frame, trail)
    ensures T.Simple(trail)
    ensures forall i :: 0 <= i < |trail| ==> T.Distance(topo, Src(frame), trail[i].sw, i)
    ensures |trail| <= |topo.switches|
  {
    InvAlways(topo, net);
    TrailsAreJourneys(topo, net, frame, trail);
    T.JourneysInForests(topo, Src(frame), trail);
  }

  // ------------------------------------------------------------------ loops, where there are any

  /** Nothing is waiting anywhere and no flow is installed. */
  ghost predicate Calm(net: Net) {
    forall s :: Queue(net.up, s) == [] && Queue(net.down, s) == [] && Table(net, s) == map[]
  }

  lemma FloodHopArrives(topo: T.Topology, net: Net, f: Flight)
    requires Calm(net) && f in net.air
    ensures var u := Up(GotPacketIn(f.at.port, f.frame), f.trail + [f.at]);
            Do(topo, net, Arrives(f, true)) == net.(air := net.air - multiset{f}, up := net.up[f.at.sw := [u]])
  {
    var u := Up(GotPacketIn(f.at.port, f.frame), f.trail + [f.at]);
    assert Queue(net.up, f.at.sw) == [] && Table(net, f.at.sw) == map[];
    assert Queue(net.up, f.at.sw) + [u] == [u];
  }

  lemma FloodHopServes(topo: T.Topology, net: Net, s: Sock, inPort: uint16, frame: Frame, trail: Trail)
    requires Queue(net.up, s) == [Up(GotPacketIn(inPort, frame), trail)] && Queue(net.down, s) == []
    requires !IsArpReply(frame) && !IsLoopback(frame)
    ensures var out := SendFrame(After(net.log).xid, inPort, OFPP_FLOOD, frame);
            Do(topo, net, Serves(s)) == net.(log := net.log + [Input(s, GotPacketIn(inPort, frame))],
                                             up := net.up[s := []], down := net.down[s := [Down(out, trail)]])
  {
    var out := SendFrame(After(net.log).xid, inPort, OFPP_FLOOD, frame);
    assert Step(After(net.log), s, GotPacketIn(inPort, frame)).1 == [out];
    assert Queue(net.up, s)[1..] == [];
    assert Queue(net.down, s) + Tagged([out], trail) == [Down(out, trail)];
  }

  lemma FloodHopApplies(topo: T.Topology, net: Net, s: Sock, xid: uint32, inPort: uint16, frame: Frame, trail: Trail)
    requires Queue(net.down, s) == [Down(SendFrame(xid, inPort, OFPP_FLOOD, frame), trail)] && T.Valid(topo)
    ensures var net' := Do(topo, net, Applies(s, true));
            && net'.log == net.log && net'.up == net.up && net'.down == net.down[s := []]
            && net'.tables == net.tables[s := Table(net, s)]
            && forall b :: T.Hop(topo, T.Loc(s, inPort), b) ==> Flight(frame, trail, b) in net'.air
  {
    forall b | T.Hop(topo, T.Loc(s, inPort), b)
      ensures Flight(frame, trail, b) in Flood(topo, s, inPort, frame, trail)
    {
      var l := topo.link[b];
      assert l in topo.link && l.sw == s && l.port != inPort && topo.link[l] == b;
    }
  }

  /** The frame has reached the controller and its answer is on the way back. */
  ghost predicate Answered(net0: Net, f: Flight, net2: Net) {
    var out := SendFrame(After(net0.log).xid, f.at.port, OFPP_FLOOD, f.frame);
    && net2.up == net0.up[f.at.sw := []]
    && net2.down == net0.down[f.at.sw := [Down(out, f.trail + [f.at])]]
    && net2.tables == net0.tables
    && net2.log == net0.log + [Input(f.at.sw, GotPacketIn(f.at.port, f.frame))]
  }

  lemma FloodHopAnswered(topo: T.Topology, net0: Net, f: Flight)
    requires Calm(net0) && f in net0.air && !IsArpReply(f.frame) && !IsLoopback(f.frame)
    ensures var net1 := Do(topo, net0, Arrives(f, true));
            Enabled(topo, net1, Serves(f.at.sw)) && Answered(net0, f, Do(topo, net1, Serves(f.at.sw)))
  {
    FloodHopArrives(topo, net0, f);
    var u := Up(GotPacketIn(f.at.port, f.frame), f.trail + [f.at]);
    var net1 := net0.(air := net0.air - multiset{f}, up := net0.up[f.at.sw := [u]]);
    assert Queue(net0.down, f.at.sw) == [];
    FloodHopServes(topo, net1, f.at.sw, f.at.port, f.frame, f.trail + [f.at]);
    assert net1.up[f.at.sw := []] == net0.up[f.at.sw := []];
  }

  lemma FloodHopFinishes(topo: T.Topology, net0: Net, f: Flight, net2: Net)
    requires Calm(net0) && Answered(net0, f, net2) && T.Valid(topo)
    ensures Enabled(topo, net2, Applies(f.at.sw, true))
    ensures var net' := Do(topo, net2, Applies(f.at.sw, true));
            && Calm(net') && net'.log == net2.log
            && forall b :: T.Hop(topo, f.at, b) ==> Flight(f.frame, f.trail + [f.at], b) in net'.air
  {
    FloodHopApplies(topo, net2, f.at.sw, After(net0.log).xid, f.at.port, f.frame, f.trail + [f.at]);
    StaysCalm(net0, Do(topo, net2, Applies(f.at.sw, true)), f.at.sw);
  }

  /** An ordinary frame is punted, handed back and flooded, and so moves on to every neighbour but the one it came
      from. */
  lemma FloodHop(topo: T.Topology, net: Net, f: Flight) returns (net': Net)
    requires Reachable(topo, net) && Calm(net) && f in net.air
    requires T.Valid(topo) && !IsArpReply(f.frame) && !IsLoopback(f.frame)
    ensures Reachable(topo, net') && Calm(net')
    ensures net'.log == net.log + [Input(f.at.sw, GotPacketIn(f.at.port, f.frame))]
    ensures forall b :: T.Hop(topo, f.at, b) ==> Flight(f.frame, f.trail + [f.at], b) in net'.air
  {
    var net1 := Do(topo, net, Arrives(f, true));
    FloodHopAnswered(topo, net, f);
    var net2 := Do(topo, net1, Serves(f.at.sw));
    FloodHopFinishes(topo, net, f, net2);
    StepIsReachable(topo, net, Arrives(f, true));
    StepIsReachable(topo, net1, Serves(f.at.sw));
    StepIsReachable(topo, net2, Applies(f.at.sw, true));
    net' := Do(topo, net2, Applies(f.at.sw, true));
  }

  lemma StaysCalm(net: Net, net': Net, s: Sock)
    requires Calm(net)
    requires net'.up == net.up[s := []] && net'.down == net.down[s := []]
    requires net'.tables == net.tables[s := Table(net, s)]
    ensures Calm(net')
  {
    forall r ensures Queue(net'.up, r) == [] && Queue(net'.down, r) == [] && Table(net', r) == map[] {
      assert Queue(net.up, r) == [] && Queue(net.down, r) == [] && Table(net, r) == map[];
    }
  }

  /** What the controller is told when a frame is punted at each of the given locations. */
  function Punts(frame: Frame, w: Trail): seq<Input> {
    seq(|w|, i requires 0 <= i < |w| => Input(w[i].sw, GotPacketIn(w[i].port, frame)))
  }

  /** A frame can be made to take any journey that does not turn back on the spot, so that the controller hears of nothing
      else. */
  lemma {:induction false} FloodFollows(topo: T.Topology, m: Mac, frame: Frame, w: Trail) returns (net: Net)
    requires T.Valid(topo) && T.From(topo, m, w)
    requires Src(frame) == m && !IsArpReply(frame) && !IsLoopback(frame)
    ensures Reachable(topo, net) && Calm(net)
    ensures Flight(frame, w[..|w| - 1], T.Last(w)) in net.air
    ensures net.log == Punts(frame, w[..|w| - 1])
    decreases |w|
  {
    var n := |w| - 1;
    if n == 0 {
      assert Punts(frame, w[..0]) == [];
      QuietIsReachable(topo);
      StepIsReachable(topo, QUIET, HostSends(m, frame));
      net := Do(topo, QUIET, HostSends(m, frame));
    } else {
      var shorter := FloodFollows(topo, m, frame, w[..n]);
      assert T.Hop(topo, w[n - 1], w[n]);
      assert w[..n][..n - 1] + [w[n - 1]] == w[..n];
      net := FloodHop(topo, shorter, Flight(frame, w[..n][..n - 1], w[n - 1]));
      assert Punts(frame, w[..n]) ==
             Punts(frame, w[..n][..n - 1]) + [Input(w[n - 1].sw, GotPacketIn(w[n - 1].port, frame))];
    }
  }

  /** Seen from the hosts there is no cycle: no journey of a frame that never turns back returns to a switch. */
  ghost predicate NoCycle(topo: T.Topology) {
    forall m, w :: T.From(topo, m, w) ==> T.Simple(w)
  }

  ghost predicate NeverLoops(topo: T.Topology) {
    forall net, frame, trail :: Reachable(topo, net) && OnTheWay(net, frame, trail) ==> T.Simple(trail)
  }

  function OtherMac(m: Mac): (r: Mac)
    ensures r != m
  {
    if m == [0, 0, 0, 0, 0, 0] then [0, 0, 0, 0, 0, 1] else [0, 0, 0, 0, 0, 0]
  }

  lemma NoCycleNoLoop(topo: T.Topology)
    requires T.Valid(topo) && NoCycle(topo)
    ensures NeverLoops(topo)
  {
    forall net, frame, trail | Reachable(topo, net) && OnTheWay(net, frame, trail) ensures T.Simple(trail) {
      InvAlways(topo, net);
      TrailsAreJourneys(topo, net, frame, trail);
    }
  }

  /** Every journey of a frame happens in some execution. */
  lemma JourneysHappen(topo: T.Topology, m: Mac, w: Trail)
    requires T.Valid(topo) && T.From(topo, m, w)
    ensures exists net, frame :: Reachable(topo, net) && OnTheWay(net, frame, w)
  {
    hide Reachable;
    var frame := PlainFrame(OtherMac(m), m);
    var net := FloodFollows(topo, m, frame, w);
    assert w[..|w| - 1] + [T.Last(w)] == w;
    assert OnTheWay(net, frame, w);
  }

  /** Frames keep from looping exactly in topologies without a cycle that hosts can see. */
  lemma LoopsExactlyOnJourneys(topo: T.Topology)
    requires T.Valid(topo)
    ensures NeverLoops(topo) <==> NoCycle(topo)
  {
    if NoCycle(topo) {
      NoCycleNoLoop(topo);
    }
    if NeverLoops(topo) {
      forall m, w | T.From(topo, m, w) ensures T.Simple(w) {
        JourneysHappen(topo, m, w);
      }
    }
  }

  /** In terms of the wiring: no frame ever returns to a switch if and only if the switches that hosts can reach form
      rooted trees. The controller itself does nothing to break a cycle. */
  lemma LoopsExactlyOnCycles(topo: T.Topology)
    requires T.Valid(topo)
    ensures NeverLoops(topo) <==> exists up, depth :: T.Rooted(T.Part(topo, topo.host.Values), up, depth)
  {
    LoopsExactlyOnJourneys(topo);
    HostsAreStarts(topo);
    T.CycleFreeIsRooted(topo, topo.host.Values);
  }

  lemma HostsAreStarts(topo: T.Topology)
    requires T.Valid(topo)
    ensures T.AreStarts(topo, topo.host.Values) && (NoCycle(topo) <==> T.CycleFree(topo, topo.host.Values))
  {
    if NoCycle(topo) {
      forall l, w | l in topo.host.Values && T.IsWalk(topo, w) && w[0] == l ensures T.Simple(w) {
        var m :| m in topo.host && topo.host[m] == l;
        assert T.From(topo, m, w);
      }
    }
    if T.CycleFree(topo, topo.host.Values) {
      forall m, w | T.From(topo, m, w) ensures T.Simple(w) {
        assert topo.host[m] in topo.host.Values;
      }
    }
  }

  // ------------------------------------------------------------------ what the tables say

  /** Every learned port is the port toward the host; on a forest that is the only such port, for good. */
  lemma LearnedPortsLead(topo: T.Topology, net: Net, s: Sock, mac: Mac)
    requires T.Valid(topo) && Reachable(topo, net) && (s, mac) in After(net.log).ll
    ensures var l := T.Loc(s, After(net.log).ll[(s, mac)]);
            T.Toward(topo, mac, l) && (T.Forest(topo) ==> forall k :: T.Toward(topo, mac, k) && k.sw == s ==> k == l)
  {
    InvAlways(topo, net);
    LearnsFirstReport(net.log, s, mac);
    assert net.log[FirstReport(net.log, s, mac)].event.GotPacketIn?;
    var l := T.Loc(s, After(net.log).ll[(s, mac)]);
    if T.Forest(topo) {
      forall k | T.Toward(topo, mac, k) && k.sw == s ensures k == l {
        T.TowardIsUnique(topo, mac, k, l);
      }
    }
  }

  /** Every entry of a switch's table, and every flow the controller has noted, has port zero or the port toward its
      destination. */
  lemma FlowsLead(topo: T.Topology, net: Net, s: Sock, key: FlowKey)
    requires T.Valid(topo) && Reachable(topo, net)
    ensures key in Table(net, s) ==> LeadsTo(topo, s, key.dst, Table(net, s)[key])
    ensures (s, key) in After(net.log).flows ==> LeadsTo(topo, s, key.dst, After(net.log).flows[(s, key)])
  {
    InvAlways(topo, net);
    assert TableOk(topo, s, Table(net, s));
    if (s, key) in After(net.log).flows && After(net.log).flows[(s, key)] != 0 {
      NotesAreJustified(net.log, s, key);
    }
  }

  /** A switch that forwards a frame by its flow table hands it over its own port to the destination, drops it, or
      passes it to a switch exactly one cable nearer to the destination. */
  lemma ForwardingApproaches(topo: T.Topology, net: Net, s: Sock, inPort: uint16, frame: Frame, trail: Trail, f: Flight)
    requires T.Valid(topo) && T.Forest(topo) && Reachable(topo, net)
    requires FlowKey(Src(frame), Dst(frame)) in Table(net, s)
    requires f in Emit(topo, s, inPort, Table(net, s)[FlowKey(Src(frame), Dst(frame))], frame, trail)
    ensures exists n: nat :: T.Distance(topo, Dst(frame), s, n + 1) && T.Distance(topo, Dst(frame), f.at.sw, n)
    ensures forall n, k :: T.Distance(topo, Dst(frame), s, n) && T.Distance(topo, Dst(frame), f.at.sw, k) ==> k == n - 1
  {
    var key := FlowKey(Src(frame), Dst(frame));
    var l := T.Loc(s, Table(net, s)[key]);
    FlowsLead(topo, net, s, key);
    T.TowardIsNearer(topo, Dst(frame), l);
    var n: nat :| T.Distance(topo, Dst(frame), s, n + 1) && T.Distance(topo, Dst(frame), f.at.sw, n);
    forall i, k | T.Distance(topo, Dst(frame), s, i) && T.Distance(topo, Dst(frame), f.at.sw, k) ensures k == i - 1 {
      T.DistanceIsUnique(topo, Dst(frame), s, i, n + 1);
      T.DistanceIsUnique(topo, Dst(frame), f.at.sw, k, n);
    }
  }

  /** On a forest no host is ever reported on two ports of one switch. */
  lemma PortsAreStable(topo: T.Topology, log: seq<Input>)
    requires T.Valid(topo) && T.Forest(topo) && LogOk(topo, log)
    ensures StablePorts(log)
  {
    forall i, j, s, mac | 0 <= i < |log| && 0 <= j < |log| && Reports(log[i], s, mac) && Reports(log[j], s, mac)
      ensures log[i].event.inPort == log[j].event.inPort
    {
      T.TowardIsUnique(topo, mac, T.Loc(s, log[i].event.inPort), T.Loc(s, log[j].event.inPort));
    }
  }

  /** Whatever the interleaving: once a switch has applied the flow-mods on their way to it, it has an entry for exactly
      the flows noted by the controller. On a forest the ports agree as well, provided every ARP reply the controller
      handled answered a host already reported by that switch. */
  lemma SwitchesMirror(topo: T.Topology, net: Net, s: Sock)
    requires T.Valid(topo) && Reachable(topo, net)
    ensures var table := ApplyAll(Table(net, s), Messages(Queue(net.down, s)));
            && (forall key :: key in table <==> (s, key) in After(net.log).flows)
            && (T.Forest(topo) && TargetsKnown(net.log) ==> Mirrors(After(net.log).flows, s, table))
  {
    InvAlways(topo, net);
    assert CaughtUp(net, s);
    forall key ensures key in SwitchTable(net.log, s) <==> (s, key) in After(net.log).flows {
      MirrorsKeys(net.log, s, key);
    }
    if T.Forest(topo) && TargetsKnown(net.log) {
      PortsAreStable(topo, net.log);
      MirrorsPorts(net.log, s);
    }
  }

  // ------------------------------------------------------------------ what is flooded, and what is not

  /** The i-th message on its way to s, if it is a packet-out, either floods an ordinary frame, or puts an ARP reply
      through the flow table, which will have an entry for it by then. */
  ghost predicate OutOk(net: Net, s: Sock, i: nat)
    requires i < |Queue(net.down, s)|
  {
    var d := Queue(net.down, s);
    d[i].msg.PacketOut? ==>
      var frame, port := d[i].msg.frame, d[i].msg.action.port;
      if IsArpReply(frame) then
        port == OFPP_TABLE && FlowKey(Src(frame), Dst(frame)) in ApplyAll(Table(net, s), Messages(d[..i]))
      else
        port == OFPP_FLOOD && !IsLoopback(frame)
  }

  ghost predicate OutsOk(net: Net) {
    forall s, i :: 0 <= i < |Queue(net.down, s)| ==> OutOk(net, s, i)
  }

  /** The packet-out of an ARP reply comes right behind the two flow-mods it caused. */
  lemma AnswerHits(c: CState, s: Sock, event: Event, table: map<FlowKey, uint16>, k: nat)
    requires k < |Step(c, s, event).1| && Step(c, s, event).1[k].PacketOut?
    ensures var sent := Step(c, s, event).1;
            var frame := sent[k].frame;
            if IsArpReply(frame) then
              sent[k].action.port == OFPP_TABLE && FlowKey(Src(frame), Dst(frame)) in ApplyAll(table, sent[..k])
            else
              sent[k].action.port == OFPP_FLOOD && !IsLoopback(frame)
  {
    var sent := Step(c, s, event).1;
    if IsArpReply(sent[k].frame) {
      assert k == 2 && sent[..2] == [sent[0]] + [sent[1]];
      ApplyAllConcat(table, [sent[0]], [sent[1]]);
      ApplyOne(table, sent[0]);
      ApplyOne(Apply(table, sent[0]), sent[1]);
    }
  }

  lemma ServesOutAt(net: Net, net': Net, s: Sock, event: Event, trail: Trail, i: nat)
    requires OutsOk(net) && net'.tables == net.tables
    requires Queue(net'.down, s) == Queue(net.down, s) + Tagged(Step(After(net.log), s, event).1, trail)
    requires i < |Queue(net'.down, s)|
    ensures OutOk(net', s, i)
  {
    hide Step, After, Apply, ApplyAll, IsArpReply, IsLoopback, Src, Dst;
    var sent := Step(After(net.log), s, event).1;
    var d, d', n := Queue(net.down, s), Queue(net'.down, s), |Queue(net.down, s)|;
    if i < n {
      assert OutOk(net, s, i) && d'[..i] == d[..i];
    } else if sent[i - n].PacketOut? {
      AnswerHits(After(net.log), s, event, ApplyAll(Table(net, s), Messages(d)), i - n);
      assert Messages(d'[..i]) == Messages(d) + sent[..i - n];
      ApplyAllConcat(Table(net, s), Messages(d), sent[..i - n]);
    }
  }

  lemma ServesOuts(topo: T.Topology, net: Net, s: Sock)
    requires OutsOk(net) && Queue(net.up, s) != []
    ensures OutsOk(Do(topo, net, Serves(s)))
  {
    hide Step, After;
    var net', u := Do(topo, net, Serves(s)), Queue(net.up, s)[0];
    forall r, i | 0 <= i < |Queue(net'.down, r)| ensures OutOk(net', r, i) {
      if r != s {
        assert OutOk(net, r, i);
      } else {
        ServesOutAt(net, net', s, u.event, u.trail, i);
      }
    }
  }

  lemma TakeFirstOuts(net: Net, s: Sock)
    requires OutsOk(net) && Queue(net.down, s) != []
    ensures OutsOk(TakeFirst(net, s))
  {
    var net', d := TakeFirst(net, s), Queue(net.down, s);
    forall r, i | 0 <= i < |Queue(net'.down, r)| ensures OutOk(net', r, i) {
      if r != s {
        assert OutOk(net, r, i);
      } else {
        assert OutOk(net, s, i + 1);
        assert Messages(d[..i + 1])[1..] == Messages(d[1..][..i]) && Messages(d[..i + 1])[0] == d[0].msg;
      }
    }
  }

  /** Steps that leave tables and connections to the switches alone. */
  lemma SameOuts(net: Net, net': Net)
    requires OutsOk(net) && net'.tables == net.tables && net'.down == net.down
    ensures OutsOk(net')
  {
    forall s, i | 0 <= i < |Queue(net'.down, s)| ensures OutOk(net', s, i) {
      assert OutOk(net, s, i);
    }
  }

  lemma AppliesKeeps(topo: T.Topology, net: Net, s: Sock, punt: bool)
    requires Queue(net.down, s) != []
    ensures var net', rest := Do(topo, net, Applies(s, punt)), TakeFirst(net, s);
            net'.tables == rest.tables && net'.down == rest.down
  {
    hide Step, After, Flood, Emit, Apply, Tagged, Table, Lookup;
    var d, rest := Queue(net.down, s)[0], TakeFirst(net, s);
    if d.msg.PacketOut? {
      LookupKeeps(topo, rest, s, d.msg.inPort, d.msg.frame, d.trail, punt);
    }
  }

  lemma StepOuts(topo: T.Topology, net: Net, a: Action)
    requires OutsOk(net) && Enabled(topo, net, a)
    ensures OutsOk(Do(topo, net, a))
  {
    if a.Serves? {
      ServesOuts(topo, net, a.sock);
    } else if a.Applies? {
      TakeFirstOuts(net, a.sock);
      AppliesKeeps(topo, net, a.sock, a.punt);
      var net' := Do(topo, net, a);
      hide Do, TakeFirst, OutsOk;
      SameOuts(TakeFirst(net, a.sock), net');
    } else {
      OthersKeep(topo, net, a);
      var net' := Do(topo, net, a);
      hide Do, OutsOk;
      SameOuts(net, net');
    }
  }

  lemma OthersKeep(topo: T.Topology, net: Net, a: Action)
    requires Enabled(topo, net, a) && !a.Serves? && !a.Applies?
    ensures Do(topo, net, a).tables == net.tables && Do(topo, net, a).down == net.down
  {
    hide Step, After, Flood, Emit, Apply, Tagged, Table, Lookup, TakeFirst, Queue;
    if a.Arrives? {
      var f := a.flight;
      LookupKeeps(topo, net.(air := net.air - multiset{f}), f.at.sw, f.at.port, f.frame, f.trail + [f.at], a.punt);
    }
  }

  /** A lookup touches neither flow tables nor what is on its way to switches. */
  lemma LookupKeeps(topo: T.Topology, net: Net, s: Sock, inPort: uint16, frame: Frame, trail: Trail, punt: bool)
    ensures var net' := Lookup(topo, net, s, inPort, frame, trail, punt);
            net'.tables == net.tables && net'.down == net.down
  {
    hide Emit, Table, Queue;
  }

  lemma {:induction false} OutsThroughout(topo: T.Topology, nets: seq<Net>, acts: seq<Action>, i: nat)
    requires IsExecution(topo, nets, acts) && i < |nets|
    ensures OutsOk(nets[i])
  {
    if i > 0 {
      OutsThroughout(topo, nets, acts, i - 1);
      assert IsStep(topo, nets[i - 1], acts[i - 1], nets[i]);
      StepOuts(topo, nets[i - 1], acts[i - 1]);
    }
  }

  /** Whatever the topology and the interleaving: only frames that are neither ARP replies nor addressed to their own
      sender are ever flooded; an ARP reply handed back to its switch is forwarded by an entry of the flow table, and
      never asked about a second time. */
  lemma RepliesFollowFlows(topo: T.Topology, net: Net, s: Sock, punt: bool)
    requires Reachable(topo, net) && Queue(net.down, s) != [] && Queue(net.down, s)[0].msg.PacketOut?
    ensures var frame := Queue(net.down, s)[0].msg.frame;
            && (Queue(net.down, s)[0].msg.action.port == OFPP_FLOOD <==> !IsArpReply(frame))
            && (IsArpReply(frame) ==>
                  FlowKey(Src(frame), Dst(frame)) in Table(net, s) && Do(topo, net, Applies(s, punt)).up == net.up)
            && (!IsArpReply(frame) ==> !IsLoopback(frame))
  {
    var nets, acts :| IsExecution(topo, nets, acts) && nets[|acts|] == net;
    OutsThroughout(topo, nets, acts, |acts|);
    hide IsExecution, Reachable;
    assert OutOk(net, s, 0);
    assert Messages(Queue(net.down, s)[..0]) == [];
  }
}
