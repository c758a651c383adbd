/**
 What becomes of frames between two hosts. Entries that no message on its way concerns are final. Entries that follow a
 journey to a host carry frames there, one switch for each step, without the controller. An ARP request and its reply can
 install such entries for both directions.
 */
module Delivery {
  import opened Bytes
  import opened OpenFlow
  import opened ControllerSpec
  import opened Network
  import T = Topology

  // ------------------------------------------------------------------ entries that stay

  /** The flows between a and b, in either direction. */
  predicate Between(key: FlowKey, a: Mac, b: Mac) {
    key == FlowKey(a, b) || key == FlowKey(b, a)
  }

  /** The controller answers the message with flows between a and b. */
  predicate Asks(event: Event, a: Mac, b: Mac) {
    && event.GotPacketIn? && (IsArpReply(event.frame) || IsLoopback(event.frame))
    && Between(FlowKey(Src(event.frame), Dst(event.frame)), a, b)
  }

  /** The message is a flow between a and b. */
  predicate Sets(msg: Message, a: Mac, b: Mac) {
    msg.FlowMod? && Between(FlowKey(msg.pattern.dlSrc, msg.pattern.dlDst), a, b)
  }

  /** Switch s has entries between a and b, and nothing on the connection would make it replace them. */
  ghost predicate Settled(net: Net, s: Sock, a: Mac, b: Mac) {
    && (forall key :: Between(key, a, b) ==> key in Table(net, s))
    && (forall u :: u in Queue(net.up, s) ==> !Asks(u.event, a, b))
    && (forall d :: d in Queue(net.down, s) ==> !Sets(d.msg, a, b))
  }

  ghost predicate SameEntries(net: Net, net': Net, s: Sock, a: Mac, b: Mac) {
    forall key :: Between(key, a, b) ==>
      key in Table(net, s) && key in Table(net', s) && Table(net', s)[key] == Table(net, s)[key]
  }

  lemma AnswerSets(c: CState, s: Sock, event: Event, m: Message, a: Mac, b: Mac)
    requires m in Step(c, s, event).1 && Sets(m, a, b)
    ensures Asks(event, a, b)
  {
    hide IsArpReply, IsLoopback, FirstWins, FindPort, Src, Dst;
  }

  /** A frame between a and b finds its entry, and any other packet-in does not ask for those two. */
  lemma LookupSettled(topo: T.Topology, net: Net, r: Sock, inPort: uint16, frame: Frame, trail: Trail, punt: bool,
                      s: Sock, a: Mac, b: Mac)
    requires Settled(net, s, a, b)
    ensures var net' := Lookup(topo, net, r, inPort, frame, trail, punt);
            Settled(net', s, a, b) && SameEntries(net, net', s, a, b)
  {
    hide Emit, IsArpReply, IsLoopback, Src, Dst;
  }

  lemma ServesSettled(topo: T.Topology, net: Net, r: Sock, s: Sock, a: Mac, b: Mac)
    requires Settled(net, s, a, b) && Queue(net.up, r) != []
    ensures var net' := Do(topo, net, Serves(r));
            Settled(net', s, a, b) && SameEntries(net, net', s, a, b)
  {
    var u, net' := Queue(net.up, r)[0], Do(topo, net, Serves(r));
    var sent := Step(After(net.log), r, u.event).1;
    hide Step, After, Asks, Sets;
    forall d | d in Queue(net'.down, s) ensures !Sets(d.msg, a, b) {
      if d !in Queue(net.down, s) {
        assert d.msg in sent && u in Queue(net.up, s);
        if Sets(d.msg, a, b) {
          AnswerSets(After(net.log), r, u.event, d.msg, a, b);
        }
      }
    }
  }

  lemma TakeFirstSettled(net: Net, r: Sock, s: Sock, a: Mac, b: Mac)
    requires Settled(net, s, a, b) && Queue(net.down, r) != []
    ensures Settled(TakeFirst(net, r), s, a, b) && SameEntries(net, TakeFirst(net, r), s, a, b)
  {
    assert Queue(net.down, r)[0] in Queue(net.down, r);
  }

  /** Steps that leave tables and connections alone. */
  lemma SameSettled(net: Net, net': Net, s: Sock, a: Mac, b: Mac)
    requires Settled(net, s, a, b) && net'.tables == net.tables && net'.up == net.up && net'.down == net.down
    ensures Settled(net', s, a, b) && SameEntries(net, net', s, a, b)
  {
  }

  lemma AppliesSettled(topo: T.Topology, net: Net, r: Sock, punt: bool, s: Sock, a: Mac, b: Mac)
    requires Settled(net, s, a, b) && Queue(net.down, r) != []
    ensures var net' := Do(topo, net, Applies(r, punt));
            Settled(net', s, a, b) && SameEntries(net, net', s, a, b)
  {
    var d, rest, net' := Queue(net.down, r)[0], TakeFirst(net, r), Do(topo, net, Applies(r, punt));
    TakeFirstSettled(net, r, s, a, b);
    if d.msg.PacketOut? && d.msg.action.port == OFPP_TABLE {
      LookupSettled(topo, rest, r, d.msg.inPort, d.msg.frame, d.trail, punt, s, a, b);
    } else {
      hide Settled, Emit, Flood, TakeFirst;
      SameSettled(rest, net', s, a, b);
    }
  }

  lemma StepSettled(topo: T.Topology, net: Net, act: Action, s: Sock, a: Mac, b: Mac)
    requires Settled(net, s, a, b) && Enabled(topo, net, act)
    ensures Settled(Do(topo, net, act), s, a, b) && SameEntries(net, Do(topo, net, act), s, a, b)
  {
    match act
    case HostSends(_, _) => SameSettled(net, Do(topo, net, act), s, a, b);
    case Lost(_) => SameSettled(net, Do(topo, net, act), s, a, b);
    case Talks(_, _) =>
    case Arrives(f, punt) =>
      var net1 := net.(air := net.air - multiset{f});
      SameSettled(net, net1, s, a, b);
      LookupSettled(topo, net1, f.at.sw, f.at.port, f.frame, f.trail + [f.at], punt, s, a, b);
    case Serves(r) => ServesSettled(topo, net, r, s, a, b);
    case Applies(r, punt) => AppliesSettled(topo, net, r, punt, s, a, b);
  }

  /** Once a switch has both entries of a pair of hosts, and no message that would replace them is on its way, they stay
      as they are, whatever happens. */
  lemma {:induction false} EntriesAreFinal(topo: T.Topology, nets: seq<Net>, acts: seq<Action>, i: nat, j: nat,
                                           s: Sock, a: Mac, b: Mac)
    requires IsPath(topo, nets, acts) && i <= j < |nets| && Settled(nets[i], s, a, b)
    ensures Settled(nets[j], s, a, b) && SameEntries(nets[i], nets[j], s, a, b)
  {
    hide Settled, SameEntries, Enabled, Do;
    if i == j {
      SameAsItself(nets[i], s, a, b);
    } else {
      EntriesAreFinal(topo, nets, acts, i, j - 1, s, a, b);
      assert IsStep(topo, nets[j - 1], acts[j - 1], nets[j]);
      StepSettled(topo, nets[j - 1], acts[j - 1], s, a, b);
      SameThroughout(nets[i], nets[j - 1], nets[j], s, a, b);
    }
  }

  lemma SameAsItself(net: Net, s: Sock, a: Mac, b: Mac)
    requires Settled(net, s, a, b)
    ensures SameEntries(net, net, s, a, b)
  {
  }

  lemma SameThroughout(net: Net, net': Net, net'': Net, s: Sock, a: Mac, b: Mac)
    requires SameEntries(net, net', s, a, b) && SameEntries(net', net'', s, a, b)
    ensures SameEntries(net, net'', s, a, b)
  {
  }

  /** So if the port is zero, the switch drops every frame from a to b that reaches it, ever after. */
  lemma DropsForGood(topo: T.Topology, nets: seq<Net>, acts: seq<Action>, i: nat, j: nat, a: Mac, b: Mac, f: Flight,
                     punt: bool)
    requires T.Valid(topo) && IsPath(topo, nets, acts) && i <= j < |nets|
    requires Settled(nets[i], f.at.sw, a, b) && Table(nets[i], f.at.sw)[FlowKey(a, b)] == 0
    requires f in nets[j].air && Src(f.frame) == a && Dst(f.frame) == b
    ensures Do(topo, nets[j], Arrives(f, punt)) == nets[j].(air := nets[j].air - multiset{f})
  {
    EntriesAreFinal(topo, nets, acts, i, j, f.at.sw, a, b);
    assert Between(FlowKey(a, b), a, b);
    assert T.Loc(f.at.sw, 0) !in topo.link;
  }

  // ------------------------------------------------------------------ entries that lead to a host

  /** Along w, a journey from the destination, every switch sends frames for the flow back the way w came. */
  ghost predicate Leads(net: Net, key: FlowKey, w: Trail) {
    forall i :: 0 <= i < |w| ==> key in Table(net, w[i].sw) && Table(net, w[i].sw)[key] == w[i].port
  }

  /** One hop: the switch, whose entry does not point back to where the frame came from, passes it on along w. */
  lemma NextHop(topo: T.Topology, net: Net, f: Flight, w: Trail, punt: bool)
    requires T.Valid(topo) && f in net.air && |w| > 1 && T.IsWalk(topo, w)
    requires Leads(net, FlowKey(Src(f.frame), Dst(f.frame)), w) && T.Last(w).sw == f.at.sw && T.Last(w) != f.at
    ensures T.Last(w) in topo.link
    ensures var g := Flight(f.frame, f.trail + [f.at], topo.link[T.Last(w)]);
            && Do(topo, net, Arrives(f, punt)) == net.(air := net.air - multiset{f} + multiset{g})
            && g.at.sw == w[|w| - 2].sw && g.at != w[|w| - 2]
  {
    var n := |w| - 1;
    assert T.Hop(topo, w[n - 1], w[n]);
    assert w[n] == T.Loc(f.at.sw, w[n].port);
  }

  lemma HopOn(topo: T.Topology, net: Net, f: Flight, w: Trail) returns (net': Net, g: Flight)
    requires T.Valid(topo) && f in net.air && |w| > 1 && T.From(topo, Dst(f.frame), w)
    requires Leads(net, FlowKey(Src(f.frame), Dst(f.frame)), w) && T.Last(w).sw == f.at.sw && T.Last(w) != f.at
    ensures IsStep(topo, net, Arrives(f, false), net') && net' == net.(air := net.air - multiset{f} + multiset{g})
    ensures var v := w[..|w| - 1];
            && T.From(topo, Dst(f.frame), v) && Leads(net', FlowKey(Src(f.frame), Dst(f.frame)), v)
            && g.frame == f.frame && T.Last(v).sw == g.at.sw && T.Last(v) != g.at
  {
    NextHop(topo, net, f, w, false);
    g, net' := Flight(f.frame, f.trail + [f.at], topo.link[T.Last(w)]), Do(topo, net, Arrives(f, false));
  }

  /** A frame gets from f to g by arriving at one switch after another, and nothing else changes. */
  ghost predicate Travels(topo: T.Topology, nets: seq<Net>, acts: seq<Action>, f: Flight, g: Flight) {
    && IsPath(topo, nets, acts)
    && (forall i :: 0 <= i < |acts| ==> acts[i].Arrives? && acts[i].flight.frame == f.frame)
    && f in nets[0].air && g.frame == f.frame
    && nets[|acts|] == nets[0].(air := nets[0].air - multiset{f} + multiset{g})
  }

  lemma TravelsOn(topo: T.Topology, net: Net, f: Flight, nets: seq<Net>, acts: seq<Action>, next: Flight, g: Flight)
    requires Travels(topo, nets, acts, next, g) && next.frame == f.frame && f in net.air
    requires IsStep(topo, net, Arrives(f, false), nets[0])
    requires nets[0] == net.(air := net.air - multiset{f} + multiset{next})
    ensures Travels(topo, [net] + nets, [Arrives(f, false)] + acts, f, g)
  {
    hide IsStep;
    var nets', acts' := [net] + nets, [Arrives(f, false)] + acts;
    PathPrepended(topo, net, Arrives(f, false), nets, acts);
    ArrivalPrepended(Arrives(f, false), acts, f.frame);
    assert nets'[|acts'|] == nets[|acts|] && nets'[0] == net;
    hide IsPath;
    assert nets[0].air - multiset{next} == net.air - multiset{f};
  }

  lemma ArrivalPrepended(act: Action, acts: seq<Action>, frame: Frame)
    requires act.Arrives? && act.flight.frame == frame
    requires forall i :: 0 <= i < |acts| ==> acts[i].Arrives? && acts[i].flight.frame == frame
    ensures forall i :: 0 <= i < |[act] + acts| ==>
              ([act] + acts)[i].Arrives? && ([act] + acts)[i].flight.frame == frame
  {
  }

  lemma PathPrepended(topo: T.Topology, net: Net, act: Action, nets: seq<Net>, acts: seq<Action>)
    requires IsPath(topo, nets, acts) && IsStep(topo, net, act, nets[0])
    ensures IsPath(topo, [net] + nets, [act] + acts)
  {
    hide IsStep;
    var nets', acts' := [net] + nets, [act] + acts;
    forall i | 0 <= i < |acts'| ensures IsStep(topo, nets'[i], acts'[i], nets'[i + 1]) {
      assert i > 0 ==> IsStep(topo, nets[i - 1], acts[i - 1], nets[i]);
    }
  }

  lemma StaysPut(topo: T.Topology, net: Net, f: Flight)
    requires f in net.air
    ensures Travels(topo, [net], [], f, f)
  {
  }

  /** Hop by hop to the switch of the destination, in as many steps as there are cables, and with nothing changed but the
      place of the frame. There it comes in on another port than the one at which the destination is attached, and the
      entry sends it out there. */
  lemma {:induction false} Carried(topo: T.Topology, net: Net, f: Flight, w: Trail)
    returns (nets: seq<Net>, acts: seq<Action>, g: Flight)
    requires T.Valid(topo) && f in net.air && T.From(topo, Dst(f.frame), w)
    requires Leads(net, FlowKey(Src(f.frame), Dst(f.frame)), w) && T.Last(w).sw == f.at.sw && T.Last(w) != f.at
    ensures |nets| == |w| && |acts| == |w| - 1 && nets[0] == net && Travels(topo, nets, acts, f, g)
    ensures g.at.sw == topo.host[Dst(f.frame)].sw && g.at != topo.host[Dst(f.frame)]
    decreases |w|
  {
    hide T.Valid, Travels, IsStep, Leads;
    var n := |w| - 1;
    if n == 0 {
      nets, acts, g := [net], [], f;
      StaysPut(topo, net, f);
    } else {
      var net1, next := HopOn(topo, net, f, w);
      var nets1, acts1;
      nets1, acts1, g := Carried(topo, net1, next, w[..n]);
      nets, acts := [net] + nets1, [Arrives(f, false)] + acts1;
      TravelsOn(topo, net, f, nets1, acts1, next, g);
    }
  }

  /** On a forest the entries lead to the destination wherever they are not zero. */
  lemma EntriesLead(topo: T.Topology, net: Net, a: Mac, b: Mac, w: Trail)
    requires T.Valid(topo) && T.Forest(topo) && Reachable(topo, net) && T.From(topo, b, w)
    requires forall i :: 0 <= i < |w| ==> FlowKey(a, b) in Table(net, w[i].sw) && Table(net, w[i].sw)[FlowKey(a, b)] != 0
    ensures Leads(net, FlowKey(a, b), w)
  {
    hide Reachable;
    forall i | 0 <= i < |w| ensures Table(net, w[i].sw)[FlowKey(a, b)] == w[i].port {
      FlowsLead(topo, net, w[i].sw, FlowKey(a, b));
      assert T.From(topo, b, w[..i + 1]) && T.Last(w[..i + 1]) == w[i];
      T.TowardIsUnique(topo, b, w[i], T.Loc(w[i].sw, Table(net, w[i].sw)[FlowKey(a, b)]));
    }
  }

  /** So on a forest, if all the switches on the journey between two hosts have entries with a port, a frame that did not
      come from the destination's own side is delivered in as many steps as the destination is away, none of which
      involves the controller. */
  lemma Delivered(topo: T.Topology, net: Net, f: Flight, w: Trail)
    returns (nets: seq<Net>, acts: seq<Action>, g: Flight)
    requires T.Valid(topo) && T.Forest(topo) && Reachable(topo, net) && f in net.air
    requires T.From(topo, Dst(f.frame), w) && T.Last(w).sw == f.at.sw && T.Last(w) != f.at
    requires var key := FlowKey(Src(f.frame), Dst(f.frame));
             forall i :: 0 <= i < |w| ==> key in Table(net, w[i].sw) && Table(net, w[i].sw)[key] != 0
    ensures Travels(topo, nets, acts, f, g) && nets[0] == net && T.Distance(topo, Dst(f.frame), f.at.sw, |acts|)
    ensures var home := topo.host[Dst(f.frame)];
            && g.at.sw == home.sw && g.at != home
            && Table(nets[|acts|], home.sw)[FlowKey(Src(f.frame), Dst(f.frame))] == home.port
  {
    EntriesLead(topo, net, Src(f.frame), Dst(f.frame), w);
    hide Reachable, T.Forest;
    nets, acts, g := Carried(topo, net, f, w);
    assert T.From(topo, Dst(f.frame), w) && T.Last(w).sw == f.at.sw;
    assert w[0] == topo.host[Dst(f.frame)];
  }

  // ------------------------------------------------------------------ how such entries come about

  /** No message is waiting anywhere. */
  ghost predicate Idle(net: Net) {
    forall s :: Queue(net.up, s) == [] && Queue(net.down, s) == []
  }

  /** The state net, as far as the controller and the switches are concerned, except that switch s has these messages on
      its connection and this table, and that the log is this one. */
  ghost predicate Except(net0: Net, net: Net, s: Sock, log: seq<Input>, up: seq<Up>, down: seq<Down>,
                         table: map<FlowKey, uint16>) {
    && net.log == log && Queue(net.up, s) == up && Queue(net.down, s) == down && Table(net, s) == table
    && forall r :: r != s ==>
         Queue(net.up, r) == Queue(net0.up, r) && Queue(net.down, r) == Queue(net0.down, r)
         && Table(net, r) == Table(net0, r)
  }

  lemma PuntedReply(topo: T.Topology, net: Net, f: Flight)
    requires Idle(net) && f in net.air && FlowKey(Src(f.frame), Dst(f.frame)) !in Table(net, f.at.sw)
    ensures var net' := Do(topo, net, Arrives(f, true));
            && Except(net, net', f.at.sw, net.log, [Up(GotPacketIn(f.at.port, f.frame), f.trail + [f.at])], [],
                      Table(net, f.at.sw))
            && net'.air == net.air - multiset{f}
  {
    hide Src, Dst;
    assert Queue(net.up, f.at.sw) == [] && Queue(net.down, f.at.sw) == [];
  }

  /** The three messages with which the controller answers an ARP reply. */
  function Answer(c: CState, s: Sock, inPort: uint16, frame: Frame): seq<Message> {
    [AddFlow(c.xid, Dst(frame), Src(frame), inPort),
     AddFlow(NextXid(c.xid), Src(frame), Dst(frame), FindPort(LearnFrom(c, s, inPort, frame), s, Dst(frame))),
     SendFrame(NextXid(NextXid(c.xid)), inPort, OFPP_TABLE, frame)]
  }

  lemma AnswersReply(c: CState, s: Sock, inPort: uint16, frame: Frame)
    requires IsArpReply(frame)
    ensures Step(c, s, GotPacketIn(inPort, frame)).1 == Answer(c, s, inPort, frame)
  {
    hide IsArpReply, IsLoopback, FirstWins, FindPort, Src, Dst;
  }

  lemma ServedReply(topo: T.Topology, net0: Net, net: Net, s: Sock, log: seq<Input>, inPort: uint16, frame: Frame,
                    trail: Trail, table: map<FlowKey, uint16>)
    requires Except(net0, net, s, log, [Up(GotPacketIn(inPort, frame), trail)], [], table) && IsArpReply(frame)
    ensures Enabled(topo, net, Serves(s))
    ensures var net' := Do(topo, net, Serves(s));
            && Except(net0, net', s, log + [Input(s, GotPacketIn(inPort, frame))], [],
                      Tagged(Answer(After(log), s, inPort, frame), trail), table)
            && net'.air == net.air
  {
    AnswersReply(After(log), s, inPort, frame);
    hide Answer, Step, After, IsArpReply;
    assert Queue(net.up, s)[1..] == [];
    var down := Tagged(Answer(After(log), s, inPort, frame), trail);
    assert [] + down == down;
  }

  lemma AppliedMod(topo: T.Topology, net0: Net, net: Net, s: Sock, log: seq<Input>, down: seq<Down>,
                   table: map<FlowKey, uint16>, xid: uint32, src: Mac, dst: Mac, port: uint16)
    requires down != [] && down[0].msg == AddFlow(xid, src, dst, port) && Except(net0, net, s, log, [], down, table)
    ensures Enabled(topo, net, Applies(s, true))
    ensures var net' := Do(topo, net, Applies(s, true));
            && Except(net0, net', s, log, [], down[1..], table[FlowKey(src, dst) := port])
            && net'.air == net.air
  {
  }

  lemma AppliedOut(topo: T.Topology, net0: Net, net: Net, s: Sock, log: seq<Input>, table: map<FlowKey, uint16>,
                   xid: uint32, inPort: uint16, frame: Frame, trail: Trail)
    requires Except(net0, net, s, log, [], [Down(SendFrame(xid, inPort, OFPP_TABLE, frame), trail)], table)
    requires FlowKey(Src(frame), Dst(frame)) in table
    ensures Enabled(topo, net, Applies(s, true))
    ensures var net' := Do(topo, net, Applies(s, true));
            && Except(net0, net', s, log, [], [], table)
            && net'.air == net.air + Emit(topo, s, inPort, table[FlowKey(Src(frame), Dst(frame))], frame, trail)
  {
    hide Src, Dst, Emit;
    var d := [Down(SendFrame(xid, inPort, OFPP_TABLE, frame), trail)];
    assert d[1..] == [] && TakeFirst(net, s).air == net.air;
    assert Table(TakeFirst(net, s), s) == table;
  }

  /** An ARP reply that meets no entry: the switch gets one for each direction, and sends the reply on by the second. */
  lemma ReplyHop(topo: T.Topology, net: Net, f: Flight) returns (net': Net)
    requires Reachable(topo, net) && Idle(net) && f in net.air && IsArpReply(f.frame)
    requires FlowKey(Src(f.frame), Dst(f.frame)) !in Table(net, f.at.sw)
    ensures Reachable(topo, net')
    ensures var s, inPort, a, b := f.at.sw, f.at.port, Dst(f.frame), Src(f.frame);
            var port := FindPort(LearnFrom(After(net.log), s, inPort, f.frame), s, a);
            && Except(net, net', s, net.log + [Input(s, GotPacketIn(inPort, f.frame))], [], [],
                      Table(net, s)[FlowKey(a, b) := inPort][FlowKey(b, a) := port])
            && net'.air == net.air - multiset{f} + Emit(topo, s, inPort, port, f.frame, f.trail + [f.at])
  {
    var s, inPort, trail, a, b := f.at.sw, f.at.port, f.trail + [f.at], Dst(f.frame), Src(f.frame);
    var c, log := After(net.log), net.log + [Input(s, GotPacketIn(inPort, f.frame))];
    var port, table := FindPort(LearnFrom(c, s, inPort, f.frame), s, a), Table(net, s);
    var down := Tagged(Answer(c, s, inPort, f.frame), trail);
    hide Do, Enabled, Except, Reachable, Idle, Emit, Table, LearnFrom, FindPort, After, IsArpReply, Src, Dst, AddFlow,
         SendFrame;
    PuntedReply(topo, net, f);
    var net1 := Next(topo, net, Arrives(f, true));
    ServedReply(topo, net, net1, s, net.log, inPort, f.frame, trail, table);
    var net2 := Next(topo, net1, Serves(s));
    AppliedMod(topo, net, net2, s, log, down, table, c.xid, a, b, inPort);
    var net3 := Next(topo, net2, Applies(s, true));
    AppliedMod(topo, net, net3, s, log, down[1..], table[FlowKey(a, b) := inPort], NextXid(c.xid), b, a, port);
    var net4 := Next(topo, net3, Applies(s, true));
    assert down[1..][1..] == [Down(SendFrame(NextXid(NextXid(c.xid)), inPort, OFPP_TABLE, f.frame), trail)];
    AppliedOut(topo, net, net4, s, log, table[FlowKey(a, b) := inPort][FlowKey(b, a) := port], NextXid(NextXid(c.xid)),
               inPort, f.frame, trail);
    net' := Next(topo, net4, Applies(s, true));
  }

  /** An ARP reply to a host that its switch has never reported cuts that switch off: it gets a final entry with port
      zero, and so will drop whatever the sender of the reply sends to that host. */
  lemma StrangerCutOff(topo: T.Topology, a: Mac, b: Mac, reply: Frame) returns (net: Net)
    requires T.Valid(topo) && a in topo.host && a != b && IsArpReplyFromTo(reply, a, b)
    ensures Reachable(topo, net)
    ensures var s := topo.host[a].sw; Settled(net, s, a, b) && Table(net, s)[FlowKey(a, b)] == 0
  {
    ArpOctets(reply);
    hide Reachable, Src, Dst, IsArpReply;
    QuietIsReachable(topo);
    var net1 := Next(topo, QUIET, HostSends(a, reply));
    net := ReplyHop(topo, net1, Flight(reply, [], topo.host[a]));
  }

  lemma Next(topo: T.Topology, net: Net, act: Action) returns (net': Net)
    requires Reachable(topo, net) && Enabled(topo, net, act)
    ensures Reachable(topo, net') && net' == Do(topo, net, act)
  {
    StepIsReachable(topo, net, act);
    net' := Do(topo, net, act);
  }

  /** The way of the reply: from b, whose switch is the last one on w, back along w. */
  function WayBack(topo: T.Topology, b: Mac, w: Trail): (v: Trail)
    requires b in topo.host && |w| >= 1 && forall i :: 0 < i < |w| ==> w[i] in topo.link
    ensures |v| == |w|
  {
    [topo.host[b]] + T.Back(topo, w)
  }

  /** Host b is at the last switch of w, a journey from a that visits no switch twice. */
  ghost predicate Connects(topo: T.Topology, a: Mac, b: Mac, w: Trail) {
    && T.From(topo, a, w) && T.Simple(w) && (forall i :: 0 < i < |w| ==> w[i] in topo.link)
    && a != b && b in topo.host && topo.host[b].sw == T.Last(w).sw
  }

  /** Place k on the way back is at the same switch as place |w| - 1 - k on the way there; the reply comes in on the port
      on which the request went out, and the other way round. */
  lemma PlacesMeet(topo: T.Topology, a: Mac, b: Mac, w: Trail, k: nat)
    requires T.Valid(topo) && Connects(topo, a, b, w) && k < |w|
    ensures var v := WayBack(topo, b, w);
            && v[k].sw == w[|w| - 1 - k].sw && v[0] == topo.host[b]
            && (k > 0 ==> v[k] in topo.link && topo.link[v[k]] == w[|w| - k])
            && (k + 1 < |w| ==> w[|w| - 1 - k] in topo.link && topo.link[w[|w| - 1 - k]] == v[k + 1])
            && (k + 1 < |w| ==> v[k] != w[|w| - 1 - k])
  {
    var n := |w| - 1;
    if k > 0 {
      assert T.Hop(topo, w[n - k], w[n - k + 1]);
    }
    if k < n {
      assert T.Hop(topo, w[n - 1 - k], w[n - k]);
    }
  }

  lemma WayBackIsJourney(topo: T.Topology, a: Mac, b: Mac, w: Trail)
    requires T.Valid(topo) && Connects(topo, a, b, w)
    ensures T.From(topo, b, WayBack(topo, b, w)) && T.Last(WayBack(topo, b, w)).sw == topo.host[a].sw
  {
    var v := WayBack(topo, b, w);
    forall i | 0 < i < |v| ensures T.Hop(topo, v[i - 1], v[i]) {
      PlacesMeet(topo, a, b, w, i - 1);
      PlacesMeet(topo, a, b, w, i);
    }
    PlacesMeet(topo, a, b, w, |w| - 1);
  }

  // ------------------------------------------------------------------ the request

  /** A host whose frames were punted along a journey has been learned where they came in. */
  lemma {:induction false} LearnedAlong(a: Mac, frame: Frame, w: Trail, i: nat)
    requires Src(frame) == a && T.Simple(w) && i < |w|
    ensures (w[i].sw, a) in After(Punts(frame, w)).ll && After(Punts(frame, w)).ll[(w[i].sw, a)] == w[i].port
  {
    var log := Punts(frame, w);
    LearnsFirstReport(log, w[i].sw, a);
    assert Reports(log[i], w[i].sw, a);
    var k := FirstReport(log, w[i].sw, a);
    assert k < |log| && w[k].sw == w[i].sw;
  }

  /** A request from a is flooded along w; then nothing is waiting, no flow is installed, and a is known everywhere. */
  lemma Requested(topo: T.Topology, a: Mac, frame: Frame, w: Trail) returns (net: Net)
    requires T.Valid(topo) && T.From(topo, a, w)
    requires Src(frame) == a && !IsArpReply(frame) && !IsLoopback(frame)
    ensures Reachable(topo, net) && Calm(net) && net.log == Punts(frame, w)
  {
    var n := |w| - 1;
    net := FloodFollows(topo, a, frame, w);
    net := FloodHop(topo, net, Flight(frame, w[..n], w[n]));
    assert Punts(frame, w[..n]) + [Input(w[n].sw, GotPacketIn(w[n].port, frame))] == Punts(frame, w);
  }

  // ------------------------------------------------------------------ the reply

  predicate Learned(net: Net, s: Sock, a: Mac, port: uint16) {
    (s, a) in After(net.log).ll && After(net.log).ll[(s, a)] == port
  }

  /** Place i on the way back v: among the first k, the switch has both entries; otherwise none toward a. */
  predicate PlaceOk(net: Net, a: Mac, b: Mac, w: Trail, v: Trail, k: nat, i: nat)
    requires i < |w| == |v|
  {
    var table := Table(net, v[i].sw);
    if i < k then
      && FlowKey(a, b) in table && table[FlowKey(a, b)] == v[i].port
      && FlowKey(b, a) in table && table[FlowKey(b, a)] == w[|w| - 1 - i].port
    else
      FlowKey(b, a) !in table
  }

  /** The reply has passed k switches. */
  ghost predicate Progress(net: Net, a: Mac, b: Mac, w: Trail, v: Trail, k: nat)
    requires |w| == |v|
  {
    && Idle(net)
    && (forall i :: 0 <= i < |w| ==> Learned(net, w[i].sw, a, w[i].port))
    && (forall i :: 0 <= i < |w| ==> PlaceOk(net, a, b, w, v, k, i))
  }

  /** What has been learned stays. */
  lemma LearnedStays(net: Net, net': Net, i: Input, s: Sock, a: Mac, port: uint16)
    requires Learned(net, s, a, port) && net'.log == net.log + [i]
    ensures Learned(net', s, a, port)
  {
    assert net'.log[..|net.log|] == net.log;
    LearnsOne(net'.log);
    hide After;
  }

  lemma PortToward(net: Net, s: Sock, a: Mac, port: uint16, inPort: uint16, frame: Frame)
    requires Learned(net, s, a, port) && Src(frame) != a
    ensures FindPort(LearnFrom(After(net.log), s, inPort, frame), s, a) == port
  {
    hide After;
  }

  lemma ProgressOn(topo: T.Topology, net: Net, net': Net, f: Flight, a: Mac, b: Mac, w: Trail, k: nat)
    requires T.Valid(topo) && Connects(topo, a, b, w) && k < |w|
    requires var v := WayBack(topo, b, w);
             && Progress(net, a, b, w, v, k) && f.at == v[k]
             && Except(net, net', v[k].sw, net.log + [Input(v[k].sw, GotPacketIn(v[k].port, f.frame))], [], [],
                  Table(net, v[k].sw)[FlowKey(a, b) := v[k].port][FlowKey(b, a) := w[|w| - 1 - k].port])
    ensures Progress(net', a, b, w, WayBack(topo, b, w), k + 1)
  {
    var v := WayBack(topo, b, w);
    hide T.Valid, WayBack, Learned;
    forall i | 0 <= i < |w| ensures Learned(net', w[i].sw, a, w[i].port) {
      LearnedStays(net, net', Input(v[k].sw, GotPacketIn(v[k].port, f.frame)), w[i].sw, a, w[i].port);
    }
    PlacesMeet(topo, a, b, w, k);
    var k' := k + 1;
    forall i | 0 <= i < |w| ensures PlaceOk(net', a, b, w, v, k', i) {
      assert PlaceOk(net, a, b, w, v, k, i);
      PlacesMeet(topo, a, b, w, i);
    }
  }

  /** One switch more. */
  lemma ReplyStep(topo: T.Topology, net: Net, f: Flight, a: Mac, b: Mac, w: Trail, k: nat)
    returns (net': Net, f': Flight)
    requires T.Valid(topo) && Connects(topo, a, b, w) && k < |w|
    requires Reachable(topo, net) && Progress(net, a, b, w, WayBack(topo, b, w), k)
    requires f in net.air && f.at == WayBack(topo, b, w)[k]
    requires IsArpReply(f.frame) && Src(f.frame) == b && Dst(f.frame) == a
    ensures Reachable(topo, net') && Progress(net', a, b, w, WayBack(topo, b, w), k + 1)
    ensures f'.frame == f.frame
    ensures k + 1 < |w| ==> f' in net'.air && f'.at == WayBack(topo, b, w)[k + 1]
  {
    var v, n := WayBack(topo, b, w), |w| - 1;
    PlacesMeet(topo, a, b, w, k);
    assert PlaceOk(net, a, b, w, v, k, k) && Learned(net, w[n - k].sw, a, w[n - k].port);
    hide Reachable, IsArpReply, Src, Dst, WayBack, T.Valid;
    PortToward(net, v[k].sw, a, w[n - k].port, f.at.port, f.frame);
    net' := ReplyHop(topo, net, f);
    ProgressOn(topo, net, net', f, a, b, w, k);
    f' := if k < n then Flight(f.frame, f.trail + [f.at], v[k + 1]) else f;
    if k < n {
      assert T.Loc(v[k].sw, w[n - k].port) == w[n - k];
    }
  }

  lemma {:induction false} ReplyTravels(topo: T.Topology, net: Net, f: Flight, a: Mac, b: Mac, w: Trail, k: nat)
    returns (net': Net)
    requires T.Valid(topo) && Connects(topo, a, b, w) && k <= |w|
    requires Reachable(topo, net) && Progress(net, a, b, w, WayBack(topo, b, w), k)
    requires k < |w| ==> f in net.air && f.at == WayBack(topo, b, w)[k]
    requires IsArpReply(f.frame) && Src(f.frame) == b && Dst(f.frame) == a
    ensures Reachable(topo, net') && Progress(net', a, b, w, WayBack(topo, b, w), |w|)
    decreases |w| - k
  {
    hide Reachable, Progress, IsArpReply, Src, Dst, WayBack, T.Valid, Connects;
    if k == |w| {
      net' := net;
    } else {
      var net1, f1 := ReplyStep(topo, net, f, a, b, w, k);
      net' := ReplyTravels(topo, net1, f1, a, b, w, k + 1);
    }
  }

  /** The pair is connected: entries lead along w to a and along the way back to b, and they are there to stay. */
  ghost predicate Connected(topo: T.Topology, net: Net, a: Mac, b: Mac, w: Trail)
    requires Connects(topo, a, b, w)
  {
    && Leads(net, FlowKey(b, a), w) && Leads(net, FlowKey(a, b), WayBack(topo, b, w))
    && forall i :: 0 <= i < |w| ==> Settled(net, w[i].sw, a, b)
  }

  lemma ProgressConnects(topo: T.Topology, net: Net, a: Mac, b: Mac, w: Trail)
    requires T.Valid(topo) && Connects(topo, a, b, w) && Progress(net, a, b, w, WayBack(topo, b, w), |w|)
    ensures Connected(topo, net, a, b, w)
  {
    var v, n := WayBack(topo, b, w), |w| - 1;
    forall i | 0 <= i <= n
      ensures FlowKey(a, b) in Table(net, v[i].sw) && Table(net, v[i].sw)[FlowKey(a, b)] == v[i].port
      ensures FlowKey(b, a) in Table(net, w[i].sw) && Table(net, w[i].sw)[FlowKey(b, a)] == w[i].port
      ensures Settled(net, w[i].sw, a, b)
    {
      PlacesMeet(topo, a, b, w, i);
      PlacesMeet(topo, a, b, w, n - i);
      assert PlaceOk(net, a, b, w, v, |w|, i) && PlaceOk(net, a, b, w, v, |w|, n - i);
    }
  }

  /** Before the first switch, a is known everywhere and no flow is installed. */
  lemma ReplySent(topo: T.Topology, a: Mac, b: Mac, w: Trail, request: Frame, net1: Net, net2: Net)
    requires T.Valid(topo) && Connects(topo, a, b, w) && Src(request) == a
    requires Calm(net1) && net1.log == Punts(request, w)
    requires net2.log == net1.log && net2.up == net1.up && net2.down == net1.down && net2.tables == net1.tables
    ensures Progress(net2, a, b, w, WayBack(topo, b, w), 0)
  {
    forall i | 0 <= i < |w| ensures Learned(net2, w[i].sw, a, w[i].port) {
      LearnedAlong(a, request, w, i);
    }
    var v := WayBack(topo, b, w);
    forall i | 0 <= i < |w| ensures PlaceOk(net2, a, b, w, v, 0, i) {
      assert Table(net2, v[i].sw) == Table(net1, v[i].sw);
    }
  }

  /** Any ordinary frame from a, flooded along a journey to the switch of b, and an ARP reply from b can leave every
      switch on it with final entries that lead to a and to b. */
  lemma ReplyConnects(topo: T.Topology, a: Mac, b: Mac, w: Trail, request: Frame, reply: Frame) returns (net: Net)
    requires T.Valid(topo) && Connects(topo, a, b, w)
    requires Src(request) == a && !IsArpReply(request) && !IsLoopback(request)
    requires IsArpReply(reply) && Src(reply) == b && Dst(reply) == a
    ensures Reachable(topo, net) && Connected(topo, net, a, b, w)
  {
    hide Reachable, IsArpReply, IsLoopback, Src, Dst, After, WayBack, T.Valid, Calm, Punts, Progress, Connected;
    var net1 := Requested(topo, a, request, w);
    var net2 := Next(topo, net1, HostSends(b, reply));
    ReplySent(topo, a, b, w, request, net1, net2);
    PlacesMeet(topo, a, b, w, 0);
    net := ReplyTravels(topo, net2, Flight(reply, [], topo.host[b]), a, b, w, 0);
    ProgressConnects(topo, net, a, b, w);
  }

  /** An ARP request from a: type 0x0806, opcode 1, to any destination but a itself. */
  predicate IsArpRequest(frame: Frame, a: Mac) {
    && |frame| >= 22 && frame[12..14] == [8, 6] && frame[20..22] == [0, 1]
    && frame[6..12] == a && frame[0..6] != a
  }

  /** An ARP reply from b to a: type 0x0806, opcode 2. */
  predicate IsArpReplyFromTo(frame: Frame, b: Mac, a: Mac) {
    && |frame| >= 22 && frame[12..14] == [8, 6] && frame[20..22] == [0, 2]
    && frame[6..12] == b && frame[0..6] == a
  }

  /** An ARP request is flooded along any journey: every switch on it is left without a flow, and reports a to the
      controller. */
  lemma ArpRequested(topo: T.Topology, a: Mac, request: Frame, w: Trail) returns (net: Net)
    requires T.Valid(topo) && T.From(topo, a, w) && IsArpRequest(request, a)
    ensures Reachable(topo, net) && Calm(net) && net.log == Punts(request, w)
  {
    ArpOctets(request);
    net := Requested(topo, a, request, w);
  }

  /** What the controller is for: an ARP request from a, flooded along any journey to the switch of b, and the ARP reply
      from b can leave every switch on it with final entries that lead to a and to b. */
  lemma ArpConnects(topo: T.Topology, a: Mac, b: Mac, w: Trail, request: Frame, reply: Frame) returns (net: Net)
    requires T.Valid(topo) && Connects(topo, a, b, w)
    requires IsArpRequest(request, a) && IsArpReplyFromTo(reply, b, a)
    ensures Reachable(topo, net) && Connected(topo, net, a, b, w)
  {
    ArpOctets(request);
    ArpOctets(reply);
    hide IsArpReply, IsLoopback, Src, Dst;
    net := ReplyConnects(topo, a, b, w, request, reply);
  }

  lemma ConnectedStays(topo: T.Topology, nets: seq<Net>, acts: seq<Action>, i: nat, j: nat, a: Mac, b: Mac, w: Trail)
    requires T.Valid(topo) && Connects(topo, a, b, w) && IsPath(topo, nets, acts) && i <= j < |nets|
    requires Connected(topo, nets[i], a, b, w)
    ensures Connected(topo, nets[j], a, b, w)
  {
    var v, n := WayBack(topo, b, w), |w| - 1;
    forall k | 0 <= k <= n
      ensures SameEntries(nets[i], nets[j], w[k].sw, a, b) && Settled(nets[j], w[k].sw, a, b)
      ensures SameEntries(nets[i], nets[j], v[k].sw, a, b)
    {
      PlacesMeet(topo, a, b, w, k);
      EntriesAreFinal(topo, nets, acts, i, j, w[k].sw, a, b);
      EntriesAreFinal(topo, nets, acts, i, j, w[n - k].sw, a, b);
    }
  }

  /** And whatever happens after that, a frame that a sends to b is delivered as soon as the switches on the way forward
      it: in as many steps as there are cables, and without the controller. The same holds from b to a. */
  lemma StaysConnected(topo: T.Topology, nets: seq<Net>, acts: seq<Action>, i: nat, j: nat, a: Mac, b: Mac, w: Trail,
                       f: Flight)
    returns (more: seq<Net>, moves: seq<Action>, g: Flight)
    requires T.Valid(topo) && Connects(topo, a, b, w) && IsPath(topo, nets, acts) && i <= j < |nets|
    requires Connected(topo, nets[i], a, b, w) && topo.host[a] != topo.host[b]
    requires f in nets[j].air && Between(FlowKey(Src(f.frame), Dst(f.frame)), a, b) && f.at == topo.host[Src(f.frame)]
    ensures |more| == |w| && |moves| == |w| - 1 && more[0] == nets[j] && Travels(topo, more, moves, f, g)
    ensures var home := topo.host[Dst(f.frame)];
            && g.at.sw == home.sw && g.at != home
            && FlowKey(Src(f.frame), Dst(f.frame)) in Table(more[|moves|], home.sw)
            && Table(more[|moves|], home.sw)[FlowKey(Src(f.frame), Dst(f.frame))] == home.port
  {
    ConnectedStays(topo, nets, acts, i, j, a, b, w);
    WayBackIsJourney(topo, a, b, w);
    var way := if Dst(f.frame) == a then w else WayBack(topo, b, w);
    assert T.Last(way) != f.at by {
      if Dst(f.frame) == b && |w| > 1 {
        PlacesMeet(topo, a, b, w, |w| - 1);
      }
    }
    more, moves, g := Carried(topo, nets[j], f, way);
    assert way[0] == topo.host[Dst(f.frame)];
  }
}
