/**
 Switches wired together. A location is a port of a switch; a frame's journey is the
 sequence of locations at which it has arrived.
 */
module Topology {
  import opened Bytes
  import opened Collections
  import opened OpenFlow

  datatype Loc = Loc(sw: Sock, port: uint16)

  /** The switches, the cables between their ports, and the ports at which hosts are attached. */
  datatype Topology = Topology(switches: set<Sock>, link: map<Loc, Loc>, host: map<Mac, Loc>)

  /** Physical ports are numbered from 1, and there are at most OFPP_MAX of them. */
  const OFPP_MAX: uint16 := 0xff00

  predicate IsPort(topo: Topology, l: Loc) {
    l.sw in topo.switches && 1 <= l.port <= OFPP_MAX
  }

  /** Cables work both ways and join physical ports, and hosts have ports of their own. */
  ghost predicate Valid(topo: Topology) {
    && (forall l :: l in topo.link ==> topo.link[l] in topo.link && topo.link[topo.link[l]] == l)
    && (forall l :: l in topo.link ==> IsPort(topo, l))
    && (forall m :: m in topo.host ==> topo.host[m] !in topo.link && IsPort(topo, topo.host[m]))
  }

  /** Arriving at b is possible after arriving at a: b's cable comes from a's switch, and not from the port on which
      the frame came in. */
  predicate Hop(topo: Topology, a: Loc, b: Loc) {
    b in topo.link && topo.link[b].sw == a.sw && topo.link[b] != a
  }

  /** A journey that never leaves a switch through the port it came in on. */
  ghost predicate IsWalk(topo: Topology, w: seq<Loc>) {
    |w| >= 1 && forall i :: 0 < i < |w| ==> Hop(topo, w[i - 1], w[i])
  }

  /** No switch is visited twice. */
  ghost predicate Simple(w: seq<Loc>) {
    forall i, j :: 0 <= i < j < |w| ==> w[i].sw != w[j].sw
  }

  /** Without cycles: a journey that never turns back never returns. */
  ghost predicate Forest(topo: Topology) {
    forall w :: IsWalk(topo, w) ==> Simple(w)
  }

  /** The same for journeys from one location. */
  ghost predicate NoReturnFrom(topo: Topology, start: Loc) {
    forall w :: IsWalk(topo, w) && w[0] == start ==> Simple(w)
  }

  function Last(w: seq<Loc>): Loc
    requires |w| >= 1
  {
    w[|w| - 1]
  }

  /** w is a journey of a frame sent by host m. */
  ghost predicate From(topo: Topology, m: Mac, w: seq<Loc>) {
    IsWalk(topo, w) && m in topo.host && w[0] == topo.host[m]
  }

  /** A frame from m may arrive at l: seen from l's switch, m lies behind that port. */
  ghost predicate Toward(topo: Topology, m: Mac, l: Loc) {
    exists w :: From(topo, m, w) && Last(w) == l
  }

  /** Host m is n cables away from switch s. */
  ghost predicate Distance(topo: Topology, m: Mac, s: Sock, n: nat) {
    exists w :: From(topo, m, w) && Last(w).sw == s && |w| == n + 1
  }

  // ------------------------------------------------------------------ journeys in a forest

  /** The way back along w, starting from the last location. */
  function Back(topo: Topology, w: seq<Loc>): (r: seq<Loc>)
    requires |w| >= 1 && forall i :: 0 < i < |w| ==> w[i] in topo.link
    ensures |r| == |w| - 1
  {
    seq(|w| - 1, i requires 0 <= i < |w| - 1 => topo.link[w[|w| - 1 - i]])
  }

  /** Out along v, and home along w: a journey that returns to where it started. */
  lemma RoundTrip(topo: Topology, v: seq<Loc>, w: seq<Loc>) returns (round: seq<Loc>)
    requires Valid(topo) && IsWalk(topo, v) && IsWalk(topo, w)
    requires v[0] == w[0] && Last(v).sw == Last(w).sw && Last(v) != Last(w) && |w| > 1
    ensures IsWalk(topo, round) && !Simple(round) && round[0] == v[0]
  {
    forall i | 0 < i < |w| ensures w[i] in topo.link {
      assert Hop(topo, w[i - 1], w[i]);
    }
    round := v + Back(topo, w);
    forall i | 0 < i < |round|
      ensures Hop(topo, round[i - 1], round[i])
    {
      if i >= |v| {
        var k := |w| - 1 - (i - |v|);
        assert round[i] == topo.link[w[k]];
        assert Hop(topo, w[k - 1], w[k]);
        if i > |v| {
          assert round[i - 1] == topo.link[w[k + 1]];
          assert Hop(topo, w[k], w[k + 1]);
        }
      }
    }
    assert Hop(topo, w[0], w[1]);
    assert round[|round| - 1] == topo.link[w[1]] && round[0].sw == topo.link[w[1]].sw;
  }

  /** Two journeys that start together and end at the same switch end at the same port, since otherwise one could go
      out along the first and home along the second. */
  lemma SameArrival(topo: Topology, v: seq<Loc>, w: seq<Loc>)
    requires Valid(topo) && IsWalk(topo, v) && IsWalk(topo, w) && NoReturnFrom(topo, v[0])
    requires v[0] == w[0] && Last(v).sw == Last(w).sw
    ensures Last(v) == Last(w)
  {
    assert Simple(v);
    if Last(v) != Last(w) && |w| > 1 {
      var round := RoundTrip(topo, v, w);
      assert false;
    }
  }

  /** In a forest, or wherever journeys do not return, there is only one journey from a location to a switch. */
  lemma {:induction false} UniqueWalk(topo: Topology, v: seq<Loc>, w: seq<Loc>)
    requires Valid(topo) && IsWalk(topo, v) && IsWalk(topo, w) && NoReturnFrom(topo, v[0])
    requires v[0] == w[0] && Last(v).sw == Last(w).sw
    ensures v == w
    decreases |v|
  {
    SameArrival(topo, v, w);
    assert Simple(v) && Simple(w);
    if |v| > 1 && |w| > 1 {
      assert Hop(topo, v[|v| - 2], Last(v)) && Hop(topo, w[|w| - 2], Last(w));
      UniqueWalk(topo, v[..|v| - 1], w[..|w| - 1]);
      assert v == v[..|v| - 1] + [Last(v)] && w == w[..|w| - 1] + [Last(w)];
    }
  }

  /** Hence "the port toward m" is a function of the switch, and so is the distance. */
  lemma TowardIsUnique(topo: Topology, m: Mac, a: Loc, b: Loc)
    requires Valid(topo) && Forest(topo) && Toward(topo, m, a) && Toward(topo, m, b) && a.sw == b.sw
    ensures a == b
  {
    var v :| From(topo, m, v) && Last(v) == a;
    var w :| From(topo, m, w) && Last(w) == b;
    UniqueWalk(topo, v, w);
  }

  lemma DistanceIsUnique(topo: Topology, m: Mac, s: Sock, n: nat, k: nat)
    requires Valid(topo) && Forest(topo) && Distance(topo, m, s, n) && Distance(topo, m, s, k)
    ensures n == k
  {
    var v :| From(topo, m, v) && Last(v).sw == s && |v| == n + 1;
    var w :| From(topo, m, w) && Last(w).sw == s && |w| == k + 1;
    UniqueWalk(topo, v, w);
  }

  /** Leaving a switch through the port toward m either reaches m's own port or a switch one cable nearer to m. */
  lemma TowardIsNearer(topo: Topology, m: Mac, l: Loc)
    requires Valid(topo) && Toward(topo, m, l)
    ensures l == topo.host[m] ||
            (l in topo.link && exists n: nat :: Distance(topo, m, l.sw, n + 1) && Distance(topo, m, topo.link[l].sw, n))
  {
    var w :| From(topo, m, w) && Last(w) == l;
    if |w| > 1 {
      var n := |w| - 2;
      assert Hop(topo, w[n], l);
      assert From(topo, m, w[..n + 1]) && Last(w[..n + 1]).sw == topo.link[l].sw;
      assert Distance(topo, m, l.sw, n + 1) && Distance(topo, m, topo.link[l].sw, n);
    }
  }

  // ------------------------------------------------------------------ how long a journey can be

  function Visited(w: seq<Loc>): (v: set<Sock>)
    ensures forall i :: 0 <= i < |w| ==> w[i].sw in v
    ensures forall s :: s in v ==> exists i :: 0 <= i < |w| && w[i].sw == s
  {
    set i | 0 <= i < |w| :: w[i].sw
  }

  lemma {:induction false} VisitedSize(w: seq<Loc>)
    requires Simple(w)
    ensures |Visited(w)| == |w|
  {
    if w != [] {
      var n := |w| - 1;
      VisitedSize(w[..n]);
      forall s ensures s in Visited(w) <==> s in Visited(w[..n]) || s == w[n].sw {
        if s in Visited(w) {
          var i :| 0 <= i < |w| && w[i].sw == s;
          assert i < n ==> w[..n][i].sw == s;
        }
      }
      assert Visited(w) == Visited(w[..n]) + {w[n].sw};
    }
  }

  /** A journey that visits no switch twice crosses fewer cables than there are switches. */
  lemma WalkIsShort(topo: Topology, w: seq<Loc>)
    requires Valid(topo) && IsWalk(topo, w) && w[0].sw in topo.switches && Simple(w)
    ensures |w| <= |topo.switches|
  {
    forall i | 0 <= i < |w| ensures w[i].sw in topo.switches {
      assert i > 0 ==> Hop(topo, w[i - 1], w[i]);
    }
    VisitedSize(w);
    SubsetSize(Visited(w), topo.switches);
  }

  /** In a forest a journey takes a frame to a new switch each time, one cable further from its sender. */
  lemma JourneysInForests(topo: Topology, m: Mac, w: seq<Loc>)
    requires Valid(topo) && Forest(topo) && From(topo, m, w)
    ensures Simple(w) && |w| <= |topo.switches|
    ensures forall i :: 0 <= i < |w| ==> Distance(topo, m, w[i].sw, i)
  {
    forall i | 0 <= i < |w| ensures Distance(topo, m, w[i].sw, i) {
      assert From(topo, m, w[..i + 1]) && Last(w[..i + 1]) == w[i];
    }
    WalkIsShort(topo, w);
  }

  // ------------------------------------------------------------------ rooted trees are forests

  /** Every cable joins a switch to its parent: up gives a non-root switch's own end of that cable, and depth grows by
      one from parent to child. */
  ghost predicate Rooted(topo: Topology, up: map<Sock, Loc>, depth: map<Sock, nat>) {
    && (forall s :: s in topo.switches ==> s in depth)
    && (forall s :: s in up ==>
          s in topo.switches && up[s] in topo.link && up[s].sw == s && topo.link[up[s]].sw in depth
          && depth[s] == depth[topo.link[up[s]].sw] + 1)
    && (forall l :: l in topo.link ==> IsUplink(up, l) || IsUplink(up, topo.link[l]))
  }

  ghost predicate IsUplink(up: map<Sock, Loc>, l: Loc) {
    l.sw in up && up[l.sw] == l
  }

  /** Once a journey has gone down, it can only go further down. */
  lemma {:induction false} DownStaysDown(topo: Topology, up: map<Sock, Loc>, depth: map<Sock, nat>, w: seq<Loc>,
                                         i: nat, j: nat)
    requires Valid(topo) && Rooted(topo, up, depth) && IsWalk(topo, w)
    requires 0 < i <= j < |w| && IsUplink(up, w[i])
    ensures IsUplink(up, w[j]) && w[i].sw in depth && w[j].sw in depth && depth[w[j].sw] == depth[w[i].sw] + (j - i)
    decreases j
  {
    assert Hop(topo, w[i - 1], w[i]);
    if i < j {
      DownStaysDown(topo, up, depth, w, i, j - 1);
      assert Hop(topo, w[j - 1], w[j]);
    }
  }

  /** As long as a journey has not gone down, every cable has taken it nearer to the root. */
  lemma {:induction false} UpUntilThen(topo: Topology, up: map<Sock, Loc>, depth: map<Sock, nat>, w: seq<Loc>,
                                       i: nat, j: nat)
    requires Valid(topo) && Rooted(topo, up, depth) && IsWalk(topo, w)
    requires i < j < |w| && !IsUplink(up, w[j])
    ensures w[i].sw in depth && w[j].sw in depth && depth[w[j].sw] < depth[w[i].sw]
    decreases j
  {
    assert Hop(topo, w[j - 1], w[j]);
    if i < j - 1 {
      assert !IsUplink(up, w[j - 1]);
      UpUntilThen(topo, up, depth, w, i, j - 1);
    }
  }

  lemma {:induction false} NoReturn(topo: Topology, up: map<Sock, Loc>, depth: map<Sock, nat>, w: seq<Loc>,
                                    i: nat, j: nat)
    requires Valid(topo) && Rooted(topo, up, depth) && IsWalk(topo, w)
    requires i < j < |w|
    ensures w[i].sw != w[j].sw
    decreases j - i
  {
    assert Hop(topo, w[i], w[i + 1]) && Hop(topo, w[j - 1], w[j]);
    if !IsUplink(up, w[j]) {
      UpUntilThen(topo, up, depth, w, i, j);
    } else if IsUplink(up, w[i + 1]) {
      DownStaysDown(topo, up, depth, w, i + 1, j);
    } else if w[i].sw == w[j].sw {
      assert IsUplink(up, topo.link[w[i + 1]]);
      assert topo.link[w[i + 1]] == w[j];
      if i + 1 < j - 1 {
        NoReturn(topo, up, depth, w, i + 1, j - 1);
      }
      assert false;
    }
  }

  /** Every rooted tree (or set of rooted trees) of switches is a forest in the sense used here. */
  lemma RootedTreesAreForests(topo: Topology, up: map<Sock, Loc>, depth: map<Sock, nat>)
    requires Valid(topo) && Rooted(topo, up, depth)
    ensures Forest(topo)
  {
    forall w: seq<Loc> | IsWalk(topo, w) ensures Simple(w) {
      forall i, j | 0 <= i < j < |w| ensures w[i].sw != w[j].sw {
        NoReturn(topo, up, depth, w, i, j);
      }
    }
  }

  // ------------------------------------------------------------------ and forests are rooted trees

  /** w is a journey from start to switch s. */
  ghost predicate Leads(topo: Topology, start: Loc, s: Sock, w: seq<Loc>) {
    IsWalk(topo, w) && w[0] == start && Last(w).sw == s
  }

  ghost predicate Reaches(topo: Topology, start: Loc, s: Sock) {
    exists w :: Leads(topo, start, s, w)
  }

  ghost function WalkTo(topo: Topology, start: Loc, s: Sock): (w: seq<Loc>)
    requires Reaches(topo, start, s)
    ensures Leads(topo, start, s, w)
  {
    var w :| Leads(topo, start, s, w);
    w
  }

  ghost predicate ReachedFrom(topo: Topology, starts: set<Loc>, s: Sock) {
    exists l :: l in starts && Reaches(topo, l, s)
  }

  /** The part of the topology that can be reached from the given locations. */
  ghost function Part(topo: Topology, starts: set<Loc>): Topology {
    var part := set s | s in topo.switches && ReachedFrom(topo, starts, s);
    Topology(part, map l | l in topo.link && l.sw in part :: topo.link[l],
             map m | m in topo.host && topo.host[m].sw in part :: topo.host[m])
  }

  /** No journey from any of the given locations, which have no cable, returns. */
  ghost predicate CycleFree(topo: Topology, starts: set<Loc>) {
    forall l :: l in starts ==> NoReturnFrom(topo, l)
  }

  ghost predicate AreStarts(topo: Topology, starts: set<Loc>) {
    forall l :: l in starts ==> l !in topo.link && l.sw in topo.switches
  }

  /** The switches in part form rooted trees, and no cable leaves it. */
  ghost predicate RootedOn(topo: Topology, part: set<Sock>, up: map<Sock, Loc>, depth: map<Sock, nat>) {
    && part <= topo.switches && part <= depth.Keys
    && (forall s :: s in up ==> UpOk(topo, part, up, depth, s))
    && (forall l :: l in topo.link && l.sw in part ==>
          topo.link[l].sw in part && (IsUplink(up, l) || IsUplink(up, topo.link[l])))
  }

  ghost predicate UpOk(topo: Topology, part: set<Sock>, up: map<Sock, Loc>, depth: map<Sock, nat>, s: Sock)
    requires s in up && part <= depth.Keys
  {
    s in part && up[s] in topo.link && up[s].sw == s && topo.link[up[s]].sw in part
    && depth[s] == depth[topo.link[up[s]].sw] + 1
  }

  lemma OneStepOn(topo: Topology, w: seq<Loc>, b: Loc)
    requires IsWalk(topo, w) && Hop(topo, Last(w), b)
    ensures IsWalk(topo, w + [b]) && Last(w + [b]) == b && (w + [b])[0] == w[0]
  {
    var v := w + [b];
    forall i | 0 < i < |v| ensures Hop(topo, v[i - 1], v[i]) {
      assert i < |w| ==> Hop(topo, w[i - 1], w[i]);
    }
  }

  /** No journey leaves or enters a closed set of switches. */
  lemma {:induction false} StaysInside(topo: Topology, part: set<Sock>, w: seq<Loc>)
    requires Valid(topo) && IsWalk(topo, w)
    requires forall l :: l in topo.link && l.sw in part ==> topo.link[l].sw in part
    ensures w[0].sw in part <==> Last(w).sw in part
    decreases |w|
  {
    var n := |w| - 1;
    if n > 0 {
      StaysInside(topo, part, w[..n]);
      assert Hop(topo, w[n - 1], w[n]);
    }
  }

  /** The switches that a location reaches form a tree, rooted at the switch where it is. */
  lemma TreeFrom(topo: Topology, start: Loc) returns (part: set<Sock>, up: map<Sock, Loc>, depth: map<Sock, nat>)
    requires Valid(topo) && start !in topo.link && start.sw in topo.switches && NoReturnFrom(topo, start)
    ensures RootedOn(topo, part, up, depth) && up.Keys <= part && depth.Keys == part
    ensures forall s :: s in part <==> Reaches(topo, start, s)
  {
    part := set s | s in topo.switches && Reaches(topo, start, s);
    up := map s | s in part && |WalkTo(topo, start, s)| > 1 :: Last(WalkTo(topo, start, s));
    depth := map s | s in part :: |WalkTo(topo, start, s)| - 1;
    forall s | Reaches(topo, start, s) ensures s in part {
      var w := WalkTo(topo, start, s);
      assert |w| > 1 ==> Hop(topo, w[|w| - 2], w[|w| - 1]);
    }
    forall s | s in up ensures UpOk(topo, part, up, depth, s) {
      var w := WalkTo(topo, start, s);
      var n := |w| - 1;
      assert Hop(topo, w[n - 1], w[n]);
      assert Leads(topo, start, w[n - 1].sw, w[..n]);
      UniqueWalk(topo, w[..n], WalkTo(topo, start, w[n - 1].sw));
    }
    forall l | l in topo.link && l.sw in part
      ensures topo.link[l].sw in part && (IsUplink(up, l) || IsUplink(up, topo.link[l]))
    {
      CableInTree(topo, start, l);
    }
  }

  /** A cable of the tree is the last one of the journey to one of its ends. */
  lemma CableInTree(topo: Topology, start: Loc, l: Loc)
    requires Valid(topo) && start !in topo.link && NoReturnFrom(topo, start)
    requires l in topo.link && Reaches(topo, start, l.sw)
    ensures var b := topo.link[l];
            && Reaches(topo, start, b.sw)
            && ((|WalkTo(topo, start, l.sw)| > 1 && Last(WalkTo(topo, start, l.sw)) == l) ||
                (|WalkTo(topo, start, b.sw)| > 1 && Last(WalkTo(topo, start, b.sw)) == b))
  {
    var w, b := WalkTo(topo, start, l.sw), topo.link[l];
    var n := |w| - 1;
    if Last(w) == l {
      assert n > 0 && Hop(topo, w[n - 1], w[n]);
      assert Leads(topo, start, b.sw, w[..n]);
    } else {
      OneStepOn(topo, w, b);
      assert Leads(topo, start, b.sw, w + [b]);
      UniqueWalk(topo, w + [b], WalkTo(topo, start, b.sw));
    }
  }

  /** Two parts without a switch in common, side by side. */
  lemma SideBySide(topo: Topology, part: set<Sock>, up: map<Sock, Loc>, depth: map<Sock, nat>,
                   part': set<Sock>, up': map<Sock, Loc>, depth': map<Sock, nat>)
    requires RootedOn(topo, part, up, depth) && RootedOn(topo, part', up', depth') && part !! part'
    requires up.Keys <= part && up'.Keys <= part' && depth.Keys == part && depth'.Keys == part'
    ensures RootedOn(topo, part + part', up + up', depth + depth')
  {
    forall s | s in up + up' ensures UpOk(topo, part + part', up + up', depth + depth', s) {
      assert if s in up' then UpOk(topo, part', up', depth', s) else UpOk(topo, part, up, depth, s);
    }
    forall l | l in topo.link && l.sw in part + part'
      ensures IsUplink(up + up', l) || IsUplink(up + up', topo.link[l])
    {
      assert l.sw in part ==> IsUplink(up, l) || IsUplink(up, topo.link[l]);
    }
  }

  /** Tree by tree, everything that is reached from the given locations. */
  lemma TreesFrom(topo: Topology, starts: set<Loc>) returns (part: set<Sock>, up: map<Sock, Loc>, depth: map<Sock, nat>)
    requires Valid(topo) && AreStarts(topo, starts) && CycleFree(topo, starts)
    ensures RootedOn(topo, part, up, depth) && up.Keys <= part && depth.Keys == part
    ensures forall s :: s in part <==> ReachedFrom(topo, starts, s)
    decreases starts
  {
    if starts == {} {
      part, up, depth := {}, map[], map[];
    } else {
      var l :| l in starts;
      part, up, depth := TreesFrom(topo, starts - {l});
      if l.sw in part {
        forall s | Reaches(topo, l, s) ensures s in part {
          StaysInside(topo, part, WalkTo(topo, l, s));
        }
      } else {
        var part', up', depth' := TreeFrom(topo, l);
        forall s | s in part' ensures s !in part {
          StaysInside(topo, part, WalkTo(topo, l, s));
        }
        SideBySide(topo, part, up, depth, part', up', depth');
        part, up, depth := part + part', up + up', depth + depth';
      }
      forall s ensures s in part <==> ReachedFrom(topo, starts, s) {
        assert ReachedFrom(topo, starts, s) <==> ReachedFrom(topo, starts - {l}, s) || Reaches(topo, l, s);
      }
    }
  }

  /** The part that is reached is a topology of its own. */
  lemma PartIsValid(topo: Topology, starts: set<Loc>)
    requires Valid(topo) && AreStarts(topo, starts)
    ensures Valid(Part(topo, starts))
  {
    var part := Part(topo, starts);
    forall l | l in part.link ensures topo.link[l].sw in part.switches {
      var start :| start in starts && Reaches(topo, start, l.sw);
      var w := WalkTo(topo, start, l.sw);
      if Last(w) == l {
        assert Hop(topo, w[|w| - 2], l);
        assert Leads(topo, start, topo.link[l].sw, w[..|w| - 1]);
      } else {
        OneStepOn(topo, w, topo.link[l]);
        assert Leads(topo, start, topo.link[l].sw, w + [topo.link[l]]);
      }
    }
  }

  /** A journey from a starting point stays in that part. */
  lemma JourneysStayInPart(topo: Topology, starts: set<Loc>, w: seq<Loc>)
    requires Valid(topo) && AreStarts(topo, starts) && IsWalk(topo, w) && w[0] in starts
    ensures IsWalk(Part(topo, starts), w)
  {
    var part := Part(topo, starts);
    forall i | 0 < i < |w| ensures Hop(part, w[i - 1], w[i]) {
      assert Hop(topo, w[i - 1], w[i]);
      assert Leads(topo, w[0], w[i].sw, w[..i + 1]);
    }
  }

  /** Journeys from the given locations never return exactly if what they reach consists of rooted trees. */
  lemma CycleFreeIsRooted(topo: Topology, starts: set<Loc>)
    requires Valid(topo) && AreStarts(topo, starts)
    ensures CycleFree(topo, starts) <==> exists up, depth :: Rooted(Part(topo, starts), up, depth)
  {
    var part := Part(topo, starts);
    PartIsValid(topo, starts);
    if CycleFree(topo, starts) {
      var switches, up, depth := TreesFrom(topo, starts);
      forall s | s in up ensures UpOk(topo, switches, up, depth, s) {
      }
      assert switches == part.switches;
      assert Rooted(part, up, depth);
    }
    if up, depth :| Rooted(part, up, depth) {
      RootedTreesAreForests(part, up, depth);
      forall w | IsWalk(topo, w) && w[0] in starts ensures Simple(w) {
        JourneysStayInPart(topo, starts, w);
      }
    }
  }

  /** One location without a cable at every switch. */
  function Everywhere(topo: Topology): set<Loc> {
    set s | s in topo.switches :: Loc(s, 0)
  }

  lemma EverythingIsReached(topo: Topology)
    requires Valid(topo)
    ensures AreStarts(topo, Everywhere(topo)) && Part(topo, Everywhere(topo)) == topo
  {
    forall s | s in topo.switches ensures ReachedFrom(topo, Everywhere(topo), s) {
      ReachesItself(topo, s);
      assert Loc(s, 0) in Everywhere(topo);
    }
    hide ReachedFrom, Everywhere;
    PartIsAll(topo, Everywhere(topo));
  }

  lemma ReachesItself(topo: Topology, s: Sock)
    ensures Reaches(topo, Loc(s, 0), s)
  {
    assert Leads(topo, Loc(s, 0), s, [Loc(s, 0)]);
  }

  lemma PartIsAll(topo: Topology, starts: set<Loc>)
    requires Valid(topo) && forall s :: s in topo.switches ==> ReachedFrom(topo, starts, s)
    ensures Part(topo, starts) == topo
  {
    hide ReachedFrom;
    var part := Part(topo, starts);
    assert part.switches == topo.switches;
    assert part.link == topo.link;
    assert part.host == topo.host;
  }

  /** So the forests are exactly the topologies that consist of rooted trees. */
  lemma ForestsAreRooted(topo: Topology)
    requires Valid(topo)
    ensures Forest(topo) <==> exists up, depth :: Rooted(topo, up, depth)
  {
    EverythingIsReached(topo);
    CycleFreeIsRooted(topo, Everywhere(topo));
    if up, depth :| Rooted(topo, up, depth) {
      RootedTreesAreForests(topo, up, depth);
    }
  }
}
