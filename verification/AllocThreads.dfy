/**
 smartalloc_track and removeTrackNode called by several threads, in sequentially consistent interleavings of their
 accesses to shared memory. The table is taken to be initialised.

 removeTrackNode tests its bucket for emptiness before it takes the lock. The history variables called, returned, live
 and done record what the threads asked for, what they were answered, and what the calls amount to when each of them
 takes effect at one instant.
 */
module AllocThreads {
  import opened HeapSpec
  import opened Wrappers

  type Thread = nat

  datatype Call = TrackCall(r: Rec) | RemoveCall(a: nat)

  /** What a thread is about to do. */
  datatype Pc =
    | Idle
    | TrackLock(r: Rec)                  // pthread_mutex_lock
    | TrackTotal(r: Rec)                 // allocated += space
    | TrackLink(r: Rec)                  // store the new head
    | TrackUnlock(r: Rec)
    | RemoveTest(a: nat)                 // the test outside the lock
    | RemoveLock(a: nat)
    | RemoveHead(a: nat)                 // dereference the head, and bypass it if it is the one
    | RemoveWalk(a: nat, i: nat)         // temp is the i-th node
    | RemoveTotal(a: nat, r: Rec)        // allocated -= to_free->space
    | RemoveUnlock(a: nat, found: Option<Rec>)
    | Crashed(a: nat)                    // the head was NULL when dereferenced under the lock

  datatype Effect =
    | Tracked(t: Thread, r: Rec)
    | Removed(t: Thread, a: nat, found: Option<Rec>)

  datatype Shared = Shared(
    buckets: seq<seq<Rec>>, total: int, lock: Option<Thread>, pcs: map<Thread, Pc>,
    called: map<Thread, seq<Call>>, returned: map<Thread, seq<Option<Rec>>>,
    live: seq<Rec>, done: seq<Effect>)

  function NoBlocks(): seq<seq<Rec>> {
    seq(HASH_SIZE, b requires 0 <= b < HASH_SIZE => InBucket([], b))
  }

  function Start(): Shared {
    Shared(NoBlocks(), 0, None, map[], map[], map[], [], [])
  }

  datatype Action = Begin(t: Thread, call: Call) | Advance(t: Thread)

  function PcOf(s: Shared, t: Thread): Pc {
    if t in s.pcs then s.pcs[t] else Idle
  }

  /** The calls t has made so far, oldest first. */
  function CalledBy(s: Shared, t: Thread): seq<Call> {
    if t in s.called then s.called[t] else []
  }

  /** What they have returned so far. smartalloc_track returns nothing, which is None here. */
  function ReturnedTo(s: Shared, t: Thread): seq<Option<Rec>> {
    if t in s.returned then s.returned[t] else []
  }

  function Goto(s: Shared, t: Thread, pc: Pc): Shared {
    s.(pcs := s.pcs[t := pc])
  }

  function Return(s: Shared, t: Thread, result: Option<Rec>): Shared {
    s.(pcs := s.pcs[t := Idle], returned := s.returned[t := ReturnedTo(s, t) + [result]])
  }

  function Chain(s: Shared, a: nat): seq<Rec> {
    if Bucket(a) < |s.buckets| then s.buckets[Bucket(a)] else []
  }

  function SetChain(s: Shared, a: nat, chain: seq<Rec>): Shared {
    if Bucket(a) < |s.buckets| then s.(buckets := s.buckets[Bucket(a) := chain]) else s
  }

  /** The k-th node leaves its chain; this is when the removal takes effect. */
  function Unlink(s: Shared, t: Thread, a: nat, k: nat): Shared
    requires k < |Chain(s, a)|
  {
    var chain := Chain(s, a);
    var s' := SetChain(s, a, chain[..k] + chain[k + 1..]);
    Goto(s', t, RemoveTotal(a, chain[k])).(live := Remove(s.live, a), done := s.done + [Removed(t, a, Some(chain[k]))])
  }

  /** The removal takes effect and finds nothing. */
  function Miss(s: Shared, t: Thread, a: nat): Shared {
    s.(done := s.done + [Removed(t, a, None)])
  }

  function FirstPc(call: Call): Pc {
    match call
    case TrackCall(r) => TrackLock(r)
    case RemoveCall(a) => RemoveTest(a)
  }

  predicate Enabled(s: Shared, act: Action) {
    match act
    case Begin(t, _) => PcOf(s, t).Idle?
    case Advance(t) =>
      match PcOf(s, t)
      case Idle => false
      case Crashed(_) => false
      case TrackLock(_) => s.lock.None?
      case RemoveLock(_) => s.lock.None?
      case _ => true
  }

  function Step(s: Shared, act: Action): Shared
    requires Enabled(s, act)
  {
    match act
    case Begin(t, call) =>
      Goto(s, t, FirstPc(call)).(called := s.called[t := CalledBy(s, t) + [call]])
    case Advance(t) =>
      match PcOf(s, t)
      case TrackLock(r) => Goto(s, t, TrackTotal(r)).(lock := Some(t))
      case TrackTotal(r) => Goto(s, t, TrackLink(r)).(total := s.total + r.space)
      case TrackLink(r) =>
        Goto(SetChain(s, r.data, [r] + Chain(s, r.data)), t, TrackUnlock(r)).(
          live := [r] + s.live, done := s.done + [Tracked(t, r)])
      case TrackUnlock(_) => Return(s, t, None).(lock := None)
      case RemoveTest(a) => if Chain(s, a) == [] then Return(Miss(s, t, a), t, None) else Goto(s, t, RemoveLock(a))
      case RemoveLock(a) => Goto(s, t, RemoveHead(a)).(lock := Some(t))
      case RemoveHead(a) =>
        if Chain(s, a) == [] then Goto(s, t, Crashed(a))
        else if Chain(s, a)[0].data == a then Unlink(s, t, a, 0)
        else Goto(s, t, RemoveWalk(a, 0))
      case RemoveWalk(a, i) =>
        if i + 1 >= |Chain(s, a)| then Goto(Miss(s, t, a), t, RemoveUnlock(a, None))
        else if Chain(s, a)[i + 1].data == a then Unlink(s, t, a, i + 1)
        else Goto(s, t, RemoveWalk(a, i + 1))
      case RemoveTotal(a, r) => Goto(s, t, RemoveUnlock(a, Some(r))).(total := s.total - r.space)
      case RemoveUnlock(_, found) => Return(s, t, found).(lock := None)
      case _ => s
  }

  ghost predicate IsStep(s: Shared, act: Action, s': Shared) {
    Enabled(s, act) && s' == Step(s, act)
  }

  /** An execution from s0: one state before and one after each action. */
  ghost predicate IsExecution(s0: Shared, ss: seq<Shared>, acts: seq<Action>) {
    && |ss| == |acts| + 1
    && ss[0] == s0
    && forall i :: 0 <= i < |acts| ==> IsStep(ss[i], acts[i], ss[i + 1])
  }

  /** Some execution of any number of threads making any calls ends in s. */
  ghost predicate Reachable(s: Shared) {
    exists ss, acts :: IsExecution(Start(), ss, acts) && ss[|acts|] == s
  }

  // ------------------------------------------------------------------ the invariant

  predicate HoldsLock(pc: Pc) {
    pc.TrackTotal? || pc.TrackLink? || pc.TrackUnlock? ||
    pc.RemoveHead? || pc.RemoveWalk? || pc.RemoveTotal? || pc.RemoveUnlock? || pc.Crashed?
  }

  /** The call under way has taken effect. */
  predicate Effected(pc: Pc) {
    pc.TrackUnlock? || pc.RemoveTotal? || pc.RemoveUnlock?
  }

  function CallOf(pc: Pc): Call
    requires !pc.Idle?
  {
    if pc.TrackLock? || pc.TrackTotal? || pc.TrackLink? || pc.TrackUnlock? then TrackCall(pc.r) else RemoveCall(pc.a)
  }

  /** How far allocated is ahead of the records while the lock is held. */
  function Ahead(pc: Pc): int {
    match pc
    case TrackLink(r) => r.space
    case RemoveTotal(_, r) => r.space
    case _ => 0
  }

  /** The effects of the calls by t, oldest first. */
  function EffectsOf(done: seq<Effect>, t: Thread): (es: seq<Effect>) {
    if done == [] then []
    else EffectsOf(done[..|done| - 1], t) + if done[|done| - 1].t == t then [done[|done| - 1]] else []
  }

  lemma OneMoreEffect(done: seq<Effect>, e: Effect, t: Thread)
    ensures EffectsOf(done + [e], t) == EffectsOf(done, t) + if e.t == t then [e] else []
  {
    assert (done + [e])[..|done|] == done;
  }

  predicate IsEffectOf(e: Effect, call: Call) {
    match e
    case Tracked(_, r) => call == TrackCall(r)
    case Removed(_, a, _) => call == RemoveCall(a)
  }

  function ResultOf(e: Effect): Option<Rec> {
    match e
    case Tracked(_, _) => None
    case Removed(_, _, found) => found
  }

  /** The calls of one thread, their effects and their results belong together, one to one. */
  ghost predicate HistoryOk(pc: Pc, calls: seq<Call>, effects: seq<Effect>, results: seq<Option<Rec>>) {
    && |calls| == |results| + (if pc.Idle? then 0 else 1)
    && |effects| == |results| + (if Effected(pc) then 1 else 0)
    && (forall i :: 0 <= i < |effects| ==> IsEffectOf(effects[i], calls[i]))
    && (forall i :: 0 <= i < |results| ==> results[i] == ResultOf(effects[i]))
    && (!pc.Idle? ==> calls[|results|] == CallOf(pc))
    && (pc.RemoveTotal? ==> ResultOf(effects[|results|]) == Some(pc.r))
    && (pc.RemoveUnlock? ==> ResultOf(effects[|results|]) == pc.found)
  }

  /** The walk has passed only nodes that are not the one. */
  ghost predicate WalkOk(s: Shared, pc: Pc) {
    pc.RemoveWalk? ==>
      pc.i < |Chain(s, pc.a)| && forall k :: 0 <= k <= pc.i ==> Chain(s, pc.a)[k].data != pc.a
  }

  ghost predicate ThreadOk(s: Shared, t: Thread) {
    && (HoldsLock(PcOf(s, t)) <==> s.lock == Some(t))
    && WalkOk(s, PcOf(s, t))
    && HistoryOk(PcOf(s, t), CalledBy(s, t), EffectsOf(s.done, t), ReturnedTo(s, t))
  }

  ghost predicate BucketsOk(s: Shared) {
    |s.buckets| == HASH_SIZE && forall b :: 0 <= b < HASH_SIZE ==> s.buckets[b] == InBucket(s.live, b)
  }

  predicate TotalOk(s: Shared) {
    s.total == Sum(s.live) + if s.lock.Some? then Ahead(PcOf(s, s.lock.value)) else 0
  }

  ghost predicate Inv(s: Shared) {
    && BucketsOk(s)
    && TotalOk(s)
    && (forall t :: ThreadOk(s, t))
    && Replay(s.done) == (s.live, true)
  }

  /** The collection after a history of calls that each happen at one instant, and whether every call in it found what
      it should. */
  function Replay(done: seq<Effect>): (seq<Rec>, bool) {
    if done == [] then ([], true) else ReplayOne(Replay(done[..|done| - 1]), done[|done| - 1])
  }

  function ReplayOne(before: (seq<Rec>, bool), e: Effect): (seq<Rec>, bool) {
    match e
    case Tracked(_, r) => ([r] + before.0, before.1)
    case Removed(_, a, found) => (Remove(before.0, a), before.1 && found == First(before.0, a))
  }

  lemma OneMoreReplayed(done: seq<Effect>, e: Effect)
    ensures Replay(done + [e]) == ReplayOne(Replay(done), e)
  {
    assert (done + [e])[..|done|] == done;
  }

  lemma StartOk()
    ensures Inv(Start())
  {
  }

  /** The step from s to s' is one of t: nothing about other threads changes, and the chains change only under t's
      lock. */
  ghost predicate OnlyBy(s: Shared, t: Thread, s': Shared) {
    && (forall u :: u != t ==> PcOf(s', u) == PcOf(s, u))
    && (forall u :: u != t ==> CalledBy(s', u) == CalledBy(s, u) && ReturnedTo(s', u) == ReturnedTo(s, u))
    && (s'.done == s.done ||
        (|s'.done| > 0 && s'.done == s.done + [s'.done[|s'.done| - 1]] && s'.done[|s'.done| - 1].t == t))
    && (s'.lock == s.lock || (s.lock == None && s'.lock == Some(t)) || (s.lock == Some(t) && s'.lock == None))
    && (s'.buckets == s.buckets || s.lock == Some(t))
  }

  lemma OtherOk(s: Shared, t: Thread, s': Shared, u: Thread)
    requires OnlyBy(s, t, s') && u != t && ThreadOk(s, u)
    ensures ThreadOk(s', u)
  {
    if s'.done != s.done {
      OneMoreEffect(s.done, s'.done[|s'.done| - 1], u);
    }
  }

  lemma StepIsOk(s: Shared, t: Thread, s': Shared)
    requires Inv(s) && OnlyBy(s, t, s') && ThreadOk(s', t)
    requires BucketsOk(s') && TotalOk(s') && Replay(s'.done) == (s'.live, true)
    ensures Inv(s')
  {
    forall u ensures ThreadOk(s', u) {
      if u != t {
        OtherOk(s, t, s', u);
      }
    }
  }

  // ------------------------------------------------------------------ steps without effect

  /** A step of t that changes its place, perhaps the lock and the total, and perhaps ends the call. */
  lemma QuietOk(s: Shared, t: Thread, s': Shared)
    requires Inv(s) && s'.buckets == s.buckets && s'.live == s.live && s'.done == s.done
    requires forall u :: u != t ==> PcOf(s', u) == PcOf(s, u)
    requires forall u :: u != t ==> CalledBy(s', u) == CalledBy(s, u) && ReturnedTo(s', u) == ReturnedTo(s, u)
    requires s'.lock == s.lock || (s.lock == None && s'.lock == Some(t)) || (s.lock == Some(t) && s'.lock == None)
    requires HoldsLock(PcOf(s', t)) <==> s'.lock == Some(t)
    requires WalkOk(s', PcOf(s', t)) && TotalOk(s')
    requires HistoryOk(PcOf(s', t), CalledBy(s', t), EffectsOf(s.done, t), ReturnedTo(s', t))
    ensures Inv(s')
  {
    hide Replay, EffectsOf, HistoryOk, WalkOk, TotalOk, InBucket;
    StepIsOk(s, t, s');
  }

  lemma BeginOk(s: Shared, act: Action)
    requires Inv(s) && Enabled(s, act) && act.Begin?
    ensures Inv(Step(s, act))
  {
    hide Replay, EffectsOf, InBucket, Sum, First, Remove;
    assert ThreadOk(s, act.t);
    QuietOk(s, act.t, Step(s, act));
  }

  lemma TrackMoves(s: Shared, t: Thread)
    requires Inv(s) && Enabled(s, Advance(t))
    requires PcOf(s, t).TrackLock? || PcOf(s, t).TrackTotal? || PcOf(s, t).TrackUnlock?
    ensures Inv(Step(s, Advance(t)))
  {
    hide Replay, EffectsOf, InBucket, Sum, First, Remove;
    assert ThreadOk(s, t);
    QuietOk(s, t, Step(s, Advance(t)));
  }

  /** The test succeeds, the lock is taken, the head or the next node is not the one, or there is no head. */
  lemma SearchGoesOn(s: Shared, t: Thread, a: nat)
    requires Inv(s) && Enabled(s, Advance(t))
    requires match PcOf(s, t)
             case RemoveTest(x) => x == a && Chain(s, a) != []
             case RemoveLock(x) => x == a
             case RemoveHead(x) => x == a && (Chain(s, a) == [] || Chain(s, a)[0].data != a)
             case RemoveWalk(x, i) => x == a && i + 1 < |Chain(s, a)| && Chain(s, a)[i + 1].data != a
             case _ => false
    ensures Inv(Step(s, Advance(t)))
  {
    hide Replay, EffectsOf, InBucket, Sum, First, Remove;
    assert ThreadOk(s, t);
    QuietOk(s, t, Step(s, Advance(t)));
  }

  lemma RemoveEnds(s: Shared, t: Thread)
    requires Inv(s) && (PcOf(s, t).RemoveTotal? || PcOf(s, t).RemoveUnlock?)
    ensures Inv(Step(s, Advance(t)))
  {
    hide Replay, EffectsOf, InBucket, Sum, First, Remove;
    assert ThreadOk(s, t);
    QuietOk(s, t, Step(s, Advance(t)));
  }

  // ------------------------------------------------------------------ steps at which calls take effect

  /** A step at which the call of t takes effect e. */
  lemma EffectOk(s: Shared, t: Thread, e: Effect, s': Shared)
    requires Inv(s) && s'.done == s.done + [e] && e.t == t && ReplayOne((s.live, true), e) == (s'.live, true)
    requires forall u :: u != t ==> PcOf(s', u) == PcOf(s, u)
    requires forall u :: u != t ==> CalledBy(s', u) == CalledBy(s, u) && ReturnedTo(s', u) == ReturnedTo(s, u)
    requires s'.lock == s.lock && (s'.buckets == s.buckets || s.lock == Some(t))
    requires HoldsLock(PcOf(s', t)) <==> s'.lock == Some(t)
    requires WalkOk(s', PcOf(s', t)) && TotalOk(s') && BucketsOk(s')
    requires HistoryOk(PcOf(s', t), CalledBy(s', t), EffectsOf(s.done, t) + [e], ReturnedTo(s', t))
    ensures Inv(s')
  {
    hide Replay, ReplayOne, EffectsOf, HistoryOk, WalkOk, TotalOk, InBucket;
    OneMoreEffect(s.done, e, t);
    OneMoreReplayed(s.done, e);
    StepIsOk(s, t, s');
  }

  /** What the chains hold once a record has been put in front of its chain. */
  lemma LinkBuckets(s: Shared, r: Rec, s': Shared)
    requires BucketsOk(s) && s'.live == [r] + s.live
    requires s'.buckets == SetChain(s, r.data, [r] + Chain(s, r.data)).buckets
    ensures BucketsOk(s') && Sum(s'.live) == r.space + Sum(s.live)
  {
    assert s'.live[1..] == s.live;
  }

  lemma LinkOk(s: Shared, t: Thread)
    requires Inv(s) && PcOf(s, t).TrackLink?
    ensures Inv(Step(s, Advance(t)))
  {
    hide Replay, EffectsOf, InBucket, Sum, First, Remove;
    var r, s' := PcOf(s, t).r, Step(s, Advance(t));
    assert ThreadOk(s, t);
    LinkBuckets(s, r, s');
    EffectOk(s, t, Tracked(t, r), s');
  }

  /** An address that is not in its chain is not tracked at all. */
  lemma NotInChain(s: Shared, a: nat)
    requires BucketsOk(s) && forall k :: 0 <= k < |Chain(s, a)| ==> Chain(s, a)[k].data != a
    ensures First(s.live, a) == None && Remove(s.live, a) == s.live
  {
    FirstIsInBucket(s.live, a);
    SumOfRemove(s.live, a);
    assert Chain(s, a) == InBucket(s.live, Bucket(a));
    assert First(Chain(s, a), a).None?;
  }

  /** The search fails, be it outside the lock or at the end of the chain. */
  lemma MissOk(s: Shared, t: Thread, a: nat)
    requires Inv(s)
    requires match PcOf(s, t)
             case RemoveTest(x) => x == a && Chain(s, a) == []
             case RemoveWalk(x, i) => x == a && i + 1 >= |Chain(s, a)|
             case _ => false
    ensures Inv(Step(s, Advance(t)))
  {
    hide Replay, EffectsOf, InBucket, Sum, First, Remove;
    assert ThreadOk(s, t);
    NotInChain(s, a);
    EffectOk(s, t, Removed(t, a, None), Step(s, Advance(t)));
  }

  /** What the chains hold once the k-th node, the first one for the address, has left its chain. */
  lemma UnlinkBuckets(s: Shared, a: nat, k: nat, s': Shared)
    requires BucketsOk(s) && k < |Chain(s, a)| && Chain(s, a)[k].data == a
    requires forall i :: 0 <= i < k ==> Chain(s, a)[i].data != a
    requires s'.buckets == SetChain(s, a, Chain(s, a)[..k] + Chain(s, a)[k + 1..]).buckets
    requires s'.live == Remove(s.live, a)
    ensures BucketsOk(s') && First(s.live, a) == Some(Chain(s, a)[k])
    ensures Sum(s.live) == Sum(s'.live) + Chain(s, a)[k].space
  {
    RemoveFacts(s.live, a);
    FirstAt(Chain(s, a), a, k);
  }

  lemma UnlinkOk(s: Shared, t: Thread, a: nat, k: nat)
    requires Inv(s) && match PcOf(s, t)
                       case RemoveHead(x) => x == a && k == 0
                       case RemoveWalk(x, i) => x == a && k == i + 1
                       case _ => false
    requires k < |Chain(s, a)| && Chain(s, a)[k].data == a
    ensures Inv(Step(s, Advance(t)))
  {
    hide Replay, EffectsOf, InBucket, Sum, First, Remove;
    var chain, s' := Chain(s, a), Step(s, Advance(t));
    assert ThreadOk(s, t);
    UnlinkBuckets(s, a, k, s');
    hide BucketsOk;
    EffectOk(s, t, Removed(t, a, Some(chain[k])), s');
  }

  lemma AdvanceOk(s: Shared, t: Thread)
    requires Inv(s) && Enabled(s, Advance(t))
    ensures Inv(Step(s, Advance(t)))
  {
    hide Inv, Step;
    match PcOf(s, t)
    case TrackLock(_) => TrackMoves(s, t);
    case TrackTotal(_) => TrackMoves(s, t);
    case TrackLink(_) => LinkOk(s, t);
    case TrackUnlock(_) => TrackMoves(s, t);
    case RemoveTest(a) =>
      if Chain(s, a) == [] {
        MissOk(s, t, a);
      } else {
        SearchGoesOn(s, t, a);
      }
    case RemoveLock(a) => SearchGoesOn(s, t, a);
    case RemoveHead(a) =>
      if Chain(s, a) != [] && Chain(s, a)[0].data == a {
        UnlinkOk(s, t, a, 0);
      } else {
        SearchGoesOn(s, t, a);
      }
    case RemoveWalk(a, i) =>
      if i + 1 >= |Chain(s, a)| {
        MissOk(s, t, a);
      } else if Chain(s, a)[i + 1].data == a {
        UnlinkOk(s, t, a, i + 1);
      } else {
        SearchGoesOn(s, t, a);
      }
    case RemoveTotal(_, _) => RemoveEnds(s, t);
    case RemoveUnlock(_, _) => RemoveEnds(s, t);
  }

  lemma {:induction false} InvThroughout(ss: seq<Shared>, acts: seq<Action>, i: nat)
    requires IsExecution(Start(), ss, acts) && i < |ss|
    ensures Inv(ss[i])
  {
    if i == 0 {
      StartOk();
    } else {
      InvThroughout(ss, acts, i - 1);
      assert IsStep(ss[i - 1], acts[i - 1], ss[i]);
      if acts[i - 1].Advance? {
        AdvanceOk(ss[i - 1], acts[i - 1].t);
      } else {
        BeginOk(ss[i - 1], acts[i - 1]);
      }
    }
  }

  lemma InvAlways(s: Shared)
    requires Reachable(s)
    ensures Inv(s)
  {
    var ss, acts :| IsExecution(Start(), ss, acts) && ss[|acts|] == s;
    InvThroughout(ss, acts, |acts|);
  }

  /** Every execution whatever amounts to its effects happening one at a time: the effects form a correct history of a
      plain collection of records, in which a removal finds the most recent record exactly if the address is tracked;
      the buckets hold what that history leaves; and whenever the lock is free the total is the sum of the sizes. */
  lemma Linearizes(s: Shared)
    requires Reachable(s)
    ensures Replay(s.done) == (s.live, true)
    ensures |s.buckets| == HASH_SIZE && forall b :: 0 <= b < HASH_SIZE ==> s.buckets[b] == InBucket(s.live, b)
    ensures s.lock == None ==> s.total == Sum(s.live)
  {
    InvAlways(s);
  }

  /** Each call of a thread has exactly one effect in that history, which comes after the call is made and before it
      returns, and the call returns what its effect found. */
  lemma CallsTakeEffectOnce(s: Shared, t: Thread)
    requires Reachable(s)
    ensures var calls, effects, results := CalledBy(s, t), EffectsOf(s.done, t), ReturnedTo(s, t);
            && |results| <= |effects| <= |calls| <= |results| + 1
            && (PcOf(s, t).Idle? <==> |calls| == |results|)
            && (forall i :: 0 <= i < |effects| ==> IsEffectOf(effects[i], calls[i]))
            && (forall i :: 0 <= i < |results| ==> results[i] == ResultOf(effects[i]))
  {
    InvAlways(s);
    assert ThreadOk(s, t);
  }

  // ------------------------------------------------------------------ when the test outside the lock is harmless

  /** A removal of address a is under way and has not yet taken effect. */
  predicate Removing(pc: Pc, a: nat) {
    match pc
    case RemoveTest(x) => x == a
    case RemoveLock(x) => x == a
    case RemoveHead(x) => x == a
    case RemoveWalk(x, _) => x == a
    case _ => false
  }

  /** Only tracked addresses are freed, and by one thread at a time. */
  ghost predicate Disciplined(s: Shared, act: Action) {
    act.Begin? && act.call.RemoveCall? ==>
      First(s.live, act.call.a).Some? && forall t :: !Removing(PcOf(s, t), act.call.a)
  }

  ghost predicate AlwaysDisciplined(ss: seq<Shared>, acts: seq<Action>)
    requires |ss| > |acts|
  {
    forall i :: 0 <= i < |acts| ==> Disciplined(ss[i], acts[i])
  }

  /** Some execution that keeps the discipline ends in s. */
  ghost predicate ReachableInDiscipline(s: Shared) {
    exists ss, acts :: IsExecution(Start(), ss, acts) && AlwaysDisciplined(ss, acts) && ss[|acts|] == s
  }

  /** What the discipline keeps: the address of a removal under way is tracked, and nobody else removes it. */
  ghost predicate Kept(s: Shared) {
    && (forall t, a :: Removing(PcOf(s, t), a) ==> First(s.live, a).Some?)
    && (forall t, u, a :: t != u && Removing(PcOf(s, t), a) ==> !Removing(PcOf(s, u), a))
    && (forall t :: !PcOf(s, t).Crashed?)
    && (forall e :: e in s.done && e.Removed? ==> e.found.Some?)
  }

  /** A removal that has not found its node yet does not fail the test, meets a node at the head, and never runs off the
      end of the chain. */
  lemma WillBeFound(s: Shared, t: Thread, a: nat)
    requires Inv(s) && Kept(s) && Removing(PcOf(s, t), a)
    ensures Chain(s, a) != []
    ensures PcOf(s, t).RemoveWalk? ==> PcOf(s, t).i + 1 < |Chain(s, a)|
  {
    assert ThreadOk(s, t);
    FirstIsInBucket(s.live, a);
    assert Chain(s, a) == InBucket(s.live, Bucket(a));
    var k :| 0 <= k < |Chain(s, a)| && Chain(s, a)[k] == First(Chain(s, a), a).value;
  }

  /** A step of t that starts no removal, and takes none of those under way its record. */
  lemma StaysKept(s: Shared, t: Thread, s': Shared)
    requires Kept(s) && (forall u :: u != t ==> PcOf(s', u) == PcOf(s, u)) && !PcOf(s', t).Crashed?
    requires forall a :: Removing(PcOf(s', t), a) ==>
               First(s'.live, a).Some? && forall u :: u != t ==> !Removing(PcOf(s, u), a)
    requires forall u, a :: u != t && Removing(PcOf(s, u), a) ==> First(s'.live, a).Some?
    requires forall e :: e in s'.done && e !in s.done && e.Removed? ==> e.found.Some?
    ensures Kept(s')
  {
    forall u, v, a | u != v && Removing(PcOf(s', u), a) ensures !Removing(PcOf(s', v), a) {
      if u != t && v != t {
        assert Removing(PcOf(s, u), a) ==> !Removing(PcOf(s, v), a);
      }
    }
  }

  lemma BeginKept(s: Shared, act: Action)
    requires Kept(s) && Enabled(s, act) && Disciplined(s, act) && act.Begin?
    ensures Kept(Step(s, act))
  {
    StaysKept(s, act.t, Step(s, act));
  }

  lemma TrackKept(s: Shared, t: Thread)
    requires Kept(s) && Enabled(s, Advance(t)) && CallOf(PcOf(s, t)).TrackCall?
    ensures Kept(Step(s, Advance(t)))
  {
    var s' := Step(s, Advance(t));
    forall u, a | u != t && Removing(PcOf(s, u), a) ensures First(s'.live, a).Some? {
      assert First(s.live, a).Some?;
      assert s'.live != s.live ==> s'.live[1..] == s.live;
    }
    StaysKept(s, t, s');
  }

  /** What the next step of a search that will succeed does. */
  lemma SearchEffect(s: Shared, t: Thread, a: nat)
    requires Enabled(s, Advance(t)) && Removing(PcOf(s, t), a) && Chain(s, a) != []
    requires PcOf(s, t).RemoveWalk? ==> PcOf(s, t).i + 1 < |Chain(s, a)|
    ensures var s' := Step(s, Advance(t));
            && (forall u :: u != t ==> PcOf(s', u) == PcOf(s, u)) && !PcOf(s', t).Crashed?
            && (forall b :: Removing(PcOf(s', t), b) ==> b == a && s'.live == s.live)
            && (s'.live == s.live || s'.live == Remove(s.live, a))
            && forall e :: e in s'.done && e !in s.done && e.Removed? ==> e.found.Some?
  {
    hide Remove;
  }

  lemma SearchKept(s: Shared, t: Thread, a: nat)
    requires Inv(s) && Kept(s) && Enabled(s, Advance(t)) && Removing(PcOf(s, t), a)
    ensures Kept(Step(s, Advance(t)))
  {
    WillBeFound(s, t, a);
    SearchEffect(s, t, a);
    hide Inv, Kept, Step;
    var s' := Step(s, Advance(t));
    forall u, b | u != t && Removing(PcOf(s, u), b) ensures First(s'.live, b).Some? {
      RivalsKeep(s, t, u, a, b);
      OthersStay(s.live, a, b);
    }
    OwnKept(s, t, a);
    StaysKept(s, t, s');
  }

  lemma RivalsKeep(s: Shared, t: Thread, u: Thread, a: nat, b: nat)
    requires Kept(s) && t != u && Removing(PcOf(s, t), a) && Removing(PcOf(s, u), b)
    ensures a != b && First(s.live, b).Some?
  {
  }

  lemma OwnKept(s: Shared, t: Thread, a: nat)
    requires Kept(s) && Removing(PcOf(s, t), a)
    ensures First(s.live, a).Some? && forall u :: u != t ==> !Removing(PcOf(s, u), a)
  {
  }

  lemma EndKept(s: Shared, t: Thread)
    requires Kept(s) && (PcOf(s, t).RemoveTotal? || PcOf(s, t).RemoveUnlock?)
    ensures Kept(Step(s, Advance(t)))
  {
    StaysKept(s, t, Step(s, Advance(t)));
  }

  lemma StepKept(s: Shared, act: Action)
    requires Inv(s) && Kept(s) && Enabled(s, act) && Disciplined(s, act)
    ensures Kept(Step(s, act))
  {
    hide Inv, Kept, Step;
    if act.Begin? {
      BeginKept(s, act);
    } else {
      match PcOf(s, act.t)
      case RemoveTest(a) => SearchKept(s, act.t, a);
      case RemoveLock(a) => SearchKept(s, act.t, a);
      case RemoveHead(a) => SearchKept(s, act.t, a);
      case RemoveWalk(a, _) => SearchKept(s, act.t, a);
      case RemoveTotal(_, _) => EndKept(s, act.t);
      case RemoveUnlock(_, _) => EndKept(s, act.t);
      case _ => TrackKept(s, act.t);
    }
  }

  lemma {:induction false} KeptThroughout(ss: seq<Shared>, acts: seq<Action>, i: nat)
    requires IsExecution(Start(), ss, acts) && AlwaysDisciplined(ss, acts) && i < |ss|
    ensures Kept(ss[i])
  {
    if i > 0 {
      KeptThroughout(ss, acts, i - 1);
      InvThroughout(ss, acts, i - 1);
      assert IsStep(ss[i - 1], acts[i - 1], ss[i]) && Disciplined(ss[i - 1], acts[i - 1]);
      StepKept(ss[i - 1], acts[i - 1]);
    }
  }

  /** If only tracked addresses are freed, and by one thread at a time, the test outside the lock is harmless: it never
      fails, the head dereferenced under the lock is never NULL, no search runs off the end of its chain, and every
      removal finds a record. */
  lemma HeadIsNeverNull(s: Shared, t: Thread)
    requires ReachableInDiscipline(s)
    ensures !PcOf(s, t).Crashed?
    ensures PcOf(s, t).RemoveTest? || PcOf(s, t).RemoveHead? ==> Chain(s, PcOf(s, t).a) != []
    ensures PcOf(s, t).RemoveWalk? ==> PcOf(s, t).i + 1 < |Chain(s, PcOf(s, t).a)|
    ensures forall e :: e in s.done && e.Removed? ==> e.found.Some?
  {
    var ss, acts :| IsExecution(Start(), ss, acts) && AlwaysDisciplined(ss, acts) && ss[|acts|] == s;
    KeptThroughout(ss, acts, |acts|);
    InvThroughout(ss, acts, |acts|);
    var pc := PcOf(s, t);
    if pc.RemoveTest? || pc.RemoveHead? || pc.RemoveWalk? {
      WillBeFound(s, t, pc.a);
    }
  }
}
