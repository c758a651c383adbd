/**
 When can the head dereferenced by removeTrackNode be NULL, if threads run whole programs of calls? The answer is given by
 histories in which each call happens at one instant: in some such history a bucket that is not empty when a thread is
 about to remove from it is empty later on, before that thread does anything.
 */
module AllocPrograms {
  import opened AllocRaces
  import opened AllocThreads
  import opened HeapSpec
  import opened Wrappers

  function ProgramOf(programs: map<Thread, seq<Call>>, t: Thread): seq<Call> {
    if t in programs then programs[t] else []
  }

  /** Starting from an empty table, the threads, none of which makes other calls than its program says, can get to a
      state in which one of them has crashed. */
  ghost predicate ProgramsCrash(programs: map<Thread, seq<Call>>) {
    exists s, t :: Reachable(s) && Follows(programs, s) && PcOf(s, t).Crashed?
  }

  ghost predicate Follows(programs: map<Thread, seq<Call>>, s: Shared) {
    forall t :: CalledBy(s, t) <= ProgramOf(programs, t)
  }

  // ------------------------------------------------------------------ calls that happen at one instant

  /** Effects that the first calls of the programs have if each call happens at one instant. */
  ghost predicate IsHistory(programs: map<Thread, seq<Call>>, done: seq<Effect>) {
    Replay(done).1 && forall t :: EffectsMatch(EffectsOf(done, t), ProgramOf(programs, t))
  }

  predicate EffectsMatch(effects: seq<Effect>, calls: seq<Call>) {
    |effects| <= |calls| && forall i :: 0 <= i < |effects| ==> IsEffectOf(effects[i], calls[i])
  }

  function BucketAfter(done: seq<Effect>, a: nat): seq<Rec> {
    InBucket(Replay(done).0, Bucket(a))
  }

  /** After k effects, bucket of a is not empty; t has no effect from then on. */
  predicate WasThere(done: seq<Effect>, k: nat, t: Thread, a: nat) {
    k <= |done| && BucketAfter(done[..k], a) != [] && EffectsOf(done[..k], t) == EffectsOf(done, t)
  }

  /** Thread t is about to remove an address from a bucket that was not empty after k effects, but is now. */
  ghost predicate Overtaken(programs: map<Thread, seq<Call>>, done: seq<Effect>, k: nat, t: Thread) {
    var n, calls := |EffectsOf(done, t)|, ProgramOf(programs, t);
    && IsHistory(programs, done)
    && n < |calls| && calls[n].RemoveCall?
    && WasThere(done, k, t, calls[n].a) && BucketAfter(done, calls[n].a) == []
  }

  // ------------------------------------------------------------------ only then

  /** The test has been passed and the node not yet found. */
  predicate Past(pc: Pc) {
    pc.RemoveLock? || pc.RemoveHead? || pc.RemoveWalk? || pc.Crashed?
  }

  ghost predicate PastOk(s: Shared, t: Thread) {
    && (Past(PcOf(s, t)) ==> exists k :: WasThere(s.done, k, t, PcOf(s, t).a))
    && (PcOf(s, t).Crashed? ==> Chain(s, PcOf(s, t).a) == [])
  }

  lemma LockOk(s: Shared, t: Thread)
    requires Inv(s)
    ensures HoldsLock(PcOf(s, t)) <==> s.lock == Some(t)
    ensures WalkOk(s, PcOf(s, t))
  {
    hide Replay, EffectsOf, InBucket, Sum;
    assert ThreadOk(s, t);
  }

  lemma StepOnlyBy(s: Shared, act: Action)
    requires Enabled(s, act) && (HoldsLock(PcOf(s, act.t)) <==> s.lock == Some(act.t))
    ensures OnlyBy(s, act.t, Step(s, act))
  {
    StepLeavesOthers(s, act);
    StepChanges(s, act);
    LockChanges(s, act);
    hide Step, Enabled;
  }

  lemma StepLeavesOthers(s: Shared, act: Action)
    requires Enabled(s, act)
    ensures var t, s' := act.t, Step(s, act);
            && (forall u :: u != t ==>
                  PcOf(s', u) == PcOf(s, u) && CalledBy(s', u) == CalledBy(s, u) && ReturnedTo(s', u) == ReturnedTo(s, u))
            && (act.Advance? ==> CalledBy(s', t) == CalledBy(s, t))
  {
    hide Step, Enabled, CalledBy, PcOf, ReturnedTo;
    forall u | act.Advance? || u != act.t ensures CalledBy(Step(s, act), u) == CalledBy(s, u) {
      StepLeavesCalls(s, act, u);
    }
    forall u | u != act.t
      ensures PcOf(Step(s, act), u) == PcOf(s, u) && ReturnedTo(Step(s, act), u) == ReturnedTo(s, u)
    {
      StepLeavesPlace(s, act, u);
      StepLeavesResults(s, act, u);
    }
  }

  lemma StepLeavesCalls(s: Shared, act: Action, u: Thread)
    requires Enabled(s, act) && (act.Advance? || u != act.t)
    ensures CalledBy(Step(s, act), u) == CalledBy(s, u)
  {
    hide Remove, ReturnedTo, Bucket;
  }

  lemma StepLeavesPlace(s: Shared, act: Action, u: Thread)
    requires Enabled(s, act) && u != act.t
    ensures PcOf(Step(s, act), u) == PcOf(s, u)
  {
    if act.Advance? && (PcOf(s, act.t).RemoveHead? || PcOf(s, act.t).RemoveWalk?) {
      SearchLeavesPlace(s, act.t, u);
      hide Step;
    } else {
      hide CalledBy, ReturnedTo, Unlink;
    }
  }

  lemma SearchLeavesPlace(s: Shared, t: Thread, u: Thread)
    requires (PcOf(s, t).RemoveHead? || PcOf(s, t).RemoveWalk?) && u != t
    ensures PcOf(Step(s, Advance(t)), u) == PcOf(s, u)
  {
    hide Remove;
  }

  lemma StepLeavesResults(s: Shared, act: Action, u: Thread)
    requires Enabled(s, act) && u != act.t
    ensures ReturnedTo(Step(s, act), u) == ReturnedTo(s, u)
  {
    hide Remove, CalledBy;
  }

  lemma StepChanges(s: Shared, act: Action)
    requires Enabled(s, act) && (HoldsLock(PcOf(s, act.t)) <==> s.lock == Some(act.t))
    ensures var t, s' := act.t, Step(s, act);
            && (s'.done == s.done ||
                (|s'.done| > 0 && s'.done == s.done + [s'.done[|s'.done| - 1]] && s'.done[|s'.done| - 1].t == t))
            && (s'.buckets == s.buckets || s.lock == Some(t))
  {
    hide Remove, CalledBy, ReturnedTo;
  }

  lemma LockChanges(s: Shared, act: Action)
    requires Enabled(s, act) && (HoldsLock(PcOf(s, act.t)) <==> s.lock == Some(act.t))
    ensures var t, s' := act.t, Step(s, act);
            s'.lock == s.lock || (s.lock == None && s'.lock == Some(t)) || (s.lock == Some(t) && s'.lock == None)
  {
    hide Remove, CalledBy, ReturnedTo;
  }

  lemma StaysThere(done: seq<Effect>, done': seq<Effect>, k: nat, t: Thread, a: nat)
    requires WasThere(done, k, t, a)
    requires done' == done || (|done'| > 0 && done' == done + [done'[|done'| - 1]] && done'[|done'| - 1].t != t)
    ensures WasThere(done', k, t, a)
  {
    if done' != done {
      OneMoreEffect(done, done'[|done'| - 1], t);
      assert done'[..k] == done[..k];
    }
  }

  lemma OthersPastOk(s: Shared, u: Thread, s': Shared, t: Thread)
    requires OnlyBy(s, u, s') && u != t && PastOk(s, t)
    requires HoldsLock(PcOf(s, t)) <==> s.lock == Some(t)
    ensures PastOk(s', t)
  {
    hide WasThere;
    if Past(PcOf(s, t)) {
      var k :| WasThere(s.done, k, t, PcOf(s, t).a);
      StaysThere(s.done, s'.done, k, t, PcOf(s, t).a);
    }
  }

  /** A thread that is past the test was so before, or has just passed it. */
  lemma WhereFrom(s: Shared, act: Action)
    requires Enabled(s, act) && Past(PcOf(Step(s, act), act.t))
    ensures var pc, s' := PcOf(s, act.t), Step(s, act);
            && s'.done == s.done
            && (pc.RemoveTest? || Past(pc)) && pc.a == PcOf(s', act.t).a
            && (pc.RemoveTest? ==> Chain(s, pc.a) != [])
  {
    hide Remove, CalledBy, ReturnedTo, SetChain;
  }

  lemma CrashesOnNone(s: Shared, act: Action)
    requires Enabled(s, act) && PcOf(Step(s, act), act.t).Crashed?
    ensures Chain(Step(s, act), PcOf(Step(s, act), act.t).a) == []
  {
    hide Remove, CalledBy, ReturnedTo, SetChain;
  }

  lemma OwnPastOk(s: Shared, act: Action)
    requires BucketsOk(s) && Replay(s.done).0 == s.live && Enabled(s, act) && PastOk(s, act.t)
    ensures PastOk(Step(s, act), act.t)
  {
    var s', t := Step(s, act), act.t;
    if Past(PcOf(s', t)) {
      WhereFrom(s, act);
      if PcOf(s', t).Crashed? {
        CrashesOnNone(s, act);
      }
      hide Step, Enabled, InBucket, Replay, EffectsOf;
      if PcOf(s, t).RemoveTest? {
        assert s.done[..|s.done|] == s.done;
        assert WasThere(s'.done, |s.done|, t, PcOf(s', t).a);
      }
    }
  }

  lemma StartPastOk(t: Thread)
    ensures PastOk(Start(), t)
  {
  }

  lemma {:induction false} PastThroughout(ss: seq<Shared>, acts: seq<Action>, i: nat, t: Thread)
    requires IsExecution(Start(), ss, acts) && i < |ss|
    ensures PastOk(ss[i], t)
  {
    hide PastOk, Step, Enabled, BucketsOk, Replay, OnlyBy, Inv;
    if i == 0 {
      StartPastOk(t);
    } else {
      PastThroughout(ss, acts, i - 1, t);
      InvThroughout(ss, acts, i - 1);
      assert AllocThreads.IsStep(ss[i - 1], acts[i - 1], ss[i]);
      InvFacts(ss[i - 1]);
      LockOk(ss[i - 1], t);
      LockOk(ss[i - 1], acts[i - 1].t);
      StepOnlyBy(ss[i - 1], acts[i - 1]);
      if acts[i - 1].t == t {
        OwnPastOk(ss[i - 1], acts[i - 1]);
      } else {
        OthersPastOk(ss[i - 1], acts[i - 1].t, ss[i], t);
      }
    }
  }

  /** What has happened when a thread has crashed. */
  lemma CrashIsOvertaken(programs: map<Thread, seq<Call>>, s: Shared, t: Thread) returns (k: nat)
    requires Reachable(s) && Follows(programs, s) && PcOf(s, t).Crashed?
    ensures Overtaken(programs, s.done, k, t)
  {
    hide Replay, EffectsOf, InBucket, WasThere, Inv;
    InvAlways(s);
    assert PastOk(s, t) by {
      var ss, acts :| IsExecution(Start(), ss, acts) && ss[|acts|] == s;
      PastThroughout(ss, acts, |acts|, t);
    }
    hide Reachable;
    k :| WasThere(s.done, k, t, PcOf(s, t).a);
    HistoryOfPrograms(programs, s);
    NextCall(programs, s, t);
    InvFacts(s);
  }

  lemma InvFacts(s: Shared)
    requires Inv(s)
    ensures BucketsOk(s) && Replay(s.done) == (s.live, true)
  {
  }

  lemma HistoryOfPrograms(programs: map<Thread, seq<Call>>, s: Shared)
    requires Inv(s) && Follows(programs, s)
    ensures IsHistory(programs, s.done)
  {
    hide Replay, EffectsOf, InBucket;
    forall t ensures EffectsMatch(EffectsOf(s.done, t), ProgramOf(programs, t)) {
      assert ThreadOk(s, t) && CalledBy(s, t) <= ProgramOf(programs, t);
    }
  }

  /** A thread that has crashed was in the middle of the next call of its program. */
  lemma NextCall(programs: map<Thread, seq<Call>>, s: Shared, t: Thread)
    requires Inv(s) && Follows(programs, s) && PcOf(s, t).Crashed?
    ensures var n, calls := |EffectsOf(s.done, t)|, ProgramOf(programs, t);
            n < |calls| && calls[n] == RemoveCall(PcOf(s, t).a)
  {
    hide Replay, EffectsOf, InBucket;
    assert ThreadOk(s, t) && CalledBy(s, t) <= ProgramOf(programs, t);
  }

  // ------------------------------------------------------------------ and then indeed

  /** How many steps a thread needs at most to finish its call if nobody else moves. */
  function Rank(s: Shared, t: Thread): int {
    match PcOf(s, t)
    case Idle => 0
    case TrackLock(_) => 4
    case TrackTotal(_) => 3
    case TrackLink(_) => 2
    case TrackUnlock(_) => 1
    case RemoveTest(a) => |Chain(s, a)| + 6
    case RemoveLock(a) => |Chain(s, a)| + 5
    case RemoveHead(a) => |Chain(s, a)| + 4
    case RemoveWalk(a, i) => |Chain(s, a)| - i + 2
    case RemoveTotal(_, _) => 2
    case RemoveUnlock(_, _) => 1
    case Crashed(_) => 0
  }

  /** Nothing keeps t from finishing its call. */
  ghost predicate Free(s: Shared, t: Thread) {
    && Inv(s) && (s.lock == None || s.lock == Some(t)) && !PcOf(s, t).Crashed?
    && (PcOf(s, t).RemoveLock? || PcOf(s, t).RemoveHead? ==> Chain(s, PcOf(s, t).a) != [])
  }

  /** Nothing about other threads changes, and the effects added are those of t. */
  ghost predicate Alone(s: Shared, t: Thread, s': Shared) {
    && (forall u :: u != t ==> PcOf(s', u) == PcOf(s, u))
    && (forall u :: CalledBy(s', u) == CalledBy(s, u))
    && s.done <= s'.done && forall e :: e in s'.done[|s.done|..] ==> e.t == t
  }

  lemma FreeStep(s: Shared, t: Thread)
    requires Free(s, t) && !PcOf(s, t).Idle?
    ensures Enabled(s, Advance(t))
    ensures var s' := Step(s, Advance(t)); Free(s', t) && Alone(s, t, s') && 0 <= Rank(s', t) < Rank(s, t)
  {
    CanStep(s, t);
    AdvanceOk(s, t);
    LockOk(s, t);
    StepLeavesOthers(s, Advance(t));
    StepChanges(s, Advance(t));
    LockChanges(s, Advance(t));
    StepGoesDown(s, t);
    StaysFree(s, t);
    hide Inv, Step, Enabled;
  }

  lemma CanStep(s: Shared, t: Thread)
    requires Free(s, t) && !PcOf(s, t).Idle?
    ensures Enabled(s, Advance(t))
  {
    LockOk(s, t);
    hide Inv;
  }

  lemma StaysFree(s: Shared, t: Thread)
    requires Enabled(s, Advance(t))
    requires PcOf(s, t).RemoveLock? || PcOf(s, t).RemoveHead? ==> Chain(s, PcOf(s, t).a) != []
    ensures var s' := Step(s, Advance(t));
            && !PcOf(s', t).Crashed?
            && (PcOf(s', t).RemoveLock? || PcOf(s', t).RemoveHead? ==> Chain(s', PcOf(s', t).a) != [])
  {
    hide Remove, CalledBy, ReturnedTo;
  }

  lemma StepGoesDown(s: Shared, t: Thread)
    requires Enabled(s, Advance(t)) && WalkOk(s, PcOf(s, t))
    requires PcOf(s, t).RemoveLock? || PcOf(s, t).RemoveHead? ==> Chain(s, PcOf(s, t).a) != []
    ensures 0 <= Rank(Step(s, Advance(t)), t) < Rank(s, t)
  {
    hide Remove, CalledBy, ReturnedTo;
  }

  lemma AloneTwice(s: Shared, t: Thread, s': Shared, s'': Shared)
    requires Alone(s, t, s') && Alone(s', t, s'')
    ensures Alone(s, t, s'')
  {
    forall e | e in s''.done[|s.done|..] ensures e.t == t {
      var i :| |s.done| <= i < |s''.done| && s''.done[i] == e;
      if i < |s'.done| {
        assert s'.done[i] == e && e in s'.done[|s.done|..];
      } else {
        assert e in s''.done[|s'.done|..];
      }
    }
  }

  /** A thread that nothing keeps from it finishes its call while nobody else moves. */
  lemma {:induction false} Finishes(s: Shared, t: Thread) returns (s': Shared)
    requires Reachable(s) && Free(s, t)
    ensures Reachable(s') && Alone(s, t, s') && PcOf(s', t).Idle? && s'.lock == None
    decreases Rank(s, t)
  {
    if PcOf(s, t).Idle? {
      assert ThreadOk(s, t);
      s' := s;
    } else {
      hide Free, Alone, Reachable;
      FreeStep(s, t);
      var s1 := Next(s, Advance(t));
      s' := Finishes(s1, t);
      AloneTwice(s, t, s1, s');
    }
  }

  /** The effects so far are those in done, and no call is under way, except that the threads in wait have passed the test
      of the removal that is next in their programs. */
  ghost predicate Caught(programs: map<Thread, seq<Call>>, done: seq<Effect>, s: Shared, wait: map<Thread, nat>) {
    && Reachable(s) && s.lock == None && s.done == done
    && forall t :: CaughtAt(programs, s, wait, t)
  }

  predicate CaughtAt(programs: map<Thread, seq<Call>>, s: Shared, wait: map<Thread, nat>, t: Thread) {
    var n, calls := |EffectsOf(s.done, t)|, ProgramOf(programs, t);
    if t in wait then
      PcOf(s, t) == RemoveLock(wait[t]) && n < |calls| && CalledBy(s, t) == calls[..n + 1]
    else
      PcOf(s, t) == Idle && n <= |calls| && CalledBy(s, t) == calls[..n]
  }

  lemma {:induction false} OwnEffects(done: seq<Effect>, es: seq<Effect>, t: Thread)
    requires forall e :: e in es ==> e.t == t
    ensures EffectsOf(done + es, t) == EffectsOf(done, t) + es
    decreases |es|
  {
    if es == [] {
      assert done + es == done;
    } else {
      var n := |es| - 1;
      OwnEffects(done, es[..n], t);
      OneMoreEffect(done + es[..n], es[n], t);
      assert done + es == (done + es[..n]) + [es[n]];
    }
  }

  /** What a call can have as its effect, if it happens now, is determined. */
  lemma EffectIsDetermined(done: seq<Effect>, e: Effect, e': Effect, call: Call)
    requires e.t == e'.t && IsEffectOf(e, call) && IsEffectOf(e', call)
    requires Replay(done + [e]).1 && Replay(done + [e']).1
    ensures e == e'
  {
    OneMoreReplayed(done, e);
    OneMoreReplayed(done, e');
  }

  /** A thread that has been alone since it began its call, and has returned, has had the one effect of it. */
  lemma OneEffect(s: Shared, t: Thread, n: nat, s': Shared)
    requires Reachable(s') && Alone(s, t, s') && PcOf(s', t).Idle?
    requires |CalledBy(s, t)| == n + 1 && |EffectsOf(s.done, t)| == n
    ensures |s'.done| == |s.done| + 1 && s'.done == s.done + [s'.done[|s.done|]]
    ensures var e := s'.done[|s.done|]; e.t == t && IsEffectOf(e, CalledBy(s, t)[n]) && Replay(s'.done).1
  {
    InvAlways(s');
    assert ThreadOk(s', t);
    var es := s'.done[|s.done|..];
    assert s'.done == s.done + es;
    OwnEffects(s.done, es, t);
    hide Replay, EffectsOf, InBucket, Reachable;
    assert |es| == 1 && es == [s'.done[|s.done|]];
    assert EffectsOf(s'.done, t)[n] == es[0];
    assert es[0] in es;
  }

  lemma Begun(programs: map<Thread, seq<Call>>, done: seq<Effect>, s: Shared, wait: map<Thread, nat>, t: Thread)
    returns (s': Shared)
    requires Caught(programs, done, s, wait) && t !in wait && |EffectsOf(done, t)| < |ProgramOf(programs, t)|
    ensures var n, calls := |EffectsOf(done, t)|, ProgramOf(programs, t);
            && Reachable(s') && Free(s', t) && s'.done == done && s'.lock == None && s'.buckets == s.buckets
            && PcOf(s', t) == FirstPc(calls[n]) && CalledBy(s', t) == calls[..n + 1]
            && forall u :: u != t ==> PcOf(s', u) == PcOf(s, u) && CalledBy(s', u) == CalledBy(s, u)
  {
    assert CaughtAt(programs, s, wait, t);
    hide Reachable, Inv, EffectsOf, Step;
    var n, calls := |EffectsOf(done, t)|, ProgramOf(programs, t);
    s' := Next(s, Begin(t, calls[n]));
    BeginStep(s, t, calls[n]);
    InvAlways(s');
    assert calls[..n] + [calls[n]] == calls[..n + 1];
  }

  lemma BeginStep(s: Shared, t: Thread, call: Call)
    requires Enabled(s, Begin(t, call))
    ensures var s' := Step(s, Begin(t, call));
            && s'.done == s.done && s'.lock == s.lock && s'.buckets == s.buckets
            && PcOf(s', t) == FirstPc(call) && CalledBy(s', t) == CalledBy(s, t) + [call]
            && forall u :: u != t ==> PcOf(s', u) == PcOf(s, u) && CalledBy(s', u) == CalledBy(s, u)
  {
  }

  /** The next call of a history happens. */
  lemma HappensNext(programs: map<Thread, seq<Call>>, done: seq<Effect>, s: Shared, wait: map<Thread, nat>, e: Effect)
    returns (s': Shared)
    requires Caught(programs, done, s, wait) && IsHistory(programs, done + [e]) && e.t !in wait
    ensures Caught(programs, done + [e], s', wait)
  {
    var t, n, calls := e.t, |EffectsOf(done, e.t)|, ProgramOf(programs, e.t);
    OneMoreEffect(done, e, t);
    assert EffectsMatch(EffectsOf(done + [e], t), calls);
    assert IsEffectOf(EffectsOf(done + [e], t)[n], calls[n]);
    hide Reachable, EffectsOf, Replay, InBucket, Free, IsEffectOf, Caught, EffectsMatch;
    var s1 := Begun(programs, done, s, wait, t);
    s' := Finishes(s1, t);
    OneEffect(s1, t, n, s');
    EffectIsDetermined(done, e, s'.done[|done|], calls[n]);
    CaughtOn(programs, done, s, wait, e, s1, s');
  }

  /** All is as before but for the thread that made a call, and had its effect. */
  lemma CaughtOn(programs: map<Thread, seq<Call>>, done: seq<Effect>, s: Shared, wait: map<Thread, nat>, e: Effect,
                 s1: Shared, s': Shared)
    requires Caught(programs, done, s, wait) && e.t !in wait
    requires forall u :: u != e.t ==> PcOf(s1, u) == PcOf(s, u) && CalledBy(s1, u) == CalledBy(s, u)
    requires Reachable(s') && s'.lock == None && s'.done == done + [e] && Alone(s1, e.t, s') && PcOf(s', e.t).Idle?
    requires |EffectsOf(done, e.t)| < |ProgramOf(programs, e.t)|
    requires CalledBy(s1, e.t) == ProgramOf(programs, e.t)[..|EffectsOf(done, e.t)| + 1]
    ensures Caught(programs, done + [e], s', wait)
  {
    hide Reachable, EffectsOf;
    forall u ensures CaughtAt(programs, s', wait, u) {
      assert CaughtAt(programs, s, wait, u);
      OneMoreEffect(done, e, u);
    }
  }

  /** A thread begins the removal that is next in its program, and passes the test. */
  lemma PassesNext(programs: map<Thread, seq<Call>>, done: seq<Effect>, s: Shared, t: Thread, a: nat)
    returns (s': Shared)
    requires Caught(programs, done, s, map[]) && BucketAfter(done, a) != []
    requires var n := |EffectsOf(done, t)|; n < |ProgramOf(programs, t)| && ProgramOf(programs, t)[n] == RemoveCall(a)
    ensures Caught(programs, done, s', map[t := a])
  {
    InvAlways(s);
    assert s.buckets[Bucket(a)] == BucketAfter(done, a);
    hide Reachable, EffectsOf, Replay, InBucket, Inv;
    var s1 := Begun(programs, done, s, map[], t);
    PassesTest(s1, t);
    s' := Next(s1, Advance(t));
    forall u ensures CaughtAt(programs, s', map[t := a], u) {
      assert CaughtAt(programs, s, map[], u);
    }
  }

  lemma PrefixIsHistory(programs: map<Thread, seq<Call>>, done: seq<Effect>, e: Effect)
    requires IsHistory(programs, done + [e])
    ensures IsHistory(programs, done)
  {
    OneMoreReplayed(done, e);
    forall t ensures EffectsMatch(EffectsOf(done, t), ProgramOf(programs, t)) {
      OneMoreEffect(done, e, t);
      assert EffectsMatch(EffectsOf(done + [e], t), ProgramOf(programs, t));
    }
  }

  /** A history happens from its j-th effect on. */
  lemma {:induction false} Happens(programs: map<Thread, seq<Call>>, done: seq<Effect>, j: nat, s: Shared,
                                   wait: map<Thread, nat>) returns (s': Shared)
    requires IsHistory(programs, done) && j <= |done| && Caught(programs, done[..j], s, wait)
    requires forall m :: j <= m < |done| ==> done[m].t !in wait
    ensures Caught(programs, done, s', wait)
    decreases |done|
  {
    hide IsHistory, Caught;
    var n := |done| - 1;
    if j == |done| {
      assert done[..j] == done;
      s' := s;
    } else {
      assert done == done[..n] + [done[n]];
      PrefixIsHistory(programs, done[..n], done[n]);
      assert done[..n][..j] == done[..j];
      s' := Happens(programs, done[..n], j, s, wait);
      s' := HappensNext(programs, done[..n], s', wait, done[n]);
    }
  }

  lemma {:induction false} PrefixesAreHistories(programs: map<Thread, seq<Call>>, done: seq<Effect>, k: nat)
    requires IsHistory(programs, done) && k <= |done|
    ensures IsHistory(programs, done[..k])
    decreases |done|
  {
    hide IsHistory;
    if k == |done| {
      assert done[..k] == done;
    } else {
      var n := |done| - 1;
      assert done == done[..n] + [done[n]] && done[..n][..k] == done[..k];
      PrefixIsHistory(programs, done[..n], done[n]);
      PrefixesAreHistories(programs, done[..n], k);
    }
  }

  lemma {:induction false} EffectsGrow(done: seq<Effect>, k: nat, t: Thread)
    requires k <= |done|
    ensures |EffectsOf(done[..k], t)| <= |EffectsOf(done, t)|
    ensures EffectsOf(done[..k], t) == EffectsOf(done, t) ==> forall m :: k <= m < |done| ==> done[m].t != t
    decreases |done|
  {
    if k == |done| {
      assert done[..k] == done;
    } else {
      var n := |done| - 1;
      assert done[..n][..k] == done[..k];
      EffectsGrow(done[..n], k, t);
    }
  }

  lemma Quiet(programs: map<Thread, seq<Call>>)
    ensures Caught(programs, [], Start(), map[])
  {
    StartIsReachable();
    hide Reachable;
  }

  lemma LastStep(programs: map<Thread, seq<Call>>, done: seq<Effect>, s: Shared, t: Thread, a: nat)
    requires Caught(programs, done, s, map[t := a]) && BucketAfter(done, a) == []
    ensures ProgramsCrash(programs)
  {
    InvAlways(s);
    assert Chain(s, a) == BucketAfter(done, a);
    hide Reachable, EffectsOf, Replay, InBucket, Inv;
    assert CaughtAt(programs, s, map[t := a], t);
    var s1 := Next(s, Advance(t));
    var s2 := Next(s1, Advance(t));
    forall u ensures CalledBy(s2, u) <= ProgramOf(programs, u) {
      assert CaughtAt(programs, s, map[t := a], u);
    }
    assert PcOf(s2, t).Crashed?;
  }

  lemma OvertakenCrashes(programs: map<Thread, seq<Call>>, done: seq<Effect>, k: nat, t: Thread)
    requires Overtaken(programs, done, k, t)
    ensures ProgramsCrash(programs)
  {
    var a := ProgramOf(programs, t)[|EffectsOf(done, t)|].a;
    EffectsGrow(done, k, t);
    PrefixesAreHistories(programs, done, k);
    hide IsHistory, EffectsOf, BucketAfter, Caught, ProgramsCrash;
    Quiet(programs);
    assert done[..k][..0] == [];
    var s := Happens(programs, done[..k], 0, Start(), map[]);
    s := PassesNext(programs, done[..k], s, t, a);
    s := Happens(programs, done, k, s, map[t := a]);
    LastStep(programs, done, s, t, a);
  }

  /** Whatever the programs: some interleaving of them crashes if and only if, with calls that happen at one instant each,
      a bucket that is not empty when a thread has a removal from it to do next can be emptied by others before it does
      anything. */
  lemma ProgramsCrashExactly(programs: map<Thread, seq<Call>>)
    ensures ProgramsCrash(programs) <==> exists done: seq<Effect>, k: nat, t: Thread :: Overtaken(programs, done, k, t)
  {
    hide Overtaken, Reachable, Follows;
    if ProgramsCrash(programs) {
      var s, t :| Reachable(s) && Follows(programs, s) && PcOf(s, t).Crashed?;
      var k := CrashIsOvertaken(programs, s, t);
    }
    if done: seq<Effect>, k: nat, t: Thread :| Overtaken(programs, done, k, t) {
      OvertakenCrashes(programs, done, k, t);
    }
  }

  // ------------------------------------------------------------------ what this means

  /** No two threads have removals from the same bucket in their programs. */
  ghost predicate OneRemoverPerBucket(programs: map<Thread, seq<Call>>) {
    forall t, u, a, b ::
      t != u && RemoveCall(a) in ProgramOf(programs, t) && RemoveCall(b) in ProgramOf(programs, u) ==>
        Bucket(a) != Bucket(b)
  }

  lemma {:induction false} EffectIsThere(done: seq<Effect>, m: nat)
    requires m < |done|
    ensures done[m] in EffectsOf(done, done[m].t)
    decreases |done|
  {
    var n := |done| - 1;
    if m < n {
      EffectIsThere(done[..n], m);
    }
  }

  lemma RemovedByProgram(programs: map<Thread, seq<Call>>, done: seq<Effect>, m: nat)
    requires IsHistory(programs, done) && m < |done| && done[m].Removed?
    ensures RemoveCall(done[m].a) in ProgramOf(programs, done[m].t)
  {
    var t := done[m].t;
    EffectIsThere(done, m);
    assert EffectsMatch(EffectsOf(done, t), ProgramOf(programs, t));
    var i :| 0 <= i < |EffectsOf(done, t)| && EffectsOf(done, t)[i] == done[m];
  }

  /** A bucket from which nothing is removed does not become empty. */
  lemma {:induction false} StaysFilled(done: seq<Effect>, k: nat, a: nat)
    requires k <= |done| && BucketAfter(done[..k], a) != []
    requires forall m :: k <= m < |done| && done[m].Removed? ==> Bucket(done[m].a) != Bucket(a)
    ensures BucketAfter(done, a) != []
    decreases |done|
  {
    if k == |done| {
      assert done[..k] == done;
    } else {
      var n := |done| - 1;
      assert done[..n][..k] == done[..k];
      StaysFilled(done[..n], k, a);
      var before := Replay(done[..n]).0;
      assert done == done[..n] + [done[n]];
      OneMoreReplayed(done[..n], done[n]);
      hide Replay;
      match done[n]
      case Tracked(_, r) => assert ([r] + before)[1..] == before;
      case Removed(_, x, _) => RemoveIsInBucket(before, x, Bucket(a));
    }
  }

  /** As long as each bucket is left to one thread to remove from, nothing can crash, whatever is tracked meanwhile and
      whatever that thread frees. */
  lemma OneRemoverIsSafe(programs: map<Thread, seq<Call>>)
    requires OneRemoverPerBucket(programs)
    ensures !ProgramsCrash(programs)
  {
    ProgramsCrashExactly(programs);
    hide ProgramsCrash, IsHistory, BucketAfter, EffectsOf;
    if done: seq<Effect>, k: nat, t: Thread :| Overtaken(programs, done, k, t) {
      var a := ProgramOf(programs, t)[|EffectsOf(done, t)|].a;
      EffectsGrow(done, k, t);
      forall m | k <= m < |done| && done[m].Removed? ensures Bucket(done[m].a) != Bucket(a) {
        RemovedByProgram(programs, done, m);
        assert RemoveCall(a) in ProgramOf(programs, t);
      }
      StaysFilled(done, k, a);
      assert false;
    }
  }

  /** One thread tracks a block and removes it, another one removes any address: they can crash exactly if the two
      addresses share a bucket. */
  lemma TrackedMeanwhile(r: Rec, a: nat)
    ensures ProgramsCrash(map[1 := [TrackCall(r), RemoveCall(r.data)], 2 := [RemoveCall(a)]]) <==>
            a % 113 == r.data % 113
  {
    assert Bucket(a) == a % 113 && Bucket(r.data) == r.data % 113;
    var programs: map<Thread, seq<Call>> := map[1 := [TrackCall(r), RemoveCall(r.data)], 2 := [RemoveCall(a)]];
    hide ProgramsCrash, Bucket;
    if Bucket(a) == Bucket(r.data) {
      ProgramsCrashExactly(programs);
      ComesAndGoes(programs, r, a);
    } else {
      OneRemoverIsSafe(programs);
    }
  }

  lemma ComesAndGoes(programs: map<Thread, seq<Call>>, r: Rec, a: nat)
    requires programs == map[1 := [TrackCall(r), RemoveCall(r.data)], 2 := [RemoveCall(a)]]
    requires Bucket(a) == Bucket(r.data)
    ensures Overtaken(programs, [Tracked(1, r), Removed(1, r.data, Some(r))], 1, 2)
  {
    hide Bucket;
    var e, f := Tracked(1, r), Removed(1, r.data, Some(r));
    assert [] + [e] == [e] && [e] + [f] == [e, f] && [e, f][..1] == [e];
    OneMoreReplayed([], e);
    OneMoreReplayed([e], f);
    assert [r][1..] == [] && [r] + [] == [r];
    forall t
      ensures EffectsOf([e, f], t) == if t == 1 then [e, f] else []
      ensures EffectsOf([e], t) == if t == 1 then [e] else []
    {
      OneMoreEffect([], e, t);
      OneMoreEffect([e], f, t);
    }
  }
}
