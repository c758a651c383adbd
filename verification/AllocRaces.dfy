/**
 When can the head dereferenced by removeTrackNode be NULL? A number of threads are about to remove one address each, from
 whatever table. The test outside the lock lets one of them crash, in some interleaving, exactly if in some bucket the
 removals cover all the blocks there are and outnumber them.
 */
module AllocRaces {
  import opened AllocThreads
  import opened Collections
  import opened HeapSpec
  import opened Wrappers

  /** The threads in calls are about to remove the addresses given there; all others are idle, and the lock is free. */
  ghost predicate Gathered(s: Shared, calls: map<Thread, nat>) {
    && s.lock == None && BucketsOk(s)
    && forall t :: PcOf(s, t) == if t in calls then RemoveTest(calls[t]) else Idle
  }

  /** An execution without any further call, at whose end t has crashed. */
  ghost predicate Crashes(s: Shared, ss: seq<Shared>, acts: seq<Action>, t: Thread) {
    && IsExecution(s, ss, acts) && PcOf(ss[|acts|], t).Crashed?
    && forall i :: 0 <= i < |acts| ==> acts[i].Advance?
  }

  /** The threads can go on in such a way that one of them crashes. */
  ghost predicate CanCrash(s: Shared) {
    exists ss, acts, t :: Crashes(s, ss, acts, t)
  }

  /** How often an address occurs in a chain. */
  function Times(chain: seq<Rec>, a: nat): nat {
    if chain == [] then 0 else (if chain[0].data == a then 1 else 0) + Times(chain[1..], a)
  }

  function Callers(calls: map<Thread, nat>, a: nat): set<Thread> {
    set t | t in calls && calls[t] == a
  }

  function BucketCallers(calls: map<Thread, nat>, b: nat): set<Thread> {
    set t | t in calls && Bucket(calls[t]) == b
  }

  /** Bucket b is not empty, each of its blocks is removed, and there are more removals than blocks. */
  ghost predicate Outnumbered(s: Shared, calls: map<Thread, nat>, b: nat)
    requires b < |s.buckets|
  {
    && s.buckets[b] != []
    && (forall a :: Times(s.buckets[b], a) <= |Callers(calls, a)|)
    && |BucketCallers(calls, b)| > |s.buckets[b]|
  }

  // ------------------------------------------------------------------ only then

  /** Where a thread may be: gone are the threads that have removed a node. */
  ghost predicate PlaceOk(s0: Shared, calls: map<Thread, nat>, gone: set<Thread>, s: Shared, t: Thread)
    requires |s0.buckets| == |s.buckets| == HASH_SIZE
  {
    match PcOf(s, t)
    case Idle => true
    case RemoveTest(a) => t in calls && calls[t] == a && t !in gone
    case RemoveLock(a) => t in calls && calls[t] == a && t !in gone && s0.buckets[Bucket(a)] != []
    case RemoveHead(a) => t in calls && calls[t] == a && t !in gone && s0.buckets[Bucket(a)] != []
    case RemoveWalk(a, _) => t in calls && calls[t] == a && t !in gone && s0.buckets[Bucket(a)] != []
    case Crashed(a) =>
      t in calls && calls[t] == a && t !in gone && s0.buckets[Bucket(a)] != [] && s.buckets[Bucket(a)] == []
    case RemoveTotal(_, _) => true
    case RemoveUnlock(_, _) => true
    case _ => false
  }

  /** The chains have lost exactly what the threads in gone removed. */
  ghost predicate CountsOk(s0: Shared, calls: map<Thread, nat>, gone: set<Thread>, s: Shared)
    requires |s0.buckets| == |s.buckets| == HASH_SIZE
  {
    forall b :: 0 <= b < HASH_SIZE ==> CountOk(s0.buckets[b], calls, gone, s.buckets[b], b)
  }

  ghost predicate CountOk(chain0: seq<Rec>, calls: map<Thread, nat>, gone: set<Thread>, chain: seq<Rec>, b: nat) {
    && |chain0| == |chain| + |gone * BucketCallers(calls, b)|
    && forall a :: Bucket(a) == b ==> Times(chain0, a) == Times(chain, a) + |gone * Callers(calls, a)|
  }

  ghost predicate Going(s0: Shared, calls: map<Thread, nat>, gone: set<Thread>, s: Shared) {
    && |s0.buckets| == |s.buckets| == HASH_SIZE
    && (forall t :: PlaceOk(s0, calls, gone, s, t))
    && CountsOk(s0, calls, gone, s)
  }

  lemma {:induction false} TimesWithout(chain: seq<Rec>, k: nat, a: nat)
    requires k < |chain|
    ensures Times(chain, a) == Times(chain[..k] + chain[k + 1..], a) + if chain[k].data == a then 1 else 0
  {
    var rest := chain[..k] + chain[k + 1..];
    if k == 0 {
      assert rest == chain[1..];
    } else {
      TimesWithout(chain[1..], k - 1, a);
      assert rest[1..] == chain[1..][..k - 1] + chain[1..][k..];
    }
  }

  lemma OneMoreGone(gone: set<Thread>, t: Thread, group: set<Thread>)
    requires t !in gone
    ensures |(gone + {t}) * group| == |gone * group| + if t in group then 1 else 0
  {
    if t in group {
      assert (gone + {t}) * group == gone * group + {t};
    } else {
      assert (gone + {t}) * group == gone * group;
    }
  }

  lemma CountUnlinked(chain0: seq<Rec>, calls: map<Thread, nat>, gone: set<Thread>, chain: seq<Rec>, b: nat,
                      t: Thread, k: nat)
    requires CountOk(chain0, calls, gone, chain, b) && t in calls && t !in gone && Bucket(calls[t]) == b
    requires k < |chain| && chain[k].data == calls[t]
    ensures CountOk(chain0, calls, gone + {t}, chain[..k] + chain[k + 1..], b)
  {
    OneMoreGone(gone, t, BucketCallers(calls, b));
    forall a | Bucket(a) == b
      ensures Times(chain0, a) == Times(chain[..k] + chain[k + 1..], a) + |(gone + {t}) * Callers(calls, a)|
    {
      TimesWithout(chain, k, a);
      OneMoreGone(gone, t, Callers(calls, a));
    }
  }

  lemma CountElsewhere(chain0: seq<Rec>, calls: map<Thread, nat>, gone: set<Thread>, chain: seq<Rec>, b: nat, t: Thread)
    requires CountOk(chain0, calls, gone, chain, b) && t in calls && t !in gone && Bucket(calls[t]) != b
    ensures CountOk(chain0, calls, gone + {t}, chain, b)
  {
    OneMoreGone(gone, t, BucketCallers(calls, b));
    forall a | Bucket(a) == b ensures |(gone + {t}) * Callers(calls, a)| == |gone * Callers(calls, a)| {
      OneMoreGone(gone, t, Callers(calls, a));
    }
  }

  lemma UnlinkGoes(s0: Shared, calls: map<Thread, nat>, gone: set<Thread>, s: Shared, t: Thread, a: nat, k: nat)
    requires Going(s0, calls, gone, s) && Removing(PcOf(s, t), a)
    requires k < |Chain(s, a)| && Chain(s, a)[k].data == a
    ensures Going(s0, calls, gone + {t}, Unlink(s, t, a, k))
  {
    var s' := Unlink(s, t, a, k);
    assert PlaceOk(s0, calls, gone, s, t);
    forall b | 0 <= b < HASH_SIZE ensures CountOk(s0.buckets[b], calls, gone + {t}, s'.buckets[b], b) {
      assert CountOk(s0.buckets[b], calls, gone, s.buckets[b], b);
      if b == Bucket(a) {
        CountUnlinked(s0.buckets[b], calls, gone, s.buckets[b], b, t, k);
      } else {
        CountElsewhere(s0.buckets[b], calls, gone, s.buckets[b], b, t);
      }
    }
    forall u ensures PlaceOk(s0, calls, gone + {t}, s', u) {
      assert PlaceOk(s0, calls, gone, s, u);
    }
  }

  /** A chain that is not empty now was not empty in the beginning. */
  lemma WasNotEmpty(s0: Shared, calls: map<Thread, nat>, gone: set<Thread>, s: Shared, a: nat)
    requires Going(s0, calls, gone, s) && Chain(s, a) != []
    ensures s0.buckets[Bucket(a)] != []
  {
    assert CountOk(s0.buckets[Bucket(a)], calls, gone, s.buckets[Bucket(a)], Bucket(a));
  }

  /** A step that unlinks nothing. */
  lemma OtherStepGoes(s0: Shared, calls: map<Thread, nat>, gone: set<Thread>, s: Shared, t: Thread)
    requires Going(s0, calls, gone, s) && Enabled(s, Advance(t)) && Step(s, Advance(t)).buckets == s.buckets
    requires !PcOf(Step(s, Advance(t)), t).RemoveTotal?
    ensures Going(s0, calls, gone, Step(s, Advance(t)))
  {
    hide CountOk;
    var s' := Step(s, Advance(t));
    assert PlaceOk(s0, calls, gone, s, t);
    if PcOf(s, t).RemoveTest? && Chain(s, PcOf(s, t).a) != [] {
      WasNotEmpty(s0, calls, gone, s, PcOf(s, t).a);
    }
    assert PlaceOk(s0, calls, gone, s', t);
    assert forall u :: u != t ==> PcOf(s', u) == PcOf(s, u);
    hide Step;
    forall u ensures PlaceOk(s0, calls, gone, s', u) {
      assert PlaceOk(s0, calls, gone, s, u);
    }
  }

  lemma StepGoes(s0: Shared, calls: map<Thread, nat>, gone: set<Thread>, s: Shared, t: Thread)
    returns (gone': set<Thread>)
    requires Going(s0, calls, gone, s) && Enabled(s, Advance(t))
    ensures Going(s0, calls, gone', Step(s, Advance(t)))
  {
    assert PlaceOk(s0, calls, gone, s, t);
    var pc := PcOf(s, t);
    if pc.RemoveHead? && Chain(s, pc.a) != [] && Chain(s, pc.a)[0].data == pc.a {
      gone' := gone + {t};
      UnlinkGoes(s0, calls, gone, s, t, pc.a, 0);
    } else if pc.RemoveWalk? && pc.i + 1 < |Chain(s, pc.a)| && Chain(s, pc.a)[pc.i + 1].data == pc.a {
      gone' := gone + {t};
      UnlinkGoes(s0, calls, gone, s, t, pc.a, pc.i + 1);
    } else {
      gone' := gone;
      OtherStepGoes(s0, calls, gone, s, t);
    }
  }

  lemma {:induction false} Goes(s0: Shared, calls: map<Thread, nat>, ss: seq<Shared>, acts: seq<Action>, i: nat)
    returns (gone: set<Thread>)
    requires Gathered(s0, calls) && IsExecution(s0, ss, acts) && i < |ss|
    requires forall k :: 0 <= k < |acts| ==> acts[k].Advance?
    ensures Going(s0, calls, gone, ss[i])
  {
    if i == 0 {
      gone := {};
      forall b | 0 <= b < HASH_SIZE ensures CountOk(s0.buckets[b], calls, {}, s0.buckets[b], b) {
        assert {} * BucketCallers(calls, b) == {};
        assert forall a :: {} * Callers(calls, a) == {};
      }
    } else {
      gone := Goes(s0, calls, ss, acts, i - 1);
      assert AllocThreads.IsStep(ss[i - 1], acts[i - 1], ss[i]);
      gone := StepGoes(s0, calls, gone, ss[i - 1], acts[i - 1].t);
    }
  }

  lemma {:induction false} ElsewhereNever(chain: seq<Rec>, a: nat)
    requires forall i :: 0 <= i < |chain| ==> chain[i].data != a
    ensures Times(chain, a) == 0
  {
    if chain != [] {
      ElsewhereNever(chain[1..], a);
    }
  }

  lemma CrashedPlace(s0: Shared, calls: map<Thread, nat>, gone: set<Thread>, s: Shared, t: Thread)
    requires Going(s0, calls, gone, s) && PcOf(s, t).Crashed?
    ensures var b := Bucket(PcOf(s, t).a);
            && t in BucketCallers(calls, b) && t !in gone && |s0.buckets| == HASH_SIZE
            && s0.buckets[b] != [] && CountOk(s0.buckets[b], calls, gone, [], b)
  {
    assert PlaceOk(s0, calls, gone, s, t);
    var b := Bucket(PcOf(s, t).a);
    assert CountOk(s0.buckets[b], calls, gone, s.buckets[b], b);
    hide CountOk;
  }

  lemma CrashedOutnumbers(s0: Shared, calls: map<Thread, nat>, gone: set<Thread>, s: Shared, t: Thread)
    requires Gathered(s0, calls) && Going(s0, calls, gone, s) && PcOf(s, t).Crashed?
    ensures Outnumbered(s0, calls, Bucket(PcOf(s, t).a))
  {
    hide Going, CountOk, Outnumbered, BucketCallers;
    CrashedPlace(s0, calls, gone, s, t);
    EmptiedOutnumbers(s0, calls, gone, Bucket(PcOf(s, t).a), t);
  }

  /** Those who emptied a bucket and one more. */
  lemma EmptiedOutnumbers(s: Shared, calls: map<Thread, nat>, gone: set<Thread>, b: nat, t: Thread)
    requires BucketsOk(s) && b < HASH_SIZE && s.buckets[b] != []
    requires CountOk(s.buckets[b], calls, gone, [], b) && t in BucketCallers(calls, b) && t !in gone
    ensures Outnumbered(s, calls, b)
  {
    forall a ensures Times(s.buckets[b], a) <= |Callers(calls, a)| {
      if Bucket(a) == b {
        SubsetSize(gone * Callers(calls, a), Callers(calls, a));
      } else {
        ElsewhereNever(s.buckets[b], a);
      }
    }
    var part := gone * BucketCallers(calls, b);
    SubsetSize(part + {t}, BucketCallers(calls, b));
  }

  // ------------------------------------------------------------------ and then indeed

  lemma CrashPrepended(s: Shared, t: Thread)
    requires Enabled(s, Advance(t)) && CanCrash(Step(s, Advance(t)))
    ensures CanCrash(s)
  {
    var ss, acts, u :| Crashes(Step(s, Advance(t)), ss, acts, u);
    var ss', acts' := [s] + ss, [Advance(t)] + acts;
    hide Step, Enabled;
    forall i | 0 <= i < |acts'| ensures AllocThreads.IsStep(ss'[i], acts'[i], ss'[i + 1]) {
      assert i > 0 ==> AllocThreads.IsStep(ss[i - 1], acts[i - 1], ss[i]);
    }
    assert Crashes(s, ss', acts', u);
  }

  /** The threads in waiting have all passed the test, and the chain of bucket b is left to them. */
  ghost predicate Waiting(s: Shared, calls: map<Thread, nat>, waiting: set<Thread>, b: nat) {
    && s.lock == None && |s.buckets| == HASH_SIZE && b < HASH_SIZE
    && (forall t :: t in waiting ==> t in calls && Bucket(calls[t]) == b && PcOf(s, t) == RemoveLock(calls[t]))
    && (forall a :: Times(s.buckets[b], a) <= |waiting * Callers(calls, a)|)
    && |waiting| > |s.buckets[b]|
  }

  lemma LastOneCrashes(s: Shared, calls: map<Thread, nat>, waiting: set<Thread>, b: nat)
    requires Waiting(s, calls, waiting, b) && s.buckets[b] == []
    ensures CanCrash(s)
  {
    assert waiting != {};
    var t :| t in waiting;
    var s1 := Step(s, Advance(t));
    var s2 := Step(s1, Advance(t));
    assert Crashes(s2, [s2], [], t);
    CrashPrepended(s1, t);
    CrashPrepended(s, t);
  }

  lemma TakesHead(s: Shared, t: Thread, a: nat) returns (s': Shared)
    requires s.lock == None && |s.buckets| == HASH_SIZE && PcOf(s, t) == RemoveLock(a)
    requires Chain(s, a) != [] && Chain(s, a)[0].data == a
    ensures s'.lock == Some(t) && PcOf(s', t).RemoveTotal?
    ensures s'.buckets == s.buckets[Bucket(a) := Chain(s, a)[1..]]
    ensures forall u :: u != t ==> PcOf(s', u) == PcOf(s, u)
    ensures CanCrash(s') ==> CanCrash(s)
  {
    hide CanCrash, Remove;
    var s1 := Step(s, Advance(t));
    s' := Step(s1, Advance(t));
    assert Chain(s, a)[..0] + Chain(s, a)[1..] == Chain(s, a)[1..];
    if CanCrash(s') {
      CrashPrepended(s1, t);
      CrashPrepended(s, t);
    }
  }

  /** One thread runs its removal to the end and takes the head of the chain away. */
  lemma RemovesHead(s: Shared, t: Thread, a: nat) returns (s': Shared)
    requires s.lock == None && |s.buckets| == HASH_SIZE && PcOf(s, t) == RemoveLock(a)
    requires Chain(s, a) != [] && Chain(s, a)[0].data == a
    ensures s'.lock == None && s'.buckets == s.buckets[Bucket(a) := Chain(s, a)[1..]]
    ensures forall u :: u != t ==> PcOf(s', u) == PcOf(s, u)
    ensures CanCrash(s') ==> CanCrash(s)
  {
    hide CanCrash;
    var s2 := TakesHead(s, t, a);
    var s3 := Step(s2, Advance(t));
    s' := Step(s3, Advance(t));
    if CanCrash(s') {
      CrashPrepended(s3, t);
      CrashPrepended(s2, t);
    }
  }

  lemma {:induction false} WaitingCrash(s: Shared, calls: map<Thread, nat>, waiting: set<Thread>, b: nat)
    requires Waiting(s, calls, waiting, b)
    ensures CanCrash(s)
    decreases |waiting|
  {
    var chain := s.buckets[b];
    if chain == [] {
      LastOneCrashes(s, calls, waiting, b);
    } else {
      var a := chain[0].data;
      assert Times(chain, a) >= 1;
      assert waiting * Callers(calls, a) != {};
      var t :| t in waiting * Callers(calls, a);
      var s' := RemovesHead(s, t, a);
      var waiting' := waiting - {t};
      assert waiting' + {t} == waiting;
      forall x ensures Times(s'.buckets[b], x) <= |waiting' * Callers(calls, x)| {
        OneMoreGone(waiting', t, Callers(calls, x));
        assert Times(chain, x) <= |waiting * Callers(calls, x)|;
      }
      WaitingCrash(s', calls, waiting', b);
    }
  }

  lemma PassesTest(s: Shared, t: Thread)
    requires PcOf(s, t).RemoveTest? && Chain(s, PcOf(s, t).a) != []
    ensures Enabled(s, Advance(t))
    ensures var s' := Step(s, Advance(t));
            && s'.lock == s.lock && s'.buckets == s.buckets && PcOf(s', t) == RemoveLock(PcOf(s, t).a)
            && forall u :: u != t ==> PcOf(s', u) == PcOf(s, u)
  {
  }

  lemma SameOutnumbered(s: Shared, s': Shared, calls: map<Thread, nat>, b: nat)
    requires b < |s.buckets| && s'.buckets == s.buckets
    ensures Outnumbered(s', calls, b) <==> Outnumbered(s, calls, b)
  {
  }

  /** The threads in testing still have to pass the test; the others of bucket b wait. */
  lemma {:induction false} TestingCrash(s: Shared, calls: map<Thread, nat>, testing: set<Thread>, b: nat)
    requires s.lock == None && |s.buckets| == HASH_SIZE && b < HASH_SIZE && Outnumbered(s, calls, b)
    requires forall a :: Bucket(a) != b ==> Times(s.buckets[b], a) == 0
    requires testing <= BucketCallers(calls, b)
    requires forall t :: t in BucketCallers(calls, b) ==>
               PcOf(s, t) == if t in testing then RemoveTest(calls[t]) else RemoveLock(calls[t])
    ensures CanCrash(s)
    decreases |testing|
  {
    if testing == {} {
      var waiting := BucketCallers(calls, b);
      forall a ensures Times(s.buckets[b], a) <= |waiting * Callers(calls, a)| {
        if Bucket(a) == b {
          assert waiting * Callers(calls, a) == Callers(calls, a);
        }
      }
      WaitingCrash(s, calls, waiting, b);
    } else {
      var t :| t in testing;
      PassesTest(s, t);
      hide Step, Outnumbered, CanCrash;
      assert Outnumbered(Step(s, Advance(t)), calls, b) by {
        SameOutnumbered(s, Step(s, Advance(t)), calls, b);
      }
      TestingCrash(Step(s, Advance(t)), calls, testing - {t}, b);
      CrashPrepended(s, t);
    }
  }

  /** Exactly then. */
  lemma CrashesExactly(s: Shared, calls: map<Thread, nat>)
    requires Gathered(s, calls)
    ensures CanCrash(s) <==> exists b :: 0 <= b < HASH_SIZE && Outnumbered(s, calls, b)
  {
    if CanCrash(s) {
      var ss, acts, t :| Crashes(s, ss, acts, t);
      var gone := Goes(s, calls, ss, acts, |acts|);
      CrashedOutnumbers(s, calls, gone, ss[|acts|], t);
    }
    if b :| 0 <= b < HASH_SIZE && Outnumbered(s, calls, b) {
      forall a | Bucket(a) != b ensures Times(s.buckets[b], a) == 0 {
        ElsewhereNever(s.buckets[b], a);
      }
      TestingCrash(s, calls, BucketCallers(calls, b), b);
    }
  }

  // ------------------------------------------------------------------ what this means

  /** If no address is tracked twice: every block of some bucket is removed, by more threads than there are blocks. */
  ghost predicate AllTakenAndMore(s: Shared, calls: map<Thread, nat>, b: nat)
    requires b < |s.buckets|
  {
    && s.buckets[b] != []
    && (forall r :: r in s.buckets[b] ==> exists t :: t in calls && calls[t] == r.data)
    && |BucketCallers(calls, b)| > |s.buckets[b]|
  }

  lemma {:induction false} OnceIfDistinct(live: seq<Rec>, b: nat, a: nat)
    requires NoDuplicates(live)
    ensures Times(InBucket(live, b), a) <= 1
    ensures Times(InBucket(live, b), a) == 1 ==> exists r :: r in InBucket(live, b) && r.data == a
    ensures Times(InBucket(live, b), a) == 1 ==> exists r :: r in live && r.data == a
  {
    if live != [] {
      var tail := live[1..];
      assert forall i :: 0 <= i < |tail| ==> tail[i] == live[i + 1];
      OnceIfDistinct(tail, b, a);
      assert ([live[0]] + InBucket(tail, b))[1..] == InBucket(tail, b);
    }
  }

  lemma {:induction false} MemberCounts(chain: seq<Rec>, r: Rec)
    requires r in chain
    ensures Times(chain, r.data) >= 1
  {
    if chain[0] != r {
      MemberCounts(chain[1..], r);
    }
  }

  lemma CrashesIfAllTaken(s: Shared, calls: map<Thread, nat>)
    requires Gathered(s, calls) && NoDuplicates(s.live)
    ensures CanCrash(s) <==> exists b :: 0 <= b < HASH_SIZE && AllTakenAndMore(s, calls, b)
  {
    CrashesExactly(s, calls);
    forall b | 0 <= b < HASH_SIZE ensures Outnumbered(s, calls, b) <==> AllTakenAndMore(s, calls, b) {
      TakenIsOutnumbered(s, calls, b);
    }
  }

  lemma TakenIsOutnumbered(s: Shared, calls: map<Thread, nat>, b: nat)
    requires BucketsOk(s) && NoDuplicates(s.live) && b < HASH_SIZE
    ensures Outnumbered(s, calls, b) <==> AllTakenAndMore(s, calls, b)
  {
    var chain := s.buckets[b];
    if Outnumbered(s, calls, b) {
      forall r | r in chain ensures exists t :: t in calls && calls[t] == r.data {
        MemberCounts(chain, r);
        assert Callers(calls, r.data) != {};
        var t :| t in Callers(calls, r.data);
      }
    }
    if AllTakenAndMore(s, calls, b) {
      forall a ensures Times(chain, a) <= |Callers(calls, a)| {
        OnceIfDistinct(s.live, b, a);
        if Times(chain, a) == 1 {
          var r :| r in chain && r.data == a;
          var t :| t in calls && calls[t] == r.data;
          SubsetSize({t}, Callers(calls, a));
        }
      }
    }
  }

  /** So one thread on its own never crashes, whatever it frees. */
  lemma OneAloneIsSafe(s: Shared, t: Thread, a: nat)
    requires Gathered(s, map[t := a])
    ensures !CanCrash(s)
  {
    CrashesExactly(s, map[t := a]);
    forall b | 0 <= b < HASH_SIZE ensures !Outnumbered(s, map[t := a], b) {
      SubsetSize(BucketCallers(map[t := a], b), {t});
    }
  }

  lemma StepIsReachable(s: Shared, act: Action)
    requires Reachable(s) && Enabled(s, act)
    ensures Reachable(Step(s, act))
  {
    var ss, acts :| IsExecution(Start(), ss, acts) && ss[|acts|] == s;
    var ss', acts' := ss + [Step(s, act)], acts + [act];
    hide Step, Enabled;
    forall i | 0 <= i < |acts'| ensures AllocThreads.IsStep(ss'[i], acts'[i], ss'[i + 1]) {
      assert i < |acts| ==> AllocThreads.IsStep(ss[i], acts[i], ss[i + 1]);
    }
    assert IsExecution(Start(), ss', acts') && ss'[|acts'|] == Step(s, act);
  }

  lemma {:induction false} ExecutionIsReachable(s: Shared, ss: seq<Shared>, acts: seq<Action>, i: nat)
    requires Reachable(s) && IsExecution(s, ss, acts) && i < |ss|
    ensures Reachable(ss[i])
  {
    if i > 0 {
      ExecutionIsReachable(s, ss, acts, i - 1);
      assert AllocThreads.IsStep(ss[i - 1], acts[i - 1], ss[i]);
      StepIsReachable(ss[i - 1], acts[i - 1]);
    }
  }

  /** A single block has been tracked, and threads 1 and 2 are about to remove its address and another one. */
  lemma TwoRemovals(r: Rec, a: nat) returns (s: Shared)
    ensures Reachable(s) && Gathered(s, map[1 := r.data, 2 := a])
    ensures forall b :: 0 <= b < HASH_SIZE ==> s.buckets[b] == if b == Bucket(r.data) then [r] else []
  {
    hide Reachable;
    var s0 := OneTracked(r);
    OneInBucket(r);
    var s1 := Next(s0, Begin(1, RemoveCall(r.data)));
    assert forall t :: t != 1 ==> PcOf(s1, t) == PcOf(s0, t);
    s := Next(s1, Begin(2, RemoveCall(a)));
    assert forall t :: t != 2 ==> PcOf(s, t) == PcOf(s1, t);
  }

  lemma OneInBucket(r: Rec)
    ensures forall b :: 0 <= b < HASH_SIZE ==> InBucket([r], b) == if b == Bucket(r.data) then [r] else []
  {
    assert [r][1..] == [] && [r] + [] == [r];
  }

  /** Thread 1 has tracked r, and all is quiet. */
  lemma OneTracked(r: Rec) returns (s: Shared)
    ensures Reachable(s) && s.lock == None && s.live == [r] && |s.buckets| == HASH_SIZE
    ensures forall t :: PcOf(s, t) == Idle
    ensures forall b :: 0 <= b < HASH_SIZE ==> s.buckets[b] == if b == Bucket(r.data) then [r] else []
  {
    hide Reachable;
    s := Start();
    assert Reachable(s) by {
      StartIsReachable();
    }
    s := Next(s, Begin(1, TrackCall(r)));
    s := Next(s, Advance(1));
    s := Next(s, Advance(1));
    assert PcOf(s, 1) == TrackLink(r) && s.buckets == NoBlocks() && s.live == [];
    s := Next(s, Advance(1));
    s := Next(s, Advance(1));
    assert [r] + [] == [r];
  }

  lemma StartIsReachable()
    ensures Reachable(Start())
  {
    assert IsExecution(Start(), [Start()], []);
  }

  lemma Next(s: Shared, act: Action) returns (s': Shared)
    requires Reachable(s) && Enabled(s, act)
    ensures Reachable(s') && s' == Step(s, act)
  {
    StepIsReachable(s, act);
    s' := Step(s, act);
  }

  /** Freeing the only block of a bucket while another thread frees an address of the same bucket, be it the same one or
      one that is not tracked at all, can crash; while another thread frees an address of another bucket, it cannot. */
  lemma TwoRemovalsCrash(r: Rec, a: nat) returns (s: Shared)
    ensures Reachable(s) && Gathered(s, map[1 := r.data, 2 := a])
    ensures CanCrash(s) <==> a % 113 == r.data % 113
  {
    var calls: map<Thread, nat> := map[1 := r.data, 2 := a];
    s := TwoRemovals(r, a);
    CrashesExactly(s, calls);
    hide Reachable, Gathered, CanCrash;
    if Bucket(a) == Bucket(r.data) {
      TwoOutnumberOne(s, r, a, calls);
    } else {
      assert BucketCallers(calls, Bucket(r.data)) == {1};
    }
  }

  lemma TwoOutnumberOne(s: Shared, r: Rec, a: nat, calls: map<Thread, nat>)
    requires |s.buckets| == HASH_SIZE && s.buckets[Bucket(r.data)] == [r]
    requires calls == map[1 := r.data, 2 := a] && Bucket(a) == Bucket(r.data)
    ensures Outnumbered(s, calls, Bucket(r.data))
  {
    assert BucketCallers(calls, Bucket(r.data)) == {1, 2};
    forall x ensures Times([r], x) <= |Callers(calls, x)| {
      assert Times([r], x) == (if r.data == x then 1 else 0) + Times([r][1..], x);
      if r.data == x {
        SubsetSize({1}, Callers(calls, x));
      }
    }
  }

  /** In particular a double free can make the head NULL. */
  lemma DoubleFreeCrashes(r: Rec) returns (s: Shared, t: Thread)
    ensures Reachable(s) && PcOf(s, t).Crashed?
  {
    var s0 := TwoRemovalsCrash(r, r.data);
    var ss, acts, u :| Crashes(s0, ss, acts, u);
    ExecutionIsReachable(s0, ss, acts, |acts|);
    s, t := ss[|acts|], u;
  }
}
