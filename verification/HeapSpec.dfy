/**
 What the tracking allocator does, on values: the live blocks (newest first), the ranges handed out by
 malloc, memory octet by octet, and the complaints written to stderr.
 */
module HeapSpec {
  import opened Bytes
  import opened Wrappers

  const PATTERN: byte := 0xA
  const MARGIN: nat := 4
  const HASH_SIZE: nat := 113

  /** A track_t: where the payload starts, its size, whether free is due, and the width of the guards. */
  datatype Rec = Rec(data: nat, space: nat, needsFree: bool, margin: nat)

  datatype Report = NonMalloced | PastBounds

  datatype Heap = Heap(live: seq<Rec>, sys: map<nat, nat>, mem: map<int, byte>, reports: seq<Report>)

  // ------------------------------------------------------------------ tracked records

  function Bucket(address: nat): (b: nat)
    ensures b < HASH_SIZE
  {
    address % HASH_SIZE
  }

  /** The most recent record for an address. */
  function First(live: seq<Rec>, address: nat): (r: Option<Rec>)
    ensures r.Some? ==> r.value in live && r.value.data == address
    ensures r.None? ==> forall x :: x in live ==> x.data != address
  {
    if live == [] then None else if live[0].data == address then Some(live[0]) else First(live[1..], address)
  }

  /** Without that record. */
  function Remove(live: seq<Rec>, address: nat): seq<Rec> {
    if live == [] then []
    else if live[0].data == address then live[1..]
    else [live[0]] + Remove(live[1..], address)
  }

  function Sum(live: seq<Rec>): nat {
    if live == [] then 0 else live[0].space + Sum(live[1..])
  }

  /** The chain of one hash bucket: the records that belong there, in order. */
  function InBucket(live: seq<Rec>, b: nat): (chain: seq<Rec>)
    ensures forall i :: 0 <= i < |chain| ==> Bucket(chain[i].data) == b
  {
    if live == [] then []
    else if Bucket(live[0].data) == b then [live[0]] + InBucket(live[1..], b)
    else InBucket(live[1..], b)
  }

  /** An address is found in its bucket exactly when it is tracked anywhere, and it is the same record. */
  lemma {:induction false} FirstIsInBucket(live: seq<Rec>, address: nat)
    ensures First(InBucket(live, Bucket(address)), address) == First(live, address)
  {
    if live != [] {
      FirstIsInBucket(live[1..], address);
      assert ([live[0]] + InBucket(live[1..], Bucket(address)))[1..] == InBucket(live[1..], Bucket(address));
    }
  }

  /** Removing it from its bucket removes it from the collection and leaves the other buckets alone. */
  lemma {:induction false} RemoveIsInBucket(live: seq<Rec>, address: nat, b: nat)
    ensures InBucket(Remove(live, address), b) ==
            if b == Bucket(address) then Remove(InBucket(live, b), address) else InBucket(live, b)
  {
    if live != [] {
      RemoveIsInBucket(live[1..], address, b);
      assert ([live[0]] + InBucket(live[1..], b))[1..] == InBucket(live[1..], b);
      assert ([live[0]] + Remove(live[1..], address))[1..] == Remove(live[1..], address);
    }
  }

  lemma RemoveInBuckets(live: seq<Rec>, address: nat)
    ensures forall b :: 0 <= b < HASH_SIZE ==>
              InBucket(Remove(live, address), b) ==
              if b == Bucket(address) then Remove(InBucket(live, b), address) else InBucket(live, b)
  {
    forall b | 0 <= b < HASH_SIZE
      ensures InBucket(Remove(live, address), b) ==
              if b == Bucket(address) then Remove(InBucket(live, b), address) else InBucket(live, b)
    {
      RemoveIsInBucket(live, address, b);
    }
  }

  /** The total never drops below zero. */
  lemma {:induction false} SumOfRemove(live: seq<Rec>, address: nat)
    ensures match First(live, address)
            case Some(r) => Sum(live) == Sum(Remove(live, address)) + r.space
            case None => Remove(live, address) == live
  {
    if live != [] {
      SumOfRemove(live[1..], address);
      assert ([live[0]] + Remove(live[1..], address))[1..] == Remove(live[1..], address);
    }
  }

  /** The record found for an address is the first one at that address. */
  lemma {:induction false} FirstAt(live: seq<Rec>, address: nat, k: nat)
    requires k < |live| && live[k].data == address && forall i :: 0 <= i < k ==> live[i].data != address
    ensures First(live, address) == Some(live[k])
    ensures Remove(live, address) == live[..k] + live[k + 1..]
    decreases k
  {
    if k > 0 {
      FirstAt(live[1..], address, k - 1);
    }
  }

  /** Removing an address does not affect what is found at another one. */
  lemma {:induction false} OthersStay(live: seq<Rec>, a: nat, b: nat)
    requires a != b
    ensures First(Remove(live, a), b) == First(live, b)
  {
    if live != [] {
      OthersStay(live[1..], a, b);
      assert ([live[0]] + Remove(live[1..], a))[1..] == Remove(live[1..], a);
    }
  }

  /** All that removing an address amounts to, bucket by bucket. */
  lemma RemoveFacts(live: seq<Rec>, address: nat)
    ensures First(InBucket(live, Bucket(address)), address) == First(live, address)
    ensures match First(live, address)
            case Some(r) => Sum(live) == Sum(Remove(live, address)) + r.space
            case None => Remove(live, address) == live
    ensures forall b :: 0 <= b < HASH_SIZE ==>
              InBucket(Remove(live, address), b) ==
              if b == Bucket(address) then Remove(InBucket(live, b), address) else InBucket(live, b)
  {
    FirstIsInBucket(live, address);
    SumOfRemove(live, address);
    RemoveInBuckets(live, address);
  }

  function SumOfBuckets(live: seq<Rec>, n: nat): nat {
    if n == 0 then 0 else SumOfBuckets(live, n - 1) + Sum(InBucket(live, n - 1))
  }

  lemma {:induction false} OneMoreInBuckets(live: seq<Rec>, n: nat)
    requires live != []
    ensures SumOfBuckets(live, n) == SumOfBuckets(live[1..], n) + if Bucket(live[0].data) < n then live[0].space else 0
    decreases n
  {
    if n > 0 {
      OneMoreInBuckets(live, n - 1);
      assert ([live[0]] + InBucket(live[1..], n - 1))[1..] == InBucket(live[1..], n - 1);
    }
  }

  lemma {:induction false} EmptyBuckets(n: nat)
    ensures SumOfBuckets([], n) == 0
  {
    if n > 0 {
      EmptyBuckets(n - 1);
    }
  }

  /** The total over all buckets is the total over the collection. */
  lemma {:induction false} SumOverBuckets(live: seq<Rec>)
    ensures SumOfBuckets(live, HASH_SIZE) == Sum(live)
  {
    if live == [] {
      EmptyBuckets(HASH_SIZE);
    } else {
      OneMoreInBuckets(live, HASH_SIZE);
      SumOverBuckets(live[1..]);
    }
  }

  // ------------------------------------------------------------------ memory

  predicate Mapped(mem: map<int, byte>, lo: int, n: nat) {
    forall a :: lo <= a < lo + n ==> a in mem
  }

  /** memset, octet by octet. */
  function Fill(mem: map<int, byte>, lo: int, n: nat, v: byte): map<int, byte> {
    if n == 0 then mem else Fill(mem, lo, n - 1, v)[lo + n - 1 := v]
  }

  /** memory with the n octets from lo onwards set to v. */
  ghost predicate IsFilled(mem: map<int, byte>, lo: int, n: nat, v: byte, mem': map<int, byte>) {
    && (forall a :: a in mem' <==> a in mem || lo <= a < lo + n)
    && (forall a :: a in mem' ==> mem'[a] == if lo <= a < lo + n then v else mem[a])
  }

  lemma {:induction false} FillIs(mem: map<int, byte>, lo: int, n: nat, v: byte)
    ensures IsFilled(mem, lo, n, v, Fill(mem, lo, n, v))
    decreases n
  {
    if n > 0 {
      FillIs(mem, lo, n - 1, v);
    }
  }

  /** A copy of n octets, from lower to higher addresses, between ranges that do not overlap. */
  function Copy(mem: map<int, byte>, from: int, to: int, n: nat): map<int, byte>
    requires Mapped(mem, from, n)
  {
    if n == 0 then mem else Copy(mem, from, to, n - 1)[to + n - 1 := mem[from + n - 1]]
  }

  ghost predicate IsCopied(mem: map<int, byte>, from: int, to: int, n: nat, mem': map<int, byte>)
    requires Mapped(mem, from, n)
  {
    && (forall a :: a in mem' <==> a in mem || to <= a < to + n)
    && (forall a {:trigger mem'[a]} :: a in mem' ==>
          mem'[a] == if to <= a < to + n then mem[a - to + from] else mem[a])
  }

  lemma {:induction false} CopyIs(mem: map<int, byte>, from: int, to: int, n: nat)
    requires Mapped(mem, from, n)
    ensures IsCopied(mem, from, to, n, Copy(mem, from, to, n))
    decreases n
  {
    if n > 0 {
      CopyIs(mem, from, to, n - 1);
    }
  }

  /** malloc may return base for a request of n octets: not NULL, and clear of everything handed out. */
  predicate FreshRange(sys: map<nat, nat>, base: nat, n: nat) {
    base > 0 && base !in sys && forall p :: p in sys ==> p + sys[p] <= base || base + n <= p
  }

  lemma {:induction false} AboveAll(sys: map<nat, nat>, ps: set<nat>) returns (top: nat)
    requires ps <= sys.Keys
    ensures forall p :: p in ps ==> p + sys[p] <= top
    decreases ps
  {
    if ps == {} {
      top := 0;
    } else {
      var p :| p in ps;
      var t := AboveAll(sys, ps - {p});
      top := if p + sys[p] > t then p + sys[p] else t;
    }
  }

  /** malloc can always answer. */
  lemma FreshRangeExists(sys: map<nat, nat>, n: nat)
    ensures exists base :: FreshRange(sys, base, n)
  {
    var top := AboveAll(sys, sys.Keys);
    assert FreshRange(sys, top + 1, n);
  }

  predicate HasMargins(r: Rec) {
    r.margin <= r.data
  }

  /** The guards of r can be read. */
  predicate Guarded(mem: map<int, byte>, r: Rec) {
    HasMargins(r) && Mapped(mem, r.data - r.margin, r.margin) && Mapped(mem, r.data + r.space, r.margin)
  }

  /** The i-th octets of both guards hold the pattern. */
  predicate GuardHolds(mem: map<int, byte>, r: Rec, i: nat)
    requires Guarded(mem, r) && i < r.margin
  {
    mem[r.data + r.space + i] == PATTERN && mem[r.data - r.margin + i] == PATTERN
  }

  /** Both guards of a block still hold the pattern. */
  predicate GuardsIntact(mem: map<int, byte>, r: Rec)
    requires Guarded(mem, r)
  {
    forall i :: 0 <= i < r.margin ==> GuardHolds(mem, r, i)
  }

  // ------------------------------------------------------------------ the invariant

  /** A live block lies with its margins inside one range that malloc handed out. */
  ghost predicate Backed(h: Heap, r: Rec) {
    && r.needsFree && r.margin == MARGIN && r.data > MARGIN
    && r.data - MARGIN in h.sys && h.sys[r.data - MARGIN] == r.space + 2 * MARGIN
  }

  ghost predicate NoDuplicates(live: seq<Rec>) {
    forall i, j :: 0 <= i < j < |live| ==> live[i].data != live[j].data
  }

  ghost predicate Disjoint(sys: map<nat, nat>) {
    forall p, q :: p in sys && q in sys && p < q ==> p + sys[p] <= q
  }

  ghost predicate AllMapped(h: Heap) {
    forall p :: p in h.sys ==> Mapped(h.mem, p, h.sys[p])
  }

  ghost predicate Sound(h: Heap) {
    && (forall r :: r in h.live ==> Backed(h, r))
    && NoDuplicates(h.live)
    && Disjoint(h.sys)
    && AllMapped(h)
  }

  lemma BackedIsMapped(h: Heap, r: Rec)
    requires AllMapped(h) && Backed(h, r)
    ensures Guarded(h.mem, r) && Mapped(h.mem, r.data - MARGIN, r.space + 2 * MARGIN)
  {
    assert Mapped(h.mem, r.data - MARGIN, h.sys[r.data - MARGIN]);
  }

  /** Two live blocks are apart, margins included. */
  lemma BlocksAreApart(h: Heap, r: Rec, s: Rec)
    requires Sound(h) && r in h.live && s in h.live && r.data != s.data
    ensures r.data + r.space + MARGIN <= s.data - MARGIN || s.data + s.space + MARGIN <= r.data - MARGIN
  {
    assert Backed(h, r) && Backed(h, s);
  }

  lemma ComplaintIsSound(h: Heap, reports: seq<Report>)
    requires Sound(h)
    ensures Sound(h.(reports := reports))
  {
    assert forall r :: r in h.live ==> Backed(h, r);
  }

  lemma RemoveIsSound(h: Heap, address: nat)
    requires Sound(h)
    ensures Sound(h.(live := Remove(h.live, address)))
  {
    RemoveKeeps(h.live, address);
    forall r | r in Remove(h.live, address) ensures Backed(h.(live := Remove(h.live, address)), r) {
      assert Backed(h, r);
    }
  }

  lemma {:induction false} RemoveKeeps(live: seq<Rec>, address: nat)
    requires NoDuplicates(live)
    ensures NoDuplicates(Remove(live, address))
    ensures forall r :: r in Remove(live, address) <==> r in live && r.data != address
  {
    if live != [] {
      var tail, rest := live[1..], Remove(live[1..], address);
      assert Remove(live, address) == if live[0].data == address then tail else [live[0]] + rest;
      hide Remove;
      FirstIsUnique(live);
      if live[0].data != address {
        RemoveKeeps(tail, address);
        forall i | 0 <= i < |rest| ensures rest[i].data != live[0].data {
          assert rest[i] in tail;
        }
      }
    }
  }

  lemma FirstIsUnique(live: seq<Rec>)
    requires NoDuplicates(live) && live != []
    ensures NoDuplicates(live[1..])
    ensures forall r :: r in live[1..] ==> r.data != live[0].data
    ensures forall r :: r in live <==> r == live[0] || r in live[1..]
  {
    assert forall i :: 0 <= i < |live[1..]| ==> live[1..][i] == live[i + 1];
  }

  // ------------------------------------------------------------------ the operations

  /** Memory once the payload and both guards of a new block are written. */
  function FilledBlock(mem: map<int, byte>, bytes: nat, fill: byte, base: nat): map<int, byte> {
    Fill(Fill(Fill(mem, base + MARGIN, bytes, fill), base, MARGIN, PATTERN), base + MARGIN + bytes, MARGIN, PATTERN)
  }

  function SmartAlloc(h: Heap, bytes: nat, fill: byte, base: nat): Heap {
    Heap([Rec(base + MARGIN, bytes, true, MARGIN)] + h.live, h.sys[base := bytes + 2 * MARGIN],
         FilledBlock(h.mem, bytes, fill, base), h.reports)
  }

  /** freechecks followed by the two calls of free: complain if a guard was overwritten, then poison the payload. */
  function Release(h: Heap, r: Rec): Heap
    requires Guarded(h.mem, r)
  {
    h.(mem := Fill(h.mem, r.data, r.space, PATTERN),
       sys := if r.needsFree then h.sys - {r.data - r.margin} else h.sys,
       reports := if GuardsIntact(h.mem, r) then h.reports else h.reports + [PastBounds])
  }

  function SmartFree(h: Heap, address: nat): Heap
    requires AllMapped(h) && forall r :: r in h.live ==> Backed(h, r)
  {
    match First(h.live, address)
    case None => h.(reports := h.reports + [NonMalloced])
    case Some(r) =>
      BackedIsMapped(h, r);
      Release(h.(live := Remove(h.live, address)), r)
  }

  /** The conversion of an unsigned long to int that "int limit" implies. */
  function CInt(x: nat): int {
    var y := x % 0x1_0000_0000;
    if y < 0x8000_0000 then y else y - 0x1_0000_0000
  }

  function Min(a: nat, b: nat): nat {
    if a < b then a else b
  }

  /** How many octets the copying loop of smartrealloc moves. */
  function Copied(newSize: nat, oldSize: nat): (n: nat)
    ensures n <= Min(newSize, oldSize)
  {
    var limit := CInt(Min(newSize, oldSize));
    if limit > 0 then limit else 0
  }

  /** A new block, with as much of the contents of r as the loop copies. */
  function Transfer(h: Heap, r: Rec, size: nat, fill: byte, base: nat): (h': Heap)
    requires Mapped(h.mem, r.data, r.space)
    ensures forall a :: a in h.mem ==> a in h'.mem
  {
    var h1 := SmartAlloc(h, size, fill, base);
    AllocWrites(h.mem, size, fill, base);
    CopyIs(h1.mem, r.data, base + MARGIN, Copied(size, r.space));
    h1.(mem := Copy(h1.mem, r.data, base + MARGIN, Copied(size, r.space)))
  }

  /** The new heap and the address returned. */
  function SmartRealloc(h: Heap, ptr: nat, newSize: nat, fill: byte, base: nat): (Heap, nat)
    requires Sound(h) && FreshRange(h.sys, base, newSize + 2 * MARGIN)
  {
    if ptr == 0 then (SmartAlloc(h, newSize, fill, base), base + MARGIN)
    else
      match First(h.live, ptr)
      case None => (h.(reports := h.reports + [NonMalloced]), 0)
      case Some(r) =>
        BackedIsMapped(h, r);
        (Release(Transfer(h.(live := Remove(h.live, ptr)), r, newSize, fill, base), r), base + MARGIN)
  }

  /** The outcome of smartrealloc, for whatever fresh range malloc chose if it was asked at all. */
  ghost predicate Reallocated(h: Heap, ptr: nat, size: nat, fill: byte, p: nat, h': Heap)
    requires Sound(h)
  {
    if ptr == 0 || First(h.live, ptr).Some? then
      p > MARGIN && FreshRange(h.sys, p - MARGIN, size + 2 * MARGIN) &&
      (h', p) == SmartRealloc(h, ptr, size, fill, p - MARGIN)
    else
      p == 0 && h' == h.(reports := h.reports + [NonMalloced])
  }

  // ------------------------------------------------------------------ what they keep

  function AllocatedOctet(mem: map<int, byte>, bytes: nat, fill: byte, base: nat, a: int): byte {
    if base + MARGIN <= a < base + MARGIN + bytes then fill
    else if base <= a < base + bytes + 2 * MARGIN then PATTERN
    else if a in mem then mem[a]
    else 0
  }

  /** Nothing outside the new range changes; inside, the payload holds the fill octet between two guards. */
  ghost predicate Allocated(mem: map<int, byte>, bytes: nat, fill: byte, base: nat, mem': map<int, byte>) {
    && (forall a :: a in mem' <==> a in mem || base <= a < base + bytes + 2 * MARGIN)
    && (forall a :: a in mem' ==> mem'[a] == AllocatedOctet(mem, bytes, fill, base, a))
  }

  lemma AllocWrites(mem: map<int, byte>, bytes: nat, fill: byte, base: nat)
    ensures Allocated(mem, bytes, fill, base, FilledBlock(mem, bytes, fill, base))
  {
    var m1 := Fill(mem, base + MARGIN, bytes, fill);
    var m2 := Fill(m1, base, MARGIN, PATTERN);
    FillIs(mem, base + MARGIN, bytes, fill);
    FillIs(m1, base, MARGIN, PATTERN);
    FillIs(m2, base + MARGIN + bytes, MARGIN, PATTERN);
  }

  lemma AllocatedIsUnique(mem: map<int, byte>, junk: map<int, byte>, bytes: nat, fill: byte, base: nat,
                          m1: map<int, byte>, m2: map<int, byte>)
    requires forall a :: a in junk <==> a in mem || base <= a < base + bytes + 2 * MARGIN
    requires forall a :: a in mem && !(base <= a < base + bytes + 2 * MARGIN) ==> junk[a] == mem[a]
    requires Allocated(mem, bytes, fill, base, m1) && Allocated(junk, bytes, fill, base, m2)
    ensures m1 == m2
  {
    assert forall a :: a in m1 <==> a in m2;
    forall a | a in m1 ensures m1[a] == m2[a] {
      assert AllocatedOctet(mem, bytes, fill, base, a) == AllocatedOctet(junk, bytes, fill, base, a);
    }
  }

  /** What malloc left in the new range does not matter. */
  lemma AllocOverwrites(mem: map<int, byte>, junk: map<int, byte>, bytes: nat, fill: byte, base: nat)
    requires forall a :: a in junk <==> a in mem || base <= a < base + bytes + 2 * MARGIN
    requires forall a :: a in mem && !(base <= a < base + bytes + 2 * MARGIN) ==> junk[a] == mem[a]
    ensures FilledBlock(junk, bytes, fill, base) == FilledBlock(mem, bytes, fill, base)
  {
    AllocWrites(mem, bytes, fill, base);
    AllocWrites(junk, bytes, fill, base);
    AllocatedIsUnique(mem, junk, bytes, fill, base, FilledBlock(mem, bytes, fill, base),
                      FilledBlock(junk, bytes, fill, base));
  }

  lemma AllocIsFenced(mem: map<int, byte>, bytes: nat, fill: byte, base: nat, mem': map<int, byte>)
    requires Allocated(mem, bytes, fill, base, mem')
    ensures var r := Rec(base + MARGIN, bytes, true, MARGIN);
            Guarded(mem', r) && GuardsIntact(mem', r)
  {
    var r := Rec(base + MARGIN, bytes, true, MARGIN);
    forall i | 0 <= i < r.margin ensures Guarded(mem', r) && GuardHolds(mem', r, i) {
    }
  }

  lemma AllocIsBacked(h: Heap, bytes: nat, fill: byte, base: nat, mem: map<int, byte>)
    requires Sound(h) && FreshRange(h.sys, base, bytes + 2 * MARGIN)
    ensures var live := [Rec(base + MARGIN, bytes, true, MARGIN)] + h.live;
            var h' := Heap(live, h.sys[base := bytes + 2 * MARGIN], mem, h.reports);
            (forall r :: r in live ==> Backed(h', r)) && NoDuplicates(live) && Disjoint(h'.sys)
  {
    forall r | r in h.live ensures Backed(h, r) && r.data != base + MARGIN {
      assert Backed(h, r);
    }
  }

  lemma AllocIsSound(h: Heap, bytes: nat, fill: byte, base: nat)
    requires Sound(h) && FreshRange(h.sys, base, bytes + 2 * MARGIN)
    ensures Sound(SmartAlloc(h, bytes, fill, base))
    ensures First(h.live, base + MARGIN).None?
  {
    AllocWrites(h.mem, bytes, fill, base);
    AllocIsBacked(h, bytes, fill, base, SmartAlloc(h, bytes, fill, base).mem);
    AllocIsMapped(h, bytes, fill, base, SmartAlloc(h, bytes, fill, base));
    assert forall r :: r in h.live ==> Backed(h, r);
  }

  lemma AllocIsMapped(h: Heap, bytes: nat, fill: byte, base: nat, h': Heap)
    requires AllMapped(h) && base !in h.sys
    requires h'.sys == h.sys[base := bytes + 2 * MARGIN] && Allocated(h.mem, bytes, fill, base, h'.mem)
    ensures AllMapped(h')
  {
    forall p | p in h'.sys ensures Mapped(h'.mem, p, h'.sys[p]) {
      assert p in h.sys ==> Mapped(h.mem, p, h.sys[p]);
    }
  }

  lemma ReleaseIsSound(h: Heap, r: Rec)
    requires Sound(h.(live := [r] + h.live))
    ensures Guarded(h.mem, r) && Sound(Release(h, r))
  {
    var h0 := h.(live := [r] + h.live);
    assert r in h0.live && Backed(h0, r);
    BackedIsMapped(h, r);
    var h' := Release(h, r);
    FillIs(h.mem, r.data, r.space, PATTERN);
    forall s | s in h.live ensures Backed(h', s) {
      assert s in h0.live && Backed(h0, s);
      var i :| 0 <= i < |h.live| && h.live[i] == s;
      assert h0.live[i + 1].data != h0.live[0].data;
    }
    forall p | p in h'.sys ensures Mapped(h'.mem, p, h'.sys[p]) {
      assert Mapped(h.mem, p, h.sys[p]);
    }
    assert forall i :: 0 <= i < |h.live| ==> h.live[i] == h0.live[i + 1];
  }

  lemma Reordered(h: Heap, r: Rec)
    requires Sound(h) && First(h.live, r.data) == Some(r)
    ensures Sound(h.(live := [r] + Remove(h.live, r.data)))
  {
    RemoveKeeps(h.live, r.data);
    var live' := [r] + Remove(h.live, r.data);
    forall s | s in live' ensures Backed(h, s) {
      assert s in h.live;
    }
    forall i, j | 0 <= i < j < |live'| ensures live'[i].data != live'[j].data {
      assert live'[j] in Remove(h.live, r.data);
    }
  }

  lemma FreeIsSound(h: Heap, address: nat)
    requires Sound(h)
    ensures Sound(SmartFree(h, address))
    ensures First(SmartFree(h, address).live, address).None?
  {
    RemoveKeeps(h.live, address);
    SumOfRemove(h.live, address);
    if First(h.live, address).Some? {
      var r := First(h.live, address).value;
      Reordered(h, r);
      ReleaseIsSound(h.(live := Remove(h.live, address)), r);
    }
  }

  /** Soundness does not depend on the order of the newest two records, nor on what memory holds. */
  lemma SwappedIsSound(h: Heap, a: Rec, b: Rec, rest: seq<Rec>, mem: map<int, byte>)
    requires Sound(h) && h.live == [a] + ([b] + rest)
    requires forall x :: x in h.mem ==> x in mem
    ensures Sound(h.(live := [b] + ([a] + rest), mem := mem))
  {
    var live' := [b] + ([a] + rest);
    var h' := h.(live := live', mem := mem);
    forall s | s in live' ensures Backed(h', s) {
      assert s in h.live && Backed(h, s);
    }
    forall i, j | 0 <= i < j < |live'| ensures live'[i].data != live'[j].data {
      assert live'[i] == h.live[if i < 2 then 1 - i else i] && live'[j] == h.live[if j < 2 then 1 - j else j];
    }
    forall p | p in h'.sys ensures Mapped(h'.mem, p, h'.sys[p]) {
      assert Mapped(h.mem, p, h.sys[p]);
    }
  }

  /** The two blocks of a realloc, before the old one is released: both in order. */
  lemma TransferIsSound(h: Heap, r: Rec, size: nat, fill: byte, base: nat)
    requires Sound(h) && FreshRange(h.sys, base, size + 2 * MARGIN) && First(h.live, r.data) == Some(r)
    ensures Mapped(h.mem, r.data, r.space)
    ensures var h2 := Transfer(h.(live := Remove(h.live, r.data)), r, size, fill, base);
            Sound(h2.(live := [r] + h2.live))
  {
    assert Backed(h, r);
    BackedIsMapped(h, r);
    Reordered(h, r);
    var rest := Remove(h.live, r.data);
    var h0 := h.(live := [r] + rest);
    AllocIsSound(h0, size, fill, base);
    var g := SmartAlloc(h0, size, fill, base);
    var h1 := SmartAlloc(h.(live := rest), size, fill, base);
    var h2 := Transfer(h.(live := rest), r, size, fill, base);
    assert g == h1.(live := [h1.live[0]] + ([r] + rest));
    AllocWrites(h0.mem, size, fill, base);
    CopyIs(h1.mem, r.data, base + MARGIN, Copied(size, r.space));
    SwappedIsSound(g, h1.live[0], r, rest, h2.mem);
  }

  lemma ReallocIsSound(h: Heap, ptr: nat, newSize: nat, fill: byte, base: nat)
    requires Sound(h) && FreshRange(h.sys, base, newSize + 2 * MARGIN)
    ensures Sound(SmartRealloc(h, ptr, newSize, fill, base).0)
  {
    if ptr == 0 {
      AllocIsSound(h, newSize, fill, base);
    } else if First(h.live, ptr).Some? {
      var r := First(h.live, ptr).value;
      TransferIsSound(h, r, newSize, fill, base);
      ReleaseIsSound(Transfer(h.(live := Remove(h.live, ptr)), r, newSize, fill, base), r);
    }
  }

  // ------------------------------------------------------------------ what they leave alone

  /** No octet of a block that stays live changes, margins included. */
  ghost predicate Untouched(h: Heap, h': Heap, s: Rec) {
    && s in h'.live
    && forall a :: s.data - MARGIN <= a < s.data + s.space + MARGIN ==>
         a in h.mem && a in h'.mem && h'.mem[a] == h.mem[a]
  }

  lemma AllocLeavesOthers(h: Heap, bytes: nat, fill: byte, base: nat, s: Rec)
    requires Sound(h) && FreshRange(h.sys, base, bytes + 2 * MARGIN) && s in h.live
    ensures Untouched(h, SmartAlloc(h, bytes, fill, base), s)
  {
    AllocWrites(h.mem, bytes, fill, base);
    assert Backed(h, s);
    BackedIsMapped(h, s);
  }

  lemma ReleaseLeavesOthers(h: Heap, r: Rec, s: Rec)
    requires Sound(h.(live := [r] + h.live)) && Guarded(h.mem, r) && s in h.live
    ensures Untouched(h, Release(h, r), s)
  {
    var h0 := h.(live := [r] + h.live);
    var i :| 0 <= i < |h.live| && h.live[i] == s;
    assert h0.live[i + 1].data != h0.live[0].data;
    assert r in h0.live && s in h0.live;
    BlocksAreApart(h0, r, s);
    FillIs(h.mem, r.data, r.space, PATTERN);
    assert Backed(h0, s);
    BackedIsMapped(h, s);
  }

  lemma FreeLeavesOthers(h: Heap, address: nat, s: Rec)
    requires Sound(h) && s in h.live && s.data != address
    ensures Untouched(h, SmartFree(h, address), s)
  {
    assert Backed(h, s);
    BackedIsMapped(h, s);
    if First(h.live, address).Some? {
      var r := First(h.live, address).value;
      RemoveKeeps(h.live, address);
      Reordered(h, r);
      var rest := h.(live := Remove(h.live, address));
      ReleaseIsSound(rest, r);
      ReleaseLeavesOthers(rest, r, s);
    }
  }

  /** All that happens to memory and to the records when block r moves to a new block at p. */
  ghost predicate Moved(h: Heap, r: Rec, size: nat, fill: byte, p: nat, h': Heap) {
    && p > MARGIN
    && (p + size + MARGIN <= r.data - MARGIN || r.data + r.space + MARGIN <= p - MARGIN)
    && h'.live == [Rec(p, size, true, MARGIN)] + Remove(h.live, r.data)
    && (forall a :: a in h'.mem <==> a in h.mem || p - MARGIN <= a < p + size + MARGIN)
    && (forall a :: a in h'.mem ==> h'.mem[a] == MovedOctet(h.mem, r, size, fill, p, a))
  }

  function MovedOctet(mem: map<int, byte>, r: Rec, size: nat, fill: byte, p: nat, a: int): byte {
    if r.data <= a < r.data + r.space then PATTERN
    else if p <= a < p + Copied(size, r.space) && a - p + r.data in mem then mem[a - p + r.data]
    else if p <= a < p + size then fill
    else if p - MARGIN <= a < p + size + MARGIN then PATTERN
    else if a in mem then mem[a]
    else 0
  }

  /** Clear of block r, margins included. */
  predicate Clear(r: Rec, base: nat, size: nat) {
    base + size + 2 * MARGIN <= r.data - MARGIN || r.data + r.space + MARGIN <= base
  }

  function TransferredOctet(mem: map<int, byte>, r: Rec, size: nat, fill: byte, base: nat, a: int): byte {
    var p := base + MARGIN;
    if p <= a < p + Copied(size, r.space) && a - p + r.data in mem then mem[a - p + r.data]
    else if p <= a < p + size then fill
    else if base <= a < p + size + MARGIN then PATTERN
    else if a in mem then mem[a]
    else 0
  }

  /** Memory after the new block is set up and filled from r. */
  ghost predicate Transferred(mem: map<int, byte>, r: Rec, size: nat, fill: byte, base: nat, mem': map<int, byte>) {
    && (forall a :: a in mem' <==> a in mem || base <= a < base + size + 2 * MARGIN)
    && (forall a :: a in mem' ==> mem'[a] == TransferredOctet(mem, r, size, fill, base, a))
  }

  lemma CopyTransfers(mem: map<int, byte>, r: Rec, size: nat, fill: byte, base: nat, m1: map<int, byte>, n: nat)
    requires Mapped(mem, r.data, r.space) && Clear(r, base, size) && n == Copied(size, r.space)
    requires Allocated(mem, size, fill, base, m1)
    ensures Mapped(m1, r.data, r.space) && Transferred(mem, r, size, fill, base, Copy(m1, r.data, base + MARGIN, n))
  {
    assert Mapped(m1, r.data, r.space);
    CopyIs(m1, r.data, base + MARGIN, n);
    var m2 := Copy(m1, r.data, base + MARGIN, n);
    hide Copied, Copy;
    forall a | a in m2 ensures m2[a] == TransferredOctet(mem, r, size, fill, base, a) {
      TransferredAt(mem, r, size, fill, base, m1, n, m2, a);
    }
  }

  lemma TransferredAt(mem: map<int, byte>, r: Rec, size: nat, fill: byte, base: nat, m1: map<int, byte>, n: nat,
                      m2: map<int, byte>, a: int)
    requires Mapped(mem, r.data, r.space) && Clear(r, base, size) && n == Copied(size, r.space)
    requires Allocated(mem, size, fill, base, m1) && Mapped(m1, r.data, n)
    requires IsCopied(m1, r.data, base + MARGIN, n, m2) && a in m2
    ensures m2[a] == TransferredOctet(mem, r, size, fill, base, a)
  {
    hide Copied;
    if base + MARGIN <= a < base + MARGIN + n {
      var x := a - (base + MARGIN) + r.data;
      assert x in mem && m1[x] == AllocatedOctet(mem, size, fill, base, x) == mem[x];
    } else {
      assert m2[a] == m1[a] == AllocatedOctet(mem, size, fill, base, a);
    }
  }

  lemma TransferOctets(h: Heap, r: Rec, size: nat, fill: byte, base: nat)
    requires Mapped(h.mem, r.data, r.space) && Clear(r, base, size)
    ensures Transferred(h.mem, r, size, fill, base, Transfer(h, r, size, fill, base).mem)
  {
    AllocWrites(h.mem, size, fill, base);
    CopyTransfers(h.mem, r, size, fill, base, SmartAlloc(h, size, fill, base).mem, Copied(size, r.space));
  }

  /** Both ranges of the copying loop are in memory, and they do not overlap. */
  lemma TransferIsPossible(h: Heap, r: Rec, size: nat, fill: byte, base: nat)
    requires Mapped(h.mem, r.data, r.space) && Guarded(h.mem, r) && Clear(r, base, size)
    ensures var m, n := SmartAlloc(h, size, fill, base).mem, Copied(size, r.space);
            && Mapped(m, r.data, n) && Mapped(m, base + MARGIN, n)
            && (n > 0 ==> r.data + n <= base + MARGIN || base + MARGIN + n <= r.data)
    ensures var m := Transfer(h, r, size, fill, base).mem;
            Guarded(m, r) && Mapped(m, r.data, r.space)
  {
    AllocWrites(h.mem, size, fill, base);
    hide Copied, FilledBlock, Transfer;
  }

  /** The guards of a block read the same as long as memory changes only in a range clear of it. */
  lemma GuardsSurvive(mem: map<int, byte>, mem': map<int, byte>, r: Rec, base: nat, size: nat)
    requires Guarded(mem, r) && Clear(r, base, size) && r.margin == MARGIN
    requires forall a :: a in mem && !(base <= a < base + size + 2 * MARGIN) ==> a in mem' && mem'[a] == mem[a]
    ensures Guarded(mem', r) && GuardsIntact(mem', r) == GuardsIntact(mem, r)
  {
    assert forall a :: r.data - MARGIN <= a < r.data ==> a in mem && a in mem' && mem'[a] == mem[a];
    assert forall a :: r.data + r.space <= a < r.data + r.space + MARGIN ==> a in mem && a in mem' && mem'[a] == mem[a];
    forall i | 0 <= i < r.margin ensures GuardHolds(mem', r, i) == GuardHolds(mem, r, i) {
    }
  }

  lemma ReleaseMoves(h: Heap, r: Rec, size: nat, fill: byte, base: nat, h2: Heap)
    requires Guarded(h.mem, r) && Mapped(h.mem, r.data, r.space) && Clear(r, base, size) && base > 0 && r.margin == MARGIN
    requires h2.live == [Rec(base + MARGIN, size, true, MARGIN)] + Remove(h.live, r.data)
    requires Transferred(h.mem, r, size, fill, base, h2.mem)
    ensures Guarded(h2.mem, r) && GuardsIntact(h2.mem, r) == GuardsIntact(h.mem, r)
    ensures Moved(h, r, size, fill, base + MARGIN, Release(h2, r))
  {
    GuardsSurvive(h.mem, h2.mem, r, base, size);
    var h' := Release(h2, r);
    FillIs(h2.mem, r.data, r.space, PATTERN);
    hide GuardsIntact, Fill;
    forall a | a in h'.mem ensures h'.mem[a] == MovedOctet(h.mem, r, size, fill, base + MARGIN, a) {
      ReleasedAt(h.mem, r, size, fill, base, h2.mem, h'.mem, a);
    }
  }

  lemma ReleasedAt(mem: map<int, byte>, r: Rec, size: nat, fill: byte, base: nat, m2: map<int, byte>,
                   m3: map<int, byte>, a: int)
    requires Clear(r, base, size) && Transferred(mem, r, size, fill, base, m2)
    requires IsFilled(m2, r.data, r.space, PATTERN, m3) && a in m3
    ensures m3[a] == MovedOctet(mem, r, size, fill, base + MARGIN, a)
  {
    hide Copied;
    assert a in m2 ==> m2[a] == TransferredOctet(mem, r, size, fill, base, a);
  }

  lemma ReallocMoves(h: Heap, ptr: nat, size: nat, fill: byte, base: nat, r: Rec)
    requires Sound(h) && FreshRange(h.sys, base, size + 2 * MARGIN) && First(h.live, ptr) == Some(r)
    ensures SmartRealloc(h, ptr, size, fill, base).1 == base + MARGIN
    ensures Moved(h, r, size, fill, base + MARGIN, SmartRealloc(h, ptr, size, fill, base).0)
    ensures Guarded(h.mem, r) && Mapped(h.mem, r.data, r.space)
    ensures SmartRealloc(h, ptr, size, fill, base).0.reports ==
            h.reports + (if GuardsIntact(h.mem, r) then [] else [PastBounds])
  {
    ReallocIsRelease(h, ptr, size, fill, base, r);
    var h0 := h.(live := Remove(h.live, ptr));
    TransferOctets(h0, r, size, fill, base);
    ReleaseMoves(h, r, size, fill, base, Transfer(h0, r, size, fill, base));
  }

  lemma ReallocIsRelease(h: Heap, ptr: nat, size: nat, fill: byte, base: nat, r: Rec)
    requires Sound(h) && FreshRange(h.sys, base, size + 2 * MARGIN) && First(h.live, ptr) == Some(r)
    ensures Guarded(h.mem, r) && Mapped(h.mem, r.data, r.space) && Clear(r, base, size) && r.margin == MARGIN
    ensures var h2 := Transfer(h.(live := Remove(h.live, ptr)), r, size, fill, base);
            SmartRealloc(h, ptr, size, fill, base) == (Release(h2, r), base + MARGIN)
  {
    assert Backed(h, r);
    BackedIsMapped(h, r);
  }

  lemma MovedLeavesOthers(h: Heap, r: Rec, size: nat, fill: byte, p: nat, h': Heap, s: Rec)
    requires Sound(h) && r in h.live && s in h.live && s.data != r.data
    requires Moved(h, r, size, fill, p, h') && FreshRange(h.sys, p - MARGIN, size + 2 * MARGIN)
    ensures Untouched(h, h', s)
  {
    assert Backed(h, s);
    BackedIsMapped(h, s);
    RemoveKeeps(h.live, r.data);
    BlocksAreApart(h, r, s);
    forall a | s.data - MARGIN <= a < s.data + s.space + MARGIN
      ensures a in h.mem && a in h'.mem && h'.mem[a] == h.mem[a]
    {
      assert h'.mem[a] == MovedOctet(h.mem, r, size, fill, p, a);
    }
  }

  lemma ReallocLeavesOthers(h: Heap, ptr: nat, size: nat, fill: byte, base: nat, s: Rec)
    requires Sound(h) && FreshRange(h.sys, base, size + 2 * MARGIN) && s in h.live && s.data != ptr
    ensures Untouched(h, SmartRealloc(h, ptr, size, fill, base).0, s)
  {
    if ptr == 0 {
      AllocLeavesOthers(h, size, fill, base, s);
    } else if First(h.live, ptr).Some? {
      var r := First(h.live, ptr).value;
      ReallocMoves(h, ptr, size, fill, base, r);
      MovedLeavesOthers(h, r, size, fill, base + MARGIN, SmartRealloc(h, ptr, size, fill, base).0, s);
    } else {
      assert Backed(h, s);
      BackedIsMapped(h, s);
    }
  }

  // ------------------------------------------------------------------ realloc

  /** The old payload is poisoned, the new block is a different one and fenced, and the total changes by the difference
      of the sizes. */
  lemma MovedIsFenced(h: Heap, r: Rec, size: nat, fill: byte, p: nat, h': Heap)
    requires Moved(h, r, size, fill, p, h') && First(h.live, r.data) == Some(r) && Mapped(h.mem, r.data, r.space)
    ensures p != r.data
    ensures forall a :: r.data <= a < r.data + r.space ==> a in h'.mem && h'.mem[a] == PATTERN
    ensures Guarded(h'.mem, h'.live[0]) && GuardsIntact(h'.mem, h'.live[0])
    ensures Sum(h'.live) + r.space == Sum(h.live) + size
  {
    SumOfRemove(h.live, r.data);
    assert h'.live[1..] == Remove(h.live, r.data);
    var n := h'.live[0];
    forall i | 0 <= i < MARGIN ensures Guarded(h'.mem, n) && GuardHolds(h'.mem, n, i) {
    }
  }

  lemma CopiedAll(newSize: nat, oldSize: nat)
    ensures Copied(newSize, oldSize) == Min(newSize, oldSize) <==> Min(newSize, oldSize) < 0x8000_0000
  {
  }

  /** What the new payload holds: as much as the loop copied, and the fill octet. */
  lemma MovedPayload(h: Heap, r: Rec, size: nat, fill: byte, p: nat, h': Heap)
    requires Moved(h, r, size, fill, p, h') && Mapped(h.mem, r.data, r.space)
    ensures forall a :: p <= a < p + size ==>
              a in h'.mem && (a < p + Copied(size, r.space) ==> a - p + r.data in h.mem)
              && h'.mem[a] == if a < p + Copied(size, r.space) then h.mem[a - p + r.data] else fill
  {
    assert Copied(size, r.space) <= r.space && Copied(size, r.space) <= size;
    hide Copied;
    forall a | p <= a < p + size
      ensures a in h'.mem && (a < p + Copied(size, r.space) ==> a - p + r.data in h.mem)
      ensures h'.mem[a] == if a < p + Copied(size, r.space) then h.mem[a - p + r.data] else fill
    {
      assert a in h'.mem && h'.mem[a] == MovedOctet(h.mem, r, size, fill, p, a);
    }
  }

  /** The first min(old, new) octets survive, and the rest is the fill octet, whenever that minimum fits in a C int.
      Otherwise the octets that "limit" misses hold the fill octet, so that the contents survive only if they happened
      to consist of it. */
  lemma MovedContents(h: Heap, r: Rec, size: nat, fill: byte, p: nat, h': Heap)
    requires Moved(h, r, size, fill, p, h') && Mapped(h.mem, r.data, r.space)
    ensures var kept, copied := Min(size, r.space), Copied(size, r.space);
            && Mapped(h'.mem, p, size)
            && (forall a :: p + kept <= a < p + size ==> h'.mem[a] == fill)
            && ((forall a :: p <= a < p + kept ==> h'.mem[a] == h.mem[a - p + r.data]) <==>
                (kept < 0x8000_0000 || forall a :: r.data + copied <= a < r.data + kept ==> h.mem[a] == fill))
  {
    CopiedAll(size, r.space);
    var kept, copied := Min(size, r.space), Copied(size, r.space);
    assert copied <= kept <= size && kept <= r.space;
    MovedPayload(h, r, size, fill, p, h');
    hide Copied, Min, Moved;
    if forall a :: p <= a < p + kept ==> h'.mem[a] == h.mem[a - p + r.data] {
      forall a | r.data + copied <= a < r.data + kept ensures h.mem[a] == fill {
        assert h'.mem[a - r.data + p] == h.mem[a];
      }
    }
  }

  /** smartrealloc of a tracked block: a different block, the old contents as far as they fit and as far as their length
      fits in a C int, the fill octet after them, intact guards, a complaint exactly if a guard of the old block had been
      overwritten, a poisoned old payload, and a total changed by the difference of the sizes. */
  lemma ReallocContract(h: Heap, ptr: nat, size: nat, fill: byte, p: nat, h': Heap, r: Rec)
    requires Sound(h) && First(h.live, ptr) == Some(r) && Reallocated(h, ptr, size, fill, p, h')
    ensures p != ptr && h'.live == [Rec(p, size, true, MARGIN)] + Remove(h.live, ptr)
    ensures Mapped(h.mem, ptr, r.space) && Mapped(h'.mem, p, size)
    ensures var kept := Min(size, r.space);
            && (forall a :: p + kept <= a < p + size ==> h'.mem[a] == fill)
            && (kept < 0x8000_0000 ==> forall a :: p <= a < p + kept ==> h'.mem[a] == h.mem[a - p + ptr])
    ensures Guarded(h'.mem, h'.live[0]) && GuardsIntact(h'.mem, h'.live[0])
    ensures Guarded(h.mem, r) &&
            h'.reports == h.reports + (if GuardsIntact(h.mem, r) then [] else [PastBounds])
    ensures forall a :: ptr <= a < ptr + r.space ==> a in h'.mem && h'.mem[a] == PATTERN
    ensures Sum(h'.live) + r.space == Sum(h.live) + size
  {
    hide SmartRealloc, Sound, Moved, Reallocated, FreshRange;
    ReallocatedMoves(h, ptr, size, fill, p, h', r);
    MovedIsFenced(h, r, size, fill, p, h');
    MovedContents(h, r, size, fill, p, h');
    MovedRecords(h, r, size, fill, p, h');
  }

  lemma ReallocatedMoves(h: Heap, ptr: nat, size: nat, fill: byte, p: nat, h': Heap, r: Rec)
    requires Sound(h) && First(h.live, ptr) == Some(r) && Reallocated(h, ptr, size, fill, p, h')
    ensures Moved(h, r, size, fill, p, h') && Guarded(h.mem, r) && Mapped(h.mem, r.data, r.space)
    ensures h'.reports == h.reports + (if GuardsIntact(h.mem, r) then [] else [PastBounds])
  {
    hide SmartRealloc, Moved;
    assert Backed(h, r);
    ReallocMoves(h, ptr, size, fill, p - MARGIN, r);
  }

  lemma MovedRecords(h: Heap, r: Rec, size: nat, fill: byte, p: nat, h': Heap)
    requires Moved(h, r, size, fill, p, h')
    ensures h'.live == [Rec(p, size, true, MARGIN)] + Remove(h.live, r.data)
  {
  }

  // ------------------------------------------------------------------ runs

  /** What a program does with its heap. A poke writes one octet to any mapped address. */
  datatype Op =
    | Alloc(bytes: nat, fill: byte, base: nat)
    | Free(address: nat)
    | Realloc(ptr: nat, size: nat, fill: byte, base: nat)
    | Poke(address: nat, octet: byte)

  /** malloc answers with a fresh range, and pokes do not fault. */
  ghost predicate Allowed(h: Heap, op: Op) {
    match op
    case Alloc(bytes, _, base) => FreshRange(h.sys, base, bytes + 2 * MARGIN)
    case Free(_) => true
    case Realloc(_, size, _, base) => FreshRange(h.sys, base, size + 2 * MARGIN)
    case Poke(address, _) => address in h.mem
  }

  /** A poke that stays within the payload of a live block. */
  ghost predicate Confined(h: Heap, op: Op) {
    op.Poke? ==> exists r :: r in h.live && r.data <= op.address < r.data + r.space
  }

  function Do(h: Heap, op: Op): Heap
    requires Sound(h) && Allowed(h, op)
  {
    match op
    case Alloc(bytes, fill, base) => SmartAlloc(h, bytes, fill, base)
    case Free(address) => SmartFree(h, address)
    case Realloc(ptr, size, fill, base) => SmartRealloc(h, ptr, size, fill, base).0
    case Poke(address, octet) => h.(mem := h.mem[address := octet])
  }

  const EMPTY_HEAP := Heap([], map[], map[], [])

  ghost predicate IsRun(hs: seq<Heap>, ops: seq<Op>) {
    && |hs| == |ops| + 1
    && hs[0] == EMPTY_HEAP
    && forall i :: 0 <= i < |ops| ==> IsStep(hs[i], ops[i], hs[i + 1])
  }

  ghost predicate IsStep(h: Heap, op: Op, h': Heap) {
    Allowed(h, op) && (Sound(h) ==> h' == Do(h, op))
  }

  lemma StepIsSound(h: Heap, op: Op)
    requires Sound(h) && Allowed(h, op)
    ensures Sound(Do(h, op))
  {
    match op
    case Alloc(bytes, fill, base) => AllocIsSound(h, bytes, fill, base);
    case Free(address) => FreeIsSound(h, address);
    case Realloc(ptr, size, fill, base) => ReallocIsSound(h, ptr, size, fill, base);
    case Poke(address, octet) =>
      var h' := Do(h, op);
      forall r | r in h'.live ensures Backed(h', r) {
        assert Backed(h, r);
      }
      forall p | p in h'.sys ensures Mapped(h'.mem, p, h'.sys[p]) {
        assert Mapped(h.mem, p, h.sys[p]);
      }
  }

  /** In every run, at every moment: no address is tracked twice, live blocks are apart, and all of them are backed. */
  lemma {:induction false} RunIsSound(hs: seq<Heap>, ops: seq<Op>, i: nat)
    requires IsRun(hs, ops) && i < |hs|
    ensures Sound(hs[i])
  {
    if i > 0 {
      RunIsSound(hs, ops, i - 1);
      assert IsStep(hs[i - 1], ops[i - 1], hs[i]);
      StepIsSound(hs[i - 1], ops[i - 1]);
    }
  }

  // ------------------------------------------------------------------ what malloc handed out comes back

  /** Every range that malloc handed out and that was not given back belongs to a live block. */
  ghost predicate NoStray(h: Heap) {
    forall p {:trigger HasBlock(h.live, p)} :: p in h.sys ==> HasBlock(h.live, p)
  }

  predicate HasBlock(live: seq<Rec>, base: nat) {
    First(live, base + MARGIN).Some?
  }

  /** The range at p is the one of block r, margins included. */
  predicate IsRangeOf(sys: map<nat, nat>, p: nat, r: Rec) {
    p + MARGIN == r.data && p in sys && sys[p] == r.space + 2 * MARGIN
  }

  lemma AllocLeavesNoStray(h: Heap, bytes: nat, fill: byte, base: nat)
    requires NoStray(h)
    ensures NoStray(SmartAlloc(h, bytes, fill, base))
  {
    var h' := SmartAlloc(h, bytes, fill, base);
    assert h'.live[1..] == h.live;
    forall p | p in h'.sys ensures HasBlock(h'.live, p) {
      assert p in h.sys ==> HasBlock(h.live, p);
    }
  }

  lemma FreeLeavesNoStray(h: Heap, address: nat)
    requires Sound(h) && NoStray(h)
    ensures NoStray(SmartFree(h, address))
  {
    var h' := SmartFree(h, address);
    if First(h.live, address).Some? {
      assert Backed(h, First(h.live, address).value);
      forall p | p in h'.sys ensures HasBlock(h'.live, p) {
        assert HasBlock(h.live, p);
        OthersStay(h.live, address, p + MARGIN);
      }
    }
  }

  /** A block put in front of all but the one at ptr. */
  lemma BlocksMove(live: seq<Rec>, ptr: nat, r: Rec, p: nat)
    requires p + MARGIN == r.data || (p + MARGIN != ptr && HasBlock(live, p))
    ensures HasBlock([r] + Remove(live, ptr), p)
  {
    assert ([r] + Remove(live, ptr))[1..] == Remove(live, ptr);
    if p + MARGIN != ptr {
      OthersStay(live, ptr, p + MARGIN);
    }
  }

  lemma ReallocRanges(h: Heap, ptr: nat, size: nat, fill: byte, base: nat)
    requires Sound(h) && FreshRange(h.sys, base, size + 2 * MARGIN) && ptr != 0 && First(h.live, ptr).Some?
    ensures var h' := SmartRealloc(h, ptr, size, fill, base).0;
            && h'.live == [Rec(base + MARGIN, size, true, MARGIN)] + Remove(h.live, ptr)
            && h'.sys == h.sys[base := size + 2 * MARGIN] - {ptr - MARGIN}
  {
    ReallocIsRelease(h, ptr, size, fill, base, First(h.live, ptr).value);
    assert Backed(h, First(h.live, ptr).value);
    hide Sound;
  }

  lemma ReallocLeavesNoStray(h: Heap, ptr: nat, size: nat, fill: byte, base: nat)
    requires Sound(h) && FreshRange(h.sys, base, size + 2 * MARGIN) && NoStray(h)
    ensures NoStray(SmartRealloc(h, ptr, size, fill, base).0)
  {
    if ptr == 0 {
      AllocLeavesNoStray(h, size, fill, base);
    } else if First(h.live, ptr).Some? {
      var h' := SmartRealloc(h, ptr, size, fill, base).0;
      ReallocRanges(h, ptr, size, fill, base);
      hide Sound, First, SmartRealloc, FreshRange;
      forall p | p in h'.sys ensures HasBlock(h'.live, p) {
        assert p in h.sys ==> HasBlock(h.live, p);
        BlocksMove(h.live, ptr, h'.live[0], p);
      }
    }
  }

  lemma StepLeavesNoStray(h: Heap, op: Op)
    requires Sound(h) && Allowed(h, op) && NoStray(h)
    ensures NoStray(Do(h, op))
  {
    match op
    case Alloc(bytes, fill, base) => AllocLeavesNoStray(h, bytes, fill, base);
    case Free(address) => FreeLeavesNoStray(h, address);
    case Realloc(ptr, size, fill, base) => ReallocLeavesNoStray(h, ptr, size, fill, base);
    case Poke(_, _) => assert forall p :: p in h.sys ==> HasBlock(h.live, p);
  }

  /** Together with backing: the ranges are exactly those of the live blocks. */
  lemma RangesAreBlocks(h: Heap)
    requires Sound(h) && NoStray(h)
    ensures forall p :: p in h.sys <==> exists r :: r in h.live && IsRangeOf(h.sys, p, r)
    ensures h.live == [] ==> h.sys == map[]
  {
    hide Sound, NoStray, First;
    forall p | p in h.sys ensures exists r :: r in h.live && IsRangeOf(h.sys, p, r) {
      var r := BlockAt(h, p);
    }
  }

  lemma BlockAt(h: Heap, p: nat) returns (r: Rec)
    requires Sound(h) && NoStray(h) && p in h.sys
    ensures r in h.live && IsRangeOf(h.sys, p, r)
  {
    assert HasBlock(h.live, p);
    r := First(h.live, p + MARGIN).value;
    assert Backed(h, r);
  }

  lemma EmptyHasNoStray()
    ensures NoStray(EMPTY_HEAP)
  {
  }

  /** In every run, at every moment, what malloc has handed out and not got back is exactly the ranges of the live blocks,
      so nothing is left once all blocks are freed. */
  lemma {:induction false} NothingLeaks(hs: seq<Heap>, ops: seq<Op>, i: nat)
    requires IsRun(hs, ops) && i < |hs|
    ensures NoStray(hs[i])
    ensures forall p :: p in hs[i].sys <==> exists r :: r in hs[i].live && IsRangeOf(hs[i].sys, p, r)
    ensures hs[i].live == [] ==> hs[i].sys == map[]
  {
    hide Sound, NoStray, First, Do;
    RunIsSound(hs, ops, i);
    if i == 0 {
      EmptyHasNoStray();
    } else {
      NothingLeaks(hs, ops, i - 1);
      RunIsSound(hs, ops, i - 1);
      assert IsStep(hs[i - 1], ops[i - 1], hs[i]);
      StepLeavesNoStray(hs[i - 1], ops[i - 1]);
    }
    RangesAreBlocks(hs[i]);
  }

  /** Contents can indeed be lost: a block of 2^31 octets or more, none of them the fill octet, is reallocated to its own
      size, and what its last octet held is not in the new block. */
  lemma ContentsCanBeLost(n: nat, was: byte, fill: byte) returns (hs: seq<Heap>, ops: seq<Op>, p: nat, q: nat)
    requires n >= 0x8000_0000 && was != fill
    ensures p > MARGIN && q > MARGIN && ops == [Alloc(n, was, p - MARGIN), Realloc(p, n, fill, q - MARGIN)]
    ensures IsRun(hs, ops) && Sound(hs[1]) && Reallocated(hs[1], p, n, fill, q, hs[2])
    ensures First(hs[1].live, p) == Some(Rec(p, n, true, MARGIN))
    ensures Mapped(hs[1].mem, p, n) && forall a :: p <= a < p + n ==> hs[1].mem[a] == was
    ensures Mapped(hs[2].mem, q, n) && hs[2].mem[q + n - 1] == fill
  {
    p, q := 1 + MARGIN, n + 2 * MARGIN + 1 + MARGIN;
    var a, b := Alloc(n, was, p - MARGIN), Realloc(p, n, fill, q - MARGIN);
    var h1 := SmartAlloc(EMPTY_HEAP, n, was, p - MARGIN);
    FirstBlock(n, was, p - MARGIN);
    hide Sound, SmartAlloc, SmartRealloc, FilledBlock, Mapped;
    var h2 := LosingStep(h1, n, fill, p, q);
    assert IsStep(EMPTY_HEAP, a, h1) && IsStep(h1, b, h2);
    hs, ops := [EMPTY_HEAP, h1, h2], [a, b];
    TwoStepRun(EMPTY_HEAP, a, h1, b, h2);
  }

  lemma LosingStep(h: Heap, n: nat, fill: byte, p: nat, q: nat) returns (h': Heap)
    requires n >= 0x8000_0000 && p > MARGIN && q > MARGIN && FreshRange(h.sys, q - MARGIN, n + 2 * MARGIN)
    requires Sound(h) && First(h.live, p) == Some(Rec(p, n, true, MARGIN))
    ensures h' == SmartRealloc(h, p, n, fill, q - MARGIN).0 && Reallocated(h, p, n, fill, q, h')
    ensures Mapped(h'.mem, q, n) && h'.mem[q + n - 1] == fill
  {
    hide Sound, SmartRealloc, Moved;
    h' := SmartRealloc(h, p, n, fill, q - MARGIN).0;
    ReallocMoves(h, p, n, fill, q - MARGIN, Rec(p, n, true, MARGIN));
    LastOctetIsLost(h, Rec(p, n, true, MARGIN), n, fill, q, h');
  }

  lemma TwoStepRun(h0: Heap, a: Op, h1: Heap, b: Op, h2: Heap)
    requires h0 == EMPTY_HEAP && IsStep(h0, a, h1) && IsStep(h1, b, h2)
    ensures IsRun([h0, h1, h2], [a, b])
  {
    hide IsStep;
  }

  lemma FirstBlock(n: nat, fill: byte, base: nat)
    requires base > 0
    ensures var h := SmartAlloc(EMPTY_HEAP, n, fill, base);
            && Sound(EMPTY_HEAP) && Sound(h) && h.live == [Rec(base + MARGIN, n, true, MARGIN)]
            && h.sys == map[base := n + 2 * MARGIN]
            && Mapped(h.mem, base + MARGIN, n)
            && forall a :: base + MARGIN <= a < base + MARGIN + n ==> h.mem[a] == fill
  {
    AllocIsSound(EMPTY_HEAP, n, fill, base);
    AllocWrites(EMPTY_HEAP.mem, n, fill, base);
  }

  lemma LastOctetIsLost(h: Heap, r: Rec, size: nat, fill: byte, p: nat, h': Heap)
    requires Moved(h, r, size, fill, p, h') && Mapped(h.mem, r.data, r.space) && Min(size, r.space) >= 0x8000_0000
    ensures Mapped(h'.mem, p, size) && h'.mem[p + Min(size, r.space) - 1] == fill
  {
    CopiedAll(size, r.space);
  }

  ghost predicate AllGuardsIntact(h: Heap) {
    forall r :: r in h.live ==> Guarded(h.mem, r) && GuardsIntact(h.mem, r)
  }

  lemma UntouchedGuards(h: Heap, h': Heap, s: Rec)
    requires Sound(h) && s in h.live && Untouched(h, h', s)
    ensures Guarded(h.mem, s) && Guarded(h'.mem, s)
    ensures GuardsIntact(h'.mem, s) == GuardsIntact(h.mem, s)
  {
    assert Backed(h, s);
    forall i | 0 <= i < s.margin
      ensures Guarded(h.mem, s) && Guarded(h'.mem, s) && GuardHolds(h'.mem, s, i) == GuardHolds(h.mem, s, i)
    {
    }
  }

  /** What an operation other than a poke into it, or the end of its life, does to a live block: nothing. */
  lemma OpLeavesOthers(h: Heap, op: Op, s: Rec)
    requires Sound(h) && Allowed(h, op) && s in h.live
    requires op.Free? ==> op.address != s.data
    requires op.Realloc? ==> op.ptr != s.data
    requires op.Poke? ==> !(s.data - MARGIN <= op.address < s.data + s.space + MARGIN)
    ensures Untouched(h, Do(h, op), s)
  {
    match op
    case Alloc(bytes, fill, base) => AllocLeavesOthers(h, bytes, fill, base, s);
    case Free(address) => FreeLeavesOthers(h, address, s);
    case Realloc(ptr, size, fill, base) => ReallocLeavesOthers(h, ptr, size, fill, base, s);
    case Poke(address, octet) =>
      assert Backed(h, s);
      BackedIsMapped(h, s);
  }

  // ------------------------------------------------------------------ no false alarm, and none missed

  lemma AllocKeepsGuards(h: Heap, bytes: nat, fill: byte, base: nat)
    requires Sound(h) && FreshRange(h.sys, base, bytes + 2 * MARGIN) && AllGuardsIntact(h)
    ensures AllGuardsIntact(SmartAlloc(h, bytes, fill, base))
  {
    var h' := SmartAlloc(h, bytes, fill, base);
    AllocWrites(h.mem, bytes, fill, base);
    AllocIsFenced(h.mem, bytes, fill, base, h'.mem);
    forall s | s in h'.live ensures Guarded(h'.mem, s) && GuardsIntact(h'.mem, s) {
      if s in h.live {
        AllocLeavesOthers(h, bytes, fill, base, s);
        UntouchedGuards(h, h', s);
      }
    }
  }

  lemma FreeKeepsGuards(h: Heap, address: nat)
    requires Sound(h) && AllGuardsIntact(h)
    ensures AllGuardsIntact(SmartFree(h, address))
    ensures SmartFree(h, address).reports ==
            h.reports + if First(h.live, address).Some? then [] else [NonMalloced]
  {
    var h' := SmartFree(h, address);
    RemoveKeeps(h.live, address);
    forall s | s in h'.live ensures Guarded(h'.mem, s) && GuardsIntact(h'.mem, s) {
      if First(h.live, address).Some? {
        FreeLeavesOthers(h, address, s);
        UntouchedGuards(h, h', s);
      }
    }
  }

  lemma ReallocKeepsGuards(h: Heap, ptr: nat, size: nat, fill: byte, base: nat)
    requires Sound(h) && FreshRange(h.sys, base, size + 2 * MARGIN) && AllGuardsIntact(h)
    ensures AllGuardsIntact(SmartRealloc(h, ptr, size, fill, base).0)
    ensures SmartRealloc(h, ptr, size, fill, base).0.reports ==
            h.reports + if ptr == 0 || First(h.live, ptr).Some? then [] else [NonMalloced]
  {
    if ptr == 0 {
      AllocKeepsGuards(h, size, fill, base);
    } else if First(h.live, ptr).Some? {
      var r := First(h.live, ptr).value;
      var h' := SmartRealloc(h, ptr, size, fill, base).0;
      ReallocMoves(h, ptr, size, fill, base, r);
      MovedIsFenced(h, r, size, fill, base + MARGIN, h');
      RemoveKeeps(h.live, ptr);
      forall s | s in h'.live ensures Guarded(h'.mem, s) && GuardsIntact(h'.mem, s) {
        if s in Remove(h.live, ptr) {
          ReallocLeavesOthers(h, ptr, size, fill, base, s);
          UntouchedGuards(h, h', s);
        }
      }
    }
  }

  lemma PokeKeepsGuards(h: Heap, op: Op)
    requires Sound(h) && Allowed(h, op) && op.Poke? && Confined(h, op) && AllGuardsIntact(h)
    ensures AllGuardsIntact(Do(h, op))
  {
    var h' := Do(h, op);
    var r :| r in h.live && r.data <= op.address < r.data + r.space;
    forall s | s in h'.live ensures Guarded(h'.mem, s) && GuardsIntact(h'.mem, s) {
      PayloadIsNoGuard(h, r, s, op.address);
      hide Sound;
      forall i | 0 <= i < s.margin ensures Guarded(h'.mem, s) && GuardHolds(h'.mem, s, i) {
        assert GuardHolds(h.mem, s, i);
      }
    }
  }

  /** The payload of a live block lies outside the guards of all live blocks. */
  lemma PayloadIsNoGuard(h: Heap, r: Rec, s: Rec, address: int)
    requires Sound(h) && r in h.live && s in h.live && r.data <= address < r.data + r.space
    ensures Guarded(h.mem, s) && s.margin == MARGIN
    ensures !(s.data - MARGIN <= address < s.data) && !(s.data + s.space <= address < s.data + s.space + MARGIN)
  {
    if s.data != r.data {
      BlocksAreApart(h, r, s);
    }
    assert Backed(h, r) && Backed(h, s);
    BackedIsMapped(h, s);
  }

  /** The operation frees or reallocates an address that is not tracked. */
  predicate Misdirected(h: Heap, op: Op) {
    || (op.Free? && First(h.live, op.address).None?)
    || (op.Realloc? && op.ptr != 0 && First(h.live, op.ptr).None?)
  }

  lemma StepKeepsGuards(h: Heap, op: Op)
    requires Sound(h) && Allowed(h, op) && Confined(h, op) && AllGuardsIntact(h)
    ensures AllGuardsIntact(Do(h, op))
    ensures Do(h, op).reports == h.reports + if Misdirected(h, op) then [NonMalloced] else []
  {
    match op
    case Alloc(bytes, fill, base) => AllocKeepsGuards(h, bytes, fill, base);
    case Free(address) => FreeKeepsGuards(h, address);
    case Realloc(ptr, size, fill, base) => ReallocKeepsGuards(h, ptr, size, fill, base);
    case Poke(_, _) => PokeKeepsGuards(h, op);
  }

  /** As long as a program writes only to payloads of its live blocks, no free or realloc ever complains about bounds;
      what it complains about are exactly the addresses that are not tracked. */
  lemma {:induction false} NoFalseAlarm(hs: seq<Heap>, ops: seq<Op>, i: nat)
    requires IsRun(hs, ops) && i < |hs|
    requires forall k :: 0 <= k < i ==> Confined(hs[k], ops[k])
    ensures AllGuardsIntact(hs[i]) && PastBounds !in hs[i].reports
    ensures i > 0 ==> hs[i].reports == hs[i - 1].reports + if Misdirected(hs[i - 1], ops[i - 1]) then [NonMalloced] else []
  {
    if i > 0 {
      NoFalseAlarm(hs, ops, i - 1);
      RunIsSound(hs, ops, i - 1);
      assert IsStep(hs[i - 1], ops[i - 1], hs[i]);
      StepKeepsGuards(hs[i - 1], ops[i - 1]);
    }
  }

  /** Octet a of a guard of live block r no longer holds the pattern. */
  ghost predicate Damaged(h: Heap, r: Rec, a: int) {
    && r in h.live && a in h.mem && h.mem[a] != PATTERN
    && (r.data - MARGIN <= a < r.data || r.data + r.space <= a < r.data + r.space + MARGIN)
  }

  ghost predicate EndsLife(op: Op, r: Rec) {
    (op.Free? && op.address == r.data) || (op.Realloc? && op.ptr == r.data)
  }

  lemma DamageIsSeen(h: Heap, r: Rec, a: int)
    requires Sound(h) && Damaged(h, r, a)
    ensures First(h.live, r.data) == Some(r) && Guarded(h.mem, r) && !GuardsIntact(h.mem, r)
  {
    assert Backed(h, r);
    BackedIsMapped(h, r);
    OnlyOne(h.live, r);
    var i := if a < r.data then a - (r.data - r.margin) else a - (r.data + r.space);
    assert !GuardHolds(h.mem, r, i);
  }

  lemma OnlyOne(live: seq<Rec>, r: Rec)
    requires NoDuplicates(live) && r in live
    ensures First(live, r.data) == Some(r)
  {
    var s := First(live, r.data).value;
    var i :| 0 <= i < |live| && live[i] == r;
    var j :| 0 <= j < |live| && live[j] == s;
    assert i == j;
  }

  /** Whatever else the program does, a damaged guard stays damaged until that very octet is written again. */
  lemma {:induction false} DamageStays(hs: seq<Heap>, ops: seq<Op>, i: nat, j: nat, r: Rec, a: int)
    requires IsRun(hs, ops) && i <= j < |hs| && Damaged(hs[i], r, a)
    requires forall k :: i <= k < j ==> !EndsLife(ops[k], r) && !(ops[k].Poke? && ops[k].address == a)
    ensures Damaged(hs[j], r, a)
  {
    if i < j {
      DamageStays(hs, ops, i, j - 1, r, a);
      RunIsSound(hs, ops, j - 1);
      var h, op := hs[j - 1], ops[j - 1];
      assert IsStep(h, op, hs[j]);
      if op.Poke? {
        assert hs[j].live == h.live;
      } else {
        OpLeavesOthers(h, op, r);
      }
    }
  }

  /** So the free or realloc that ends the block's life complains, however long ago the damage was done. */
  lemma NoMissedAlarm(hs: seq<Heap>, ops: seq<Op>, i: nat, j: nat, r: Rec, a: int)
    requires IsRun(hs, ops) && i <= j < |ops| && Damaged(hs[i], r, a)
    requires forall k :: i <= k < j ==> !EndsLife(ops[k], r) && !(ops[k].Poke? && ops[k].address == a)
    requires EndsLife(ops[j], r)
    ensures hs[j + 1].reports == hs[j].reports + [PastBounds]
  {
    DamageStays(hs, ops, i, j, r, a);
    RunIsSound(hs, ops, j);
    DamageIsSeen(hs[j], r, a);
    assert IsStep(hs[j], ops[j], hs[j + 1]);
    if ops[j].Realloc? {
      assert Backed(hs[j], r);
      ReallocMoves(hs[j], r.data, ops[j].size, ops[j].fill, ops[j].base, r);
    }
  }

  // ------------------------------------------------------------------ what a step of a run does, octet by octet

  /** smartalloc: four octets 0x0A, the payload filled, and four octets 0x0A again, in a range that malloc had not handed
      out; the newest record is the one of the new block; nothing else changes. */
  lemma AllocContract(hs: seq<Heap>, ops: seq<Op>, i: nat, bytes: nat, fill: byte, base: nat)
    requires IsRun(hs, ops) && i < |ops| && ops[i] == Alloc(bytes, fill, base)
    ensures var h, h', p := hs[i], hs[i + 1], base + 4;
            && First(h.live, p).None? && h'.live == [Rec(p, bytes, true, 4)] + h.live
            && base !in h.sys && h'.sys == h.sys[base := bytes + 8]
            && (forall a :: a in h'.mem <==> a in h.mem || base <= a < p + bytes + 4)
            && (forall a :: p <= a < p + bytes ==> h'.mem[a] == fill)
            && (forall a :: base <= a < p || p + bytes <= a < p + bytes + 4 ==> h'.mem[a] == 0x0A)
            && (forall a :: a in h.mem && !(base <= a < p + bytes + 4) ==> h'.mem[a] == h.mem[a])
            && h'.reports == h.reports && Sum(h'.live) == Sum(h.live) + bytes
  {
    RunIsSound(hs, ops, i);
    assert IsStep(hs[i], ops[i], hs[i + 1]);
    AllocIsSound(hs[i], bytes, fill, base);
    AllocWrites(hs[i].mem, bytes, fill, base);
    assert hs[i + 1].live[1..] == hs[i].live;
    hide Sound, FilledBlock, First;
  }

  /** smartfree of a tracked block: every octet of the payload becomes 0x0A, and no other octet changes; its record and
      its range are gone, and the total is smaller by its size; there is a complaint exactly if one of the four octets on
      either side was not 0x0A. */
  lemma FreeContract(hs: seq<Heap>, ops: seq<Op>, i: nat, r: Rec)
    requires IsRun(hs, ops) && i < |ops| && ops[i] == Free(r.data) && First(hs[i].live, r.data) == Some(r)
    ensures var h, h' := hs[i], hs[i + 1];
            && (forall a :: r.data <= a < r.data + r.space ==> a in h'.mem && h'.mem[a] == 0x0A)
            && (forall a :: !(r.data <= a < r.data + r.space) ==> (a in h'.mem <==> a in h.mem))
            && (forall a :: a in h.mem && !(r.data <= a < r.data + r.space) ==> h'.mem[a] == h.mem[a])
            && (forall s :: s in h'.live <==> s in h.live && s != r) && First(h'.live, r.data).None?
            && r.data - 4 in h.sys && h'.sys == h.sys - {r.data - 4}
            && Sum(h.live) == Sum(h'.live) + r.space
    ensures var h, h' := hs[i], hs[i + 1];
            && (forall a :: r.data - 4 <= a < r.data || r.data + r.space <= a < r.data + r.space + 4 ==> a in h.mem)
            && h'.reports == h.reports +
               (if forall a :: r.data - 4 <= a < r.data || r.data + r.space <= a < r.data + r.space + 4 ==>
                     h.mem[a] == 0x0A
                then [] else [PastBounds])
  {
    RunIsSound(hs, ops, i);
    assert IsStep(hs[i], ops[i], hs[i + 1]);
    FreedPayload(hs[i], r);
    FreedRecord(hs[i], r);
    FreedGuards(hs[i], r);
    hide Sound, Backed, First, Release;
  }

  /** smartfree of any other address complains and does nothing else. */
  lemma StrayFreeContract(hs: seq<Heap>, ops: seq<Op>, i: nat, address: nat)
    requires IsRun(hs, ops) && i < |ops| && ops[i] == Free(address) && forall s :: s in hs[i].live ==> s.data != address
    ensures hs[i + 1] == hs[i].(reports := hs[i].reports + [NonMalloced])
  {
    RunIsSound(hs, ops, i);
    assert IsStep(hs[i], ops[i], hs[i + 1]);
  }

  lemma FreedPayload(h: Heap, r: Rec)
    requires Sound(h) && First(h.live, r.data) == Some(r)
    ensures var h' := SmartFree(h, r.data);
            && (forall a :: r.data <= a < r.data + r.space ==> a in h'.mem && h'.mem[a] == 0x0A)
            && (forall a :: !(r.data <= a < r.data + r.space) ==> (a in h'.mem <==> a in h.mem))
            && (forall a :: a in h.mem && !(r.data <= a < r.data + r.space) ==> h'.mem[a] == h.mem[a])
  {
    assert Backed(h, r);
    BackedIsMapped(h, r);
    FillIs(h.mem, r.data, r.space, PATTERN);
    hide Sound, Fill, First, Remove, GuardsIntact;
  }

  lemma FreedRecord(h: Heap, r: Rec)
    requires Sound(h) && First(h.live, r.data) == Some(r)
    ensures var h' := SmartFree(h, r.data);
            && (forall s :: s in h'.live <==> s in h.live && s != r) && First(h'.live, r.data).None?
            && r.data - 4 in h.sys && h'.sys == h.sys - {r.data - 4}
            && Sum(h.live) == Sum(h'.live) + r.space
  {
    FreeRanges(h, r);
    RemoveKeeps(h.live, r.data);
    SumOfRemove(h.live, r.data);
    FreeIsSound(h, r.data);
    OthersAreElsewhere(h.live, r);
    hide Sound, SmartFree, First, Remove, Sum, NoDuplicates;
  }

  lemma FreeRanges(h: Heap, r: Rec)
    requires Sound(h) && First(h.live, r.data) == Some(r)
    ensures SmartFree(h, r.data).live == Remove(h.live, r.data)
    ensures r.data - 4 in h.sys && SmartFree(h, r.data).sys == h.sys - {r.data - 4}
  {
    assert Backed(h, r);
    BackedIsMapped(h, r);
  }

  lemma OthersAreElsewhere(live: seq<Rec>, r: Rec)
    requires NoDuplicates(live) && r in live
    ensures forall s :: s in live ==> (s != r <==> s.data != r.data)
  {
  }

  lemma FreedGuards(h: Heap, r: Rec)
    requires Sound(h) && First(h.live, r.data) == Some(r)
    ensures forall a :: r.data - 4 <= a < r.data || r.data + r.space <= a < r.data + r.space + 4 ==> a in h.mem
    ensures SmartFree(h, r.data).reports == h.reports +
            if forall a :: r.data - 4 <= a < r.data || r.data + r.space <= a < r.data + r.space + 4 ==> h.mem[a] == 0x0A
            then [] else [PastBounds]
  {
    assert Backed(h, r);
    BackedIsMapped(h, r);
    IntactOctets(h.mem, r);
    hide Sound, First, Remove, GuardsIntact;
  }

  lemma IntactOctets(mem: map<int, byte>, r: Rec)
    requires Guarded(mem, r) && r.margin == 4
    ensures forall a :: r.data - 4 <= a < r.data || r.data + r.space <= a < r.data + r.space + 4 ==> a in mem
    ensures GuardsIntact(mem, r) <==>
            forall a :: r.data - 4 <= a < r.data || r.data + r.space <= a < r.data + r.space + 4 ==> mem[a] == 0x0A
  {
    if GuardsIntact(mem, r) {
      forall a | r.data - 4 <= a < r.data || r.data + r.space <= a < r.data + r.space + 4 ensures mem[a] == 0x0A {
        assert GuardHolds(mem, r, if a < r.data then a - (r.data - 4) else a - (r.data + r.space));
      }
    }
  }

  // ------------------------------------------------------------------ writing to live blocks

  /** The octets are in memory, from address lo onwards. */
  ghost predicate Holds(mem: map<int, byte>, lo: int, octets: seq<byte>) {
    Mapped(mem, lo, |octets|) && forall k :: 0 <= k < |octets| ==> mem[lo + k] == octets[k]
  }

  lemma PartHolds(mem: map<int, byte>, lo: int, octets: seq<byte>, i: nat, j: nat)
    requires Holds(mem, lo, octets) && i <= j <= |octets|
    ensures Holds(mem, lo + i, octets[i..j])
  {
    forall k | 0 <= k < j - i ensures mem[lo + i + k] == octets[i..j][k] {
      assert mem[lo + (i + k)] == octets[i + k];
    }
  }

  /** memory with octets written from address lo onwards, one by one. */
  function Written(mem: map<int, byte>, lo: int, octets: seq<byte>): map<int, byte> {
    if octets == [] then mem
    else
      var n := |octets| - 1;
      Written(mem, lo, octets[..n])[lo + n := octets[n]]
  }

  lemma {:induction false} WrittenHolds(mem: map<int, byte>, lo: int, octets: seq<byte>)
    ensures var mem' := Written(mem, lo, octets);
            && Holds(mem', lo, octets)
            && forall a :: a in mem && !(lo <= a < lo + |octets|) ==> a in mem' && mem'[a] == mem[a]
    decreases |octets|
  {
    if octets != [] {
      var n := |octets| - 1;
      WrittenHolds(mem, lo, octets[..n]);
      assert forall k :: 0 <= k < n ==> octets[..n][k] == octets[k];
    }
  }

  /** A poke into the payload of a live block breaks nothing. */
  lemma PokeIsClean(h: Heap, r: Rec, address: nat, octet: byte)
    requires Sound(h) && AllGuardsIntact(h) && NoStray(h) && r in h.live && r.data <= address < r.data + r.space
    ensures var h' := h.(mem := h.mem[address := octet]); Sound(h') && AllGuardsIntact(h') && NoStray(h')
    ensures address in h.mem
  {
    assert Backed(h, r);
    BackedIsMapped(h, r);
    StepIsSound(h, Poke(address, octet));
    PokeKeepsGuards(h, Poke(address, octet));
  }

  // ------------------------------------------------------------------ which blocks are live

  datatype Block = Block(addr: nat, size: nat)

  function Blocks(live: seq<Rec>): multiset<Block> {
    if live == [] then multiset{} else multiset{Block(live[0].data, live[0].space)} + Blocks(live[1..])
  }

  lemma {:induction false} BlockIsLive(live: seq<Rec>, b: Block)
    requires b in Blocks(live)
    ensures exists r :: r in live && r.data == b.addr && r.space == b.size
  {
    if b == Block(live[0].data, live[0].space) {
      assert live[0] in live;
    } else {
      BlockIsLive(live[1..], b);
    }
  }

  lemma {:induction false} BlocksOfRemove(live: seq<Rec>, address: nat)
    ensures match First(live, address)
            case Some(r) => Blocks(live) == Blocks(Remove(live, address)) + multiset{Block(r.data, r.space)}
            case None => true
  {
    if live != [] {
      BlocksOfRemove(live[1..], address);
      assert ([live[0]] + Remove(live[1..], address))[1..] == Remove(live[1..], address);
    }
  }

  /** Allocating adds one block, and freeing a live one takes away just that block, without complaint. */
  lemma AllocAddsBlock(h: Heap, bytes: nat, fill: byte, base: nat)
    requires Sound(h) && FreshRange(h.sys, base, bytes + 2 * MARGIN) && AllGuardsIntact(h) && NoStray(h)
    ensures var h' := SmartAlloc(h, bytes, fill, base);
            && AllGuardsIntact(h') && NoStray(h') && h'.reports == h.reports
            && Blocks(h'.live) == Blocks(h.live) + multiset{Block(base + MARGIN, bytes)}
            && Sum(h'.live) == Sum(h.live) + bytes
  {
    AllocKeepsGuards(h, bytes, fill, base);
    AllocLeavesNoStray(h, bytes, fill, base);
    assert SmartAlloc(h, bytes, fill, base).live[1..] == h.live;
  }

  lemma FreeTakesBlock(h: Heap, b: Block)
    requires Sound(h) && AllGuardsIntact(h) && NoStray(h) && b in Blocks(h.live)
    ensures var h' := SmartFree(h, b.addr);
            && AllGuardsIntact(h') && NoStray(h') && h'.reports == h.reports
            && Blocks(h.live) == Blocks(h'.live) + multiset{b}
            && Sum(h.live) == Sum(h'.live) + b.size
  {
    BlockIsLive(h.live, b);
    var r :| r in h.live && r.data == b.addr && r.space == b.size;
    OnlyOne(h.live, r);
    FreeKeepsGuards(h, b.addr);
    FreeLeavesNoStray(h, b.addr);
    BlocksOfRemove(h.live, b.addr);
    SumOfRemove(h.live, b.addr);
  }
}
