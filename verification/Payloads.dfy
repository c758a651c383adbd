/** What a program sees of its heap: the payload of each live block, by address. */
module Payloads {
  import opened Bytes
  import opened HeapSpec
  import opened Wrappers

  type Image = map<nat, seq<byte>>

  function Octets(mem: map<int, byte>, lo: int, n: nat): (s: seq<byte>)
    ensures |s| == n
  {
    seq(n, i requires 0 <= i < n => if lo + i in mem then mem[lo + i] else 0)
  }

  function Addresses(live: seq<Rec>): set<nat> {
    set r | r in live :: r.data
  }

  function PayloadOf(live: seq<Rec>, mem: map<int, byte>, a: nat): seq<byte> {
    match First(live, a)
    case Some(r) => Octets(mem, a, r.space)
    case None => []
  }

  function PayloadsOf(live: seq<Rec>, mem: map<int, byte>): Image {
    map a | a in Addresses(live) :: PayloadOf(live, mem, a)
  }

  /** The payload at addr with octets written from offset off onwards, if they fit. */
  function WriteAt(image: Image, addr: nat, off: nat, octets: seq<byte>): Image {
    if addr in image && off + |octets| <= |image[addr]| then image[addr := Put(image[addr], off, octets)] else image
  }

  lemma IsLive(live: seq<Rec>, mem: map<int, byte>, a: nat)
    ensures a in PayloadsOf(live, mem) <==> First(live, a).Some?
    ensures First(live, a).Some? ==> PayloadsOf(live, mem)[a] == Octets(mem, a, First(live, a).value.space)
  {
    if First(live, a).Some? {
      assert First(live, a).value in live;
    }
  }

  lemma IsFound(h: Heap, r: Rec)
    requires Sound(h) && r in h.live
    ensures First(h.live, r.data) == Some(r)
  {
    OnlyOne(h.live, r);
  }

  /** What is shown is what lies in memory. */
  lemma ShownIsInMemory(h: Heap, a: nat)
    requires Sound(h) && a in PayloadsOf(h.live, h.mem)
    ensures Holds(h.mem, a, PayloadsOf(h.live, h.mem)[a])
  {
    hide Sound, PayloadsOf;
    IsLive(h.live, h.mem, a);
    IsMapped(h, First(h.live, a).value);
    hide First;
  }

  lemma IsMapped(h: Heap, r: Rec)
    requires Sound(h) && r in h.live
    ensures Mapped(h.mem, r.data, r.space)
  {
    assert Backed(h, r);
    BackedIsMapped(h, r);
  }

  lemma SameOctets(m: map<int, byte>, m': map<int, byte>, lo: int, n: nat)
    requires forall a :: lo <= a < lo + n ==> a in m && a in m' && m'[a] == m[a]
    ensures Octets(m', lo, n) == Octets(m, lo, n)
  {
  }

  /** An untouched block shows the same payload. */
  lemma SamePayload(h: Heap, h': Heap, s: Rec)
    requires Sound(h) && Sound(h') && s in h.live && Untouched(h, h', s)
    ensures s.data in PayloadsOf(h.live, h.mem) && s.data in PayloadsOf(h'.live, h'.mem)
    ensures PayloadsOf(h'.live, h'.mem)[s.data] == PayloadsOf(h.live, h.mem)[s.data]
  {
    OnlyOne(h.live, s);
    OnlyOne(h'.live, s);
    IsLive(h.live, h.mem, s.data);
    IsLive(h'.live, h'.mem, s.data);
    SameOctets(h.mem, h'.mem, s.data, s.space);
  }

  lemma OneDiffers(before: Image, after: Image, p: nat, payload: seq<byte>)
    requires p in after && after[p] == payload
    requires forall a :: a != p ==> (a in after <==> a in before)
    requires forall a :: a != p && a in before ==> after[a] == before[a]
    ensures after == before[p := payload]
  {
  }

  lemma OneIsGone(before: Image, after: Image, p: nat)
    requires p !in after
    requires forall a :: a != p ==> (a in after <==> a in before)
    requires forall a :: a != p && a in before ==> after[a] == before[a]
    ensures after == before - {p}
  {
  }

  /** smartalloc shows a new payload, filled as asked, and all others as before. */
  lemma AllocShows(h: Heap, bytes: nat, fill: byte, base: nat)
    requires Sound(h) && FreshRange(h.sys, base, bytes + 2 * MARGIN)
    ensures var h', p := SmartAlloc(h, bytes, fill, base), base + MARGIN;
            && p !in PayloadsOf(h.live, h.mem)
            && PayloadsOf(h'.live, h'.mem) == PayloadsOf(h.live, h.mem)[p := seq(bytes, _ => fill)]
  {
    hide Sound, First, PayloadsOf, SmartAlloc, FreshRange;
    var h', p := SmartAlloc(h, bytes, fill, base), base + MARGIN;
    AllocShowsItself(h, bytes, fill, base);
    forall a: nat | a != p
      ensures a in PayloadsOf(h'.live, h'.mem) <==> a in PayloadsOf(h.live, h.mem)
      ensures a in PayloadsOf(h.live, h.mem) ==> PayloadsOf(h'.live, h'.mem)[a] == PayloadsOf(h.live, h.mem)[a]
    {
      AllocShowsOther(h, bytes, fill, base, a);
    }
    OneDiffers(PayloadsOf(h.live, h.mem), PayloadsOf(h'.live, h'.mem), p, seq(bytes, _ => fill));
  }

  lemma AllocShowsItself(h: Heap, bytes: nat, fill: byte, base: nat)
    requires Sound(h) && FreshRange(h.sys, base, bytes + 2 * MARGIN)
    ensures var h', p := SmartAlloc(h, bytes, fill, base), base + MARGIN;
            && p !in PayloadsOf(h.live, h.mem) && p in PayloadsOf(h'.live, h'.mem)
            && PayloadsOf(h'.live, h'.mem)[p] == seq(bytes, _ => fill)
  {
    hide Sound, FreshRange, FilledBlock, PayloadsOf;
    var h', p := SmartAlloc(h, bytes, fill, base), base + MARGIN;
    AllocIsSound(h, bytes, fill, base);
    AllocWrites(h.mem, bytes, fill, base);
    IsLive(h.live, h.mem, p);
    IsLive(h'.live, h'.mem, p);
    hide First, SmartAlloc;
    assert Octets(h'.mem, p, bytes) == seq(bytes, _ => fill);
  }

  lemma AllocShowsOther(h: Heap, bytes: nat, fill: byte, base: nat, a: nat)
    requires Sound(h) && FreshRange(h.sys, base, bytes + 2 * MARGIN) && a != base + MARGIN
    ensures var h' := SmartAlloc(h, bytes, fill, base);
            && (a in PayloadsOf(h'.live, h'.mem) <==> a in PayloadsOf(h.live, h.mem))
            && (a in PayloadsOf(h.live, h.mem) ==>
                  PayloadsOf(h'.live, h'.mem)[a] == PayloadsOf(h.live, h.mem)[a])
  {
    var h' := SmartAlloc(h, bytes, fill, base);
    assert h'.live[1..] == h.live && First(h'.live, a) == First(h.live, a);
    IsLive(h.live, h.mem, a);
    IsLive(h'.live, h'.mem, a);
    if First(h.live, a).Some? {
      AllocIsSound(h, bytes, fill, base);
      AllocLeavesOthers(h, bytes, fill, base, First(h.live, a).value);
      SamePayload(h, h', First(h.live, a).value);
    }
  }

  /** smartfree takes away the payload it is asked to, and shows all others as before. */
  lemma FreeShows(h: Heap, address: nat)
    requires Sound(h)
    ensures var h' := SmartFree(h, address);
            PayloadsOf(h'.live, h'.mem) == PayloadsOf(h.live, h.mem) - {address}
  {
    var h' := SmartFree(h, address);
    hide Sound, First, PayloadsOf, AllMapped, Backed, SmartFree;
    FreeIsSound(h, address);
    IsLive(h'.live, h'.mem, address);
    forall a: nat | a != address
      ensures a in PayloadsOf(h'.live, h'.mem) <==> a in PayloadsOf(h.live, h.mem)
      ensures a in PayloadsOf(h.live, h.mem) ==> PayloadsOf(h'.live, h'.mem)[a] == PayloadsOf(h.live, h.mem)[a]
    {
      FreeShowsOther(h, address, a);
    }
    OneIsGone(PayloadsOf(h.live, h.mem), PayloadsOf(h'.live, h'.mem), address);
  }

  lemma FreeShowsOther(h: Heap, address: nat, a: nat)
    requires Sound(h) && a != address
    ensures var h' := SmartFree(h, address);
            && (a in PayloadsOf(h'.live, h'.mem) <==> a in PayloadsOf(h.live, h.mem))
            && (a in PayloadsOf(h.live, h.mem) ==>
                  PayloadsOf(h'.live, h'.mem)[a] == PayloadsOf(h.live, h.mem)[a])
  {
    var h' := SmartFree(h, address);
    OthersStay(h.live, address, a);
    IsLive(h.live, h.mem, a);
    IsLive(h'.live, h'.mem, a);
    if First(h.live, a).Some? {
      FreeIsSound(h, address);
      FreeLeavesOthers(h, address, First(h.live, a).value);
      SamePayload(h, h', First(h.live, a).value);
    }
  }

  /** A poke into a payload shows there, and nowhere else. */
  lemma PokeShows(h: Heap, r: Rec, x: nat, octet: byte)
    requires Sound(h) && r in h.live && r.data <= x < r.data + r.space
    ensures r.data in PayloadsOf(h.live, h.mem) && |PayloadsOf(h.live, h.mem)[r.data]| == r.space
    ensures PayloadsOf(h.live, h.mem[x := octet]) == WriteAt(PayloadsOf(h.live, h.mem), r.data, x - r.data, [octet])
  {
    hide Sound, First, PayloadsOf;
    var mem', before := h.mem[x := octet], PayloadsOf(h.live, h.mem);
    IsFound(h, r);
    IsLive(h.live, h.mem, r.data);
    IsLive(h.live, mem', r.data);
    assert Octets(mem', r.data, r.space) == Put(Octets(h.mem, r.data, r.space), x - r.data, [octet]);
    forall a: nat | a != r.data
      ensures a in PayloadsOf(h.live, mem') <==> a in before
      ensures a in before ==> PayloadsOf(h.live, mem')[a] == before[a]
    {
      PokeShowsOther(h, r, x, octet, a);
    }
    OneDiffers(before, PayloadsOf(h.live, mem'), r.data, Put(before[r.data], x - r.data, [octet]));
  }

  lemma PokeShowsOther(h: Heap, r: Rec, x: nat, octet: byte, a: nat)
    requires Sound(h) && r in h.live && r.data <= x < r.data + r.space && a != r.data
    ensures var mem' := h.mem[x := octet];
            && (a in PayloadsOf(h.live, mem') <==> a in PayloadsOf(h.live, h.mem))
            && (a in PayloadsOf(h.live, h.mem) ==>
                  PayloadsOf(h.live, mem')[a] == PayloadsOf(h.live, h.mem)[a])
  {
    hide Sound, PayloadsOf;
    var mem', s := h.mem[x := octet], First(h.live, a);
    IsLive(h.live, h.mem, a);
    IsLive(h.live, mem', a);
    hide First;
    if s.Some? {
      BlocksAreApart(h, r, s.value);
      assert Octets(mem', a, s.value.space) == Octets(h.mem, a, s.value.space);
    }
  }

  /** A longer write is one octet at a time. */
  lemma OneOctetMore(image: Image, addr: nat, off: nat, octets: seq<byte>, i: nat)
    requires addr in image && off + |octets| <= |image[addr]| && i < |octets|
    ensures WriteAt(image, addr, off, octets[..i + 1]) ==
            WriteAt(WriteAt(image, addr, off, octets[..i]), addr, off + i, [octets[i]])
  {
    var s := image[addr];
    assert Put(s, off, octets[..i + 1]) == Put(Put(s, off, octets[..i]), off + i, [octets[i]]);
  }

  lemma NothingWritten(image: Image, addr: nat, off: nat)
    ensures WriteAt(image, addr, off, []) == image
  {
    if addr in image && off <= |image[addr]| {
      assert Put(image[addr], off, []) == image[addr];
    }
  }
}
