/** The tracking allocator of smartalloc.c, on a memory of octets and a malloc that may answer with any fresh range. */
module SmartAlloc {
  import opened Bytes
  import opened HeapSpec
  import opened Payloads
  import opened TrackTable
  import opened Wrappers

  class Allocator {
    const table: TrackTable
    var sys: map<nat, nat>
    var mem: map<int, byte>
    var reports: seq<Report>
    ghost var Repr: set<object>

    ghost function State(): Heap
      reads this, table
    {
      Heap(table.live, sys, mem, reports)
    }

    ghost predicate Valid()
      reads this, Repr
      ensures Valid() ==> this in Repr
    {
      && this in Repr && table in Repr && table.Repr <= Repr && this !in table.Repr
      && table.Valid()
      && Sound(State())
    }

    /** In order, no guard overwritten so far, and nothing kept from malloc but the live blocks. */
    ghost predicate Clean()
      reads this, Repr
      ensures Clean() ==> Valid()
    {
      Valid() && AllGuardsIntact(State()) && NoStray(State())
    }

    ghost function Tracked(): multiset<Block>
      reads table`live
    {
      Blocks(table.live)
    }

    /** The payloads of the live blocks, by address. */
    ghost function Payloads(): Image
      reads table`live, this`mem
    {
      PayloadsOf(table.live, mem)
    }

    ghost function Total(): nat
      reads table`live
    {
      Sum(table.live)
    }

    constructor ()
      ensures Clean() && fresh(Repr) && State() == EMPTY_HEAP
    {
      table := new TrackTable();
      sys, mem, reports := map[], map[], [];
      new;
      Repr := {this} + table.Repr;
    }

    // ---------------------------------------------------------------- the C library

    method Malloc(n: nat) returns (base: nat)
      modifies this`sys, this`mem
      ensures FreshRange(old(sys), base, n) && sys == old(sys)[base := n]
      ensures forall a :: a in mem <==> a in old(mem) || base <= a < base + n
      ensures forall a :: a in old(mem) && !(base <= a < base + n) ==> mem[a] == old(mem)[a]
    {
      FreshRangeExists(sys, n);
      base :| FreshRange(sys, base, n);
      sys, mem := sys[base := n], Fill(mem, base, n, 0);
      FillIs(old(mem), base, n, 0);
    }

    method Memset(lo: int, n: nat, v: byte)
      requires Mapped(mem, lo, n)
      modifies this`mem
      ensures mem == Fill(old(mem), lo, n, v) && mem.Keys == old(mem).Keys
    {
      var i := 0;
      while i < n
        invariant 0 <= i <= n
        invariant mem == Fill(old(mem), lo, i, v) && mem.Keys == old(mem).Keys
      {
        mem := mem[lo + i := v];
        i := i + 1;
      }
    }

    // ---------------------------------------------------------------- smartalloc and friends

    method Alloc(bytes: nat, fill: byte) returns (data: nat)
      requires Valid()
      modifies Repr
      ensures Valid() && fresh(Repr - old(Repr))
      ensures data > MARGIN && FreshRange(old(sys), data - MARGIN, bytes + 2 * MARGIN)
      ensures State() == HeapSpec.SmartAlloc(old(State()), bytes, fill, data - MARGIN)
    {
      hide Sound, FilledBlock, FreshRange, TrackTable.Valid;
      ghost var h := State();
      data := Obtain(bytes, fill);
      AllocIsSound(h, bytes, fill, data - MARGIN);
      table.Track(data, bytes, true, MARGIN);
      Repr := Repr + table.Repr;
    }

    /** The memory for a block, with its payload and guards set up. */
    method Obtain(bytes: nat, fill: byte) returns (data: nat)
      modifies this`sys, this`mem
      ensures data > MARGIN && FreshRange(old(sys), data - MARGIN, bytes + 2 * MARGIN)
      ensures sys == old(sys)[data - MARGIN := bytes + 2 * MARGIN]
      ensures mem == FilledBlock(old(mem), bytes, fill, data - MARGIN)
    {
      ghost var before := mem;
      data := Malloc(bytes + 2 * MARGIN);
      data := data + MARGIN;
      SetUp(data, bytes, fill, before);
    }

    /** The three memsets of smartalloc. */
    method SetUp(data: nat, bytes: nat, fill: byte, ghost before: map<int, byte>)
      requires data >= MARGIN
      requires forall a :: a in mem <==> a in before || data - MARGIN <= a < data + bytes + MARGIN
      requires forall a :: a in before && !(data - MARGIN <= a < data + bytes + MARGIN) ==> mem[a] == before[a]
      modifies this`mem
      ensures mem == FilledBlock(before, bytes, fill, data - MARGIN)
    {
      AllocOverwrites(before, mem, bytes, fill, data - MARGIN);
      hide Fill;
      Memset(data, bytes, fill);
      Memset(data - MARGIN, MARGIN, PATTERN);
      Memset(data + bytes, MARGIN, PATTERN);
    }

    /** smartfree and smartrealloc end with this: the guards are checked, the payload is overwritten, and both the
        block and its record are freed. */
    method Release(node: Track)
      requires Guarded(mem, node.Value()) && Mapped(mem, node.data, node.space)
      modifies this`mem, this`sys, this`reports
      ensures Heap(table.live, sys, mem, reports) == HeapSpec.Release(old(State()), old(node.Value()))
    {
      FreeChecks(node);
      if node.needsFree {
        sys := sys - {node.data - node.margin};
      }
    }

    method FreeChecks(check: Track)
      requires Guarded(mem, check.Value()) && Mapped(mem, check.data, check.space)
      modifies this`mem, this`reports
      ensures mem == Fill(old(mem), check.data, check.space, PATTERN)
      ensures reports == if GuardsIntact(old(mem), check.Value()) then old(reports) else old(reports) + [PastBounds]
    {
      var i := 0;
      while i < check.margin
        invariant 0 <= i <= check.margin
        invariant mem == old(mem) && reports == old(reports)
        invariant forall k :: 0 <= k < i ==> GuardHolds(mem, check.Value(), k)
      {
        if mem[check.data + check.space + i] != PATTERN || mem[check.data - check.margin + i] != PATTERN {
          assert !GuardHolds(mem, check.Value(), i);
          reports := reports + [PastBounds];
          break;
        }
        i := i + 1;
      }
      Memset(check.data, check.space, PATTERN);
    }

    method Free(address: nat)
      requires Valid()
      modifies Repr
      ensures Valid() && fresh(Repr - old(Repr))
      ensures State() == HeapSpec.SmartFree(old(State()), address)
    {
      ghost var h := State();
      FreeIsSound(h, address);
      var node := table.RemoveTrackNode(address);
      if node == null {
        reports := reports + [NonMalloced];
        SumOfRemove(h.live, address);
        return;
      }
      ghost var r := node.Value();
      assert Backed(h, r);
      BackedIsMapped(h, r);
      Release(node);
    }

    /** "*d++ = *s++", limit times. */
    method CopyLoop(from: int, to: int, limit: int)
      requires Mapped(mem, from, if limit > 0 then limit else 0) && Mapped(mem, to, if limit > 0 then limit else 0)
      requires limit > 0 ==> from + limit <= to || to + limit <= from
      modifies this`mem
      ensures mem == Copy(old(mem), from, to, if limit > 0 then limit else 0)
    {
      var left, s, d := limit, from, to;
      ghost var n := if limit > 0 then limit else 0;
      while left > 0
        invariant limit > 0 ==> 0 <= left <= limit
        invariant limit <= 0 ==> left == limit
        invariant s == from + (n - (if limit > 0 then left else 0)) && d == to + (s - from)
        invariant mem == Copy(old(mem), from, to, s - from)
      {
        CopyIs(old(mem), from, to, s - from);
        mem := mem[d := mem[s]];
        left, s, d := left - 1, s + 1, d + 1;
      }
    }

    method Realloc(ptr: nat, newSize: nat, fill: byte) returns (newMem: nat)
      requires Valid()
      modifies Repr
      ensures Valid() && fresh(Repr - old(Repr))
      ensures Reallocated(old(State()), ptr, newSize, fill, newMem, State())
    {
      if ptr == 0 {
        newMem := Alloc(newSize, fill);
      } else {
        newMem := ReallocTracked(ptr, newSize, fill);
      }
    }

    method ReallocTracked(ptr: nat, newSize: nat, fill: byte) returns (newMem: nat)
      requires Valid() && ptr != 0
      modifies Repr
      ensures Valid() && fresh(Repr - old(Repr))
      ensures Reallocated(old(State()), ptr, newSize, fill, newMem, State())
    {
      hide Sound, TrackTable.Valid, HeapSpec.SmartRealloc;
      ghost var h := State();
      var node := table.RemoveTrackNode(ptr);
      if node == null {
        ComplaintIsSound(h, reports + [NonMalloced]);
        reports := reports + [NonMalloced];
        assert Remove(h.live, ptr) == h.live by {
          SumOfRemove(h.live, ptr);
        }
        return 0;
      }
      RemoveIsSound(h, ptr);
      Repr := Repr - {node};
      newMem := Move(ptr, node, newSize, fill, h);
    }

    /** smartrealloc of a tracked block, once its record is off the table. */
    method Move(ptr: nat, node: Track, newSize: nat, fill: byte, ghost h: Heap) returns (newMem: nat)
      requires Valid() && node !in Repr && node !in table.Repr
      requires Sound(h) && First(h.live, ptr) == Some(node.Value()) && State() == h.(live := Remove(h.live, ptr))
      modifies Repr
      ensures Valid() && fresh(Repr - old(Repr))
      ensures newMem > MARGIN && FreshRange(h.sys, newMem - MARGIN, newSize + 2 * MARGIN)
      ensures ptr != 0 && (State(), newMem) == HeapSpec.SmartRealloc(h, ptr, newSize, fill, newMem - MARGIN)
    {
      hide TrackTable.Valid, HeapSpec.SmartRealloc;
      newMem := Alloc(newSize, fill);
      ReallocIsSound(h, ptr, newSize, fill, newMem - MARGIN);
      ghost var h' := HeapSpec.SmartRealloc(h, ptr, newSize, fill, newMem - MARGIN).0;
      MoveContents(node, ptr, newMem, newSize, fill, h);
      assert State() == h';
    }

    /** The end of a successful smartrealloc. */
    method MoveContents(node: Track, ptr: nat, newMem: nat, newSize: nat, fill: byte, ghost h: Heap)
      requires newMem >= MARGIN && Sound(h) && FreshRange(h.sys, newMem - MARGIN, newSize + 2 * MARGIN)
      requires First(h.live, ptr) == Some(node.Value())
      requires State() == HeapSpec.SmartAlloc(h.(live := Remove(h.live, ptr)), newSize, fill, newMem - MARGIN)
      modifies this`mem, this`sys, this`reports
      ensures ptr != 0 && (State(), newMem) == HeapSpec.SmartRealloc(h, ptr, newSize, fill, newMem - MARGIN)
    {
      ghost var r, h0 := node.Value(), h.(live := Remove(h.live, ptr));
      ReallocIsRelease(h, ptr, newSize, fill, newMem - MARGIN, r);
      assert ptr != 0 && Backed(h, r);
      TransferIsPossible(h0, r, newSize, fill, newMem - MARGIN);
      hide Mapped, Guarded, Sound, FreshRange, HeapSpec.SmartAlloc, HeapSpec.SmartRealloc, HeapSpec.Release;
      var limit := CInt(if newSize < node.space then newSize else node.space);
      assert Copied(newSize, r.space) == if limit > 0 then limit else 0;
      hide CInt, Copied;
      CopyLoop(ptr, newMem, limit);
      assert State() == Transfer(h0, r, newSize, fill, newMem - MARGIN);
      hide Transfer;
      Release(node);
    }

    /** An access to n octets of block b, from offset off onwards, is within a live block. */
    ghost predicate Accessible(b: Block, off: nat, n: nat)
      reads table`live
    {
      b in Tracked() && off + n <= b.size
    }

    /** An assignment to a field of a live block. */
    method Store(addr: nat, off: nat, octets: seq<byte>, ghost size: nat)
      requires Clean() && Accessible(Block(addr, size), off, |octets|)
      modifies this`mem
      ensures Clean()
      ensures Holds(mem, addr + off, octets) && Payloads() == WriteAt(old(Payloads()), addr, off, octets)
      ensures forall a :: a in old(mem) && !(addr + off <= a < addr + off + |octets|) ==>
                a in mem && mem[a] == old(mem)[a]
    {
      hide Sound, AllGuardsIntact, NoStray, TrackTable.Valid, PayloadsOf, WriteAt;
      BlockIsLive(table.live, Block(addr, size));
      ghost var r :| r in table.live && r.data == addr && r.space == size;
      NothingWritten(Payloads(), addr, off);
      var i := 0;
      ghost var before := Payloads();
      PayloadIsShown(Block(addr, size));
      while i < |octets|
        invariant 0 <= i <= |octets| && Clean()
        invariant mem == Written(old(mem), addr + off, octets[..i])
        invariant Payloads() == WriteAt(before, addr, off, octets[..i])
      {
        PokeIsClean(State(), r, addr + off + i, octets[i]);
        PokeShows(State(), r, addr + off + i, octets[i]);
        OneOctetMore(before, addr, off, octets, i);
        assert octets[..i + 1][..i] == octets[..i];
        mem := mem[addr + off + i := octets[i]];
        i := i + 1;
      }
      assert octets[..i] == octets;
      WrittenHolds(old(mem), addr + off, octets);
    }

    /** A live block shows a payload of its size. */
    lemma PayloadIsShown(b: Block)
      requires Clean() && b in Tracked()
      ensures b.addr in Payloads() && |Payloads()[b.addr]| == b.size
    {
      BlockIsLive(table.live, b);
      var r :| r in table.live && r.data == b.addr && r.space == b.size;
      IsFound(State(), r);
      IsLive(table.live, mem, b.addr);
    }

    /** smartalloc and smartfree, for a program that keeps within its blocks. */
    method AllocBlock(bytes: nat) returns (addr: nat)
      requires Clean()
      modifies Repr
      ensures Clean() && fresh(Repr - old(Repr)) && reports == old(reports)
      ensures Tracked() == old(Tracked()) + multiset{Block(addr, bytes)} && Total() == old(Total()) + bytes
      ensures addr !in old(Payloads()) && Payloads() == old(Payloads())[addr := Zeros(bytes)]
    {
      hide Sound, AllGuardsIntact, NoStray, FreshRange, HeapSpec.SmartAlloc, Blocks, Sum, TrackTable.Valid;
      ghost var h := State();
      addr := Alloc(bytes, 0);
      AllocAddsBlock(h, bytes, 0, addr - MARGIN);
      AllocShows(h, bytes, 0, addr - MARGIN);
      assert Zeros(bytes) == seq(bytes, _ => 0);
    }

    method FreeBlock(addr: nat, ghost bytes: nat)
      requires Clean() && Block(addr, bytes) in Tracked()
      modifies Repr
      ensures Clean() && fresh(Repr - old(Repr)) && reports == old(reports)
      ensures old(Tracked()) == Tracked() + multiset{Block(addr, bytes)} && old(Total()) == Total() + bytes
      ensures Payloads() == old(Payloads()) - {addr}
    {
      FreeTakesBlock(State(), Block(addr, bytes));
      FreeShows(State(), addr);
      Free(addr);
    }

    /** With no block left, malloc has got back all it handed out. */
    lemma NothingLeft()
      requires Clean() && Tracked() == multiset{}
      ensures sys == map[]
    {
      assert table.live == [];
      RangesAreBlocks(State());
    }

    method ReportSpace() returns (n: nat)
      requires Valid()
      ensures n == Sum(State().live)
    {
      n := table.total;
    }
  }
}
