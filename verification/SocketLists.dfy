/**
 The list of sockets, each with its own list of entries. ListOfLists/PathNode and
 ListOfFlows/FlowNode differ only in what identifies an entry, which is the type parameter here.

 The abstract value of such a structure is the sequence of its rows, in list order; it includes the
 address of the block that holds each node.
 */
module SocketLists {
  import opened Bytes
  import opened OpenFlow
  import opened HeapSpec
  import opened Wrappers

  datatype Entry<K> = Entry(key: K, port: uint16, addr: nat)

  datatype Row<K> = Row(socket: Sock, addr: nat, entries: seq<Entry<K>>)

  // ------------------------------------------------------------------ searching

  function RowIndex<K>(rows: seq<Row<K>>, socket: Sock): (i: nat)
    ensures i <= |rows|
    ensures forall j :: 0 <= j < i ==> rows[j].socket != socket
    ensures i < |rows| ==> rows[i].socket == socket
  {
    if rows == [] || rows[0].socket == socket then 0 else 1 + RowIndex(rows[1..], socket)
  }

  lemma RowIndexIs<K>(rows: seq<Row<K>>, socket: Sock, i: nat)
    requires i <= |rows| && forall j :: 0 <= j < i ==> rows[j].socket != socket
    requires i < |rows| ==> rows[i].socket == socket
    ensures RowIndex(rows, socket) == i
  {
    var k := RowIndex(rows, socket);
    hide RowIndex;
    assert k < |rows| ==> rows[k].socket == socket;
  }

  function EntryIndex<K(==)>(es: seq<Entry<K>>, key: K): (i: nat)
    ensures i <= |es|
    ensures forall j :: 0 <= j < i ==> es[j].key != key
    ensures i < |es| ==> es[i].key == key
  {
    if es == [] || es[0].key == key then 0 else 1 + EntryIndex(es[1..], key)
  }

  function PortIndex<K>(es: seq<Entry<K>>, port: uint16): (i: nat)
    ensures i <= |es|
    ensures forall j :: 0 <= j < i ==> es[j].port != port
    ensures i < |es| ==> es[i].port == port
  {
    if es == [] || es[0].port == port then 0 else 1 + PortIndex(es[1..], port)
  }

  /** The entries of the first row for socket. */
  function EntriesOf<K>(rows: seq<Row<K>>, socket: Sock): seq<Entry<K>> {
    var i := RowIndex(rows, socket);
    if i < |rows| then rows[i].entries else []
  }

  function Find<K(==)>(rows: seq<Row<K>>, socket: Sock, key: K): Option<uint16> {
    var es := EntriesOf(rows, socket);
    var j := EntryIndex(es, key);
    if j < |es| then Some(es[j].port) else None
  }

  /** What findNode and findPort answer. */
  function FindNode<K(==)>(rows: seq<Row<K>>, socket: Sock, key: K): int {
    if Find(rows, socket, key).Some? then 1 else 0
  }

  function FindPort<K(==)>(rows: seq<Row<K>>, socket: Sock, key: K): uint16 {
    match Find(rows, socket, key)
    case Some(p) => p
    case None => 0
  }

  // ------------------------------------------------------------------ adding and removing

  /** addPathNode and addFlowNode: nothing if the entry is there; otherwise the new entry goes to the front of the
      socket's row, and a missing row goes to the end of the list. */
  function Add<K(==)>(rows: seq<Row<K>>, socket: Sock, key: K, port: uint16, rowAddr: nat, addr: nat): seq<Row<K>> {
    var i := RowIndex(rows, socket);
    if Find(rows, socket, key).Some? then rows
    else if i < |rows| then rows[i := rows[i].(entries := [Entry(key, port, addr)] + rows[i].entries)]
    else rows + [Row(socket, rowAddr, [Entry(key, port, addr)])]
  }

  function Without<T>(s: seq<T>, i: nat): seq<T>
    requires i < |s|
  {
    s[..i] + s[i + 1..]
  }

  /** findRemoveNode: the first entry with the given port leaves the socket's row. */
  function RemoveByPort<K>(rows: seq<Row<K>>, socket: Sock, port: uint16): (Option<Entry<K>>, seq<Row<K>>) {
    var i, es := RowIndex(rows, socket), EntriesOf(rows, socket);
    var j := PortIndex(es, port);
    if j < |es| then (Some(es[j]), rows[i := rows[i].(entries := Without(es, j))]) else (None, rows)
  }

  lemma RemovedAt<K>(rows: seq<Row<K>>, socket: Sock, port: uint16)
    ensures var i := RowIndex(rows, socket);
            RemoveByPort(rows, socket, port) ==
            if i == |rows| then (None, rows)
            else
              var es := rows[i].entries;
              var j := PortIndex(es, port);
              if j == |es| then (None, rows) else (Some(es[j]), rows[i := rows[i].(entries := Without(es, j))])
  {
  }

  // ------------------------------------------------------------------ it is a map

  /** Sockets are distinct, and so are the keys within each row. */
  ghost predicate Distinct<K>(rows: seq<Row<K>>) {
    && (forall i, j :: 0 <= i < j < |rows| ==> rows[i].socket != rows[j].socket)
    && (forall i :: 0 <= i < |rows| ==> DistinctKeys(rows[i].entries))
  }

  ghost predicate DistinctKeys<K>(es: seq<Entry<K>>) {
    forall i, j :: 0 <= i < j < |es| ==> es[i].key != es[j].key
  }

  /** The rows hold exactly the bindings of m. */
  ghost predicate Represents<K(!new)>(rows: seq<Row<K>>, m: map<(Sock, K), uint16>) {
    forall s: Sock, k: K :: Find(rows, s, k) == if (s, k) in m then Some(m[(s, k)]) else None
  }

  /** The zero-filled sentinel stands for the empty map. */
  lemma SentinelIsEmpty<K(!new)>(addr: nat, m: map<(Sock, K), uint16>)
    requires m == map[]
    ensures Represents([Row(0, addr, [])], m) && Distinct<K>([Row(0, addr, [])])
  {
  }

  lemma AddFinds<K>(rows: seq<Row<K>>, socket: Sock, key: K, port: uint16, rowAddr: nat, addr: nat, s: Sock, k: K)
    ensures var rows' := Add(rows, socket, key, port, rowAddr, addr);
            Find(rows', s, k) == if Find(rows, socket, key).None? && s == socket && k == key then Some(port)
                                 else Find(rows, s, k)
  {
    if Find(rows, socket, key).None? {
      var es := EntriesOf(rows, s);
      AddedEntries(rows, socket, key, port, rowAddr, addr, s);
      hide EntriesOf, Add, RowIndex;
      if s == socket {
        assert ([Entry(key, port, addr)] + es)[1..] == es;
      } else {
        assert [] + es == es;
      }
    }
  }

  /** Only the row of socket changes: its entries have the new one in front. */
  lemma AddedEntries<K>(rows: seq<Row<K>>, socket: Sock, key: K, port: uint16, rowAddr: nat, addr: nat, s: Sock)
    requires Find(rows, socket, key).None?
    ensures EntriesOf(Add(rows, socket, key, port, rowAddr, addr), s) ==
            (if s == socket then [Entry(key, port, addr)] else []) + EntriesOf(rows, s)
  {
    var rows' := Add(rows, socket, key, port, rowAddr, addr);
    var i, i' := RowIndex(rows, s), RowIndex(rows', s);
    hide Find, EntryIndex;
    assert i < |rows| ==> rows'[i].socket == s;
    assert i' < |rows| ==> rows[i'].socket == s;
    assert |rows'| > |rows| ==> rows'[|rows|] == Row(socket, rowAddr, [Entry(key, port, addr)]);
    assert s == socket || i < |rows| ==> i' == i;
    var e, es := Entry(key, port, addr), EntriesOf(rows, s);
    assert [e] + [] == [e] && [] + es == es;
  }

  /** Adding binds a new key and leaves everything else, including an old binding of the key, as it was. */
  lemma AddRepresents<K(!new)>(rows: seq<Row<K>>, m: map<(Sock, K), uint16>, socket: Sock, key: K, port: uint16,
                               rowAddr: nat, addr: nat)
    requires Represents(rows, m)
    ensures Represents(Add(rows, socket, key, port, rowAddr, addr),
                       if (socket, key) in m then m else m[(socket, key) := port])
  {
    forall s: Sock, k: K
      ensures var m' := if (socket, key) in m then m else m[(socket, key) := port];
              Find(Add(rows, socket, key, port, rowAddr, addr), s, k)
              == if (s, k) in m' then Some(m'[(s, k)]) else None
    {
      AddFinds(rows, socket, key, port, rowAddr, addr, s, k);
      assert Find(rows, socket, key) == if (socket, key) in m then Some(m[(socket, key)]) else None;
    }
  }

  lemma AddKeepsDistinct<K>(rows: seq<Row<K>>, socket: Sock, key: K, port: uint16, rowAddr: nat, addr: nat)
    requires Distinct(rows)
    ensures Distinct(Add(rows, socket, key, port, rowAddr, addr))
  {
    if Find(rows, socket, key).None? {
      var i := RowIndex(rows, socket);
      if i < |rows| {
        assert DistinctKeys(rows[i].entries);
        assert EntryIndex(rows[i].entries, key) == |rows[i].entries|;
        assert DistinctKeys([Entry(key, port, addr)] + rows[i].entries);
      }
    }
  }

  /** Adding a new key: find or append the row, then put the entry first. */
  lemma AddInTwoSteps<K>(rows: seq<Row<K>>, rows1: seq<Row<K>>, socket: Sock, key: K, port: uint16,
                         rowAddr: nat, addr: nat)
    requires Find(rows, socket, key).None?
    requires rows1 == if RowIndex(rows, socket) < |rows| then rows else rows + [Row(socket, rowAddr, [])]
    ensures var i := RowIndex(rows, socket);
            && i < |rows1|
            && rows1[i := rows1[i].(entries := [Entry(key, port, addr)] + rows1[i].entries)]
               == Add(rows, socket, key, port, rowAddr, addr)
  {
    var e := Entry(key, port, addr);
    assert [e] + [] == [e];
  }

  /** Rows of other sockets, and their order, are not touched. */
  lemma AddKeepsOthers<K>(rows: seq<Row<K>>, socket: Sock, key: K, port: uint16, rowAddr: nat, addr: nat, i: nat)
    requires i < |rows| && rows[i].socket != socket
    ensures var rows' := Add(rows, socket, key, port, rowAddr, addr);
            |rows'| >= |rows| && rows'[i] == rows[i]
  {
  }

  // ------------------------------------------------------------------ removing by port, repeatedly

  function WithPort<K>(es: seq<Entry<K>>, port: uint16): seq<Entry<K>> {
    if es == [] then [] else (if es[0].port == port then [es[0]] else []) + WithPort(es[1..], port)
  }

  function WithoutPort<K>(es: seq<Entry<K>>, port: uint16): seq<Entry<K>> {
    if es == [] then [] else (if es[0].port != port then [es[0]] else []) + WithoutPort(es[1..], port)
  }

  lemma ByFirst<K>(es: seq<Entry<K>>, port: uint16)
    ensures es == [] ==> WithPort(es, port) == [] && WithoutPort(es, port) == []
    ensures es != [] ==>
              && WithPort(es, port) == (if es[0].port == port then [es[0]] else []) + WithPort(es[1..], port)
              && WithoutPort(es, port) == (if es[0].port == port then [] else [es[0]]) + WithoutPort(es[1..], port)
  {
  }

  lemma FirstStays<T>(s: seq<T>, i: nat)
    requires 0 < i < |s|
    ensures Without(s, i) != [] && Without(s, i)[0] == s[0] && Without(s, i)[1..] == Without(s[1..], i - 1)
  {
  }

  lemma {:induction false} RemovedIsFirst<K>(es: seq<Entry<K>>, port: uint16)
    ensures var j := PortIndex(es, port);
            if j < |es| then
              && WithPort(es, port) == [es[j]] + WithPort(Without(es, j), port)
              && WithoutPort(es, port) == WithoutPort(Without(es, j), port)
            else
              WithPort(es, port) == [] && WithoutPort(es, port) == es
  {
    hide WithPort, WithoutPort;
    var j := PortIndex(es, port);
    ByFirst(es, port);
    if 0 < j {
      RemovedIsFirst(es[1..], port);
      if j < |es| {
        FirstStays(es, j);
        ByFirst(Without(es, j), port);
      }
    } else if j < |es| {
      assert Without(es, 0) == es[1..];
    }
  }

  /** Calling findRemoveNode until it returns NULL. */
  function Drain<K>(rows: seq<Row<K>>, socket: Sock, port: uint16): (seq<Entry<K>>, seq<Row<K>>)
    decreases |EntriesOf(rows, socket)|
  {
    var (found, rest) := RemoveByPort(rows, socket, port);
    match found
    case None => ([], rows)
    case Some(e) =>
      RemoveShrinks(rows, socket, port);
      var (es, end) := Drain(rest, socket, port);
      ([e] + es, end)
  }

  lemma RemoveShrinks<K>(rows: seq<Row<K>>, socket: Sock, port: uint16)
    ensures var (found, rest) := RemoveByPort(rows, socket, port);
            && RowIndex(rest, socket) == RowIndex(rows, socket)
            && (found.Some? ==> |EntriesOf(rest, socket)| == |EntriesOf(rows, socket)| - 1)
  {
    var (found, rest) := RemoveByPort(rows, socket, port);
    var i, j := RowIndex(rows, socket), RowIndex(rest, socket);
    assert j < |rest| ==> rows[j].socket == socket;
    assert i < |rows| ==> rest[i].socket == socket;
  }

  /** It returns the entries with that port in list order, and so as many times as there are such entries; the other
      entries stay in order, and so do all other rows. */
  lemma {:induction false} DrainRemovesAll<K>(rows: seq<Row<K>>, socket: Sock, port: uint16)
    ensures Drain(rows, socket, port).0 == WithPort(EntriesOf(rows, socket), port)
    ensures EntriesOf(Drain(rows, socket, port).1, socket) == WithoutPort(EntriesOf(rows, socket), port)
    ensures |Drain(rows, socket, port).1| == |rows|
    ensures forall i :: 0 <= i < |rows| && i != RowIndex(rows, socket) ==> Drain(rows, socket, port).1[i] == rows[i]
    decreases |EntriesOf(rows, socket)|
  {
    var (found, rest) := RemoveByPort(rows, socket, port);
    RemovedIsFirst(EntriesOf(rows, socket), port);
    RemoveShrinks(rows, socket, port);
    if found.Some? {
      DrainRemovesAll(rest, socket, port);
    }
  }

  // ------------------------------------------------------------------ the blocks that hold the nodes

  /** How the structs lie in their blocks: sizeof of a row and of an entry, and where port and next are in an entry. The
      key comes first. */
  datatype Layout = Layout(row: nat, entry: nat, port: nat, next: nat)

  /** No field overlaps the next, or the end of the struct. */
  predicate Fits(layout: Layout) {
    layout.port + 2 <= layout.next && layout.next + PTR_LEN <= layout.entry && NEXT + PTR_LEN <= layout.row
  }

  const PTR_LEN: nat := 8

  /** In a row the socket comes first. */
  const HEAD: nat := 8
  const NEXT: nat := 16

  function EntryBlocks<K>(es: seq<Entry<K>>, size: nat): multiset<Block> {
    if es == [] then multiset{} else multiset{Block(es[0].addr, size)} + EntryBlocks(es[1..], size)
  }

  function RowBlocks<K>(rows: seq<Row<K>>, layout: Layout): multiset<Block> {
    if rows == [] then multiset{}
    else
      multiset{Block(rows[0].addr, layout.row)} + EntryBlocks(rows[0].entries, layout.entry) + RowBlocks(rows[1..], layout)
  }

  function EntrySpace<K>(es: seq<Entry<K>>, size: nat): nat {
    if es == [] then 0 else size + EntrySpace(es[1..], size)
  }

  function Space<K>(rows: seq<Row<K>>, layout: Layout): nat {
    if rows == [] then 0 else layout.row + EntrySpace(rows[0].entries, layout.entry) + Space(rows[1..], layout)
  }

  lemma NoBlocks<K>(layout: Layout)
    ensures RowBlocks<K>([], layout) == multiset{} && Space<K>([], layout) == 0
  {
  }

  lemma SentinelBlocks<K>(row: Row<K>, layout: Layout)
    requires row.entries == []
    ensures RowBlocks([row], layout) == multiset{Block(row.addr, layout.row)} && Space([row], layout) == layout.row
  {
    assert [row][1..] == [];
  }

  lemma FirstBlocks<K>(rows: seq<Row<K>>, layout: Layout)
    requires rows != []
    ensures Block(rows[0].addr, layout.row) in RowBlocks(rows, layout)
    ensures rows[0].entries != [] ==> Block(rows[0].entries[0].addr, layout.entry) in RowBlocks(rows, layout)
    ensures rows[0].entries == [] ==>
              && RowBlocks(rows, layout) == multiset{Block(rows[0].addr, layout.row)} + RowBlocks(rows[1..], layout)
              && Space(rows, layout) == layout.row + Space(rows[1..], layout)
  {
  }

  /** The blocks of the first row, and of any other. */
  lemma {:induction false} RowCounted<K>(rows: seq<Row<K>>, i: nat, layout: Layout)
    requires i < |rows|
    ensures Block(rows[i].addr, layout.row) in RowBlocks(rows, layout)
    ensures EntryBlocks(rows[i].entries, layout.entry) <= RowBlocks(rows, layout)
  {
    hide EntryBlocks;
    var first := multiset{Block(rows[0].addr, layout.row)};
    var entries, tail := EntryBlocks(rows[0].entries, layout.entry), RowBlocks(rows[1..], layout);
    assert RowBlocks(rows, layout) == first + entries + tail;
    hide RowBlocks;
    if i > 0 {
      RowCounted(rows[1..], i - 1, layout);
    }
  }

  lemma {:induction false} EntryCounted<K>(es: seq<Entry<K>>, j: nat, size: nat)
    requires j < |es|
    ensures Block(es[j].addr, size) in EntryBlocks(es, size)
  {
    if j > 0 {
      EntryCounted(es[1..], j - 1, size);
    }
  }

  lemma Exchanged(head: multiset<Block>, tail: multiset<Block>, old_: multiset<Block>, new_: multiset<Block>)
    ensures head + new_ + tail + old_ == head + old_ + tail + new_
  {
  }

  lemma Prefixed(head: multiset<Block>, r: multiset<Block>, r': multiset<Block>, e: multiset<Block>, e': multiset<Block>)
    requires r' + e == r + e'
    ensures head + r' + e == head + r + e'
  {
    assert head + r' + e == head + (r' + e) && head + r + e' == head + (r + e');
  }

  /** If r becomes r' where e becomes e', which has one block more, so has r'. */
  lemma OneMore(r: multiset<Block>, r': multiset<Block>, e: multiset<Block>, e': multiset<Block>, b: Block)
    requires r' + e == r + e' && e' == e + multiset{b}
    ensures r' == r + multiset{b}
  {
    forall x ensures r'[x] == (r + multiset{b})[x] {
      assert (r' + e)[x] == (r + e')[x];
    }
  }

  /** Other entries in row i: their blocks in place of the old ones. */
  lemma {:induction false} EntriesReplaced<K>(rows: seq<Row<K>>, i: nat, es: seq<Entry<K>>, layout: Layout)
    requires i < |rows|
    ensures var rows' := rows[i := rows[i].(entries := es)];
            && RowBlocks(rows', layout) + EntryBlocks(rows[i].entries, layout.entry)
               == RowBlocks(rows, layout) + EntryBlocks(es, layout.entry)
            && Space(rows', layout) + EntrySpace(rows[i].entries, layout.entry)
               == Space(rows, layout) + EntrySpace(es, layout.entry)
  {
    var rows' := rows[i := rows[i].(entries := es)];
    var first := multiset{Block(rows[0].addr, layout.row)};
    hide EntryBlocks, EntrySpace;
    if i == 0 {
      assert rows'[1..] == rows[1..];
      Exchanged(first, RowBlocks(rows[1..], layout), EntryBlocks(rows[0].entries, layout.entry),
                EntryBlocks(es, layout.entry));
    } else {
      EntriesReplaced(rows[1..], i - 1, es, layout);
      assert rows'[1..] == rows[1..][i - 1 := rows[i].(entries := es)];
      Prefixed(first + EntryBlocks(rows[0].entries, layout.entry), RowBlocks(rows[1..], layout),
               RowBlocks(rows'[1..], layout), EntryBlocks(rows[i].entries, layout.entry), EntryBlocks(es, layout.entry));
    }
  }

  lemma {:induction false} EntryTakenOut<K>(es: seq<Entry<K>>, j: nat, size: nat)
    requires j < |es|
    ensures EntryBlocks(es, size) == EntryBlocks(Without(es, j), size) + multiset{Block(es[j].addr, size)}
    ensures EntrySpace(es, size) == EntrySpace(Without(es, j), size) + size
  {
    if j == 0 {
      assert Without(es, j) == es[1..];
    } else {
      var rest := Without(es[1..], j - 1);
      EntryTakenOut(es[1..], j - 1, size);
      assert Without(es, j)[0] == es[0] && Without(es, j)[1..] == rest;
      var first := multiset{Block(es[0].addr, size)};
      assert first + (EntryBlocks(rest, size) + multiset{Block(es[j].addr, size)}) ==
             first + EntryBlocks(rest, size) + multiset{Block(es[j].addr, size)};
    }
  }

  /** One entry fewer in row i: one block fewer. */
  lemma EntryRemoved<K>(rows: seq<Row<K>>, i: nat, j: nat, layout: Layout)
    requires i < |rows| && j < |rows[i].entries|
    ensures var es := rows[i].entries;
            var rows' := rows[i := rows[i].(entries := Without(es, j))];
            && RowBlocks(rows, layout) == RowBlocks(rows', layout) + multiset{Block(es[j].addr, layout.entry)}
            && Space(rows, layout) == Space(rows', layout) + layout.entry
  {
    EntriesReplaced(rows, i, Without(rows[i].entries, j), layout);
    EntryTakenOut(rows[i].entries, j, layout.entry);
    var es := rows[i].entries;
    var rows' := rows[i := rows[i].(entries := Without(es, j))];
    OneMore(RowBlocks(rows', layout), RowBlocks(rows, layout), EntryBlocks(Without(es, j), layout.entry),
            EntryBlocks(es, layout.entry), Block(es[j].addr, layout.entry));
  }

  /** One more entry in row i: one more block. */
  lemma EntryAdded<K>(rows: seq<Row<K>>, i: nat, e: Entry<K>, layout: Layout)
    requires i < |rows|
    ensures var rows' := rows[i := rows[i].(entries := [e] + rows[i].entries)];
            && RowBlocks(rows', layout) == RowBlocks(rows, layout) + multiset{Block(e.addr, layout.entry)}
            && Space(rows', layout) == Space(rows, layout) + layout.entry
  {
    var es := [e] + rows[i].entries;
    EntriesReplaced(rows, i, es, layout);
    assert es[1..] == rows[i].entries;
    var rows' := rows[i := rows[i].(entries := es)];
    assert EntryBlocks(es, layout.entry) ==
           EntryBlocks(rows[i].entries, layout.entry) + multiset{Block(e.addr, layout.entry)};
    OneMore(RowBlocks(rows, layout), RowBlocks(rows', layout), EntryBlocks(rows[i].entries, layout.entry),
            EntryBlocks(es, layout.entry), Block(e.addr, layout.entry));
  }

  lemma {:induction false} RowAppended<K>(rows: seq<Row<K>>, r: Row<K>, layout: Layout)
    ensures RowBlocks(rows + [r], layout) ==
            RowBlocks(rows, layout) + (multiset{Block(r.addr, layout.row)} + EntryBlocks(r.entries, layout.entry))
    ensures Space(rows + [r], layout) == Space(rows, layout) + layout.row + EntrySpace(r.entries, layout.entry)
  {
    var more := multiset{Block(r.addr, layout.row)} + EntryBlocks(r.entries, layout.entry);
    hide EntryBlocks, EntrySpace;
    if rows == [] {
      assert (rows + [r])[1..] == [];
    } else {
      RowAppended(rows[1..], r, layout);
      assert (rows + [r])[1..] == rows[1..] + [r];
      var first := multiset{Block(rows[0].addr, layout.row)} + EntryBlocks(rows[0].entries, layout.entry);
      assert first + (RowBlocks(rows[1..], layout) + more) == first + RowBlocks(rows[1..], layout) + more;
    }
  }

  lemma OneEntry<K>(e: Entry<K>, size: nat)
    ensures EntryBlocks([e], size) == multiset{Block(e.addr, size)} && EntrySpace([e], size) == size
  {
    assert [e][1..] == [];
  }

  /** What adding costs: nothing for a known key, one block in a known row, two otherwise. */
  lemma AddBlocks<K>(rows: seq<Row<K>>, socket: Sock, key: K, port: uint16, rowAddr: nat, addr: nat, layout: Layout)
    ensures var rows' := Add(rows, socket, key, port, rowAddr, addr);
            var inRow := multiset{Block(addr, layout.entry)};
            if Find(rows, socket, key).Some? then
              rows' == rows
            else if RowIndex(rows, socket) < |rows| then
              && RowBlocks(rows', layout) == RowBlocks(rows, layout) + inRow
              && Space(rows', layout) == Space(rows, layout) + layout.entry
            else
              && RowBlocks(rows', layout) == RowBlocks(rows, layout) + multiset{Block(rowAddr, layout.row)} + inRow
              && Space(rows', layout) == Space(rows, layout) + layout.row + layout.entry
  {
    var e := Entry(key, port, addr);
    if Find(rows, socket, key).None? {
      if RowIndex(rows, socket) < |rows| {
        EntryAdded(rows, RowIndex(rows, socket), e, layout);
      } else {
        RowAppended(rows, Row(socket, rowAddr, [e]), layout);
        OneEntry(e, layout.entry);
      }
    }
  }
}
