/**
 How rows and nodes lie in the payloads of their blocks: every field, and every pointer from one block to the next, octet
 by octet. The key of a node comes first; what its octets are is a parameter.
 */
module Structs {
  import opened Bytes
  import opened Payloads
  import opened SocketLists

  /** The address of the j-th node, or NULL past the end. */
  function AddrAt<K>(es: seq<Entry<K>>, j: nat): nat {
    if j < |es| then es[j].addr else 0
  }

  function RowAddrAt<K>(rows: seq<Row<K>>, i: nat): nat {
    if i < |rows| then rows[i].addr else 0
  }

  predicate NodeFields<K>(s: seq<byte>, e: Entry<K>, next: nat, layout: Layout, octets: K -> seq<byte>) {
    && |s| == layout.entry && |octets(e.key)| <= layout.port && FieldIs(s, 0, octets(e.key))
    && FieldIs(s, layout.port, Le(e.port, 2)) && FieldIs(s, layout.next, Le(next, PTR_LEN))
  }

  predicate RowFields<K>(s: seq<byte>, row: Row<K>, head: nat, next: nat, layout: Layout) {
    && |s| == layout.row && FieldIs(s, 0, Le(row.socket % 0x1_0000_0000, 4)) && FieldIs(s, HEAD, Le(head, PTR_LEN))
    && FieldIs(s, NEXT, Le(next, PTR_LEN))
  }

  ghost predicate NodesOk<K>(image: Image, es: seq<Entry<K>>, layout: Layout, octets: K -> seq<byte>) {
    forall j :: 0 <= j < |es| ==> NodeOk(image, es, j, layout, octets)
  }

  predicate NodeOk<K>(image: Image, es: seq<Entry<K>>, j: nat, layout: Layout, octets: K -> seq<byte>)
    requires j < |es|
  {
    es[j].addr in image && NodeFields(image[es[j].addr], es[j], AddrAt(es, j + 1), layout, octets)
  }

  predicate RowOk<K>(image: Image, rows: seq<Row<K>>, i: nat, layout: Layout)
    requires i < |rows|
  {
    rows[i].addr in image
    && RowFields(image[rows[i].addr], rows[i], AddrAt(rows[i].entries, 0), RowAddrAt(rows, i + 1), layout)
  }

  function EntryAddrs<K>(es: seq<Entry<K>>): set<nat> {
    set j | 0 <= j < |es| :: es[j].addr
  }

  function RowAddrs<K>(row: Row<K>): set<nat> {
    {row.addr} + EntryAddrs(row.entries)
  }

  function Addrs<K>(rows: seq<Row<K>>): set<nat> {
    set i, a | 0 <= i < |rows| && a in RowAddrs(rows[i]) :: a
  }

  /** Within one row. */
  ghost predicate Alone<K>(row: Row<K>) {
    && row.addr !in EntryAddrs(row.entries)
    && forall i, j :: 0 <= i < j < |row.entries| ==> row.entries[i].addr != row.entries[j].addr
  }

  /** All rows and nodes are in blocks of their own. */
  ghost predicate Apart<K>(rows: seq<Row<K>>) {
    && (forall i :: 0 <= i < |rows| ==> Alone(rows[i]))
    && forall i, j :: 0 <= i < j < |rows| ==> RowAddrs(rows[i]) !! RowAddrs(rows[j])
  }

  ghost predicate RowsOk<K>(image: Image, rows: seq<Row<K>>, layout: Layout, octets: K -> seq<byte>) {
    && (forall i :: 0 <= i < |rows| ==> RowOk(image, rows, i, layout) && NodesOk(image, rows[i].entries, layout, octets))
    && Apart(rows)
  }

  // ------------------------------------------------------------------ fields

  lemma FieldSet(s: seq<byte>, off: nat, octets: seq<byte>)
    requires off + |octets| <= |s|
    ensures FieldIs(Put(s, off, octets), off, octets)
  {
  }

  lemma FieldKept(s: seq<byte>, at: nat, field: seq<byte>, off: nat, octets: seq<byte>)
    requires FieldIs(s, at, field) && off + |octets| <= |s| && (at + |field| <= off || off + |octets| <= at)
    ensures FieldIs(Put(s, off, octets), at, field)
  {
    forall k | 0 <= k < |field| ensures Put(s, off, octets)[at..at + |field|][k] == field[k] {
      assert s[at..at + |field|][k] == field[k];
    }
  }

  /** A node whose pointer is overwritten. */
  lemma NextSet<K>(s: seq<byte>, e: Entry<K>, old_: nat, next: nat, layout: Layout, octets: K -> seq<byte>)
    requires Fits(layout) && NodeFields(s, e, old_, layout, octets)
    ensures NodeFields(Put(s, layout.next, Le(next, PTR_LEN)), e, next, layout, octets)
  {
    FieldKept(s, 0, octets(e.key), layout.next, Le(next, PTR_LEN));
    FieldKept(s, layout.port, Le(e.port, 2), layout.next, Le(next, PTR_LEN));
    FieldSet(s, layout.next, Le(next, PTR_LEN));
    hide FieldIs;
  }

  /** A row whose head is overwritten. */
  lemma HeadSet<K>(s: seq<byte>, row: Row<K>, old_: nat, head: nat, next: nat, layout: Layout)
    requires Fits(layout) && RowFields(s, row, old_, next, layout)
    ensures RowFields(Put(s, HEAD, Le(head, PTR_LEN)), row, head, next, layout)
  {
    FieldKept(s, 0, Le(row.socket % 0x1_0000_0000, 4), HEAD, Le(head, PTR_LEN));
    FieldKept(s, NEXT, Le(next, PTR_LEN), HEAD, Le(head, PTR_LEN));
    FieldSet(s, HEAD, Le(head, PTR_LEN));
    hide FieldIs;
  }

  /** A row whose successor is overwritten. */
  lemma NextRowSet<K>(s: seq<byte>, row: Row<K>, head: nat, old_: nat, next: nat, layout: Layout)
    requires Fits(layout) && RowFields(s, row, head, old_, layout)
    ensures RowFields(Put(s, NEXT, Le(next, PTR_LEN)), row, head, next, layout)
  {
    FieldKept(s, 0, Le(row.socket % 0x1_0000_0000, 4), NEXT, Le(next, PTR_LEN));
    FieldKept(s, HEAD, Le(head, PTR_LEN), NEXT, Le(next, PTR_LEN));
    FieldSet(s, NEXT, Le(next, PTR_LEN));
    hide FieldIs;
  }

  // ------------------------------------------------------------------ what stays

  /** Whatever is not among the blocks of rows is the same afterwards, and not among those of rows'. */
  ghost predicate Keeps<K>(image: Image, rows: seq<Row<K>>, image': Image, rows': seq<Row<K>>) {
    forall a :: a in image && a !in Addrs(rows) ==> a in image' && image'[a] == image[a] && a !in Addrs(rows')
  }

  /** The same, but for the block at b. */
  ghost predicate KeepsBut<K>(image: Image, rows: seq<Row<K>>, image': Image, rows': seq<Row<K>>, b: nat) {
    forall a :: a in image && a !in Addrs(rows) && a != b ==>
      a in image' && image'[a] == image[a] && a !in Addrs(rows')
  }

  lemma KeepsItself<K>(image: Image, rows: seq<Row<K>>)
    ensures Keeps(image, rows, image, rows)
  {
  }

  /** Block b has been allocated first. */
  lemma KeepsFromAlloc<K>(im0: Image, image: Image, rows: seq<Row<K>>, image': Image, rows': seq<Row<K>>, b: nat)
    requires image - {b} == im0 && KeepsBut(image, rows, image', rows', b)
    ensures Keeps(im0, rows, image', rows')
  {
    hide Addrs;
    assert forall a :: a in im0 ==> a in image && a != b && image[a] == im0[a];
  }

  /** Block b, which was one of those of rows, is freed afterwards. */
  lemma KeepsThenFree<K>(image: Image, rows: seq<Row<K>>, image': Image, rows': seq<Row<K>>, b: nat)
    requires Keeps(image, rows, image', rows') && b in Addrs(rows)
    ensures Keeps(image, rows, image' - {b}, rows')
  {
    hide Addrs;
  }

  lemma KeepsTwice<K>(im0: Image, rows0: seq<Row<K>>, im1: Image, rows1: seq<Row<K>>, im2: Image, rows2: seq<Row<K>>)
    requires Keeps(im0, rows0, im1, rows1) && Keeps(im1, rows1, im2, rows2)
    ensures Keeps(im0, rows0, im2, rows2)
  {
    hide Addrs;
  }

  /** Rows are in order as long as their blocks stay as they are. */
  lemma SameRows<K>(image: Image, image': Image, rows: seq<Row<K>>, layout: Layout, octets: K -> seq<byte>)
    requires RowsOk(image, rows, layout, octets)
    requires forall a :: a in Addrs(rows) ==> a in image' && (a in image ==> image'[a] == image[a])
    ensures RowsOk(image', rows, layout, octets)
  {
    hide NodeFields, RowFields, Apart;
    forall i | 0 <= i < |rows|
      ensures RowOk(image', rows, i, layout) && NodesOk(image', rows[i].entries, layout, octets)
    {
      assert RowOk(image, rows, i, layout) && NodesOk(image, rows[i].entries, layout, octets);
      assert forall a :: a in RowAddrs(rows[i]) ==> a in Addrs(rows);
      hide Addrs;
      SameNodes(image, image', rows[i].entries, layout, octets);
    }
  }

  lemma SameNodes<K>(image: Image, image': Image, es: seq<Entry<K>>, layout: Layout, octets: K -> seq<byte>)
    requires NodesOk(image, es, layout, octets)
    requires forall a :: a in EntryAddrs(es) ==> a in image' && (a in image ==> image'[a] == image[a])
    ensures NodesOk(image', es, layout, octets)
  {
    hide NodeFields;
    forall j | 0 <= j < |es| ensures NodeOk(image', es, j, layout, octets) {
      assert NodeOk(image, es, j, layout, octets) && es[j].addr in EntryAddrs(es);
    }
  }

  /** Rows that are in order are in live blocks. */
  lemma AddrsAreLive<K>(image: Image, rows: seq<Row<K>>, layout: Layout, octets: K -> seq<byte>)
    requires RowsOk(image, rows, layout, octets)
    ensures Addrs(rows) <= image.Keys
  {
    hide NodeFields, RowFields, Apart;
    forall a | a in Addrs(rows) ensures a in image {
      var i :| 0 <= i < |rows| && a in RowAddrs(rows[i]);
      assert RowOk(image, rows, i, layout) && NodesOk(image, rows[i].entries, layout, octets);
      if a != rows[i].addr {
        var j :| 0 <= j < |rows[i].entries| && rows[i].entries[j].addr == a;
        assert NodeOk(image, rows[i].entries, j, layout, octets);
      }
    }
  }

  /** The other rows do not care about a change to the blocks of row i. */
  lemma OthersOk<K>(image: Image, image': Image, rows: seq<Row<K>>, i: nat, layout: Layout, octets: K -> seq<byte>)
    requires RowsOk(image, rows, layout, octets) && i < |rows|
    requires forall a :: a in image && a !in RowAddrs(rows[i]) ==> a in image' && image'[a] == image[a]
    ensures forall k :: 0 <= k < |rows| && k != i ==>
              RowOk(image', rows, k, layout) && NodesOk(image', rows[k].entries, layout, octets)
  {
    hide NodeFields, RowFields;
    forall k | 0 <= k < |rows| && k != i
      ensures RowOk(image', rows, k, layout) && NodesOk(image', rows[k].entries, layout, octets)
    {
      assert RowOk(image, rows, k, layout) && NodesOk(image, rows[k].entries, layout, octets);
      assert RowAddrs(rows[k]) !! RowAddrs(rows[i]);
      forall a | a in EntryAddrs(rows[k].entries) ensures a in image' && (a in image ==> image'[a] == image[a]) {
        assert a in RowAddrs(rows[k]);
        var j :| 0 <= j < |rows[k].entries| && rows[k].entries[j].addr == a;
        assert NodeOk(image, rows[k].entries, j, layout, octets);
      }
      SameNodes(image, image', rows[k].entries, layout, octets);
      assert rows[k].addr in RowAddrs(rows[k]);
    }
  }

  /** Another list, in other blocks, does not notice. */
  lemma OthersKept<K, L>(image: Image, rows: seq<Row<K>>, image': Image, rows': seq<Row<K>>, others: seq<Row<L>>,
                         layout: Layout, octets: L -> seq<byte>)
    requires Keeps(image, rows, image', rows') && RowsOk(image, others, layout, octets) && Addrs(others) !! Addrs(rows)
    ensures RowsOk(image', others, layout, octets) && Addrs(others) !! Addrs(rows')
  {
    AddrsAreLive(image, others, layout, octets);
    hide Addrs;
    assert forall a :: a in Addrs(others) ==> a in image && a !in Addrs(rows);
    SameRows(image, image', others, layout, octets);
    hide RowsOk;
  }

  // ------------------------------------------------------------------ a change to one row

  /** Row i gets other nodes: those it had, or new ones. */
  lemma RowSet<K>(image: Image, image': Image, rows: seq<Row<K>>, i: nat, es: seq<Entry<K>>, layout: Layout,
                  octets: K -> seq<byte>)
    requires RowsOk(image, rows, layout, octets) && i < |rows|
    requires forall a :: a in image && a !in RowAddrs(rows[i]) ==> a in image' && image'[a] == image[a]
    requires rows[i].addr in image'
    requires RowFields(image'[rows[i].addr], rows[i].(entries := es), AddrAt(es, 0), RowAddrAt(rows, i + 1), layout)
    requires NodesOk(image', es, layout, octets) && Alone(rows[i].(entries := es))
    requires forall a :: a in EntryAddrs(es) ==> a in EntryAddrs(rows[i].entries) || a !in Addrs(rows)
    ensures RowsOk(image', rows[i := rows[i].(entries := es)], layout, octets)
  {
    hide RowFields, NodeFields, NodeOk;
    var rows' := rows[i := rows[i].(entries := es)];
    assert Apart(rows') by {
      RowSetApart(rows, i, es);
    }
    OthersOk(image, image', rows, i, layout, octets);
    hide Apart, Alone, Addrs, RowAddrs, EntryAddrs;
    forall k | 0 <= k < |rows'|
      ensures RowOk(image', rows', k, layout) && NodesOk(image', rows'[k].entries, layout, octets)
    {
      assert RowAddrAt(rows', k + 1) == RowAddrAt(rows, k + 1);
      assert k != i ==> RowOk(image', rows, k, layout);
    }
  }

  lemma RowSetApart<K>(rows: seq<Row<K>>, i: nat, es: seq<Entry<K>>)
    requires Apart(rows) && i < |rows| && Alone(rows[i].(entries := es))
    requires forall a :: a in EntryAddrs(es) ==> a in EntryAddrs(rows[i].entries) || a !in Addrs(rows)
    ensures Apart(rows[i := rows[i].(entries := es)])
  {
    hide Alone, EntryAddrs;
    var rows' := rows[i := rows[i].(entries := es)];
    assert forall k, a :: 0 <= k < |rows| && a in RowAddrs(rows[k]) ==> a in Addrs(rows);
    forall k, l | 0 <= k < l < |rows'| ensures RowAddrs(rows'[k]) !! RowAddrs(rows'[l]) {
      assert RowAddrs(rows[k]) !! RowAddrs(rows[l]);
    }
  }

  /** newNode->next = cur->head and cur->head = newNode, in memory. */
  function LinkedFirst<K>(image: Image, row: Row<K>, a: nat, layout: Layout): Image {
    WriteAt(WriteAt(image, a, layout.next, Le(AddrAt(row.entries, 0), PTR_LEN)), row.addr, HEAD, Le(a, PTR_LEN))
  }

  /** The pointer that led to the k-th node, be it the head of the row or in the node before, now leads past it. */
  function LinkedPast<K>(image: Image, row: Row<K>, k: nat, layout: Layout): Image
    requires k < |row.entries|
  {
    if k == 0 then WriteAt(image, row.addr, HEAD, Le(AddrAt(row.entries, 1), PTR_LEN))
    else WriteAt(image, row.entries[k - 1].addr, layout.next, Le(AddrAt(row.entries, k + 1), PTR_LEN))
  }

  /** A block in which the fields of a new node are filled in, except for its pointer. */
  predicate Fresh<K>(image: Image, e: Entry<K>, layout: Layout, octets: K -> seq<byte>) {
    && e.addr in image && |image[e.addr]| == layout.entry && |octets(e.key)| <= layout.port
    && FieldIs(image[e.addr], 0, octets(e.key)) && FieldIs(image[e.addr], layout.port, Le(e.port, 2))
  }

  lemma FreshLinked<K>(s: seq<byte>, e: Entry<K>, next: nat, layout: Layout, octets: K -> seq<byte>)
    requires Fits(layout) && |s| == layout.entry && |octets(e.key)| <= layout.port
    requires FieldIs(s, 0, octets(e.key)) && FieldIs(s, layout.port, Le(e.port, 2))
    ensures NodeFields(Put(s, layout.next, Le(next, PTR_LEN)), e, next, layout, octets)
  {
    FieldKept(s, 0, octets(e.key), layout.next, Le(next, PTR_LEN));
    FieldKept(s, layout.port, Le(e.port, 2), layout.next, Le(next, PTR_LEN));
    FieldSet(s, layout.next, Le(next, PTR_LEN));
    hide FieldIs;
  }

  lemma NewEntryAddrs<K>(e: Entry<K>, es: seq<Entry<K>>)
    ensures EntryAddrs([e] + es) == {e.addr} + EntryAddrs(es)
  {
    var all := [e] + es;
    assert all[0] == e;
    forall j | 0 <= j < |es| ensures es[j].addr in EntryAddrs(all) {
      assert all[j + 1] == es[j];
    }
  }

  lemma WriteElsewhere(image: Image, addr: nat, off: nat, octets: seq<byte>)
    ensures WriteAt(image, addr, off, octets).Keys == image.Keys
    ensures forall a :: a in image && a != addr ==> WriteAt(image, addr, off, octets)[a] == image[a]
    ensures addr in image && off + |octets| <= |image[addr]| ==>
              WriteAt(image, addr, off, octets)[addr] == Put(image[addr], off, octets)
  {
  }

  /** A new node in front of row i. */
  lemma PutFirstOk<K>(image: Image, rows: seq<Row<K>>, i: nat, e: Entry<K>, layout: Layout, octets: K -> seq<byte>)
    requires RowsOk(image, rows, layout, octets) && i < |rows| && Fits(layout)
    requires Fresh(image, e, layout, octets) && e.addr !in Addrs(rows)
    ensures var image' := LinkedFirst(image, rows[i], e.addr, layout);
            var rows' := rows[i := rows[i].(entries := [e] + rows[i].entries)];
            && RowsOk(image', rows', layout, octets) && KeepsBut(image, rows, image', rows', e.addr)
  {
    PutFirstKeeps(image, rows, i, e, layout, octets);
    PutFirstRow(image, rows, i, e, layout, octets);
    PutFirstTouches(image, rows, i, e.addr, layout, octets);
    var es := [e] + rows[i].entries;
    assert forall a :: a in EntryAddrs(es) ==> a in EntryAddrs(rows[i].entries) || a !in Addrs(rows) by {
      NewEntryAddrs(e, rows[i].entries);
    }
    hide Addrs, RowAddrs, EntryAddrs, RowsOk, NodesOk, RowFields, Alone, Fresh, Put, KeepsBut, LinkedFirst;
    RowSetButOne(image, LinkedFirst(image, rows[i], e.addr, layout), rows, i, es, e.addr, layout, octets);
  }

  lemma PutFirstKeeps<K>(image: Image, rows: seq<Row<K>>, i: nat, e: Entry<K>, layout: Layout, octets: K -> seq<byte>)
    requires RowsOk(image, rows, layout, octets) && i < |rows| && Fits(layout)
    requires Fresh(image, e, layout, octets) && e.addr !in Addrs(rows)
    ensures var image' := LinkedFirst(image, rows[i], e.addr, layout);
            KeepsBut(image, rows, image', rows[i := rows[i].(entries := [e] + rows[i].entries)], e.addr)
  {
    PutFirstAddrs(rows, i, e);
    PutFirstTouches(image, rows, i, e.addr, layout, octets);
    hide Addrs, RowAddrs, RowsOk, LinkedFirst;
  }

  /** The row itself, with the new node. */
  lemma PutFirstRow<K>(image: Image, rows: seq<Row<K>>, i: nat, e: Entry<K>, layout: Layout, octets: K -> seq<byte>)
    requires RowsOk(image, rows, layout, octets) && i < |rows| && Fits(layout)
    requires Fresh(image, e, layout, octets) && e.addr !in Addrs(rows)
    ensures var row, es, image' := rows[i], [e] + rows[i].entries, LinkedFirst(image, rows[i], e.addr, layout);
            && row.addr in image' && row.addr in RowAddrs(row)
            && RowFields(image'[row.addr], row.(entries := es), AddrAt(es, 0), RowAddrAt(rows, i + 1), layout)
            && NodesOk(image', es, layout, octets) && Alone(row.(entries := es))
  {
    var row, a := rows[i], e.addr;
    var image' := LinkedFirst(image, row, a, layout);
    PutFirstTouches(image, rows, i, a, layout, octets);
    assert RowOk(image, rows, i, layout) && NodesOk(image, row.entries, layout, octets) && Alone(row);
    assert row.addr in RowAddrs(row);
    hide RowFields, LinkedFirst, FieldIs, Addrs, EntryAddrs, RowAddrs, NodesOk, RowsOk, Alone, NodeFields, Put, Le;
    HeadSet(image[row.addr], row, AddrAt(row.entries, 0), a, RowAddrAt(rows, i + 1), layout);
    FreshLinked(image[a], e, AddrAt(row.entries, 0), layout, octets);
    PutFirstNodes(image, image', row, e, layout, octets);
    SameRowFields(image'[row.addr], row, row.(entries := [e] + row.entries), a, RowAddrAt(rows, i + 1), layout);
  }

  lemma SameRowFields<K>(s: seq<byte>, row: Row<K>, row': Row<K>, head: nat, next: nat, layout: Layout)
    requires RowFields(s, row, head, next, layout) && row'.socket == row.socket
    ensures RowFields(s, row', head, next, layout)
  {
  }

  /** A pointer in the new node and the head of row i change, and no other octet. */
  lemma PutFirstTouches<K>(image: Image, rows: seq<Row<K>>, i: nat, a: nat, layout: Layout, octets: K -> seq<byte>)
    requires RowsOk(image, rows, layout, octets) && i < |rows| && Fits(layout)
    requires a in image && |image[a]| == layout.entry && a !in Addrs(rows)
    ensures var row, image' := rows[i], LinkedFirst(image, rows[i], a, layout);
            && image'.Keys == image.Keys && row.addr in image && row.addr in Addrs(rows) && a !in RowAddrs(row)
            && (forall x :: x in image && x != a && x != row.addr ==> image'[x] == image[x])
            && |image[row.addr]| >= HEAD + PTR_LEN
            && image'[row.addr] == Put(image[row.addr], HEAD, Le(a, PTR_LEN))
            && image'[a] == Put(image[a], layout.next, Le(AddrAt(row.entries, 0), PTR_LEN))
  {
    var row := rows[i];
    var im1 := WriteAt(image, a, layout.next, Le(AddrAt(row.entries, 0), PTR_LEN));
    WriteElsewhere(image, a, layout.next, Le(AddrAt(row.entries, 0), PTR_LEN));
    WriteElsewhere(im1, row.addr, HEAD, Le(a, PTR_LEN));
    assert RowOk(image, rows, i, layout) && row.addr in RowAddrs(row) && row.addr in Addrs(rows);
    hide WriteAt, RowsOk, EntryAddrs;
  }

  lemma PutFirstAddrs<K>(rows: seq<Row<K>>, i: nat, e: Entry<K>)
    requires i < |rows|
    ensures Addrs(rows[i := rows[i].(entries := [e] + rows[i].entries)]) <= Addrs(rows) + {e.addr}
  {
    var rows' := rows[i := rows[i].(entries := [e] + rows[i].entries)];
    NewEntryAddrs(e, rows[i].entries);
    forall a | a in Addrs(rows') ensures a in Addrs(rows) || a == e.addr {
      var k :| 0 <= k < |rows'| && a in RowAddrs(rows'[k]);
      assert a in RowAddrs(rows[k]) || a == e.addr;
    }
  }

  /** The same, if another block that is not among those of rows changes too. */
  lemma RowSetButOne<K>(image: Image, image': Image, rows: seq<Row<K>>, i: nat, es: seq<Entry<K>>, b: nat,
                        layout: Layout, octets: K -> seq<byte>)
    requires RowsOk(image, rows, layout, octets) && i < |rows| && b !in Addrs(rows)
    requires forall a :: a in image && a !in RowAddrs(rows[i]) && a != b ==> a in image' && image'[a] == image[a]
    requires rows[i].addr in image'
    requires RowFields(image'[rows[i].addr], rows[i].(entries := es), AddrAt(es, 0), RowAddrAt(rows, i + 1), layout)
    requires NodesOk(image', es, layout, octets) && Alone(rows[i].(entries := es))
    requires forall a :: a in EntryAddrs(es) ==> a in EntryAddrs(rows[i].entries) || a !in Addrs(rows)
    ensures RowsOk(image', rows[i := rows[i].(entries := es)], layout, octets)
  {
    var im0 := image - {b};
    assert RowsOk(im0, rows, layout, octets) by {
      AddrsAreLive(image, rows, layout, octets);
      SameRows(image, im0, rows, layout, octets);
    }
    RowSet(im0, image', rows, i, es, layout, octets);
  }

  lemma PutFirstNodes<K>(image: Image, image': Image, row: Row<K>, e: Entry<K>, layout: Layout, octets: K -> seq<byte>)
    requires NodesOk(image, row.entries, layout, octets) && Alone(row) && e.addr !in RowAddrs(row)
    requires e.addr in image' && NodeFields(image'[e.addr], e, AddrAt(row.entries, 0), layout, octets)
    requires forall a :: a in image && a != e.addr && a != row.addr ==> a in image' && image'[a] == image[a]
    ensures NodesOk(image', [e] + row.entries, layout, octets) && Alone(row.(entries := [e] + row.entries))
  {
    var es, all := row.entries, [e] + row.entries;
    hide NodeFields;
    NewEntryAddrs(e, es);
    forall j | 0 <= j < |all| ensures NodeOk(image', all, j, layout, octets) {
      assert AddrAt(all, j + 1) == AddrAt(es, j);
      if j > 0 {
        assert NodeOk(image, es, j - 1, layout, octets) && es[j - 1].addr in EntryAddrs(es);
      }
    }
    forall j | 0 <= j < |es| ensures es[j].addr != e.addr {
      assert es[j].addr in EntryAddrs(es);
    }
  }

  lemma WithoutEntryAddrs<K>(es: seq<Entry<K>>, k: nat)
    requires k < |es|
    ensures EntryAddrs(Without(es, k)) <= EntryAddrs(es)
    ensures (forall i, j :: 0 <= i < j < |es| ==> es[i].addr != es[j].addr) ==>
              && es[k].addr !in EntryAddrs(Without(es, k))
              && forall i, j :: 0 <= i < j < |es| - 1 ==> Without(es, k)[i].addr != Without(es, k)[j].addr
  {
    var rest := Without(es, k);
    forall j | 0 <= j < |rest| ensures rest[j] == es[if j < k then j else j + 1] {
    }
  }

  /** The node after position j once the k-th one is gone. */
  lemma AddrAfterWithout<K>(es: seq<Entry<K>>, k: nat, j: nat)
    requires k < |es|
    ensures AddrAt(Without(es, k), j) == AddrAt(es, if j < k then j else j + 1)
  {
  }

  /** The nodes other than the k-th, once the one before it points past it. */
  lemma LinkedPastNodes<K>(image: Image, row: Row<K>, k: nat, layout: Layout, octets: K -> seq<byte>)
    requires NodesOk(image, row.entries, layout, octets) && Alone(row) && k < |row.entries| && Fits(layout)
    ensures NodesOk(LinkedPast(image, row, k, layout), Without(row.entries, k), layout, octets)
  {
    var es, rest, image' := row.entries, Without(row.entries, k), LinkedPast(image, row, k, layout);
    forall j | 0 <= j < |rest| ensures NodeOk(image', rest, j, layout, octets) {
      var at := if j < k then j else j + 1;
      AddrAfterWithout(es, k, j);
      AddrAfterWithout(es, k, j + 1);
      assert rest[j] == es[at] && NodeOk(image, es, at, layout, octets) && es[at].addr in EntryAddrs(es);
      if j == k - 1 {
        NextSet(image[es[j].addr], es[j], AddrAt(es, k), AddrAt(es, k + 1), layout, octets);
      }
      hide NodeFields, EntryAddrs;
    }
  }

  /** The k-th node of row i is bypassed. */
  lemma LinkedPastOk<K>(image: Image, rows: seq<Row<K>>, i: nat, k: nat, layout: Layout, octets: K -> seq<byte>)
    requires RowsOk(image, rows, layout, octets) && i < |rows| && k < |rows[i].entries| && Fits(layout)
    ensures var image', rows' := LinkedPast(image, rows[i], k, layout),
                                 rows[i := rows[i].(entries := Without(rows[i].entries, k))];
            && RowsOk(image', rows', layout, octets) && Keeps(image, rows, image', rows') && image'.Keys == image.Keys
            && rows[i].entries[k].addr in Addrs(rows) && rows[i].entries[k].addr !in Addrs(rows')
  {
    var row, es, image' := rows[i], Without(rows[i].entries, k), LinkedPast(image, rows[i], k, layout);
    assert RowOk(image, rows, i, layout) && NodesOk(image, row.entries, layout, octets) && Alone(row);
    LinkedPastNodes(image, row, k, layout, octets);
    LinkedPastTouches(image, rows, i, k, layout, octets);
    WithoutEntryAddrs(row.entries, k);
    AddrAfterWithout(row.entries, k, 0);
    if k == 0 {
      HeadSet(image[row.addr], row, AddrAt(row.entries, 0), AddrAt(row.entries, 1), RowAddrAt(rows, i + 1), layout);
    }
    assert RowFields(image'[row.addr], row.(entries := es), AddrAt(es, 0), RowAddrAt(rows, i + 1), layout);
    hide RowFields, NodesOk, LinkedPast, RowOk;
    RowSet(image, image', rows, i, es, layout, octets);
    WithoutAddrs(image, image', rows, i, k);
  }

  /** A pointer of row i changes, and no other octet. */
  lemma LinkedPastTouches<K>(image: Image, rows: seq<Row<K>>, i: nat, k: nat, layout: Layout, octets: K -> seq<byte>)
    requires RowsOk(image, rows, layout, octets) && i < |rows| && k < |rows[i].entries|
    ensures var image' := LinkedPast(image, rows[i], k, layout);
            && image'.Keys == image.Keys
            && (forall a :: a in image && a !in RowAddrs(rows[i]) ==> image'[a] == image[a])
            && rows[i].addr in image
            && (k > 0 ==> image'[rows[i].addr] == image[rows[i].addr])
            && (k == 0 && HEAD + PTR_LEN <= |image[rows[i].addr]| ==>
                  image'[rows[i].addr] == Put(image[rows[i].addr], HEAD, Le(AddrAt(rows[i].entries, 1), PTR_LEN)))
  {
    var row := rows[i];
    assert RowOk(image, rows, i, layout) && Alone(row);
    if k == 0 {
      WriteElsewhere(image, row.addr, HEAD, Le(AddrAt(row.entries, 1), PTR_LEN));
    } else {
      assert row.entries[k - 1].addr in EntryAddrs(row.entries);
      WriteElsewhere(image, row.entries[k - 1].addr, layout.next, Le(AddrAt(row.entries, k + 1), PTR_LEN));
    }
  }

  lemma WithoutAddrs<K>(image: Image, image': Image, rows: seq<Row<K>>, i: nat, k: nat)
    requires Apart(rows) && i < |rows| && k < |rows[i].entries| && image'.Keys == image.Keys
    requires forall a :: a in image && a !in RowAddrs(rows[i]) ==> image'[a] == image[a]
    ensures var rows' := rows[i := rows[i].(entries := Without(rows[i].entries, k))];
            && Keeps(image, rows, image', rows')
            && rows[i].entries[k].addr in Addrs(rows) && rows[i].entries[k].addr !in Addrs(rows')
  {
    var a, rows' := rows[i].entries[k].addr, rows[i := rows[i].(entries := Without(rows[i].entries, k))];
    assert Alone(rows[i]);
    WithoutEntryAddrs(rows[i].entries, k);
    assert a in EntryAddrs(rows[i].entries) && a in RowAddrs(rows[i]);
    hide EntryAddrs;
    assert forall x :: x in RowAddrs(rows[i]) ==> x in Addrs(rows);
    forall x | x in Addrs(rows') ensures x in Addrs(rows) && x != a {
      var l :| 0 <= l < |rows'| && x in RowAddrs(rows'[l]);
      assert x in RowAddrs(rows[l]);
      assert l != i ==> RowAddrs(rows[l]) !! RowAddrs(rows[i]);
    }
  }

  // ------------------------------------------------------------------ rows that come and go

  /** A new row behind the last one. */
  lemma RowLinkedOk<K>(image: Image, rows: seq<Row<K>>, r: Row<K>, layout: Layout, octets: K -> seq<byte>)
    requires RowsOk(image, rows, layout, octets) && rows != [] && Fits(layout)
    requires r.entries == [] && r.addr in image && RowFields(image[r.addr], r, 0, 0, layout) && r.addr !in Addrs(rows)
    ensures var image' := WriteAt(image, rows[|rows| - 1].addr, NEXT, Le(r.addr, PTR_LEN));
            RowsOk(image', rows + [r], layout, octets) && KeepsBut(image, rows, image', rows + [r], r.addr)
  {
    var n, last, rows' := |rows| - 1, rows[|rows| - 1], rows + [r];
    var image' := WriteAt(image, last.addr, NEXT, Le(r.addr, PTR_LEN));
    WriteElsewhere(image, last.addr, NEXT, Le(r.addr, PTR_LEN));
    assert RowOk(image, rows, n, layout) && NodesOk(image, last.entries, layout, octets) && Alone(last);
    NextRowSet(image[last.addr], last, AddrAt(last.entries, 0), 0, r.addr, layout);
    AppendedAddrs(rows, r);
    assert last.addr in RowAddrs(last) && last.addr in Addrs(rows);
    hide WriteAt, RowFields, NodeFields, Addrs;
    OthersOk(image, image', rows, n, layout, octets);
    NodesAreLive(image, last.entries, layout, octets);
    SameNodes(image, image', last.entries, layout, octets);
    hide Apart, EntryAddrs, RowAddrs, Alone;
    forall k | 0 <= k < |rows'|
      ensures RowOk(image', rows', k, layout) && NodesOk(image', rows'[k].entries, layout, octets)
    {
      if k < n {
        assert RowAddrAt(rows', k + 1) == RowAddrAt(rows, k + 1) && RowOk(image', rows, k, layout);
      }
    }
  }

  lemma NodesAreLive<K>(image: Image, es: seq<Entry<K>>, layout: Layout, octets: K -> seq<byte>)
    requires NodesOk(image, es, layout, octets)
    ensures forall a :: a in EntryAddrs(es) ==> a in image
  {
    forall a | a in EntryAddrs(es) ensures a in image {
      var j :| 0 <= j < |es| && es[j].addr == a;
      assert NodeOk(image, es, j, layout, octets);
    }
  }

  lemma AppendedAddrs<K>(rows: seq<Row<K>>, r: Row<K>)
    requires r.entries == []
    ensures Addrs(rows + [r]) == Addrs(rows) + {r.addr}
    ensures Apart(rows) && r.addr !in Addrs(rows) ==> Apart(rows + [r])
  {
    var rows' := rows + [r];
    assert RowAddrs(r) == {r.addr};
    forall a ensures a in Addrs(rows') <==> a in Addrs(rows) || a == r.addr {
      if a in Addrs(rows) {
        var i :| 0 <= i < |rows| && a in RowAddrs(rows[i]);
        assert rows'[i] == rows[i];
      }
      if a in Addrs(rows') {
        var i :| 0 <= i < |rows'| && a in RowAddrs(rows'[i]);
        assert i < |rows| ==> rows'[i] == rows[i];
      }
      assert rows'[|rows|] == r;
    }
    if Apart(rows) && r.addr !in Addrs(rows) {
      forall i, j | 0 <= i < j < |rows'| ensures RowAddrs(rows'[i]) !! RowAddrs(rows'[j]) {
        assert r.addr in RowAddrs(rows'[i]) ==> r.addr in Addrs(rows) || i == |rows|;
      }
    }
  }

  lemma RestApart<K>(rows: seq<Row<K>>)
    requires Apart(rows) && rows != []
    ensures Apart(rows[1..])
    ensures rows[0].addr in Addrs(rows) && rows[0].addr !in Addrs(rows[1..]) && Addrs(rows[1..]) <= Addrs(rows)
  {
    var rest := rows[1..];
    assert forall i :: 0 <= i < |rest| ==> rest[i] == rows[i + 1];
    assert rows[0].addr in RowAddrs(rows[0]);
    hide RowAddrs, Alone;
    forall a | a in Addrs(rest) ensures a in Addrs(rows) && a != rows[0].addr {
      var i :| 0 <= i < |rest| && a in RowAddrs(rest[i]);
      assert a in RowAddrs(rows[i + 1]) && RowAddrs(rows[0]) !! RowAddrs(rows[i + 1]);
    }
  }

  /** Without the first row, whose block does not matter any more. */
  lemma RestOk<K>(image: Image, rows: seq<Row<K>>, layout: Layout, octets: K -> seq<byte>)
    requires RowsOk(image, rows, layout, octets) && rows != []
    ensures RowsOk(image, rows[1..], layout, octets)
    ensures rows[0].addr in Addrs(rows) && rows[0].addr !in Addrs(rows[1..]) && Addrs(rows[1..]) <= Addrs(rows)
  {
    var rest := rows[1..];
    RestApart(rows);
    hide RowFields, NodesOk, RowAddrs, Apart, Addrs;
    forall i | 0 <= i < |rest|
      ensures RowOk(image, rest, i, layout) && NodesOk(image, rest[i].entries, layout, octets)
    {
      assert RowOk(image, rows, i + 1, layout);
    }
  }

  /** The first row goes, and its block with it. */
  lemma RestFreed<K>(image: Image, rows: seq<Row<K>>, layout: Layout, octets: K -> seq<byte>)
    requires RowsOk(image, rows, layout, octets) && rows != []
    ensures RowsOk(image - {rows[0].addr}, rows[1..], layout, octets)
    ensures Keeps(image, rows, image - {rows[0].addr}, rows[1..])
  {
    RestOk(image, rows, layout, octets);
    FreedOk(image, rows[1..], rows[0].addr, layout, octets);
    hide RowsOk, Addrs;
  }

  /** A block that is not among those of rows is freed. */
  lemma FreedOk<K>(image: Image, rows: seq<Row<K>>, a: nat, layout: Layout, octets: K -> seq<byte>)
    requires RowsOk(image, rows, layout, octets) && a !in Addrs(rows)
    ensures RowsOk(image - {a}, rows, layout, octets)
  {
    AddrsAreLive(image, rows, layout, octets);
    SameRows(image, image - {a}, rows, layout, octets);
  }

  /** A block has been added. */
  lemma BlockAdded<K>(image: Image, image': Image, rows: seq<Row<K>>, a: nat, layout: Layout, octets: K -> seq<byte>)
    requires RowsOk(image, rows, layout, octets) && a !in image && image' - {a} == image
    ensures RowsOk(image', rows, layout, octets) && a !in Addrs(rows)
  {
    AddrsAreLive(image, rows, layout, octets);
    assert forall x :: x in image ==> x in image' - {a};
    SameRows(image, image', rows, layout, octets);
  }

  /** A block is allocated. */
  lemma AllocatedOk<K>(image: Image, rows: seq<Row<K>>, a: nat, payload: seq<byte>, layout: Layout,
                       octets: K -> seq<byte>)
    requires RowsOk(image, rows, layout, octets) && a !in image
    ensures RowsOk(image[a := payload], rows, layout, octets) && a !in Addrs(rows)
  {
    AddrsAreLive(image, rows, layout, octets);
    SameRows(image, image[a := payload], rows, layout, octets);
  }

  // ------------------------------------------------------------------ blocks filled in for the first time

  /** The fields of a new row are filled in, and nothing else changes. */
  ghost predicate RowInitialised<K>(image: Image, image': Image, row: Row<K>, layout: Layout) {
    && row.addr in image && image'.Keys == image.Keys && RowFields(image'[row.addr], row, 0, 0, layout)
    && forall a :: a in image && a != row.addr ==> image'[a] == image[a]
  }

  lemma RowIsWritten<K>(image: Image, row: Row<K>, layout: Layout)
    requires row.addr in image && |image[row.addr]| == layout.row && Fits(layout)
    ensures var im1 := WriteAt(image, row.addr, 0, Le(row.socket % 0x1_0000_0000, 4));
            var im2 := WriteAt(im1, row.addr, HEAD, Le(0, PTR_LEN));
            RowInitialised(image, WriteAt(im2, row.addr, NEXT, Le(0, PTR_LEN)), row, layout)
  {
    var socket, null_ := Le(row.socket % 0x1_0000_0000, 4), Le(0, PTR_LEN);
    var s := image[row.addr];
    var s1 := Put(s, 0, socket);
    var s2 := Put(s1, HEAD, null_);
    FieldSet(s, 0, socket);
    FieldKept(s1, 0, socket, HEAD, null_);
    FieldSet(s1, HEAD, null_);
    FieldKept(s2, 0, socket, NEXT, null_);
    FieldKept(s2, HEAD, null_, NEXT, null_);
    FieldSet(s2, NEXT, null_);
    hide FieldIs, Put, Le;
  }

  /** A new row is filled in and linked to the last one. */
  lemma RowLinked<K>(im0: Image, im1: Image, rows: seq<Row<K>>, r: Row<K>, layout: Layout, octets: K -> seq<byte>)
    requires RowsOk(im0, rows, layout, octets) && rows != [] && Fits(layout)
    requires RowInitialised(im0, im1, r, layout) && r.entries == [] && r.addr !in Addrs(rows)
    ensures var im2 := WriteAt(im1, rows[|rows| - 1].addr, NEXT, Le(r.addr, PTR_LEN));
            RowsOk(im2, rows + [r], layout, octets) && KeepsBut(im0, rows, im2, rows + [r], r.addr)
  {
    hide RowFields, Addrs, WriteAt, Le;
    AddrsAreLive(im0, rows, layout, octets);
    SameRows(im0, im1, rows, layout, octets);
    RowLinkedOk(im1, rows, r, layout, octets);
    hide RowsOk;
  }

  /** Key and port of a new node are filled in. */
  lemma NodeIsWritten<K>(image: Image, e: Entry<K>, layout: Layout, octets: K -> seq<byte>)
    requires e.addr in image && |image[e.addr]| == layout.entry && Fits(layout) && |octets(e.key)| <= layout.port
    ensures var im1 := WriteAt(image, e.addr, 0, octets(e.key));
            var im2 := WriteAt(im1, e.addr, layout.port, Le(e.port, 2));
            && Fresh(im2, e, layout, octets) && im2.Keys == image.Keys
            && forall a :: a in image && a != e.addr ==> im2[a] == image[a]
  {
    var s := image[e.addr];
    FieldSet(s, 0, octets(e.key));
    FieldKept(Put(s, 0, octets(e.key)), 0, octets(e.key), layout.port, Le(e.port, 2));
    FieldSet(Put(s, 0, octets(e.key)), layout.port, Le(e.port, 2));
    hide FieldIs, Put, Le;
  }
}
