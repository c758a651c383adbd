/** The structs of myGraph.h in memory, with their offsets on a 64-bit machine. */
module ListStructs {
  import opened Bytes
  import opened OpenFlow
  import opened Payloads
  import opened SocketLists
  import opened Structs
  import opened Wrappers
  import C = ControllerSpec

  /** struct ListOfLists and struct PathNode, and the same for flows, on a 64-bit machine. */
  const PATH_LAYOUT := Layout(24, 16, 6, 8)
  const FLOW_LAYOUT := Layout(24, 24, 12, 16)

  function MacOctets(mac: Mac): seq<byte> {
    mac
  }

  function FlowOctets(key: C.FlowKey): seq<byte> {
    key.dst + key.src
  }

  // ------------------------------------------------------------------ the structs in memory

  /** struct PathNode: to_mac at 0, port at 6, next at 8. */
  predicate IsPathNode(s: seq<byte>, mac: Mac, port: uint16, next: nat) {
    |s| == 16 && s[0..6] == mac && s[6..8] == Le(port, 2) && s[8..16] == Le(next, 8)
  }

  /** struct FlowNode: dst_mac at 0, src_mac at 6, port at 12, next at 16. */
  predicate IsFlowNode(s: seq<byte>, dst: Mac, src: Mac, port: uint16, next: nat) {
    |s| == 24 && s[0..6] == dst && s[6..12] == src && s[12..14] == Le(port, 2) && s[16..24] == Le(next, 8)
  }

  /** struct ListOfLists and struct ListOfFlows: socket at 0, head at 8, next at 16. */
  predicate IsSocketRow(s: seq<byte>, socket: Sock, head: nat, next: nat) {
    |s| == 24 && s[0..4] == Le(socket % 0x1_0000_0000, 4) && s[8..16] == Le(head, 8) && s[16..24] == Le(next, 8)
  }

  predicate RowInMemory<K>(image: Image, rows: seq<Row<K>>, i: nat)
    requires i < |rows|
  {
    rows[i].addr in image
    && IsSocketRow(image[rows[i].addr], rows[i].socket, AddrAt(rows[i].entries, 0), RowAddrAt(rows, i + 1))
  }

  predicate PathInMemory(image: Image, es: seq<Entry<Mac>>, j: nat)
    requires j < |es|
  {
    es[j].addr in image && IsPathNode(image[es[j].addr], es[j].key, es[j].port, AddrAt(es, j + 1))
  }

  predicate FlowInMemory(image: Image, es: seq<Entry<C.FlowKey>>, j: nat)
    requires j < |es|
  {
    es[j].addr in image
    && IsFlowNode(image[es[j].addr], es[j].key.dst, es[j].key.src, es[j].port, AddrAt(es, j + 1))
  }

  /** The list behind ll as it lies in memory: all blocks are different ones, and each of them holds its struct, whose
      pointers lead from one block to the next. */
  ghost predicate PathsInMemory(image: Image, rows: seq<Row<Mac>>) {
    && Apart(rows)
    && (forall i :: 0 <= i < |rows| ==> RowInMemory(image, rows, i))
    && forall i, j :: 0 <= i < |rows| && 0 <= j < |rows[i].entries| ==> PathInMemory(image, rows[i].entries, j)
  }

  /** The list behind flows. */
  ghost predicate FlowsInMemory(image: Image, rows: seq<Row<C.FlowKey>>) {
    && Apart(rows)
    && (forall i :: 0 <= i < |rows| ==> RowInMemory(image, rows, i))
    && forall i, j :: 0 <= i < |rows| && 0 <= j < |rows[i].entries| ==> FlowInMemory(image, rows[i].entries, j)
  }

  lemma PathsAreStructs(image: Image, rows: seq<Row<Mac>>)
    ensures PathsInMemory(image, rows) <==> RowsOk(image, rows, PATH_LAYOUT, MacOctets)
  {
    forall i | 0 <= i < |rows|
      ensures RowInMemory(image, rows, i) <==> RowOk(image, rows, i, PATH_LAYOUT)
      ensures forall j :: 0 <= j < |rows[i].entries| ==>
                (PathInMemory(image, rows[i].entries, j) <==>
                 NodeOk(image, rows[i].entries, j, PATH_LAYOUT, MacOctets))
    {
    }
    hide Apart, PathInMemory, NodeOk, RowInMemory, RowOk;
  }

  lemma FlowsAreStructs(image: Image, rows: seq<Row<C.FlowKey>>)
    ensures FlowsInMemory(image, rows) <==> RowsOk(image, rows, FLOW_LAYOUT, FlowOctets)
  {
    forall i | 0 <= i < |rows|
      ensures RowInMemory(image, rows, i) <==> RowOk(image, rows, i, FLOW_LAYOUT)
      ensures forall j :: 0 <= j < |rows[i].entries| ==>
                (FlowInMemory(image, rows[i].entries, j) <==>
                 NodeOk(image, rows[i].entries, j, FLOW_LAYOUT, FlowOctets))
    {
      forall j | 0 <= j < |rows[i].entries|
        ensures FlowInMemory(image, rows[i].entries, j) <==>
                NodeOk(image, rows[i].entries, j, FLOW_LAYOUT, FlowOctets)
      {
        if rows[i].entries[j].addr in image && |image[rows[i].entries[j].addr]| == 24 {
          TwoAddresses(image[rows[i].entries[j].addr], rows[i].entries[j].key);
        }
      }
    }
    hide Apart, FlowInMemory, NodeOk, RowInMemory, RowOk;
  }

  lemma TwoAddresses(s: seq<byte>, key: C.FlowKey)
    requires |s| >= 12
    ensures s[0..12] == key.dst + key.src <==> s[0..6] == key.dst && s[6..12] == key.src
  {
    assert s[0..12] == s[0..6] + s[6..12];
    if s[0..12] == key.dst + key.src {
      assert s[0..6] == s[0..12][0..6] && s[6..12] == s[0..12][6..12];
    }
  }

  /** Zero-filled blocks are sentinels: no socket, no node, and no row to follow. */
  lemma SentinelsInMemory(image: Image, a: nat, b: nat)
    requires a in image && b in image && a != b && image[a] == Zeros(24) && image[b] == Zeros(24)
    ensures PathsInMemory(image, [Row(0, a, [])]) && FlowsInMemory(image, [Row(0, b, [])])
    ensures Addrs<Mac>([Row(0, a, [])]) == {a} && Addrs<C.FlowKey>([Row(0, b, [])]) == {b}
  {
    LeZero(4);
    LeZero(8);
    OneRowAddrs<Mac>(Row(0, a, []));
    OneRowAddrs<C.FlowKey>(Row(0, b, []));
    hide Le;
    assert IsSocketRow(Zeros(24), 0, 0, 0);
  }

  lemma OneRowAddrs<K>(row: Row<K>)
    requires row.entries == []
    ensures Addrs([row]) == {row.addr} && Apart([row])
  {
    assert [row][0] == row && RowAddrs(row) == {row.addr};
  }

  /** The block of a noted flow. */
  lemma FlowFound(image: Image, rows: seq<Row<C.FlowKey>>, noted: map<(Sock, C.FlowKey), uint16>, sock: Sock,
                  key: C.FlowKey) returns (a: nat)
    requires FlowsInMemory(image, rows) && Represents(rows, noted) && (sock, key) in noted
    ensures a in image && |image[a]| == 24
    ensures image[a][0..6] == key.dst && image[a][6..12] == key.src && image[a][12..14] == Le(noted[(sock, key)], 2)
  {
    assert Find(rows, sock, key) == Some(noted[(sock, key)]);
    var i, j := RowIndex(rows, sock), EntryIndex(EntriesOf(rows, sock), key);
    assert FlowInMemory(image, rows[i].entries, j);
    a := rows[i].entries[j].addr;
  }

  /** The block of a learned port. */
  lemma PathFound(image: Image, rows: seq<Row<Mac>>, learned: map<(Sock, Mac), uint16>, sock: Sock, mac: Mac)
    returns (a: nat)
    requires PathsInMemory(image, rows) && Represents(rows, learned) && (sock, mac) in learned
    ensures a in image && |image[a]| == 16
    ensures image[a][0..6] == mac && image[a][6..8] == Le(learned[(sock, mac)], 2)
  {
    assert Find(rows, sock, mac) == Some(learned[(sock, mac)]);
    var i, j := RowIndex(rows, sock), EntryIndex(EntriesOf(rows, sock), mac);
    assert PathInMemory(image, rows[i].entries, j);
    a := rows[i].entries[j].addr;
  }

  // ------------------------------------------------------------------ reading the lists back from memory

  /** The key, the port and the pointer of a PathNode. */
  function ReadPath(s: seq<byte>): (Mac, uint16, nat) {
    if |s| < 16 then ([0, 0, 0, 0, 0, 0], 0, 0) else (s[0..6], FromLe(s[6..8]) % 0x1_0000, FromLe(s[8..16]))
  }

  /** The same of a FlowNode. */
  function ReadFlow(s: seq<byte>): (C.FlowKey, uint16, nat) {
    if |s| < 24 then (C.FlowKey([0, 0, 0, 0, 0, 0], [0, 0, 0, 0, 0, 0]), 0, 0)
    else (C.FlowKey(s[6..12], s[0..6]), FromLe(s[12..14]) % 0x1_0000, FromLe(s[16..24]))
  }

  /** The nodes found by following pointers from address a, up to n of them. */
  function NodesFrom<K>(image: Image, a: nat, n: nat, read: seq<byte> -> (K, uint16, nat)): seq<Entry<K>>
    decreases n
  {
    if a == 0 || n == 0 || a !in image then []
    else
      var (key, port, next) := read(image[a]);
      [Entry(key, port, a)] + NodesFrom(image, next, n - 1, read)
  }

  /** The rows found in the same way, up to that many, with up to n nodes each. */
  function RowsFrom<K>(image: Image, a: nat, left: nat, n: nat, read: seq<byte> -> (K, uint16, nat)): seq<Row<K>>
    decreases left
  {
    if a == 0 || left == 0 || a !in image || |image[a]| < 24 then []
    else
      var s := image[a];
      [Row(FromLe(s[0..4]), a, NodesFrom(image, FromLe(s[8..16]), n, read))] +
      RowsFrom(image, FromLe(s[16..24]), left - 1, n, read)
  }

  const POINTERS: nat := 0x1_0000_0000_0000_0000

  /** No block is at NULL, all addresses fit in 64 bits and all sockets in 32, and n is large enough. */
  ghost predicate Readable<K>(rows: seq<Row<K>>, n: nat) {
    && (forall a :: a in Addrs(rows) ==> 0 < a < POINTERS) && |rows| <= n
    && forall i :: 0 <= i < |rows| ==> 0 <= rows[i].socket < 0x1_0000_0000 && |rows[i].entries| <= n
  }

  lemma PointerReadsBack(a: nat)
    ensures a < POINTERS ==> FromLe(Le(a, 8)) == a
    ensures a < 0x1_0000_0000 ==> FromLe(Le(a, 4)) == a
    ensures a < 0x1_0000 ==> FromLe(Le(a, 2)) == a
  {
    hide Le, FromLe, Power256;
    LeReadsBack(a, 8);
    LeReadsBack(a, 4);
    LeReadsBack(a, 2);
    Powers();
  }

  lemma Powers()
    ensures Power256(2) == 0x1_0000 && Power256(4) == 0x1_0000_0000 && Power256(8) == POINTERS
  {
  }

  lemma {:induction false} NodesReadBack<K>(image: Image, es: seq<Entry<K>>, j: nat, n: nat,
                                            read: seq<byte> -> (K, uint16, nat))
    requires j <= |es| <= j + n
    requires forall k :: 0 <= k < |es| ==>
               es[k].addr != 0 && es[k].addr in image
               && read(image[es[k].addr]) == (es[k].key, es[k].port, AddrAt(es, k + 1))
    ensures NodesFrom(image, AddrAt(es, j), n, read) == es[j..]
    decreases n
  {
    if j < |es| {
      NodesReadBack(image, es, j + 1, n - 1, read);
      assert es[j..] == [es[j]] + es[j + 1..];
    }
  }

  lemma {:induction false} RowsReadBack<K>(image: Image, rows: seq<Row<K>>, i: nat, left: nat, n: nat,
                                           read: seq<byte> -> (K, uint16, nat))
    requires i <= |rows| <= i + left && forall k :: 0 <= k < |rows| ==> RowReadsBack(image, rows, k, n, read)
    ensures RowsFrom(image, RowAddrAt(rows, i), left, n, read) == rows[i..]
    decreases left
  {
    if i < |rows| {
      assert RowReadsBack(image, rows, i, n, read);
      RowsReadBack(image, rows, i + 1, left - 1, n, read);
      assert rows[i..] == [rows[i]] + rows[i + 1..];
    }
  }

  ghost predicate RowReadsBack<K>(image: Image, rows: seq<Row<K>>, k: nat, n: nat, read: seq<byte> -> (K, uint16, nat))
    requires k < |rows|
  {
    var row := rows[k];
    && row.addr != 0 && row.addr in image && |image[row.addr]| == 24
    && var s := image[row.addr];
       && FromLe(s[0..4]) == row.socket && FromLe(s[16..24]) == RowAddrAt(rows, k + 1)
       && NodesFrom(image, FromLe(s[8..16]), n, read) == row.entries
  }

  /** Addresses of rows and nodes that can be read. */
  lemma ReadableAddrs<K>(rows: seq<Row<K>>, n: nat, i: nat)
    requires Readable(rows, n) && i < |rows|
    ensures 0 < rows[i].addr < POINTERS && forall k: nat :: AddrAt(rows[i].entries, k) < POINTERS
    ensures forall k :: 0 <= k < |rows[i].entries| ==> rows[i].entries[k].addr > 0
    ensures RowAddrAt(rows, i + 1) < POINTERS
  {
    assert rows[i].addr in RowAddrs(rows[i]) && rows[i].addr in Addrs(rows);
    if i + 1 < |rows| {
      assert rows[i + 1].addr in RowAddrs(rows[i + 1]) && rows[i + 1].addr in Addrs(rows);
    }
    forall k | 0 <= k < |rows[i].entries| ensures 0 < rows[i].entries[k].addr < POINTERS {
      assert rows[i].entries[k].addr in EntryAddrs(rows[i].entries);
      assert rows[i].entries[k].addr in RowAddrs(rows[i]) && rows[i].entries[k].addr in Addrs(rows);
    }
  }

  lemma RowIsRead<K>(image: Image, rows: seq<Row<K>>, i: nat, n: nat, read: seq<byte> -> (K, uint16, nat))
    requires Readable(rows, n) && i < |rows| && RowInMemory(image, rows, i)
    requires forall k :: 0 <= k < |rows[i].entries| ==>
               && rows[i].entries[k].addr in image
               && read(image[rows[i].entries[k].addr]) ==
                  (rows[i].entries[k].key, rows[i].entries[k].port, AddrAt(rows[i].entries, k + 1))
    ensures RowReadsBack(image, rows, i, n, read)
  {
    ReadableAddrs(rows, n, i);
    hide Addrs;
    PointerReadsBack(rows[i].socket);
    PointerReadsBack(AddrAt(rows[i].entries, 0));
    PointerReadsBack(RowAddrAt(rows, i + 1));
    NodesReadBack(image, rows[i].entries, 0, n, read);
    hide Le, FromLe;
  }

  lemma ReadableRows<K>(rows: seq<Row<K>>, n: nat)
    requires Readable(rows, n)
    ensures |rows| <= n
  {
  }

  lemma PathIsRead(image: Image, es: seq<Entry<Mac>>, k: nat)
    requires k < |es| && PathInMemory(image, es, k) && AddrAt(es, k + 1) < POINTERS
    ensures ReadPath(image[es[k].addr]) == (es[k].key, es[k].port, AddrAt(es, k + 1)) && es[k].addr in image
  {
    hide Le, FromLe;
    PointerReadsBack(es[k].port);
    PointerReadsBack(AddrAt(es, k + 1));
  }

  lemma FlowIsRead(image: Image, es: seq<Entry<C.FlowKey>>, k: nat)
    requires k < |es| && FlowInMemory(image, es, k) && AddrAt(es, k + 1) < POINTERS
    ensures ReadFlow(image[es[k].addr]) == (es[k].key, es[k].port, AddrAt(es, k + 1)) && es[k].addr in image
  {
    hide Le, FromLe;
    PointerReadsBack(es[k].port);
    PointerReadsBack(AddrAt(es, k + 1));
  }

  /** What lies in memory is the list, and nothing but memory is needed to read it. */
  lemma PathsReadBack(image: Image, rows: seq<Row<Mac>>, n: nat)
    requires PathsInMemory(image, rows) && Readable(rows, n)
    ensures RowsFrom(image, RowAddrAt(rows, 0), n, n, ReadPath) == rows
  {
    hide Apart, Addrs, Readable, Le, FromLe, PathInMemory, RowReadsBack;
    forall i | 0 <= i < |rows| ensures RowReadsBack(image, rows, i, n, ReadPath) {
      assert RowInMemory(image, rows, i);
      ReadableAddrs(rows, n, i);
      forall k | 0 <= k < |rows[i].entries|
        ensures rows[i].entries[k].addr in image
        ensures ReadPath(image[rows[i].entries[k].addr]) ==
                (rows[i].entries[k].key, rows[i].entries[k].port, AddrAt(rows[i].entries, k + 1))
      {
        PathIsRead(image, rows[i].entries, k);
      }
      RowIsRead(image, rows, i, n, ReadPath);
    }
    ReadableRows(rows, n);
    RowsReadBack(image, rows, 0, n, n, ReadPath);
  }

  lemma FlowsReadBack(image: Image, rows: seq<Row<C.FlowKey>>, n: nat)
    requires FlowsInMemory(image, rows) && Readable(rows, n)
    ensures RowsFrom(image, RowAddrAt(rows, 0), n, n, ReadFlow) == rows
  {
    hide Apart, Addrs, Readable, Le, FromLe, FlowInMemory, RowReadsBack;
    forall i | 0 <= i < |rows| ensures RowReadsBack(image, rows, i, n, ReadFlow) {
      assert RowInMemory(image, rows, i);
      ReadableAddrs(rows, n, i);
      forall k | 0 <= k < |rows[i].entries|
        ensures rows[i].entries[k].addr in image
        ensures ReadFlow(image[rows[i].entries[k].addr]) ==
                (rows[i].entries[k].key, rows[i].entries[k].port, AddrAt(rows[i].entries, k + 1))
      {
        FlowIsRead(image, rows[i].entries, k);
      }
      RowIsRead(image, rows, i, n, ReadFlow);
    }
    ReadableRows(rows, n);
    RowsReadBack(image, rows, 0, n, n, ReadFlow);
  }
}
