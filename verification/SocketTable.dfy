/**
 The two-level linked lists of myGraph.c as objects. Table<Mac> is the list that ll points to and
 Table<FlowKey> the one that flows points to.

 The fields of rows and nodes are read through Key, Port, Next, Head, Socket and NextRow, and written through the Set
 methods. Each of these demands that the block of the object is live and that the field lies within it; a Set method also
 writes the octets of the field to the allocator's memory. When its block is freed, an object loses what its fields held.
 */
module SocketTable {
  import opened Bytes
  import opened Collections
  import opened OpenFlow
  import opened HeapSpec
  import opened Payloads
  import opened SocketLists
  import opened SmartAlloc
  import opened Structs
  import opened Wrappers

  /** PathNode or FlowNode; addr is the address of its block. */
  class Node<K(==)> {
    const addr: nat
    var key: K
    var port: uint16
    var next: Node?<K>
    ghost const list: SocketList<K>    // the list the node is made for

    constructor (addr: nat, key: K, port: uint16, ghost list: SocketList<K>)
      ensures this.addr == addr && this.key == key && this.port == port && this.list == list && next == null
    {
      this.addr, this.key, this.port, this.list, next := addr, key, port, list, null;
    }

    function Value(): Entry<K>
      reads this`key, this`port
    {
      Entry(key, port, addr)
    }

    function Key(heap: Allocator, ghost layout: Layout): K
      requires heap.Accessible(Block(addr, layout.entry), 0, layout.port)
      reads this, heap.table`live
    {
      key
    }

    function Port(heap: Allocator, ghost layout: Layout): uint16
      requires heap.Accessible(Block(addr, layout.entry), layout.port, 2)
      reads this, heap.table`live
    {
      port
    }

    function Next(heap: Allocator, ghost layout: Layout): Node?<K>
      requires heap.Accessible(Block(addr, layout.entry), layout.next, PTR_LEN)
      reads this, heap.table`live
    {
      next
    }

    method SetNext(heap: Allocator, layout: Layout, n: Node?<K>)
      requires heap.Clean() && heap.Accessible(Block(addr, layout.entry), layout.next, PTR_LEN)
      modifies this`next, heap`mem
      ensures next == n && Holds(heap.mem, addr + layout.next, Le(NodeAddress(n), PTR_LEN))
      ensures heap.Payloads() == WriteAt(old(heap.Payloads()), addr, layout.next, Le(NodeAddress(n), PTR_LEN))
      ensures heap.Clean()
    {
      hide Holds, NoStray, AllGuardsIntact, PayloadsOf, WriteAt;
      heap.Store(addr, layout.next, Le(NodeAddress(n), PTR_LEN), layout.entry);
      next := n;
    }

    /** What smartfree does to the node. */
    method Wipe()
      modifies this`key, this`port, this`next
    {
      key, port, next := *, *, *;
    }
  }

  function NodeAddress<K>(n: Node?<K>): nat {
    if n == null then 0 else n.addr
  }

  /** ListOfLists or ListOfFlows: one socket with its own list. */
  class SocketList<K(==)> {
    const addr: nat
    var socket: Sock
    var head: Node?<K>
    var next: SocketList?<K>
    ghost var nodes: seq<Node<K>>
    ghost var own: set<Node<K>>          // all nodes that have ever been in the list
    ghost var entries: seq<Entry<K>>

    ghost predicate Valid()
      reads this`head, this`nodes, this`own, this`entries, own
    {
      && (forall n :: n in own ==> n.list == this)
      && (forall i :: 0 <= i < |nodes| ==> nodes[i] in own)
      && |nodes| == |entries| && head == At(nodes, 0, null)
      && (forall i {:trigger nodes[i].next} :: 0 <= i < |nodes| ==> nodes[i].next == At(nodes, i + 1, null))
      && (forall i :: 0 <= i < |nodes| ==> nodes[i].Value() == entries[i])
      && (forall i, j :: 0 <= i < j < |nodes| ==> nodes[i] != nodes[j])
    }

    /** The row is in order, and row is its abstract value. */
    ghost predicate Is(row: Row<K>)
      reads this`socket, this`head, this`nodes, this`own, this`entries, own
    {
      Valid() && row == Row(socket, addr, entries)
    }

    /** A row stays in order, whatever comes after it, as long as neither it nor a node made for it changes. */
    twostate lemma Kept(row: Row<K>)
      requires old(Is(row)) && unchanged(this`socket, this`head, this`nodes, this`own, this`entries)
      requires forall n: Node<K> :: n in own && n.list == this ==> unchanged(n)
      ensures Is(row)
    {
    }

    /** The blocks of the row and of its nodes are live, and the allocator has nothing else to do with them. */
    ghost predicate Alive(heap: Allocator, layout: Layout)
      reads this`nodes, heap`Repr, heap.table`live
    {
      && Fits(layout) && Block(addr, layout.row) in heap.Tracked() && this !in heap.Repr
      && forall n :: n in nodes ==> Block(n.addr, layout.entry) in heap.Tracked() && n !in heap.Repr
    }

    constructor (addr: nat, socket: Sock)
      ensures Valid() && this.addr == addr && this.socket == socket && next == null
      ensures entries == [] && nodes == [] && own == {}
    {
      this.addr, this.socket, head, next, nodes, own, entries := addr, socket, null, null, [], {}, [];
    }

    function Socket(heap: Allocator, ghost layout: Layout): Sock
      requires heap.Accessible(Block(addr, layout.row), 0, 4)
      reads this`socket, heap.table`live
    {
      socket
    }

    function Head(heap: Allocator, ghost layout: Layout): Node?<K>
      requires heap.Accessible(Block(addr, layout.row), HEAD, PTR_LEN)
      reads this`head, heap.table`live
    {
      head
    }

    function NextRow(heap: Allocator, ghost layout: Layout): SocketList?<K>
      requires heap.Accessible(Block(addr, layout.row), NEXT, PTR_LEN)
      reads this`next, heap.table`live
    {
      next
    }

    method SetHead(heap: Allocator, layout: Layout, n: Node?<K>)
      requires heap.Clean() && heap.Accessible(Block(addr, layout.row), HEAD, PTR_LEN)
      modifies this`head, heap`mem
      ensures head == n && Holds(heap.mem, addr + HEAD, Le(NodeAddress(n), PTR_LEN))
      ensures heap.Payloads() == WriteAt(old(heap.Payloads()), addr, HEAD, Le(NodeAddress(n), PTR_LEN))
      ensures heap.Clean()
    {
      hide Holds, NoStray, AllGuardsIntact, PayloadsOf, WriteAt;
      heap.Store(addr, HEAD, Le(NodeAddress(n), PTR_LEN), layout.row);
      head := n;
    }

    method SetNextRow(heap: Allocator, layout: Layout, row: SocketList?<K>)
      requires heap.Clean() && heap.Accessible(Block(addr, layout.row), NEXT, PTR_LEN)
      modifies this`next, heap`mem
      ensures next == row && Holds(heap.mem, addr + NEXT, Le(RowAddress(row), PTR_LEN))
      ensures heap.Payloads() == WriteAt(old(heap.Payloads()), addr, NEXT, Le(RowAddress(row), PTR_LEN))
      ensures heap.Clean()
    {
      hide Holds, NoStray, AllGuardsIntact, PayloadsOf, WriteAt;
      heap.Store(addr, NEXT, Le(RowAddress(row), PTR_LEN), layout.row);
      next := row;
    }

    /** What smartfree does to the row. */
    method Wipe()
      modifies this`socket, this`head, this`next
    {
      socket, head, next := *, *, *;
    }

    /** The inner loop of findNode, findPort and findFlow. */
    method Search(heap: Allocator, layout: Layout, key: K) returns (n: Node?<K>)
      requires Valid() && Alive(heap, layout)
      ensures var j := EntryIndex(entries, key);
              if j < |entries| then n != null && n in nodes && n.Value() == entries[j] else n == null
    {
      n := Head(heap, layout);
      ghost var k := 0;
      while n != null && n.Key(heap, layout) != key
        invariant 0 <= k <= |nodes| && n == At(nodes, k, null)
        invariant forall i :: 0 <= i < k ==> entries[i].key != key
        decreases |nodes| - k
      {
        n := n.Next(heap, layout);
        k := k + 1;
      }
    }

    /** The addresses of the nodes are those in the entries. */
    lemma AddressesInOrder()
      requires Valid()
      ensures forall i: nat {:trigger AddrAt(entries, i)} :: NodeAddress(At(nodes, i, null)) == AddrAt(entries, i)
    {
      forall i: nat ensures NodeAddress(At(nodes, i, null)) == AddrAt(entries, i) {
        assert i < |nodes| ==> nodes[i].Value() == entries[i];
      }
    }

    /** newNode->next = cur->head and cur->head = newNode. */
    method PutFirst(heap: Allocator, layout: Layout, n: Node<K>)
      requires Valid() && Alive(heap, layout) && n !in nodes && n.list == this
      requires heap.Clean() && Block(n.addr, layout.entry) in heap.Tracked() && n !in heap.Repr
      modifies this`head, this`nodes, this`own, this`entries, n`next, heap`mem
      ensures Valid() && nodes == [n] + old(nodes) && own == old(own) + {n} && entries == [n.Value()] + old(entries)
      ensures heap.Payloads() == LinkedFirst(old(heap.Payloads()), Row(socket, addr, old(entries)), n.addr, layout)
      ensures heap.Clean()
    {
      hide Allocator.Clean, Allocator.Tracked, Allocator.Total, Allocator.Payloads, Holds, WriteAt;
      AddressesInOrder();
      n.SetNext(heap, layout, Head(heap, layout));
      SetHead(heap, layout, n);
      nodes, own, entries := [n] + nodes, own + {n}, [n.Value()] + entries;
      hide SocketList.Valid;
      Extended(n);
    }

    /** The list is in order again once n has been put in front of it. */
    twostate lemma Extended(n: Node<K>)
      requires old(Valid()) && n !in old(nodes) && n.list == this && n.next == old(head) && head == n
      requires nodes == [n] + old(nodes) && own == old(own) + {n} && entries == [n.Value()] + old(entries)
      requires forall o :: o in old(own) && o != n ==> unchanged(o)
      ensures Valid()
    {
    }

    /** What unlinking the k-th node relies on. */
    lemma AroundNode(k: nat)
      requires Valid() && k < |nodes|
      ensures |entries| == |nodes| && head == At(nodes, 0, null) && nodes[k].next == At(nodes, k + 1, null)
      ensures NodeAddress(At(nodes, k + 1, null)) == AddrAt(entries, k + 1)
      ensures k > 0 ==> nodes[k - 1] in own && nodes[k - 1].addr == entries[k - 1].addr
      ensures forall i :: 0 <= i < |nodes| ==> nodes[i] in own && (i != k - 1 ==> k == 0 || nodes[i] != nodes[k - 1])
    {
      AddressesInOrder();
      assert k > 0 ==> nodes[k - 1].Value() == entries[k - 1];
    }

    /** The inner part of findRemoveNode. */
    method TakeByPort(heap: Allocator, layout: Layout, port: uint16) returns (node: Node?<K>)
      requires Valid() && Alive(heap, layout) && heap.Clean()
      modifies this`head, this`nodes, this`entries, own`next, heap`mem
      ensures Valid() && (forall n :: n in nodes ==> n in old(nodes) && n != node)
      ensures var j := PortIndex(old(entries), port);
              if j < |old(entries)| then
                && node != null && node in old(nodes) && node.Value() == old(entries)[j]
                && entries == Without(old(entries), j)
                && heap.Payloads() == LinkedPast(old(heap.Payloads()), Row(socket, addr, old(entries)), j, layout)
              else
                && node == null && entries == old(entries) && nodes == old(nodes)
                && heap.Payloads() == old(heap.Payloads())
      ensures heap.Clean()
    {
      hide Allocator.Clean, Allocator.Tracked, Allocator.Total, Allocator.Payloads, Holds, WriteAt;
      AddressesInOrder();
      var tmp := Head(heap, layout);
      if tmp == null {
        return null;
      }
      if tmp.Port(heap, layout) == port {
        Unlink(heap, layout, 0, null, tmp);
        return tmp;
      }
      var prev := tmp;
      ghost var k := 0;
      while tmp != null && tmp.Port(heap, layout) != port
        invariant 0 <= k <= |nodes| && tmp == At(nodes, k, null) && (k > 0 ==> prev == nodes[k - 1])
        invariant forall i :: 0 <= i < k ==> entries[i].port != port
        decreases |nodes| - k
      {
        prev := tmp;
        tmp := tmp.Next(heap, layout);
        k := k + 1;
      }
      if tmp == null {
        return null;
      }
      Unlink(heap, layout, k, prev, tmp);
      return tmp;
    }

    /** tmp_node = ll->head and ll->head = ll->head->next, in freeLL and freeFlows. */
    method DropHead(heap: Allocator, layout: Layout) returns (tmp: Node<K>)
      requires Valid() && Alive(heap, layout) && heap.Clean() && nodes != []
      modifies this`head, this`nodes, this`entries, heap`mem
      ensures Valid() && nodes == old(nodes)[1..] && tmp == old(nodes)[0] && tmp !in nodes && tmp in own
      ensures old(entries) == [tmp.Value()] + entries
      ensures heap.Payloads() == LinkedPast(old(heap.Payloads()), Row(socket, addr, old(entries)), 0, layout)
      ensures heap.Clean()
    {
      hide Allocator.Clean, Allocator.Tracked, Allocator.Total, Allocator.Payloads, Holds, WriteAt;
      AddressesInOrder();
      tmp := Head(heap, layout);
      SetHead(heap, layout, Head(heap, layout).Next(heap, layout));
      nodes, entries := nodes[1..], entries[1..];
      hide SocketList.Valid;
      HeadDropped();
    }

    /** The list is in order again without its first node. */
    twostate lemma HeadDropped()
      requires old(Valid()) && old(nodes) != [] && head == old(nodes[0].next) && own == old(own)
      requires nodes == old(nodes)[1..] && entries == old(entries)[1..]
      requires forall n :: n in own && n in old(own) ==> unchanged(n)
      ensures Valid() && old(nodes)[0] !in nodes && old(entries) == [old(nodes)[0].Value()] + entries
    {
    }

    /** A node that has left the list does not matter any more. */
    method WipeNode(tmp: Node<K>)
      requires Valid() && tmp in own && tmp !in nodes
      modifies tmp`key, tmp`port, tmp`next
      ensures Valid()
    {
      tmp.Wipe();
    }

    method Unlink(heap: Allocator, layout: Layout, ghost k: nat, prev: Node?<K>, node: Node<K>)
      requires Valid() && Alive(heap, layout) && heap.Clean()
      requires k < |nodes| && node == nodes[k] && prev == if k == 0 then null else nodes[k - 1]
      modifies this`head, this`nodes, this`entries, own`next, heap`mem
      ensures Valid() && node !in nodes
      ensures nodes == Without(old(nodes), k) && entries == Without(old(entries), k)
      ensures heap.Payloads() == LinkedPast(old(heap.Payloads()), Row(socket, addr, old(entries)), k, layout)
      ensures heap.Clean()
    {
      hide Allocator.Clean, Allocator.Tracked, Allocator.Total, Allocator.Payloads, Holds, WriteAt, SocketList.Valid;
      AroundNode(k);
      if prev == null {
        SetHead(heap, layout, node.Next(heap, layout));
      } else {
        prev.SetNext(heap, layout, node.Next(heap, layout));
      }
      nodes, entries := Without(nodes, k), Without(entries, k);
      hide Without;
      Bypassed(k);
    }

    /** The list is in order again once its k-th node has been bypassed. */
    twostate lemma Bypassed(k: nat)
      requires old(Valid()) && k < |old(nodes)|
      requires nodes == Without(old(nodes), k) && entries == Without(old(entries), k)
      requires head == if k == 0 then old(At(nodes, 1, null)) else old(head)
      requires own == old(own) && forall n :: n in own ==> n.Value() == old(n.Value())
      requires forall i :: 0 <= i < |old(nodes)| ==>
                 old(nodes)[i].next == if i == k - 1 then old(nodes[k].next) else old(nodes[i].next)
      ensures Valid() && old(nodes)[k] !in nodes
    {
      WithoutAt(old(nodes), k);
      WithoutAt(old(entries), k);
      hide Without;
    }
  }

  lemma WithoutAt<T>(s: seq<T>, k: nat)
    requires k < |s|
    ensures |Without(s, k)| == |s| - 1
    ensures forall i :: 0 <= i < |s| - 1 ==> Without(s, k)[i] == s[if i < k then i else i + 1]
  {
  }

  function RowAddress<K>(row: SocketList?<K>): nat {
    if row == null then 0 else row.addr
  }

  lemma MoreBlocks(tracked: multiset<Block>, tracked': multiset<Block>, blocks: multiset<Block>,
                   blocks': multiset<Block>, rest: multiset<Block>, more: multiset<Block>, andMore: multiset<Block>)
    requires tracked == blocks + rest
    requires tracked' == tracked + more + andMore && blocks' == blocks + more + andMore
    ensures tracked' == blocks' + rest
  {
  }

  lemma StillOwned(tracked: multiset<Block>, tracked': multiset<Block>, blocks: multiset<Block>, b: Block)
    requires blocks <= tracked && tracked' == tracked + multiset{b}
    ensures blocks <= tracked' && blocks + multiset{b} <= tracked'
  {
    assert blocks + multiset{b} <= tracked + multiset{b};
  }

  lemma FewerBlocks(tracked: multiset<Block>, tracked': multiset<Block>, blocks: multiset<Block>,
                    blocks': multiset<Block>, rest: multiset<Block>, b: Block)
    requires tracked == blocks + rest && tracked == tracked' + multiset{b} && blocks == blocks' + multiset{b}
    ensures tracked' == blocks' + rest
  {
    forall x ensures tracked'[x] == (blocks' + rest)[x] {
      assert tracked[x] == (blocks + rest)[x] == (tracked' + multiset{b})[x];
    }
  }

  lemma OneLess(tracked: multiset<Block>, tracked': multiset<Block>, blocks: multiset<Block>, rest: multiset<Block>,
                b: Block)
    requires tracked == blocks + (rest + multiset{b}) && tracked == tracked' + multiset{b}
    ensures tracked' == blocks + rest
  {
    forall x ensures tracked'[x] == (blocks + rest)[x] {
      assert tracked[x] == (blocks + (rest + multiset{b}))[x] == (tracked' + multiset{b})[x];
    }
  }

  lemma HandedOver(tracked: multiset<Block>, blocks: multiset<Block>, blocks': multiset<Block>, rest: multiset<Block>,
                   b: Block)
    requires tracked == blocks + rest && blocks == blocks' + multiset{b}
    ensures tracked == blocks' + (rest + multiset{b})
  {
  }

  class Table<K(==)> {
    const layout: Layout
    ghost const octets: K -> seq<byte>   // how a key lies in memory
    var first: SocketList?<K>
    ghost var spine: seq<SocketList<K>>
    ghost var rows: seq<Row<K>>
    ghost var Repr: set<object>

    ghost predicate Valid()
      reads this, Repr
      ensures Valid() ==> this in Repr
    {
      && this in Repr && Fits(layout)
      && |spine| == |rows| && first == At(spine, 0, null)
      && (forall i :: 0 <= i < |spine| ==> spine[i] in Repr && (forall n :: n in spine[i].own ==> n in Repr))
      && (forall i {:trigger spine[i].next} :: 0 <= i < |spine| ==> spine[i].next == At(spine, i + 1, null))
      && (forall i :: 0 <= i < |spine| ==> spine[i].Is(rows[i]))
      && (forall i, j :: 0 <= i < j < |spine| ==> spine[i] != spine[j])
    }

    /** The blocks of all rows and nodes are live, and the allocator and the table have no object in common. */
    ghost predicate Owned(heap: Allocator)
      reads this, heap`Repr, heap.table`live
    {
      RowBlocks(rows, layout) <= heap.Tracked() && Repr !! heap.Repr
    }

    /** The live blocks are those of this table and the rest, and so are their sizes. */
    ghost predicate Accounted(heap: Allocator, rest: multiset<Block>, restSpace: nat)
      reads this, heap.table`live
    {
      heap.Tracked() == RowBlocks(rows, layout) + rest && heap.Total() == Space(rows, layout) + restSpace
    }

    /** All fields of the rows and nodes lie in their blocks, octet by octet. */
    ghost predicate InMemory(heap: Allocator)
      reads this, heap.table`live, heap`mem
    {
      RowsOk(heap.Payloads(), rows, layout, octets)
    }

    /** Row i is in order, and has nothing in common with the others: every node is in the list it was made for. */
    lemma OneRow(i: nat)
      requires Valid() && i < |spine|
      ensures |rows| == |spine| && spine[i].Valid() && rows[i] == Row(spine[i].socket, spine[i].addr, spine[i].entries)
      ensures forall j :: 0 <= j < |spine| && j != i ==> spine[j] != spine[i] && spine[j].Is(rows[j])
      ensures forall j, n :: 0 <= j < |spine| && n in spine[j].own ==> n.list == spine[j]
    {
      forall j | 0 <= j < |spine| ensures spine[j].Is(rows[j]) {
      }
    }

    lemma RowsAreAlive(heap: Allocator)
      requires Valid() && Owned(heap)
      ensures forall i :: 0 <= i < |spine| ==> spine[i].Alive(heap, layout)
    {
      hide SocketList.Alive;
      forall i | 0 <= i < |spine| ensures spine[i].Alive(heap, layout) {
        RowIsAlive(heap, i);
      }
    }

    /** What walking along the rows relies on. */
    lemma SpineFacts(heap: Allocator)
      requires Valid() && Owned(heap)
      ensures |rows| == |spine| && first == At(spine, 0, null)
      ensures forall i :: 0 <= i < |spine| ==> spine[i].Alive(heap, layout) && spine[i].socket == rows[i].socket
      ensures forall i {:trigger spine[i].next} :: 0 <= i < |spine| ==> spine[i].next == At(spine, i + 1, null)
    {
      RowsAreAlive(heap);
      hide SocketList.Alive, SocketList.Valid;
      forall i | 0 <= i < |spine| ensures spine[i].socket == rows[i].socket {
        assert spine[i].Is(rows[i]);
      }
    }

    lemma RowIsAlive(heap: Allocator, i: nat)
      requires Valid() && Owned(heap) && i < |spine|
      ensures spine[i].Alive(heap, layout)
    {
      var row := spine[i];
      assert row.Is(rows[i]) && row in Repr;
      RowCounted(rows, i, layout);
      forall n | n in row.nodes ensures Block(n.addr, layout.entry) in heap.Tracked() {
        var j :| 0 <= j < |row.nodes| && row.nodes[j] == n;
        assert row.nodes[j].Value() == row.entries[j];
        EntryCounted(row.entries, j, layout.entry);
      }
    }

    /** Row i, and what makes it independent of the others. */
    lemma RowFacts(heap: Allocator, i: nat)
      requires Valid() && Owned(heap) && i < |spine|
      ensures |rows| == |spine| && first == At(spine, 0, null) && Repr !! heap.Repr && this in Repr && spine[i] in Repr
      ensures forall n :: n in spine[i].own ==> n in Repr
      ensures spine[i].Valid() && rows[i] == Row(spine[i].socket, spine[i].addr, spine[i].entries)
      ensures spine[i].Alive(heap, layout)
    {
      OneRow(i);
      RowIsAlive(heap, i);
    }

    /** A table is in order again after a change to one of its rows. */
    twostate lemma RowReplaced(i: nat)
      requires old(Valid()) && i < |old(spine)| && old(Repr) <= Repr && this in Repr
      requires spine == old(spine) && first == old(first) && |rows| == |old(rows)|
      requires spine[i].Valid() && rows[i] == Row(spine[i].socket, spine[i].addr, spine[i].entries)
      requires forall n :: n in spine[i].own ==> n in old(spine[i].own) || n in Repr
      requires forall j :: 0 <= j < |spine| ==> spine[j].next == old(spine[j].next)
      requires forall j :: 0 <= j < |spine| && j != i ==> rows[j] == old(rows[j])
      requires forall o :: o in old(Repr) && o != this && o != spine[i] && o !in old(spine[i].own) ==> unchanged(o)
      ensures Valid()
    {
      hide At, Fits;
      forall j | 0 <= j < |spine| && j != i ensures spine[j].Is(rows[j]) && spine[j].own == old(spine[j].own) {
        assert old(spine[j].Is(rows[j])) && unchanged(spine[j]);
        spine[j].Kept(rows[j]);
      }
      hide SocketList.Valid;
    }

    /** It is in order again after a new row has been put at its end. */
    twostate lemma RowAdded(new row: SocketList<K>)
      requires old(Valid()) && old(spine) != [] && first == old(first) && row !in old(Repr) && Repr == old(Repr) + {row}
      requires spine == old(spine) + [row] && rows == old(rows) + [Row(row.socket, row.addr, row.entries)]
      requires row.Valid() && row.own == {} && row.next == null
      requires forall o :: o in old(Repr) && o != this && o != old(spine)[|old(spine)| - 1] ==> unchanged(o)
      requires var last: SocketList<K> := old(spine)[|old(spine)| - 1];
               last.next == row && unchanged(last`socket, last`head, last`nodes, last`own, last`entries)
      ensures Valid()
    {
      hide Fits;
      forall j | 0 <= j < |old(spine)| ensures spine[j].Is(rows[j]) && spine[j].own == old(spine[j].own) {
        assert old(spine[j].Is(rows[j]));
        spine[j].Kept(rows[j]);
      }
      assert row.Is(rows[|old(spine)|]);
      hide SocketList.Is;
    }

    /** It is in order again without its first row. */
    twostate lemma RowDropped()
      requires old(Valid()) && old(spine) != [] && first == old(spine[0].next) && Repr == old(Repr)
      requires spine == old(spine)[1..] && rows == old(rows)[1..]
      requires forall o :: o in old(Repr) && o != this ==> unchanged(o)
      ensures Valid()
    {
      hide SocketList.Valid;
    }

    lemma FoundRow(heap: Allocator, socket: Sock, i: nat)
      requires Valid() && Owned(heap) && i <= |rows| && forall j :: 0 <= j < i ==> rows[j].socket != socket
      requires i < |rows| ==> rows[i].socket == socket
      ensures RowIndex(rows, socket) == i
      ensures EntriesOf(rows, socket) == if i < |spine| then spine[i].entries else []
      ensures i < |spine| ==> spine[i].Valid() && spine[i].Alive(heap, layout)
    {
      RowIndexIs(rows, socket, i);
      if i < |spine| {
        RowFacts(heap, i);
      }
    }

    /** The outer loop: the first row for the socket. */
    method FindRow(heap: Allocator, socket: Sock) returns (cur: SocketList?<K>)
      requires Valid() && Owned(heap)
      ensures cur == At(spine, RowIndex(rows, socket), null)
      ensures cur == null ==> EntriesOf(rows, socket) == []
      ensures cur != null ==> cur.Valid() && cur.Alive(heap, layout) && cur.entries == EntriesOf(rows, socket)
    {
      SpineFacts(heap);
      hide Valid, Owned, Allocator.Tracked, RowBlocks, SocketList.Valid, SocketList.Is, SocketList.Alive,
           RowIndex, EntriesOf;
      cur := first;
      ghost var i := 0;
      while cur != null && SocketOf(heap, cur) != socket
        invariant 0 <= i <= |spine| && cur == At(spine, i, null)
        invariant forall j :: 0 <= j < i ==> rows[j].socket != socket
        decreases |spine| - i
      {
        cur := NextOf(heap, cur);
        i := i + 1;
      }
      FoundRow(heap, socket, i);
    }

    function SocketOf(heap: Allocator, row: SocketList<K>): (socket: Sock)
      requires row.Alive(heap, layout)
      reads row, heap`Repr, heap.table`live
      ensures socket == row.socket
    {
      row.Socket(heap, layout)
    }

    function NextOf(heap: Allocator, row: SocketList<K>): (next: SocketList?<K>)
      requires row.Alive(heap, layout)
      reads row, heap`Repr, heap.table`live
      ensures next == row.next
    {
      row.NextRow(heap, layout)
    }

    /** findNode. */
    method FindNode(heap: Allocator, socket: Sock, key: K) returns (found: int)
      requires Valid() && Owned(heap)
      ensures found == SocketLists.FindNode(rows, socket, key)
    {
      hide Valid, Owned, EntriesOf, SocketList.Valid;
      var cur := FindRow(heap, socket);
      if cur != null {
        var n := cur.Search(heap, layout, key);
        return if n != null then 1 else 0;
      }
      return 0;
    }

    /** findPort. */
    method FindPort(heap: Allocator, socket: Sock, key: K) returns (port: uint16)
      requires Valid() && Owned(heap)
      ensures port == SocketLists.FindPort(rows, socket, key)
    {
      hide Valid, Owned, EntriesOf, SocketList.Valid;
      var cur := FindRow(heap, socket);
      if cur != null {
        var n := cur.Search(heap, layout, key);
        return if n != null then n.Port(heap, layout) else 0;
      }
      return 0;
    }

    /** findFlow. */
    method FindFlow(heap: Allocator, socket: Sock, key: K) returns (n: Node?<K>)
      requires Valid() && Owned(heap)
      ensures match Find(rows, socket, key)
              case Some(p) => n != null && n.key == key && n.port == p
              case None => n == null
    {
      hide Valid, Owned, EntriesOf, SocketList.Valid;
      var cur := FindRow(heap, socket);
      if cur != null {
        n := cur.Search(heap, layout, key);
      } else {
        n := null;
      }
    }

    /** The zero-filled sentinel that handleConnections starts with. */
    constructor (layout: Layout, addr: nat, ghost octets: K -> seq<byte>)
      requires Fits(layout)
      ensures Valid() && fresh(Repr) && this.layout == layout && this.octets == octets
      ensures rows == [Row(0, addr, [])] && first != null
    {
      this.layout, this.octets := layout, octets;
      var sentinel := new SocketList(addr, 0);
      first, spine, rows := sentinel, [sentinel], [Row(0, addr, [])];
      Repr := {this, sentinel};
    }

    /** findRemoveNode: the node is unlinked, and its block handed over to the caller. */
    method FindRemoveNode(heap: Allocator, socket: Sock, port: uint16, ghost rest: multiset<Block>, ghost restSpace: nat)
      returns (node: Node?<K>)
      requires Valid() && Owned(heap) && heap.Clean() && InMemory(heap) && Accounted(heap, rest, restSpace)
      modifies Repr, heap`mem
      ensures Valid() && Repr == old(Repr) && Owned(heap) && heap.Clean()
      ensures InMemory(heap) && Keeps(old(heap.Payloads()), old(rows), heap.Payloads(), rows)
      ensures rows == RemoveByPort(old(rows), socket, port).1
      ensures match RemoveByPort(old(rows), socket, port).0
              case Some(e) =>
                && node != null && node.Value() == e && node.addr !in Addrs(rows)
                && Accounted(heap, rest + multiset{Block(node.addr, layout.entry)}, restSpace + layout.entry)
              case None => node == null && Accounted(heap, rest, restSpace)
    {
      hide Allocator.Clean, Allocator.Valid, Allocator.Tracked, Allocator.Total, Allocator.Payloads, Holds, RowBlocks,
           Space, RowsOk, Keeps, Addrs;
      hide SocketList.Is, SocketList.Valid, SocketList.Alive, RowIndex, EntriesOf, RemoveByPort;
      var cur := FindRow(heap, socket);
      ghost var rows0, tracked, i := rows, heap.Tracked(), RowIndex(rows, socket);
      RemovedAt(rows, socket, port);
      KeepsItself(heap.Payloads(), rows);
      ghost var before := heap.Payloads();
      assert |rows| == |spine| && Fits(layout);
      hide Valid;
      if cur == null {
        return null;
      }
      node := TakeFromRow(heap, cur, i, port);
      hide PortIndex, Without, LinkedPast;
      if node != null {
        LinkedPastOk(before, rows0, i, PortIndex(rows0[i].entries, port), layout, octets);
      }
      if node != null {
        ghost var b := Block(node.addr, layout.entry);
        assert Accounted(heap, rest + multiset{b}, restSpace + layout.entry) by {
          EntryRemoved(rows0, i, PortIndex(rows0[i].entries, port), layout);
          HandedOver(tracked, RowBlocks(rows0, layout), RowBlocks(rows, layout), rest, b);
        }
      }
    }

    method TakeFromRow(heap: Allocator, row: SocketList<K>, ghost i: nat, port: uint16) returns (node: Node?<K>)
      requires Valid() && Owned(heap) && heap.Clean() && i < |spine| && row == spine[i]
      modifies this`rows, row`head, row`nodes, row`entries, row.own`next, heap`mem
      ensures Valid() && spine == old(spine) && Repr == old(Repr)
      ensures heap.Clean()
      ensures var es := old(rows)[i].entries;
              var j := PortIndex(es, port);
              if j < |es| then
                && node != null && node.Value() == es[j]
                && rows == old(rows)[i := old(rows)[i].(entries := Without(es, j))]
                && heap.Payloads() == LinkedPast(old(heap.Payloads()), old(rows)[i], j, layout)
              else
                node == null && rows == old(rows) && heap.Payloads() == old(heap.Payloads())
    {
      hide Allocator.Clean, Allocator.Valid, Allocator.Tracked, Allocator.Total, Allocator.Payloads, Holds, RowBlocks,
           Space, RowsOk, Keeps, Addrs;
      hide Valid, Owned, SocketList.Is, SocketList.Valid, SocketList.Alive;
      RowFacts(heap, i);
      node := row.TakeByPort(heap, layout, port);
      rows := rows[i := rows[i].(entries := row.entries)];
      RowReplaced(i);
    }

    // ---------------------------------------------------------------- addPathNode and addFlowNode

    method InitRow(heap: Allocator, addr: nat, socket: Sock) returns (row: SocketList<K>)
      requires heap.Clean() && Fits(layout) && Block(addr, layout.row) in heap.Tracked()
      modifies heap`mem
      ensures fresh(row) && row !in heap.Repr && row.Valid()
      ensures row.addr == addr && row.socket == socket && row.entries == [] && row.own == {} && row.next == null
      ensures RowInitialised<K>(old(heap.Payloads()), heap.Payloads(), Row(socket, addr, []), layout)
      ensures heap.Clean()
    {
      hide Allocator.Clean, Allocator.Valid, Allocator.Tracked, Allocator.Total, Allocator.Payloads, Holds, RowBlocks,
           Space, RowsOk, Keeps, Addrs;
      heap.PayloadIsShown(Block(addr, layout.row));
      RowIsWritten<K>(heap.Payloads(), Row(socket, addr, []), layout);
      heap.Store(addr, 0, Le(socket % 0x1_0000_0000, 4), layout.row);
      heap.Store(addr, HEAD, Le(0, PTR_LEN), layout.row);
      heap.Store(addr, NEXT, Le(0, PTR_LEN), layout.row);
      row := new SocketList(addr, socket);
    }

    /** A new row at the end of the list, in the block at addr. */
    method AppendRow(heap: Allocator, last: SocketList<K>, addr: nat, socket: Sock) returns (row: SocketList<K>)
      requires Valid() && Owned(heap) && heap.Clean() && spine != [] && last == spine[|spine| - 1]
      requires Block(addr, layout.row) in heap.Tracked() && InMemory(heap) && addr !in Addrs(rows)
      modifies this`spine, this`rows, this`Repr, last`next, heap`mem
      ensures Valid() && fresh(Repr - old(Repr)) && Repr !! heap.Repr
      ensures spine == old(spine) + [row] && rows == old(rows) + [Row(socket, addr, [])] && fresh(row) && row in Repr
      ensures InMemory(heap) && KeepsBut(old(heap.Payloads()), old(rows), heap.Payloads(), rows, addr)
      ensures heap.Clean()
    {
      hide Allocator.Clean, Allocator.Valid, Allocator.Tracked, Allocator.Total, Allocator.Payloads, Holds, RowBlocks,
           Space, RowsOk, Keeps, Addrs;
      hide Valid, Owned, SocketList.Is, SocketList.Valid, SocketList.Alive, KeepsBut, RowInitialised, WriteAt;
      RowFacts(heap, |spine| - 1);
      ghost var im0, rows0 := heap.Payloads(), rows;
      row := InitRow(heap, addr, socket);
      ghost var im1 := heap.Payloads();
      last.SetNextRow(heap, layout, row);
      assert RowsOk(heap.Payloads(), rows + [Row(socket, addr, [])], layout, octets)
          && KeepsBut(im0, rows, heap.Payloads(), rows + [Row(socket, addr, [])], addr) by {
        RowLinked(im0, im1, rows0, Row(socket, addr, []), layout, octets);
      }
      spine, rows, Repr := spine + [row], rows + [Row(socket, addr, [])], Repr + {row};
      RowAdded(row);
    }

    /** A new entry at the front of row i. */
    method PutEntry(heap: Allocator, row: SocketList<K>, ghost i: nat, n: Node<K>)
      requires Valid() && Owned(heap) && heap.Clean() && i < |spine| && row == spine[i] && n !in Repr && n.list == row
      requires Block(n.addr, layout.entry) in heap.Tracked() && n !in heap.Repr
      requires InMemory(heap) && n.addr !in Addrs(rows) && Fresh(heap.Payloads(), n.Value(), layout, octets)
      modifies this`rows, this`Repr, row`head, row`nodes, row`own, row`entries, n`next, heap`mem
      ensures Valid() && Repr == old(Repr) + {n}
      ensures rows == old(rows)[i := old(rows)[i].(entries := [n.Value()] + old(rows)[i].entries)]
      ensures InMemory(heap) && KeepsBut(old(heap.Payloads()), old(rows), heap.Payloads(), rows, n.addr)
      ensures heap.Clean()
    {
      hide Allocator.Clean, Allocator.Valid, Allocator.Tracked, Allocator.Total, Allocator.Payloads, Holds, RowBlocks,
           Space, RowsOk, Keeps, Addrs;
      hide Valid, Owned, SocketList.Is, SocketList.Valid, SocketList.Alive;
      RowFacts(heap, i);
      assert Fits(layout) by {
        FitsLayout();
      }
      PutFirstOk(heap.Payloads(), rows, i, n.Value(), layout, octets);
      row.PutFirst(heap, layout, n);
      rows, Repr := rows[i := rows[i].(entries := row.entries)], Repr + {n};
      RowReplaced(i);
    }

    /** addPathNode and addFlowNode; keyOctets is the key as it is copied to the new node. */
    method Add(heap: Allocator, socket: Sock, key: K, keyOctets: seq<byte>, port: uint16,
               ghost rest: multiset<Block>, ghost restSpace: nat)
      returns (added: int, ghost rowAddr: nat, ghost addr: nat)
      requires Valid() && first != null && heap.Clean() && Owned(heap) && InMemory(heap)
      requires keyOctets == octets(key) && |keyOctets| <= layout.port && Accounted(heap, rest, restSpace)
      modifies Repr, heap.Repr
      ensures Valid() && first == old(first) && heap.Clean() && Owned(heap)
      ensures InMemory(heap) && Keeps(old(heap.Payloads()), old(rows), heap.Payloads(), rows)
      ensures fresh(Repr - old(Repr)) && fresh(heap.Repr - old(heap.Repr))
      ensures rows == SocketLists.Add(old(rows), socket, key, port, rowAddr, addr)
      ensures added == if Find(old(rows), socket, key).Some? then 0 else 1
      ensures Accounted(heap, rest, restSpace) && heap.reports == old(heap.reports)
    {
      hide Allocator.Clean, Allocator.Valid, Allocator.Tracked, Allocator.Total, Allocator.Payloads, Holds, RowBlocks,
           Space, RowsOk, Keeps, Addrs;
      rowAddr, addr := 0, 0;
      KeepsItself(heap.Payloads(), rows);
      var found := FindFlow(heap, socket, key);
      if found != null {
        return 0, 0, 0;
      }
      added := 1;
      rowAddr, addr := AddNew(heap, socket, key, keyOctets, port, rest, restSpace);
    }

    lemma FitsLayout()
      requires Valid()
      ensures Fits(layout)
    {
    }

    lemma NotInHeap(heap: Allocator)
      requires Valid() && Owned(heap)
      ensures this !in heap.Repr
    {
    }

    /** The same, once the key is known to be new. */
    method AddNew(heap: Allocator, socket: Sock, key: K, keyOctets: seq<byte>, port: uint16,
                  ghost rest: multiset<Block>, ghost restSpace: nat)
      returns (ghost rowAddr: nat, ghost addr: nat)
      requires Valid() && first != null && heap.Clean() && Owned(heap) && InMemory(heap)
      requires keyOctets == octets(key) && |keyOctets| <= layout.port
      requires Find(rows, socket, key).None? && Accounted(heap, rest, restSpace)
      modifies Repr, heap.Repr
      ensures Valid() && first == old(first) && heap.Clean() && Owned(heap)
      ensures InMemory(heap) && Keeps(old(heap.Payloads()), old(rows), heap.Payloads(), rows)
      ensures fresh(Repr - old(Repr)) && fresh(heap.Repr - old(heap.Repr))
      ensures rows == SocketLists.Add(old(rows), socket, key, port, rowAddr, addr)
      ensures Accounted(heap, rest, restSpace) && heap.reports == old(heap.reports)
    {
      hide Allocator.Clean, Allocator.Valid, Allocator.Tracked, Allocator.Total, Allocator.Payloads, Holds, RowBlocks,
           Space, RowsOk, Keeps, Addrs;
      hide Valid, Owned, SocketLists.Add, SocketLists.Find, RowIndex;
      ghost var rows0, tracked0 := rows, heap.Tracked();
      var cur;
      ghost var i, more;
      cur, i, rowAddr, more := FindOrAddRow(heap, socket);
      ghost var rows1, im1 := rows, heap.Payloads();
      assert this !in heap.Repr by {
        NotInHeap(heap);
      }
      addr := NewEntry(heap, cur, i, key, keyOctets, port);
      KeepsTwice(old(heap.Payloads()), rows0, im1, rows1, heap.Payloads(), rows);
      assert rows == SocketLists.Add(rows0, socket, key, port, rowAddr, addr) by {
        AddInTwoSteps(rows0, rows1, socket, key, port, rowAddr, addr);
      }
      assert Accounted(heap, rest, restSpace) by {
        AddBlocks(rows0, socket, key, port, rowAddr, addr, layout);
        MoreBlocks(tracked0, heap.Tracked(), RowBlocks(rows0, layout), RowBlocks(rows, layout), rest,
                   more, multiset{Block(addr, layout.entry)});
      }
    }

    /** The first row for the socket, which is added at the end if there is none; more are the blocks it took. */
    method FindOrAddRow(heap: Allocator, socket: Sock)
      returns (cur: SocketList<K>, ghost i: nat, ghost rowAddr: nat, ghost more: multiset<Block>)
      requires Valid() && first != null && heap.Clean() && Owned(heap) && InMemory(heap)
      modifies Repr, heap.Repr
      ensures Valid() && first == old(first) && heap.Clean() && Owned(heap)
      ensures InMemory(heap) && Keeps(old(heap.Payloads()), old(rows), heap.Payloads(), rows)
      ensures fresh(Repr - old(Repr)) && fresh(heap.Repr - old(heap.Repr))
      ensures i == RowIndex(old(rows), socket) < |spine| && cur == spine[i] && cur in Repr
      ensures rows == if i < |old(rows)| then old(rows) else old(rows) + [Row(socket, rowAddr, [])]
      ensures more == if i < |old(rows)| then multiset{} else multiset{Block(rowAddr, layout.row)}
      ensures heap.Tracked() == old(heap.Tracked()) + more
      ensures heap.Total() == old(heap.Total()) + if i < |old(rows)| then 0 else layout.row
      ensures heap.reports == old(heap.reports)
    {
      hide Allocator.Clean, Allocator.Valid, Allocator.Tracked, Allocator.Total, Allocator.Payloads, Holds, RowBlocks,
           Space, RowsOk, Keeps, Addrs;
      hide Valid, SocketList.Alive, SocketList.Valid, SocketList.Is, RowIndex;
      cur, i := WalkTo(heap, socket);
      KeepsItself(heap.Payloads(), rows);
      rowAddr, more := 0, multiset{};
      if SocketOf(heap, cur) == socket {
        RowIndexIs(rows, socket, i);
      } else {
        RowIndexIs(rows, socket, i + 1);
        cur, rowAddr := NewRow(heap, cur, socket);
        i, more := i + 1, multiset{Block(rowAddr, layout.row)};
      }
    }

    /** The loop of addPathNode and addFlowNode: to the first row for the socket, or else to the last row. */
    method WalkTo(heap: Allocator, socket: Sock) returns (cur: SocketList<K>, ghost i: nat)
      requires Valid() && Owned(heap) && first != null
      ensures i < |spine| == |rows| && cur == spine[i] && cur in Repr && cur.Alive(heap, layout)
      ensures cur.socket == rows[i].socket && (cur.socket == socket || i == |spine| - 1)
      ensures forall j :: 0 <= j < i ==> rows[j].socket != socket
    {
      SpineFacts(heap);
      assert forall j :: 0 <= j < |spine| ==> spine[j] in Repr;
      hide Valid, Owned, SocketList.Alive, SocketList.Valid, SocketList.Is;
      cur, i := first, 0;
      while SocketOf(heap, cur) != socket && NextOf(heap, cur) != null
        invariant 0 <= i < |spine| && cur == spine[i]
        invariant forall j :: 0 <= j < i ==> rows[j].socket != socket
        decreases |spine| - i
      {
        cur := NextOf(heap, cur);
        i := i + 1;
      }
    }

    method NewRow(heap: Allocator, last: SocketList<K>, socket: Sock)
      returns (row: SocketList<K>, ghost addr: nat)
      requires Valid() && heap.Clean() && Owned(heap) && InMemory(heap)
      requires spine != [] && last == spine[|spine| - 1]
      modifies this`spine, this`rows, this`Repr, last`next, heap.Repr
      ensures Valid() && heap.Clean() && Owned(heap)
      ensures InMemory(heap) && Keeps(old(heap.Payloads()), old(rows), heap.Payloads(), rows)
      ensures fresh(Repr - old(Repr)) && fresh(heap.Repr - old(heap.Repr))
      ensures spine == old(spine) + [row] && rows == old(rows) + [Row(socket, addr, [])] && fresh(row) && row in Repr
      ensures heap.Tracked() == old(heap.Tracked()) + multiset{Block(addr, layout.row)}
      ensures heap.Total() == old(heap.Total()) + layout.row && heap.reports == old(heap.reports)
    {
      hide Allocator.Clean, Allocator.Valid, Allocator.Tracked, Allocator.Total, Allocator.Payloads, Holds, RowBlocks,
           Space, RowsOk, Keeps, Addrs;
      assert Fits(layout);
      hide Valid, KeepsBut;
      ghost var rows0, im0 := rows, heap.Payloads();
      var a := heap.AllocBlock(layout.row);
      ghost var im1 := heap.Payloads();
      AllocatedOk(im0, rows, a, Zeros(layout.row), layout, octets);
      row := AppendRow(heap, last, a, socket);
      KeepsFromAlloc(im0, im1, rows0, heap.Payloads(), rows, a);
      addr := a;
      assert Owned(heap) by {
        RowAppended(rows0, Row(socket, a, []), layout);
      }
    }

    method NewEntry(heap: Allocator, row: SocketList<K>, ghost i: nat, key: K, keyOctets: seq<byte>, port: uint16)
      returns (ghost addr: nat)
      requires Valid() && heap.Clean() && Owned(heap) && InMemory(heap) && i < |spine| && row == spine[i]
      requires keyOctets == octets(key) && |keyOctets| <= layout.port
      modifies this`rows, this`Repr, row`head, row`nodes, row`own, row`entries, heap.Repr
      ensures Valid() && heap.Clean() && Owned(heap)
      ensures InMemory(heap) && Keeps(old(heap.Payloads()), old(rows), heap.Payloads(), rows)
      ensures fresh(Repr - old(Repr)) && fresh(heap.Repr - old(heap.Repr))
      ensures rows == old(rows)[i := old(rows)[i].(entries := [Entry(key, port, addr)] + old(rows)[i].entries)]
      ensures heap.Tracked() == old(heap.Tracked()) + multiset{Block(addr, layout.entry)}
      ensures heap.Total() == old(heap.Total()) + layout.entry && heap.reports == old(heap.reports)
    {
      hide Allocator.Clean, Allocator.Valid, Allocator.Tracked, Allocator.Total, Allocator.Payloads, Holds, RowBlocks,
           Space, RowsOk, Keeps, Addrs;
      assert i < |rows|;
      hide Valid;
      ghost var rows0, tracked0, im0 := rows, heap.Tracked(), heap.Payloads();
      var newNode := NewNode(heap, row, key, keyOctets, port);
      addr := newNode.addr;
      ghost var im1 := heap.Payloads();
      BlockAdded(im0, im1, rows, addr, layout, octets);
      StillOwned(tracked0, heap.Tracked(), RowBlocks(rows0, layout), Block(addr, layout.entry));
      PutNewEntry(heap, row, i, newNode, im0);
    }

    /** A node whose block has just been allocated. */
    method PutNewEntry(heap: Allocator, row: SocketList<K>, ghost i: nat, n: Node<K>, ghost im0: Image)
      requires Valid() && Owned(heap) && heap.Clean() && i < |spine| && row == spine[i] && n !in Repr && n.list == row
      requires RowBlocks(rows, layout) + multiset{Block(n.addr, layout.entry)} <= heap.Tracked() && n !in heap.Repr
      requires InMemory(heap) && n.addr !in Addrs(rows) && Fresh(heap.Payloads(), n.Value(), layout, octets)
      requires heap.Payloads() - {n.addr} == im0
      modifies this`rows, this`Repr, row`head, row`nodes, row`own, row`entries, n`next, heap`mem
      ensures Valid() && heap.Clean() && Owned(heap) && Repr == old(Repr) + {n}
      ensures InMemory(heap) && Keeps(im0, old(rows), heap.Payloads(), rows)
      ensures i < |old(rows)| && rows == old(rows)[i := old(rows)[i].(entries := [n.Value()] + old(rows)[i].entries)]
    {
      hide Allocator.Clean, Allocator.Valid, Allocator.Tracked, Allocator.Total, Allocator.Payloads, Holds, RowBlocks,
           Space, RowsOk, Keeps, Addrs;
      assert i < |rows|;
      hide Valid;
      ghost var rows0, im1 := rows, heap.Payloads();
      PutEntry(heap, row, i, n);
      KeepsFromAlloc(im0, im1, rows0, heap.Payloads(), rows, n.addr);
      EntryAdded(rows0, i, n.Value(), layout);
    }

    /** A node in a block of its own, with key and port filled in. */
    method NewNode(heap: Allocator, row: SocketList<K>, key: K, keyOctets: seq<byte>, port: uint16)
      returns (n: Node<K>)
      requires heap.Clean() && Fits(layout) && keyOctets == octets(key) && |keyOctets| <= layout.port
      modifies heap.Repr
      ensures heap.Clean() && fresh(heap.Repr - old(heap.Repr)) && heap.reports == old(heap.reports)
      ensures fresh(n) && n !in heap.Repr && n.key == key && n.port == port && n.list == row
      ensures heap.Tracked() == old(heap.Tracked()) + multiset{Block(n.addr, layout.entry)}
      ensures heap.Total() == old(heap.Total()) + layout.entry
      ensures n.addr !in old(heap.Payloads()) && heap.Payloads() - {n.addr} == old(heap.Payloads())
      ensures Fresh(heap.Payloads(), n.Value(), layout, octets)
    {
      hide Allocator.Clean, Allocator.Valid, Allocator.Tracked, Allocator.Total, Allocator.Payloads, Holds, RowBlocks,
           Space, WriteAt, Structs.Fresh;
      var a := heap.AllocBlock(layout.entry);
      heap.PayloadIsShown(Block(a, layout.entry));
      NodeIsWritten(heap.Payloads(), Entry(key, port, a), layout, octets);
      heap.Store(a, 0, keyOctets, layout.entry);
      heap.Store(a, layout.port, Le(port, 2), layout.entry);
      n := new Node(a, key, port, row);
    }

    // ---------------------------------------------------------------- freeLL and freeFlows

    /** freeLL and freeFlows: every row, with all its nodes. */
    method FreeAll(heap: Allocator, ghost rest: multiset<Block>, ghost restSpace: nat)
      requires Valid() && heap.Clean() && Owned(heap) && InMemory(heap)
      requires Accounted(heap, rest, restSpace)
      modifies Repr, heap.Repr
      ensures first == null && rows == [] && Valid() && Repr == old(Repr)
      ensures InMemory(heap) && Keeps(old(heap.Payloads()), old(rows), heap.Payloads(), rows)
      ensures heap.Clean() && Owned(heap) && fresh(heap.Repr - old(heap.Repr))
      ensures Accounted(heap, rest, restSpace) && heap.reports == old(heap.reports)
    {
      hide Allocator.Clean, Allocator.Valid, Allocator.Tracked, Allocator.Total, Allocator.Payloads, Holds, RowBlocks,
           Space, RowsOk, Keeps, Addrs;
      KeepsItself(heap.Payloads(), rows);
      while first != null
        invariant Valid() && Repr == old(Repr) && InMemory(heap)
        invariant Keeps(old(heap.Payloads()), old(rows), heap.Payloads(), rows)
        invariant heap.Clean() && Owned(heap) && fresh(heap.Repr - old(heap.Repr))
        invariant Accounted(heap, rest, restSpace) && heap.reports == old(heap.reports)
        decreases |spine|
      {
        ghost var im1, rows1 := heap.Payloads(), rows;
        FreeRow(heap, first, rest, restSpace);
        KeepsTwice(old(heap.Payloads()), old(rows), im1, rows1, heap.Payloads(), rows);
      }
    }

    /** The row, whose successor is read first, and then its block. */
    method FreeRow(heap: Allocator, row: SocketList<K>, ghost rest: multiset<Block>, ghost restSpace: nat)
      requires Valid() && heap.Clean() && Owned(heap) && InMemory(heap) && first == row
      requires Accounted(heap, rest, restSpace)
      modifies this`first, this`spine, this`rows, row, row.own, heap.Repr
      ensures Valid() && heap.Clean() && Owned(heap) && fresh(heap.Repr - old(heap.Repr))
      ensures InMemory(heap) && Keeps(old(heap.Payloads()), old(rows), heap.Payloads(), rows)
      ensures old(rows) != [] && rows == old(rows)[1..] && old(spine) != [] && spine == old(spine)[1..]
      ensures Accounted(heap, rest, restSpace) && heap.reports == old(heap.reports)
    {
      hide Allocator.Clean, Allocator.Valid, Allocator.Tracked, Allocator.Total, Allocator.Payloads, Holds, RowBlocks,
           Space, RowsOk, Keeps, Addrs;
      assert |rows| == |spine| > 0 && row in Repr && forall n :: n in row.own ==> n in Repr;
      hide Valid, Owned, SocketList.Valid, SocketList.Alive, SocketList.Is;
      FreeEntries(heap, row, rest, restSpace);
      assert rows[1..] == old(rows)[1..];
      ghost var im1, rows1 := heap.Payloads(), rows;
      FreeEmptyRow(heap, row, rest, restSpace);
      KeepsTwice(old(heap.Payloads()), old(rows), im1, rows1, heap.Payloads(), rows);
    }

    method FreeEmptyRow(heap: Allocator, row: SocketList<K>, ghost rest: multiset<Block>, ghost restSpace: nat)
      requires Valid() && heap.Clean() && Owned(heap) && InMemory(heap) && first == row
      requires rows != [] && rows[0].entries == [] && Accounted(heap, rest, restSpace)
      modifies this`first, this`spine, this`rows, row, heap.Repr
      ensures Valid() && heap.Clean() && Owned(heap) && fresh(heap.Repr - old(heap.Repr))
      ensures InMemory(heap) && Keeps(old(heap.Payloads()), old(rows), heap.Payloads(), rows)
      ensures rows == old(rows)[1..] && old(spine) != [] && spine == old(spine)[1..]
      ensures Accounted(heap, rest, restSpace) && heap.reports == old(heap.reports)
    {
      hide Allocator.Clean, Allocator.Valid, Allocator.Tracked, Allocator.Total, Allocator.Payloads, Holds, RowBlocks,
           Space, RowsOk, Keeps, Addrs;
      ghost var rows0, tracked0 := rows, heap.Tracked();
      FirstBlocks(rows0, layout);
      RestFreed(heap.Payloads(), rows, layout, octets);
      RowFacts(heap, 0);
      hide Valid, SocketList.Valid, SocketList.Alive, SocketList.Is;
      DropRow(heap);
      heap.FreeBlock(row.addr, layout.row);
      WipeRow(row);
      FewerBlocks(tracked0, heap.Tracked(), RowBlocks(rows0, layout), RowBlocks(rows, layout), rest,
                  Block(row.addr, layout.row));
    }

    /** ll = ll->next. */
    method DropRow(heap: Allocator)
      requires Valid() && Owned(heap) && first != null
      modifies this`first, this`spine, this`rows
      ensures Valid() && old(rows) != [] && rows == old(rows)[1..] && spine == old(spine)[1..]
      ensures old(rows)[0].addr == old(first).addr && old(first) !in spine
    {
      RowFacts(heap, 0);
      assert first !in spine[1..];
      hide Valid, SocketList.Is, SocketList.Valid, SocketList.Alive;
      first := NextOf(heap, first);
      spine, rows := spine[1..], rows[1..];
      RowDropped();
    }

    /** The inner loop: the nodes of the first row. */
    method FreeEntries(heap: Allocator, row: SocketList<K>, ghost rest: multiset<Block>, ghost restSpace: nat)
      requires Valid() && heap.Clean() && Owned(heap) && InMemory(heap) && first == row
      requires Accounted(heap, rest, restSpace)
      modifies this`rows, row`head, row`nodes, row`entries, row.own, heap.Repr
      ensures Valid() && heap.Clean() && Owned(heap) && fresh(heap.Repr - old(heap.Repr))
      ensures InMemory(heap) && Keeps(old(heap.Payloads()), old(rows), heap.Payloads(), rows)
      ensures rows == old(rows)[0 := old(rows)[0].(entries := [])]
      ensures Accounted(heap, rest, restSpace) && heap.reports == old(heap.reports)
    {
      hide Allocator.Clean, Allocator.Valid, Allocator.Tracked, Allocator.Total, Allocator.Payloads, Holds, RowBlocks,
           Space, RowsOk, Keeps, Addrs;
      RowIsAlive(heap, 0);
      KeepsItself(heap.Payloads(), rows);
      while row.Head(heap, layout) != null
        invariant InMemory(heap) && Keeps(old(heap.Payloads()), old(rows), heap.Payloads(), rows)
        invariant Valid() && heap.Clean() && Owned(heap) && fresh(heap.Repr - old(heap.Repr))
        invariant row.Alive(heap, layout) && row.own == old(row.own)
        invariant rows == old(rows)[0 := old(rows)[0].(entries := row.entries)]
        invariant Accounted(heap, rest, restSpace) && heap.reports == old(heap.reports)
        decreases |row.nodes|
      {
        ghost var im1, rows1 := heap.Payloads(), rows;
        FreeEntry(heap, row, rest, restSpace);
        KeepsTwice(old(heap.Payloads()), old(rows), im1, rows1, heap.Payloads(), rows);
        RowIsAlive(heap, 0);
      }
      assert row == spine[0] && row.Is(rows[0]);
    }

    /** The first node of the first row, whose successor is read first, and then its block. */
    method FreeEntry(heap: Allocator, row: SocketList<K>, ghost rest: multiset<Block>, ghost restSpace: nat)
      requires Valid() && heap.Clean() && Owned(heap) && InMemory(heap) && first == row && row.nodes != []
      requires Accounted(heap, rest, restSpace)
      modifies this`rows, row`head, row`nodes, row`entries, row.own, heap.Repr
      ensures Valid() && heap.Clean() && Owned(heap) && fresh(heap.Repr - old(heap.Repr))
      ensures InMemory(heap) && Keeps(old(heap.Payloads()), old(rows), heap.Payloads(), rows)
      ensures row.nodes == old(row.nodes)[1..] && row.own == old(row.own)
      ensures rows == old(rows)[0 := old(rows)[0].(entries := row.entries)]
      ensures Accounted(heap, rest, restSpace) && heap.reports == old(heap.reports)
    {
      hide Allocator.Clean, Allocator.Valid, Allocator.Tracked, Allocator.Total, Allocator.Payloads, Holds, RowBlocks,
           Space, RowsOk, Keeps, Addrs;
      assert row in Repr && forall n :: n in row.own ==> n in Repr by {
        OneRow(0);
      }
      hide Valid, SocketList.Valid;
      var tmp := TakeHead(heap, row, rest, restSpace);
      FreedOk(heap.Payloads(), rows, tmp.addr, layout, octets);
      KeepsThenFree(old(heap.Payloads()), old(rows), heap.Payloads(), rows, tmp.addr);
      FreeNode(heap, row, tmp, rest, restSpace);
    }

    /** The head moves on, and the block of the node that was there is left to be freed. */
    method TakeHead(heap: Allocator, row: SocketList<K>, ghost rest: multiset<Block>, ghost restSpace: nat)
      returns (tmp: Node<K>)
      requires Valid() && heap.Clean() && Owned(heap) && InMemory(heap) && first == row && row.nodes != []
      requires Accounted(heap, rest, restSpace)
      modifies this`rows, row`head, row`nodes, row`entries, heap`mem
      ensures InMemory(heap) && Keeps(old(heap.Payloads()), old(rows), heap.Payloads(), rows)
      ensures tmp.addr in Addrs(old(rows)) && tmp.addr !in Addrs(rows)
      ensures Valid() && heap.Clean() && row.nodes == old(row.nodes)[1..] && row.own == old(row.own)
      ensures tmp in row.own && tmp !in row.nodes
      ensures old(rows) != [] && rows == old(rows)[0 := old(rows)[0].(entries := row.entries)]
      ensures Accounted(heap, rest + multiset{Block(tmp.addr, layout.entry)}, restSpace + layout.entry)
    {
      hide Allocator.Clean, Allocator.Valid, Allocator.Tracked, Allocator.Total, Allocator.Payloads, Holds, RowBlocks,
           Space, RowsOk, Keeps, Addrs;
      ghost var rows0, tracked0, im0 := rows, heap.Tracked(), heap.Payloads();
      tmp := DropHead(heap, row);
      assert Fits(layout);
      hide Valid, Owned;
      EntryRemoved(rows0, 0, 0, layout);
      LinkedPastOk(im0, rows0, 0, 0, layout, octets);
      assert Without(rows0[0].entries, 0) == row.entries;
      HandedOver(tracked0, RowBlocks(rows0, layout), RowBlocks(rows, layout), rest, Block(tmp.addr, layout.entry));
    }

    /** A node that has left its row, but whose block is still live. */
    method FreeNode(heap: Allocator, row: SocketList<K>, tmp: Node<K>, ghost rest: multiset<Block>,
                    ghost restSpace: nat)
      requires Valid() && heap.Clean() && Repr !! heap.Repr && first == row && tmp in row.own && tmp !in row.nodes
      requires row in Repr && tmp in Repr
      requires Accounted(heap, rest + multiset{Block(tmp.addr, layout.entry)}, restSpace + layout.entry)
      modifies tmp`key, tmp`port, tmp`next, heap.Repr
      ensures Valid() && heap.Clean() && Owned(heap) && fresh(heap.Repr - old(heap.Repr))
      ensures Accounted(heap, rest, restSpace) && heap.reports == old(heap.reports)
      ensures heap.Payloads() == old(heap.Payloads()) - {tmp.addr}
    {
      hide Allocator.Clean, Allocator.Valid, Allocator.Tracked, Allocator.Total, Allocator.Payloads, Holds, RowBlocks,
           Space, RowsOk, Keeps, Addrs;
      hide Valid, SocketList.Is;
      ghost var tracked0 := heap.Tracked();
      heap.FreeBlock(tmp.addr, layout.entry);
      WipeNode(row, tmp);
      OneLess(tracked0, heap.Tracked(), RowBlocks(rows, layout), rest, Block(tmp.addr, layout.entry));
    }

    /** tmp_node = ll->head and ll->head = ll->head->next. */
    method DropHead(heap: Allocator, row: SocketList<K>) returns (tmp: Node<K>)
      requires Valid() && heap.Clean() && Owned(heap) && first == row && row.nodes != []
      modifies this`rows, row`head, row`nodes, row`entries, heap`mem
      ensures Valid() && row.nodes == old(row.nodes)[1..] && row.own == old(row.own) && tmp == old(row.nodes)[0]
      ensures tmp in row.own && tmp !in row.nodes
      ensures rows != [] && old(rows)[0].entries == [tmp.Value()] + row.entries
      ensures rows == old(rows)[0 := old(rows)[0].(entries := row.entries)]
      ensures heap.Payloads() == LinkedPast(old(heap.Payloads()), old(rows)[0], 0, layout)
      ensures heap.Clean()
    {
      hide Allocator.Clean, Allocator.Valid, Allocator.Tracked, Allocator.Total, Allocator.Payloads, Holds, RowBlocks,
           Space, RowsOk, Keeps, Addrs;
      assert row == spine[0];
      hide Valid, Owned, SocketList.Is, SocketList.Valid, SocketList.Alive;
      RowFacts(heap, 0);
      tmp := row.DropHead(heap, layout);
      rows := rows[0 := rows[0].(entries := row.entries)];
      RowReplaced(0);
    }

    /** A node that has left its row does not matter any more. */
    method WipeNode(row: SocketList<K>, tmp: Node<K>)
      requires Valid() && first == row && tmp in row.own && tmp !in row.nodes
      modifies tmp`key, tmp`port, tmp`next
      ensures Valid()
    {
      OneRow(0);
      hide Valid, SocketList.Is, SocketList.Valid;
      row.WipeNode(tmp);
      RowReplaced(0);
    }

    /** Nor does a row that has left the list. */
    method WipeRow(row: SocketList<K>)
      requires Valid() && row !in spine
      modifies row`socket, row`head, row`next
      ensures Valid()
    {
      hide SocketList.Is;
      row.Wipe();
    }
  }
}
