/**
 The controller itself: its three globals, the allocator they live in, and the octets it sends.

 Every method is specified by the corresponding function of ControllerSpec: it turns the globals it finds into the
 ones that function gives, and sends the octets of the messages that function gives.
 */
module Controller {
  import opened Answers
  import opened Bytes
  import opened OpenFlow
  import opened HeapSpec
  import opened ListStructs
  import opened Payloads
  import opened SocketLists
  import opened SmartAlloc
  import opened SocketTable
  import opened Structs
  import opened Wrappers
  import C = ControllerSpec
  import F = Framing

  class Controller {
    var xid: uint32
    const heap: Allocator
    const ll: Table<Mac>
    const flows: Table<C.FlowKey>
    var sent: seq<Wire>
    ghost var learned: map<(Sock, Mac), uint16>
    ghost var noted: map<(Sock, C.FlowKey), uint16>
    ghost var out: seq<Sent>
    ghost var Repr: set<object>

    ghost function View(): C.CState
      reads this
    {
      C.CState(xid, learned, noted)
    }

    /** The objects are in order and have nothing in common. */
    ghost predicate Shape()
      reads this, Repr
      ensures Shape() ==> this in Repr
    {
      && this in Repr && heap in Repr && ll in Repr && flows in Repr
      && heap.Repr <= Repr && ll.Repr <= Repr && flows.Repr <= Repr
      && this !in heap.Repr && this !in ll.Repr && this !in flows.Repr
      && heap.Repr !! ll.Repr && heap.Repr !! flows.Repr && ll.Repr !! flows.Repr
      && heap.Clean() && ll.Valid() && flows.Valid()
      && ll.layout == PATH_LAYOUT && flows.layout == FLOW_LAYOUT
      && ll.octets == MacOctets && flows.octets == FlowOctets
    }

    /** Both lists lie in memory as their structs say, in different blocks. */
    ghost predicate Stored()
      reads this, heap`mem, heap.table, ll, flows
    {
      && PathsInMemory(heap.Payloads(), ll.rows) && FlowsInMemory(heap.Payloads(), flows.rows)
      && Addrs(ll.rows) !! Addrs(flows.rows)
    }

    /** Exactly the nodes of the two tables are live in the heap. */
    ghost predicate Conserved()
      reads this, heap, heap.table, ll, flows
    {
      && heap.Tracked() == RowBlocks(ll.rows, PATH_LAYOUT) + RowBlocks(flows.rows, FLOW_LAYOUT)
      && heap.Total() == Space(ll.rows, PATH_LAYOUT) + Space(flows.rows, FLOW_LAYOUT)
    }

    ghost predicate Meaning()
      reads this, ll, flows
    {
      && Represents(ll.rows, learned) && Represents(flows.rows, noted)
      && Distinct(ll.rows) && Distinct(flows.rows)
      && Says(sent, out)
    }

    ghost predicate Valid()
      reads this, Repr
      ensures Valid() ==> this in Repr
    {
      Shape() && ll.first != null && flows.first != null && Conserved() && Stored() && Meaning()
    }

    /** The start of handleConnections: two zero-filled sentinels. */
    constructor ()
      ensures Valid() && fresh(Repr)
      ensures View() == C.START && out == [] && heap.reports == []
    {
      hide Allocator.Clean, Allocator.Valid, Allocator.Tracked, Allocator.Total, Allocator.Payloads, RowBlocks, Space,
           Represents, Distinct, Table.Valid, PathsInMemory, FlowsInMemory, Addrs;
      var h, paths, table := EmptyTables();
      heap, ll, flows := h, paths, table;
      xid, sent := 1, [];
      learned, noted, out := map[], map[], [];
      new;
      Repr := {this} + heap.Repr + ll.Repr + flows.Repr;
    }

    static method EmptyTables() returns (heap: Allocator, ll: Table<Mac>, flows: Table<C.FlowKey>)
      ensures heap.Clean() && ll.Valid() && flows.Valid()
      ensures fresh(heap.Repr) && fresh(ll.Repr) && fresh(flows.Repr)
      ensures heap.Repr !! ll.Repr && heap.Repr !! flows.Repr && ll.Repr !! flows.Repr
      ensures ll.layout == PATH_LAYOUT && flows.layout == FLOW_LAYOUT && ll.first != null && flows.first != null
      ensures ll.octets == MacOctets && flows.octets == FlowOctets
      ensures PathsInMemory(heap.Payloads(), ll.rows) && FlowsInMemory(heap.Payloads(), flows.rows)
      ensures Addrs(ll.rows) !! Addrs(flows.rows)
      ensures heap.reports == []
      ensures heap.Tracked() == RowBlocks(ll.rows, PATH_LAYOUT) + RowBlocks(flows.rows, FLOW_LAYOUT)
      ensures heap.Total() == Space(ll.rows, PATH_LAYOUT) + Space(flows.rows, FLOW_LAYOUT)
      ensures Represents(ll.rows, map[]) && Represents(flows.rows, map[])
      ensures Distinct(ll.rows) && Distinct(flows.rows)
    {
      hide Allocator.Clean, Allocator.Valid, Allocator.Payloads, RowBlocks, Space, Represents, Distinct, Table.Valid,
           PathsInMemory, FlowsInMemory, Addrs;
      heap := new Allocator();
      assert heap.Tracked() == multiset{} && heap.Total() == 0;
      var a := heap.AllocBlock(PATH_LAYOUT.row);
      var b := heap.AllocBlock(FLOW_LAYOUT.row);
      ll := new Table(PATH_LAYOUT, a, MacOctets);
      flows := new Table(FLOW_LAYOUT, b, FlowOctets);
      SentinelBlocks(ll.rows[0], PATH_LAYOUT);
      SentinelBlocks(flows.rows[0], FLOW_LAYOUT);
      SentinelIsEmpty<Mac>(a, map[]);
      SentinelIsEmpty<C.FlowKey>(b, map[]);
      SentinelsInMemory(heap.Payloads(), a, b);
    }

    // ---------------------------------------------------------------- the tables

    /** addPathNode(clientSocket, ll, mac, port). */
    method AddPathNode(sock: Sock, mac: Mac, port: uint16)
      requires Valid()
      modifies Repr
      ensures Valid() && fresh(Repr - old(Repr))
      ensures View() == old(View()).(ll := C.FirstWins(old(learned), (sock, mac), port))
      ensures out == old(out) && heap.reports == old(heap.reports)
    {
      hide Allocator.Clean, Allocator.Valid, Allocator.Tracked, Allocator.Total, Allocator.Payloads, RowBlocks, Space,
           Represents, Distinct, SocketLists.Add, SocketLists.Find, Table.Valid, Says, PathsInMemory, FlowsInMemory,
           RowsOk, Addrs, Keeps;
      ghost var rows0, im0 := ll.rows, heap.Payloads();
      PathsAreStructs(im0, rows0);
      FlowsAreStructs(im0, flows.rows);
      var added, rowAddr, addr :=
        ll.Add(heap, sock, mac, mac, port, RowBlocks(flows.rows, FLOW_LAYOUT), Space(flows.rows, FLOW_LAYOUT));
      OthersKept(im0, rows0, heap.Payloads(), ll.rows, flows.rows, FLOW_LAYOUT, FlowOctets);
      PathsAreStructs(heap.Payloads(), ll.rows);
      FlowsAreStructs(heap.Payloads(), flows.rows);
      AddRepresents(rows0, learned, sock, mac, port, rowAddr, addr);
      AddKeepsDistinct(rows0, sock, mac, port, rowAddr, addr);
      learned := C.FirstWins(learned, (sock, mac), port);
      Repr := Repr + ll.Repr + heap.Repr;
    }

    /** addFlowNode(clientSocket, flows, dst, src, port). */
    method AddFlowNode(sock: Sock, src: Mac, dst: Mac, port: uint16)
      requires Valid()
      modifies Repr
      ensures Valid() && fresh(Repr - old(Repr))
      ensures View() == old(View()).(flows := C.FirstWins(old(noted), (sock, C.FlowKey(src, dst)), port))
      ensures out == old(out) && heap.reports == old(heap.reports)
    {
      hide Allocator.Clean, Allocator.Valid, Allocator.Tracked, Allocator.Total, Allocator.Payloads, RowBlocks, Space,
           Represents, Distinct, SocketLists.Add, SocketLists.Find, Table.Valid, Says, PathsInMemory, FlowsInMemory,
           RowsOk, Addrs, Keeps;
      ghost var rows0, key, im0 := flows.rows, C.FlowKey(src, dst), heap.Payloads();
      PathsAreStructs(im0, ll.rows);
      FlowsAreStructs(im0, rows0);
      var added, rowAddr, addr :=
        flows.Add(heap, sock, C.FlowKey(src, dst), dst + src, port, RowBlocks(ll.rows, PATH_LAYOUT),
                  Space(ll.rows, PATH_LAYOUT));
      OthersKept(im0, rows0, heap.Payloads(), flows.rows, ll.rows, PATH_LAYOUT, MacOctets);
      PathsAreStructs(heap.Payloads(), ll.rows);
      FlowsAreStructs(heap.Payloads(), flows.rows);
      AddRepresents(rows0, noted, sock, key, port, rowAddr, addr);
      AddKeepsDistinct(rows0, sock, key, port, rowAddr, addr);
      noted := C.FirstWins(noted, (sock, key), port);
      Repr := Repr + flows.Repr + heap.Repr;
    }

    /** findPort. */
    method FindPort(sock: Sock, mac: Mac) returns (port: uint16)
      requires Valid()
      ensures port == C.FindPort(View(), sock, mac)
    {
      assert Find(ll.rows, sock, mac) == if (sock, mac) in learned then Some(learned[(sock, mac)]) else None;
      port := ll.FindPort(heap, sock, mac);
    }

    // ---------------------------------------------------------------- what lies in memory

    /** Every noted flow lies in a live block: dst_mac in the first six octets, src_mac in the next six, then its port. */
    lemma FlowLies(sock: Sock, key: C.FlowKey) returns (a: nat)
      requires Valid() && (sock, key) in noted
      ensures a in heap.Payloads() && |heap.Payloads()[a]| == 24
      ensures Holds(heap.mem, a, key.dst) && Holds(heap.mem, a + 6, key.src)
      ensures Holds(heap.mem, a + 12, Le(noted[(sock, key)], 2))
    {
      hide FlowsInMemory, PathsInMemory, Represents, Table.Valid, PayloadsOf, Sound, Allocator.Tracked, Addrs;
      a := FlowFound(heap.Payloads(), flows.rows, noted, sock, key);
      ShownIsInMemory(heap.State(), a);
      PartHolds(heap.mem, a, heap.Payloads()[a], 0, 6);
      PartHolds(heap.mem, a, heap.Payloads()[a], 6, 12);
      PartHolds(heap.mem, a, heap.Payloads()[a], 12, 14);
    }

    /** Every learned port lies in a live block: to_mac in the first six octets, then the port. */
    lemma PathLies(sock: Sock, mac: Mac) returns (a: nat)
      requires Valid() && (sock, mac) in learned
      ensures a in heap.Payloads() && |heap.Payloads()[a]| == 16
      ensures Holds(heap.mem, a, mac) && Holds(heap.mem, a + 6, Le(learned[(sock, mac)], 2))
    {
      hide FlowsInMemory, PathsInMemory, Represents, Table.Valid, PayloadsOf, Sound, Allocator.Tracked, Addrs;
      a := PathFound(heap.Payloads(), ll.rows, learned, sock, mac);
      ShownIsInMemory(heap.State(), a);
      PartHolds(heap.mem, a, heap.Payloads()[a], 0, 6);
      PartHolds(heap.mem, a, heap.Payloads()[a], 6, 8);
    }

    /** Reading memory, from the first rows onwards along the pointers in it, gives lists that stand for the maps. */
    lemma MemoryTells(n: nat)
      requires Valid() && Readable(ll.rows, n) && Readable(flows.rows, n)
      ensures Represents(RowsFrom(heap.Payloads(), ll.first.addr, n, n, ReadPath), learned)
      ensures Represents(RowsFrom(heap.Payloads(), flows.first.addr, n, n, ReadFlow), noted)
    {
      FirstAddr(ll);
      FirstAddr(flows);
      PathsReadBack(heap.Payloads(), ll.rows, n);
      FlowsReadBack(heap.Payloads(), flows.rows, n);
      hide Represents, Table.Valid;
    }

    static lemma FirstAddr<K>(table: Table<K>)
      requires table.Valid() && table.first != null
      ensures RowAddrAt(table.rows, 0) == table.first.addr
    {
      assert table.spine[0].Is(table.rows[0]);
    }

    // ---------------------------------------------------------------- sending

    /** send. */
    method Send(sock: Sock, buf: array<byte>, ghost msg: Message)
      requires Valid() && buf[..] == Encode(msg)
      modifies this`sent, this`out
      ensures Valid() && out == old(out) + [Sent(sock, msg)] && sent == old(sent) + [Wire(sock, buf[..])]
    {
      hide Allocator.Clean, Allocator.Tracked, Allocator.Total, RowBlocks, Space,
           Represents, Distinct, Table.Valid, Encode;
      sent, out := sent + [Wire(sock, buf[..])], out + [Sent(sock, msg)];
    }

    /** A message that is a header only, with the given id. */
    method SendHeader(sock: Sock, type_: byte, id: uint32, ghost msg: Message)
      requires Valid() && Encode(msg) == Header(type_, 8, id)
      modifies this`sent, this`out
      ensures Valid() && out == old(out) + [Sent(sock, msg)] && sent == old(sent) + [Wire(sock, Header(type_, 8, id))]
    {
      var packet := ZeroedBuffer(OFP_HDR_LEN);
      Memcpy(packet, 0, Header(type_, 8, id));
      assert packet[..] == Header(type_, 8, id);
      Send(sock, packet, msg);
    }

    method NextXid()
      requires Valid()
      modifies this`xid
      ensures Valid() && View() == old(View()).(xid := C.NextXid(old(xid)))
    {
      hide Allocator.Clean, Allocator.Tracked, Allocator.Total, RowBlocks, Space,
           Represents, Distinct, Table.Valid, Says;
      xid := (xid as int + 1) % 0x1_0000_0000;
    }

    /** estOFConnection. */
    method EstOFConnection(sock: Sock)
      requires Valid()
      modifies this`xid, this`sent, this`out
      ensures Valid()
      ensures var (c, ms) := C.Step(old(View()), sock, C.GotHello); View() == c && out == old(out) + Tag(sock, ms)
      ensures sent == old(sent) + [Wire(sock, [1, 0, 0, 8] + Be32(old(xid))),
                                   Wire(sock, [1, 5, 0, 8] + Be32((old(xid) + 1) % 0x1_0000_0000))]
    {
      hide Valid, Header, Be32;
      HeaderIs(0, xid);
      HeaderIs(5, C.NextXid(xid));
      SendHeader(sock, 0, xid, Hello(xid));
      NextXid();
      SendHeader(sock, 5, xid, FeaturesRequest(xid));
      NextXid();
    }

    /** setConfig. */
    method SetConfig(sock: Sock)
      requires Valid()
      modifies this`xid, this`sent, this`out
      ensures Valid()
      ensures var (c, ms) := C.Step(old(View()), sock, C.GotFeatures); View() == c && out == old(out) + Tag(sock, ms)
      ensures sent == old(sent) + [Wire(sock, [1, 9, 0, 12] + Be32(old(xid)) + [0, 0, 0, 0x80]),
                                   Wire(sock, [1, 18, 0, 8] + Be32((old(xid) + 1) % 0x1_0000_0000))]
    {
      hide Valid, Header, Be16, Be32;
      SetConfigIs(xid);
      HeaderIs(18, C.NextXid(xid));
      var cPacket := ConfigPacket(xid);
      Send(sock, cPacket, OpenFlow.SetConfig(xid, 0, 0x80));
      NextXid();
      SendHeader(sock, 18, xid, BarrierRequest(xid));
      NextXid();
    }

    /** cPacket of setConfig. */
    static method ConfigPacket(xid: uint32) returns (cPacket: array<byte>)
      ensures fresh(cPacket) && cPacket[..] == Header(9, 12, xid) + Be16(0) + Be16(0x80)
    {
      cPacket := ZeroedBuffer(12);
      Memcpy(cPacket, 0, Header(9, 12, xid));
      Memcpy(cPacket, 8, Be16(0));
      Memcpy(cPacket, 10, Be16(0x80));
    }

    /** sendEchoReply, with the id of the request. */
    method SendEchoReply(sock: Sock, id: uint32)
      requires Valid()
      modifies this`sent, this`out
      ensures Valid()
      ensures var (c, ms) := C.Step(old(View()), sock, C.GotEcho(id)); View() == c && out == old(out) + Tag(sock, ms)
      ensures sent == old(sent) + [Wire(sock, [1, 3, 0, 8] + Be32(id))]
    {
      hide Valid, Header, Be32;
      HeaderIs(3, id);
      SendHeader(sock, 3, id, EchoReply(id));
    }

    // ---------------------------------------------------------------- packet-ins

    /** raw_flowmod for traffic from the packet-in's destination to its source, out of the port it came in on. */
    method FillFlowMod(raw: array<byte>, m: seq<byte>)
      requires raw.Length == OFP_FLOWMOD_LEN && raw[..] == Zeros(OFP_FLOWMOD_LEN) && |m| >= 30
      modifies raw
      ensures raw[..] == FlowModBuffer(xid, m[18..24], m[24..30], U16At(m, 14))
    {
      hide Put, FlowModBuffer, Header, Zeros;
      Be16OfU16(m, 14);
      Memcpy(raw, 0, Header(14, 80, xid));
      Memcpy(raw, 8, Be32(0x0010_0013));
      Memcpy(raw, 14, m[18..24]);
      Memcpy(raw, 20, m[24..30]);
      Memcpy(raw, 62, Be16(0x8000));
      Memcpy(raw, 64, Be32(0xffff_ffff));
      Memcpy(raw, 68, Be16(0xffff));
      Memcpy(raw, 72, Be16(0));
      Memcpy(raw, 74, Be16(8));
      Memcpy(raw, 76, m[14..16]);
      FlowModInSourceOrder(xid, m[18..24], m[24..30], U16At(m, 14));
    }

    /** The addresses stored with a flow are read back from the buffer. */
    lemma FlowModAddresses(xid: uint32, src: Mac, dst: Mac, port: uint16)
      ensures FlowModBuffer(xid, src, dst, port)[14..20] == src && FlowModBuffer(xid, src, dst, port)[20..26] == dst
    {
    }

    /** establishFlows: the same buffer holds first the flow back to the sender of the reply, then the flow to its target. */
    method EstablishFlows(sock: Sock, m: seq<byte>, ghost frame: Frame)
      requires Valid() && |m| >= 30 && Src(frame) == m[24..30] && Dst(frame) == m[18..24]
      modifies Repr
      ensures Valid() && fresh(Repr - old(Repr))
      ensures var (c, ms) := C.EstablishFlows(old(View()), sock, U16At(m, 14), frame);
              View() == c && out == old(out) + Tag(sock, ms)
      ensures heap.reports == old(heap.reports)
    {
      hide Valid, FlowModBuffer, AddFlow, Src, Dst, C.FirstWins;
      var raw := ZeroedBuffer(OFP_FLOWMOD_LEN);
      SendBackFlow(sock, m, raw, frame);
      SendThereFlow(sock, m, raw, frame, old(xid));
    }

    method SendBackFlow(sock: Sock, m: seq<byte>, raw: array<byte>, ghost frame: Frame)
      requires Valid() && |m| >= 30 && Src(frame) == m[24..30] && Dst(frame) == m[18..24]
      requires raw !in Repr && raw.Length == OFP_FLOWMOD_LEN && raw[..] == Zeros(OFP_FLOWMOD_LEN)
      modifies Repr, raw
      ensures Valid() && fresh(Repr - old(Repr)) && raw !in Repr
      ensures raw[..] == FlowModBuffer(old(xid), m[18..24], m[24..30], U16At(m, 14))
      ensures View() == old(View()).(
                xid := C.NextXid(old(xid)),
                flows := C.FirstWins(old(noted), (sock, C.FlowKey(Dst(frame), Src(frame))), U16At(m, 14)))
      ensures out == old(out) + [Sent(sock, AddFlow(old(xid), Dst(frame), Src(frame), U16At(m, 14)))]
      ensures heap.reports == old(heap.reports)
    {
      hide Valid, Encode, Decode, Put, FlowModBuffer, AddFlow, Src, Dst, C.FirstWins;
      FillFlowMod(raw, m);
      FlowModAddresses(xid, m[18..24], m[24..30], U16At(m, 14));
      FlowModDecodes(xid, m[18..24], m[24..30], U16At(m, 14));
      AddFlowNode(sock, raw[14..20], raw[20..26], U16At(m, 14));
      Send(sock, raw, AddFlow(xid, Dst(frame), Src(frame), U16At(m, 14)));
      NextXid();
    }

    method SendThereFlow(sock: Sock, m: seq<byte>, raw: array<byte>, ghost frame: Frame, ghost used: uint32)
      requires Valid() && |m| >= 30 && Src(frame) == m[24..30] && Dst(frame) == m[18..24]
      requires raw !in Repr && raw.Length == OFP_FLOWMOD_LEN
      requires raw[..] == FlowModBuffer(used, m[18..24], m[24..30], U16At(m, 14))
      modifies Repr, raw
      ensures Valid() && fresh(Repr - old(Repr))
      ensures var port := C.FindPort(old(View()), sock, Dst(frame));
              && View() == old(View()).(
                   xid := C.NextXid(old(xid)),
                   flows := C.FirstWins(old(noted), (sock, C.FlowKey(Src(frame), Dst(frame))), port))
              && out == old(out) + [Sent(sock, AddFlow(old(xid), Src(frame), Dst(frame), port))]
      ensures heap.reports == old(heap.reports)
    {
      hide Valid, Encode, Decode, Put, FlowModBuffer, AddFlow, Src, Dst, C.FirstWins;
      var port := FindPort(sock, m[18..24]);
      Memcpy(raw, 4, Be32(xid));
      Memcpy(raw, 14, m[24..30]);
      Memcpy(raw, 20, m[18..24]);
      Memcpy(raw, 76, Be16(port));
      FlowModReuse(used, m[18..24], m[24..30], U16At(m, 14), xid, m[24..30], m[18..24], port);
      FlowModAddresses(xid, m[24..30], m[18..24], port);
      FlowModDecodes(xid, m[24..30], m[18..24], port);
      AddFlowNode(sock, raw[14..20], raw[20..26], port);
      Send(sock, raw, AddFlow(xid, Src(frame), Dst(frame), port));
      NextXid();
    }

    /** sendLoopFlow, which does not advance xid. */
    method SendLoopFlow(sock: Sock, m: seq<byte>, ghost frame: Frame)
      requires Valid() && |m| >= 30 && Src(frame) == m[24..30] && Dst(frame) == m[18..24]
      modifies Repr
      ensures Valid() && fresh(Repr - old(Repr))
      ensures var (c, ms) := C.SendLoopFlow(old(View()), sock, U16At(m, 14), frame);
              View() == c && out == old(out) + Tag(sock, ms)
      ensures heap.reports == old(heap.reports)
    {
      hide Valid, Encode, Decode, Put, FlowModBuffer;
      var raw := ZeroedBuffer(OFP_FLOWMOD_LEN);
      FillFlowMod(raw, m);
      FlowModAddresses(xid, m[18..24], m[24..30], U16At(m, 14));
      FlowModDecodes(xid, m[18..24], m[24..30], U16At(m, 14));
      AddFlowNode(sock, raw[14..20], raw[20..26], U16At(m, 14));
      Send(sock, raw, AddFlow(xid, Dst(frame), Src(frame), U16At(m, 14)));
    }

    /** makeSendPacketOut. */
    method MakeSendPacketOut(sock: Sock, m: seq<byte>, port: uint16)
      requires Valid() && |m| >= 18 && 18 + U16At(m, 12) <= |m| && IsFrame(m[18..18 + U16At(m, 12)])
      modifies this`xid, this`sent, this`out
      ensures Valid()
      ensures var (c, ms) := C.MakeSendPacketOut(old(View()), U16At(m, 14), port, m[18..18 + U16At(m, 12)]);
              View() == c && out == old(out) + Tag(sock, ms)
    {
      hide Valid, Encode, Decode, Put, Header, Zeros;
      var len := U16At(m, 12);
      var raw := ZeroedBuffer(PKT_OUT_HDR_LEN + len);
      Be16OfU16(m, 14);
      Memcpy(raw, 0, Header(13, PKT_OUT_HDR_LEN + len, xid));
      Memcpy(raw, 8, Be32(0xffff_ffff));
      Memcpy(raw, 12, m[14..16]);
      Memcpy(raw, 14, Be16(8));
      Memcpy(raw, 16, Be16(0));
      Memcpy(raw, 18, Be16(8));
      Memcpy(raw, 20, Be16(port));
      Memcpy(raw, 24, m[18..18 + len]);
      PacketOutDecodes(xid, U16At(m, 14), port, m[18..18 + len]);
      Send(sock, raw, SendFrame(xid, U16At(m, 14), port, m[18..18 + len]));
      NextXid();
    }

    /** isArpReply and isLoopback, on the octets of the packet-in. */
    method Classify(m: seq<byte>, ghost frame: Frame) returns (arpReply: bool, loopback: bool)
      requires |m| >= 18 && 18 + U16At(m, 12) <= |m| && m[18..18 + U16At(m, 12)] == frame
      ensures |m| >= 32 && (loopback <==> m[18..24] == m[24..30])
      ensures arpReply <==> m[30..32] == [8, 6] && |m| >= 40 && m[38..40] == [0, 2]
      ensures arpReply == IsArpReply(frame) && loopback == IsLoopback(frame)
    {
      FrameOctets(m, frame);
      if U16At(m, 30) != 0x0806 {
        arpReply := false;
      } else {
        arpReply := U16At(m, 38) == 2;
      }
      loopback := m[18..24] == m[24..30];
    }

    /** handlePacketIn, on the message put together from its header and its body. */
    method HandlePacketIn(sock: Sock, packet: array<byte>, payload: array<byte>, packetLen: nat)
      requires Valid() && packet.Length == OFP_HDR_LEN <= packetLen <= OFP_HDR_LEN + payload.Length
      requires F.Sound(Joined(packet, payload, packetLen)) && packet[1] == 10
      modifies Repr
      ensures Valid() && fresh(Repr - old(Repr))
      ensures var (c, ms) := C.Step(old(View()), sock, F.EventOf(old(Joined(packet, payload, packetLen))));
              View() == c && out == old(out) + Tag(sock, ms)
      ensures heap.reports == old(heap.reports)
    {
      hide Valid;
      var raw := new byte[packetLen];
      Memcpy(raw, 0, packet[..]);
      Memcpy(raw, OFP_HDR_LEN, payload[..packetLen - OFP_HDR_LEN]);
      assert raw[..] == Joined(packet, payload, packetLen);
      AnswerPacketIn(sock, raw[..]);
    }

    /** The rest of handlePacketIn. */
    method AnswerPacketIn(sock: Sock, m: seq<byte>)
      requires Valid() && F.Sound(m) && m[1] == 10
      modifies Repr
      ensures Valid() && fresh(Repr - old(Repr))
      ensures var (c, ms) := C.Step(old(View()), sock, F.EventOf(m)); View() == c && out == old(out) + Tag(sock, ms)
      ensures heap.reports == old(heap.reports)
    {
      hide Valid;
      if m[16] == 0 {
        assert Tag(sock, []) == [];
        return;
      }
      ghost var frame: Frame := m[18..18 + U16At(m, 12)];
      FrameOctets(m, frame);
      AddPathNode(sock, m[24..30], U16At(m, 14));
      var arpReply, loopback := Classify(m, frame);
      if arpReply {
        EstablishFlows(sock, m, frame);
        MakeSendPacketOut(sock, m, OFPP_TABLE);
      } else if loopback {
        SendLoopFlow(sock, m, frame);
      } else {
        MakeSendPacketOut(sock, m, OFPP_FLOOD);
      }
    }

    // ---------------------------------------------------------------- recvData and shutdown

    /** The message that consists of the header in packet and of the first octets of payload. */
    static ghost function Joined(packet: array<byte>, payload: array<byte>, packetLen: nat): seq<byte>
      requires packet.Length == OFP_HDR_LEN <= packetLen <= OFP_HDR_LEN + payload.Length
      reads packet, payload
    {
      packet[..] + payload[..packetLen - OFP_HDR_LEN]
    }

    /** recv with MSG_WAITALL, on a connection whose remaining octets are given: n octets if there are as many, at the end
        of the connection what is left, and so possibly nothing. */
    static method Recv(stream: seq<byte>, buf: array<byte>, n: nat) returns (got: nat, rest: seq<byte>)
      requires n <= buf.Length
      modifies buf
      ensures got == if n <= |stream| then n else |stream|
      ensures buf[..got] == stream[..got] && rest == stream[got..]
      ensures forall k :: got <= k < buf.Length ==> buf[k] == old(buf[k])
    {
      got := if n <= |stream| then n else |stream|;
      Memcpy(buf, 0, stream[..got]);
      rest := stream[got..];
    }

    /** The second read of recvData: as much more as the length field in the header announces. */
    static method ReadBody(stream: seq<byte>, packet: array<byte>, got: nat, ghost whole: seq<byte>)
      returns (payload: array<byte>, packetLen: nat, rest: seq<byte>)
      requires packet.Length == OFP_HDR_LEN == got && F.HasFirst(whole)
      requires packet[..] == whole[..OFP_HDR_LEN] && stream == whole[OFP_HDR_LEN..]
      ensures fresh(payload) && payload.Length == F.PAYLOAD_SIZE && packetLen == |F.First(whole)|
      ensures packet[..] == F.First(whole)[..OFP_HDR_LEN]
      ensures payload[..packetLen - OFP_HDR_LEN] == F.First(whole)[OFP_HDR_LEN..]
      ensures rest == F.Rest(whole)
    {
      packetLen, rest := U16At(packet[..], 2), stream;
      assert F.WellFormed(F.First(whole));
      payload := ZeroedBuffer(F.PAYLOAD_SIZE);
      if packetLen - got > 0 {
        var more;
        more, rest := Recv(stream, payload, packetLen - got);
      }
    }

    /** recvData on a connection whose remaining octets are given. At the end of the stream recv returns 0, and nothing
        happens. */
    method RecvData(sock: Sock, stream: seq<byte>) returns (rest: seq<byte>)
      requires Valid() && F.IsInput(stream)
      modifies Repr
      ensures Valid() && fresh(Repr - old(Repr)) && heap.reports == old(heap.reports)
      ensures stream == [] ==> rest == [] && View() == old(View()) && out == old(out) && sent == old(sent)
      ensures stream != [] ==>
                && rest == F.Rest(stream)
                && var (c, ms) := C.Step(old(View()), sock, F.EventOf(F.First(stream)));
                   View() == c && out == old(out) + Tag(sock, ms) && sent == old(sent) + Wires(sock, ms)
      ensures stream != [] ==>
                var m, next := F.First(stream), (old(xid) + 1) % 0x1_0000_0000;
                && (m[1] == 0 ==>
                      sent == old(sent) + [Wire(sock, [1, 0, 0, 8] + Be32(old(xid))),
                                           Wire(sock, [1, 5, 0, 8] + Be32(next))])
                && (m[1] == 6 ==>
                      sent == old(sent) + [Wire(sock, [1, 9, 0, 12] + Be32(old(xid)) + [0, 0, 0, 0x80]),
                                           Wire(sock, [1, 18, 0, 8] + Be32(next))])
                && (IsOrdinary(m) ==>
                      && learned == Learned(old(View()), sock, m).ll
                      && sent == old(sent) + [Wire(sock, FloodOctets(old(xid), m))])
    {
      hide Valid, Wires, C.Step, F.EventOf, F.IsInput, IsOrdinary, FloodOctets, Learned;
      FirstIsSound(stream);
      ghost var view := View();
      rest := RecvMessage(sock, stream);
      if stream != [] {
        AllAnswers(view, sock, F.First(stream));
      }
    }

    /** The body of recvData, and what it sends in terms of the state machine. */
    method RecvMessage(sock: Sock, stream: seq<byte>) returns (rest: seq<byte>)
      requires Valid() && F.IsInput(stream)
      modifies Repr
      ensures Valid() && fresh(Repr - old(Repr)) && heap.reports == old(heap.reports)
      ensures stream == [] ==> rest == [] && View() == old(View()) && out == old(out) && sent == old(sent)
      ensures stream != [] ==>
                && rest == F.Rest(stream)
                && var (c, ms) := C.Step(old(View()), sock, F.EventOf(F.First(stream)));
                   View() == c && out == old(out) + Tag(sock, ms) && sent == old(sent) + Wires(sock, ms)
    {
      hide Valid, Says, Wires, Encode, Decode, C.Step, F.EventOf, F.IsInput;
      FirstIsSound(stream);
      SaysSo();
      ghost var view, out0, sent0 := View(), out, sent;
      var packet := ZeroedBuffer(OFP_HDR_LEN);
      var got;
      got, rest := Recv(stream, packet, OFP_HDR_LEN);
      if got <= 0 {
        return;
      }
      var payload, packetLen;
      payload, packetLen, rest := ReadBody(rest, packet, got, stream);
      assert Joined(packet, payload, packetLen) == F.First(stream);
      Dispatch(sock, packet, payload, packetLen);
      SaysSo();
      SaysMore(sent0, sent, out0, sock, C.Step(view, sock, F.EventOf(F.First(stream))).1);
    }

    /** What recvData does with a message, once all of it is there. */
    method Dispatch(sock: Sock, packet: array<byte>, payload: array<byte>, packetLen: nat)
      requires Valid() && packet.Length == OFP_HDR_LEN <= packetLen <= OFP_HDR_LEN + payload.Length
      requires F.Sound(Joined(packet, payload, packetLen))
      modifies Repr
      ensures Valid() && fresh(Repr - old(Repr)) && heap.reports == old(heap.reports)
      ensures var (c, ms) := C.Step(old(View()), sock, F.EventOf(old(Joined(packet, payload, packetLen))));
              View() == c && out == old(out) + Tag(sock, ms)
    {
      hide Valid;
      if packet[1] == 0 {
        EstOFConnection(sock);
      } else if packet[1] == 6 {
        SetConfig(sock);
      } else if packet[1] == 2 {
        SendEchoReply(sock, U32At(packet[..], 4));
      } else if packet[1] == 10 {
        HandlePacketIn(sock, packet, payload, packetLen);
      } else {
        assert Tag(sock, []) == [];
      }
    }

    static lemma FirstIsSound(stream: seq<byte>)
      requires F.IsInput(stream)
      ensures stream != [] ==> F.HasFirst(stream) && F.Sound(F.First(stream))
    {
    }

    lemma SaysSo()
      requires Valid()
      ensures Says(sent, out)
    {
    }

    /** report_space between messages: the sizes of the nodes that ll and flows lead to. */
    method ReportSpace() returns (n: nat)
      requires Valid()
      ensures n == Space(ll.rows, PATH_LAYOUT) + Space(flows.rows, FLOW_LAYOUT)
    {
      n := heap.ReportSpace();
    }

    /** terminate: freeLL, then freeFlows. */
    method Terminate()
      requires Valid()
      modifies Repr
      ensures heap.reports == old(heap.reports)
      ensures heap.Tracked() == multiset{} && heap.Total() == 0 && heap.sys == map[] && heap.Clean()
    {
      hide Allocator.Clean, Allocator.Valid, Allocator.Payloads, RowBlocks, Space, Represents, Distinct, Table.Valid,
           Says, PathsInMemory, FlowsInMemory, RowsOk, Addrs, Keeps;
      ghost var im0, rows0 := heap.Payloads(), ll.rows;
      PathsAreStructs(im0, rows0);
      FlowsAreStructs(im0, flows.rows);
      NoBlocks<Mac>(PATH_LAYOUT);
      NoBlocks<C.FlowKey>(FLOW_LAYOUT);
      ll.FreeAll(heap, RowBlocks(flows.rows, FLOW_LAYOUT), Space(flows.rows, FLOW_LAYOUT));
      OthersKept(im0, rows0, heap.Payloads(), ll.rows, flows.rows, FLOW_LAYOUT, FlowOctets);
      flows.FreeAll(heap, multiset{}, 0);
      heap.NothingLeft();
    }
  }

  /** The two walkers of ll agree in every run of the controller: findNode answers 1 exactly if findPort answers a port,
      as long as packet-ins come from physical ports. */
  lemma WalkersAgree(run: seq<C.Input>, rows: seq<Row<Mac>>, sock: Sock, mac: Mac)
    requires C.PhysicalPorts(run) && Represents(rows, C.After(run).ll)
    ensures SocketLists.FindNode(rows, sock, mac) == 1 <==> SocketLists.FindPort(rows, sock, mac) != 0
  {
    C.KnownHasPort(run, sock, mac);
    assert Find(rows, sock, mac) ==
           if (sock, mac) in C.After(run).ll then Some(C.After(run).ll[(sock, mac)]) else None;
  }

  /** What the switches are told in a run, in order. */
  function Told(run: seq<C.Input>): seq<Sent> {
    if run == [] then []
    else
      var t := |run| - 1;
      Told(run[..t]) + Tag(run[t].sock, C.SentAt(run, t))
  }

  lemma ToldStep(run: seq<C.Input>, i: C.Input)
    ensures var (c, ms) := C.Step(C.After(run), i.sock, i.event);
            C.After(run + [i]) == c && Told(run + [i]) == Told(run) + Tag(i.sock, ms)
  {
    assert (run + [i])[..|run|] == run;
  }

  /** The whole program: connections deliver their octets, sockets become ready in some order, and in the end the
      program is interrupted. Whatever arrives, all that was allocated has been freed exactly once by then: no block is
      left, malloc has got back every range it handed out, and the allocator never complained. */
  method Session(streams: map<Sock, seq<byte>>, ready: seq<Sock>)
    returns (left: nat, held: map<nat, nat>, complaints: seq<Report>, sent: seq<Wire>, xid: uint32)
    requires forall s :: s in streams ==> F.IsInput(streams[s])
    ensures left == 0 && held == map[] && complaints == []
    ensures Says(sent, Told(F.Inputs(streams, ready)))
    ensures var told := Told(F.Inputs(streams, ready));
            |sent| == |told| && forall i :: 0 <= i < |sent| ==> Decode(sent[i].octets) == Some(told[i].msg)
    ensures xid == C.After(F.Inputs(streams, ready)).xid
  {
    hide Controller.Valid, F.IsInput, F.Inputs, F.HasFirst, C.Step, Says;
    var c := new Controller();
    var todo := streams;
    ghost var done: seq<C.Input> := [];
    var i := 0;
    assert ready[0..] == ready;
    while i < |ready|
      invariant 0 <= i <= |ready| && c.Valid() && fresh(c.Repr)
      invariant forall s :: s in todo ==> F.IsInput(todo[s])
      invariant F.Inputs(streams, ready) == done + F.Inputs(todo, ready[i..])
      invariant c.View() == C.After(done) && c.out == Told(done) && c.heap.reports == []
    {
      var s := ready[i];
      assert ready[i..][0] == s && ready[i..][1..] == ready[i + 1..];
      F.InputsUnfold(todo, ready[i..]);
      if s in todo {
        var stream := todo[s];
        var rest := c.RecvData(s, stream);
        if stream != [] {
          ghost var input := C.Input(s, F.EventOf(F.First(stream)));
          ToldStep(done, input);
          assert done + ([input] + F.Inputs(todo[s := rest], ready[i + 1..])) ==
                 (done + [input]) + F.Inputs(todo[s := rest], ready[i + 1..]);
          done := done + [input];
          todo := todo[s := rest];
        }
      }
      i := i + 1;
    }
    F.NothingReady(todo);
    assert ready[i..] == [] && done + [] == done;
    sent, xid := c.sent, c.xid;
    c.SaysSo();
    SaysIsRead(sent, c.out);
    c.Terminate();
    left := c.heap.ReportSpace();
    held, complaints := c.heap.sys, c.heap.reports;
  }
}
