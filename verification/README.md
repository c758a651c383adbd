# An OpenFlow 1.0 controller, its lists and its allocator

This project models a small OpenFlow controller written in C and proves properties of it in Dafny 4.11. Run
`dafny verify dfyconfig.toml` to check everything.

The controller accepts connections from switches. From every packet-in it learns on which port of which switch a host
was seen. An ARP reply makes it install a pair of flows, one for each direction, and hand the reply back through the
switch's flow table. A frame addressed to its own sender makes it install one flow. Everything else is flooded. What it
learns and what it installs is kept in two lists of lists, whose nodes come from a tracking allocator. The allocator
keeps every live block in a chained hash, surrounds it with guard octets, and complains about overwritten guards and
about frees of addresses it does not know.

## How the model is laid out

| file | content |
|---|---|
| `Wrappers.dfy`, `Collections.dfy`, `Bytes.dfy` | values that may be missing; sequences and sets; octets, network byte order, `memcpy` and `memset` on buffers |
| `OpenFlow.dfy` | Ethernet and ARP classification, message structs, a decoder and an encoder that follow the struct layouts, and the buffers the controller builds |
| `HeapSpec.dfy` | the allocator on values: records, memory, reports, runs |
| `TrackTable.dfy`, `SmartAlloc.dfy` | the allocator itself: hash chains spliced in place, guards, byte loops; every method is specified by `HeapSpec` |
| `Payloads.dfy` | what a program sees of its heap: the payload of each live block |
| `AllocThreads.dfy` | the allocator's table used by several threads, access by access |
| `AllocRaces.dfy`, `AllocPrograms.dfy` | when the test that `removeTrackNode` makes outside its lock can crash: with one removal for each thread, and with whole programs of calls |
| `SocketLists.dfy`, `SocketTable.dfy` | the two-level linked lists, on values and as linked objects |
| `Structs.dfy`, `ListStructs.dfy` | how rows and nodes lie in memory, field by field and pointer by pointer, and how to read the lists back from there |
| `ControllerSpec.dfy` | the controller as a state machine over `xid`, `ll` and `flows`, and its runs |
| `Framing.dfy` | how `recvData` cuts streams into messages |
| `Answers.dfy` | what is sent for each message, octet by octet |
| `Controller.dfy` | the controller as a class over these lists and this allocator; every method is specified by `ControllerSpec` |
| `Topology.dfy`, `Network.dfy` | switches, hosts, cables, first-in first-out connections, and all interleavings of what they do |
| `Delivery.dfy` | flow entries that stay, frames that are delivered by them, and how such entries come about |

Both lists of lists have the same code up to what identifies an entry, so `Table` takes that as a type parameter:
`Table<Mac>` is the list behind `ll`, `Table<FlowKey>` the one behind `flows`. In `Network.dfy` a trail lists the ports
at which a frame has arrived; it records history and no switch looks at it. In `AllocThreads.dfy` the fields
`called`, `returned`, `live` and `done` play the same part.

Rows and nodes of the lists are objects, each with the address of its block. Their fields are read and written through
members that demand a live block and a field within it; writing also puts the field's octets into the allocator's memory,
and freeing takes the fields away from the object. That memory holds all fields and pointers of all rows and nodes, at
the offsets of the structs in myGraph.h, is part of `Controller.Valid` (`PathsInMemory` and `FlowsInMemory`).

## Assumptions taken from the code's callers

- Messages have a correct length field between 8 and 1008, and a packet-in whose reason is not "no match" holds the frame
  it announces, long enough to be classified (controller.c:697, 352-370, 522). Cutting streams into messages needs the
  length only.
- `ll` and `flows` start as zero-filled sentinels, as `handleConnections` makes them (controller.c:788-792); the branches
  for NULL lists (myGraph.c:157-163, 204-210) would lose the new row.
- Physical ports are numbered from 1 (openflow.h:79), where a statement says so, and in `Topology.dfy` also up to OFPP_MAX
  (openflow.h:82).
- `malloc` answers with any range clear of all ranges handed out and not freed; addresses may be reused.

## Where code and documentation differ

- README:6-8 lists spanning trees and shortest paths as in progress. The code does nothing of the kind: `LoopsExactlyOnCycles`
  shows that no frame returns to a switch exactly if the switches that hosts can reach are wired as rooted trees.
- The comments at controller.c:660-661 and 679 speak of dropping packets and of flooding broadcasts only. The code drops
  nothing there, and floods every frame that is neither an ARP reply nor addressed to its sender. The model follows the code.
- `sendLoopFlow` does not advance `xid` (controller.c:540-590), so its message shares its id with whatever is sent next, be it
  another loop flow-mod: `XidsDifferExactly` says exactly in which runs ids stay distinct, `LoopFlowsShareXid` shows one in
  which they do not.
- `smartrealloc` counts the octets to copy in an `int` (smartalloc.c:196, 225). `MovedContents` says exactly when the
  contents survive, `ContentsCanBeLost` shows a run in which they do not.
- `removeTrackNode` tests its bucket outside its lock (smartalloc.c:135-138). The documentation in smartalloc.h:14-15 promises
  a complaint about frees of unknown addresses; `CrashesExactly` says exactly when concurrent removals can instead
  dereference a NULL head, and `ProgramsCrashExactly` when threads that run any programs of calls can.
- `addFlowNode` keeps the first port of a flow while the switch takes the last (myGraph.c:201-202, controller.c:427-482).
  `MirrorStepExactly` and `MirrorsExactly` say exactly when the two stay equal, `PortsCanDisagree` shows a run in which
  they do not.

- An ARP reply to a host that its switch has never reported makes `establishFlows` install a flow whose port is the 0 that
  `findPort` returns (controller.c:464-470). `StrangerCutOff` shows such a run, `DropsForGood` that the switch will then
  drop every frame for that host from the sender of the reply, for good.

## Model

| member | source | states |
|---|---|---|
| `Network.NoLoops` | controller.c:656-681 | in every state of every execution on a forest of switches, a frame has visited no switch twice, each cable took it one further from its sender, and it crossed fewer cables than there are switches |
| `Network.LoopsExactlyOnCycles` | controller.c:678-681 | for every topology: no frame ever returns to a switch if and only if the switches that hosts can reach are wired as rooted trees |
| `Network.LoopsExactlyOnJourneys` | controller.c:678-681 | the same in terms of journeys: if and only if no journey from a host that never turns back returns |
| `Network.LearnedPortsLead` | controller.c:656-662 | every learned port is the port toward that host, and on a forest the only such port |
| `Network.FlowsLead` | controller.c:405-488 | every entry in a switch and every flow noted by the controller has port 0 or the port toward its destination |
| `Network.ForwardingApproaches` | controller.c:433-482 | on a forest, forwarding by a flow entry takes a frame to a switch exactly one cable nearer to its destination |
| `Network.RepliesFollowFlows` | controller.c:667-681 | only ordinary frames are flooded; an ARP reply handed back always finds an entry and is never punted again |
| `Network.SwitchesMirror` | controller.c:405-488 | after the flow-mods in flight, a switch has entries for exactly the noted flows; on a forest the ports agree too if ARP replies answered known hosts |
| `Delivery.EntriesAreFinal` | controller.c:405-488 | once a switch has both entries of a pair of hosts and no message that would replace them is on its way, they stay as they are in every continuation |
| `Delivery.DropsForGood` | controller.c:461-482 | if the port of such an entry is 0, the switch drops every frame for it, ever after |
| `Delivery.StrangerCutOff` | controller.c:464-470 | an ARP reply to a host that its switch has not reported leads to just that |
| `Delivery.Delivered` | controller.c:405-488 | on a forest, if every switch on the journey from the destination has an entry with a port, a frame that came from elsewhere reaches the port of the destination in as many steps as it is cables away, none of which involves the controller or changes anything else |
| `Delivery.ArpRequested` | controller.c:656-681 | an ARP request to any destination, told by its octets, can be flooded along any journey, leaving no flow and its sender reported by every switch |
| `Delivery.ArpConnects` | controller.c:633-682 | on any topology and along any journey that visits no switch twice, an ARP request and an ARP reply, told by their octets, can leave every switch with final entries that lead to both hosts |
| `Delivery.ReplyConnects` | controller.c:633-682 | the same with any ordinary frame in place of the request |
| `Delivery.StaysConnected` | controller.c:405-488 | whatever happens after that, frames between the two hosts can be delivered at any moment along that journey without the controller |
| `Network.InvAlways` | controller.c:633-682 | the invariant behind these statements holds in every reachable state |
| `Topology.UniqueWalk` | controller.c:498-519 | where journeys do not return, as in a forest, there is one journey from a port to a switch, so port-toward and distance are functions |
| `Topology.TowardIsNearer` | controller.c:375-399 | the port toward a host is its own port or leads one cable nearer |
| `Topology.ForestsAreRooted` | controller.c:678-681 | a topology is a forest exactly if it consists of rooted trees: every cable joins a switch to its parent |
| `Topology.CycleFreeIsRooted` | controller.c:678-681 | the same for the part that is reached from any given starting points |
| `ControllerSpec.LearnsFirstReport` | myGraph.c:146-193 | after any run the learned ports are exactly the ports of the first reports |
| `Controller.WalkersAgree` | myGraph.c:64-83 | with physical ports, in every run, findNode answers 1 exactly if findPort answers a non-zero port |
| `ControllerSpec.JustifiedForwarding` | controller.c:405-590 | a non-zero port in any flow-mod was reported by that switch for the flow's destination; it is zero exactly if nothing was reported |
| `ControllerSpec.FlowsAreSymmetric` | controller.c:433-476 | the local flow table of a switch is closed under swapping source and destination |
| `ControllerSpec.MirrorsKeys` | controller.c:447-476 | the switch ends up with entries for exactly the noted flows |
| `ControllerSpec.TableIsJustified` | controller.c:427-482 | every non-zero port in a switch's table is one on which it reported the destination |
| `ControllerSpec.NotesAreJustified` | myGraph.c:195-239 | the same for the flows noted by the controller |
| `ControllerSpec.MirrorStepExactly` | myGraph.c:195-239 | agreement of switch and notes, ports included, survives a packet-in if and only if a check on the controller's own tables succeeds before it |
| `ControllerSpec.MirrorsExactly` | controller.c:633-682 | over whole runs, they agree all along if and only if every input passes that check |
| `ControllerSpec.MirrorsPorts` | controller.c:405-488 | they are the same map if hosts stay put and every ARP reply answers a known host |
| `ControllerSpec.PortsCanDisagree` | controller.c:434-476 | a run without the second assumption in which they differ |
| `ControllerSpec.XidsAreConsecutive` | controller.c:204-318 | counted messages carry 1, 2, 3 and so on modulo 2^32, and the counter is one ahead |
| `ControllerSpec.XidsAreDistinct` | controller.c:461-535 | counted messages fewer than 2^32 apart have different ids |
| `ControllerSpec.XidsExactly` | controller.c:204-590 | every message but an echo reply, loop flow-mods included, carries the id that follows those of the counted messages before it |
| `ControllerSpec.XidsDifferExactly` | controller.c:540-590 | the ids of messages fewer than 2^32 apart, echo replies left aside, differ if and only if no loop flow-mod is followed by another such message |
| `ControllerSpec.LoopFlowsShareXid` | controller.c:540-590 | a run of two loop flow-mods with the same id |
| `ControllerSpec.UncountedXids` | controller.c:326-342 | an echo reply carries the id of its request; a loop flow-mod the id of the next counted message, whether or not one follows |
| `Framing.FramingRecovers` | controller.c:689-726 | messages with a correct length field between 8 and 1008, whatever they contain, are recovered one by one from a stream with nothing left over |
| `Framing.FramingIsLossless` | controller.c:689-726 | the messages recovered from a stream are its octets |
| `Framing.InputsKeepOrder` | controller.c:794-833 | in whatever order sockets become ready, each delivers its own messages in order |
| `OpenFlow.FlowModDecodes` | controller.c:422-443 | the flow-mod buffer is the encoding of the intended ADD flow and decodes to it and nothing else |
| `OpenFlow.FlowModInSourceOrder` | controller.c:427-440 | the field-by-field writes of the C code build that buffer |
| `OpenFlow.FlowModReuse` | controller.c:461-468 | reusing the buffer in place for the second flow leaves no stale field |
| `OpenFlow.PacketOutDecodes` | controller.c:493-522 | the packet-out is the encoding of in_port, one output action, and the frame octet for octet, and decodes to that |
| `OpenFlow.EncodeDecodes` | controller.c:204-535 | what a switch decodes from the octets of any message is that message |
| `OpenFlow.FlowModOctets` | controller.c:427-440 | the 80 octets of a flow-mod |
| `OpenFlow.PacketOutOctets` | controller.c:493-522 | the octets of a packet-out |
| `OpenFlow.ArpOctets` | controller.c:352-370 | an ARP reply is a frame of type 0x0806 with opcode 2, and a frame is a loopback if its first six octets equal the next six |
| `Framing.PacketInIsRead` | controller.c:633-655 | a packet-in, octet by octet, is dropped if its reason is 0, and otherwise handled with its in_port and frame |
| `Framing.HeadersAreRead` | controller.c:689-753 | types 0, 2 and 6 are hello, echo request and features reply, whatever follows the header, and no other type is |
| `Answers.HelloAnswer` | controller.c:204-239 | octet by octet: a hello and a features request with two consecutive ids |
| `Answers.FeaturesAnswer` | controller.c:246-318 | a configuration with no flags and 128 octets of a missed frame, and a barrier request |
| `Answers.EchoAnswer` | controller.c:326-342 | an echo reply with the same id |
| `Answers.NoAnswer` | controller.c:649-652 | packet-ins with reason 0 and messages of other types change nothing and are not answered |
| `Answers.FloodAnswer` | controller.c:493-535 | an ordinary frame, an ARP request for instance, is learned from and sent back to port 0xfffb with the in_port it came with |
| `Answers.LoopAnswer` | controller.c:540-590 | a frame addressed to its sender yields one 80-octet flow-mod under the current id |
| `Answers.ReplyAnswer` | controller.c:405-535 | an ARP reply yields two 80-octet flow-mods, two notes, and a packet-out to port 0xfff9, with three consecutive ids |
| `Controller.Controller.constructor` | controller.c:788-792 | two sentinels are allocated and stand for empty tables |
| `Controller.Controller.AddPathNode` | myGraph.c:146-193 | the list behind `ll` gains exactly a new binding, in lists, map and heap at once, and memory holds the struct of each of its rows and nodes, and of those behind `flows` |
| `Controller.Controller.AddFlowNode` | myGraph.c:195-239 | the same for `flows` |
| `Controller.Controller.FlowLies` | myGraph.c:231-233 | every noted flow lies in a live block: destination address at 0, source address at 6, port at 12 |
| `Controller.Controller.PathLies` | myGraph.c:186-187 | every learned port lies in a live block: the address at 0, the port at 6 |
| `Controller.Controller.MemoryTells` | myGraph.c:64-106 | reading memory alone, along the pointers in it, gives lists that stand for the learned ports and the noted flows |
| `Controller.Controller.FindPort` | controller.c:375-399 | the learned port or 0 |
| `Controller.Controller.EstOFConnection` | controller.c:204-239 | hello and features request, octet by octet |
| `Controller.Controller.SetConfig` | controller.c:246-318 | configuration and barrier request, octet by octet |
| `Controller.Controller.SendEchoReply` | controller.c:326-342 | the reply to an echo request |
| `Controller.Controller.EstablishFlows` | controller.c:405-488 | both flow-mods, both notes and two ids, from one buffer used twice |
| `Controller.Controller.SendThereFlow` | controller.c:461-485 | the second flow-mod, written over the first |
| `Controller.Controller.SendLoopFlow` | controller.c:540-590 | one flow-mod and one note under the current id |
| `Controller.Controller.MakeSendPacketOut` | controller.c:493-535 | the packet-out with in_port and frame copied |
| `Controller.Controller.Classify` | controller.c:352-370 | an ARP reply has octets 8, 6 at 30 and 0, 2 at 38 of the packet-in; a self-addressed frame the same six octets at 18 and at 24 |
| `Controller.Controller.HandlePacketIn` | controller.c:633-682 | header and body are joined again; learn, classify, answer as the state machine says, which `Framing.PacketInIsRead`, `Answers.FloodAnswer`, `LoopAnswer` and `ReplyAnswer` spell out in octets |
| `Controller.Controller.ReadBody` | controller.c:700-716 | the body of the message, read into an array of 1000 octets, is that of the first message of the stream, and the rest of the stream is left |
| `Controller.Controller.RecvData` | controller.c:689-753 | one message is consumed in two reads and answered as the state machine says, and for hello, features reply and ordinary frames octet by octet; the tables stay maps, exactly their nodes are live, and memory holds their structs |
| `Controller.Controller.ReportSpace` | smartalloc.c:238-241 | between messages the allocator's total is the summed size of the nodes in `ll` and `flows` |
| `Controller.Controller.Terminate` | controller.c:842-895 | afterwards no block is live, the total is 0, malloc has got back every range it handed out, and nothing was complained about |
| `Controller.Session` | controller.c:772-895 | the same, ranges of malloc included, for the whole program on any streams and any order of ready sockets, which also sent exactly the messages of the state machine's run |
| `Structs.PutFirstOk` | myGraph.c:186-190 | linking a new node into a row keeps memory in step with the list, all structs and pointers included |
| `Structs.LinkedPastOk` | myGraph.c:118-138 | so does leading the pointer to a node past it |
| `Structs.RowLinked` | myGraph.c:172-176 | so does filling in a new row and linking it to the last one |
| `ListStructs.PathsReadBack` | myGraph.c:64-83 | the list behind `ll` is read back from memory alone, row by row and node by node |
| `ListStructs.FlowsReadBack` | myGraph.c:85-106 | the same for `flows` |
| `Bytes.LeReadsBack` | myGraph.c:187 | a number read back from memory is the number written, as far as it fits |
| `SocketLists.AddRepresents` | myGraph.c:146-193 | the rows refine a map from socket and key to port; adding binds new keys only |
| `SocketLists.AddedEntries` | myGraph.c:189-190 | a new entry comes first in its row, and no other entry moves |
| `SocketLists.AddKeepsDistinct` | myGraph.c:165-190 | sockets and keys stay distinct |
| `SocketLists.AddKeepsOthers` | myGraph.c:165-181 | rows of other sockets stay in place |
| `SocketLists.DrainRemovesAll` | myGraph.c:108-144 | iterating `findRemoveNode` returns the entries with that port in list order and leaves everything else in order |
| `SocketLists.RemovedIsFirst` | myGraph.c:118-138 | one removal takes the first such entry |
| `SocketLists.AddBlocks` | myGraph.c:158-183 | what adding allocates: nothing, a node, or a row and a node |
| `SocketTable.Table.FindNode` | myGraph.c:64-83 | 1 exactly if the key is bound |
| `SocketTable.Table.FindPort` | controller.c:375-399 | the bound port or 0 |
| `SocketTable.Table.FindFlow` | myGraph.c:85-106 | the node that binds the key, or null |
| `SocketTable.Table.FindRemoveNode` | myGraph.c:108-144 | the first node with the port is unlinked in place and returned, and its live block handed over to the caller |
| `SocketTable.SocketList.TakeByPort` | myGraph.c:118-138 | the same within one row |
| `SocketTable.Table.Add` | myGraph.c:146-239 | get or create the row, put the node first, and account for the blocks allocated |
| `SocketTable.Table.FreeAll` | controller.c:842-885 | every node and row is freed once; what is left of the heap is the rest, and nothing is complained about |
| `SocketTable.Table.DropHead` | controller.c:855-856 | the head of a row moves on to its successor, read from a node whose block is live |
| `SocketTable.Table.FreeEntry` | controller.c:854-858 | the first node of the first row goes, its block is freed, and the rest of the row stays in order |
| `SocketTable.Table.FreeRow` | controller.c:850-861 | the first row goes, with the blocks of its nodes and its own; the other rows stay as they are |
| `SocketTable.Node.SetNext` | myGraph.c:189 | a pointer is written to a field within a live block: in the object and, octet by octet, in memory |
| `SocketTable.SocketList.SetHead` | myGraph.c:190 | the same for the head of a row |
| `SmartAlloc.Allocator.AllocBlock` | myGraph.c:167-184 | a new block of zeros, with everything else as before |
| `SmartAlloc.Allocator.Store` | smartalloc.c:95-111 | writing within the payload of a live block leaves records and guards as they are |
| `HeapSpec.FirstIsInBucket` | smartalloc.c:135-151 | an address is found in its bucket exactly if it is tracked anywhere, and it is the same record |
| `HeapSpec.RemoveIsInBucket` | smartalloc.c:138-151 | removing it removes the most recent record and leaves every other bucket alone |
| `HeapSpec.SumOverBuckets` | smartalloc.c:85-91 | the total over all buckets is the total over the collection |
| `HeapSpec.SumOfRemove` | smartalloc.c:153 | the total never underflows |
| `HeapSpec.RunIsSound` | smartalloc.c:95-236 | in every run, no address is tracked twice, live blocks are apart with their margins, and all are backed by malloc |
| `HeapSpec.AllocContract` | smartalloc.c:95-111 | in every run, an allocation writes four octets 0x0A, the filled payload and four octets 0x0A to a range of its own, adds one record, and changes nothing else |
| `HeapSpec.FreeContract` | smartalloc.c:159-190 | in every run, freeing a block leaves 0x0A in every octet of its payload, changes no other octet, takes away its record and range, and complains exactly if a guard octet differs from 0x0A |
| `HeapSpec.StrayFreeContract` | smartalloc.c:173-183 | freeing any other address complains and does nothing else |
| `Payloads.AllocShows` | smartalloc.c:95-111 | an allocation adds one payload, filled as asked, and leaves all others as they are |
| `Payloads.FreeShows` | smartalloc.c:173-190 | a free takes one payload away and leaves all others as they are |
| `Payloads.PokeShows` | smartalloc.c:95-111 | a write into a payload shows there and in no other |
| `HeapSpec.NothingLeaks` | smartalloc.c:95-236 | in every run, what malloc has handed out and not got back is exactly the ranges of the live blocks, so nothing is left once all are freed |
| `HeapSpec.NoFalseAlarm` | smartalloc.c:159-171 | as long as writes stay in payloads, guards stay intact and only untracked addresses are complained about |
| `HeapSpec.DamageStays` | smartalloc.c:95-236 | a damaged guard octet stays damaged until it is written again |
| `HeapSpec.NoMissedAlarm` | smartalloc.c:159-190 | so the free or realloc of its block complains |
| `HeapSpec.OpLeavesOthers` | smartalloc.c:173-236 | no operation touches an octet of another live block |
| `HeapSpec.ReallocContract` | smartalloc.c:192-236 | a different block with the old contents, fill, fresh guards, the right complaint, poison, and the right total |
| `HeapSpec.MovedContents` | smartalloc.c:225-229 | the first min(old, new) octets survive if and only if that length fits in a C int or the rest happened to equal the fill octet |
| `HeapSpec.ContentsCanBeLost` | smartalloc.c:196-229 | a run in which they do not: a block of 2^31 octets or more is reallocated to its own size |
| `TrackTable.TrackTable.Track` | smartalloc.c:69-93 | the record becomes the newest one of the collection |
| `TrackTable.TrackTable.RemoveTrackNode` | smartalloc.c:131-157 | the most recent record of the address leaves the collection and is returned |
| `TrackTable.Chain.Take` | smartalloc.c:138-151 | it leaves its chain in place; the rest of the chain keeps its order |
| `SmartAlloc.Allocator.Alloc` | smartalloc.c:95-111 | memory, records and total after an allocation |
| `SmartAlloc.Allocator.FreeChecks` | smartalloc.c:159-171 | one complaint exactly if some guard octet differs, and poison |
| `SmartAlloc.Allocator.Free` | smartalloc.c:173-190 | check, poison and free, or complain |
| `SmartAlloc.Allocator.CopyLoop` | smartalloc.c:225-229 | as many octets are copied as a positive limit says |
| `SmartAlloc.Allocator.Realloc` | smartalloc.c:192-236 | the new state for a null, an unknown and a tracked pointer |
| `SmartAlloc.Allocator.ReportSpace` | smartalloc.c:238-241 | the sum of the sizes of the live blocks |
| `AllocThreads.Linearizes` | smartalloc.c:69-157 | every interleaving of any calls amounts to its calls taking effect one at a time; a removal finds the most recent record exactly if the address is tracked; the total is right whenever the lock is free |
| `AllocThreads.CallsTakeEffectOnce` | smartalloc.c:69-157 | each call has exactly one effect, between its start and its return, and returns what its effect found |
| `AllocThreads.HeadIsNeverNull` | smartalloc.c:135-151 | with tracked addresses freed by one thread each, the test outside the lock never fails, the head dereferenced under the lock is never NULL, and every removal finds its record |
| `AllocRaces.CrashesExactly` | smartalloc.c:135-154 | a number of concurrent removals can crash in some interleaving if and only if, in some bucket, they cover every record there is and outnumber them |
| `AllocRaces.CrashesIfAllTaken` | smartalloc.c:135-154 | where no address is tracked twice: if and only if every block of a non-empty bucket is removed, by more threads than there are blocks |
| `AllocRaces.OneAloneIsSafe` | smartalloc.c:135-154 | a single thread never crashes, whatever address it frees |
| `AllocRaces.TwoRemovalsCrash` | smartalloc.c:135-139 | freeing the only block of a bucket while another thread frees any address can crash exactly if the two addresses agree modulo 113 |
| `AllocPrograms.ProgramsCrashExactly` | smartalloc.c:69-157 | threads that run any programs of tracking and removing can crash if and only if, with calls that happen at one instant each, a bucket that is not empty when a thread has a removal from it to do next can be empty before that thread does anything |
| `AllocPrograms.OneRemoverIsSafe` | smartalloc.c:135-154 | nothing can crash as long as no two threads remove from the same bucket, whatever is tracked meanwhile and whatever is removed |
| `AllocPrograms.TrackedMeanwhile` | smartalloc.c:69-154 | one thread tracks and removes a block while another removes any address: they can crash exactly if the two addresses agree modulo 113 |
| `AllocRaces.DoubleFreeCrashes` | smartalloc.c:135-139 | two threads that free the same block can make the head NULL |

## Left out

- Sockets, `select`, `accept`, signals and process exit: a step is "some connected switch delivers its next message"; a
  stream that ends in the middle of a message is not modelled.
- Failing `malloc` and `send`, after which the program exits; and with them the failure branch of `smartrealloc`.
- The storage of `track_t` records: they are objects, not octets of the modelled memory.
- The fields of rows and nodes are kept in objects beside the octets written for them, and read from there. A pointer is
  written as far as it fits in 64 bits; `MemoryTells` assumes that all addresses fit.
- SmartAlloc.Allocator.Alloc: addresses and totals are unbounded integers, because live blocks are disjoint ranges and
  their sizes cannot add up to more than the address space.
- AllocThreads.Linearizes: only `smartalloc_track` and `removeTrackNode` run concurrently, because the other functions touch
  shared state only through them; the first initialisation of the table, which the code does outside its lock, is taken as done.
- Entries are taken to match exactly their two addresses; the wildcard word leaves network-layer bits unset, about which
  nothing is said.
- Hosts receive frames but are not modelled further; a switch never expires or removes entries.
- Everything printed, `isDup`, `removeFlow` (its only call is commented out, and only its list operation is modelled),
  `smartvalloc`, the C++ part of smartalloc.h, and the unused graph functions of myGraph.c.
