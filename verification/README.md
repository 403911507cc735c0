# A verified model of the OpenFlow controller

The repository is a small OpenFlow 1.3 controller in C. It keeps a graph of the connected switches and
searches it for loops, talks to every switch over a byte stream with one read and one write buffer, writes
variable-length flow rules into that buffer, and comes with a checked allocator and the Internet checksum.
This project models these five parts in Dafny and proves what they are for, and where they fall short
of it, under which exact condition.

`dafny verify dfyconfig.toml` checks everything.

## How the modules fit together

| file | part of the controller |
|---|---|
| `Topology.dfy` | the network as an undirected graph; what joining switches and reported links do to it |
| `LoopSearch.dfy` | the depth-first searches as functions on graphs, and exactly when one search reports |
| `LoopScan.dfy` | the scan over all devices: what its searches find, and what its result can miss |
| `LoopNames.dfy` | which device that result names after a new link, and whether it is the switch that reported the link |
| `Network.dfy` | the same operations on the linked lists and discovery marks in memory, refining the functions |
| `Oxm.dfy` | the match-field header macros on 32-bit words |
| `FlowCodec.dfy` | flow rules, their wire format, and an independent decoder (sections 7.2.3 to 7.2.5 and 7.3.4.1 of the OpenFlow Switch Specification 1.3.5) |
| `Messages.dfy` | all messages the controller sends, and its reaction to each message it receives |
| `Forwarding.dfy` | what a switch's flow tables do with a packet (sections 5.1 to 5.3 and 5.9 of the OpenFlow Switch Specification 1.3.5), and what the controller's rules mean there |
| `Protocol.dfy` | whole byte streams: framing, handshake, conversation, transaction numbers, echo |
| `Datapath.dfy` | the messages as the switch reads them, one duty for each, and what its tables and ports become |
| `PacketIn.dfy` | what is read out of a packet-in: port, source address, probe |
| `Switch.dfy` | `struct of_switch` in memory, the message builders and the socket handlers, refining `Protocol` |
| `Round.dfy` | graph and connections together: the switch list, and one round of the select loop over all ready sockets |
| `AllocTable.dfy` | the allocator's hash table as a value, and the map it stands for |
| `Smartalloc.dfy` | the table as linked nodes, memory with guard margins, allocation, release, reallocation |
| `AllocThreads.dfy` | the allocator's steps between accesses to shared memory, for any number of threads |
| `AllocRaces.dfy` | what its bucket test outside the mutex can lead to, and exactly when |
| `Checksum.dfy` | the checksum routine on a host of either byte order |
| `Bytes.dfy`, `Wrappers.dfy` | bytes, words, big-endian fields, stores into a buffer; optional values |

Two patterns recur. Code that changes things in place is a class whose methods are proved equal to a
function of the old state, and the theorems are about that function. And every format or structure has
an independent counterpart: the decoder for the encoder, a ledger (a map) for the hash table, a pure
parser for the incremental reader, simple cycles and paths for the search, a switch that reads and obeys
for the messages that are built, one big number for the sum of words.

## Where the code does not do what it is meant to

The code was followed; each of these is proved, with the exact condition under which the intention is met.

- `loop_exists` promises to find loops. Some search does report exactly when the network has a loop
  (`LoopScan.ScanFindsLoop`), but only the inner loop stops there: a later search overwrites the result.
  `LoopScan.OverwrittenReport` is a network where the new link closes a loop and the result is 0;
  `LoopScan.LoopExistsExactly` says when the result is nonzero. The network arises from joins and links
  (`LoopScan.BeforeLinkIsReached`).
- The result is also used as the switch to act on. The first report names a device on a loop
  (`LoopScan.FirstReport`); the returned one need not (`LoopScan.ReportOffTheLoop`, a network that arises from
  joins and links by `LoopScan.BranchedIsReached`). `LoopScan.ReturnedDevice` says where it lies in any network: when
  no earlier search reported, on a loop; and always, on a loop among the devices that the earlier searches
  left alone exactly when it is such a device itself. After a new link in a network without loops, a device
  is on the loop exactly when it is an end of the link or on every path that joined the ends before
  (`LoopNames.OnNewLoop`), and the device named is given by `LoopNames.NamedExactly`.
- The port to close is one of the switch at which the probe arrived, but the order goes to the switch that the
  result names. With switches 1, 2, 3 linked 1-2-3 and the probe of 1 arriving at 3, switch 1 gets the order
  (`Round.OtherSwitchIsOrdered`, after `LoopNames.OtherEndIsNamed`; the network arises by
  `LoopNames.ChainIsReached`). For every new link in a network without loops, `Round.ArrivalPortIsClosed` gives
  the exact condition: the link closes a loop, and either no earlier search of the scan has discovered the
  reporting switch and every old path from the root of the last search to the other end passes it, or an earlier
  search has discovered it and the last search, elsewhere than at its root, comes upon it. No earlier search has
  discovered it exactly when none has reported, and then the condition is about the old network and the root
  alone (`LoopNames.UndisturbedArrival`).
- A device number is the low byte of a descriptor: joining keeps the graph simple exactly when that byte is
  nonzero and new (`Topology.AddDeviceKeepsSimple`), so descriptor 256 becomes device 0. The search for the
  switch to act on compares the number with whole descriptors; it runs past the switch list exactly when the
  descriptor of the named device exceeds 255 (`Network.Controller.AddConnection`).
- A link from a switch to itself is accepted and ruins the graph; the graph stays simple exactly when the
  two ends differ (`Topology.AddLinkKeepsSimple`).
- `change_port_behavior` for a switch other than the one being handled overwrites its buffer and counters, and
  the select loop reads sockets by what was ready before the round began. The streams of all connections
  survive a round exactly when every order finds its target reading, with no byte of a message read yet, and
  the target is not still to be read from in the same round: its turn has passed, or it was not found readable
  (`Round.Hub.HandleAllSockets`). `Round.Hub.OrderBeforeRead` is the order that meets a connection between
  two messages and still spoils it; `Switch.Switch.ObeyOrder` is the part of an order alone.
- `get_input_port` looks for the input port field but always reads the payload of the first field. That
  is right for every port exactly when the field comes first (`PacketIn.PortIsReadExactlyWhenFirst`).
- A probe is recognised with the right sender exactly for descriptors below 100 (`PacketIn.ProbeIsRecognised`),
  and any frame whose type or length field is 1 to 99 is taken for one, a short 802.3 frame for instance
  (`PacketIn.TakenForProbe`).
- `smartrealloc` copies through an `int` counter: everything is copied exactly below 2 GiB
  (`Smartalloc.CopyIsComplete`).
- `removeTrackNode` tests its bucket without the mutex. With one freeing thread per block this is harmless
  (`AllocThreads.Safety`). In general, calls that free and calls that allocate, begun at rest, can dereference
  an empty bucket in some interleaving exactly when a bucket has each of its blocks asked for and more requests
  than blocks, or is empty while a block that is about to enter it is asked for and there is another request
  (`AllocRaces.CrashExactly`); `AllocRaces.ThreadCrashesExactly` says which calls can. Two threads that free the
  only block of a bucket are the smallest case (`AllocRaces.DoubleFreeCrashes`).
- The checksum's 32-bit accumulator is safe for every content exactly up to 65537 bytes on a
  little-endian host and 65536 on a big-endian one (`Checksum.AccumulatorBoundIsTight`), and the comment's
  "non-zero otherwise" has exceptions, given by `Checksum.WordChangeUndetected`.

## Model

| member | source | states |
|---|---|---|
| Topology.AddDeviceKeepsSimple | controller.c:303-316 | a joining switch keeps the graph simple, symmetric and closed if and only if the low byte of its descriptor is nonzero and new |
| Topology.AddLinkKeepsSimple | controller.c:136-173 | a reported link between known devices keeps the graph simple if and only if the two ends differ |
| Topology.LinksAfterAddLink | controller.c:136-173 | a reported link adds itself in both directions and no other link |
| Topology.RunIsSimple | controller.c:136-316 | after every run of joins and reported links the graph is simple: distinct numbers, symmetric duplicate-free lists without self entries, closed over known devices |
| Topology.LinkClosesCycle | controller.c:136-173 | a new link in a loop-free network creates a simple cycle if and only if its ends were already joined by a path |
| LoopSearch.Visit | controller.c:73-100 | the recursive search terminates on every closed graph, because each real visit lowers the number of undiscovered devices, and never forgets a discovery |
| LoopSearch.SilentSearch | controller.c:73-121 | a search without a report has discovered exactly the region its root reaches; the region has no cycle and no further link to what was known before |
| LoopSearch.ReportIsEvidence | controller.c:84-95 | a reported device is where a path from the root enters a simple cycle of newly discovered devices, or an earlier search left it behind and a new device other than the root is linked to it |
| LoopSearch.SearchExactly | controller.c:73-121 | a search reports if and only if its region has a cycle or touches, elsewhere than at the root, a device known before |
| LoopSearch.SearchStaysInRegion | controller.c:73-121 | only devices that the root reaches without passing a known device are discovered, and each is joined to the root by devices that the search itself discovers |
| LoopSearch.ReportedDeviceIsKnown | controller.c:106-134 | a nonzero result is the number of a connected device |
| LoopScan.SilentScanSlots | controller.c:106-123 | while no search reports, what is discovered is a union of whole components, every one a tree |
| LoopScan.FirstReport | controller.c:106-123 | the first search that could report does so if and only if the component of its root has a cycle, and it names the device at which a path from the root enters a simple cycle |
| LoopScan.ScanFindsLoop | controller.c:106-123 | some search of the scan reports if and only if the network has a simple cycle |
| LoopScan.LoopExistsIsSound | controller.c:106-134 | a nonzero result means that the network has a simple cycle, so a forest always yields 0, also after searches that stopped early |
| LoopScan.LastStartDecides | controller.c:106-121 | the result is that of the last search started at a device with neighbours, whatever earlier ones found |
| LoopScan.LoopExistsExactly | controller.c:106-134 | the result is nonzero if and only if the region of that last search has a cycle or touches what earlier searches left behind |
| LoopScan.NewLinkIsReported | controller.c:136-185 | for a new link in a loop-free network: cycle, a reporting search, and the ends having been connected are the same thing, and if they were not connected the result is 0 |
| LoopScan.ReturnedDevice | controller.c:106-134 | for a nonzero result and the devices that searches before the deciding one had discovered: a cycle of other devices contains the result if and only if it is not one of them, and if none of those searches reported, the result lies on a cycle |
| LoopScan.OverwrittenReport | controller.c:110-121 | a concrete network where the last link closes a loop, a search reports it, and the result is 0 |
| LoopScan.ReportOffTheLoop | controller.c:110-121 | a concrete network with a loop where the result names a device that is on no cycle at all |
| LoopScan.BeforeLinkIsReached | controller.c:136-316 | the network to which the overwritten report's last link is added arises from five joins and three links, and that link is admissible |
| LoopScan.BranchedIsReached | controller.c:136-316 | the network whose result is off the loop arises from six joins and six links |
| LoopNames.OnNewLoop | controller.c:136-173 | after a new link between connected devices of a network without loops, a device lies on a loop if and only if it is an end of the link or every path that joined the ends before passes it |
| LoopNames.EntranceIsOne | controller.c:73-121 | after such a link the loop is entered from any device at one place only |
| LoopNames.SlotsAnchored | controller.c:106-123 | during the scan after such a link: while the reporting switch is undiscovered no search has reported, and from then on the discovered devices contain the loop, those of its component are joined to it by discovered devices, and other components are discovered as a whole or not at all |
| LoopNames.ContactIsOne | controller.c:84-95 | a search that begins after that comes upon one discovered device at most |
| LoopNames.NamedExactly | controller.c:106-134 | after such a link the result names a device if and only if the last search, elsewhere than at its root, comes upon it (when the loop was discovered before) or the loop is entered at it from the root of that search (otherwise) |
| LoopNames.ArrivalIsNamed | controller.c:136-185 | in a network without loops, the result names the switch that reported a link if and only if the link is new, joins connected devices, and: an earlier search discovered the switch and the last one comes upon it, or none did and every old path from the last root to the other end passes it |
| LoopNames.UndisturbedArrival | controller.c:136-185 | when no earlier search has reported, the second condition alone decides |
| LoopNames.OtherEndIsNamed | controller.c:177-184 | with switches linked 1-2-3, the probe of 1 arriving at 3 makes the result 1 |
| LoopNames.ChainIsReached | controller.c:136-316 | that network arises from three joins and two links, and the further link is admissible |
| Network.Controller.SetupNewSwitch | controller.c:263-317 | in memory: the first free slot gets the device with the low byte of the descriptor as its number, slots and switch list agree, and the represented graph gains an isolated vertex |
| Network.Controller.RecursiveLoopExists | controller.c:73-100 | on the linked lists and marks: return value and discovered devices are those of the search on the represented graph, lists untouched |
| Network.Controller.LoopExists | controller.c:106-134 | the scan in memory returns what the scan of the graph returns, and leaves all marks removed and the lists unchanged |
| Network.Controller.RecordLink | controller.c:136-173 | appending to the linked lists adds the link to the represented graph, with the duplicate test and self links as in the code |
| Network.Controller.AddConnection | controller.c:136-185 | the link is recorded, and a port is ordered closed if and only if the scan's result is nonzero and the descriptor of the reported device fits 8 bits, at the slot of that device, for the given port; with a wider descriptor the search for the switch leaves the list |
| Oxm.UnpackOfPack | openflow.h:416-426 | the unpacking macros recover every class, field, mask bit and length that fits its bits |
| Oxm.PackOfUnpack | openflow.h:416-426 | packing the unpacked parts gives back any 32-bit header |
| Oxm.WildHeader | openflow.h:428-429 | a wildcarded header keeps class and field, and doubles the length if and only if it is below 128 |
| Oxm.HeaderWords | openflow.h:497-541 | the header words of input port, destination and source address as the specification lists them |
| FlowCodec.RoundTrip | openflow.h:1159-1194 | the independent decoder recovers every flow rule from its encoding: matches, instructions and actions of any number, lengths, alignment and zero pads |
| FlowCodec.Rebuilt | openflow.h:398-411 | conversely, any buffer that decodes is the encoding of the result: there is one byte form for each rule |
| FlowCodec.MatchRoundTrip | openflow.h:397-411 | a padded match is recovered together with what follows it |
| Messages.RulesAreValid | rw_packets.c:384-555 | the four rules are encodable, and take 80, 88, 80 and 88 bytes |
| Messages.PortsHoldLatest | rw_packets.c:722-736 | whatever the order of the entries, a described port ends up with its latest entry and every other port keeps what it held |
| Protocol.QueuedRulesDecode | rw_packets.c:384-575 | the two messages in the buffer split exactly and decode to entries of which one sends exactly the frames from the address on the port to table 1, the other exactly the frames to the address out of the port; at start-up: all misses to the controller, exactly the broadcasts flooded |
| Protocol.PackedRulesDecode | rw_packets.c:558-563 | any two rules packed into one buffer are separated by their length fields and each decodes to itself |
| Protocol.ParseIsUnique | controller.c:402-422 | a stream splits into whole messages and an incomplete rest in one way only |
| Protocol.HandshakeMessages | controller.c:485-500 | the handshake is hello, features request, configuration, port description request, miss rule, broadcast rule, with consecutive transaction numbers |
| Protocol.OutputDiscipline | controller.c:402-509 | what a connection sends splits by its own length fields into the handshake and then the reactions, and all but the echo replies count transaction numbers up by one modulo 2^32, without gap or repeat |
| Protocol.ConverseInOrder | controller.c:426-465 | the same for the reactions to any log of received messages and port orders |
| Protocol.ChunkingIndependence | controller.c:402-509 | what has been sent at any moment is a prefix of what the whole input stream calls for, however it was cut into pieces |
| Protocol.EveryEchoIsAnswered | controller.c:427-430 | the echo replies sent are the replies to the echo requests received before the connection ended, in the same order, and nothing else |
| Protocol.EchoReplyMirrors | rw_packets.c:230-248 | an echo reply has the length, transaction number and payload of its request |
| Protocol.EveryLogIsATimeline | controller.c:426-465 | every log of messages and orders arises from its message stream and some decisions of the rest of the network |
| Forwarding.StartRules | rw_packets.c:384-450 | the start-up rules: any packet of table 0 goes to the controller at lowest priority, and in table 1 exactly the broadcasts are flooded; neither expires |
| Forwarding.LearnedRules | rw_packets.c:460-555 | the learned rules: exactly the frames from the address on the port go from table 0 to table 1, exactly the frames to the address leave table 1 through the port, both above the start-up rules and for 60 seconds |
| Datapath.GreetingFulfils | rw_packets.c:171-185 | the hello offers exactly version 1.3 |
| Datapath.RequestsFulfil | rw_packets.c:90-133 | the requests before the rules are a features request, a configuration with 128 bytes of each miss, and a request for the port descriptions |
| Datapath.ProbeFulfils | rw_packets.c:338-368 | a switch reads the probe as a packet of its own to be flooded, a broadcast frame whose type field is the number of the switch, recognised below 100 |
| Datapath.ClosingFulfils | rw_packets.c:630-655 | a switch that obeys the port modification turns receiving and forwarding off at the named port with the stored address, and keeps every other bit of the configuration |
| Datapath.EntriesAreRead | rw_packets.c:719-737 | the entries of a port description are read as they were put behind its header |
| Datapath.EveryDutyIsMet | controller.c:426-465 | over every log, one message is sent for each duty in the order of the duties and no other: an answer to each echo request, a probe after each features reply, two lessons for each missed packet that is no probe, a closed port for each order and for each probe whose loop search names this switch; none after a message of any but the seven types that are handled |
| Datapath.EverySentIsDue | controller.c:402-509 | the same for the whole connection, which opens with the six messages of the handshake |
| Datapath.MatchedTypeByType | controller.c:402-509 | among the messages of each type there is one for each duty of that type, in the same order |
| Datapath.PortsAreClosed | rw_packets.c:630-655 | whatever a port's configuration was, after any conversation it neither receives nor forwards if it was to be closed and is as it was otherwise |
| Datapath.SwitchLearns | rw_packets.c:384-575 | after any conversation about hosts with different addresses the tables are those of a learning switch: packets of unknown senders go to the controller, known destinations get theirs through their port, broadcasts are flooded, and nothing else leaves |
| PacketIn.ComposedIsRead | rw_packets.c:460-695 | what is read out of a packet-in, its buffer, reason, frame, sender and port, is what a switch puts in |
| PacketIn.InPortFirst | rw_packets.c:598-616 | when the first match field is the input port, the value read is that of a true scan over all fields |
| PacketIn.PortIsReadExactlyWhenFirst | rw_packets.c:598-616 | of every packet-in with given fields the port is read, for every port number, if and only if the port field comes first |
| PacketIn.InputPortIsWordRead | rw_packets.c:598-616 | for every match of at least 8 bytes the value read is bytes 4 to 7 of its fields |
| PacketIn.SourceMatchIsInverted | rw_packets.c:520-531 | reading the match of a learned source rule gives back the port it was made for |
| PacketIn.LearnedAddressIsSource | rw_packets.c:465-471 | for every match length, the learned address is bytes 6 to 11 of the frame |
| PacketIn.ProbeIsRecognised | rw_packets.c:580-591 | the receiver of a probe learns its sender's number if and only if it is below 100 |
| PacketIn.TakenForProbe | rw_packets.c:580-591 | a frame, whatever its addresses and payload, is taken for a probe if and only if its type or length field is 1 to 99, and then names that number as sender |
| PacketIn.ProbeReportsLink | rw_packets.c:682-687 | a packet-in with a probe reports a link to its sender if and only if the number is between 1 and 99 |
| Switch.RoundUp | rw_packets.c:371-381 | the least multiple of 8 that is not smaller, as the padding rule of the wire format asks |
| Switch.Switch.WriteOpenflowHello | rw_packets.c:171-185 | the buffer starts with the hello message, everything behind it is unchanged, one transaction number is used |
| Switch.Switch.RequestFeatures | rw_packets.c:120-133 | likewise the features request |
| Switch.Switch.WriteConfig | rw_packets.c:90-103 | likewise the configuration |
| Switch.Switch.GetPortInfo | rw_packets.c:287-300 | likewise the port description request, whose padding relies on a zeroed buffer |
| Switch.Switch.SendProbePacket | rw_packets.c:338-368 | likewise the packet-out with a flood action and the probe frame of this switch |
| Switch.Switch.ChangePortBehavior | rw_packets.c:630-655 | the buffer starts with the port modification, whose padding keeps old buffer contents |
| Switch.Switch.MakeEchoReply | rw_packets.c:230-248 | the buffer starts with the reply to the request in the read buffer |
| Switch.Switch.WriteDefaultMiss | rw_packets.c:384-450 | behind what is queued, the buffer holds the encoding of the miss rule or the broadcast rule and nothing else changes |
| Switch.Switch.WriteNewFlow | rw_packets.c:460-555 | likewise the learned source or destination rule; the source rule has to come first because its instruction is placed from the start of the buffer |
| Switch.Switch.WriteDefaultFlows | rw_packets.c:558-563 | both start-up rules wait in the buffer, in order, with consecutive transaction numbers |
| Switch.Switch.LearnFlows | rw_packets.c:689-693 | a packet from an unknown source queues exactly the two learned rules |
| Switch.Switch.GetInputPort | rw_packets.c:598-616 | the loop over the match always ends at its first field |
| Switch.Switch.ReadPacketIn | rw_packets.c:659-695 | queues exactly the messages that the packet-in calls for |
| Switch.Switch.SaveConnectedPorts | rw_packets.c:719-737 | the port table in memory becomes the described one; the local port is passed over |
| Switch.Switch.Dispatch | controller.c:426-465 | the buffer and the remembered state after any complete message are those of the reaction function |
| Switch.Switch.constructor | controller.c:263-294 | a new connection satisfies the invariant with the hello queued |
| Switch.Switch.WriteTo | rw_packets.c:54-69 | `send` of any positive number of bytes moves exactly these bytes to the output stream |
| Switch.Switch.ReadFrom | rw_packets.c:71-87 | `recv` of any positive number of bytes appends exactly these bytes |
| Switch.Switch.HandleWriteSocket | controller.c:474-509 | keeps the invariant; the next handshake stage is queued, or reading begins, exactly when the last byte is out |
| Switch.Switch.HandleReadSocket | controller.c:402-472 | on a reading connection keeps the invariant, and a message is dispatched when and only when its last byte has arrived, and it is the message of the stream; on a connection that an order has just set to writing breaks the invariant, whatever arrives |
| Switch.Switch.SendAll | controller.c:474-530 | however few bytes each `send` takes, finitely many write events bring a writing connection to reading, with the handshake over and everything sent that its log calls for |
| Switch.Switch.ObeyOrder | controller.c:177-184 | the effect of the order itself: closing a port on behalf of another connection keeps the connection's invariant if and only if the connection was reading and had read no byte of the next message; a connection that was given up is set to writing again |
| Switch.Switch.NothingIsOwed | controller.c:402-509 | whenever a connection reads, it has handled exactly the complete messages of its input, each once and in order, and has sent everything they call for |
| Switch.Switch.SentIsCalledFor | controller.c:402-509 | at any moment the bytes sent are the beginning of what the messages handled call for, so their number tells what they are |
| Switch.Switch.SentIsPrefix | controller.c:402-509 | at any moment the bytes sent are a prefix of handshake and reactions to the whole input stream |
| Round.ArrivalPortIsClosed | controller.c:136-185 | after a report in a network without loops: the switch at which the probe arrived is told to close the port of arrival if and only if the link is new, closes a loop, and the condition of `LoopNames.ArrivalIsNamed` holds; and any switch is told to if and only if it is the one that `LoopNames.NamedExactly` describes |
| Round.OtherSwitchIsOrdered | controller.c:177-184 | with switches linked 1-2-3 and the probe of 1 arriving at 3, switch 1 is told to close the port of switch 3 |
| Round.Hub.SetupNewSwitch | controller.c:263-316 | connection, switch list and graph grow together: slots keep agreeing, the new connection satisfies its invariant and waits to send its 16 bytes of hello, and the others notice nothing |
| Round.Hub.HandleReadSocket | controller.c:402-472 | over all connections: a probe becomes a link, the loop search names the switch that is to close the port, that connection gets the order, the own one handles its message, and no other changes; all streams stay intact if and only if the own connection was reading and the other was between two messages |
| Round.Hub.HandleAllSockets | controller.c:511-536 | over a whole round with its readiness snapshot: all streams stay intact if and only if every order met its target reading with nothing read, and no order was for a connection still to be read from; the orders are those of the turns taken; and in an intact round every connection has read what waited for it, or sent exactly as many of the waiting bytes as there was room for and moved on to the next stage of its handshake with the last of them, and logged the orders given to it, in order |
| Round.Hub.OrderBeforeRead | controller.c:511-536 | an order to a connection between two messages, followed by reading 1 to 40 bytes from it, breaks its invariant, whatever the bytes |
| AllocTable.LiveAfterTrack | smartalloc.c:84-92 | tracking puts a block on top of those of its address and affects no other address |
| AllocTable.LiveAfterUntrack | smartalloc.c:131-157 | removal answers with the latest block of the address and takes only that away; a miss changes nothing |
| AllocTable.RunRefinesLedger | smartalloc.c:69-157 | after every sequence of operations the 113 chains hold exactly the live blocks, each in the chain of its hash, and the next operation is answered as by a map |
| AllocTable.RunConservesSpace | smartalloc.c:85-153 | after every sequence the space in the chains is what was tracked less what was handed back |
| AllocTable.TracksAfterUntrack | smartalloc.c:138-156 | with distinct addresses, removal takes away exactly the block of the address |
| Smartalloc.TrackTable.Track | smartalloc.c:69-93 | on linked nodes: the represented table gains the block and the running total stays its space, modulo 2^64 |
| Smartalloc.TrackTable.RemoveTrackNode | smartalloc.c:131-157 | on linked nodes: unlinks and returns the node of the address or nothing, with table and total following |
| Smartalloc.TrackTable.ReportSpace | smartalloc.c:238-241 | the sum of the sizes of the live blocks, modulo 2^64 |
| Smartalloc.Allocator.Smartalloc | smartalloc.c:95-111 | the block is tracked, filled and guarded, and no tracked blocks overlap |
| Smartalloc.Allocator.FreeChecks | smartalloc.c:159-171 | reports if and only if some byte of either margin differs from the pattern, and overwrites the data only |
| Smartalloc.Allocator.SmartFree | smartalloc.c:173-190 | an unknown address is reported and nothing changes; otherwise the block is checked and leaves the table |
| Smartalloc.Allocator.SmartRealloc | smartalloc.c:192-236 | all three outcomes: fresh allocation, report of an unknown address, or move with copy and check of the old block |
| Smartalloc.AllottedBytes | smartalloc.c:103-107 | a fresh block has intact margins and filled data, and no byte outside it changes |
| Smartalloc.ReallottedBytes | smartalloc.c:225-231 | the new block starts with the copied old bytes, the rest is filled, its margins are intact, the old data is overwritten with the pattern, and no other byte changes |
| Smartalloc.CopyIsComplete | smartalloc.c:225-229 | all of the smaller size is copied if and only if it is below 2 GiB |
| Smartalloc.OthersUntouched | smartalloc.c:95-236 | allocating, freeing and reallocating change no byte of another live block or of its margins |
| Smartalloc.OverrunsAreReported | smartalloc.c:159-169 | of all a client may have written, exactly what left a margin byte changed is reported at release |
| AllocThreads.StepKeepsInv | smartalloc.c:84-157 | every step of every thread that keeps the allocation rules keeps the invariant of chains, mutex, total and program counters |
| AllocThreads.Safety | smartalloc.c:84-157 | in every interleaving: no empty bucket is dereferenced, every removal finds its node, one thread at most is in a critical section, addresses stay distinct, and with the mutex free the total is the sum of the sizes |
| AllocThreads.RunIsSequential | smartalloc.c:84-157 | every interleaving leaves the chains as the sequence of its tracking and unlinking steps does |
| AllocThreads.RemovalAnswersSequentially | smartalloc.c:131-157 | a removal hands out the block that the sequential table answers |
| AllocThreads.HolderProgresses | smartalloc.c:138-154 | the holder of the mutex is never blocked and is a bounded number of steps from its release |
| AllocRaces.ThreadCrashesExactly | smartalloc.c:131-157 | from a state at rest, for any calls that free and any that allocate: an interleaving makes a given call dereference an empty bucket if and only if other calls ask for each block in its bucket, and for at least one that is in it or about to enter it |
| AllocRaces.CrashExactly | smartalloc.c:131-157 | some interleaving of the calls dereferences an empty bucket if and only if some bucket has each of its blocks asked for and fewer blocks than requests, or is empty while a block about to enter it is asked for and there are two requests |
| AllocRaces.RestingRunIsQuiet | smartalloc.c:84-157 | every run that keeps the allocation rules and has come to rest ends in a state as these two require |
| AllocRaces.LoneFree | smartalloc.c:131-190 | a call to free that nothing disturbs takes a tracked block out and counts it out, or reports an unknown address and changes nothing, whether the bucket is empty or not, and leaves the mutex free |
| AllocRaces.HolderReleases | smartalloc.c:131-157 | in every interleaving of frees and allocations, rule-breaking ones too, the holder of the mutex is some of its own steps from the release, unless it meets an empty bucket, and its search ends as the table has it |
| AllocRaces.DoubleFreeCrashes | smartalloc.c:135-139 | two threads that free the only block of a bucket have an interleaving that dereferences an empty bucket |
| Checksum.InCksum | checksum.c:62-90 | for every buffer that fits the accumulator, no addition overflows; the answer brings the sum of the words to a multiple of 65535 and is 0xffff exactly for the sum 0; and its two stored bytes do the same for the whole buffer read as one number |
| Checksum.ComplementIsOne | checksum.c:57-90 | at most one word does that |
| Checksum.SumIsNumber | checksum.c:74-84 | the sum of the words in network order and the buffer as one number agree modulo 65535, and are 0 together |
| Checksum.StoredComplements | checksum.c:57-90 | the bytes that a host of either byte order stores complement the buffer as one number, odd lengths included |
| Checksum.TwoFoldsSuffice | checksum.c:86-88 | two folds reduce any sum the accumulator can hold to its ones-complement representative |
| Checksum.AccumulatorBoundIsTight | checksum.c:64-77 | no content of `n` bytes overflows the accumulator if and only if `n` is at most 65537 (little endian) or 65536 (big endian) |
| Checksum.ByteOrderIndependence | checksum.c:57-89 | for every buffer, of odd length too, hosts of either byte order store the same two result bytes |
| Checksum.WordOrderIrrelevant | checksum.c:74-77 | rearranging whole words does not change the result |
| Checksum.StoredChecksumVerifies | checksum.c:57-60 | the words that make a buffer verify when stored over a zeroed word are exactly the checksum and, when that is 0, also 0xffff |
| Checksum.WordChangeUndetected | checksum.c:57-60 | overwriting a word of a verifying buffer goes unnoticed if and only if it keeps its value or changes between 0 and 0xffff while another byte is not 0 |

## Left out

- Sockets, `select` and descriptor sets, signals, argument parsing and `main`: `send` and `recv` appear only as transfers of a positive number of bytes that the caller of a handler chooses.
- Failing or zero-length `send` and `recv`, and `resize_buffer`: received lengths are taken to be at least 8 and at most the 1500 bytes of a buffer, and the version of a hello to be 4.
- What follows `DISCONNECTED`: a message of an unhandled type ends the model of that connection; `free_switch_buffers` and the resets on released buffers are not modelled.
- Messages on which a handler would read past the message: packet-ins below 36 bytes, frames below 14 bytes, frame lengths or match lengths that do not fit, port descriptions with a port number of 50 or more.
- Switch.Switch.HandleReadSocket: takes the outcome of the loop search for its own switch as a parameter; `Round.Hub.HandleReadSocket` puts the search in its place.
- Switch.Switch.ReadPacketIn: likewise; whether its packet-in reports a link, and which, is `Switch.Switch.Reported`.
- Round.Hub.HandleAllSockets: takes no new connection within the round, and is not followed beyond the turn that spoils a connection: the rest of such a round, and what eight stray bytes read behind an order would be taken for, are not modelled.
- Protocol.EveryLogIsATimeline: an order to a peer that was given up is an entry without effect here; the original writes into the released buffer and sets the connection to writing, which `Switch.Switch.ObeyOrder` counts as spoiled.
- LoopScan.ReturnedDevice: in a network that had loops before, leaves open when a result that earlier searches had discovered lies on a loop through devices of theirs; after a new link in a network without loops `LoopNames.OnNewLoop` decides it.
- LoopScan.NewLinkIsReported: speaks of the result; that a result of 0 leads to no order is `Network.Controller.AddConnection`.
- Round.ArrivalPortIsClosed: is about networks without loops before the report; in one that has loops already, the device named is that of `LoopScan.LastStartDecides` and `LoopScan.ReturnedDevice`.
- Round.Hub.SetupNewSwitch: descriptors below 256, so that a round cannot leave the switch list in search of a switch; the graph part takes any descriptor.
- Datapath.SwitchLearns: about the tables as written; entries that expire, and a switch's refusal of entries that overlap with one of equal priority (as when a host moves), are the switch's own affair, so the hosts learned have different addresses.
- Switch.Switch.ChangePortBehavior: only the closing form, because the enabling form is never called.
- Network.Controller.AddConnection: takes known end points, because with an unknown one the original dereferences a null slot; at most 50 devices. Port numbers inside list nodes are not kept. What follows once the search has left the switch list is not modelled.
- Network.Controller.SetupNewSwitch: the graph part only, with at most 49 devices before it; the connection part is `Switch.Switch.constructor`, and the two together are `Round.Hub.SetupNewSwitch`.
- The builders store their fields in ascending order of address, which is not always the order of the assignments in the source; each field is stored once.
- `get_input_port` assembles its word on a little-endian host.
- `AllocThreads` takes reads and writes of shared memory to be atomic and sequentially consistent, and the library to be initialised.
- Smartalloc.Allocator.Smartalloc: raw `malloc` is a parameter that returns unused memory; running out of memory exits the original, and the `newMem == NULL` branch of `smartrealloc` cannot be reached.
- `smartvalloc`, which differs from `smartalloc` only in the raw allocator, and the C++ wrappers.
- Printing, `read_port_change` (prints only), `read_config`, `read_error`, `write_error`, `flood_packet` (never called) and `check_network` (a stub).
- The rest of openflow.h: groups, meters, queues, statistics and error codes, which have no behaviour here.
- mininet_simple.py and the Makefile.
