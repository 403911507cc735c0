/** The messages the controller sends to a switch and its reaction to each message it receives. */
module Messages {
  import opened Bytes
  import FlowCodec

  const BUFFER_SIZE: nat := 1500
  const MAX_PORTS: nat := 50

  // Message types (openflow.h:103-153).
  const HELLO: Byte := 0
  const ECHO_REQUEST: Byte := 2
  const ECHO_REPLY: Byte := 3
  const FEATURES_REQUEST: Byte := 5
  const FEATURES_REPLY: Byte := 6
  const SET_CONFIG: Byte := 9
  const PACKET_IN: Byte := 10
  const FLOW_REMOVED: Byte := 11
  const PORT_STATUS: Byte := 12
  const PACKET_OUT: Byte := 13
  const FLOW_MOD: Byte := 14
  const PORT_MOD: Byte := 16
  const MULTIPART_REQUEST: Byte := 18
  const MULTIPART_REPLY: Byte := 19

  const PORT_FLOOD: Word32 := 0xffff_fffb
  const PORT_CONTROLLER: Word32 := 0xffff_fffd
  const PORT_LOCAL: Word32 := 0xffff_fffe
  const NO_BUFFER: Word32 := 0xffff_ffff
  const PORT_DESC: Word16 := 13

  type Message = seq<Byte>

  function NextXid(xid: Word32): Word32 {
    (xid + 1) % 0x1_0000_0000
  }

  function XidAfter(xid: Word32, n: nat): Word32 {
    (xid + n) % 0x1_0000_0000
  }

  function Header(kind: Byte, length: Word16, xid: Word32): (s: Message)
    ensures |s| == 8
  {
    [4, kind] + U16(length) + U32(xid)
  }

  // ---------------------------------------------------------------- messages sent

  /** Hello with one version bitmap that names version 1.3 (section 7.5.1 of the OpenFlow Switch
      Specification 1.3.5). */
  function Hello(xid: Word32): Message {
    Header(HELLO, 16, xid) + U16(1) + U16(8) + U32(16)
  }

  function FeaturesRequest(xid: Word32): Message {
    Header(FEATURES_REQUEST, 8, xid)
  }

  function SetConfig(xid: Word32): Message {
    Header(SET_CONFIG, 12, xid) + U16(0) + U16(128)
  }

  function PortDescRequest(xid: Word32): Message {
    Header(MULTIPART_REQUEST, 16, xid) + U16(PORT_DESC) + U16(0) + Zeros(4)
  }

  const MAC_BROADCAST: seq<Byte> := [0xff, 0xff, 0xff, 0xff, 0xff, 0xff]

  function InPortTlv(port: Word32): FlowCodec.Tlv {
    FlowCodec.Tlv(0x8000, 0, false, U32(port))
  }

  function EthDstTlv(mac: seq<Byte>): FlowCodec.Tlv {
    FlowCodec.Tlv(0x8000, 3, false, mac)
  }

  function EthSrcTlv(mac: seq<Byte>): FlowCodec.Tlv {
    FlowCodec.Tlv(0x8000, 4, false, mac)
  }

  /** Table 0 sends what it does not know to the controller. */
  function DefaultMiss(xid: Word32): FlowCodec.FlowMod {
    FlowCodec.FlowMod(xid, 0, 0, 0, 0, 0, 0, 0, NO_BUFFER, 0, 0, 7,
                      [], [FlowCodec.ApplyActions([FlowCodec.Output(PORT_CONTROLLER, 0xffff)])])
  }

  /** Table 1 floods broadcasts. */
  function BroadcastRule(xid: Word32): FlowCodec.FlowMod {
    FlowCodec.FlowMod(xid, 0, 0, 1, 0, 0, 0, 0, NO_BUFFER, 0, 0, 7,
                      [EthDstTlv(MAC_BROADCAST)], [FlowCodec.ApplyActions([FlowCodec.Output(PORT_FLOOD, 0xffff)])])
  }

  /** Table 0: a frame from `mac` on `port` goes on to table 1. */
  function SourceRule(xid: Word32, port: Word32, mac: seq<Byte>, bufferId: Word32): FlowCodec.FlowMod {
    FlowCodec.FlowMod(xid, 0, 0, 0, 0, 60, 60, 1, bufferId, PORT_FLOOD, 0, 7,
                      [InPortTlv(port), EthSrcTlv(mac)], [FlowCodec.GotoTable(1)])
  }

  /** Table 1: a frame to `mac` leaves through `port`. */
  function DestinationRule(xid: Word32, port: Word32, mac: seq<Byte>): FlowCodec.FlowMod {
    FlowCodec.FlowMod(xid, 0, 0, 1, 0, 60, 60, 1, NO_BUFFER, PORT_FLOOD, 0, 7,
                      [EthDstTlv(mac)], [FlowCodec.ApplyActions([FlowCodec.Output(port, 6400)])])
  }

  lemma RulesAreValid(xid: Word32, port: Word32, mac: seq<Byte>, bufferId: Word32)
    requires |mac| == 6
    ensures FlowCodec.Valid(DefaultMiss(xid)) && FlowCodec.Size(DefaultMiss(xid)) == 80
    ensures FlowCodec.Valid(BroadcastRule(xid)) && FlowCodec.Size(BroadcastRule(xid)) == 88
    ensures FlowCodec.Valid(SourceRule(xid, port, mac, bufferId))
    ensures FlowCodec.Size(SourceRule(xid, port, mac, bufferId)) == 80
    ensures FlowCodec.Valid(DestinationRule(xid, port, mac)) && FlowCodec.Size(DestinationRule(xid, port, mac)) == 88
  {
    OneTlv(EthDstTlv(MAC_BROADCAST));
    OneTlv(EthDstTlv(mac));
    TwoTlvs(InPortTlv(port), EthSrcTlv(mac));
    OneInstruction(FlowCodec.ApplyActions([FlowCodec.Output(PORT_CONTROLLER, 0xffff)]));
    OneInstruction(FlowCodec.ApplyActions([FlowCodec.Output(PORT_FLOOD, 0xffff)]));
    OneInstruction(FlowCodec.ApplyActions([FlowCodec.Output(port, 6400)]));
    OneInstruction(FlowCodec.GotoTable(1));
  }

  lemma OneTlv(t: FlowCodec.Tlv)
    requires t.Valid()
    ensures FlowCodec.ValidTlvs([t]) && FlowCodec.EncodeTlvs([t]) == FlowCodec.EncodeTlv(t)
  {
    assert [t][1..] == [];
  }

  lemma TwoTlvs(t: FlowCodec.Tlv, u: FlowCodec.Tlv)
    requires t.Valid() && u.Valid()
    ensures FlowCodec.ValidTlvs([t, u])
    ensures FlowCodec.EncodeTlvs([t, u]) == FlowCodec.EncodeTlv(t) + FlowCodec.EncodeTlv(u)
  {
    OneTlv(u);
    assert [t, u][1..] == [u];
  }

  lemma OneInstruction(i: FlowCodec.Instruction)
    requires FlowCodec.ValidInstruction(i)
    ensures FlowCodec.ValidInstructions([i]) && FlowCodec.EncodeInstructions([i]) == FlowCodec.EncodeInstruction(i)
  {
    assert [i][1..] == [];
  }

  /** The frame that a switch floods for the controller to find its neighbours. */
  function ProbeFrame(fd: Word16): Message {
    MAC_BROADCAST + [1, 1, 1, 1, 1, 1] + U16(fd)
  }

  function Probe(xid: Word32, fd: Word16): Message {
    Header(PACKET_OUT, 54, xid) + U32(NO_BUFFER) + U32(PORT_CONTROLLER) + U16(16) + Zeros(6)
    + FlowCodec.EncodeAction(FlowCodec.Output(PORT_FLOOD, 0xffff)) + ProbeFrame(fd)
  }

  function EchoReply(request: Message): Message
    requires |request| >= 8
  {
    [4, ECHO_REPLY] + request[2..]
  }

  /** Stop receiving and forwarding on a port. */
  function ClosePort(xid: Word32, port: Word32, hwAddr: seq<Byte>): Message {
    Header(PORT_MOD, 40, xid) + U32(port) + Zeros(4) + hwAddr + Zeros(2) + U32(0x24) + U32(0x24) + Zeros(8)
  }

  // ---------------------------------------------------------------- messages received

  predicate Framed(m: Message) {
    |m| >= 8 && Get16(m, 2) == |m|
  }

  function Kind(m: Message): Byte
    requires |m| >= 8
  {
    m[1]
  }

  predicate Handled(kind: Byte) {
    || kind == ECHO_REQUEST || kind == HELLO || kind == FEATURES_REPLY || kind == PACKET_IN
    || kind == MULTIPART_REPLY || kind == PORT_STATUS || kind == FLOW_REMOVED
  }

  /** The input port of a packet-in: the payload of the first match field, whatever that field is. */
  function InputPort(m: Message): Word32
    requires |m| >= 36
  {
    if Get16(m, 26) == 0 then 0 else Get32(m, 32)
  }

  /** The source address of the packet's frame. */
  function SourceMac(m: Message): seq<Byte>
    requires |m| >= 36 && 38 + FlowCodec.Padded(Get16(m, 26)) <= |m|
  {
    m[32 + FlowCodec.Padded(Get16(m, 26))..38 + FlowCodec.Padded(Get16(m, 26))]
  }

  /** The switch that sent the frame, if the frame is one of the controller's probes; otherwise 0. */
  function Neighbour(frame: seq<Byte>): Word16
    requires |frame| >= 14
  {
    if Get16(frame, 12) < 100 then Get16(frame, 12) else 0
  }

  /** The frame of a packet-in, counted back from the end of the message. */
  function Frame(m: Message): seq<Byte>
    requires |m| >= 14 && Get16(m, 12) <= |m|
  {
    m[|m| - Get16(m, 12)..]
  }

  function PortCount(m: Message): nat
    requires |m| >= 16
  {
    (|m| - 16) / 64
  }

  function PortEntry(m: Message, i: nat): (e: seq<Byte>)
    requires |m| >= 16 && i < PortCount(m)
    ensures |e| == 64
  {
    m[16 + 64 * i..80 + 64 * i]
  }

  predicate AcceptablePacketIn(m: Message)
    requires |m| >= 8
  {
    |m| >= 36 && (m[14] == 0 ==> 38 + FlowCodec.Padded(Get16(m, 26)) <= |m| && 14 <= Get16(m, 12) <= |m|)
  }

  predicate AcceptableReply(m: Message)
    requires |m| >= 8
  {
    |m| >= 16 && (Get16(m, 8) == PORT_DESC ==> AcceptablePorts(m))
  }

  predicate AcceptablePorts(m: Message)
    requires |m| >= 16
  {
    forall i :: 0 <= i < PortCount(m)
            ==> Get32(PortEntry(m, i), 0) == PORT_LOCAL || Get32(PortEntry(m, i), 0) < MAX_PORTS
  }

  /** The messages on which the handlers read only what the message holds. */
  predicate Acceptable(m: Message) {
    && Framed(m) && |m| <= BUFFER_SIZE
    && (Kind(m) == HELLO ==> m[0] == 4)
    && (Kind(m) == PACKET_IN ==> AcceptablePacketIn(m))
    && (Kind(m) == MULTIPART_REPLY ==> AcceptableReply(m))
  }

  /** The port table after the first `n` entries of a port description. */
  function PortsAfter(ports: seq<seq<Byte>>, m: Message, n: nat): (r: seq<seq<Byte>>)
    requires |ports| == MAX_PORTS && |m| >= 16 && n <= PortCount(m)
    requires AcceptablePorts(m)
    ensures |r| == MAX_PORTS
  {
    if n == 0 then ports
    else
      var before, entry := PortsAfter(ports, m, n - 1), PortEntry(m, n - 1);
      if Get32(entry, 0) == PORT_LOCAL then before else before[Get32(entry, 0) := entry]
  }

  /** The number of entry `i`. */
  function PortNumber(m: Message, i: nat): Word32
    requires |m| >= 16 && i < PortCount(m)
  {
    Get32(PortEntry(m, i), 0)
  }

  /** The latest of the first `n` entries for port `j`, or -1 without one. */
  function Latest(m: Message, n: nat, j: nat): (i: int)
    requires |m| >= 16 && n <= PortCount(m)
    ensures -1 <= i < n && (i >= 0 ==> PortNumber(m, i) == j)
    ensures forall k :: i < k < n ==> PortNumber(m, k) != j
  {
    if n == 0 then -1 else if PortNumber(m, n - 1) == j then n - 1 else Latest(m, n - 1, j)
  }

  /** Whatever the order of the entries: a described port holds its latest entry, any other port what
      it held before. */
  lemma {:induction false} PortsHoldLatest(ports: seq<seq<Byte>>, m: Message, n: nat, j: nat)
    requires |ports| == MAX_PORTS && |m| >= 16 && n <= PortCount(m) && AcceptablePorts(m) && j < MAX_PORTS
    ensures PortsAfter(ports, m, n)[j] == if Latest(m, n, j) < 0 then ports[j] else PortEntry(m, Latest(m, n, j))
  {
    if n > 0 {
      PortsHoldLatest(ports, m, n - 1, j);
      PortStep(ports, m, n, j);
    }
  }

  lemma PortStep(ports: seq<seq<Byte>>, m: Message, n: nat, j: nat)
    requires |ports| == MAX_PORTS && |m| >= 16 && 0 < n <= PortCount(m) && AcceptablePorts(m) && j < MAX_PORTS
    ensures PortsAfter(ports, m, n)[j]
         == if PortNumber(m, n - 1) == j then PortEntry(m, n - 1) else PortsAfter(ports, m, n - 1)[j]
  {
    hide Get32, PortEntry, PortCount;
  }

  // ---------------------------------------------------------------- the reaction to a message

  /** What the controller remembers of a switch from one message to the next. */
  datatype Peer = Peer(fd: Word16, xid: Word32, ports: seq<seq<Byte>>, alive: bool) {
    predicate Valid() {
      |ports| == MAX_PORTS && forall i :: 0 <= i < |ports| ==> |ports[i]| == 64
    }
  }

  /** A packet-in that no flow entry matched and that carries a probe. */
  predicate ReportsLink(m: Message)
    requires Acceptable(m)
  {
    Kind(m) == PACKET_IN && m[14] == 0 && Neighbour(Frame(m)) != 0
  }

  /** What is known of the port to be closed: `closePort` tells whether the loop search that a
      reported link triggers names this switch. */
  predicate Usable(m: Message, closePort: bool) {
    Acceptable(m) && (ReportsLink(m) && closePort ==> InputPort(m) < MAX_PORTS)
  }

  function Respond(p: Peer, m: Message, closePort: bool): (r: (Peer, seq<Message>))
    requires p.Valid() && Usable(m, closePort)
    ensures r.0.Valid()
  {
    if !p.alive then (p, [])
    else if Kind(m) == ECHO_REQUEST then (p, [EchoReply(m)])
    else if Kind(m) == FEATURES_REPLY then (p.(xid := NextXid(p.xid)), [Probe(p.xid, p.fd)])
    else if Kind(m) == PACKET_IN && m[14] == 0 then
      if Neighbour(Frame(m)) != 0 then
        if closePort then
          (p.(xid := NextXid(p.xid)), [ClosePort(p.xid, InputPort(m), p.ports[InputPort(m)][8..14])])
        else (p, [])
      else
        RulesAreValid(p.xid, InputPort(m), SourceMac(m), Get32(m, 8));
        RulesAreValid(NextXid(p.xid), InputPort(m), SourceMac(m), 0);
        (p.(xid := NextXid(NextXid(p.xid))),
         [FlowCodec.Encode(SourceRule(p.xid, InputPort(m), SourceMac(m), Get32(m, 8))),
          FlowCodec.Encode(DestinationRule(NextXid(p.xid), InputPort(m), SourceMac(m)))])
    else if Kind(m) == MULTIPART_REPLY && Get16(m, 8) == PORT_DESC then
      PortsStayValid(p.ports, m, PortCount(m));
      (p.(ports := PortsAfter(p.ports, m, PortCount(m))), [])
    else (p.(alive := Handled(Kind(m))), [])
  }

  lemma {:induction false} PortsStayValid(ports: seq<seq<Byte>>, m: Message, n: nat)
    requires |ports| == MAX_PORTS && |m| >= 16 && n <= PortCount(m)
    requires AcceptablePorts(m)
    requires forall i :: 0 <= i < |ports| ==> |ports[i]| == 64
    ensures forall i :: 0 <= i < MAX_PORTS ==> |PortsAfter(ports, m, n)[i]| == 64
  {
    if n > 0 {
      PortsStayValid(ports, m, n - 1);
    }
  }
}
