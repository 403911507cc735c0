/** What the flow tables of a switch do with a packet (sections 5.1 to 5.3, 5.9 and 7.2.3 of the OpenFlow Switch
    Specification 1.3.5), and what the controller's rules mean there. */
module Forwarding {
  import opened Bytes
  import opened Messages
  import opened Wrappers
  import FlowCodec

  datatype Packet = Packet(inPort: Word32, dest: seq<Byte>, source: seq<Byte>)

  const ADD: Byte := 0

  // Fields of the basic class (section 7.2.3.7).
  const BASIC: Word16 := 0x8000
  const IN_PORT: nat := 0
  const ETH_DST: nat := 3
  const ETH_SRC: nat := 4

  /** The packet has the value that a match field asks for. */
  predicate FieldMatches(t: FlowCodec.Tlv, p: Packet) {
    && t.oxmClass == BASIC && !t.hasMask
    && (if t.field == IN_PORT then |t.payload| == 4 && Get32(t.payload, 0) == p.inPort
        else if t.field == ETH_DST then t.payload == p.dest
        else t.field == ETH_SRC && t.payload == p.source)
  }

  predicate Matches(r: FlowCodec.FlowMod, p: Packet) {
    forall i :: 0 <= i < |r.match_| ==> FieldMatches(r.match_[i], p)
  }

  function PortsOf(actions: seq<FlowCodec.Action>): seq<Word32> {
    seq(|actions|, i requires 0 <= i < |actions| => actions[i].port)
  }

  /** The ports that the instructions send a packet to, in this order. */
  function Outputs(ins: seq<FlowCodec.Instruction>): seq<Word32> {
    if ins == [] then []
    else (if ins[0].ApplyActions? then PortsOf(ins[0].actions) else []) + Outputs(ins[1..])
  }

  /** The table at which the instructions go on. */
  function NextTable(ins: seq<FlowCodec.Instruction>): Option<Byte> {
    if ins == [] then None else if ins[0].GotoTable? then Some(ins[0].table) else NextTable(ins[1..])
  }

  /** An entry of the table that matches the packet. */
  predicate Applies(rule: Option<FlowCodec.FlowMod>, table: Byte, p: Packet) {
    rule.Some? && rule.value.command == ADD && rule.value.table == table && Matches(rule.value, p)
  }

  /** The entry that applies, all others that match having a lower priority. */
  ghost predicate Chosen(rules: seq<Option<FlowCodec.FlowMod>>, table: Byte, p: Packet, i: nat) {
    && i < |rules| && Applies(rules[i], table, p)
    && forall j :: 0 <= j < |rules| && j != i && Applies(rules[j], table, p)
         ==> rules[j].value.priority < rules[i].value.priority
  }

  /** The packet leaves through `outs`, from `table` on. Without a matching entry it is dropped. */
  ghost predicate Forwards(rules: seq<Option<FlowCodec.FlowMod>>, table: Byte, p: Packet, outs: seq<Word32>)
    decreases 0x100 - table
  {
    if forall i :: 0 <= i < |rules| ==> !Applies(rules[i], table, p) then outs == []
    else exists i: nat :: Chosen(rules, table, p, i) && Proceeds(rules, table, rules[i].value.instructions, p, outs)
  }

  /** The instructions of the chosen entry are carried out. */
  ghost predicate Proceeds(rules: seq<Option<FlowCodec.FlowMod>>, table: Byte, ins: seq<FlowCodec.Instruction>,
                           p: Packet, outs: seq<Word32>)
    decreases 0x100 - table, 0
  {
    var now, next := Outputs(ins), NextTable(ins);
    && now <= outs
    && (if next.None? then outs == now
        else next.value > table && Forwards(rules, next.value, p, outs[|now|..]))
  }

  // ---------------------------------------------------------------- what the rules mean

  /** The entry is added, and leaves the packet to these ports and to this table. */
  predicate Sends(r: FlowCodec.FlowMod, outs: seq<Word32>, next: Option<Byte>) {
    r.command == ADD && Outputs(r.instructions) == outs && NextTable(r.instructions) == next
  }

  predicate Expires(r: FlowCodec.FlowMod, seconds: nat) {
    r.idle == seconds && r.hard == seconds
  }

  /** What no other entry of table 0 matches goes to the controller. */
  ghost predicate TellsMisses(r: FlowCodec.FlowMod) {
    && r.table == 0 && r.priority == 0 && Expires(r, 0) && r.bufferId == NO_BUFFER
    && Sends(r, [PORT_CONTROLLER], None) && forall p :: Matches(r, p)
  }

  /** Broadcasts in table 1 are flooded. */
  ghost predicate FloodsBroadcasts(r: FlowCodec.FlowMod) {
    && r.table == 1 && r.priority == 0 && Expires(r, 0) && r.bufferId == NO_BUFFER
    && Sends(r, [PORT_FLOOD], None) && forall p :: Matches(r, p) <==> p.dest == MAC_BROADCAST
  }

  /** Frames from the address on the port go on to table 1, beginning with the one in the buffer. */
  ghost predicate KnowsSource(r: FlowCodec.FlowMod, port: Word32, mac: seq<Byte>, bufferId: Word32) {
    && r.table == 0 && r.priority == 1 && Expires(r, 60) && r.bufferId == bufferId
    && Sends(r, [], Some(1)) && forall p :: Matches(r, p) <==> p.inPort == port && p.source == mac
  }

  /** Frames to the address leave through the port. */
  ghost predicate KnowsDestination(r: FlowCodec.FlowMod, port: Word32, mac: seq<Byte>) {
    && r.table == 1 && r.priority == 1 && Expires(r, 60) && r.bufferId == NO_BUFFER
    && Sends(r, [port], None) && forall p :: Matches(r, p) <==> p.dest == mac
  }

  lemma StartRules(xid: Word32)
    ensures TellsMisses(DefaultMiss(xid)) && FloodsBroadcasts(BroadcastRule(xid))
  {
    OneOutput(PORT_CONTROLLER, 0xffff);
    OneOutput(PORT_FLOOD, 0xffff);
    FieldByField(DefaultMiss(xid));
    FieldByField(BroadcastRule(xid));
    assert BroadcastRule(xid).match_[0] == EthDstTlv(MAC_BROADCAST);
  }

  lemma LearnedRules(xid: Word32, port: Word32, mac: seq<Byte>, bufferId: Word32)
    ensures KnowsSource(SourceRule(xid, port, mac, bufferId), port, mac, bufferId)
    ensures KnowsDestination(DestinationRule(xid, port, mac), port, mac)
  {
    OneOutput(port, 6400);
    OnlyGoto(1);
    Get32OfU32(port);
    FieldByField(SourceRule(xid, port, mac, bufferId));
    FieldByField(DestinationRule(xid, port, mac));
    assert SourceRule(xid, port, mac, bufferId).match_ == [InPortTlv(port), EthSrcTlv(mac)];
    assert DestinationRule(xid, port, mac).match_ == [EthDstTlv(mac)];
  }

  lemma FieldByField(r: FlowCodec.FlowMod)
    ensures r.match_ == [] ==> forall p :: Matches(r, p)
    ensures |r.match_| == 1 ==> forall p :: Matches(r, p) <==> FieldMatches(r.match_[0], p)
    ensures |r.match_| == 2
            ==> forall p :: Matches(r, p) <==> FieldMatches(r.match_[0], p) && FieldMatches(r.match_[1], p)
  {
    hide FieldMatches;
  }

  lemma OneOutput(port: Word32, maxLen: Word16)
    ensures var ins := [FlowCodec.ApplyActions([FlowCodec.Output(port, maxLen)])];
            Outputs(ins) == [port] && NextTable(ins) == None
  {
    var ins := [FlowCodec.ApplyActions([FlowCodec.Output(port, maxLen)])];
    assert ins[1..] == [] && PortsOf(ins[0].actions) == [port];
  }

  lemma OnlyGoto(table: Byte)
    ensures var ins := [FlowCodec.GotoTable(table)];
            Outputs(ins) == [] && NextTable(ins) == Some(table)
  {
    var ins := [FlowCodec.GotoTable(table)];
    assert ins[1..] == [];
  }
}
