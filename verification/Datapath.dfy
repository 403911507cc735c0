/** What a switch makes of the messages it is sent, read field by field as the OpenFlow Switch Specification 1.3.5 lays
    them out (sections 7.3.2, 7.3.4.3, 7.3.5, 7.3.7 and 7.5.1), and what a whole conversation has to contain. */
module Datapath {
  import opened Bytes
  import opened Messages
  import opened Protocol
  import opened Wrappers
  import opened Forwarding
  import FlowCodec
  import PacketIn

  // ---------------------------------------------------------------- bits

  predicate HasBit(w: nat, i: nat)
    decreases i
  {
    if i == 0 then w % 2 == 1 else HasBit(w / 2, i - 1)
  }

  ghost function Bits(w: nat): iset<nat> {
    iset i: nat | HasBit(w, i)
  }

  lemma {:induction false} ZeroHasNoBit(i: nat)
    ensures !HasBit(0, i)
  {
    if i > 0 {
      ZeroHasNoBit(i - 1);
    }
  }

  /** One bit `k` above `w`. */
  lemma {:induction false} Shifted(w: nat, k: nat, i: nat)
    ensures HasBit(w * Pow2(k), i) <==> i >= k && HasBit(w, i - k)
    decreases k
  {
    if k > 0 {
      assert w * Pow2(k) == 2 * (w * Pow2(k - 1));
      if i > 0 {
        Shifted(w, k - 1, i - 1);
      }
    }
  }

  function Pow2(k: nat): nat {
    if k == 0 then 1 else 2 * Pow2(k - 1)
  }

  lemma BitsOfSixteen()
    ensures Bits(16) == iset{4}
  {
    forall i: nat
      ensures HasBit(16, i) <==> i == 4
    {
      assert 1 * Pow2(4) == 16;
      Shifted(1, 4, i);
      OnlyBitOfOne(i);
      if i >= 4 {
        OnlyBitOfOne(i - 4);
      }
    }
  }

  lemma OnlyBitOfOne(i: nat)
    ensures HasBit(1, i) <==> i == 0
  {
    if i > 0 {
      ZeroHasNoBit(i - 1);
    }
  }

  /** 0x24 is bit 2 and bit 5. */
  lemma BitsOfClosed()
    ensures Bits(0x24) == iset{2, 5}
  {
    forall i: nat
      ensures HasBit(0x24, i) <==> i == 2 || i == 5
    {
      assert 9 * Pow2(2) == 0x24 && 1 * Pow2(3) == 8;
      Shifted(9, 2, i);
      if i > 2 {
        var j: nat := i - 3;
        assert HasBit(9, i - 2) == HasBit(4, j);
        assert 1 * Pow2(2) == 4;
        Shifted(1, 2, j);
        if j >= 2 {
          OnlyBitOfOne(j - 2);
        }
      }
    }
  }

  // ---------------------------------------------------------------- readers

  /** The versions that a hello offers in its version bitmap (section 7.5.1). */
  ghost function Versions(m: Message): Option<iset<nat>> {
    if Framed(m) && Kind(m) == HELLO && |m| == 16 && Get16(m, 8) == 1 && Get16(m, 10) == 8 then Some(Bits(Get32(m, 12)))
    else None
  }

  /** Flags and length of the part of a missed packet that goes to the controller (section 7.3.2). */
  datatype Config = Config(flags: Word16, missLength: Word16)

  function ReadConfig(m: Message): Option<Config> {
    if Framed(m) && Kind(m) == SET_CONFIG && |m| == 12 then Some(Config(Get16(m, 8), Get16(m, 10))) else None
  }

  /** Type and flags of a multipart request (section 7.3.5). */
  datatype Multipart = Multipart(kind: Word16, flags: Word16)

  function ReadMultipart(m: Message): Option<Multipart> {
    if Framed(m) && Kind(m) == MULTIPART_REQUEST && |m| == 16 then Some(Multipart(Get16(m, 8), Get16(m, 10))) else None
  }

  /** Section 7.3.7. */
  datatype PacketOut = PacketOut(bufferId: Word32, inPort: Word32, actions: seq<FlowCodec.Action>, data: seq<Byte>)

  function ReadPacketOut(m: Message): Option<PacketOut> {
    if !(Framed(m) && Kind(m) == PACKET_OUT && |m| >= 24 && 24 + Get16(m, 16) as int <= |m|) then None
    else
      var actions := FlowCodec.DecodeActions(m[24..24 + Get16(m, 16) as int]);
      if actions.None? then None
      else Some(PacketOut(Get32(m, 8), Get32(m, 12), actions.value, m[24 + Get16(m, 16) as int..]))
  }

  /** Section 7.3.4.3. */
  datatype PortMod = PortMod(port: Word32, hwAddr: seq<Byte>, config: Word32, mask: Word32)

  function ReadPortMod(m: Message): Option<PortMod> {
    if Framed(m) && Kind(m) == PORT_MOD && |m| == 40 then
      Some(PortMod(Get32(m, 8), m[16..22], Get32(m, 24), Get32(m, 28)))
    else None
  }

  /** The bits of a port's configuration after a port modification: those of the mask are set as in `config`. */
  ghost function Configured(before: iset<nat>, pm: PortMod): iset<nat> {
    (before - Bits(pm.mask)) + (Bits(pm.config) * Bits(pm.mask))
  }

  const NO_RECV: nat := 2
  const NO_FWD: nat := 5

  /** A port that neither receives nor forwards, and otherwise is as before. */
  ghost function Shut(config: iset<nat>): iset<nat> {
    config + iset{NO_RECV, NO_FWD}
  }

  // ---------------------------------------------------------------- duties

  /** What a message can be sent for. */
  datatype Duty =
    | Greet
    | AskFeatures
    | SetMissLength
    | AskPorts
    | TeachMisses
    | TeachBroadcasts
    | Answer(request: Message)
    | SendProbe(fd: Word16)
    | TeachSource(port: Word32, mac: seq<Byte>, bufferId: Word32)
    | TeachDestination(port: Word32, mac: seq<Byte>)
    | Close(port: Word32, hwAddr: seq<Byte>)

  /** The frame goes out of all ports of the switch and tells the number of the switch. */
  ghost predicate FloodsProbe(po: PacketOut, fd: Word16) {
    && po.bufferId == NO_BUFFER && po.inPort == PORT_CONTROLLER && PortsOf(po.actions) == [PORT_FLOOD]
    && po.data == PacketIn.EthernetFrame(MAC_BROADCAST, [1, 1, 1, 1, 1, 1], fd, [])
    && |po.data| == 14 && (fd < 100 ==> Neighbour(po.data) == fd)
  }

  /** The port neither receives nor forwards any more, and all else about it stays. */
  ghost predicate ClosesPort(pm: PortMod, port: Word32, hwAddr: seq<Byte>) {
    pm.port == port && pm.hwAddr == hwAddr && forall before :: Configured(before, pm) == Shut(before)
  }

  ghost predicate Fulfils(m: Message, d: Duty) {
    && Framed(m) && m[0] == 4
    && match d {
      case Greet => Versions(m) == Some(iset{4})
      case AskFeatures => Kind(m) == FEATURES_REQUEST && |m| == 8
      case SetMissLength => ReadConfig(m) == Some(Config(0, 128))
      case AskPorts => ReadMultipart(m) == Some(Multipart(13, 0))
      case TeachMisses => FlowCodec.Decode(m).Some? && TellsMisses(FlowCodec.Decode(m).value)
      case TeachBroadcasts => FlowCodec.Decode(m).Some? && FloodsBroadcasts(FlowCodec.Decode(m).value)
      case Answer(request) => Kind(m) == ECHO_REPLY && |m| == |request| && m[2..] == request[2..]
      case SendProbe(fd) => ReadPacketOut(m).Some? && FloodsProbe(ReadPacketOut(m).value, fd)
      case TeachSource(port, mac, bufferId) =>
        FlowCodec.Decode(m).Some? && KnowsSource(FlowCodec.Decode(m).value, port, mac, bufferId)
      case TeachDestination(port, mac) =>
        FlowCodec.Decode(m).Some? && KnowsDestination(FlowCodec.Decode(m).value, port, mac)
      case Close(port, hwAddr) => ReadPortMod(m).Some? && ClosesPort(ReadPortMod(m).value, port, hwAddr)
    }
  }

  /** One message for each duty, in this order, and no other. */
  ghost predicate Matched(ms: seq<Message>, ds: seq<Duty>) {
    |ms| == |ds| && forall i :: 0 <= i < |ms| ==> Fulfils(ms[i], ds[i])
  }

  // ---------------------------------------------------------------- each message

  lemma GreetingFulfils(xid: Word32)
    ensures Fulfils(Hello(xid), Greet)
  {
    var m := Hello(xid);
    SmallMessagesHeaded(xid, 0);
    assert m[8..10] == U16(1) && m[10..12] == U16(8) && m[12..16] == U32(16);
    FlowCodec.WordRead16(m, 8, 1);
    FlowCodec.WordRead16(m, 10, 8);
    FlowCodec.WordRead32(m, 12, 16);
    BitsOfSixteen();
  }

  lemma RequestsFulfil(xid: Word32)
    ensures Fulfils(FeaturesRequest(xid), AskFeatures) && Fulfils(SetConfig(xid), SetMissLength)
    ensures Fulfils(PortDescRequest(xid), AskPorts)
  {
    SmallMessagesHeaded(xid, 0);
    var c, r := SetConfig(xid), PortDescRequest(xid);
    assert c[8..10] == U16(0) && c[10..12] == U16(128);
    FlowCodec.WordRead16(c, 8, 0);
    FlowCodec.WordRead16(c, 10, 128);
    assert r[8..10] == U16(13) && r[10..12] == U16(0);
    FlowCodec.WordRead16(r, 8, 13);
    FlowCodec.WordRead16(r, 10, 0);
  }

  lemma StartRulesFulfil(xid: Word32)
    ensures FlowCodec.Valid(DefaultMiss(xid)) && Fulfils(FlowCodec.Encode(DefaultMiss(xid)), TeachMisses)
    ensures FlowCodec.Valid(BroadcastRule(xid)) && Fulfils(FlowCodec.Encode(BroadcastRule(xid)), TeachBroadcasts)
  {
    hide FlowCodec.Encode, FlowCodec.Decode, FlowCodec.Valid, TellsMisses, FloodsBroadcasts, DefaultMiss, BroadcastRule;
    RulesAreValid(xid, 0, MAC_BROADCAST, 0);
    StartRules(xid);
    FlowModHeaded(DefaultMiss(xid));
    FlowModHeaded(BroadcastRule(xid));
    FlowCodec.RoundTrip(DefaultMiss(xid));
    FlowCodec.RoundTrip(BroadcastRule(xid));
  }

  lemma LearnedRulesFulfil(xid: Word32, port: Word32, mac: seq<Byte>, bufferId: Word32)
    requires |mac| == 6
    ensures FlowCodec.Valid(SourceRule(xid, port, mac, bufferId))
    ensures FlowCodec.Valid(DestinationRule(xid, port, mac))
    ensures Fulfils(FlowCodec.Encode(SourceRule(xid, port, mac, bufferId)), TeachSource(port, mac, bufferId))
    ensures Fulfils(FlowCodec.Encode(DestinationRule(xid, port, mac)), TeachDestination(port, mac))
  {
    hide FlowCodec.Encode, FlowCodec.Decode, FlowCodec.Valid, KnowsSource, KnowsDestination, SourceRule,
         DestinationRule;
    RulesAreValid(xid, port, mac, bufferId);
    LearnedRules(xid, port, mac, bufferId);
    FlowModHeaded(SourceRule(xid, port, mac, bufferId));
    FlowModHeaded(DestinationRule(xid, port, mac));
    FlowCodec.RoundTrip(SourceRule(xid, port, mac, bufferId));
    FlowCodec.RoundTrip(DestinationRule(xid, port, mac));
  }

  lemma ReplyFulfils(request: Message)
    requires Framed(request)
    ensures Fulfils(EchoReply(request), Answer(request))
  {
    EchoReplyMirrors(request);
    assert EchoReply(request)[2..] == request[2..];
  }

  lemma ProbeFulfils(xid: Word32, fd: Word16)
    ensures Fulfils(Probe(xid, fd), SendProbe(fd))
  {
    var m := Probe(xid, fd);
    SmallMessagesHeaded(xid, fd);
    ProbeFields(xid, fd);
    FloodAction();
    PacketIn.ProbeIsRecognised(fd);
    assert ProbeFrame(fd) == PacketIn.EthernetFrame(MAC_BROADCAST, [1, 1, 1, 1, 1, 1], fd, []);
  }

  lemma ProbeFields(xid: Word32, fd: Word16)
    ensures var m := Probe(xid, fd);
            && |m| == 54 && Get32(m, 8) == NO_BUFFER && Get32(m, 12) == PORT_CONTROLLER && Get16(m, 16) == 16
            && m[24..40] == FlowCodec.EncodeAction(FlowCodec.Output(PORT_FLOOD, 0xffff)) && m[40..] == ProbeFrame(fd)
  {
    hide FlowCodec.EncodeAction, U16, U32;
    var m := Probe(xid, fd);
    assert m[8..12] == U32(NO_BUFFER) && m[12..16] == U32(PORT_CONTROLLER) && m[16..18] == U16(16);
    FlowCodec.WordRead32(m, 8, NO_BUFFER);
    FlowCodec.WordRead32(m, 12, PORT_CONTROLLER);
    FlowCodec.WordRead16(m, 16, 16);
  }

  lemma FloodAction()
    ensures var a := FlowCodec.DecodeActions(FlowCodec.EncodeAction(FlowCodec.Output(PORT_FLOOD, 0xffff)));
            a.Some? && PortsOf(a.value) == [PORT_FLOOD]
  {
    var actions := [FlowCodec.Output(PORT_FLOOD, 0xffff)];
    FlowCodec.ActionsRoundTrip(actions);
    assert actions[1..] == [];
    assert FlowCodec.EncodeActions(actions) == FlowCodec.EncodeAction(actions[0]);
  }

  lemma ClosingFulfils(xid: Word32, port: Word32, hwAddr: seq<Byte>)
    requires |hwAddr| == 6
    ensures Fulfils(ClosePort(xid, port, hwAddr), Close(port, hwAddr))
  {
    var m := ClosePort(xid, port, hwAddr);
    ClosePortHeaded(xid, port, hwAddr);
    ClosePortFields(xid, port, hwAddr);
    BitsOfClosed();
  }

  lemma ClosePortFields(xid: Word32, port: Word32, hwAddr: seq<Byte>)
    requires |hwAddr| == 6
    ensures var m := ClosePort(xid, port, hwAddr);
            |m| == 40 && Get32(m, 8) == port && m[16..22] == hwAddr && Get32(m, 24) == 0x24 && Get32(m, 28) == 0x24
  {
    hide U16, U32;
    var m := ClosePort(xid, port, hwAddr);
    assert m[8..12] == U32(port) && m[16..22] == hwAddr && m[24..28] == U32(0x24) && m[28..32] == U32(0x24);
    FlowCodec.WordRead32(m, 8, port);
    FlowCodec.WordRead32(m, 24, 0x24);
    FlowCodec.WordRead32(m, 28, 0x24);
  }

  // ---------------------------------------------------------------- the duties of a conversation

  /** The types of the messages that do not end a connection: hello, echo request, features reply, packet-in, flow
      removed, port status and multipart reply. */
  const TYPES_TAKEN: set<Byte> := {0, 2, 6, 10, 11, 12, 19}

  /** No message of the log has ended the connection. */
  predicate Lasts(log: seq<Exchange>)
    requires Usables(log)
  {
    forall i :: 0 <= i < |log| && log[i].Exchange?
           ==> (assert UsableExchange(log[i]); Kind(log[i].message) in TYPES_TAKEN)
  }

  predicate DescribesPorts(m: Message)
    requires Acceptable(m)
  {
    Kind(m) == MULTIPART_REPLY && Get16(m, 8) == PORT_DESC
  }

  /** The latest entry for port `j` in the port descriptions of the log; at first, what `ports` holds. */
  function PortStored(ports: seq<seq<Byte>>, log: seq<Exchange>, j: nat): (entry: seq<Byte>)
    requires Usables(log) && j < |ports| && |ports[j]| == 64
    ensures |entry| == 64
  {
    if log == [] then ports[j]
    else
      var n := |log| - 1;
      assert UsableExchange(log[n]);
      if Lasts(log[..n]) && log[n].Exchange? && DescribesPorts(log[n].message)
         && Latest(log[n].message, PortCount(log[n].message), j) >= 0 then
        PortEntry(log[n].message, Latest(log[n].message, PortCount(log[n].message), j))
      else PortStored(ports, log[..n], j)
  }

  /** What an exchange calls for: a reply to an echo request; a probe after a features reply; after a packet-in that
      no entry matched, lessons about its sender, unless it is a probe itself, which closes the port if the loop search
      names this switch; and an order closes a port. */
  function Due(p: Peer, before: seq<Exchange>, e: Exchange): seq<Duty>
    requires p.Valid() && Usables(before) && UsableExchange(e)
  {
    if !Lasts(before) then []
    else
      match e
      case Order(port) => [Close(port, PortStored(p.ports, before, port)[8..14])]
      case Exchange(m, closePort) =>
        if Kind(m) == ECHO_REQUEST then [Answer(m)]
        else if Kind(m) == FEATURES_REPLY then [SendProbe(p.fd)]
        else if TeachesHost(m) then
          [TeachSource(InputPort(m), SourceMac(m), Get32(m, 8)), TeachDestination(InputPort(m), SourceMac(m))]
        else if ReportsLink(m) && closePort then
          [Close(InputPort(m), PortStored(p.ports, before, InputPort(m))[8..14])]
        else []
  }

  /** A packet-in that no entry matched and whose frame is no probe. */
  predicate TeachesHost(m: Message)
    requires Acceptable(m)
  {
    Kind(m) == PACKET_IN && m[14] == 0 && Neighbour(Frame(m)) == 0
  }

  function Duties(p: Peer, log: seq<Exchange>): seq<Duty>
    requires p.Valid() && Usables(log)
  {
    if log == [] then []
    else
      var n := |log| - 1;
      assert UsableExchange(log[n]);
      Duties(p, log[..n]) + Due(p, log[..n], log[n])
  }

  const OPENING: seq<Duty> := [Greet, AskFeatures, SetMissLength, AskPorts, TeachMisses, TeachBroadcasts]

  lemma MatchedAppend(a: seq<Message>, b: seq<Message>, ds: seq<Duty>, es: seq<Duty>)
    requires Matched(a, ds) && Matched(b, es)
    ensures Matched(a + b, ds + es)
  {
    hide Fulfils;
  }

  /** The peer has the number it began with, and the port entries and the life that the log leaves it. */
  ghost predicate Tracked(p: Peer, log: seq<Exchange>, now: Peer)
    requires p.Valid() && Usables(log)
  {
    && now.Valid() && now.fd == p.fd && now.alive == Lasts(log)
    && forall j :: 0 <= j < MAX_PORTS ==> now.ports[j] == PortStored(p.ports, log, j)
  }

  lemma LastsOn(log: seq<Exchange>, e: Exchange)
    requires Usables(log) && UsableExchange(e)
    ensures Usables(log + [e])
    ensures Lasts(log + [e]) <==> Lasts(log) && (e.Exchange? ==> Kind(e.message) in TYPES_TAKEN)
  {
    var longer := log + [e];
    assert forall i :: 0 <= i < |log| ==> longer[i] == log[i];
    assert longer[|log|] == e;
  }

  /** One exchange keeps track of the peer. */
  lemma StaysTracked(p: Peer, log: seq<Exchange>, e: Exchange, now: Peer)
    requires p.Valid() && Usables(log) && UsableExchange(e) && Tracked(p, log, now)
    ensures Usables(log + [e]) && Tracked(p, log + [e], React(now, e).0)
  {
    LastsOn(log, e);
    var longer, next := log + [e], React(now, e).0;
    assert longer[..|log|] == log;
    assert next.alive == Lasts(longer) by { AliveAfter(now, e); }
    hide Lasts, PortsAfter, Latest, PortEntry, InputPort, SourceMac, Frame, Neighbour, FlowCodec.Encode,
         FlowCodec.Valid;
    forall j | 0 <= j < MAX_PORTS
      ensures next.ports[j] == PortStored(p.ports, longer, j)
    {
      if now.alive && e.Exchange? && DescribesPorts(e.message) {
        PortsHoldLatest(now.ports, e.message, PortCount(e.message), j);
      }
    }
  }

  lemma AliveAfter(now: Peer, e: Exchange)
    requires now.Valid() && UsableExchange(e)
    ensures React(now, e).0.alive <==> now.alive && (e.Exchange? ==> Kind(e.message) in TYPES_TAKEN)
  {
  }

  lemma ReactionFulfils(p: Peer, log: seq<Exchange>, e: Exchange, now: Peer)
    requires p.Valid() && Usables(log) && UsableExchange(e) && Tracked(p, log, now)
    ensures Matched(React(now, e).1, Due(p, log, e))
  {
    hide Fulfils, Lasts, FlowCodec.Encode, FlowCodec.Valid, PortStored, ClosePort, Probe, SourceRule, DestinationRule;
    match e {
      case Order(port) =>
        if now.alive {
          ClosingFulfils(now.xid, port, now.ports[port][8..14]);
        }
      case Exchange(m, closePort) =>
        if now.alive {
          if Kind(m) == ECHO_REQUEST {
            ReplyFulfils(m);
          } else if Kind(m) == FEATURES_REPLY {
            ProbeFulfils(now.xid, now.fd);
          } else if ReportsLink(m) && closePort {
            ClosingFulfils(now.xid, InputPort(m), now.ports[InputPort(m)][8..14]);
          } else if TeachesHost(m) {
            LearnedRulesFulfil(now.xid, InputPort(m), SourceMac(m), Get32(m, 8));
            LearnedRulesFulfil(NextXid(now.xid), InputPort(m), SourceMac(m), 0);
          }
        }
    }
  }

  /** Over any log: one message is sent for each duty, in the order of the duties, and nothing else; none after the
      message that ends the connection. */
  lemma {:induction false} EveryDutyIsMet(p: Peer, log: seq<Exchange>)
    requires p.Valid() && p.alive && Usables(log)
    ensures Matched(Converse(p, log).1, Duties(p, log)) && Tracked(p, log, Converse(p, log).0)
  {
    hide Fulfils, Due, React, Lasts, UsableExchange;
    if log == [] {
      NothingYet(p);
    } else {
      var n := |log| - 1;
      var before := Converse(p, log[..n]);
      EveryDutyIsMet(p, log[..n]);
      StaysTracked(p, log[..n], log[n], before.0);
      ReactionFulfils(p, log[..n], log[n], before.0);
      MatchedAppend(before.1, React(before.0, log[n]).1, Duties(p, log[..n]), Due(p, log[..n], log[n]));
      assert log == log[..n] + [log[n]];
    }
  }

  lemma NothingYet(p: Peer)
    requires p.Valid() && p.alive
    ensures Tracked(p, [], p)
  {
  }

  /** The entries of a port description are read as they were put behind the header. */
  lemma {:induction false} EntriesAreRead(head: seq<Byte>, entries: seq<seq<Byte>>)
    requires |head| == 16 && forall i :: 0 <= i < |entries| ==> |entries[i]| == 64
    ensures var m := head + Concat(entries);
            && PortCount(m) == |entries| && |m| == 16 + 64 * |entries|
            && forall i :: 0 <= i < |entries| ==> PortEntry(m, i) == entries[i]
  {
    if entries != [] {
      var n := |entries| - 1;
      EntriesAreRead(head, entries[..n]);
      var m, front := head + Concat(entries), head + Concat(entries[..n]);
      assert m == front + entries[n];
      forall i | 0 <= i < |entries|
        ensures PortEntry(m, i) == entries[i]
      {
        if i < n {
          assert PortEntry(m, i) == PortEntry(front, i);
        }
      }
    }
  }

  lemma OpeningFulfilled(xid: Word32)
    ensures Matched(Handshake(5, xid), OPENING)
  {
    hide Fulfils, FlowCodec.Encode, FlowCodec.Valid, XidAfter, Handshake, Hello, FeaturesRequest, SetConfig,
         PortDescRequest, DefaultMiss, BroadcastRule;
    HandshakeMessages(xid);
    XidSteps(xid, 0, 0);
    GreetingFulfils(xid);
    RequestsFulfil(XidAfter(xid, 1));
    RequestsFulfil(XidAfter(xid, 2));
    RequestsFulfil(XidAfter(xid, 3));
    StartRulesFulfil(XidAfter(xid, 4));
    StartRulesFulfil(XidAfter(xid, 5));
  }

  /** The duties of a connection from its beginning. */
  function AllDuties(p: Peer, log: seq<Exchange>): seq<Duty>
    requires p.Valid() && Usables(log)
  {
    OPENING + Duties(Greeted(p), log)
  }

  lemma EverySentIsDue(p: Peer, log: seq<Exchange>)
    requires p.Valid() && p.alive && Usables(log)
    ensures Matched(Sent(p, log), AllDuties(p, log))
  {
    hide Matched, Handshake, Converse, Duties;
    OpeningFulfilled(p.xid);
    EveryDutyIsMet(Greeted(p), log);
    MatchedAppend(Handshake(5, p.xid), Converse(Greeted(p), log).1, OPENING, Duties(Greeted(p), log));
  }

  // ---------------------------------------------------------------- type by type

  /** The type of the message that a duty calls for. */
  function TypeOf(d: Duty): Byte {
    match d
    case Greet => HELLO
    case AskFeatures => FEATURES_REQUEST
    case SetMissLength => SET_CONFIG
    case AskPorts => MULTIPART_REQUEST
    case TeachMisses => FLOW_MOD
    case TeachBroadcasts => FLOW_MOD
    case Answer(_) => ECHO_REPLY
    case SendProbe(_) => PACKET_OUT
    case TeachSource(_, _, _) => FLOW_MOD
    case TeachDestination(_, _) => FLOW_MOD
    case Close(_, _) => PORT_MOD
  }

  lemma TypeFits(m: Message, d: Duty)
    requires Fulfils(m, d)
    ensures |m| >= 8 && Kind(m) == TypeOf(d)
  {
  }

  function OfType(ms: seq<Message>, kind: Byte): seq<Message>
    requires forall i :: 0 <= i < |ms| ==> |ms[i]| >= 8
  {
    if ms == [] then []
    else
      var n := |ms| - 1;
      OfType(ms[..n], kind) + (if Kind(ms[n]) == kind then [ms[n]] else [])
  }

  function DutiesOfType(ds: seq<Duty>, kind: Byte): seq<Duty> {
    if ds == [] then []
    else
      var n := |ds| - 1;
      DutiesOfType(ds[..n], kind) + (if TypeOf(ds[n]) == kind then [ds[n]] else [])
  }

  /** Among the messages of each type, one for each duty of that type, in the same order. */
  lemma {:induction false} MatchedTypeByType(ms: seq<Message>, ds: seq<Duty>, kind: Byte)
    requires Matched(ms, ds)
    ensures (forall i :: 0 <= i < |ms| ==> |ms[i]| >= 8) && Matched(OfType(ms, kind), DutiesOfType(ds, kind))
  {
    forall i | 0 <= i < |ms|
      ensures |ms[i]| >= 8
    {
      TypeFits(ms[i], ds[i]);
    }
    if ms != [] {
      var n := |ms| - 1;
      MatchedTypeByType(ms[..n], ds[..n], kind);
      TypeFits(ms[n], ds[n]);
      hide Fulfils;
      if TypeOf(ds[n]) == kind {
        MatchedAppend(OfType(ms[..n], kind), [ms[n]], DutiesOfType(ds[..n], kind), [ds[n]]);
      }
    }
  }

  // ---------------------------------------------------------------- what the ports become

  /** The configuration of a port after a switch has taken the messages. */
  ghost function ConfigAfter(before: iset<nat>, ms: seq<Message>, port: Word32): iset<nat> {
    if ms == [] then before
    else
      var n := |ms| - 1;
      var config, pm := ConfigAfter(before, ms[..n], port), ReadPortMod(ms[n]);
      if pm.Some? && pm.value.port == port then Configured(config, pm.value) else config
  }

  predicate ToClose(ds: seq<Duty>, port: Word32) {
    exists i :: 0 <= i < |ds| && ds[i].Close? && ds[i].port == port
  }

  lemma {:induction false} ConfigByDuties(before: iset<nat>, ms: seq<Message>, ds: seq<Duty>, port: Word32)
    requires Matched(ms, ds)
    ensures ConfigAfter(before, ms, port) == if ToClose(ds, port) then Shut(before) else before
  {
    if ms == [] {
      assert !ToClose(ds, port);
    } else {
      var n := |ms| - 1;
      hide Fulfils, ToClose, ReadPortMod, Configured, Shut, ConfigAfter;
      ConfigByDuties(before, ms[..n], ds[..n], port);
      ConfigStep(before, ms, port);
      ConfigByDuty(ConfigAfter(before, ms[..n], port), ms[n], ds[n], port);
      ToCloseOn(ds[..n], ds[n], port);
      assert ds == ds[..n] + [ds[n]];
      ShutTwice(before);
    }
  }

  lemma ShutTwice(config: iset<nat>)
    ensures Shut(Shut(config)) == Shut(config)
  {
  }

  lemma ConfigStep(before: iset<nat>, ms: seq<Message>, port: Word32)
    requires ms != []
    ensures var n := |ms| - 1;
            var config, pm := ConfigAfter(before, ms[..n], port), ReadPortMod(ms[n]);
            ConfigAfter(before, ms, port)
            == if pm.Some? && pm.value.port == port then Configured(config, pm.value) else config
  {
    hide ReadPortMod, Configured;
  }

  lemma ConfigByDuty(config: iset<nat>, m: Message, d: Duty, port: Word32)
    requires Fulfils(m, d)
    ensures var pm := ReadPortMod(m);
            (if pm.Some? && pm.value.port == port then Configured(config, pm.value) else config)
            == if d.Close? && d.port == port then Shut(config) else config
  {
    TypeFits(m, d);
  }

  lemma ToCloseOn(ds: seq<Duty>, d: Duty, port: Word32)
    ensures ToClose(ds + [d], port) <==> ToClose(ds, port) || (d.Close? && d.port == port)
  {
    var longer := ds + [d];
    assert longer[|ds|] == d;
    if i :| 0 <= i < |ds| && ds[i].Close? && ds[i].port == port {
      assert longer[i] == ds[i];
    }
  }

  /** Whatever the configuration of a port was: after the conversation it neither receives nor forwards if it was
      to be closed, and is as it was otherwise. No other bit ever changes, and no port is opened again. */
  lemma PortsAreClosed(p: Peer, log: seq<Exchange>, before: iset<nat>, port: Word32)
    requires p.Valid() && p.alive && Usables(log)
    ensures ConfigAfter(before, Sent(p, log), port)
         == if ToClose(AllDuties(p, log), port) then Shut(before) else before
  {
    EverySentIsDue(p, log);
    ConfigByDuties(before, Sent(p, log), AllDuties(p, log), port);
  }

  // ---------------------------------------------------------------- what the tables become

  datatype Host = Host(mac: seq<Byte>, port: Word32)

  /** The senders of the packet-ins from which the controller learns. */
  function Hosts(log: seq<Exchange>): seq<Host>
    requires Usables(log)
  {
    if log == [] then []
    else
      var n := |log| - 1;
      assert UsableExchange(log[n]);
      Hosts(log[..n])
      + (if Lasts(log[..n]) && log[n].Exchange? && TeachesHost(log[n].message) then
           [Host(SourceMac(log[n].message), InputPort(log[n].message))]
         else [])
  }

  predicate MacsDiffer(hosts: seq<Host>) {
    forall i, j :: 0 <= i < j < |hosts| ==> hosts[i].mac != hosts[j].mac
  }

  /** The entries that a switch has added. */
  function Rules(ms: seq<Message>): (rules: seq<Option<FlowCodec.FlowMod>>)
    ensures |rules| == |ms| && forall i :: 0 <= i < |ms| ==> rules[i] == FlowCodec.Decode(ms[i])
  {
    seq(|ms|, i requires 0 <= i < |ms| => FlowCodec.Decode(ms[i]))
  }

  /** What a learning switch that knows these hosts does with a packet: an unknown sender is reported; a known
      destination gets it through its port; a broadcast is flooded, and nothing else leaves. */
  ghost predicate Delivers(hosts: seq<Host>, p: Packet, outs: seq<Word32>) {
    if Host(p.source, p.inPort) in hosts then LeavesFor(hosts, p.dest, outs) else outs == [PORT_CONTROLLER]
  }

  /** The entry of a duty, and the packets to which it applies. */
  predicate Concerns(d: Duty, table: Byte, p: Packet) {
    match d
    case TeachMisses => table == 0
    case TeachBroadcasts => table == 1 && p.dest == MAC_BROADCAST
    case TeachSource(port, mac, _) => table == 0 && p.inPort == port && p.source == mac
    case TeachDestination(_, mac) => table == 1 && p.dest == mac
    case _ => false
  }

  lemma RuleOfDuty(m: Message, d: Duty, table: Byte, p: Packet)
    requires Fulfils(m, d)
    ensures Applies(FlowCodec.Decode(m), table, p) <==> Concerns(d, table, p)
    ensures Concerns(d, table, p)
            ==> FlowCodec.Decode(m).Some?
                && FlowCodec.Decode(m).value.priority == (if d.TeachSource? || d.TeachDestination? then 1 else 0)
                && Sends(FlowCodec.Decode(m).value, OutputsOfDuty(d), if d.TeachSource? then Some(1) else None)
  {
    TypeFits(m, d);
    assert FlowCodec.Decode(m).Some? ==> Kind(m) == FLOW_MOD;
    hide FlowCodec.Decode, Matches, Framed, ReadPacketOut, ReadPortMod, ClosesPort, FloodsProbe;
  }

  function OutputsOfDuty(d: Duty): seq<Word32> {
    match d
    case TeachMisses => [PORT_CONTROLLER]
    case TeachBroadcasts => [PORT_FLOOD]
    case TeachDestination(port, _) => [port]
    case _ => []
  }

  ghost predicate SourceTaught(ds: seq<Duty>, h: Host) {
    exists i :: 0 <= i < |ds| && ds[i].TeachSource? && ds[i].mac == h.mac && ds[i].port == h.port
  }

  ghost predicate DestinationTaught(ds: seq<Duty>, h: Host) {
    exists i :: 0 <= i < |ds| && ds[i] == TeachDestination(h.port, h.mac)
  }

  /** Both lessons about each host, and about no other one; none twice. */
  ghost predicate Taught(ds: seq<Duty>, hosts: seq<Host>) {
    && (forall h :: h in hosts <==> SourceTaught(ds, h))
    && (forall h :: h in hosts <==> DestinationTaught(ds, h))
    && (forall i, j :: 0 <= i < j < |ds| && ds[i].TeachSource? && ds[j].TeachSource? ==> ds[i].mac != ds[j].mac)
    && (forall i, j :: 0 <= i < j < |ds| && ds[i].TeachDestination? && ds[j].TeachDestination?
                  ==> ds[i].mac != ds[j].mac)
  }

  predicate NoLesson(d: Duty) {
    !d.TeachSource? && !d.TeachDestination?
  }

  lemma TaughtBeside(ds: seq<Duty>, hosts: seq<Host>, d: Duty)
    requires Taught(ds, hosts) && NoLesson(d)
    ensures Taught(ds + [d], hosts)
  {
    var longer := ds + [d];
    forall h
      ensures SourceTaught(longer, h) <==> SourceTaught(ds, h)
      ensures DestinationTaught(longer, h) <==> DestinationTaught(ds, h)
    {
      TaughtLonger(ds, d, h);
    }
  }

  lemma TaughtLonger(ds: seq<Duty>, d: Duty, h: Host)
    ensures SourceTaught(ds + [d], h) <==> SourceTaught(ds, h) || (d.TeachSource? && d.mac == h.mac && d.port == h.port)
    ensures DestinationTaught(ds + [d], h) <==> DestinationTaught(ds, h) || d == TeachDestination(h.port, h.mac)
  {
    var longer := ds + [d];
    assert longer[|ds|] == d;
    assert forall i :: 0 <= i < |ds| ==> longer[i] == ds[i];
  }

  lemma TaughtHost(ds: seq<Duty>, hosts: seq<Host>, h: Host, bufferId: Word32)
    requires Taught(ds, hosts) && forall i :: 0 <= i < |hosts| ==> hosts[i].mac != h.mac
    ensures Taught(ds + [TeachSource(h.port, h.mac, bufferId), TeachDestination(h.port, h.mac)], hosts + [h])
  {
    var one := ds + [TeachSource(h.port, h.mac, bufferId)];
    var two := one + [TeachDestination(h.port, h.mac)];
    assert ds + [TeachSource(h.port, h.mac, bufferId), TeachDestination(h.port, h.mac)] == two;
    forall g
      ensures SourceTaught(two, g) <==> SourceTaught(ds, g) || g == h
      ensures DestinationTaught(two, g) <==> DestinationTaught(ds, g) || g == h
    {
      TaughtLonger(ds, TeachSource(h.port, h.mac, bufferId), g);
      TaughtLonger(one, TeachDestination(h.port, h.mac), g);
    }
    assert forall g :: g in hosts + [h] <==> g in hosts || g == h;
    NoneOfMac(ds, hosts, h.mac);
  }

  lemma NoneOfMac(ds: seq<Duty>, hosts: seq<Host>, mac: seq<Byte>)
    requires Taught(ds, hosts) && forall i :: 0 <= i < |hosts| ==> hosts[i].mac != mac
    ensures forall i :: 0 <= i < |ds| && (ds[i].TeachSource? || ds[i].TeachDestination?) ==> ds[i].mac != mac
  {
    forall i | 0 <= i < |ds| && (ds[i].TeachSource? || ds[i].TeachDestination?)
      ensures ds[i].mac != mac
    {
      var h := Host(ds[i].mac, ds[i].port);
      assert ds[i].TeachSource? ==> SourceTaught(ds, h);
      assert ds[i].TeachDestination? ==> DestinationTaught(ds, h);
      assert h in hosts;
    }
  }

  lemma {:induction false} DutiesTeach(p: Peer, log: seq<Exchange>)
    requires p.Valid() && Usables(log) && MacsDiffer(Hosts(log))
    ensures Taught(AllDuties(p, log), Hosts(log))
    ensures forall i :: |OPENING| <= i < |AllDuties(p, log)|
                   ==> AllDuties(p, log)[i] != TeachMisses && AllDuties(p, log)[i] != TeachBroadcasts
  {
    hide Taught, Due, Duties, AllDuties, Lasts, Hosts, UsableExchange;
    if log == [] {
      NothingTaught(p);
    } else {
      var n := |log| - 1;
      var before, due := AllDuties(p, log[..n]), Due(Greeted(p), log[..n], log[n]);
      AllDutiesOn(p, log);
      assert log == log[..n] + [log[n]];
      DueTeaches(Greeted(p), log[..n], log[n]);
      assert Hosts(log[..n]) <= Hosts(log);
      DutiesTeach(p, log[..n]);
      if due == [] {
        assert before + due == before;
      } else if |due| == 1 {
        assert due == [due[0]];
        TaughtBeside(before, Hosts(log[..n]), due[0]);
      } else {
        var h := Host(due[0].mac, due[0].port);
        assert due == [TeachSource(h.port, h.mac, due[0].bufferId), TeachDestination(h.port, h.mac)];
        assert forall i :: 0 <= i < |Hosts(log[..n])| ==> Hosts(log)[i].mac != Hosts(log)[|Hosts(log[..n])|].mac;
        TaughtHost(before, Hosts(log[..n]), h, due[0].bufferId);
      }
    }
  }

  lemma NothingTaught(p: Peer)
    requires p.Valid()
    ensures AllDuties(p, []) == OPENING && Hosts([]) == [] && Taught(OPENING, [])
  {
  }

  lemma AllDutiesOn(p: Peer, log: seq<Exchange>)
    requires p.Valid() && Usables(log) && log != []
    ensures var n := |log| - 1;
            UsableExchange(log[n]) && AllDuties(p, log) == AllDuties(p, log[..n]) + Due(Greeted(p), log[..n], log[n])
    ensures OPENING <= AllDuties(p, log)
  {
    hide Due;
  }

  /** An exchange calls for nothing, for a duty that is no lesson, or for two lessons about one host. */
  lemma DueTeaches(p: Peer, before: seq<Exchange>, e: Exchange)
    requires p.Valid() && Usables(before) && UsableExchange(e) && Usables(before + [e])
    ensures var due, hosts := Due(p, before, e), Hosts(before + [e]);
            && |due| <= 2 && (forall i :: 0 <= i < |due| ==> due[i] != TeachMisses && due[i] != TeachBroadcasts)
            && (|due| < 2 ==> hosts == Hosts(before) && forall i :: 0 <= i < |due| ==> NoLesson(due[i]))
            && (|due| == 2 ==> due[0].TeachSource? && due[1] == TeachDestination(due[0].port, due[0].mac)
                               && hosts == Hosts(before) + [Host(due[0].mac, due[0].port)])
  {
    assert (before + [e])[..|before|] == before;
    hide Lasts, PortStored, InputPort, SourceMac, Frame, Neighbour;
  }

  // ---------------------------------------------------------------- the learning switch

  /** Which duty's entry is the one for a packet. */
  ghost predicate Decides(ds: seq<Duty>, table: Byte, p: Packet, i: nat) {
    i < |ds| && Concerns(ds[i], table, p)
    && forall j :: 0 <= j < |ds| && j != i && Concerns(ds[j], table, p) ==> NoLesson(ds[j]) && !NoLesson(ds[i])
  }

  /** The chosen entry decides. */
  lemma ChosenDecides(ms: seq<Message>, ds: seq<Duty>, table: Byte, p: Packet, i: nat, outs: seq<Word32>)
    requires Matched(ms, ds) && Decides(ds, table, p, i)
    ensures var now := OutputsOfDuty(ds[i]);
            Forwards(Rules(ms), table, p, outs)
            <==> now <= outs && (if ds[i].TeachSource? then 1 > table && Forwards(Rules(ms), 1, p, outs[|now|..])
                                 else outs == now)
  {
    var rules := Rules(ms);
    forall j | 0 <= j < |ms|
      ensures Applies(rules[j], table, p) <==> Concerns(ds[j], table, p)
      ensures Concerns(ds[j], table, p)
              ==> rules[j].Some? && rules[j].value.priority == (if NoLesson(ds[j]) then 0 else 1)
    {
      RuleOfDuty(ms[j], ds[j], table, p);
    }
    RuleOfDuty(ms[i], ds[i], table, p);
    hide Concerns, Applies, Fulfils, Rules;
    assert Chosen(rules, table, p, i);
    assert forall j: nat :: Chosen(rules, table, p, j) ==> j == i;
  }

  /** The duties are those of a connection that has taught these hosts. */
  ghost predicate Teaches(ds: seq<Duty>, hosts: seq<Host>) {
    && OPENING <= ds && Taught(ds, hosts)
    && forall i :: |OPENING| <= i < |ds| ==> ds[i] != TeachMisses && ds[i] != TeachBroadcasts
  }

  lemma FirstDuties(ds: seq<Duty>, hosts: seq<Host>)
    requires Teaches(ds, hosts)
    ensures |ds| >= 6 && forall i :: 0 <= i < |ds| ==> (ds[i] == TeachMisses <==> i == 4)
    ensures forall i :: 0 <= i < |ds| ==> (ds[i] == TeachBroadcasts <==> i == 5)
  {
    assert forall i :: 0 <= i < |OPENING| ==> ds[i] == OPENING[i];
  }

  predicate KnownTo(hosts: seq<Host>, mac: seq<Byte>) {
    exists i :: 0 <= i < |hosts| && hosts[i].mac == mac
  }

  /** How a packet leaves table 1. */
  predicate LeavesFor(hosts: seq<Host>, dest: seq<Byte>, outs: seq<Word32>) {
    if KnownTo(hosts, dest) then |outs| == 1 && Host(dest, outs[0]) in hosts
    else if dest == MAC_BROADCAST then outs == [PORT_FLOOD]
    else outs == []
  }

  /** Table 1. */
  lemma ByDestination(ms: seq<Message>, ds: seq<Duty>, hosts: seq<Host>, p: Packet, outs: seq<Word32>)
    requires Matched(ms, ds) && Teaches(ds, hosts)
    ensures Forwards(Rules(ms), 1, p, outs) <==> LeavesFor(hosts, p.dest, outs)
  {
    if k :| 0 <= k < |hosts| && hosts[k].mac == p.dest {
      ToKnown(ms, ds, hosts, p, outs, hosts[k]);
    } else if p.dest == MAC_BROADCAST {
      ToAll(ms, ds, hosts, p, outs);
    } else {
      ToUnknown(ms, ds, hosts, p, outs);
    }
  }

  lemma ToKnown(ms: seq<Message>, ds: seq<Duty>, hosts: seq<Host>, p: Packet, outs: seq<Word32>, h: Host)
    requires Matched(ms, ds) && Teaches(ds, hosts) && h in hosts && h.mac == p.dest
    ensures KnownTo(hosts, p.dest)
    ensures Forwards(Rules(ms), 1, p, outs) <==> |outs| == 1 && Host(p.dest, outs[0]) in hosts
  {
    var i := LessonAbout(ds, hosts, h);
    var k :| 0 <= k < |hosts| && hosts[k] == h;
    assert hosts[k].mac == p.dest;
    hide Fulfils, Forwards, Rules, Teaches, Matched;
    ChosenDecides(ms, ds, 1, p, i, outs);
  }

  lemma ToAll(ms: seq<Message>, ds: seq<Duty>, hosts: seq<Host>, p: Packet, outs: seq<Word32>)
    requires Matched(ms, ds) && Teaches(ds, hosts) && !KnownTo(hosts, p.dest) && p.dest == MAC_BROADCAST
    ensures Forwards(Rules(ms), 1, p, outs) <==> outs == [PORT_FLOOD]
  {
    FirstDuties(ds, hosts);
    NoLessonAbout(ds, hosts, p.dest);
    hide Fulfils, Forwards, Rules, Teaches, Matched;
    ChosenDecides(ms, ds, 1, p, 5, outs);
  }

  lemma ToUnknown(ms: seq<Message>, ds: seq<Duty>, hosts: seq<Host>, p: Packet, outs: seq<Word32>)
    requires Matched(ms, ds) && Teaches(ds, hosts) && !KnownTo(hosts, p.dest) && p.dest != MAC_BROADCAST
    ensures Forwards(Rules(ms), 1, p, outs) <==> outs == []
  {
    NoLessonAbout(ds, hosts, p.dest);
    hide Fulfils, Forwards, Rules, Teaches, Matched;
    NothingConcerns(ms, ds, 1, p, outs);
  }

  /** The one lesson about a host, and the port that it is about. */
  lemma LessonAbout(ds: seq<Duty>, hosts: seq<Host>, h: Host) returns (i: nat)
    requires Teaches(ds, hosts) && h in hosts
    ensures i < |ds| && ds[i] == TeachDestination(h.port, h.mac)
    ensures forall j :: 0 <= j < |ds| && j != i && ds[j].TeachDestination? ==> ds[j].mac != h.mac
    ensures forall port :: Host(h.mac, port) in hosts <==> port == h.port
  {
    assert DestinationTaught(ds, h);
    i :| 0 <= i < |ds| && ds[i] == TeachDestination(h.port, h.mac);
    forall port | Host(h.mac, port) in hosts
      ensures port == h.port
    {
      assert DestinationTaught(ds, Host(h.mac, port));
      var j :| 0 <= j < |ds| && ds[j] == TeachDestination(port, h.mac);
    }
  }

  lemma NoLessonAbout(ds: seq<Duty>, hosts: seq<Host>, mac: seq<Byte>)
    requires Teaches(ds, hosts) && !KnownTo(hosts, mac)
    ensures forall i :: 0 <= i < |ds| && ds[i].TeachDestination? ==> ds[i].mac != mac
  {
    forall i | 0 <= i < |ds| && ds[i].TeachDestination?
      ensures ds[i].mac != mac
    {
      assert DestinationTaught(ds, Host(ds[i].mac, ds[i].port));
      assert Host(ds[i].mac, ds[i].port) in hosts;
    }
  }

  lemma NothingConcerns(ms: seq<Message>, ds: seq<Duty>, table: Byte, p: Packet, outs: seq<Word32>)
    requires Matched(ms, ds) && forall i :: 0 <= i < |ds| ==> !Concerns(ds[i], table, p)
    ensures Forwards(Rules(ms), table, p, outs) <==> outs == []
  {
    forall i | 0 <= i < |ms|
      ensures !Applies(Rules(ms)[i], table, p)
    {
      RuleOfDuty(ms[i], ds[i], table, p);
    }
  }

  /** Table 0, where every packet enters. */
  lemma BySource(ms: seq<Message>, ds: seq<Duty>, hosts: seq<Host>, p: Packet, outs: seq<Word32>)
    requires Matched(ms, ds) && Teaches(ds, hosts)
    ensures Forwards(Rules(ms), 0, p, outs)
       <==> if Host(p.source, p.inPort) in hosts then Forwards(Rules(ms), 1, p, outs) else outs == [PORT_CONTROLLER]
  {
    if Host(p.source, p.inPort) in hosts {
      FromKnown(ms, ds, hosts, p, outs);
    } else {
      FromUnknown(ms, ds, hosts, p, outs);
    }
  }

  lemma FromKnown(ms: seq<Message>, ds: seq<Duty>, hosts: seq<Host>, p: Packet, outs: seq<Word32>)
    requires Matched(ms, ds) && Teaches(ds, hosts) && Host(p.source, p.inPort) in hosts
    ensures Forwards(Rules(ms), 0, p, outs) <==> Forwards(Rules(ms), 1, p, outs)
  {
    FirstDuties(ds, hosts);
    var i := LessonFrom(ds, hosts, Host(p.source, p.inPort));
    hide Fulfils, Forwards, Rules, Teaches, Matched;
    assert Decides(ds, 0, p, i) && OutputsOfDuty(ds[i]) == [] && [] <= outs && outs[0..] == outs;
    hide Decides, Concerns;
    ChosenDecides(ms, ds, 0, p, i, outs);
  }

  lemma LessonFrom(ds: seq<Duty>, hosts: seq<Host>, h: Host) returns (i: nat)
    requires Teaches(ds, hosts) && h in hosts
    ensures i < |ds| && ds[i].TeachSource? && ds[i].mac == h.mac && ds[i].port == h.port
    ensures forall j :: 0 <= j < |ds| && j != i && ds[j].TeachSource? ==> ds[j].mac != h.mac
  {
    assert SourceTaught(ds, h);
    i :| 0 <= i < |ds| && ds[i].TeachSource? && ds[i].mac == h.mac && ds[i].port == h.port;
  }

  lemma FromUnknown(ms: seq<Message>, ds: seq<Duty>, hosts: seq<Host>, p: Packet, outs: seq<Word32>)
    requires Matched(ms, ds) && Teaches(ds, hosts) && Host(p.source, p.inPort) !in hosts
    ensures Forwards(Rules(ms), 0, p, outs) <==> outs == [PORT_CONTROLLER]
  {
    FirstDuties(ds, hosts);
    forall i | 0 <= i < |ds| && ds[i].TeachSource?
      ensures !(ds[i].mac == p.source && ds[i].port == p.inPort)
    {
      assert SourceTaught(ds, Host(ds[i].mac, ds[i].port));
    }
    hide Fulfils, Forwards, Rules, Teaches, Matched;
    ChosenDecides(ms, ds, 0, p, 4, outs);
  }

  /** A switch whose tables hold what a conversation has sent, about hosts with different addresses, is a learning
      switch for these hosts. */
  lemma SwitchLearns(p: Peer, log: seq<Exchange>, packet: Packet, outs: seq<Word32>)
    requires p.Valid() && p.alive && Usables(log) && MacsDiffer(Hosts(log))
    ensures Forwards(Rules(Sent(p, log)), 0, packet, outs) <==> Delivers(Hosts(log), packet, outs)
  {
    EverySentIsDue(p, log);
    DutiesTeach(p, log);
    assert OPENING <= AllDuties(p, log);
    hide Matched, Forwards, Taught, Rules, Sent, AllDuties, Hosts;
    ByDestination(Sent(p, log), AllDuties(p, log), Hosts(log), packet, outs);
    BySource(Sent(p, log), AllDuties(p, log), Hosts(log), packet, outs);
  }
}
