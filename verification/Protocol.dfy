/** What a connection sends, as a function of what it has received: the reference for the handlers
    of controller.c, which see both streams in arbitrary pieces. */
module Protocol {
  import opened Bytes
  import opened Messages
  import opened Wrappers
  import FlowCodec
  import Forwarding

  // ---------------------------------------------------------------- framing

  function Concat(ms: seq<Message>): seq<Byte> {
    if ms == [] then [] else Concat(ms[..|ms| - 1]) + ms[|ms| - 1]
  }

  /** A beginning of a message that is not complete yet. */
  predicate Incomplete(s: seq<Byte>) {
    |s| < 8 || |s| < Get16(s, 2)
  }

  datatype Parsed = Parsed(messages: seq<Message>, rest: seq<Byte>)

  /** A byte stream cut by the length fields of its messages. */
  function Parse(s: seq<Byte>): Parsed {
    if Incomplete(s) || Get16(s, 2) < 8 then Parsed([], s)
    else
      var n := Get16(s, 2);
      var p := Parse(s[n..]);
      Parsed([s[..n]] + p.messages, p.rest)
  }

  ghost predicate AllFramed(ms: seq<Message>) {
    forall i :: 0 <= i < |ms| ==> Framed(ms[i])
  }

  lemma {:induction false} ConcatFront(m: Message, ms: seq<Message>)
    ensures Concat([m] + ms) == m + Concat(ms)
  {
    if ms == [] {
      assert [m] + ms == [m];
      assert Concat([m]) == Concat([]) + m by { assert [m][..0] == []; }
    } else {
      var n := |ms| - 1;
      ConcatFront(m, ms[..n]);
      assert ([m] + ms)[..n + 1] == [m] + ms[..n];
    }
  }

  lemma {:induction false} ConcatAppend(a: seq<Message>, b: seq<Message>)
    ensures Concat(a + b) == Concat(a) + Concat(b)
  {
    if b == [] {
      assert a + b == a;
    } else {
      var n := |b| - 1;
      ConcatAppend(a, b[..n]);
      assert (a + b)[..|a + b| - 1] == a + b[..n];
    }
  }

  /** A stream can be cut into whole messages and an incomplete rest in one way only. */
  lemma {:induction false} ParseIsUnique(ms: seq<Message>, rest: seq<Byte>)
    requires AllFramed(ms) && Incomplete(rest)
    ensures Parse(Concat(ms) + rest) == Parsed(ms, rest)
  {
    if ms == [] {
      assert Concat(ms) + rest == rest;
    } else {
      var m := ms[0];
      assert ms == [m] + ms[1..];
      ConcatFront(m, ms[1..]);
      var tail := Concat(ms[1..]) + rest;
      assert Concat(ms) + rest == m + tail;
      ParseIsUnique(ms[1..], rest);
      ParseFront(m, tail);
    }
  }

  lemma ParseFront(m: Message, tail: seq<Byte>)
    requires Framed(m)
    ensures Parse(m + tail) == Parsed([m] + Parse(tail).messages, Parse(tail).rest)
  {
    var s := m + tail;
    assert s[2] == m[2] && s[3] == m[3];
    assert s[..|m|] == m && s[|m|..] == tail;
  }

  // ---------------------------------------------------------------- the handshake

  /** The messages queued in stage `k` of the handshake. */
  function StageMessages(k: nat, xid: Word32): (ms: seq<Message>)
    requires k <= 4
  {
    if k == 0 then [Hello(xid)]
    else if k == 1 then [FeaturesRequest(xid)]
    else if k == 2 then [SetConfig(xid)]
    else if k == 3 then [PortDescRequest(xid)]
    else
      RulesAreValid(xid, 0, MAC_BROADCAST, 0);
      RulesAreValid(NextXid(xid), 0, MAC_BROADCAST, 0);
      [FlowCodec.Encode(DefaultMiss(xid)), FlowCodec.Encode(BroadcastRule(NextXid(xid)))]
  }

  /** Transaction numbers used by the stages before stage `k`. */
  function StageXids(k: nat): nat
    requires k <= 5
  {
    if k == 5 then 6 else k
  }

  /** All messages of the stages before stage `k`. */
  function Handshake(k: nat, xid: Word32): seq<Message>
    requires k <= 5
  {
    if k == 0 then [] else Handshake(k - 1, xid) + StageMessages(k - 1, XidAfter(xid, StageXids(k - 1)))
  }

  // ---------------------------------------------------------------- conversations

  /** What happens to a connection: a message is received, where `closePort` tells whether a loop
      search that it triggers asks this switch to close the port, or the loop search of another
      connection orders a port of this switch to be closed. */
  datatype Exchange = Exchange(message: Message, closePort: bool) | Order(port: Word32)

  predicate UsableExchange(e: Exchange) {
    match e
    case Exchange(m, closePort) => Usable(m, closePort)
    case Order(port) => port < MAX_PORTS
  }

  ghost predicate Usables(log: seq<Exchange>) {
    forall i :: 0 <= i < |log| ==> UsableExchange(log[i])
  }

  function React(p: Peer, e: Exchange): (r: (Peer, seq<Message>))
    requires p.Valid() && UsableExchange(e)
    ensures r.0.Valid()
  {
    match e
    case Exchange(m, closePort) => Respond(p, m, closePort)
    case Order(port) =>
      if p.alive then (p.(xid := NextXid(p.xid)), [ClosePort(p.xid, port, p.ports[port][8..14])]) else (p, [])
  }

  /** The peer after the exchanges of the log, and the messages sent in reaction to them. */
  function Converse(p: Peer, log: seq<Exchange>): (r: (Peer, seq<Message>))
    requires p.Valid() && Usables(log)
    ensures r.0.Valid()
  {
    if log == [] then (p, [])
    else
      var before := Converse(p, log[..|log| - 1]);
      var now := React(before.0, log[|log| - 1]);
      (now.0, before.1 + now.1)
  }

  /** The messages of the log. */
  function Received(log: seq<Exchange>): (ms: seq<Message>) {
    if log == [] then []
    else
      var last := log[|log| - 1];
      Received(log[..|log| - 1]) + (if last.Exchange? then [last.message] else [])
  }

  lemma {:induction false} ReceivedAreFramed(log: seq<Exchange>)
    requires Usables(log)
    ensures AllFramed(Received(log))
  {
    if log != [] {
      ReceivedAreFramed(log[..|log| - 1]);
      assert UsableExchange(log[|log| - 1]);
    }
  }

  /** The peer when the handshake is over. */
  function Greeted(p: Peer): Peer {
    p.(xid := XidAfter(p.xid, 6))
  }

  /** Everything a connection sends during the exchanges of the log. */
  function Sent(p: Peer, log: seq<Exchange>): seq<Message>
    requires p.Valid() && Usables(log)
  {
    Handshake(5, p.xid) + Converse(Greeted(p), log).1
  }

  // ---------------------------------------------------------------- chunking

  /** What the rest of the network decides about one message of a stream: the ports ordered to be
      closed after the message before it, and the outcome of the loop search it may trigger. */
  datatype Outcome = Outcome(orders: seq<Word32>, closePort: bool)

  function Orders(ports: seq<Word32>): seq<Exchange> {
    seq(|ports|, i requires 0 <= i < |ports| => Order(ports[i]))
  }

  /** The log up to the last message of a stream. */
  function LogOf(ms: seq<Message>, outcomes: nat -> Outcome): seq<Exchange> {
    if ms == [] then []
    else
      var n := |ms| - 1;
      LogOf(ms[..n], outcomes) + Orders(outcomes(n).orders) + [Exchange(ms[n], outcomes(n).closePort)]
  }

  /** The log that a stream leads to, with the orders that follow its last message. */
  function Timeline(ms: seq<Message>, outcomes: nat -> Outcome): seq<Exchange> {
    LogOf(ms, outcomes) + Orders(outcomes(|ms|).orders)
  }

  lemma {:induction false} TimelineGrows(ms: seq<Message>, longer: seq<Message>, outcomes: nat -> Outcome)
    requires ms <= longer
    ensures Timeline(ms, outcomes) <= Timeline(longer, outcomes)
  {
    if |ms| < |longer| {
      var n := |longer| - 1;
      TimelineGrows(ms, longer[..n], outcomes);
      assert Timeline(longer[..n], outcomes) <= LogOf(longer, outcomes);
    } else {
      assert ms == longer;
    }
  }

  lemma {:induction false} SameOutcomes(ms: seq<Message>, f: nat -> Outcome, g: nat -> Outcome)
    requires forall i :: 0 <= i < |ms| ==> f(i) == g(i)
    ensures LogOf(ms, f) == LogOf(ms, g)
  {
    if ms != [] {
      SameOutcomes(ms[..|ms| - 1], f, g);
    }
  }

  /** Every log is the timeline of the messages in it. */
  lemma {:induction false} EveryLogIsATimeline(log: seq<Exchange>) returns (outcomes: nat -> Outcome)
    ensures log == Timeline(Received(log), outcomes)
  {
    if log == [] {
      outcomes := _ => Outcome([], false);
    } else {
      var before, last := log[..|log| - 1], log[|log| - 1];
      var f := EveryLogIsATimeline(before);
      var ms := Received(before);
      var n := |ms|;
      var asked := f(n).orders;
      match last {
        case Exchange(m, closePort) =>
          var now := Outcome(asked, closePort);
          outcomes := (i: nat) => if i < n then f(i) else if i == n then now else Outcome([], false);
          assert (ms + [m])[..n] == ms;
        case Order(port) =>
          outcomes := (i: nat) => if i < n then f(i) else Outcome(asked + [port], false);
          assert Orders(asked + [port]) == Orders(asked) + [last];
          assert ms + [] == ms;
      }
      SameOutcomes(ms, f, outcomes);
    }
  }

  lemma {:induction false} LongerLogSendsMore(p: Peer, log: seq<Exchange>, longer: seq<Exchange>)
    requires p.Valid() && Usables(longer) && log <= longer
    ensures Usables(log) && Converse(p, log).1 <= Converse(p, longer).1
  {
    if |log| < |longer| {
      var n := |longer| - 1;
      assert log <= longer[..n];
      LongerLogSendsMore(p, log, longer[..n]);
    } else {
      assert log == longer;
    }
  }

  lemma PrefixOfConcat(a: seq<Message>, b: seq<Message>)
    requires a <= b
    ensures Concat(a) <= Concat(b)
  {
    ConcatAppend(a, b[|a|..]);
    assert b == a + b[|a|..];
  }

  lemma {:induction false} ParseOfPrefix(ms: seq<Message>, part: seq<Byte>, whole: seq<Byte>)
    requires AllFramed(ms) && Concat(ms) + part <= whole
    ensures ms <= Parse(whole).messages
  {
    if ms != [] {
      var m := ms[0];
      assert ms == [m] + ms[1..];
      ConcatFront(m, ms[1..]);
      var tail := whole[|m|..];
      assert Concat(ms) + part == m + (Concat(ms[1..]) + part);
      assert whole[..|m|] == m by {
        assert (Concat(ms) + part)[..|m|] == m;
      }
      assert whole == m + tail;
      assert Concat(ms[1..]) + part <= tail by {
        assert tail[..|Concat(ms[1..]) + part|] == whole[|m|..|m| + |Concat(ms[1..]) + part|];
      }
      ParseOfPrefix(ms[1..], part, tail);
      ParseFront(m, tail);
    }
  }

  /** However the input arrives in pieces: what a connection has sent at some point is a prefix of
      what the whole stream calls for. */
  lemma ChunkingIndependence(p: Peer, log: seq<Exchange>, part: seq<Byte>, whole: seq<Byte>, outcomes: nat -> Outcome)
    requires p.Valid() && Concat(Received(log)) + part <= whole
    requires Usables(Timeline(Parse(whole).messages, outcomes))
    requires AllFramed(Received(log)) && log <= Timeline(Received(log), outcomes)
    ensures log <= Timeline(Parse(whole).messages, outcomes)
    ensures Usables(log) && Concat(Sent(p, log)) <= Concat(Sent(p, Timeline(Parse(whole).messages, outcomes)))
  {
    ParseOfPrefix(Received(log), part, whole);
    var longer := Timeline(Parse(whole).messages, outcomes);
    TimelineGrows(Received(log), Parse(whole).messages, outcomes);
    LongerLogSendsMore(Greeted(p), log, longer);
    PrefixOfConcat(Sent(p, log), Sent(p, longer));
  }

  // ---------------------------------------------------------------- what is sent

  /** A message with the header `[4, kind, length, xid]` whose length field is its own length. */
  predicate Headed(m: Message, kind: Byte, xid: Word32) {
    Framed(m) && m[0] == 4 && Kind(m) == kind && Get32(m, 4) == xid
  }

  lemma HeaderFields(kind: Byte, length: Word16, xid: Word32, body: seq<Byte>)
    requires length == 8 + |body|
    ensures Headed(Header(kind, length, xid) + body, kind, xid)
  {
    var m := Header(kind, length, xid) + body;
    Get16OfU16(length);
    Get32OfU32(xid);
    assert m[..4] == [4, kind] + U16(length) && m[4..8] == U32(xid);
    FlowCodec.FieldsOfPiece(m, 4, U32(xid));
    assert m[2] == U16(length)[0] && m[3] == U16(length)[1];
  }

  lemma FlowModHeaded(f: FlowCodec.FlowMod)
    requires FlowCodec.Valid(f)
    ensures Headed(FlowCodec.Encode(f), FLOW_MOD, f.xid)
  {
    var rest := FlowCodec.EncodeMatch(f.match_) + FlowCodec.EncodeInstructions(f.instructions);
    assert FlowCodec.Encode(f) == FlowCodec.EncodeFixed(f, FlowCodec.Size(f)) + rest;
    hide FlowCodec.Encode, FlowCodec.EncodeFixed, FlowCodec.EncodeMatch, FlowCodec.EncodeInstructions, FlowCodec.Size,
         FlowCodec.Valid, Get16, Get32;
    FlowCodec.FixedRoundTrip(f, FlowCodec.Size(f), rest);
  }

  /** Two rules packed behind one another split by their length fields and decode to those rules. */
  lemma PackedRulesDecode(f: FlowCodec.FlowMod, g: FlowCodec.FlowMod)
    requires FlowCodec.Valid(f) && FlowCodec.Valid(g)
    ensures Parse(FlowCodec.Encode(f) + FlowCodec.Encode(g)) == Parsed([FlowCodec.Encode(f), FlowCodec.Encode(g)], [])
    ensures FlowCodec.Decode(FlowCodec.Encode(f)) == Some(f) && FlowCodec.Decode(FlowCodec.Encode(g)) == Some(g)
  {
    hide FlowCodec.Encode, FlowCodec.Decode, FlowCodec.Valid;
    FlowModHeaded(f);
    FlowModHeaded(g);
    FlowCodec.RoundTrip(f);
    FlowCodec.RoundTrip(g);
    var first, second := FlowCodec.Encode(f), FlowCodec.Encode(g);
    ParseFront(first, second);
    ParseFront(second, []);
    assert second + [] == second;
  }

  /** What a packet from an unknown source and the end of the handshake leave in the write buffer
      decodes to rules that do what the design asks for: exactly the frames from `mac` on `port` go on to
      table 1, exactly those to `mac` leave through `port`; misses of table 0 go to the controller, and
      exactly the broadcasts in table 1 are flooded. */
  lemma QueuedRulesDecode(xid: Word32, port: Word32, mac: seq<Byte>, bufferId: Word32)
    requires |mac| == 6
    ensures FlowCodec.Valid(SourceRule(xid, port, mac, bufferId))
    ensures FlowCodec.Valid(DestinationRule(NextXid(xid), port, mac))
    ensures FlowCodec.Valid(DefaultMiss(xid)) && FlowCodec.Valid(BroadcastRule(NextXid(xid)))
    ensures var p := Parse(FlowCodec.Encode(SourceRule(xid, port, mac, bufferId))
                           + FlowCodec.Encode(DestinationRule(NextXid(xid), port, mac)));
            && |p.messages| == 2 && p.rest == []
            && FlowCodec.Decode(p.messages[0]) == Some(SourceRule(xid, port, mac, bufferId))
            && FlowCodec.Decode(p.messages[1]) == Some(DestinationRule(NextXid(xid), port, mac))
            && Forwarding.KnowsSource(FlowCodec.Decode(p.messages[0]).value, port, mac, bufferId)
            && Forwarding.KnowsDestination(FlowCodec.Decode(p.messages[1]).value, port, mac)
    ensures var p := Parse(FlowCodec.Encode(DefaultMiss(xid)) + FlowCodec.Encode(BroadcastRule(NextXid(xid))));
            && |p.messages| == 2 && p.rest == []
            && FlowCodec.Decode(p.messages[0]) == Some(DefaultMiss(xid))
            && FlowCodec.Decode(p.messages[1]) == Some(BroadcastRule(NextXid(xid)))
            && Forwarding.TellsMisses(FlowCodec.Decode(p.messages[0]).value)
            && Forwarding.FloodsBroadcasts(FlowCodec.Decode(p.messages[1]).value)
  {
    hide FlowCodec.Encode, FlowCodec.Decode, FlowCodec.Valid, SourceRule, DestinationRule, DefaultMiss, BroadcastRule,
         NextXid, Parse, Forwarding.KnowsSource, Forwarding.KnowsDestination, Forwarding.TellsMisses,
         Forwarding.FloodsBroadcasts;
    Forwarding.LearnedRules(xid, port, mac, bufferId);
    Forwarding.LearnedRules(NextXid(xid), port, mac, bufferId);
    Forwarding.StartRules(xid);
    Forwarding.StartRules(NextXid(xid));
    RulesAreValid(xid, port, mac, bufferId);
    RulesAreValid(NextXid(xid), port, mac, bufferId);
    PackedRulesDecode(SourceRule(xid, port, mac, bufferId), DestinationRule(NextXid(xid), port, mac));
    PackedRulesDecode(DefaultMiss(xid), BroadcastRule(NextXid(xid)));
  }

  lemma SmallMessagesHeaded(xid: Word32, fd: Word16)
    ensures Headed(Hello(xid), HELLO, xid) && Headed(FeaturesRequest(xid), FEATURES_REQUEST, xid)
    ensures Headed(SetConfig(xid), SET_CONFIG, xid) && Headed(PortDescRequest(xid), MULTIPART_REQUEST, xid)
    ensures Headed(Probe(xid, fd), PACKET_OUT, xid)
  {
    hide Headed, Header, U16, U32, Zeros, FlowCodec.EncodeAction, ProbeFrame;
    var hello := U16(1) + U16(8) + U32(16);
    HeaderFields(HELLO, 16, xid, hello);
    assert Hello(xid) == Header(HELLO, 16, xid) + hello;
    HeaderFields(FEATURES_REQUEST, 8, xid, []);
    assert FeaturesRequest(xid) == Header(FEATURES_REQUEST, 8, xid) + [];
    var config := U16(0) + U16(128);
    HeaderFields(SET_CONFIG, 12, xid, config);
    assert SetConfig(xid) == Header(SET_CONFIG, 12, xid) + config;
    var multipart := U16(PORT_DESC) + U16(0) + Zeros(4);
    HeaderFields(MULTIPART_REQUEST, 16, xid, multipart);
    assert PortDescRequest(xid) == Header(MULTIPART_REQUEST, 16, xid) + multipart;
    ProbeHeaded(xid, fd);
  }

  lemma ProbeHeaded(xid: Word32, fd: Word16)
    ensures Headed(Probe(xid, fd), PACKET_OUT, xid)
  {
    hide Headed, Header, U32, Zeros, FlowCodec.EncodeAction;
    var body := U32(NO_BUFFER) + U32(PORT_CONTROLLER) + U16(16) + Zeros(6)
                + FlowCodec.EncodeAction(FlowCodec.Output(PORT_FLOOD, 0xffff)) + ProbeFrame(fd);
    HeaderFields(PACKET_OUT, 54, xid, body);
    assert Probe(xid, fd) == Header(PACKET_OUT, 54, xid) + body;
  }

  lemma ClosePortHeaded(xid: Word32, port: Word32, hwAddr: seq<Byte>)
    requires |hwAddr| == 6
    ensures Headed(ClosePort(xid, port, hwAddr), PORT_MOD, xid)
  {
    var body := U32(port) + Zeros(4) + hwAddr + Zeros(2) + U32(0x24) + U32(0x24) + Zeros(8);
    HeaderFields(PORT_MOD, 40, xid, body);
    assert ClosePort(xid, port, hwAddr) == Header(PORT_MOD, 40, xid) + body;
  }

  /** A reply to an echo request has its length, transaction number and payload. */
  lemma EchoReplyMirrors(m: Message)
    requires Framed(m)
    ensures Headed(EchoReply(m), ECHO_REPLY, Get32(m, 4)) && EchoReply(m)[8..] == m[8..]
  {
    var r := EchoReply(m);
    assert forall i :: 2 <= i < |m| ==> r[i] == m[i];
  }

  /** The messages that are not echo replies. */
  function Numbered(ms: seq<Message>): seq<Message>
    requires AllFramed(ms)
  {
    if ms == [] then []
    else
      var last := ms[|ms| - 1];
      assert Framed(last);
      Numbered(ms[..|ms| - 1]) + (if Kind(last) == ECHO_REPLY then [] else [last])
  }

  /** Messages that carry `xid`, `xid + 1`, and so on, modulo 2 to the 32. */
  ghost predicate Consecutive(ms: seq<Message>, xid: Word32) {
    forall i :: 0 <= i < |ms| ==> |ms[i]| >= 8 && Get32(ms[i], 4) == (xid + i) % 0x1_0000_0000
  }

  lemma {:induction false} NumberedAppend(a: seq<Message>, b: seq<Message>)
    requires AllFramed(a) && AllFramed(b)
    ensures AllFramed(a + b) && Numbered(a + b) == Numbered(a) + Numbered(b)
  {
    if b == [] {
      assert a + b == a;
    } else {
      var n := |b| - 1;
      NumberedAppend(a, b[..n]);
      assert (a + b)[..|a + b| - 1] == a + b[..n];
    }
  }

  lemma ConsecutiveAppend(a: seq<Message>, b: seq<Message>, xid: Word32)
    requires Consecutive(a, xid) && Consecutive(b, XidAfter(xid, |a|))
    ensures Consecutive(a + b, xid)
  {
    forall i | |a| <= i < |a + b|
      ensures |(a + b)[i]| >= 8 && Get32((a + b)[i], 4) == (xid + i) % 0x1_0000_0000
    {
      assert (a + b)[i] == b[i - |a|];
      XidSteps(xid, |a|, i - |a|);
    }
  }

  /** Framed messages of which those that are not echo replies number on from `xid` to `next`. */
  ghost predicate InOrder(ms: seq<Message>, xid: Word32, next: Word32) {
    AllFramed(ms) && Consecutive(Numbered(ms), xid) && next == XidAfter(xid, |Numbered(ms)|)
  }

  lemma InOrderAppend(a: seq<Message>, b: seq<Message>, xid: Word32, mid: Word32, next: Word32)
    requires InOrder(a, xid, mid) && InOrder(b, mid, next)
    ensures InOrder(a + b, xid, next)
  {
    hide Numbered, XidAfter, Consecutive, Framed;
    NumberedAppend(a, b);
    XidSteps(xid, |Numbered(a)|, |Numbered(b)|);
    ConsecutiveAppend(Numbered(a), Numbered(b), xid);
  }

  lemma OneInOrder(m: Message, kind: Byte, xid: Word32)
    requires Headed(m, kind, xid) && kind != ECHO_REPLY
    ensures InOrder([m], xid, NextXid(xid))
  {
    assert [m][..0] == [];
    assert Numbered([m]) == [m];
  }

  lemma EchoInOrder(m: Message, xid: Word32)
    requires Framed(m) && Kind(m) == ECHO_REPLY
    ensures InOrder([m], xid, xid)
  {
    assert [m][..0] == [];
    assert Numbered([m]) == [];
  }

  lemma PairInOrder(f: FlowCodec.FlowMod, g: FlowCodec.FlowMod)
    requires FlowCodec.Valid(f) && FlowCodec.Valid(g) && g.xid == NextXid(f.xid)
    ensures InOrder([FlowCodec.Encode(f), FlowCodec.Encode(g)], f.xid, NextXid(g.xid))
  {
    FlowModHeaded(f);
    FlowModHeaded(g);
    OneInOrder(FlowCodec.Encode(f), FLOW_MOD, f.xid);
    OneInOrder(FlowCodec.Encode(g), FLOW_MOD, g.xid);
    InOrderAppend([FlowCodec.Encode(f)], [FlowCodec.Encode(g)], f.xid, g.xid, NextXid(g.xid));
    assert [FlowCodec.Encode(f)] + [FlowCodec.Encode(g)] == [FlowCodec.Encode(f), FlowCodec.Encode(g)];
  }

  lemma XidSteps(xid: Word32, a: nat, b: nat)
    ensures XidAfter(XidAfter(xid, a), b) == XidAfter(xid, a + b)
    ensures XidAfter(xid, 1) == NextXid(xid) && XidAfter(xid, 2) == NextXid(NextXid(xid))
  {
    AddedModulo(xid + a, b);
    AddedModulo(xid + 1, 1);
  }

  lemma AddedModulo(n: nat, b: nat)
    ensures (n % 0x1_0000_0000 + b) % 0x1_0000_0000 == (n + b) % 0x1_0000_0000
  {
    var q, r := n / 0x1_0000_0000, n % 0x1_0000_0000 + b;
    assert n + b == 0x1_0000_0000 * q + r;
    LowPart(q, r);
  }

  lemma LowPart(q: nat, r: nat)
    ensures (0x1_0000_0000 * q + r) % 0x1_0000_0000 == r % 0x1_0000_0000
  {
  }

  lemma StageInOrder(k: nat, xid: Word32)
    requires k <= 4
    ensures InOrder(StageMessages(k, xid), xid, XidAfter(xid, StageXids(k + 1) - StageXids(k)))
  {
    hide InOrder, XidAfter, NextXid, Hello, FeaturesRequest, SetConfig, PortDescRequest;
    if k < 4 {
      XidSteps(xid, 0, 0);
      EarlyStageIsSmall(k, xid);
      SmallMessagesInOrder(xid);
    } else {
      RulesInOrder(xid);
    }
  }

  lemma EarlyStageIsSmall(k: nat, xid: Word32)
    requires k < 4
    ensures StageMessages(k, xid)
         == [if k == 0 then Hello(xid) else if k == 1 then FeaturesRequest(xid)
             else if k == 2 then SetConfig(xid) else PortDescRequest(xid)]
  {
    hide Hello, FeaturesRequest, SetConfig, PortDescRequest;
  }

  lemma SmallMessagesInOrder(xid: Word32)
    ensures InOrder([Hello(xid)], xid, NextXid(xid)) && InOrder([FeaturesRequest(xid)], xid, NextXid(xid))
    ensures InOrder([SetConfig(xid)], xid, NextXid(xid)) && InOrder([PortDescRequest(xid)], xid, NextXid(xid))
  {
    hide InOrder, NextXid, Headed, Hello, FeaturesRequest, SetConfig, PortDescRequest;
    SmallMessagesHeaded(xid, 0);
    OneInOrder(Hello(xid), HELLO, xid);
    OneInOrder(FeaturesRequest(xid), FEATURES_REQUEST, xid);
    OneInOrder(SetConfig(xid), SET_CONFIG, xid);
    OneInOrder(PortDescRequest(xid), MULTIPART_REQUEST, xid);
  }

  lemma RulesInOrder(xid: Word32)
    ensures InOrder(StageMessages(4, xid), xid, XidAfter(xid, 2))
  {
    hide FlowCodec.Encode, FlowCodec.Valid, InOrder, XidAfter, NextXid;
    XidSteps(xid, 0, 0);
    RulesAreValid(xid, 0, MAC_BROADCAST, 0);
    RulesAreValid(NextXid(xid), 0, MAC_BROADCAST, 0);
    PairInOrder(DefaultMiss(xid), BroadcastRule(NextXid(xid)));
  }

  lemma {:induction false} HandshakeInOrder(k: nat, xid: Word32)
    requires k <= 5
    ensures InOrder(Handshake(k, xid), xid, XidAfter(xid, StageXids(k)))
  {
    hide Handshake, StageMessages, InOrder;
    if k == 0 {
      NoHandshake(xid);
      NothingInOrder(xid);
      assert XidAfter(xid, 0) == xid;
    } else {
      hide XidAfter;
      HandshakeInOrder(k - 1, xid);
      HandshakeStep(k, xid);
      var mid := XidAfter(xid, StageXids(k - 1));
      StageInOrder(k - 1, mid);
      XidSteps(xid, StageXids(k - 1), StageXids(k) - StageXids(k - 1));
      InOrderAppend(Handshake(k - 1, xid), StageMessages(k - 1, mid), xid, mid, XidAfter(xid, StageXids(k)));
    }
  }

  lemma RespondInOrder(p: Peer, m: Message, closePort: bool)
    requires p.Valid() && Usable(m, closePort)
    ensures InOrder(Respond(p, m, closePort).1, p.xid, Respond(p, m, closePort).0.xid)
  {
    hide FlowCodec.Encode, FlowCodec.Valid, SourceRule, DestinationRule, Probe, ClosePort;
    if p.alive {
      if Kind(m) == ECHO_REQUEST {
        EchoReplyMirrors(m);
        EchoInOrder(EchoReply(m), p.xid);
      } else if Kind(m) == FEATURES_REPLY {
        SmallMessagesHeaded(p.xid, p.fd);
        OneInOrder(Probe(p.xid, p.fd), PACKET_OUT, p.xid);
      } else if Kind(m) == PACKET_IN && m[14] == 0 {
        if Neighbour(Frame(m)) != 0 {
          if closePort {
            var hwAddr := p.ports[InputPort(m)][8..14];
            ClosePortHeaded(p.xid, InputPort(m), hwAddr);
            OneInOrder(ClosePort(p.xid, InputPort(m), hwAddr), PORT_MOD, p.xid);
          }
        } else {
          LearningInOrder(p.xid, InputPort(m), SourceMac(m), Get32(m, 8));
        }
      }
    }
  }

  lemma ReactInOrder(p: Peer, e: Exchange)
    requires p.Valid() && UsableExchange(e)
    ensures InOrder(React(p, e).1, p.xid, React(p, e).0.xid)
  {
    hide ClosePort, Respond, Usable;
    match e {
      case Exchange(m, closePort) => RespondInOrder(p, m, closePort);
      case Order(port) =>
        if p.alive {
          var hwAddr := p.ports[port][8..14];
          ClosePortHeaded(p.xid, port, hwAddr);
          OneInOrder(ClosePort(p.xid, port, hwAddr), PORT_MOD, p.xid);
        }
    }
  }

  lemma LearningInOrder(xid: Word32, port: Word32, mac: seq<Byte>, bufferId: Word32)
    requires |mac| == 6
    ensures FlowCodec.Valid(SourceRule(xid, port, mac, bufferId))
    ensures FlowCodec.Valid(DestinationRule(NextXid(xid), port, mac))
    ensures InOrder([FlowCodec.Encode(SourceRule(xid, port, mac, bufferId)),
                     FlowCodec.Encode(DestinationRule(NextXid(xid), port, mac))],
                    xid, NextXid(NextXid(xid)))
  {
    RulesAreValid(xid, port, mac, bufferId);
    RulesAreValid(NextXid(xid), port, mac, 0);
    PairInOrder(SourceRule(xid, port, mac, bufferId), DestinationRule(NextXid(xid), port, mac));
  }

  lemma {:induction false} ConverseInOrder(p: Peer, log: seq<Exchange>)
    requires p.Valid() && Usables(log)
    ensures InOrder(Converse(p, log).1, p.xid, Converse(p, log).0.xid)
  {
    hide InOrder, React, UsableExchange;
    if log == [] {
      NothingInOrder(p.xid);
    } else {
      var n := |log| - 1;
      ConverseInOrder(p, log[..n]);
      var before := Converse(p, log[..n]);
      var now := React(before.0, log[n]);
      ReactInOrder(before.0, log[n]);
      InOrderAppend(before.1, now.1, p.xid, before.0.xid, now.0.xid);
    }
  }

  lemma NothingInOrder(xid: Word32)
    ensures InOrder([], xid, xid)
  {
  }

  /** The stream that a connection sends splits by its own length fields into the messages of the
      handshake and the reactions, in this order, and the transaction numbers of all but the echo
      replies count up from the first one without a gap. */
  lemma OutputDiscipline(p: Peer, log: seq<Exchange>)
    requires p.Valid() && Usables(log)
    ensures Parse(Concat(Sent(p, log))) == Parsed(Sent(p, log), [])
    ensures AllFramed(Sent(p, log)) && Consecutive(Numbered(Sent(p, log)), p.xid)
  {
    hide InOrder, Converse;
    HandshakeInOrder(5, p.xid);
    ConverseInOrder(Greeted(p), log);
    InOrderAppend(Handshake(5, p.xid), Converse(Greeted(p), log).1, p.xid, XidAfter(p.xid, 6),
                  Converse(Greeted(p), log).0.xid);
    InOrderIsFramed(Sent(p, log), p.xid, Converse(Greeted(p), log).0.xid);
    ParseIsUnique(Sent(p, log), []);
    assert Concat(Sent(p, log)) + [] == Concat(Sent(p, log));
  }

  lemma InOrderIsFramed(ms: seq<Message>, xid: Word32, next: Word32)
    requires InOrder(ms, xid, next)
    ensures AllFramed(ms) && Consecutive(Numbered(ms), xid)
  {
  }

  /** The handshake: hello, features request, configuration, port description request, and the rules
      for table misses and for broadcasts. */
  lemma HandshakeMessages(xid: Word32)
    ensures FlowCodec.Valid(DefaultMiss(XidAfter(xid, 4))) && FlowCodec.Valid(BroadcastRule(XidAfter(xid, 5)))
    ensures Handshake(5, xid)
         == [Hello(xid), FeaturesRequest(XidAfter(xid, 1)), SetConfig(XidAfter(xid, 2)),
             PortDescRequest(XidAfter(xid, 3)),
             FlowCodec.Encode(DefaultMiss(XidAfter(xid, 4))), FlowCodec.Encode(BroadcastRule(XidAfter(xid, 5)))]
  {
    HandshakeStep(1, xid);
    HandshakeStep(2, xid);
    HandshakeStep(3, xid);
    HandshakeStep(4, xid);
    HandshakeStep(5, xid);
    StageLists(xid);
    hide Hello, FeaturesRequest, SetConfig, PortDescRequest, FlowCodec.Encode, FlowCodec.Valid, DefaultMiss,
         BroadcastRule, XidAfter, NextXid;
    hide Handshake, StageMessages;
    assert Handshake(0, xid) == [] by { NoHandshake(xid); }
  }

  lemma StageLists(xid: Word32)
    ensures XidAfter(xid, 0) == xid
    ensures FlowCodec.Valid(DefaultMiss(XidAfter(xid, 4))) && FlowCodec.Valid(BroadcastRule(XidAfter(xid, 5)))
    ensures StageMessages(0, XidAfter(xid, StageXids(0))) == [Hello(xid)]
    ensures StageMessages(1, XidAfter(xid, StageXids(1))) == [FeaturesRequest(XidAfter(xid, 1))]
    ensures StageMessages(2, XidAfter(xid, StageXids(2))) == [SetConfig(XidAfter(xid, 2))]
    ensures StageMessages(3, XidAfter(xid, StageXids(3))) == [PortDescRequest(XidAfter(xid, 3))]
    ensures StageMessages(4, XidAfter(xid, StageXids(4)))
         == [FlowCodec.Encode(DefaultMiss(XidAfter(xid, 4))), FlowCodec.Encode(BroadcastRule(XidAfter(xid, 5)))]
  {
    assert XidAfter(xid, 0) == xid;
    XidSteps(xid, 4, 1);
    XidSteps(XidAfter(xid, 4), 0, 0);
    RulesAreValid(XidAfter(xid, 4), 0, MAC_BROADCAST, 0);
    RulesAreValid(XidAfter(xid, 5), 0, MAC_BROADCAST, 0);
    hide Hello, FeaturesRequest, SetConfig, PortDescRequest, FlowCodec.Encode, FlowCodec.Valid, DefaultMiss,
         BroadcastRule, XidAfter, NextXid;
  }

  lemma NoHandshake(xid: Word32)
    ensures Handshake(0, xid) == []
  {
  }

  lemma HandshakeStep(k: nat, xid: Word32)
    requires 1 <= k <= 5
    ensures Handshake(k, xid) == Handshake(k - 1, xid) + StageMessages(k - 1, XidAfter(xid, StageXids(k - 1)))
  {
  }

  // ---------------------------------------------------------------- echo

  /** The echo replies among some messages. */
  function Echoes(ms: seq<Message>): seq<Message>
    requires AllFramed(ms)
  {
    if ms == [] then []
    else
      var last := ms[|ms| - 1];
      assert Framed(last);
      Echoes(ms[..|ms| - 1]) + (if Kind(last) == ECHO_REPLY then [last] else [])
  }

  /** The replies to the echo requests that arrive before a message that ends the connection. */
  function Replies(log: seq<Exchange>): seq<Message>
    requires Usables(log)
  {
    if log == [] then []
    else
      var before, last := log[..|log| - 1], log[|log| - 1];
      assert UsableExchange(last);
      Replies(before)
      + (if last.Exchange? && Kind(last.message) == ECHO_REQUEST && AllHandled(before) then [EchoReply(last.message)]
         else [])
  }

  predicate HandledExchange(e: Exchange)
    requires UsableExchange(e)
  {
    e.Exchange? ==> Handled(Kind(e.message))
  }

  predicate AllHandled(log: seq<Exchange>)
    requires Usables(log)
  {
    log == [] || (HandledExchange(log[|log| - 1]) && AllHandled(log[..|log| - 1]))
  }

  lemma EchoesOfLonger(ms: seq<Message>, m: Message)
    requires AllFramed(ms) && Framed(m)
    ensures AllFramed(ms + [m]) && Echoes(ms + [m]) == Echoes(ms) + (if Kind(m) == ECHO_REPLY then [m] else [])
  {
    hide Framed;
    assert (ms + [m])[..|ms|] == ms;
  }

  lemma {:induction false} EchoesAppend(a: seq<Message>, b: seq<Message>)
    requires AllFramed(a) && AllFramed(b)
    ensures AllFramed(a + b) && Echoes(a + b) == Echoes(a) + Echoes(b)
  {
    if b == [] {
      assert a + b == a;
    } else {
      var front, last := b[..|b| - 1], b[|b| - 1];
      assert Framed(last);
      hide Echoes, Framed, Kind, Get16;
      EchoesAppend(a, front);
      EchoesOfLonger(front, last);
      EchoesOfLonger(a + front, last);
      assert b == front + [last] && a + b == a + front + [last];
      AppendedPart(Echoes(a), Echoes(front), last);
    }
  }

  lemma AppendedPart(a: seq<Message>, b: seq<Message>, m: Message)
    ensures a + b + [m] == a + (b + [m]) && a + b + [] == a + (b + [])
  {
  }

  lemma EchoesOfResponse(p: Peer, m: Message, closePort: bool)
    requires p.Valid() && Usable(m, closePort)
    ensures AllFramed(Respond(p, m, closePort).1)
    ensures Echoes(Respond(p, m, closePort).1) == if p.alive && Kind(m) == ECHO_REQUEST then [EchoReply(m)] else []
    ensures Respond(p, m, closePort).0.alive == (p.alive && Handled(Kind(m)))
  {
    hide FlowCodec.Encode, FlowCodec.Valid, SourceRule, DestinationRule, Probe, ClosePort;
    RespondInOrder(p, m, closePort);
    var ms := Respond(p, m, closePort).1;
    InOrderIsFramed(ms, p.xid, Respond(p, m, closePort).0.xid);
    if p.alive {
      if Kind(m) == ECHO_REQUEST {
        EchoReplyMirrors(m);
        assert [EchoReply(m)][..0] == [];
      } else if Kind(m) == FEATURES_REPLY {
        SmallMessagesHeaded(p.xid, p.fd);
        assert [Probe(p.xid, p.fd)][..0] == [];
      } else if Kind(m) == PACKET_IN && m[14] == 0 {
        if Neighbour(Frame(m)) != 0 {
          if closePort {
            ClosePortHeaded(p.xid, InputPort(m), p.ports[InputPort(m)][8..14]);
            assert ms[..0] == [];
          }
        } else {
          LearningEchoes(p.xid, InputPort(m), SourceMac(m), Get32(m, 8));
        }
      }
    }
  }

  lemma EchoesOfReaction(p: Peer, e: Exchange)
    requires p.Valid() && UsableExchange(e)
    ensures AllFramed(React(p, e).1)
    ensures Echoes(React(p, e).1)
         == if p.alive && e.Exchange? && Kind(e.message) == ECHO_REQUEST then [EchoReply(e.message)] else []
    ensures React(p, e).0.alive == (p.alive && HandledExchange(e))
  {
    hide ClosePort, Respond, Usable;
    match e {
      case Exchange(m, closePort) => EchoesOfResponse(p, m, closePort);
      case Order(port) =>
        if p.alive {
          ClosePortHeaded(p.xid, port, p.ports[port][8..14]);
          assert React(p, e).1[..0] == [];
        }
    }
  }

  lemma LearningEchoes(xid: Word32, port: Word32, mac: seq<Byte>, bufferId: Word32)
    requires |mac| == 6
    ensures FlowCodec.Valid(SourceRule(xid, port, mac, bufferId))
    ensures FlowCodec.Valid(DestinationRule(NextXid(xid), port, mac))
    ensures var ms := [FlowCodec.Encode(SourceRule(xid, port, mac, bufferId)),
                       FlowCodec.Encode(DestinationRule(NextXid(xid), port, mac))];
            AllFramed(ms) && Echoes(ms) == []
  {
    RulesAreValid(xid, port, mac, bufferId);
    RulesAreValid(NextXid(xid), port, mac, 0);
    FlowModHeaded(SourceRule(xid, port, mac, bufferId));
    FlowModHeaded(DestinationRule(NextXid(xid), port, mac));
    hide FlowCodec.Encode, FlowCodec.Valid, SourceRule, DestinationRule;
    var first, second := FlowCodec.Encode(SourceRule(xid, port, mac, bufferId)),
                         FlowCodec.Encode(DestinationRule(NextXid(xid), port, mac));
    var one: seq<Message> := [first];
    assert [first, second][..1] == one && one[..0] == [];
    assert Echoes(one) == [];
  }

  /** The echo replies sent are those to the echo requests received, in the same order. */
  lemma {:induction false} EveryEchoIsAnswered(p: Peer, log: seq<Exchange>)
    requires p.Valid() && p.alive && Usables(log)
    ensures AllFramed(Converse(p, log).1) && Echoes(Converse(p, log).1) == Replies(log)
    ensures Converse(p, log).0.alive == AllHandled(log)
  {
    hide React, HandledExchange;
    if log != [] {
      var n := |log| - 1;
      EveryEchoIsAnswered(p, log[..n]);
      var before := Converse(p, log[..n]);
      EchoesOfReaction(before.0, log[n]);
      EchoesAppend(before.1, React(before.0, log[n]).1);
    }
  }
}
