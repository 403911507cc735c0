/** What the controller reads out of a packet-in: the input port, the source address and the probe. */
module PacketIn {
  import opened Bytes
  import opened Messages
  import FlowCodec

  // ---------------------------------------------------------------- the input port

  /** The message carries this match after its fixed fields. */
  ghost predicate Carries(m: Message, ts: seq<FlowCodec.Tlv>) {
    && FlowCodec.ValidTlvs(ts) && 4 + |FlowCodec.EncodeTlvs(ts)| < 0x1_0000
    && |m| >= 36 && 24 + |FlowCodec.EncodeMatch(ts)| <= |m|
    && m[24..24 + |FlowCodec.EncodeMatch(ts)|] == FlowCodec.EncodeMatch(ts)
  }

  predicate IsInPort(t: FlowCodec.Tlv) {
    t.oxmClass == 0x8000 && t.field == 0 && !t.hasMask && |t.payload| == 4
  }

  /** A true scan: the payload of the first input port field, or 0 without one. */
  function ScannedPort(ts: seq<FlowCodec.Tlv>): Word32 {
    if ts == [] then 0 else if IsInPort(ts[0]) then Get32(ts[0].payload, 0) else ScannedPort(ts[1..])
  }

  /** Twelve bytes of match header, first field header and what follows it. */
  lemma MatchBytes(m: Message, ts: seq<FlowCodec.Tlv>)
    requires Carries(m, ts)
    ensures Get16(m, 26) == 4 + |FlowCodec.EncodeTlvs(ts)|
    ensures |FlowCodec.EncodeTlvs(ts)| >= 8 ==> Get32(m, 32) == Get32(FlowCodec.EncodeTlvs(ts), 4)
  {
    var e, body := FlowCodec.EncodeMatch(ts), FlowCodec.EncodeTlvs(ts);
    FlowCodec.FieldsOfPiece(m, 24, e);
    FlowCodec.FieldsOfPiece(e, 4, body);
    assert e[2..4] == U16(4 + |body|);
    assert e[2] == U16(4 + |body|)[0] && e[3] == U16(4 + |body|)[1];
    assert e[4..4 + |body|] == body;
  }

  /** When the first field is the input port, it is the port the controller reads, and a true scan
      would find the same. */
  lemma InPortFirst(m: Message, ts: seq<FlowCodec.Tlv>)
    requires Carries(m, ts) && ts != [] && IsInPort(ts[0])
    ensures InputPort(m) == ScannedPort(ts)
  {
    MatchBytes(m, ts);
    var body := FlowCodec.EncodeTlvs(ts);
    var t := FlowCodec.EncodeTlv(ts[0]);
    assert body[..8] == t;
    assert t[4..8] == ts[0].payload;
    FlowCodec.FieldsOfPiece(t, 4, ts[0].payload);
    assert forall i :: 0 <= i < 8 ==> body[i] == body[..8][i];
  }

  /** The fields with the payload of field `k` replaced by a port number. */
  function WithPort(ts: seq<FlowCodec.Tlv>, k: nat, port: Word32): seq<FlowCodec.Tlv>
    requires k < |ts|
  {
    ts[k := InPortTlv(port)]
  }

  /** The word that the controller takes for the port, in the encoded fields. */
  function WordRead(ts: seq<FlowCodec.Tlv>): Word32
    requires FlowCodec.ValidTlvs(ts) && |FlowCodec.EncodeTlvs(ts)| >= 8
  {
    Get32(FlowCodec.EncodeTlvs(ts), 4)
  }

  lemma InputPortIsWordRead(m: Message, ts: seq<FlowCodec.Tlv>)
    requires Carries(m, ts) && |FlowCodec.EncodeTlvs(ts)| >= 8
    ensures InputPort(m) == WordRead(ts)
  {
    MatchBytes(m, ts);
  }

  lemma {:induction false} EncodeSplit(a: seq<FlowCodec.Tlv>, b: seq<FlowCodec.Tlv>)
    requires FlowCodec.ValidTlvs(a) && FlowCodec.ValidTlvs(b)
    ensures FlowCodec.ValidTlvs(a + b)
    ensures FlowCodec.EncodeTlvs(a + b) == FlowCodec.EncodeTlvs(a) + FlowCodec.EncodeTlvs(b)
  {
    hide FlowCodec.EncodeTlv;
    if a == [] {
      assert a + b == b;
    } else {
      EncodeSplit(a[1..], b);
      assert (a + b)[1..] == a[1..] + b && (a + b)[0] == a[0];
    }
  }

  /** Behind another field, the port lies after the word that is read. */
  lemma WordReadIgnoresLaterPort(ts: seq<FlowCodec.Tlv>, k: nat, p: Word32, q: Word32)
    requires FlowCodec.ValidTlvs(ts) && 0 < k < |ts|
    ensures FlowCodec.ValidTlvs(WithPort(ts, k, p)) && FlowCodec.ValidTlvs(WithPort(ts, k, q))
    ensures |FlowCodec.EncodeTlvs(WithPort(ts, k, p))| == |FlowCodec.EncodeTlvs(WithPort(ts, k, q))| >= 8
    ensures WordRead(WithPort(ts, k, p)) == WordRead(WithPort(ts, k, q))
  {
    var a, b := ts[..k], ts[k + 1..];
    PortInTheMiddle(a, b, p);
    PortInTheMiddle(a, b, q);
    assert WithPort(ts, k, p) == a + [InPortTlv(p)] + b;
    assert WithPort(ts, k, q) == a + [InPortTlv(q)] + b;
    assert a[0] in a;
  }

  lemma PortInTheMiddle(a: seq<FlowCodec.Tlv>, b: seq<FlowCodec.Tlv>, p: Word32)
    requires FlowCodec.ValidTlvs(a) && FlowCodec.ValidTlvs(b) && a != []
    ensures FlowCodec.ValidTlvs(a + [InPortTlv(p)] + b)
    ensures |FlowCodec.EncodeTlvs(a + [InPortTlv(p)] + b)| == |FlowCodec.EncodeTlvs(a)| + 8 + |FlowCodec.EncodeTlvs(b)|
    ensures var head := FlowCodec.EncodeTlvs(a) + [0x80, 0, 0, 4];
            && |head| >= 8 && |FlowCodec.EncodeTlvs(a + [InPortTlv(p)] + b)| >= |head|
            && FlowCodec.EncodeTlvs(a + [InPortTlv(p)] + b)[..|head|] == head
  {
    OneTlv(InPortTlv(p));
    EncodeSplit(a, [InPortTlv(p)]);
    EncodeSplit(a + [InPortTlv(p)], b);
    var ea, eb, mark: seq<Byte> := FlowCodec.EncodeTlvs(a), FlowCodec.EncodeTlvs(b), [0x80, 0, 0, 4];
    assert FlowCodec.EncodeTlv(InPortTlv(p)) == mark + U32(p);
    hide FlowCodec.EncodeTlvs, FlowCodec.EncodeTlv;
    assert |ea| >= 4 by { NotEmpty(a); }
    Regroup(ea, mark, U32(p), eb);
  }

  lemma Regroup(a: seq<Byte>, b: seq<Byte>, c: seq<Byte>, d: seq<Byte>)
    ensures |a + (b + c) + d| >= |a + b| && (a + (b + c) + d)[..|a + b|] == a + b
  {
  }

  lemma NotEmpty(a: seq<FlowCodec.Tlv>)
    requires FlowCodec.ValidTlvs(a) && a != []
    ensures |FlowCodec.EncodeTlvs(a)| >= 4
  {
  }

  /** A packet-in that carries the match, with all else zero. */
  function Carrier(ts: seq<FlowCodec.Tlv>): Message
    requires FlowCodec.ValidTlvs(ts) && 4 + |FlowCodec.EncodeTlvs(ts)| < 0x1_0000
  {
    Zeros(24) + FlowCodec.EncodeMatch(ts) + Zeros(12)
  }

  lemma CarrierCarries(ts: seq<FlowCodec.Tlv>)
    requires FlowCodec.ValidTlvs(ts) && 4 + |FlowCodec.EncodeTlvs(ts)| < 0x1_0000
    ensures Carries(Carrier(ts), ts)
  {
    hide FlowCodec.EncodeMatch;
  }

  /** The controller reads the port of every packet-in that carries these fields, for every port
      number, exactly when the port field comes first. */
  lemma PortIsReadExactlyWhenFirst(ts: seq<FlowCodec.Tlv>, k: nat)
    requires FlowCodec.ValidTlvs(ts) && k < |ts|
    requires FlowCodec.ValidTlvs(WithPort(ts, k, 0)) && 4 + |FlowCodec.EncodeTlvs(WithPort(ts, k, 0))| < 0x1_0000
    ensures (forall m: Message, p: Word32 :: Carries(m, WithPort(ts, k, p)) ==> InputPort(m) == p) <==> k == 0
  {
    if k == 0 {
      forall m: Message, p: Word32 | Carries(m, WithPort(ts, k, p))
        ensures InputPort(m) == p
      {
        InPortFirst(m, WithPort(ts, k, p));
        Get32OfU32(p);
      }
    } else {
      var us, vs := WithPort(ts, k, 0), WithPort(ts, k, 1);
      WordReadIgnoresLaterPort(ts, k, 0, 1);
      CarrierCarries(us);
      CarrierCarries(vs);
      InputPortIsWordRead(Carrier(us), us);
      InputPortIsWordRead(Carrier(vs), vs);
      assert Carries(Carrier(us), WithPort(ts, k, 0)) && Carries(Carrier(vs), WithPort(ts, k, 1));
    }
  }

  /** The match of a learned source rule gives the port back when it is read. */
  lemma SourceMatchIsInverted(m: Message, port: Word32, mac: seq<Byte>)
    requires |mac| == 6 && Carries(m, [InPortTlv(port), EthSrcTlv(mac)])
    ensures InputPort(m) == port
  {
    InPortFirst(m, [InPortTlv(port), EthSrcTlv(mac)]);
    Get32OfU32(port);
  }

  // ---------------------------------------------------------------- the frame

  /** A packet-in whose declared frame length is that of the frame it holds, after two bytes of padding. */
  predicate HoldsWholeFrame(m: Message) {
    |m| >= 36 && 26 + FlowCodec.Padded(Get16(m, 26)) + Get16(m, 12) as int == |m|
  }

  /** The address that is learned is bytes 6 to 11 of the frame, its source address, whatever the
      length of the match. */
  lemma LearnedAddressIsSource(m: Message)
    requires HoldsWholeFrame(m) && Get16(m, 12) >= 14
    ensures SourceMac(m) == Frame(m)[6..12]
    ensures Frame(m) == m[26 + FlowCodec.Padded(Get16(m, 26))..]
  {
  }

  /** A probe is recognised with the number of its sender exactly for numbers below 100. */
  lemma ProbeIsRecognised(fd: Word16)
    ensures |ProbeFrame(fd)| == 14
    ensures Neighbour(ProbeFrame(fd)) == fd <==> fd < 100
  {
    Get16OfU16(fd);
    var f := ProbeFrame(fd);
    assert f[12] == U16(fd)[0] && f[13] == U16(fd)[1];
  }

  /** A frame with these addresses and this type or length field. */
  function EthernetFrame(dest: seq<Byte>, source: seq<Byte>, kind: Word16, payload: seq<Byte>): seq<Byte> {
    dest + source + U16(kind) + payload
  }

  /** Any frame is taken for a probe exactly when its type or length field is 1 to 99, whatever its
      addresses: no frame with a protocol number is, but every short 802.3 frame is. */
  lemma TakenForProbe(dest: seq<Byte>, source: seq<Byte>, kind: Word16, payload: seq<Byte>)
    requires |dest| == |source| == 6
    ensures var frame := EthernetFrame(dest, source, kind, payload);
            && |frame| >= 14 && (Neighbour(frame) != 0 <==> 1 <= kind <= 99)
            && (Neighbour(frame) != 0 ==> Neighbour(frame) == kind)
  {
    var frame := EthernetFrame(dest, source, kind, payload);
    Get16OfU16(kind);
    assert frame[12] == U16(kind)[0] && frame[13] == U16(kind)[1];
  }

  /** A packet-in as a switch composes it (section 7.4.1 of the OpenFlow Switch Specification 1.3.5). */
  function Composed(xid: Word32, bufferId: Word32, reason: Byte, table: Byte, cookie: seq<Byte>,
                    ts: seq<FlowCodec.Tlv>, frame: seq<Byte>): Message
    requires FlowCodec.ValidTlvs(ts) && 4 + |FlowCodec.EncodeTlvs(ts)| < 0x1_0000 && |cookie| == 8
    requires 26 + |FlowCodec.EncodeMatch(ts)| + |frame| < 0x1_0000
  {
    Header(PACKET_IN, 26 + |FlowCodec.EncodeMatch(ts)| + |frame|, xid)
    + U32(bufferId) + U16(|frame|) + [reason, table] + cookie + FlowCodec.EncodeMatch(ts) + Zeros(2) + frame
  }

  /** What the controller reads out of it is what the switch put in: the buffer, the reason, the frame, the
      address of its sender, and the port, if that is the first field. */
  lemma ComposedIsRead(xid: Word32, bufferId: Word32, reason: Byte, table: Byte, cookie: seq<Byte>,
                       ts: seq<FlowCodec.Tlv>, frame: seq<Byte>)
    requires FlowCodec.ValidTlvs(ts) && 4 + |FlowCodec.EncodeTlvs(ts)| < 0x1_0000 && |cookie| == 8
    requires 26 + |FlowCodec.EncodeMatch(ts)| + |frame| < 0x1_0000 && |frame| >= 14
    ensures var m := Composed(xid, bufferId, reason, table, cookie, ts, frame);
            && |m| == 26 + |FlowCodec.EncodeMatch(ts)| + |frame| && |m| >= 36
            && Get32(m, 8) == bufferId && Get16(m, 12) == |frame| && m[14] == reason && Carries(m, ts)
            && HoldsWholeFrame(m) && Frame(m) == frame && SourceMac(m) == frame[6..12]
            && (ts != [] && IsInPort(ts[0]) ==> InputPort(m) == Get32(ts[0].payload, 0))
  {
    var m := Composed(xid, bufferId, reason, table, cookie, ts, frame);
    ComposedPieces(xid, bufferId, reason, table, cookie, ts, frame);
    FlowCodec.WordRead32(m, 8, bufferId);
    FlowCodec.WordRead16(m, 12, |frame|);
    assert Carries(m, ts);
    MatchBytes(m, ts);
    assert HoldsWholeFrame(m);
    LearnedAddressIsSource(m);
    if ts != [] && IsInPort(ts[0]) {
      InPortFirst(m, ts);
    }
  }

  lemma ComposedPieces(xid: Word32, bufferId: Word32, reason: Byte, table: Byte, cookie: seq<Byte>,
                       ts: seq<FlowCodec.Tlv>, frame: seq<Byte>)
    requires FlowCodec.ValidTlvs(ts) && 4 + |FlowCodec.EncodeTlvs(ts)| < 0x1_0000 && |cookie| == 8
    requires 26 + |FlowCodec.EncodeMatch(ts)| + |frame| < 0x1_0000 && |frame| >= 14
    ensures var m, e := Composed(xid, bufferId, reason, table, cookie, ts, frame), FlowCodec.EncodeMatch(ts);
            && |m| == 26 + |e| + |frame| && m[8..12] == U32(bufferId) && m[12..14] == U16(|frame|) && m[14] == reason
            && m[24..24 + |e|] == e && m[26 + |e|..] == frame
  {
    hide U16, U32, Zeros, FlowCodec.EncodeMatch, FlowCodec.EncodeTlvs, Header;
  }

  /** A packet-in with the probe of another switch reports the link to it. */
  lemma ProbeReportsLink(m: Message, fd: Word16)
    requires Acceptable(m) && Kind(m) == PACKET_IN && m[14] == 0 && HoldsWholeFrame(m) && Frame(m) == ProbeFrame(fd)
    ensures ReportsLink(m) <==> 0 < fd < 100
    ensures ReportsLink(m) ==> Neighbour(Frame(m)) == fd
  {
    ProbeIsRecognised(fd);
  }
}
