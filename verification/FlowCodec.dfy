/** Flow-mod messages on the wire, as the OpenFlow Switch Specification 1.3.5 lays them out (sections
    7.1, 7.2.3, 7.2.4, 7.2.5 and 7.3.4.1), with an encoder and a strict decoder. */
module FlowCodec {
  import opened Bytes
  import opened Wrappers

  type Word64 = w: int | 0 <= w < 0x1_0000_0000_0000_0000

  /** A match field: class, field number, whether the payload carries a mask, and the payload. */
  datatype Tlv = Tlv(oxmClass: Word16, field: nat, hasMask: bool, payload: seq<Byte>) {
    predicate Valid() {
      field < 128 && |payload| < 256
    }
  }

  datatype Action = Output(port: Word32, maxLen: Word16)

  datatype Instruction = GotoTable(table: Byte) | ApplyActions(actions: seq<Action>)

  datatype FlowMod = FlowMod(xid: Word32, cookie: Word64, cookieMask: Word64, table: Byte, command: Byte,
                             idle: Word16, hard: Word16, priority: Word16,
                             bufferId: Word32, outPort: Word32, outGroup: Word32, flags: Word16,
                             match_: seq<Tlv>, instructions: seq<Instruction>)

  // ---------------------------------------------------------------- encoding

  function U64(w: Word64): (s: seq<Byte>)
    ensures |s| == 8
  {
    U32(w / 0x1_0000_0000) + U32(w % 0x1_0000_0000)
  }

  function Get64(s: seq<Byte>, at: nat): Word64
    requires at + 8 <= |s|
  {
    Get32(s, at) as int * 0x1_0000_0000 + Get32(s, at + 4)
  }

  function EncodeTlv(t: Tlv): (s: seq<Byte>)
    requires t.Valid()
    ensures |s| == 4 + |t.payload|
  {
    U16(t.oxmClass) + [t.field * 2 + (if t.hasMask then 1 else 0), |t.payload|] + t.payload
  }

  predicate ValidTlvs(ts: seq<Tlv>) {
    forall i :: 0 <= i < |ts| ==> ts[i].Valid()
  }

  function EncodeTlvs(ts: seq<Tlv>): seq<Byte>
    requires ValidTlvs(ts)
  {
    if ts == [] then [] else EncodeTlv(ts[0]) + EncodeTlvs(ts[1..])
  }

  /** The next multiple of 8. */
  function Padded(n: nat): (p: nat)
    ensures n <= p < n + 8 && p % 8 == 0
  {
    (n + 7) / 8 * 8
  }

  function EncodeMatch(ts: seq<Tlv>): (s: seq<Byte>)
    requires ValidTlvs(ts) && 4 + |EncodeTlvs(ts)| < 0x1_0000
    ensures |s| == Padded(4 + |EncodeTlvs(ts)|)
  {
    var n := 4 + |EncodeTlvs(ts)|;
    U16(1) + U16(n) + EncodeTlvs(ts) + Zeros(Padded(n) - n)
  }

  function EncodeAction(a: Action): (s: seq<Byte>)
    ensures |s| == 16
  {
    U16(0) + U16(16) + U32(a.port) + U16(a.maxLen) + Zeros(6)
  }

  function EncodeActions(actions: seq<Action>): (s: seq<Byte>)
    ensures |s| == 16 * |actions|
  {
    if actions == [] then [] else EncodeAction(actions[0]) + EncodeActions(actions[1..])
  }

  predicate ValidInstruction(i: Instruction) {
    i.ApplyActions? ==> 8 + 16 * |i.actions| < 0x1_0000
  }

  function EncodeInstruction(i: Instruction): (s: seq<Byte>)
    requires ValidInstruction(i)
    ensures |s| == if i.GotoTable? then 8 else 8 + 16 * |i.actions|
  {
    match i
    case GotoTable(table) => U16(1) + U16(8) + [table] + Zeros(3)
    case ApplyActions(actions) => U16(4) + U16(8 + 16 * |actions|) + Zeros(4) + EncodeActions(actions)
  }

  predicate ValidInstructions(ins: seq<Instruction>) {
    forall i :: 0 <= i < |ins| ==> ValidInstruction(ins[i])
  }

  function EncodeInstructions(ins: seq<Instruction>): seq<Byte>
    requires ValidInstructions(ins)
  {
    if ins == [] then [] else EncodeInstruction(ins[0]) + EncodeInstructions(ins[1..])
  }

  function Size(m: FlowMod): nat
    requires ValidTlvs(m.match_) && ValidInstructions(m.instructions)
  {
    48 + Padded(4 + |EncodeTlvs(m.match_)|) + |EncodeInstructions(m.instructions)|
  }

  predicate Valid(m: FlowMod) {
    ValidTlvs(m.match_) && ValidInstructions(m.instructions) && Size(m) < 0x1_0000
  }

  /** The fields before the match. */
  function EncodeFixed(m: FlowMod, length: Word16): (s: seq<Byte>)
    ensures |s| == 48
  {
    ([4, 14] + U16(length) + U32(m.xid))
    + U64(m.cookie) + U64(m.cookieMask)
    + ([m.table, m.command] + U16(m.idle) + U16(m.hard) + U16(m.priority))
    + (U32(m.bufferId) + U32(m.outPort))
    + (U32(m.outGroup) + U16(m.flags) + Zeros(2))
  }

  function Encode(m: FlowMod): (s: seq<Byte>)
    requires Valid(m)
    ensures |s| == Size(m)
  {
    EncodeFixed(m, Size(m)) + EncodeMatch(m.match_) + EncodeInstructions(m.instructions)
  }

  // ---------------------------------------------------------------- decoding

  function TlvSize(s: seq<Byte>): nat
    requires |s| >= 4
  {
    4 + s[3] as int
  }

  function FirstTlv(s: seq<Byte>): (t: Tlv)
    requires 4 <= |s| && TlvSize(s) <= |s|
    ensures t.Valid()
  {
    Tlv(Get16(s, 0), s[2] / 2, s[2] % 2 == 1, s[4..TlvSize(s)])
  }

  function DecodeTlvs(s: seq<Byte>): Option<seq<Tlv>> {
    if s == [] then Some([])
    else if |s| < 4 || |s| < TlvSize(s) then None
    else
      var rest := DecodeTlvs(s[TlvSize(s)..]);
      if rest.None? then None else Some([FirstTlv(s)] + rest.value)
  }

  /** A match and what follows it. */
  function DecodeMatch(s: seq<Byte>): Option<(seq<Tlv>, seq<Byte>)> {
    if |s| < 4 then None
    else
      var n := Get16(s, 2);
      if Get16(s, 0) != 1 || n < 4 || |s| < Padded(n) || s[n..Padded(n)] != Zeros(Padded(n) - n) then None
      else
        var ts := DecodeTlvs(s[4..n]);
        if ts.None? then None else Some((ts.value, s[Padded(n)..]))
  }

  function DecodeActions(s: seq<Byte>): Option<seq<Action>> {
    if s == [] then Some([])
    else if |s| < 16 || Get16(s, 0) != 0 || Get16(s, 2) != 16 || s[10..16] != Zeros(6) then None
    else
      var rest := DecodeActions(s[16..]);
      if rest.None? then None else Some([Output(Get32(s, 4), Get16(s, 8))] + rest.value)
  }

  function DecodeInstruction(s: seq<Byte>): Option<Instruction> {
    if |s| < 8 then None
    else if Get16(s, 0) == 1 then
      if |s| == 8 && s[5..8] == Zeros(3) then Some(GotoTable(s[4])) else None
    else if Get16(s, 0) == 4 && s[4..8] == Zeros(4) then
      var actions := DecodeActions(s[8..]);
      if actions.None? then None else Some(ApplyActions(actions.value))
    else None
  }

  function DecodeInstructions(s: seq<Byte>): Option<seq<Instruction>> {
    if s == [] then Some([])
    else if |s| < 8 || Get16(s, 2) < 8 || |s| < Get16(s, 2) then None
    else
      var first := DecodeInstruction(s[..Get16(s, 2)]);
      var rest := DecodeInstructions(s[Get16(s, 2)..]);
      if first.None? || rest.None? then None else Some([first.value] + rest.value)
  }

  function Decode(s: seq<Byte>): Option<FlowMod> {
    if |s| < 48 || s[0] != 4 || s[1] != 14 || Get16(s, 2) != |s| || s[46..48] != Zeros(2) then None
    else
      var m := DecodeMatch(s[48..]);
      if m.None? then None
      else
        var ins := DecodeInstructions(m.value.1);
        if ins.None? then None
        else Some(FlowMod(Get32(s, 4), Get64(s, 8), Get64(s, 16), s[24], s[25],
                          Get16(s, 26), Get16(s, 28), Get16(s, 30),
                          Get32(s, 32), Get32(s, 36), Get32(s, 40), Get16(s, 44),
                          m.value.0, ins.value))
  }

  // ---------------------------------------------------------------- decoding inverts encoding

  lemma FirstTlvOfEncoded(t: Tlv, rest: seq<Byte>)
    requires t.Valid()
    ensures var s := EncodeTlv(t) + rest;
            TlvSize(s) == |EncodeTlv(t)| && FirstTlv(s) == t && s[TlvSize(s)..] == rest
  {
    var e, s := EncodeTlv(t), EncodeTlv(t) + rest;
    assert e[0..2] == U16(t.oxmClass);
    assert s[0] == U16(t.oxmClass)[0] && s[1] == U16(t.oxmClass)[1];
    assert s[2] == t.field * 2 + (if t.hasMask then 1 else 0) && s[3] == |t.payload|;
    assert s[4..TlvSize(s)] == t.payload;
  }

  lemma {:induction false} TlvsRoundTrip(ts: seq<Tlv>)
    requires ValidTlvs(ts)
    ensures DecodeTlvs(EncodeTlvs(ts)) == Some(ts)
  {
    if ts != [] {
      TlvsRoundTrip(ts[1..]);
      FirstTlvOfEncoded(ts[0], EncodeTlvs(ts[1..]));
      assert ts == [ts[0]] + ts[1..];
    }
  }

  lemma MatchRoundTrip(ts: seq<Tlv>, rest: seq<Byte>)
    requires ValidTlvs(ts) && 4 + |EncodeTlvs(ts)| < 0x1_0000
    ensures DecodeMatch(EncodeMatch(ts) + rest) == Some((ts, rest))
  {
    hide EncodeTlvs, DecodeTlvs, U16, Get16, Zeros, Padded;
    var s := EncodeMatch(ts) + rest;
    var n := 4 + |EncodeTlvs(ts)|;
    TlvsRoundTrip(ts);
    assert s[0..2] == U16(1) && s[2..4] == U16(n);
    WordRead16(s, 0, 1);
    WordRead16(s, 2, n);
    assert s[4..n] == EncodeTlvs(ts);
    assert s[n..Padded(n)] == Zeros(Padded(n) - n);
    assert s[Padded(n)..] == rest;
  }

  lemma {:induction false} ActionsRoundTrip(actions: seq<Action>)
    ensures DecodeActions(EncodeActions(actions)) == Some(actions)
  {
    if actions != [] {
      ActionsRoundTrip(actions[1..]);
      ActionRead(actions[0], EncodeActions(actions[1..]));
      assert actions == [actions[0]] + actions[1..];
      hide EncodeAction, Get16, Get32, Zeros;
    }
  }

  lemma ActionRead(a: Action, rest: seq<Byte>)
    ensures var s := EncodeAction(a) + rest;
            && s[16..] == rest && Get16(s, 0) == 0 && Get16(s, 2) == 16 && s[10..16] == Zeros(6)
            && Get32(s, 4) == a.port && Get16(s, 8) == a.maxLen
  {
    hide U16, U32, Zeros, Get16, Get32;
    var s := EncodeAction(a) + rest;
    assert s[0..2] == U16(0) && s[2..4] == U16(16) && s[4..8] == U32(a.port) && s[8..10] == U16(a.maxLen);
    WordRead16(s, 0, 0);
    WordRead16(s, 2, 16);
    WordRead32(s, 4, a.port);
    WordRead16(s, 8, a.maxLen);
  }

  lemma InstructionRoundTrip(i: Instruction)
    requires ValidInstruction(i)
    ensures DecodeInstruction(EncodeInstruction(i)) == Some(i)
    ensures Get16(EncodeInstruction(i), 2) == |EncodeInstruction(i)|
  {
    var s := EncodeInstruction(i);
    match i {
      case GotoTable(table) => assert s[5..8] == Zeros(3);
      case ApplyActions(actions) =>
        ActionsRoundTrip(actions);
        assert s[4..8] == Zeros(4) && s[8..] == EncodeActions(actions);
    }
  }

  lemma FrontOfBuffer(e: seq<Byte>, rest: seq<Byte>)
    requires |e| >= 4
    ensures (e + rest)[..|e|] == e && (e + rest)[|e|..] == rest && Get16(e + rest, 2) == Get16(e, 2)
  {
  }

  lemma {:induction false} InstructionsRoundTrip(ins: seq<Instruction>)
    requires ValidInstructions(ins)
    ensures DecodeInstructions(EncodeInstructions(ins)) == Some(ins)
  {
    hide EncodeInstruction, DecodeInstruction, Get16, ValidInstruction;
    if ins != [] {
      InstructionsRoundTrip(ins[1..]);
      InstructionRoundTrip(ins[0]);
      FrontOfBuffer(EncodeInstruction(ins[0]), EncodeInstructions(ins[1..]));
      assert ins == [ins[0]] + ins[1..];
    }
  }

  lemma Get64OfU64(w: Word64)
    ensures Get64(U64(w), 0) == w
  {
    Get32OfU32(w / 0x1_0000_0000);
    Get32OfU32(w % 0x1_0000_0000);
    assert U64(w)[..4] == U32(w / 0x1_0000_0000) && U64(w)[4..] == U32(w % 0x1_0000_0000);
    assert Get32(U64(w), 0) == w / 0x1_0000_0000 && Get32(U64(w), 4) == w % 0x1_0000_0000;
  }

  /** Fields read from a piece of a buffer are those of the piece. */
  lemma FieldsOfPiece(s: seq<Byte>, at: nat, piece: seq<Byte>)
    requires at + |piece| <= |s| && s[at..at + |piece|] == piece
    ensures forall i :: 0 <= i < |piece| ==> s[at + i] == piece[i]
    ensures |piece| >= 4 ==> Get32(s, at) == Get32(piece, 0)
    ensures |piece| >= 8 ==> Get32(s, at + 4) == Get32(piece, 4) && Get64(s, at) == Get64(piece, 0)
  {
    forall i | 0 <= i < |piece|
      ensures s[at + i] == piece[i]
    {
      assert s[at..at + |piece|][i] == piece[i];
    }
  }

  /** Words read where they were written. */
  lemma WordRead16(s: seq<Byte>, at: nat, w: Word16)
    requires at + 2 <= |s| && s[at..at + 2] == U16(w)
    ensures Get16(s, at) == w
  {
    Get16OfU16(w);
    assert s[at] == U16(w)[0] && s[at + 1] == U16(w)[1];
  }

  lemma WordRead32(s: seq<Byte>, at: nat, w: Word32)
    requires at + 4 <= |s| && s[at..at + 4] == U32(w)
    ensures Get32(s, at) == w
  {
    FieldsOfPiece(s, at, U32(w));
    Get32OfU32(w);
  }

  lemma WordRead64(s: seq<Byte>, at: nat, w: Word64)
    requires at + 8 <= |s| && s[at..at + 8] == U64(w)
    ensures Get64(s, at) == w
  {
    FieldsOfPiece(s, at, U64(w));
    Get64OfU64(w);
  }

  lemma FixedPieces(m: FlowMod, length: Word16, rest: seq<Byte>)
    ensures var s := EncodeFixed(m, length) + rest;
            && s[0] == 4 && s[1] == 14 && s[2..4] == U16(length) && s[4..8] == U32(m.xid)
            && s[8..16] == U64(m.cookie) && s[16..24] == U64(m.cookieMask)
            && s[24] == m.table && s[25] == m.command
            && s[26..28] == U16(m.idle) && s[28..30] == U16(m.hard) && s[30..32] == U16(m.priority)
    ensures var s := EncodeFixed(m, length) + rest;
            && s[32..36] == U32(m.bufferId) && s[36..40] == U32(m.outPort) && s[40..44] == U32(m.outGroup)
            && s[44..46] == U16(m.flags) && s[46..48] == Zeros(2) && s[48..] == rest
  {
    hide U16, U32, U64, Zeros;
    var s := EncodeFixed(m, length) + rest;
    var a: seq<Byte> := [4, 14] + U16(length) + U32(m.xid);
    var c := [m.table, m.command] + U16(m.idle) + U16(m.hard) + U16(m.priority);
    var e := U32(m.outGroup) + U16(m.flags) + Zeros(2);
    assert s[..8] == a && s[8..16] == U64(m.cookie) && s[16..24] == U64(m.cookieMask) && s[24..32] == c;
    assert s[32..36] == U32(m.bufferId) && s[36..40] == U32(m.outPort) && s[40..48] == e && s[48..] == rest;
    assert a[..2] == [4, 14] && a[2..4] == U16(length) && a[4..8] == U32(m.xid);
    assert c[0] == m.table && c[1] == m.command;
    assert c[2..4] == U16(m.idle) && c[4..6] == U16(m.hard) && c[6..8] == U16(m.priority);
    assert e[..4] == U32(m.outGroup) && e[4..6] == U16(m.flags) && e[6..8] == Zeros(2);
    assert s[..8][0] == a[0] && s[..8][1] == a[1] && s[24..32][0] == c[0] && s[24..32][1] == c[1];
    hide EncodeFixed;
    SliceOfSlice(s, 0, 8, 2, 4);
    SliceOfSlice(s, 0, 8, 4, 8);
    SliceOfSlice(s, 24, 32, 2, 4);
    SliceOfSlice(s, 24, 32, 4, 6);
    SliceOfSlice(s, 24, 32, 6, 8);
    SliceOfSlice(s, 40, 48, 0, 4);
    SliceOfSlice(s, 40, 48, 4, 6);
    SliceOfSlice(s, 40, 48, 6, 8);
  }

  lemma SliceOfSlice(s: seq<Byte>, lo: nat, hi: nat, i: nat, j: nat)
    requires lo <= hi <= |s| && i <= j <= hi - lo
    ensures s[lo..hi][i..j] == s[lo + i..lo + j]
  {
    var a, b := s[lo..hi][i..j], s[lo + i..lo + j];
    assert |a| == |b| && forall k :: 0 <= k < |a| ==> a[k] == b[k];
  }

  lemma FixedRoundTrip(m: FlowMod, length: Word16, rest: seq<Byte>)
    ensures var s := EncodeFixed(m, length) + rest;
            && s[0] == 4 && s[1] == 14 && Get16(s, 2) == length && s[46..48] == Zeros(2) && s[48..] == rest
            && Get32(s, 4) == m.xid && Get64(s, 8) == m.cookie && Get64(s, 16) == m.cookieMask
    ensures var s := EncodeFixed(m, length) + rest;
            && s[24] == m.table && s[25] == m.command
            && Get16(s, 26) == m.idle && Get16(s, 28) == m.hard && Get16(s, 30) == m.priority
            && Get32(s, 32) == m.bufferId && Get32(s, 36) == m.outPort
            && Get32(s, 40) == m.outGroup && Get16(s, 44) == m.flags
  {
    hide EncodeFixed, U16, U32, U64, Get16, Get32, Get64, Zeros;
    FixedPieces(m, length, rest);
    var s := EncodeFixed(m, length) + rest;
    WordRead16(s, 2, length);
    WordRead32(s, 4, m.xid);
    WordRead64(s, 8, m.cookie);
    WordRead64(s, 16, m.cookieMask);
    WordRead16(s, 26, m.idle);
    WordRead16(s, 28, m.hard);
    WordRead16(s, 30, m.priority);
    WordRead32(s, 32, m.bufferId);
    WordRead32(s, 36, m.outPort);
    WordRead32(s, 40, m.outGroup);
    WordRead16(s, 44, m.flags);
  }

  /** Decoding what was encoded gives the message back. */
  lemma RoundTrip(m: FlowMod)
    requires Valid(m)
    ensures Decode(Encode(m)) == Some(m)
  {
    hide EncodeFixed, EncodeMatch, EncodeInstructions, DecodeMatch, DecodeInstructions, Get16, Get32, Get64, Zeros;
    var rest := EncodeMatch(m.match_) + EncodeInstructions(m.instructions);
    assert Encode(m) == EncodeFixed(m, Size(m)) + rest;
    FixedRoundTrip(m, Size(m), rest);
    MatchRoundTrip(m.match_, EncodeInstructions(m.instructions));
    InstructionsRoundTrip(m.instructions);
  }

  // ---------------------------------------------------------------- encoding inverts decoding

  lemma {:induction false} TlvsRebuilt(s: seq<Byte>)
    ensures DecodeTlvs(s).Some? ==> ValidTlvs(DecodeTlvs(s).value) && EncodeTlvs(DecodeTlvs(s).value) == s
    decreases |s|
  {
    if DecodeTlvs(s).Some? && s != [] {
      var t, rest := FirstTlv(s), s[TlvSize(s)..];
      TlvsRebuilt(rest);
      FirstTlvRebuilt(s);
      var ts := DecodeTlvs(rest).value;
      assert ([t] + ts)[1..] == ts;
      hide EncodeTlv, FirstTlv, TlvSize, Get16, U16;
    }
  }

  lemma FirstTlvRebuilt(s: seq<Byte>)
    requires 4 <= |s| && TlvSize(s) <= |s|
    ensures EncodeTlv(FirstTlv(s)) + s[TlvSize(s)..] == s
  {
    U16OfGet16(s[..2]);
    assert EncodeTlv(FirstTlv(s)) == s[..TlvSize(s)];
  }

  lemma MatchRebuilt(s: seq<Byte>)
    requires DecodeMatch(s).Some?
    ensures var (ts, rest) := DecodeMatch(s).value;
            ValidTlvs(ts) && 4 + |EncodeTlvs(ts)| < 0x1_0000 && EncodeMatch(ts) + rest == s
  {
    var n := Get16(s, 2);
    TlvsRebuilt(s[4..n]);
    TypeAndLength(s, 1, n);
    hide EncodeTlvs, DecodeTlvs, U16, Get16, Zeros, Padded;
    var (ts, rest) := DecodeMatch(s).value;
    assert s[n..Padded(n)] == Zeros(Padded(n) - n) && rest == s[Padded(n)..] && EncodeTlvs(ts) == s[4..n];
    assert EncodeMatch(ts) == s[..4] + s[4..n] + s[n..Padded(n)];
    hide DecodeMatch, EncodeMatch, ValidTlvs;
    FourSlices(s, 4, n, Padded(n));
  }

  lemma FourSlices(s: seq<Byte>, a: nat, b: nat, c: nat)
    requires a <= b <= c <= |s|
    ensures s == s[..a] + s[a..b] + s[b..c] + s[c..]
  {
  }

  lemma TypeAndLength(s: seq<Byte>, kind: Word16, length: Word16)
    requires |s| >= 4 && Get16(s, 0) == kind && Get16(s, 2) == length
    ensures s[..4] == U16(kind) + U16(length)
  {
    U16OfGet16(s[..2]);
    U16OfGet16(s[2..4]);
    assert s[..4] == s[..2] + s[2..4];
  }

  lemma {:induction false} ActionsRebuilt(s: seq<Byte>)
    ensures DecodeActions(s).Some? ==> EncodeActions(DecodeActions(s).value) == s
    decreases |s|
  {
    if DecodeActions(s).Some? && s != [] {
      var a := Output(Get32(s, 4), Get16(s, 8));
      ActionsRebuilt(s[16..]);
      U16OfGet16(s[..2]);
      U16OfGet16(s[2..4]);
      U32OfGet32(s[4..8]);
      U16OfGet16(s[8..10]);
      assert s[..16] == s[..2] + s[2..4] + s[4..8] + s[8..10] + s[10..16];
      assert EncodeAction(a) == s[..16];
      assert s == s[..16] + s[16..];
    }
  }

  lemma InstructionRebuilt(s: seq<Byte>)
    requires |s| < 0x1_0000 && |s| >= 8 && Get16(s, 2) == |s|
    ensures DecodeInstruction(s).Some? ==>
              ValidInstruction(DecodeInstruction(s).value) && EncodeInstruction(DecodeInstruction(s).value) == s
  {
    if DecodeInstruction(s).Some? {
      U16OfGet16(s[..2]);
      U16OfGet16(s[2..4]);
      match DecodeInstruction(s).value {
        case GotoTable(table) => assert s == s[..2] + s[2..4] + [s[4]] + s[5..8];
        case ApplyActions(actions) =>
          ActionsRebuilt(s[8..]);
          assert s == s[..2] + s[2..4] + s[4..8] + s[8..];
      }
    }
  }

  lemma {:induction false} InstructionsRebuilt(s: seq<Byte>)
    ensures DecodeInstructions(s).Some? ==>
              ValidInstructions(DecodeInstructions(s).value) && EncodeInstructions(DecodeInstructions(s).value) == s
    decreases |s|
  {
    hide EncodeInstruction, DecodeInstruction, ValidInstruction;
    if DecodeInstructions(s).Some? && s != [] {
      var n := Get16(s, 2);
      InstructionRebuilt(s[..n]);
      InstructionsRebuilt(s[n..]);
      var ins := DecodeInstructions(s).value;
      assert ins[1..] == DecodeInstructions(s[n..]).value;
      assert s == s[..n] + s[n..];
    }
  }

  lemma FixedRebuilt(s: seq<Byte>, m: FlowMod)
    requires |s| >= 48 && s[0] == 4 && s[1] == 14 && s[46..48] == Zeros(2)
    requires Get32(s, 4) == m.xid && Get64(s, 8) == m.cookie && Get64(s, 16) == m.cookieMask
    requires s[24] == m.table && s[25] == m.command
    requires Get16(s, 26) == m.idle && Get16(s, 28) == m.hard && Get16(s, 30) == m.priority
    requires Get32(s, 32) == m.bufferId && Get32(s, 36) == m.outPort
    requires Get32(s, 40) == m.outGroup && Get16(s, 44) == m.flags
    ensures EncodeFixed(m, Get16(s, 2)) == s[..48]
  {
    Slice16(s, 2);
    Slice32(s, 4);
    Slice64(s, 8);
    Slice64(s, 16);
    Slice16(s, 26);
    Slice16(s, 28);
    Slice16(s, 30);
    Slice32(s, 32);
    Slice32(s, 36);
    Slice32(s, 40);
    Slice16(s, 44);
    FixedSlices(s);
  }

  lemma Slice16(s: seq<Byte>, at: nat)
    requires at + 2 <= |s|
    ensures U16(Get16(s, at)) == s[at..at + 2]
  {
    U16OfGet16(s[at..at + 2]);
  }

  lemma Slice32(s: seq<Byte>, at: nat)
    requires at + 4 <= |s|
    ensures U32(Get32(s, at)) == s[at..at + 4]
  {
    U32OfGet32(s[at..at + 4]);
    FieldsOfPiece(s, at, s[at..at + 4]);
  }

  lemma Slice64(s: seq<Byte>, at: nat)
    requires at + 8 <= |s|
    ensures U64(Get64(s, at)) == s[at..at + 8]
  {
    U64OfGet64(s[at..at + 8]);
    FieldsOfPiece(s, at, s[at..at + 8]);
  }

  /** The pieces of the fixed part, in the order of the encoder. */
  lemma FixedSlices(s: seq<Byte>)
    requires |s| >= 48
    ensures s[..48] == ([s[0], s[1]] + s[2..4] + s[4..8]) + s[8..16] + s[16..24]
                       + ([s[24], s[25]] + s[26..28] + s[28..30] + s[30..32])
                       + (s[32..36] + s[36..40]) + (s[40..44] + s[44..46] + s[46..48])
  {
    assert s[0..8] == [s[0], s[1]] + s[2..4] + s[4..8];
    assert s[24..32] == [s[24], s[25]] + s[26..28] + s[28..30] + s[30..32];
    assert s[32..40] == s[32..36] + s[36..40];
    assert s[40..48] == s[40..44] + s[44..46] + s[46..48];
    assert s[..48] == s[0..8] + s[8..16] + s[16..24] + s[24..32] + s[32..40] + s[40..48];
  }

  lemma U64OfGet64(s: seq<Byte>)
    requires |s| == 8
    ensures U64(Get64(s, 0)) == s
  {
    U32OfGet32(s[..4]);
    U32OfGet32(s[4..]);
    var h, l := Get32(s, 0), Get32(s, 4);
    assert Get64(s, 0) / 0x1_0000_0000 == h && Get64(s, 0) % 0x1_0000_0000 == l;
    assert s == s[..4] + s[4..];
  }

  /** A buffer that decodes is the encoding of what it decodes to: no other bytes are accepted. */
  lemma Rebuilt(s: seq<Byte>)
    requires Decode(s).Some?
    ensures Valid(Decode(s).value) && Encode(Decode(s).value) == s
  {
    hide EncodeFixed, EncodeMatch, EncodeTlvs, EncodeInstructions, DecodeMatch, DecodeInstructions, Zeros, Get16,
         Get32, Get64;
    var m := Decode(s).value;
    var (ts, rest) := DecodeMatch(s[48..]).value;
    MatchRebuilt(s[48..]);
    InstructionsRebuilt(rest);
    FixedRebuilt(s, m);
    assert s == s[..48] + s[48..];
  }
}
