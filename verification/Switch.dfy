/** One switch connection as it lies in memory: the buffers and counters of `struct of_switch`, the
    builders of rw_packets.c that fill the write buffer, and the handlers of controller.c. */
module Switch {
  import opened Bytes
  import opened Messages
  import opened Protocol
  import opened Wrappers
  import FlowCodec
  import Oxm

  /** A probe of switch `src` has come in on a port. */
  datatype Link = Link(src: Word16, port: Word32)

  datatype Rw = Read | Write | Disconnected

  /** `round_up`: the next multiple of 8. */
  function RoundUp(num: nat): (r: nat)
    ensures r % 8 == 0 && num <= r < num + 8
    ensures r == FlowCodec.Padded(num)
  {
    if num % 8 == 0 then num else (num / 8 + 1) * 8
  }

  // ---------------------------------------------------------------- stores into a buffer

  lemma StoreThenStore(b: seq<Byte>, at: nat, x: seq<Byte>, y: seq<Byte>)
    requires at + |x| + |y| <= |b|
    ensures Store(Store(b, at, x), at + |x|, y) == Store(b, at, x + y)
  {
  }

  /** Bytes that are left out of a zeroed region read as zeros. */
  lemma StoreThenSkip(b: seq<Byte>, at: nat, x: seq<Byte>, n: nat)
    requires at + |x| + n <= |b| && b[at + |x|..at + |x| + n] == Zeros(n)
    ensures Store(b, at, x) == Store(b, at, x + Zeros(n))
  {
    var s, t := Store(b, at, x), Store(b, at, x + Zeros(n));
    forall i | 0 <= i < |b|
      ensures s[i] == t[i]
    {
      if at + |x| <= i < at + |x| + n {
        assert b[at + |x|..at + |x| + n][i - at - |x|] == 0;
      }
    }
  }

  lemma StoreThenKeep(b: seq<Byte>, at: nat, x: seq<Byte>, n: nat)
    requires at + |x| + n <= |b|
    ensures Store(b, at, x) == Store(b, at, x + b[at + |x|..at + |x| + n])
  {
  }

  lemma StoreNothing(b: seq<Byte>, at: nat)
    requires at <= |b|
    ensures Store(b, at, []) == b
  {
  }

  lemma StoredSlice(b: seq<Byte>, at: nat, x: seq<Byte>)
    requires at + |x| <= |b|
    ensures Store(b, at, x)[at..at + |x|] == x
    ensures Store(b, at, x)[..at] == b[..at] && Store(b, at, x)[at + |x|..] == b[at + |x|..]
  {
  }

  ghost predicate ZeroFrom(b: seq<Byte>, at: nat) {
    at <= |b| && b[at..] == Zeros(|b| - at)
  }

  lemma ZeroSlice(b: seq<Byte>, at: nat, lo: nat, hi: nat)
    requires ZeroFrom(b, at) && at <= lo <= hi <= |b|
    ensures b[lo..hi] == Zeros(hi - lo)
  {
    forall i | 0 <= i < hi - lo
      ensures b[lo..hi][i] == 0
    {
      assert b[at..][lo + i - at] == 0;
    }
  }

  lemma ZeroAfterStore(b: seq<Byte>, at: nat, x: seq<Byte>)
    requires ZeroFrom(b, at) && at + |x| <= |b|
    ensures ZeroFrom(Store(b, at, x), at + |x|)
  {
    ZeroSlice(b, at, at + |x|, |b|);
    StoredSlice(b, at, x);
  }

  /** What the rest of the controller can tell of a connection: how it reads, and its streams. */
  datatype View = View(rw: Rw, header: bool, read: nat, expected: nat, pending: seq<Byte>, stage: nat,
                       log: seq<Exchange>, received: seq<Byte>, sent: seq<Byte>)
  {
    /** The bytes of the current message once `chunk` has arrived. */
    function Arrived(chunk: seq<Byte>): seq<Byte> {
      pending + chunk
    }

    /** With `chunk` the current message is complete. */
    predicate Completes(chunk: seq<Byte>) {
      |chunk| == expected && (header ==> |Arrived(chunk)| == 8 && Get16(Arrived(chunk), 2) == 8)
    }

    /** What the handlers assume of the switch: lengths that fit the buffer and, once a message is
        complete, a message on which they stay inside it. */
    predicate Readable(chunk: seq<Byte>, closePort: bool) {
      && (header && |Arrived(chunk)| == 8 ==> 8 <= Get16(Arrived(chunk), 2) <= BUFFER_SIZE)
      && (Completes(chunk) ==> Usable(Arrived(chunk), closePort))
    }

    /** The link that `chunk` reports by completing a packet-in with a probe. */
    function Reported(chunk: seq<Byte>): Option<Link>
      requires Readable(chunk, true)
    {
      if Completes(chunk) && ReportsLink(Arrived(chunk)) then
        Some(Link(Neighbour(Frame(Arrived(chunk))), InputPort(Arrived(chunk))))
      else None
    }

    /** An order has met the connection between two messages. */
    predicate Ordered() {
      rw == Write && header && read == 0 && expected == 40
    }

    /** The connection is between two messages. */
    predicate BetweenMessages() {
      rw == Read && header && read == 0
    }

    /** `send` has taken the next `n` bytes. When they were the last, the next stage of the handshake is queued or,
        after the last stage, the next message is awaited. */
    predicate Wrote(after: View, n: nat) {
      && after.received == received && after.log == log && sent <= after.sent && |after.sent| == |sent| + n
      && (if n < expected then after.rw == Write && after.stage == stage && after.expected == expected - n
          else if stage == 4 then after.BetweenMessages() && after.stage == 4 && after.expected == 8
          else after.rw == Write && after.stage == stage + 1)
    }

    /** The connection with an order carried out. */
    function Obeying(port: Word32): View {
      this.(rw := Write, expected := 40, log := log + [Order(port)])
    }
  }

  class Switch {
    var rw: Rw
    var ofStatus: Byte
    var readingHeader: bool
    var xid: Word32
    const socketFd: Word16
    var bytesRead: nat
    var bytesWritten: nat
    var bytesExpected: nat
    const readBuffer: array<Byte>
    const writeBuffer: array<Byte>
    var featuresRequested: bool
    var configSet: bool
    var portsRequested: bool
    var defaultFlowSet: bool
    const connectedPorts: array<seq<Byte>>
    /** The streams of the connection, the messages handled, the last ones queued, and the beginning. */
    ghost var received: seq<Byte>
    ghost var sent: seq<Byte>
    ghost var log: seq<Exchange>
    ghost var queued: seq<Message>
    ghost const origin: Peer

    /** Stores bytes one after the other, as an assignment to a packed field or `memcpy` does. */
    method Put(at: nat, bytes: seq<Byte>)
      requires at + |bytes| <= writeBuffer.Length
      modifies writeBuffer
      ensures writeBuffer[..] == Store(old(writeBuffer[..]), at, bytes)
    {
      var i := 0;
      while i < |bytes|
        invariant 0 <= i <= |bytes|
        invariant forall j :: 0 <= j < writeBuffer.Length
                    ==> writeBuffer[j] == if at <= j < at + i then bytes[j - at] else old(writeBuffer[j])
      {
        writeBuffer[at + i] := bytes[i];
        i := i + 1;
      }
    }

    /** Continues a structure that starts at `from` and of which `done` has been written. */
    method Append(from: nat, at: nat, bytes: seq<Byte>, ghost before: seq<Byte>, ghost done: seq<Byte>)
      returns (ghost more: seq<Byte>)
      requires at == from + |done| && at + |bytes| <= writeBuffer.Length == |before|
      requires writeBuffer[..] == Store(before, from, done)
      modifies writeBuffer
      ensures more == done + bytes && writeBuffer[..] == Store(before, from, more)
    {
      Put(at, bytes);
      more := done + bytes;
      StoreThenStore(before, from, done, bytes);
    }

    // -------------------------------------------------------------- builders

    /** The common header of a message that starts at `at`; it takes the next transaction number. */
    method WriteHeader(at: nat, kind: Byte, length: Word16)
      requires at + 8 <= writeBuffer.Length
      modifies this`xid, writeBuffer
      ensures writeBuffer[..] == Store(old(writeBuffer[..]), at, Header(kind, length, old(xid)))
      ensures xid == NextXid(old(xid))
    {
      hide Store, U16, U32;
      ghost var b := writeBuffer[..];
      StoreNothing(b, at);
      ghost var s := Append(at, at, [4, kind], b, []);
      assert s == [4, kind];
      s := Append(at, at + 2, U16(length), b, s);
      s := Append(at, at + 4, U32(xid), b, s);
      xid := NextXid(xid);
    }

    method WriteOpenflowHello()
      requires writeBuffer.Length == BUFFER_SIZE
      modifies this`rw, this`xid, this`bytesExpected, writeBuffer
      ensures writeBuffer[..] == Store(old(writeBuffer[..]), 0, Hello(old(xid)))
      ensures xid == NextXid(old(xid)) && rw == Write && bytesExpected == |Hello(old(xid))|
    {
      hide Header, U16, U32;
      ghost var b, x := writeBuffer[..], xid;
      WriteHeader(0, HELLO, 8 + 4 + 4);
      ghost var s := Append(0, 8, U16(1), b, Header(HELLO, 16, x));
      s := Append(0, 10, U16(4 + 4), b, s);
      s := Append(0, 12, U32(16), b, s);
      rw := Write;
      bytesExpected := 8 + 4 + 4;
    }

    method RequestFeatures()
      requires writeBuffer.Length == BUFFER_SIZE
      modifies this`rw, this`ofStatus, this`xid, this`bytesExpected, writeBuffer
      ensures writeBuffer[..] == Store(old(writeBuffer[..]), 0, FeaturesRequest(old(xid)))
      ensures xid == NextXid(old(xid)) && rw == Write && ofStatus == FEATURES_REQUEST
      ensures bytesExpected == |FeaturesRequest(old(xid))|
    {
      WriteHeader(0, FEATURES_REQUEST, 8);
      ofStatus := FEATURES_REQUEST;
      bytesExpected := 8;
      rw := Write;
    }

    /** set_config: fragments are handled normally, 128 bytes of a missed packet are sent. */
    method WriteConfig()
      requires writeBuffer.Length == BUFFER_SIZE
      modifies this`rw, this`ofStatus, this`xid, this`bytesExpected, writeBuffer
      ensures writeBuffer[..] == Store(old(writeBuffer[..]), 0, SetConfig(old(xid)))
      ensures xid == NextXid(old(xid)) && rw == Write && ofStatus == SET_CONFIG
      ensures bytesExpected == |SetConfig(old(xid))|
    {
      hide Header, U16;
      ghost var b, x := writeBuffer[..], xid;
      WriteHeader(0, SET_CONFIG, 12);
      ghost var s := Append(0, 8, U16(0), b, Header(SET_CONFIG, 12, x));
      s := Append(0, 10, U16(128), b, s);
      ofStatus := SET_CONFIG;
      bytesExpected := 12;
      rw := Write;
    }

    method GetPortInfo()
      requires writeBuffer.Length == BUFFER_SIZE && ZeroFrom(writeBuffer[..], 0)
      modifies this`rw, this`ofStatus, this`xid, this`bytesExpected, writeBuffer
      ensures writeBuffer[..] == Store(old(writeBuffer[..]), 0, PortDescRequest(old(xid)))
      ensures xid == NextXid(old(xid)) && rw == Write && ofStatus == MULTIPART_REQUEST
      ensures bytesExpected == |PortDescRequest(old(xid))|
    {
      hide Header, U16, ZeroFrom, Zeros;
      ghost var b, x := writeBuffer[..], xid;
      WriteHeader(0, MULTIPART_REQUEST, 16);
      ghost var s := Append(0, 8, U16(PORT_DESC), b, Header(MULTIPART_REQUEST, 16, x));
      s := Append(0, 10, U16(0), b, s);
      ZeroSlice(b, 0, 12, 16);
      StoreThenSkip(b, 0, s, 4);
      rw := Write;
      ofStatus := MULTIPART_REQUEST;
      bytesExpected := 16;
    }

    /** send_probe_packet: a packet-out that floods a frame with the number of this switch. */
    method SendProbePacket()
      requires writeBuffer.Length == BUFFER_SIZE && ZeroFrom(writeBuffer[..], 0)
      modifies this`rw, this`ofStatus, this`xid, this`bytesExpected, writeBuffer
      ensures writeBuffer[..] == Store(old(writeBuffer[..]), 0, Probe(old(xid), socketFd))
      ensures xid == NextXid(old(xid)) && rw == Write && ofStatus == PACKET_OUT
      ensures bytesExpected == |Probe(old(xid), socketFd)|
    {
      hide Header, U16, U32, ZeroFrom, Zeros, FlowCodec.EncodeAction, ProbeFrame;
      ghost var b, x := writeBuffer[..], xid;
      var length := 24 + 16 + 14;
      WriteHeader(0, PACKET_OUT, length);
      ghost var s := Append(0, 8, U32(NO_BUFFER), b, Header(PACKET_OUT, 54, x));
      s := Append(0, 12, U32(PORT_CONTROLLER), b, s);
      s := Append(0, 16, U16(16), b, s);
      ZeroSlice(b, 0, 18, 24);
      StoreThenSkip(b, 0, s, 6);
      s := s + Zeros(6);
      s := WriteAction(0, 24, PORT_FLOOD, 0xffff, b, s);
      ProbeFrameSize(socketFd);
      s := Append(0, length - 14, ProbeFrame(socketFd), b, s);
      rw := Write;
      ofStatus := PACKET_OUT;
      bytesExpected := length;
    }

    lemma ProbeFrameSize(fd: Word16)
      ensures |ProbeFrame(fd)| == 14
    {
    }

    /** An output action in a zeroed place. */
    method WriteAction(from: nat, at: nat, port: Word32, maxLen: Word16, ghost before: seq<Byte>, ghost done: seq<Byte>)
      returns (ghost more: seq<Byte>)
      requires at == from + |done| && at + 16 <= writeBuffer.Length == |before| && ZeroFrom(before, from)
      requires writeBuffer[..] == Store(before, from, done)
      modifies writeBuffer
      ensures more == done + FlowCodec.EncodeAction(FlowCodec.Output(port, maxLen))
      ensures writeBuffer[..] == Store(before, from, more)
    {
      hide U16, U32, ZeroFrom, Zeros, FlowCodec.EncodeAction;
      ghost var s := Append(from, at, U16(0), before, done);
      s := Append(from, at + 2, U16(16), before, s);
      s := Append(from, at + 4, U32(port), before, s);
      s := Append(from, at + 8, U16(maxLen), before, s);
      ZeroSlice(before, from, at + 10, at + 16);
      StoreThenSkip(before, from, s, 6);
      more := s + Zeros(6);
      ActionBytes(done, port, maxLen);
    }

    lemma ActionBytes(done: seq<Byte>, port: Word32, maxLen: Word16)
      ensures done + U16(0) + U16(16) + U32(port) + U16(maxLen) + Zeros(6)
           == done + FlowCodec.EncodeAction(FlowCodec.Output(port, maxLen))
    {
    }

    /** change_port_behavior with `enable` 0: the port is to drop all traffic. The padding keeps what
        the buffer held before. */
    method ChangePortBehavior(port: Word32)
      requires writeBuffer.Length == BUFFER_SIZE
      requires port < connectedPorts.Length && |connectedPorts[port]| == 64
      modifies this`rw, this`ofStatus, this`xid, this`bytesExpected, writeBuffer
      ensures writeBuffer[..]
           == Store(old(writeBuffer[..]), 0,
                    PortModOver(old(writeBuffer[..]), old(xid), port, connectedPorts[port][8..14]))
      ensures xid == NextXid(old(xid)) && rw == Write && ofStatus == PORT_MOD && bytesExpected == 40
    {
      hide Header, U16, U32, Zeros, Store;
      ghost var b, x := writeBuffer[..], xid;
      var hwAddr := connectedPorts[port][8..14];
      WriteHeader(0, PORT_MOD, 40);
      ghost var s := Append(0, 8, U32(port), b, Header(PORT_MOD, 40, x));
      StoreThenKeep(b, 0, s, 4);
      s := Append(0, 16, hwAddr, b, s + b[12..16]);
      StoreThenKeep(b, 0, s, 2);
      s := Append(0, 24, U32(0x20 + 0x4), b, s + b[22..24]);
      s := Append(0, 28, U32(0x20 + 0x4), b, s);
      StoreThenKeep(b, 0, s, 8);
      rw := Write;
      ofStatus := PORT_MOD;
      bytesExpected := 40;
    }

    /** The port modification written over the bytes `b`. */
    ghost function PortModOver(b: seq<Byte>, x: Word32, port: Word32, hwAddr: seq<Byte>): (m: Message)
      requires |b| >= 40 && |hwAddr| == 6
      ensures |m| == 40
    {
      Header(PORT_MOD, 40, x) + U32(port) + b[12..16] + hwAddr + b[22..24] + U32(0x24) + U32(0x24) + b[32..40]
    }

    lemma PortModOverZeros(b: seq<Byte>, x: Word32, port: Word32, hwAddr: seq<Byte>)
      requires |b| >= 40 && ZeroFrom(b, 0) && |hwAddr| == 6
      ensures PortModOver(b, x, port, hwAddr) == ClosePort(x, port, hwAddr)
    {
      hide Header, U32, Zeros, ZeroFrom;
      ZeroSlice(b, 0, 12, 16);
      ZeroSlice(b, 0, 22, 24);
      ZeroSlice(b, 0, 32, 40);
    }

    /** make_echo_reply: the request comes back with the other type. */
    method MakeEchoReply()
      requires writeBuffer.Length == readBuffer.Length == BUFFER_SIZE && readBuffer != writeBuffer
      requires 8 <= Get16(readBuffer[..], 2) <= BUFFER_SIZE
      modifies this`rw, this`bytesRead, this`bytesExpected, writeBuffer
      ensures var request := readBuffer[..Get16(readBuffer[..], 2)];
              writeBuffer[..] == Store(old(writeBuffer[..]), 0, EchoReply(request))
      ensures rw == Write && bytesRead == 0 && bytesExpected == Get16(readBuffer[..], 2)
    {
      hide Store;
      ghost var b, r := writeBuffer[..], readBuffer[..];
      var length := readBuffer[2] as int * 0x100 + readBuffer[3] as int;
      StoreNothing(b, 0);
      ghost var s := Append(0, 0, [4, ECHO_REPLY], b, []);
      s := Append(0, 2, readBuffer[2..4], b, s);
      s := Append(0, 4, readBuffer[4..8], b, s);
      if length - 8 != 0 {
        s := Append(0, 8, readBuffer[8..length], b, s);
      }
      EchoBytes(r, length);
      assert readBuffer[2..4] == r[2..4] && readBuffer[4..8] == r[4..8] && readBuffer[8..length] == r[8..length];
      bytesExpected := length;
      bytesRead := 0;
      rw := Write;
    }

    lemma EchoBytes(r: seq<Byte>, length: nat)
      requires 8 <= length <= |r|
      ensures [] + [4, ECHO_REPLY] + r[2..4] + r[4..8] + r[8..length] == EchoReply(r[..length])
      ensures length == 8 ==> [] + [4, ECHO_REPLY] + r[2..4] + r[4..8] == EchoReply(r[..length])
    {
      assert r[..length][2..] == r[2..4] + r[4..8] + r[8..length];
      Associative([4, ECHO_REPLY], r[2..4], r[4..8]);
      Associative([4, ECHO_REPLY], r[2..4] + r[4..8], r[8..length]);
      assert [] + [4, ECHO_REPLY] == [4, ECHO_REPLY];
    }

    // -------------------------------------------------------------- flow rules

    /** The fixed fields of a flow-mod at `at`; cookie, mask, command and group are 0, the flags ask
        for removal messages, an overlap check and a reset of the counters. */
    method WriteFlowFields(at: nat, length: Word16, table: Byte, timeout: Word16, priority: Word16,
                           bufferId: Word32, outPort: Word32, ghost m: FlowCodec.FlowMod)
      requires at + 48 <= writeBuffer.Length && ZeroFrom(writeBuffer[..], at)
      requires m == FlowCodec.FlowMod(xid, 0, 0, table, 0, timeout, timeout, priority, bufferId, outPort, 0, 7,
                                      m.match_, m.instructions)
      modifies this`xid, writeBuffer
      ensures writeBuffer[..] == Store(old(writeBuffer[..]), at, FlowCodec.EncodeFixed(m, length))
      ensures xid == NextXid(old(xid))
    {
      hide U16, U32, FlowCodec.U64, FlowCodec.EncodeFixed, ZeroFrom, Zeros, Store;
      ghost var b := writeBuffer[..];
      StoreNothing(b, at);
      ghost var s := Append(at, at, [4, FLOW_MOD] + U16(length) + U32(xid), b, []);
      s := Append(at, at + 8, FlowCodec.U64(0), b, s);
      s := Append(at, at + 16, FlowCodec.U64(0), b, s);
      s := Append(at, at + 24, [table, 0] + U16(timeout) + U16(timeout) + U16(priority), b, s);
      s := Append(at, at + 32, U32(bufferId) + U32(outPort), b, s);
      s := Append(at, at + 40, U32(0) + U16(1 + 2 + 4), b, s);
      ZeroSlice(b, at, at + 46, at + 48);
      StoreThenSkip(b, at, s, 2);
      FixedBytes(m, length);
      xid := NextXid(xid);
    }

    /** The fixed part in the order in which it is written. */
    lemma FixedBytes(m: FlowCodec.FlowMod, length: Word16)
      ensures [] + ([4, FLOW_MOD] + U16(length) + U32(m.xid)) + FlowCodec.U64(m.cookie) + FlowCodec.U64(m.cookieMask)
              + ([m.table, m.command] + U16(m.idle) + U16(m.hard) + U16(m.priority))
              + (U32(m.bufferId) + U32(m.outPort))
              + (U32(m.outGroup) + U16(m.flags)) + Zeros(2)
           == FlowCodec.EncodeFixed(m, length)
    {
      hide U16, U32, FlowCodec.U64, Zeros;
      var front := ([4, FLOW_MOD] + U16(length) + U32(m.xid)) + FlowCodec.U64(m.cookie) + FlowCodec.U64(m.cookieMask)
                   + ([m.table, m.command] + U16(m.idle) + U16(m.hard) + U16(m.priority))
                   + (U32(m.bufferId) + U32(m.outPort));
      assert [] + ([4, FLOW_MOD] + U16(length) + U32(m.xid)) == [4, FLOW_MOD] + U16(length) + U32(m.xid);
      Associative(front, U32(m.outGroup) + U16(m.flags), Zeros(2));
    }

    lemma Associative(a: seq<Byte>, b: seq<Byte>, c: seq<Byte>)
      ensures a + b + c == a + (b + c)
    {
    }

    /** An apply-actions instruction with one output action in a zeroed place. */
    method WriteApplyOutput(from: nat, at: nat, port: Word32, maxLen: Word16, ghost before: seq<Byte>,
                            ghost done: seq<Byte>)
      returns (ghost more: seq<Byte>)
      requires at == from + |done| && at + 24 <= writeBuffer.Length == |before| && ZeroFrom(before, from)
      requires writeBuffer[..] == Store(before, from, done)
      modifies writeBuffer
      ensures more == done + FlowCodec.EncodeInstruction(FlowCodec.ApplyActions([FlowCodec.Output(port, maxLen)]))
      ensures writeBuffer[..] == Store(before, from, more)
    {
      hide U16, ZeroFrom, Zeros, FlowCodec.EncodeAction;
      ghost var s := Append(from, at, U16(4), before, done);
      s := Append(from, at + 2, U16(8 + 16), before, s);
      ZeroSlice(before, from, at + 4, at + 8);
      StoreThenSkip(before, from, s, 4);
      more := WriteAction(from, at + 8, port, maxLen, before, s + Zeros(4));
      ApplyOutputBytes(done, port, maxLen);
    }

    lemma ApplyOutputBytes(done: seq<Byte>, port: Word32, maxLen: Word16)
      ensures done + U16(4) + U16(24) + Zeros(4) + FlowCodec.EncodeAction(FlowCodec.Output(port, maxLen))
           == done + FlowCodec.EncodeInstruction(FlowCodec.ApplyActions([FlowCodec.Output(port, maxLen)]))
    {
      var a := FlowCodec.Output(port, maxLen);
      assert [a][1..] == [];
      assert FlowCodec.EncodeActions([a]) == FlowCodec.EncodeAction(a);
    }

    /** A match on the Ethernet destination alone: 14 bytes and two bytes of padding. */
    method WriteDestinationMatch(from: nat, at: nat, mac: seq<Byte>, ghost before: seq<Byte>, ghost done: seq<Byte>)
      returns (ghost more: seq<Byte>)
      requires at == from + |done| && at + 16 <= writeBuffer.Length == |before| && ZeroFrom(before, from) && |mac| == 6
      requires writeBuffer[..] == Store(before, from, done)
      modifies writeBuffer
      ensures FlowCodec.ValidTlvs([EthDstTlv(mac)]) && |FlowCodec.EncodeTlvs([EthDstTlv(mac)])| == 10
      ensures more == done + FlowCodec.EncodeMatch([EthDstTlv(mac)])
      ensures writeBuffer[..] == Store(before, from, more)
    {
      hide U16, U32, ZeroFrom, Zeros;
      Oxm.HeaderWords();
      ghost var s := Append(from, at, U16(1), before, done);
      s := Append(from, at + 2, U16(14), before, s);
      s := Append(from, at + 4, U32(Oxm.ETH_DST as int), before, s);
      s := Append(from, at + 8, mac, before, s);
      ZeroSlice(before, from, at + 14, at + 16);
      StoreThenSkip(before, from, s, 2);
      more := s + Zeros(2);
      DestinationMatchBytes(done, mac);
    }

    lemma DestinationMatchBytes(done: seq<Byte>, mac: seq<Byte>)
      requires |mac| == 6
      ensures FlowCodec.ValidTlvs([EthDstTlv(mac)]) && |FlowCodec.EncodeTlvs([EthDstTlv(mac)])| == 10
      ensures done + U16(1) + U16(14) + U32(0x8000_0606) + mac + Zeros(2)
           == done + FlowCodec.EncodeMatch([EthDstTlv(mac)])
    {
      OneTlv(EthDstTlv(mac));
      assert FlowCodec.EncodeTlv(EthDstTlv(mac)) == U32(0x8000_0606) + mac;
    }

    /** A match on input port and Ethernet source: 22 bytes and two bytes of padding. */
    method WriteSourceMatch(from: nat, at: nat, port: Word32, mac: seq<Byte>, ghost before: seq<Byte>,
                            ghost done: seq<Byte>)
      returns (ghost more: seq<Byte>)
      requires at == from + |done| && at + 24 <= writeBuffer.Length == |before| && ZeroFrom(before, from) && |mac| == 6
      requires writeBuffer[..] == Store(before, from, done)
      modifies writeBuffer
      ensures FlowCodec.ValidTlvs([InPortTlv(port), EthSrcTlv(mac)])
      ensures |FlowCodec.EncodeTlvs([InPortTlv(port), EthSrcTlv(mac)])| == 18
      ensures more == done + FlowCodec.EncodeMatch([InPortTlv(port), EthSrcTlv(mac)])
      ensures writeBuffer[..] == Store(before, from, more)
    {
      hide U16, U32, ZeroFrom, Zeros;
      Oxm.HeaderWords();
      ghost var s := Append(from, at, U16(1), before, done);
      s := Append(from, at + 2, U16(22), before, s);
      s := Append(from, at + 4, U32(Oxm.IN_PORT as int), before, s);
      s := Append(from, at + 8, U32(port), before, s);
      s := Append(from, at + 12, U32(Oxm.ETH_SRC as int), before, s);
      s := Append(from, at + 16, mac, before, s);
      ZeroSlice(before, from, at + 22, at + 24);
      StoreThenSkip(before, from, s, 2);
      more := s + Zeros(2);
      SourceMatchBytes(done, port, mac);
    }

    lemma SourceMatchBytes(done: seq<Byte>, port: Word32, mac: seq<Byte>)
      requires |mac| == 6
      ensures FlowCodec.ValidTlvs([InPortTlv(port), EthSrcTlv(mac)])
      ensures |FlowCodec.EncodeTlvs([InPortTlv(port), EthSrcTlv(mac)])| == 18
      ensures done + U16(1) + U16(22) + U32(0x8000_0004) + U32(port) + U32(0x8000_0806) + mac + Zeros(2)
           == done + FlowCodec.EncodeMatch([InPortTlv(port), EthSrcTlv(mac)])
    {
      TwoTlvs(InPortTlv(port), EthSrcTlv(mac));
      assert FlowCodec.EncodeTlv(InPortTlv(port)) == U32(0x8000_0004) + U32(port);
      assert FlowCodec.EncodeTlv(EthSrcTlv(mac)) == U32(0x8000_0806) + mac;
    }

    /** write_default_miss: the rule for table misses or, with `broadcastRule`, for broadcasts. */
    method WriteDefaultMiss(broadcastRule: bool)
      requires writeBuffer.Length == BUFFER_SIZE && bytesExpected + 88 <= BUFFER_SIZE
      requires ZeroFrom(writeBuffer[..], bytesExpected)
      modifies this`rw, this`ofStatus, this`xid, this`bytesExpected, writeBuffer
      ensures var rule := if broadcastRule then BroadcastRule(old(xid)) else DefaultMiss(old(xid));
              && FlowCodec.Valid(rule) && FlowCodec.Size(rule) <= 88
              && writeBuffer[..] == Store(old(writeBuffer[..]), old(bytesExpected), FlowCodec.Encode(rule))
              && bytesExpected == old(bytesExpected) + FlowCodec.Size(rule)
      ensures xid == NextXid(old(xid)) && rw == Write && ofStatus == FLOW_MOD
    {
      hide ZeroFrom, Zeros, Store, FlowCodec.EncodeFixed, FlowCodec.EncodeMatch, FlowCodec.EncodeInstruction;
      ghost var b := writeBuffer[..];
      var mod := bytesExpected;
      RulesAreValid(xid, 0, MAC_BROADCAST, 0);
      ghost var rule := if broadcastRule then BroadcastRule(xid) else DefaultMiss(xid);
      var length := if broadcastRule then 8 + 56 + RoundUp(14 - 8 + 16) else 56 + 8 + 16;
      WriteFlowFields(mod, length, if broadcastRule then 1 else 0, 0, 0, NO_BUFFER, 0, rule);
      ghost var s := FlowCodec.EncodeFixed(rule, length);
      if broadcastRule {
        s := WriteDestinationMatch(mod, mod + 48, MAC_BROADCAST, b, s);
        s := WriteApplyOutput(mod, mod + 56 + RoundUp(14) - 8, PORT_FLOOD, 0xffff, b, s);
        OneInstruction(FlowCodec.ApplyActions([FlowCodec.Output(PORT_FLOOD, 0xffff)]));
      } else {
        s := WriteEmptyMatch(mod, mod + 48, b, s);
        s := WriteApplyOutput(mod, mod + 56, PORT_CONTROLLER, 0xffff, b, s);
        OneInstruction(FlowCodec.ApplyActions([FlowCodec.Output(PORT_CONTROLLER, 0xffff)]));
      }
      assert s == FlowCodec.Encode(rule);
      rw := Write;
      ofStatus := FLOW_MOD;
      bytesExpected := bytesExpected + length;
    }

    /** A match without fields: 4 bytes and four bytes of padding. */
    method WriteEmptyMatch(from: nat, at: nat, ghost before: seq<Byte>, ghost done: seq<Byte>)
      returns (ghost more: seq<Byte>)
      requires at == from + |done| && at + 8 <= writeBuffer.Length == |before| && ZeroFrom(before, from)
      requires writeBuffer[..] == Store(before, from, done)
      modifies writeBuffer
      ensures more == done + FlowCodec.EncodeMatch([]) && writeBuffer[..] == Store(before, from, more)
    {
      hide U16, ZeroFrom, Zeros;
      ghost var s := Append(from, at, U16(1), before, done);
      s := Append(from, at + 2, U16(4), before, s);
      ZeroSlice(before, from, at + 4, at + 8);
      StoreThenSkip(before, from, s, 4);
      more := s + Zeros(4);
      assert FlowCodec.EncodeTlvs([]) == [];
      assert more == done + FlowCodec.EncodeMatch([]);
    }

    /** write_new_flow: the learned rule for the source table (0) or the destination table (1). The
        instruction of the source rule is placed from the start of the buffer, so that rule has to
        come first. */
    method WriteNewFlow(table: Byte, outPort: Word32, ghost mac: seq<Byte>, ghost buffered: Word32)
      requires table == 0 || table == 1
      requires writeBuffer.Length == readBuffer.Length == BUFFER_SIZE && readBuffer != writeBuffer
      requires bytesExpected + 88 <= BUFFER_SIZE && ZeroFrom(writeBuffer[..], bytesExpected)
      requires table == 0 ==> bytesExpected == 0
      requires 38 + RoundUp(Get16(readBuffer[..], 26)) <= BUFFER_SIZE
      requires mac == readBuffer[..][32 + RoundUp(Get16(readBuffer[..], 26))..38 + RoundUp(Get16(readBuffer[..], 26))]
      requires buffered == Get32(readBuffer[..], 8)
      modifies this`rw, this`ofStatus, this`xid, this`bytesExpected, writeBuffer
      ensures var rule := if table == 1 then DestinationRule(old(xid), outPort, mac)
                          else SourceRule(old(xid), outPort, mac, buffered);
              && FlowCodec.Valid(rule) && FlowCodec.Size(rule) <= 88
              && writeBuffer[..] == Store(old(writeBuffer[..]), old(bytesExpected), FlowCodec.Encode(rule))
              && bytesExpected == old(bytesExpected) + FlowCodec.Size(rule)
      ensures xid == NextXid(old(xid)) && rw == Write && ofStatus == FLOW_MOD
    {
      hide ZeroFrom, Zeros, Store, FlowCodec.EncodeFixed, FlowCodec.EncodeMatch, FlowCodec.EncodeInstruction;
      ghost var b := writeBuffer[..];
      var mod := bytesExpected;
      var inData := 32 + RoundUp(Get16(readBuffer[..], 26));
      var eth := readBuffer[inData..inData + 6];
      var bufferId := if table == 1 then NO_BUFFER else Get32(readBuffer[..], 8);
      RulesAreValid(xid, outPort, eth, bufferId);
      ghost var rule := if table == 1 then DestinationRule(xid, outPort, eth)
                        else SourceRule(xid, outPort, eth, bufferId);
      var length := if table == 1 then 56 + 8 + 16 + RoundUp(14) - 8 else 56 + 8 + RoundUp(22 - 8);
      WriteFlowFields(mod, length, table, 60, 1, bufferId, PORT_FLOOD, rule);
      ghost var s := FlowCodec.EncodeFixed(rule, length);
      if table == 1 {
        s := WriteDestinationMatch(mod, mod + 48, eth, b, s);
        s := WriteApplyOutput(mod, mod + 56 + RoundUp(14) - 8, outPort, 6400, b, s);
        OneInstruction(FlowCodec.ApplyActions([FlowCodec.Output(outPort, 6400)]));
      } else {
        s := WriteSourceMatch(mod, mod + 48, outPort, eth, b, s);
        s := WriteGoto(mod, 56 + RoundUp(22) - 8, 1, b, s);
        OneInstruction(FlowCodec.GotoTable(1));
      }
      assert s == FlowCodec.Encode(rule);
      rw := Write;
      ofStatus := FLOW_MOD;
      bytesExpected := bytesExpected + length;
    }

    method WriteGoto(from: nat, at: nat, table: Byte, ghost before: seq<Byte>, ghost done: seq<Byte>)
      returns (ghost more: seq<Byte>)
      requires at == from + |done| && at + 8 <= writeBuffer.Length == |before| && ZeroFrom(before, from)
      requires writeBuffer[..] == Store(before, from, done)
      modifies writeBuffer
      ensures more == done + FlowCodec.EncodeInstruction(FlowCodec.GotoTable(table))
      ensures writeBuffer[..] == Store(before, from, more)
    {
      hide U16, ZeroFrom, Zeros;
      ghost var s := Append(from, at, U16(1), before, done);
      s := Append(from, at + 2, U16(8), before, s);
      s := Append(from, at + 4, [table], before, s);
      ZeroSlice(before, from, at + 5, at + 8);
      StoreThenSkip(before, from, s, 3);
      more := s + Zeros(3);
    }

    // -------------------------------------------------------------- reactions to a message

    /** What the controller remembers of the switch. */
    ghost function PeerNow(): Peer
      reads this`xid, this`rw, connectedPorts
    {
      Peer(socketFd, xid, connectedPorts[..], rw != Disconnected)
    }

    ghost predicate Shape() {
      && readBuffer.Length == writeBuffer.Length == BUFFER_SIZE && readBuffer != writeBuffer
      && connectedPorts.Length == MAX_PORTS
    }

    /** A whole message is in the read buffer and nothing waits to be sent. */
    ghost predicate HasMessage(m: Message)
      reads this, readBuffer, writeBuffer, connectedPorts
    {
      && Shape() && PeerNow().Valid()
      && rw == Read && bytesExpected == 0 && bytesWritten == 0 && ZeroFrom(writeBuffer[..], 0)
      && 8 <= |m| <= BUFFER_SIZE && bytesRead == |m| && readBuffer[..|m|] == m && ofStatus == m[1]
    }

    /** The messages wait at the front of the write buffer, or there are none and it is zero. */
    ghost predicate Queued(ms: seq<Message>)
      reads this`rw, this`bytesExpected, writeBuffer
    {
      if ms == [] then rw != Write && ZeroFrom(writeBuffer[..], 0)
      else
        && rw == Write && bytesExpected == |Concat(ms)| <= writeBuffer.Length
        && writeBuffer[..bytesExpected] == Concat(ms)
    }

    /** Fields of a message read from the front of the read buffer. */
    lemma ReadFields(m: Message)
      requires Shape() && 8 <= |m| <= BUFFER_SIZE && readBuffer[..|m|] == m
      ensures forall at :: 0 <= at < |m| ==> readBuffer[at] == m[at]
      ensures forall at :: 0 <= at && at + 2 <= |m| ==> Get16(readBuffer[..], at) == Get16(m, at)
      ensures forall at :: 0 <= at && at + 4 <= |m| ==> Get32(readBuffer[..], at) == Get32(m, at)
      ensures forall lo, hi :: 0 <= lo <= hi <= |m| ==> readBuffer[lo..hi] == m[lo..hi]
    {
      assert forall at :: 0 <= at < |m| ==> readBuffer[at] == readBuffer[..|m|][at];
    }

    lemma QueuedOne(before: seq<Byte>, m: Message)
      requires Shape() && |before| == BUFFER_SIZE && 0 < |m| <= BUFFER_SIZE
      requires rw == Write && bytesExpected == |m| && writeBuffer[..] == Store(before, 0, m)
      ensures Queued([m])
    {
      StoredSlice(before, 0, m);
      assert Concat([m]) == m by { assert [m][..0] == []; }
      assert writeBuffer[..][..|m|] == writeBuffer[..|m|];
    }

    lemma QueuedTwo(before: seq<Byte>, m: Message, n: Message)
      requires Shape() && |before| == BUFFER_SIZE && 0 < |m| && |m| + |n| <= BUFFER_SIZE
      requires rw == Write && bytesExpected == |m| + |n| && writeBuffer[..] == Store(Store(before, 0, m), |m|, n)
      ensures Queued([m, n])
    {
      StoreThenStore(before, 0, m, n);
      StoredSlice(before, 0, m + n);
      assert Concat([m, n]) == m + n by {
        assert [m, n][..1] == [m] && [m][..0] == [];
        assert Concat([m]) == m;
      }
      assert writeBuffer[..][..|m + n|] == writeBuffer[..|m + n|];
    }

    /** get_input_port: the type macro is applied to one byte and so always accepts the first field. */
    method GetInputPort(ghost m: Message) returns (port: Word32)
      requires Shape() && 36 <= |m| <= BUFFER_SIZE && readBuffer[..|m|] == m
      ensures port == InputPort(m)
    {
      ReadFields(m);
      port := 0;
      if 0 < Get16(readBuffer[..], 26) && Oxm.Type(readBuffer[28] as bv32) == 0 {
        port := Get32(readBuffer[..], 28 + 4);
      } else {
        Oxm.TypeOfByte(readBuffer[28] as bv32);
      }
    }

    /** read_packet_in, where `closePort` is what recording a link leads to for this switch. */
    method ReadPacketIn(closePort: bool, ghost m: Message)
      requires HasMessage(m) && Usable(m, closePort) && Kind(m) == PACKET_IN
      modifies this`rw, this`ofStatus, this`xid, this`bytesExpected, writeBuffer
      ensures PeerNow() == Respond(old(PeerNow()), m, closePort).0 && Queued(Respond(old(PeerNow()), m, closePort).1)
    {
      hide ZeroFrom, Zeros, Store, Concat;
      ReadFields(m);
      ghost var p := PeerNow();
      var inputPort := GetInputPort(m);
      if readBuffer[14] == 0 {
        var length := Get16(readBuffer[..], 2);
        var totalLen := Get16(readBuffer[..], 12);
        var data := length - totalLen;
        var kind := Get16(readBuffer[..], data + 12);
        FrameField(m);
        if kind < 100 && kind != 0 {
          if closePort {
            PortModOverZeros(writeBuffer[..], p.xid, inputPort, p.ports[inputPort][8..14]);
            ChangePortBehavior(inputPort);
            QueuedOne(old(writeBuffer[..]), ClosePort(p.xid, inputPort, p.ports[inputPort][8..14]));
          }
        } else {
          LearnFlows(inputPort, m);
        }
      }
    }

    lemma FrameField(m: Message)
      requires |m| >= 36 && 14 <= Get16(m, 12) <= |m|
      ensures Get16(Frame(m), 12) == Get16(m, |m| - Get16(m, 12) + 12)
    {
    }

    /** The two rules that a packet from an unknown source adds, source table first. */
    method LearnFlows(inputPort: Word32, ghost m: Message)
      requires HasMessage(m) && Acceptable(m) && Kind(m) == PACKET_IN && AcceptablePacketIn(m) && m[14] == 0
      requires PeerNow().alive && inputPort == InputPort(m) && Neighbour(Frame(m)) == 0
      modifies this`rw, this`ofStatus, this`xid, this`bytesExpected, writeBuffer
      ensures PeerNow() == Respond(old(PeerNow()), m, false).0 && Queued(Respond(old(PeerNow()), m, false).1)
    {
      hide ZeroFrom, Zeros, Store, Concat, FlowCodec.Encode, FlowCodec.Valid, SourceRule, DestinationRule, Get32,
           Queued, Frame, Respond, Acceptable, InputPort, Neighbour, SourceMac;
      LearningResponse(PeerNow(), m);
      LearnedFields(m);
      WriteLearnedFlows(inputPort, SourceMac(m), Get32(m, 8));
    }

    /** Both rules go behind one another into the empty write buffer. */
    method WriteLearnedFlows(inputPort: Word32, ghost mac: seq<Byte>, ghost buffered: Word32)
      requires Shape() && bytesExpected == 0 && ZeroFrom(writeBuffer[..], 0) && |mac| == 6
      requires 38 + RoundUp(Get16(readBuffer[..], 26)) <= BUFFER_SIZE
      requires mac == readBuffer[..][32 + RoundUp(Get16(readBuffer[..], 26))..38 + RoundUp(Get16(readBuffer[..], 26))]
      requires buffered == Get32(readBuffer[..], 8)
      modifies this`rw, this`ofStatus, this`xid, this`bytesExpected, writeBuffer
      ensures rw == Write && xid == NextXid(NextXid(old(xid)))
      ensures FlowCodec.Valid(SourceRule(old(xid), inputPort, mac, buffered))
      ensures FlowCodec.Valid(DestinationRule(NextXid(old(xid)), inputPort, mac))
      ensures Queued([FlowCodec.Encode(SourceRule(old(xid), inputPort, mac, buffered)),
                      FlowCodec.Encode(DestinationRule(NextXid(old(xid)), inputPort, mac))])
    {
      hide ZeroFrom, Zeros, Store, Concat, FlowCodec.Encode, FlowCodec.Valid, FlowCodec.Padded, SourceRule,
           DestinationRule, Get16, Get32, Queued, NextXid, RoundUp;
      ghost var b, r, x := writeBuffer[..], readBuffer[..], xid;
      RulesAreValid(x, inputPort, mac, buffered);
      RulesAreValid(NextXid(x), inputPort, mac, 0);
      ghost var first, second := FlowCodec.Encode(SourceRule(x, inputPort, mac, buffered)),
                                 FlowCodec.Encode(DestinationRule(NextXid(x), inputPort, mac));
      WriteNewFlow(0, inputPort, mac, buffered);
      ZeroAfterStore(b, 0, first);
      assert readBuffer[..] == r;
      WriteNewFlow(1, inputPort, mac, buffered);
      QueuedTwo(b, first, second);
    }

    lemma LearnedFields(m: Message)
      requires Shape() && 36 <= |m| <= BUFFER_SIZE && readBuffer[..|m|] == m
      requires 38 + FlowCodec.Padded(Get16(m, 26)) <= |m|
      ensures var r, at := readBuffer[..], 32 + RoundUp(Get16(readBuffer[..], 26));
              && at + 6 <= BUFFER_SIZE && r[at..at + 6] == SourceMac(m) && |SourceMac(m)| == 6
              && Get32(r, 8) == Get32(m, 8)
    {
      ReadFields(m);
      var r, at := readBuffer[..], 32 + FlowCodec.Padded(Get16(m, 26));
      assert r[at..at + 6] == readBuffer[at..at + 6];
    }

    lemma LearningResponse(p: Peer, m: Message)
      requires p.Valid() && p.alive && Acceptable(m) && Kind(m) == PACKET_IN && m[14] == 0 && Neighbour(Frame(m)) == 0
      ensures FlowCodec.Valid(SourceRule(p.xid, InputPort(m), SourceMac(m), Get32(m, 8)))
      ensures FlowCodec.Valid(DestinationRule(NextXid(p.xid), InputPort(m), SourceMac(m)))
      ensures Respond(p, m, false)
           == (p.(xid := NextXid(NextXid(p.xid))),
               [FlowCodec.Encode(SourceRule(p.xid, InputPort(m), SourceMac(m), Get32(m, 8))),
                FlowCodec.Encode(DestinationRule(NextXid(p.xid), InputPort(m), SourceMac(m)))])
    {
      RulesAreValid(p.xid, InputPort(m), SourceMac(m), Get32(m, 8));
      RulesAreValid(NextXid(p.xid), InputPort(m), SourceMac(m), 0);
    }

    /** save_connected_ports: the entry of every port but the local one goes to the place of its number. */
    method SaveConnectedPorts(ghost m: Message)
      requires Shape() && 16 <= |m| <= BUFFER_SIZE && readBuffer[..|m|] == m && Get16(m, 2) == |m| && AcceptablePorts(m)
      modifies connectedPorts
      ensures connectedPorts[..] == PortsAfter(old(connectedPorts[..]), m, PortCount(m))
    {
      hide Get16, Get32;
      ReadFields(m);
      var numPorts := (Get16(readBuffer[..], 2) as int - 16) / 64;
      var i := 0;
      while i < numPorts
        invariant 0 <= i <= numPorts
        invariant connectedPorts[..] == PortsAfter(old(connectedPorts[..]), m, i)
      {
        var entry := readBuffer[16 + 64 * i..80 + 64 * i];
        assert entry == PortEntry(m, i);
        if Get32(entry, 0) != PORT_LOCAL {
          connectedPorts[Get32(entry, 0)] := entry;
        }
        i := i + 1;
      }
    }

    /** The switch statement of handle_read_socket on a complete message. */
    method Dispatch(closePort: bool, ghost m: Message)
      requires HasMessage(m) && Usable(m, closePort)
      modifies this`rw, this`ofStatus, this`xid, this`bytesRead, this`bytesExpected, writeBuffer, connectedPorts
      ensures PeerNow() == Respond(old(PeerNow()), m, closePort).0 && Queued(Respond(old(PeerNow()), m, closePort).1)
    {
      hide ZeroFrom, Zeros, Store, Concat;
      ReadFields(m);
      ghost var p, b := PeerNow(), writeBuffer[..];
      if ofStatus == ECHO_REQUEST {
        MakeEchoReply();
        QueuedOne(b, EchoReply(m));
      } else if ofStatus == FEATURES_REPLY {
        SendProbePacket();
        ProbeSize(p.xid, p.fd);
        QueuedOne(b, Probe(p.xid, p.fd));
      } else if ofStatus == PACKET_IN {
        ReadPacketIn(closePort, m);
      } else if ofStatus == MULTIPART_REPLY {
        if Get16(readBuffer[..], 8) == PORT_DESC {
          SaveConnectedPorts(m);
        }
      } else if ofStatus != HELLO && ofStatus != PORT_STATUS && ofStatus != FLOW_REMOVED {
        rw := Disconnected;
      }
    }

    lemma ProbeSize(x: Word32, fd: Word16)
      ensures |Probe(x, fd)| == 54
    {
    }

    // -------------------------------------------------------------- the connection as a whole

    /** How far the handshake is: the number of its stages that have been queued after the hello. */
    ghost function Stage(): nat
      reads this`featuresRequested, this`configSet, this`portsRequested, this`defaultFlowSet
    {
      if !featuresRequested then 0
      else if !configSet then 1
      else if !portsRequested then 2
      else if !defaultFlowSet then 3
      else 4
    }

    ghost predicate FlagsInOrder()
      reads this`featuresRequested, this`configSet, this`portsRequested, this`defaultFlowSet
    {
      (configSet ==> featuresRequested) && (portsRequested ==> configSet) && (defaultFlowSet ==> portsRequested)
    }

    /** All messages that have been queued so far. */
    ghost function Output(): seq<Message>
      requires origin.Valid() && Usables(log)
      reads this`log, this`featuresRequested, this`configSet, this`portsRequested, this`defaultFlowSet
    {
      Handshake(Stage() + 1, origin.xid) + (if Stage() == 4 then Converse(Greeted(origin), log).1 else [])
    }

    /** The last messages queued are being sent. */
    ghost predicate Writing()
      requires origin.Valid() && Usables(log) && Shape()
      reads this, writeBuffer
    {
      && 0 < bytesExpected && bytesWritten + bytesExpected <= BUFFER_SIZE
      && writeBuffer[..bytesWritten + bytesExpected] == Concat(queued) && AllFramed(queued)
      && sent + writeBuffer[bytesWritten..bytesWritten + bytesExpected] == Concat(Output())
      && received == Concat(Received(log))
    }

    /** A message is being received; everything queued has been sent and the write buffer is zero. */
    ghost predicate Reading()
      requires origin.Valid() && Usables(log) && Shape()
      reads this, readBuffer, writeBuffer
    {
      && Stage() == 4 && 0 < bytesExpected && bytesWritten == 0 && ZeroFrom(writeBuffer[..], 0)
      && bytesRead + bytesExpected <= BUFFER_SIZE
      && (if readingHeader then bytesRead + bytesExpected == 8
          else 8 <= bytesRead && bytesRead + bytesExpected == Get16(readBuffer[..], 2) && ofStatus == readBuffer[1])
      && sent == Concat(Output())
      && received == Concat(Received(log)) + readBuffer[..bytesRead]
    }

    ghost predicate Valid()
      reads this, readBuffer, writeBuffer, connectedPorts
    {
      && Shape() && origin.Valid() && origin.fd == socketFd && origin.alive && FlagsInOrder() && Usables(log)
      && (if Stage() == 4 then PeerNow() == Converse(Greeted(origin), log).0
          else
            && log == [] && rw == Write && xid == XidAfter(origin.xid, StageXids(Stage() + 1))
            && connectedPorts[..] == origin.ports)
      && (if rw == Write then Writing()
          else if rw == Read then Reading()
          else sent == Concat(Output()) && received == Concat(Received(log)))
    }

    /** The new messages have been queued behind what has been sent. */
    lemma QueueIsPending(before: seq<Message>, ms: seq<Message>)
      requires origin.Valid() && Usables(log) && Shape() && ms != [] && Queued(ms) && AllFramed(ms)
      requires bytesWritten == 0 && sent == Concat(before) && Output() == before + ms
      requires queued == ms && received == Concat(Received(log))
      ensures Writing()
    {
      ConcatAppend(before, ms);
      assert writeBuffer[0..bytesExpected] == writeBuffer[..bytesExpected];
      assert ms == [ms[0]] + ms[1..];
      ConcatFront(ms[0], ms[1..]);
      assert Framed(ms[0]);
    }

    /** The fields and buffers that setup_new_switch starts from. */
    ghost predicate Blank()
      reads this, readBuffer, writeBuffer, connectedPorts
    {
      && Shape() && origin.Valid() && PeerNow() == origin && rw == Write
      && Stage() == 0 && FlagsInOrder() && bytesWritten == 0 && writeBuffer[..] == Zeros(BUFFER_SIZE)
      && log == [] && received == [] && sent == []
    }

    /** setup_new_switch: the hello is queued. `ports` is what the switch list holds. */
    constructor (fd: Word16, xidGenerator: Word32, ports: seq<seq<Byte>>)
      requires |ports| == MAX_PORTS && forall i :: 0 <= i < |ports| ==> |ports[i]| == 64
      ensures Valid() && rw == Write && Stage() == 0 && ofStatus == HELLO
      ensures readingHeader && bytesRead == 0 && bytesExpected == 16
      ensures origin == Peer(fd, xidGenerator, ports, true) && log == [] && received == [] && sent == []
      ensures writeBuffer[..] == Store(Zeros(BUFFER_SIZE), 0, Hello(xidGenerator))
      ensures readBuffer[..] == Zeros(BUFFER_SIZE)
      ensures socketFd == fd && fresh(readBuffer) && fresh(writeBuffer) && fresh(connectedPorts)
    {
      rw, ofStatus, socketFd := Write, HELLO, fd;
      bytesRead, bytesWritten, bytesExpected, readingHeader := 0, 0, 8, true;
      xid := xidGenerator;
      readBuffer := new Byte[BUFFER_SIZE](i => 0);
      writeBuffer := new Byte[BUFFER_SIZE](i => 0);
      connectedPorts := new seq<Byte>[MAX_PORTS](i requires 0 <= i < MAX_PORTS => ports[i]);
      portsRequested, configSet, featuresRequested, defaultFlowSet := false, false, false, false;
      origin := Peer(fd, xidGenerator, ports, true);
      log, received, sent, queued := [], [], [], [];
      new;
      hide Valid, Blank, Hello, Store, Header, Concat, Handshake, Converse, Zeros;
      AllZero();
      IsBlank();
      QueueHello();
    }

    lemma AllZero()
      requires readBuffer.Length == writeBuffer.Length == BUFFER_SIZE
      requires forall i :: 0 <= i < BUFFER_SIZE ==> readBuffer[i] == 0 && writeBuffer[i] == 0
      ensures readBuffer[..] == Zeros(BUFFER_SIZE) && writeBuffer[..] == Zeros(BUFFER_SIZE)
    {
    }

    lemma IsBlank()
      requires Shape() && origin == Peer(socketFd, xid, connectedPorts[..], true) && rw == Write && Stage() == 0
      requires !portsRequested && !configSet && !featuresRequested && !defaultFlowSet
      requires bytesWritten == 0 && writeBuffer[..] == Zeros(BUFFER_SIZE)
      requires log == [] && received == [] && sent == []
      requires forall i :: 0 <= i < MAX_PORTS ==> |connectedPorts[i]| == 64
      ensures Blank()
    {
    }

    method QueueHello()
      requires Blank()
      modifies this`rw, this`xid, this`bytesExpected, this`queued, writeBuffer
      ensures Valid() && rw == Write && Stage() == 0 && bytesExpected == 16
      ensures writeBuffer[..] == Store(old(writeBuffer[..]), 0, Hello(old(xid)))
    {
      hide Concat, Handshake, Hello, Converse, Store, Queued, Writing;
      ghost var b, x := writeBuffer[..], xid;
      WriteOpenflowHello();
      queued := [Hello(x)];
      SmallMessagesHeaded(x, 0);
      MessageSizes(x);
      QueuedOne(b, Hello(x));
      FirstStage(x);
      ConcatNothing();
      QueueIsPending([], [Hello(x)]);
    }

    lemma ConcatNothing()
      ensures Concat([]) == [] && Received([]) == []
    {
    }

    lemma MessageSizes(x: Word32)
      ensures |Hello(x)| == 16 && |FeaturesRequest(x)| == 8 && |SetConfig(x)| == 12 && |PortDescRequest(x)| == 16
    {
    }

    lemma FirstStage(x: Word32)
      ensures Handshake(1, x) == [Hello(x)] && XidAfter(x, StageXids(1)) == NextXid(x)
    {
      assert XidAfter(x, 0) == x;
      HandshakeStep(1, x);
      NoHandshake(x);
    }

    // -------------------------------------------------------------- writing

    /** Everything queued has been sent and the write buffer is empty. */
    ghost predicate Flushed()
      reads this, writeBuffer, connectedPorts
    {
      && Shape() && origin.Valid() && origin.fd == socketFd && origin.alive && FlagsInOrder() && Usables(log)
      && (if Stage() == 4 then PeerNow() == Converse(Greeted(origin), log).0
          else log == [] && xid == XidAfter(origin.xid, StageXids(Stage() + 1)) && connectedPorts[..] == origin.ports)
      && rw == Write && bytesExpected == 0 && bytesWritten == 0 && ZeroFrom(writeBuffer[..], 0)
      && sent == Concat(Output()) && received == Concat(Received(log))
    }

    /** write_to: `send` takes the first `n` of the waiting bytes. */
    method WriteTo(n: nat)
      requires Valid() && rw == Write && 1 <= n <= bytesExpected
      modifies this`bytesWritten, this`bytesExpected, this`sent
      ensures sent == old(sent) + writeBuffer[old(bytesWritten)..old(bytesWritten) + n]
      ensures bytesWritten == old(bytesWritten) + n && bytesExpected == old(bytesExpected) - n
      ensures bytesExpected > 0 ==> Valid()
      ensures bytesExpected == 0 ==> sent == Concat(Output())
    {
      hide Concat, Handshake, Converse, Usables;
      ghost var lo, mid, hi := bytesWritten, bytesWritten + n, bytesWritten + bytesExpected;
      assert writeBuffer[lo..hi] == writeBuffer[lo..mid] + writeBuffer[mid..hi];
      sent := sent + writeBuffer[lo..mid];
      assert old(sent) + (writeBuffer[lo..mid] + writeBuffer[mid..hi]) == sent + writeBuffer[mid..hi];
      bytesWritten := bytesWritten + n;
      bytesExpected := bytesExpected - n;
    }

    method ClearWriteBuffer()
      modifies writeBuffer
      ensures ZeroFrom(writeBuffer[..], 0)
    {
      var i := 0;
      while i < writeBuffer.Length
        invariant 0 <= i <= writeBuffer.Length
        invariant forall j :: 0 <= j < i ==> writeBuffer[j] == 0
      {
        writeBuffer[i] := 0;
        i := i + 1;
      }
      assert writeBuffer[..][0..] == Zeros(writeBuffer.Length);
    }

    /** handle_write_socket when `send` accepts `n` bytes. When all has been sent, the next stage of
        the handshake is queued or, after the last stage, the next message is awaited. */
    method HandleWriteSocket(n: nat)
      requires Valid() && rw == Write && 1 <= n <= bytesExpected
      modifies this, writeBuffer
      ensures Valid() && log == old(log) && received == old(received)
      ensures sent == old(sent) + old(writeBuffer[bytesWritten..bytesWritten + n]) && |sent| == |old(sent)| + n
      ensures Stage() == if n < old(bytesExpected) || old(Stage()) == 4 then old(Stage()) else old(Stage()) + 1
      ensures rw == if n == old(bytesExpected) && old(Stage()) == 4 then Read else Write
      ensures n < old(bytesExpected) ==> bytesExpected == old(bytesExpected) - n
      ensures rw == Read ==> readingHeader && bytesRead == 0 && bytesExpected == 8
    {
      hide Concat, Handshake, Converse, Usables, Zeros, ZeroFrom;
      if bytesExpected != 0 {
        WriteTo(n);
        if bytesExpected != 0 {
          return;
        }
      }
      bytesWritten := 0;
      ClearWriteBuffer();
      NextStage();
    }

    /** The writable events of handle_all_sockets, where `send` takes at most `sizes(i) + 1` bytes in
        event `i`: however small the pieces, the connection comes to read, with the handshake over and
        everything sent that the log calls for. */
    method SendAll(sizes: nat -> nat)
      requires Valid() && rw == Write
      modifies this, writeBuffer
      ensures Valid() && rw == Read && log == old(log) && received == old(received)
      ensures old(sent) <= sent == Concat(Sent(origin, log))
    {
      hide Valid;
      var event := 0;
      while rw == Write
        invariant Valid() && rw != Disconnected && log == old(log) && received == old(received) && old(sent) <= sent
        decreases if rw == Write then 1 else 0, 4 - Stage(), bytesExpected
      {
        SomethingWaits();
        HandleWriteSocket(if sizes(event) < bytesExpected then sizes(event) + 1 else bytesExpected);
        event := event + 1;
      }
      NothingIsOwed();
    }

    lemma SomethingWaits()
      requires Valid() && rw == Write
      ensures bytesExpected >= 1
    {
    }

    method NextStage()
      requires Flushed()
      modifies this, writeBuffer
      ensures Valid() && log == old(log) && received == old(received) && sent == old(sent)
      ensures Stage() == if old(Stage()) == 4 then 4 else old(Stage()) + 1
      ensures rw == if old(Stage()) == 4 then Read else Write
      ensures rw == Read ==> readingHeader && bytesRead == 0 && bytesExpected == 8
    {
      hide Flushed, Valid;
      if !featuresRequested {
        QueueFeatures();
      } else if !configSet {
        QueueConfig();
      } else if !portsRequested {
        QueuePorts();
      } else if !defaultFlowSet {
        QueueDefaultFlows();
      } else {
        AwaitMessage();
      }
    }

    /** The messages of stage `k` follow those of the stages before it. */
    lemma StageQueued(k: nat, x: Word32)
      requires k <= 4
      ensures Handshake(k + 1, x) == Handshake(k, x) + StageMessages(k, XidAfter(x, StageXids(k)))
      ensures NextXid(XidAfter(x, k)) == XidAfter(x, k + 1)
      ensures NextXid(NextXid(XidAfter(x, k))) == XidAfter(x, k + 2)
      ensures AllFramed(StageMessages(k, XidAfter(x, StageXids(k))))
    {
      HandshakeStep(k + 1, x);
      XidSteps(x, k, 1);
      XidSteps(x, k, 2);
      XidSteps(XidAfter(x, k), 0, 0);
      StageInOrder(k, XidAfter(x, StageXids(k)));
      InOrderIsFramed(StageMessages(k, XidAfter(x, StageXids(k))), XidAfter(x, StageXids(k)),
                      XidAfter(XidAfter(x, StageXids(k)), StageXids(k + 1) - StageXids(k)));
    }

    method QueueFeatures()
      requires Flushed() && Stage() == 0
      modifies this`rw, this`ofStatus, this`xid, this`bytesExpected, this`featuresRequested, this`queued, writeBuffer
      ensures Valid() && Stage() == 1 && rw == Write
    {
      hide Concat, Handshake, Converse, Usables, Zeros, ZeroFrom, Store, FeaturesRequest, XidAfter, NextXid, Writing,
           Queued;
      ghost var b, x := writeBuffer[..], xid;
      StageQueued(1, origin.xid);
      RequestFeatures();
      featuresRequested := true;
      queued := [FeaturesRequest(x)];
      assert Framed(queued[0]);
      MessageSizes(x);
      QueuedOne(b, FeaturesRequest(x));
      ghost var before := Handshake(1, origin.xid);
      assert before + [] == before;
      QueueIsPending(before, queued);
    }

    method QueueConfig()
      requires Flushed() && Stage() == 1
      modifies this`rw, this`ofStatus, this`xid, this`bytesExpected, this`configSet, this`queued, writeBuffer
      ensures Valid() && Stage() == 2 && rw == Write
    {
      hide Concat, Handshake, Converse, Usables, Zeros, ZeroFrom, Store, SetConfig, XidAfter, NextXid, Writing, Queued;
      ghost var b, x := writeBuffer[..], xid;
      StageQueued(2, origin.xid);
      WriteConfig();
      configSet := true;
      queued := [SetConfig(x)];
      assert Framed(queued[0]);
      MessageSizes(x);
      QueuedOne(b, SetConfig(x));
      ghost var before := Handshake(2, origin.xid);
      assert before + [] == before;
      QueueIsPending(before, queued);
    }

    method QueuePorts()
      requires Flushed() && Stage() == 2
      modifies this`rw, this`ofStatus, this`xid, this`bytesExpected, this`portsRequested, this`queued, writeBuffer
      ensures Valid() && Stage() == 3 && rw == Write
    {
      hide Concat, Handshake, Converse, Usables, Zeros, ZeroFrom, Store, PortDescRequest, XidAfter, NextXid, Writing,
           Queued;
      ghost var b, x := writeBuffer[..], xid;
      StageQueued(3, origin.xid);
      GetPortInfo();
      portsRequested := true;
      queued := [PortDescRequest(x)];
      assert Framed(queued[0]);
      MessageSizes(x);
      QueuedOne(b, PortDescRequest(x));
      ghost var before := Handshake(3, origin.xid);
      assert before + [] == before;
      QueueIsPending(before, queued);
    }

    method QueueDefaultFlows()
      requires Flushed() && Stage() == 3
      modifies this`rw, this`ofStatus, this`xid, this`bytesExpected, this`defaultFlowSet, this`queued, writeBuffer
      ensures Valid() && Stage() == 4 && rw == Write
    {
      hide Concat, Handshake, Converse, Usables, Zeros, ZeroFrom, DefaultMiss, BroadcastRule, XidAfter, NextXid,
           Writing, Queued, FlowCodec.Encode, FlowCodec.Valid;
      ghost var x := xid;
      NoConversation(Greeted(origin));
      StageQueued(4, origin.xid);
      hide StageMessages;
      WriteDefaultFlows();
      defaultFlowSet := true;
      ghost var before := Handshake(4, origin.xid);
      queued := StageMessages(4, x);
      assert before + [] == before;
      assert Handshake(5, origin.xid) + [] == before + queued;
      RulesAreQueued(x);
      QueueIsPending(before, queued);
    }

    lemma RulesAreQueued(x: Word32)
      ensures StageMessages(4, x) != []
    {
    }

    /** write_flow_mod for the default flows: the rule for misses, and behind it that for broadcasts. */
    method WriteDefaultFlows()
      requires Shape() && bytesExpected == 0 && ZeroFrom(writeBuffer[..], 0)
      modifies this`rw, this`ofStatus, this`xid, this`bytesExpected, writeBuffer
      ensures rw == Write && Queued(StageMessages(4, old(xid))) && xid == NextXid(NextXid(old(xid)))
    {
      hide Concat, Zeros, ZeroFrom, Store, DefaultMiss, BroadcastRule, NextXid, Queued, FlowCodec.Encode,
           FlowCodec.Valid;
      ghost var b, x := writeBuffer[..], xid;
      RulesAreValid(x, 0, MAC_BROADCAST, 0);
      RulesAreValid(NextXid(x), 0, MAC_BROADCAST, 0);
      ghost var first, second := FlowCodec.Encode(DefaultMiss(x)), FlowCodec.Encode(BroadcastRule(NextXid(x)));
      TwoRules(x);
      hide StageMessages, RoundUp, FlowCodec.Size;
      WriteDefaultMiss(false);
      ZeroAfterStore(b, 0, first);
      WriteDefaultMiss(true);
      QueuedTwo(b, first, second);
    }

    lemma TwoRules(x: Word32)
      ensures FlowCodec.Valid(DefaultMiss(x)) && FlowCodec.Valid(BroadcastRule(NextXid(x)))
      ensures StageMessages(4, x) == [FlowCodec.Encode(DefaultMiss(x)), FlowCodec.Encode(BroadcastRule(NextXid(x)))]
    {
      RulesAreValid(x, 0, MAC_BROADCAST, 0);
      RulesAreValid(NextXid(x), 0, MAC_BROADCAST, 0);
      hide FlowCodec.Encode, FlowCodec.Valid, DefaultMiss, BroadcastRule, NextXid;
    }

    lemma NoConversation(p: Peer)
      requires p.Valid()
      ensures Usables([]) && Converse(p, []) == (p, [])
    {
    }

    method AwaitMessage()
      requires Flushed() && Stage() == 4
      modifies this`rw, this`readingHeader, this`bytesRead, this`bytesWritten, this`bytesExpected
      ensures Valid() && Stage() == 4 && rw == Read && readingHeader && bytesRead == 0 && bytesExpected == 8
    {
      hide Concat, Handshake, Usables, Zeros, ZeroFrom;
      rw := Read;
      bytesExpected := 8;
      readingHeader := true;
      bytesRead := 0;
      bytesWritten := 0;
      assert received + readBuffer[..0] == received;
    }

    // -------------------------------------------------------------- reading

    /** How far reading is. */
    function Progress(): View
      reads this`rw, this`bytesRead, this`bytesExpected, this`readingHeader, readBuffer
    {
      View.View(rw, readingHeader, bytesRead, bytesExpected,
                if bytesRead <= readBuffer.Length then readBuffer[..bytesRead] else [], 0, [], [], [])
    }

    function Arrived(chunk: seq<Byte>): seq<Byte>
      requires bytesRead <= readBuffer.Length
      reads this`rw, this`bytesRead, this`bytesExpected, this`readingHeader, readBuffer
    {
      Progress().Arrived(chunk)
    }

    predicate Completes(chunk: seq<Byte>)
      requires bytesRead <= readBuffer.Length
      reads this`rw, this`bytesRead, this`bytesExpected, this`readingHeader, readBuffer
    {
      Progress().Completes(chunk)
    }

    function Reported(chunk: seq<Byte>): Option<Link>
      requires bytesRead <= readBuffer.Length && Readable(chunk, true)
      reads this`rw, this`bytesRead, this`bytesExpected, this`readingHeader, readBuffer
    {
      Progress().Reported(chunk)
    }

    predicate Readable(chunk: seq<Byte>, closePort: bool)
      requires bytesRead <= readBuffer.Length
      reads this`rw, this`bytesRead, this`bytesExpected, this`readingHeader, readBuffer
    {
      Progress().Readable(chunk, closePort)
    }

    /** read_from: `recv` delivers `chunk`. */
    method ReadFrom(chunk: seq<Byte>)
      requires Shape() && bytesRead + bytesExpected <= BUFFER_SIZE && |chunk| <= bytesExpected
      modifies this`bytesRead, this`bytesExpected, this`received, readBuffer
      ensures bytesRead == old(bytesRead) + |chunk| && bytesExpected == old(bytesExpected) - |chunk|
      ensures readBuffer[..bytesRead] == old(Arrived(chunk)) && received == old(received) + chunk
    {
      var i := 0;
      while i < |chunk|
        invariant 0 <= i <= |chunk|
        invariant bytesRead == old(bytesRead) && bytesExpected == old(bytesExpected) && received == old(received)
        invariant forall j :: 0 <= j < bytesRead ==> readBuffer[j] == old(readBuffer[j])
        invariant forall j :: 0 <= j < i ==> readBuffer[bytesRead + j] == chunk[j]
      {
        readBuffer[bytesRead + i] := chunk[i];
        i := i + 1;
      }
      bytesRead := bytesRead + |chunk|;
      bytesExpected := bytesExpected - |chunk|;
      received := received + chunk;
    }

    /** The state between the events of a connection that is reading, while `bytesExpected` may be 0. */
    ghost predicate Idle()
      reads this, readBuffer, writeBuffer, connectedPorts
    {
      && Shape() && origin.Valid() && origin.fd == socketFd && origin.alive && FlagsInOrder() && Usables(log)
      && Stage() == 4 && PeerNow() == Converse(Greeted(origin), log).0
      && rw == Read && bytesWritten == 0 && ZeroFrom(writeBuffer[..], 0) && sent == Concat(Output())
      && bytesRead <= BUFFER_SIZE
      && received == Concat(Received(log)) + readBuffer[..bytesRead]
    }

    /** What an order leaves behind that has met the connection between two messages. */
    ghost predicate Ordered()
      reads this`rw, this`readingHeader, this`bytesRead, this`bytesExpected, readBuffer
    {
      Progress().Ordered()
    }

    /** handle_read_socket when `recv` delivers `chunk`. On a connection that reads, a message is
        dispatched exactly when it is complete. A connection that an order has just set to writing loses
        the bytes and part of the order; eight bytes that then pass for a message are not followed further. */
    method HandleReadSocket(chunk: seq<Byte>, closePort: bool)
      requires Valid() && (rw == Read || Ordered()) && 1 <= |chunk| <= bytesExpected
      requires rw == Read ==> Readable(chunk, closePort)
      modifies this, readBuffer, writeBuffer, connectedPorts
      ensures received == old(received) + chunk && sent == old(sent) && Stage() == old(Stage())
      ensures Valid() <==> old(rw) == Read
      ensures log == if old(rw == Read && Completes(chunk)) then old(log) + [Exchange(old(Arrived(chunk)), closePort)]
                     else old(log)
      ensures old(rw == Read && Completes(chunk)) && rw == Read ==> readBuffer[..] == Zeros(BUFFER_SIZE)
    {
      hide Concat, Handshake, Converse, Usables, Zeros, ZeroFrom, Usable, Received, Get32, Writing, AllFramed, Queued,
           HasMessage;
      ghost var b, ordered := Arrived(chunk), rw == Write;
      if bytesExpected != 0 {
        Receive(chunk);
        if bytesExpected != 0 {
          return;
        }
      }
      assert b == readBuffer[..bytesRead];
      if readingHeader {
        TakeHeader(b);
        if ordered {
          InputIsLost();
        }
        if bytesExpected != 0 || rw == Write {
          return;
        }
      }
      HandleMessage(closePort, b);
    }

    /** The header tells the type and how much more there is to read. */
    method TakeHeader(ghost b: seq<Byte>)
      requires Shape() && readingHeader && bytesExpected == 0 && 8 <= |b| <= BUFFER_SIZE && readBuffer[..|b|] == b
      requires rw == Read ==> Idle() && bytesRead == 8 == |b| && 8 <= Get16(b, 2) <= BUFFER_SIZE
      modifies this`ofStatus, this`bytesExpected, this`readingHeader
      ensures !readingHeader && ofStatus == b[1]
      ensures rw == Read ==> Idle() && bytesExpected == Get16(b, 2) - 8 && (bytesExpected > 0 ==> Valid())
    {
      hide Concat, Handshake, Converse, Usables, Zeros, ZeroFrom, Usable, Received, Get32, Writing, AllFramed, Queued,
           HasMessage;
      HeaderFieldsRead(b);
      ofStatus := readBuffer[1];
      bytesExpected := (Get16(readBuffer[..], 2) as int + 0x1_0000 - 8) % 0x1_0000;
      readingHeader := false;
    }

    method Receive(chunk: seq<Byte>)
      requires Valid() && (rw == Read || Ordered()) && 1 <= |chunk| <= bytesExpected
      modifies this`bytesRead, this`bytesExpected, this`received, readBuffer
      ensures bytesExpected == old(bytesExpected) - |chunk| && bytesRead == old(bytesRead) + |chunk| <= BUFFER_SIZE
      ensures readBuffer[..bytesRead] == old(Arrived(chunk)) && received == old(received) + chunk
      ensures rw == Read ==> Idle() && bytesRead + bytesExpected <= BUFFER_SIZE
      ensures rw == Read && bytesExpected > 0 ==> Valid()
      ensures !readingHeader ==> 8 <= bytesRead && bytesRead + bytesExpected == Get16(readBuffer[..], 2)
      ensures !readingHeader ==> ofStatus == readBuffer[1]
      ensures rw == Read && readingHeader ==> bytesRead + bytesExpected == 8
      ensures rw == Write ==> !Valid() && |Concat(Received(log))| < |received|
    {
      hide Concat, Handshake, Converse, Usables, Zeros, ZeroFrom, Received;
      if rw == Read {
        TakeChunk(chunk);
      } else {
        ReadFrom(chunk);
        InputIsLost();
      }
    }

    /** Input that no message accounts for, on a connection that does not read. */
    lemma InputIsLost()
      requires rw == Write && |Concat(Received(log))| < |received|
      ensures !Valid()
    {
      hide Concat, Received;
    }

    lemma HeaderFieldsRead(b: seq<Byte>)
      requires Shape() && 8 <= |b| <= BUFFER_SIZE && readBuffer[..|b|] == b
      ensures Get16(readBuffer[..], 2) == Get16(b, 2) && readBuffer[1] == b[1]
    {
      assert forall at :: 0 <= at < |b| ==> readBuffer[at] == readBuffer[..|b|][at];
    }

    method TakeChunk(chunk: seq<Byte>)
      requires Valid() && rw == Read && 1 <= |chunk| <= bytesExpected
      modifies this`bytesRead, this`bytesExpected, this`received, readBuffer
      ensures bytesExpected == old(bytesExpected) - |chunk| && bytesRead == old(bytesRead) + |chunk| <= BUFFER_SIZE
      ensures readBuffer[..bytesRead] == old(Arrived(chunk)) && received == old(received) + chunk
      ensures Idle() && bytesRead + bytesExpected <= BUFFER_SIZE
      ensures bytesExpected > 0 ==> Valid()
      ensures !readingHeader ==> 8 <= bytesRead && bytesRead + bytesExpected == Get16(readBuffer[..], 2)
      ensures !readingHeader ==> ofStatus == readBuffer[1]
      ensures readingHeader ==> bytesRead + bytesExpected == 8
    {
      hide Concat, Handshake, Converse, Usables, Zeros, ZeroFrom, Get32, Writing, AllFramed, Queued, HasMessage;
      ghost var before := readBuffer[..bytesRead];
      if !readingHeader {
        HeaderFieldsRead(before);
      }
      ReadFrom(chunk);
      assert readBuffer[..bytesRead][..|before|] == before;
      assert readBuffer[..|before|] == before;
      if !readingHeader {
        HeaderFieldsRead(before);
      }
      assert Concat(Received(log)) + before + chunk == Concat(Received(log)) + (before + chunk);
    }

    /** The message in the read buffer is dispatched; what it calls for is queued, or the next
        message is awaited. */
    method HandleMessage(closePort: bool, ghost m: Message)
      requires Idle() && bytesExpected == 0 && m == readBuffer[..bytesRead] && |m| >= 8 && ofStatus == m[1]
      requires Usable(m, closePort)
      modifies this, readBuffer, writeBuffer, connectedPorts
      ensures Valid() && received == old(received) && sent == old(sent) && Stage() == old(Stage())
      ensures log == old(log) + [Exchange(m, closePort)]
      ensures rw == Read ==> readBuffer[..] == Zeros(BUFFER_SIZE)
    {
      hide Concat, Handshake, Converse, Usables, Zeros, ZeroFrom, Usable, Queued, Respond, Received, AllFramed,
           HasMessage;
      Reaction(closePort, m);
      ghost var before, r := Output(), Respond(PeerNow(), m, closePort);
      Dispatch(closePort, m);
      log := log + [Exchange(m, closePort)];
      queued := r.1;
      FinishMessage(before);
    }

    /** What the conversation calls for once the message in the read buffer is complete. */
    lemma Reaction(closePort: bool, m: Message)
      requires Idle() && bytesExpected == 0 && m == readBuffer[..bytesRead] && |m| >= 8 && ofStatus == m[1]
      requires Usable(m, closePort)
      ensures HasMessage(m) && Usables(log + [Exchange(m, closePort)])
      ensures var r := Respond(PeerNow(), m, closePort);
              && AllFramed(r.1) && Converse(Greeted(origin), log + [Exchange(m, closePort)]).0 == r.0
              && Handshake(5, origin.xid) + Converse(Greeted(origin), log + [Exchange(m, closePort)]).1
                 == Output() + r.1
      ensures Concat(Received(log + [Exchange(m, closePort)])) == received
    {
      hide Concat, Handshake, Converse, Usables, Zeros, ZeroFrom, Usable, Respond;
      ConversePeerValid(log);
      Extended(log, Exchange(m, closePort));
      RespondInOrder(PeerNow(), m, closePort);
      InOrderIsFramed(Respond(PeerNow(), m, closePort).1, PeerNow().xid, Respond(PeerNow(), m, closePort).0.xid);
    }

    /** The end of handle_read_socket: unless something is to be written, the next header is awaited. */
    method FinishMessage(ghost before: seq<Message>)
      requires Shape() && origin.Valid() && origin.fd == socketFd && origin.alive && FlagsInOrder() && Usables(log)
      requires Stage() == 4 && PeerNow() == Converse(Greeted(origin), log).0 && bytesWritten == 0
      requires received == Concat(Received(log)) && sent == Concat(before) && Output() == before + queued
      requires Queued(queued) && AllFramed(queued)
      modifies this`bytesExpected, this`readingHeader, this`bytesRead, readBuffer
      ensures Valid()
      ensures rw == Read ==> readBuffer[..] == Zeros(BUFFER_SIZE)
    {
      hide Concat, Handshake, Converse, Usables, Zeros, ZeroFrom, Queued;
      QueuedCases(queued);
      if rw == Read {
        bytesExpected := 8;
        readingHeader := true;
        bytesRead := 0;
        ClearReadBuffer();
        assert before + [] == before;
        assert received == Concat(Received(log)) + readBuffer[..0];
      } else if rw == Write {
        QueueIsPending(before, queued);
      } else {
        assert before + [] == before;
      }
    }

    method ClearReadBuffer()
      modifies readBuffer
      ensures readBuffer[..] == Zeros(readBuffer.Length)
    {
      var i := 0;
      while i < readBuffer.Length
        invariant 0 <= i <= readBuffer.Length
        invariant forall j :: 0 <= j < i ==> readBuffer[j] == 0
      {
        readBuffer[i] := 0;
        i := i + 1;
      }
    }

    lemma ConversePeerValid(l: seq<Exchange>)
      requires origin.Valid() && Usables(l)
      ensures Converse(Greeted(origin), l).0.Valid()
    {
    }

    lemma QueuedCases(ms: seq<Message>)
      requires Queued(ms)
      ensures ms == [] ==> rw != Write && ZeroFrom(writeBuffer[..], 0)
      ensures ms != [] ==> rw == Write
    {
    }

    /** One more exchange: the log stays usable and the conversation goes on by one reaction. */
    lemma Extended(l: seq<Exchange>, e: Exchange)
      requires origin.Valid() && Usables(l) && UsableExchange(e)
      ensures var longer := l + [e];
              var before := Converse(Greeted(origin), l);
              && Usables(longer)
              && Converse(Greeted(origin), longer).0 == React(before.0, e).0
              && Handshake(5, origin.xid) + Converse(Greeted(origin), longer).1
                 == (Handshake(5, origin.xid) + before.1) + React(before.0, e).1
              && Received(longer) == Received(l) + (if e.Exchange? then [e.message] else [])
              && Concat(Received(longer)) == Concat(Received(l)) + (if e.Exchange? then e.message else [])
    {
      hide UsableExchange, React, Handshake;
      var longer := l + [e];
      var p := Greeted(origin);
      assert longer[..|longer| - 1] == l;
      ReceivedExtended(l, e);
      AppendedInOrder(Handshake(5, origin.xid), Converse(p, l).1, React(Converse(p, l).0, e).1);
    }

    lemma ReceivedExtended(l: seq<Exchange>, e: Exchange)
      ensures Received(l + [e]) == Received(l) + (if e.Exchange? then [e.message] else [])
      ensures Concat(Received(l + [e])) == Concat(Received(l)) + (if e.Exchange? then e.message else [])
    {
      assert (l + [e])[..|l|] == l;
      assert Received(l) + [] == Received(l);
      assert e.Exchange? ==> Received(l + [e])[..|Received(l)|] == Received(l);
    }

    lemma AppendedInOrder(a: seq<Message>, b: seq<Message>, c: seq<Message>)
      ensures a + (b + c) == a + b + c
    {
    }

    // -------------------------------------------------------------- as others see it

    ghost function Seen(): View
      reads this, readBuffer
    {
      Progress().(stage := Stage(), log := log, received := received, sent := sent)
    }

    // -------------------------------------------------------------- orders from other connections

    /** change_port_behavior for this switch while another connection is being handled. Its own effect
        leaves the streams as the protocol wants them exactly when the order meets the connection between
        two messages: bytes of a header or a body already read, or messages still to be sent, are lost,
        and a connection that was given up is set to writing again. */
    method ObeyOrder(port: Word32)
      requires Valid() && port < MAX_PORTS
      modifies this`rw, this`ofStatus, this`xid, this`bytesExpected, this`log, this`queued, writeBuffer
      ensures log == old(log) + [Order(port)] && received == old(received) && sent == old(sent)
      ensures rw == Write && ofStatus == PORT_MOD && bytesExpected == 40 && xid == NextXid(old(xid))
      ensures Valid() <==> old(rw) == Read && old(bytesRead) == 0
      ensures Valid() ==> Ordered()
    {
      hide Valid;
      if rw == Read && bytesRead == 0 {
        ObeyBetweenMessages(port);
      } else if rw == Disconnected {
        Revive(port);
      } else {
        SpoilTransfer(port);
      }
    }

    method Revive(port: Word32)
      requires Valid() && rw == Disconnected && port < MAX_PORTS
      modifies this`rw, this`ofStatus, this`xid, this`bytesExpected, this`log, this`queued, writeBuffer
      ensures log == old(log) + [Order(port)] && received == old(received) && sent == old(sent)
      ensures rw == Write && ofStatus == PORT_MOD && bytesExpected == 40 && xid == NextXid(old(xid))
      ensures !Valid()
    {
      hide Concat, Handshake, Converse, Usables, Zeros, ZeroFrom, Queued, Store, ClosePort, PortModOver, Received;
      Extended(log, Order(port));
      ConversePeerValid(log);
      ChangePortBehavior(port);
      log := log + [Order(port)];
    }

    method ObeyBetweenMessages(port: Word32)
      requires Valid() && rw == Read && bytesRead == 0 && port < MAX_PORTS
      modifies this`rw, this`ofStatus, this`xid, this`bytesExpected, this`log, this`queued, writeBuffer
      ensures log == old(log) + [Order(port)] && received == old(received) && sent == old(sent)
      ensures rw == Write && ofStatus == PORT_MOD && bytesExpected == 40 && xid == NextXid(old(xid))
      ensures Valid() && Ordered()
    {
      hide Concat, Handshake, Converse, Usables, Zeros, ZeroFrom, Queued, Store, ClosePort, PortModOver, Writing,
           Received, NextXid, Get16;
      ghost var b, before, x, hwAddr := writeBuffer[..], Output(), xid, connectedPorts[port][8..14];
      Extended(log, Order(port));
      ConversePeerValid(log);
      PortModOverZeros(b, x, port, hwAddr);
      ClosePortHeaded(x, port, hwAddr);
      ChangePortBehavior(port);
      log := log + [Order(port)];
      queued := [ClosePort(x, port, hwAddr)];
      QueuedOne(b, ClosePort(x, port, hwAddr));
      QueueIsPending(before, queued);
    }

    method SpoilTransfer(port: Word32)
      requires Valid() && rw != Disconnected && (rw == Write || bytesRead > 0) && port < MAX_PORTS
      modifies this`rw, this`ofStatus, this`xid, this`bytesExpected, this`log, this`queued, writeBuffer
      ensures log == old(log) + [Order(port)] && received == old(received) && sent == old(sent)
      ensures rw == Write && ofStatus == PORT_MOD && bytesExpected == 40 && xid == NextXid(old(xid))
      ensures !Valid()
    {
      hide Concat, Handshake, Converse, Usables, Zeros, ZeroFrom, Queued, Store, ClosePort, PortModOver, Valid,
           Received, React;
      SpoiledBefore(port);
      ghost var before, m := Output(), ClosePort(xid, port, connectedPorts[port][8..14]);
      ChangePortBehavior(port);
      log := log + [Order(port)];
      queued := [m];
      Spoiled(before, m);
    }

    /** What is lost when an order meets a transfer. */
    lemma SpoiledBefore(port: Word32)
      requires Valid() && rw != Disconnected && (rw == Write || bytesRead > 0) && port < MAX_PORTS
      ensures writeBuffer.Length == BUFFER_SIZE && port < connectedPorts.Length && |connectedPorts[port]| == 64
      ensures |ClosePort(xid, port, connectedPorts[port][8..14])| == 40
      ensures origin.Valid() && Usables(log) && Usables(log + [Order(port)])
      ensures |sent| < |Concat(Output())| || |Concat(Received(log + [Order(port)]))| < |received|
      ensures Stage() == 4 ==> Handshake(5, origin.xid) + Converse(Greeted(origin), log + [Order(port)]).1
                               == Output() + [ClosePort(xid, port, connectedPorts[port][8..14])]
    {
      hide Concat, Handshake, Converse, Usables, Zeros, ZeroFrom, ClosePort;
      Extended(log, Order(port));
      ConversePeerValid(log);
      ClosePortSize(xid, port, connectedPorts[port][8..14]);
    }

    lemma ClosePortSize(x: Word32, port: Word32, hwAddr: seq<Byte>)
      requires |hwAddr| == 6
      ensures |ClosePort(x, port, hwAddr)| == 40
    {
    }

    /** With received bytes forgotten or waiting bytes overwritten, the streams no longer fit. */
    lemma Spoiled(before: seq<Message>, m: Message)
      requires rw == Write && bytesExpected == |m| && log != [] && origin.Valid() && Usables(log)
      requires Stage() == 4 ==> Output() == before + [m]
      requires |sent| < |Concat(before)| || |Concat(Received(log))| < |received|
      ensures !Valid()
    {
      hide Concat, Handshake, Converse;
      OneMore(before, m);
    }

    lemma OneMore(before: seq<Message>, m: Message)
      ensures Concat(before + [m]) == Concat(before) + m
    {
      assert (before + [m])[..|before|] == before;
    }

    // -------------------------------------------------------------- what the invariant says of a whole run

    /** Between events a reading connection has handled exactly the complete messages it has received,
        each once and in order, and has sent everything they call for. */
    lemma NothingIsOwed()
      requires Valid() && rw == Read
      ensures Parse(received) == Parsed(Received(log), readBuffer[..bytesRead])
      ensures sent == Concat(Sent(origin, log))
    {
      var rest := readBuffer[..bytesRead];
      if !readingHeader {
        HeaderFieldsRead(rest);
      }
      ReceivedAreFramed(log);
      ParseIsUnique(Received(log), rest);
    }

    /** At any time, what has been sent is a prefix of what the whole input stream calls for. */
    lemma SentIsPrefix(whole: seq<Byte>, outcomes: nat -> Outcome)
      requires Valid() && received <= whole
      requires log <= Timeline(Received(log), outcomes) && Usables(Timeline(Parse(whole).messages, outcomes))
      ensures sent <= Concat(Sent(origin, Timeline(Parse(whole).messages, outcomes)))
    {
      hide Converse, Handshake, Concat, ZeroFrom, Get16;
      ReceivedAreFramed(log);
      ReceivedIsWhole(whole);
      var part := received[|Concat(Received(log))|..];
      ChunkingIndependence(origin, log, part, whole, outcomes);
      SentIsCalledFor();
    }

    /** What has been sent is a beginning of what the log calls for, so its length tells what it is. */
    lemma SentIsCalledFor()
      requires Valid()
      ensures origin.Valid() && Usables(log) && sent <= Concat(Sent(origin, log))
    {
      hide Converse, Handshake, Concat, ZeroFrom, Get16;
      OutputIsPrefix();
      PrefixOfConcat(Output(), Sent(origin, log));
      assert sent <= Concat(Output());
    }

    lemma ReceivedIsWhole(whole: seq<Byte>)
      requires Valid() && received <= whole
      ensures Concat(Received(log)) <= received
      ensures Concat(Received(log)) + received[|Concat(Received(log))|..] <= whole
    {
      hide Concat;
    }

    lemma OutputIsPrefix()
      requires origin.Valid() && Usables(log)
      ensures Output() <= Sent(origin, log)
    {
      HandshakePrefix(Stage() + 1, origin.xid);
    }

    lemma {:induction false} HandshakePrefix(k: nat, x: Word32)
      requires k <= 5
      ensures Handshake(k, x) <= Handshake(5, x)
      decreases 5 - k
    {
      if k < 5 {
        HandshakePrefix(k + 1, x);
        HandshakeStep(k + 1, x);
      }
    }
  }
}
