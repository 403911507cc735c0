/** Bytes, big-endian fields and in-place stores into a byte buffer. */
module Bytes {
  type Byte = b: int | 0 <= b < 0x100
  type Word16 = w: int | 0 <= w < 0x1_0000
  type Word32 = w: int | 0 <= w < 0x1_0000_0000

  /** The two bytes that `htons` leaves in memory. */
  function U16(w: Word16): (s: seq<Byte>)
    ensures |s| == 2
  {
    [w / 0x100, w % 0x100]
  }

  /** The four bytes that `htonl` leaves in memory. */
  function U32(w: Word32): (s: seq<Byte>)
    ensures |s| == 4
  {
    U16(w / 0x1_0000) + U16(w % 0x1_0000)
  }

  /** `ntohs` of the field at offset `at`. */
  function Get16(s: seq<Byte>, at: nat): Word16
    requires at + 2 <= |s|
  {
    s[at] as int * 0x100 + s[at + 1]
  }

  /** `ntohl` of the field at offset `at`. */
  function Get32(s: seq<Byte>, at: nat): Word32
    requires at + 4 <= |s|
  {
    Get16(s, at) as int * 0x1_0000 + Get16(s, at + 2)
  }

  function Zeros(n: nat): (s: seq<Byte>)
    ensures |s| == n
    ensures forall i :: 0 <= i < n ==> s[i] == 0
  {
    seq(n, i => 0)
  }

  /** Buffer `s` after `bytes` have been stored at offset `at`. */
  function Store(s: seq<Byte>, at: nat, bytes: seq<Byte>): (r: seq<Byte>)
    requires at + |bytes| <= |s|
    ensures |r| == |s|
  {
    s[..at] + bytes + s[at + |bytes|..]
  }

  lemma Get16OfU16(w: Word16)
    ensures Get16(U16(w), 0) == w
  {
  }

  lemma Get32OfU32(w: Word32)
    ensures Get32(U32(w), 0) == w
  {
    assert Get16(U32(w), 0) == w / 0x1_0000;
  }

  /** A big-endian field determines its bytes. */
  lemma U32OfGet32(s: seq<Byte>)
    requires |s| == 4
    ensures U32(Get32(s, 0)) == s
  {
  }

  lemma U16OfGet16(s: seq<Byte>)
    requires |s| == 2
    ensures U16(Get16(s, 0)) == s
  {
  }
}
