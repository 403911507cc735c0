/** The OXM header macros of openflow.h on 32-bit words. */
module Oxm {
  function Header(oxmClass: bv32, field: bv32, hasMask: bv32, length: bv32): bv32 {
    (oxmClass << 16) | (field << 9) | (hasMask << 8) | length
  }

  function HeaderW(oxmClass: bv32, field: bv32, length: bv32): bv32 {
    Header(oxmClass, field, 1, length * 2)
  }

  function Class(h: bv32): bv32 {
    h >> 16
  }

  function Field(h: bv32): bv32 {
    (h >> 9) & 0x7f
  }

  function Type(h: bv32): bv32 {
    (h >> 9) & 0x7f_ffff
  }

  function HasMask(h: bv32): bv32 {
    (h >> 8) & 1
  }

  function Length(h: bv32): bv32 {
    h & 0xff
  }

  function MakeWild(h: bv32): bv32 {
    HeaderW(Class(h), Field(h), Length(h))
  }

  predicate InRange(oxmClass: bv32, field: bv32, hasMask: bv32, length: bv32) {
    oxmClass < 0x1_0000 && field < 0x80 && hasMask < 2 && length < 0x100
  }

  /** Unpacking inverts packing on every value that fits its field. */
  lemma UnpackOfPack(oxmClass: bv32, field: bv32, hasMask: bv32, length: bv32)
    requires InRange(oxmClass, field, hasMask, length)
    ensures var h := Header(oxmClass, field, hasMask, length);
            Class(h) == oxmClass && Field(h) == field && HasMask(h) == hasMask && Length(h) == length
  {
    ClassOfPack(oxmClass, field, hasMask, length);
    FieldOfPack(oxmClass, field, hasMask, length);
    MaskOfPack(oxmClass, field, hasMask, length);
    LengthOfPack(oxmClass, field, hasMask, length);
  }

  lemma ClassOfPack(oxmClass: bv32, field: bv32, hasMask: bv32, length: bv32)
    requires InRange(oxmClass, field, hasMask, length)
    ensures Class(Header(oxmClass, field, hasMask, length)) == oxmClass
  {
  }

  lemma FieldOfPack(oxmClass: bv32, field: bv32, hasMask: bv32, length: bv32)
    requires InRange(oxmClass, field, hasMask, length)
    ensures Field(Header(oxmClass, field, hasMask, length)) == field
  {
  }

  lemma MaskOfPack(oxmClass: bv32, field: bv32, hasMask: bv32, length: bv32)
    requires InRange(oxmClass, field, hasMask, length)
    ensures HasMask(Header(oxmClass, field, hasMask, length)) == hasMask
  {
  }

  lemma LengthOfPack(oxmClass: bv32, field: bv32, hasMask: bv32, length: bv32)
    requires InRange(oxmClass, field, hasMask, length)
    ensures Length(Header(oxmClass, field, hasMask, length)) == length
  {
  }

  /** Packing inverts unpacking on every word. */
  lemma PackOfUnpack(h: bv32)
    ensures Header(Class(h), Field(h), HasMask(h), Length(h)) == h
  {
  }

  /** A wildcarded header keeps class and field; its length is doubled exactly below 128. */
  lemma WildHeader(h: bv32)
    ensures var w := MakeWild(h);
            && Class(w) == Class(h) && Field(w) == Field(h) && HasMask(w) == 1
            && (Length(w) == Length(h) * 2 <==> Length(h) < 128)
  {
  }

  /** Applied to a single byte, the type macro is 0, which is the type of IN_PORT. */
  lemma TypeOfByte(b: bv32)
    requires b < 0x100
    ensures Type(b) == 0
  {
  }

  const IN_PORT: bv32 := Header(0x8000, 0, 0, 4)
  const ETH_DST: bv32 := Header(0x8000, 3, 0, 6)
  const ETH_SRC: bv32 := Header(0x8000, 4, 0, 6)

  /** The header words that the flow rules use. */
  lemma HeaderWords()
    ensures IN_PORT == 0x8000_0004 && ETH_DST == 0x8000_0606 && ETH_SRC == 0x8000_0806
    ensures IN_PORT as int == 0x8000_0004 && ETH_DST as int == 0x8000_0606 && ETH_SRC as int == 0x8000_0806
  {
  }
}
