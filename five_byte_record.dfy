/**
 * Bytes 2 to 4 of the five-byte record shared by the 1D and 2D spike
 * files: the polarity in the top bit of byte 2 and a 23-bit big-endian
 * timestamp in microseconds below it.
 */
module FiveByteRecord {
  import opened Bits

  /** Byte 2 as written: `np.uint8(((t >> 16) & 0x7F) | (p << 7))`. */
  function PolarityTimeByte(p: nat, t: nat): Byte
  {
    U8(BitOr(BitAnd(Shr(t, 16), 0x7F), Shl(p, 7)))
  }

  /** Byte 3 as written: `np.uint8((t >> 8) & 0xFF)`. */
  function TimeMidByte(t: nat): Byte
  {
    U8(BitAnd(Shr(t, 8), 0xFF))
  }

  /** Byte 4 as written: `np.uint8(t & 0xFF)`. */
  function TimeLowByte(t: nat): Byte
  {
    U8(BitAnd(t, 0xFF))
  }

  /** The polarity as read: `b2 >> 7`. */
  function Polarity(b2: Byte): nat
  {
    Shr(b2, 7)
  }

  /** The timestamp as read: `((b2 << 16) | (b3 << 8) | b4) & 0x7FFFFF`. */
  function Timestamp(b2: Byte, b3: Byte, b4: Byte): nat
  {
    BitAnd(BitOr(BitOr(Shl(b2, 16), Shl(b3, 8)), b4), 0x7FFFFF)
  }

  /** What the three written bytes hold: bits 16-22 of t under bit 0 of p, then bits 8-15 and 0-7 of t. */
  lemma PackPolarityTime(p: nat, t: nat)
    ensures PolarityTimeByte(p, t) == t / 0x1_0000 % 128 + 128 * (p % 2)
    ensures TimeMidByte(t) == t / 256 % 256 && TimeLowByte(t) == t % 256
  {
    Pow2Values();
    ShrBytes(t);
    ShlMul(p, 7);
    var m := t / 0x1_0000 % 128;
    LowMask(t / 0x1_0000, 7);
    OrDisjoint(p, m, 7);
    assert p * 128 + m == (p / 2) * 256 + (128 * (p % 2) + m);
    DivModUnique(p * 128 + m, 256, p / 2, 128 * (p % 2) + m);
    MaskedByte(t, 8);
    MaskedByte(t, 0);
  }

  /** What the reader takes from three bytes: the top bit of b2, and the 23 bits below it. */
  lemma UnpackPolarityTime(b2: Byte, b3: Byte, b4: Byte)
    ensures Polarity(b2) == b2 / 128
    ensures Timestamp(b2, b3, b4) == (b2 % 128) * 0x1_0000 + b3 * 256 + b4
  {
    Pow2Values();
    ShrBytes(b2);
    var v := b2 * 0x1_0000 + b3 * 256 + b4;
    Join24(b2, b3, b4);
    LowMask(v, 23);
    Split23(v);
    Digits24(b2, b3, b4);
  }

  /** Written then read, the polarity keeps its low bit and the timestamp its low 23 bits. */
  lemma PolarityTimeRoundTrip(p: nat, t: nat)
    ensures Polarity(PolarityTimeByte(p, t)) == p % 2
    ensures Timestamp(PolarityTimeByte(p, t), TimeMidByte(t), TimeLowByte(t)) == t % 0x80_0000
  {
    var b2 := PolarityTimeByte(p, t);
    PackPolarityTime(p, t);
    UnpackPolarityTime(b2, TimeMidByte(t), TimeLowByte(t));
    DivModUnique(b2, 128, p % 2, t / 0x1_0000 % 128);
    Split23(t);
  }

  /** The arithmetic of reading back: the bytes a reader's p and t stand for are the bytes read. */
  lemma RepackDigits(b2: Byte, b3: Byte, b4: Byte, p: nat, t: nat)
    requires p == b2 / 128 && t == (b2 % 128) * 0x1_0000 + b3 * 256 + b4
    ensures t / 0x1_0000 % 128 + 128 * (p % 2) == b2
    ensures t / 256 % 256 == b3 && t % 256 == b4
  {
    var hi: Byte := b2 % 128;
    Digits24(hi, b3, b4);
    SmallMod(hi, 128);
    SmallMod(p, 2);
  }

  /** Read then written, any three bytes come back unchanged. */
  lemma PolarityTimeReadBack(b2: Byte, b3: Byte, b4: Byte)
    ensures var p, t := Polarity(b2), Timestamp(b2, b3, b4);
      PolarityTimeByte(p, t) == b2 && TimeMidByte(t) == b3 && TimeLowByte(t) == b4
  {
    var p, t := Polarity(b2), Timestamp(b2, b3, b4);
    UnpackPolarityTime(b2, b3, b4);
    PackPolarityTime(p, t);
    RepackDigits(b2, b3, b4, p, t);
  }
}
