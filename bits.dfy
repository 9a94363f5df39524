/**
 * Integer bit operations on non-negative integers, as Python evaluates
 * `<<`, `>>`, `&`, `|` on the non-negative integers the codecs work with,
 * and the `np.uint8` cast that keeps the low eight bits of a value.
 */
module Bits {

  /** One byte: what `np.uint8(...)` produces and what a `bytearray` holds. */
  type Byte = b: int | 0 <= b < 256

  function Pow2(k: nat): (r: nat)
    ensures r > 0
  {
    if k == 0 then 1 else 2 * Pow2(k - 1)
  }

  /** `a << k`, one bit at a time. */
  function Shl(a: nat, k: nat): nat
  {
    if k == 0 then a else 2 * Shl(a, k - 1)
  }

  /** `a >> k`, one bit at a time. */
  function Shr(a: nat, k: nat): nat
  {
    if k == 0 then a else Shr(a, k - 1) / 2
  }

  /** `a & b`, bit by bit from the least significant bit. */
  function BitAnd(a: nat, b: nat): nat
  {
    if a == 0 || b == 0 then 0
    else 2 * BitAnd(a / 2, b / 2) + (if a % 2 == 1 && b % 2 == 1 then 1 else 0)
  }

  /** `a | b`, bit by bit from the least significant bit. */
  function BitOr(a: nat, b: nat): nat
  {
    if a == 0 then b
    else if b == 0 then a
    else 2 * BitOr(a / 2, b / 2) + (if a % 2 == 1 || b % 2 == 1 then 1 else 0)
  }

  /** `np.uint8(v)` on an integer array: the value modulo 256. */
  function U8(v: nat): Byte
  {
    v % 256
  }

  /** Shifting left by k multiplies by 2^k. */
  lemma {:induction false} ShlMul(a: nat, k: nat)
    ensures Shl(a, k) == a * Pow2(k)
  {
    if k > 0 {
      ShlMul(a, k - 1);
      assert a * Pow2(k) == 2 * (a * Pow2(k - 1));
    }
  }

  /** Shifting right by k divides by 2^k, rounding down. */
  lemma {:induction false} ShrDiv(a: nat, k: nat)
    ensures Shr(a, k) == a / Pow2(k)
  {
    if k > 0 {
      ShrDiv(a, k - 1);
      ModMul(a, Pow2(k - 1), 2);
      assert Pow2(k) == Pow2(k - 1) * 2;
    }
  }

  lemma Pow2Values()
    ensures Pow2(4) == 16 && Pow2(7) == 128 && Pow2(8) == 256
    ensures Pow2(16) == 0x1_0000 && Pow2(23) == 0x80_0000 && Pow2(24) == 0x100_0000
  {
    assert Pow2(4) == 16;
    assert Pow2(8) == 256;
    assert Pow2(16) == 0x1_0000 by { Pow2Add(8, 8); }
    assert Pow2(24) == 0x100_0000 by { Pow2Add(16, 8); }
  }

  lemma {:induction false} Pow2Add(j: nat, k: nat)
    ensures Pow2(j + k) == Pow2(j) * Pow2(k)
  {
    if k > 0 {
      Pow2Add(j, k - 1);
      assert Pow2(j + k) == 2 * Pow2(j + k - 1);
    }
  }

  // ---------------------------------------------------------------------
  // Division facts used by the bit lemmas

  lemma DivModUnique(n: int, d: int, q: int, r: int)
    requires d > 0 && 0 <= r < d && n == q * d + r
    ensures n / d == q && n % d == r
  {
    var q', r' := n / d, n % d;
    assert n == q' * d + r' && 0 <= r' < d;
    if q' > q {
      assert q' * d >= (q + 1) * d by { MulLe(q + 1, q', d); }
    } else if q' < q {
      assert q * d >= (q' + 1) * d by { MulLe(q' + 1, q, d); }
    }
  }

  lemma MulLe(a: int, b: int, c: int)
    requires a <= b && c >= 0
    ensures a * c <= b * c
  {
  }

  lemma MulAddBound(o: nat, n: nat, last: nat, x: nat)
    requires o < n && x < last
    ensures o * last + x < n * last
  {
    MulLe(o, n - 1, last);
  }

  lemma DivBound(k: nat, n: nat, last: nat)
    requires k < n * last
    ensures last > 0 && k / last < n
  {
    if last > 0 && k / last >= n {
      MulLe(n, k / last, last);
    }
  }

  /** Splitting a remainder modulo `d * m` into its two digits. */
  lemma ModMul(a: nat, d: nat, m: nat)
    requires d > 0 && m > 0
    ensures a % (d * m) == d * ((a / d) % m) + a % d
    ensures a / d / m == a / (d * m)
  {
    var q, s := (a / d) / m, (a / d) % m;
    assert a / d == q * m + s;
    assert a == d * (a / d) + a % d;
    assert a == (q * m + s) * d + a % d;
    assert a == q * (d * m) + (d * s + a % d);
    assert d * s <= d * (m - 1) by { MulLe(s, m - 1, d); }
    DivModUnique(a, d * m, q, d * s + a % d);
  }

  // ---------------------------------------------------------------------
  // Masks and disjoint ors

  /** Masking with `2^k - 1` (0xFF, 0x7F, 0x7FFFFF, ...) keeps the low k bits. */
  lemma {:induction false} LowMask(a: nat, k: nat)
    ensures BitAnd(a, Pow2(k) - 1) == a % Pow2(k)
  {
    if k > 0 && a != 0 {
      var p := Pow2(k - 1);
      assert Pow2(k) == 2 * p;
      LowMaskStep(a, p);
      LowMask(a / 2, k - 1);
      ModMul(a, 2, p);
    } else if k == 0 {
      assert Pow2(k) - 1 == 0;
      assert BitAnd(a, 0) == 0;
    } else {
      assert BitAnd(0, Pow2(k) - 1) == 0;
    }
  }

  lemma LowMaskStep(a: nat, p: nat)
    requires a != 0 && p > 0
    ensures BitAnd(a, 2 * p - 1) == 2 * BitAnd(a / 2, p - 1) + a % 2
  {
    var mask := 2 * p - 1;
    assert mask / 2 == p - 1 && mask % 2 == 1;
  }

  /** Masking with 0xFF00 keeps the second-lowest byte, in place. */
  lemma MaskFF00(v: nat)
    ensures BitAnd(v, 0xFF00) == 256 * (v / 256 % 256)
  {
    var a1, a2, a3, a4 := v / 2, v / 4, v / 8, v / 16;
    var a5, a6, a7, a8 := v / 32, v / 64, v / 128, v / 256;
    assert a1 / 2 == a2 && a2 / 2 == a3 && a3 / 2 == a4 && a4 / 2 == a5;
    assert a5 / 2 == a6 && a6 / 2 == a7 && a7 / 2 == a8;
    calc {
      BitAnd(v, 0xFF00);
      { MaskHalves(v, 0x7F80); }
      2 * BitAnd(a1, 0x7F80);
      { MaskHalves(a1, 0x3FC0); }
      4 * BitAnd(a2, 0x3FC0);
      { MaskHalves(a2, 0x1FE0); }
      8 * BitAnd(a3, 0x1FE0);
      { MaskHalves(a3, 0xFF0); }
      16 * BitAnd(a4, 0xFF0);
      { MaskHalves(a4, 0x7F8); }
      32 * BitAnd(a5, 0x7F8);
      { MaskHalves(a5, 0x3FC); }
      64 * BitAnd(a6, 0x3FC);
      { MaskHalves(a6, 0x1FE); }
      128 * BitAnd(a7, 0x1FE);
      { MaskHalves(a7, 0xFF); }
      256 * BitAnd(a8, 0xFF);
      { Pow2Values(); LowMask(a8, 8); }
      256 * (a8 % 256);
    }
  }

  /** An even mask drops the lowest bit: `a & (2h) == ((a >> 1) & h) << 1`. */
  lemma MaskHalves(a: nat, half: nat)
    ensures BitAnd(a, 2 * half) == 2 * BitAnd(a / 2, half)
  {
    if a != 0 && half != 0 {
      assert (2 * half) / 2 == half && (2 * half) % 2 == 0;
    }
  }

  /** Or-ing a value below `2^k` into `a << k` is addition, in either order. */
  lemma {:induction false} OrDisjoint(a: nat, b: nat, k: nat)
    requires b < Pow2(k)
    ensures BitOr(a * Pow2(k), b) == a * Pow2(k) + b
    ensures BitOr(b, a * Pow2(k)) == a * Pow2(k) + b
  {
    if k > 0 && a != 0 && b != 0 {
      var p := Pow2(k - 1);
      assert a * Pow2(k) == 2 * (a * p);
      assert (a * Pow2(k)) / 2 == a * p && (a * Pow2(k)) % 2 == 0;
      OrDisjoint(a, b / 2, k - 1);
    }
  }

  // ---------------------------------------------------------------------
  // Byte-level corollaries used by every codec

  /** `(hi << 8) | lo` joins two bytes big-endian. */
  lemma Join16(hi: nat, lo: Byte)
    ensures BitOr(Shl(hi, 8), lo) == hi * 256 + lo
  {
    Pow2Values();
    ShlMul(hi, 8);
    OrDisjoint(hi, lo, 8);
  }

  /** `(a << 16) | (b << 8) | c` joins three bytes big-endian. */
  lemma Join24(a: nat, b: Byte, c: Byte)
    ensures BitOr(BitOr(Shl(a, 16), Shl(b, 8)), c) == a * 0x1_0000 + b * 256 + c
  {
    Pow2Values();
    ShlMul(a, 16);
    ShlMul(b, 8);
    OrDisjoint(a, b * 256, 16);
    assert a * 0x1_0000 + b * 256 == (a * 256 + b) * 256;
    OrDisjoint(a * 256 + b, c, 8);
  }

  /** The low 16 bits of v are its two low bytes. */
  lemma Split16(v: nat)
    ensures v % 0x1_0000 == (v / 256 % 256) * 256 + v % 256
  {
    ModMul(v, 256, 256);
  }

  /** The low 24 bits of v are its three low bytes. */
  lemma Split24(v: nat)
    ensures v % 0x100_0000 == (v / 0x1_0000 % 256) * 0x1_0000 + (v / 256 % 256) * 256 + v % 256
  {
    var a := v / 256;
    ModMul(v, 256, 0x1_0000);
    ModMul(a, 256, 256);
    ModMul(v, 256, 256);
    assert v % 0x100_0000 == 256 * (a % 0x1_0000) + v % 256;
    assert a % 0x1_0000 == 256 * (a / 256 % 256) + a % 256;
    assert a / 256 == v / 0x1_0000;
  }

  /** The low 23 bits of v: seven bits of its third byte and its two low bytes. */
  lemma Split23(v: nat)
    ensures v % 0x80_0000 == (v / 0x1_0000 % 128) * 0x1_0000 + (v / 256 % 256) * 256 + v % 256
  {
    ModMul(v, 256, 0x8000);
    ModMul(v / 256, 256, 128);
  }

  /** The two bytes of `hi * 256 + lo` read back. */
  lemma Digits16(hi: nat, lo: Byte)
    ensures (hi * 256 + lo) / 256 == hi && (hi * 256 + lo) % 256 == lo
  {
    DivModUnique(hi * 256 + lo, 256, hi, lo);
  }

  /** The three bytes of `a * 2^16 + b * 256 + c` read back. */
  lemma Digits24(a: nat, b: Byte, c: Byte)
    ensures var v := a * 0x1_0000 + b * 256 + c;
      v / 0x1_0000 == a && v / 256 % 256 == b && v % 256 == c
  {
    var v := a * 0x1_0000 + b * 256 + c;
    assert v == (a * 256 + b) * 256 + c;
    Digits16(a * 256 + b, c);
    Digits16(a, b);
    ModMul(v, 256, 256);
  }

  /** `np.uint8((v >> k) & 0xFF)`: the byte of v that starts at bit k. */
  lemma MaskedByte(v: nat, k: nat)
    ensures U8(BitAnd(Shr(v, k), 0xFF)) == Shr(v, k) % 256
  {
    Pow2Values();
    LowMask(Shr(v, k), 8);
  }

  /** The right shifts the codecs use, as divisions. */
  lemma ShrBytes(v: nat)
    ensures Shr(v, 0) == v && Shr(v, 4) == v / 16 && Shr(v, 7) == v / 128
    ensures Shr(v, 8) == v / 256 && Shr(v, 16) == v / 0x1_0000
  {
    Pow2Values();
    ShrDiv(v, 4);
    ShrDiv(v, 7);
    ShrDiv(v, 8);
    ShrDiv(v, 16);
  }

  /** The left shifts the codecs use, as multiplications. */
  lemma ShlBytes(v: nat)
    ensures Shl(v, 4) == v * 16 && Shl(v, 7) == v * 128
    ensures Shl(v, 8) == v * 256 && Shl(v, 16) == v * 0x1_0000
  {
    Pow2Values();
    ShlMul(v, 4);
    ShlMul(v, 7);
    ShlMul(v, 8);
    ShlMul(v, 16);
  }

  /** A value below the modulus is its own remainder. */
  lemma SmallMod(v: nat, m: nat)
    requires v < m
    ensures v % m == v
  {
  }

  /** A position splits into a record index and a field offset. */
  lemma RecordSplit(k: nat, size: nat)
    requires size > 0
    ensures k == size * (k / size) + k % size && k % size < size
  {
  }
}
