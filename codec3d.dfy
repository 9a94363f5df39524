/**
 * The three-dimensional spike file: seven bytes per event, documented as a
 * 12-bit x, a 12-bit y, an 8-bit channel and a 24-bit timestamp in
 * microseconds, big-endian (`read3Dspikes` / `encode3Dspikes`).
 *
 * In the writer's byte 1, `((x << 4) & 0xFF) | (y >> 8) & 0xFF00`, Python's
 * `&` binds tighter than `|`, so the y term is `(y >> 8) & 0xFF00`, whose low
 * byte is always zero: byte 1 carries x's low nibble and never y's high
 * nibble, and only the low eight bits of y survive. The model keeps that
 * behaviour.
 */
module Codec3D {
  import opened Bits
  import opened EventColumns
  import opened ByteArrays
  import opened SpikeEvent

  /** Byte 0 as written: `np.uint8(x >> 4)`. */
  function XHighByte(x: nat): Byte
  {
    U8(Shr(x, 4))
  }

  /** Byte 1 as written: `np.uint8(((x << 4) & 0xFF) | (y >> 8) & 0xFF00)`. */
  function XYByte(x: nat, y: nat): Byte
  {
    U8(BitOr(BitAnd(Shl(x, 4), 0xFF), BitAnd(Shr(y, 8), 0xFF00)))
  }

  /** Byte 2 as written: `np.uint8(y & 0xFF)`. */
  function YLowByte(y: nat): Byte
  {
    U8(BitAnd(y, 0xFF))
  }

  /** Byte 3 as written: `np.uint8(p)`. */
  function ChannelByte(p: nat): Byte
  {
    U8(p)
  }

  /** Bytes 4 to 6 as written: `np.uint8((t >> 16) & 0xFF)`, `np.uint8((t >> 8) & 0xFF)`, `np.uint8(t & 0xFF)`. */
  function TimeByte(t: nat, j: nat): Byte
    requires j < 3
  {
    match j
    case 0 => U8(BitAnd(Shr(t, 16), 0xFF))
    case 1 => U8(BitAnd(Shr(t, 8), 0xFF))
    case _ => U8(BitAnd(t, 0xFF))
  }

  /** x as read: `(b0 << 4) | (b1 >> 4)`. */
  function XOf(b0: Byte, b1: Byte): nat
  {
    BitOr(Shl(b0, 4), Shr(b1, 4))
  }

  /** y as read: `b2 | ((b1 & 0x0F) << 8)`. */
  function YOf(b1: Byte, b2: Byte): nat
  {
    BitOr(b2, Shl(BitAnd(b1, 0x0F), 8))
  }

  /** t as read: `(b4 << 16) | (b5 << 8) | b6`. */
  function TimeOf(b4: Byte, b5: Byte, b6: Byte): nat
  {
    BitOr(BitOr(Shl(b4, 16), Shl(b5, 8)), b6)
  }

  // ---------------------------------------------------------------------
  // One field at a time

  /** Byte 0 holds bits 4-11 of x. */
  lemma XHighByteValue(x: nat)
    ensures XHighByte(x) == x / 16 % 256
  {
    ShrBytes(x);
  }

  /** `(x << 4) & 0xFF`: x's low nibble, moved to the high half of a byte. */
  lemma LowNibbleShifted(x: nat)
    ensures BitAnd(Shl(x, 4), 0xFF) == (x % 16) * 16
  {
    Pow2Values();
    ShlBytes(x);
    LowMask(x * 16, 8);
    DivModUnique(x * 16, 256, x / 16, (x % 16) * 16);
  }

  /** `(y >> 8) & 0xFF00`: a multiple of 256. */
  lemma HighTermOfY(y: nat)
    ensures BitAnd(Shr(y, 8), 0xFF00) == 256 * (y / 256 / 256 % 256)
  {
    ShrBytes(y);
    MaskFF00(y / 256);
  }

  /** Or-ing a multiple of 256 into a byte changes nothing modulo 256. */
  lemma OrAboveByte(m: Byte, k: nat)
    ensures U8(BitOr(m, 256 * k)) == m
  {
    Pow2Values();
    OrDisjoint(k, m, 8);
    assert BitOr(m, 256 * k) == k * 256 + m;
    Digits16(k, m);
  }

  /** Byte 1 holds x's low nibble in its high half, and zero below it, whatever y is. */
  lemma XYByteValue(x: nat, y: nat)
    ensures XYByte(x, y) == (x % 16) * 16
  {
    LowNibbleShifted(x);
    HighTermOfY(y);
    OrAboveByte((x % 16) * 16, y / 256 / 256 % 256);
  }

  /** Byte 2 holds the low byte of y. */
  lemma YLowByteValue(y: nat)
    ensures YLowByte(y) == y % 256
  {
    MaskedByte(y, 0);
    ShrBytes(y);
  }

  /** Bytes 4 to 6 hold the three low bytes of t, high byte first. */
  lemma TimeByteValues(t: nat)
    ensures TimeByte(t, 0) == t / 0x1_0000 % 256
    ensures TimeByte(t, 1) == t / 256 % 256
    ensures TimeByte(t, 2) == t % 256
  {
    ShrBytes(t);
    MaskedByte(t, 16);
    MaskedByte(t, 8);
    MaskedByte(t, 0);
  }

  /** The reader's x: byte 0 above the high nibble of byte 1. */
  lemma XOfValue(b0: Byte, b1: Byte)
    ensures XOf(b0, b1) == b0 * 16 + b1 / 16
  {
    Pow2Values();
    ShlBytes(b0);
    ShrBytes(b1);
    OrDisjoint(b0, b1 / 16, 4);
  }

  /** The reader's y: the low nibble of byte 1 above byte 2. */
  lemma YOfValue(b1: Byte, b2: Byte)
    ensures YOf(b1, b2) == (b1 % 16) * 256 + b2
  {
    Pow2Values();
    LowMask(b1, 4);
    ShlBytes(b1 % 16);
    OrDisjoint(b1 % 16, b2, 8);
  }

  /** Written then read, x keeps its low 12 bits. */
  lemma XRoundTrip(x: nat, y: nat)
    ensures XOf(XHighByte(x), XYByte(x, y)) == x % 4096
  {
    XHighByteValue(x);
    XYByteValue(x, y);
    XOfValue(XHighByte(x), XYByte(x, y));
    ModMul(x, 16, 256);
  }

  /** Written then read, y keeps only its low 8 bits, not the 12 the format gives it. */
  lemma YRoundTrip(x: nat, y: nat)
    ensures YOf(XYByte(x, y), YLowByte(y)) == y % 256
  {
    var b1, b2 := XYByte(x, y), YLowByte(y);
    XYByteValue(x, y);
    YLowByteValue(y);
    YOfValue(b1, b2);
    DivModUnique(b1, 16, x % 16, 0);
    assert YOf(b1, b2) == b2;
  }

  /** Written then read, t keeps its low 24 bits. */
  lemma TimeRoundTrip(t: nat)
    ensures TimeOf(TimeByte(t, 0), TimeByte(t, 1), TimeByte(t, 2)) == t % 0x100_0000
  {
    TimeByteValues(t);
    Join24(TimeByte(t, 0), TimeByte(t, 1), TimeByte(t, 2));
    Split24(t);
  }

  /** Read then written, bytes 0 and 2 come back, and byte 1 exactly when its low nibble is 0. */
  lemma XYReadBack(b0: Byte, b1: Byte, b2: Byte)
    ensures XHighByte(XOf(b0, b1)) == b0
    ensures YLowByte(YOf(b1, b2)) == b2
    ensures XYByte(XOf(b0, b1), YOf(b1, b2)) == b1 <==> b1 % 16 == 0
  {
    var x, y := XOf(b0, b1), YOf(b1, b2);
    XOfValue(b0, b1);
    YOfValue(b1, b2);
    XHighByteValue(x);
    DivModUnique(x, 16, b0, b1 / 16);
    SmallMod(b0, 256);
    YLowByteValue(y);
    Digits16(b1 % 16, b2);
    XYByteValue(x, y);
  }

  /** Read then written, the three time bytes come back. */
  lemma TimeReadBack(b4: Byte, b5: Byte, b6: Byte)
    ensures var t := TimeOf(b4, b5, b6);
      TimeByte(t, 0) == b4 && TimeByte(t, 1) == b5 && TimeByte(t, 2) == b6
  {
    var t := TimeOf(b4, b5, b6);
    Join24(b4, b5, b6);
    TimeByteValues(t);
    Digits24(b4, b5, b6);
    SmallMod(b4, 256);
  }

  // ---------------------------------------------------------------------
  // Whole files

  /** Byte j of the record of event (x, y, p, t). */
  function FieldByte(x: nat, y: nat, p: nat, t: nat, j: nat): Byte
    requires j < 7
  {
    match j
    case 0 => XHighByte(x)
    case 1 => XYByte(x, y)
    case 2 => YLowByte(y)
    case 3 => ChannelByte(p)
    case 4 => TimeByte(t, 0)
    case 5 => TimeByte(t, 1)
    case _ => TimeByte(t, 2)
  }

  /** Field j of every record, the column written to `out[j::7]`. */
  function Column(c: Columns, j: nat): (col: seq<Byte>)
    requires c.Aligned() && c.y.Some? && j < 7
    ensures |col| == c.Count()
  {
    seq(c.Count(), i requires 0 <= i < c.Count() => FieldByte(c.x[i], c.y.value[i], c.p[i], c.t[i], j))
  }

  /** The file contents `encode3Dspikes` writes for these columns. */
  function Encoded(c: Columns): (bytes: seq<Byte>)
    requires c.Aligned() && c.y.Some?
    ensures |bytes| == 7 * c.Count()
  {
    seq(7 * c.Count(), k requires 0 <= k < 7 * c.Count() =>
      FieldByte(c.x[k / 7], c.y.value[k / 7], c.p[k / 7], c.t[k / 7], k % 7))
  }

  /** The columns `read3Dspikes` takes from a file of whole records, before the event normalises p. */
  function Decode(bytes: seq<Byte>): (c: Columns)
    requires |bytes| % 7 == 0
    ensures c.Aligned() && c.y.Some? && 7 * c.Count() == |bytes|
  {
    var n := |bytes| / 7;
    Columns(
      seq(n, i requires 0 <= i < n => XOf(bytes[7 * i], bytes[7 * i + 1])),
      Some(seq(n, i requires 0 <= i < n => YOf(bytes[7 * i + 1], bytes[7 * i + 2]))),
      seq(n, i requires 0 <= i < n => bytes[7 * i + 3] as nat),
      seq(n, i requires 0 <= i < n => TimeOf(bytes[7 * i + 4], bytes[7 * i + 5], bytes[7 * i + 6])))
  }

  /** The four fields the reader takes from record i. */
  lemma DecodeAt(bytes: seq<Byte>, i: nat)
    requires |bytes| % 7 == 0 && i < |bytes| / 7
    ensures 7 * i + 6 < |bytes|
    ensures var d := Decode(bytes);
      && d.x[i] == XOf(bytes[7 * i], bytes[7 * i + 1])
      && d.y.value[i] == YOf(bytes[7 * i + 1], bytes[7 * i + 2])
      && d.p[i] == bytes[7 * i + 3] as nat
      && d.t[i] == TimeOf(bytes[7 * i + 4], bytes[7 * i + 5], bytes[7 * i + 6])
  {
  }

  /** Byte j of record i of the written file. */
  lemma EncodedAt(c: Columns, i: nat, j: nat)
    requires c.Aligned() && c.y.Some? && i < c.Count() && j < 7
    ensures 7 * i + j < |Encoded(c)| && (7 * i + j) / 7 == i && (7 * i + j) % 7 == j
    ensures Encoded(c)[7 * i + j] == FieldByte(c.x[i], c.y.value[i], c.p[i], c.t[i], j)
  {
    StridedPosition(7, j, i);
  }

  /** The reader's x of record i of a written file comes from bytes 0 and 1 of that record. */
  lemma ReadXAt(c: Columns, i: nat)
    requires c.Aligned() && c.y.Some? && i < c.Count()
    ensures Decode(Encoded(c)).x[i] == XOf(XHighByte(c.x[i]), XYByte(c.x[i], c.y.value[i]))
  {
    var e := Encoded(c);
    EncodedAt(c, i, 0);
    EncodedAt(c, i, 1);
    assert e[7 * i] == XHighByte(c.x[i]) && e[7 * i + 1] == XYByte(c.x[i], c.y.value[i]);
    DecodeAt(e, i);
  }

  /** The reader's y of record i of a written file comes from bytes 1 and 2 of that record. */
  lemma ReadYAt(c: Columns, i: nat)
    requires c.Aligned() && c.y.Some? && i < c.Count()
    ensures Decode(Encoded(c)).y.value[i] == YOf(XYByte(c.x[i], c.y.value[i]), YLowByte(c.y.value[i]))
  {
    var e := Encoded(c);
    EncodedAt(c, i, 1);
    EncodedAt(c, i, 2);
    assert e[7 * i + 1] == XYByte(c.x[i], c.y.value[i]) && e[7 * i + 2] == YLowByte(c.y.value[i]);
    DecodeAt(e, i);
  }

  /** The reader's p and t of record i of a written file come from bytes 3 to 6 of that record. */
  lemma ReadChannelTimeAt(c: Columns, i: nat)
    requires c.Aligned() && c.y.Some? && i < c.Count()
    ensures Decode(Encoded(c)).p[i] == ChannelByte(c.p[i])
    ensures Decode(Encoded(c)).t[i] == TimeOf(TimeByte(c.t[i], 0), TimeByte(c.t[i], 1), TimeByte(c.t[i], 2))
  {
    var e := Encoded(c);
    EncodedAt(c, i, 3);
    EncodedAt(c, i, 4);
    EncodedAt(c, i, 5);
    EncodedAt(c, i, 6);
    assert e[7 * i + 3] == ChannelByte(c.p[i]) && e[7 * i + 4] == TimeByte(c.t[i], 0);
    assert e[7 * i + 5] == TimeByte(c.t[i], 1) && e[7 * i + 6] == TimeByte(c.t[i], 2);
    DecodeAt(e, i);
  }

  /** Reading record i of what was written gives x mod 4096, y mod 256, p mod 256 and t mod 2^24. */
  lemma DecodeEncodeAt(c: Columns, i: nat)
    requires c.Aligned() && c.y.Some? && i < c.Count()
    ensures var d := Decode(Encoded(c));
      && d.Count() == c.Count()
      && d.x[i] == c.x[i] % 4096 && d.y.value[i] == c.y.value[i] % 256
      && d.p[i] == c.p[i] % 256 && d.t[i] == c.t[i] % 0x100_0000
  {
    ReadXAt(c, i);
    ReadYAt(c, i);
    ReadChannelTimeAt(c, i);
    XRoundTrip(c.x[i], c.y.value[i]);
    YRoundTrip(c.x[i], c.y.value[i]);
    TimeRoundTrip(c.t[i]);
  }

  /** Reading what was written gives every x mod 4096, y mod 256, p mod 256 and t mod 2^24. */
  lemma DecodeEncode(c: Columns)
    requires c.Aligned() && c.y.Some?
    ensures var d := Decode(Encoded(c));
      && d.Count() == c.Count() && d.y.Some?
      && forall i :: 0 <= i < c.Count() ==>
           && d.x[i] == c.x[i] % 4096 && d.y.value[i] == c.y.value[i] % 256
           && d.p[i] == c.p[i] % 256 && d.t[i] == c.t[i] % 0x100_0000
  {
    forall i | 0 <= i < c.Count()
      ensures var d := Decode(Encoded(c));
        && d.x[i] == c.x[i] % 4096 && d.y.value[i] == c.y.value[i] % 256
        && d.p[i] == c.p[i] % 256 && d.t[i] == c.t[i] % 0x100_0000
    {
      DecodeEncodeAt(c, i);
    }
  }

  /** The values a 3D record carries unchanged through the writer as it is. */
  predicate InRange(c: Columns)
    requires c.Aligned() && c.y.Some?
  {
    forall i :: 0 <= i < c.Count() ==>
      c.x[i] < 4096 && c.y.value[i] < 256 && c.p[i] < 256 && c.t[i] < 0x100_0000
  }

  /** x below 4096, y below 256, channels below 256 and timestamps below 2^24 round-trip exactly. */
  lemma RoundTrip(c: Columns)
    requires c.Aligned() && c.y.Some? && InRange(c)
    ensures Decode(Encoded(c)) == c
  {
    var d := Decode(Encoded(c));
    forall i | 0 <= i < c.Count()
      ensures d.x[i] == c.x[i] && d.y.value[i] == c.y.value[i] && d.p[i] == c.p[i] && d.t[i] == c.t[i]
    {
      DecodeEncodeAt(c, i);
      SmallMod(c.x[i], 4096);
      SmallMod(c.y.value[i], 256);
      SmallMod(c.p[i], 256);
      SmallMod(c.t[i], 0x100_0000);
    }
    assert d.x == c.x && d.y.value == c.y.value && d.p == c.p && d.t == c.t;
  }

  /**
   * What `read3Dspikes` returns for a file `encode3Dspikes` wrote from an
   * event in range: the same columns, p included, since an event's p already
   * has minimum 0.
   */
  lemma EventRoundTrip(c: Columns)
    requires c.Aligned() && c.y.Some? && InRange(c) && c.Count() > 0 && MinIsZero(c.p)
    ensures var d := Decode(Encoded(c));
      d.x == c.x && d.y == c.y && d.t == c.t && Normalize(d.p) == c.p
  {
    RoundTrip(c);
    NormalizeKeepsNormalized(c.p);
  }

  /** Every y the format documents above 255 is read back changed. */
  lemma WideYLost(x: nat, y: nat)
    requires 256 <= y < 4096
    ensures YOf(XYByte(x, y), YLowByte(y)) != y
  {
    YRoundTrip(x, y);
  }

  /** Byte j of one record, read and written again, unless it is a byte 1 with a nonzero low nibble. */
  lemma RecordBack(rec: seq<Byte>, j: nat)
    requires |rec| == 7 && j < 7 && (j == 1 ==> rec[1] % 16 == 0)
    ensures FieldByte(XOf(rec[0], rec[1]), YOf(rec[1], rec[2]), rec[3] as nat, TimeOf(rec[4], rec[5], rec[6]), j) == rec[j]
  {
    XYReadBack(rec[0], rec[1], rec[2]);
    SmallMod(rec[3], 256);
    TimeReadBack(rec[4], rec[5], rec[6]);
  }

  /** Byte j of record i comes back from reading and writing, if j is not 1 or byte 1's low nibble is 0. */
  lemma RecordReadBack(bytes: seq<Byte>, i: nat, j: nat)
    requires |bytes| % 7 == 0 && i < |bytes| / 7 && j < 7
    requires j == 1 ==> bytes[7 * i + 1] % 16 == 0
    ensures 7 * i + j < |bytes| && Encoded(Decode(bytes))[7 * i + j] == bytes[7 * i + j]
  {
    var d := Decode(bytes);
    DecodeAt(bytes, i);
    EncodedAt(d, i, j);
    var rec := bytes[7 * i..7 * i + 7];
    assert rec[0] == bytes[7 * i] && rec[1] == bytes[7 * i + 1] && rec[2] == bytes[7 * i + 2];
    assert rec[3] == bytes[7 * i + 3] && rec[4] == bytes[7 * i + 4] && rec[5] == bytes[7 * i + 5];
    assert rec[6] == bytes[7 * i + 6] && rec[j] == bytes[7 * i + j];
    RecordBack(rec, j);
  }

  /** A file of whole records whose bytes 1 all have a zero low nibble is written back unchanged. */
  lemma ReadBackUnchanged(bytes: seq<Byte>)
    requires |bytes| % 7 == 0
    requires forall i :: 0 <= i < |bytes| / 7 ==> bytes[7 * i + 1] % 16 == 0
    ensures Encoded(Decode(bytes)) == bytes
  {
    var again := Encoded(Decode(bytes));
    forall k | 0 <= k < |bytes|
      ensures again[k] == bytes[k]
    {
      RecordSplit(k, 7);
      assert k / 7 < |bytes| / 7;
      RecordReadBack(bytes, k / 7, k % 7);
    }
  }

  /** Writing back what was read clears the low nibble of byte 1 of every record. */
  lemma ReadBackClearsLowNibble(bytes: seq<Byte>, i: nat)
    requires |bytes| % 7 == 0 && i < |bytes| / 7
    ensures Encoded(Decode(bytes))[7 * i + 1] % 16 == 0
  {
    var d := Decode(bytes);
    EncodedAt(d, i, 1);
    XYByteValue(d.x[i], d.y.value[i]);
  }

  /** A file of whole records is written back unchanged exactly when every byte 1 has a zero low nibble. */
  lemma EncodeDecode(bytes: seq<Byte>)
    requires |bytes| % 7 == 0
    ensures Encoded(Decode(bytes)) == bytes <==> forall i :: 0 <= i < |bytes| / 7 ==> bytes[7 * i + 1] % 16 == 0
  {
    if forall i :: 0 <= i < |bytes| / 7 ==> bytes[7 * i + 1] % 16 == 0 {
      ReadBackUnchanged(bytes);
    } else {
      var i :| 0 <= i < |bytes| / 7 && bytes[7 * i + 1] % 16 != 0;
      ReadBackClearsLowNibble(bytes, i);
    }
  }

  /**
   * `encode3Dspikes(filename, TD)`: refuses an event that is not 2D, and
   * otherwise lays out seven bytes per event, one strided column at a time.
   */
  method Encode(e: Event) returns (r: Result<array<Byte>>)
    requires e.Valid() && e.View().Aligned()
    ensures e.dim != 2 ==> r == Failure(DimensionMismatch(2, e.dim))
    ensures e.dim == 2 ==> r.Success? && fresh(r.value) && r.value.Length == 7 * |e.t|
    ensures e.dim == 2 ==> r.Success? && r.value[..] == Encoded(e.View())
  {
    if e.dim != 2 {
      return Failure(DimensionMismatch(2, e.dim));
    }
    var c := e.View();
    var out := new Byte[7 * |e.t|](_ => 0);
    StridedFill(out, 0, 7, Column(c, 0));
    StridedFill(out, 1, 7, Column(c, 1));
    StridedFill(out, 2, 7, Column(c, 2));
    StridedFill(out, 3, 7, Column(c, 3));
    StridedFill(out, 4, 7, Column(c, 4));
    StridedFill(out, 5, 7, Column(c, 5));
    StridedFill(out, 6, 7, Column(c, 6));
    assert out[..] == Encoded(c);
    return Success(out);
  }

  /**
   * `read3Dspikes(filename)` on the file's bytes: the decoded columns become
   * an event. An empty file is refused: numpy turns no bytes into a float
   * array, on which the reader's first shift raises.
   */
  method Read(bytes: seq<Byte>) returns (r: Result<Event>)
    requires |bytes| % 7 == 0
    ensures r.Failure? <==> |bytes| == 0
    ensures r.Failure? ==> r.error == EmptyFile
    ensures r.Success? ==>
      var c := Decode(bytes);
      && fresh(r.value) && r.value.Valid() && r.value.View().Aligned() && r.value.dim == 2
      && r.value.x == c.x && r.value.y == c.y && r.value.t == c.t && r.value.p == Normalize(c.p)
  {
    var c := Decode(bytes);
    if |bytes| == 0 {
      return Failure(EmptyFile);
    }
    var e := new Event(c.x, c.y, c.p, c.t);
    return Success(e);
  }
}
