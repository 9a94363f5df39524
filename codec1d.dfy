/**
 * The one-dimensional spike file: five bytes per event, a neuron address in
 * bytes 0-1, the polarity in the top bit of byte 2 and a 23-bit timestamp in
 * microseconds in the rest (`read1Dspikes` / `encode1Dspikes`).
 *
 * The writer masks the high address byte with `(x >> 8) & 0xFF00`, whose low
 * eight bits are always zero, so byte 0 of every record it writes is 0 and
 * only the low eight bits of the address survive, although the format gives
 * the address sixteen bits. The model keeps that behaviour.
 */
module Codec1D {
  import opened Bits
  import opened EventColumns
  import opened FiveByteRecord
  import opened ByteArrays
  import opened SpikeEvent

  /** Byte 0 as written: `np.uint8((x >> 8) & 0xFF00)`. */
  function AddressHighByte(x: nat): Byte
  {
    U8(BitAnd(Shr(x, 8), 0xFF00))
  }

  /** Byte 1 as written: `np.uint8(x & 0xFF)`. */
  function AddressLowByte(x: nat): Byte
  {
    U8(BitAnd(x, 0xFF))
  }

  /** Byte j of the record of event (x, p, t). */
  function FieldByte(x: nat, p: nat, t: nat, j: nat): Byte
    requires j < 5
  {
    match j
    case 0 => AddressHighByte(x)
    case 1 => AddressLowByte(x)
    case 2 => PolarityTimeByte(p, t)
    case 3 => TimeMidByte(t)
    case _ => TimeLowByte(t)
  }

  /** Field j of every record, the column written to `out[j::5]`. */
  function Column(c: Columns, j: nat): (col: seq<Byte>)
    requires c.Aligned() && j < 5
    ensures |col| == c.Count()
  {
    seq(c.Count(), i requires 0 <= i < c.Count() => FieldByte(c.x[i], c.p[i], c.t[i], j))
  }

  /** The file contents `encode1Dspikes` writes for these columns. */
  function Encoded(c: Columns): (bytes: seq<Byte>)
    requires c.Aligned()
    ensures |bytes| == 5 * c.Count()
  {
    seq(5 * c.Count(), k requires 0 <= k < 5 * c.Count() => FieldByte(c.x[k / 5], c.p[k / 5], c.t[k / 5], k % 5))
  }

  /** The columns `read1Dspikes` takes from a file of whole records, before the event normalises p. */
  function Decode(bytes: seq<Byte>): (c: Columns)
    requires |bytes| % 5 == 0
    ensures c.Aligned() && c.y.None? && 5 * c.Count() == |bytes|
  {
    var n := |bytes| / 5;
    Columns(
      seq(n, i requires 0 <= i < n => Address(bytes[5 * i], bytes[5 * i + 1])),
      None,
      seq(n, i requires 0 <= i < n => Polarity(bytes[5 * i + 2])),
      seq(n, i requires 0 <= i < n => Timestamp(bytes[5 * i + 2], bytes[5 * i + 3], bytes[5 * i + 4])))
  }

  /** The record's fields as the reader sees them: a 16-bit address, the top bit of byte 2 and 23 timestamp bits. */
  lemma DecodeFields(bytes: seq<Byte>, i: nat)
    requires |bytes| % 5 == 0 && i < |bytes| / 5
    ensures var c, b0, b1, b2 := Decode(bytes), bytes[5 * i] as int, bytes[5 * i + 1] as int, bytes[5 * i + 2] as int;
      && c.x[i] == b0 * 256 + b1
      && c.p[i] == b2 / 128
      && c.t[i] == (b2 % 128) * 0x1_0000 + bytes[5 * i + 3] as int * 256 + bytes[5 * i + 4] as int
  {
    Join16(bytes[5 * i], bytes[5 * i + 1]);
    UnpackPolarityTime(bytes[5 * i + 2], bytes[5 * i + 3], bytes[5 * i + 4]);
  }

  /** Byte 0 of every record written is 0: the mask keeps bits 8-15 of `x >> 8`, and the cast drops them. */
  lemma AddressHighByteZero(x: nat)
    ensures AddressHighByte(x) == 0
  {
    ShrBytes(x);
    var a := Shr(x, 8);
    MaskFF00(a);
    var q := a / 256 % 256;
    assert BitAnd(a, 0xFF00) == 256 * q;
    assert (256 * q) % 256 == 0;
  }

  lemma AddressLowByteValue(x: nat)
    ensures AddressLowByte(x) == x % 256
  {
    MaskedByte(x, 0);
    ShrBytes(x);
  }

  /** The address as read: `(b0 << 8) | b1`. */
  function Address(b0: Byte, b1: Byte): nat
  {
    BitOr(Shl(b0, 8), b1)
  }

  /** Written then read, an address keeps only its low eight bits. */
  lemma AddressRoundTrip(x: nat)
    ensures Address(AddressHighByte(x), AddressLowByte(x)) == x % 256
  {
    AddressHighByteZero(x);
    AddressLowByteValue(x);
    Join16(0, x % 256);
  }

  /** Read then written, two address bytes come back unchanged exactly when the first is 0. */
  lemma AddressReadBack(b0: Byte, b1: Byte)
    ensures AddressLowByte(Address(b0, b1)) == b1
    ensures AddressHighByte(Address(b0, b1)) == b0 <==> b0 == 0
  {
    Join16(b0, b1);
    var x := b0 * 256 + b1;
    AddressLowByteValue(x);
    AddressHighByteZero(x);
    Digits16(b0, b1);
  }

  /** The three fields the reader takes from record i. */
  lemma DecodeAt(bytes: seq<Byte>, i: nat)
    requires |bytes| % 5 == 0 && i < |bytes| / 5
    ensures 5 * i + 4 < |bytes|
    ensures var d := Decode(bytes);
      && d.x[i] == Address(bytes[5 * i], bytes[5 * i + 1])
      && d.p[i] == Polarity(bytes[5 * i + 2])
      && d.t[i] == Timestamp(bytes[5 * i + 2], bytes[5 * i + 3], bytes[5 * i + 4])
  {
  }

  /** Byte j of record i of the written file. */
  lemma EncodedAt(c: Columns, i: nat, j: nat)
    requires c.Aligned() && i < c.Count() && j < 5
    ensures 5 * i + j < |Encoded(c)| && (5 * i + j) / 5 == i && (5 * i + j) % 5 == j
    ensures Encoded(c)[5 * i + j] == FieldByte(c.x[i], c.p[i], c.t[i], j)
  {
    StridedPosition(5, j, i);
  }

  /** The record as written: byte 0 is always 0, then the low address byte, p's low bit and 23 timestamp bits. */
  lemma EncodeFields(c: Columns, i: nat)
    requires c.Aligned() && i < c.Count()
    ensures var bytes := Encoded(c);
      && 5 * i + 4 < |bytes|
      && bytes[5 * i] == 0
      && bytes[5 * i + 1] == c.x[i] % 256
      && bytes[5 * i + 2] == c.t[i] / 0x1_0000 % 128 + 128 * (c.p[i] % 2)
      && bytes[5 * i + 3] == c.t[i] / 256 % 256
      && bytes[5 * i + 4] == c.t[i] % 256
  {
    EncodedAt(c, i, 0);
    EncodedAt(c, i, 1);
    EncodedAt(c, i, 2);
    EncodedAt(c, i, 3);
    EncodedAt(c, i, 4);
    AddressHighByteZero(c.x[i]);
    AddressLowByteValue(c.x[i]);
    PackPolarityTime(c.p[i], c.t[i]);
  }

  /** The reader's address of record i of a written file comes from bytes 0 and 1 of that record. */
  lemma ReadAddressAt(c: Columns, i: nat)
    requires c.Aligned() && i < c.Count()
    ensures Decode(Encoded(c)).x[i] == Address(AddressHighByte(c.x[i]), AddressLowByte(c.x[i]))
  {
    var e := Encoded(c);
    EncodedAt(c, i, 0);
    EncodedAt(c, i, 1);
    assert e[5 * i] == AddressHighByte(c.x[i]) && e[5 * i + 1] == AddressLowByte(c.x[i]);
    DecodeAt(e, i);
  }

  /** The reader's p and t of record i of a written file come from bytes 2 to 4 of that record. */
  lemma ReadPolarityTimeAt(c: Columns, i: nat)
    requires c.Aligned() && i < c.Count()
    ensures Decode(Encoded(c)).p[i] == Polarity(PolarityTimeByte(c.p[i], c.t[i]))
    ensures Decode(Encoded(c)).t[i] == Timestamp(PolarityTimeByte(c.p[i], c.t[i]), TimeMidByte(c.t[i]), TimeLowByte(c.t[i]))
  {
    var e := Encoded(c);
    EncodedAt(c, i, 2);
    EncodedAt(c, i, 3);
    EncodedAt(c, i, 4);
    assert e[5 * i + 2] == PolarityTimeByte(c.p[i], c.t[i]);
    assert e[5 * i + 3] == TimeMidByte(c.t[i]) && e[5 * i + 4] == TimeLowByte(c.t[i]);
    DecodeAt(e, i);
  }

  /** Reading record i of what was written gives its address mod 256, p mod 2 and t mod 2^23. */
  lemma DecodeEncodeAt(c: Columns, i: nat)
    requires c.Aligned() && i < c.Count()
    ensures var d := Decode(Encoded(c));
      && d.Count() == c.Count()
      && d.x[i] == c.x[i] % 256 && d.p[i] == c.p[i] % 2 && d.t[i] == c.t[i] % 0x80_0000
  {
    ReadAddressAt(c, i);
    ReadPolarityTimeAt(c, i);
    AddressRoundTrip(c.x[i]);
    PolarityTimeRoundTrip(c.p[i], c.t[i]);
  }

  /** Reading what was written gives every address mod 256, every p mod 2 and every t mod 2^23. */
  lemma DecodeEncode(c: Columns)
    requires c.Aligned()
    ensures var d := Decode(Encoded(c));
      && d.Count() == c.Count() && d.y.None?
      && forall i :: 0 <= i < c.Count() ==>
           d.x[i] == c.x[i] % 256 && d.p[i] == c.p[i] % 2 && d.t[i] == c.t[i] % 0x80_0000
  {
    forall i | 0 <= i < c.Count()
      ensures var d := Decode(Encoded(c));
        d.x[i] == c.x[i] % 256 && d.p[i] == c.p[i] % 2 && d.t[i] == c.t[i] % 0x80_0000
    {
      DecodeEncodeAt(c, i);
    }
  }

  /** The values a 1D record carries unchanged through the writer as it is. */
  predicate InRange(c: Columns)
    requires c.Aligned()
  {
    forall i :: 0 <= i < c.Count() ==> c.x[i] < 256 && c.p[i] < 2 && c.t[i] < 0x80_0000
  }

  /** Addresses below 256, polarities 0 and 1 and timestamps below 2^23 round-trip exactly. */
  lemma RoundTrip(c: Columns)
    requires c.Aligned() && c.y.None? && InRange(c)
    ensures Decode(Encoded(c)) == c
  {
    var d := Decode(Encoded(c));
    forall i | 0 <= i < c.Count()
      ensures d.x[i] == c.x[i] && d.p[i] == c.p[i] && d.t[i] == c.t[i]
    {
      DecodeEncodeAt(c, i);
      SmallMod(c.x[i], 256);
      SmallMod(c.p[i], 2);
      SmallMod(c.t[i], 0x80_0000);
    }
    assert d.x == c.x && d.p == c.p && d.t == c.t;
  }

  /**
   * What `read1Dspikes` returns for a file `encode1Dspikes` wrote from an
   * event in range: the same columns, p included, since an event's p already
   * has minimum 0.
   */
  lemma EventRoundTrip(c: Columns)
    requires c.Aligned() && c.y.None? && InRange(c) && c.Count() > 0 && MinIsZero(c.p)
    ensures var d := Decode(Encoded(c));
      d.x == c.x && d.y == None && d.t == c.t && Normalize(d.p) == c.p
  {
    RoundTrip(c);
    NormalizeKeepsNormalized(c.p);
  }

  /** Byte j of one record, read and written again, unless it is a nonzero byte 0. */
  lemma RecordBack(rec: seq<Byte>, j: nat)
    requires |rec| == 5 && j < 5 && (j == 0 ==> rec[0] == 0)
    ensures FieldByte(Address(rec[0], rec[1]), Polarity(rec[2]), Timestamp(rec[2], rec[3], rec[4]), j) == rec[j]
  {
    AddressReadBack(rec[0], rec[1]);
    PolarityTimeReadBack(rec[2], rec[3], rec[4]);
  }

  /** Byte j of record i comes back from reading and writing, if the record's byte 0 is 0 or j is not 0. */
  lemma RecordReadBack(bytes: seq<Byte>, i: nat, j: nat)
    requires |bytes| % 5 == 0 && i < |bytes| / 5 && j < 5
    requires j == 0 ==> bytes[5 * i] == 0
    ensures 5 * i + j < |bytes| && Encoded(Decode(bytes))[5 * i + j] == bytes[5 * i + j]
  {
    var d := Decode(bytes);
    DecodeAt(bytes, i);
    EncodedAt(d, i, j);
    var rec := bytes[5 * i..5 * i + 5];
    assert rec[0] == bytes[5 * i] && rec[1] == bytes[5 * i + 1] && rec[2] == bytes[5 * i + 2];
    assert rec[3] == bytes[5 * i + 3] && rec[4] == bytes[5 * i + 4] && rec[j] == bytes[5 * i + j];
    RecordBack(rec, j);
  }

  /** A file of whole records whose address high bytes are all 0 is written back unchanged. */
  lemma ReadBackUnchanged(bytes: seq<Byte>)
    requires |bytes| % 5 == 0
    requires forall i :: 0 <= i < |bytes| / 5 ==> bytes[5 * i] == 0
    ensures Encoded(Decode(bytes)) == bytes
  {
    var again := Encoded(Decode(bytes));
    forall k | 0 <= k < |bytes|
      ensures again[k] == bytes[k]
    {
      RecordSplit(k, 5);
      assert k / 5 < |bytes| / 5;
      RecordReadBack(bytes, k / 5, k % 5);
    }
  }

  /** Writing back what was read clears the address high byte of every record. */
  lemma ReadBackClearsHighByte(bytes: seq<Byte>, i: nat)
    requires |bytes| % 5 == 0 && i < |bytes| / 5
    ensures Encoded(Decode(bytes))[5 * i] == 0
  {
    var d := Decode(bytes);
    EncodedAt(d, i, 0);
    AddressHighByteZero(d.x[i]);
  }

  /** Any file of whole records whose address high bytes are all 0, and only such a file, is written back unchanged. */
  lemma EncodeDecode(bytes: seq<Byte>)
    requires |bytes| % 5 == 0
    ensures Encoded(Decode(bytes)) == bytes <==> forall i :: 0 <= i < |bytes| / 5 ==> bytes[5 * i] == 0
  {
    if forall i :: 0 <= i < |bytes| / 5 ==> bytes[5 * i] == 0 {
      ReadBackUnchanged(bytes);
    } else {
      var i :| 0 <= i < |bytes| / 5 && bytes[5 * i] != 0;
      ReadBackClearsHighByte(bytes, i);
    }
  }

  /** Every address the format documents above 255 is read back changed. */
  lemma WideAddressLost(x: nat)
    requires 256 <= x < 0x1_0000
    ensures Address(AddressHighByte(x), AddressLowByte(x)) != x
  {
    AddressRoundTrip(x);
  }

  /**
   * `encode1Dspikes(filename, TD)`: refuses an event that is not 1D, and
   * otherwise lays out five bytes per event, one strided column at a time.
   */
  method Encode(e: Event) returns (r: Result<array<Byte>>)
    requires e.Valid() && e.View().Aligned()
    ensures e.dim != 1 ==> r == Failure(DimensionMismatch(1, e.dim))
    ensures e.dim == 1 ==> r.Success? && fresh(r.value) && r.value.Length == 5 * |e.t|
    ensures e.dim == 1 ==> r.Success? && r.value[..] == Encoded(e.View())
  {
    if e.dim != 1 {
      return Failure(DimensionMismatch(1, e.dim));
    }
    var c := e.View();
    var out := new Byte[5 * |e.t|](_ => 0);
    StridedFill(out, 0, 5, Column(c, 0));
    StridedFill(out, 1, 5, Column(c, 1));
    StridedFill(out, 2, 5, Column(c, 2));
    StridedFill(out, 3, 5, Column(c, 3));
    StridedFill(out, 4, 5, Column(c, 4));
    assert out[..] == Encoded(c);
    return Success(out);
  }

  /**
   * `read1Dspikes(filename)` on the file's bytes: the decoded columns become
   * an event. An empty file is refused: numpy turns no bytes into a float
   * array, on which the reader's first shift raises.
   */
  method Read(bytes: seq<Byte>) returns (r: Result<Event>)
    requires |bytes| % 5 == 0
    ensures r.Failure? <==> |bytes| == 0
    ensures r.Failure? ==> r.error == EmptyFile
    ensures r.Success? ==>
      var c := Decode(bytes);
      && fresh(r.value) && r.value.Valid() && r.value.View().Aligned() && r.value.dim == 1
      && r.value.x == c.x && r.value.y == None && r.value.t == c.t && r.value.p == Normalize(c.p)
  {
    var c := Decode(bytes);
    if |bytes| == 0 {
      return Failure(EmptyFile);
    }
    var e := new Event(c.x, None, c.p, c.t);
    return Success(e);
  }
}
