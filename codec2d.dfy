/**
 * The two-dimensional spike file (the format of the NMNIST and NCALTECH101
 * datasets): five bytes per event, x in byte 0, y in byte 1, the polarity in
 * the top bit of byte 2 and a 23-bit timestamp in microseconds in the rest
 * (`read2Dspikes` / `encode2Dspikes`).
 */
module Codec2D {
  import opened Bits
  import opened EventColumns
  import opened FiveByteRecord
  import opened ByteArrays
  import opened SpikeEvent

  /** Byte j of the record of event (x, y, p, t), as written: `np.uint8(x)`, `np.uint8(y)`, then the shared polarity and time bytes. */
  function FieldByte(x: nat, y: nat, p: nat, t: nat, j: nat): Byte
    requires j < 5
  {
    match j
    case 0 => U8(x)
    case 1 => U8(y)
    case 2 => PolarityTimeByte(p, t)
    case 3 => TimeMidByte(t)
    case _ => TimeLowByte(t)
  }

  /** Field j of every record, the column written to `out[j::5]`. */
  function Column(c: Columns, j: nat): (col: seq<Byte>)
    requires c.Aligned() && c.y.Some? && j < 5
    ensures |col| == c.Count()
  {
    seq(c.Count(), i requires 0 <= i < c.Count() => FieldByte(c.x[i], c.y.value[i], c.p[i], c.t[i], j))
  }

  /** The file contents `encode2Dspikes` writes for these columns. */
  function Encoded(c: Columns): (bytes: seq<Byte>)
    requires c.Aligned() && c.y.Some?
    ensures |bytes| == 5 * c.Count()
  {
    seq(5 * c.Count(), k requires 0 <= k < 5 * c.Count() =>
      FieldByte(c.x[k / 5], c.y.value[k / 5], c.p[k / 5], c.t[k / 5], k % 5))
  }

  /** The columns `read2Dspikes` takes from a file of whole records, before the event normalises p. */
  function Decode(bytes: seq<Byte>): (c: Columns)
    requires |bytes| % 5 == 0
    ensures c.Aligned() && c.y.Some? && 5 * c.Count() == |bytes|
  {
    var n := |bytes| / 5;
    Columns(
      seq(n, i requires 0 <= i < n => bytes[5 * i] as nat),
      Some(seq(n, i requires 0 <= i < n => bytes[5 * i + 1] as nat)),
      seq(n, i requires 0 <= i < n => Polarity(bytes[5 * i + 2])),
      seq(n, i requires 0 <= i < n => Timestamp(bytes[5 * i + 2], bytes[5 * i + 3], bytes[5 * i + 4])))
  }

  /** The four fields the reader takes from record i. */
  lemma DecodeAt(bytes: seq<Byte>, i: nat)
    requires |bytes| % 5 == 0 && i < |bytes| / 5
    ensures 5 * i + 4 < |bytes|
    ensures var d := Decode(bytes);
      && d.x[i] == bytes[5 * i] as nat && d.y.value[i] == bytes[5 * i + 1] as nat
      && d.p[i] == Polarity(bytes[5 * i + 2])
      && d.t[i] == Timestamp(bytes[5 * i + 2], bytes[5 * i + 3], bytes[5 * i + 4])
  {
  }

  /** Byte j of record i of the written file. */
  lemma EncodedAt(c: Columns, i: nat, j: nat)
    requires c.Aligned() && c.y.Some? && i < c.Count() && j < 5
    ensures 5 * i + j < |Encoded(c)| && (5 * i + j) / 5 == i && (5 * i + j) % 5 == j
    ensures Encoded(c)[5 * i + j] == FieldByte(c.x[i], c.y.value[i], c.p[i], c.t[i], j)
  {
    StridedPosition(5, j, i);
  }

  /** The reader's x and y of record i of a written file are bytes 0 and 1 of that record. */
  lemma ReadXYAt(c: Columns, i: nat)
    requires c.Aligned() && c.y.Some? && i < c.Count()
    ensures Decode(Encoded(c)).x[i] == U8(c.x[i]) && Decode(Encoded(c)).y.value[i] == U8(c.y.value[i])
  {
    var e := Encoded(c);
    EncodedAt(c, i, 0);
    EncodedAt(c, i, 1);
    assert e[5 * i] == U8(c.x[i]) && e[5 * i + 1] == U8(c.y.value[i]);
    DecodeAt(e, i);
  }

  /** The reader's p and t of record i of a written file come from bytes 2 to 4 of that record. */
  lemma ReadPolarityTimeAt(c: Columns, i: nat)
    requires c.Aligned() && c.y.Some? && i < c.Count()
    ensures Decode(Encoded(c)).p[i] == Polarity(PolarityTimeByte(c.p[i], c.t[i]))
    ensures Decode(Encoded(c)).t[i] == Timestamp(PolarityTimeByte(c.p[i], c.t[i]), TimeMidByte(c.t[i]), TimeLowByte(c.t[i]))
  {
    var e := Encoded(c);
    EncodedAt(c, i, 2);
    EncodedAt(c, i, 3);
    EncodedAt(c, i, 4);
    assert e[5 * i + 2] == PolarityTimeByte(c.p[i], c.t[i]);
    assert e[5 * i + 3] == TimeMidByte(c.t[i]) && e[5 * i + 4] == TimeLowByte(c.t[i]);
    DecodeAt(e, i);
  }

  /** Reading record i of what was written gives x and y mod 256, p mod 2 and t mod 2^23. */
  lemma DecodeEncodeAt(c: Columns, i: nat)
    requires c.Aligned() && c.y.Some? && i < c.Count()
    ensures var d := Decode(Encoded(c));
      && d.Count() == c.Count()
      && d.x[i] == c.x[i] % 256 && d.y.value[i] == c.y.value[i] % 256
      && d.p[i] == c.p[i] % 2 && d.t[i] == c.t[i] % 0x80_0000
  {
    ReadXYAt(c, i);
    ReadPolarityTimeAt(c, i);
    PolarityTimeRoundTrip(c.p[i], c.t[i]);
  }

  /** Reading what was written gives every x and y mod 256, every p mod 2 and every t mod 2^23. */
  lemma DecodeEncode(c: Columns)
    requires c.Aligned() && c.y.Some?
    ensures var d := Decode(Encoded(c));
      && d.Count() == c.Count() && d.y.Some?
      && forall i :: 0 <= i < c.Count() ==>
           && d.x[i] == c.x[i] % 256 && d.y.value[i] == c.y.value[i] % 256
           && d.p[i] == c.p[i] % 2 && d.t[i] == c.t[i] % 0x80_0000
  {
    forall i | 0 <= i < c.Count()
      ensures var d := Decode(Encoded(c));
        && d.x[i] == c.x[i] % 256 && d.y.value[i] == c.y.value[i] % 256
        && d.p[i] == c.p[i] % 2 && d.t[i] == c.t[i] % 0x80_0000
    {
      DecodeEncodeAt(c, i);
    }
  }

  /** The values a 2D record carries unchanged. */
  predicate InRange(c: Columns)
    requires c.Aligned() && c.y.Some?
  {
    forall i :: 0 <= i < c.Count() ==>
      c.x[i] < 256 && c.y.value[i] < 256 && c.p[i] < 2 && c.t[i] < 0x80_0000
  }

  /** x and y below 256, polarities 0 and 1 and timestamps below 2^23 round-trip exactly. */
  lemma RoundTrip(c: Columns)
    requires c.Aligned() && c.y.Some? && InRange(c)
    ensures Decode(Encoded(c)) == c
  {
    var d := Decode(Encoded(c));
    forall i | 0 <= i < c.Count()
      ensures d.x[i] == c.x[i] && d.y.value[i] == c.y.value[i] && d.p[i] == c.p[i] && d.t[i] == c.t[i]
    {
      DecodeEncodeAt(c, i);
      SmallMod(c.x[i], 256);
      SmallMod(c.y.value[i], 256);
      SmallMod(c.p[i], 2);
      SmallMod(c.t[i], 0x80_0000);
    }
    assert d.x == c.x && d.y.value == c.y.value && d.p == c.p && d.t == c.t;
  }

  /**
   * What `read2Dspikes` returns for a file `encode2Dspikes` wrote from an
   * event in range: the same columns, p included, since an event's p already
   * has minimum 0.
   */
  lemma EventRoundTrip(c: Columns)
    requires c.Aligned() && c.y.Some? && InRange(c) && c.Count() > 0 && MinIsZero(c.p)
    ensures var d := Decode(Encoded(c));
      d.x == c.x && d.y == c.y && d.t == c.t && Normalize(d.p) == c.p
  {
    RoundTrip(c);
    NormalizeKeepsNormalized(c.p);
  }

  /** Byte j of one record, read and written again. */
  lemma RecordBack(rec: seq<Byte>, j: nat)
    requires |rec| == 5 && j < 5
    ensures FieldByte(rec[0] as nat, rec[1] as nat, Polarity(rec[2]), Timestamp(rec[2], rec[3], rec[4]), j) == rec[j]
  {
    SmallMod(rec[0], 256);
    SmallMod(rec[1], 256);
    PolarityTimeReadBack(rec[2], rec[3], rec[4]);
  }

  /** Byte j of record i comes back from reading and writing. */
  lemma RecordReadBack(bytes: seq<Byte>, i: nat, j: nat)
    requires |bytes| % 5 == 0 && i < |bytes| / 5 && j < 5
    ensures 5 * i + j < |bytes| && Encoded(Decode(bytes))[5 * i + j] == bytes[5 * i + j]
  {
    var d := Decode(bytes);
    DecodeAt(bytes, i);
    EncodedAt(d, i, j);
    var rec := bytes[5 * i..5 * i + 5];
    assert rec[0] == bytes[5 * i] && rec[1] == bytes[5 * i + 1] && rec[2] == bytes[5 * i + 2];
    assert rec[3] == bytes[5 * i + 3] && rec[4] == bytes[5 * i + 4] && rec[j] == bytes[5 * i + j];
    RecordBack(rec, j);
  }

  /** Every file of whole records is written back unchanged: the 2D record uses all of its 40 bits. */
  lemma EncodeDecode(bytes: seq<Byte>)
    requires |bytes| % 5 == 0
    ensures Encoded(Decode(bytes)) == bytes
  {
    var again := Encoded(Decode(bytes));
    forall k | 0 <= k < |bytes|
      ensures again[k] == bytes[k]
    {
      RecordSplit(k, 5);
      assert k / 5 < |bytes| / 5;
      RecordReadBack(bytes, k / 5, k % 5);
    }
  }

  /**
   * `encode2Dspikes(filename, TD)`: refuses an event that is not 2D, and
   * otherwise lays out five bytes per event, one strided column at a time.
   */
  method Encode(e: Event) returns (r: Result<array<Byte>>)
    requires e.Valid() && e.View().Aligned()
    ensures e.dim != 2 ==> r == Failure(DimensionMismatch(2, e.dim))
    ensures e.dim == 2 ==> r.Success? && fresh(r.value) && r.value.Length == 5 * |e.t|
    ensures e.dim == 2 ==> r.Success? && r.value[..] == Encoded(e.View())
  {
    if e.dim != 2 {
      return Failure(DimensionMismatch(2, e.dim));
    }
    var c := e.View();
    var out := new Byte[5 * |e.t|](_ => 0);
    StridedFill(out, 0, 5, Column(c, 0));
    StridedFill(out, 1, 5, Column(c, 1));
    StridedFill(out, 2, 5, Column(c, 2));
    StridedFill(out, 3, 5, Column(c, 3));
    StridedFill(out, 4, 5, Column(c, 4));
    assert out[..] == Encoded(c);
    return Success(out);
  }

  /**
   * `read2Dspikes(filename)` on the file's bytes: the decoded columns become
   * an event. An empty file is refused: numpy turns no bytes into a float
   * array, on which the reader's first shift raises.
   */
  method Read(bytes: seq<Byte>) returns (r: Result<Event>)
    requires |bytes| % 5 == 0
    ensures r.Failure? <==> |bytes| == 0
    ensures r.Failure? ==> r.error == EmptyFile
    ensures r.Success? ==>
      var c := Decode(bytes);
      && fresh(r.value) && r.value.Valid() && r.value.View().Aligned() && r.value.dim == 2
      && r.value.x == c.x && r.value.y == c.y && r.value.t == c.t && r.value.p == Normalize(c.p)
  {
    var c := Decode(bytes);
    if |bytes| == 0 {
      return Failure(EmptyFile);
    }
    var e := new Event(c.x, c.y, c.p, c.t);
    return Success(e);
  }
}
