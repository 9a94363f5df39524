/**
 * The spike-count summary file: ten bytes per record, a 16-bit neuron id, a
 * 24-bit start and a 24-bit end time in microseconds and a 16-bit spike
 * count, all big-endian (`read1DnumSpikes` / `encode1DnumSpikes`). The four
 * columns are read back exactly as stored; nothing is normalised.
 */
module NumSpikesCodec {
  import opened Bits
  import opened ByteArrays
  import EventColumns

  /** The four index-aligned columns of a summary file. */
  datatype Summary = Summary(neuronID: seq<nat>, tStart: seq<nat>, tEnd: seq<nat>, nSpikes: seq<nat>)
  {
    predicate Aligned()
    {
      |tStart| == |neuronID| && |tEnd| == |neuronID| && |nSpikes| == |neuronID|
    }

    function Count(): nat
    {
      |neuronID|
    }
  }

  /** `np.uint8(v >> k)`: the byte of v that starts at bit k. */
  function ByteAt(v: nat, k: nat): Byte
  {
    U8(Shr(v, k))
  }

  /** A 16-bit field as read: `(b0 << 8) | b1`. */
  function Word16(b0: Byte, b1: Byte): nat
  {
    BitOr(Shl(b0, 8), b1)
  }

  /** A 24-bit field as read: `(b0 << 16) | (b1 << 8) | b2`. */
  function Word24(b0: Byte, b1: Byte, b2: Byte): nat
  {
    BitOr(BitOr(Shl(b0, 16), Shl(b1, 8)), b2)
  }

  /** Written then read, a 16-bit field keeps the low 16 bits of its value. */
  lemma Word16RoundTrip(v: nat)
    ensures Word16(ByteAt(v, 8), ByteAt(v, 0)) == v % 0x1_0000
  {
    ShrBytes(v);
    Join16(ByteAt(v, 8), ByteAt(v, 0));
    Split16(v);
  }

  /** Written then read, a 24-bit field keeps the low 24 bits of its value. */
  lemma Word24RoundTrip(v: nat)
    ensures Word24(ByteAt(v, 16), ByteAt(v, 8), ByteAt(v, 0)) == v % 0x100_0000
  {
    ShrBytes(v);
    Join24(ByteAt(v, 16), ByteAt(v, 8), ByteAt(v, 0));
    Split24(v);
  }

  /** Read then written, the two bytes of a 16-bit field come back. */
  lemma Word16ReadBack(b0: Byte, b1: Byte)
    ensures ByteAt(Word16(b0, b1), 8) == b0 && ByteAt(Word16(b0, b1), 0) == b1
  {
    var v := Word16(b0, b1);
    Join16(b0, b1);
    ShrBytes(v);
    Digits16(b0, b1);
    SmallMod(b0, 256);
  }

  /** Read then written, the three bytes of a 24-bit field come back. */
  lemma Word24ReadBack(b0: Byte, b1: Byte, b2: Byte)
    ensures var v := Word24(b0, b1, b2);
      ByteAt(v, 16) == b0 && ByteAt(v, 8) == b1 && ByteAt(v, 0) == b2
  {
    var v := Word24(b0, b1, b2);
    Join24(b0, b1, b2);
    ShrBytes(v);
    Digits24(b0, b1, b2);
    SmallMod(b0, 256);
  }

  /** Byte j of the record (n, ts, te, ns), as written at `out[j::10]`. */
  function FieldByte(n: nat, ts: nat, te: nat, ns: nat, j: nat): Byte
    requires j < 10
  {
    match j
    case 0 => ByteAt(n, 8)
    case 1 => ByteAt(n, 0)
    case 2 => ByteAt(ts, 16)
    case 3 => ByteAt(ts, 8)
    case 4 => ByteAt(ts, 0)
    case 5 => ByteAt(te, 16)
    case 6 => ByteAt(te, 8)
    case 7 => ByteAt(te, 0)
    case 8 => ByteAt(ns, 8)
    case _ => ByteAt(ns, 0)
  }

  /** Field j of every record. */
  function Column(s: Summary, j: nat): (col: seq<Byte>)
    requires s.Aligned() && j < 10
    ensures |col| == s.Count()
  {
    seq(s.Count(), i requires 0 <= i < s.Count() => FieldByte(s.neuronID[i], s.tStart[i], s.tEnd[i], s.nSpikes[i], j))
  }

  /** The file contents `encode1DnumSpikes` writes for these columns. */
  function Encoded(s: Summary): (bytes: seq<Byte>)
    requires s.Aligned()
    ensures |bytes| == 10 * s.Count()
  {
    seq(10 * s.Count(), k requires 0 <= k < 10 * s.Count() =>
      FieldByte(s.neuronID[k / 10], s.tStart[k / 10], s.tEnd[k / 10], s.nSpikes[k / 10], k % 10))
  }

  /**
   * The record decoder of `read1DnumSpikes`: four columns taken from a file of
   * whole records. `Read` refines it with the refusal of an empty file.
   */
  function Decode(bytes: seq<Byte>): (s: Summary)
    requires |bytes| % 10 == 0
    ensures s.Aligned() && 10 * s.Count() == |bytes|
  {
    var n := |bytes| / 10;
    Summary(
      seq(n, i requires 0 <= i < n => Word16(bytes[10 * i], bytes[10 * i + 1])),
      seq(n, i requires 0 <= i < n => Word24(bytes[10 * i + 2], bytes[10 * i + 3], bytes[10 * i + 4])),
      seq(n, i requires 0 <= i < n => Word24(bytes[10 * i + 5], bytes[10 * i + 6], bytes[10 * i + 7])),
      seq(n, i requires 0 <= i < n => Word16(bytes[10 * i + 8], bytes[10 * i + 9])))
  }

  /**
   * `read1DnumSpikes(filename)` as a whole: an empty file is refused, because
   * numpy turns no bytes into a float array, on which the first shift raises.
   */
  function Read(bytes: seq<Byte>): (r: EventColumns.Result<Summary>)
    requires |bytes| % 10 == 0
    ensures r.Failure? <==> |bytes| == 0
    ensures r.Failure? ==> r.error == EventColumns.EmptyFile
    ensures r.Success? ==> r.value == Decode(bytes) && r.value.Count() > 0
  {
    if |bytes| == 0 then EventColumns.Failure(EventColumns.EmptyFile)
    else EventColumns.Success(Decode(bytes))
  }

  /** The four fields the reader takes from record i. */
  lemma DecodeAt(bytes: seq<Byte>, i: nat)
    requires |bytes| % 10 == 0 && i < |bytes| / 10
    ensures 10 * i + 9 < |bytes|
    ensures var d := Decode(bytes);
      && d.neuronID[i] == Word16(bytes[10 * i], bytes[10 * i + 1])
      && d.tStart[i] == Word24(bytes[10 * i + 2], bytes[10 * i + 3], bytes[10 * i + 4])
      && d.tEnd[i] == Word24(bytes[10 * i + 5], bytes[10 * i + 6], bytes[10 * i + 7])
      && d.nSpikes[i] == Word16(bytes[10 * i + 8], bytes[10 * i + 9])
  {
  }

  /** Byte j of record i of the written file. */
  lemma EncodedAt(s: Summary, i: nat, j: nat)
    requires s.Aligned() && i < s.Count() && j < 10
    ensures 10 * i + j < |Encoded(s)| && (10 * i + j) / 10 == i && (10 * i + j) % 10 == j
    ensures Encoded(s)[10 * i + j] == FieldByte(s.neuronID[i], s.tStart[i], s.tEnd[i], s.nSpikes[i], j)
  {
    StridedPosition(10, j, i);
  }

  /** The reader's neuron id of record i of a written file comes from bytes 0 and 1. */
  lemma ReadIdAt(s: Summary, i: nat)
    requires s.Aligned() && i < s.Count()
    ensures Decode(Encoded(s)).neuronID[i] == Word16(ByteAt(s.neuronID[i], 8), ByteAt(s.neuronID[i], 0))
  {
    var e := Encoded(s);
    EncodedAt(s, i, 0);
    EncodedAt(s, i, 1);
    assert e[10 * i] == ByteAt(s.neuronID[i], 8) && e[10 * i + 1] == ByteAt(s.neuronID[i], 0);
    DecodeAt(e, i);
  }

  /** The reader's start time of record i of a written file comes from bytes 2 to 4. */
  lemma ReadStartAt(s: Summary, i: nat)
    requires s.Aligned() && i < s.Count()
    ensures Decode(Encoded(s)).tStart[i] == Word24(ByteAt(s.tStart[i], 16), ByteAt(s.tStart[i], 8), ByteAt(s.tStart[i], 0))
  {
    var e := Encoded(s);
    EncodedAt(s, i, 2);
    EncodedAt(s, i, 3);
    EncodedAt(s, i, 4);
    assert e[10 * i + 2] == ByteAt(s.tStart[i], 16);
    assert e[10 * i + 3] == ByteAt(s.tStart[i], 8) && e[10 * i + 4] == ByteAt(s.tStart[i], 0);
    DecodeAt(e, i);
  }

  /** The reader's end time of record i of a written file comes from bytes 5 to 7. */
  lemma ReadEndAt(s: Summary, i: nat)
    requires s.Aligned() && i < s.Count()
    ensures Decode(Encoded(s)).tEnd[i] == Word24(ByteAt(s.tEnd[i], 16), ByteAt(s.tEnd[i], 8), ByteAt(s.tEnd[i], 0))
  {
    var e := Encoded(s);
    EncodedAt(s, i, 5);
    EncodedAt(s, i, 6);
    EncodedAt(s, i, 7);
    assert e[10 * i + 5] == ByteAt(s.tEnd[i], 16);
    assert e[10 * i + 6] == ByteAt(s.tEnd[i], 8) && e[10 * i + 7] == ByteAt(s.tEnd[i], 0);
    DecodeAt(e, i);
  }

  /** The reader's spike count of record i of a written file comes from bytes 8 and 9. */
  lemma ReadCountAt(s: Summary, i: nat)
    requires s.Aligned() && i < s.Count()
    ensures Decode(Encoded(s)).nSpikes[i] == Word16(ByteAt(s.nSpikes[i], 8), ByteAt(s.nSpikes[i], 0))
  {
    var e := Encoded(s);
    EncodedAt(s, i, 8);
    EncodedAt(s, i, 9);
    assert e[10 * i + 8] == ByteAt(s.nSpikes[i], 8) && e[10 * i + 9] == ByteAt(s.nSpikes[i], 0);
    DecodeAt(e, i);
  }

  /** Reading record i of what was written gives each field modulo its width. */
  lemma DecodeEncodeAt(s: Summary, i: nat)
    requires s.Aligned() && i < s.Count()
    ensures var d := Decode(Encoded(s));
      && d.Count() == s.Count()
      && d.neuronID[i] == s.neuronID[i] % 0x1_0000
      && d.tStart[i] == s.tStart[i] % 0x100_0000
      && d.tEnd[i] == s.tEnd[i] % 0x100_0000
      && d.nSpikes[i] == s.nSpikes[i] % 0x1_0000
  {
    ReadIdAt(s, i);
    ReadStartAt(s, i);
    ReadEndAt(s, i);
    ReadCountAt(s, i);
    Word16RoundTrip(s.neuronID[i]);
    Word16RoundTrip(s.nSpikes[i]);
    Word24RoundTrip(s.tStart[i]);
    Word24RoundTrip(s.tEnd[i]);
  }

  /** Reading what was written gives every field modulo its width. */
  lemma DecodeEncode(s: Summary)
    requires s.Aligned()
    ensures var d := Decode(Encoded(s));
      && d.Count() == s.Count()
      && forall i :: 0 <= i < s.Count() ==>
           && d.neuronID[i] == s.neuronID[i] % 0x1_0000
           && d.tStart[i] == s.tStart[i] % 0x100_0000
           && d.tEnd[i] == s.tEnd[i] % 0x100_0000
           && d.nSpikes[i] == s.nSpikes[i] % 0x1_0000
  {
    forall i | 0 <= i < s.Count()
      ensures var d := Decode(Encoded(s));
        && d.neuronID[i] == s.neuronID[i] % 0x1_0000
        && d.tStart[i] == s.tStart[i] % 0x100_0000
        && d.tEnd[i] == s.tEnd[i] % 0x100_0000
        && d.nSpikes[i] == s.nSpikes[i] % 0x1_0000
    {
      DecodeEncodeAt(s, i);
    }
  }

  /** Values that fit their fields. */
  predicate InRange(s: Summary)
    requires s.Aligned()
  {
    forall i :: 0 <= i < s.Count() ==>
      && s.neuronID[i] < 0x1_0000 && s.nSpikes[i] < 0x1_0000
      && s.tStart[i] < 0x100_0000 && s.tEnd[i] < 0x100_0000
  }

  /** Ids and counts below 2^16 and times below 2^24 come back exactly. */
  lemma RoundTrip(s: Summary)
    requires s.Aligned() && InRange(s)
    ensures Decode(Encoded(s)) == s
  {
    var d := Decode(Encoded(s));
    forall i | 0 <= i < s.Count()
      ensures d.neuronID[i] == s.neuronID[i] && d.tStart[i] == s.tStart[i]
      ensures d.tEnd[i] == s.tEnd[i] && d.nSpikes[i] == s.nSpikes[i]
    {
      DecodeEncodeAt(s, i);
      SmallMod(s.neuronID[i], 0x1_0000);
      SmallMod(s.nSpikes[i], 0x1_0000);
      SmallMod(s.tStart[i], 0x100_0000);
      SmallMod(s.tEnd[i], 0x100_0000);
    }
    assert d.neuronID == s.neuronID && d.tStart == s.tStart && d.tEnd == s.tEnd && d.nSpikes == s.nSpikes;
  }

  /** Byte j of one record, read and written again. */
  lemma RecordBack(rec: seq<Byte>, j: nat)
    requires |rec| == 10 && j < 10
    ensures FieldByte(Word16(rec[0], rec[1]), Word24(rec[2], rec[3], rec[4]), Word24(rec[5], rec[6], rec[7]), Word16(rec[8], rec[9]), j) == rec[j]
  {
    Word16ReadBack(rec[0], rec[1]);
    Word24ReadBack(rec[2], rec[3], rec[4]);
    Word24ReadBack(rec[5], rec[6], rec[7]);
    Word16ReadBack(rec[8], rec[9]);
  }

  /** Byte j of record i comes back from reading and writing. */
  lemma RecordReadBack(bytes: seq<Byte>, i: nat, j: nat)
    requires |bytes| % 10 == 0 && i < |bytes| / 10 && j < 10
    ensures 10 * i + j < |bytes| && Encoded(Decode(bytes))[10 * i + j] == bytes[10 * i + j]
  {
    var d := Decode(bytes);
    DecodeAt(bytes, i);
    EncodedAt(d, i, j);
    var rec := bytes[10 * i..10 * i + 10];
    assert rec[0] == bytes[10 * i] && rec[1] == bytes[10 * i + 1] && rec[2] == bytes[10 * i + 2];
    assert rec[3] == bytes[10 * i + 3] && rec[4] == bytes[10 * i + 4] && rec[5] == bytes[10 * i + 5];
    assert rec[6] == bytes[10 * i + 6] && rec[7] == bytes[10 * i + 7] && rec[8] == bytes[10 * i + 8];
    assert rec[9] == bytes[10 * i + 9] && rec[j] == bytes[10 * i + j];
    RecordBack(rec, j);
  }

  /** A non-empty summary in range is read back from its encoding. */
  lemma ReadRoundTrip(s: Summary)
    requires s.Aligned() && InRange(s) && s.Count() > 0
    ensures Read(Encoded(s)) == EventColumns.Success(s)
  {
    RoundTrip(s);
  }

  /** Every file of whole records is written back unchanged: the record uses all of its 80 bits. */
  lemma EncodeDecode(bytes: seq<Byte>)
    requires |bytes| % 10 == 0
    ensures Encoded(Decode(bytes)) == bytes
  {
    var again := Encoded(Decode(bytes));
    forall k | 0 <= k < |bytes|
      ensures again[k] == bytes[k]
    {
      RecordSplit(k, 10);
      assert k / 10 < |bytes| / 10;
      RecordReadBack(bytes, k / 10, k % 10);
    }
  }

  /**
   * `encode1DnumSpikes(filename, nID, tSt, tEn, nSp)`: ten bytes per record,
   * laid out one strided column at a time.
   */
  method Encode(s: Summary) returns (out: array<Byte>)
    requires s.Aligned()
    ensures fresh(out) && out.Length == 10 * s.Count()
    ensures out[..] == Encoded(s)
  {
    out := new Byte[10 * s.Count()](_ => 0);
    var j := 0;
    while j < 10
      invariant 0 <= j <= 10 && out.Length == 10 * s.Count()
      invariant forall k :: 0 <= k < out.Length && k % 10 < j ==> out[k] == Encoded(s)[k]
    {
      StridedFill(out, j, 10, Column(s, j));
      j := j + 1;
    }
    assert out[..] == Encoded(s);
  }
}
