/**
 * The strided slice assignment `out[offset::stride] = column` every encoder
 * uses to lay one field of every record into the output `bytearray`.
 */
module ByteArrays {
  import opened Bits

  /** The position of field `offset` of record i in records of `stride` bytes. */
  lemma StridedPosition(stride: nat, offset: nat, i: nat)
    requires offset < stride
    ensures (stride * i + offset) / stride == i && (stride * i + offset) % stride == offset
  {
    DivModUnique(stride * i + offset, stride, i, offset);
  }

  /** A byte position is determined by its record and its field. */
  lemma SameSlot(stride: nat, offset: nat, k: nat, i: nat)
    requires offset < stride && k % stride == offset && k / stride == i
    ensures k == stride * i + offset
  {
    assert k == stride * (k / stride) + k % stride;
  }

  /**
   * The first n records of `cur` have field `offset` set from `column`, and
   * every other byte is as in `before`.
   */
  ghost predicate Filled(cur: seq<Byte>, before: seq<Byte>, offset: nat, stride: nat, column: seq<Byte>, n: nat)
  {
    && offset < stride && n <= |column|
    && |cur| == |before|
    && (forall k :: 0 <= k < |cur| && k % stride == offset && k / stride < n ==> cur[k] == column[k / stride])
    && (forall k :: 0 <= k < |cur| && (k % stride != offset || k / stride >= n) ==> cur[k] == before[k])
  }

  /** Writing field `offset` of record i extends the filled prefix by one record. */
  lemma FillStep(cur: seq<Byte>, before: seq<Byte>, offset: nat, stride: nat, column: seq<Byte>, i: nat)
    requires offset < stride && |cur| == stride * |column| && i < |column|
    requires Filled(cur, before, offset, stride, column, i)
    ensures stride * i + offset < |cur|
    ensures Filled(cur[stride * i + offset := column[i]], before, offset, stride, column, i + 1)
  {
    var pos := stride * i + offset;
    StridedPosition(stride, offset, i);
    MulAddBound(i, |column|, stride, offset);
    assert stride * i == i * stride && |column| * stride == stride * |column|;
    var next := cur[pos := column[i]];
    forall k | 0 <= k < |next| && k % stride == offset && k / stride == i
      ensures k == pos
    {
      SameSlot(stride, offset, k, i);
    }
  }

  /** Once every record is filled, the strided slots hold the column and the rest is as before. */
  lemma FillDone(cur: seq<Byte>, before: seq<Byte>, offset: nat, stride: nat, column: seq<Byte>)
    requires offset < stride && |cur| == stride * |column|
    requires Filled(cur, before, offset, stride, column, |column|)
    ensures forall k :: 0 <= k < |cur| && k % stride == offset ==> k / stride < |column| && cur[k] == column[k / stride]
    ensures forall k :: 0 <= k < |cur| && k % stride != offset ==> cur[k] == before[k]
  {
    assert |column| * stride == stride * |column|;
    forall k | 0 <= k < |cur|
      ensures k / stride < |column|
    {
      DivBound(k, |column|, stride);
    }
  }

  /**
   * `out[offset::stride] = column`: byte `offset` of record i becomes
   * `column[i]`; every other byte of `out` is left as it was.
   */
  method StridedFill(out: array<Byte>, offset: nat, stride: nat, column: seq<Byte>)
    requires offset < stride && out.Length == stride * |column|
    modifies out
    ensures forall k :: 0 <= k < out.Length && k % stride == offset ==> out[k] == column[k / stride]
    ensures forall k :: 0 <= k < out.Length && k % stride != offset ==> out[k] == old(out[k])
  {
    ghost var before := out[..];
    var i := 0;
    while i < |column|
      invariant 0 <= i <= |column|
      invariant Filled(out[..], before, offset, stride, column, i)
    {
      FillStep(out[..], before, offset, stride, column, i);
      ghost var prev := out[..];
      out[stride * i + offset] := column[i];
      assert out[..] == prev[stride * i + offset := column[i]];
      i := i + 1;
    }
    FillDone(out[..], before, offset, stride, column);
  }
}
