/**
 * The columns of a spike event set as plain values: index-aligned
 * sequences x, y (absent for one spatial dimension), p and t, with t an
 * integer in one unit: microseconds as the codecs store them, and the unit
 * of `samplingTime` for the tensor binner. The codecs and the binner produce and
 * consume these; the `Event` class of module SpikeEvent owns one copy.
 */
module EventColumns {

  datatype Columns = Columns(x: seq<nat>, y: Option<seq<nat>>, p: seq<nat>, t: seq<nat>)
  {
    /** Every column has one entry per event. */
    predicate Aligned()
    {
      |p| == |x| && |t| == |x| && (y.Some? ==> |y.value| == |x|)
    }

    function Count(): nat
    {
      |x|
    }
  }

  datatype Option<T> = None | Some(value: T)

  /** The exceptions the source raises for structural mismatches. */
  datatype Error =
    | DimensionMismatch(expected: nat, actual: nat)  // encode*Dspikes on an event of the wrong dim
    | UnsupportedRank(rank: nat)                      // spikeArrayToEvent on a tensor of rank other than 3 or 4
    | EmptyEventSet                                   // p.min() on an event set without events
    | EmptyFile                                       // a reader's shifts on the float array numpy makes of no bytes

  datatype Result<T> = Success(value: T) | Failure(error: Error)

  /** The smallest element of a non-empty sequence (`p.min()`). */
  function SeqMin(s: seq<int>): (m: int)
    requires |s| > 0
    ensures m in s
    ensures forall i :: 0 <= i < |s| ==> m <= s[i]
  {
    if |s| == 1 then s[0]
    else
      var rest := SeqMin(s[1..]);
      if s[0] <= rest then s[0] else rest
  }

  /** The largest element of a non-empty sequence (`max(...)`). */
  function SeqMax(s: seq<nat>): (m: nat)
    requires |s| > 0
    ensures m in s
    ensures forall i :: 0 <= i < |s| ==> s[i] <= m
  {
    if |s| == 1 then s[0]
    else
      var rest := SeqMax(s[1..]);
      if s[0] >= rest then s[0] else rest
  }

  /** A polarity column is normalised when its smallest value is 0. */
  predicate MinIsZero(p: seq<int>)
  {
    (exists i :: 0 <= i < |p| && p[i] == 0) && forall i :: 0 <= i < |p| ==> p[i] >= 0
  }

  /** `p - p.min()`, element-wise. */
  function Normalize(p: seq<int>): (r: seq<int>)
    requires |p| > 0
    ensures |r| == |p| && MinIsZero(r)
    ensures forall i, j :: 0 <= i < |p| && 0 <= j < |p| ==> r[i] - r[j] == p[i] - p[j]
  {
    var m := SeqMin(p);
    var r := seq(|p|, i requires 0 <= i < |p| => p[i] - m);
    assert forall k :: 0 <= k < |p| && p[k] == m ==> r[k] == 0;
    r
  }

  /** Normalising subtracts the column's minimum from every entry. */
  lemma NormalizeShifts(p: seq<int>, r: seq<int>)
    requires |p| > 0 && |r| == |p|
    requires forall i :: 0 <= i < |p| ==> r[i] == p[i] - SeqMin(p)
    ensures r == Normalize(p)
  {
    var n := Normalize(p);
    forall i | 0 <= i < |p|
      ensures n[i] == r[i]
    {
      assert n[i] == p[i] - SeqMin(p);
    }
  }

  /** A column that already has minimum 0 is left as it is. */
  lemma NormalizeKeepsNormalized(p: seq<int>)
    requires |p| > 0 && MinIsZero(p)
    ensures Normalize(p) == p
  {
    var i :| 0 <= i < |p| && p[i] == 0;
    assert SeqMin(p) <= p[i];
  }

  /** Normalising twice is normalising once. */
  lemma NormalizeIdempotent(p: seq<int>)
    requires |p| > 0
    ensures Normalize(Normalize(p)) == Normalize(p)
  {
    NormalizeKeepsNormalized(Normalize(p));
  }
}
