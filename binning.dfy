/**
 * Dense spike tensors and the two conversions between them and event
 * columns: the scatter of `event.toSpikeTensor` / `event.toSpikeArray`
 * (specified here, performed in place by module SpikeEvent) and the gather
 * of `spikeArrayToEvent`.
 *
 * A tensor is its flat contents in row-major (C) order together with its
 * shape, the layout numpy uses; axis order is [channel, (height,) width, bin].
 */
module Binning {
  import opened EventColumns
  import Bits

  // ---------------------------------------------------------------------
  // Shapes and row-major offsets

  function Product(shape: seq<nat>): nat
  {
    if |shape| == 0 then 1 else Product(shape[..|shape| - 1]) * shape[|shape| - 1]
  }

  /** idx addresses a cell of a tensor of this shape. */
  predicate Within(idx: seq<nat>, shape: seq<nat>)
  {
    |idx| == |shape| && forall a :: 0 <= a < |idx| ==> idx[a] < shape[a]
  }

  /** Row-major flat position of a multi-index (the last axis varies fastest). */
  function Offset(idx: seq<nat>, shape: seq<nat>): (k: nat)
    requires |idx| == |shape|
    ensures Within(idx, shape) ==> k < Product(shape)
  {
    if |idx| == 0 then 0
    else
      var n := |idx|;
      var init, dims, last := idx[..n - 1], shape[..n - 1], shape[n - 1];
      var o := Offset(init, dims);
      assert Within(idx, shape) ==> o * last + idx[n - 1] < Product(shape) by {
        if Within(idx, shape) {
          assert Within(init, dims);
          Bits.MulAddBound(o, Product(dims), last, idx[n - 1]);
        }
      }
      o * last + idx[n - 1]
  }

  /** Appending an axis: the index gains a last coordinate and the offset a last digit. */
  lemma OffsetSnoc(init: seq<nat>, dims: seq<nat>, x: nat, last: nat)
    requires Within(init, dims) && x < last
    ensures Within(init + [x], dims + [last])
    ensures Offset(init + [x], dims + [last]) == Offset(init, dims) * last + x
  {
    var idx, shape := init + [x], dims + [last];
    assert idx[..|idx| - 1] == init && shape[..|shape| - 1] == dims;
    assert forall a :: 0 <= a < |init| ==> idx[a] == init[a] && shape[a] == dims[a];
  }

  /** The multi-index of a flat position: `np.unravel_index`, the inverse of Offset. */
  function Unravel(k: nat, shape: seq<nat>): (idx: seq<nat>)
    requires k < Product(shape)
    ensures Within(idx, shape) && Offset(idx, shape) == k
    decreases |shape|
  {
    if |shape| == 0 then []
    else
      var n := |shape|;
      var dims, last := shape[..n - 1], shape[n - 1];
      var q := k / last;
      assert Product(shape) == Product(dims) * last;
      Bits.DivBound(k, Product(dims), last);
      assert q < Product(dims);
      var init := Unravel(q, dims);
      assert shape == dims + [last];
      OffsetSnoc(init, dims, k % last, last);
      assert k == q * last + k % last;
      init + [k % last]
  }

  /** Unravel undoes Offset, so distinct cells have distinct offsets. */
  lemma {:induction false} UnravelOffset(idx: seq<nat>, shape: seq<nat>)
    requires Within(idx, shape)
    ensures Unravel(Offset(idx, shape), shape) == idx
  {
    if |idx| > 0 {
      var n := |idx|;
      var init, dims, last := idx[..n - 1], shape[..n - 1], shape[n - 1];
      assert Within(init, dims);
      Bits.DivModUnique(Offset(idx, shape), last, Offset(init, dims), idx[n - 1]);
      UnravelOffset(init, dims);
      assert idx == init + [idx[n - 1]];
    }
  }

  lemma OffsetInjective(a: seq<nat>, b: seq<nat>, shape: seq<nat>)
    requires Within(a, shape) && Within(b, shape)
    requires Offset(a, shape) == Offset(b, shape)
    ensures a == b
  {
    UnravelOffset(a, shape);
    UnravelOffset(b, shape);
  }

  // ---------------------------------------------------------------------
  // Rounding of t / samplingTime

  /** `np.round(n / d)`: the nearest integer, ties to the even one. */
  function RoundDiv(n: nat, d: nat): (r: nat)
    requires d > 0
    ensures 2 * (r * d - n) <= d && 2 * (n - r * d) <= d
    ensures 2 * (n - r * d) == d || 2 * (r * d - n) == d ==> r % 2 == 0
  {
    var q, rem := n / d, n % d;
    var r := if 2 * rem < d then q
             else if 2 * rem > d then q + 1
             else if q % 2 == 0 then q
             else q + 1;
    RoundStep(n, d, q, rem, r);
    r
  }

  lemma RoundStep(n: nat, d: nat, q: nat, rem: nat, r: nat)
    requires d > 0 && n == q * d + rem && rem < d && (r == q || r == q + 1)
    requires r == q ==> 2 * rem <= d
    requires r == q + 1 ==> 2 * rem >= d
    ensures 2 * (r * d - n) <= d && 2 * (n - r * d) <= d
    ensures n - r * d == (if r == q then rem else rem - d)
  {
    assert (q + 1) * d == q * d + d;
  }

  /** A timestamp that is a whole number of sampling periods falls exactly in its bin. */
  lemma RoundDivExact(k: nat, d: nat)
    requires d > 0
    ensures RoundDiv(k * d, d) == k
  {
    Bits.DivModUnique(k * d, d, k, 0);
  }

  /** Rounding never moves a quotient below its floor. */
  lemma RoundDivAtLeastFloor(n: nat, d: nat)
    requires d > 0
    ensures n / d <= RoundDiv(n, d)
  {
  }

  // ---------------------------------------------------------------------
  // Scatter

  /** The value every written cell receives: `1 / samplingTime`. */
  function SpikeValue(samplingTime: nat): (v: real)
    requires samplingTime > 0
    ensures v > 0.0
  {
    1.0 / (samplingTime as real)
  }

  /** The cell `[p, y, x, round(t / samplingTime)]` event i is written to; y is 0 in 1D. */
  function Target(c: Columns, i: nat, samplingTime: nat): (cell: seq<nat>)
    requires c.Aligned() && i < c.Count() && samplingTime > 0
    ensures |cell| == 4
  {
    [c.p[i], if c.y.Some? then c.y.value[i] else 0, c.x[i], RoundDiv(c.t[i], samplingTime)]
  }

  /** Event i survives the bounds filter of a tensor of this shape. */
  predicate Kept(c: Columns, i: nat, samplingTime: nat, shape: seq<nat>)
    requires c.Aligned() && i < c.Count() && samplingTime > 0
  {
    Within(Target(c, i, samplingTime), shape)
  }

  /** Flat position k is written by one of the first n events. */
  ghost predicate HitBy(c: Columns, n: nat, samplingTime: nat, shape: seq<nat>, k: nat)
    requires c.Aligned() && n <= c.Count() && samplingTime > 0 && |shape| == 4
  {
    exists i :: 0 <= i < n && Kept(c, i, samplingTime, shape) && Offset(Target(c, i, samplingTime), shape) == k
  }

  /**
   * The tensor after the first n events are scattered into `before`: written
   * cells hold `1 / samplingTime`, every other cell keeps its value.
   */
  ghost function ScatteredBy(before: seq<real>, shape: seq<nat>, c: Columns, n: nat, samplingTime: nat): (after: seq<real>)
    requires |shape| == 4 && c.Aligned() && n <= c.Count() && samplingTime > 0
    ensures |after| == |before|
  {
    seq(|before|, k requires 0 <= k < |before| =>
      if HitBy(c, n, samplingTime, shape, k) then SpikeValue(samplingTime) else before[k])
  }

  ghost function Scattered(before: seq<real>, shape: seq<nat>, c: Columns, samplingTime: nat): (after: seq<real>)
    requires |shape| == 4 && c.Aligned() && samplingTime > 0
    ensures |after| == |before|
  {
    ScatteredBy(before, shape, c, c.Count(), samplingTime)
  }

  /** Scattering one more event writes its cell if it is kept and nothing else. */
  lemma ScatterStep(before: seq<real>, shape: seq<nat>, c: Columns, n: nat, samplingTime: nat)
    requires |shape| == 4 && |before| == Product(shape) && c.Aligned() && n < c.Count() && samplingTime > 0
    ensures ScatteredBy(before, shape, c, n + 1, samplingTime) ==
      if Kept(c, n, samplingTime, shape)
      then ScatteredBy(before, shape, c, n, samplingTime)[Offset(Target(c, n, samplingTime), shape) := SpikeValue(samplingTime)]
      else ScatteredBy(before, shape, c, n, samplingTime)
  {
    var prev, next := ScatteredBy(before, shape, c, n, samplingTime), ScatteredBy(before, shape, c, n + 1, samplingTime);
    forall k | 0 <= k < |before|
      ensures HitBy(c, n + 1, samplingTime, shape, k) <==>
        HitBy(c, n, samplingTime, shape, k) || (Kept(c, n, samplingTime, shape) && Offset(Target(c, n, samplingTime), shape) == k)
    {
      if HitBy(c, n + 1, samplingTime, shape, k) {
        var i :| 0 <= i < n + 1 && Kept(c, i, samplingTime, shape) && Offset(Target(c, i, samplingTime), shape) == k;
        if i < n {
          assert HitBy(c, n, samplingTime, shape, k);
        }
      }
    }
  }

  /** Scattering no events leaves the tensor as it was. */
  lemma ScatterNone(before: seq<real>, shape: seq<nat>, c: Columns, samplingTime: nat)
    requires |shape| == 4 && c.Aligned() && samplingTime > 0
    ensures ScatteredBy(before, shape, c, 0, samplingTime) == before
  {
  }

  /** Every kept event's cell holds `1 / samplingTime` afterwards. */
  lemma ScatterWritesKept(before: seq<real>, shape: seq<nat>, c: Columns, samplingTime: nat, i: nat)
    requires |shape| == 4 && |before| == Product(shape) && c.Aligned() && samplingTime > 0
    requires i < c.Count() && Kept(c, i, samplingTime, shape)
    ensures Scattered(before, shape, c, samplingTime)[Offset(Target(c, i, samplingTime), shape)] == SpikeValue(samplingTime)
  {
  }

  /** A cell that no kept event targets keeps its value. */
  lemma ScatterLeavesOthers(before: seq<real>, shape: seq<nat>, c: Columns, samplingTime: nat, cell: seq<nat>)
    requires |shape| == 4 && |before| == Product(shape) && c.Aligned() && samplingTime > 0
    requires Within(cell, shape)
    requires forall i :: 0 <= i < c.Count() && Kept(c, i, samplingTime, shape) ==> Target(c, i, samplingTime) != cell
    ensures Scattered(before, shape, c, samplingTime)[Offset(cell, shape)] == before[Offset(cell, shape)]
  {
    var k := Offset(cell, shape);
    if HitBy(c, c.Count(), samplingTime, shape, k) {
      var i :| 0 <= i < c.Count() && Kept(c, i, samplingTime, shape) && Offset(Target(c, i, samplingTime), shape) == k;
      OffsetInjective(Target(c, i, samplingTime), cell, shape);
    }
  }

  /** Scattering the same events twice changes nothing more: duplicate writes are harmless. */
  lemma ScatterIdempotent(before: seq<real>, shape: seq<nat>, c: Columns, samplingTime: nat)
    requires |shape| == 4 && c.Aligned() && samplingTime > 0
    ensures Scattered(Scattered(before, shape, c, samplingTime), shape, c, samplingTime)
         == Scattered(before, shape, c, samplingTime)
  {
  }

  // ---------------------------------------------------------------------
  // toSpikeArray's frame

  function Zeros(n: nat): (z: seq<real>)
    ensures |z| == n && forall k :: 0 <= k < n ==> z[k] == 0.0
  {
    seq(n, _ => 0.0)
  }

  /**
   * The shape `toSpikeArray` derives when none is given:
   * `round(max + 1)` per coordinate axis and `round(max(t) / samplingTime + 1)` bins.
   */
  function AutoShape(c: Columns, samplingTime: nat): (dims: seq<nat>)
    requires c.Aligned() && c.Count() > 0 && samplingTime > 0
    ensures |dims| == (if c.y.None? then 3 else 4)
  {
    var bins := RoundDiv(SeqMax(c.t) + samplingTime, samplingTime);
    if c.y.None? then [SeqMax(c.p) + 1, SeqMax(c.x) + 1, bins]
    else [SeqMax(c.p) + 1, SeqMax(c.y.value) + 1, SeqMax(c.x) + 1, bins]
  }

  /** The rank-4 frame filled for `dims`: a 1D shape gets a height axis of length 1. */
  function FrameShape(dims: seq<nat>): (frame: seq<nat>)
    requires |dims| == 3 || |dims| == 4
    ensures |frame| == 4 && Product(frame) == Product(dims)
  {
    if |dims| == 3 then
      var frame := [dims[0], 1, dims[1], dims[2]];
      assert frame[..3] == [dims[0], 1, dims[1]] && frame[..3][..2] == [dims[0], 1];
      assert dims[..2] == [dims[0], dims[1]] && [dims[0], 1][..1] == dims[..2][..1] == [dims[0]];
      assert Product([dims[0]]) == dims[0];
      assert Product([dims[0], 1]) == dims[0];
      assert Product([dims[0], 1, dims[1]]) == Product(dims[..2]);
      frame
    else dims
  }

  /**
   * With the automatic shape, every event whose timestamp is a whole number of
   * sampling periods lands inside the tensor.
   */
  lemma AutoShapeKeepsWholeBins(c: Columns, samplingTime: nat, i: nat)
    requires c.Aligned() && samplingTime > 0 && i < c.Count()
    requires c.t[i] % samplingTime == 0
    ensures Kept(c, i, samplingTime, FrameShape(AutoShape(c, samplingTime)))
  {
    WholeBinBelowCount(c.t[i], SeqMax(c.t), samplingTime);
    if c.y.Some? {
      assert c.y.value[i] <= SeqMax(c.y.value);
    }
    assert c.p[i] <= SeqMax(c.p) && c.x[i] <= SeqMax(c.x);
  }

  /**
   * Integer inputs do not save the latest event: with one event at t = 3 and
   * samplingTime 2 the automatic shape has `round(2.5) = 2` bins, while the
   * event's bin is `round(1.5) = 2`, so the bounds filter drops it.
   */
  lemma HalfBinLastEventDropped()
    ensures var c := Columns([0], None, [0], [3]);
      c.Aligned() && c.Count() == 1 && AutoShape(c, 2)[2] == 2 && Target(c, 0, 2)[3] == 2
      && !Kept(c, 0, 2, FrameShape(AutoShape(c, 2)))
  {
    var c := Columns([0], None, [0], [3]);
    assert SeqMax(c.t) == 3;
    assert RoundDiv(5, 2) == 2;
    assert RoundDiv(3, 2) == 2;
  }

  /** A timestamp t <= maxT on a bin boundary rounds below `round(maxT / st + 1)`. */
  lemma WholeBinBelowCount(t: nat, maxT: nat, st: nat)
    requires st > 0 && t <= maxT && t % st == 0
    ensures RoundDiv(t, st) < RoundDiv(maxT + st, st)
  {
    var k := t / st;
    assert t == k * st;
    RoundDivExact(k, st);
    assert k <= maxT / st by {
      if k > maxT / st {
        Bits.MulLe(maxT / st + 1, k, st);
      }
    }
    Bits.DivModUnique(maxT + st, st, maxT / st + 1, maxT % st);
    RoundDivAtLeastFloor(maxT + st, st);
  }

  // ---------------------------------------------------------------------
  // Gather

  /** Flat positions of the cells holding a value > 0, ascending: `np.argwhere(spikeMat > 0)`. */
  function PositiveCells(data: seq<real>): (r: seq<nat>)
    ensures forall j :: 0 <= j < |r| ==> r[j] < |data| && data[r[j]] > 0.0
    ensures forall k :: 0 <= k < |data| && data[k] > 0.0 ==> k in r
    ensures forall j, j' :: 0 <= j < j' < |r| ==> r[j] < r[j']
  {
    if |data| == 0 then []
    else
      var n := |data| - 1;
      PositiveCells(data[..n]) + (if data[n] > 0.0 then [n] else [])
  }

  /**
   * `spikeArrayToEvent` before the event is built: one event per positive cell
   * in row-major order, p from axis 0, y and x from the spatial axes and
   * t = bin * samplingTime; rank 3 gives 1D columns, rank 4 gives 2D columns.
   */
  function Gather(shape: seq<nat>, data: seq<real>, samplingTime: nat): (r: Result<Columns>)
    requires |data| == Product(shape)
    ensures r.Success? <==> |shape| == 3 || |shape| == 4
    ensures r.Failure? ==> r.error == UnsupportedRank(|shape|)
    ensures r.Success? ==> r.value.Aligned() && r.value.Count() == |PositiveCells(data)|
    ensures r.Success? ==> (r.value.y.None? <==> |shape| == 3)
  {
    var cells := PositiveCells(data);
    var n := |cells|;
    var at: seq<seq<nat>> := seq(n, j requires 0 <= j < n => Unravel(cells[j], shape));
    assert forall j :: 0 <= j < n ==> |at[j]| == |shape|;
    if |shape| == 3 then
      Success(Columns(seq(n, j requires 0 <= j < n => at[j][1]),
                      None,
                      seq(n, j requires 0 <= j < n => at[j][0]),
                      seq(n, j requires 0 <= j < n => BinStart(at[j][2], samplingTime))))
    else if |shape| == 4 then
      Success(Columns(seq(n, j requires 0 <= j < n => at[j][2]),
                      Some(seq(n, j requires 0 <= j < n => at[j][1])),
                      seq(n, j requires 0 <= j < n => at[j][0]),
                      seq(n, j requires 0 <= j < n => BinStart(at[j][3], samplingTime))))
    else
      Failure(UnsupportedRank(|shape|))
  }

  /** The timestamp `spikeArrayToEvent` gives an event of time bin `bin`. */
  function BinStart(bin: nat, samplingTime: nat): nat
  {
    bin * samplingTime
  }

  /** The cell an event came from: `[p, x, bin]` for 1D columns, `[p, y, x, bin]` for 2D. */
  function Cell(c: Columns, j: nat, samplingTime: nat): (cell: seq<nat>)
    requires c.Aligned() && j < c.Count() && samplingTime > 0
    ensures |cell| == (if c.y.None? then 3 else 4)
  {
    if c.y.None? then [c.p[j], c.x[j], c.t[j] / samplingTime]
    else [c.p[j], c.y.value[j], c.x[j], c.t[j] / samplingTime]
  }

  /**
   * The j-th gathered event comes from the j-th positive cell in row-major
   * order, and its timestamp is the start of that cell's time bin.
   */
  lemma GatherCell(shape: seq<nat>, data: seq<real>, samplingTime: nat, j: nat)
    requires |data| == Product(shape) && samplingTime > 0
    requires |shape| == 3 || |shape| == 4
    requires j < |PositiveCells(data)|
    ensures Gather(shape, data, samplingTime).value.Count() == |PositiveCells(data)|
    ensures Cell(Gather(shape, data, samplingTime).value, j, samplingTime) == Unravel(PositiveCells(data)[j], shape)
    ensures Gather(shape, data, samplingTime).value.t[j]
      == BinStart(Unravel(PositiveCells(data)[j], shape)[|shape| - 1], samplingTime)
  {
    var u := Unravel(PositiveCells(data)[j], shape);
    var b := u[|u| - 1];
    Bits.DivModUnique(b * samplingTime, samplingTime, b, 0);
  }

  /** Every gathered event sits on a positive cell, in row-major order. */
  lemma GatherSound(shape: seq<nat>, data: seq<real>, samplingTime: nat)
    requires |data| == Product(shape) && samplingTime > 0
    requires |shape| == 3 || |shape| == 4
    ensures var c := Gather(shape, data, samplingTime).value;
      forall j :: 0 <= j < c.Count() ==>
        Within(Cell(c, j, samplingTime), shape) && data[Offset(Cell(c, j, samplingTime), shape)] > 0.0
    ensures var c := Gather(shape, data, samplingTime).value;
      forall j, j' :: 0 <= j < j' < c.Count() ==>
        Offset(Cell(c, j, samplingTime), shape) < Offset(Cell(c, j', samplingTime), shape)
  {
    var c := Gather(shape, data, samplingTime).value;
    forall j | 0 <= j < c.Count()
      ensures Offset(Cell(c, j, samplingTime), shape) == PositiveCells(data)[j]
      ensures Within(Cell(c, j, samplingTime), shape)
    {
      GatherCell(shape, data, samplingTime, j);
    }
  }

  /** Every positive cell of the tensor yields an event. */
  lemma GatherComplete(shape: seq<nat>, data: seq<real>, samplingTime: nat, cell: seq<nat>)
    requires |data| == Product(shape) && samplingTime > 0
    requires |shape| == 3 || |shape| == 4
    requires Within(cell, shape) && data[Offset(cell, shape)] > 0.0
    ensures var c := Gather(shape, data, samplingTime).value;
      exists j :: 0 <= j < c.Count() && Cell(c, j, samplingTime) == cell
  {
    var cells := PositiveCells(data);
    var k := Offset(cell, shape);
    var j :| 0 <= j < |cells| && cells[j] == k;
    GatherCell(shape, data, samplingTime, j);
    UnravelOffset(cell, shape);
  }

  // ---------------------------------------------------------------------
  // Scatter, then gather

  /** A rank-4 frame cell as a cell of the original shape: the 1D frame's height axis is dropped. */
  function Squeeze(cell: seq<nat>, rank: nat): (r: seq<nat>)
    requires |cell| == 4
    ensures |r| == (if rank == 3 then 3 else 4)
  {
    if rank == 3 then [cell[0], cell[2], cell[3]] else cell
  }

  /** The 1D frame `[c, 1, w, b]` lays cells out exactly as `[c, w, b]` does. */
  lemma SqueezeOffset(cell: seq<nat>, dims: seq<nat>)
    requires |dims| == 3 && |cell| == 4 && cell[1] == 0
    ensures Within(cell, FrameShape(dims)) <==> Within(Squeeze(cell, 3), dims)
    ensures Offset(cell, FrameShape(dims)) == Offset(Squeeze(cell, 3), dims)
  {
    var a, b, t := cell[0], cell[2], cell[3];
    var d0, d1, d2 := dims[0], dims[1], dims[2];
    assert FrameShape(dims) == [d0, 1, d1, d2];
    assert cell == [a, 0, b, t] && dims == [d0, d1, d2];
    assert [a, 0, b, t][..3] == [a, 0, b] && [d0, 1, d1, d2][..3] == [d0, 1, d1];
    assert [a, 0, b][..2] == [a, 0] && [d0, 1, d1][..2] == [d0, 1];
    assert [a, 0][..1] == [a] && [d0, 1][..1] == [d0];
    assert [a, b, t][..2] == [a, b] && [d0, d1, d2][..2] == [d0, d1];
    assert [a, b][..1] == [a] && [d0, d1][..1] == [d0];
    assert [a][..0] == [] && [d0][..0] == [];
    assert Offset([a], [d0]) == a;
    assert Offset([a, 0], [d0, 1]) == a;
    assert Offset([a, 0, b], [d0, 1, d1]) == Offset([a, b], [d0, d1]);
  }

  /** A kept event's cell, squeezed to the original shape, lies inside it at the same flat position. */
  lemma KeptSqueezed(c: Columns, dims: seq<nat>, samplingTime: nat, i: nat)
    requires c.Aligned() && samplingTime > 0 && i < c.Count()
    requires |dims| == (if c.y.None? then 3 else 4)
    requires Kept(c, i, samplingTime, FrameShape(dims))
    ensures Within(Squeeze(Target(c, i, samplingTime), |dims|), dims)
    ensures Offset(Squeeze(Target(c, i, samplingTime), |dims|), dims) == Offset(Target(c, i, samplingTime), FrameShape(dims))
  {
    if |dims| == 3 {
      SqueezeOffset(Target(c, i, samplingTime), dims);
    }
  }

  /**
   * `spikeArrayToEvent` after `toSpikeArray(samplingTime, dims)`, soundness:
   * every event recovered from the filled tensor sits on the cell of a kept
   * event, and its timestamp is that event's time quantised to its bin start.
   */
  lemma ScatterThenGatherSound(c: Columns, dims: seq<nat>, samplingTime: nat, j: nat)
    requires c.Aligned() && samplingTime > 0
    requires |dims| == (if c.y.None? then 3 else 4)
    requires j < |PositiveCells(Scattered(Zeros(Product(dims)), FrameShape(dims), c, samplingTime))|
    ensures var g := Gather(dims, Scattered(Zeros(Product(dims)), FrameShape(dims), c, samplingTime), samplingTime).value;
      j < g.Count() &&
      exists i :: 0 <= i < c.Count() && Kept(c, i, samplingTime, FrameShape(dims))
        && Cell(g, j, samplingTime) == Squeeze(Target(c, i, samplingTime), |dims|)
        && g.t[j] == BinStart(RoundDiv(c.t[i], samplingTime), samplingTime)
  {
    var frame := FrameShape(dims);
    var data := Scattered(Zeros(Product(dims)), frame, c, samplingTime);
    GatherCell(dims, data, samplingTime, j);
    var k := PositiveCells(data)[j];
    assert HitBy(c, c.Count(), samplingTime, frame, k);
    var i :| 0 <= i < c.Count() && Kept(c, i, samplingTime, frame) && Offset(Target(c, i, samplingTime), frame) == k;
    KeptSqueezed(c, dims, samplingTime, i);
    UnravelOffset(Squeeze(Target(c, i, samplingTime), |dims|), dims);
  }

  /**
   * `spikeArrayToEvent` after `toSpikeArray(samplingTime, dims)`, completeness:
   * every kept event's cell yields a recovered event, whose timestamp is the
   * kept event's time quantised to its bin start.
   */
  lemma ScatterThenGatherComplete(c: Columns, dims: seq<nat>, samplingTime: nat, i: nat)
    requires c.Aligned() && samplingTime > 0 && i < c.Count()
    requires |dims| == (if c.y.None? then 3 else 4)
    requires Kept(c, i, samplingTime, FrameShape(dims))
    ensures var g := Gather(dims, Scattered(Zeros(Product(dims)), FrameShape(dims), c, samplingTime), samplingTime).value;
      exists j :: 0 <= j < g.Count() && Cell(g, j, samplingTime) == Squeeze(Target(c, i, samplingTime), |dims|)
        && g.t[j] == BinStart(RoundDiv(c.t[i], samplingTime), samplingTime)
  {
    var frame := FrameShape(dims);
    var data := Scattered(Zeros(Product(dims)), frame, c, samplingTime);
    var g := Gather(dims, data, samplingTime).value;
    var cell := Squeeze(Target(c, i, samplingTime), |dims|);
    KeptSqueezed(c, dims, samplingTime, i);
    ScatterWritesKept(Zeros(Product(dims)), frame, c, samplingTime, i);
    GatherComplete(dims, data, samplingTime, cell);
    var j :| 0 <= j < g.Count() && Cell(g, j, samplingTime) == cell;
    GatherCell(dims, data, samplingTime, j);
    assert cell[|dims| - 1] == RoundDiv(c.t[i], samplingTime);
  }
}
