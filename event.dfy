/**
 * The spike event container, `class event` of spikeFileIO, with its two
 * scatter methods, and `spikeArrayToEvent`, which builds one from a tensor.
 */
module SpikeEvent {
  import opened EventColumns
  import opened Binning

  /** `p.min()`: the smallest entry of a non-empty column. */
  method Minimum(s: seq<int>) returns (m: int)
    requires |s| > 0
    ensures m in s && forall i :: 0 <= i < |s| ==> m <= s[i]
    ensures m == SeqMin(s)
  {
    m := s[0];
    var i := 1;
    while i < |s|
      invariant 1 <= i <= |s|
      invariant m in s[..i]
      invariant forall j :: 0 <= j < i ==> m <= s[j]
    {
      if s[i] < m {
        m := s[i];
      }
      i := i + 1;
    }
    assert s[..i] == s;
  }

  class Event {
    /** 1 when the event set has no y column, 2 otherwise. */
    var dim: nat
    var x: seq<nat>
    var y: Option<seq<nat>>
    /** Polarity or channel; shifted so that its minimum is 0 on construction. */
    var p: seq<int>
    /** Integer timestamps: the file's microseconds, or the unit of `samplingTime` when binned. */
    var t: seq<nat>

    /** The invariant every constructed event satisfies. */
    ghost predicate Valid()
      reads this
    {
      && (dim == 1 || dim == 2)
      && (dim == 1 <==> y.None?)
      && |p| > 0
      && MinIsZero(p)
    }

    /**
     * The event's columns as a value; `View().Aligned()` says every column has
     * one entry per event, which the source never checks.
     */
    function View(): Columns
      reads this
      requires Valid()
    {
      Columns(x, y, p, t)
    }

    /**
     * `event(xEvent, yEvent, pEvent, tEvent)`: dim is 1 exactly when no y is
     * given, x, y and t are kept, and p is shifted in place by its minimum.
     */
    constructor (xs: seq<nat>, ys: Option<seq<nat>>, ps: seq<int>, ts: seq<nat>)
      requires |ps| > 0
      ensures Valid()
      ensures dim == (if ys.None? then 1 else 2)
      ensures x == xs && y == ys && t == ts
      ensures p == Normalize(ps)
    {
      dim := if ys.None? then 1 else 2;
      x, y, p, t := xs, ys, ps, ts;
      new;
      var m := Minimum(p);
      ghost var m0 := SeqMin(ps);
      assert m == m0;
      var i := 0;
      while i < |p|
        invariant 0 <= i <= |p| == |ps|
        invariant forall j :: 0 <= j < i ==> p[j] == ps[j] - m0
        invariant forall j :: i <= j < |p| ==> p[j] == ps[j]
        invariant dim == (if ys.None? then 1 else 2)
        invariant x == xs && y == ys && t == ts
      {
        p := p[i := p[i] - m];
        i := i + 1;
      }
      NormalizeShifts(ps, p);
    }

    /**
     * `toSpikeTensor(emptyTensor, samplingTime)`: every event whose
     * `[p, y, x, round(t / samplingTime)]` lies inside the tensor (y is 0 in 1D)
     * sets that cell to `1 / samplingTime`; the others are dropped silently.
     */
    method ToSpikeTensor(data: array<real>, shape: seq<nat>, samplingTime: nat)
      requires Valid() && View().Aligned() && samplingTime > 0
      requires |shape| == 4 && data.Length == Product(shape)
      requires dim == 1 ==> shape[1] > 0
      modifies data
      ensures data[..] == Scattered(old(data[..]), shape, View(), samplingTime)
    {
      var c := View();
      ghost var before := data[..];
      ScatterNone(before, shape, c, samplingTime);
      var i := 0;
      while i < |t|
        invariant 0 <= i <= |t|
        invariant data[..] == ScatteredBy(before, shape, c, i, samplingTime)
      {
        var xi, pi, bi := c.x[i], c.p[i], RoundDiv(c.t[i], samplingTime);
        var yi := if dim == 1 then 0 else c.y.value[i];
        ScatterStep(before, shape, c, i, samplingTime);
        assert Target(c, i, samplingTime) == [pi, yi, xi, bi];
        if xi < shape[2] && pi < shape[0] && bi < shape[3] && (dim == 1 || yi < shape[1]) {
          assert Kept(c, i, samplingTime, shape);
          data[Offset([pi, yi, xi, bi], shape)] := 1.0 / (samplingTime as real);
        } else {
          assert !Kept(c, i, samplingTime, shape);
        }
        i := i + 1;
      }
    }

    /**
     * `toSpikeArray(samplingTime, dim)`: a fresh zero tensor of the given
     * shape, or of the automatic one, with the events scattered into it.
     * A 1D shape `[channels, width, bins]` is filled as `[channels, 1, width, bins]`,
     * which has the same row-major contents.
     */
    method ToSpikeArray(samplingTime: nat, dims: Option<seq<nat>>) returns (shape: seq<nat>, data: array<real>)
      requires Valid() && View().Aligned() && samplingTime > 0
      requires dims.Some? ==> |dims.value| == dim + 2
      ensures shape == if dims.Some? then dims.value else AutoShape(View(), samplingTime)
      ensures fresh(data) && data.Length == Product(shape)
      ensures data[..] == Scattered(Zeros(Product(shape)), FrameShape(shape), View(), samplingTime)
    {
      shape := if dims.Some? then dims.value else AutoShape(View(), samplingTime);
      var frame := FrameShape(shape);
      data := new real[Product(frame)](_ => 0.0);
      assert data[..] == Zeros(Product(shape));
      ToSpikeTensor(data, frame, samplingTime);
    }
  }

  /**
   * `spikeArrayToEvent(spikeMat, samplingTime)`: one event per positive cell;
   * a tensor of rank other than 3 or 4 is refused, and so (by the event's
   * `p.min()`) is a tensor without positive cells.
   */
  method SpikeArrayToEvent(shape: seq<nat>, data: seq<real>, samplingTime: nat) returns (r: Result<Event>)
    requires |data| == Product(shape)
    ensures r.Success? <==> (|shape| == 3 || |shape| == 4) && |PositiveCells(data)| > 0
    ensures !(|shape| == 3 || |shape| == 4) ==> r == Failure(UnsupportedRank(|shape|))
    ensures (|shape| == 3 || |shape| == 4) && |PositiveCells(data)| == 0 ==> r == Failure(EmptyEventSet)
    ensures r.Success? ==>
      var g := Gather(shape, data, samplingTime).value;
      && fresh(r.value) && r.value.Valid() && r.value.View().Aligned()
      && r.value.dim == |shape| - 2
      && r.value.x == g.x && r.value.y == g.y && r.value.t == g.t
      && r.value.p == Normalize(g.p)
  {
    var g := Gather(shape, data, samplingTime);
    if g.Failure? {
      return Failure(g.error);
    }
    var c := g.value;
    if |c.p| == 0 {
      return Failure(EmptyEventSet);
    }
    var e := new Event(c.x, c.y, c.p, c.t);
    return Success(e);
  }
}
