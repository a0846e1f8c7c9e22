/** Missing-sample fill of the material property tables (`Filer`).

    A table cell left empty in the material file is a missing sample
    (`None`). `ReplaceNans` replaces every missing sample of a column by
    edge-held linear interpolation along the temperature axis: the property is
    taken to vanish at the origin (T = 0, value = 0) below the first known
    sample, and to stay flat at the last known sample above it.
 */
module Filer {
  import opened Outcomes
  import opened Tables

  /** A known sample: a temperature and the property value there. */
  datatype Sample = Sample(t: real, v: real)

  /** The point assumed before the first known sample. */
  const Origin: Sample := Sample(0.0, 0.0)

  /** The value at `t` on the line through `lo` and `hi`, with slope 0 when
      both share one temperature. */
  function Line(lo: Sample, hi: Sample, t: real): (r: real)
    ensures t == lo.t ==> r == lo.v
    ensures hi.t == lo.t ==> r == lo.v
    ensures hi.t != lo.t && t == hi.t ==> r == hi.v
  {
    if hi.t == lo.t then lo.v
    else
      var slope := (hi.v - lo.v) / (hi.t - lo.t);
      DivThenMul(hi.v - lo.v, hi.t - lo.t);
      assert t == hi.t ==> slope * (t - lo.t) == hi.v - lo.v;
      lo.v + slope * (t - lo.t)
  }

  /** Between its two ends the line stays between their values. */
  lemma LineBetween(lo: Sample, hi: Sample, t: real)
    requires lo.t < hi.t && lo.t <= t <= hi.t
    ensures lo.v <= hi.v ==> lo.v <= Line(lo, hi, t) <= hi.v
    ensures hi.v <= lo.v ==> hi.v <= Line(lo, hi, t) <= lo.v
  {
    var w := hi.t - lo.t;
    var slope := (hi.v - lo.v) / w;
    var u := t - lo.t;
    assert 0.0 <= u <= w;
    assert Line(lo, hi, t) == lo.v + slope * u;
    assert slope * w == hi.v - lo.v by {
      DivThenMul(hi.v - lo.v, w);
    }
    if lo.v <= hi.v {
      assert 0.0 <= slope by {
        DivSign(hi.v - lo.v, w);
      }
      ScaleBetween(slope, u, w);
    } else {
      assert slope <= 0.0 by {
        DivSign(lo.v - hi.v, w);
        assert slope == -((lo.v - hi.v) / w);
      }
      ScaleBetween(-slope, u, w);
      assert (-slope) * u == -(slope * u) && (-slope) * w == -(slope * w);
    }
  }

  lemma DivThenMul(a: real, b: real)
    requires b != 0.0
    ensures (a / b) * b == a
  {
  }

  lemma DivSign(a: real, b: real)
    requires a >= 0.0 && b > 0.0
    ensures a / b >= 0.0
  {
  }

  /** Scaling by a non-negative factor keeps `0 <= u <= w` in order. */
  lemma ScaleBetween(c: real, u: real, w: real)
    requires c >= 0.0 && 0.0 <= u <= w
    ensures 0.0 <= c * u <= c * w
  {
    assert c * w - c * u == c * (w - u);
  }

  /** The index of the nearest known sample at or before `i`. */
  function LastKnown(vals: seq<Option<real>>, i: nat): (r: Option<nat>)
    requires i < |vals|
    ensures r.Some? ==> r.value <= i && vals[r.value].Some?
    ensures r.Some? ==> forall j :: r.value < j <= i ==> vals[j].None?
    ensures r.None? ==> forall j :: 0 <= j <= i ==> vals[j].None?
    decreases i
  {
    if vals[i].Some? then Some(i)
    else if i == 0 then None
    else LastKnown(vals, i - 1)
  }

  /** The index of the nearest known sample at or after `i`. */
  function NextKnown(vals: seq<Option<real>>, i: nat): (r: Option<nat>)
    requires i < |vals|
    ensures r.Some? ==> i <= r.value < |vals| && vals[r.value].Some?
    ensures r.Some? ==> forall j :: i <= j < r.value ==> vals[j].None?
    ensures r.None? ==> forall j :: i <= j < |vals| ==> vals[j].None?
    decreases |vals| - i
  {
    if vals[i].Some? then Some(i)
    else if i == |vals| - 1 then None
    else NextKnown(vals, i + 1)
  }

  function SampleAt(temps: seq<real>, vals: seq<Option<real>>, k: nat): Sample
    requires k < |temps| == |vals| && vals[k].Some?
  {
    Sample(temps[k], vals[k].value)
  }

  /** The lower end used for a missing sample at `i`: the nearest known sample
      at or before it, or the origin when there is none. */
  function Below(temps: seq<real>, vals: seq<Option<real>>, i: nat): Sample
    requires i < |temps| == |vals|
  {
    match LastKnown(vals, i)
    case Some(j) => SampleAt(temps, vals, j)
    case None => Origin
  }

  /** The upper end used for a missing sample at `i`: the nearest known sample
      at or after it, or else the last known sample of the whole column
      (the origin when the column has none), which holds the tail flat. */
  function Above(temps: seq<real>, vals: seq<Option<real>>, i: nat): Sample
    requires i < |temps| == |vals|
  {
    match NextKnown(vals, i)
    case Some(k) => SampleAt(temps, vals, k)
    case None => Below(temps, vals, |vals| - 1)
  }

  /** The filled column: known samples as they are, missing ones on the line
      between their nearest known neighbours. */
  function Fill(temps: seq<real>, vals: seq<Option<real>>): (r: seq<real>)
    requires |temps| == |vals|
    ensures |r| == |temps|
  {
    seq(|temps|, i requires 0 <= i < |temps| =>
      if vals[i].Some? then vals[i].value
      else Line(Below(temps, vals, i), Above(temps, vals, i), temps[i]))
  }

  /** `Filer.replace_nans(temps, vals)`: a forward pass records the last known
      sample, a backward pass the next known one (seeded with the last known
      sample overall), and a final pass fills each missing entry on the line
      between the two. The result has one entry per temperature; a value
      column shorter than the temperature axis raises IndexError. */
  method ReplaceNans(temps: seq<real>, vals: seq<Option<real>>) returns (r: Result<seq<real>>)
    ensures r.Err? <==> |vals| < |temps|
    ensures r.Err? ==> r.fault == IndexOutOfRange
    ensures r.Ok? ==> r.value == Fill(temps, vals[..|temps|])
    ensures r.Ok? ==> |r.value| == |temps| &&
                      forall i :: 0 <= i < |temps| && vals[i].Some? ==> r.value[i] == vals[i].value
  {
    var n := |temps|;
    if |vals| < n {
      return Err(IndexOutOfRange);
    }
    var vs := vals[..n];
    var los, last := ForwardPass(temps, vs);
    var his := BackwardPass(temps, vs, last);
    var out := FinalPass(temps, vs, los, his);
    return Ok(out);
  }

  /** The forward pass of `replace_nans`: for each index, the nearest known
      sample at or before it (the origin before the first), and the last
      known sample of the column. */
  method ForwardPass(temps: seq<real>, vs: seq<Option<real>>) returns (los: seq<Sample>, last: Sample)
    requires |temps| == |vs|
    ensures |los| == |vs| && forall j :: 0 <= j < |vs| ==> los[j] == Below(temps, vs, j)
    ensures last == if |vs| == 0 then Origin else Below(temps, vs, |vs| - 1)
  {
    los := [];
    last := Origin;
    var i := 0;
    while i < |vs|
      invariant 0 <= i <= |vs| && |los| == i
      invariant forall j :: 0 <= j < i ==> los[j] == Below(temps, vs, j)
      invariant last == if i == 0 then Origin else Below(temps, vs, i - 1)
    {
      if vs[i].Some? {
        last := Sample(temps[i], vs[i].value);
      }
      los := los + [last];
      i := i + 1;
    }
  }

  /** The backward pass of `replace_nans`, seeded with the last known sample
      of the column: for each index, the nearest known sample at or after
      it, or the seed when there is none. */
  method BackwardPass(temps: seq<real>, vs: seq<Option<real>>, seed: Sample) returns (his: seq<Sample>)
    requires |temps| == |vs| && (|vs| > 0 ==> seed == Below(temps, vs, |vs| - 1))
    ensures |his| == |vs| && forall j :: 0 <= j < |vs| ==> his[j] == Above(temps, vs, j)
  {
    var n := |vs|;
    his := [];
    var hi := seed;
    var i := n;
    while i > 0
      invariant 0 <= i <= n && |his| == n - i
      invariant forall j :: i <= j < n ==> his[j - i] == Above(temps, vs, j)
      invariant i < n ==> hi == Above(temps, vs, i)
      invariant i == n && n > 0 ==> hi == Below(temps, vs, n - 1)
    {
      i := i - 1;
      AboveStep(temps, vs, i, hi);
      if vs[i].Some? {
        hi := Sample(temps[i], vs[i].value);
      }
      his := [hi] + his;
    }
  }

  /** One step of the backward pass: a known sample is its own upper end,
      a missing one inherits the upper end of the index after it. */
  lemma AboveStep(temps: seq<real>, vs: seq<Option<real>>, i: nat, next: Sample)
    requires i < |temps| == |vs|
    requires i + 1 < |vs| ==> next == Above(temps, vs, i + 1)
    requires i + 1 == |vs| ==> next == Below(temps, vs, i)
    ensures (if vs[i].Some? then Sample(temps[i], vs[i].value) else next) == Above(temps, vs, i)
  {
  }

  /** The final pass of `replace_nans`: known samples are copied, missing
      ones are read off the line between the two passes' samples. */
  method FinalPass(temps: seq<real>, vs: seq<Option<real>>, los: seq<Sample>, his: seq<Sample>) returns (out: seq<real>)
    requires |temps| == |vs| == |los| == |his|
    requires forall j :: 0 <= j < |vs| ==> los[j] == Below(temps, vs, j) && his[j] == Above(temps, vs, j)
    ensures out == Fill(temps, vs)
  {
    out := [];
    var i := 0;
    while i < |vs|
      invariant 0 <= i <= |vs| && |out| == i
      invariant forall j :: 0 <= j < i ==> out[j] == Fill(temps, vs)[j]
    {
      var v := if vs[i].Some? then vs[i].value else Line(los[i], his[i], temps[i]);
      out := out + [v];
      i := i + 1;
    }
  }

  /** A missing sample strictly between two known ones lies on the line
      between the nearest known sample below and the nearest one above. */
  lemma FillBetween(temps: seq<real>, vals: seq<Option<real>>, j: nat, i: nat, k: nat)
    requires |temps| == |vals| && j < i < k < |vals|
    requires vals[j].Some? && vals[k].Some?
    requires forall m :: j < m < k ==> vals[m].None?
    ensures Fill(temps, vals)[i] == Line(SampleAt(temps, vals, j), SampleAt(temps, vals, k), temps[i])
  {
    assert LastKnown(vals, i) == Some(j);
    assert NextKnown(vals, i) == Some(k);
  }

  /** On a strictly increasing temperature axis such a value stays between
      the values of its two known neighbours. */
  lemma FillBetweenBounded(temps: seq<real>, vals: seq<Option<real>>, j: nat, i: nat, k: nat)
    requires |temps| == |vals| && j < i < k < |vals|
    requires forall a, b :: 0 <= a < b < |temps| ==> temps[a] < temps[b]
    requires vals[j].Some? && vals[k].Some?
    requires forall m :: j < m < k ==> vals[m].None?
    ensures vals[j].value <= vals[k].value ==>
              vals[j].value <= Fill(temps, vals)[i] <= vals[k].value
    ensures vals[k].value <= vals[j].value ==>
              vals[k].value <= Fill(temps, vals)[i] <= vals[j].value
  {
    FillBetween(temps, vals, j, i, k);
    LineBetween(SampleAt(temps, vals, j), SampleAt(temps, vals, k), temps[i]);
  }

  /** Missing samples before the first known one are interpolated from the
      origin (T = 0, value = 0) up to that sample. */
  lemma FillLeading(temps: seq<real>, vals: seq<Option<real>>, i: nat, k: nat)
    requires |temps| == |vals| && i < k < |vals|
    requires vals[k].Some? && forall m :: 0 <= m < k ==> vals[m].None?
    ensures Fill(temps, vals)[i] == Line(Origin, SampleAt(temps, vals, k), temps[i])
  {
    assert LastKnown(vals, i) == None;
    assert NextKnown(vals, i) == Some(k);
  }

  /** Missing samples after the last known one repeat its value. */
  lemma FillTrailing(temps: seq<real>, vals: seq<Option<real>>, j: nat, i: nat)
    requires |temps| == |vals| && j < i < |vals|
    requires vals[j].Some? && forall m :: j < m < |vals| ==> vals[m].None?
    ensures Fill(temps, vals)[i] == vals[j].value
  {
    assert LastKnown(vals, i) == Some(j);
    assert NextKnown(vals, i) == None;
    assert LastKnown(vals, |vals| - 1) == Some(j);
  }

  /** A column without any known sample fills with zeros. */
  lemma FillAllMissing(temps: seq<real>, vals: seq<Option<real>>)
    requires |temps| == |vals|
    requires forall m :: 0 <= m < |vals| ==> vals[m].None?
    ensures forall i :: 0 <= i < |vals| ==> Fill(temps, vals)[i] == 0.0
  {
    forall i | 0 <= i < |vals|
      ensures Fill(temps, vals)[i] == 0.0
    {
      assert LastKnown(vals, i) == None;
      assert NextKnown(vals, i) == None;
      assert LastKnown(vals, |vals| - 1) == None;
    }
  }

  /** Every entry of a column as a known sample. */
  function Known(xs: seq<real>): (r: seq<Option<real>>)
    ensures |r| == |xs| && forall i :: 0 <= i < |xs| ==> r[i] == Some(xs[i])
  {
    seq(|xs|, i requires 0 <= i < |xs| => Some(xs[i]))
  }

  /** The filled column has no missing sample left, so filling it again
      changes nothing. */
  lemma FillIdempotent(temps: seq<real>, vals: seq<Option<real>>)
    requires |temps| == |vals|
    ensures Fill(temps, Known(Fill(temps, vals))) == Fill(temps, vals)
  {
  }

  /** The worked example of the fill policy: samples at 0, 10, 20, 30, 40 K
      with only 5.0 at 20 K and 9.0 at 40 K known. */
  lemma FillExample(temps: seq<real>, vals: seq<Option<real>>)
    requires temps == [0.0, 10.0, 20.0, 30.0, 40.0]
    requires vals == [None, None, Some(5.0), None, Some(9.0)]
    ensures Fill(temps, vals) == [0.0, 2.5, 5.0, 7.0, 9.0]
  {
    var r := Fill(temps, vals);
    assert r[0] == 0.0 by {
      FillLeading(temps, vals, 0, 2);
    }
    assert r[1] == 2.5 by {
      FillLeading(temps, vals, 1, 2);
      assert Line(Origin, Sample(20.0, 5.0), 10.0) == 0.0 + (5.0 / 20.0) * 10.0;
    }
    assert r[3] == 7.0 by {
      assert forall m :: 2 < m < 4 ==> vals[m] == vals[3];
      FillBetween(temps, vals, 2, 3, 4);
      assert Line(Sample(20.0, 5.0), Sample(40.0, 9.0), 30.0) == 5.0 + (4.0 / 20.0) * 10.0;
    }
    assert r == [r[0], r[1], r[2], r[3], r[4]];
  }

  /** True when no temperature of the axis is missing. */
  predicate Complete(cells: seq<Option<real>>) {
    forall i :: 0 <= i < |cells| ==> cells[i].Some?
  }

  function Values(cells: seq<Option<real>>): (r: seq<real>)
    requires Complete(cells)
    ensures Known(r) == cells
  {
    seq(|cells|, i requires 0 <= i < |cells| => cells[i].value)
  }

  /** The post-processing loop of `Filer.load_data`: every column, the
      temperature axis included, is filled along the axis `Temp`. The model
      refuses an axis with a missing temperature (numpy would carry NaN through
      every interpolation that uses it). */
  method FillTable(raw: Table<Option<real>>) returns (r: Result<Table<real>>)
    ensures Find(raw, TempKey).None? ==> r == Err(KeyMissing(TempKey))
    ensures Find(raw, TempKey).Some? && !Complete(Find(raw, TempKey).value) ==> r == Err(MissingTemperature)
    ensures r.Ok? <==> Find(raw, TempKey).Some? && Complete(Find(raw, TempKey).value) &&
                       forall j :: 0 <= j < |raw| ==> |Find(raw, TempKey).value| <= |raw[j].cells|
    ensures r.Ok? ==> |r.value| == |raw| && forall j :: 0 <= j < |raw| ==>
              var axis := Values(Find(raw, TempKey).value);
              r.value[j] == Column(raw[j].key, Fill(axis, raw[j].cells[..|axis|]))
    ensures r.Ok? && DistinctKeys(raw) ==> DistinctKeys(r.value)
  {
    var axisCells :- Find(raw, TempKey).ToResult(KeyMissing(TempKey));
    if !Complete(axisCells) {
      return Err(MissingTemperature);
    }
    r := FillColumns(Values(axisCells), raw);
  }

  /** Every column of `raw` filled along `axis`; a column shorter than the
      axis is an IndexError. */
  method FillColumns(axis: seq<real>, raw: Table<Option<real>>) returns (r: Result<Table<real>>)
    ensures r.Ok? <==> forall j :: 0 <= j < |raw| ==> |axis| <= |raw[j].cells|
    ensures r.Err? ==> r == Err(IndexOutOfRange)
    ensures r.Ok? ==> |r.value| == |raw| && forall j :: 0 <= j < |raw| ==>
              r.value[j] == Column(raw[j].key, Fill(axis, raw[j].cells[..|axis|]))
    ensures r.Ok? && DistinctKeys(raw) ==> DistinctKeys(r.value)
  {
    var out: Table<real> := [];
    var j := 0;
    while j < |raw|
      invariant 0 <= j <= |raw| && |out| == j
      invariant forall m :: 0 <= m < j ==> |axis| <= |raw[m].cells|
      invariant forall m :: 0 <= m < j ==> out[m] == Column(raw[m].key, Fill(axis, raw[m].cells[..|axis|]))
    {
      var filled := ReplaceNans(axis, raw[j].cells);
      if filled.Err? {
        return Err(IndexOutOfRange);
      }
      out := out + [Column(raw[j].key, filled.value)];
      j := j + 1;
    }
    return Ok(out);
  }
}
