/** The scale domains (main.js:66-82): the x domain is `d3.extent` of every
    record's year, the y domain is `[0, maxCount]` with `maxCount` the
    nested `d3.max` of the series' counts, and the colour domain is a fixed
    pair of labels. The pixel ranges are not part of this model. */
module Scales {
  import opened Basics
  import opened Classification
  import opened Aggregation
  import opened SeriesBuilder

  /** A numeric scale domain `[lo, hi]`. */
  datatype Domain = Domain(lo: int, hi: int)

  /** `d3.extent`: scanning in order, the first value opens the range and
      every later value widens it. For no value d3 returns
      `[undefined, undefined]`, which is modelled as `None`. */
  function Extent(xs: seq<int>): (r: Option<Domain>)
    ensures r.None? <==> |xs| == 0
    ensures r.Some? ==> r.value.lo in xs && r.value.hi in xs
    ensures r.Some? ==> forall x :: x in xs ==> r.value.lo <= x <= r.value.hi
  {
    if |xs| == 0 then None
    else
      var v := xs[|xs| - 1];
      assert xs == xs[..|xs| - 1] + [v];
      match Extent(xs[..|xs| - 1])
      case None => Some(Domain(v, v))
      case Some(d) => Some(Domain(if d.lo > v then v else d.lo, if d.hi < v then v else d.hi))
  }

  /** `d3.max`: scanning in order, the greatest value seen, skipping
      `undefined` entries; `undefined` when every entry is. */
  function MaxDefined(xs: seq<Option<int>>): (r: Option<int>)
    ensures r.None? <==> forall i :: 0 <= i < |xs| ==> xs[i].None?
    ensures r.Some? ==> r in xs
    ensures r.Some? ==> forall i :: 0 <= i < |xs| && xs[i].Some? ==> xs[i].value <= r.value
  {
    if |xs| == 0 then None
    else
      var n := |xs| - 1;
      var m, v := MaxDefined(xs[..n]), xs[n];
      assert forall i :: 0 <= i < n ==> xs[..n][i] == xs[i];
      if v.None? then m
      else if m.None? || m.value < v.value then v
      else m
  }

  /** The year of every record, classified or not (`data.map(d => d.year)`). */
  function AllYears(data: seq<Laureate>): seq<int> {
    seq(|data|, i requires 0 <= i < |data| => data[i].year)
  }

  /** The x domain: the earliest and the latest year over all records,
      including those without a group; `None` (d3's `[undefined, undefined]`)
      for no records. */
  function XDomain(data: seq<Laureate>): (r: Option<Domain>)
    ensures r.None? <==> |data| == 0
    ensures r.Some? ==>
              (exists i :: 0 <= i < |data| && data[i].year == r.value.lo)
              && (exists i :: 0 <= i < |data| && data[i].year == r.value.hi)
              && forall i :: 0 <= i < |data| ==> r.value.lo <= data[i].year <= r.value.hi
  {
    var ys := AllYears(data);
    assert forall i :: 0 <= i < |data| ==> ys[i] == data[i].year && ys[i] in ys;
    Extent(ys)
  }

  /** The largest count of one series (`d3.max(d.values, v => v.count)`). */
  function SeriesMax(s: Series): (r: Option<int>)
    ensures r.None? <==> |s.values| == 0
    ensures r.Some? ==> forall k :: 0 <= k < |s.values| ==> s.values[k].count <= r.value
    ensures r.Some? ==> exists k :: 0 <= k < |s.values| && s.values[k].count == r.value
  {
    var counts := seq(|s.values|, k requires 0 <= k < |s.values| => Some(s.values[k].count));
    assert forall k :: 0 <= k < |s.values| ==> counts[k] == Some(s.values[k].count);
    MaxDefined(counts)
  }

  /** `maxCount`: the largest count over every point of every series; it
      bounds every count and is attained by one; undefined only when no
      series has a point. */
  function MaxCount(ss: seq<Series>): (r: Option<int>)
    ensures r.None? <==> forall i :: 0 <= i < |ss| ==> |ss[i].values| == 0
    ensures r.Some? ==> forall i, k :: 0 <= i < |ss| && 0 <= k < |ss[i].values| ==>
              ss[i].values[k].count <= r.value
    ensures r.Some? ==> exists i, k :: (0 <= i < |ss| && 0 <= k < |ss[i].values| &&
              ss[i].values[k].count == r.value)
  {
    var perSeries := seq(|ss|, i requires 0 <= i < |ss| => SeriesMax(ss[i]));
    assert forall i :: 0 <= i < |ss| ==> perSeries[i] == SeriesMax(ss[i]);
    var r := MaxDefined(perSeries);
    assert r.Some? ==> exists i :: 0 <= i < |ss| && perSeries[i] == r;
    r
  }

  /** The y domain `[0, maxCount]`: it starts at zero and reaches the
      largest count, so every plotted count lies inside it. When no series
      has a point the source's domain is `[0, undefined]`, which is modelled
      as `None`. */
  function YDomain(ss: seq<Series>): (r: Option<Domain>)
    ensures r.None? <==> forall i :: 0 <= i < |ss| ==> |ss[i].values| == 0
    ensures r.Some? ==> r.value.lo == 0
    ensures r.Some? ==> forall i, k :: 0 <= i < |ss| && 0 <= k < |ss[i].values| ==>
              r.value.lo <= ss[i].values[k].count <= r.value.hi
    ensures r.Some? ==> exists i, k :: (0 <= i < |ss| && 0 <= k < |ss[i].values| &&
              ss[i].values[k].count == r.value.hi)
  {
    match MaxCount(ss)
    case None => None
    case Some(m) => Some(Domain(0, m))
  }

  /** The colour scale's domain: the two group labels, in a fixed order. */
  const ColorDomain: seq<string> := ["STEM", "Non-STEM"]

  /** The colour domain does not depend on the data: it holds exactly the
      labels of the two real groups, STEM first, and they differ. A series
      of unassigned records carries no label and so is outside it. */
  lemma ColorDomainLabels()
    ensures |ColorDomain| == 2 && ColorDomain[0] != ColorDomain[1]
    ensures Label(Stem) == Some(ColorDomain[0]) && Label(NonStem) == Some(ColorDomain[1])
    ensures forall g :: Label(g).Some? ==> Label(g).value in ColorDomain
  {
  }
}
