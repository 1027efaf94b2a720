/** The whole data preparation of the chart (main.js:35-82): classify the
    records, roll them up by group and year, build the sorted series, and
    derive the scale domains. The theorems below state what the renderer
    receives, in terms of the input records alone. */
module Pipeline {
  import opened Basics
  import opened Classification
  import opened Aggregation
  import opened SeriesBuilder
  import opened Scales

  /** Everything the drawing code consumes. */
  datatype Chart = Chart(
    series: seq<Series>,
    xDomain: Option<Domain>,
    yDomain: Option<Domain>,
    colorDomain: seq<string>)

  /** The series handed to the line generator. */
  function SeriesOf(data: seq<Laureate>): seq<Series> {
    BuildSeries(Rollup(data))
  }

  /** The preparation pipeline over the loaded records. */
  function Prepare(data: seq<Laureate>): Chart {
    var series := SeriesOf(data);
    Chart(series, XDomain(data), YDomain(series), ColorDomain)
  }

  /** There is exactly one series per distinct group occurring in the data,
      unassigned records included, in order of each group's first
      occurrence. */
  lemma SeriesPerGroup(data: seq<Laureate>)
    ensures NoDups(Categories(SeriesOf(data)))
    ensures Categories(SeriesOf(data)) == Distinct(GroupKeys(data))
    ensures forall g :: g in Categories(SeriesOf(data)) <==>
              exists j :: 0 <= j < |data| && GroupOf(data[j]) == g
    ensures forall i, k :: 0 <= i < k < |Categories(SeriesOf(data))| ==>
              FirstIndex(GroupKeys(data), Categories(SeriesOf(data))[i])
                < FirstIndex(GroupKeys(data), Categories(SeriesOf(data))[k])
  {
    var s := SeriesOf(data);
    RollupKeys(data);
    assert Categories(s) == Keys(Rollup(data));
    assert forall i :: 0 <= i < |s| ==> Categories(s)[i] == s[i].category;
    assert forall j :: 0 <= j < |data| ==> GroupKeys(data)[j] == GroupOf(data[j]);
    DistinctFirstOccurrenceOrder(GroupKeys(data));
    forall g | g in GroupKeys(data)
      ensures exists j :: 0 <= j < |data| && GroupOf(data[j]) == g
    {
      var j :| 0 <= j < |data| && GroupKeys(data)[j] == g;
    }
  }

  /** The series at position `i` is its rollup entry's points, sorted. */
  lemma SeriesEntry(data: seq<Laureate>, i: nat)
    requires i < |SeriesOf(data)|
    ensures i < |Rollup(data)|
    ensures SeriesOf(data)[i].category == Rollup(data)[i].group
    ensures SeriesOf(data)[i].values == SortByYear(Rollup(data)[i].years)
  {
  }

  /** Within every series the years strictly increase. */
  lemma SeriesAscending(data: seq<Laureate>, i: nat)
    requires i < |SeriesOf(data)|
    ensures StrictlyAscending(SeriesOf(data)[i].values)
  {
    SeriesEntry(data, i);
    RollupEntry(data, i);
    SortByYearStrict(Rollup(data)[i].years);
  }

  /** Every point of a series counts exactly the records with that series'
      group and that year, so it is at least one; and a year gets a point
      exactly when some record of the group has that year (there is no
      zero-fill). */
  lemma SeriesPoints(data: seq<Laureate>, i: nat)
    requires i < |SeriesOf(data)|
    ensures forall k :: 0 <= k < |SeriesOf(data)[i].values| ==>
              var p := SeriesOf(data)[i].values[k];
              p.count >= 1 && p.count == CountOf(data, SeriesOf(data)[i].category, p.year)
    ensures forall y ::
              (exists k :: 0 <= k < |SeriesOf(data)[i].values| && SeriesOf(data)[i].values[k].year == y)
              <==> CountOf(data, SeriesOf(data)[i].category, y) > 0
  {
    SeriesEntry(data, i);
    var e := Rollup(data)[i];
    var s := SeriesOf(data)[i];
    RollupEntry(data, i);
    SortByYearMembers(e.years);
    forall k | 0 <= k < |s.values|
      ensures s.values[k].count >= 1
      ensures s.values[k].count == CountOf(data, s.category, s.values[k].year)
    {
      assert s.values[k] in e.years;
    }
    forall y | CountOf(data, s.category, y) > 0
      ensures exists k :: 0 <= k < |s.values| && s.values[k].year == y
    {
      assert y in Years(e.years);
      var m :| 0 <= m < |e.years| && e.years[m].year == y;
      assert e.years[m] in s.values;
    }
  }

  /** A record whose category is in neither list is not dropped: its
      absent group gets a series of its own, exactly as a real group does,
      with a point at the record's year. */
  lemma UnassignedKept(data: seq<Laureate>, j: nat)
    requires j < |data| && Classify(data[j].category) == Unassigned
    ensures exists i :: 0 <= i < |SeriesOf(data)| &&
              SeriesOf(data)[i].category == Unassigned &&
              exists k :: 0 <= k < |SeriesOf(data)[i].values| &&
                SeriesOf(data)[i].values[k].year == data[j].year
  {
    SeriesPerGroup(data);
    var s := SeriesOf(data);
    assert Unassigned in Categories(s);
    var i :| 0 <= i < |s| && s[i].category == Unassigned;
    CountOfPositive(data, Unassigned, data[j].year);
    SeriesPoints(data, i);
  }

  /** Every record lands in exactly one point: the counts of all series add
      up to the number of records, classified or not. */
  lemma RecordsConserved(data: seq<Laureate>)
    ensures SeriesTotal(SeriesOf(data)) == |data|
  {
    RollupCounts(data);
    BuildSeriesTotal(Rollup(data));
  }

  /** The domains: the x domain spans the years of all records, unassigned
      ones included; the y domain is `[0, maxCount]` with `maxCount` bounding
      every plotted count and equal to one of them; both are defined exactly
      when there is at least one record. */
  lemma DomainsCoverData(data: seq<Laureate>)
    ensures Prepare(data).xDomain.Some? <==> |data| > 0
    ensures Prepare(data).yDomain.Some? <==> |data| > 0
    ensures Prepare(data).xDomain.Some? ==>
              forall j :: 0 <= j < |data| ==>
                Prepare(data).xDomain.value.lo <= data[j].year <= Prepare(data).xDomain.value.hi
    ensures Prepare(data).yDomain.Some? ==>
              Prepare(data).yDomain.value.lo == 0
              && forall i, k :: (0 <= i < |SeriesOf(data)| &&
                   0 <= k < |SeriesOf(data)[i].values|) ==>
                   SeriesOf(data)[i].values[k].count <= Prepare(data).yDomain.value.hi
  {
    var s := SeriesOf(data);
    if |data| > 0 {
      SeriesPerGroup(data);
      var g := GroupOf(data[0]);
      assert g in Categories(s);
      var i :| 0 <= i < |s| && s[i].category == g;
      CountOfPositive(data, g, data[0].year);
      SeriesPoints(data, i);
      assert |s[i].values| > 0;
    }
  }

  /** Two physics prizes, in 2000 and 2001, and a literature prize in 2000. */
  const ThreeRecords: seq<Laureate> :=
    [Laureate("A", 2000, "physics"), Laureate("B", 2000, "literature"),
     Laureate("C", 2001, "physics")]

  /** The rollup of the three records: STEM first, since the first record
      is a physics prize. */
  lemma ThreeRecordRollup()
    ensures Rollup(ThreeRecords) == [
              GroupCounts(Stem, [YearCount(2000, 1), YearCount(2001, 1)]),
              GroupCounts(NonStem, [YearCount(2000, 1)])]
  {
    var a, b, c := ThreeRecords[0], ThreeRecords[1], ThreeRecords[2];
    assert GroupOf(a) == Stem && GroupOf(b) == NonStem && GroupOf(c) == Stem;
    assert ThreeRecords[..2] == [a, b] && [a, b][..1] == [a] && [a][..0] == [];
    var stem1 := GroupCounts(Stem, [YearCount(2000, 1)]);
    var nonStem := GroupCounts(NonStem, [YearCount(2000, 1)]);
    var stem2 := GroupCounts(Stem, [YearCount(2000, 1), YearCount(2001, 1)]);
    assert Rollup([a]) == [stem1];
    assert Insert([stem1], NonStem, 2000) == [stem1] + Insert([], NonStem, 2000);
    assert Rollup([a, b]) == [stem1, nonStem];
    assert [YearCount(2000, 1)][1..] == [];
    assert Bump([YearCount(2000, 1)], 2001) == [YearCount(2000, 1)] + Bump([], 2001);
    assert Bump(stem1.years, 2001) == stem2.years;
    assert [stem1, nonStem][1..] == [nonStem];
    assert Rollup(ThreeRecords) == Insert([stem1, nonStem], Stem, 2001);
  }

  /** The series of the three records, already in year order. */
  lemma ThreeRecordSeries()
    ensures SeriesOf(ThreeRecords) ==
              [Series(Stem, [YearCount(2000, 1), YearCount(2001, 1)]),
               Series(NonStem, [YearCount(2000, 1)])]
  {
    ThreeRecordRollup();
    var stem := [YearCount(2000, 1), YearCount(2001, 1)];
    assert stem[1..] == [YearCount(2001, 1)];
    assert SortByYear([YearCount(2001, 1)]) == [YearCount(2001, 1)];
    assert SortByYear(stem) == stem;
    assert SortByYear([YearCount(2000, 1)]) == [YearCount(2000, 1)];
  }

  /** The x axis of the three records spans 2000-2001. */
  lemma ThreeRecordXDomain()
    ensures XDomain(ThreeRecords) == Some(Domain(2000, 2001))
  {
  }

  /** The y axis of the three records' series spans 0-1: every point
      counts one laureate. */
  lemma ThreeRecordYDomain()
    ensures YDomain([Series(Stem, [YearCount(2000, 1), YearCount(2001, 1)]),
                     Series(NonStem, [YearCount(2000, 1)])]) == Some(Domain(0, 1))
  {
  }

  /** The chart of the three records: a STEM line with one laureate in each
      of 2000 and 2001, a Non-STEM line with one point in 2000; the axes
      span 2000-2001 and 0-1. */
  lemma ThreeRecordExample()
    ensures Prepare(ThreeRecords) == Chart(
              [Series(Stem, [YearCount(2000, 1), YearCount(2001, 1)]),
               Series(NonStem, [YearCount(2000, 1)])],
              Some(Domain(2000, 2001)), Some(Domain(0, 1)), ["STEM", "Non-STEM"])
  {
    ThreeRecordSeries();
    ThreeRecordXDomain();
    ThreeRecordYDomain();
  }

  /** A physics prize in 2000 and a record of an unlisted category in 1990. */
  const WithUnknown: seq<Laureate> :=
    [Laureate("A", 2000, "physics"), Laureate("B", 1990, "unknown")]

  /** The rollup of the two records: the unlisted one gets an entry of its
      own under the absent group. */
  lemma WithUnknownRollup()
    ensures Rollup(WithUnknown) ==
              [GroupCounts(Stem, [YearCount(2000, 1)]), GroupCounts(Unassigned, [YearCount(1990, 1)])]
  {
    var a, b := WithUnknown[0], WithUnknown[1];
    assert GroupOf(a) == Stem && GroupOf(b) == Unassigned;
    assert WithUnknown[..1] == [a] && [a][..0] == [];
    var stem := GroupCounts(Stem, [YearCount(2000, 1)]);
    assert Rollup([a]) == [stem];
    assert Insert([stem], Unassigned, 1990) == [stem] + Insert([], Unassigned, 1990);
  }

  /** The unlisted record is not dropped: it forms a second line of its own,
      keyed by the absent group, and its year widens the x axis. */
  lemma UnknownCategoryExample()
    ensures SeriesOf(WithUnknown) ==
              [Series(Stem, [YearCount(2000, 1)]), Series(Unassigned, [YearCount(1990, 1)])]
    ensures XDomain(WithUnknown) == Some(Domain(1990, 2000))
  {
    WithUnknownRollup();
    assert SortByYear([YearCount(2000, 1)]) == [YearCount(2000, 1)];
    assert SortByYear([YearCount(1990, 1)]) == [YearCount(1990, 1)];
    assert forall j :: 0 <= j < 2 ==> WithUnknown[j].year in {1990, 2000};
  }
}
