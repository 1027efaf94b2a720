/** Turning the nested rollup into the array of line series handed to the
    line generator (main.js:57-64): one `{category, values}` object per outer
    entry, in iteration order, whose `values` are the inner entries as
    `{year, count}` points sorted ascending by year. */
module SeriesBuilder {
  import opened Basics
  import opened Classification
  import opened Aggregation

  /** One plotted line: its group and its points. */
  datatype Series = Series(category: Group, values: seq<YearCount>)

  /** Years never decrease along the points. */
  predicate Ascending(ps: seq<YearCount>) {
    forall i, j :: 0 <= i < j < |ps| ==> ps[i].year <= ps[j].year
  }

  /** Years strictly increase along the points. */
  predicate StrictlyAscending(ps: seq<YearCount>) {
    forall i, j :: 0 <= i < j < |ps| ==> ps[i].year < ps[j].year
  }

  /** Places `p` before the first point whose year is not smaller, so that
      among equal years the earlier input stays first, as in the stable
      `Array.prototype.sort`. */
  function InsertByYear(p: YearCount, ps: seq<YearCount>): (r: seq<YearCount>)
    ensures multiset(r) == multiset(ps) + multiset{p}
  {
    if |ps| == 0 then [p]
    else if p.year <= ps[0].year then [p] + ps
    else
      assert ps == [ps[0]] + ps[1..];
      [ps[0]] + InsertByYear(p, ps[1..])
  }

  /** Every point of the insertion result is `p` or a point of `ps`. */
  lemma InsertByYearFrom(p: YearCount, ps: seq<YearCount>, q: YearCount)
    requires q in InsertByYear(p, ps)
    ensures q == p || q in ps
  {
  }

  /** Inserting into ascending points keeps them ascending. */
  lemma {:induction false} InsertByYearAscending(p: YearCount, ps: seq<YearCount>)
    requires Ascending(ps)
    ensures Ascending(InsertByYear(p, ps))
  {
    if |ps| > 0 && p.year > ps[0].year {
      var rest := InsertByYear(p, ps[1..]);
      InsertByYearAscending(p, ps[1..]);
      forall k | 0 <= k < |rest|
        ensures ps[0].year <= rest[k].year
      {
        InsertByYearFrom(p, ps[1..], rest[k]);
      }
      assert InsertByYear(p, ps) == [ps[0]] + rest;
    }
  }

  /** Inserting a year not yet present into strictly ascending points keeps
      them strictly ascending. */
  lemma {:induction false} InsertByYearStrict(p: YearCount, ps: seq<YearCount>)
    requires StrictlyAscending(ps) && p.year !in Years(ps)
    ensures StrictlyAscending(InsertByYear(p, ps))
  {
    if |ps| > 0 {
      assert p.year != Years(ps)[0];
      if p.year > ps[0].year {
        var rest := InsertByYear(p, ps[1..]);
        assert forall k :: 0 <= k < |ps| - 1 ==> Years(ps[1..])[k] == Years(ps)[k + 1];
        InsertByYearStrict(p, ps[1..]);
        forall k | 0 <= k < |rest|
          ensures ps[0].year < rest[k].year
        {
          InsertByYearFrom(p, ps[1..], rest[k]);
        }
        assert InsertByYear(p, ps) == [ps[0]] + rest;
      }
    }
  }

  /** Inserting a point adds its count to the total. */
  lemma {:induction false} InsertByYearTotal(p: YearCount, ps: seq<YearCount>)
    ensures Total(InsertByYear(p, ps)) == Total(ps) + p.count
  {
    if |ps| == 0 {
      assert Total([p]) == p.count + Total([]);
    } else if p.year <= ps[0].year {
      assert ([p] + ps)[1..] == ps;
    } else {
      InsertByYearTotal(p, ps[1..]);
      assert InsertByYear(p, ps)[1..] == InsertByYear(p, ps[1..]);
    }
  }

  /** `values.sort((a, b) => a.year - b.year)`, as an insertion sort: the
      same points, rearranged. */
  function SortByYear(ps: seq<YearCount>): (r: seq<YearCount>)
    ensures multiset(r) == multiset(ps)
  {
    if |ps| == 0 then []
    else
      assert ps == [ps[0]] + ps[1..];
      InsertByYear(ps[0], SortByYear(ps[1..]))
  }

  /** The sorted points are ascending by year. */
  lemma {:induction false} SortByYearAscending(ps: seq<YearCount>)
    ensures Ascending(SortByYear(ps))
  {
    if |ps| > 0 {
      SortByYearAscending(ps[1..]);
      InsertByYearAscending(ps[0], SortByYear(ps[1..]));
    }
  }

  /** When no year repeats, as within one group's inner map, the sorted
      points are strictly ascending by year. */
  lemma {:induction false} SortByYearStrict(ps: seq<YearCount>)
    requires NoDups(Years(ps))
    ensures StrictlyAscending(SortByYear(ps))
  {
    if |ps| > 0 {
      var rest := SortByYear(ps[1..]);
      assert Years(ps[1..]) == Years(ps)[1..];
      SortByYearStrict(ps[1..]);
      assert Years(ps)[0] == ps[0].year;
      forall k | 0 <= k < |rest|
        ensures rest[k].year != ps[0].year
      {
        assert rest[k] in multiset(ps[1..]);
        var m :| 0 <= m < |ps| - 1 && ps[1..][m] == rest[k];
        assert Years(ps)[m + 1] == rest[k].year;
      }
      InsertByYearStrict(ps[0], rest);
    }
  }

  /** Sorting neither adds nor loses a point. */
  lemma SortByYearMembers(ps: seq<YearCount>)
    ensures forall q :: q in SortByYear(ps) <==> q in ps
  {
    var r := SortByYear(ps);
    assert forall q :: q in r <==> q in multiset(r);
  }

  /** Sorting leaves the total count unchanged. */
  lemma {:induction false} SortByYearTotal(ps: seq<YearCount>)
    ensures Total(SortByYear(ps)) == Total(ps)
  {
    if |ps| > 0 {
      SortByYearTotal(ps[1..]);
      InsertByYearTotal(ps[0], SortByYear(ps[1..]));
    }
  }

  /** One series per outer entry, in the same order, each holding the entry's
      points sorted by year. */
  function BuildSeries(es: seq<GroupCounts>): seq<Series> {
    seq(|es|, i requires 0 <= i < |es| => Series(es[i].group, SortByYear(es[i].years)))
  }

  /** Building the series moves every count into exactly one series: the
      series total equals the rollup total. */
  lemma {:induction false} BuildSeriesTotal(es: seq<GroupCounts>)
    ensures SeriesTotal(BuildSeries(es)) == AllTotal(es)
  {
    if |es| > 0 {
      BuildSeriesTotal(es[1..]);
      SortByYearTotal(es[0].years);
      assert BuildSeries(es)[1..] == BuildSeries(es[1..]);
    }
  }

  /** The sum of every count of every series. */
  function SeriesTotal(s: seq<Series>): nat {
    if |s| == 0 then 0 else Total(s[0].values) + SeriesTotal(s[1..])
  }

  /** The groups of the series, in order. */
  function Categories(s: seq<Series>): seq<Group> {
    seq(|s|, i requires 0 <= i < |s| => s[i].category)
  }
}
