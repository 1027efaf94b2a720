/** The count-by-group-then-year step (main.js:46-52): `d3.rollup` with the
    reducer `v => v.length` and the keys `d => d.categoryGroup`, then
    `d => d.year`.

    A JavaScript `Map` iterates its keys in the order they were first
    inserted, so both levels are kept as association lists. `Rollup` folds
    the records in input order, inserting each into its bucket; the lemmas
    below relate the result to reference definitions computed straight from
    the input (`Distinct`, `YearsIn`, `CountOf`). */
module Aggregation {
  import opened Basics
  import opened Classification

  /** An inner map entry: a year and the number of records counted for it.
      It is also the `{year, count}` point a series is made of. */
  datatype YearCount = YearCount(year: int, count: nat)

  /** An outer map entry: a group and its year-to-count entries. */
  datatype GroupCounts = GroupCounts(group: Group, years: seq<YearCount>)

  // ---------------------------------------------------------------------
  // Reference definitions, computed from the records alone

  /** The group key of every record, in input order. */
  function GroupKeys(data: seq<Laureate>): seq<Group> {
    seq(|data|, i requires 0 <= i < |data| => GroupOf(data[i]))
  }

  /** The years of the records in group `g`, in input order, repeats kept. */
  function YearsIn(data: seq<Laureate>, g: Group): seq<int> {
    if |data| == 0 then []
    else
      var n := |data| - 1;
      if GroupOf(data[n]) == g then YearsIn(data[..n], g) + [data[n].year]
      else YearsIn(data[..n], g)
  }

  /** The number of records whose group is `g` and whose year is `y`. */
  function CountOf(data: seq<Laureate>, g: Group, y: int): nat {
    if |data| == 0 then 0
    else
      var n := |data| - 1;
      CountOf(data[..n], g, y) + (if GroupOf(data[n]) == g && data[n].year == y then 1 else 0)
  }

  /** A year is listed for group `g` exactly when some record of `g` has it. */
  lemma {:induction false} YearsInMembers(data: seq<Laureate>, g: Group, y: int)
    ensures y in YearsIn(data, g) <==>
              exists i :: 0 <= i < |data| && GroupOf(data[i]) == g && data[i].year == y
  {
    if |data| > 0 {
      var n := |data| - 1;
      YearsInMembers(data[..n], g, y);
      assert forall i :: 0 <= i < n ==> data[..n][i] == data[i];
    }
  }

  /** The count of group `g` and year `y` is at most the number of records,
      and it is positive exactly when some record has that group and year. */
  lemma {:induction false} CountOfPositive(data: seq<Laureate>, g: Group, y: int)
    ensures CountOf(data, g, y) <= |data|
    ensures CountOf(data, g, y) > 0 <==>
              exists i :: 0 <= i < |data| && GroupOf(data[i]) == g && data[i].year == y
  {
    if |data| > 0 {
      var n := |data| - 1;
      CountOfPositive(data[..n], g, y);
      assert forall i :: 0 <= i < n ==> data[..n][i] == data[i];
    }
  }

  // ---------------------------------------------------------------------
  // Views of the association lists

  /** The keys of an inner map, in iteration order. */
  function Years(ys: seq<YearCount>): seq<int> {
    seq(|ys|, k requires 0 <= k < |ys| => ys[k].year)
  }

  /** The count stored under year `y`, or 0 when there is no such entry. */
  function CountAt(ys: seq<YearCount>, y: int): nat {
    if |ys| == 0 then 0
    else if ys[0].year == y then ys[0].count
    else CountAt(ys[1..], y)
  }

  /** The sum of the counts of an inner map. */
  function Total(ys: seq<YearCount>): nat {
    if |ys| == 0 then 0 else ys[0].count + Total(ys[1..])
  }

  /** Every stored count is at least one. */
  predicate Positive(ys: seq<YearCount>) {
    forall k :: 0 <= k < |ys| ==> ys[k].count >= 1
  }

  /** The keys of the outer map, in iteration order. */
  function Keys(es: seq<GroupCounts>): seq<Group> {
    seq(|es|, i requires 0 <= i < |es| => es[i].group)
  }

  /** The inner map stored under group `g`, or the empty map when absent. */
  function Lookup(es: seq<GroupCounts>, g: Group): seq<YearCount> {
    if |es| == 0 then []
    else if es[0].group == g then es[0].years
    else Lookup(es[1..], g)
  }

  /** The sum of all counts of the outer map. */
  function AllTotal(es: seq<GroupCounts>): nat {
    if |es| == 0 then 0 else Total(es[0].years) + AllTotal(es[1..])
  }

  // ---------------------------------------------------------------------
  // The fold

  /** Counts one more record for year `y`: an existing entry keeps its place
      and grows by one, a new year is appended with count one. */
  function Bump(ys: seq<YearCount>, y: int): seq<YearCount> {
    if |ys| == 0 then [YearCount(y, 1)]
    else if ys[0].year == y then [YearCount(y, ys[0].count + 1)] + ys[1..]
    else [ys[0]] + Bump(ys[1..], y)
  }

  /** Bumping keeps the order of the existing years and appends a year seen
      for the first time. */
  lemma {:induction false} BumpYears(ys: seq<YearCount>, y: int)
    ensures Years(Bump(ys, y)) == if y in Years(ys) then Years(ys) else Years(ys) + [y]
  {
    if |ys| > 0 && ys[0].year != y {
      var rest := Bump(ys[1..], y);
      BumpYears(ys[1..], y);
      assert Years(ys) == [ys[0].year] + Years(ys[1..]);
      assert y in Years(ys) <==> y in Years(ys[1..]);
      assert Bump(ys, y) == [ys[0]] + rest;
      assert Years([ys[0]] + rest) == [ys[0].year] + Years(rest);
    } else if |ys| > 0 {
      assert Years(ys)[0] == y;
      assert Years(Bump(ys, y)) == Years(ys);
    } else {
      assert Years([YearCount(y, 1)]) == [y];
    }
  }

  /** Bumping adds one to the count of `y` and leaves every other count alone;
      it keeps every count positive and adds one to the total. */
  lemma {:induction false} BumpCounts(ys: seq<YearCount>, y: int)
    ensures forall y' :: CountAt(Bump(ys, y), y') == CountAt(ys, y') + (if y' == y then 1 else 0)
    ensures Positive(ys) ==> Positive(Bump(ys, y))
    ensures Total(Bump(ys, y)) == Total(ys) + 1
  {
    if |ys| == 0 {
      assert Total([YearCount(y, 1)]) == 1 + Total([]);
    } else if ys[0].year == y {
      assert Bump(ys, y)[1..] == ys[1..];
    } else {
      BumpCounts(ys[1..], y);
      assert Bump(ys, y)[1..] == Bump(ys[1..], y);
    }
  }

  /** Counts one more record of group `g` and year `y`: the group's entry is
      bumped in place, or a new group entry is appended. */
  function Insert(es: seq<GroupCounts>, g: Group, y: int): seq<GroupCounts> {
    if |es| == 0 then [GroupCounts(g, [YearCount(y, 1)])]
    else if es[0].group == g then [GroupCounts(g, Bump(es[0].years, y))] + es[1..]
    else [es[0]] + Insert(es[1..], g, y)
  }

  /** Inserting keeps the order of the existing groups and appends a group
      seen for the first time. */
  lemma {:induction false} InsertKeys(es: seq<GroupCounts>, g: Group, y: int)
    ensures Keys(Insert(es, g, y)) == if g in Keys(es) then Keys(es) else Keys(es) + [g]
  {
    if |es| > 0 && es[0].group != g {
      InsertKeys(es[1..], g, y);
      assert Keys(es) == [es[0].group] + Keys(es[1..]);
      assert Keys(Insert(es, g, y)) == [es[0].group] + Keys(Insert(es[1..], g, y));
    } else if |es| > 0 {
      assert Keys(es)[0] == g;
      assert Keys(Insert(es, g, y)) == Keys(es);
    } else {
      assert Keys([GroupCounts(g, [YearCount(y, 1)])]) == [g];
    }
  }

  /** Inserting bumps the inner map of `g` (an absent group counting as the
      empty map), leaves every other group's inner map alone and adds one to
      the overall total. */
  lemma {:induction false} InsertLookup(es: seq<GroupCounts>, g: Group, y: int)
    ensures forall h :: Lookup(Insert(es, g, y), h) ==
              if h == g then Bump(Lookup(es, g), y) else Lookup(es, h)
    ensures AllTotal(Insert(es, g, y)) == AllTotal(es) + 1
  {
    BumpCounts(Lookup(es, g), y);
    if |es| == 0 {
      assert AllTotal([GroupCounts(g, [YearCount(y, 1)])]) == Total([YearCount(y, 1)]);
    } else if es[0].group == g {
      BumpCounts(es[0].years, y);
      assert Insert(es, g, y)[1..] == es[1..];
    } else {
      InsertLookup(es[1..], g, y);
      assert Insert(es, g, y)[1..] == Insert(es[1..], g, y);
    }
  }

  /** The nested rollup of the records, folded in input order. */
  function Rollup(data: seq<Laureate>): seq<GroupCounts> {
    if |data| == 0 then []
    else
      var d := data[|data| - 1];
      Insert(Rollup(data[..|data| - 1]), GroupOf(d), d.year)
  }

  // ---------------------------------------------------------------------
  // What the rollup computes

  /** The groups of the rollup are the distinct group keys of the records,
      in order of first occurrence; records without a group are keyed like
      the others. */
  lemma {:induction false} RollupKeys(data: seq<Laureate>)
    ensures Keys(Rollup(data)) == Distinct(GroupKeys(data))
  {
    if |data| > 0 {
      var n := |data| - 1;
      var pre, d := data[..n], data[n];
      RollupKeys(pre);
      InsertKeys(Rollup(pre), GroupOf(d), d.year);
      assert GroupKeys(data) == GroupKeys(pre) + [GroupOf(d)];
      DistinctSnoc(GroupKeys(pre), GroupOf(d));
    }
  }

  /** Under every group, the years are the distinct years of that group's
      records, in order of first occurrence. */
  lemma {:induction false} RollupYears(data: seq<Laureate>)
    ensures forall g :: Years(Lookup(Rollup(data), g)) == Distinct(YearsIn(data, g))
  {
    if |data| > 0 {
      var n := |data| - 1;
      var pre, d := data[..n], data[n];
      var g := GroupOf(d);
      RollupYears(pre);
      InsertLookup(Rollup(pre), g, d.year);
      BumpYears(Lookup(Rollup(pre), g), d.year);
      DistinctSnoc(YearsIn(pre, g), d.year);
    }
  }

  /** Under every group and year, the count is the number of records with that
      group and year; no stored count is zero; the counts add up to the
      number of records. */
  lemma {:induction false} RollupCounts(data: seq<Laureate>)
    ensures forall g, y :: CountAt(Lookup(Rollup(data), g), y) == CountOf(data, g, y)
    ensures forall g :: Positive(Lookup(Rollup(data), g))
    ensures AllTotal(Rollup(data)) == |data|
  {
    if |data| > 0 {
      var n := |data| - 1;
      var pre, d := data[..n], data[n];
      var g := GroupOf(d);
      RollupCounts(pre);
      InsertLookup(Rollup(pre), g, d.year);
      BumpCounts(Lookup(Rollup(pre), g), d.year);
    }
  }

  /** With duplicate-free keys, the entry at position `i` is the one a lookup
      of its group finds. */
  lemma {:induction false} LookupEntry(es: seq<GroupCounts>, i: nat)
    requires i < |es| && NoDups(Keys(es))
    ensures Lookup(es, es[i].group) == es[i].years
  {
    if i > 0 {
      assert Keys(es)[0] != Keys(es)[i];
      assert Keys(es[1..]) == Keys(es)[1..];
      LookupEntry(es[1..], i - 1);
    }
  }

  /** With duplicate-free years, the count a lookup of an entry's year finds
      is that entry's count. */
  lemma {:induction false} CountAtEntry(ys: seq<YearCount>, k: nat)
    requires k < |ys| && NoDups(Years(ys))
    ensures CountAt(ys, ys[k].year) == ys[k].count
  {
    if k > 0 {
      assert Years(ys)[0] != Years(ys)[k];
      assert Years(ys[1..]) == Years(ys)[1..];
      CountAtEntry(ys[1..], k - 1);
    }
  }

  /** A year with no entry is counted zero. */
  lemma {:induction false} CountAtAbsent(ys: seq<YearCount>, y: int)
    requires y !in Years(ys)
    ensures CountAt(ys, y) == 0
  {
    if |ys| > 0 {
      assert Years(ys)[0] == ys[0].year;
      assert Years(ys[1..]) == Years(ys)[1..];
      CountAtAbsent(ys[1..], y);
    }
  }

  /** One entry of the rollup: its years are the distinct years of its
      group's records in order of first occurrence; each leaf counts exactly
      the records with that group and year, so it is never zero; and a year
      has a leaf exactly when some record of the group has that year. */
  lemma RollupEntry(data: seq<Laureate>, i: nat)
    requires i < |Rollup(data)|
    ensures var e := Rollup(data)[i];
      && Years(e.years) == Distinct(YearsIn(data, e.group))
      && NoDups(Years(e.years))
      && (forall k :: 0 <= k < |e.years| ==>
            e.years[k].count >= 1 && e.years[k].count == CountOf(data, e.group, e.years[k].year))
      && (forall y :: y in Years(e.years) <==> CountOf(data, e.group, y) > 0)
  {
    var R := Rollup(data);
    var e := R[i];
    RollupKeys(data);
    RollupYears(data);
    RollupCounts(data);
    LookupEntry(R, i);
    forall k | 0 <= k < |e.years|
      ensures e.years[k].count >= 1
      ensures e.years[k].count == CountOf(data, e.group, e.years[k].year)
    {
      CountAtEntry(e.years, k);
    }
    forall y | y !in Years(e.years)
      ensures CountOf(data, e.group, y) == 0
    {
      CountAtAbsent(e.years, y);
    }
  }
}
