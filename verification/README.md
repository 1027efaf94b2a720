# Nobel laureates, STEM vs Non-STEM: the data preparation of the line chart

`main.js` draws a line chart of the number of Nobel laureates per year in
STEM and Non-STEM categories. Apart from D3 and SVG drawing, it prepares the
data in four steps, and this project models those steps in Dafny:

1. **Classify** (`main.js:35-44`). Each record's `category` gives its
   `categoryGroup`. `physics`, `chemistry` and `medicine` give `"STEM"`.
   `literature`, `peace` and `economics` give `"Non-STEM"`. Any other
   category leaves the group `undefined`. This is `Classification.Classify`,
   and the three outcomes form the datatype `Group = Stem | NonStem | Unassigned`.
2. **Count** (`main.js:48-52`). `d3.rollup(data, v => v.length, d => d.categoryGroup, d => d.year)`
   builds a nested `Map` from group to year to count. JavaScript maps keep
   their keys in first-insertion order, so both levels are modelled as
   association lists. `Aggregation.Rollup` folds the records in input order.
   `Bump` and `Insert` do the per-record update.
3. **Build series** (`main.js:58-64`). There is one `{category, values}`
   series per outer entry. Its `{year, count}` points are sorted by year.
   This is `SeriesBuilder.BuildSeries`, and the sort is modelled as an
   insertion sort, `SortByYear`.
4. **Scale domains** (`main.js:68-82`). The x domain is `d3.extent` over the
   years of all records (`Scales.Extent`, `Scales.XDomain`). The y domain is
   `[0, maxCount]`, where `maxCount` is a nested `d3.max` over the counts
   (`Scales.MaxDefined`, `Scales.MaxCount`, `Scales.YDomain`). For no data
   the source's domains are `[undefined, undefined]` and `[0, undefined]`;
   the model gives `None` for both. The colour domain is the fixed pair
   `["STEM", "Non-STEM"]` (`Scales.ColorDomain`).

`Pipeline.Prepare` chains the four steps. The theorems in `Pipeline` state
what the drawing code receives, in terms of the input records only:

- there is one series per distinct group, in first-occurrence order;
- every point counts exactly the matching records, and no count is zero;
- a series has no point for a year that has no records;
- within each series, years strictly increase;
- the counts add up to the number of records;
- the x domain spans every record's year, and the y domain covers every count.

Files: `basics.dfy` (Option, duplicate-freedom, and `Distinct`, the
first-occurrence key order), `classification.dfy`, `aggregation.dfy`,
`series.dfy`, `scales.dfy`, `pipeline.dfy`.

**Unclassified records are kept.** Records whose category is in neither
list are not dropped. Their `categoryGroup` stays `undefined`, and
`d3.rollup` keys them under `undefined`, so they form a bucket and a series
of their own. In the model, `Unassigned` is a group like the other two. `Pipeline.UnassignedKept` and `Pipeline.UnknownCategoryExample`
state this behaviour. `Pipeline.RecordsConserved` states that the counts
add up to the number of all records.

## Model

| member | source | states |
|---|---|---|
| Classification.Classify | main.js:35-44 | the three STEM names, and only they, give STEM; the three non-STEM names, and only they, give Non-STEM; every other category gives no group |
| Classification.ClassificationOrderIrrelevant | main.js:35-44 | the two category lists are disjoint, so testing the non-STEM list first would classify every category the same way |
| Classification.GroupOf | main.js:37-44 | the `categoryGroup` a record has after the classification loop; no contract of its own, stated by `Classify` |
| Classification.Label | main.js:38-44 | a record's `categoryGroup` is `"STEM"` exactly for STEM, `"Non-STEM"` exactly for Non-STEM, and `undefined` exactly when it has no group |
| Classification.LabelInjective | main.js:38-50 | different groups carry different labels, so keying the rollup by group buckets records the same way as keying it by the label string |
| Basics.Distinct | main.js:48-50 | the keys of a Map filled in input order: duplicate-free, and containing exactly the elements of the input |
| Basics.DistinctFirstOccurrenceOrder | main.js:48-50 | those keys come in the order of each element's first occurrence in the input |
| Aggregation.Bump | main.js:49-51 | the inner Map update for one record (get the year's count, set it one higher, or start it at 1); no contract of its own, stated by `BumpYears` and `BumpCounts` |
| Aggregation.Insert | main.js:48-51 | the outer Map update for one record (bump the group's year map, or append a new group); no contract of its own, stated by `InsertKeys` and `InsertLookup` |
| Aggregation.BumpYears | main.js:49-51 | counting one record for a year keeps the order of the years already present, and appends a year seen for the first time |
| Aggregation.BumpCounts | main.js:49-51 | counting one record for a year adds one to that year's count and changes no other count; counts stay positive; the total grows by one |
| Aggregation.InsertKeys | main.js:48-50 | counting one record keeps the order of the groups already present, and appends a group seen for the first time |
| Aggregation.InsertLookup | main.js:48-51 | counting one record bumps its group's year map (an absent group starts empty), leaves every other group's year map unchanged, and adds one to the overall total |
| Aggregation.YearsInMembers | main.js:51 | a year is listed for a group exactly when some record of that group has that year |
| Aggregation.CountOfPositive | main.js:49 | the reference count for a group and year is positive exactly when some record has that group and year |
| Aggregation.Rollup | main.js:48-52 | `d3.rollup(data, v => v.length, d => d.categoryGroup, d => d.year)` as a fold over the records in input order; no contract of its own, stated by `RollupKeys`, `RollupYears`, `RollupCounts` and `RollupEntry` |
| Aggregation.RollupKeys | main.js:48-52 | the rollup's groups are the distinct groups of the records in first-occurrence order, and records without a group are included |
| Aggregation.RollupYears | main.js:48-52 | under each group, the years are the distinct years of that group's records, in first-occurrence order |
| Aggregation.RollupCounts | main.js:48-52 | each group-and-year count equals the number of records with that group and year; no count is zero; all counts add up to the number of records |
| Aggregation.RollupEntry | main.js:48-52 | for each rollup entry: its years are duplicate-free; each leaf is at least 1 and counts exactly the matching records; a year has a leaf exactly when it has records (no zero-fill) |
| SeriesBuilder.InsertByYear | main.js:63 | inserting a point into a sorted list adds exactly that point |
| SeriesBuilder.InsertByYearAscending | main.js:63 | inserting into points ascending by year keeps them ascending |
| SeriesBuilder.InsertByYearStrict | main.js:63 | inserting a new year into strictly ascending points keeps them strictly ascending |
| SeriesBuilder.InsertByYearTotal | main.js:63 | inserting a point adds its count to the total |
| SeriesBuilder.SortByYear | main.js:60-63 | the sorted values are a permutation of the year map's entries |
| SeriesBuilder.SortByYearMembers | main.js:60-63 | sorting neither adds nor loses a point |
| SeriesBuilder.SortByYearAscending | main.js:63 | the sorted values are ascending by year |
| SeriesBuilder.SortByYearStrict | main.js:51-63 | when no year repeats, as in one group's year map, the sorted values strictly increase in year |
| SeriesBuilder.SortByYearTotal | main.js:63 | sorting leaves the total count unchanged |
| SeriesBuilder.BuildSeries | main.js:58-64 | one `{category, values}` series per rollup entry, in order, with the points sorted by year; no contract of its own, stated by `BuildSeriesTotal` and the `Pipeline` theorems |
| SeriesBuilder.BuildSeriesTotal | main.js:58-64 | the counts of all series add up to the counts of the rollup |
| Scales.Extent | main.js:70 | `d3.extent`: `None` exactly for no values (d3's `[undefined, undefined]`); otherwise the bounds are values from the input, and every value lies between them |
| Scales.MaxDefined | main.js:74 | `d3.max`: undefined exactly when every entry is undefined; otherwise it is one of the entries and no defined entry exceeds it |
| Scales.AllYears | main.js:68 | `data.map(d => d.year)`, every record's year; no contract of its own, stated by `XDomain` |
| Scales.XDomain | main.js:68-70 | the x domain is the earliest and the latest year over all records, classified or not; it is `None` (d3's `[undefined, undefined]`) only for no records |
| Scales.SeriesMax | main.js:74 | one series' maximum bounds all of its counts and equals one of them; it is undefined only for a series with no points |
| Scales.MaxCount | main.js:74 | `maxCount` bounds every count of every series and equals one of them; it is undefined only when no series has a point |
| Scales.YDomain | main.js:74-77 | the y domain starts at 0, reaches the largest count, and so contains every plotted count; it is `None` (the source's `[0, undefined]`) only when no series has a point |
| Scales.ColorDomainLabels | main.js:80-82 | the colour domain is the fixed pair of the two real group labels, STEM first, and they differ |
| Pipeline.SeriesOf | main.js:48-64 | the series built from the rollup of the records; no contract of its own, stated by `SeriesPerGroup`, `SeriesAscending`, `SeriesPoints`, `UnassignedKept` and `RecordsConserved` |
| Pipeline.Prepare | main.js:35-82 | the whole preparation: series, x domain, y domain and colour domain; no contract of its own, stated by `DomainsCoverData` and the theorems on `SeriesOf` |
| Pipeline.SeriesPerGroup | main.js:48-59 | there is exactly one series per distinct group that occurs in the data, unassigned records included, in order of each group's first occurrence |
| Pipeline.SeriesAscending | main.js:60-63 | within every series, years strictly increase |
| Pipeline.SeriesPoints | main.js:48-63 | each point counts exactly the records with its series' group and its year, and so is at least 1; a year has a point exactly when some record of the group has that year |
| Pipeline.UnassignedKept | main.js:38-64 | a record whose category is in neither list is not dropped: the absent group has a series, with a point at that record's year |
| Pipeline.RecordsConserved | main.js:48-64 | the counts of all series add up to the number of records, classified or not |
| Pipeline.DomainsCoverData | main.js:68-77 | both domains are defined exactly when there is a record; the x domain contains every record's year; the y domain starts at 0 and contains every plotted count |
| Pipeline.ThreeRecordRollup | main.js:48-52 | physics 2000, literature 2000 and physics 2001 roll up to STEM {2000: 1, 2001: 1} and then Non-STEM {2000: 1} |
| Pipeline.ThreeRecordSeries | main.js:58-64 | those records give a STEM series [(2000, 1), (2001, 1)] and a Non-STEM series [(2000, 1)] |
| Pipeline.ThreeRecordXDomain | main.js:68-70 | those records give the x domain [2000, 2001] |
| Pipeline.ThreeRecordYDomain | main.js:74-77 | those series give the y domain [0, 1] |
| Pipeline.ThreeRecordExample | main.js:35-82 | the whole prepared chart of those records: both series, both domains, and the colour domain |
| Pipeline.WithUnknownRollup | main.js:38-52 | a physics 2000 record and a 1990 record of an unlisted category roll up to STEM {2000: 1} and then undefined {1990: 1} |
| Pipeline.UnknownCategoryExample | main.js:38-70 | the unlisted record gets a series of its own, and its year widens the x domain to [1990, 2000] |

## Left out

- Loading the CSV (`main.js:15`) is I/O inside an external library. The model takes the loaded records as a sequence.
- `+d.year` (`main.js:23`) is a JavaScript string-to-number conversion that can yield NaN. The model takes `year` as an integer. For that reason the NaN and null skipping inside `d3.extent` and `d3.max` never comes into play.
- The `name` column rename (`main.js:24`) is not used by the pipeline. The model keeps `name` only as a field of the record.
- The classification loop writes `categoryGroup` into each record. The model derives it instead, as `GroupOf(d) = Classify(d.category)`. This assumes the input has no `categoryGroup` column of its own. If it had one, an unclassified record would keep that column's value.
- The pixel ranges of the two linear scales, `width`, `height` and the margins, and the `d3.line` path generator (`main.js:2-4`, `71`, `77`, `88-101`) are floating-point geometry inside the library.
- The colour range and how `d3.scaleOrdinal` colours a key outside its domain (`main.js:80-82`, `107`, `187`) are library behaviour and presentation. The model keeps only the colour domain.
- All SVG and DOM work, including the axes, title, labels, legend and hover handlers (`main.js:7-12`, `96-199`), is presentation. The `console.log` call (`main.js:55`) is output.
- The sort comparator `a.year - b.year` is JavaScript number subtraction. With integer years it orders exactly like integer comparison, so the model compares integers.
- Scales.Extent: for no values `d3.extent` returns `[undefined, undefined]`, and the model returns `None`. An empty record list is not a case the chart handles, so the two empty shapes are not told apart.
- Scales.YDomain: when no series has a point, the source's y domain is `[0, undefined]`, and the model returns `None`. This happens only for an empty record list, as `Pipeline.DomainsCoverData` states.
- SeriesBuilder.SortByYear: the model does not state that the sort is stable among equal years. Years never repeat within one group, so the sorted result is unique anyway, and `SortByYearStrict` states it.
