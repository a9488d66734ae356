# Olympic swimming charts: a verified model of the data derivations

This project models, in Dafny, what four React/D3 chart components compute
from the Olympic CSV files before anything is drawn. D3 rendering is not
modelled.

- **Bump chart** (`bump_chart.dfy`) derives the following.
  - The swimming events of the selected gender and stroke style, minus relays, in catalogue order.
  - Each event's distance label, the leftmost match of `/\d+m/`.
  - The ranked individual final results and the distinct countries among them.
  - One series per athlete. It maps every listed event to the rank of that athlete's first record for it, or null.
  - The country filter and the largest plotted rank.
- **Bump chart selection state** is the class `BumpChartView`.
  - Choosing a different gender or style resets the country filter to "all countries" and reloads the derived data.
  - Choosing a country changes only the filter.
- **Parallel-coordinates plot** (`parallel_coordinates.dfy`) derives the following.
  - The per-event set of stages. Each row's lower-cased stage is classified as heats, semifinals or a final.
  - The selectable events, those whose set holds all three stages.
  - One heats/semifinals/finals rank record per swimmer of the selected event.
  - The Top/Middle/Low performance group.
- **World map** (`world_map.dfy`) counts swimming athletes per country code in a dictionary filled by a loop. It also gives the top of the colour scale and the lookup that returns 0 for a missing code.
- **Histogram** (`histogram.dfy`) computes the medal tally of the selected gender. It counts gold, silver and bronze per country, adds a total, and sorts stably by total, largest first.

Three shared modules:
- `seqs.dfy` models `filter`, `map`, first-appearance de-duplication (as done by `Array.from(new Set(...))`, `d3.group` and `d3.rollup`), counting and subsequences.
- `text.dfy` models `startsWith`, `includes`, ASCII `toLowerCase` and unary `+` on a rank cell.
- `rows.dfy` holds the CSV row types.

The models follow the code's form:
- Loops that fill a dictionary or a record step by step are methods with loop invariants, each proved equal to a specification function:
  - `WorldMap.CountByCountry`
  - `ParallelCoordinates.CollectStageSets`
  - `ParallelCoordinates.SwimmerRanks`
  - `BumpChart.FillRanks`
  - `BumpChart.FormatSeries`
- The `filter`/`map` chains are functions, and the lemmas state what the components promise about them.

## Model

| member | source | states |
|---|---|---|
| BumpChart.EventListSpec | Homework3/yeqchen/src/components/BumpChart.tsx:33-35 | an event is listed iff some catalogue row with sport Swimming, containing the style and the gender and not "Relay", has that name; the list is an order-preserving subsequence of the catalogue's event column |
| BumpChart.EventListMember | Homework3/yeqchen/src/components/BumpChart.tsx:34 | every listed event contains the selected style and gender and does not contain "Relay" |
| BumpChart.DigitRunEnd | Homework3/yeqchen/src/components/BumpChart.tsx:39 | the greedy digit run from a position ends at the first non-digit |
| BumpChart.LeftmostMatch | Homework3/yeqchen/src/components/BumpChart.tsx:39 | the result is the first position at or after the start where digits followed by `m` begin, or none when no position qualifies |
| BumpChart.MatchEnd | Homework3/yeqchen/src/components/BumpChart.tsx:39 | a match of one or more digits then `m` starting at a position ends exactly where the greedy digit run ends |
| BumpChart.LabelIsLeftmostMatch | Homework3/yeqchen/src/components/BumpChart.tsx:38-41 | the label is the leftmost match of `\d+m` (digits greedy), and the whole event name when nothing matches |
| BumpChart.EventLabelsSpec | Homework3/yeqchen/src/components/BumpChart.tsx:38-42 | one label per event, position by position |
| BumpChart.LabelExample | Homework3/yeqchen/src/components/BumpChart.tsx:39-40 | "Men 100m" is labelled "100m" |
| BumpChart.RelayLabelExample | Homework3/yeqchen/src/components/BumpChart.tsx:39-40 | in "Women's 4x100m Freestyle" the first digit run `4` is followed by `x` and does not match, so the label is the leftmost match "100m" |
| BumpChart.FinalRecordsSpec | Homework3/yeqchen/src/components/BumpChart.tsx:44-52 | a record exists iff some result row with stage "Final", a listed event, participant type "Person" and a non-empty rank produces it, with the rank cell converted to a number; every record's event is listed; records keep the order of the rows |
| BumpChart.NoEventsNoSeries | Homework3/yeqchen/src/components/BumpChart.tsx:44-65 | with no listed event there are no records and no series |
| BumpChart.CountriesSpec | Homework3/yeqchen/src/components/BumpChart.tsx:54 | the country list has no duplicates, holds exactly the records' countries, and lists them in order of first appearance |
| BumpChart.FirstRank | Homework3/yeqchen/src/components/BumpChart.tsx:61-62 | the rank of the first record of the event, and null exactly when no record has that event |
| BumpChart.FillRanks | Homework3/yeqchen/src/components/BumpChart.tsx:59-63 | the loop builds the map that sends every listed event to its first rank |
| BumpChart.FormatSeries | Homework3/yeqchen/src/components/BumpChart.tsx:57-65 | the loop over the groups yields exactly one series per athlete in group order |
| BumpChart.GroupFirst | Homework3/yeqchen/src/components/BumpChart.tsx:64 | an athlete's group is non-empty and starts with that athlete's first record overall |
| BumpChart.SeriesSpec | Homework3/yeqchen/src/components/BumpChart.tsx:57-65 | one series per distinct athlete, in order of first appearance; the keys of `ranks` are exactly the listed events, each mapped to the first rank of the athlete's records for it; the country is that of the athlete's first record |
| BumpChart.SeriesHaveRank | Homework3/yeqchen/src/components/BumpChart.tsx:60-64 | when every record's event is listed, every series has a non-null rank for some listed event |
| BumpChart.DerivedSeriesHaveRank | Homework3/yeqchen/src/components/BumpChart.tsx:44-65 | every athlete of the derived data has a non-null rank for some listed event |
| BumpChart.CountryFilterSpec | Homework3/yeqchen/src/components/BumpChart.tsx:74 | with no selected country the data is unchanged; otherwise exactly the series of the selected country remain, in order |
| BumpChart.MaxOpt | Homework3/yeqchen/src/components/BumpChart.tsx:89 | the maximum of two optional numbers, ignoring missing ones |
| BumpChart.RowMaxSpec | Homework3/yeqchen/src/components/BumpChart.tsx:89 | the inner maximum is a numeric rank of the series that no numeric rank of the series exceeds; it is missing iff every cell is null or NaN |
| BumpChart.MaxRankSpec | Homework3/yeqchen/src/components/BumpChart.tsx:89 | `maxRank` is a plotted rank that no plotted rank exceeds, and it is missing iff nothing is plotted |
| BumpChart.Derive | Homework3/yeqchen/src/components/BumpChart.tsx:33-67 | the load effect gives one label per listed event, each in its event's position; a country list without duplicates; and series whose `ranks` are keyed by exactly the listed events, each with a non-null rank for some listed event |
| BumpChart.BumpChartView.constructor | Homework3/yeqchen/src/components/BumpChart.tsx:7-12 | initial state: style Freestyle, all countries, derived data consistent with the selection |
| BumpChart.BumpChartView.Reload | Homework3/yeqchen/src/components/BumpChart.tsx:28-69 | re-derives the data for the current gender and style; the selection is unchanged |
| BumpChart.BumpChartView.SelectGender | Homework3/yeqchen/src/components/BumpChart.tsx:24-26 | the new gender is stored; the country resets to all countries iff the gender changed; the data matches the new selection |
| BumpChart.BumpChartView.SelectStyle | Homework3/yeqchen/src/components/BumpChart.tsx:24-26 | the new style is stored; the country resets to all countries iff the style changed; the data matches the new selection |
| BumpChart.BumpChartView.SelectCountry | Homework3/yeqchen/src/components/BumpChart.tsx:248 | only the country filter changes |
| BumpChart.BumpChartView.Visible | Homework3/yeqchen/src/components/BumpChart.tsx:74 | with no selected country every series is shown; otherwise exactly the series of the selected country, in their original order |
| BumpChart.BumpChartView.DrawsSpec | Homework3/yeqchen/src/components/BumpChart.tsx:72 | the chart is drawn iff some result row is kept for the current gender and style (a Final of a listed event by a Person with a rank); with no listed event it is never drawn |
| BumpChart.BumpChartView.TopRank | Homework3/yeqchen/src/components/BumpChart.tsx:89 | the top of the y axis is a rank plotted for a visible series and a listed event, no plotted rank exceeds it, and it is missing iff nothing is plotted |
| ParallelCoordinates.StageAxisSpec | Homework3/yeqchen/src/components/ParallelCoordinatesPlot.tsx:48 | three axes, heats then semifinals then finals, each stage once |
| ParallelCoordinates.StageOfRow | Homework3/yeqchen/src/components/ParallelCoordinatesPlot.tsx:22-34 | heats iff the lower-cased stage contains "heat"; semifinals iff not that and it contains "semifinal"; finals iff neither and it equals "final" |
| ParallelCoordinates.StageOfRowIgnoresCase | Homework3/yeqchen/src/components/ParallelCoordinatesPlot.tsx:22 | classification does not depend on the case of ASCII letters |
| ParallelCoordinates.StagesOfMember | Homework3/yeqchen/src/components/ParallelCoordinatesPlot.tsx:20-37 | a stage is in an event's set iff some row of that event classifies as that stage |
| ParallelCoordinates.CollectStageSets | Homework3/yeqchen/src/components/ParallelCoordinatesPlot.tsx:18-37 | the reduce yields one stage set per event of the individual rows, keys in order of first appearance |
| ParallelCoordinates.EventNamesStep | Homework3/yeqchen/src/components/ParallelCoordinatesPlot.tsx:25 | a row adds its event to the key list only when the event has no entry yet |
| ParallelCoordinates.StageSetsStep | Homework3/yeqchen/src/components/ParallelCoordinatesPlot.tsx:24-34 | one row creates an empty set for a new event, then adds its classified stage, if any |
| ParallelCoordinates.StageSetsKeys | Homework3/yeqchen/src/components/ParallelCoordinatesPlot.tsx:25 | after a row, the keys are the previous keys plus the row's event |
| ParallelCoordinates.StagesOfStep | Homework3/yeqchen/src/components/ParallelCoordinatesPlot.tsx:28-34 | one row adds at most its own classified stage, and only to its own event |
| ParallelCoordinates.StagesOfAbsent | Homework3/yeqchen/src/components/ParallelCoordinatesPlot.tsx:25 | an event with no rows has the empty set |
| ParallelCoordinates.FullStageSet | Homework3/yeqchen/src/components/ParallelCoordinatesPlot.tsx:40 | a stage set has size 3 iff it holds heats, semifinals and finals |
| ParallelCoordinates.ValidIffFull | Homework3/yeqchen/src/components/ParallelCoordinatesPlot.tsx:39-41 | an event is selectable iff it is an individual row's event and its set has size 3 |
| ParallelCoordinates.HasStageRowIff | Homework3/yeqchen/src/components/ParallelCoordinatesPlot.tsx:18-34 | a stage is in an event's set iff some individual row of the event classifies as that stage |
| ParallelCoordinates.HasStageRowEvent | Homework3/yeqchen/src/components/ParallelCoordinatesPlot.tsx:18-21 | an event with a classified individual row is a key of the stage sets |
| ParallelCoordinates.ValidEventMember | Homework3/yeqchen/src/components/ParallelCoordinatesPlot.tsx:39-41 | an event is selectable iff its individual rows include a heat, a semifinal and a final |
| ParallelCoordinates.ValidEventsSpec | Homework3/yeqchen/src/components/ParallelCoordinatesPlot.tsx:18-41 | the selectable events are exactly those covering the three stages, each once, in order of first appearance |
| ParallelCoordinates.RankOrNull | Homework3/yeqchen/src/components/ParallelCoordinatesPlot.tsx:60 | the rank is null iff the cell is not a number or is zero; otherwise it is the cell's number, which is at least 1 |
| ParallelCoordinates.LastRank | Homework3/yeqchen/src/components/ParallelCoordinatesPlot.tsx:59-64 | the rank of the swimmer's last row whose stage starts with the stage's prefix, and null when no row has it |
| ParallelCoordinates.SwimmerRanks | Homework3/yeqchen/src/components/ParallelCoordinatesPlot.tsx:52-64 | the forEach leaves each field at the rank of the last row of its stage, or null |
| ParallelCoordinates.SwimmerRecordsSpec | Homework3/yeqchen/src/components/ParallelCoordinatesPlot.tsx:46-67 | one record per distinct participant of the event, in order of first appearance, each built from that participant's rows |
| ParallelCoordinates.PerformanceGroupSpec | Homework3/yeqchen/src/components/ParallelCoordinatesPlot.tsx:105-113 | Top iff the final rank is 1 to 3, Middle iff it is 4 or more, Low iff there is no final rank |
| ParallelCoordinates.FinalsPositive | Homework3/yeqchen/src/components/ParallelCoordinatesPlot.tsx:62 | a final rank, when present, is at least 1 |
| WorldMap.CountByCountry | Homework3/yeqchen/src/components/WorldMap.tsx:48-53 | the loop gives each counted athlete's country code the number of counted athletes with that code, keys in insertion order |
| WorldMap.CountMapStep | Homework3/yeqchen/src/components/WorldMap.tsx:52 | one athlete adds one to its code's count, which starts at 0 when the code is absent |
| WorldMap.LookupSpec | Homework3/yeqchen/src/components/WorldMap.tsx:64 | a lookup gives the number of athletes with that code; it is 0 iff the code is absent, and every present code counts at least 1 |
| WorldMap.CountsSum | Homework3/yeqchen/src/components/WorldMap.tsx:50-53 | the counts add up to the number of counted athletes |
| WorldMap.SumAfterAppend | Homework3/yeqchen/src/components/WorldMap.tsx:52 | one more athlete raises the sum by one exactly when its code is among the keys summed |
| WorldMap.LargestCount | Homework3/yeqchen/src/components/WorldMap.tsx:55 | `d3.max` of the counts: missing iff there are no keys, otherwise a count that no count exceeds |
| WorldMap.MaxCountSpec | Homework3/yeqchen/src/components/WorldMap.tsx:55 | the scale's top is at least 1, is 1 with no athletes, and otherwise is the largest count of any code |
| Histogram.GenderValue | Homework3/yeqchen/src/components/Histogram.tsx:26 | "Women" selects Female and any other label selects Male |
| Histogram.InsertPermutes | Homework3/yeqchen/src/components/Histogram.tsx:43 | insertion adds exactly the one tally |
| Histogram.InsertSorted | Homework3/yeqchen/src/components/Histogram.tsx:43 | insertion into a list sorted by descending total keeps it sorted |
| Histogram.InsertStable | Homework3/yeqchen/src/components/Histogram.tsx:43 | insertion keeps the tallies of each total in order, with the new one first |
| Histogram.SortSpec | Homework3/yeqchen/src/components/Histogram.tsx:43 | the sort gives descending totals, a permutation of its input, and keeps the order of tallies with equal totals |
| Histogram.MedalPartition | Homework3/yeqchen/src/components/Histogram.tsx:31-35 | each row counts in at most one medal bucket; the three counts add up to the number of gold, silver or bronze rows |
| Histogram.MedalCountPairs | Homework3/yeqchen/src/components/Histogram.tsx:29-37 | a country's count of a medal type is the number of rows with that country and medal type |
| Histogram.CountIsGroupSize | Homework3/yeqchen/src/components/Histogram.tsx:29-37 | a country's group has one row per occurrence of the country |
| Histogram.RollupSpec | Homework3/yeqchen/src/components/Histogram.tsx:29-42 | one tally per distinct country in first-appearance order; gold, silver and bronze are the counts of that country's rows of each type, and the total is their sum, at most the number of the country's rows |
| Histogram.ProcessSpec | Homework3/yeqchen/src/components/Histogram.tsx:25-46 | the tally is sorted by descending total, a stable permutation of the rollup of the selected swimming medallists, with exactly their countries, each once with its own counts |
| Histogram.DrawsSpec | Homework3/yeqchen/src/components/Histogram.tsx:145 | the chart is drawn iff some row is a swimming medal of the selected gender |
| Histogram.TallyExample | Homework3/yeqchen/src/components/Histogram.tsx:25-46 | in rows holding three USA women's swimming golds, one silver, a men's row, an athletics row and a row with an unknown medal type, the women's tally keeps five USA rows and gives the single tally USA 3/1/0, total 4; the unknown medal type counts in no bucket |
| Text.ContainsIff | Homework3/yeqchen/src/components/BumpChart.tsx:34 | `includes` holds iff the substring occurs at some position |
| Text.ToLowerIdempotent | Homework3/yeqchen/src/components/ParallelCoordinatesPlot.tsx:22 | lower-casing twice is the same as lower-casing once |
| Text.ToNumber | Homework3/yeqchen/src/components/BumpChart.tsx:49 | the cell is a number iff it is a string of decimal digits (the empty cell is 0) and NaN otherwise; a number is non-negative |
| Text.ToNumberDecimal | Homework3/yeqchen/src/components/BumpChart.tsx:49 | reading the decimal digits of `n` gives `n` |

## Left out

- D3 rendering is not modelled. This covers SVG selection and clearing, scales, axes, lines, grid lines, legends, titles and `d3.stack`. It is presentation over floating-point pixel coordinates, and `d3.stack` belongs to a library not modelled here.
- Tooltips and mouse handlers are not modelled. They are event-driven UI.
- CSV and GeoJSON loading (`d3.csv`, `d3.json`, `Promise.all`, console logging) is not modelled. The model takes the parsed rows as parameters, with missing cells as empty strings.
  - `BumpChartView` treats a reload as one atomic step. The stale state between a selection and the resolution of the load is not modelled.
- Window resizing, the `debounce` timer and `dimensions` are not modelled. They are browser events and timers.
- Colour interpolation, gradient steps and `.nice()` are not modelled. They are floating-point work.
- `App.tsx` is not part of this model. It only passes the gender selection to the components.
- Text.ToNumber: only the empty string and strings of decimal digits give a number. Every other string gives NaN, including signs, surrounding blanks, decimals, exponents and hexadecimal.
- Text.ToLower: only ASCII letters change. There is no Unicode case mapping.
- BumpChart.Label: only the pattern `/\d+m/` is modelled, not a general regular-expression engine. A digit is an ASCII digit.
- JavaScript objects list integer-like keys before the other keys. The model keeps every dictionary in insertion order, so this ordering is not modelled. Event names and country codes are not integer-like.
- Prototype keys of a plain object (such as "constructor") are not modelled. Both the stage-set reduce and the athlete count look up keys in a plain object, where such keys would appear present from the start.
- The record `rank: +d.rank` is kept under `d.rank ? … : null` and later filtered for null. This is modelled as one filter on a non-empty rank cell followed by a map.
- ParallelCoordinates.PerformanceGroupSpec follows the code, not the legend text. A final rank above 3 is Middle, with no upper bound of 8. The `return null` path after `isNaN` is not modelled, because `+rank || null` never yields NaN.
- The per-athlete `ranks` object is a map from event name to rank. When an event name occurs twice in the list, the object holds it once, and so does the map.
