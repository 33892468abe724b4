# Wind-turbine pipeline: a verified model of its core

This project models the batch pipeline that ingests wind-turbine CSV
readings and summarises them per turbine. The three parts modelled are:

- **Cleaning** (`clean_data`). Raw rows go through parsing, a sort by
  turbine, a backward fill, a drop of incomplete rows, a type cast and a
  range check.
- **Incremental loading** (`do_etl`). The loader resumes from the latest
  checkpoint in `load_control`, reads chunks of rows, cleans them and
  stores each with a new checkpoint. It stops at the first empty read.
- **Statistics** (`trigger_summary_stats_creation`, `calculate_stats`,
  `agg_first_value`, `agg_any_true`). The engine resumes from the latest
  window in `statistics_control` or from midnight of the earliest reading.
  For every window of whole days that starts no later than the latest
  reading, it computes each turbine's min, max and mean of power output,
  plus an anomaly flag for a reading more than two sample standard
  deviations from the mean. It stores the result with the window.

The store behind `DatabaseManager` is a class,
`Persistence.DatabaseManager`. It holds four append-only tables as `seq`
fields plus two auto-increment counters. Its methods append to those
fields, and its queries are specified by functions over them.

Modules:

| file | module | models |
|---|---|---|
| `wrappers.dfy` | `Wrappers` | `Option` |
| `seqs.dfy` | `Seqs` | order-preserving selection (`df[mask]`, `dropna`), sortedness |
| `records.dfy` | `Records` | raw rows, cleaned readings, control records, summaries |
| `cleaning.dfy` | `Cleaning` | `clean_data` |
| `stats.dfy` | `Stats` | `calculate_stats`, `agg_first_value`, `agg_any_true` |
| `persistence.dfy` | `Persistence` | `DatabaseManager` and its queries |
| `loader.dfy` | `Loader` | `do_etl` |
| `statsengine.dfy` | `StatsEngine` | `trigger_summary_stats_creation` |

Several things become parameters:

- The data-frame library's text conversions (`pd.to_datetime`,
  `pd.to_numeric` with `errors='coerce'`) are passed in as
  `Cleaning.Coercions`, two partial functions.
- The input file's data rows are a `seq<RawRow>`.
- The configuration values (pipeline version, statistics version, window
  length in days) are method arguments.

Timestamps are whole seconds; see "Left out" for what that drops.

## Model

| member | source | states |
|---|---|---|
| Cleaning.Truncate | src/pipeline/etl.py:32-38 | the integer cast of a float truncates toward zero: for non-negative `x`, `n <= x < n + 1`; for negative `x`, `n - 1 < x <= n` |
| Cleaning.ParseRow | src/pipeline/etl.py:9-18 | one row through parsing and coercion: dropped without a parsed timestamp or a numeric turbine id, the id truncated to an integer, failed measurements missing; `ParseRowsOrigin` and `ParseRowsComplete` state what this keeps of a batch |
| Cleaning.ParseRows | src/pipeline/etl.py:9-18 | parsing never adds rows |
| Cleaning.ParseRowsOrigin | src/pipeline/etl.py:9-18 | every parsed row is the parse of some row of the batch |
| Cleaning.ParseRowsComplete | src/pipeline/etl.py:9-18 | every row whose timestamp parses and whose turbine id is numeric is kept |
| Cleaning.ParseRowsAppend | src/pipeline/etl.py:9-18 | parsing is row-wise: parsing a concatenation gives the concatenation of the parses |
| Cleaning.UnparsedTimestampIgnored | src/pipeline/etl.py:9-11 | a row with an unparseable timestamp, wherever it stands, leaves the cleaned output unchanged |
| Cleaning.NonNumericTurbineIgnored | src/pipeline/etl.py:15-17 | a row with a non-numeric turbine id, wherever it stands, leaves the cleaned output unchanged |
| Cleaning.InsertByTurbine | src/pipeline/etl.py:26 | one insertion step of the sort adds exactly one row |
| Cleaning.InsertByTurbinePermutes | src/pipeline/etl.py:26 | an insertion step adds exactly the inserted row to the multiset |
| Cleaning.InsertByTurbineAbove | src/pipeline/etl.py:26 | a lower bound on every turbine id is kept by an insertion step |
| Cleaning.InsertByTurbineSorted | src/pipeline/etl.py:26 | inserting into a sorted list keeps it sorted by turbine id |
| Cleaning.InsertByTurbineStable | src/pipeline/etl.py:26 | an insertion step changes one turbine's rows only by putting the inserted row first |
| Cleaning.SortByTurbine | src/pipeline/etl.py:26 | the sort keeps the number of rows |
| Cleaning.SortByTurbinePermutes | src/pipeline/etl.py:26 | the sort is a permutation (same multiset of rows) |
| Cleaning.SortByTurbineSorted | src/pipeline/etl.py:26 | the result is ordered by turbine id |
| Cleaning.SortByTurbineStable | src/pipeline/etl.py:26 | within each turbine the rows keep their batch order |
| Cleaning.BackFill | src/pipeline/etl.py:27 | the backward fill keeps the number of rows and every row's timestamp and turbine id |
| Cleaning.FillFrom | src/pipeline/etl.py:27 | one row filled from the already filled row after it: each missing measurement takes that row's value; `CellOfFill` and `BackFillTakesNearestLater` state what the whole fill does |
| Cleaning.CellOfFill | src/pipeline/etl.py:27 | a filled cell is the row's own value if present, otherwise the next row's |
| Cleaning.PresentShift | src/pipeline/etl.py:27 | "some later row has a value" shifts by one index when the first row is dropped |
| Cleaning.FirstPresentShift | src/pipeline/etl.py:27 | "the nearest row with a value" shifts by one index when the first row is dropped |
| Cleaning.FirstPresentFromStart | src/pipeline/etl.py:27 | a missing first cell extends the stretch of missing cells before the nearest value |
| Cleaning.BackFillTakesNearestLater | src/pipeline/etl.py:27 | a cell is filled exactly when some row at or after it has a value in that column, and then it takes the value of the nearest such row, whatever its turbine |
| Cleaning.BackFillKeepsPresentCell | src/pipeline/etl.py:27 | a cell that has a value keeps it |
| Cleaning.BackFillKeepsPresentCells | src/pipeline/etl.py:27 | all three measurements that a row has survive the fill unchanged |
| Cleaning.DropIncomplete | src/pipeline/etl.py:30 | every row left has all three measurements |
| Cleaning.CastRow | src/pipeline/etl.py:32-38 | the typed form of a complete row, wind direction truncated to an integer; `Cast` applies it row for row and `CleanParsedSound` says every output row is one |
| Cleaning.InRange | src/pipeline/etl.py:42-47 | the inclusive range checks on speed, direction and power; `CleanData` guarantees every output row passes them and `CleanParsedComplete` that every complete row passing them is kept |
| Cleaning.Cast | src/pipeline/etl.py:32-38 | the cast is element-wise: each output row is the typed form of the input row at the same index |
| Cleaning.CleanParsed | src/pipeline/etl.py:26-47 | the output is no longer than the input, every row is in range, and the rows are ordered by turbine id |
| Cleaning.CleanData | src/pipeline/etl.py:7-49 | `clean_data` never adds rows, every row it returns satisfies the inclusive range checks, and the rows come out ordered by turbine id |
| Cleaning.CleanParsedSound | src/pipeline/etl.py:26-47 | every output row is the cast of a complete back-filled row |
| Cleaning.CleanParsedComplete | src/pipeline/etl.py:29-47 | every complete back-filled row whose cast is in range is in the output |
| Cleaning.CleanParsedOrigin | src/pipeline/etl.py:26-47 | every output row keeps the timestamp, turbine id and present measurements of some parsed row |
| Cleaning.CleanDataOrigin | src/pipeline/etl.py:7-49 | every cleaned row comes from a row of the batch that parses; only measurements that row lacked can differ |
| Cleaning.ImputingSort | tests/test_etl.py:84-102 | in the imputing example, the sort puts turbine 1's two rows first, in batch order |
| Cleaning.ImputingFill | tests/test_etl.py:84-102 | in the imputing example, turbine 1's missing direction takes 220 from the next row; turbine 4's trailing gap stays |
| Cleaning.ImputingDrop | tests/test_etl.py:84-102 | in the imputing example, the unfilled row of turbine 4 is dropped |
| Cleaning.ImputingScenario | tests/test_etl.py:84-123 | the imputing example cleans to exactly the expected four rows |
| Cleaning.RangeScenario | tests/test_etl.py:125-164 | in the range example, wind directions 361 and -2 are dropped and the remaining three rows come out in turbine order |
| Seqs.Filter | src/pipeline/etl.py:47 | a mask selection never adds rows |
| Seqs.FilterSound | src/pipeline/etl.py:47 | everything selected is a row of the input that passes the mask |
| Seqs.FilterComplete | src/pipeline/etl.py:47 | every row that passes the mask is selected |
| Seqs.FilterKeepsOrder | src/pipeline/etl.py:30-47 | selection keeps an ordering by key |
| Stats.MinOf | src/analysis/stats.py:62 | the `min` aggregate is an element bounding all elements from below |
| Stats.MaxOf | src/analysis/stats.py:63 | the `max` aggregate is an element bounding all elements from above |
| Stats.Sum | src/analysis/stats.py:64 | the column sum behind the mean; `SumAtLeast`, `SumAtMost` and `SumOfConstant` bound and evaluate it |
| Stats.Mean | src/analysis/stats.py:64 | the `mean` aggregate; `MeanWithin` and `MeanBetweenMinAndMax` place it between the bounds of the readings |
| Stats.SquaredDeviations | src/analysis/stats.py:65 | a sum of squared deviations is non-negative |
| Stats.SampleVariance | src/analysis/stats.py:65 | the square of `std` is defined exactly when there are at least two values, and is then non-negative |
| Stats.IsAnomaly | src/analysis/stats.py:72-73 | the per-reading test `abs(z) > 2`, squared; undefined deviation compares false; `NoAnomalyWhenNoSpread` shows it never holds without spread |
| Stats.HasAnomaly | src/analysis/stats.py:72-80 | the reference meaning of `has_anomaly_reading`: some reading passes `IsAnomaly`; `TurbineRowCorrect` and `CalculateStatsCorrect` state the computed flag equals it |
| Stats.InsertId | src/analysis/stats.py:61 | adding a key to the ascending group keys keeps them ascending and holds exactly the old keys plus the new one |
| Stats.DistinctTurbineIds | src/analysis/stats.py:61 | the group keys are strictly ascending |
| Stats.DistinctTurbineIdsMembers | src/analysis/stats.py:61 | a turbine is a group key exactly when some row has it |
| Stats.Powers | src/analysis/stats.py:61-65 | a turbine's power column is no longer than the input |
| Stats.PowersNonEmpty | src/analysis/stats.py:61-65 | a turbine that occurs has a non-empty power column |
| Stats.Summarise | src/analysis/stats.py:61-66 | a summary is keyed by its turbine |
| Stats.Aggregate | src/analysis/stats.py:61-66 | the first group-by yields one summary per group key, in key order |
| Stats.FindSummary | src/analysis/stats.py:69 | the join finds a summary for the turbine exactly when one exists, and it is a summary for that turbine |
| Stats.FindSummaryIn | src/analysis/stats.py:69 | a turbine with a summary is found by the join |
| Stats.AggregateCoversRows | src/analysis/stats.py:61-69 | every reading's turbine finds its own summary in the join |
| Stats.Merge | src/analysis/stats.py:69-73 | the inner join never adds rows |
| Stats.MergeKeepsReadings | src/analysis/stats.py:69 | when every turbine has a summary, the inner join keeps every reading in order |
| Stats.GroupOf | src/analysis/stats.py:76 | a group is no longer than the joined table |
| Stats.GroupOfHas | src/analysis/stats.py:76 | a turbine that occurs in the join has a non-empty group |
| Stats.GroupOfNonEmpty | src/analysis/stats.py:76 | every group key of the second group-by has a non-empty group |
| Stats.GroupMatchesCons | src/analysis/stats.py:69-76 | prepending a row carrying the summary and its own flag extends a matched group |
| Stats.GroupOfMerge | src/analysis/stats.py:69-76 | a turbine's joined rows pair up with its power outputs: each carries the turbine's summary and the flag of its own reading |
| Stats.GroupOfMergeHere | src/analysis/stats.py:69-76 | a first reading of the turbine heads its group |
| Stats.GroupOfMergeElsewhere | src/analysis/stats.py:69-76 | a first reading of another turbine leaves the group unchanged |
| Stats.FirstValue | src/analysis/stats.py:88-89 | `agg_first_value` has a value exactly when the column is non-empty |
| Stats.FirstValueOfUniformColumn | src/analysis/stats.py:76-79 | on a column that holds one value throughout, the first value is that value |
| Stats.AnyTrue | src/analysis/stats.py:92-93 | `agg_any_true` is true exactly when some element is true |
| Stats.ReduceGroup | src/analysis/stats.py:76-81 | a reduced row is keyed by its turbine |
| Stats.Reduce | src/analysis/stats.py:76-81 | the second group-by yields one row per group key |
| Stats.TurbineRowCorrect | src/analysis/stats.py:60-81 | a turbine's reduced row has min, max and mean of its power outputs, and is flagged exactly when one reading is more than two sample standard deviations from the mean |
| Stats.ReduceMatchedGroup | src/analysis/stats.py:76-81 | reducing a turbine's joined rows with `agg_first_value` and `agg_any_true` gives its summary's min, max and mean, and is flagged exactly when one of its readings is an anomaly |
| Stats.CalculateStatsGroups | src/analysis/stats.py:51-81 | `calculate_stats` yields one row per distinct turbine, each the reduction of that turbine's joined rows |
| Stats.CalculateStatsCorrect | src/analysis/stats.py:51-85 | the output has one row per turbine of the input, in strictly ascending turbine order, each with min, max, mean and anomaly flag of that turbine's power outputs |
| Stats.CalculateStats | src/analysis/stats.py:51-85 | `calculate_stats` before rounding; `CalculateStatsCorrect`, `CalculateStatsOfBlock` and `StatsTestScenario` state what it returns |
| Stats.PowersAppend | src/analysis/stats.py:61-65 | a turbine's power column of a concatenation is the concatenation of its columns |
| Stats.PowersOfAbsentTurbine | src/analysis/stats.py:61-65 | a turbine none of whose readings are present has an empty power column |
| Stats.DistinctIdsOfBlock | src/analysis/stats.py:61 | readings of one turbine placed before readings of larger ids put that turbine first among the group keys, before the others' keys |
| Stats.CalculateStatsOfBlock | src/analysis/stats.py:51-85 | putting one turbine's readings before readings of larger ids adds exactly one output row, first: that turbine's min, max, mean and anomaly flag; the other rows are unchanged |
| Stats.SumAtLeast | src/analysis/stats.py:64 | a lower bound on every element, times the count, bounds the sum from below |
| Stats.SumAtMost | src/analysis/stats.py:64 | an upper bound on every element, times the count, bounds the sum from above |
| Stats.MeanWithin | src/analysis/stats.py:64 | bounds on every reading bound the mean |
| Stats.MeanBetweenMinAndMax | src/analysis/stats.py:62-64 | a turbine's average lies between its minimum and maximum |
| Stats.SumOfConstant | src/analysis/stats.py:64 | the sum of a constant column is the count times the constant |
| Stats.DeviationsOfConstant | src/analysis/stats.py:65 | a constant column has no deviation from its value |
| Stats.NoAnomalyWhenNoSpread | src/analysis/stats.py:65-73 | no reading is flagged when the standard deviation is undefined (one reading) or zero (all readings equal) |
| Stats.TwoReadingScenario | tests/test_stats.py:8-33 | turbine 1 of the statistics test: min 1.0, max 1.2, mean 1.1, no anomaly |
| Stats.ThreeReadingScenario | tests/test_stats.py:8-33 | turbine 2 of the statistics test: min 0.8, max 1.5, mean 3.7/3, no anomaly |
| Stats.OutlierScenario | tests/test_stats.py:8-53 | turbine 3 of the statistics test has mean 14.8206112/6 and an anomaly reading (15.13199601) |
| Stats.OutlierMin | tests/test_stats.py:29 | turbine 3 of the statistics test has min -1.22217336 |
| Stats.OutlierMax | tests/test_stats.py:30 | turbine 3 of the statistics test has max 15.13199601 |
| Stats.StatsTestScenario | tests/test_stats.py:8-53 | `calculate_stats` on the test's eleven readings, on any two days, is exactly three rows for turbines 1, 2, 3 with the expected min, max and mean before rounding, and only turbine 3 flagged |
| Persistence.Latest | src/database/persistence.py:56-62 | the highest-id query returns nothing exactly when no record passes the filter; otherwise a record that passes, with an id no lower than any other that passes |
| Persistence.LatestIgnoresOthers | src/database/persistence.py:56-58 | a record that fails the filter never changes the result, wherever it stands |
| Persistence.LatestOfAppended | src/database/persistence.py:56-58 | a passing record appended with an id above all others is the latest |
| Persistence.LatestLoadControlCorrect | src/database/persistence.py:50-70 | `fetch_latest_load_control` returns nothing exactly when no checkpoint has that file and version; otherwise the one with the highest id |
| Persistence.LatestStatisticsControlCorrect | src/database/persistence.py:89-104 | `fetch_latest_statistics_control` returns nothing exactly when no window has those versions; otherwise the one with the highest id |
| Persistence.LatestLoadControl | src/database/persistence.py:50-70 | the checkpoint `fetch_latest_load_control` returns; `LatestLoadControlCorrect` states which one |
| Persistence.LatestStatisticsControl | src/database/persistence.py:89-104 | the window `fetch_latest_statistics_control` returns; `LatestStatisticsControlCorrect` states which one |
| Persistence.OtherLoadControlIgnored | src/database/persistence.py:56-58 | checkpoints of another file or version never change a file's latest checkpoint |
| Persistence.OtherStatisticsControlIgnored | src/database/persistence.py:95-98 | windows of other versions never change the latest window |
| Persistence.ReadingsIn | src/database/persistence.py:121-144 | the window query never returns more rows than the table holds |
| Persistence.ReadingsInExact | src/database/persistence.py:121-144 | a reading is returned exactly when some stored row holds it, lies in the half-open window, and belongs to a load of the version |
| Persistence.VersionTimestamps | src/database/persistence.py:106-119 | the version's timestamps are no more than the table's rows |
| Persistence.VersionTimestampsExact | src/database/persistence.py:106-119 | a timestamp is among the version's exactly when a row of a load of that version has it |
| Persistence.Least | src/database/persistence.py:110 | `MIN` is an element no larger than any other |
| Persistence.Greatest | src/database/persistence.py:111 | `MAX` is an element no smaller than any other |
| Persistence.TimestampRange | src/database/persistence.py:106-119 | the `MIN`/`MAX` query; `TimestampRangeCorrect` states its meaning |
| Persistence.TimestampRangeCorrect | src/database/persistence.py:106-119 | the range is absent exactly when the version has no reading; otherwise both ends are timestamps of its readings and all of its readings lie between them |
| Persistence.ValuesTagged | src/database/persistence.py:84-87 | the values of the rows stored under one id, in table order; never more than the rows |
| Persistence.ValuesTaggedAppend | src/database/persistence.py:84-87 | selecting by id distributes over appending rows |
| Persistence.ValuesTaggedAbsent | src/database/persistence.py:84-87 | no row stored under the id: nothing is selected |
| Persistence.ValuesTaggedUniform | src/database/persistence.py:84-87 | every row stored under the id: exactly their values are selected, in order |
| Persistence.IssuedBelowAppend | src/database/persistence.py:82-84 | issuing the counter's id keeps ids ascending and below the next counter |
| Persistence.LoadControlAppended | src/database/persistence.py:82-84 | a checkpoint with the counter's id keeps the load tables consistent and has an id above every earlier one |
| Persistence.ReadingsAppended | src/database/persistence.py:84-87 | readings tagged with the id of the last checkpoint keep every reading pointing at an existing checkpoint |
| Persistence.StatisticsAppended | src/database/persistence.py:157-162 | a window with the counter's id, and rows tagged with it, keep the statistics tables consistent; its id is above every earlier one |
| Persistence.LoadedReadingsReadBack | src/database/persistence.py:76-87 | rows stored under a freshly issued load id, read back by that id, are exactly the cleaned rows, in order |
| Persistence.StoredStatisticsReadBack | src/database/persistence.py:150-162 | rows stored under a freshly issued window id, read back by that id, are exactly the summary rows, in order |
| Persistence.DatabaseManager.constructor | src/database/database_schema.py:63-69 | the store right after `setup_db` creates the tables on a new database: empty, valid, and issuing id 1 first |
| Persistence.DatabaseManager.InsertLoadControl | src/database/persistence.py:43-48 | appends one checkpoint with the next id, which becomes the latest for its file and version; nothing else changes |
| Persistence.DatabaseManager.FetchLatestLoadControl | src/database/persistence.py:50-70 | returns the latest checkpoint of `LatestLoadControlCorrect` and changes nothing |
| Persistence.DatabaseManager.LoadCleanedData | src/database/persistence.py:72-87 | appends one checkpoint with the next id, then the cleaned rows tagged with that id, so that reading back by the id gives exactly the cleaned rows; the statistics tables are unchanged and the new checkpoint is the latest |
| Persistence.DatabaseManager.FetchLatestStatisticsControl | src/database/persistence.py:89-104 | returns the latest window of `LatestStatisticsControlCorrect` and changes nothing |
| Persistence.DatabaseManager.FetchMinMaxCleanedReadingsTimestamp | src/database/persistence.py:106-119 | returns the range of `TimestampRangeCorrect` and changes nothing |
| Persistence.DatabaseManager.FetchCleanedReadings | src/database/persistence.py:121-144 | returns the readings of `ReadingsInExact` and changes nothing |
| Persistence.DatabaseManager.StoreStats | src/database/persistence.py:146-162 | appends one window with the next id, then the summary rows tagged with it, so that reading back by the id gives exactly the summary rows; the load tables are unchanged and the new window is the latest |
| Loader.ReadChunk | src/pipeline/etl.py:60-61 | the read returns at most `chunkSize` rows; it is empty exactly when the chunk size is zero or the start is past the last row; otherwise it holds the consecutive rows from the start row on |
| Loader.LastLoaded | src/pipeline/etl.py:56-58 | the resume point: the latest checkpoint's line, or 0 without one; `DoEtl` and `CompleteRunThenRerun` resume from it |
| Loader.Plan | src/pipeline/etl.py:53-72 | the passes of the loop up to the first empty read; `PlanChunks`, `PlanCoversRest`, `PlanCheckpoints` and `PlanEmptyIff` state what they read and record |
| Loader.DoEtl | src/pipeline/etl.py:52-74 | the store gains exactly the checkpoints and the cleaned, tagged readings of every pass from the latest checkpoint on; the statistics tables are unchanged; afterwards a read from the latest checkpoint is empty |
| Loader.PlanAdvance | src/pipeline/etl.py:53-72 | a non-empty read moves one pass from the remaining passes to the done ones |
| Loader.ControlsExtend | src/pipeline/etl.py:71-72 | one more pass appends exactly its checkpoint |
| Loader.ReadingsExtend | src/pipeline/etl.py:69-72 | one more pass appends exactly its cleaned chunk, tagged with its checkpoint's id |
| Loader.PlanEmptyIff | src/pipeline/etl.py:60-64 | the loader writes nothing exactly when the chunk size is zero or the checkpoint is at or past the last row |
| Loader.PlanChunks | src/pipeline/etl.py:54-71 | each pass reads between 1 and `chunkSize` consecutive rows right after the previous checkpoint; its own checkpoint is the last raw row it read, whatever cleaning dropped |
| Loader.PlanCoversRest | src/pipeline/etl.py:53-72 | the passes together read every row after the starting checkpoint exactly once, in order |
| Loader.PlanCheckpoints | src/pipeline/etl.py:71-72 | checkpoints strictly increase and the last one is the file's last row |
| Loader.ControlsForCheckpoints | src/pipeline/etl.py:53-72 | the checkpoints a run from `last` writes have consecutive ids from the first issued, the run's file and version, strictly increasing line numbers starting past `last`, and end at the file's last row |
| Loader.CompleteRunThenRerun | src/pipeline/etl.py:52-64 | a run from no checkpoint ends with the file's row count as checkpoint, and a rerun then writes nothing |
| StatsEngine.Midnight | src/analysis/stats.py:21 | the start of the day is a multiple of a day, at or before `t` and less than a day earlier |
| StatsEngine.NextFrom | src/analysis/stats.py:25-29 | where a window starts: the latest window's end, or midnight of the earliest reading; `RerunVisitsNothing` uses it |
| StatsEngine.Windows | src/analysis/stats.py:23-35 | the windows the loop visits; `WindowsShape`, `WindowsDisjoint`, `WindowsCover` and `WindowsEmptyIff` state their layout |
| StatsEngine.RunWindows | src/analysis/stats.py:12-35 | the windows one run visits over the store; `TriggerSummaryStatsCreation` writes exactly these and `FirstRunSummarisesEachReadingOnce` states their coverage |
| StatsEngine.WindowStats | src/analysis/stats.py:38-40 | one window's summary: `calculate_stats` of the window's readings; `ReadingsInExact` and `CalculateStatsCorrect` state its meaning |
| StatsEngine.StatsRowsFor | src/analysis/stats.py:38-44 | the statistics rows a run writes; `StatsRowsExtend` states one window's contribution |
| StatsEngine.TriggerSummaryStatsCreation | src/analysis/stats.py:8-48 | the store gains exactly one window control and its tagged `calculate_stats` rows per window of `RunWindows`; the loads are unchanged; when the version has readings, the latest window afterwards ends after the latest reading |
| StatsEngine.SummariseWindow | src/analysis/stats.py:37-44 | one window's readings are summarised and stored with a new window control, which becomes the latest |
| StatsEngine.TimestampRangeOrdered | src/analysis/stats.py:12-13 | the earliest timestamp is not after the latest |
| StatsEngine.WindowsEnd | src/analysis/stats.py:32-33 | a start after the latest reading ends the schedule |
| StatsEngine.WindowsAdvance | src/analysis/stats.py:27-35 | a start not after the latest reading moves one window of the given length from the remaining windows to the done ones |
| StatsEngine.StatsControlsExtend | src/analysis/stats.py:43-44 | one more window appends exactly its control |
| StatsEngine.StatsRowsExtend | src/analysis/stats.py:38-44 | one more window appends exactly its summary, tagged with its control's id |
| StatsEngine.WindowsEmptyIff | src/analysis/stats.py:32-33 | no window is visited exactly when the first start is after the latest reading |
| StatsEngine.WindowsShape | src/analysis/stats.py:23-35 | windows start at the resume point, are each `length` long, are contiguous, all start no later than the latest reading, and the last ends after it |
| StatsEngine.WindowsStartAtLeast | src/analysis/stats.py:23-35 | no window starts before the resume point |
| StatsEngine.WindowsDisjoint | src/analysis/stats.py:23-35 | windows never overlap |
| StatsEngine.WindowsCover | src/analysis/stats.py:23-35 | every second from the resume point through the latest reading lies in some window |
| StatsEngine.StatsControlsForWindows | src/analysis/stats.py:23-44 | a run writes a window control exactly when its resume point is not after the latest reading; the controls have consecutive ids and the run's versions, each is one `length` long and starts no later than the latest reading, each starts where the previous ends, the first at the resume point and the last ending after the latest reading |
| StatsEngine.FirstRunSummarisesEachReadingOnce | src/analysis/stats.py:12-38 | on a first run, every reading of the version falls in exactly one visited window |
| StatsEngine.RerunVisitsNothing | src/analysis/stats.py:25-33 | once the latest window ends after the latest reading, a rerun visits no window |

## Left out

The following parts of the source are not modelled:

- File and database I/O (`read_csv`, `to_sql`, sessions, commits, rollback) is not modelled. The input is a `seq<RawRow>` and the store is the in-memory `DatabaseManager`.
- `print`, `files_in_input_directory`, `trigger_etl` and the singleton decorator are not modelled. They are I/O or process wiring.
- Text parsing: what `pd.to_datetime` and `pd.to_numeric` accept is a parameter (`Coercions`), not a model of pandas.
- Coercions are modelled cell by cell: `Coercions.toDatetime` maps one text to one instant. `pd.to_datetime` on a column infers a single format from the first value it can parse, so in the source one cell's result can depend on other rows of the chunk. That dependency is not modelled.
- Timestamps are modelled as whole seconds (`int`). The source keeps `datetime64[ns]` values, and timestamp text can carry fractions of a second. Sub-second parts are lost here: two readings less than a second apart can share a timestamp, and window bounds are whole seconds.
- Extra CSV columns are not modelled. The model's raw row has exactly the five columns the cleaner uses.
- Floating point is modelled as exact `real`. The final `round(2)` of `calculate_stats` (src/analysis/stats.py:83) is not applied. The anomaly test compares the squared deviation with four times the variance, so no square root is needed. That is the same test as `abs(z) > 2` on exact numbers.
- `Stats.CalculateStats`: a zero standard deviation gives a NaN z-score in the source (comparison false). The model gets the same outcome from the squared form.
- `Cleaning.Truncate`: the integer casts are modelled as truncation toward zero on unbounded integers, for finite values only. NaN and infinities are not modelled, nor the 64-bit range of `astype(int)` and `astype('int64')`, which wrap or raise outside it.
- `Cleaning.SortByTurbine`: `sort_values` is modelled as a stable sort. The source uses the default, unstable quicksort. Its own tests expect same-turbine rows in batch order, so the model states stability.
- `Cleaning.BackFill`: the comment on src/pipeline/etl.py:20-25 says a gap is filled from the same turbine. The code fills from the next row of the whole sorted batch, whatever its turbine. The model follows the code: `BackFillTakesNearestLater` states the ungrouped behaviour.
- Some stored columns are not modelled, because the core never reads them back:
  - `is_imputed` and `cleaned_reading.id`;
  - `load_timestamp` (a clock value);
  - `std_deviation` of the statistics table;
  - `last_processed_load_control_id`.
- `Loader.DoEtl`: the chunk size is a parameter. The source's default of 5 rows (src/pipeline/etl.py:52), which `trigger_etl` relies on, is one value of it.
- `Persistence.DatabaseManager.constructor`: `DatabaseManager.__init__` (src/database/persistence.py:27-29) only connects to an existing database. The model's empty store is that database right after `setup_db` has created its tables.
- `Persistence.DatabaseManager.InsertLoadControl`: the record's id is always the next auto-increment id. A caller-supplied explicit id (src/database/persistence.py:165-172) is not modelled.
- Table and column declarations come from the ORM file src/database/database_schema.py; only the columns the core reads are modelled. That file declares no `stats_version` column on `statistics_control`. The model gives windows a statistics version, as the statistics code reads and writes it.
- `Persistence.ReadingsIn`: SQL gives no row order. The model returns rows in table (insertion) order. `calculate_stats` does not depend on that order for its min, max and mean.
- The two writes of `load_cleaned_data` and `store_stats` are separate commits in the source. The model performs them as one method with no failure in between. Concurrency and partial failure are not modelled.
- `StatsEngine.TriggerSummaryStatsCreation`: two simplifications.
  - The window length is `durationInDays` whole days with `durationInDays > 0`. The configuration value is a float, read at src/config.py:45; fractional days are not modelled. A value of zero or less makes the source loop forever, so that case is excluded by the precondition.
  - The source applies `map_to_timestamp` (src/database/persistence.py:205-206) to the `MIN`/`MAX` result. On an empty version that result is NULL and the call raises. The model follows the evident intent of the guard at src/analysis/stats.py:17-19: it returns without writing.
- Configuration strings (pipeline version, statistics version) are modelled as integers, the type the record classes declare in src/model/model.py.
- `StatsEngine.SummariseWindow` is a helper that holds one pass of the statistics loop body (src/analysis/stats.py:37-44). It is not a separate function in the source.
