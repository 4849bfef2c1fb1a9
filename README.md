# Urban mobility pipeline: record-level model

A Dafny model of the record-level logic in the four batch stages of the
urban-mobility demand pipeline:

- **Ingestion** (`Ingest`, imperative). A `Database` object holds the store's
  tables by name. `IngestData` walks the chunks of the raw trip file and
  projects each chunk onto the eight expected columns, in the listed order.
  The first chunk that is ingested successfully replaces the destination
  table; every later one is appended to it. A chunk that lacks an expected
  column raises a key error: the model logs it and skips the chunk, and
  processing continues. The counter of ingested chunks advances only on
  success. The method is proved against specification functions of the chunk
  sequence (`ValidCount`, `ValidRows`, `IngestLog`, `AfterIngest`).
- **Cleaning** (`Clean`, pure). The cleaner applies four row filters, in the
  source's order:
  - no missing field;
  - `passenger_count > 0`;
  - all four coordinates inside the New York bounding box, both ends
    included;
  - `60 < trip_duration < 5400`, strictly.

  It then derives `trip_duration_minutes`, rounded to two decimals. The model
  keeps that value exactly, as an integer count of hundredths of a minute.
  `Seqs.Filter` models a boolean-mask row selection.
- **Hourly aggregation** (`Hourly`, pure). Pickup times, in integer seconds,
  are floored to the hour and counted per hour. The counts are laid on the
  complete hourly grid from the first to the last pickup hour, and an hour
  without pickups appears with count 0.
- **Evaluation** (`Forecast`, pure). This module covers the chronological
  90/10 split of the hourly series, the selection of the predictions that
  match the held-out hours, and the zero-safe MAPE.
- `Pipeline` links cleaning to aggregation: every cleaned trip is counted in
  exactly one hour.

Three details of the code decide the model:
- The chunk that replaces the table is the first one *ingested
  successfully*, not necessarily the first chunk of the file: the counter
  tested at src/data_ingest.py:39 only advances on success.
- Coordinates on the edges of the bounding box pass the filter, because
  `between` includes both ends.
- MAPE takes the absolute value of the whole ratio,
  `|(actual - predicted) / actual|`.

A single `pd.read_csv(..., chunksize=...)` reader (src/data_ingest.py:31)
gives every chunk the file's one header, so in the program either every chunk
lacks a column or none does. The model gives each chunk its own header. That
is a generalisation: every property below still holds when all headers are
equal. Under one reader, a run of "leading malformed chunks, then a valid
one" (`Ingest.FirstValidChunkReplaces`) cannot happen. A header that lacks a
column gives one "chunk 1" message per chunk.

The skip message's chunk number is the number of chunks ingested so far plus
one, not the chunk's position in the file. So two malformed chunks in a row
are both reported as "chunk 1" (`Ingest.RepeatedSkipNumber`). The model
keeps this as written.

## Model

| member | source | states |
|---|---|---|
| `Ingest.IndexOf` | src/data_ingest.py:34 | finds the first position of a column name in a chunk header; absent exactly when the header lacks the name |
| `Ingest.MissingColumnsSpec` | src/data_ingest.py:21-25 | the list of expected columns a header lacks is empty exactly when every expected column is present, i.e. exactly when selecting them raises no key error |
| `Ingest.Select` | src/data_ingest.py:34 | selecting a list of column names from a row yields one cell per name, in the order of the names, each the value under that name |
| `Ingest.ProjectRow` | src/data_ingest.py:34-37 | a projected row has exactly eight cells; cell j is the value under the j-th expected column name, passed through the timestamp parser for the two datetime columns |
| `Ingest.IngestLog` | src/data_ingest.py:44-47 | a run logs exactly one message per chunk |
| `Ingest.AfterIngest` | src/data_ingest.py:39-42 | ingestion never touches a table other than the destination |
| `Ingest.Database.IngestData` | src/data_ingest.py:28-48 | the loop over chunks leaves the store as `AfterIngest` says and returns the messages `IngestLog` says; the counter equals the number of chunks ingested so far (loop invariant) |
| `Ingest.StoreStep` | src/data_ingest.py:32-46 | one more chunk leaves the store as it was when malformed, replaces the destination table while nothing has been ingested, and otherwise appends the chunk's projected rows to it |
| `Ingest.IngestStep` | src/data_ingest.py:32-47 | one more chunk adds one to the count and its projected rows to the table exactly when it has every expected column; otherwise it only adds a column-error message numbered count + 1 |
| `Ingest.StoredRowsHaveExpectedWidth` | src/data_ingest.py:21-34 | every stored row has one cell per expected column; extra source columns never reach the store |
| `Ingest.IngestConcat` | src/data_ingest.py:31-45 | the rows stored for a concatenation of chunk runs are the runs' rows concatenated in order, and the counts add up |
| `Ingest.MalformedChunkIsSkipped` | src/data_ingest.py:32-48 | a chunk missing a column contributes no rows and no count wherever it occurs, and later chunks are still processed |
| `Ingest.AllMalformed` | src/data_ingest.py:46-48 | a run of malformed chunks stores nothing and counts nothing |
| `Ingest.NoValidChunkLeavesStoreUnchanged` | src/data_ingest.py:39-42 | with no well-formed chunk the store, including any existing destination table, is left exactly as it was |
| `Ingest.FirstValidChunkReplaces` | src/data_ingest.py:39-44 | after leading malformed chunks, the first well-formed chunk still replaces the table: the table is that chunk's rows followed by the later valid chunks' rows, and nothing of its earlier contents remains |
| `Ingest.IngestTwiceIsIngestOnce` | src/data_ingest.py:39-42 | ingesting the same source twice leaves the store as ingesting it once does |
| `Ingest.LogEntryAt` | src/data_ingest.py:44-47 | the k-th message reports the updated counter for an ingested chunk, and the counter plus one with the missing columns for a skipped chunk |
| `Ingest.RepeatedSkipNumber` | src/data_ingest.py:47 | two malformed chunks in a row are both reported as chunk 1 |
| `Ingest.ExtraColumnIsDropped` | src/data_ingest.py:34 | adding a column outside the expected eight to a chunk leaves its projected rows unchanged |
| `Ingest.ProjectRowExtended` | src/data_ingest.py:34 | for a single row: a trailing extra column changes nothing the projection reads |
| `Seqs.Filter` | src/data_clean.py:24 | a mask selection keeps only rows that satisfy the predicate and never adds rows |
| `Seqs.FilterMembership` | src/data_clean.py:24 | a row survives a mask selection exactly when it is an input row satisfying the predicate |
| `Seqs.FilterIsSubsequence` | src/data_clean.py:24 | a mask selection keeps the relative order of the surviving rows |
| `Seqs.FilterFuse` | src/data_clean.py:23-43 | two successive selections equal one selection on the conjunction of their predicates |
| `Seqs.FilterCommute` | src/data_clean.py:23-43 | two successive selections can be swapped |
| `Seqs.FilterKeepsAll` | src/data_clean.py:23-43 | a selection keeps every row exactly when every row satisfies the predicate |
| `Seqs.FilterIdempotent` | src/data_clean.py:23-43 | a selection applied to its own output removes nothing |
| `Seqs.FilterConcat` | src/forecast_model.py:16 | a mask selection distributes over concatenation |
| `Clean.BoundaryValues` | src/data_clean.py:27-43 | latitudes 40.5 and 41.0 and longitudes -74.3 and -73.7 pass, 40.49999 and missing values fail; durations 60 and 5400 fail, 61 and 5399 pass |
| `Clean.DurationHundredths` | src/data_clean.py:46 | minutes in hundredths are within less than half a hundredth of seconds / 60, so they are the nearest value and no tie arises |
| `Clean.DurationHundredthsIsNearest` | src/data_clean.py:46 | every other count of hundredths is at least half a hundredth away |
| `Clean.DurationHundredthsExamples` | src/data_clean.py:46 | 61 s gives 1.02 minutes, 5399 s gives 89.98 minutes, 90 s gives 1.50 minutes |
| `Clean.CleanData` | src/data_clean.py:23-46 | no more rows than the input; every output row has no missing field, passengers > 0, all coordinates in the box, duration strictly in (60, 5400), and minutes rounded from its duration |
| `Clean.CleanedSurvivors` | src/data_clean.py:23-43 | the four filters in the source's order keep exactly the rows that one filter on the conjunction keeps |
| `Clean.CleanDataKeepsValidTrips` | src/data_clean.py:23-46 | the trips in the cleaned output are exactly the valid input trips, in input order |
| `Clean.SurvivesIffValid` | src/data_clean.py:23-43 | a trip is in the output exactly when it is an input trip satisfying every predicate |
| `Clean.CleanDataPreservesOrder` | src/data_clean.py:23-43 | the output is an order-preserving subsequence of the input |
| `Clean.FilterOrderIrrelevant` | src/data_clean.py:23-43 | applying the four filters in reverse order gives the same survivors |
| `Clean.CleanDataIdempotent` | src/data_clean.py:23-46 | cleaning the cleaned trips removes nothing and yields the same rows and minutes |
| `Hourly.FloorHour` | src/feature_engineering.py:18 | the floored time is hour-aligned and starts the hour that contains the pickup |
| `Hourly.HourCount` | src/feature_engineering.py:18 | the count of an hour never exceeds the number of pickups, and it is zero exactly when no pickup falls in that hour |
| `Hourly.Series` | src/feature_engineering.py:18 | n consecutive hours from a start, one hour apart, each with the number of pickups in it; all aligned when the start is |
| `Hourly.HourlyDemand` | src/feature_engineering.py:18-19 | empty exactly for no pickups; otherwise it runs from the first pickup's hour to the last pickup's hour with (last - first) / 3600 + 1 rows; every `ds` is hour-aligned and one hour after the previous; every `y` is the number of pickups in its hour |
| `Hourly.PickupHoursInRange` | src/feature_engineering.py:18 | every pickup's hour lies between the first and the last row's hour |
| `Hourly.TotalDemandIsPickupCount` | src/feature_engineering.py:18 | the `y` column sums to the number of pickups |
| `Hourly.EveryHourHasRow` | src/feature_engineering.py:18 | every hour-aligned time between the first and the last pickup hour has a row, empty hours included |
| `Hourly.EveryPickupIsInSomeRow` | src/feature_engineering.py:18 | each pickup's hour has a row with a positive count |
| `Hourly.EmptyHourIsZero` | src/feature_engineering.py:18 | an hour without pickups appears with `y = 0` |
| `Hourly.HoursIncrease` | src/feature_engineering.py:18 | hour starts strictly increase along the series |
| `Forecast.SplitPoint` | src/forecast_model.py:31 | the split point is floor(0.9 n): at most n, and strictly below n when n >= 1 |
| `Forecast.TrainTestSplit` | src/forecast_model.py:31-33 | train followed by test is the whole series, train has the split-point length, and test is non-empty for a non-empty series |
| `Forecast.HourlySplitIsChronological` | src/forecast_model.py:31-33 | for an hourly series every training hour precedes every held-out hour |
| `Forecast.LastItems` | src/forecast_model.py:42 | `xs[-k:]` is the last k items for 0 < k <= len, and all of `xs` for k = 0 and for k >= len |
| `Forecast.EvaluationPairs` | src/forecast_model.py:41-42 | actuals and predictions have equal length, the held-out length, and pair each held-out hour's count with the prediction for that same hour |
| `Forecast.Abs` | src/forecast_model.py:19 | the absolute value is non-negative and equals x or -x |
| `Forecast.Zip` | src/forecast_model.py:15 | the i-th pair holds the i-th actual and the i-th prediction |
| `Forecast.AbsPctErrorSum` | src/forecast_model.py:19 | the sum of absolute percentage errors over masked pairs is non-negative |
| `Forecast.Masked` | src/forecast_model.py:16-17 | the masked pairs are empty exactly when every actual is zero |
| `Forecast.Mape` | src/forecast_model.py:13-19 | MAPE is non-negative, and exactly 0 when every actual is zero, whatever the predictions |
| `Forecast.ZipConcat` | src/forecast_model.py:15 | pairing distributes over concatenation |
| `Forecast.ZeroActualIsIgnored` | src/forecast_model.py:16-19 | inserting a pair whose actual is 0 anywhere, with any prediction, leaves MAPE unchanged |
| `Forecast.PerfectForecastScoresZero` | src/forecast_model.py:19 | predictions equal to the actuals give MAPE 0 |
| `Forecast.NoZeroActualIsPlainMean` | src/forecast_model.py:19 | with no zero actual, MAPE is 100 times the plain mean of the absolute percentage errors over all pairs |
| `Pipeline.HourlyDemandCountsEveryCleanedTrip` | src/feature_engineering.py:14-18 | the hourly series built from the cleaned trips' pickup times sums to the number of cleaned trips |

## Left out

- File, SQLite and CSV input and output, directory creation, the existence checks of the entry points, and logging output. Tables and files are in-memory values. The loader's log messages are returned as values.
- Reading the source file in chunks of 100,000 rows. The chunk sequence is an input.
- Timestamp parsing (`pd.to_datetime`). It is a total function parameter of `IngestData`. A parse failure would abort the run in the source; it is not a key error and is not modelled.
- Reading the stored table back into typed trips, and typing CSV values. The cleaner takes `Clean.Trip` records with optional fields; the aggregator takes pickup times in integer seconds.
- Floating point. Coordinates and MAPE use `real`. The minutes are exact hundredths. `int(n * 0.9)` is taken as exact `n * 9 / 10`. The IEEE-754 representation of -74.3, -73.7 and 0.9, and Python's float `round`, are not modelled.
- Prophet fitting, `make_future_dataframe`, `predict`, and saving the model with `joblib` (src/forecast_model.py:35-39, 61-70). These are foreign calls. The forecast enters `EvaluationPairs` as its `yhat` values, assumed to cover the training history plus the held-out horizon.
- MAE, RMSE and R² (src/forecast_model.py:45-52). These are foreign floating-point library calls.
- `Forecast.Mape` requires equal-length inputs; numpy's broadcasting of a length-1 array is not modelled. The only caller always passes equal lengths.
- `Ingest.ExtraColumnIsDropped` assumes rectangular chunks, with every row as long as the header. A chunk from the CSV reader has that shape.
- The dashboard (app/streamlit_app.py) is not part of this model.
