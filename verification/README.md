# Drilling telemetry cleaning and streaming, in Dafny

This project models the two pieces of original logic in the real-time
drilling service:

- **`clean_time_log`**: the time-log cleaning pipeline. It takes a table of
  rig sensor readings and a frozen `TimeCleanConfig`, then runs these steps
  in a fixed order:
  1. rename columns;
  2. require the timestamp column;
  3. resolve every timestamp cell to a datetime;
  4. coerce the declared numeric columns to floats;
  5. clip to plausible ranges;
  6. force the rate of penetration (`rop`) to be non-negative;
  7. fill missing values;
  8. de-duplicate and sort by timestamp.
- **`run_stream`**: the stride-1 sliding window. It pushes each incoming row
  into a bounded buffer. Once the buffer is full, every row yields one
  prediction, made from a per-column snapshot of the buffer.

Layout, one module per concern:

| file | module | contents |
|---|---|---|
| `telemetry.dfy` | `Telemetry` | cells, rows, tables, `Option`/`Result`, column predicates |
| `config.dfy` | `Config` | `TimeCleanConfig` and its defaults, the cleaning errors, the library parsers |
| `timestamps.dfy` | `Timestamps` | ISO/epoch timestamp resolution (`_ensure_timestamp`) |
| `columns.dfy` | `Columns` | renaming, numeric coercion, clipping, the `rop` rule |
| `sorting.dfy` | `Sorting` | insertion sort and counting, used by the median |
| `fill.dfy` | `Fill` | forward/backward fill, median fill, fill dispatch (`_fill_missing`) |
| `dedup.dfy` | `Dedup` | keep-last de-duplication and sorting by timestamp |
| `cleaning.dfy` | `Cleaning` | `clean_time_log` and its end-to-end properties |
| `stream.dfy` | `Stream` | `run_stream` |

Representation:

- **Tables.** A table is a set of column names plus a sequence of rows. A
  row is a map from column name to cell. `WellFormed` says every row has
  exactly the table's columns.
- **Cells.** A cell is null, an integer, a float (as `real`), text, or a
  datetime in microseconds since the epoch.
- **Failures.** Every `ValueError` the code raises is a `Failure` of a
  `Result`. So are two refusals of the dataframe library: its
  duplicate-column error, and `fill_null` given no value.
- **Library and collaborators.** These become parameters:
  - the dataframe library's text parsers (ISO-8601 to datetime, text to
    64-bit integer, text to float), in a `Parsers` value;
  - the feature maker and the model runner of the stream;
  - the stream's asynchronous source, which becomes a finite sequence.

Behaviours of the code worth knowing:

- The default fill method is `"ffill_bfill"` (cleaning.py:45).
- An unknown fill method is only noticed at the fill step (cleaning.py:107).
  So a missing or unparsable timestamp is reported first. A frame with no
  declared numeric column even cleans successfully under an unknown method
  (`Cleaning.UnknownFillMethodCheckedLate`).
- Under the median method, a declared numeric column that is present but
  has no value (all null, or no rows at all) has no median. The code then
  calls `fill_null(None)`, which the dataframe library refuses with a
  `ValueError`; the model reports `NoFillValue` (`Fill.MedianFill`).

## Model

| member | source | states |
|---|---|---|
| `Config.DefaultConfig` | src/dl_real_time_drilling/dataprep/cleaning.py:27-45 | a bare configuration reads the "timestamp" column, declares the ten rig channels numeric, renames and clips nothing, zeroes negative `rop`, de-duplicates, sorts and fills forward then backward |
| `Timestamps.EpochSeconds` | src/dl_real_time_drilling/dataprep/cleaning.py:59 | a nonzero value over 10^10 in magnitude is floor-divided to whole seconds (s*1000 <= v < s*1000+1000); any other value is kept as seconds |
| `Timestamps.CastInt64` | src/dl_real_time_drilling/dataprep/cleaning.py:58 | the lenient 64-bit cast: null fails; text goes through the library parser; a float truncates toward zero and fails outside the 64-bit range |
| `Timestamps.ResolveTimestamp` | src/dl_real_time_drilling/dataprep/cleaning.py:53-61 | a null never resolves; ISO text wins when it parses; otherwise the cell resolves iff the integer cast succeeds, to whole seconds that follow the epoch heuristic |
| `Timestamps.EnsureTimestamp` | src/dl_real_time_drilling/dataprep/cleaning.py:48-66 | fails on a missing column; otherwise succeeds iff every cell resolves; on success the column holds the resolved datetimes and nothing else changes |
| `Timestamps.NullTimestampFails` | src/dl_real_time_drilling/dataprep/cleaning.py:64-65 | one null timestamp makes the whole call fail with the parse error |
| `Timestamps.SecondsAndMillisAgree` | src/dl_real_time_drilling/dataprep/cleaning.py:59 | an instant written in seconds and in milliseconds is read the same, for second counts in (10^7, 10^10] in magnitude |
| `Timestamps.EarlyMillisReadAsSeconds` | src/dl_real_time_drilling/dataprep/cleaning.py:59 | at or below the threshold a millisecond count is taken as seconds; above it, negative values are floored |
| `Timestamps.MixedFormatsResolve` | src/dl_real_time_drilling/dataprep/cleaning.py:51-62 | in a text column, an ISO string, a digit string of epoch milliseconds and one of epoch seconds resolve to three consecutive seconds |
| `Columns.RenameRow` | src/dl_real_time_drilling/dataprep/cleaning.py:77 | a renamed row has the renamed keys, and each value moves to its column's new name |
| `Columns.Rename` | src/dl_real_time_drilling/dataprep/cleaning.py:69-77 | an empty map returns the frame; the rename fails iff two columns would share a name; otherwise each column's values move to its new name and absent sources are ignored |
| `Columns.RenameAbsentSourcesIsIdentity` | src/dl_real_time_drilling/dataprep/cleaning.py:72-77 | a map whose sources are all absent changes nothing |
| `Columns.InverseDoesNotCollide` | src/dl_real_time_drilling/dataprep/cleaning.py:77 | an inverse map of a successful rename can itself be applied without a collision |
| `Columns.RenameRowRoundTrip` | src/dl_real_time_drilling/dataprep/cleaning.py:77 | renaming a row and then applying an inverse map gives the row back |
| `Columns.RenameRoundTrip` | src/dl_real_time_drilling/dataprep/cleaning.py:69-77 | renaming and then renaming back with an inverse map restores the frame |
| `Columns.CastFloat64` | src/dl_real_time_drilling/dataprep/cleaning.py:82 | the lenient float cast gives a float or null; null stays null; text that does not parse becomes null |
| `Columns.Coerce` | src/dl_real_time_drilling/dataprep/cleaning.py:80-83 | only declared numeric columns that are present are cast, leaving floats and nulls; every other cell is unchanged; a present column declared twice fails |
| `Columns.CoerceIdempotent` | src/dl_real_time_drilling/dataprep/cleaning.py:80-83 | coercing a coerced frame changes nothing |
| `Columns.ClipValue` | src/dl_real_time_drilling/dataprep/cleaning.py:90 | with lo <= hi the value ends in [lo, hi] and is unchanged when already inside; when lo > hi everything ends at hi |
| `Columns.ClipCell` | src/dl_real_time_drilling/dataprep/cleaning.py:90 | a float is clipped as `ClipValue` says and stays a float; an integer is clipped to the bounds truncated toward zero and stays an integer; nulls and other cells are kept |
| `Columns.ClipInt` | src/dl_real_time_drilling/dataprep/cleaning.py:90 | the float bounds are first truncated toward zero; an integer already between them is unchanged, one below the lower bound becomes it (or the upper bound when that is smaller), one above the upper bound becomes it, and crossed bounds send everything outside to the upper bound; with ordered bounds the result lies between them |
| `Columns.Clip` | src/dl_real_time_drilling/dataprep/cleaning.py:86-91 | configured columns that are present are clipped, absent ones skipped, other columns unchanged; with lo <= hi every float of the column lies in [lo, hi] |
| `Columns.ClipIdempotent` | src/dl_real_time_drilling/dataprep/cleaning.py:86-91 | clipping twice is clipping once, whatever the bounds |
| `Columns.ZeroNegative` | src/dl_real_time_drilling/dataprep/cleaning.py:156 | a negative float or integer becomes 0.0; a non-negative integer becomes the equal float; non-negative floats, nulls and other cells are unchanged; every number comes out a float >= 0 |
| `Columns.EnforceNonNegativeRop` | src/dl_real_time_drilling/dataprep/cleaning.py:155-156 | each `rop` cell becomes `ZeroNegative` of itself, so every number of `rop` is a float >= 0 and no integer is left; all other columns are unchanged |
| `Columns.RopRuleAfterClipWithin` | src/dl_real_time_drilling/dataprep/cleaning.py:150-156 | clipping to [lo, hi] with hi >= 0 and then the rule leaves a number in [lo, hi]; for an integer cell, when lo <= 0 |
| `Sorting.Sort` | src/dl_real_time_drilling/dataprep/cleaning.py:99 | the median's sort: an ascending permutation of the values |
| `Sorting.CountSort` | src/dl_real_time_drilling/dataprep/cleaning.py:99 | sorting keeps how many values satisfy any predicate |
| `Sorting.SortedUnique` | src/dl_real_time_drilling/dataprep/cleaning.py:99 | two ascending sequences with the same elements are equal, so the median does not depend on how the values were sorted |
| `Fill.ForwardFillIsLastKnown` | src/dl_real_time_drilling/dataprep/cleaning.py:104 | forward fill puts the nearest earlier-or-same known value in each cell, or null when there is none |
| `Fill.BackwardFillIsNextKnown` | src/dl_real_time_drilling/dataprep/cleaning.py:105 | backward fill puts the nearest later-or-same known value in each cell, or null when there is none |
| `Fill.FfillBfill` | src/dl_real_time_drilling/dataprep/cleaning.py:102-106 | forward-then-backward fill gives each cell the nearest known value before it, or failing that the nearest after it |
| `Fill.FfillBfillProperties` | src/dl_real_time_drilling/dataprep/cleaning.py:102-106 | known cells are kept; a column with any known cell has no null left; an all-null column stays all null; every cell is a copy of a cell of the column |
| `Fill.Median` | src/dl_real_time_drilling/dataprep/cleaning.py:99 | no values give no median; otherwise at least half of the values are <= it, at least half are >= it, and it lies between two values |
| `Fill.MedianIsMiddle` | src/dl_real_time_drilling/dataprep/cleaning.py:99 | the median is the middle element of any ascending arrangement of the values, or the mean of the two middle elements when their number is even |
| `Fill.Medians` | src/dl_real_time_drilling/dataprep/cleaning.py:99 | for columns that all have a value, gives each exactly its median |
| `Fill.FillWithMedian` | src/dl_real_time_drilling/dataprep/cleaning.py:100-101 | each named column has its nulls replaced by its own replacement value; every other column is unchanged |
| `Fill.FillMedianColumn` | src/dl_real_time_drilling/dataprep/cleaning.py:98-101 | a column without a float has no median and its fill is refused; otherwise non-null cells are kept and each null becomes the median of the column's floats |
| `Fill.MedianFill` | src/dl_real_time_drilling/dataprep/cleaning.py:98-101 | fails with `NoFillValue` iff some column to fill has no value; otherwise exactly those columns change, each to its median fill |
| `Fill.FillForwardBackward` | src/dl_real_time_drilling/dataprep/cleaning.py:102-106 | each listed column becomes the forward-then-backward fill of itself; every other column is unchanged |
| `Fill.FillMissing` | src/dl_real_time_drilling/dataprep/cleaning.py:94-107 | "none", or no declared numeric column present, returns the frame even for an unknown method; otherwise it fails iff the method is unknown, a present column is declared twice, or the median method meets a present column without values, with the errors in that order; known methods rewrite exactly the present declared columns |
| `Fill.FfillBfillWithin` | src/dl_real_time_drilling/dataprep/cleaning.py:102-106 | forward/backward filling keeps any bound that all the column's floats met |
| `Fill.MedianFillWithin` | src/dl_real_time_drilling/dataprep/cleaning.py:98-101 | median filling keeps any bound that all the column's floats met |
| `Fill.FillKeepsBounds` | src/dl_real_time_drilling/dataprep/cleaning.py:94-107 | filling never moves a column's floats outside a bound they all met |
| `Fill.FfillBfillGapless` | src/dl_real_time_drilling/dataprep/cleaning.py:102-106 | after forward/backward fill a column is all null or has no null |
| `Fill.MedianFillLeavesNoNull` | src/dl_real_time_drilling/dataprep/cleaning.py:98-101 | a median fill that succeeds leaves no null |
| `Fill.FillLeavesNoGaps` | src/dl_real_time_drilling/dataprep/cleaning.py:94-106 | with a known method every present declared numeric column ends all null or gap-free, and a successful median fill leaves no null |
| `Fill.FillKeepsNumOrNull` | src/dl_real_time_drilling/dataprep/cleaning.py:94-107 | filling keeps a column of floats and nulls made of floats and nulls |
| `Fill.FillKeepsNoInts` | src/dl_real_time_drilling/dataprep/cleaning.py:94-107 | filling never brings an integer into a column that had none |
| `Dedup.SurvivorsFrom` | src/dl_real_time_drilling/dataprep/cleaning.py:113 | lists, in increasing order, exactly the positions whose row is the last of its timestamp |
| `Dedup.KeepLast` | src/dl_real_time_drilling/dataprep/cleaning.py:113 | the result has distinct timestamps and holds exactly the rows that are last of their timestamp |
| `Dedup.KeepLastSurvivor` | src/dl_real_time_drilling/dataprep/cleaning.py:113 | each input timestamp keeps exactly one row, its last one in input order |
| `Dedup.SortByTime` | src/dl_real_time_drilling/dataprep/cleaning.py:115 | an ascending rearrangement of the rows by timestamp |
| `Dedup.SortKeepsDistinct` | src/dl_real_time_drilling/dataprep/cleaning.py:113-115 | sorting a de-duplicated frame keeps its timestamps distinct |
| `Dedup.DropDupesAndSort` | src/dl_real_time_drilling/dataprep/cleaning.py:110-116 | output rows are input rows; without dedup the rows are a permutation of the input; with dedup, timestamps are distinct and exactly the last rows survive; with sort, timestamps ascend |
| `Dedup.LastDuplicateWinsThenSorted` | src/dl_real_time_drilling/dataprep/cleaning.py:110-116 | three rows at seconds 1, 0, 1 clean to the row at 0 followed by the third row |
| `Cleaning.RenamedTimestampsResolve` | src/dl_real_time_drilling/dataprep/cleaning.py:138-145 | resolving the renamed timestamp column is resolving the input cells renamed into it |
| `Cleaning.Guard` | src/dl_real_time_drilling/dataprep/cleaning.py:138-156 | steps 1 to 6 keep the row count and end with the renamed column set |
| `Cleaning.Prepare` | src/dl_real_time_drilling/dataprep/cleaning.py:138-159 | steps 1 to 7 keep the row count and end with the renamed column set |
| `Cleaning.PrepareFailures` | src/dl_real_time_drilling/dataprep/cleaning.py:138-159 | the first failing step decides the error: collision, missing timestamp column, unparsable timestamp, repeated numeric column, then, with something to fill, an unknown fill method or a median fill of a column without values |
| `Cleaning.CleanTimeLog` | src/dl_real_time_drilling/dataprep/cleaning.py:119-165 | fails exactly when preparation fails, with its error; on success the columns are the renamed ones and every row is a prepared row |
| `Cleaning.GuardKeepsNumericCoerced` | src/dl_real_time_drilling/dataprep/cleaning.py:148-156 | after clipping and the `rop` rule the declared numeric columns still hold only floats and nulls |
| `Cleaning.GuardTimestampsAreInstants` | src/dl_real_time_drilling/dataprep/cleaning.py:145-156 | the timestamp column holds datetimes after the guard unless it is also declared numeric |
| `Cleaning.GuardRopNonNegative` | src/dl_real_time_drilling/dataprep/cleaning.py:154-156 | with the rule on, no `rop` float is negative and no `rop` integer is left after the guard |
| `Cleaning.GuardWithinRanges` | src/dl_real_time_drilling/dataprep/cleaning.py:150-156 | a range with lo <= hi bounds the floats of its column after the guard (for `rop` under the rule, when hi >= 0, and lo <= 0 unless `rop` is declared numeric) |
| `Cleaning.CleanedLogIsOrdered` | src/dl_real_time_drilling/dataprep/cleaning.py:159-162 | without dedup the rows are a rearrangement of the prepared rows, so the row count is kept; with dedup, timestamps are distinct and exactly the last rows survive; with sort, timestamps ascend |
| `Cleaning.CleanedTimestampsAreInstants` | src/dl_real_time_drilling/dataprep/cleaning.py:145-162 | every row of a cleaned log has a datetime timestamp unless the column is also declared numeric |
| `Cleaning.CleanedRopNonNegative` | src/dl_real_time_drilling/dataprep/cleaning.py:154-162 | with the rule on, every number of `rop` in a cleaned log is a float >= 0 |
| `Cleaning.CleanedWithinRanges` | src/dl_real_time_drilling/dataprep/cleaning.py:150-162 | a configured range with lo <= hi bounds the floats of its column in the cleaned log, under the same condition for `rop`; filling and de-duplication only copy values already in range |
| `Cleaning.CleanedNumericCoerced` | src/dl_real_time_drilling/dataprep/cleaning.py:148-162 | every declared numeric column of the cleaned log holds only floats and nulls: filling and de-duplication carry what coercion made |
| `Cleaning.CleanedHasNoGaps` | src/dl_real_time_drilling/dataprep/cleaning.py:158-162 | with a known fill method, every present declared numeric column of the cleaned log is gap-free or entirely null, and has no null at all under the median method |
| `Cleaning.UnknownFillMethodCheckedLate` | src/dl_real_time_drilling/dataprep/cleaning.py:94-107 | an unknown method fails only after steps 1 to 6 succeed and some declared numeric column is present; earlier errors take precedence |
| `Cleaning.MedianAfterRopRule` | src/dl_real_time_drilling/dataprep/cleaning.py:145-159 | the cleaning test's log (ISO text stamps for three consecutive seconds, integer `rop` 1, -2 and a gap), under the median method, prepares to those datetimes and `rop` 1.0, 0.0, 0.5: the readings become floats and the rule runs before the median is taken |
| `Cleaning.CleanTimeLogOrDefault` | src/dl_real_time_drilling/dataprep/cleaning.py:135 | a missing configuration means the defaults |
| `Stream.Push` | src/dl_real_time_drilling/pipelines/stream.py:16-18 | the buffer never holds more than `window` rows and ends with the new row |
| `Stream.PushEvictsOldest` | src/dl_real_time_drilling/pipelines/stream.py:16-18 | below capacity nothing is dropped; at capacity exactly the oldest row is dropped |
| `Stream.BufferHoldsLatestRows` | src/dl_real_time_drilling/pipelines/stream.py:16-18 | after n pushes the buffer is exactly the last min(n, window) rows in arrival order |
| `Stream.TakeSnapshot` | src/dl_real_time_drilling/pipelines/stream.py:21 | the snapshot exists iff every buffered row has the oldest row's columns; its columns are the oldest row's, each a sequence of `window` values in buffer order |
| `Stream.UniformRowsReadable` | src/dl_real_time_drilling/pipelines/stream.py:19-21 | rows that all carry the same columns never stop the stream |
| `Stream.MissingColumnStops` | src/dl_real_time_drilling/pipelines/stream.py:21 | a row lacking a column of its window's oldest row makes that window's snapshot fail |
| `Stream.RunStream` | src/dl_real_time_drilling/pipelines/stream.py:10-26 | N rows give max(0, N - window + 1) outputs, the k-th being predict(transform(snapshot of rows k..k+window-1)); a key error stops the stream at the first unreadable window |
| `Stream.RunStreamDefault` | src/dl_real_time_drilling/pipelines/stream.py:14 | without a window argument the window is 64 rows: fewer rows yield nothing, and otherwise the outputs are those of `RunStream` with window 64 |

## Left out

- Logging (the warning about absent rename sources and the progress
  messages) has no effect on the result and is not modelled.
- The asynchronous source and `asyncio.sleep(0)` only yield to the
  scheduler. The stream is a loop over a finite sequence.
- `RunStream` requires `window >= 1`: the code never validates the window,
  and a deque of length zero or less is not meaningful.
- The `features.transform` and `model.predict` collaborators are opaque
  function parameters. So are the dataframe library's ISO-8601, integer and
  float parsers.
- The numpy array built for each snapshot column is a sequence of cells.
- Floats are mathematical reals. IEEE rounding, NaN and infinities are not
  modelled, so the median of two values is their exact mean.
- Datetime overflow is not modelled: a resolved epoch second count is not
  checked against the 64-bit microsecond range.
- The dataframe library's column types are not modelled. Each cell carries
  its own kind.
  - A non-text timestamp column skips the ISO attempt. The library would
    refuse `strptime` on such a column.
  - Clipping and the `rop` rule act on float and integer cells. A text or
    datetime cell is left as it is. The library refuses a text column there,
    and its handling of a datetime column is not modelled.
  - A column is not given one common type.
- Row order after `unique` is not promised by the library. The model keeps
  the survivors in input order, but no contract depends on that. The sort is
  likewise not stable in the library, and contracts only speak of the order
  of timestamps.
- `Cleaning.CleanTimeLog` is not claimed to be idempotent. On a cleaned
  log the library's `strptime` refuses the datetime column, so a second run
  of the code fails. The model instead sends the datetime cells through the
  integer cast and the epoch heuristic, which reads their microsecond
  counts as milliseconds.
- The ISO-8601 parser is applied to each cell on its own. Without a format,
  the library's `strptime` infers one format for the whole column from its
  first non-null text, so a column mixing ISO styles may resolve
  differently there.
- Integer clipping does not model bounds outside the 64-bit range, which
  the library's cast of the bounds would refuse.
- Cleaning.GuardWithinRanges: for `rop` under the rule, when `rop` is not
  declared numeric and the lower bound is positive, no bound is claimed.
  The library clips an integer column to the truncated bounds, so a value
  can end below a fractional lower bound once the rule turns it into a
  float.
- Cleaning.CleanedWithinRanges: the same condition as
  `Cleaning.GuardWithinRanges`, for the same reason.
