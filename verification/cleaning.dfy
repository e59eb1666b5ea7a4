/** `clean_time_log`: the eight cleaning steps in their fixed order, and
    what the cleaned log is promised to satisfy. */
module Cleaning {
  import opened Telemetry
  import opened Config
  import opened Timestamps
  import opened Columns
  import opened Fill
  import opened Dedup

  /** Every input cell that will sit in the timestamp column after renaming
      resolves to an instant. */
  predicate TimestampsResolve(t: Table, m: map<string, string>, ts: string, p: Parsers) {
    forall i, c :: 0 <= i < |t.rows| && c in t.rows[i] && NewName(m, c) == ts ==>
      ResolveTimestamp(t.rows[i][c], p).Some?
  }

  lemma RenamedTimestampsResolve(t: Table, m: map<string, string>, ts: string, p: Parsers)
    requires WellFormed(t) && Rename(t, m).Success?
    ensures AllResolve(Rename(t, m).value, ts, p) <==> TimestampsResolve(t, m, ts, p)
  {
    var u := Rename(t, m).value;
    if TimestampsResolve(t, m, ts, p) {
      forall i | 0 <= i < |u.rows| && ts in u.rows[i]
        ensures ResolveTimestamp(u.rows[i][ts], p).Some?
      {
        var c :| c in t.columns && NewName(m, c) == ts;
        assert u.rows[i][ts] == t.rows[i][c];
      }
    }
    if AllResolve(u, ts, p) {
      forall i, c | 0 <= i < |t.rows| && c in t.rows[i] && NewName(m, c) == ts
        ensures ResolveTimestamp(t.rows[i][c], p).Some?
      {
        assert u.rows[i][ts] == t.rows[i][c];
      }
    }
  }

  /** Steps 1 to 6: renaming, the timestamp check, its parse, numeric
      coercion, clipping and the rate-of-penetration rule. */
  function Guard(t: Table, cfg: TimeCleanConfig, p: Parsers): (r: Result<Table, CleanError>)
    requires WellFormed(t)
    ensures r.Success? ==>
      && WellFormed(r.value)
      && r.value.columns == RenamedColumns(cfg.renameMap, t.columns)
      && |r.value.rows| == |t.rows|
  {
    var renamed :- Rename(t, cfg.renameMap);
    if cfg.timestampColumn !in renamed.columns then Failure(MissingTimestampColumn)
    else
      var timed :- EnsureTimestamp(renamed, cfg.timestampColumn, p);
      var coerced :- Coerce(timed, cfg.requiredNumericColumns, p);
      var clipped := if |cfg.plausibleRanges| > 0 then Clip(coerced, cfg.plausibleRanges) else coerced;
      Success(if cfg.dropNegativeRop && Rop in clipped.columns then EnforceNonNegativeRop(clipped) else clipped)
  }

  /** Steps 1 to 7: the guarded frame, then filling. */
  function Prepare(t: Table, cfg: TimeCleanConfig, p: Parsers): (r: Result<Table, CleanError>)
    requires WellFormed(t)
    ensures r.Success? ==>
      && WellFormed(r.value)
      && r.value.columns == RenamedColumns(cfg.renameMap, t.columns)
      && |r.value.rows| == |t.rows|
  {
    var guarded :- Guard(t, cfg, p);
    FillMissing(guarded, cfg.fillMethod, cfg.requiredNumericColumns)
  }

  /** The intermediate frames of a guarded run that succeeded. */
  lemma GuardStages(t: Table, cfg: TimeCleanConfig, p: Parsers)
    returns (timed: Table, coerced: Table, clipped: Table)
    requires WellFormed(t) && Guard(t, cfg, p).Success?
    ensures Rename(t, cfg.renameMap).Success?
    ensures EnsureTimestamp(Rename(t, cfg.renameMap).value, cfg.timestampColumn, p) == Success(timed)
    ensures Coerce(timed, cfg.requiredNumericColumns, p) == Success(coerced)
    ensures clipped == if |cfg.plausibleRanges| > 0 then Clip(coerced, cfg.plausibleRanges) else coerced
    ensures Guard(t, cfg, p).value ==
      if cfg.dropNegativeRop && Rop in clipped.columns then EnforceNonNegativeRop(clipped) else clipped
    ensures WellFormed(timed) && WellFormed(coerced) && WellFormed(clipped)
    ensures timed.columns == coerced.columns == clipped.columns == RenamedColumns(cfg.renameMap, t.columns)
    ensures |timed.rows| == |coerced.rows| == |clipped.rows| == |t.rows|
  {
    var renamed := Rename(t, cfg.renameMap).value;
    timed := EnsureTimestamp(renamed, cfg.timestampColumn, p).value;
    coerced := Coerce(timed, cfg.requiredNumericColumns, p).value;
    clipped := if |cfg.plausibleRanges| > 0 then Clip(coerced, cfg.plausibleRanges) else coerced;
  }

  /** After the guard every declared numeric column holds floats and nulls
      only: clipping and the rate-of-penetration rule keep what coercion
      made. */
  lemma GuardKeepsNumericCoerced(t: Table, cfg: TimeCleanConfig, p: Parsers, c: string)
    requires WellFormed(t) && Guard(t, cfg, p).Success?
    requires c in cfg.requiredNumericColumns
    ensures NumOrNull(Guard(t, cfg, p).value, c)
  {
    var timed, coerced, clipped := GuardStages(t, cfg, p);
    var g := Guard(t, cfg, p).value;
    if c in coerced.columns {
      assert NumOrNull(coerced, c);
      forall i | 0 <= i < |g.rows| && c in g.rows[i]
        ensures g.rows[i][c].Num? || g.rows[i][c].Null?
      {
        assert coerced.rows[i][c].Num? || coerced.rows[i][c].Null?;
        assert clipped.rows[i][c].Num? || clipped.rows[i][c].Null? by {
          if |cfg.plausibleRanges| > 0 && c in cfg.plausibleRanges {
            var (lo, hi) := cfg.plausibleRanges[c];
            assert clipped.rows[i][c] == ClipCell(coerced.rows[i][c], lo, hi);
          }
        }
      }
    }
  }

  /** After the guard the timestamp column holds instants, unless it was
      also declared numeric and so cast to a float. */
  lemma GuardTimestampsAreInstants(t: Table, cfg: TimeCleanConfig, p: Parsers)
    requires WellFormed(t) && Guard(t, cfg, p).Success?
    requires cfg.timestampColumn !in cfg.requiredNumericColumns
    ensures forall i :: 0 <= i < |t.rows| ==> Guard(t, cfg, p).value.rows[i][cfg.timestampColumn].Time?
  {
    var timed, coerced, clipped := GuardStages(t, cfg, p);
    var ts := cfg.timestampColumn;
    assert ts in timed.columns;
    assert forall i :: 0 <= i < |timed.rows| ==> timed.rows[i][ts].Time?;
    CoerceKeepsTimes(timed, cfg.requiredNumericColumns, p, ts);
    ClipAndRuleKeepTimes(coerced, cfg, ts);
  }

  /** Coercion leaves an undeclared column of datetimes as it is. */
  lemma CoerceKeepsTimes(timed: Table, numeric: seq<string>, p: Parsers, c: string)
    requires WellFormed(timed) && c in timed.columns && c !in numeric
    requires Coerce(timed, numeric, p).Success?
    requires forall i :: 0 <= i < |timed.rows| ==> timed.rows[i][c].Time?
    ensures forall i :: 0 <= i < |timed.rows| ==> Coerce(timed, numeric, p).value.rows[i][c].Time?
  {
  }

  /** Clipping and the rule leave a column of datetimes as it is. */
  lemma ClipAndRuleKeepTimes(coerced: Table, cfg: TimeCleanConfig, c: string)
    requires WellFormed(coerced) && c in coerced.columns
    requires forall i :: 0 <= i < |coerced.rows| ==> coerced.rows[i][c].Time?
    ensures var clipped := if |cfg.plausibleRanges| > 0 then Clip(coerced, cfg.plausibleRanges) else coerced;
      var g := if cfg.dropNegativeRop && Rop in clipped.columns then EnforceNonNegativeRop(clipped) else clipped;
      forall i :: 0 <= i < |g.rows| ==> g.rows[i][c] == coerced.rows[i][c]
  {
    var clipped := if |cfg.plausibleRanges| > 0 then Clip(coerced, cfg.plausibleRanges) else coerced;
    forall i | 0 <= i < |clipped.rows|
      ensures clipped.rows[i][c] == coerced.rows[i][c]
    {
      if |cfg.plausibleRanges| > 0 && c in cfg.plausibleRanges {
        var (lo, hi) := cfg.plausibleRanges[c];
        assert clipped.rows[i][c] == ClipCell(coerced.rows[i][c], lo, hi);
      }
    }
    if cfg.dropNegativeRop && Rop in clipped.columns && c == Rop {
      var g := EnforceNonNegativeRop(clipped);
      forall i | 0 <= i < |g.rows|
        ensures g.rows[i][c] == coerced.rows[i][c]
      {
        assert g.rows[i][Rop] == ZeroNegative(clipped.rows[i][Rop]);
      }
    }
  }

  /** With the rule on, every number of "rop" is a non-negative float
      after the guard: no float is negative and no integer is left. */
  lemma GuardRopNonNegative(t: Table, cfg: TimeCleanConfig, p: Parsers)
    requires WellFormed(t) && Guard(t, cfg, p).Success? && cfg.dropNegativeRop
    ensures NumsWithin(Guard(t, cfg, p).value, Rop, Bound(0.0, None))
    ensures NoInts(Guard(t, cfg, p).value, Rop)
  {
    var timed, coerced, clipped := GuardStages(t, cfg, p);
  }

  /** The condition under which the rule keeps "rop" within its range: the
      range admits 0, the value negatives are moved to after clipping, and
      when "rop" is not declared numeric (so it may hold integers, clipped
      to truncated bounds) the lower bound is not positive. */
  predicate RopRangeFits(cfg: TimeCleanConfig)
    requires Rop in cfg.plausibleRanges
  {
    var (lo, hi) := cfg.plausibleRanges[Rop];
    0.0 <= hi && (lo <= 0.0 || Rop in cfg.requiredNumericColumns)
  }

  /** A configured range with `lo <= hi` bounds the floats of its column
      after the guard; for "rop" under the rule, when `RopRangeFits`. */
  lemma GuardWithinRanges(t: Table, cfg: TimeCleanConfig, p: Parsers, c: string)
    requires WellFormed(t) && Guard(t, cfg, p).Success?
    requires c in cfg.plausibleRanges && cfg.plausibleRanges[c].0 <= cfg.plausibleRanges[c].1
    requires c == Rop && cfg.dropNegativeRop ==> RopRangeFits(cfg)
    ensures NumsWithin(Guard(t, cfg, p).value, c, Bound(cfg.plausibleRanges[c].0, Some(cfg.plausibleRanges[c].1)))
  {
    var timed, coerced, clipped := GuardStages(t, cfg, p);
    var (lo, hi) := cfg.plausibleRanges[c];
    var b := Bound(lo, Some(hi));
    assert NumsWithin(clipped, c, b);
    var g := Guard(t, cfg, p).value;
    if c == Rop && cfg.dropNegativeRop && Rop in clipped.columns {
      forall i | 0 <= i < |g.rows| && c in g.rows[i] && g.rows[i][c].Num?
        ensures Admits(b, g.rows[i][c].x)
      {
        var x := coerced.rows[i][c];
        assert clipped.rows[i][c] == ClipCell(x, lo, hi);
        assert g.rows[i][c] == ZeroNegative(ClipCell(x, lo, hi));
        if Rop in cfg.requiredNumericColumns {
          assert x.Num? || x.Null?;
        }
        RopRuleAfterClipWithin(x, lo, hi);
      }
    }
  }

  /** Which step fails, in the order the steps run: a rename collision, the
      missing timestamp column, an unresolved timestamp, a declared numeric
      column listed twice, then, only when there is something to fill, an
      unknown fill method or a median fill of a column without values. */
  lemma {:induction false} PrepareFailures(t: Table, cfg: TimeCleanConfig, p: Parsers)
    requires WellFormed(t)
    ensures var m := cfg.renameMap;
      var ts := cfg.timestampColumn;
      var cols := RenamedColumns(m, t.columns);
      var numeric := cfg.requiredNumericColumns;
      var r := Prepare(t, cfg, p);
      && (Collides(m, t.columns) ==> r == Failure(DuplicateColumn))
      && (!Collides(m, t.columns) && ts !in cols ==> r == Failure(MissingTimestampColumn))
      && (!Collides(m, t.columns) && ts in cols && !TimestampsResolve(t, m, ts, p) ==>
            r == Failure(UnparsedTimestamp))
      && (!Collides(m, t.columns) && ts in cols && TimestampsResolve(t, m, ts, p) && RepeatsPresent(numeric, cols) ==>
            r == Failure(DuplicateColumn))
      && (!Collides(m, t.columns) && ts in cols && TimestampsResolve(t, m, ts, p) && !RepeatsPresent(numeric, cols) ==>
            && Guard(t, cfg, p).Success?
            && (r.Failure? <==>
                  && PresentNumeric(numeric, cols) != {}
                  && cfg.fillMethod != NoFillMethod
                  && (|| !KnownFillMethod(cfg.fillMethod)
                      || (cfg.fillMethod == MedianMethod && LacksMedian(Guard(t, cfg, p).value, numeric))))
            && (r.Failure? ==>
                  r.error == if KnownFillMethod(cfg.fillMethod) then NoFillValue else UnknownFillMethod(cfg.fillMethod)))
  {
    var m := cfg.renameMap;
    var ts := cfg.timestampColumn;
    var numeric := cfg.requiredNumericColumns;
    if !Collides(m, t.columns) {
      var renamed := Rename(t, m).value;
      if ts in renamed.columns {
        RenamedTimestampsResolve(t, m, ts, p);
        if AllResolve(renamed, ts, p) {
          var timed := EnsureTimestamp(renamed, ts, p).value;
          if !RepeatsPresent(numeric, timed.columns) {
            var coerced := Coerce(timed, numeric, p).value;
            var clipped := if |cfg.plausibleRanges| > 0 then Clip(coerced, cfg.plausibleRanges) else coerced;
            var guarded := if cfg.dropNegativeRop && Rop in clipped.columns then EnforceNonNegativeRop(clipped) else clipped;
            assert Guard(t, cfg, p) == Success(guarded);
            assert guarded.columns == renamed.columns;
            assert Prepare(t, cfg, p) == FillMissing(guarded, cfg.fillMethod, numeric);
          }
        }
      }
    }
  }

  /** `clean_time_log` with a configuration: the prepared frame, then
      de-duplication and sorting on the timestamp column. It fails exactly
      when preparation does, with the same error. */
  function CleanTimeLog(t: Table, cfg: TimeCleanConfig, p: Parsers): (r: Result<Table, CleanError>)
    requires WellFormed(t)
    ensures r.Failure? <==> Prepare(t, cfg, p).Failure?
    ensures r.Failure? ==> r.error == Prepare(t, cfg, p).error
    ensures r.Success? ==>
      && WellFormed(r.value)
      && r.value.columns == RenamedColumns(cfg.renameMap, t.columns)
      && (forall x :: x in r.value.rows ==> x in Prepare(t, cfg, p).value.rows)
  {
    var prepared :- Prepare(t, cfg, p);
    var rows := DropDupesAndSort(prepared.rows, cfg.timestampColumn, cfg.deduplicate, cfg.sort);
    Success(Table(prepared.columns, rows))
  }

  // ---------------------------------------------------------------------
  // What a successful run promises
  // ---------------------------------------------------------------------

  /** A frame made only of rows of another keeps the other's column facts. */
  lemma RowsFromKeep(t: Table, u: Table, c: string, b: Bound)
    requires forall x :: x in u.rows ==> x in t.rows
    ensures NumsWithin(t, c, b) ==> NumsWithin(u, c, b)
    ensures WellFormed(t) && WellFormed(u) && c in t.columns && c in u.columns ==>
      (NoPartialNulls(t, c) ==> NoPartialNulls(u, c))
    ensures NoNulls(t, c) ==> NoNulls(u, c)
    ensures NoInts(t, c) ==> NoInts(u, c)
    ensures NumOrNull(t, c) ==> NumOrNull(u, c)
  {
    forall i | 0 <= i < |u.rows|
      ensures exists j :: 0 <= j < |t.rows| && t.rows[j] == u.rows[i]
    {
      assert u.rows[i] in t.rows;
    }
  }

  /** The cleaned frame's rows are the prepared rows run through
      de-duplication and sorting. */
  lemma CleanedRows(t: Table, cfg: TimeCleanConfig, p: Parsers)
    requires WellFormed(t) && CleanTimeLog(t, cfg, p).Success?
    ensures Prepare(t, cfg, p).Success? && Guard(t, cfg, p).Success?
    ensures Prepare(t, cfg, p) == FillMissing(Guard(t, cfg, p).value, cfg.fillMethod, cfg.requiredNumericColumns)
    ensures CleanTimeLog(t, cfg, p).value.rows ==
      DropDupesAndSort(Prepare(t, cfg, p).value.rows, cfg.timestampColumn, cfg.deduplicate, cfg.sort)
  {
  }

  /** De-duplication keeps, for each timestamp, its last row and no other;
      sorting orders by timestamp; with neither, the row count is kept. */
  lemma CleanedLogIsOrdered(t: Table, cfg: TimeCleanConfig, p: Parsers)
    requires WellFormed(t) && CleanTimeLog(t, cfg, p).Success?
    ensures var rows := CleanTimeLog(t, cfg, p).value.rows;
      var ts := cfg.timestampColumn;
      && (!cfg.deduplicate ==> |rows| == |t.rows|)
      && (!cfg.deduplicate ==> multiset(rows) == multiset(Prepare(t, cfg, p).value.rows))
      && (cfg.deduplicate ==> |rows| <= |t.rows| && DistinctTimes(rows, ts))
      && (cfg.deduplicate ==> forall x :: x in rows <==> IsSurvivor(Prepare(t, cfg, p).value.rows, ts, x))
      && (cfg.sort ==> SortedByTime(rows, ts))
  {
    CleanedRows(t, cfg, p);
    var prepared := Prepare(t, cfg, p).value.rows;
    var rows := CleanTimeLog(t, cfg, p).value.rows;
    if !cfg.deduplicate {
      assert |multiset(rows)| == |multiset(prepared)|;
    }
  }

  /** The timestamp column of a cleaned log holds instants only, unless it
      was also declared numeric. */
  lemma CleanedTimestampsAreInstants(t: Table, cfg: TimeCleanConfig, p: Parsers)
    requires WellFormed(t) && CleanTimeLog(t, cfg, p).Success?
    requires cfg.timestampColumn !in cfg.requiredNumericColumns
    ensures forall x: Row :: x in CleanTimeLog(t, cfg, p).value.rows ==> x[cfg.timestampColumn].Time?
  {
    CleanedRows(t, cfg, p);
    GuardTimestampsAreInstants(t, cfg, p);
    var ts := cfg.timestampColumn;
    var g := Guard(t, cfg, p).value;
    var prepared := Prepare(t, cfg, p).value;
    assert ts in g.columns;
    forall x: Row | x in CleanTimeLog(t, cfg, p).value.rows
      ensures x[ts].Time?
    {
      var i :| 0 <= i < |prepared.rows| && prepared.rows[i] == x;
      assert prepared.rows[i][ts] == g.rows[i][ts];
    }
  }

  /** With the rule on, every number of "rop" in a cleaned log is a
      non-negative float. */
  lemma CleanedRopNonNegative(t: Table, cfg: TimeCleanConfig, p: Parsers)
    requires WellFormed(t) && CleanTimeLog(t, cfg, p).Success? && cfg.dropNegativeRop
    ensures NumsWithin(CleanTimeLog(t, cfg, p).value, Rop, Bound(0.0, None))
    ensures NoInts(CleanTimeLog(t, cfg, p).value, Rop)
  {
    CleanedRows(t, cfg, p);
    GuardRopNonNegative(t, cfg, p);
    var b := Bound(0.0, None);
    FillKeepsBounds(Guard(t, cfg, p).value, cfg.fillMethod, cfg.requiredNumericColumns, Rop, b);
    FillKeepsNoInts(Guard(t, cfg, p).value, cfg.fillMethod, cfg.requiredNumericColumns, Rop);
    RowsFromKeep(Prepare(t, cfg, p).value, CleanTimeLog(t, cfg, p).value, Rop, b);
  }

  /** A configured range with `lo <= hi` bounds the floats of its column in
      the cleaned log (for "rop" under the rule, when `RopRangeFits`):
      filling and de-duplication only copy values already in range. */
  lemma CleanedWithinRanges(t: Table, cfg: TimeCleanConfig, p: Parsers, c: string)
    requires WellFormed(t) && CleanTimeLog(t, cfg, p).Success?
    requires c in cfg.plausibleRanges && cfg.plausibleRanges[c].0 <= cfg.plausibleRanges[c].1
    requires c == Rop && cfg.dropNegativeRop ==> RopRangeFits(cfg)
    ensures NumsWithin(CleanTimeLog(t, cfg, p).value, c, Bound(cfg.plausibleRanges[c].0, Some(cfg.plausibleRanges[c].1)))
  {
    CleanedRows(t, cfg, p);
    GuardWithinRanges(t, cfg, p, c);
    var b := Bound(cfg.plausibleRanges[c].0, Some(cfg.plausibleRanges[c].1));
    FillKeepsBounds(Guard(t, cfg, p).value, cfg.fillMethod, cfg.requiredNumericColumns, c, b);
    RowsFromKeep(Prepare(t, cfg, p).value, CleanTimeLog(t, cfg, p).value, c, b);
  }

  /** Every declared numeric column of a cleaned log holds floats and nulls
      only: filling copies cells or writes medians, and de-duplication and
      sorting only keep rows. */
  lemma CleanedNumericCoerced(t: Table, cfg: TimeCleanConfig, p: Parsers, c: string)
    requires WellFormed(t) && CleanTimeLog(t, cfg, p).Success?
    requires c in cfg.requiredNumericColumns
    ensures NumOrNull(CleanTimeLog(t, cfg, p).value, c)
  {
    CleanedRows(t, cfg, p);
    GuardKeepsNumericCoerced(t, cfg, p, c);
    FillKeepsNumOrNull(Guard(t, cfg, p).value, cfg.fillMethod, cfg.requiredNumericColumns, c);
    RowsFromKeep(Prepare(t, cfg, p).value, CleanTimeLog(t, cfg, p).value, c, Bound(0.0, None));
  }

  /** With a known fill method every declared numeric column of a cleaned
      log is gap-free: no null at all, or, under forward-then-backward fill,
      null throughout when the column never had a value. */
  lemma CleanedHasNoGaps(t: Table, cfg: TimeCleanConfig, p: Parsers, c: string)
    requires WellFormed(t) && CleanTimeLog(t, cfg, p).Success?
    requires KnownFillMethod(cfg.fillMethod)
    requires c in cfg.requiredNumericColumns && c in RenamedColumns(cfg.renameMap, t.columns)
    ensures NoPartialNulls(CleanTimeLog(t, cfg, p).value, c)
    ensures cfg.fillMethod == MedianMethod ==> NoNulls(CleanTimeLog(t, cfg, p).value, c)
  {
    CleanedRows(t, cfg, p);
    FillLeavesNoGaps(Guard(t, cfg, p).value, cfg.fillMethod, cfg.requiredNumericColumns, c);
    RowsFromKeep(Prepare(t, cfg, p).value, CleanTimeLog(t, cfg, p).value, c, Bound(0.0, None));
  }

  /** An unrecognised fill method is noticed only at the fill step: every
      earlier failure is reported instead, and when no declared numeric
      column is present the method is never looked at and cleaning
      succeeds. */
  lemma UnknownFillMethodCheckedLate(t: Table, cfg: TimeCleanConfig, p: Parsers)
    requires WellFormed(t)
    requires !KnownFillMethod(cfg.fillMethod) && cfg.fillMethod != NoFillMethod
    ensures var r := CleanTimeLog(t, cfg, p);
      && (r.Failure? <==>
            Guard(t, cfg, p).Failure? ||
            PresentNumeric(cfg.requiredNumericColumns, RenamedColumns(cfg.renameMap, t.columns)) != {})
      && (Guard(t, cfg, p).Failure? ==> r.error == Guard(t, cfg, p).error)
      && (Guard(t, cfg, p).Success? && r.Failure? ==> r.error == UnknownFillMethod(cfg.fillMethod))
  {
  }

  // ---------------------------------------------------------------------
  // The rate-of-penetration rule before a median fill, end to end
  // ---------------------------------------------------------------------

  /** A row of a two-column log: a timestamp cell and a "rop" cell. */
  function Reading(ts: Cell, rop: Cell): Row {
    map["timestamp" := ts, Rop := rop]
  }

  /** A two-column log, row `i` holding `ts[i]` and `rop[i]`. */
  function Readings(ts: seq<Cell>, rop: seq<Cell>): (t: Table)
    requires |ts| == |rop|
    ensures WellFormed(t) && t.columns == {"timestamp", Rop} && |t.rows| == |ts|
    ensures forall i :: 0 <= i < |ts| ==> t.rows[i] == Reading(ts[i], rop[i])
  {
    Table({"timestamp", Rop}, seq(|ts|, i requires 0 <= i < |ts| => Reading(ts[i], rop[i])))
  }

  /** A two-column frame is the log of its two columns. */
  lemma IsReadings(u: Table, ts: seq<Cell>, rop: seq<Cell>)
    requires WellFormed(u) && u.columns == {"timestamp", Rop}
    requires |ts| == |rop| == |u.rows|
    requires forall i :: 0 <= i < |u.rows| ==> u.rows[i]["timestamp"] == ts[i] && u.rows[i][Rop] == rop[i]
    ensures u == Readings(ts, rop)
  {
    var w := Readings(ts, rop);
    forall i | 0 <= i < |u.rows|
      ensures u.rows[i] == w.rows[i]
    {
      assert u.rows[i].Keys == w.rows[i].Keys;
    }
    assert u.rows == w.rows;
  }

  /** The defaults, with "rop" the only declared numeric column and the
      median method. */
  const RopMedianConfig: TimeCleanConfig :=
    DefaultConfig.(requiredNumericColumns := [Rop], fillMethod := MedianMethod)

  /** The first second of 2024, in seconds since the epoch. */
  const NewYear2024: int := 1704067200

  /** The ISO timestamps of the cleaning test, three consecutive seconds. */
  const IsoStamps: seq<Cell> :=
    [Str("2024-01-01T00:00:00Z"), Str("2024-01-01T00:00:01Z"), Str("2024-01-01T00:00:02Z")]
  const IsoInstants: seq<Cell> :=
    [Time(NewYear2024 * MicrosPerSecond), Time((NewYear2024 + 1) * MicrosPerSecond),
     Time((NewYear2024 + 2) * MicrosPerSecond)]

  /** The ISO parser reads the three stamps as the three seconds. */
  predicate ReadsIsoStamps(p: Parsers) {
    && p.iso("2024-01-01T00:00:00Z") == Some(NewYear2024 * MicrosPerSecond)
    && p.iso("2024-01-01T00:00:01Z") == Some((NewYear2024 + 1) * MicrosPerSecond)
    && p.iso("2024-01-01T00:00:02Z") == Some((NewYear2024 + 2) * MicrosPerSecond)
  }

  lemma IsoStampsTimed(rop: seq<Cell>, p: Parsers)
    requires |rop| == 3 && ReadsIsoStamps(p)
    ensures EnsureTimestamp(Readings(IsoStamps, rop), "timestamp", p) == Success(Readings(IsoInstants, rop))
  {
    var t := Readings(IsoStamps, rop);
    assert forall k :: 0 <= k < 3 ==> IsoParses(IsoStamps[k], p);
    assert AllResolve(t, "timestamp", p);
    var u := EnsureTimestamp(t, "timestamp", p).value;
    IsReadings(u, IsoInstants, rop);
  }

  /** Integer readings of a declared numeric column become floats. */
  lemma IntsCoerced(ts: seq<Cell>, p: Parsers)
    requires |ts| == 3
    ensures Coerce(Readings(ts, [Int(1), Int(-2), Null]), [Rop], p) == Success(Readings(ts, [Num(1.0), Num(-2.0), Null]))
  {
    var t := Readings(ts, [Int(1), Int(-2), Null]);
    assert !RepeatsPresent([Rop], t.columns);
    IsReadings(Coerce(t, [Rop], p).value, ts, [Num(1.0), Num(-2.0), Null]);
  }

  lemma RopRuleApplied(ts: seq<Cell>, rop: seq<Cell>)
    requires |ts| == |rop| == 3
    requires rop == [Num(1.0), Num(-2.0), Null]
    ensures EnforceNonNegativeRop(Readings(ts, rop)) == Readings(ts, [Num(1.0), Num(0.0), Null])
  {
    IsReadings(EnforceNonNegativeRop(Readings(ts, rop)), ts, [Num(1.0), Num(0.0), Null]);
  }

  lemma MedianOfOneColumn(t: Table)
    requires WellFormed(t) && Rop in t.columns
    ensures FillMissing(t, MedianMethod, [Rop]) == MedianFill(t, {Rop})
  {
    assert PresentNumeric([Rop], t.columns) == {Rop};
    assert !RepeatsPresent([Rop], t.columns);
  }

  lemma MedianFilled(ts: seq<Cell>, rop: seq<Cell>)
    requires |ts| == 3 && rop == [Num(1.0), Num(0.0), Null]
    ensures FillMissing(Readings(ts, rop), MedianMethod, [Rop]) == Success(Readings(ts, [Num(1.0), Num(0.0), Num(0.5)]))
  {
    var t := Readings(ts, rop);
    var filled := [Num(1.0), Num(0.0), Num(0.5)];
    MedianFillOfReadings(ts, rop, filled);
    MedianOfOneColumn(t);
    var r := MedianFill(t, {Rop}).value;
    IsReadings(r, ts, filled);
  }

  lemma MedianFillOfReadings(ts: seq<Cell>, rop: seq<Cell>, filled: seq<Cell>)
    requires |ts| == 3 && rop == [Num(1.0), Num(0.0), Null] && filled == [Num(1.0), Num(0.0), Num(0.5)]
    ensures MedianFill(Readings(ts, rop), {Rop}).Success?
    ensures var r := MedianFill(Readings(ts, rop), {Rop}).value;
      && WellFormed(r) && r.columns == {"timestamp", Rop} && |r.rows| == 3
      && forall i :: 0 <= i < 3 ==> r.rows[i]["timestamp"] == ts[i] && r.rows[i][Rop] == filled[i]
  {
    var t := Readings(ts, rop);
    assert Column(t, Rop) == rop;
    MedianFillExample(rop);
    assert AllHaveMedians(t, {Rop}) by {
      assert HasMedian(t, Rop);
    }
    var r := MedianFill(t, {Rop}).value;
    assert Column(r, Rop) == filled;
  }

  /** The cleaning test's log: ISO stamps for three consecutive seconds and
      integer "rop" readings 1, -2 and a gap, here under the median method.
      The readings become floats, the rule turns -2 into 0 before filling,
      and the gap receives the median of 1 and 0. */
  lemma MedianAfterRopRule(p: Parsers)
    requires ReadsIsoStamps(p)
    ensures Prepare(Readings(IsoStamps, [Int(1), Int(-2), Null]), RopMedianConfig, p)
      == Success(Readings(IsoInstants, [Num(1.0), Num(0.0), Num(0.5)]))
  {
    var t := Readings(IsoStamps, [Int(1), Int(-2), Null]);
    IsoStampsTimed([Int(1), Int(-2), Null], p);
    IntsCoerced(IsoInstants, p);
    RopRuleApplied(IsoInstants, [Num(1.0), Num(-2.0), Null]);
    var guarded := Readings(IsoInstants, [Num(1.0), Num(0.0), Null]);
    assert Guard(t, RopMedianConfig, p) == Success(guarded);
    MedianFilled(IsoInstants, [Num(1.0), Num(0.0), Null]);
  }

  /** `cfg or TimeCleanConfig()`: a missing configuration means the
      defaults. */
  function CleanTimeLogOrDefault(t: Table, cfg: Option<TimeCleanConfig>, p: Parsers): (r: Result<Table, CleanError>)
    requires WellFormed(t)
    ensures cfg.None? ==> r == CleanTimeLog(t, DefaultConfig, p)
    ensures cfg.Some? ==> r == CleanTimeLog(t, cfg.value, p)
  {
    CleanTimeLog(t, if cfg.Some? then cfg.value else DefaultConfig, p)
  }
}
