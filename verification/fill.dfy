/** Filling of missing values in the declared numeric columns: forward then
    backward fill, or substitution of the column median. */
module Fill {
  import opened Telemetry
  import opened Config
  import opened Sorting
  import opened Columns

  // ---------------------------------------------------------------------
  // Nearest known values: the reference the fills are proved against
  // ---------------------------------------------------------------------

  /** The last non-null cell at or before `i`, or null when there is none. */
  function LastKnown(col: seq<Cell>, i: nat): Cell
    requires i < |col|
    decreases i
  {
    if !col[i].Null? || i == 0 then col[i] else LastKnown(col, i - 1)
  }

  /** The first non-null cell at or after `i`, or null when there is none. */
  function NextKnown(col: seq<Cell>, i: nat): Cell
    requires i < |col|
    decreases |col| - i
  {
    if !col[i].Null? || i == |col| - 1 then col[i] else NextKnown(col, i + 1)
  }

  /** The value forward-then-backward filling puts at `i`: the nearest known
      value before, else the nearest known value after. */
  function Nearest(col: seq<Cell>, i: nat): Cell
    requires i < |col|
  {
    if !LastKnown(col, i).Null? then LastKnown(col, i) else NextKnown(col, i)
  }

  lemma {:induction false} LastKnownFacts(col: seq<Cell>, i: nat)
    requires i < |col|
    ensures exists j :: 0 <= j <= i && LastKnown(col, i) == col[j]
    ensures LastKnown(col, i).Null? <==> forall j :: 0 <= j <= i ==> col[j].Null?
    decreases i
  {
    if col[i].Null? && i > 0 {
      LastKnownFacts(col, i - 1);
      var j :| 0 <= j <= i - 1 && LastKnown(col, i - 1) == col[j];
    }
  }

  lemma {:induction false} NextKnownFacts(col: seq<Cell>, i: nat)
    requires i < |col|
    ensures exists j :: i <= j < |col| && NextKnown(col, i) == col[j]
    ensures NextKnown(col, i).Null? <==> forall j :: i <= j < |col| ==> col[j].Null?
    decreases |col| - i
  {
    if col[i].Null? && i < |col| - 1 {
      NextKnownFacts(col, i + 1);
      var j :| i + 1 <= j < |col| && NextKnown(col, i + 1) == col[j];
    }
  }

  lemma {:induction false} LastKnownPrefix(col: seq<Cell>, n: nat, i: nat)
    requires i < n <= |col|
    ensures LastKnown(col[..n], i) == LastKnown(col, i)
    decreases i
  {
    if i > 0 {
      LastKnownPrefix(col, n, i - 1);
    }
  }

  lemma {:induction false} NextKnownShift(col: seq<Cell>, i: nat)
    requires i + 1 < |col|
    ensures NextKnown(col[1..], i) == NextKnown(col, i + 1)
    decreases |col| - i
  {
    if i + 2 < |col| {
      NextKnownShift(col, i + 1);
    }
  }

  // ---------------------------------------------------------------------
  // Forward and backward fill
  // ---------------------------------------------------------------------

  /** Forward fill: the fill of all but the last cell, followed by the last
      cell, or by the value carried to the end when that cell is null. */
  function ForwardFill(col: seq<Cell>): (r: seq<Cell>)
    ensures |r| == |col|
    decreases |col|
  {
    if |col| == 0 then []
    else
      var init := ForwardFill(col[..|col| - 1]);
      var x := col[|col| - 1];
      init + [if x.Null? && |init| > 0 then init[|init| - 1] else x]
  }

  /** Backward fill: the first cell, or when it is null the first cell of the
      filled remainder, followed by that remainder. */
  function BackwardFill(col: seq<Cell>): (r: seq<Cell>)
    ensures |r| == |col|
  {
    if |col| == 0 then []
    else
      var rest := BackwardFill(col[1..]);
      [if col[0].Null? && |rest| > 0 then rest[0] else col[0]] + rest
  }

  /** Forward fill puts at every position the last known value up to it. */
  lemma {:induction false} ForwardFillIsLastKnown(col: seq<Cell>)
    ensures forall i :: 0 <= i < |col| ==> ForwardFill(col)[i] == LastKnown(col, i)
    decreases |col|
  {
    if |col| > 0 {
      var n := |col|;
      var init := ForwardFill(col[..n - 1]);
      ForwardFillIsLastKnown(col[..n - 1]);
      forall i | 0 <= i < n - 1
        ensures ForwardFill(col)[i] == LastKnown(col, i)
      {
        LastKnownPrefix(col, n - 1, i);
      }
      if col[n - 1].Null? && n > 1 {
        LastKnownPrefix(col, n - 1, n - 2);
      }
    }
  }

  /** Backward fill puts at every position the next known value from it. */
  lemma {:induction false} BackwardFillIsNextKnown(col: seq<Cell>)
    ensures forall i :: 0 <= i < |col| ==> BackwardFill(col)[i] == NextKnown(col, i)
    decreases |col|
  {
    if |col| > 0 {
      var rest := BackwardFill(col[1..]);
      BackwardFillIsNextKnown(col[1..]);
      forall i | 1 <= i < |col|
        ensures BackwardFill(col)[i] == NextKnown(col, i)
      {
        NextKnownShift(col, i - 1);
      }
      if col[0].Null? && |col| > 1 {
        NextKnownShift(col, 0);
      }
    }
  }

  lemma {:induction false} NextOfForwardIsNearest(col: seq<Cell>, ff: seq<Cell>, i: nat)
    requires |ff| == |col| && i < |col|
    requires forall j :: 0 <= j < |col| ==> ff[j] == LastKnown(col, j)
    ensures NextKnown(ff, i) == Nearest(col, i)
    decreases |col| - i
  {
    if LastKnown(col, i).Null? {
      assert col[i].Null? && ff[i].Null?;
      if i < |col| - 1 {
        NextOfForwardIsNearest(col, ff, i + 1);
        assert NextKnown(ff, i) == NextKnown(ff, i + 1);
        assert NextKnown(col, i) == NextKnown(col, i + 1);
        if !col[i + 1].Null? {
          assert LastKnown(col, i + 1) == col[i + 1] == NextKnown(col, i + 1);
        } else {
          assert LastKnown(col, i + 1) == LastKnown(col, i);
        }
      }
    }
  }

  /** `forward_fill` then `backward_fill` on one column. */
  function FfillBfill(col: seq<Cell>): (r: seq<Cell>)
    ensures |r| == |col|
    ensures forall i :: 0 <= i < |col| ==> r[i] == Nearest(col, i)
  {
    var ff := ForwardFill(col);
    ForwardFillIsLastKnown(col);
    BackwardFillIsNextKnown(ff);
    forall i | 0 <= i < |col|
      ensures BackwardFill(ff)[i] == Nearest(col, i)
    {
      NextOfForwardIsNearest(col, ff, i);
    }
    BackwardFill(ff)
  }

  /** What forward-then-backward filling promises: known cells are kept; a
      column with any known cell ends with no null; an all-null column stays
      all null; and every filled cell is a copy of some cell of the column. */
  lemma FfillBfillProperties(col: seq<Cell>)
    ensures forall i :: 0 <= i < |col| && !col[i].Null? ==> FfillBfill(col)[i] == col[i]
    ensures (exists j :: 0 <= j < |col| && !col[j].Null?) ==>
      forall i :: 0 <= i < |col| ==> !FfillBfill(col)[i].Null?
    ensures (forall j :: 0 <= j < |col| ==> col[j].Null?) ==> FfillBfill(col) == col
    ensures forall i :: 0 <= i < |col| ==> exists j :: 0 <= j < |col| && FfillBfill(col)[i] == col[j]
  {
    var r := FfillBfill(col);
    forall i | 0 <= i < |col|
      ensures !col[i].Null? ==> r[i] == col[i]
      ensures (exists j :: 0 <= j < |col| && !col[j].Null?) ==> !r[i].Null?
      ensures (forall j :: 0 <= j < |col| ==> col[j].Null?) ==> r[i] == col[i]
      ensures exists j :: 0 <= j < |col| && r[i] == col[j]
    {
      LastKnownFacts(col, i);
      NextKnownFacts(col, i);
      if exists j :: 0 <= j < |col| && !col[j].Null? {
        var j :| 0 <= j < |col| && !col[j].Null?;
        if j > i {
          assert !NextKnown(col, i).Null?;
        }
      }
    }
  }

  // ---------------------------------------------------------------------
  // Median
  // ---------------------------------------------------------------------

  /** The float values of a column, nulls and other cells skipped. */
  function NumValues(col: seq<Cell>): (vs: seq<real>)
    ensures |vs| <= |col|
    ensures forall k :: 0 <= k < |vs| ==> Num(vs[k]) in col
    ensures forall i :: 0 <= i < |col| && col[i].Num? ==> col[i].x in vs
  {
    if |col| == 0 then []
    else
      assert forall i :: 1 <= i < |col| ==> col[i] == col[1..][i - 1];
      (if col[0].Num? then [col[0].x] else []) + NumValues(col[1..])
  }

  function AtMost(m: real): real -> bool {
    v => v <= m
  }

  function AtLeast(m: real): real -> bool {
    v => v >= m
  }

  /** The middle element of a sorted sequence, or the mean of the two middle
      elements when its length is even. */
  function MedianOfSorted(s: seq<real>): real
    requires |s| > 0
  {
    var n := |s|;
    if n % 2 == 1 then s[n / 2] else (s[n / 2 - 1] + s[n / 2]) / 2.0
  }

  lemma {:induction false} CountFromPrefix(s: seq<real>, h: nat, P: real -> bool)
    requires h <= |s|
    requires forall i :: 0 <= i < h ==> P(s[i])
    ensures Count(s, P) >= h
  {
    assert s == s[..h] + s[h..];
    CountAppend(s[..h], s[h..], P);
    CountAll(s[..h], P);
  }

  lemma {:induction false} CountFromSuffix(s: seq<real>, h: nat, P: real -> bool)
    requires h <= |s|
    requires forall i :: h <= i < |s| ==> P(s[i])
    ensures Count(s, P) >= |s| - h
  {
    assert s == s[..h] + s[h..];
    CountAppend(s[..h], s[h..], P);
    CountAll(s[h..], P);
  }

  /** In a sorted sequence at least half the elements are at most the median
      and at least half are at least the median. */
  lemma {:induction false} MedianOfSortedHalves(s: seq<real>)
    requires |s| > 0 && Sorted(s)
    ensures var m := MedianOfSorted(s);
      && 2 * Count(s, AtMost(m)) >= |s|
      && 2 * Count(s, AtLeast(m)) >= |s|
      && s[0] <= m <= s[|s| - 1]
  {
    var n := |s|;
    var m := MedianOfSorted(s);
    if n % 2 == 1 {
      CountFromPrefix(s, n / 2 + 1, AtMost(m));
      CountFromSuffix(s, n / 2, AtLeast(m));
    } else {
      assert s[n / 2 - 1] <= m <= s[n / 2];
      CountFromPrefix(s, n / 2, AtMost(m));
      CountFromSuffix(s, n / 2, AtLeast(m));
    }
  }

  /** The batch median of a column's values: `None` for no values; otherwise
      a value with at least half of the values on each side of it, lying
      between two of the values. `MedianIsMiddle` pins it down exactly. */
  function Median(vs: seq<real>): (m: Option<real>)
    ensures m.None? <==> |vs| == 0
    ensures m.Some? ==> 2 * Count(vs, AtMost(m.value)) >= |vs| && 2 * Count(vs, AtLeast(m.value)) >= |vs|
    ensures m.Some? ==> exists i, j :: 0 <= i < |vs| && 0 <= j < |vs| && vs[i] <= m.value <= vs[j]
  {
    if |vs| == 0 then None
    else
      var s := Sort(vs);
      var m := MedianOfSorted(s);
      MedianOfSortedHalves(s);
      CountSort(vs, AtMost(m));
      CountSort(vs, AtLeast(m));
      assert s[0] in multiset(vs) && s[|s| - 1] in multiset(vs) by {
        assert s[0] in multiset(s) && s[|s| - 1] in multiset(s);
      }
      Some(m)
  }

  /** The median is the middle value of any ascending arrangement of the
      values, or the mean of its two middle values when their number is even. */
  lemma MedianIsMiddle(vs: seq<real>, s: seq<real>)
    requires Sorted(s) && multiset(s) == multiset(vs) && |vs| > 0
    ensures |s| == |vs|
    ensures Median(vs) == Some(MedianOfSorted(s))
  {
    assert |s| == |multiset(s)| == |multiset(vs)| == |vs|;
    SortedUnique(s, Sort(vs));
  }

  /** The median of values that all lie within a bound lies within it. */
  lemma MedianWithin(vs: seq<real>, b: Bound)
    requires |vs| > 0
    requires forall k :: 0 <= k < |vs| ==> Admits(b, vs[k])
    ensures Admits(b, Median(vs).value)
  {
  }

  /** Every null of the column replaced by `v`. */
  function FillNulls(col: seq<Cell>, v: Cell): (r: seq<Cell>)
    ensures |r| == |col|
    ensures forall i :: 0 <= i < |col| ==> r[i] == if col[i].Null? then v else col[i]
  {
    if |col| == 0 then [] else [if col[0].Null? then v else col[0]] + FillNulls(col[1..], v)
  }

  /** Median substitution on one column: each null becomes the median of the
      column's values. A column without values has no median, and
      `fill_null(None)` is refused: `None`. */
  function FillMedianColumn(col: seq<Cell>): (r: Option<seq<Cell>>)
    ensures r.None? <==> |NumValues(col)| == 0
    ensures r.Some? ==> |r.value| == |col|
    ensures r.Some? ==> forall i :: 0 <= i < |col| && !col[i].Null? ==> r.value[i] == col[i]
    ensures r.Some? ==>
      forall i :: 0 <= i < |col| && col[i].Null? ==> r.value[i] == Num(Median(NumValues(col)).value)
  {
    match Median(NumValues(col))
    case None => None
    case Some(m) => Some(FillNulls(col, Num(m)))
  }

  // ---------------------------------------------------------------------
  // Dispatch over the fill method
  // ---------------------------------------------------------------------

  const FfillBfillMethod: string := "ffill_bfill"
  const MedianMethod: string := "median"
  const NoFillMethod: string := "none"

  predicate KnownFillMethod(fillMethod: string) {
    fillMethod == FfillBfillMethod || fillMethod == MedianMethod
  }

  /** The declared numeric columns the frame has. */
  function PresentNumeric(numeric: seq<string>, cols: set<string>): (s: set<string>)
    ensures forall c :: c in s <==> c in numeric && c in cols
  {
    set c | c in numeric && c in cols
  }

  lemma ReplacedColumn(t: Table, repl: map<string, seq<Cell>>, c: string)
    requires WellFormed(t) && c in t.columns && c in repl
    requires forall k :: k in repl ==> |repl[k]| == |t.rows|
    ensures Column(ReplaceColumns(t, repl), c) == repl[c]
  {
  }

  /** Forward-then-backward fill of the columns `cols`. */
  function FillForwardBackward(t: Table, cols: set<string>): (r: Table)
    requires WellFormed(t) && cols <= t.columns
    ensures WellFormed(r) && r.columns == t.columns && |r.rows| == |t.rows|
    ensures forall c :: c in cols ==> Column(r, c) == FfillBfill(Column(t, c))
    ensures forall i, c :: 0 <= i < |t.rows| && c in t.columns && c !in cols ==> r.rows[i][c] == t.rows[i][c]
  {
    var repl := map c | c in cols :: FfillBfill(Column(t, c));
    var r := ReplaceColumns(t, repl);
    assert forall c :: c in cols ==> Column(r, c) == repl[c] by {
      forall c | c in cols
        ensures Column(r, c) == repl[c]
      {
        ReplacedColumn(t, repl, c);
      }
    }
    r
  }

  lemma MedianColumnFillsNulls(col: seq<Cell>)
    requires |NumValues(col)| > 0
    ensures FillMedianColumn(col) == Some(FillNulls(col, Num(Median(NumValues(col)).value)))
  {
  }

  /** Column `c` has a value to take the median of. */
  predicate HasMedian(t: Table, c: string)
    requires WellFormed(t) && c in t.columns
  {
    |NumValues(Column(t, c))| > 0
  }

  /** Every column of `cols` has a value to take the median of. */
  predicate AllHaveMedians(t: Table, cols: set<string>)
    requires WellFormed(t) && cols <= t.columns
  {
    forall c :: c in cols ==> HasMedian(t, c)
  }

  /** Some declared numeric column that is present has no value, so its
      median is missing. */
  predicate LacksMedian(t: Table, numeric: seq<string>)
    requires WellFormed(t)
  {
    !AllHaveMedians(t, PresentNumeric(numeric, t.columns))
  }

  /** `fill_null` with each column's median: the nulls of every column `c`
      that `medians` names become `medians[c]`. */
  function FillWithMedian(t: Table, medians: map<string, real>): (r: Table)
    requires WellFormed(t) && medians.Keys <= t.columns
    ensures WellFormed(r) && r.columns == t.columns && |r.rows| == |t.rows|
    ensures forall c :: c in medians ==> Column(r, c) == FillNulls(Column(t, c), Num(medians[c]))
    ensures forall i, c :: 0 <= i < |t.rows| && c in t.columns && c !in medians ==> r.rows[i][c] == t.rows[i][c]
  {
    var repl := map c | c in medians :: FillNulls(Column(t, c), Num(medians[c]));
    var r := ReplaceColumns(t, repl);
    assert forall c :: c in medians ==> Column(r, c) == repl[c] by {
      forall c | c in medians
        ensures Column(r, c) == repl[c]
      {
        ReplacedColumn(t, repl, c);
      }
    }
    r
  }

  /** The median of every column of `cols`, which all have values. */
  function Medians(t: Table, cols: set<string>): (m: map<string, real>)
    requires WellFormed(t) && cols <= t.columns && AllHaveMedians(t, cols)
    ensures m.Keys == cols
    ensures forall c :: c in cols ==> Median(NumValues(Column(t, c))) == Some(m[c])
  {
    assert forall c :: c in cols ==> Median(NumValues(Column(t, c))).Some? by {
      forall c | c in cols
        ensures Median(NumValues(Column(t, c))).Some?
      {
        assert HasMedian(t, c);
      }
    }
    map c | c in cols :: Median(NumValues(Column(t, c))).value
  }

  /** Filling the columns `cols` with their medians is the median fill of
      each of them. */
  lemma FilledWithMedians(t: Table, cols: set<string>)
    requires WellFormed(t) && cols <= t.columns && AllHaveMedians(t, cols)
    ensures forall c :: c in cols ==>
      && FillMedianColumn(Column(t, c)).Some?
      && Column(FillWithMedian(t, Medians(t, cols)), c) == FillMedianColumn(Column(t, c)).value
  {
    var r := FillWithMedian(t, Medians(t, cols));
    forall c | c in cols
      ensures FillMedianColumn(Column(t, c)).Some? && Column(r, c) == FillMedianColumn(Column(t, c)).value
    {
      assert HasMedian(t, c);
      MedianColumnFillsNulls(Column(t, c));
    }
  }

  /** The median branch: the medians of the columns `cols` are taken
      first, and filling with them is refused as soon as one is missing. */
  function MedianFill(t: Table, cols: set<string>): (r: Result<Table, CleanError>)
    requires WellFormed(t) && cols <= t.columns
    ensures r.Failure? <==> !AllHaveMedians(t, cols)
    ensures r.Failure? ==> r.error == NoFillValue
    ensures r.Success? ==>
      && WellFormed(r.value)
      && r.value.columns == t.columns
      && |r.value.rows| == |t.rows|
      && (forall i, c :: 0 <= i < |t.rows| && c in t.columns && c !in cols ==> r.value.rows[i][c] == t.rows[i][c])
      && (forall c :: c in cols ==>
            FillMedianColumn(Column(t, c)).Some? && Column(r.value, c) == FillMedianColumn(Column(t, c)).value)
  {
    if !AllHaveMedians(t, cols) then Failure(NoFillValue)
    else
      FilledWithMedians(t, cols);
      Success(FillWithMedian(t, Medians(t, cols)))
  }

  /** `_fill_missing`: with no declared numeric column present, or the method
      "none", the frame is returned as it is, whatever the method's name.
      Otherwise an unknown method fails; a present column declared twice
      fails; the median method fails when a present declared column has no
      value; and the two known methods rewrite exactly the declared numeric
      columns that are present. */
  function FillMissing(t: Table, fillMethod: string, numeric: seq<string>): (r: Result<Table, CleanError>)
    requires WellFormed(t)
    ensures PresentNumeric(numeric, t.columns) == {} || fillMethod == NoFillMethod ==> r == Success(t)
    ensures PresentNumeric(numeric, t.columns) != {} && fillMethod != NoFillMethod ==>
      (r.Failure? <==>
         || !KnownFillMethod(fillMethod)
         || RepeatsPresent(numeric, t.columns)
         || (fillMethod == MedianMethod && LacksMedian(t, numeric)))
    ensures r.Failure? ==>
      r.error == (if !KnownFillMethod(fillMethod) then UnknownFillMethod(fillMethod)
                  else if RepeatsPresent(numeric, t.columns) then DuplicateColumn
                  else NoFillValue)
    ensures r.Success? ==>
      && WellFormed(r.value)
      && r.value.columns == t.columns
      && |r.value.rows| == |t.rows|
      && (forall i, c :: 0 <= i < |t.rows| && c in t.columns && c !in numeric ==> r.value.rows[i][c] == t.rows[i][c])
    ensures r.Success? && fillMethod == FfillBfillMethod ==>
      forall c :: c in numeric && c in t.columns ==> Column(r.value, c) == FfillBfill(Column(t, c))
    ensures r.Success? && fillMethod == MedianMethod ==>
      forall c :: c in numeric && c in t.columns ==>
        FillMedianColumn(Column(t, c)).Some? && Column(r.value, c) == FillMedianColumn(Column(t, c)).value
  {
    var cols := PresentNumeric(numeric, t.columns);
    if cols == {} || fillMethod == NoFillMethod then Success(t)
    else if !KnownFillMethod(fillMethod) then Failure(UnknownFillMethod(fillMethod))
    else if RepeatsPresent(numeric, t.columns) then Failure(DuplicateColumn)
    else if fillMethod == MedianMethod then MedianFill(t, cols)
    else Success(FillForwardBackward(t, cols))
  }

  // ---------------------------------------------------------------------
  // What filling keeps and what it achieves, table-wide
  // ---------------------------------------------------------------------

  /** Forward-then-backward filling writes only copies of the column's own
      cells, so a bound all its floats met still holds. */
  lemma FfillBfillWithin(col: seq<Cell>, b: Bound)
    requires forall i :: 0 <= i < |col| && col[i].Num? ==> Admits(b, col[i].x)
    ensures forall i :: 0 <= i < |col| && FfillBfill(col)[i].Num? ==> Admits(b, FfillBfill(col)[i].x)
  {
    var r := FfillBfill(col);
    FfillBfillProperties(col);
    forall i | 0 <= i < |col| && r[i].Num?
      ensures Admits(b, r[i].x)
    {
      var j :| 0 <= j < |col| && r[i] == col[j];
    }
  }

  /** Median filling writes only the median of the column's floats, which
      lies between two of them. */
  lemma MedianFillWithin(col: seq<Cell>, b: Bound)
    requires forall i :: 0 <= i < |col| && col[i].Num? ==> Admits(b, col[i].x)
    ensures FillMedianColumn(col).Some? ==>
      forall i :: 0 <= i < |col| && FillMedianColumn(col).value[i].Num? ==> Admits(b, FillMedianColumn(col).value[i].x)
  {
    var vs := NumValues(col);
    if |vs| > 0 {
      forall k | 0 <= k < |vs|
        ensures Admits(b, vs[k])
      {
        assert Num(vs[k]) in col;
      }
      MedianWithin(vs, b);
    }
  }

  /** A column of a successful fill is the column itself, its
      forward-then-backward fill, or its median fill. */
  lemma FilledColumn(t: Table, fillMethod: string, numeric: seq<string>, c: string)
    requires WellFormed(t) && FillMissing(t, fillMethod, numeric).Success? && c in t.columns
    ensures var out := Column(FillMissing(t, fillMethod, numeric).value, c);
      || out == Column(t, c)
      || out == FfillBfill(Column(t, c))
      || (FillMedianColumn(Column(t, c)).Some? && out == FillMedianColumn(Column(t, c)).value)
  {
    var r := FillMissing(t, fillMethod, numeric).value;
    if c !in numeric {
      assert Column(r, c) == Column(t, c);
    }
  }

  /** Filling never moves a column's floats outside a bound they all met:
      the clipping and non-negativity of the earlier steps survive it. */
  lemma FillKeepsBounds(t: Table, fillMethod: string, numeric: seq<string>, c: string, b: Bound)
    requires WellFormed(t) && FillMissing(t, fillMethod, numeric).Success?
    requires NumsWithin(t, c, b)
    ensures NumsWithin(FillMissing(t, fillMethod, numeric).value, c, b)
  {
    var r := FillMissing(t, fillMethod, numeric).value;
    if c in t.columns {
      var col := Column(t, c);
      FilledColumn(t, fillMethod, numeric, c);
      FfillBfillWithin(col, b);
      MedianFillWithin(col, b);
      var out := Column(r, c);
      assert forall i :: 0 <= i < |out| && out[i].Num? ==> Admits(b, out[i].x);
      forall i | 0 <= i < |r.rows| && c in r.rows[i] && r.rows[i][c].Num?
        ensures Admits(b, r.rows[i][c].x)
      {
        assert r.rows[i][c] == out[i];
      }
    }
  }

  lemma FfillBfillGapless(col: seq<Cell>)
    ensures Gapless(FfillBfill(col))
  {
    FfillBfillProperties(col);
  }

  /** A median fill that succeeds leaves no null. */
  lemma MedianFillLeavesNoNull(col: seq<Cell>)
    ensures FillMedianColumn(col).Some? ==> forall i :: 0 <= i < |col| ==> !FillMedianColumn(col).value[i].Null?
  {
  }

  /** With a known method every declared numeric column that is present ends
      gap-free: forward-then-backward filling leaves it with no null or, when
      it had no value to fill from, all null; a median fill that succeeds
      leaves no null at all. */
  lemma FillLeavesNoGaps(t: Table, fillMethod: string, numeric: seq<string>, c: string)
    requires WellFormed(t) && FillMissing(t, fillMethod, numeric).Success?
    requires KnownFillMethod(fillMethod) && c in numeric && c in t.columns
    ensures NoPartialNulls(FillMissing(t, fillMethod, numeric).value, c)
    ensures fillMethod == MedianMethod ==> NoNulls(FillMissing(t, fillMethod, numeric).value, c)
  {
    var r := FillMissing(t, fillMethod, numeric).value;
    var col := Column(t, c);
    var out := Column(r, c);
    if fillMethod == FfillBfillMethod {
      FfillBfillGapless(col);
    } else {
      MedianFillLeavesNoNull(col);
      assert forall i :: 0 <= i < |out| ==> !out[i].Null?;
    }
    assert Gapless(out);
  }

  lemma FfillBfillNoInts(col: seq<Cell>)
    requires forall i :: 0 <= i < |col| ==> !col[i].Int?
    ensures forall i :: 0 <= i < |col| ==> !FfillBfill(col)[i].Int?
  {
    FfillBfillProperties(col);
    forall i | 0 <= i < |col|
      ensures !FfillBfill(col)[i].Int?
    {
      var j :| 0 <= j < |col| && FfillBfill(col)[i] == col[j];
    }
  }

  lemma MedianFillNoInts(col: seq<Cell>)
    requires forall i :: 0 <= i < |col| ==> !col[i].Int?
    ensures FillMedianColumn(col).Some? ==> forall i :: 0 <= i < |col| ==> !FillMedianColumn(col).value[i].Int?
  {
  }

  lemma FfillBfillNumOrNull(col: seq<Cell>)
    requires forall i :: 0 <= i < |col| ==> col[i].Num? || col[i].Null?
    ensures forall i :: 0 <= i < |col| ==> FfillBfill(col)[i].Num? || FfillBfill(col)[i].Null?
  {
    FfillBfillProperties(col);
    forall i | 0 <= i < |col|
      ensures FfillBfill(col)[i].Num? || FfillBfill(col)[i].Null?
    {
      var j :| 0 <= j < |col| && FfillBfill(col)[i] == col[j];
    }
  }

  lemma MedianFillNumOrNull(col: seq<Cell>)
    requires forall i :: 0 <= i < |col| ==> col[i].Num? || col[i].Null?
    ensures FillMedianColumn(col).Some? ==>
      forall i :: 0 <= i < |col| ==> FillMedianColumn(col).value[i].Num? || FillMedianColumn(col).value[i].Null?
  {
  }

  /** Filling copies cells or writes floats, so a column of floats and
      nulls keeps holding only floats and nulls. */
  lemma FillKeepsNumOrNull(t: Table, fillMethod: string, numeric: seq<string>, c: string)
    requires WellFormed(t) && FillMissing(t, fillMethod, numeric).Success?
    requires NumOrNull(t, c)
    ensures NumOrNull(FillMissing(t, fillMethod, numeric).value, c)
  {
    var r := FillMissing(t, fillMethod, numeric).value;
    if c in t.columns {
      var col := Column(t, c);
      assert forall i :: 0 <= i < |col| ==> col[i].Num? || col[i].Null?;
      FilledColumn(t, fillMethod, numeric, c);
      FfillBfillNumOrNull(col);
      MedianFillNumOrNull(col);
      var out := Column(r, c);
      assert forall i :: 0 <= i < |out| ==> out[i].Num? || out[i].Null?;
      forall i | 0 <= i < |r.rows| && c in r.rows[i]
        ensures r.rows[i][c].Num? || r.rows[i][c].Null?
      {
        assert r.rows[i][c] == out[i];
      }
    }
  }

  /** Filling copies cells or writes floats, so a column without integer
      cells gains none. */
  lemma FillKeepsNoInts(t: Table, fillMethod: string, numeric: seq<string>, c: string)
    requires WellFormed(t) && FillMissing(t, fillMethod, numeric).Success?
    requires NoInts(t, c)
    ensures NoInts(FillMissing(t, fillMethod, numeric).value, c)
  {
    var r := FillMissing(t, fillMethod, numeric).value;
    if c in t.columns {
      var col := Column(t, c);
      assert forall i :: 0 <= i < |col| ==> !col[i].Int?;
      FilledColumn(t, fillMethod, numeric, c);
      FfillBfillNoInts(col);
      MedianFillNoInts(col);
      var out := Column(r, c);
      assert forall i :: 0 <= i < |out| ==> !out[i].Int?;
      forall i | 0 <= i < |r.rows| && c in r.rows[i]
        ensures !r.rows[i][c].Int?
      {
        assert r.rows[i][c] == out[i];
      }
    }
  }

  lemma MedianOfOneAndZero()
    ensures Median([1.0, 0.0]) == Some(0.5)
  {
    assert Insert(1.0, [0.0]) == [0.0, 1.0];
    assert Sort([1.0, 0.0]) == [0.0, 1.0];
  }

  /** Readings 1, 0 and a gap: the gap receives their mean. */
  lemma MedianFillExample(col: seq<Cell>)
    requires col == [Num(1.0), Num(0.0), Null]
    ensures FillMedianColumn(col) == Some([Num(1.0), Num(0.0), Num(0.5)])
  {
    NumValuesExample(col);
    MedianOfOneAndZero();
    assert Median(NumValues(col)) == Some(0.5);
    assert FillMedianColumn(col) == Some(FillNulls(col, Num(0.5)));
    assert FillNulls(col[2..], Num(0.5)) == [Num(0.5)];
    assert FillNulls(col[1..], Num(0.5)) == [Num(0.0), Num(0.5)];
    assert FillNulls(col, Num(0.5)) == [Num(1.0), Num(0.0), Num(0.5)];
  }

  lemma NumValuesExample(col: seq<Cell>)
    requires col == [Num(1.0), Num(0.0), Null]
    ensures NumValues(col) == [1.0, 0.0]
  {
    assert NumValues(col[2..]) == [];
    assert NumValues(col[1..]) == [0.0] + NumValues(col[2..]);
  }
}
