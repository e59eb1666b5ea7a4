/** The column-wise cleaning steps: renaming, lenient numeric coercion,
    clipping to plausible ranges, and the non-negative rate-of-penetration
    rule. */
module Columns {
  import opened Telemetry
  import opened Config
  import Timestamps

  // ---------------------------------------------------------------------
  // Renaming
  // ---------------------------------------------------------------------

  /** The name column `c` carries after renaming with `m`. */
  function NewName(m: map<string, string>, c: string): string {
    if c in m then m[c] else c
  }

  /** Two distinct columns would end up with one name. */
  predicate Collides(m: map<string, string>, cols: set<string>) {
    exists a, b :: a in cols && b in cols && a != b && NewName(m, a) == NewName(m, b)
  }

  function RenamedColumns(m: map<string, string>, cols: set<string>): set<string> {
    set c | c in cols :: NewName(m, c)
  }

  function RenameRow(row: Row, m: map<string, string>): (r: Row)
    requires !Collides(m, row.Keys)
    ensures r.Keys == RenamedColumns(m, row.Keys)
    ensures forall c :: c in row ==> r[NewName(m, c)] == row[c]
  {
    map c | c in row :: NewName(m, c) := row[c]
  }

  /** `_rename_columns`: an empty map returns the frame as it is; entries
      naming absent columns are ignored (the code only logs them); the
      renaming is simultaneous and fails when two columns would share a name. */
  function Rename(t: Table, m: map<string, string>): (r: Result<Table, CleanError>)
    requires WellFormed(t)
    ensures |m| == 0 ==> r == Success(t)
    ensures r.Failure? <==> Collides(m, t.columns)
    ensures r.Failure? ==> r.error == DuplicateColumn
    ensures r.Success? ==>
      && WellFormed(r.value)
      && r.value.columns == RenamedColumns(m, t.columns)
      && |r.value.rows| == |t.rows|
      && (forall i, c :: 0 <= i < |t.rows| && c in t.columns ==> r.value.rows[i][NewName(m, c)] == t.rows[i][c])
  {
    if |m| == 0 then Success(t)
    else if Collides(m, t.columns) then Failure(DuplicateColumn)
    else Success(Table(RenamedColumns(m, t.columns),
                       seq(|t.rows|, i requires 0 <= i < |t.rows| => RenameRow(t.rows[i], m))))
  }

  /** A rename map none of whose sources is present changes nothing. */
  lemma {:induction false} RenameAbsentSourcesIsIdentity(t: Table, m: map<string, string>)
    requires WellFormed(t)
    requires forall k :: k in m ==> k !in t.columns
    ensures Rename(t, m) == Success(t)
  {
    assert forall c :: c in t.columns ==> NewName(m, c) == c;
    assert !Collides(m, t.columns);
    if |m| > 0 {
      var r := Rename(t, m).value;
      assert r.columns == t.columns;
      forall i | 0 <= i < |t.rows|
        ensures r.rows[i] == t.rows[i]
      {
        assert r.rows[i].Keys == t.rows[i].Keys;
        forall c | c in t.rows[i]
          ensures r.rows[i][c] == t.rows[i][c]
        {
          assert NewName(m, c) == c;
        }
      }
      assert r.rows == t.rows;
    }
  }

  /** `inv` undoes the part of `m` that applies to `cols`. */
  predicate Undoes(inv: map<string, string>, m: map<string, string>, cols: set<string>) {
    && (forall k :: k in m && k in cols ==> m[k] in inv && inv[m[k]] == k)
    && (forall v :: v in inv ==> exists k :: k in m && k in cols && m[k] == v)
  }

  lemma LeftInverse(m: map<string, string>, inv: map<string, string>, cols: set<string>)
    requires !Collides(m, cols) && Undoes(inv, m, cols)
    ensures forall c :: c in cols ==> NewName(inv, NewName(m, c)) == c
  {
    forall c | c in cols
      ensures NewName(inv, NewName(m, c)) == c
    {
      if c !in m && c in inv {
        var k :| k in m && k in cols && m[k] == c;
        assert NewName(m, k) == NewName(m, c);
      }
    }
  }

  lemma InverseDoesNotCollide(m: map<string, string>, inv: map<string, string>, cols: set<string>)
    requires !Collides(m, cols) && Undoes(inv, m, cols)
    ensures !Collides(inv, RenamedColumns(m, cols))
    ensures RenamedColumns(inv, RenamedColumns(m, cols)) == cols
  {
    LeftInverse(m, inv, cols);
    var image := RenamedColumns(m, cols);
    forall a, b | a in image && b in image && NewName(inv, a) == NewName(inv, b)
      ensures a == b
    {
      var a0 :| a0 in cols && NewName(m, a0) == a;
      var b0 :| b0 in cols && NewName(m, b0) == b;
    }
    forall c | c in cols
      ensures c in RenamedColumns(inv, image)
    {
      assert NewName(m, c) in image;
    }
  }

  lemma RenameRowRoundTrip(row: Row, m: map<string, string>, inv: map<string, string>)
    requires !Collides(m, row.Keys) && Undoes(inv, m, row.Keys)
    ensures !Collides(inv, RenameRow(row, m).Keys)
    ensures RenameRow(RenameRow(row, m), inv) == row
  {
    InverseDoesNotCollide(m, inv, row.Keys);
    LeftInverse(m, inv, row.Keys);
    var there := RenameRow(row, m);
    var back := RenameRow(there, inv);
    forall c | c in row
      ensures back[c] == row[c]
    {
      assert back[NewName(inv, NewName(m, c))] == there[NewName(m, c)];
    }
  }

  /** Renaming back with the inverse map restores the frame. */
  lemma {:induction false} RenameRoundTrip(t: Table, m: map<string, string>, inv: map<string, string>)
    requires WellFormed(t)
    requires Rename(t, m).Success?
    requires Undoes(inv, m, t.columns)
    ensures Rename(Rename(t, m).value, inv) == Success(t)
  {
    var r := Rename(t, m).value;
    InverseDoesNotCollide(m, inv, t.columns);
    if |m| == 0 {
      assert |inv| == 0;
    } else if |inv| == 0 {
      RenameAbsentSourcesIsIdentity(t, m);
    } else {
      var back := Rename(r, inv).value;
      forall i | 0 <= i < |t.rows|
        ensures back.rows[i] == t.rows[i]
      {
        RenameRowRoundTrip(t.rows[i], m, inv);
      }
      assert back.rows == t.rows;
    }
  }

  // ---------------------------------------------------------------------
  // Numeric coercion
  // ---------------------------------------------------------------------

  /** A lenient cast to a float: text that does not parse becomes null, it
      never fails. */
  function CastFloat64(c: Cell, p: Parsers): (r: Cell)
    ensures r.Null? || r.Num?
    ensures c.Null? ==> r == Null
    ensures c.Num? ==> r == c
    ensures c.Int? ==> r == Num(c.i as real)
    ensures c.Time? ==> r == Num(c.micros as real)
    ensures c.Str? ==> (r.Null? <==> p.float64(c.s).None?)
    ensures c.Str? && r.Num? ==> p.float64(c.s) == Some(r.x)
  {
    match c
    case Null => Null
    case Int(i) => Num(i as real)
    case Num(x) => c
    case Str(s) => (match p.float64(s) case Some(x) => Num(x) case None => Null)
    case Time(m) => Num(m as real)
  }

  /** A declared numeric column that is present is listed more than once;
      the library then refuses the duplicate output name. */
  predicate RepeatsPresent(numeric: seq<string>, cols: set<string>) {
    exists i, j :: 0 <= i < j < |numeric| && numeric[i] == numeric[j] && numeric[i] in cols
  }

  /** `_coerce_numeric`: only the declared numeric columns that are present
      are cast; every other column and cell is untouched. */
  function Coerce(t: Table, numeric: seq<string>, p: Parsers): (r: Result<Table, CleanError>)
    requires WellFormed(t)
    ensures r.Failure? <==> RepeatsPresent(numeric, t.columns)
    ensures r.Failure? ==> r.error == DuplicateColumn
    ensures r.Success? ==>
      && WellFormed(r.value)
      && r.value.columns == t.columns
      && |r.value.rows| == |t.rows|
      && (forall c :: c in numeric && c in t.columns ==> NumOrNull(r.value, c))
      && (forall i, c :: 0 <= i < |t.rows| && c in t.columns && c in numeric ==>
            r.value.rows[i][c] == CastFloat64(t.rows[i][c], p))
      && (forall i, c :: 0 <= i < |t.rows| && c in t.columns && c !in numeric ==>
            r.value.rows[i][c] == t.rows[i][c])
  {
    if RepeatsPresent(numeric, t.columns) then Failure(DuplicateColumn)
    else Success(MapCells(t, set c | c in numeric, (c: string, cell: Cell) => CastFloat64(cell, p)))
  }

  /** Coercing an already coerced frame changes nothing. */
  lemma {:induction false} CoerceIdempotent(t: Table, numeric: seq<string>, p: Parsers)
    requires WellFormed(t) && Coerce(t, numeric, p).Success?
    ensures Coerce(Coerce(t, numeric, p).value, numeric, p) == Coerce(t, numeric, p)
  {
    var once := Coerce(t, numeric, p).value;
    var twice := Coerce(once, numeric, p).value;
    forall i | 0 <= i < |t.rows|
      ensures twice.rows[i] == once.rows[i]
    {
      forall c | c in once.rows[i]
        ensures twice.rows[i][c] == once.rows[i][c]
      {
        if c in numeric {
          assert once.rows[i][c].Num? || once.rows[i][c].Null?;
        }
      }
    }
    assert twice.rows == once.rows;
  }

  // ---------------------------------------------------------------------
  // Clipping
  // ---------------------------------------------------------------------

  function Min(a: real, b: real): real {
    if a <= b then a else b
  }

  function Max(a: real, b: real): real {
    if a >= b then a else b
  }

  /** `clip_min(lo)` then `clip_max(hi)`. When `lo > hi` every value ends at
      `hi`, since the upper clip runs last. */
  function ClipValue(v: real, lo: real, hi: real): (w: real)
    ensures lo <= hi ==> lo <= w <= hi
    ensures lo <= v <= hi ==> w == v
    ensures v < lo ==> w == Min(lo, hi)
    ensures hi < v ==> w == hi
    ensures hi < lo ==> w == hi
  {
    Min(Max(v, lo), hi)
  }

  /** `clip_min(lo)` then `clip_max(hi)` on a 64-bit integer column: the
      library first casts the float bounds to the column's type, truncating
      them toward zero. */
  function ClipInt(v: int, lo: real, hi: real): (w: int)
    ensures Timestamps.Truncate(lo) <= Timestamps.Truncate(hi) ==>
      Timestamps.Truncate(lo) <= w <= Timestamps.Truncate(hi)
    ensures Timestamps.Truncate(lo) <= v <= Timestamps.Truncate(hi) ==> w == v
    ensures v < Timestamps.Truncate(lo) ==> w == MinInt(Timestamps.Truncate(lo), Timestamps.Truncate(hi))
    ensures Timestamps.Truncate(hi) < v ==> w == Timestamps.Truncate(hi)
    ensures Timestamps.Truncate(hi) < Timestamps.Truncate(lo) ==> w == Timestamps.Truncate(hi)
  {
    MinInt(MaxInt(v, Timestamps.Truncate(lo)), Timestamps.Truncate(hi))
  }

  /** Clipping acts on float and integer cells and keeps their kind; nulls
      and every other cell stay as they are. */
  function ClipCell(c: Cell, lo: real, hi: real): (r: Cell)
    ensures c.Num? <==> r.Num?
    ensures c.Int? <==> r.Int?
    ensures c.Num? ==> r.x == ClipValue(c.x, lo, hi)
    ensures c.Int? ==> r.i == ClipInt(c.i, lo, hi)
    ensures !c.Num? && !c.Int? ==> r == c
  {
    match c
    case Num(x) => Num(ClipValue(x, lo, hi))
    case Int(i) => Int(ClipInt(i, lo, hi))
    case _ => c
  }

  /** `_clip_ranges`: every configured column that is present is clipped;
      configured columns that are absent are skipped. */
  function Clip(t: Table, ranges: map<string, (real, real)>): (r: Table)
    requires WellFormed(t)
    ensures WellFormed(r) && r.columns == t.columns && |r.rows| == |t.rows|
    ensures forall i, c :: 0 <= i < |t.rows| && c in t.columns && c in ranges ==>
      r.rows[i][c] == ClipCell(t.rows[i][c], ranges[c].0, ranges[c].1)
    ensures forall i, c :: 0 <= i < |t.rows| && c in t.columns && c !in ranges ==>
      r.rows[i][c] == t.rows[i][c]
    ensures forall c :: c in ranges && ranges[c].0 <= ranges[c].1 ==>
      NumsWithin(r, c, Bound(ranges[c].0, Some(ranges[c].1)))
  {
    MapCells(t, ranges.Keys, (c: string, cell: Cell) =>
      if c in ranges then ClipCell(cell, ranges[c].0, ranges[c].1) else cell)
  }

  /** Clipping twice is clipping once, whatever the bounds. */
  lemma {:induction false} ClipIdempotent(t: Table, ranges: map<string, (real, real)>)
    requires WellFormed(t)
    ensures Clip(Clip(t, ranges), ranges) == Clip(t, ranges)
  {
    var once := Clip(t, ranges);
    var twice := Clip(once, ranges);
    forall i | 0 <= i < |t.rows|
      ensures twice.rows[i] == once.rows[i]
    {
      forall c | c in once.rows[i]
        ensures twice.rows[i][c] == once.rows[i][c]
      {
        if c in ranges && once.rows[i][c].Num? {
          var (lo, hi) := ranges[c];
          var v := t.rows[i][c].x;
          assert once.rows[i][c].x == ClipValue(v, lo, hi);
        } else if c in ranges && once.rows[i][c].Int? {
          var (lo, hi) := ranges[c];
          var v := t.rows[i][c].i;
          assert once.rows[i][c].i == ClipInt(v, lo, hi);
        }
      }
    }
    assert twice.rows == once.rows;
  }

  // ---------------------------------------------------------------------
  // Non-negative rate of penetration
  // ---------------------------------------------------------------------

  /** The rule is tied to the column literally named "rop". */
  const Rop: string := "rop"

  /** `when(rop < 0).then(0.0).otherwise(rop)`: a negative number becomes
      0.0, and since the literal is a float an integer column comes out as
      floats; nulls compare as unknown and stay null. */
  function ZeroNegative(c: Cell): (r: Cell)
    ensures c.Num? || c.Int? ==> r.Num? && r.x >= 0.0
    ensures c.Num? && c.x >= 0.0 ==> r == c
    ensures c.Int? && c.i >= 0 ==> r == Num(c.i as real)
    ensures (c.Num? && c.x < 0.0) || (c.Int? && c.i < 0) ==> r == Num(0.0)
    ensures !c.Num? && !c.Int? ==> r == c
  {
    match c
    case Num(x) => if x < 0.0 then Num(0.0) else c
    case Int(i) => if i < 0 then Num(0.0) else Num(i as real)
    case _ => c
  }

  /** Forces every number of the "rop" column to be a non-negative float;
      nulls and all other columns are unchanged. */
  function EnforceNonNegativeRop(t: Table): (r: Table)
    requires WellFormed(t)
    ensures WellFormed(r) && r.columns == t.columns && |r.rows| == |t.rows|
    ensures NumsWithin(r, Rop, Bound(0.0, None))
    ensures NoInts(r, Rop)
    ensures forall i :: 0 <= i < |t.rows| && Rop in t.columns ==> r.rows[i][Rop] == ZeroNegative(t.rows[i][Rop])
    ensures forall i, c :: 0 <= i < |t.rows| && c in t.columns && c != Rop ==>
      r.rows[i][c] == t.rows[i][c]
  {
    MapCells(t, {Rop}, (c: string, cell: Cell) => ZeroNegative(cell))
  }

  lemma TruncateMonotone(x: real, y: real)
    requires x <= y
    ensures Timestamps.Truncate(x) <= Timestamps.Truncate(y)
  {
  }

  /** Clipping to `[lo, hi]` and then the rule keep a number within the
      range when the range admits 0. An integer cell is clipped to the
      truncated bounds, so for it the lower bound must not be positive. */
  lemma RopRuleAfterClipWithin(c: Cell, lo: real, hi: real)
    requires lo <= hi && 0.0 <= hi
    requires c.Int? ==> lo <= 0.0
    ensures ZeroNegative(ClipCell(c, lo, hi)).Num? ==> Admits(Bound(lo, Some(hi)), ZeroNegative(ClipCell(c, lo, hi)).x)
  {
    if c.Int? {
      TruncateMonotone(lo, hi);
    }
  }
}
