/** Cells, rows and frames of drilling telemetry, the failure-carrying result
    the cleaning steps return, and column-wise views and updates of a frame.

    A frame is a set of column names plus a sequence of rows; every row maps
    exactly the frame's column names to cells. Keeping the column set apart
    from the rows lets an empty frame still have columns, as a dataframe does. */
module Telemetry {

  datatype Option<+T> = None | Some(value: T)

  /** A value or an error; usable with `:-`. */
  datatype Result<+T, +E> = Success(value: T) | Failure(error: E) {

    predicate IsFailure() {
      Failure?
    }

    function PropagateFailure<U>(): Result<U, E>
      requires Failure?
    {
      Failure(error)
    }

    function Extract(): T
      requires Success?
    {
      value
    }
  }

  /** One cell: a null, a 64-bit integer, a float (a real here; rounding is
      not modelled), a string, or a datetime counted in microseconds since the
      Unix epoch. */
  datatype Cell = Null | Int(i: int) | Num(x: real) | Str(s: string) | Time(micros: int)

  function MinInt(a: int, b: int): int {
    if a <= b then a else b
  }

  function MaxInt(a: int, b: int): int {
    if a >= b then a else b
  }

  type Row = map<string, Cell>

  datatype Table = Table(columns: set<string>, rows: seq<Row>)

  predicate WellFormed(t: Table) {
    forall i :: 0 <= i < |t.rows| ==> t.rows[i].Keys == t.columns
  }

  /** The cells of column `c`, top to bottom. */
  function Column(t: Table, c: string): (col: seq<Cell>)
    requires WellFormed(t) && c in t.columns
    ensures |col| == |t.rows|
    ensures forall i :: 0 <= i < |col| ==> col[i] == t.rows[i][c]
  {
    seq(|t.rows|, i requires 0 <= i < |t.rows| => t.rows[i][c])
  }

  /** Rewrites, cell by cell, the columns named in `cs`; all other cells and
      the row count stay as they are. */
  function MapCells(t: Table, cs: set<string>, f: (string, Cell) -> Cell): (r: Table)
    ensures r.columns == t.columns && |r.rows| == |t.rows|
    ensures forall i :: 0 <= i < |r.rows| ==> r.rows[i].Keys == t.rows[i].Keys
    ensures forall i, c :: 0 <= i < |r.rows| && c in t.rows[i] && c in cs ==> r.rows[i][c] == f(c, t.rows[i][c])
    ensures forall i, c :: 0 <= i < |r.rows| && c in t.rows[i] && c !in cs ==> r.rows[i][c] == t.rows[i][c]
    ensures WellFormed(t) ==> WellFormed(r)
  {
    Table(t.columns, seq(|t.rows|, i requires 0 <= i < |t.rows| =>
      map c | c in t.rows[i] :: if c in cs then f(c, t.rows[i][c]) else t.rows[i][c]))
  }

  /** Replaces whole columns: column `c` of the result is `repl[c]` when `c` is
      a key of `repl`, and the old column otherwise. */
  function ReplaceColumns(t: Table, repl: map<string, seq<Cell>>): (r: Table)
    requires forall c :: c in repl ==> |repl[c]| == |t.rows|
    ensures r.columns == t.columns && |r.rows| == |t.rows|
    ensures forall i :: 0 <= i < |r.rows| ==> r.rows[i].Keys == t.rows[i].Keys
    ensures forall i, c :: 0 <= i < |r.rows| && c in t.rows[i] && c in repl ==> r.rows[i][c] == repl[c][i]
    ensures forall i, c :: 0 <= i < |r.rows| && c in t.rows[i] && c !in repl ==> r.rows[i][c] == t.rows[i][c]
    ensures WellFormed(t) ==> WellFormed(r)
  {
    Table(t.columns, seq(|t.rows|, i requires 0 <= i < |t.rows| =>
      map c | c in t.rows[i] :: if c in repl then repl[c][i] else t.rows[i][c]))
  }

  /** A lower bound and an optional upper bound on the float cells of a column. */
  datatype Bound = Bound(lo: real, hi: Option<real>)

  predicate Admits(b: Bound, v: real) {
    b.lo <= v && (b.hi.Some? ==> v <= b.hi.value)
  }

  /** Every float cell of column `c` lies within `b`. */
  predicate NumsWithin(t: Table, c: string, b: Bound) {
    forall i :: 0 <= i < |t.rows| && c in t.rows[i] && t.rows[i][c].Num? ==> Admits(b, t.rows[i][c].x)
  }

  /** Column `c` holds only floats and nulls. */
  predicate NumOrNull(t: Table, c: string) {
    forall i :: 0 <= i < |t.rows| && c in t.rows[i] ==> t.rows[i][c].Num? || t.rows[i][c].Null?
  }

  /** Column `c` has no null cell. */
  predicate NoNulls(t: Table, c: string) {
    forall i :: 0 <= i < |t.rows| && c in t.rows[i] ==> !t.rows[i][c].Null?
  }

  /** Column `c` has no integer cell. */
  predicate NoInts(t: Table, c: string) {
    forall i :: 0 <= i < |t.rows| && c in t.rows[i] ==> !t.rows[i][c].Int?
  }

  /** A column of cells that is all null or has no null. */
  predicate Gapless(col: seq<Cell>) {
    (forall i :: 0 <= i < |col| ==> col[i].Null?) || (forall i :: 0 <= i < |col| ==> !col[i].Null?)
  }

  /** Column `c` of the frame is gapless. */
  predicate NoPartialNulls(t: Table, c: string)
    requires WellFormed(t) && c in t.columns
  {
    Gapless(Column(t, c))
  }
}
