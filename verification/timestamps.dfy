/** Resolution of the timestamp column to datetimes: ISO-8601 first, then
    an integer epoch value in seconds or milliseconds. */
module Timestamps {
  import opened Telemetry
  import opened Config

  /** Integers beyond this magnitude are read as epoch milliseconds. */
  const MillisThreshold: int := 10_000_000_000
  const MicrosPerSecond: int := 1_000_000
  const Int64Min: int := -0x8000_0000_0000_0000
  const Int64Max: int := 0x7FFF_FFFF_FFFF_FFFF

  function Abs(v: int): nat {
    if v < 0 then -v else v
  }

  /** The epoch heuristic: a nonzero value whose magnitude exceeds the
      threshold is milliseconds and is floor-divided by 1000; any other value
      is already seconds. Dafny's `/` by a positive divisor rounds toward
      negative infinity, as Python's `//` does. */
  function EpochSeconds(v: int): (s: int)
    ensures Abs(v) > MillisThreshold ==> s * 1000 <= v < s * 1000 + 1000
    ensures Abs(v) <= MillisThreshold ==> s == v
  {
    if v != 0 && Abs(v) > MillisThreshold then v / 1000 else v
  }

  /** Truncation toward zero, as a float-to-integer cast does. */
  function Truncate(x: real): (n: int)
    ensures x >= 0.0 ==> n as real <= x < n as real + 1.0
    ensures x < 0.0 ==> n as real - 1.0 < x <= n as real
  {
    if x >= 0.0 then x.Floor else -((-x).Floor)
  }

  /** A lenient cast to a 64-bit integer: null, unparsable text and floats
      out of range give `None`; a datetime gives its microsecond count. */
  function CastInt64(c: Cell, p: Parsers): (v: Option<int>)
    ensures c.Null? ==> v.None?
    ensures c.Int? ==> v == Some(c.i)
    ensures c.Str? ==> v == p.int64(c.s)
    ensures c.Num? ==> (v.Some? <==> Int64Min <= Truncate(c.x) <= Int64Max)
    ensures c.Num? && v.Some? ==> v.value == Truncate(c.x)
  {
    match c
    case Null => None
    case Int(i) => Some(i)
    case Num(x) => var n := Truncate(x); if Int64Min <= n <= Int64Max then Some(n) else None
    case Str(s) => p.int64(s)
    case Time(m) => Some(m)
  }

  /** The integer fallback: cast, apply the epoch heuristic, read as seconds. */
  function FromEpoch(c: Cell, p: Parsers): Option<int> {
    match CastInt64(c, p)
    case None => None
    case Some(v) => Some(EpochSeconds(v) * MicrosPerSecond)
  }

  predicate IsoParses(c: Cell, p: Parsers) {
    c.Str? && p.iso(c.s).Some?
  }

  /** One timestamp cell to microseconds since the epoch, or `None` when no
      scheme reads it. */
  function ResolveTimestamp(c: Cell, p: Parsers): (m: Option<int>)
    ensures c.Null? ==> m.None?
    ensures IsoParses(c, p) ==> m == p.iso(c.s)
    ensures !IsoParses(c, p) ==> (m.Some? <==> CastInt64(c, p).Some?)
    ensures !IsoParses(c, p) && m.Some? ==>
      && m.value % MicrosPerSecond == 0
      && var v := CastInt64(c, p).value;
      && var s := m.value / MicrosPerSecond;
      && (Abs(v) > MillisThreshold ==> s * 1000 <= v < s * 1000 + 1000)
      && (Abs(v) <= MillisThreshold ==> s == v)
  {
    if IsoParses(c, p) then p.iso(c.s) else FromEpoch(c, p)
  }

  /** Every cell of column `ts` resolves. */
  predicate AllResolve(t: Table, ts: string, p: Parsers) {
    forall i :: 0 <= i < |t.rows| && ts in t.rows[i] ==> ResolveTimestamp(t.rows[i][ts], p).Some?
  }

  /** `_ensure_timestamp`: fails when the column is absent or when any cell
      stays unresolved (there is no silent drop); otherwise every cell of the
      column becomes a datetime and nothing else changes. */
  function EnsureTimestamp(t: Table, ts: string, p: Parsers): (r: Result<Table, CleanError>)
    requires WellFormed(t)
    ensures ts !in t.columns ==> r == Failure(MissingTimestampColumn)
    ensures ts in t.columns ==> (r.Success? <==> AllResolve(t, ts, p))
    ensures ts in t.columns && r.Failure? ==> r.error == UnparsedTimestamp
    ensures r.Success? ==>
      && WellFormed(r.value)
      && r.value.columns == t.columns
      && |r.value.rows| == |t.rows|
      && (forall i :: 0 <= i < |t.rows| ==> r.value.rows[i][ts] == Time(ResolveTimestamp(t.rows[i][ts], p).value))
      && (forall i, c :: 0 <= i < |t.rows| && c in t.columns && c != ts ==> r.value.rows[i][c] == t.rows[i][c])
  {
    if ts !in t.columns then Failure(MissingTimestampColumn)
    else if !AllResolve(t, ts, p) then Failure(UnparsedTimestamp)
    else
      Success(MapCells(t, {ts}, (c: string, cell: Cell) =>
        match ResolveTimestamp(cell, p)
        case Some(m) => Time(m)
        case None => Null))
  }

  /** A null timestamp is a parse failure, never a gap left for filling. */
  lemma NullTimestampFails(t: Table, ts: string, p: Parsers, i: nat)
    requires WellFormed(t) && ts in t.columns
    requires i < |t.rows| && t.rows[i][ts].Null?
    ensures EnsureTimestamp(t, ts, p) == Failure(UnparsedTimestamp)
  {
    assert !ResolveTimestamp(t.rows[i][ts], p).Some?;
  }

  /** The heuristic reads one instant the same way whether it is written in
      seconds or in milliseconds, for every instant whose second count lies
      in (10^7, 10^10] in magnitude, roughly April 1970 to November 2286 and
      their mirror images before 1970. */
  lemma {:induction false} SecondsAndMillisAgree(s: int, ms: int)
    requires 10_000_000 < Abs(s) <= MillisThreshold
    requires 0 <= ms < 1000
    ensures EpochSeconds(s * 1000 + ms) == EpochSeconds(s)
  {
    var v := s * 1000 + ms;
    if s > 0 {
      assert v > MillisThreshold;
    } else {
      assert s * 1000 <= -10_000_001_000;
      assert v < -MillisThreshold;
    }
    assert Abs(v) > MillisThreshold;
    var q := EpochSeconds(v);
    assert q * 1000 <= v < q * 1000 + 1000;
    assert s * 1000 <= v < s * 1000 + 1000;
  }

  /** At or below the threshold a value is read as seconds unchanged, so a
      millisecond count from before late April 1970 is mistaken for seconds;
      above it the value is floored to whole seconds. */
  lemma EarlyMillisReadAsSeconds()
    ensures EpochSeconds(9_000_000_000) == 9_000_000_000
    ensures EpochSeconds(10_000_000_001) == 10_000_000
    ensures EpochSeconds(-10_000_000_001) == -10_000_001
  {
  }

  /** A mixed text column: an ISO string, a digit string of epoch
      milliseconds and one of epoch seconds resolve to three consecutive
      seconds. The digit strings are not ISO-8601, so they reach the integer
      cast. */
  lemma MixedFormatsResolve(p: Parsers)
    requires p.iso("2024-01-01T00:00:00Z") == Some(1704067200 * MicrosPerSecond)
    requires p.iso("1704067201000") == None && p.int64("1704067201000") == Some(1704067201000)
    requires p.iso("1704067202") == None && p.int64("1704067202") == Some(1704067202)
    ensures ResolveTimestamp(Str("2024-01-01T00:00:00Z"), p) == Some(1704067200 * MicrosPerSecond)
    ensures ResolveTimestamp(Str("1704067201000"), p) == Some(1704067201 * MicrosPerSecond)
    ensures ResolveTimestamp(Str("1704067202"), p) == Some(1704067202 * MicrosPerSecond)
  {
  }
}
