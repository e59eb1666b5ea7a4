/** De-duplication by timestamp (last row wins) and sorting by timestamp. */
module Dedup {
  import opened Telemetry

  /** The timestamp cell of a row; null for a row without the column, which
      a well-formed frame that passed the timestamp step never has. */
  function TimeOf(row: Row, ts: string): Cell {
    if ts in row then row[ts] else Null
  }

  /** No later row shares row `i`'s timestamp. */
  predicate IsLastOfItsTime(rows: seq<Row>, ts: string, i: nat)
    requires i < |rows|
  {
    forall j :: i < j < |rows| ==> TimeOf(rows[j], ts) != TimeOf(rows[i], ts)
  }

  /** No two rows share a timestamp. */
  predicate DistinctTimes(rows: seq<Row>, ts: string) {
    forall i, j :: 0 <= i < j < |rows| ==> TimeOf(rows[i], ts) != TimeOf(rows[j], ts)
  }

  /** The order the sort uses: a datetime by its microsecond count, a number
      by its value. Other cells do not occur in a parsed timestamp column. */
  function TimeKey(c: Cell): real {
    match c
    case Time(m) => m as real
    case Num(x) => x
    case Int(i) => i as real
    case _ => 0.0
  }

  function KeyOf(row: Row, ts: string): real {
    TimeKey(TimeOf(row, ts))
  }

  predicate SortedByTime(rows: seq<Row>, ts: string) {
    forall i, j :: 0 <= i < j < |rows| ==> KeyOf(rows[i], ts) <= KeyOf(rows[j], ts)
  }

  // ---------------------------------------------------------------------
  // Keep the last row of each timestamp
  // ---------------------------------------------------------------------

  /** The positions from `i` on whose row is the last of its timestamp, in
      increasing order. */
  function SurvivorsFrom(rows: seq<Row>, ts: string, i: nat): (idx: seq<nat>)
    requires i <= |rows|
    ensures forall k :: 0 <= k < |idx| ==> i <= idx[k] < |rows| && IsLastOfItsTime(rows, ts, idx[k])
    ensures forall a, b :: 0 <= a < b < |idx| ==> idx[a] < idx[b]
    ensures forall j :: i <= j < |rows| && IsLastOfItsTime(rows, ts, j) ==> j in idx
    decreases |rows| - i
  {
    if i == |rows| then []
    else if IsLastOfItsTime(rows, ts, i) then [i] + SurvivorsFrom(rows, ts, i + 1)
    else SurvivorsFrom(rows, ts, i + 1)
  }

  /** `x` is the last row of its timestamp in `rows`. */
  predicate IsSurvivor(rows: seq<Row>, ts: string, x: Row) {
    exists i :: 0 <= i < |rows| && x == rows[i] && IsLastOfItsTime(rows, ts, i)
  }

  function Pick(rows: seq<Row>, idx: seq<nat>): (r: seq<Row>)
    requires forall k :: 0 <= k < |idx| ==> idx[k] < |rows|
    ensures |r| == |idx|
    ensures forall k :: 0 <= k < |idx| ==> r[k] == rows[idx[k]]
  {
    seq(|idx|, k requires 0 <= k < |idx| => rows[idx[k]])
  }

  lemma SurvivorsFit(rows: seq<Row>, ts: string)
    ensures |SurvivorsFrom(rows, ts, 0)| <= |rows|
  {
    var idx := SurvivorsFrom(rows, ts, 0);
    if |idx| > |rows| {
      IncreasingAtLeastPosition(idx, |rows|);
    }
  }

  lemma PickedSurvivors(rows: seq<Row>, ts: string)
    ensures var r := Pick(rows, SurvivorsFrom(rows, ts, 0));
      && DistinctTimes(r, ts)
      && (forall x :: x in r <==> IsSurvivor(rows, ts, x))
  {
    var idx := SurvivorsFrom(rows, ts, 0);
    var r := Pick(rows, idx);
    forall a, b | 0 <= a < b < |r|
      ensures TimeOf(r[a], ts) != TimeOf(r[b], ts)
    {
      assert idx[a] < idx[b] && IsLastOfItsTime(rows, ts, idx[a]);
    }
    forall x
      ensures x in r <==> IsSurvivor(rows, ts, x)
    {
      if x in r {
        var k :| 0 <= k < |r| && r[k] == x;
        assert x == rows[idx[k]] && IsLastOfItsTime(rows, ts, idx[k]);
      }
      if IsSurvivor(rows, ts, x) {
        var i :| 0 <= i < |rows| && x == rows[i] && IsLastOfItsTime(rows, ts, i);
        var k :| 0 <= k < |idx| && idx[k] == i;
        assert r[k] == x;
      }
    }
  }

  /** `unique(subset=[ts], keep="last")`: the rows that are the last of their
      timestamp, and only those. The library promises no order for the
      survivors; this model keeps them in input order, and the contract says
      only which rows survive. */
  function KeepLast(rows: seq<Row>, ts: string): (r: seq<Row>)
    ensures |r| <= |rows|
    ensures DistinctTimes(r, ts)
    ensures forall x :: x in r <==> IsSurvivor(rows, ts, x)
  {
    SurvivorsFit(rows, ts);
    PickedSurvivors(rows, ts);
    Pick(rows, SurvivorsFrom(rows, ts, 0))
  }

  lemma {:induction false} IncreasingAtLeastPosition(idx: seq<nat>, k: nat)
    requires forall a, b :: 0 <= a < b < |idx| ==> idx[a] < idx[b]
    requires k < |idx|
    ensures k <= idx[k]
  {
    if k > 0 {
      IncreasingAtLeastPosition(idx, k - 1);
    }
  }

  /** The position of the last row sharing row `i`'s timestamp. */
  function LastIndexOfTime(rows: seq<Row>, ts: string, i: nat): (k: nat)
    requires i < |rows|
    ensures i <= k < |rows| && TimeOf(rows[k], ts) == TimeOf(rows[i], ts)
    ensures IsLastOfItsTime(rows, ts, k)
    decreases |rows| - i
  {
    if exists j :: i < j < |rows| && TimeOf(rows[j], ts) == TimeOf(rows[i], ts) then
      var j :| i < j < |rows| && TimeOf(rows[j], ts) == TimeOf(rows[i], ts);
      LastIndexOfTime(rows, ts, j)
    else i
  }

  /** Each timestamp of the input keeps exactly one row, and it is that
      timestamp's last row in input order. */
  lemma KeepLastSurvivor(rows: seq<Row>, ts: string, i: nat)
    requires i < |rows|
    ensures var k := LastIndexOfTime(rows, ts, i);
      && rows[k] in KeepLast(rows, ts)
      && forall x :: x in KeepLast(rows, ts) && TimeOf(x, ts) == TimeOf(rows[i], ts) ==> x == rows[k]
  {
    var r := KeepLast(rows, ts);
    var k := LastIndexOfTime(rows, ts, i);
    assert IsSurvivor(rows, ts, rows[k]);
    forall x | x in r && TimeOf(x, ts) == TimeOf(rows[i], ts)
      ensures x == rows[k]
    {
      var i' :| 0 <= i' < |rows| && x == rows[i'] && IsLastOfItsTime(rows, ts, i');
      if i' < k {
        assert TimeOf(rows[k], ts) == TimeOf(rows[i'], ts);
      } else if k < i' {
        assert TimeOf(rows[i'], ts) == TimeOf(rows[k], ts);
      }
    }
  }

  // ---------------------------------------------------------------------
  // Sort by timestamp
  // ---------------------------------------------------------------------

  function InsertByTime(x: Row, s: seq<Row>, ts: string): (r: seq<Row>)
    requires SortedByTime(s, ts)
    ensures |r| == |s| + 1
    ensures SortedByTime(r, ts)
    ensures multiset(r) == multiset(s) + multiset{x}
    ensures forall k :: 0 <= k < |r| ==> r[k] == x || r[k] in s
  {
    if |s| == 0 || KeyOf(x, ts) <= KeyOf(s[0], ts) then [x] + s
    else
      var rest := InsertByTime(x, s[1..], ts);
      assert forall k :: 0 <= k < |rest| ==> KeyOf(s[0], ts) <= KeyOf(rest[k], ts) by {
        forall k | 0 <= k < |rest|
          ensures KeyOf(s[0], ts) <= KeyOf(rest[k], ts)
        {
          if rest[k] != x {
            var j :| 0 <= j < |s[1..]| && s[1..][j] == rest[k];
            assert s[j + 1] == rest[k];
          }
        }
      }
      assert s == [s[0]] + s[1..];
      [s[0]] + rest
  }

  lemma {:induction false} InsertKeepsDistinct(x: Row, s: seq<Row>, ts: string)
    requires SortedByTime(s, ts) && DistinctTimes(s, ts)
    requires forall k :: 0 <= k < |s| ==> TimeOf(s[k], ts) != TimeOf(x, ts)
    ensures DistinctTimes(InsertByTime(x, s, ts), ts)
  {
    if !(|s| == 0 || KeyOf(x, ts) <= KeyOf(s[0], ts)) {
      var rest := InsertByTime(x, s[1..], ts);
      InsertKeepsDistinct(x, s[1..], ts);
      forall k | 0 <= k < |rest|
        ensures TimeOf(rest[k], ts) != TimeOf(s[0], ts)
      {
        if rest[k] != x {
          var j :| 0 <= j < |s[1..]| && s[1..][j] == rest[k];
          assert s[j + 1] == rest[k];
        }
      }
    }
  }

  /** An ascending rearrangement of the rows by timestamp. The library's
      sort is not promised to be stable; the contract does not depend on the
      order of rows with equal timestamps. */
  function SortByTime(rows: seq<Row>, ts: string): (r: seq<Row>)
    ensures |r| == |rows|
    ensures SortedByTime(r, ts)
    ensures multiset(r) == multiset(rows)
    ensures forall k :: 0 <= k < |r| ==> r[k] in rows
  {
    if |rows| == 0 then []
    else
      var rest := SortByTime(rows[1..], ts);
      assert rows == [rows[0]] + rows[1..];
      var r := InsertByTime(rows[0], rest, ts);
      assert forall k :: 0 <= k < |r| ==> r[k] in rows by {
        forall k | 0 <= k < |r| ensures r[k] in rows {
          if r[k] != rows[0] {
            assert r[k] in rest;
          }
        }
      }
      r
  }

  lemma {:induction false} SortKeepsDistinct(rows: seq<Row>, ts: string)
    requires DistinctTimes(rows, ts)
    ensures DistinctTimes(SortByTime(rows, ts), ts)
  {
    if |rows| > 0 {
      var rest := SortByTime(rows[1..], ts);
      SortKeepsDistinct(rows[1..], ts);
      forall k | 0 <= k < |rest|
        ensures TimeOf(rest[k], ts) != TimeOf(rows[0], ts)
      {
        var j :| 0 <= j < |rows[1..]| && rows[1..][j] == rest[k];
        assert rows[j + 1] == rest[k];
      }
      InsertKeepsDistinct(rows[0], rest, ts);
    }
  }

  /** `_drop_dupes_and_sort`: de-duplication first, so "last" means last in
      the order the rows arrive in, then sorting. Only de-duplication changes
      the number of rows. */
  function DropDupesAndSort(rows: seq<Row>, ts: string, deduplicate: bool, sort: bool): (r: seq<Row>)
    ensures forall x :: x in r ==> x in rows
    ensures !deduplicate ==> multiset(r) == multiset(rows)
    ensures deduplicate ==> |r| <= |rows| && DistinctTimes(r, ts)
    ensures deduplicate ==> forall x :: x in r <==> IsSurvivor(rows, ts, x)
    ensures sort ==> SortedByTime(r, ts)
    ensures !deduplicate && !sort ==> r == rows
  {
    var kept := if deduplicate then KeepLast(rows, ts) else rows;
    assert forall x :: x in kept ==> x in rows by {
      forall x | x in kept ensures x in rows {
        if deduplicate {
          assert IsSurvivor(rows, ts, x);
        }
      }
    }
    if sort then
      var sorted := SortByTime(kept, ts);
      SortSameMembers(kept, ts);
      assert deduplicate ==> DistinctTimes(sorted, ts) by {
        if deduplicate {
          SortKeepsDistinct(kept, ts);
        }
      }
      sorted
    else kept
  }

  lemma SortSameMembers(rows: seq<Row>, ts: string)
    ensures forall x :: x in SortByTime(rows, ts) <==> x in rows
  {
    var sorted := SortByTime(rows, ts);
    forall x ensures x in rows <==> x in sorted {
      assert x in rows <==> x in multiset(rows);
      assert x in sorted <==> x in multiset(sorted);
    }
  }

  /** Two readings at second 1 around one at second 0: de-duplication keeps
      the later of the two, and sorting puts second 0 first. */
  lemma LastDuplicateWinsThenSorted()
    ensures var ts := "timestamp";
      var a := map[ts := Time(1_000_000), "rop" := Num(1.0)];
      var b := map[ts := Time(0), "rop" := Num(2.0)];
      var c := map[ts := Time(1_000_000), "rop" := Num(3.0)];
      DropDupesAndSort([a, b, c], ts, true, true) == [b, c]
  {
    var ts := "timestamp";
    var a := map[ts := Time(1_000_000), "rop" := Num(1.0)];
    var b := map[ts := Time(0), "rop" := Num(2.0)];
    var c := map[ts := Time(1_000_000), "rop" := Num(3.0)];
    var rows := [a, b, c];
    assert !IsLastOfItsTime(rows, ts, 0) by {
      assert TimeOf(rows[2], ts) == TimeOf(rows[0], ts);
    }
    assert IsLastOfItsTime(rows, ts, 1) && IsLastOfItsTime(rows, ts, 2);
    assert SurvivorsFrom(rows, ts, 3) == [];
    assert SurvivorsFrom(rows, ts, 2) == [2];
    assert SurvivorsFrom(rows, ts, 1) == [1, 2];
    assert SurvivorsFrom(rows, ts, 0) == [1, 2];
    assert KeepLast(rows, ts) == [b, c];
    assert SortByTime([c], ts) == [c];
    assert SortByTime([b, c], ts) == InsertByTime(b, [c], ts);
  }
}
