/** The stride-1 sliding-window stream: each row is pushed into a bounded
    buffer, and once the buffer is full every push yields one prediction made
    from a per-column snapshot of the buffer. The feature maker and the model
    are parameters; the asynchronous source becomes a finite sequence. */
module Stream {
  import opened Telemetry

  /** The window length `run_stream` uses when none is given. */
  const DefaultWindow: nat := 64

  /** A push onto a `deque(maxlen=window)`: the buffer keeps the most recent
      rows, at most `window` of them, ending with the new one; when full, the
      oldest row and only it is evicted. */
  function Push(buffer: seq<Row>, row: Row, window: nat): (b: seq<Row>)
    requires window >= 1 && |buffer| <= window
    ensures |b| == MinInt(|buffer| + 1, window)
    ensures b[|b| - 1] == row
  {
    if |buffer| < window then buffer + [row] else buffer[1..] + [row]
  }

  /** Below capacity a push drops nothing; at capacity it drops the oldest
      row and only it, keeping the others in arrival order. */
  lemma PushEvictsOldest(buffer: seq<Row>, row: Row, window: nat)
    requires window >= 1 && |buffer| <= window
    ensures |buffer| < window ==> Push(buffer, row, window)[..|buffer|] == buffer
    ensures |buffer| == window ==> Push(buffer, row, window)[..window - 1] == buffer[1..]
  {
  }

  /** A per-column view of the buffer: column name to the buffer's values
      in that column, oldest first. */
  type Snapshot = map<string, seq<Cell>>

  /** The values of column `k` down the buffer, oldest first. */
  function Values(buffer: seq<Row>, k: string): (vs: seq<Cell>)
    requires forall i :: 0 <= i < |buffer| ==> k in buffer[i]
    ensures |vs| == |buffer|
    ensures forall i :: 0 <= i < |buffer| ==> vs[i] == buffer[i][k]
  {
    if |buffer| == 0 then [] else [buffer[0][k]] + Values(buffer[1..], k)
  }

  /** Every row of the buffer has every column of the oldest row. */
  predicate HasOldestColumns(buffer: seq<Row>)
    requires |buffer| > 0
  {
    forall i, k :: 0 <= i < |buffer| && k in buffer[0] ==> k in buffer[i]
  }

  /** The per-column snapshot of the buffer: one entry per column of the
      oldest row, holding that column's cells from oldest to newest. A row
      lacking one of those columns raises a key error, modelled as `None`;
      columns only later rows have are dropped. */
  function TakeSnapshot(buffer: seq<Row>): (s: Option<Snapshot>)
    requires |buffer| > 0
    ensures s.Some? <==> HasOldestColumns(buffer)
    ensures s.Some? ==> s.value.Keys == buffer[0].Keys
    ensures s.Some? ==> forall k :: k in s.value ==> |s.value[k]| == |buffer|
    ensures s.Some? ==> forall k, i :: k in s.value && 0 <= i < |buffer| ==> s.value[k][i] == buffer[i][k]
  {
    if HasOldestColumns(buffer) then
      Some(map k | k in buffer[0] :: Values(buffer, k))
    else None
  }

  /** The rows fed to the stream's `k`-th full window. */
  function Window(source: seq<Row>, window: nat, k: nat): seq<Row>
    requires k + window <= |source|
  {
    source[k..k + window]
  }

  /** Buffer contents after the first `n` rows have been pushed. */
  function BufferAfter(source: seq<Row>, window: nat, n: nat): (b: seq<Row>)
    requires window >= 1 && n <= |source|
    ensures |b| <= window
  {
    if n == 0 then [] else Push(BufferAfter(source, window, n - 1), source[n - 1], window)
  }

  /** Pushing the next row onto a buffer of the latest rows gives the
      buffer of the latest rows one step on. */
  lemma PushSlides(source: seq<Row>, window: nat, n: nat)
    requires window >= 1 && n < |source|
    ensures Push(source[MaxInt(0, n - window)..n], source[n], window)
      == source[MaxInt(0, n + 1 - window)..n + 1]
  {
    var a := MaxInt(0, n - window);
    var b := source[a..n];
    if |b| < window {
      assert a == 0 && MaxInt(0, n + 1 - window) == 0;
      assert b + [source[n]] == source[0..n + 1];
    } else {
      assert a == n - window;
      assert b[1..] + [source[n]] == source[n + 1 - window..n + 1];
    }
  }

  /** After `n` pushes the buffer holds exactly the last `min(n, window)`
      rows, in arrival order. */
  lemma {:induction false} BufferHoldsLatestRows(source: seq<Row>, window: nat, n: nat)
    requires window >= 1 && n <= |source|
    ensures BufferAfter(source, window, n) == source[MaxInt(0, n - window)..n]
  {
    if n > 0 {
      var m := n - 1;
      BufferHoldsLatestRows(source, window, m);
      PushSlides(source, window, m);
      assert m + 1 == n;
    }
  }

  /** After a push the buffer is full exactly from the `window`-th row on,
      and then it is the window ending at that row. */
  lemma PushedBufferIsWindow(source: seq<Row>, window: nat, i: nat)
    requires window >= 1 && i < |source|
    ensures |BufferAfter(source, window, i + 1)| == window <==> window <= i + 1
    ensures window <= i + 1 ==> BufferAfter(source, window, i + 1) == Window(source, window, i + 1 - window)
  {
    BufferHoldsLatestRows(source, window, i + 1);
  }

  /** The `k`-th full window exists and every one of its rows has the
      columns of its oldest row. */
  predicate WindowReadable(source: seq<Row>, window: nat, k: nat) {
    window >= 1 && k + window <= |source| && TakeSnapshot(Window(source, window, k)).Some?
  }

  /** Rows that all carry the same columns never trip the key error: every
      full window can be snapshotted, so the stream makes one prediction per
      row from the `window`-th on. */
  lemma UniformRowsReadable(source: seq<Row>, window: nat)
    requires window >= 1
    requires forall i :: 0 <= i < |source| ==> source[i].Keys == source[0].Keys
    ensures forall k: nat :: k + window <= |source| ==> WindowReadable(source, window, k)
  {
    forall k: nat | k + window <= |source|
      ensures WindowReadable(source, window, k)
    {
      var w := Window(source, window, k);
      forall i, c | 0 <= i < |w| && c in w[0]
        ensures c in w[i]
      {
        assert w[0] == source[k] && w[i] == source[k + i];
      }
    }
  }

  /** A row missing a column that the oldest row of its first full window
      has stops the stream at that window at the latest. */
  lemma MissingColumnStops(source: seq<Row>, window: nat, j: nat, c: string)
    requires window >= 1 && window <= j + 1 && j < |source|
    requires c in source[j + 1 - window] && c !in source[j]
    ensures !WindowReadable(source, window, j + 1 - window)
  {
    var w := Window(source, window, j + 1 - window);
    assert w[0] == source[j + 1 - window] && w[window - 1] == source[j];
  }

  /** The prediction made from the `k`-th full window. */
  function Prediction<F, P>(source: seq<Row>, window: nat, k: nat, transform: Snapshot -> F, predict: F -> P): P
    requires WindowReadable(source, window, k)
  {
    predict(transform(TakeSnapshot(Window(source, window, k)).value))
  }

  /** `run_stream` over a finite source. It returns the predictions in the
      order of the rows that triggered them, and whether it stopped on a row
      missing a column of the oldest buffered row. */
  method RunStream<F, P>(source: seq<Row>, transform: Snapshot -> F, predict: F -> P, window: nat)
    returns (outputs: seq<P>, failed: bool)
    requires window >= 1
    ensures !failed ==> |outputs| == MaxInt(0, |source| - window + 1)
    ensures failed ==> |outputs| + window <= |source| && !WindowReadable(source, window, |outputs|)
    ensures forall k :: 0 <= k < |outputs| ==> (WindowReadable(source, window, k) &&
      outputs[k] == Prediction(source, window, k, transform, predict))
    ensures !failed <==> forall k: nat :: k + window <= |source| ==> WindowReadable(source, window, k)
  {
    var buffer: seq<Row> := [];
    outputs := [];
    failed := false;
    var i := 0;
    while i < |source|
      invariant 0 <= i <= |source|
      invariant buffer == BufferAfter(source, window, i)
      invariant |outputs| == MaxInt(0, i - window + 1)
      invariant forall k :: 0 <= k < |outputs| ==> (WindowReadable(source, window, k) &&
        outputs[k] == Prediction(source, window, k, transform, predict))
    {
      buffer := Push(buffer, source[i], window);
      assert buffer == BufferAfter(source, window, i + 1);
      PushedBufferIsWindow(source, window, i);
      if |buffer| == window {
        var k := i + 1 - window;
        var snapshot := TakeSnapshot(buffer);
        if snapshot.None? {
          failed := true;
          return;
        }
        assert WindowReadable(source, window, k);
        assert predict(transform(snapshot.value)) == Prediction(source, window, k, transform, predict);
        outputs := outputs + [predict(transform(snapshot.value))];
      }
      i := i + 1;
    }
  }

  /** `run_stream` called without a window: 64 rows. A source shorter than
      that yields nothing and never fails. */
  method RunStreamDefault<F, P>(source: seq<Row>, transform: Snapshot -> F, predict: F -> P)
    returns (outputs: seq<P>, failed: bool)
    ensures |source| < DefaultWindow ==> outputs == [] && !failed
    ensures !failed ==> |outputs| == MaxInt(0, |source| - DefaultWindow + 1)
    ensures forall k :: 0 <= k < |outputs| ==> (WindowReadable(source, DefaultWindow, k) &&
      outputs[k] == Prediction(source, DefaultWindow, k, transform, predict))
    ensures !failed <==> forall k: nat :: k + DefaultWindow <= |source| ==> WindowReadable(source, DefaultWindow, k)
  {
    outputs, failed := RunStream(source, transform, predict, DefaultWindow);
  }
}
