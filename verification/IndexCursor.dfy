/**
 * The index cursor (`emit_index` in src/replicate/publisher.rs): a timestamp and how many rows
 * at it were sent, which is enough to send every caller row exactly once.
 */
module IndexCursor {
  import opened Types
  import opened Frames
  import opened IndexFold
  import opened Delivery
  import opened Retention

  /** The newest timestamp sent, and how many rows at exactly that timestamp. */
  type Position = Option<(int, nat)>

  /** The loop's accumulators. */
  datatype Emit = Emit(skip: nat, atLast: nat, lastTs: Option<int>, state: IndexState, sentFull: bool, frames: seq<RowFrame>)

  /** One row: skipped if it was sent before, sent as the source's `Full` or as a `Delta`. */
  function EmitRow(e: Emit, source: nat, name: Text, row: CallerRow): Emit {
    if e.skip > 0 && e.lastTs == Some(row.ts) then e.(skip := e.skip - 1, atLast := e.atLast + 1) else
    var state := Fold(e.state, row.ts, row.blob);
    Emit(e.skip, if e.lastTs == Some(row.ts) then e.atLast + 1 else 1, Some(row.ts), state, true,
         e.frames + [Index(source, name, row.ts, if e.sentFull then Delta else Full, state, row.blob)])
  }

  function EmitTo(e: Emit, source: nat, name: Text, rows: seq<CallerRow>, n: nat): Emit
    requires n <= |rows|
  {
    if n == 0 then e else EmitRow(EmitTo(e, source, name, rows, n - 1), source, name, rows[n - 1])
  }

  function Start(p: Position, from: int): int {
    if p.Some? then p.value.0 else from
  }

  function Begin(p: Position, state: IndexState, sentFull: bool): Emit {
    if p.Some? then Emit(p.value.1, 0, Some(p.value.0), state, sentFull, [])
    else Emit(0, 0, None, state, sentFull, [])
  }

  /** `emit_index`: the rows read back from the resume point, and where they leave the cursor. */
  function EmitIndex(p: Position, state: IndexState, sentFull: bool, source: nat, name: Text, rows: seq<CallerRow>, from: int): Emit {
    var read := KeepRows(rows, Start(p, from));
    EmitTo(Begin(p, state, sentFull), source, name, read, |read|)
  }

  function PositionOf(e: Emit): Position {
    if e.lastTs.Some? then Some((e.lastTs.value, e.atLast)) else None
  }

  /** How many of the first `k` rows share the last one's timestamp. */
  function RunLength(rows: seq<CallerRow>, k: nat): nat
    requires k <= |rows|
  {
    if k == 0 then 0 else if k > 1 && rows[k - 2].ts == rows[k - 1].ts then 1 + RunLength(rows, k - 1) else 1
  }

  /** The cursor once the first `k` rows have been sent. */
  function PositionAt(rows: seq<CallerRow>, k: nat): Position
    requires k <= |rows|
  {
    if k == 0 then None else Some((rows[k - 1].ts, RunLength(rows, k)))
  }

  /** The entries for `rows[k..m]`, and the state they leave. */
  function SendTo(state: IndexState, sentFull: bool, source: nat, name: Text, rows: seq<CallerRow>, k: nat, m: nat): Emit
    requires k <= m <= |rows|
    decreases m
  {
    if m == k then Emit(0, RunLength(rows, k), if k == 0 then None else Some(rows[k - 1].ts), state, sentFull, []) else
    var e := SendTo(state, sentFull, source, name, rows, k, m - 1);
    var next := Fold(e.state, rows[m - 1].ts, rows[m - 1].blob);
    Emit(0, RunLength(rows, m), Some(rows[m - 1].ts), next, true,
         e.frames + [Index(source, name, rows[m - 1].ts, if e.sentFull then Delta else Full, next, rows[m - 1].blob)])
  }

  lemma {:induction false} RunBack(rows: seq<CallerRow>, k: nat)
    requires 0 < k <= |rows| && InOrder(rows)
    ensures 1 <= RunLength(rows, k) <= k
    ensures forall i :: 0 <= i < k ==> (rows[i].ts == rows[k - 1].ts <==> i >= k - RunLength(rows, k))
  {
    if k > 1 && rows[k - 2].ts == rows[k - 1].ts {
      RunBack(rows, k - 1);
    } else if k > 1 {
      forall i | 0 <= i < k - 1 ensures rows[i].ts != rows[k - 1].ts {
        assert rows[i].ts <= rows[k - 2].ts <= rows[k - 1].ts;
      }
    }
  }

  /** Skipping the rows of the cursor's timestamp that were sent. */
  lemma {:induction false} SkipsSent(
    rows: seq<CallerRow>, k: nat, state: IndexState, sentFull: bool, source: nat, name: Text, read: seq<CallerRow>, n: nat)
    requires 0 < k <= |rows| && InOrder(rows) && n <= RunLength(rows, k) <= k
    requires |read| >= n && forall i :: 0 <= i < n ==> read[i].ts == rows[k - 1].ts
    ensures EmitTo(Begin(PositionAt(rows, k), state, sentFull), source, name, read, n)
            == Emit(RunLength(rows, k) - n, n, Some(rows[k - 1].ts), state, sentFull, [])
  {
    if n > 0 {
      SkipsSent(rows, k, state, sentFull, source, name, read, n - 1);
    }
  }

  /** Then sending the rest. */
  lemma {:induction false} SendsRest(
    rows: seq<CallerRow>, k: nat, m: nat, state: IndexState, sentFull: bool, source: nat, name: Text,
    e: Emit, read: seq<CallerRow>, from: nat)
    requires k <= m <= |rows| && from <= k && read == rows[from..]
    requires EmitTo(e, source, name, read, k - from) == SendTo(state, sentFull, source, name, rows, k, k)
    ensures EmitTo(e, source, name, read, m - from) == SendTo(state, sentFull, source, name, rows, k, m)
    decreases m
  {
    if k < m {
      var n := m - 1;
      SendsRest(rows, k, n, state, sentFull, source, name, e, read, from);
      assert read[n - from] == rows[n];
      SendsOne(rows, k, n, m, state, sentFull, source, name);
    }
  }

  lemma SendsOne(rows: seq<CallerRow>, k: nat, n: nat, m: nat, state: IndexState, sentFull: bool, source: nat, name: Text)
    requires k <= n && m == n + 1 <= |rows|
    ensures EmitRow(SendTo(state, sentFull, source, name, rows, k, n), source, name, rows[n]) == SendTo(state, sentFull, source, name, rows, k, m)
  {
    SendsTo(rows, k, n, state, sentFull, source, name);
  }

  /** Where sending up to `n` leaves the accumulators. */
  lemma SendsTo(rows: seq<CallerRow>, k: nat, n: nat, state: IndexState, sentFull: bool, source: nat, name: Text)
    requires k <= n <= |rows|
    ensures var e := SendTo(state, sentFull, source, name, rows, k, n);
            && e.skip == 0 && e.atLast == RunLength(rows, n)
            && e.lastTs == if n == 0 then None else Some(rows[n - 1].ts)
  {}

  /** Resuming from the start of the run at the cursor's timestamp. */
  lemma {:induction false} ResumesAt(
    rows: seq<CallerRow>, k: nat, state: IndexState, sentFull: bool, source: nat, name: Text, a: nat)
    requires k <= |rows| && InOrder(rows) && a == k - RunLength(rows, k)
    ensures EmitTo(Begin(PositionAt(rows, k), state, sentFull), source, name, rows[a..], k - a)
            == SendTo(state, sentFull, source, name, rows, k, k)
  {
    if k > 0 {
      RunBack(rows, k);
      SkipsSent(rows, k, state, sentFull, source, name, rows[a..], RunLength(rows, k));
    }
  }

  lemma ResumePoint(rows: seq<CallerRow>, k: nat, from: int)
    requires k <= |rows| && InOrder(rows) && (k == 0 ==> forall i :: 0 <= i < |rows| ==> from <= rows[i].ts)
    ensures RunLength(rows, k) <= k
    ensures KeepRows(rows, Start(PositionAt(rows, k), from)) == rows[k - RunLength(rows, k)..]
  {
    var a := KeepRowsIs(rows, Start(PositionAt(rows, k), from));
    if k > 0 {
      RunBack(rows, k);
      FirstOfRun(rows, k, a);
    } else {
      FirstKept(rows, a, from);
    }
  }

  /**
   * With the cursor where the first `k` rows left it, a poll sends exactly the rows past them,
   * each once and in order, and leaves the cursor where all of them do.
   */
  lemma {:induction false} PollSendsRest(
    rows: seq<CallerRow>, k: nat, state: IndexState, sentFull: bool, source: nat, name: Text, from: int)
    requires k <= |rows| && InOrder(rows)
    requires k == 0 ==> forall i :: 0 <= i < |rows| ==> from <= rows[i].ts
    ensures var e := EmitIndex(PositionAt(rows, k), state, sentFull, source, name, rows, from);
            e == SendTo(state, sentFull, source, name, rows, k, |rows|) && PositionOf(e) == PositionAt(rows, |rows|)
  {
    ResumePoint(rows, k, from);
    var a := k - RunLength(rows, k);
    ResumesAt(rows, k, state, sentFull, source, name, a);
    SendsRest(rows, k, |rows|, state, sentFull, source, name, Begin(PositionAt(rows, k), state, sentFull), rows[a..], a);
  }

  lemma FirstOfRun(rows: seq<CallerRow>, k: nat, a: nat)
    requires 0 < k <= |rows| && InOrder(rows) && a <= |rows| && 1 <= RunLength(rows, k) <= k
    requires forall i :: 0 <= i < k ==> (rows[i].ts == rows[k - 1].ts <==> i >= k - RunLength(rows, k))
    requires forall i :: 0 <= i < |rows| ==> (i < a <==> rows[i].ts < rows[k - 1].ts)
    ensures a == k - RunLength(rows, k)
  {
    var b := k - RunLength(rows, k);
    assert rows[b].ts == rows[k - 1].ts;
    if b > 0 {
      assert rows[b - 1].ts <= rows[k - 1].ts && rows[b - 1].ts != rows[k - 1].ts;
    }
  }

  lemma FirstKept(rows: seq<CallerRow>, a: nat, from: int)
    requires a <= |rows| && (forall i :: 0 <= i < |rows| ==> from <= rows[i].ts)
    requires forall i :: 0 <= i < |rows| ==> (i < a <==> rows[i].ts < from)
    ensures a == 0
  {
    var probe := if |rows| > 0 then rows[0].ts else from;
  }

  // ------------------------------------------------------------------ the opening of a catch-up

  /** How many of the rows are before `from`. */
  function FirstFrom(rows: seq<CallerRow>, from: int): (a: nat)
    ensures a <= |rows|
  {
    if rows == [] || rows[0].ts >= from then 0 else 1 + FirstFrom(rows[1..], from)
  }

  lemma {:induction false} FirstFromIs(rows: seq<CallerRow>, from: int)
    requires InOrder(rows)
    ensures KeepRows(rows, from) == rows[FirstFrom(rows, from)..]
    ensures forall i :: 0 <= i < |rows| ==> (i < FirstFrom(rows, from) <==> rows[i].ts < from)
  {
    var a := KeepRowsIs(rows, from);
    FirstFromAt(rows, from, a);
  }

  lemma {:induction false} FirstFromAt(rows: seq<CallerRow>, from: int, a: nat)
    requires a <= |rows| && forall i :: 0 <= i < |rows| ==> (i < a <==> rows[i].ts < from)
    ensures FirstFrom(rows, from) == a
  {
    if rows != [] && rows[0].ts < from {
      FirstFromAt(rows[1..], from, a - 1);
    }
  }

  /** Whether the name's newest entry is at or past `from`, or it has none. */
  predicate Resumes(rows: seq<CallerRow>, from: int) {
    rows == [] || rows[|rows| - 1].ts >= from
  }

  lemma {:induction false} SuffixRun(rows: seq<CallerRow>, a: nat, k: nat)
    requires a < k <= |rows| && (a > 0 ==> rows[a - 1].ts < rows[a].ts)
    ensures RunLength(rows[a..], k - a) == RunLength(rows, k)
  {
    if k - a > 1 {
      SuffixRun(rows, a, k - 1);
    }
  }

  /**
   * The opening of a name sends its rows from `from` on, each once and in order, and leaves the
   * cursor where all of the name's rows leave it exactly when the name resumes.
   */
  lemma {:induction false} OpeningSends(
    rows: seq<CallerRow>, state: IndexState, sentFull: bool, source: nat, name: Text, from: int)
    requires InOrder(rows)
    ensures var rest := rows[FirstFrom(rows, from)..];
            var e := EmitIndex(None, state, sentFull, source, name, rows, from);
            && e == SendTo(state, sentFull, source, name, rest, 0, |rest|)
            && (PositionOf(e) == PositionAt(rows, |rows|) <==> Resumes(rows, from))
            && (!Resumes(rows, from) ==> PositionOf(e) == None && rest == [])
  {
    FirstFromIs(rows, from);
    var a := FirstFrom(rows, from);
    var rest := rows[a..];
    FirstFromIs(rest, from);
    FirstKept(rest, FirstFrom(rest, from), from);
    PollSendsRest(rest, 0, state, sentFull, source, name, from);
    OpeningLeaves(rows, from, rest);
  }

  lemma OpeningLeaves(rows: seq<CallerRow>, from: int, rest: seq<CallerRow>)
    requires InOrder(rows) && rest == rows[FirstFrom(rows, from)..]
    ensures PositionAt(rest, |rest|) == PositionAt(rows, |rows|) <==> Resumes(rows, from)
    ensures !Resumes(rows, from) ==> rest == []
  {
    FirstFromIs(rows, from);
    var a := FirstFrom(rows, from);
    if a < |rows| {
      SuffixRun(rows, a, |rows|);
      assert rows[a].ts <= rows[|rows| - 1].ts;
    }
  }

  /** The loop of `emit_index`. */
  method EmitLoop(p: Position, state: IndexState, sentFull: bool, source: nat, name: Text, rows: seq<CallerRow>, from: int)
    returns (e: Emit)
    ensures e == EmitIndex(p, state, sentFull, source, name, rows, from)
  {
    var read := KeepRows(rows, Start(p, from));
    var skip: nat, at: nat := if p.Some? then p.value.1 else 0, 0;
    var last: Option<int>, now, full, out: seq<RowFrame> := if p.Some? then Some(p.value.0) else None, state, sentFull, [];
    var i := 0;
    while i < |read|
      invariant i <= |read|
      invariant EmitTo(Begin(p, state, sentFull), source, name, read, i) == Emit(skip, at, last, now, full, out)
    {
      var row := read[i];
      if skip > 0 && last == Some(row.ts) {
        skip, at := skip - 1, at + 1;
      } else {
        if last == Some(row.ts) {
          at := at + 1;
        } else {
          last, at := Some(row.ts), 1;
        }
        now := FoldIndexState(now, row.ts, row.blob);
        out := out + [Index(source, name, row.ts, if full then Delta else Full, now, row.blob)];
        full := true;
      }
      i := i + 1;
    }
    e := Emit(skip, at, last, now, full, out);
  }
}
