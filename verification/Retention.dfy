/** What a retention pass does to a caller's own time-keyed rows (src/archive/sqlite.rs). */
module Retention {
  import opened Types
  import opened Rows
  import opened Encoding
  import opened Catalog
  import opened Ticks
  import opened Machine

  /** The caller's floor function: a name and its oldest surviving row, to where the cut may go. */
  type Floor = (Text, Option<int>) -> int

  /** `MIN` over a stream's segment starts and every row of its WAL (`oldest_row`). */
  function OldestRow(t: Tables): Option<int> {
    Least(LeastFirst(t.segs), LeastTs(t.wal))
  }

  function Least(a: Option<int>, b: Option<int>): Option<int> {
    if a.None? then b else if b.None? then a else Some(Min(a.value, b.value))
  }

  function LeastFirst(segs: seq<Segment>): Option<int> {
    if segs == [] then None else Least(Some(segs[0].first), LeastFirst(segs[1..]))
  }

  function LeastTs(rows: seq<WalRow>): Option<int> {
    if rows == [] then None else Least(Some(rows[0].ts), LeastTs(rows[1..]))
  }

  /** `DELETE FROM caller_rows WHERE ts < cut`. */
  function KeepRows(rows: seq<CallerRow>, cut: int): seq<CallerRow> {
    if rows == [] then [] else
    if rows[0].ts >= cut then [rows[0]] + KeepRows(rows[1..], cut) else KeepRows(rows[1..], cut)
  }

  /** Where one name is cut: at the cutoff, or at the caller's floor when that is older. */
  function CutFor(stream: Text, t: Tables, cutoff: int, floor: Option<Floor>): int {
    if floor.None? then cutoff else Min(floor.value(stream, OldestRow(t)), cutoff)
  }

  type Callers = map<Key, seq<CallerRow>>

  /** The caller rows after a pass; `m` is the archive after the pass's other deletes. */
  function EvictCallers(
    callers: Callers, m: Streams, source: int, cutoff: int, filter: Text -> bool, floor: Option<Floor>): Callers
  {
    map k | k in callers ::
      if k.0 == source && filter(k.1) then KeepRows(callers[k], CutFor(k.1, At(m, k).t, cutoff, floor)) else callers[k]
  }

  /** The rows at or past the cut stay, in order and as often as they were; the others go. */
  lemma {:induction false} KeepRowsExact(rows: seq<CallerRow>, cut: int) returns (idx: seq<nat>)
    ensures Picks(rows, KeepRows(rows, cut), idx)
    ensures forall i: nat :: i < |rows| ==> (i in idx <==> rows[i].ts >= cut)
  {
    if rows == [] {
      idx := [];
    } else {
      var p := KeepRowsExact(rows[1..], cut);
      idx := Shifted(p, rows[0].ts >= cut);
      assert rows == [rows[0]] + rows[1..];
      ShiftPicks(rows[0], rows[1..], KeepRows(rows[1..], cut), p, rows[0].ts >= cut, rows, KeepRows(rows, cut), idx);
    }
  }

  lemma {:induction false} KeepRowsCounts(rows: seq<CallerRow>, cut: int, r: CallerRow)
    ensures multiset(KeepRows(rows, cut))[r] == if r.ts >= cut then multiset(rows)[r] else 0
  {
    if rows != [] {
      KeepRowsCounts(rows[1..], cut, r);
      assert rows == [rows[0]] + rows[1..];
      CountFirst(rows[0], rows[1..], r);
      CountFirst(rows[0], KeepRows(rows[1..], cut), r);
    }
  }

  /**
   * A pass cuts a name it takes at the cutoff, or at what the caller's floor answers for the oldest
   * row left where that is older: exactly the caller rows before it go. It leaves every other name.
   */
  lemma EvictCallersExact(
    callers: Callers, m: Streams, source: int, cutoff: int, filter: Text -> bool, floor: Option<Floor>, k: Key)
    returns (idx: seq<nat>)
    requires k in callers
    ensures EvictCallers(callers, m, source, cutoff, filter, floor).Keys == callers.Keys
    ensures Picks(callers[k], EvictCallers(callers, m, source, cutoff, filter, floor)[k], idx)
    ensures var cut := if floor.None? then cutoff else Min(cutoff, floor.value(k.1, OldestRow(At(m, k).t)));
            forall i: nat :: i < |callers[k]| ==> (i in idx <==> callers[k][i].ts >= cut || k.0 != source || !filter(k.1))
  {
    var rows := callers[k];
    if k.0 == source && filter(k.1) {
      idx := KeepRowsExact(rows, CutFor(k.1, At(m, k).t, cutoff, floor));
    } else {
      idx := seq(|rows|, i => i);
      forall i: nat | i < |rows| ensures PickedAt(rows, rows, idx, i) && i in idx {
        assert idx[i] == i;
      }
    }
  }

  lemma {:induction false} LeastFirstExact(segs: seq<Segment>)
    ensures LeastFirst(segs).None? <==> segs == []
    ensures LeastFirst(segs).Some? ==> exists i: nat :: i < |segs| && segs[i].first == LeastFirst(segs).value
    ensures forall i: nat :: i < |segs| ==> LeastFirst(segs).value <= segs[i].first
  {
    if segs != [] {
      LeastFirstExact(segs[1..]);
      forall i: nat | i < |segs| ensures LeastFirst(segs).value <= segs[i].first {
        assert i > 0 ==> segs[i] == segs[1..][i - 1];
      }
      if LeastFirst(segs).value != segs[0].first {
        var j: nat :| j < |segs[1..]| && segs[1..][j].first == LeastFirst(segs[1..]).value;
        assert segs[j + 1].first == LeastFirst(segs).value;
      }
    }
  }

  lemma {:induction false} LeastTsExact(rows: seq<WalRow>)
    ensures LeastTs(rows).None? <==> rows == []
    ensures LeastTs(rows).Some? ==> exists i: nat :: i < |rows| && rows[i].ts == LeastTs(rows).value
    ensures forall i: nat :: i < |rows| ==> LeastTs(rows).value <= rows[i].ts
  {
    if rows != [] {
      LeastTsExact(rows[1..]);
      forall i: nat | i < |rows| ensures LeastTs(rows).value <= rows[i].ts {
        assert i > 0 ==> rows[i] == rows[1..][i - 1];
      }
      if LeastTs(rows).value != rows[0].ts {
        var j: nat :| j < |rows[1..]| && rows[1..][j].ts == LeastTs(rows[1..]).value;
        assert rows[j + 1].ts == LeastTs(rows).value;
      }
    }
  }

  ghost predicate StartsAt(t: Tables, ts: int) {
    || (exists i: nat :: i < |t.segs| && t.segs[i].first == ts)
    || (exists i: nat :: i < |t.wal| && t.wal[i].ts == ts)
  }

  /** The row reported to the floor is the earliest segment start or WAL row, hidden ones included; none of an empty stream. */
  lemma OldestExact(t: Tables)
    ensures OldestRow(t).None? <==> t.segs == [] && t.wal == []
    ensures OldestRow(t).Some? ==> StartsAt(t, OldestRow(t).value) && forall ts :: StartsAt(t, ts) ==> OldestRow(t).value <= ts
  {
    LeastFirstExact(t.segs);
    LeastTsExact(t.wal);
  }

  // ------------------------------------------------------------------ a log of deltas

  /** How a caller reads its rows: a full statement stands alone, a delta changes the state before it. */
  datatype Log<!S> = Log(full: CallerRow -> bool, load: CallerRow -> S, delta: (S, CallerRow) -> S, blank: S)

  /** The state after the first `n` rows. */
  function ReplayTo<S>(log: Log<S>, rows: seq<CallerRow>, n: nat): S
    requires n <= |rows|
    decreases n
  {
    if n == 0 then log.blank else
    if log.full(rows[n - 1]) then log.load(rows[n - 1]) else
    log.delta(ReplayTo(log, rows, n - 1), rows[n - 1])
  }

  /** How many of the rows are at or before `ts`. */
  function UpTo(rows: seq<CallerRow>, ts: int): (n: nat)
    ensures n <= |rows|
    ensures n < |rows| ==> rows[n].ts > ts
    ensures forall i :: 0 <= i < n ==> rows[i].ts <= ts
  {
    if rows == [] || rows[0].ts > ts then 0 else 1 + UpTo(rows[1..], ts)
  }

  /** The caller state a row stamped `ts` was recorded under. */
  function Replay<S>(log: Log<S>, rows: seq<CallerRow>, ts: int): S {
    ReplayTo(log, rows, UpTo(rows, ts))
  }

  ghost predicate InOrder(rows: seq<CallerRow>) {
    forall i, j :: 0 <= i <= j < |rows| ==> rows[i].ts <= rows[j].ts
  }

  /** The timestamp of a full statement at or before `oldest`, such as the latest, or `I64_MIN`. */
  ghost predicate IsFloor(full: CallerRow -> bool, rows: seq<CallerRow>, oldest: Option<int>, floor: int) {
    oldest.Some? ==>
      || (exists i :: 0 <= i < |rows| && full(rows[i]) && rows[i].ts == floor <= oldest.value)
      || floor == I64_MIN
  }

  /** Once a full statement has been read, nothing before it matters. */
  lemma {:induction false} ReplayFromFull<S>(log: Log<S>, rows: seq<CallerRow>, a: nat, i: nat, n: nat)
    requires a <= i < n <= |rows| && log.full(rows[i])
    ensures ReplayTo(log, rows, n) == ReplayTo(log, rows[a..], n - a)
    decreases n
  {
    if n - 1 > i {
      ReplayFromFull(log, rows, a, i, n - 1);
    }
  }

  lemma {:induction false} KeepRowsIs(rows: seq<CallerRow>, cut: int) returns (a: nat)
    requires InOrder(rows)
    ensures a <= |rows| && KeepRows(rows, cut) == rows[a..]
    ensures forall i :: 0 <= i < |rows| ==> (i < a <==> rows[i].ts < cut)
  {
    if rows == [] {
      a := 0;
    } else {
      var b := KeepRowsIs(rows[1..], cut);
      a := if rows[0].ts < cut then b + 1 else 0;
      KeepRowsNext(rows, cut, rows[1..], b, a);
    }
  }

  lemma KeepRowsNext(rows: seq<CallerRow>, cut: int, rest: seq<CallerRow>, b: nat, a: nat)
    requires InOrder(rows) && rows != [] && rest == rows[1..]
    requires b <= |rest| && KeepRows(rest, cut) == rest[b..] && forall i :: 0 <= i < |rest| ==> (i < b <==> rest[i].ts < cut)
    requires a == if rows[0].ts < cut then b + 1 else 0
    ensures a <= |rows| && KeepRows(rows, cut) == rows[a..]
    ensures forall i :: 0 <= i < |rows| ==> (i < a <==> rows[i].ts < cut)
  {
    forall i | 0 <= i < |rows| ensures i < a <==> rows[i].ts < cut {
      assert i > 0 ==> rows[i] == rest[i - 1];
    }
    if a == 0 {
      var probe := if rest != [] then rest[0].ts else cut;
      assert [rows[0]] + rest == rows[0..] && rest[0..] == rest;
    }
  }

  lemma UpToIs(rows: seq<CallerRow>, ts: int, n: nat)
    requires InOrder(rows) && n <= |rows|
    requires n < |rows| ==> rows[n].ts > ts
    requires forall i :: 0 <= i < n ==> rows[i].ts <= ts
    ensures UpTo(rows, ts) == n
  {
    var k := UpTo(rows, ts);
    var probe := if k < |rows| then rows[k].ts else 0;
    var probe' := if n < |rows| then rows[n].ts else 0;
  }

  lemma {:induction false} SuffixReplay<S>(log: Log<S>, rows: seq<CallerRow>, a: nat, i: nat, ts: int)
    requires InOrder(rows) && a <= i < |rows| && log.full(rows[i]) && rows[i].ts <= ts
    ensures Replay(log, rows[a..], ts) == Replay(log, rows, ts)
  {
    var n := UpTo(rows, ts);
    assert i < n;
    SuffixUpTo(rows, a, ts);
    ReplayFromFull(log, rows, a, i, n);
  }

  /** A cut at or below the floor leaves the replay of every later row as it was. */
  lemma {:induction false} CutKeepsReplay<S>(log: Log<S>, rows: seq<CallerRow>, oldest: int, floor: int, cut: int, ts: int)
    requires InOrder(rows) && (forall i :: 0 <= i < |rows| ==> rows[i].ts >= I64_MIN)
    requires IsFloor(log.full, rows, Some(oldest), floor) && cut <= floor && oldest <= ts
    ensures Replay(log, KeepRows(rows, cut), ts) == Replay(log, rows, ts)
  {
    var a := KeepRowsIs(rows, cut);
    if i :| 0 <= i < |rows| && log.full(rows[i]) && rows[i].ts == floor <= oldest {
      SuffixReplay(log, rows, a, i, ts);
    } else {
      assert a == 0 by {
        var probe := if rows == [] then 0 else rows[0].ts;
      }
      assert rows[0..] == rows;
    }
  }

  lemma SuffixUpTo(rows: seq<CallerRow>, a: nat, ts: int)
    requires InOrder(rows) && a <= UpTo(rows, ts)
    ensures a <= |rows| && UpTo(rows[a..], ts) == UpTo(rows, ts) - a
  {
    UpToIs(rows[a..], ts, UpTo(rows, ts) - a);
  }

  lemma {:induction false} LeastFirstBound(segs: seq<Segment>, s: Segment)
    requires s in segs
    ensures LeastFirst(segs).Some? && LeastFirst(segs).value <= s.first
  {
    if s != segs[0] {
      LeastFirstBound(segs[1..], s);
    }
  }

  lemma {:induction false} LeastTsBound(rows: seq<WalRow>, r: WalRow)
    requires r in rows
    ensures LeastTs(rows).Some? && LeastTs(rows).value <= r.ts
  {
    if r != rows[0] {
      LeastTsBound(rows[1..], r);
    }
  }

  lemma {:induction false} DataIn(segs: seq<Segment>, r: WalRow) returns (s: Segment)
    requires r in Data(segs)
    ensures s in segs && r in s.data
  {
    if r in segs[0].data {
      s := segs[0];
    } else {
      s := DataIn(segs[1..], r);
    }
  }

  /** No row a reader can see is older than the oldest row the pass reports. */
  lemma OldestBounds(t: Tables, r: WalRow)
    requires Valid(t) && r in View(t)
    ensures OldestRow(t).Some? && OldestRow(t).value <= r.ts
  {
    if r in Data(t.segs) {
      var s := DataIn(t.segs, r);
      var i: nat :| i < |t.segs| && t.segs[i] == s;
      assert SoundAt(t.segs, i);
      var k: nat :| k < |s.data| && s.data[k] == r;
      SortedLe(s.data, 0, k);
      LeastFirstBound(t.segs, s);
    } else {
      LiveIs(t);
      if t.segs != [] {
        FromMembers(t.wal, LastOf(t.segs) + 1, r);
      }
      LeastTsBound(t.wal, r);
    }
  }

  /**
   * With a floor at the latest full statement, every row that survives a retention pass
   * replays to the caller state it had before the pass, from the rows that remain.
   */
  lemma {:induction false} RetentionKeepsReplay<S>(
    log: Log<S>, stream: Text, t: Tables, cutoff: int, rows: seq<CallerRow>, floor: Floor, r: WalRow)
    requires Valid(t) && InOrder(rows) && (forall i :: 0 <= i < |rows| ==> rows[i].ts >= I64_MIN)
    requires IsFloor(log.full, rows, OldestRow(Evict(t, cutoff)), floor(stream, OldestRow(Evict(t, cutoff))))
    requires r in View(Evict(t, cutoff))
    ensures var kept := KeepRows(rows, CutFor(stream, Evict(t, cutoff), cutoff, Some(floor)));
            Replay(log, kept, r.ts) == Replay(log, rows, r.ts)
  {
    var t' := Evict(t, cutoff);
    var _ := EvictExact(t, cutoff);
    OldestBounds(t', r);
    CutKeepsReplay(log, rows, OldestRow(t').value, floor(stream, OldestRow(t')),
      CutFor(stream, t', cutoff, Some(floor)), r.ts);
  }
}
