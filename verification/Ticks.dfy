/** Committing one tick for every source of an archive (`commit_tick`, src/writer.rs). */
module Ticks {
  import opened Types
  import opened Rows
  import opened Encoding
  import opened Catalog

  /** `(source_id, stream)`. */
  type Key = (int, Text)

  /** Every stream of the archive that has ever held a row. */
  type Streams = map<Key, Stream>

  /** One source's part of a tick. */
  type Batch = (int, seq<WalRow>)

  function At(m: Streams, k: Key): Stream {
    if k in m then m[k] else EMPTY
  }

  ghost predicate AllInv(m: Streams) {
    forall k: Key :: InvAt(m, k)
  }

  ghost predicate InvAt(m: Streams, k: Key) {
    forall s :: IsAt(m, k, s) ==> Inv(s)
  }

  predicate IsAt(m: Streams, k: Key, s: Stream) {
    At(m, k) == s
  }

  // ------------------------------------------------------------------ filters

  /** Whether a resumed source's floor refuses the whole batch. */
  predicate UnderFloor(floors: map<int, int>, b: Batch) {
    b.0 in floors && exists i :: 0 <= i < |b.1| && b.1[i].ts <= floors[b.0]
  }

  function DropFloored(floors: map<int, int>, ticks: seq<Batch>): seq<Batch> {
    if ticks == [] then [] else
    (if UnderFloor(floors, ticks[0]) then [] else [ticks[0]]) + DropFloored(floors, ticks[1..])
  }

  /** Whether a reader could never see the row: it is at or below its stream's watermark. */
  predicate Shadowed(m: Streams, source: int, r: WalRow) {
    var w := At(m, (source, r.stream)).watermark;
    w.Some? && r.ts <= w.value
  }

  function Unshadowed(m: Streams, source: int, rows: seq<WalRow>): seq<WalRow> {
    if rows == [] then [] else
    (if Shadowed(m, source, rows[0]) then [] else [rows[0]]) + Unshadowed(m, source, rows[1..])
  }

  function DropShadowed(m: Streams, ticks: seq<Batch>): seq<Batch> {
    if ticks == [] then [] else
    var keep := Unshadowed(m, ticks[0].0, ticks[0].1);
    (if keep == [] then [] else [(ticks[0].0, keep)]) + DropShadowed(m, ticks[1..])
  }

  predicate AnyShadowed(m: Streams, ticks: seq<Batch>) {
    exists i, j :: 0 <= i < |ticks| && 0 <= j < |ticks[i].1| && Shadowed(m, ticks[i].0, ticks[i].1[j])
  }

  /** What is left to commit: floored batches dropped whole, shadowed rows dropped one by one. */
  function Filtered(m: Streams, floors: map<int, int>, ticks: seq<Batch>): seq<Batch> {
    var kept := DropFloored(floors, ticks);
    if AnyShadowed(m, kept) then DropShadowed(m, kept) else kept
  }

  /** Past its stream's watermark and, in a resumed source, past the floor. */
  predicate Acceptable(m: Streams, floors: map<int, int>, source: int, r: WalRow) {
    !Shadowed(m, source, r) && (source in floors ==> r.ts > floors[source])
  }

  ghost predicate AllAcceptable(m: Streams, floors: map<int, int>, b: Batch) {
    forall r :: r in b.1 ==> Acceptable(m, floors, b.0, r)
  }

  ghost predicate TickAcceptable(m: Streams, floors: map<int, int>, ticks: seq<Batch>, i: nat)
    requires i < |ticks|
  {
    AllAcceptable(m, floors, ticks[i])
  }

  ghost predicate TicksAcceptable(m: Streams, floors: map<int, int>, ticks: seq<Batch>) {
    forall i: nat :: i < |ticks| ==> TickAcceptable(m, floors, ticks, i)
  }

  lemma {:induction false} UnshadowedMembers(m: Streams, source: int, rows: seq<WalRow>, r: WalRow)
    ensures r in Unshadowed(m, source, rows) <==> r in rows && !Shadowed(m, source, r)
  {
    if rows != [] {
      UnshadowedMembers(m, source, rows[1..], r);
      assert r in rows <==> r == rows[0] || r in rows[1..];
    }
  }

  lemma {:induction false} DropFlooredAbove(floors: map<int, int>, ticks: seq<Batch>, b: Batch)
    requires b in DropFloored(floors, ticks)
    ensures b in ticks && !UnderFloor(floors, b)
  {
    if b !in DropFloored(floors, ticks[1..]) {
      assert b == ticks[0];
    } else {
      DropFlooredAbove(floors, ticks[1..], b);
    }
  }

  lemma {:induction false} DropShadowedPast(m: Streams, floors: map<int, int>, ticks: seq<Batch>, b: Batch)
    requires forall c :: c in ticks ==> !UnderFloor(floors, c)
    requires b in DropShadowed(m, ticks)
    ensures AllAcceptable(m, floors, b)
  {
    var head := (ticks[0].0, Unshadowed(m, ticks[0].0, ticks[0].1));
    if b == head {
      assert !UnderFloor(floors, ticks[0]);
      forall r | r in b.1 ensures Acceptable(m, floors, b.0, r) {
        UnshadowedMembers(m, b.0, ticks[0].1, r);
      }
    } else {
      DropShadowedPast(m, floors, ticks[1..], b);
    }
  }

  /** No row that reaches the commit is at or below its watermark or its source's floor. */
  lemma FilteredAcceptable(m: Streams, floors: map<int, int>, ticks: seq<Batch>, b: Batch)
    requires b in Filtered(m, floors, ticks)
    ensures AllAcceptable(m, floors, b)
  {
    var kept := DropFloored(floors, ticks);
    forall c | c in kept ensures !UnderFloor(floors, c) {
      DropFlooredAbove(floors, ticks, c);
    }
    if AnyShadowed(m, kept) {
      DropShadowedPast(m, floors, kept, b);
    } else {
      var i :| 0 <= i < |kept| && kept[i] == b;
      forall r | r in b.1 ensures Acceptable(m, floors, b.0, r) {
        var j :| 0 <= j < |b.1| && b.1[j] == r;
        assert !Shadowed(m, kept[i].0, kept[i].1[j]);
      }
    }
  }

  // ------------------------------------------------------------------ commits

  /** The first `n` rows inserted in one transaction; `Err` when one hits the primary key. */
  function InsertTo(m: Streams, source: int, rows: seq<WalRow>, n: nat): Result<Streams>
    requires n <= |rows|
  {
    if n == 0 then Ok(m) else
    match InsertTo(m, source, rows, n - 1)
    case Err => Err
    case Ok(m') =>
      var k := (source, rows[n - 1].stream);
      match AppendRow(At(m', k), rows[n - 1])
      case Err => Err
      case Ok(s) => Ok(m'[k := s])
  }

  /** `insert_wal_rows`: one source's rows, all or none. */
  function InsertRows(m: Streams, b: Batch): Result<Streams> {
    InsertTo(m, b.0, b.1, |b.1|)
  }

  /** `insert_wal_rows_batch`: the first `n` batches in one transaction. */
  function BatchTo(m: Streams, ticks: seq<Batch>, n: nat): Result<Streams>
    requires n <= |ticks|
  {
    if n == 0 then Ok(m) else
    match BatchTo(m, ticks, n - 1)
    case Err => Err
    case Ok(m') => InsertRows(m', ticks[n - 1])
  }

  /** One source's own transaction: one that collides, or fails, lands nothing. */
  function Land(m: Streams, b: Batch, failed: bool): Streams {
    if failed || InsertRows(m, b).Err? then m else InsertRows(m, b).value
  }

  /** The first `n` batches each in its own transaction. */
  function EachTo(m: Streams, ticks: seq<Batch>, fails: set<nat>, n: nat): Streams
    requires n <= |ticks|
  {
    if n == 0 then m else Land(EachTo(m, ticks, fails, n - 1), ticks[n - 1], n - 1 in fails)
  }

  /**
   * The commit of a filtered tick. `batchFails` is a retryable failure of the one
   * transaction that outlasts its retries, `fails` the same for single sources' retries.
   */
  function Commit(m: Streams, ticks: seq<Batch>, batchFails: bool, fails: set<nat>): Streams {
    if batchFails then m else
    match BatchTo(m, ticks, |ticks|)
    case Ok(m') => m'
    case Err => EachTo(m, ticks, fails, |ticks|)
  }

  lemma {:induction false} BatchIsEach(m: Streams, ticks: seq<Batch>, n: nat)
    requires n <= |ticks| && BatchTo(m, ticks, n).Ok?
    ensures EachTo(m, ticks, {}, n) == BatchTo(m, ticks, n).value
  {
    if n > 0 {
      BatchIsEach(m, ticks, n - 1);
    }
  }

  /**
   * The one-transaction tick refines per-source commits: absent retryable failures it
   * leaves exactly what committing the sources one by one would leave.
   */
  lemma TickRefinesEach(m: Streams, ticks: seq<Batch>)
    ensures Commit(m, ticks, false, {}) == EachTo(m, ticks, {}, |ticks|)
  {
    if BatchTo(m, ticks, |ticks|).Ok? {
      BatchIsEach(m, ticks, |ticks|);
    }
  }

  // ------------------------------------------------------------------ independence

  ghost predicate SameAt(m: Streams, m': Streams, k: Key) {
    At(m, k) == At(m', k)
  }

  ghost predicate Agree(m: Streams, m': Streams, source: int) {
    forall k: Key :: k.0 == source ==> SameAt(m, m', k)
  }

  /** An insert reads and writes its own source alone. */
  lemma {:induction false} InsertLocal(m: Streams, m': Streams, source: int, rows: seq<WalRow>, n: nat)
    requires n <= |rows| && Agree(m, m', source)
    ensures InsertTo(m, source, rows, n).Ok? <==> InsertTo(m', source, rows, n).Ok?
    ensures InsertTo(m, source, rows, n).Ok? ==>
              Agree(InsertTo(m, source, rows, n).value, InsertTo(m', source, rows, n).value, source)
  {
    if n > 0 {
      InsertLocal(m, m', source, rows, n - 1);
      var k := (source, rows[n - 1].stream);
      if InsertTo(m, source, rows, n - 1).Ok? {
        var p, p' := InsertTo(m, source, rows, n - 1).value, InsertTo(m', source, rows, n - 1).value;
        assert SameAt(p, p', k);
        if AppendRow(At(p, k), rows[n - 1]).Ok? {
          var q, q' := InsertTo(m, source, rows, n).value, InsertTo(m', source, rows, n).value;
          forall j: Key | j.0 == source ensures SameAt(q, q', j) {
            assert SameAt(p, p', j);
          }
        }
      }
    }
  }

  lemma {:induction false} InsertOthers(m: Streams, source: int, rows: seq<WalRow>, n: nat, other: int)
    requires n <= |rows| && other != source && InsertTo(m, source, rows, n).Ok?
    ensures Agree(m, InsertTo(m, source, rows, n).value, other)
  {
    if n > 0 {
      InsertOthers(m, source, rows, n - 1, other);
      var p, q := InsertTo(m, source, rows, n - 1).value, InsertTo(m, source, rows, n).value;
      forall j: Key | j.0 == other ensures SameAt(m, q, j) {
        assert SameAt(m, p, j);
      }
    }
  }

  lemma AgreeTrans(a: Streams, b: Streams, c: Streams, source: int)
    requires Agree(a, b, source) && Agree(b, c, source)
    ensures Agree(a, c, source)
  {
    forall k: Key | k.0 == source ensures SameAt(a, c, k) {
      assert SameAt(a, b, k) && SameAt(b, c, k);
    }
  }

  ghost predicate NotFrom(ticks: seq<Batch>, lo: nat, hi: nat, source: int)
    requires lo <= hi <= |ticks|
  {
    forall i :: lo <= i < hi ==> ticks[i].0 != source
  }

  /** Sources that are not `source`'s leave it alone, whatever they collide with. */
  lemma {:induction false} EachOthers(m: Streams, ticks: seq<Batch>, fails: set<nat>, lo: nat, hi: nat, source: int)
    requires lo <= hi <= |ticks| && NotFrom(ticks, lo, hi, source)
    ensures Agree(EachTo(m, ticks, fails, lo), EachTo(m, ticks, fails, hi), source)
    decreases hi
  {
    if lo < hi {
      EachOthers(m, ticks, fails, lo, hi - 1, source);
      var p := EachTo(m, ticks, fails, hi - 1);
      var b := ticks[hi - 1];
      if !(hi - 1 in fails || InsertRows(p, b).Err?) {
        InsertOthers(p, b.0, b.1, |b.1|, source);
        AgreeTrans(EachTo(m, ticks, fails, lo), p, EachTo(m, ticks, fails, hi), source);
      }
    }
  }

  /**
   * A source's rows land entirely or not at all, and which is decided by the archive as it
   * was before the tick: what other sources commit or collide with has no part in it.
   */
  lemma SourceIndependent(m: Streams, ticks: seq<Batch>, i: nat)
    requires i < |ticks|
    requires NotFrom(ticks, 0, i, ticks[i].0) && NotFrom(ticks, i + 1, |ticks|, ticks[i].0)
    ensures var after := Commit(m, ticks, false, {});
            match InsertRows(m, ticks[i])
            case Ok(m') => Agree(m', after, ticks[i].0)
            case Err => Agree(m, after, ticks[i].0)
  {
    var b := ticks[i];
    var n := |ticks|;
    TickRefinesEach(m, ticks);
    EachOthers(m, ticks, {}, 0, i, b.0);
    EachOthers(m, ticks, {}, i + 1, n, b.0);
    var p := EachTo(m, ticks, {}, i);
    InsertLocal(m, p, b.0, b.1, |b.1|);
    if InsertRows(m, b).Ok? {
      AgreeTrans(InsertRows(m, b).value, EachTo(m, ticks, {}, i + 1), EachTo(m, ticks, {}, n), b.0);
    } else {
      AgreeTrans(m, p, EachTo(m, ticks, {}, n), b.0);
    }
  }

  // ------------------------------------------------------------------ conservation

  /** The rows of the first `n` that belong to stream `k`. */
  function RowsFor(k: Key, source: int, rows: seq<WalRow>, n: nat): multiset<WalRow>
    requires n <= |rows|
  {
    if n == 0 then multiset{} else
    RowsFor(k, source, rows, n - 1) + if k == (source, rows[n - 1].stream) then multiset{rows[n - 1]} else multiset{}
  }

  ghost predicate SameMark(m: Streams, m': Streams, k: Key) {
    At(m, k).watermark == At(m', k).watermark
  }

  /** How often a reader of stream `k` sees row `r`. */
  function Sees(m: Streams, k: Key, r: WalRow): nat {
    multiset(View(At(m, k).t))[r]
  }

  /** A reader of stream `k` sees what it saw, and `gained` more. */
  ghost predicate Shows(m: Streams, m': Streams, k: Key, gained: multiset<WalRow>) {
    forall r :: Sees(m', k, r) == Sees(m, k, r) + gained[r]
  }

  /** Stream `k` stays sound and under the same watermark, and shows `gained` more. */
  ghost predicate Gains(m: Streams, m': Streams, k: Key, gained: multiset<WalRow>) {
    InvAt(m', k) && SameMark(m, m', k) && Shows(m, m', k, gained)
  }

  lemma GainsTrans(a: Streams, b: Streams, c: Streams, k: Key, x: multiset<WalRow>, y: multiset<WalRow>)
    requires Gains(a, b, k, x) && Gains(b, c, k, y)
    ensures Gains(a, c, k, x + y)
  {}

  /** A stream replaced by one that shows `gained` more. */
  lemma ReplaceGains(m: Streams, own: Key, s: Stream, k: Key, gained: multiset<WalRow>)
    requires InvAt(m, k) && Inv(s) && s.watermark == At(m, own).watermark
    requires multiset(View(s.t)) == multiset(View(At(m, own).t)) + gained
    ensures Gains(m, m[own := s], k, if k == own then gained else multiset{})
  {
    var m' := m[own := s];
    if k == own {
      assert Shows(m, m', k, gained);
    } else {
      assert At(m', k) == At(m, k);
    }
  }

  /** One row past its watermark. */
  lemma InsertGains(m: Streams, source: int, r: WalRow, s: Stream, k: Key)
    requires InvAt(m, k) && InvAt(m, (source, r.stream)) && !Shadowed(m, source, r)
    requires AppendRow(At(m, (source, r.stream)), r) == Ok(s)
    ensures Gains(m, m[(source, r.stream) := s], k, if k == (source, r.stream) then multiset{r} else multiset{})
  {
    assert IsAt(m, (source, r.stream), At(m, (source, r.stream)));
    AppendKeeps(At(m, (source, r.stream)), r, s);
    ReplaceGains(m, (source, r.stream), s, k, multiset{r});
  }

  /** Inserting rows past their watermarks keeps every stream sound and shows exactly those rows. */
  lemma {:induction false} InsertKeeps(m: Streams, source: int, rows: seq<WalRow>, n: nat, m': Streams, k: Key)
    requires n <= |rows| && AllInv(m) && InsertTo(m, source, rows, n) == Ok(m')
    requires forall r :: r in rows ==> !Shadowed(m, source, r)
    ensures Gains(m, m', k, RowsFor(k, source, rows, n))
  {
    assert InvAt(m, k);
    if n > 0 {
      var p := InsertTo(m, source, rows, n - 1).value;
      var r := rows[n - 1];
      var own := (source, r.stream);
      InsertKeeps(m, source, rows, n - 1, p, k);
      InsertKeeps(m, source, rows, n - 1, p, own);
      SameMarkShadow(m, p, source, r);
      InsertGains(p, source, r, AppendRow(At(p, own), r).value, k);
      GainsTrans(m, p, m', k, RowsFor(k, source, rows, n - 1), if k == own then multiset{r} else multiset{});
    }
  }

  lemma SameMarkShadow(m: Streams, m': Streams, source: int, r: WalRow)
    requires SameMark(m, m', (source, r.stream))
    ensures Shadowed(m, source, r) <==> Shadowed(m', source, r)
  {}

  function LandFor(k: Key, m: Streams, b: Batch, failed: bool): multiset<WalRow> {
    if failed || InsertRows(m, b).Err? then multiset{} else RowsFor(k, b.0, b.1, |b.1|)
  }

  /** The rows of stream `k` that the first `n` batches land when committed one by one. */
  function EachFor(k: Key, m: Streams, ticks: seq<Batch>, fails: set<nat>, n: nat): multiset<WalRow>
    requires n <= |ticks|
  {
    if n == 0 then multiset{} else
    EachFor(k, m, ticks, fails, n - 1) + LandFor(k, EachTo(m, ticks, fails, n - 1), ticks[n - 1], n - 1 in fails)
  }

  /** The rows of stream `k` a tick's commit lands. */
  function CommitFor(k: Key, m: Streams, ticks: seq<Batch>, batchFails: bool, fails: set<nat>): multiset<WalRow> {
    if batchFails then multiset{} else
    EachFor(k, m, ticks, if BatchTo(m, ticks, |ticks|).Ok? then {} else fails, |ticks|)
  }

  /** One more source's commit. */
  lemma LandKeeps(m: Streams, floors: map<int, int>, p: Streams, b: Batch, failed: bool, k: Key, g: multiset<WalRow>)
    requires AllAcceptable(m, floors, b) && AllInv(p)
    requires (forall j: Key :: SameMark(m, p, j)) && Gains(m, p, k, g)
    ensures Gains(m, Land(p, b, failed), k, g + LandFor(k, p, b, failed))
  {
    if !failed && InsertRows(p, b).Ok? {
      StillUnshadowed(m, floors, p, b);
      InsertKeeps(p, b.0, b.1, |b.1|, InsertRows(p, b).value, k);
      GainsTrans(m, p, InsertRows(p, b).value, k, g, RowsFor(k, b.0, b.1, |b.1|));
    }
  }

  lemma {:induction false} EachKeeps(
    m: Streams, floors: map<int, int>, ticks: seq<Batch>, fails: set<nat>, n: nat, k: Key)
    requires n <= |ticks| && AllInv(m)
    requires TicksAcceptable(m, floors, ticks)
    ensures Gains(m, EachTo(m, ticks, fails, n), k, EachFor(k, m, ticks, fails, n))
    decreases n
  {
    assert InvAt(m, k);
    if n > 0 {
      var p := EachTo(m, ticks, fails, n - 1);
      EachKeeps(m, floors, ticks, fails, n - 1, k);
      forall j: Key ensures InvAt(p, j) && SameMark(m, p, j) {
        EachKeeps(m, floors, ticks, fails, n - 1, j);
      }
      assert TickAcceptable(m, floors, ticks, n - 1);
      LandKeeps(m, floors, p, ticks[n - 1], n - 1 in fails, k, EachFor(k, m, ticks, fails, n - 1));
    }
  }

  lemma StillUnshadowed(m: Streams, floors: map<int, int>, p: Streams, b: Batch)
    requires AllAcceptable(m, floors, b) && forall j: Key :: SameMark(m, p, j)
    ensures forall r :: r in b.1 ==> !Shadowed(p, b.0, r)
  {
    forall r | r in b.1 ensures !Shadowed(p, b.0, r) {
      assert Acceptable(m, floors, b.0, r) && SameMark(m, p, (b.0, r.stream));
      SameMarkShadow(m, p, b.0, r);
    }
  }

  /** A filtered tick's commit keeps every stream sound and shows exactly the rows it lands. */
  lemma CommitKeeps(m: Streams, floors: map<int, int>, ticks: seq<Batch>, batchFails: bool, fails: set<nat>, k: Key)
    requires AllInv(m)
    requires TicksAcceptable(m, floors, ticks)
    ensures Gains(m, Commit(m, ticks, batchFails, fails), k, CommitFor(k, m, ticks, batchFails, fails))
  {
    assert InvAt(m, k);
    if !batchFails {
      var ok := BatchTo(m, ticks, |ticks|).Ok?;
      if ok {
        BatchIsEach(m, ticks, |ticks|);
      }
      EachKeeps(m, floors, ticks, if ok then {} else fails, |ticks|, k);
    }
  }
}
