/**
 * A seal against failures: one attempt, the retry schedule, and the deferred seals a
 * retention pass retries before it deletes anything (src/writer.rs).
 */
module Seals {
  import opened Types
  import opened Rows
  import opened Encoding
  import opened Catalog
  import opened Ticks
  import opened Machine
  import opened Retention

  /** How an operation of the database ends: `Busy` is retryable, `Broken` is not. */
  datatype Fault = NoFault | Busy | Broken

  /** What the database answers one attempt: its reads, its commit, and the prunes that fail. */
  datatype Attempt = Attempt(read: Fault, commit: Fault, prune: map<nat, Fault>)

  /** An attempt none of whose operations fail. */
  const SMOOTH := Attempt(NoFault, NoFault, map[])

  /** The answers to a schedule of attempts; those not listed go smoothly. */
  type Schedule = seq<Attempt>

  function AttemptAt(attempts: Schedule, i: nat): Attempt {
    if i < |attempts| then attempts[i] else SMOOTH
  }

  function ScheduleAt(schedules: seq<Schedule>, i: nat): Schedule {
    if i < |schedules| then schedules[i] else []
  }

  function FaultAt(faults: map<nat, Fault>, i: nat): Fault {
    if i in faults then faults[i] else NoFault
  }

  datatype Outcome = Outcome(streams: Streams, fault: Fault)

  /** The prunes of the first `n` streams of a committed seal, up to the first that fails. */
  function PruneTo(
    m: Streams, m': Streams, source: int, batch: seq<Text>, maxRows: nat, enc: Encoders, prune: map<nat, Fault>, n: nat)
    : Outcome
    requires n <= |batch|
  {
    if n == 0 then Outcome(m', NoFault) else
    var o := PruneTo(m, m', source, batch, maxRows, enc, prune, n - 1);
    if o.fault != NoFault then o else
    PruneOne(o.streams, (source, batch[n - 1]), SealedUpTo(enc(batch[n - 1]), At(m, (source, batch[n - 1])), maxRows), FaultAt(prune, n - 1))
  }

  function PruneOne(m: Streams, k: Key, upto: Option<int>, fault: Fault): Outcome {
    if upto.None? then Outcome(m, NoFault)
    else if fault != NoFault then Outcome(m, fault)
    else Outcome(PruneAt(m, k, upto.value), NoFault)
  }

  /** `seal_batch`: an encoder's failure, or a `seq` offered twice, is not retryable. */
  function AttemptSeal(m: Streams, source: int, batch: seq<Text>, maxRows: nat, enc: Encoders, a: Attempt): Outcome {
    if a.read != NoFault then Outcome(m, a.read) else
    match SealBatch(m, source, batch, maxRows, enc)
    case Err => Outcome(m, Broken)
    case Ok(m') =>
      if a.commit != NoFault then Outcome(m, a.commit)
      else PruneTo(m, m', source, batch, maxRows, enc, a.prune, |batch|)
  }

  /** Retries after the first attempt (`RETRY_BACKOFF`). */
  const RETRIES: nat := 3

  /** `with_retries` around a seal, from attempt `i` on. */
  function Retried(
    m: Streams, source: int, batch: seq<Text>, maxRows: nat, enc: Encoders, attempts: Schedule, i: nat): Outcome
    decreases RETRIES - i
  {
    var o := AttemptSeal(m, source, batch, maxRows, enc, AttemptAt(attempts, i));
    if o.fault == Busy && i < RETRIES then Retried(o.streams, source, batch, maxRows, enc, attempts, i + 1) else o
  }

  // ------------------------------------------------------------------ seals stay inside the machine

  lemma SealedUpToIs(enc: Encoder, s: Stream, maxRows: nat, s': Stream)
    requires SealStream(enc, s, maxRows) == Ok(s') && SealedUpTo(enc, s, maxRows).Some?
    ensures s'.t.segs != [] && LastOf(s'.t.segs) == SealedUpTo(enc, s, maxRows).value
  {}

  lemma {:induction false} PruneToSegs(
    m: Streams, m': Streams, source: int, batch: seq<Text>, maxRows: nat, enc: Encoders, prune: map<nat, Fault>, n: nat, k: Key)
    requires n <= |batch|
    ensures At(PruneTo(m, m', source, batch, maxRows, enc, prune, n).streams, k).t.segs == At(m', k).t.segs
    ensures k.0 != source || k.1 !in batch ==> At(PruneTo(m, m', source, batch, maxRows, enc, prune, n).streams, k) == At(m', k)
  {
    if n > 0 {
      PruneToSegs(m, m', source, batch, maxRows, enc, prune, n - 1, k);
    }
  }

  lemma PruneOneReaches(w: World, m: Streams, floors: map<int, int>, k: Key, upto: Option<int>, fault: Fault, o: Outcome)
    requires Reaches(w, World(m, floors)) && o == PruneOne(m, k, upto, fault)
    requires upto.Some? ==> At(m, k).t.segs != [] && upto.value <= LastOf(At(m, k).t.segs)
    ensures Reaches(w, World(o.streams, floors))
  {
    if upto.Some? && fault == NoFault {
      ReachesStep(w, World(m, floors), PruneUpTo(k, upto.value));
    }
  }

  /** A prune follows its own stream's segment, which no other prune removes. */
  lemma PruneLegal(
    m: Streams, m': Streams, source: int, batch: seq<Text>, maxRows: nat, enc: Encoders, prune: map<nat, Fault>, n: nat)
    requires n < |batch| && SealBatch(m, source, batch, maxRows, enc) == Ok(m')
    ensures var k := (source, batch[n]);
            var upto := SealedUpTo(enc(k.1), At(m, k), maxRows);
            var segs := At(PruneTo(m, m', source, batch, maxRows, enc, prune, n).streams, k).t.segs;
            upto.Some? ==> segs != [] && upto.value <= LastOf(segs)
  {
    var k := (source, batch[n]);
    SealAt(m, source, batch, maxRows, enc, |batch|, m', k);
    assert batch[n] in batch[..|batch|];
    PruneToSegs(m, m', source, batch, maxRows, enc, prune, n, k);
    if SealedUpTo(enc(k.1), At(m, k), maxRows).Some? {
      SealedUpToIs(enc(k.1), At(m, k), maxRows, At(m', k));
    }
  }

  lemma {:induction false} PruneToReaches(
    w: World, m: Streams, m': Streams, floors: map<int, int>, source: int, batch: seq<Text>, maxRows: nat, enc: Encoders,
    prune: map<nat, Fault>, n: nat, o: Outcome)
    requires n <= |batch| && SealBatch(m, source, batch, maxRows, enc) == Ok(m')
    requires Reaches(w, World(m', floors)) && o == PruneTo(m, m', source, batch, maxRows, enc, prune, n)
    ensures Reaches(w, World(o.streams, floors))
  {
    if n > 0 {
      var p := PruneTo(m, m', source, batch, maxRows, enc, prune, n - 1);
      PruneToReaches(w, m, m', floors, source, batch, maxRows, enc, prune, n - 1, p);
      if p.fault == NoFault {
        PruneNextReaches(w, m, m', floors, source, batch, maxRows, enc, prune, n - 1, p, o);
      }
    }
  }

  lemma PruneNextReaches(
    w: World, m: Streams, m': Streams, floors: map<int, int>, source: int, batch: seq<Text>, maxRows: nat, enc: Encoders,
    prune: map<nat, Fault>, n: nat, p: Outcome, o: Outcome)
    requires n < |batch| && SealBatch(m, source, batch, maxRows, enc) == Ok(m') && Reaches(w, World(p.streams, floors))
    requires p == PruneTo(m, m', source, batch, maxRows, enc, prune, n) && p.fault == NoFault
    requires o == PruneOne(p.streams, (source, batch[n]), SealedUpTo(enc(batch[n]), At(m, (source, batch[n])), maxRows), FaultAt(prune, n))
    ensures Reaches(w, World(o.streams, floors))
  {
    var k := (source, batch[n]);
    PruneLegal(m, m', source, batch, maxRows, enc, prune, n);
    PruneOneReaches(w, p.streams, floors, k, SealedUpTo(enc(k.1), At(m, k), maxRows), FaultAt(prune, n), o);
  }

  lemma AttemptReaches(
    w: World, m: Streams, floors: map<int, int>, source: int, batch: seq<Text>, maxRows: nat, enc: Encoders, a: Attempt)
    requires Reaches(w, World(m, floors))
    ensures Reaches(w, World(AttemptSeal(m, source, batch, maxRows, enc, a).streams, floors))
  {
    var r := SealBatch(m, source, batch, maxRows, enc);
    if r.Ok? {
      ReachesStep(w, World(m, floors), Seal(source, batch, maxRows, enc));
      PruneToReaches(w, m, r.value, floors, source, batch, maxRows, enc, a.prune, |batch|,
        PruneTo(m, r.value, source, batch, maxRows, enc, a.prune, |batch|));
    }
  }

  /** Whatever fails and however often it is retried, a seal is steps of the storage machine. */
  lemma {:induction false} RetriedReaches(
    w: World, m: Streams, floors: map<int, int>, source: int, batch: seq<Text>, maxRows: nat, enc: Encoders,
    attempts: Schedule, i: nat)
    requires Reaches(w, World(m, floors))
    ensures Reaches(w, World(Retried(m, source, batch, maxRows, enc, attempts, i).streams, floors))
    decreases RETRIES - i
  {
    AttemptReaches(w, m, floors, source, batch, maxRows, enc, AttemptAt(attempts, i));
    var o := AttemptSeal(m, source, batch, maxRows, enc, AttemptAt(attempts, i));
    if o.fault == Busy && i < RETRIES {
      RetriedReaches(w, o.streams, floors, source, batch, maxRows, enc, attempts, i + 1);
    }
  }

  // ------------------------------------------------------------------ what a failed seal leaves

  /** Nothing of the stream was deleted: its WAL is as it was and its segments are still there. */
  ghost predicate Untouched(s: Stream, s': Stream) {
    && s'.t.wal == s.t.wal
    && s.t.segs <= s'.t.segs
    && s.t.nums <= s'.t.nums
  }

  lemma SealUntouched(enc: Encoder, s: Stream, maxRows: nat, s': Stream)
    requires SealStream(enc, s, maxRows) == Ok(s')
    ensures Untouched(s, s')
  {}

  /** A seal of one stream that ends in a retryable failure deleted nothing. */
  lemma BusyUntouched(m: Streams, source: int, stream: Text, maxRows: nat, enc: Encoders, a: Attempt)
    requires AttemptSeal(m, source, [stream], maxRows, enc, a).fault != NoFault
    ensures var m' := AttemptSeal(m, source, [stream], maxRows, enc, a).streams;
            Untouched(At(m, (source, stream)), At(m', (source, stream)))
  {
    var k := (source, stream);
    var r := SealBatch(m, source, [stream], maxRows, enc);
    if a.read == NoFault && r.Ok? && a.commit == NoFault {
      SealAt(m, source, [stream], maxRows, enc, 1, r.value, k);
      assert stream in [stream][..1];
      SealUntouched(enc(stream), At(m, k), maxRows, At(r.value, k));
      var o := PruneTo(m, r.value, source, [stream], maxRows, enc, a.prune, 1);
      assert PruneTo(m, r.value, source, [stream], maxRows, enc, a.prune, 0) == Outcome(r.value, NoFault);
      assert o.streams == r.value;
    }
  }

  lemma AttemptOthers(m: Streams, source: int, stream: Text, maxRows: nat, enc: Encoders, a: Attempt, k: Key)
    requires k != (source, stream)
    ensures At(AttemptSeal(m, source, [stream], maxRows, enc, a).streams, k) == At(m, k)
  {
    var r := SealBatch(m, source, [stream], maxRows, enc);
    if r.Ok? {
      SealAt(m, source, [stream], maxRows, enc, 1, r.value, k);
      PruneToSegs(m, r.value, source, [stream], maxRows, enc, a.prune, 1, k);
    }
  }

  /** The same through the retry schedule. */
  lemma {:induction false} RetriedUntouched(
    m: Streams, source: int, stream: Text, maxRows: nat, enc: Encoders, attempts: Schedule, i: nat, k: Key)
    ensures var o := Retried(m, source, [stream], maxRows, enc, attempts, i);
            && (k != (source, stream) ==> At(o.streams, k) == At(m, k))
            && (k == (source, stream) && o.fault == Busy ==> Untouched(At(m, k), At(o.streams, k)))
    decreases RETRIES - i
  {
    var o := AttemptSeal(m, source, [stream], maxRows, enc, AttemptAt(attempts, i));
    if k != (source, stream) {
      AttemptOthers(m, source, stream, maxRows, enc, AttemptAt(attempts, i), k);
    } else if o.fault == Busy {
      BusyUntouched(m, source, stream, maxRows, enc, AttemptAt(attempts, i));
    }
    if o.fault == Busy && i < RETRIES {
      RetriedUntouched(o.streams, source, stream, maxRows, enc, attempts, i + 1, k);
    }
  }

  // ------------------------------------------------------------------ the retries before retention

  datatype Retry = Retry(streams: Streams, held: seq<(Text, nat)>)

  /**
   * `retry_deferred_seals` over the first `n` listed streams, each with its own cap and its
   * own transaction: after the first retryable failure the rest are held untried.
   */
  function RetryTo(
    m: Streams, source: int, listed: seq<(Text, nat)>, enc: Encoders, attempts: seq<Schedule>, n: nat): Retry
    requires n <= |listed|
  {
    if n == 0 then Retry(m, []) else
    var r := RetryTo(m, source, listed, enc, attempts, n - 1);
    RetryOne(r, source, listed[n - 1].0, listed[n - 1].1, enc, ScheduleAt(attempts, n - 1))
  }

  function RetryOne(r: Retry, source: int, stream: Text, cap: nat, enc: Encoders, attempts: Schedule): Retry {
    if r.held != [] then r.(held := r.held + [(stream, cap)]) else
    var o := Retried(r.streams, source, [stream], cap, enc, attempts, 0);
    if o.fault == Busy then Retry(o.streams, [(stream, cap)]) else Retry(o.streams, [])
  }

  /** The first `c` streams ended sealed or abandoned, and the next one's seal was the first still busy. */
  ghost predicate FirstBusy(
    m: Streams, source: int, listed: seq<(Text, nat)>, enc: Encoders, attempts: seq<Schedule>, c: nat, after: Streams)
    requires c < |listed|
  {
    var r := RetryTo(m, source, listed, enc, attempts, c);
    r.held == [] && Retried(r.streams, source, [listed[c].0], listed[c].1, enc, ScheduleAt(attempts, c), 0) == Outcome(after, Busy)
  }

  lemma HeldStep(p: Retry, source: int, stream: Text, cap: nat, enc: Encoders, attempts: Schedule, r: Retry)
    requires r == RetryOne(p, source, stream, cap, enc, attempts)
    ensures p.held != [] ==> r == Retry(p.streams, p.held + [(stream, cap)])
    ensures p.held == [] && r.held != [] ==>
              r.held == [(stream, cap)] && Retried(p.streams, source, [stream], cap, enc, attempts, 0) == Outcome(r.streams, Busy)
  {}

  /** The streams held are exactly the listed ones from the first retryable failure on. */
  lemma {:induction false} HeldIsSuffix(
    m: Streams, source: int, listed: seq<(Text, nat)>, enc: Encoders, attempts: seq<Schedule>, n: nat, r: Retry)
    returns (c: nat)
    requires n <= |listed| && r == RetryTo(m, source, listed, enc, attempts, n)
    ensures c <= n && |r.held| == n - c && forall i :: 0 <= i < n - c ==> r.held[i] == listed[c + i]
    ensures c < n ==> FirstBusy(m, source, listed, enc, attempts, c, r.streams)
    decreases n
  {
    if n == 0 {
      c := 0;
    } else {
      var p := RetryTo(m, source, listed, enc, attempts, n - 1);
      c := HeldIsSuffix(m, source, listed, enc, attempts, n - 1, p);
      HeldStep(p, source, listed[n - 1].0, listed[n - 1].1, enc, ScheduleAt(attempts, n - 1), r);
      if p.held == [] {
        c := if r.held == [] then n else n - 1;
      }
    }
  }

  /** Every stream tried before the first one held ended there: sealed, or abandoned to the pass. */
  lemma {:induction false} TriedEnded(
    m: Streams, source: int, listed: seq<(Text, nat)>, enc: Encoders, attempts: seq<Schedule>, n: nat, j: nat)
    requires j < n <= |listed| && RetryTo(m, source, listed, enc, attempts, n).held == []
    ensures RetryTo(m, source, listed, enc, attempts, j).held == []
    ensures Retried(RetryTo(m, source, listed, enc, attempts, j).streams, source, [listed[j].0], listed[j].1, enc,
                    ScheduleAt(attempts, j), 0).fault != Busy
    decreases n
  {
    if j < n - 1 {
      NotHeldBefore(m, source, listed, enc, attempts, n - 1);
      TriedEnded(m, source, listed, enc, attempts, n - 1, j);
    } else {
      NotHeldBefore(m, source, listed, enc, attempts, j);
    }
  }

  lemma NotHeldBefore(m: Streams, source: int, listed: seq<(Text, nat)>, enc: Encoders, attempts: seq<Schedule>, n: nat)
    requires n < |listed| && RetryTo(m, source, listed, enc, attempts, n + 1).held == []
    ensures RetryTo(m, source, listed, enc, attempts, n).held == []
  {}

  /** An attempt without a fault leaves a row-preserving encoder's stream sealed, and changes no row. */
  lemma SealedMeans(m: Streams, source: int, stream: Text, maxRows: nat, enc: Encoders, a: Attempt)
    requires Inv(At(m, (source, stream))) && RowPreserving(enc(stream))
    requires AttemptSeal(m, source, [stream], maxRows, enc, a).fault == NoFault
    ensures var s := At(AttemptSeal(m, source, [stream], maxRows, enc, a).streams, (source, stream));
            LiveWal(s.t) == [] && View(s.t) == View(At(m, (source, stream)).t)
  {
    var k := (source, stream);
    var m' := SealBatch(m, source, [stream], maxRows, enc).value;
    SealAt(m, source, [stream], maxRows, enc, 1, m', k);
    assert stream in [stream][..1];
    var s' := RowPreservingSealStream(enc(stream), At(m, k), maxRows);
    var upto := SealedUpTo(enc(stream), At(m, k), maxRows);
    assert PruneTo(m, m', source, [stream], maxRows, enc, a.prune, 0) == Outcome(m', NoFault);
    if upto.Some? {
      SealedUpToIs(enc(stream), At(m, k), maxRows, s');
      PruneKeeps(s', upto.value);
    }
  }

  lemma {:induction false} RetryOthers(
    m: Streams, source: int, listed: seq<(Text, nat)>, enc: Encoders, attempts: seq<Schedule>, n: nat, k: Key)
    requires n <= |listed|
    requires k.0 == source ==> forall i :: 0 <= i < n ==> listed[i].0 != k.1
    ensures At(RetryTo(m, source, listed, enc, attempts, n).streams, k) == At(m, k)
  {
    if n > 0 {
      RetryOthers(m, source, listed, enc, attempts, n - 1, k);
      var r := RetryTo(m, source, listed, enc, attempts, n - 1);
      RetriedUntouched(r.streams, source, listed[n - 1].0, listed[n - 1].1, enc, ScheduleAt(attempts, n - 1), 0, k);
    }
  }

  /**
   * A stream still pending after the retries lost nothing to them, and one after the first
   * retryable failure was not tried at all.
   */
  lemma HeldUntouched(
    m: Streams, source: int, listed: seq<(Text, nat)>, enc: Encoders, attempts: seq<Schedule>, j: nat)
    requires KeyOrder(listed) && j < |listed|
    requires listed[j] in RetryTo(m, source, listed, enc, attempts, |listed|).held
    ensures var m' := RetryTo(m, source, listed, enc, attempts, |listed|).streams;
            && Untouched(At(m, (source, listed[j].0)), At(m', (source, listed[j].0)))
            && (listed[j] != RetryTo(m, source, listed, enc, attempts, |listed|).held[0]
                ==> At(m', (source, listed[j].0)) == At(m, (source, listed[j].0)))
  {
    var n := |listed|;
    var r := RetryTo(m, source, listed, enc, attempts, n);
    var c := HeldIsSuffix(m, source, listed, enc, attempts, n, r);
    var k := (source, listed[j].0);
    var i :| 0 <= i < |r.held| && r.held[i] == listed[j];
    forall a | 0 <= a < c + i ensures listed[a].0 != k.1 {
      KeyOrderDistinct(listed, a, c + i);
    }
    RetryOthers(m, source, listed, enc, attempts, c, k);
    RetriedUntouched(RetryTo(m, source, listed, enc, attempts, c).streams, source, listed[c].0, listed[c].1, enc, ScheduleAt(attempts, c), 0, k);
  }

  lemma {:induction false} RetryReaches(
    w: World, m: Streams, floors: map<int, int>, source: int, listed: seq<(Text, nat)>, enc: Encoders,
    attempts: seq<Schedule>, n: nat)
    requires n <= |listed| && Reaches(w, World(m, floors))
    ensures Reaches(w, World(RetryTo(m, source, listed, enc, attempts, n).streams, floors))
  {
    if n > 0 {
      RetryReaches(w, m, floors, source, listed, enc, attempts, n - 1);
      var r := RetryTo(m, source, listed, enc, attempts, n - 1);
      RetriedReaches(w, r.streams, floors, source, [listed[n - 1].0], listed[n - 1].1, enc, ScheduleAt(attempts, n - 1), 0);
    }
  }

  // ------------------------------------------------------------------ seals name no new stream

  lemma {:induction false} SealKeys(m: Streams, source: int, batch: seq<Text>, maxRows: nat, enc: Encoders, n: nat, m': Streams)
    requires n <= |batch| && SealTo(m, source, batch, maxRows, enc, n) == Ok(m')
    ensures m'.Keys == m.Keys
  {
    if n > 0 {
      SealKeys(m, source, batch, maxRows, enc, n - 1, SealTo(m, source, batch, maxRows, enc, n - 1).value);
      assert LiveWal(EMPTY.t) == [];
    }
  }

  lemma {:induction false} PruneKeys(
    m: Streams, m': Streams, source: int, batch: seq<Text>, maxRows: nat, enc: Encoders, prune: map<nat, Fault>, n: nat)
    requires n <= |batch|
    ensures PruneTo(m, m', source, batch, maxRows, enc, prune, n).streams.Keys == m'.Keys
  {
    if n > 0 {
      PruneKeys(m, m', source, batch, maxRows, enc, prune, n - 1);
    }
  }

  lemma AttemptKeys(m: Streams, source: int, batch: seq<Text>, maxRows: nat, enc: Encoders, a: Attempt)
    ensures AttemptSeal(m, source, batch, maxRows, enc, a).streams.Keys == m.Keys
  {
    var r := SealBatch(m, source, batch, maxRows, enc);
    if r.Ok? {
      SealKeys(m, source, batch, maxRows, enc, |batch|, r.value);
      PruneKeys(m, r.value, source, batch, maxRows, enc, a.prune, |batch|);
    }
  }

  lemma {:induction false} RetriedKeys(
    m: Streams, source: int, batch: seq<Text>, maxRows: nat, enc: Encoders, attempts: Schedule, i: nat)
    ensures Retried(m, source, batch, maxRows, enc, attempts, i).streams.Keys == m.Keys
    decreases RETRIES - i
  {
    var a := AttemptAt(attempts, i);
    AttemptKeys(m, source, batch, maxRows, enc, a);
    var o := AttemptSeal(m, source, batch, maxRows, enc, a);
    if o.fault == Busy && i < RETRIES {
      RetriedKeys(o.streams, source, batch, maxRows, enc, attempts, i + 1);
    }
  }

  lemma {:induction false} RetryKeys(
    m: Streams, source: int, listed: seq<(Text, nat)>, enc: Encoders, attempts: seq<Schedule>, n: nat)
    requires n <= |listed|
    ensures RetryTo(m, source, listed, enc, attempts, n).streams.Keys == m.Keys
  {
    if n > 0 {
      RetryKeys(m, source, listed, enc, attempts, n - 1);
      var r := RetryTo(m, source, listed, enc, attempts, n - 1);
      RetriedKeys(r.streams, source, [listed[n - 1].0], listed[n - 1].1, enc, ScheduleAt(attempts, n - 1), 0);
    }
  }
}
