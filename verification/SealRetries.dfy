/**
 * How a seal's retry schedule ends, and what its prunes leave (`with_retries` and `seal_batch`
 * in src/writer.rs).
 */
module SealRetries {
  import opened Types
  import opened Rows
  import opened Encoding
  import opened Catalog
  import opened Ticks
  import opened Machine
  import opened Retention
  import opened Seals

  // ------------------------------------------------------------------ how a schedule ends

  /** What attempt `k` does, on the streams the attempts before it left. */
  function Tried(m: Streams, source: int, batch: seq<Text>, maxRows: nat, enc: Encoders, attempts: Schedule, k: nat): Outcome {
    AttemptSeal(if k == 0 then m else Tried(m, source, batch, maxRows, enc, attempts, k - 1).streams,
                source, batch, maxRows, enc, if k < |attempts| then attempts[k] else SMOOTH)
  }

  ghost predicate BusyAt(m: Streams, source: int, batch: seq<Text>, maxRows: nat, enc: Encoders, attempts: Schedule, k: nat) {
    Tried(m, source, batch, maxRows, enc, attempts, k).fault == Busy
  }

  lemma {:induction false} RetriedFrom(
    m: Streams, source: int, batch: seq<Text>, maxRows: nat, enc: Encoders, attempts: Schedule, i: nat, k: nat, start: Streams)
    requires i <= k <= 3 && start == if i == 0 then m else Tried(m, source, batch, maxRows, enc, attempts, i - 1).streams
    requires forall j: nat :: i <= j < k ==> BusyAt(m, source, batch, maxRows, enc, attempts, j)
    requires k == 3 || !BusyAt(m, source, batch, maxRows, enc, attempts, k)
    ensures Retried(start, source, batch, maxRows, enc, attempts, i) == Tried(m, source, batch, maxRows, enc, attempts, k)
    decreases k - i
  {
    if i < k {
      assert BusyAt(m, source, batch, maxRows, enc, attempts, i);
      RetriedFrom(m, source, batch, maxRows, enc, attempts, i + 1, k, Tried(m, source, batch, maxRows, enc, attempts, i).streams);
    }
  }

  /**
   * A retried seal ends as its first attempt that does not fail retryably, and after the fourth in
   * any case: it is still busy exactly when four attempts in a row were.
   */
  lemma RetriesEnd(m: Streams, source: int, batch: seq<Text>, maxRows: nat, enc: Encoders, attempts: Schedule) returns (k: nat)
    ensures k <= 3 && Retried(m, source, batch, maxRows, enc, attempts, 0) == Tried(m, source, batch, maxRows, enc, attempts, k)
    ensures forall j: nat :: j < k ==> Tried(m, source, batch, maxRows, enc, attempts, j).fault == Busy
    ensures k < 3 ==> Tried(m, source, batch, maxRows, enc, attempts, k).fault != Busy
    ensures Retried(m, source, batch, maxRows, enc, attempts, 0).fault == Busy <==>
              forall j: nat :: j <= 3 ==> Tried(m, source, batch, maxRows, enc, attempts, j).fault == Busy
  {
    k := 0;
    while k < 3 && Tried(m, source, batch, maxRows, enc, attempts, k).fault == Busy
      invariant k <= 3
      invariant forall j: nat :: j < k ==> BusyAt(m, source, batch, maxRows, enc, attempts, j)
    {
      assert BusyAt(m, source, batch, maxRows, enc, attempts, k);
      k := k + 1;
    }
    RetriedFrom(m, source, batch, maxRows, enc, attempts, 0, k, m);
    forall j: nat | j < k ensures Tried(m, source, batch, maxRows, enc, attempts, j).fault == Busy {
      assert BusyAt(m, source, batch, maxRows, enc, attempts, j);
    }
  }

  // ------------------------------------------------------------------ one transaction

  /** Stream `n` of a batch can be encoded, and offers no number a second time. */
  ghost predicate CanSeal(m: Streams, source: int, batch: seq<Text>, maxRows: nat, enc: Encoders, n: nat)
    requires n < |batch|
  {
    && SealStream(enc(batch[n]), At(m, (source, batch[n])), maxRows).Ok?
    && (SealStream(enc(batch[n]), At(m, (source, batch[n])), maxRows) == Ok(At(m, (source, batch[n])))
        || forall i: nat :: i < n ==> batch[i] != batch[n])
  }

  ghost predicate AllCanSeal(m: Streams, source: int, batch: seq<Text>, maxRows: nat, enc: Encoders, n: nat)
    requires n <= |batch|
  {
    forall k: nat :: k < n ==> CanSeal(m, source, batch, maxRows, enc, k)
  }

  /**
   * A seal's transaction goes through exactly when every stream named can be encoded and none that
   * has anything to seal is named twice.
   */
  lemma {:induction false} BatchDecided(m: Streams, source: int, batch: seq<Text>, maxRows: nat, enc: Encoders, n: nat)
    requires n <= |batch|
    ensures SealTo(m, source, batch, maxRows, enc, n).Ok? <==> AllCanSeal(m, source, batch, maxRows, enc, n)
  {
    if n > 0 {
      BatchDecided(m, source, batch, maxRows, enc, n - 1);
      NextDecided(m, source, batch, maxRows, enc, n - 1, n);
      NextCanSeal(m, source, batch, maxRows, enc, n - 1, n);
    }
  }

  lemma NextCanSeal(m: Streams, source: int, batch: seq<Text>, maxRows: nat, enc: Encoders, k: nat, n: nat)
    requires n == k + 1 <= |batch|
    ensures AllCanSeal(m, source, batch, maxRows, enc, n) <==>
              AllCanSeal(m, source, batch, maxRows, enc, k) && CanSeal(m, source, batch, maxRows, enc, k)
  {}

  lemma NextDecided(m: Streams, source: int, batch: seq<Text>, maxRows: nat, enc: Encoders, k: nat, n: nat)
    requires n == k + 1 <= |batch|
    ensures SealTo(m, source, batch, maxRows, enc, n).Ok? <==>
              SealTo(m, source, batch, maxRows, enc, k).Ok? && CanSeal(m, source, batch, maxRows, enc, k)
  {
    if SealTo(m, source, batch, maxRows, enc, k).Ok? {
      OneDecided(m, SealTo(m, source, batch, maxRows, enc, k).value, source, batch, maxRows, enc, k);
    }
  }

  lemma OneDecided(m: Streams, p: Streams, source: int, batch: seq<Text>, maxRows: nat, enc: Encoders, n: nat)
    requires n < |batch|
    ensures SealOne(m, p, source, batch[n], maxRows, enc, batch[n] in batch[..n]).Ok? <==> CanSeal(m, source, batch, maxRows, enc, n)
  {
    CommitsMore(enc(batch[n]), At(m, (source, batch[n])), maxRows);
    NamedBefore(batch, n);
  }

  lemma NamedBefore(batch: seq<Text>, n: nat)
    requires n < |batch|
    ensures batch[n] in batch[..n] <==> exists i: nat :: i < n && batch[i] == batch[n]
  {
    if i: nat :| i < n && batch[i] == batch[n] {
      assert batch[..n][i] == batch[n];
    }
  }

  /** Committing segments changes the stream. */
  lemma CommitsMore(enc: Encoder, s: Stream, maxRows: nat)
    ensures SealedFrom(enc, s, maxRows).Some? ==> SealStream(enc, s, maxRows).Ok? && |SealStream(enc, s, maxRows).value.t.segs| > |s.t.segs|
    ensures SealedFrom(enc, s, maxRows).None? && SealStream(enc, s, maxRows).Ok? ==> SealStream(enc, s, maxRows) == Ok(s)
  {}

  // ------------------------------------------------------------------ one attempt

  /**
   * A fault before the commit leaves everything as it was, and so does an encoder's, which no retry
   * can cure; once committed, only the prunes can fail.
   */
  lemma AttemptDecided(m: Streams, source: int, batch: seq<Text>, maxRows: nat, enc: Encoders, a: Attempt)
    ensures a.read != NoFault ==> AttemptSeal(m, source, batch, maxRows, enc, a) == Outcome(m, a.read)
    ensures a.read == NoFault && SealBatch(m, source, batch, maxRows, enc).Err? ==>
              AttemptSeal(m, source, batch, maxRows, enc, a) == Outcome(m, Broken)
    ensures a.read == NoFault && SealBatch(m, source, batch, maxRows, enc).Ok? && a.commit != NoFault ==>
              AttemptSeal(m, source, batch, maxRows, enc, a) == Outcome(m, a.commit)
    ensures a.read == NoFault && SealBatch(m, source, batch, maxRows, enc).Ok? && a.commit == NoFault && a.prune == map[] ==>
              AttemptSeal(m, source, batch, maxRows, enc, a).fault == NoFault
  {
    if a.prune == map[] && SealBatch(m, source, batch, maxRows, enc).Ok? {
      NoPruneFails(m, SealBatch(m, source, batch, maxRows, enc).value, source, batch, maxRows, enc, |batch|);
    }
  }

  lemma {:induction false} NoPruneFails(m: Streams, m': Streams, source: int, batch: seq<Text>, maxRows: nat, enc: Encoders, n: nat)
    requires n <= |batch|
    ensures PruneTo(m, m', source, batch, maxRows, enc, map[], n).fault == NoFault
  {
    if n > 0 {
      NoPruneFails(m, m', source, batch, maxRows, enc, n - 1);
    }
  }

  /** The prunes of a committed seal leave a stream's WAL as it was, or exactly its live rows. */
  ghost predicate Pruned(s: Stream, s': Stream) {
    s' == s || s' == s.(t := s.t.(wal := LiveWal(s.t)))
  }

  lemma {:induction false} PruneToLeaves(
    m: Streams, m': Streams, source: int, batch: seq<Text>, maxRows: nat, enc: Encoders, prune: map<nat, Fault>, n: nat, k: Key)
    requires n <= |batch| && SealBatch(m, source, batch, maxRows, enc) == Ok(m') && Inv(At(m', k))
    ensures var o := PruneTo(m, m', source, batch, maxRows, enc, prune, n);
            && Pruned(At(m', k), At(o.streams, k))
            && (o.fault == NoFault && k.0 == source && k.1 in batch[..n] && SealedUpTo(enc(k.1), At(m, k), maxRows).Some?
                ==> At(o.streams, k).t.wal == LiveWal(At(m', k).t))
  {
    if n > 0 {
      PruneToLeaves(m, m', source, batch, maxRows, enc, prune, n - 1, k);
      var p, o := PruneTo(m, m', source, batch, maxRows, enc, prune, n - 1), PruneTo(m, m', source, batch, maxRows, enc, prune, n);
      assert batch[..n] == batch[..n - 1] + [batch[n - 1]];
      var upto := SealedUpTo(enc(batch[n - 1]), At(m, (source, batch[n - 1])), maxRows);
      if p.fault == NoFault && k == (source, batch[n - 1]) && upto.Some? {
        SealAt(m, source, batch, maxRows, enc, |batch|, m', k);
        assert batch[n - 1] in batch[..|batch|];
        SealedUpToIs(enc(k.1), At(m, k), maxRows, At(m', k));
        PruneLeaves(At(m', k), At(p.streams, k), upto.value);
      }
    }
  }

  /** A prune up to the newest segment, whether or not one went before it. */
  lemma PruneLeaves(s: Stream, p: Stream, upto: int)
    requires Inv(s) && Pruned(s, p) && s.t.segs != [] && upto == LastOf(s.t.segs)
    ensures Prune(p.t, upto).wal == LiveWal(s.t) && Pruned(s, p.(t := Prune(p.t, upto)))
  {
    LiveIs(s.t);
    FromFrom(s.t.wal, upto + 1, upto + 1);
  }

  /**
   * A seal that goes smoothly leaves, of every stream of its batch that it sealed anything of, a WAL
   * of exactly the rows still live, and everything else as the commit left it.
   */
  lemma SmoothSeal(m: Streams, source: int, batch: seq<Text>, maxRows: nat, enc: Encoders, m': Streams, k: Key)
    requires SealBatch(m, source, batch, maxRows, enc) == Ok(m') && Inv(At(m', k))
    ensures var o := AttemptSeal(m, source, batch, maxRows, enc, SMOOTH);
            && o.fault == NoFault
            && (k.0 == source && k.1 in batch && SealedUpTo(enc(k.1), At(m, k), maxRows).Some?
                ==> At(o.streams, k) == At(m', k).(t := At(m', k).t.(wal := LiveWal(At(m', k).t))))
            && (k.0 != source || k.1 !in batch ==> At(o.streams, k) == At(m', k))
  {
    NoPruneFails(m, m', source, batch, maxRows, enc, |batch|);
    PruneToLeaves(m, m', source, batch, maxRows, enc, map[], |batch|, k);
    PruneToSegs(m, m', source, batch, maxRows, enc, map[], |batch|, k);
    assert batch[..|batch|] == batch;
  }
}
