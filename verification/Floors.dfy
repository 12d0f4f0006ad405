/**
 * The resume floor (`resume_source` and its remark in src/writer.rs): what it is at or above, for
 * the catalog and for the watermarks a writer holds in memory.
 */
module Floors {
  import opened Types
  import opened Rows
  import opened Encoding
  import opened Catalog
  import opened Ticks
  import opened Machine

  /** The end of a stream is its newest time: a segment's end or a live row's, and none is past it. */
  lemma EndExact(t: Tables)
    requires Valid(t)
    ensures EndOf(t).None? <==> t.segs == [] && LiveWal(t) == []
    ensures EndOf(t).Some? ==>
              (exists i: nat :: i < |t.segs| && t.segs[i].last == EndOf(t).value)
              || (exists i: nat :: i < |LiveWal(t)| && LiveWal(t)[i].ts == EndOf(t).value)
    ensures forall i: nat :: i < |t.segs| ==> t.segs[i].last <= EndOf(t).value
    ensures forall i: nat :: i < |LiveWal(t)| ==> LiveWal(t)[i].ts <= EndOf(t).value
  {
    var live := LiveWal(t);
    LiveIs(t);
    LiveSorted(t);
    forall i: nat | i < |t.segs| ensures t.segs[i].last <= LastOf(t.segs) {
      OrderedEnds(t.segs, i);
    }
    forall i: nat | i < |live| ensures live[i].ts <= live[|live| - 1].ts {
      SortedLe(live, i, |live| - 1);
    }
  }

  /** Every archive has a span end for a source to resume from. */
  lemma SpanEndExists(m: Streams, source: int) returns (last: Option<int>)
    ensures SpanEnd(m, source, last)
  {
    var todo := m.Keys;
    last := None;
    while todo != {}
      invariant todo <= m.Keys
      invariant last.Some? ==> exists k: Key :: k.0 == source && EndAt(m, k) == last
      invariant forall k: Key :: k.0 == source && k !in todo ==> EndsBy(m, k, last)
      decreases |todo|
    {
      var k :| k in todo;
      var end := EndAt(m, k);
      if k.0 == source && end.Some? && (last.None? || end.value > last.value) {
        forall j: Key | j.0 == source && j !in todo ensures EndsBy(m, j, end) {
          assert EndsBy(m, j, last);
        }
        last := end;
      } else {
        assert k.0 == source ==> EndsBy(m, k, last);
      }
      todo := todo - {k};
    }
  }

  /** The floor a resume takes is at or above everything the source's streams hold. */
  lemma ResumeFloor(m: Streams, source: int, last: Option<int>, k: Key, r: WalRow)
    requires AllInv(m) && SpanEnd(m, source, last) && k.0 == source
    ensures MaxLast(At(m, k).t.segs).Some? ==> last.Some? && MaxLast(At(m, k).t.segs).value <= last.value
    ensures r in View(At(m, k).t) ==> last.Some? && r.ts <= last.value
  {
    assert InvAt(m, k) && IsAt(m, k, At(m, k)) && EndsBy(m, k, last);
    var t := At(m, k).t;
    if r in View(t) {
      ViewEnds(t, r);
    }
  }

  lemma ViewEnds(t: Tables, r: WalRow)
    requires Valid(t) && r in View(t)
    ensures EndOf(t).Some? && r.ts <= EndOf(t).value
  {
    var live := LiveWal(t);
    LiveIs(t);
    LiveSorted(t);
    DataSorted(t.segs);
    if r in live {
      var i: nat :| i < |live| && live[i] == r;
      SortedLe(live, i, |live| - 1);
    }
  }

  // ------------------------------------------------------------------ the watermarks in memory

  ghost predicate HeldBy(m: Streams, k: Key, last: Option<int>) {
    AtMost(At(m, k).watermark, last)
  }

  /** A floor at or above every watermark the writer filters the source's rows by. */
  ghost predicate FloorAbove(m: Streams, source: int, last: Option<int>) {
    forall k: Key :: k.0 == source ==> HeldBy(m, k, last)
  }

  ghost predicate EndsPast(m: Streams, k: Key, w: int) {
    EndAt(m, k).Some? && w <= EndAt(m, k).value
  }

  /** Some stream of the source holds something at or past `w`. */
  ghost predicate Reached(m: Streams, source: int, w: int) {
    exists k: Key :: k.0 == source && EndsPast(m, k, w)
  }

  ghost predicate CoveredAt(m: Streams, source: int, k: Key) {
    At(m, k).watermark.Some? ==> Reached(m, source, At(m, k).watermark.value)
  }

  /** Nothing the writer remembers of the source is past everything the source holds. */
  ghost predicate Covered(m: Streams, source: int) {
    forall k: Key :: k.0 == source ==> CoveredAt(m, source, k)
  }

  lemma FloorIsCovered(m: Streams, source: int, last: Option<int>)
    requires SpanEnd(m, source, last)
    ensures FloorAbove(m, source, last) <==> Covered(m, source)
  {
    if FloorAbove(m, source, last) {
      forall k: Key | k.0 == source ensures CoveredAt(m, source, k) {
        assert HeldBy(m, k, last);
        if At(m, k).watermark.Some? {
          var j: Key :| j.0 == source && EndAt(m, j) == last;
          assert EndsPast(m, j, At(m, k).watermark.value);
        }
      }
    }
    if Covered(m, source) {
      forall k: Key | k.0 == source ensures HeldBy(m, k, last) {
        assert CoveredAt(m, source, k);
        if At(m, k).watermark.Some? {
          var j: Key :| j.0 == source && EndsPast(m, j, At(m, k).watermark.value);
          assert EndsBy(m, j, last);
        }
      }
    }
  }

  /** The stream's end is no earlier, and its watermark the same or not past that end. */
  ghost predicate Advances(s: Stream, s': Stream) {
    && AtMost(EndOf(s.t), EndOf(s'.t))
    && (s'.watermark == s.watermark || AtMost(s'.watermark, EndOf(s'.t)))
  }

  ghost predicate AdvancesAt(m: Streams, m': Streams, k: Key) {
    Advances(At(m, k), At(m', k))
  }

  lemma StillCovered(m: Streams, m': Streams, source: int)
    requires Covered(m, source) && forall k: Key :: k.0 == source ==> AdvancesAt(m, m', k)
    ensures Covered(m', source)
  {
    forall k: Key | k.0 == source ensures CoveredAt(m', source, k) {
      assert AdvancesAt(m, m', k) && CoveredAt(m, source, k);
      if At(m', k).watermark.Some? {
        var w := At(m', k).watermark.value;
        if At(m', k).watermark == At(m, k).watermark {
          var j: Key :| j.0 == source && EndsPast(m, j, w);
          assert AdvancesAt(m, m', j);
          assert EndsPast(m', j, w);
        } else {
          assert EndsPast(m', k, w);
        }
      }
    }
  }

  /** The end of a sound stream is its newest live row, or its newest segment's end. */
  lemma EndIs(t: Tables)
    requires Valid(t)
    ensures EndOf(t) == if LiveWal(t) != [] then Some(LiveWal(t)[|LiveWal(t)| - 1].ts)
                        else if t.segs != [] then Some(LastOf(t.segs)) else None
    ensures t.segs != [] ==> EndOf(t).Some? && LastOf(t.segs) <= EndOf(t).value
  {
    LiveIs(t);
    var live := LiveWal(t);
    if t.segs != [] && live != [] {
      FromSorted(t.wal, LastOf(t.segs) + 1);
      var probe := Below(live, |live| - 1, LastOf(t.segs) + 1);
    }
  }

  lemma TickAdvances(w: World, ticks: seq<Batch>, batchFails: bool, fails: set<nat>, k: Key)
    requires AllInv(w.streams)
    ensures AdvancesAt(w.streams, TickStep(w, ticks, batchFails, fails).streams, k)
  {
    var m, m' := w.streams, TickStep(w, ticks, batchFails, fails).streams;
    TickSegs(w, ticks, batchFails, fails, k);
    TickMoves(w, ticks, batchFails, fails, k);
    assert InvAt(m, k) && IsAt(m, k, At(m, k)) && IsAt(m', k, At(m', k));
    var t, t' := At(m, k).t, At(m', k).t;
    EndIs(t);
    EndIs(t');
    if LiveWal(t) != [] {
      var r := LiveWal(t)[|LiveWal(t)| - 1];
      assert r in View(t);
      assert Sees(m', k, r) > 0 by {
        assert Sees(m, k, r) > 0;
        assert Balances(m, m', k, Gained(w, Tick(ticks, batchFails, fails), k), multiset{});
      }
      assert r in View(t');
      ViewEnds(t', r);
    }
  }

  /** Segments placed after the sealed rows: the watermark is their end, and no end moves back. */
  lemma InsertAdvances(s: Stream, parts: seq<Segment>)
    requires Inv(s) && parts != [] && Inv(InsertParts(s, parts))
    ensures Advances(s, InsertParts(s, parts))
  {
    var s' := InsertParts(s, parts);
    EndIs(s.t);
    EndIs(s'.t);
    assert LastOf(s'.t.segs) == LastOf(parts);
    if s.t.segs != [] {
      var i, j := |s.t.segs| - 1, |s'.t.segs| - 1;
      assert EndsBefore(s'.t.segs, i, j);
      OrderedEnds(s'.t.segs, j);
    }
    LiveHigher(s.t, s'.t);
    var live := LiveWal(s.t);
    if live != [] && live[|live| - 1].ts > LastOf(parts) {
      FromMembers(live, LastOf(parts) + 1, live[|live| - 1]);
      assert live[|live| - 1] in View(s'.t);
      ViewEnds(s'.t, live[|live| - 1]);
    }
  }

  lemma SealAdvances(m: Streams, source: int, batch: seq<Text>, maxRows: nat, enc: Encoders, m': Streams, k: Key)
    requires AllInv(m) && SealBatch(m, source, batch, maxRows, enc) == Ok(m')
    ensures AdvancesAt(m, m', k)
  {
    assert InvAt(m, k) && IsAt(m, k, At(m, k));
    SealAt(m, source, batch, maxRows, enc, |batch|, m', k);
    var s := At(m, k);
    if k.0 == source && k.1 in batch[..|batch|] && At(m', k) != s {
      SealKeeps(enc(k.1), s, maxRows, At(m', k));
      InsertAdvances(s, SplitSeal(enc(k.1), LiveWal(s.t), maxRows).value);
    }
  }

  lemma AdoptAdvances(m: Streams, source: int, stream: Text, seg: Segment, k: Key)
    requires AllInv(m) && (Adopt(At(m, (source, stream)), seg).Adopted? ==> SegmentOk(seg))
    ensures AdvancesAt(m, AdoptAt(m, source, stream, seg), k)
  {
    assert InvAt(m, k) && IsAt(m, k, At(m, k));
    if k == (source, stream) && Adopt(At(m, k), seg).Adopted? {
      AdoptKeeps(At(m, k), seg);
      InsertAdvances(At(m, k), [seg]);
    }
  }

  lemma SameEnds(t: Tables, t': Tables)
    requires MaxLast(t'.segs) == MaxLast(t.segs) && LiveWal(t') == LiveWal(t)
    ensures EndOf(t') == EndOf(t)
  {}

  lemma MergeAdvances(m: Streams, key: Key, at: nat, n: nat, k: Key)
    requires AllInv(m)
    ensures AdvancesAt(m, MergeAt(m, key, at, n), k)
  {
    assert InvAt(m, k) && IsAt(m, k, At(m, k));
    if key == k && k in m && 0 < n && at + n <= |m[k].t.segs| {
      MergeKeeps(m[k].t, at, n);
      SameEnds(m[k].t, MergeRun(m[k].t, at, n));
    }
  }

  lemma PruneAdvances(m: Streams, key: Key, upto: int, k: Key)
    requires AllInv(m) && At(m, key).t.segs != [] && upto <= LastOf(At(m, key).t.segs)
    ensures AdvancesAt(m, PruneAt(m, key, upto), k)
  {
    assert InvAt(m, k) && IsAt(m, k, At(m, k));
    if key == k {
      PruneKeeps(At(m, k), upto);
      SameEnds(At(m, k).t, Prune(At(m, k).t, upto));
    }
  }

  lemma CrashAdvances(m: Streams, k: Key)
    requires AllInv(m)
    ensures AdvancesAt(m, ReopenAll(m), k)
    ensures AtMost(At(ReopenAll(m), k).watermark, EndAt(ReopenAll(m), k))
  {
    assert InvAt(m, k) && IsAt(m, k, At(m, k));
    EndIs(At(m, k).t);
    LiveIs(At(m, k).t);
  }

  /** Whether the event is a retention pass over the source. */
  predicate Evicts(e: Event, source: int) {
    e.EvictBefore? && e.source == source
  }

  lemma StepAdvances(w: World, e: Event, source: int, k: Key)
    requires AllInv(w.streams) && Legal(w, e) && !Evicts(e, source) && k.0 == source
    ensures AdvancesAt(w.streams, Step(w, e).streams, k)
  {
    var m := w.streams;
    match e
    case Tick(ticks, batchFails, fails) => TickAdvances(w, ticks, batchFails, fails, k);
    case Seal(s, batch, maxRows, enc) =>
      var r := SealBatch(m, s, batch, maxRows, enc);
      if r.Ok? {
        SealAdvances(m, s, batch, maxRows, enc, r.value, k);
      }
    case PruneUpTo(key, upto) => PruneAdvances(m, key, upto, k);
    case AdoptOne(s, stream, seg) => AdoptAdvances(m, s, stream, seg, k);
    case MergeOne(key, at, n) => MergeAdvances(m, key, at, n, k);
    case Crash => CrashAdvances(m, k);
    case _ =>
  }

  /** Every step but retention keeps the floor above the watermarks in memory. */
  lemma StepStaysCovered(w: World, e: Event, source: int)
    requires AllInv(w.streams) && Legal(w, e) && !Evicts(e, source)
    requires Covered(w.streams, source)
    ensures Covered(Step(w, e).streams, source)
  {
    forall k: Key | k.0 == source ensures AdvancesAt(w.streams, Step(w, e).streams, k) {
      StepAdvances(w, e, source, k);
    }
    StillCovered(w.streams, Step(w, e).streams, source);
  }

  /** A new writer's memory is covered, whatever the last one's was. */
  lemma ReopenCovers(m: Streams, source: int)
    requires AllInv(m)
    ensures Covered(ReopenAll(m), source)
  {
    var m' := ReopenAll(m);
    forall k: Key | k.0 == source ensures CoveredAt(m', source, k) {
      CrashAdvances(m, k);
      if At(m', k).watermark.Some? {
        assert EndsPast(m', k, At(m', k).watermark.value);
      }
    }
  }

  // ------------------------------------------------------------------ retention

  /** A cutoff leaves sorted rows their newest, or none. */
  lemma FromEnd(rows: seq<WalRow>, c: int)
    requires Sorted(rows) && rows != []
    ensures var r, last := From(rows, c), rows[|rows| - 1];
            if last.ts < c then r == [] else r != [] && r[|r| - 1] == last
  {
    var i := CutExists(rows, c);
    var last := |rows| - 1;
    if rows[last].ts < c {
      assert i < |rows| ==> !Below(rows, i, c);
      if i < |rows| {
        SortedLe(rows, i, last);
      }
    } else {
      var probe := Below(rows, last, c);
    }
  }

  /** A pass leaves a stream's end where it was, or leaves the stream empty. */
  lemma EvictEnd(t: Tables, c: int)
    requires Valid(t)
    ensures EndOf(Evict(t, c)) == if EndOf(t).Some? && EndOf(t).value >= c then EndOf(t) else None
  {
    var k := EvictExact(t, c);
    EndIs(t);
    EndIs(Evict(t, c));
    SegsLeft(t, c, k);
    if LiveWal(t) != [] {
      LiveSorted(t);
      FromEnd(LiveWal(t), c);
    }
  }

  /** Segments survive a pass just where the newest of them does. */
  lemma SegsLeft(t: Tables, c: int, k: nat)
    requires Valid(t) && k <= |t.segs| && Evict(t, c).segs == t.segs[k..]
    requires forall i :: 0 <= i < |t.segs| ==> (i < k <==> t.segs[i].last < c)
    ensures Evict(t, c).segs != [] <==> t.segs != [] && LastOf(t.segs) >= c
    ensures Evict(t, c).segs != [] ==> LastOf(Evict(t, c).segs) == LastOf(t.segs)
  {
    if t.segs != [] {
      assert t.segs[|t.segs| - 1].last == LastOf(t.segs);
    }
  }

  /** Some stream the pass leaves alone holds something at or past `w`. */
  ghost predicate LeftReaches(m: Streams, source: int, filter: Text -> bool, w: int) {
    exists k: Key :: k.0 == source && !filter(k.1) && EndsPast(m, k, w)
  }

  ghost predicate LeftAt(m: Streams, source: int, filter: Text -> bool, k: Key) {
    At(m, k).watermark.Some? ==> LeftReaches(m, source, filter, At(m, k).watermark.value)
  }

  /**
   * What a caller can check before a pass: the source's newest row is not before the cutoff, or
   * the streams the pass leaves alone hold something at or past every watermark.
   */
  ghost predicate PassCovers(m: Streams, source: int, cutoff: int, filter: Text -> bool) {
    Reached(m, source, cutoff) || forall k: Key :: k.0 == source ==> LeftAt(m, source, filter, k)
  }

  lemma EvictEndAt(m: Streams, source: int, c: int, filter: Text -> bool, k: Key)
    requires AllInv(m) && k.0 == source
    ensures EndAt(EvictStreams(m, source, c, filter), k) ==
            if filter(k.1) && EndAt(m, k).Some? && EndAt(m, k).value < c then None else EndAt(m, k)
    ensures At(EvictStreams(m, source, c, filter), k).watermark == At(m, k).watermark
  {
    assert InvAt(m, k) && IsAt(m, k, At(m, k));
    if filter(k.1) {
      EvictedAt(m, EvictStreams(m, source, c, filter), k, c);
      EvictEnd(At(m, k).t, c);
    }
  }

  /** A watermark the source reached before a pass that leaves its newest row is reached after it. */
  lemma NewestStays(m: Streams, source: int, c: int, filter: Text -> bool, w: int)
    requires AllInv(m) && Reached(m, source, w) && Reached(m, source, c)
    ensures Reached(EvictStreams(m, source, c, filter), source, w)
  {
    var k: Key :| k.0 == source && EndsPast(m, k, w);
    var j: Key :| j.0 == source && EndsPast(m, j, c);
    EvictEndAt(m, source, c, filter, k);
    EvictEndAt(m, source, c, filter, j);
    var m' := EvictStreams(m, source, c, filter);
    assert EndsPast(m', k, w) || EndsPast(m', j, w);
  }

  lemma LeftStays(m: Streams, source: int, c: int, filter: Text -> bool, w: int)
    requires AllInv(m)
    ensures LeftReaches(m, source, filter, w) ==> Reached(EvictStreams(m, source, c, filter), source, w)
    ensures !Reached(m, source, c) && Reached(EvictStreams(m, source, c, filter), source, w) ==> LeftReaches(m, source, filter, w)
  {
    var m' := EvictStreams(m, source, c, filter);
    if LeftReaches(m, source, filter, w) {
      var k: Key :| k.0 == source && !filter(k.1) && EndsPast(m, k, w);
      EvictEndAt(m, source, c, filter, k);
      assert EndsPast(m', k, w);
    }
    if !Reached(m, source, c) && Reached(m', source, w) {
      var k: Key :| k.0 == source && EndsPast(m', k, w);
      EvictEndAt(m, source, c, filter, k);
      assert !EndsPast(m, k, c);
      assert !filter(k.1) && EndsPast(m, k, w);
    }
  }

  /** A pass keeps the floor above the watermarks in memory exactly where its caller can see that it will. */
  lemma EvictCovers(m: Streams, source: int, c: int, filter: Text -> bool)
    requires AllInv(m) && Covered(m, source)
    ensures Covered(EvictStreams(m, source, c, filter), source) <==> PassCovers(m, source, c, filter)
  {
    var m' := EvictStreams(m, source, c, filter);
    forall k: Key | k.0 == source
      ensures CoveredAt(m', source, k) <==> Reached(m, source, c) || LeftAt(m, source, filter, k)
    {
      EvictEndAt(m, source, c, filter, k);
      assert CoveredAt(m, source, k);
      if At(m, k).watermark.Some? {
        var w := At(m, k).watermark.value;
        LeftStays(m, source, c, filter, w);
        if Reached(m, source, c) {
          NewestStays(m, source, c, filter, w);
        }
      }
    }
  }

  /** The same of the floors themselves, before the pass and after it. */
  lemma FloorAfterRetention(
    m: Streams, source: int, c: int, filter: Text -> bool, before: Option<int>, after: Option<int>)
    requires AllInv(m) && SpanEnd(m, source, before) && FloorAbove(m, source, before)
    requires SpanEnd(EvictStreams(m, source, c, filter), source, after)
    ensures FloorAbove(EvictStreams(m, source, c, filter), source, after) <==>
              (before.Some? && before.value >= c) || forall k: Key :: k.0 == source ==> LeftAt(m, source, filter, k)
  {
    FloorIsCovered(m, source, before);
    FloorIsCovered(EvictStreams(m, source, c, filter), source, after);
    EvictCovers(m, source, c, filter);
    SpanReaches(m, source, before, c);
  }

  lemma SpanReaches(m: Streams, source: int, last: Option<int>, c: int)
    requires SpanEnd(m, source, last)
    ensures Reached(m, source, c) <==> last.Some? && last.value >= c
  {
    if last.Some? {
      var j: Key :| j.0 == source && EndAt(m, j) == last;
      assert last.value >= c ==> EndsPast(m, j, c);
    }
    if Reached(m, source, c) {
      var k: Key :| k.0 == source && EndsPast(m, k, c);
      assert EndsBy(m, k, last);
    }
  }

  /**
   * A pass over the whole source: the floor stays at or above every watermark in memory if and
   * only if the pass leaves the source some row, or no stream of it was ever sealed.
   */
  lemma FloorAfterWholePass(m: Streams, source: int, c: int, before: Option<int>, after: Option<int>)
    requires AllInv(m) && SpanEnd(m, source, before) && FloorAbove(m, source, before)
    requires SpanEnd(EvictStreams(m, source, c, _ => true), source, after)
    ensures after.Some? <==> before.Some? && before.value >= c
    ensures FloorAbove(EvictStreams(m, source, c, _ => true), source, after) <==>
              after.Some? || forall k: Key :: k.0 == source ==> At(m, k).watermark.None?
  {
    var m' := EvictStreams(m, source, c, _ => true);
    if before.Some? {
      var j: Key :| j.0 == source && EndAt(m, j) == before;
      EvictEndAt(m, source, c, _ => true, j);
      assert EndsBy(m', j, after);
    }
    if after.Some? {
      var k: Key :| k.0 == source && EndAt(m', k) == after;
      EvictEndAt(m, source, c, _ => true, k);
      assert EndsBy(m, k, before);
      forall j: Key | j.0 == source ensures HeldBy(m', j, after) {
        WholeHeld(m, source, c, before, after, j);
      }
    } else {
      forall j: Key | j.0 == source ensures HeldBy(m', j, after) <==> At(m, j).watermark.None? {
        EvictEndAt(m, source, c, _ => true, j);
      }
    }
  }

  lemma WholeHeld(m: Streams, source: int, c: int, before: Option<int>, after: Option<int>, k: Key)
    requires AllInv(m) && k.0 == source && SpanEnd(m, source, before) && FloorAbove(m, source, before)
    requires SpanEnd(EvictStreams(m, source, c, _ => true), source, after) && after.Some?
    requires before.Some? && before.value >= c
    ensures HeldBy(EvictStreams(m, source, c, _ => true), k, after)
  {
    var j: Key :| j.0 == source && EndAt(m, j) == before;
    EvictEndAt(m, source, c, _ => true, j);
    EvictEndAt(m, source, c, _ => true, k);
    assert EndsBy(EvictStreams(m, source, c, _ => true), j, after) && HeldBy(m, k, before);
  }

  // ------------------------------------------------------------------ exact memory

  /** The writer's watermark for a stream is the catalog's own. */
  predicate Exact(s: Stream) {
    s.watermark == MaxLast(s.t.segs)
  }

  /** With memory exact, whatever the run before, the floor covers it. */
  lemma FloorCoversMemory(m: Streams, source: int)
    requires AllInv(m) && forall k: Key :: k.0 == source ==> ExactAt(m, k)
    ensures Covered(m, source)
  {
    forall k: Key | k.0 == source ensures CoveredAt(m, source, k) {
      assert ExactAt(m, k) && InvAt(m, k) && IsAt(m, k, At(m, k));
      EndIs(At(m, k).t);
      LiveIs(At(m, k).t);
      if At(m, k).watermark.Some? {
        assert EndsPast(m, k, At(m, k).watermark.value);
      }
    }
  }

  ghost predicate ExactAt(m: Streams, k: Key) {
    Exact(At(m, k))
  }

  /** Retention keeps memory exact just where it leaves the stream's newest segment. */
  lemma EvictStaysExact(s: Stream, c: int)
    requires Inv(s) && Exact(s)
    ensures Exact(s.(t := Evict(s.t, c))) <==> (s.t.segs == [] || LastOf(s.t.segs) >= c)
  {
    var k := EvictExact(s.t, c);
    LiveIs(s.t);
    LiveIs(Evict(s.t, c));
    assert k < |s.t.segs| ==> LastOf(s.t.segs[k..]) == LastOf(s.t.segs);
  }

  lemma InsertExact(s: Stream, parts: seq<Segment>)
    requires parts != [] && Inv(InsertParts(s, parts))
    ensures Exact(InsertParts(s, parts))
  {
    MaxLastIsLast(s.t.segs + parts);
  }

  lemma SealExact(enc: Encoder, s: Stream, maxRows: nat, s': Stream)
    requires Inv(s) && Exact(s) && SealStream(enc, s, maxRows) == Ok(s')
    ensures Exact(s')
  {
    SealKeeps(enc, s, maxRows, s');
    if s' != s {
      InsertExact(s, SplitSeal(enc, LiveWal(s.t), maxRows).value);
    }
  }

  lemma AdoptExact(m: Streams, source: int, stream: Text, seg: Segment, k: Key)
    requires AllInv(m) && Exact(At(m, k)) && (Adopt(At(m, (source, stream)), seg).Adopted? ==> SegmentOk(seg))
    ensures Exact(At(AdoptAt(m, source, stream, seg), k))
  {
    assert InvAt(m, k) && IsAt(m, k, At(m, k));
    if k == (source, stream) && Adopt(At(m, k), seg).Adopted? {
      AdoptKeeps(At(m, k), seg);
      InsertExact(At(m, k), [seg]);
    }
  }

  lemma SealBatchExact(m: Streams, source: int, batch: seq<Text>, maxRows: nat, enc: Encoders, m': Streams, k: Key)
    requires AllInv(m) && Exact(At(m, k)) && SealBatch(m, source, batch, maxRows, enc) == Ok(m')
    ensures Exact(At(m', k))
  {
    assert InvAt(m, k) && IsAt(m, k, At(m, k));
    SealAt(m, source, batch, maxRows, enc, |batch|, m', k);
    if k.0 == source && k.1 in batch[..|batch|] {
      SealExact(enc(k.1), At(m, k), maxRows, At(m', k));
    }
  }

  lemma MergeExact(m: Streams, key: Key, at: nat, n: nat, k: Key)
    requires AllInv(m) && Exact(At(m, k))
    ensures Exact(At(MergeAt(m, key, at, n), k))
  {
    assert InvAt(m, k) && IsAt(m, k, At(m, k));
    if key == k && k in m && 0 < n && at + n <= |m[k].t.segs| {
      MergeKeeps(m[k].t, at, n);
    }
  }

  /** Every step but retention keeps memory exact, and a reopen makes it so. */
  lemma StepStaysExact(w: World, e: Event, k: Key)
    requires AllInv(w.streams) && Legal(w, e) && !e.EvictBefore?
    requires e.Crash? || Exact(At(w.streams, k))
    ensures Exact(At(Step(w, e).streams, k))
  {
    match e
    case Tick(ticks, batchFails, fails) => TickSegs(w, ticks, batchFails, fails, k);
    case Seal(source, batch, maxRows, enc) =>
      if SealBatch(w.streams, source, batch, maxRows, enc).Ok? {
        SealBatchExact(w.streams, source, batch, maxRows, enc, SealBatch(w.streams, source, batch, maxRows, enc).value, k);
      }
    case AdoptOne(source, stream, seg) => AdoptExact(w.streams, source, stream, seg, k);
    case MergeOne(key, at, n) => MergeExact(w.streams, key, at, n, k);
    case _ =>
  }

  // ------------------------------------------------------------------ over whole runs

  /** Event `i` is no pass over the source, or one that keeps it covered. */
  ghost predicate PassesAt(ws: seq<World>, es: seq<Event>, source: int, i: nat)
    requires |ws| == |es| + 1 && i < |es|
  {
    Evicts(es[i], source) ==> PassCovers(ws[i].streams, source, es[i].cutoff, es[i].filter)
  }

  ghost predicate CoveredIn(ws: seq<World>, source: int, i: nat)
    requires i < |ws|
  {
    Covered(ws[i].streams, source)
  }

  lemma NextCovered(ws: seq<World>, es: seq<Event>, source: int, i: nat, j: nat)
    requires IsRun(ws, es) && j == i + 1 <= |es| && CoveredIn(ws, source, i)
    ensures CoveredIn(ws, source, j) <==> PassesAt(ws, es, source, i)
  {
    RunInv(ws, es, i);
    assert StepsAt(ws, es, i);
    if Evicts(es[i], source) {
      EvictCovers(ws[i].streams, source, es[i].cutoff, es[i].filter);
    } else {
      StepStaysCovered(ws[i], es[i], source);
    }
  }

  /**
   * Over any run from an empty archive, the floor a resume would take has been at or above every
   * watermark in memory all along if and only if every retention pass over the source left it its
   * newest row, or left alone streams that reach every watermark.
   */
  lemma {:induction false} FloorOverRun(ws: seq<World>, es: seq<Event>, source: int, n: nat)
    requires IsRun(ws, es) && n <= |es|
    ensures (forall i: nat :: i <= n ==> CoveredIn(ws, source, i)) <==>
            (forall i: nat :: i < n ==> PassesAt(ws, es, source, i))
  {
    if n == 0 {
      forall k: Key | k.0 == source ensures CoveredAt(ws[0].streams, source, k) {}
      assert CoveredIn(ws, source, 0);
    } else {
      FloorOverRun(ws, es, source, n - 1);
      if CoveredIn(ws, source, n - 1) {
        NextCovered(ws, es, source, n - 1, n);
      }
    }
  }

  /**
   * Where it fails, from an empty archive: a segment that ends at 10 is adopted, a pass at 11
   * takes it, and a resume finds nothing to take a floor from while the writer goes on refusing
   * rows at or below 10.
   */
  lemma FloorMayTrailMemory() returns (w: World)
    ensures Reaches(NEW, w) && SpanEnd(w.streams, 0, None)
    ensures Step(w, Resume(0, None)).floors == map[]
    ensures At(w.streams, (0, [])).watermark == Some(10) && !FloorAbove(w.streams, 0, None)
  {
    var seg := Segment(1, 10, 10, [WalRow([], 10, 0, [])]);
    var adopt, evict := AdoptOne(0, [], seg), EvictBefore(0, 11, _ => true);
    var adopted := AdoptedAlone(seg);
    ReachesSelf(NEW);
    ReachesStep(NEW, NEW, adopt);
    ReachesStep(NEW, adopted, evict);
    w := Step(adopted, evict);
    EvictedAlone(adopted, seg, w);
  }

  /** The one segment of an archive that has just adopted it. */
  lemma AdoptedAlone(seg: Segment) returns (w: World)
    requires SegmentOk(seg)
    ensures Legal(NEW, AdoptOne(0, [], seg)) && w == Step(NEW, AdoptOne(0, [], seg)) && w.floors == map[]
    ensures w.streams == map[(0, []) := InsertParts(EMPTY, [seg])]
  {
    SpanNonEmpty(seg);
    assert LiveWal(EMPTY.t) == [];
    w := Step(NEW, AdoptOne(0, [], seg));
  }

  lemma EvictedAlone(adopted: World, seg: Segment, w: World)
    requires SegmentOk(seg) && seg.last == 10
    requires adopted.streams == map[(0, []) := InsertParts(EMPTY, [seg])]
    requires w.streams == EvictStreams(adopted.streams, 0, 11, _ => true)
    ensures SpanEnd(w.streams, 0, None)
    ensures At(w.streams, (0, [])).watermark == Some(10) && !FloorAbove(w.streams, 0, None)
  {
    var k: Key := (0, []);
    assert InsertParts(EMPTY, [seg]).t.segs == [seg];
    assert KeepFrom([seg], 11) == [] by {
      assert [seg][1..] == [] && KeepFrom([], 11) == [];
    }
    assert From([], 11) == [];
    forall j: Key | j.0 == 0 ensures EndsBy(w.streams, j, None) {
      assert At(w.streams, j).t.segs == [] && At(w.streams, j).t.wal == [];
    }
    assert !HeldBy(w.streams, k, None);
  }
}
