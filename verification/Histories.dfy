/**
 * Where a publisher's snapshots come from: any history of the storage machine in which one source
 * only appends in order, seals, prunes, merges, crashes and reopens, and what replication makes of it.
 */
module Histories {
  import opened Types
  import opened Rows
  import opened Encoding
  import opened Catalog
  import opened Ticks
  import opened Filters
  import opened Machine
  import opened Copying
  import opened Delivery
  import opened Retention
  import opened IndexCursor
  import opened WalCursor
  import opened Publication
  import opened Replication
  import opened Entries
  import Subscription

  // ------------------------------------------------------------------ one stream

  ghost predicate InWidth(rows: seq<WalRow>, i: nat)
    requires i < |rows|
  {
    I64_MIN <= rows[i].ts <= I64_MAX
  }

  /** Timestamps are 64-bit. */
  ghost predicate Wide(rows: seq<WalRow>) {
    forall i: nat :: i < |rows| ==> InWidth(rows, i)
  }

  /** A stream such a history leaves: its own rows, and no watermark past the newest of them. */
  ghost predicate Kept(s: Stream, stream: Text) {
    Inv(s) && Sourced(s.t, stream) && AtMost(s.watermark, LastTs(View(s.t))) && Wide(View(s.t))
  }

  lemma LiveEnds(s: Stream, r: WalRow)
    requires Inv(s) && After(LastTs(View(s.t)), r.ts)
    ensures Insert(LiveWal(s.t), r) == LiveWal(s.t) + [r]
  {
    LiveSorted(s.t);
    EndOfView(s.t, View(s.t));
    SortedBelow(LiveWal(s.t), r.ts);
    InsertAtEnd(LiveWal(s.t), r);
  }

  /** An append in order extends the stream's rows by one. */
  lemma AppendGrows(s: Stream, r: WalRow, s': Stream, stream: Text)
    requires Inv(s) && Sourced(s.t, stream) && AppendRow(s, r) == Ok(s')
    requires r.stream == stream && After(LastTs(View(s.t)), r.ts) && (s.watermark.Some? ==> r.ts > s.watermark.value)
    ensures Inv(s') && Sourced(s'.t, stream) && View(s'.t) == View(s.t) + [r]
  {
    AppendKeeps(s, r, s');
    LiveEnds(s, r);
    SealedAlike(s.t, s'.t, r);
    OfStreamMore(View(s.t), r, stream);
  }

  lemma SealedAlike(t: Tables, t': Tables, r: WalRow)
    requires t'.segs == t.segs && LiveWal(t') == LiveWal(t) + [r]
    ensures View(t') == View(t) + [r] && (Tight(t) ==> Tight(t'))
  {
    assert Data(t.segs) + (LiveWal(t) + [r]) == View(t) + [r];
  }

  lemma OfStreamMore(rows: seq<WalRow>, r: WalRow, stream: Text)
    requires OfStream(rows, stream) && r.stream == stream
    ensures OfStream(rows + [r], stream)
  {
    forall i: nat | i < |rows| + 1 ensures OfStreamAt(rows + [r], stream, i) {
      assert i < |rows| ==> OfStreamAt(rows, stream, i);
    }
  }

  /** A row-preserving seal keeps the stream's rows, and leaves its newest segment ending at one. */
  lemma SealGrows(enc: Encoder, s: Stream, maxRows: nat, stream: Text) returns (s': Stream)
    requires Inv(s) && Sourced(s.t, stream) && RowPreserving(enc)
    ensures SealStream(enc, s, maxRows) == Ok(s')
    ensures Inv(s') && Sourced(s'.t, stream) && View(s'.t) == View(s.t)
  {
    s' := RowPreservingSealStream(enc, s, maxRows);
    var live := LiveWal(s.t);
    if live != [] {
      EndOfView(s.t, View(s.t));
      assert s'.watermark == Some(LastOf(s'.t.segs));
    }
  }

  lemma PruneGrows(s: Stream, upto: int, stream: Text)
    requires Inv(s) && Sourced(s.t, stream) && s.t.segs != [] && upto <= LastOf(s.t.segs)
    ensures var s' := s.(t := Prune(s.t, upto));
            Inv(s') && Sourced(s'.t, stream) && View(s'.t) == View(s.t)
  {
    PruneKeeps(s, upto);
  }

  lemma {:induction false} DataHolds(segs: seq<Segment>, i: nat, j: nat) returns (k: nat)
    requires i < |segs| && j < |segs[i].data|
    ensures k < |Data(segs)| && Data(segs)[k] == segs[i].data[j]
  {
    if i == 0 {
      k := j;
    } else {
      var n := DataHolds(segs[1..], i - 1, j);
      k := |segs[0].data| + n;
    }
  }

  /** A sound segment of 64-bit rows overlaps the whole range of timestamps. */
  lemma WideSegs(t: Tables, i: nat)
    requires Valid(t) && Wide(View(t)) && i < |t.segs|
    ensures WideAt(t.segs, i)
  {
    var s := t.segs[i];
    assert SoundAt(t.segs, i);
    var a := DataHolds(t.segs, i, 0);
    var b := DataHolds(t.segs, i, |s.data| - 1);
    assert InWidth(View(t), a) && InWidth(View(t), b);
  }

  lemma MergeGrows(s: Stream, at: nat, n: nat, stream: Text)
    requires Kept(s, stream) && 0 < n && at + n <= |s.t.segs| == |s.t.nums|
    ensures Kept(s.(t := MergeRun(s.t, at, n)), stream) && View(MergeRun(s.t, at, n)) == View(s.t)
  {
    MergeKeeps(s.t, at, n);
    MergeInv(s, at, n);
    LiveIs(s.t);
    LiveIs(MergeRun(s.t, at, n));
  }

  lemma ReopenGrows(s: Stream, stream: Text)
    requires Kept(s, stream)
    ensures Kept(Reopen(s.t), stream)
  {
    ReopenKeeps(s.t);
    MarkIs(s.t, stream);
    if s.t.segs != [] {
      var n := |Data(s.t.segs)|;
      ViewSorted(s.t);
      SortedLe(View(s.t), n - 1, |View(s.t)| - 1);
    }
  }

  // ------------------------------------------------------------------ a tick

  /** Each stream's rows are in strict time order. */
  ghost predicate StrictByStream(rows: seq<WalRow>) {
    forall i: nat, j: nat :: i < j < |rows| ==> StrictAt(rows, i, j)
  }

  ghost predicate StrictAt(rows: seq<WalRow>, i: nat, j: nat)
    requires i < |rows| && j < |rows|
  {
    rows[i].stream == rows[j].stream ==> rows[i].ts < rows[j].ts
  }

  /** Every row is newer than all its stream shows. */
  ghost predicate AllNew(m: Streams, source: int, rows: seq<WalRow>) {
    forall i: nat :: i < |rows| ==> NewAt(m, source, rows, i)
  }

  ghost predicate NewAt(m: Streams, source: int, rows: seq<WalRow>, i: nat)
    requires i < |rows|
  {
    InWidth(rows, i) && After(LastTs(View(At(m, (source, rows[i].stream)).t)), rows[i].ts)
  }

  /** A tick appends to the source in order. */
  ghost predicate AppendsInOrder(m: Streams, source: int, rows: seq<WalRow>) {
    StrictByStream(rows) && AllNew(m, source, rows)
  }

  /** `b` is what is left of `a`: rows of it, each stream's in order. */
  ghost predicate LeftOf(a: seq<WalRow>, b: seq<WalRow>) {
    StrictByStream(b) && forall r :: r in b ==> r in a
  }

  lemma LeftConcat(a: seq<WalRow>, a': seq<WalRow>, b: seq<WalRow>, b': seq<WalRow>)
    requires StrictByStream(a + a') && LeftOf(a, b) && LeftOf(a', b')
    ensures LeftOf(a + a', b + b')
  {
    var c := b + b';
    forall i: nat, j: nat | i < j < |c| ensures StrictAt(c, i, j) {
      if j < |b| {
        assert StrictAt(b, i, j);
      } else if i >= |b| {
        assert StrictAt(b', i - |b|, j - |b|);
      } else {
        assert b[i] in a && b'[j - |b|] in a';
        var x: nat :| x < |a| && a[x] == b[i];
        var y: nat :| y < |a'| && a'[y] == b'[j - |b|];
        assert StrictAt(a + a', x, |a| + y);
      }
    }
  }

  lemma StrictParts(a: seq<WalRow>, b: seq<WalRow>)
    requires StrictByStream(a + b)
    ensures StrictByStream(a) && StrictByStream(b)
  {
    forall i: nat, j: nat | i < j < |a| ensures StrictAt(a, i, j) {
      assert StrictAt(a + b, i, j);
    }
    forall i: nat, j: nat | i < j < |b| ensures StrictAt(b, i, j) {
      assert StrictAt(a + b, |a| + i, |a| + j);
    }
  }

  lemma {:induction false} UnshadowedLeft(m: Streams, source: int, rows: seq<WalRow>)
    requires StrictByStream(rows)
    ensures LeftOf(rows, Unshadowed(m, source, rows))
  {
    if rows != [] {
      var head, rest := [rows[0]], rows[1..];
      assert rows == head + rest;
      StrictParts(head, rest);
      UnshadowedLeft(m, source, rest);
      LeftConcat(head, rest, if Shadowed(m, source, rows[0]) then [] else head, Unshadowed(m, source, rest));
    }
  }

  lemma {:induction false} DropFlooredLeft(floors: map<int, int>, ticks: seq<Batch>, source: int)
    requires StrictByStream(Flat(ticks, source))
    ensures LeftOf(Flat(ticks, source), Flat(DropFloored(floors, ticks), source))
  {
    if ticks != [] {
      var x := if UnderFloor(floors, ticks[0]) then [] else [ticks[0]];
      StrictParts(Own(ticks[0], source), Flat(ticks[1..], source));
      DropFlooredLeft(floors, ticks[1..], source);
      FlatCons(x, DropFloored(floors, ticks[1..]), source);
      LeftConcat(Own(ticks[0], source), Flat(ticks[1..], source), Flat(x, source), Flat(DropFloored(floors, ticks[1..]), source));
    }
  }

  lemma {:induction false} DropShadowedLeft(m: Streams, ticks: seq<Batch>, source: int)
    requires StrictByStream(Flat(ticks, source))
    ensures LeftOf(Flat(ticks, source), Flat(DropShadowed(m, ticks), source))
  {
    if ticks != [] {
      var keep := Unshadowed(m, ticks[0].0, ticks[0].1);
      var x := if keep == [] then [] else [(ticks[0].0, keep)];
      StrictParts(Own(ticks[0], source), Flat(ticks[1..], source));
      DropShadowedLeft(m, ticks[1..], source);
      FlatCons(x, DropShadowed(m, ticks[1..]), source);
      if ticks[0].0 == source {
        UnshadowedLeft(m, source, ticks[0].1);
      }
      LeftConcat(Own(ticks[0], source), Flat(ticks[1..], source), Flat(x, source), Flat(DropShadowed(m, ticks[1..]), source));
    }
  }

  /** Both filters leave an in-order tick in order. */
  lemma FilteredLeft(m: Streams, floors: map<int, int>, ticks: seq<Batch>, source: int)
    requires AppendsInOrder(m, source, Flat(ticks, source))
    ensures AppendsInOrder(m, source, Flat(Filtered(m, floors, ticks), source))
  {
    var kept := DropFloored(floors, ticks);
    DropFlooredLeft(floors, ticks, source);
    DropShadowedLeft(m, kept, source);
    var a, b := Flat(ticks, source), Flat(Filtered(m, floors, ticks), source);
    forall i: nat | i < |b| ensures NewAt(m, source, b, i) {
      assert b[i] in b;
      var j: nat :| j < |a| && a[j] == b[i];
      assert NewAt(m, source, a, j);
    }
  }

  /** The stream as the rows in `done` have left it: sound, and longer by rows of theirs. */
  ghost predicate Grown(s0: Stream, s: Stream, done: seq<WalRow>, stream: Text) {
    && Kept(s, stream)
    && View(s0.t) <= View(s.t)
    && forall i :: |View(s0.t)| <= i < |View(s.t)| ==> View(s.t)[i] in done
  }

  lemma GrownMore(s0: Stream, s: Stream, done: seq<WalRow>, more: seq<WalRow>, stream: Text)
    requires Grown(s0, s, done, stream) && forall r :: r in done ==> r in more
    ensures Grown(s0, s, more, stream)
  {}

  /** The next row of the stream comes after everything it shows. */
  lemma NextIsNew(s0: Stream, s: Stream, all: seq<WalRow>, i: nat, stream: Text)
    requires i < |all| && Grown(s0, s, all[..i], stream) && StrictByStream(all) && all[i].stream == stream
    requires After(LastTs(View(s0.t)), all[i].ts)
    ensures After(LastTs(View(s.t)), all[i].ts)
  {
    var v := View(s.t);
    if |v| > |View(s0.t)| {
      var last := v[|v| - 1];
      assert last in all[..i];
      var j: nat :| j < i && all[..i][j] == last;
      assert StrictAt(all, j, i);
      assert OfStreamAt(v, stream, |v| - 1);
    } else {
      assert v == View(s0.t);
    }
  }

  /** A row newer than all the stream shows: the stream is still kept, and one row longer. */
  lemma AppendKept(s: Stream, r: WalRow, s': Stream, stream: Text)
    requires Kept(s, stream) && r.stream == stream && After(LastTs(View(s.t)), r.ts) && I64_MIN <= r.ts <= I64_MAX
    requires AppendRow(s, r) == Ok(s')
    ensures Kept(s', stream) && View(s'.t) == View(s.t) + [r]
  {
    AppendGrows(s, r, s', stream);
    WideMore(View(s.t), r, View(s'.t));
  }

  lemma WideMore(rows: seq<WalRow>, r: WalRow, more: seq<WalRow>)
    requires Wide(rows) && I64_MIN <= r.ts <= I64_MAX && more == rows + [r]
    ensures Wide(more)
  {
    forall k: nat | k < |more| ensures InWidth(more, k) {
      assert k < |rows| ==> InWidth(rows, k);
    }
  }

  lemma RowGrows(s0: Stream, s: Stream, done: seq<WalRow>, r: WalRow, stream: Text, s': Stream)
    requires Grown(s0, s, done, stream) && Kept(s', stream) && View(s'.t) == View(s.t) + [r]
    ensures Grown(s0, s', done + [r], stream)
  {
    var v, more := View(s'.t), done + [r];
    forall i | |View(s0.t)| <= i < |v| ensures v[i] in more {
      if i < |View(s.t)| {
        assert View(s.t)[i] in done;
      } else {
        assert more[|done|] == r;
      }
    }
  }

  ghost predicate GrownAt(m: Streams, p: Streams, k: Key, done: seq<WalRow>) {
    forall s :: IsAt(p, k, s) ==> Grown(At(m, k), s, done, k.1)
  }

  /** One more row of the source, into whichever stream it belongs. */
  lemma RowNext(m: Streams, p: Streams, k: Key, all: seq<WalRow>, i: nat, s: Stream, done: seq<WalRow>)
    requires i < |all| && AppendsInOrder(m, k.0, all) && GrownAt(m, p, k, all[..i]) && done == all[..i + 1]
    requires AppendRow(At(p, (k.0, all[i].stream)), all[i]) == Ok(s)
    ensures GrownAt(m, p[(k.0, all[i].stream) := s], k, done)
  {
    assert IsAt(p, k, At(p, k)) && NewAt(m, k.0, all, i) && InWidth(all, i);
    assert done == all[..i] + [all[i]];
    if all[i].stream == k.1 {
      NextIsNew(At(m, k), At(p, k), all, i, k.1);
      AppendKept(At(p, k), all[i], s, k.1);
      RowGrows(At(m, k), At(p, k), all[..i], all[i], k.1, s);
    } else {
      GrownMore(At(m, k), At(p, k), all[..i], done, k.1);
    }
  }

  /** One source's transaction, row by row. */
  lemma {:induction false} RowsGrow(
    m: Streams, p: Streams, k: Key, all: seq<WalRow>, i: nat, rows: seq<WalRow>, n: nat, q: Streams, at: nat)
    requires n <= |rows| && RunsFrom(all, i, rows) && at == i + n
    requires AppendsInOrder(m, k.0, all) && GrownAt(m, p, k, all[..i]) && InsertTo(p, k.0, rows, n) == Ok(q)
    ensures GrownAt(m, q, k, all[..at])
  {
    if n > 0 {
      var q' := InsertTo(p, k.0, rows, n - 1).value;
      RowsGrow(m, p, k, all, i, rows, n - 1, q', at - 1);
      assert RunsAt(all, i, rows, n - 1);
      var s := Inserted(p, k.0, rows, n, q', q);
      RowNext(m, q', k, all, at - 1, s, all[..at]);
    }
  }

  /** The stream the last of `n` inserts made. */
  lemma Inserted(p: Streams, source: int, rows: seq<WalRow>, n: nat, q': Streams, q: Streams) returns (s: Stream)
    requires 0 < n <= |rows| && InsertTo(p, source, rows, n) == Ok(q) && InsertTo(p, source, rows, n - 1) == Ok(q')
    ensures AppendRow(At(q', (source, rows[n - 1].stream)), rows[n - 1]) == Ok(s)
    ensures q == q'[(source, rows[n - 1].stream) := s]
  {
    s := AppendRow(At(q', (source, rows[n - 1].stream)), rows[n - 1]).value;
  }

  lemma LandGrows(m: Streams, p: Streams, k: Key, all: seq<WalRow>, i: nat, b: Batch, failed: bool, j: nat)
    requires j == i + |Own(b, k.0)| && RunsFrom(all, i, Own(b, k.0))
    requires AppendsInOrder(m, k.0, all) && GrownAt(m, p, k, all[..i])
    ensures GrownAt(m, Land(p, b, failed), k, all[..j])
  {
    var q := Land(p, b, failed);
    assert IsAt(p, k, At(p, k));
    if !failed && InsertRows(p, b).Ok? && b.0 == k.0 {
      RowsGrow(m, p, k, all, i, b.1, |b.1|, q, j);
    } else {
      if !failed && InsertRows(p, b).Ok? {
        InsertOthers(p, b.0, b.1, |b.1|, k.0);
        assert SameAt(p, q, k);
      }
      GrownMore(At(m, k), At(p, k), all[..i], all[..j], k.1);
    }
  }

  lemma {:induction false} EachGrows(m: Streams, ticks: seq<Batch>, fails: set<nat>, n: nat, k: Key)
    requires n <= |ticks| && AppendsInOrder(m, k.0, Flat(ticks, k.0)) && GrownAt(m, m, k, [])
    ensures GrownAt(m, EachTo(m, ticks, fails, n), k, Flat(ticks[..n], k.0))
  {
    if n == 0 {
      assert ticks[..0] == [];
    } else {
      EachGrows(m, ticks, fails, n - 1, k);
      FlatNext(ticks, n - 1, n, k.0);
      LandGrows(m, EachTo(m, ticks, fails, n - 1), k, Flat(ticks, k.0), |Flat(ticks[..n - 1], k.0)|, ticks[n - 1], n - 1 in fails,
        |Flat(ticks[..n], k.0)|);
    }
  }

  // ------------------------------------------------------------------ one event

  ghost predicate KeptAt(m: Streams, k: Key) {
    forall s :: IsAt(m, k, s) ==> Kept(s, k.1)
  }

  ghost predicate ViewGrows(m: Streams, m': Streams, k: Key) {
    View(At(m, k).t) <= View(At(m', k).t)
  }

  /** The stream is still kept, and shows what it showed and more. */
  ghost predicate Extends(m: Streams, m': Streams, k: Key) {
    KeptAt(m', k) && ViewGrows(m, m', k)
  }

  lemma SameExtends(m: Streams, m': Streams, k: Key)
    requires KeptAt(m, k) && At(m', k) == At(m, k)
    ensures Extends(m, m', k)
  {
    assert IsAt(m, k, At(m, k));
  }

  lemma TickExtends(w: World, ticks: seq<Batch>, batchFails: bool, fails: set<nat>, k: Key)
    requires KeptAt(w.streams, k) && AppendsInOrder(w.streams, k.0, Flat(ticks, k.0))
    ensures Extends(w.streams, TickStep(w, ticks, batchFails, fails).streams, k)
  {
    var m, kept := w.streams, Filtered(w.streams, w.floors, ticks);
    FilteredLeft(m, w.floors, ticks, k.0);
    assert IsAt(m, k, At(m, k)) && GrownAt(m, m, k, []);
    EachGrows(m, kept, {}, |kept|, k);
    EachGrows(m, kept, fails, |kept|, k);
    if BatchTo(m, kept, |kept|).Ok? {
      BatchIsEach(m, kept, |kept|);
    }
    var m' := TickStep(w, ticks, batchFails, fails).streams;
    assert IsAt(m', k, At(m', k));
  }

  lemma SealExtends(m: Streams, source: int, batch: seq<Text>, maxRows: nat, enc: Encoders, m': Streams, k: Key)
    requires KeptAt(m, k) && SealBatch(m, source, batch, maxRows, enc) == Ok(m')
    requires source == k.0 ==> RowPreserving(enc(k.1))
    ensures Extends(m, m', k)
  {
    assert IsAt(m, k, At(m, k));
    SealAt(m, source, batch, maxRows, enc, |batch|, m', k);
    if k.0 == source && k.1 in batch[..|batch|] {
      var s := At(m, k);
      var s' := SealGrows(enc(k.1), s, maxRows, k.1);
      var sealed := RowPreservingSealStream(enc(k.1), s, maxRows);
      EndOfView(s.t, View(s.t));
    } else {
      SameExtends(m, m', k);
    }
  }

  /** What the source's history may hold: in-order appends, row-preserving seals, nothing deleted. */
  ghost predicate Publishable(w: World, e: Event, source: int) {
    match e
    case Tick(ticks, _, _) => AppendsInOrder(w.streams, source, Flat(ticks, source))
    case Seal(s, _, _, enc) => s == source ==> forall stream: Text :: RowPreserving(enc(stream))
    case AdoptOne(s, _, _) => s != source
    case EvictBefore(s, _, _) => s != source
    case _ => true
  }

  lemma PruneExtends(m: Streams, key: Key, upto: int, k: Key)
    requires KeptAt(m, k) && At(m, key).t.segs != [] && upto <= LastOf(At(m, key).t.segs)
    ensures Extends(m, PruneAt(m, key, upto), k)
  {
    assert IsAt(m, k, At(m, k));
    if key == k {
      PruneGrows(At(m, k), upto, k.1);
    } else {
      SameExtends(m, PruneAt(m, key, upto), k);
    }
  }

  lemma MergeExtends(m: Streams, key: Key, at: nat, n: nat, k: Key)
    requires KeptAt(m, k)
    ensures Extends(m, MergeAt(m, key, at, n), k)
  {
    var s := At(m, k);
    assert IsAt(m, k, s);
    if key == k && k in m && 0 < n && at + n <= |s.t.segs| == |s.t.nums| {
      MergeGrows(s, at, n, k.1);
    } else {
      SameExtends(m, MergeAt(m, key, at, n), k);
    }
  }

  lemma CrashExtends(m: Streams, k: Key)
    requires KeptAt(m, k)
    ensures Extends(m, ReopenAll(m), k)
  {
    assert IsAt(m, k, At(m, k));
    if k in m {
      ReopenGrows(At(m, k), k.1);
    } else {
      SameExtends(m, ReopenAll(m), k);
    }
  }

  lemma StepExtends(w: World, e: Event, k: Key)
    requires KeptAt(w.streams, k) && Legal(w, e) && Publishable(w, e, k.0)
    ensures Extends(w.streams, Step(w, e).streams, k)
  {
    var m, m' := w.streams, Step(w, e).streams;
    match e {
      case Tick(ticks, batchFails, fails) => TickExtends(w, ticks, batchFails, fails, k);
      case Seal(source, batch, maxRows, enc) =>
        if SealBatch(m, source, batch, maxRows, enc).Ok? {
          SealExtends(m, source, batch, maxRows, enc, m', k);
        } else {
          SameExtends(m, m', k);
        }
      case PruneUpTo(key, upto) => PruneExtends(m, key, upto, k);
      case MergeOne(key, at, n) => MergeExtends(m, key, at, n, k);
      case Crash => CrashExtends(m, k);
      case _ => SameExtends(m, m', k);
    }
  }

  // ------------------------------------------------------------------ a history

  /** The archive, with one source's caller rows by name. */
  datatype Archive = Archive(w: World, callers: map<Text, seq<CallerRow>>)

  /** A step of the storage machine, or the caller appending an entry under a name. */
  datatype Change = Storage(e: Event) | Entry(name: Text, row: CallerRow)

  function EntriesIn(a: Archive, name: Text): seq<CallerRow> {
    if name in a.callers then a.callers[name] else []
  }

  function ChangeBy(a: Archive, c: Change): Archive {
    match c
    case Storage(e) => a.(w := Step(a.w, e))
    case Entry(name, row) => a.(callers := a.callers[name := EntriesIn(a, name) + [row]])
  }

  ghost predicate Fits(a: Archive, c: Change, source: int) {
    match c
    case Storage(e) => Legal(a.w, e) && Publishable(a.w, e, source)
    case Entry(name, row) =>
      var had := EntriesIn(a, name);
      I64_MIN <= row.ts && (had != [] ==> had[|had| - 1].ts <= row.ts)
  }

  /** `as[i]` is the archive before change `i`, from an empty one on. */
  ghost predicate IsHistory(archives: seq<Archive>, cs: seq<Change>, source: int) {
    && |archives| == |cs| + 1 && archives[0] == Archive(NEW, map[])
    && forall i: nat :: i < |cs| ==> ChangesAt(archives, cs, source, i)
  }

  ghost predicate ChangesAt(archives: seq<Archive>, cs: seq<Change>, source: int, i: nat)
    requires |archives| == |cs| + 1 && i < |cs|
  {
    Fits(archives[i], cs[i], source) && archives[i + 1] == ChangeBy(archives[i], cs[i])
  }

  ghost predicate EntriesOk(rows: seq<CallerRow>) {
    InOrder(rows) && forall i :: 0 <= i < |rows| ==> I64_MIN <= rows[i].ts
  }

  ghost predicate NameOk(a: Archive, name: Text) {
    EntriesOk(EntriesIn(a, name))
  }

  lemma NameStays(a: Archive, c: Change, source: int, name: Text)
    requires NameOk(a, name) && Fits(a, c, source)
    ensures NameOk(ChangeBy(a, c), name) && EntriesIn(a, name) <= EntriesIn(ChangeBy(a, c), name)
  {
    match c
    case Storage(_) =>
    case Entry(x, row) =>
      if x == name {
        EntryMore(EntriesIn(a, name), row);
      }
  }

  lemma EntryMore(had: seq<CallerRow>, row: CallerRow)
    requires EntriesOk(had) && I64_MIN <= row.ts && (had != [] ==> had[|had| - 1].ts <= row.ts)
    ensures EntriesOk(had + [row]) && had <= had + [row]
  {}

  /** Rows and entries are only appended. */
  ghost predicate Later(a: Archive, b: Archive, source: int, x: Text) {
    forall y: Text :: y == x ==> LaterAt(a, b, source, y)
  }

  ghost predicate LaterAt(a: Archive, b: Archive, source: int, x: Text) {
    ViewGrows(a.w.streams, b.w.streams, (source, x)) && EntriesIn(a, x) <= EntriesIn(b, x)
  }

  lemma LaterTrans(a: Archive, b: Archive, c: Archive, source: int, x: Text)
    requires Later(a, b, source, x) && Later(b, c, source, x)
    ensures Later(a, c, source, x)
  {
    assert LaterAt(a, b, source, x) && LaterAt(b, c, source, x);
  }

  /** Whatever the history, the source's streams and names stay as a publisher needs them. */
  lemma {:induction false} HistoryKept(archives: seq<Archive>, cs: seq<Change>, source: int, n: nat, x: Text)
    requires IsHistory(archives, cs, source) && n <= |cs|
    ensures KeptAt(archives[n].w.streams, (source, x)) && NameOk(archives[n], x)
  {
    if n == 0 {
      assert View(EMPTY.t) == [];
      assert Kept(EMPTY, x);
    } else {
      HistoryKept(archives, cs, source, n - 1, x);
      HistoryStep(archives, cs, source, n - 1, n, x);
    }
  }

  lemma HistoryStep(archives: seq<Archive>, cs: seq<Change>, source: int, i: nat, j: nat, x: Text)
    requires IsHistory(archives, cs, source) && j == i + 1 <= |cs|
    requires KeptAt(archives[i].w.streams, (source, x)) && NameOk(archives[i], x)
    ensures KeptAt(archives[j].w.streams, (source, x)) && NameOk(archives[j], x)
    ensures Later(archives[i], archives[j], source, x)
  {
    var a, c := archives[i], cs[i];
    assert ChangesAt(archives, cs, source, i);
    NameStays(a, c, source, x);
    match c
    case Storage(e) => StepExtends(a.w, e, (source, x));
    case Entry(_, _) =>
  }

  lemma {:induction false} HistoryGrows(archives: seq<Archive>, cs: seq<Change>, source: int, i: nat, j: nat, x: Text)
    requires IsHistory(archives, cs, source) && i <= j <= |cs|
    ensures Later(archives[i], archives[j], source, x)
    decreases j
  {
    if i < j {
      HistoryGrows(archives, cs, source, i, j - 1, x);
      HistoryKept(archives, cs, source, j - 1, x);
      HistoryStep(archives, cs, source, j - 1, j, x);
      LaterTrans(archives[i], archives[j - 1], archives[j], source, x);
    }
  }

  // ------------------------------------------------------------------ snapshots of it

  predicate HasRecords(t: Tables) {
    t.wal != [] || t.segs != []
  }

  /** What the source's tables answer: `all_streams` and `caller_row_streams` list what they hold, each once. */
  ghost predicate Snapshot(db: Db, a: Archive, source: int) {
    && Distinct(db.streams) && Distinct(db.names)
    && (forall x: Text :: Answers(db, a, source, x))
  }

  ghost predicate Answers(db: Db, a: Archive, source: int, x: Text) {
    && TablesOf(db, x) == At(a.w.streams, (source, x)).t
    && (x in db.streams <==> HasRecords(TablesOf(db, x)))
    && CallersOf(db, x) == EntriesIn(a, x)
    && (x in db.names <==> CallersOf(db, x) != [])
  }

  /** `dbs[i]` is what the archive answers at `at[i]`, and time does not go back. */
  ghost predicate Snapshots(dbs: seq<Db>, archives: seq<Archive>, at: seq<nat>, source: int) {
    && |at| == |dbs| > 0
    && forall i: nat :: i < |dbs| ==> TakenAt(dbs, archives, at, source, i)
  }

  ghost predicate TakenAt(dbs: seq<Db>, archives: seq<Archive>, at: seq<nat>, source: int, i: nat)
    requires i < |dbs| == |at|
  {
    at[i] < |archives| && (i > 0 ==> at[i - 1] <= at[i]) && Snapshot(dbs[i], archives[at[i]], source)
  }

  lemma KeptSourced(db: Db, a: Archive, source: int, x: Text)
    requires Answers(db, a, source, x) && KeptAt(a.w.streams, (source, x)) && NameOk(a, x)
    ensures SourcedAt(db, x) && CallersAt(db, x)
  {
    var k: Key := (source, x);
    assert IsAt(a.w.streams, k, At(a.w.streams, k));
    var t := TablesOf(db, x);
    forall i: nat | i < |t.segs| ensures WideAt(t.segs, i) {
      WideSegs(t, i);
    }
    if x !in db.streams {
      LiveIs(t);
      assert View(t) == [];
    }
  }

  /** Snapshots of any such history are what the replication theorems start from. */
  lemma HistoryRuns(archives: seq<Archive>, cs: seq<Change>, source: int, dbs: seq<Db>, at: seq<nat>)
    requires IsHistory(archives, cs, source) && Snapshots(dbs, archives, at, source)
    ensures RunOk(dbs)
  {
    forall i: nat | i < |dbs| ensures DbAt(dbs, i) && GrewAt(dbs, i) {
      assert TakenAt(dbs, archives, at, source, i);
      SnapshotOk(archives, cs, source, dbs[i], at[i]);
      if i > 0 {
        assert TakenAt(dbs, archives, at, source, i - 1);
        SnapshotGrows(archives, cs, source, dbs[i - 1], at[i - 1], dbs[i], at[i]);
      }
    }
  }

  lemma SnapshotOk(archives: seq<Archive>, cs: seq<Change>, source: int, db: Db, n: nat)
    requires IsHistory(archives, cs, source) && n < |archives| && Snapshot(db, archives[n], source)
    ensures DbOk(db)
  {
    forall x: Text ensures SourcedAt(db, x) && CallersAt(db, x) {
      assert Answers(db, archives[n], source, x);
      HistoryKept(archives, cs, source, n, x);
      KeptSourced(db, archives[n], source, x);
    }
  }

  lemma SnapshotGrows(archives: seq<Archive>, cs: seq<Change>, source: int, a: Db, i: nat, b: Db, j: nat)
    requires IsHistory(archives, cs, source) && i <= j < |archives|
    requires Snapshot(a, archives[i], source) && Snapshot(b, archives[j], source)
    ensures Grows(a, b)
  {
    forall x: Text ensures GrowsAt(a, b, x) && EntriesGrowAt(a, b, x) {
      assert Answers(a, archives[i], source, x) && Answers(b, archives[j], source, x);
      HistoryGrows(archives, cs, source, i, j, x);
      assert LaterAt(archives[i], archives[j], source, x);
    }
  }

  // ------------------------------------------------------------------ replication of a history

  /** The rows of a stream past the publisher's starting point, as the archive stands at a poll. */
  ghost function Published(
    archives: seq<Archive>, at: seq<nat>, source: int, since: Option<int>, n: nat, stream: Text): seq<WalRow>
    requires n < |at| && at[0] < |archives| && at[n] < |archives|
  {
    var first, t := At(archives[at[0]].w.streams, (source, stream)).t, At(archives[at[n]].w.streams, (source, stream)).t;
    var rows := if n == 0 && since.Some? then Data(t.segs) else View(t);
    if StartOf(since, first) <= |rows| then rows[StartOf(since, first)..] else []
  }

  /**
   * The protocol on top of the storage machine: whatever in-order history the archive has had, and
   * however the subscriber seals, after any number of polls without an error its streams hold
   * exactly the archive's rows from the starting point, and its names exactly the entries sent.
   */
  lemma HistoryReplicates(
    archives: seq<Archive>, cs: seq<Change>, source: int, dbs: seq<Db>, at: seq<nat>,
    outs: seq<Out>, id: nat, handshake: RowFrame, since: Option<int>, n: nat, evs: seq<Subscription.SubEvent>, x: Text)
    requires IsHistory(archives, cs, source) && Snapshots(dbs, archives, at, source)
    requires Polls(dbs, outs, id, handshake, since) && n < |outs|
    requires Subscription.Arrived(evs, |evs|) == outs[n].frames && Subscription.OwnRun(evs)
    ensures Subscription.SubAfter(evs, |evs|).Done?
    ensures at[0] < |archives| && at[n] < |archives|
    ensures View(At(Subscription.SubAfter(evs, |evs|).sub.streams, (Subscription.SRC, x)).t)
            == Published(archives, at, source, since, n, x)
    ensures Subscription.EntriesUnder(Subscription.SubAfter(evs, |evs|).sub.entries, x) == EntriesTaken(dbs, n, FromOf(since), x)
  {
    HistoryRuns(archives, cs, source, dbs, at);
    EndToEnd(dbs, outs, id, handshake, since, n, evs, x);
    EntriesEndToEnd(dbs, outs, id, handshake, since, n, evs, x);
    PublishedIs(archives, source, dbs, at, since, n, x);
  }

  lemma PublishedIs(
    archives: seq<Archive>, source: int, dbs: seq<Db>, at: seq<nat>, since: Option<int>, n: nat, stream: Text)
    requires Snapshots(dbs, archives, at, source) && n < |dbs|
    requires StartOf(since, TablesOf(dbs[0], stream)) <= |Accounted(dbs, n, since, stream)|
    ensures at[0] < |archives| && at[n] < |archives|
    ensures Published(archives, at, source, since, n, stream)
            == Accounted(dbs, n, since, stream)[StartOf(since, TablesOf(dbs[0], stream))..]
  {
    assert TakenAt(dbs, archives, at, source, 0) && TakenAt(dbs, archives, at, source, n);
    assert Answers(dbs[0], archives[at[0]], source, stream) && Answers(dbs[n], archives[at[n]], source, stream);
  }

  /** And a poll errs exactly when some stream's row was sealed before it was shipped. */
  lemma HistoryPollErrs(
    archives: seq<Archive>, cs: seq<Change>, source: int, dbs: seq<Db>, at: seq<nat>,
    outs: seq<Out>, id: nat, handshake: RowFrame, since: Option<int>, n: nat)
    requires IsHistory(archives, cs, source) && Snapshots(dbs, archives, at, source)
    requires Polls(dbs, outs, id, handshake, since) && n < |outs| && n + 1 < |dbs|
    ensures Poll(outs[n], dbs[n + 1]).Err? <==> AnyMissed(dbs, n, since)
  {
    HistoryRuns(archives, cs, source, dbs, at);
    PollErrsExactly(dbs, outs, id, handshake, since, n);
  }
}
