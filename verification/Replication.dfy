/**
 * The protocol end to end: what a publisher sends over any number of polls of an archive that
 * appends and seals, and what a subscriber on a lossless FIFO ends with.
 */
module Replication {
  import opened Types
  import opened Rows
  import opened Encoding
  import opened Catalog
  import opened Copying
  import opened Frames
  import opened Delivery
  import opened Retention
  import opened IndexCursor
  import opened WalCursor
  import opened Publication
  import Subscription
  import Ticks

  // ------------------------------------------------------------------ items of segments and rows

  function SegItems(segs: seq<Segment>): seq<Item> {
    if segs == [] then [] else SegItems(segs[..|segs| - 1]) + [Seg(segs[|segs| - 1])]
  }

  function AllItems(rows: seq<WalRow>): seq<Item> {
    if rows == [] then [] else AllItems(rows[..|rows| - 1]) + [Row(rows[|rows| - 1])]
  }

  lemma {:induction false} SegItemsConcat(a: seq<Segment>, b: seq<Segment>)
    ensures SegItems(a + b) == SegItems(a) + SegItems(b)
    decreases |b|
  {
    if b == [] {
      assert a + b == a && SegItems(a) + [] == SegItems(a);
    } else {
      var p := b[..|b| - 1];
      assert (a + b)[..|a + b| - 1] == a + p;
      SegItemsConcat(a, p);
      assert SegItems(a) + (SegItems(p) + [Seg(b[|b| - 1])]) == SegItems(a) + SegItems(p) + [Seg(b[|b| - 1])];
    }
  }

  lemma SegItemsOne(s: Segment)
    ensures SegItems([s]) == [Seg(s)]
  {
    assert [s][..0] == [];
  }

  /** A stream's segment frames carry its segments, and nothing of any other stream. */
  lemma {:induction false} SegFramesItems(source: nat, x: Text, segs: seq<Segment>, stream: Text)
    ensures ItemsOf(SegFrames(source, x, segs), stream) == if x == stream then SegItems(segs) else []
  {
    if segs != [] {
      SegFramesItems(source, x, segs[1..], stream);
      SegFrameNext(source, x, segs[0], segs[1..], stream);
      SegItemsConcat([segs[0]], segs[1..]);
      SegItemsOne(segs[0]);
      assert segs == [segs[0]] + segs[1..];
    }
  }

  lemma SegFrameNext(source: nat, x: Text, seg: Segment, rest: seq<Segment>, stream: Text)
    ensures ItemsOf(SegFrames(source, x, [seg] + rest), stream)
            == (if x == stream then [Seg(seg)] else []) + ItemsOf(SegFrames(source, x, rest), stream)
  {
    var f := SegmentOf(source, x, SegmentMeta(seg.rows, seg.first, seg.last), seg.data, None);
    assert ([seg] + rest)[1..] == rest;
    ItemsConcat([f], SegFrames(source, x, rest), stream);
    ItemsOne(f, stream);
    assert SegmentIn(f) == seg;
  }

  /** Rows of one stream are items of that stream alone. */
  lemma {:induction false} RowItemsOf(rows: seq<WalRow>, x: Text, stream: Text)
    requires OfStream(rows, x)
    ensures RowItems(rows, stream) == if x == stream then AllItems(rows) else []
    decreases |rows|
  {
    if rows != [] {
      var p, r := rows[..|rows| - 1], rows[|rows| - 1];
      assert OfStreamAt(rows, x, |rows| - 1);
      forall i: nat | i < |p| ensures OfStreamAt(p, x, i) {
        assert OfStreamAt(rows, x, i);
      }
      RowItemsOf(p, x, stream);
      RowItemsConcat(p, [r], stream);
      assert rows == p + [r];
      assert [r][1..] == [];
      assert RowItems([r], stream) == if x == stream then [Row(r)] else [];
    }
  }

  // ------------------------------------------------------------------ quiet frames

  /** A frame that carries no segment and no row. */
  predicate Quiet(f: RowFrame) {
    !f.SegmentOf? && !f.Rows?
  }

  ghost predicate AllQuiet(fs: seq<RowFrame>) {
    forall i: nat :: i < |fs| ==> QuietAt(fs, i)
  }

  ghost predicate QuietAt(fs: seq<RowFrame>, i: nat)
    requires i < |fs|
  {
    Quiet(fs[i])
  }

  lemma {:induction false} QuietItems(fs: seq<RowFrame>, stream: Text)
    requires AllQuiet(fs)
    ensures ItemsOf(fs, stream) == []
    decreases |fs|
  {
    if fs != [] {
      var p := fs[..|fs| - 1];
      forall i: nat | i < |p| ensures QuietAt(p, i) {
        assert QuietAt(fs, i);
      }
      QuietItems(p, stream);
      assert QuietAt(fs, |fs| - 1);
    }
  }

  // ------------------------------------------------------------------ extending what was delivered

  lemma OneMore(items: seq<Item>, i: Item, stream: Text)
    requires ItemsOk(items, stream) && ItemOk(items, i, stream)
    ensures ItemsOk(items + [i], stream) && Payload(items + [i]) == Payload(items) + ItemRows(i)
    ensures Bound(items + [i]) == Some(EndOfItem(i)) && (HasRows(items + [i]) <==> HasRows(items) || i.Row?)
  {
    ItemsOkMore(items, stream, i);
    PayloadMore(items, i);
  }

  /** Ordered segments are well-formed items, and deliver their rows. */
  lemma {:induction false} SegsDeliver(segs: seq<Segment>, stream: Text)
    requires Ordered(segs)
    ensures ItemsOk(SegItems(segs), stream) && Payload(SegItems(segs)) == Data(segs) && !HasRows(SegItems(segs))
    ensures Bound(SegItems(segs)) == if segs == [] then None else Some(LastOf(segs))
    decreases |segs|
  {
    if segs != [] {
      var p, s := segs[..|segs| - 1], segs[|segs| - 1];
      OrderedSlice(segs, 0, |p|);
      assert segs[0..|p|] == p && segs == p + [s];
      SegsDeliver(p, stream);
      assert SoundAt(segs, |segs| - 1);
      assert p != [] ==> EndsBefore(segs, |p| - 1, |p|);
      OneMore(SegItems(p), Seg(s), stream);
      DataConcat(p, [s]);
      DataOne(s);
    }
  }

  lemma AllItemsMore(items: seq<Item>, p: seq<WalRow>, r: WalRow)
    ensures items + AllItems(p + [r]) == items + AllItems(p) + [Row(r)]
  {
    assert (p + [r])[..|p|] == p;
  }

  lemma OfStreamPrefix(rows: seq<WalRow>, i: nat, j: nat, stream: Text)
    requires OfStream(rows, stream) && i <= j <= |rows|
    ensures OfStream(rows[i..j], stream)
  {
    forall k: nat | k < j - i ensures OfStreamAt(rows[i..j], stream, k) {
      assert OfStreamAt(rows, stream, i + k);
    }
  }

  /** `all` is well formed, ends at `bound` and delivers `rows`. */
  ghost predicate Delivers(all: seq<Item>, stream: Text, rows: seq<WalRow>, bound: Option<int>) {
    ItemsOk(all, stream) && Payload(all) == rows && Bound(all) == bound
  }

  lemma RowMore(p: seq<Item>, all: seq<Item>, stream: Text, rows: seq<WalRow>, bound: Option<int>, r: WalRow, more: seq<WalRow>)
    requires Delivers(p, stream, rows, bound) && r.stream == stream && After(bound, r.ts)
    requires all == p + [Row(r)] && more == rows + [r]
    ensures Delivers(all, stream, more, Some(r.ts))
  {
    OneMore(p, Row(r), stream);
  }

  /** Rows past everything delivered are well-formed items after it. */
  lemma {:induction false} RowsDeliver(
    items: seq<Item>, had: seq<WalRow>, bound: Option<int>, rows: seq<WalRow>, stream: Text, all: seq<Item>, total: seq<WalRow>,
    end: Option<int>)
    requires Delivers(items, stream, had, bound) && Sorted(rows) && OfStream(rows, stream)
    requires rows != [] ==> After(bound, rows[0].ts)
    requires all == items + AllItems(rows) && total == had + rows && end == if rows == [] then bound else LastTs(rows)
    ensures Delivers(all, stream, total, end)
    decreases |rows|
  {
    if rows == [] {
      assert all == items && total == had;
    } else {
      var n := |rows| - 1;
      var p, r := rows[..n], rows[n];
      SortedSlice(rows, 0, n);
      OfStreamPrefix(rows, 0, n, stream);
      assert rows[0..n] == p && rows == p + [r];
      var mid, so, at := items + AllItems(p), had + p, if p == [] then bound else LastTs(p);
      RowsDeliver(items, had, bound, p, stream, mid, so, at);
      assert OfStreamAt(rows, stream, n);
      assert p != [] ==> Lt(rows, n - 1, n);
      AllItemsMore(items, p, r);
      assert total == so + [r];
      RowMore(mid, all, stream, so, at, r, total);
    }
  }

  /**
   * One stream of a publisher: `v` is the prefix of the stream's rows its cursor accounts for,
   * and the items sent are well formed and deliver exactly `v[k..]`.
   */
  ghost predicate Sent(items: seq<Item>, after: Option<int>, v: seq<WalRow>, k: nat, stream: Text) {
    && after == LastTs(v)
    && k <= |v| && Payload(items) == v[k..]
    && ItemsOk(items, stream)
    && AtMost(Bound(items), after)
    && (v == [] ==> items == [])
  }

  /** What a poll without an error sends of a stream, and where that leaves it. */
  lemma PollSends(items: seq<Item>, after: Option<int>, v: seq<WalRow>, k: nat, t: Tables, stream: Text)
    requires Sent(items, after, v, k, stream) && Sourced(t, stream) && v <= View(t) && PollStream(after, t).Ok?
    ensures var p := PollStream(after, t).value;
            && Sent(items + SegItems(p.segs) + AllItems(p.rows), p.after, View(t), k, stream)
  {
    var p := PollStream(after, t).value;
    PollExact(after, v, t, stream);
    NewRows(t, v, p, stream);
    if p.segs != [] {
      assert Valid(t) && Ordered(p.segs);
      assert items + SegItems(p.segs) == SegItems(p.segs);
      SegsThenRows(p.segs, p.rows, View(t), k, stream, p.after);
    } else {
      assert items + SegItems(p.segs) == items;
      assert Data(p.segs) + p.rows == p.rows;
      RowsOnly(items, after, v, k, p.rows, View(t), stream, p.after);
    }
  }

  /** A first poll that ships segments, and then rows. */
  lemma SegsThenRows(segs: seq<Segment>, rows: seq<WalRow>, view: seq<WalRow>, k: nat, stream: Text, after: Option<int>)
    requires segs != [] && Ordered(segs) && Sorted(rows) && OfStream(rows, stream)
    requires rows != [] ==> After(Some(LastOf(segs)), rows[0].ts)
    requires Data(segs) + rows == view && k == 0 && after == LastTs(view)
    requires after == if rows == [] then Some(LastOf(segs)) else LastTs(rows)
    ensures Sent(SegItems(segs) + AllItems(rows), after, view, k, stream)
  {
    SegsDeliver(segs, stream);
    RowsDeliver(SegItems(segs), Data(segs), Some(LastOf(segs)), rows, stream, SegItems(segs) + AllItems(rows), view, after);
    DataSorted(segs);
    assert view[0..] == view;
  }

  /** A poll that ships rows alone. */
  lemma RowsOnly(
    items: seq<Item>, was: Option<int>, v: seq<WalRow>, k: nat, rows: seq<WalRow>, view: seq<WalRow>, stream: Text, after: Option<int>)
    requires Sent(items, was, v, k, stream) && Sorted(rows) && OfStream(rows, stream)
    requires v <= view && rows == view[|v|..] && after == LastTs(view)
    requires rows != [] ==> After(was, rows[0].ts)
    ensures Sent(items + AllItems(rows), after, view, k, stream)
  {
    var all := items + AllItems(rows);
    assert view == v + rows && view[k..] == v[k..] + rows;
    RowsDeliver(items, v[k..], Bound(items), rows, stream, all, view[k..], if rows == [] then Bound(items) else LastTs(rows));
  }

  /** The rows a poll finds are the last of the stream's: sorted, and its own. */
  lemma RowsAreLast(t: Tables, n: nat, rows: seq<WalRow>, stream: Text)
    requires Sourced(t, stream) && n <= |View(t)| && rows == View(t)[n..]
    ensures Sorted(rows) && OfStream(rows, stream)
    ensures rows != [] ==> LastTs(View(t)) == LastTs(rows)
    ensures rows != [] && n > 0 ==> View(t)[n - 1].ts < rows[0].ts
  {
    ViewSorted(t);
    var all := View(t);
    SortedSuffix(all, n);
    OfStreamPrefix(all, n, |all|, stream);
    assert all[n..|all|] == rows;
    if rows != [] && n > 0 {
      assert Lt(all, n - 1, n);
    }
  }

  /** The rows a poll finds are past what it ships as segments, or past the cursor. */
  lemma NewRows(t: Tables, v: seq<WalRow>, p: Polled, stream: Text)
    requires Sourced(t, stream) && v <= View(t)
    requires p.segs == [] || (p.segs == t.segs && v == [])
    requires Data(p.segs) + p.rows == View(t)[|v|..]
    ensures Sorted(p.rows) && OfStream(p.rows, stream)
    ensures p.rows != [] && p.segs != [] ==> After(Some(LastOf(p.segs)), p.rows[0].ts)
    ensures p.rows != [] && p.segs == [] ==> After(LastTs(v), p.rows[0].ts)
    ensures p.rows != [] ==> LastTs(View(t)) == LastTs(p.rows)
    ensures p.rows == [] && p.segs == [] ==> View(t) == v
    ensures p.rows == [] && p.segs != [] ==> LastTs(View(t)) == Some(LastOf(p.segs))
  {
    var n := |v| + |Data(p.segs)|;
    assert p.rows == View(t)[n..] by {
      assert View(t)[|v|..][|Data(p.segs)|..] == View(t)[n..];
    }
    RowsAreLast(t, n, p.rows, stream);
    if p.segs != [] {
      RowsPastSegs(t, p.rows, stream);
    } else if v != [] {
      assert View(t)[|v| - 1] == v[|v| - 1];
    }
  }

  lemma RowsPastSegs(t: Tables, rows: seq<WalRow>, stream: Text)
    requires Sourced(t, stream) && t.segs != [] && rows == View(t)[|Data(t.segs)|..]
    ensures rows != [] ==> After(Some(LastOf(t.segs)), rows[0].ts)
    ensures rows == [] ==> LastTs(View(t)) == Some(LastOf(t.segs))
  {
    LastBefore(t, |Data(t.segs)|);
  }

  lemma LastBefore(t: Tables, n: nat)
    requires Valid(t) && Tight(t) && t.segs != [] && n == |Data(t.segs)|
    ensures n < |View(t)| ==> LastOf(t.segs) < View(t)[n].ts
    ensures n == |View(t)| ==> LastTs(View(t)) == Some(LastOf(t.segs))
  {
    ViewSorted(t);
    DataSorted(t.segs);
    if n < |View(t)| {
      assert View(t)[n] == LiveWal(t)[0];
      assert Data(t.segs)[n - 1].ts < LiveWal(t)[0].ts;
    } else {
      assert View(t) == Data(t.segs);
    }
  }

  /** What the opening sends of a stream. */
  lemma OpenSends(since: Option<int>, t: Tables, stream: Text) returns (v: seq<WalRow>)
    requires Sourced(t, stream) && forall i: nat :: i < |t.segs| ==> WideAt(t.segs, i)
    ensures v == (if since.Some? then Data(t.segs) else View(t)) && v <= View(t)
    ensures var p := OpenStream(since, t);
            Sent(SegItems(p.segs), p.after, v, StartOf(since, t), stream) && p.rows == []
  {
    v := OpenExact(since, t, stream);
    var p := OpenStream(since, t);
    SegsDeliver(p.segs, stream);
    if v == [] {
      MarkIs(t, stream);
      if p.segs != [] {
        DataSorted(p.segs);
      }
    }
  }

  // ------------------------------------------------------------------ one snapshot

  /** The archive is one a row-preserving writer made, and its listings are complete. */
  ghost predicate DbOk(db: Db) {
    && Distinct(db.streams) && Distinct(db.names)
    && (forall stream: Text :: SourcedAt(db, stream))
    && (forall name: Text :: CallersAt(db, name))
  }

  ghost predicate SourcedAt(db: Db, stream: Text) {
    && Sourced(TablesOf(db, stream), stream)
    && (stream !in db.streams ==> View(TablesOf(db, stream)) == [])
    && forall i: nat :: i < |TablesOf(db, stream).segs| ==> WideAt(TablesOf(db, stream).segs, i)
  }

  ghost predicate CallersAt(db: Db, name: Text) {
    && InOrder(CallersOf(db, name))
    && (forall i :: 0 <= i < |CallersOf(db, name)| ==> I64_MIN <= CallersOf(db, name)[i].ts)
    && (name !in db.names ==> CallersOf(db, name) == [])
  }

  /** A later snapshot of the same archive: rows and entries are only appended. */
  ghost predicate Grows(a: Db, b: Db) {
    && (forall stream: Text :: GrowsAt(a, b, stream))
    && (forall name: Text :: EntriesGrowAt(a, b, name))
  }

  ghost predicate GrowsAt(a: Db, b: Db, stream: Text) {
    View(TablesOf(a, stream)) <= View(TablesOf(b, stream))
  }

  ghost predicate EntriesGrowAt(a: Db, b: Db, name: Text) {
    CallersOf(a, name) <= CallersOf(b, name)
  }

  // ------------------------------------------------------------------ what the log of frames says

  ghost predicate DeclaredAll(fs: seq<RowFrame>) {
    forall n: nat :: n < |fs| ==> DeclaredAt(fs, n)
  }

  /** The cursor's own accounts agree with the frames sent. */
  ghost predicate LogAt(state: IndexState, full: bool, number: nat, fs: seq<RowFrame>) {
    && state == StateAfter(fs) && full == FullSeen(fs) && number == RowsCount(fs)
    && (state != NO_INDEX_STATE ==> full)
    && DeclaredAll(fs)
  }

  lemma DeclaredMore(fs: seq<RowFrame>, f: RowFrame)
    requires DeclaredAll(fs) && DeclaredOk(fs, f)
    ensures DeclaredAll(fs + [f])
  {
    var more := fs + [f];
    forall n: nat | n < |more| ensures DeclaredAt(more, n) {
      if n < |fs| {
        assert DeclaredAt(fs, n);
        assert more[..n] == fs[..n];
      } else {
        assert more[..n] == fs;
      }
    }
  }

  /** An index frame, whose state the next row will be declared against. */
  lemma IndexLogged(state: IndexState, full: bool, number: nat, fs: seq<RowFrame>, f: RowFrame, all: seq<RowFrame>)
    requires LogAt(state, full, number, fs) && f.Index? && f.state != NO_INDEX_STATE && f.kind == (if full then Delta else Full)
    requires all == fs + [f]
    ensures LogAt(f.state, true, number, all)
    ensures forall stream :: ItemsOf(all, stream) == ItemsOf(fs, stream)
  {
    DeclaredMore(fs, f);
    OneMoreFrame(fs, f, []);
    forall stream ensures ItemsOf(all, stream) == ItemsOf(fs, stream) {
      OneMoreFrame(fs, f, stream);
      assert ItemsOf(fs, stream) + [] == ItemsOf(fs, stream);
    }
  }

  ghost predicate SameItems(a: seq<RowFrame>, b: seq<RowFrame>) {
    forall stream: Text :: SameItemsAt(a, b, stream)
  }

  ghost predicate SameItemsAt(a: seq<RowFrame>, b: seq<RowFrame>, stream: Text) {
    ItemsOf(a, stream) == ItemsOf(b, stream)
  }

  lemma SameItemsTrans(a: seq<RowFrame>, b: seq<RowFrame>, c: seq<RowFrame>)
    requires SameItems(a, b) && SameItems(b, c)
    ensures SameItems(a, c)
  {
    forall stream: Text ensures SameItemsAt(a, c, stream) {
      assert SameItemsAt(a, b, stream) && SameItemsAt(b, c, stream);
    }
  }

  /** Everything one name emits is logged, whatever its cursor. */
  lemma {:induction false} EmitLogged(
    e0: Emit, source: nat, name: Text, rows: seq<CallerRow>, n: nat, number: nat, fs: seq<RowFrame>, all: seq<RowFrame>)
    requires n <= |rows| && e0.frames == [] && LogAt(e0.state, e0.sentFull, number, fs)
    requires all == fs + EmitTo(e0, source, name, rows, n).frames
    ensures LogAt(EmitTo(e0, source, name, rows, n).state, EmitTo(e0, source, name, rows, n).sentFull, number, all)
    ensures SameItems(fs, all)
  {
    if n == 0 {
      assert all == fs;
    } else {
      var p, e := EmitTo(e0, source, name, rows, n - 1), EmitTo(e0, source, name, rows, n);
      EmitLogged(e0, source, name, rows, n - 1, number, fs, fs + p.frames);
      if e.frames != p.frames {
        var f := e.frames[|e.frames| - 1];
        assert e.frames == p.frames + [f];
        assert all == fs + p.frames + [f];
        IndexLogged(p.state, p.sentFull, number, fs + p.frames, f, all);
        forall stream: Text ensures SameItemsAt(fs, all, stream) {
          assert SameItemsAt(fs, fs + p.frames, stream);
        }
      }
    }
  }

  /** The part of the cursor the index has no hand in. */
  predicate SameRest(a: Cursor, b: Cursor) {
    a.source == b.source && a.after == b.after && a.number == b.number
  }

  lemma {:induction false} IndexLog(o: Out, db: Db, from: int, n: nat, r: Out)
    requires n <= |db.names| && LogAt(o.cursor.state, o.cursor.sentFull, o.cursor.number, o.frames)
    requires r == IndexTo(o, db, from, n)
    ensures LogAt(r.cursor.state, r.cursor.sentFull, r.cursor.number, r.frames)
    ensures SameRest(o.cursor, r.cursor) && SameItems(o.frames, r.frames)
  {
    if n > 0 {
      var p := IndexTo(o, db, from, n - 1);
      IndexLog(o, db, from, n - 1, p);
      var name := db.names[n - 1];
      var read := KeepRows(CallersOf(db, name), Start(IndexOf(p.cursor, name), from));
      EmitLogged(Begin(IndexOf(p.cursor, name), p.cursor.state, p.cursor.sentFull), p.cursor.source, name, read, |read|,
        p.cursor.number, p.frames, r.frames);
      SameItemsTrans(o.frames, p.frames, r.frames);
    }
  }

  // ------------------------------------------------------------------ the streams of a poll

  /** Segment frames change nothing that rows are declared against. */
  lemma {:induction false} SegsLogged(
    state: IndexState, full: bool, number: nat, fs: seq<RowFrame>, source: nat, x: Text, segs: seq<Segment>, all: seq<RowFrame>)
    requires LogAt(state, full, number, fs) && all == fs + SegFrames(source, x, segs)
    ensures LogAt(state, full, number, all)
    decreases |segs|
  {
    if segs == [] {
      assert all == fs;
    } else {
      var f := SegmentOf(source, x, SegmentMeta(segs[0].rows, segs[0].first, segs[0].last), segs[0].data, None);
      DeclaredMore(fs, f);
      OneMoreFrame(fs, f, []);
      assert all == fs + [f] + SegFrames(source, x, segs[1..]);
      SegsLogged(state, full, number, fs + [f], source, x, segs[1..], all);
    }
  }

  lemma Past1Of(live: seq<WalRow>, from: Option<int>, stream: Text)
    requires Sorted(live) && OfStream(live, stream)
    ensures Sorted(Past1(live, from)) && OfStream(Past1(live, from), stream)
  {
    if from.Some? {
      var i := CutExists(live, from.value + 1);
      SortedSuffix(live, i);
      OfStreamPrefix(live, i, |live|, stream);
      assert live[i..|live|] == live[i..];
    }
  }

  lemma LiveOf(t: Tables, stream: Text)
    requires Sourced(t, stream)
    ensures Sorted(LiveWal(t)) && OfStream(LiveWal(t), stream)
  {
    LiveSorted(t);
    var n := |Data(t.segs)|;
    assert LiveWal(t) == View(t)[n..|View(t)|];
    OfStreamPrefix(View(t), n, |View(t)|, stream);
  }

  /** The rows a poll gathers of a stream are its own, oldest first. */
  lemma PolledOf(after: Option<int>, t: Tables, stream: Text)
    requires Sourced(t, stream) && PollStream(after, t).Ok?
    ensures Sorted(PollStream(after, t).value.rows) && OfStream(PollStream(after, t).value.rows, stream)
    ensures after.Some? ==> PollStream(after, t).value.after.Some?
  {
    LiveOf(t, stream);
    var from := if MaxLast(t.segs).Some? && after.None? then MaxLast(t.segs) else after;
    Past1Of(LiveWal(t), from, stream);
  }

  /** What visiting the first `n` streams leaves of one of them. */
  ghost predicate Visited(g: Gathered, db: Db, n: nat, g': Gathered, stream: Text)
    requires n <= |db.streams|
  {
    forall s: Text :: s == stream ==> VisitedTo(g, db, n, g', s)
  }

  ghost predicate VisitedTo(g: Gathered, db: Db, n: nat, g': Gathered, stream: Text)
    requires n <= |db.streams|
  {
    if stream in db.streams[..n] then VisitedOnce(g, db, g', stream) else NotVisited(g, g', stream)
  }

  ghost predicate VisitedOnce(g: Gathered, db: Db, g': Gathered, stream: Text) {
    var r := PollStream(AfterOf(g.out.cursor, stream), TablesOf(db, stream));
    && r.Ok?
    && ItemsOf(g'.out.frames, stream) == ItemsOf(g.out.frames, stream) + SegItems(r.value.segs)
    && RowItems(g'.rows, stream) == RowItems(g.rows, stream) + AllItems(r.value.rows)
    && AfterOf(g'.out.cursor, stream) == r.value.after
  }

  ghost predicate NotVisited(g: Gathered, g': Gathered, stream: Text) {
    && ItemsOf(g'.out.frames, stream) == ItemsOf(g.out.frames, stream)
    && RowItems(g'.rows, stream) == RowItems(g.rows, stream)
    && AfterOf(g'.out.cursor, stream) == AfterOf(g.out.cursor, stream)
  }

  /** One stream visited: itself once, every other not at all. */
  lemma VisitOne(g: Gathered, db: Db, x: Text, g': Gathered, stream: Text)
    requires SourcedAt(db, x) && StreamOne(g, db, x) == Ok(g')
    ensures if x == stream then VisitedOnce(g, db, g', stream) else NotVisited(g, g', stream)
  {
    var after, t := AfterOf(g.out.cursor, x), TablesOf(db, x);
    var p := PollStream(after, t).value;
    PolledOf(after, t, x);
    SegFramesItems(g.out.cursor.source, x, p.segs, stream);
    ItemsConcat(g.out.frames, SegFrames(g.out.cursor.source, x, p.segs), stream);
    RowItemsOf(p.rows, x, stream);
    RowItemsConcat(g.rows, p.rows, stream);
    if x != stream {
      assert ItemsOf(g.out.frames, stream) + [] == ItemsOf(g.out.frames, stream);
      assert RowItems(g.rows, stream) + [] == RowItems(g.rows, stream);
    }
  }

  lemma VisitedStays(g: Gathered, db: Db, p: Gathered, g': Gathered, stream: Text)
    requires NotVisited(p, g', stream)
    ensures VisitedOnce(g, db, p, stream) ==> VisitedOnce(g, db, g', stream)
    ensures NotVisited(g, p, stream) ==> NotVisited(g, g', stream)
  {}

  lemma VisitedNow(g: Gathered, db: Db, p: Gathered, g': Gathered, stream: Text)
    requires NotVisited(g, p, stream) && VisitedOnce(p, db, g', stream)
    ensures VisitedOnce(g, db, g', stream)
  {}

  lemma ListedMore(names: seq<Text>, n: nat, stream: Text)
    requires Distinct(names) && n < |names|
    ensures stream in names[..n + 1] <==> stream in names[..n] || stream == names[n]
    ensures names[n] !in names[..n]
  {
    FreshName(names, n);
    assert names[..n + 1] == names[..n] + [names[n]];
  }

  lemma VisitNext(g: Gathered, db: Db, n: nat, m: nat, p: Gathered, x: Text, g': Gathered, stream: Text)
    requires m == n + 1 <= |db.streams| && x == db.streams[n] && Distinct(db.streams) && SourcedAt(db, x)
    requires Visited(g, db, n, p, stream) && StreamOne(p, db, x) == Ok(g')
    ensures Visited(g, db, m, g', stream)
  {
    assert VisitedTo(g, db, n, p, stream);
    VisitOne(p, db, x, g', stream);
    ListedMore(db.streams, n, stream);
    if x == stream {
      VisitedNow(g, db, p, g', stream);
    } else {
      VisitedStays(g, db, p, g', stream);
    }
  }

  lemma {:induction false} VisitStreams(g: Gathered, db: Db, n: nat, g': Gathered, stream: Text)
    requires DbOk(db) && n <= |db.streams| && StreamsTo(g, db, n) == Ok(g')
    ensures Visited(g, db, n, g', stream)
  {
    if n > 0 {
      var m := n - 1;
      var p := StreamsTo(g, db, m).value;
      VisitStreams(g, db, m, p, stream);
      assert SourcedAt(db, db.streams[m]);
      VisitNext(g, db, m, n, p, db.streams[m], g', stream);
    }
  }

  /** Nothing but the cursors of the streams moves, and the log stays true. */
  lemma {:induction false} StreamsLog(g: Gathered, db: Db, n: nat, g': Gathered)
    requires n <= |db.streams| && StreamsTo(g, db, n) == Ok(g')
    requires LogAt(g.out.cursor.state, g.out.cursor.sentFull, g.out.cursor.number, g.out.frames)
    ensures g'.out.cursor == g.out.cursor.(after := g'.out.cursor.after)
    ensures LogAt(g'.out.cursor.state, g'.out.cursor.sentFull, g'.out.cursor.number, g'.out.frames)
  {
    if n > 0 {
      var p := StreamsTo(g, db, n - 1).value;
      StreamsLog(g, db, n - 1, p);
      var x := db.streams[n - 1];
      var q := PollStream(AfterOf(p.out.cursor, x), TablesOf(db, x)).value;
      SegsLogged(p.out.cursor.state, p.out.cursor.sentFull, p.out.cursor.number, p.out.frames, p.out.cursor.source, x, q.segs,
        g'.out.frames);
    }
  }

  /** The rows gathered come stream by stream. */
  ghost predicate GatheredFrom(rows: seq<WalRow>, names: seq<Text>, n: nat)
    requires n <= |names|
  {
    InStreamOrder(rows) && AllFromNames(rows, names, n)
  }

  ghost predicate AllFromNames(rows: seq<WalRow>, names: seq<Text>, n: nat)
    requires n <= |names|
  {
    forall i: nat :: i < |rows| ==> FromNames(rows, names, n, i)
  }

  ghost predicate FromNames(rows: seq<WalRow>, names: seq<Text>, n: nat, i: nat)
    requires n <= |names| && i < |rows|
  {
    rows[i].stream in names[..n]
  }

  lemma GatherNext(a: seq<WalRow>, b: seq<WalRow>, names: seq<Text>, n: nat)
    requires Distinct(names) && n < |names| && GatheredFrom(a, names, n) && Sorted(b) && OfStream(b, names[n])
    ensures GatheredFrom(a + b, names, n + 1)
  {
    var c, m := a + b, n + 1;
    ListedMore(names, n, names[n]);
    forall i | 0 <= i < |a| ensures a[i].stream != names[n] {
      assert FromNames(a, names, n, i);
    }
    GatherMore(a, b, names[n]);
    forall i: nat | i < |c| ensures FromNames(c, names, m, i) {
      ListedMore(names, n, c[i].stream);
      if i < |a| {
        assert FromNames(a, names, n, i);
      } else {
        assert OfStreamAt(b, names[n], i - |a|);
      }
    }
  }

  lemma OrderedNext(p: Gathered, db: Db, n: nat, m: nat, x: Text, g': Gathered)
    requires m == n + 1 <= |db.streams| && x == db.streams[n] && Distinct(db.streams) && SourcedAt(db, x)
    requires GatheredFrom(p.rows, db.streams, n) && StreamOne(p, db, x) == Ok(g')
    ensures GatheredFrom(g'.rows, db.streams, m)
  {
    var after, t := AfterOf(p.out.cursor, x), TablesOf(db, x);
    PolledOf(after, t, x);
    GatherNext(p.rows, PollStream(after, t).value.rows, db.streams, n);
  }

  lemma {:induction false} StreamsOrdered(out: Out, db: Db, n: nat, g': Gathered)
    requires DbOk(db) && n <= |db.streams| && StreamsTo(Gathered(out, []), db, n) == Ok(g')
    ensures GatheredFrom(g'.rows, db.streams, n)
  {
    if n > 0 {
      var m := n - 1;
      var p := StreamsTo(Gathered(out, []), db, m).value;
      StreamsOrdered(out, db, m, p);
      assert SourcedAt(db, db.streams[m]);
      OrderedNext(p, db, m, n, db.streams[m], g');
    }
  }

  lemma GatherMore(a: seq<WalRow>, b: seq<WalRow>, x: Text)
    requires InStreamOrder(a) && Sorted(b) && OfStream(b, x) && forall i :: 0 <= i < |a| ==> a[i].stream != x
    ensures InStreamOrder(a + b)
  {
    var c := a + b;
    forall i: nat, j: nat | i < j < |c| ensures PairInOrder(c, i, j) {
      if j < |a| {
        assert PairInOrder(a, i, j);
      } else if i >= |a| {
        assert Lt(b, i - |a|, j - |a|);
      } else {
        assert OfStreamAt(b, x, j - |a|);
      }
    }
  }

  /** A poll errs exactly when some stream's part does. */
  lemma {:induction false} StreamsErr(g: Gathered, db: Db, n: nat)
    requires DbOk(db) && n <= |db.streams|
    ensures StreamsTo(g, db, n).Err? <==>
            exists i: nat :: i < n && StreamErrs(g, db, i)
  {
    if n > 0 {
      var m := n - 1;
      StreamsErr(g, db, m);
      StreamsNext(g, db, m, n);
      if StreamsTo(g, db, m).Ok? {
        StreamErrNow(g, db, m, StreamsTo(g, db, m).value);
      }
      if i: nat :| i < n && StreamErrs(g, db, i) {
        assert i < m || i == m;
      }
    }
  }

  lemma StreamsNext(g: Gathered, db: Db, n: nat, m: nat)
    requires m == n + 1 <= |db.streams|
    ensures StreamsTo(g, db, m).Err? <==> StreamsTo(g, db, n).Err? || StreamOne(StreamsTo(g, db, n).value, db, db.streams[n]).Err?
  {}

  /** A stream not visited yet errs at its turn just where its cursor at the start says. */
  lemma StreamErrNow(g: Gathered, db: Db, n: nat, p: Gathered)
    requires DbOk(db) && n < |db.streams| && StreamsTo(g, db, n) == Ok(p)
    ensures StreamErrs(g, db, n) <==> StreamOne(p, db, db.streams[n]).Err?
  {
    VisitStreams(g, db, n, p, db.streams[n]);
    assert VisitedTo(g, db, n, p, db.streams[n]);
    FreshName(db.streams, n);
  }

  ghost predicate StreamErrs(g: Gathered, db: Db, i: nat)
    requires i < |db.streams|
  {
    PollStream(AfterOf(g.out.cursor, db.streams[i]), TablesOf(db, db.streams[i])).Err?
  }

  // ------------------------------------------------------------------ a poll

  /** What one poll sends of one stream, and where it leaves its cursor. */
  ghost predicate PolledAt(before: Out, db: Db, o: Out, stream: Text) {
    var r := PollStream(AfterOf(before.cursor, stream), TablesOf(db, stream));
    && r.Ok?
    && ItemsOf(o.frames, stream) == ItemsOf(before.frames, stream) + SegItems(r.value.segs) + AllItems(r.value.rows)
    && AfterOf(o.cursor, stream) == r.value.after
  }

  lemma NothingPolled(before: Out, db: Db, stream: Text)
    requires SourcedAt(db, stream) && stream !in db.streams
    ensures PollStream(AfterOf(before.cursor, stream), TablesOf(db, stream)) == Ok(Polled([], [], AfterOf(before.cursor, stream)))
  {
    var t := TablesOf(db, stream);
    MarkIs(t, stream);
    assert Data(t.segs) == [] && LiveWal(t) == [];
  }

  /** The one frame a poll ends with. */
  function RowsFrame(g: Gathered): RowFrame {
    Rows(g.out.cursor.source, g.out.cursor.number, g.out.cursor.state, SortTo(g.rows, |g.rows|))
  }

  ghost predicate CursorLogged(o: Out) {
    LogAt(o.cursor.state, o.cursor.sentFull, o.cursor.number, o.frames)
  }

  /** The stages of a poll without an error. */
  lemma PollStages(before: Out, db: Db, o: Out) returns (indexed: Out, g: Gathered)
    requires DbOk(db) && Poll(before, db) == Ok(o) && CursorLogged(before)
    ensures SameItems(before.frames, indexed.frames) && SameRest(before.cursor, indexed.cursor)
    ensures StreamsTo(Gathered(indexed, []), db, |db.streams|) == Ok(g)
    ensures o.frames == g.out.frames + [RowsFrame(g)] && o.cursor.after == g.out.cursor.after
    ensures CursorLogged(o)
  {
    indexed := IndexTo(before, db, I64_MIN, |db.names|);
    IndexLog(before, db, I64_MIN, |db.names|, indexed);
    g := StreamsTo(Gathered(indexed, []), db, |db.streams|).value;
    StreamsLog(Gathered(indexed, []), db, |db.streams|, g);
    DeclaredMore(g.out.frames, RowsFrame(g));
    OneMoreFrame(g.out.frames, RowsFrame(g), []);
  }

  /** The gathered rows, out in the frame's order, are the same items of each stream. */
  lemma FrameOfRows(g: Gathered, stream: Text)
    requires InStreamOrder(g.rows)
    ensures ItemsOf(g.out.frames + [RowsFrame(g)], stream) == ItemsOf(g.out.frames, stream) + RowItems(g.rows, stream)
  {
    var sorted := SortTo(g.rows, |g.rows|);
    assert g.rows[..|g.rows|] == g.rows;
    SortKeepsStreams(g.rows, |g.rows|, sorted, g.rows);
    assert SameStream(sorted, g.rows, stream);
    OneMoreFrame(g.out.frames, RowsFrame(g), stream);
  }

  lemma PolledListed(before: Out, db: Db, indexed: Out, g: Gathered, o: Out, stream: Text)
    requires VisitedOnce(Gathered(indexed, []), db, g, stream)
    requires SameItemsAt(before.frames, indexed.frames, stream) && AfterOf(indexed.cursor, stream) == AfterOf(before.cursor, stream)
    requires ItemsOf(o.frames, stream) == ItemsOf(g.out.frames, stream) + RowItems(g.rows, stream)
    requires AfterOf(o.cursor, stream) == AfterOf(g.out.cursor, stream)
    ensures PolledAt(before, db, o, stream)
  {
    var p := PollStream(AfterOf(before.cursor, stream), TablesOf(db, stream)).value;
    assert [] + AllItems(p.rows) == AllItems(p.rows);
  }

  lemma PolledUnlisted(before: Out, db: Db, indexed: Out, g: Gathered, o: Out, stream: Text)
    requires NotVisited(Gathered(indexed, []), g, stream) && SourcedAt(db, stream) && stream !in db.streams
    requires SameItemsAt(before.frames, indexed.frames, stream) && AfterOf(indexed.cursor, stream) == AfterOf(before.cursor, stream)
    requires ItemsOf(o.frames, stream) == ItemsOf(g.out.frames, stream) + RowItems(g.rows, stream)
    requires AfterOf(o.cursor, stream) == AfterOf(g.out.cursor, stream)
    ensures PolledAt(before, db, o, stream)
  {
    NothingPolled(before, db, stream);
    var items := ItemsOf(before.frames, stream);
    assert items + [] == items && items + [] + [] == items;
  }

  /** A poll without an error, stream by stream. */
  lemma PollStreams(before: Out, db: Db, o: Out, stream: Text)
    requires DbOk(db) && Poll(before, db) == Ok(o) && CursorLogged(before)
    ensures PolledAt(before, db, o, stream) && CursorLogged(o)
  {
    var indexed, g := PollStages(before, db, o);
    VisitStreams(Gathered(indexed, []), db, |db.streams|, g, stream);
    assert VisitedTo(Gathered(indexed, []), db, |db.streams|, g, stream);
    StreamsOrdered(indexed, db, |db.streams|, g);
    FrameOfRows(g, stream);
    assert SameItemsAt(before.frames, indexed.frames, stream) && SourcedAt(db, stream);
    assert db.streams[..|db.streams|] == db.streams;
    if stream in db.streams {
      PolledListed(before, db, indexed, g, o, stream);
    } else {
      PolledUnlisted(before, db, indexed, g, o, stream);
    }
  }

  /** A poll errs exactly when it meets a stream sealed past its cursor. */
  lemma PollErr(before: Out, db: Db)
    requires DbOk(db) && CursorLogged(before)
    ensures Poll(before, db).Err? <==> exists i: nat :: i < |db.streams| && CursorErrs(before.cursor, db, i)
  {
    var n := |db.streams|;
    var indexed := IndexTo(before, db, I64_MIN, |db.names|);
    var g := Gathered(indexed, []);
    IndexLog(before, db, I64_MIN, |db.names|, indexed);
    StreamsErr(g, db, n);
    forall i: nat | i < n ensures StreamErrs(g, db, i) <==> CursorErrs(before.cursor, db, i) {
      SameErrs(before.cursor, g, db, i);
    }
  }

  ghost predicate CursorErrs(c: Cursor, db: Db, i: nat)
    requires i < |db.streams|
  {
    PollStream(AfterOf(c, db.streams[i]), TablesOf(db, db.streams[i])).Err?
  }

  lemma SameErrs(c: Cursor, g: Gathered, db: Db, i: nat)
    requires i < |db.streams| && SameRest(c, g.out.cursor)
    ensures StreamErrs(g, db, i) <==> CursorErrs(c, db, i)
  {}

  // ------------------------------------------------------------------ the opening

  lemma {:induction false} OpenLog(o: Out, db: Db, since: Option<int>, n: nat, r: Out)
    requires n <= |db.streams| && CursorLogged(o) && r == OpenTo(o, db, since, n)
    ensures CursorLogged(r) && r.cursor == o.cursor.(after := r.cursor.after)
  {
    if n > 0 {
      var p := OpenTo(o, db, since, n - 1);
      OpenLog(o, db, since, n - 1, p);
      var x := db.streams[n - 1];
      SegsLogged(p.cursor.state, p.cursor.sentFull, p.cursor.number, p.frames, p.cursor.source, x,
        OpenStream(since, TablesOf(db, x)).segs, r.frames);
    }
  }

  ghost predicate OpenedAt(o: Out, db: Db, since: Option<int>, r: Out, stream: Text) {
    var p := OpenStream(since, TablesOf(db, stream));
    ItemsOf(r.frames, stream) == ItemsOf(o.frames, stream) + SegItems(p.segs) && AfterOf(r.cursor, stream) == p.after
  }

  ghost predicate NotOpened(o: Out, r: Out, stream: Text) {
    ItemsOf(r.frames, stream) == ItemsOf(o.frames, stream) && AfterOf(r.cursor, stream) == AfterOf(o.cursor, stream)
  }

  lemma OpenOneIs(o: Out, db: Db, since: Option<int>, x: Text, stream: Text)
    requires AfterOf(o.cursor, x) == None
    ensures if x == stream then OpenedAt(o, db, since, OpenOne(o, db, since, x), stream)
            else NotOpened(o, OpenOne(o, db, since, x), stream)
  {
    var p := OpenStream(since, TablesOf(db, x));
    SegFramesItems(o.cursor.source, x, p.segs, stream);
    ItemsConcat(o.frames, SegFrames(o.cursor.source, x, p.segs), stream);
    if x != stream {
      assert ItemsOf(o.frames, stream) + [] == ItemsOf(o.frames, stream);
    }
  }

  /** The streams in `done` have been opened, and no other. */
  ghost predicate OpenedIn(o: Out, db: Db, since: Option<int>, done: seq<Text>, r: Out, stream: Text) {
    if stream in done then OpenedAt(o, db, since, r, stream) else NotOpened(o, r, stream)
  }

  lemma OpenStep(o: Out, db: Db, since: Option<int>, done: seq<Text>, p: Out, x: Text, more: seq<Text>, r: Out, stream: Text)
    requires o.cursor.after == map[] && x !in done && more == done + [x] && r == OpenOne(p, db, since, x)
    requires OpenedIn(o, db, since, done, p, stream) && OpenedIn(o, db, since, done, p, x)
    ensures OpenedIn(o, db, since, more, r, stream)
  {
    OpenOneIs(p, db, since, x, stream);
  }

  lemma {:induction false} OpenStreams(o: Out, db: Db, since: Option<int>, n: nat, r: Out, stream: Text)
    requires n <= |db.streams| && Distinct(db.streams) && o.cursor.after == map[] && r == OpenTo(o, db, since, n)
    ensures OpenedIn(o, db, since, db.streams[..n], r, stream)
  {
    if n > 0 {
      var p, x, done := OpenTo(o, db, since, n - 1), db.streams[n - 1], db.streams[..n - 1];
      OpenStreams(o, db, since, n - 1, p, stream);
      OpenStreams(o, db, since, n - 1, p, x);
      FreshName(db.streams, n - 1);
      assert db.streams[..n] == done + [x];
      OpenStep(o, db, since, done, p, x, db.streams[..n], r, stream);
    }
  }

  /** A publisher on an archive it has just opened. */
  lemma OpenIs(db: Db, source: nat, handshake: RowFrame, since: Option<int>, o: Out, stream: Text)
    requires DbOk(db) && handshake.Handshake? && o == Open(db, source, handshake, since)
    ensures CursorLogged(o)
    ensures var t := TablesOf(db, stream);
            Sent(ItemsOf(o.frames, stream), AfterOf(o.cursor, stream), if since.Some? then Data(t.segs) else View(t), StartOf(since, t), stream)
  {
    var start := Out(Cursor(source, map[], map[], 0, NO_INDEX_STATE, false), [handshake]);
    var from := if since.Some? then since.value else I64_MIN;
    var indexed := IndexTo(start, db, from, |db.names|);
    HandshakeLogged(handshake);
    IndexLog(start, db, from, |db.names|, indexed);
    OpenLog(indexed, db, since, |db.streams|, o);
    assert SameItemsAt(start.frames, indexed.frames, stream) && SourcedAt(db, stream);
    ItemsOne(handshake, stream);
    OpenedOnce(indexed, db, since, o, stream);
    OpenedSends(db, since, indexed, o, stream);
  }

  lemma OpenedOnce(indexed: Out, db: Db, since: Option<int>, o: Out, stream: Text)
    requires Distinct(db.streams) && indexed.cursor.after == map[] && o == OpenTo(indexed, db, since, |db.streams|)
    ensures if stream in db.streams then OpenedAt(indexed, db, since, o, stream) else NotOpened(indexed, o, stream)
  {
    OpenStreams(indexed, db, since, |db.streams|, o, stream);
    assert db.streams[..|db.streams|] == db.streams;
  }

  lemma OpenedSends(db: Db, since: Option<int>, indexed: Out, o: Out, stream: Text)
    requires SourcedAt(db, stream) && ItemsOf(indexed.frames, stream) == [] && AfterOf(indexed.cursor, stream) == None
    requires if stream in db.streams then OpenedAt(indexed, db, since, o, stream) else NotOpened(indexed, o, stream)
    ensures var t := TablesOf(db, stream);
            Sent(ItemsOf(o.frames, stream), AfterOf(o.cursor, stream), if since.Some? then Data(t.segs) else View(t), StartOf(since, t), stream)
  {
    var t := TablesOf(db, stream);
    var v := OpenSends(since, t, stream);
    var p := OpenStream(since, t);
    assert [] + SegItems(p.segs) == SegItems(p.segs);
    if stream !in db.streams {
      MarkIs(t, stream);
      assert Data(t.segs) == [] && LiveWal(t) == [];
      assert p == Polled([], [], None);
    }
  }

  lemma HandshakeLogged(h: RowFrame)
    requires h.Handshake?
    ensures LogAt(NO_INDEX_STATE, false, 0, [h])
  {
    assert [h][..0] == [] && [] + [h] == [h];
    DeclaredMore([], h);
    OneMoreFrame([], h, []);
  }

  // ------------------------------------------------------------------ any number of polls

  /** `outs[i]` is a publisher opened on `dbs[0]`, after polling `dbs[1]` to `dbs[i]`, with all it sent. */
  ghost predicate Polls(dbs: seq<Db>, outs: seq<Out>, source: nat, handshake: RowFrame, since: Option<int>) {
    && 0 < |outs| <= |dbs| && handshake.Handshake?
    && (forall i: nat :: i < |outs| ==> PollsAt(dbs, outs, source, handshake, since, i))
  }

  ghost predicate PollsAt(dbs: seq<Db>, outs: seq<Out>, source: nat, handshake: RowFrame, since: Option<int>, i: nat)
    requires i < |outs| <= |dbs|
  {
    if i == 0 then outs[0] == Open(dbs[0], source, handshake, since) else Poll(outs[i - 1], dbs[i]) == Ok(outs[i])
  }

  /** Snapshots of one archive that only appends and seals. */
  ghost predicate RunOk(dbs: seq<Db>) {
    && dbs != []
    && (forall i: nat :: i < |dbs| ==> DbAt(dbs, i))
    && (forall i: nat :: i < |dbs| ==> GrewAt(dbs, i))
  }

  ghost predicate DbAt(dbs: seq<Db>, i: nat)
    requires i < |dbs|
  {
    DbOk(dbs[i])
  }

  ghost predicate GrewAt(dbs: seq<Db>, i: nat)
    requires i < |dbs|
  {
    i > 0 ==> Grows(dbs[i - 1], dbs[i])
  }

  /** The rows of a stream a publisher is done with after `n` polls. */
  ghost function Accounted(dbs: seq<Db>, n: nat, since: Option<int>, stream: Text): seq<WalRow>
    requires n < |dbs|
  {
    var t := TablesOf(dbs[n], stream);
    if n == 0 && since.Some? then Data(t.segs) else View(t)
  }

  ghost predicate SentAt(dbs: seq<Db>, n: nat, since: Option<int>, o: Out, stream: Text)
    requires n < |dbs|
  {
    Sent(ItemsOf(o.frames, stream), AfterOf(o.cursor, stream), Accounted(dbs, n, since, stream),
         StartOf(since, TablesOf(dbs[0], stream)), stream)
  }

  lemma AccountedGrows(dbs: seq<Db>, n: nat, since: Option<int>, stream: Text)
    requires RunOk(dbs) && n + 1 < |dbs|
    ensures Accounted(dbs, n, since, stream) <= View(TablesOf(dbs[n + 1], stream))
  {
    assert GrewAt(dbs, n + 1) && GrowsAt(dbs[n], dbs[n + 1], stream);
    assert Data(TablesOf(dbs[n], stream).segs) <= View(TablesOf(dbs[n], stream));
  }

  lemma PollSent(dbs: seq<Db>, n: nat, since: Option<int>, before: Out, o: Out, stream: Text)
    requires RunOk(dbs) && n + 1 < |dbs| && SentAt(dbs, n, since, before, stream)
    requires PolledAt(before, dbs[n + 1], o, stream)
    ensures SentAt(dbs, n + 1, since, o, stream)
  {
    AccountedGrows(dbs, n, since, stream);
    assert DbAt(dbs, n + 1) && SourcedAt(dbs[n + 1], stream);
    PollSends(ItemsOf(before.frames, stream), AfterOf(before.cursor, stream), Accounted(dbs, n, since, stream),
      StartOf(since, TablesOf(dbs[0], stream)), TablesOf(dbs[n + 1], stream), stream);
  }

  lemma PublisherStep(dbs: seq<Db>, n: nat, since: Option<int>, before: Out, o: Out, stream: Text)
    requires RunOk(dbs) && n + 1 < |dbs| && CursorLogged(before) && SentAt(dbs, n, since, before, stream)
    requires Poll(before, dbs[n + 1]) == Ok(o)
    ensures CursorLogged(o) && SentAt(dbs, n + 1, since, o, stream)
  {
    assert DbAt(dbs, n + 1);
    PollStreams(before, dbs[n + 1], o, stream);
    PollSent(dbs, n, since, before, o, stream);
  }

  ghost predicate RunsTo(dbs: seq<Db>, outs: seq<Out>, since: Option<int>, n: nat, stream: Text)
    requires n < |outs| <= |dbs|
  {
    CursorLogged(outs[n]) && SentAt(dbs, n, since, outs[n], stream)
  }

  lemma PublisherOpens(dbs: seq<Db>, outs: seq<Out>, source: nat, handshake: RowFrame, since: Option<int>, stream: Text)
    requires RunOk(dbs) && Polls(dbs, outs, source, handshake, since)
    ensures RunsTo(dbs, outs, since, 0, stream)
  {
    assert DbAt(dbs, 0) && PollsAt(dbs, outs, source, handshake, since, 0);
    OpenIs(dbs[0], source, handshake, since, outs[0], stream);
  }

  lemma PublisherNext(
    dbs: seq<Db>, outs: seq<Out>, source: nat, handshake: RowFrame, since: Option<int>, n: nat, m: nat, stream: Text)
    requires RunOk(dbs) && Polls(dbs, outs, source, handshake, since) && m == n + 1 < |outs|
    requires RunsTo(dbs, outs, since, n, stream)
    ensures RunsTo(dbs, outs, since, m, stream)
  {
    assert PollsAt(dbs, outs, source, handshake, since, m);
    PublisherStep(dbs, n, since, outs[n], outs[n + 1], stream);
  }

  /**
   * Over any number of polls without an error, the frames sent so far carry every row of every
   * stream past its starting point exactly once, in order, as items a subscriber can apply.
   */
  lemma {:induction false} PublisherRun(
    dbs: seq<Db>, outs: seq<Out>, source: nat, handshake: RowFrame, since: Option<int>, n: nat, stream: Text)
    requires RunOk(dbs) && Polls(dbs, outs, source, handshake, since) && n < |outs|
    ensures RunsTo(dbs, outs, since, n, stream)
  {
    if n == 0 {
      PublisherOpens(dbs, outs, source, handshake, since, stream);
    } else {
      PublisherRun(dbs, outs, source, handshake, since, n - 1, stream);
      PublisherNext(dbs, outs, source, handshake, since, n - 1, n, stream);
    }
  }

  /** Some row past what the publisher accounted for was sealed before this snapshot. */
  ghost predicate MissedAt(dbs: seq<Db>, n: nat, since: Option<int>, stream: Text)
    requires n + 1 < |dbs|
  {
    SealedUnread(Accounted(dbs, n, since, stream), TablesOf(dbs[n + 1], stream))
  }

  lemma StreamErrIs(dbs: seq<Db>, n: nat, since: Option<int>, o: Out, stream: Text)
    requires RunOk(dbs) && n + 1 < |dbs| && SentAt(dbs, n, since, o, stream)
    ensures PollStream(AfterOf(o.cursor, stream), TablesOf(dbs[n + 1], stream)).Err? <==> MissedAt(dbs, n, since, stream)
  {
    AccountedGrows(dbs, n, since, stream);
    assert DbAt(dbs, n + 1) && SourcedAt(dbs[n + 1], stream);
    PollExact(AfterOf(o.cursor, stream), Accounted(dbs, n, since, stream), TablesOf(dbs[n + 1], stream), stream);
  }

  ghost predicate StreamMissed(dbs: seq<Db>, n: nat, since: Option<int>, i: nat)
    requires n + 1 < |dbs| && i < |dbs[n + 1].streams|
  {
    MissedAt(dbs, n, since, dbs[n + 1].streams[i])
  }

  ghost predicate AnyMissed(dbs: seq<Db>, n: nat, since: Option<int>)
    requires n + 1 < |dbs|
  {
    exists i: nat :: i < |dbs[n + 1].streams| && StreamMissed(dbs, n, since, i)
  }

  /** A poll errs exactly when some stream's row past the cursor was sealed before it was shipped. */
  lemma PollErrsExactly(dbs: seq<Db>, outs: seq<Out>, source: nat, handshake: RowFrame, since: Option<int>, n: nat)
    requires RunOk(dbs) && Polls(dbs, outs, source, handshake, since) && n < |outs| && n + 1 < |dbs|
    ensures Poll(outs[n], dbs[n + 1]).Err? <==> AnyMissed(dbs, n, since)
  {
    var db, o := dbs[n + 1], outs[n];
    assert DbAt(dbs, n + 1);
    PublisherRun(dbs, outs, source, handshake, since, n, []);
    PollErr(o, db);
    if i: nat :| i < |db.streams| && CursorErrs(o.cursor, db, i) {
      PublisherRun(dbs, outs, source, handshake, since, n, db.streams[i]);
      StreamErrIs(dbs, n, since, o, db.streams[i]);
      assert StreamMissed(dbs, n, since, i);
    }
    if i: nat :| i < |db.streams| && StreamMissed(dbs, n, since, i) {
      PublisherRun(dbs, outs, source, handshake, since, n, db.streams[i]);
      StreamErrIs(dbs, n, since, o, db.streams[i]);
      assert CursorErrs(o.cursor, db, i);
    }
  }

  /** What was missed is a sealed row newer than every row accounted for. */
  lemma MissedMeans(v: seq<WalRow>, t: Tables, sealed: seq<WalRow>, newest: int)
    requires Valid(t) && sealed == Data(t.segs) && v <= View(t) && v != [] && newest == v[|v| - 1].ts
    ensures SealedUnread(v, t) <==> exists i: nat :: i < |sealed| && Past(sealed, i, newest)
  {
    ViewSorted(t);
    var all := View(t);
    assert all[|v| - 1] == v[|v| - 1];
    if |sealed| > |v| {
      assert Lt(all, |v| - 1, |v|);
      assert sealed[|v|] == all[|v|];
      assert Past(sealed, |v|, newest);
    } else {
      forall i: nat | i < |sealed| ensures !Past(sealed, i, newest) {
        SortedLe(all, i, |v| - 1);
        assert sealed[i] == all[i];
      }
    }
  }

  // ------------------------------------------------------------------ end to end

  lemma RunDelivers(dbs: seq<Db>, outs: seq<Out>, source: nat, handshake: RowFrame, since: Option<int>, n: nat)
    requires RunOk(dbs) && Polls(dbs, outs, source, handshake, since) && n < |outs|
    ensures Deliverable(outs[n].frames)
  {
    var frames := outs[n].frames;
    forall stream: Text ensures StreamOk(frames, stream) {
      PublisherRun(dbs, outs, source, handshake, since, n, stream);
    }
    PublisherRun(dbs, outs, source, handshake, since, n, []);
  }

  /**
   * On a lossless FIFO, whenever the subscriber seals and prunes, it refuses no segment and
   * skips no row, and ends with exactly the publisher's rows of each stream from its starting
   * point on.
   */
  lemma EndToEnd(
    dbs: seq<Db>, outs: seq<Out>, source: nat, handshake: RowFrame, since: Option<int>, n: nat,
    evs: seq<Subscription.SubEvent>, stream: Text)
    requires RunOk(dbs) && Polls(dbs, outs, source, handshake, since) && n < |outs|
    requires Subscription.Arrived(evs, |evs|) == outs[n].frames && Subscription.OwnRun(evs)
    ensures Subscription.SubAfter(evs, |evs|).Done?
    ensures StartOf(since, TablesOf(dbs[0], stream)) <= |Accounted(dbs, n, since, stream)|
    ensures var t := Ticks.At(Subscription.SubAfter(evs, |evs|).sub.streams, (Subscription.SRC, stream)).t;
            View(t) == Accounted(dbs, n, since, stream)[StartOf(since, TablesOf(dbs[0], stream))..]
  {
    RunDelivers(dbs, outs, source, handshake, since, n);
    PublisherRun(dbs, outs, source, handshake, since, n, stream);
    Subscription.SubscriberView(evs, stream);
  }
}
