/** What one poll puts out, frame by frame (src/replicate/publisher.rs:461-575). */
module PollFrames {
  import opened Types
  import opened Frames
  import opened Encoding
  import opened Delivery
  import opened IndexFold
  import opened IndexCursor
  import opened WalCursor
  import opened Publication

  // ------------------------------------------------------------------ the rows' order

  /** In a frame, `a` may stand before `b`: an earlier time, or the same and a stream not after. */
  ghost predicate NotAfter(a: WalRow, b: WalRow) {
    a.ts < b.ts || (a.ts == b.ts && !Less(b.stream, a.stream))
  }

  ghost predicate FrameOrder(rows: seq<WalRow>) {
    forall i: nat, j: nat :: i < j < |rows| ==> PairStands(rows, i, j)
  }

  ghost predicate PairStands(rows: seq<WalRow>, i: nat, j: nat)
    requires i < |rows| && j < |rows|
  {
    NotAfter(rows[i], rows[j])
  }

  lemma NotAfterTrans(a: WalRow, b: WalRow, c: WalRow)
    requires NotAfter(a, b) && NotAfter(b, c)
    ensures NotAfter(a, c)
  {
    if a.ts == c.ts && Less(c.stream, a.stream) {
      LessTotal(b.stream, c.stream);
      if Less(b.stream, c.stream) {
        LessTrans(b.stream, c.stream, a.stream);
      }
    }
  }

  /** The sort's comparison is this order's strict side. */
  lemma ComparedMeans(r: WalRow, last: WalRow)
    ensures RowLess(r, last) ==> NotAfter(r, last)
    ensures !RowLess(r, last) ==> NotAfter(last, r)
  {
    if Less(r.stream, last.stream) && Less(last.stream, r.stream) {
      LessTrans(r.stream, last.stream, r.stream);
      LessIrreflexive(r.stream);
    }
  }

  lemma OrderMore(s: seq<WalRow>, r: WalRow)
    requires FrameOrder(s) && forall i: nat :: i < |s| ==> NotAfter(s[i], r)
    ensures FrameOrder(s + [r])
  {
    var t := s + [r];
    forall i: nat, j: nat | i < j < |t| ensures PairStands(t, i, j) {
      assert j < |s| ==> PairStands(s, i, j);
    }
  }

  lemma OrderLess(s: seq<WalRow>, n: nat)
    requires FrameOrder(s) && n <= |s|
    ensures FrameOrder(s[..n])
  {
    forall i: nat, j: nat | i < j < n ensures PairStands(s[..n], i, j) {
      assert PairStands(s, i, j);
    }
  }

  lemma {:induction false} PlaceOrder(s: seq<WalRow>, r: WalRow)
    requires FrameOrder(s)
    ensures FrameOrder(Place(s, r))
    decreases |s|
  {
    if s == [] {
      OrderMore([], r);
      assert [] + [r] == [r];
    } else {
      var p, last := s[..|s| - 1], s[|s| - 1];
      ComparedMeans(r, last);
      if !RowLess(r, last) {
        forall i: nat | i < |s| ensures NotAfter(s[i], r) {
          if i < |s| - 1 {
            assert PairStands(s, i, |s| - 1);
            NotAfterTrans(s[i], last, r);
          }
        }
        OrderMore(s, r);
      } else {
        OrderLess(s, |s| - 1);
        PlaceOrder(p, r);
        PlaceMembers(p, r);
        var q := Place(p, r);
        forall i: nat | i < |q| ensures NotAfter(q[i], last) {
          assert q[i] in multiset(q);
          if q[i] != r {
            assert q[i] in p;
            var k: nat :| k < |p| && p[k] == q[i];
            assert PairStands(s, k, |s| - 1);
          }
        }
        OrderMore(q, last);
      }
    }
  }

  lemma {:induction false} SortOrder(rows: seq<WalRow>, n: nat)
    requires n <= |rows|
    ensures FrameOrder(SortTo(rows, n))
  {
    if n > 0 {
      SortOrder(rows, n - 1);
      PlaceOrder(SortTo(rows, n - 1), rows[n - 1]);
    }
  }

  /**
   * The `Rows` frame of a poll that succeeds holds exactly the rows gathered from the streams,
   * in time order across them, one time's rows by stream name.
   */
  lemma RowsInOrder(before: Out, db: Db, after: Out) returns (gathered: Gathered, rows: seq<WalRow>)
    requires Poll(before, db) == Ok(after)
    ensures StreamsTo(Gathered(IndexTo(before, db, I64_MIN, |db.names|), []), db, |db.streams|) == Ok(gathered)
    ensures after.frames == gathered.out.frames + [Rows(gathered.out.cursor.source, gathered.out.cursor.number, gathered.out.cursor.state, rows)]
    ensures multiset(rows) == multiset(gathered.rows)
    ensures forall i: nat, j: nat :: i < j < |rows| ==>
              rows[i].ts < rows[j].ts || (rows[i].ts == rows[j].ts && !Less(rows[j].stream, rows[i].stream))
  {
    gathered := StreamsTo(Gathered(IndexTo(before, db, I64_MIN, |db.names|), []), db, |db.streams|).value;
    rows := SortTo(gathered.rows, |gathered.rows|);
    SortOrder(gathered.rows, |gathered.rows|);
    SortMembers(gathered.rows, |gathered.rows|);
    assert gathered.rows[..|gathered.rows|] == gathered.rows;
    forall i: nat, j: nat | i < j < |rows|
      ensures rows[i].ts < rows[j].ts || (rows[i].ts == rows[j].ts && !Less(rows[j].stream, rows[i].stream))
    {
      assert PairStands(rows, i, j);
    }
  }

  // ------------------------------------------------------------------ what goes before the rows

  /** The state the entry at `n` is folded into. */
  function StateBefore(fs: seq<RowFrame>, state: IndexState, n: nat): IndexState
    requires n <= |fs|
  {
    if n == 0 then state else if fs[n - 1].Index? then fs[n - 1].state else state
  }

  /** An entry of the source, folded into the state before it; only the very first is a `Full`. */
  ghost predicate EntryAt(fs: seq<RowFrame>, source: nat, state: IndexState, full: bool, n: nat)
    requires n < |fs|
  {
    && fs[n].Index? && fs[n].source == source
    && fs[n].kind == (if full || n > 0 then Delta else Full)
    && fs[n].state == Fold(StateBefore(fs, state, n), fs[n].ts, fs[n].blob)
  }

  /** Entries only, which take the declared state from `state` to `state'`. */
  ghost predicate Chain(fs: seq<RowFrame>, source: nat, state: IndexState, full: bool, state': IndexState, full': bool) {
    && (forall n: nat :: n < |fs| ==> EntryAt(fs, source, state, full, n))
    && state' == StateBefore(fs, state, |fs|) && full' == (full || fs != [])
  }

  lemma ChainMore(fs: seq<RowFrame>, source: nat, s0: IndexState, f0: bool, s1: IndexState, f1: bool, f: RowFrame, all: seq<RowFrame>)
    requires Chain(fs, source, s0, f0, s1, f1) && all == fs + [f]
    requires f.Index? && f.source == source && f.kind == (if f1 then Delta else Full) && f.state == Fold(s1, f.ts, f.blob)
    ensures Chain(all, source, s0, f0, f.state, true)
  {
    forall n: nat | n < |all| ensures EntryAt(all, source, s0, f0, n) {
      if n < |fs| {
        assert EntryAt(fs, source, s0, f0, n);
      }
      assert StateBefore(all, s0, n) == StateBefore(fs, s0, n);
    }
  }

  lemma ChainJoin(
    a: seq<RowFrame>, b: seq<RowFrame>, source: nat, s0: IndexState, f0: bool, s1: IndexState, f1: bool, s2: IndexState, f2: bool,
    all: seq<RowFrame>)
    requires Chain(a, source, s0, f0, s1, f1) && Chain(b, source, s1, f1, s2, f2) && all == a + b
    ensures Chain(all, source, s0, f0, s2, f2)
  {
    forall n: nat | n < |all| ensures EntryAt(all, source, s0, f0, n) {
      if n < |a| {
        assert EntryAt(a, source, s0, f0, n) && StateBefore(all, s0, n) == StateBefore(a, s0, n);
      } else {
        ChainJoinAt(a, b, source, s0, f0, s1, f1, all, n, n - |a|);
      }
    }
    if |b| > 0 {
      assert EntryAt(b, source, s1, f1, |b| - 1) && all[|all| - 1] == b[|b| - 1];
    } else {
      assert all == a;
    }
  }

  lemma ChainJoinAt(
    a: seq<RowFrame>, b: seq<RowFrame>, source: nat, s0: IndexState, f0: bool, s1: IndexState, f1: bool, all: seq<RowFrame>, n: nat, m: nat)
    requires all == a + b && m < |b| && n == |a| + m && EntryAt(b, source, s1, f1, m)
    requires m > 0 ==> EntryAt(b, source, s1, f1, m - 1)
    requires s1 == StateBefore(a, s0, |a|) && f1 == (f0 || a != [])
    ensures EntryAt(all, source, s0, f0, n)
  {
    assert all[n] == b[m];
    if m > 0 {
      assert all[n - 1] == b[m - 1];
    }
  }

  lemma {:induction false} EmitChain(e: Emit, source: nat, name: Text, rows: seq<CallerRow>, n: nat)
    requires n <= |rows| && e.frames == []
    ensures var r := EmitTo(e, source, name, rows, n); Chain(r.frames, source, e.state, e.sentFull, r.state, r.sentFull)
  {
    if n > 0 {
      EmitChain(e, source, name, rows, n - 1);
      var p, r := EmitTo(e, source, name, rows, n - 1), EmitTo(e, source, name, rows, n);
      if |r.frames| > |p.frames| {
        ChainMore(p.frames, source, e.state, e.sentFull, p.state, p.sentFull, r.frames[|p.frames|], r.frames);
      }
    }
  }

  lemma {:induction false} IndexChain(o: Out, db: Db, from: int, n: nat, r: Out) returns (entries: seq<RowFrame>)
    requires n <= |db.names| && r == IndexTo(o, db, from, n)
    ensures r.frames == o.frames + entries && r.cursor.source == o.cursor.source && r.cursor.number == o.cursor.number
    ensures Chain(entries, o.cursor.source, o.cursor.state, o.cursor.sentFull, r.cursor.state, r.cursor.sentFull)
  {
    if n == 0 {
      entries := [];
    } else {
      var p := IndexTo(o, db, from, n - 1);
      var before := IndexChain(o, db, from, n - 1, p);
      var more := OneChain(p, db, db.names[n - 1], from, r);
      entries := before + more;
      ChainJoin(before, more, o.cursor.source, o.cursor.state, o.cursor.sentFull, p.cursor.state, p.cursor.sentFull,
                r.cursor.state, r.cursor.sentFull, entries);
      Assoc(o.frames, before, more);
    }
  }

  lemma OneChain(p: Out, db: Db, name: Text, from: int, r: Out) returns (more: seq<RowFrame>)
    requires r == IndexOne(p, db, name, from)
    ensures r.frames == p.frames + more && r.cursor.source == p.cursor.source && r.cursor.number == p.cursor.number
    ensures Chain(more, p.cursor.source, p.cursor.state, p.cursor.sentFull, r.cursor.state, r.cursor.sentFull)
  {
    var c, rows := p.cursor, CallersOf(db, name);
    var e := EmitIndex(IndexOf(c, name), c.state, c.sentFull, c.source, name, rows, from);
    var read := Retention.KeepRows(rows, Start(IndexOf(c, name), from));
    EmitChain(Begin(IndexOf(c, name), c.state, c.sentFull), c.source, name, read, |read|);
    more := e.frames;
  }

  /** Segments of the source, and nothing else. */
  ghost predicate AllSegments(fs: seq<RowFrame>, source: nat) {
    forall n: nat :: n < |fs| ==> SegmentAt(fs, source, n)
  }

  ghost predicate SegmentAt(fs: seq<RowFrame>, source: nat, n: nat)
    requires n < |fs|
  {
    fs[n].SegmentOf? && fs[n].source == source
  }

  lemma {:induction false} SegmentsAre(source: nat, stream: Text, segs: seq<Segment>)
    ensures AllSegments(SegFrames(source, stream, segs), source)
  {
    if segs != [] {
      SegmentsAre(source, stream, segs[1..]);
      var fs, rest := SegFrames(source, stream, segs), SegFrames(source, stream, segs[1..]);
      forall n: nat | n < |fs| ensures SegmentAt(fs, source, n) {
        assert n > 0 ==> SegmentAt(rest, source, n - 1);
      }
    }
  }

  lemma {:induction false} StreamsShape(g: Gathered, db: Db, n: nat, r: Gathered) returns (segs: seq<RowFrame>)
    requires n <= |db.streams| && StreamsTo(g, db, n) == Ok(r)
    ensures r.out.frames == g.out.frames + segs && AllSegments(segs, g.out.cursor.source)
    ensures var a, b := r.out.cursor, g.out.cursor;
            a.source == b.source && a.number == b.number && a.state == b.state && a.sentFull == b.sentFull && a.index == b.index
  {
    if n == 0 {
      segs := [];
    } else {
      var p := StreamsTo(g, db, n - 1).value;
      var before := StreamsShape(g, db, n - 1, p);
      var x := db.streams[n - 1];
      var more := SegFrames(p.out.cursor.source, x, PollStream(AfterOf(p.out.cursor, x), TablesOf(db, x)).value.segs);
      SegmentsAre(p.out.cursor.source, x, PollStream(AfterOf(p.out.cursor, x), TablesOf(db, x)).value.segs);
      segs := before + more;
      Assoc(g.out.frames, before, more);
      forall k: nat | k < |segs| ensures SegmentAt(segs, g.out.cursor.source, k) {
        assert if k < |before| then SegmentAt(before, g.out.cursor.source, k) else SegmentAt(more, g.out.cursor.source, k - |before|);
      }
    }
  }

  /**
   * A poll that succeeds puts out entries, each folded into the state before it and only the source's
   * very first a `Full`, then segments, then exactly one `Rows` frame, empty or not: it has the next
   * number and declares the state the entries left.
   */
  lemma PollShape(before: Out, db: Db, after: Out) returns (entries: seq<RowFrame>, segs: seq<RowFrame>, rows: seq<WalRow>)
    requires Poll(before, db) == Ok(after)
    ensures after.frames == before.frames + entries + segs
                            + [Rows(before.cursor.source, before.cursor.number, after.cursor.state, rows)]
    ensures Chain(entries, before.cursor.source, before.cursor.state, before.cursor.sentFull, after.cursor.state, after.cursor.sentFull)
    ensures AllSegments(segs, before.cursor.source)
    ensures after.cursor.number == before.cursor.number + 1 && after.cursor.source == before.cursor.source
  {
    var indexed := IndexTo(before, db, I64_MIN, |db.names|);
    entries := IndexChain(before, db, I64_MIN, |db.names|, indexed);
    var g := StreamsTo(Gathered(indexed, []), db, |db.streams|).value;
    segs := StreamsShape(Gathered(indexed, []), db, |db.streams|, g);
    rows := SortTo(g.rows, |g.rows|);
  }

  lemma {:induction false} OpenShapeTo(o: Out, db: Db, since: Option<int>, n: nat, r: Out) returns (segs: seq<RowFrame>)
    requires n <= |db.streams| && r == OpenTo(o, db, since, n)
    ensures r.frames == o.frames + segs && AllSegments(segs, o.cursor.source)
    ensures var a, b := r.cursor, o.cursor;
            a.source == b.source && a.number == b.number && a.state == b.state && a.sentFull == b.sentFull
  {
    if n == 0 {
      segs := [];
    } else {
      var p := OpenTo(o, db, since, n - 1);
      var before := OpenShapeTo(o, db, since, n - 1, p);
      var x := db.streams[n - 1];
      var more := SegFrames(p.cursor.source, x, OpenStream(since, TablesOf(db, x)).segs);
      SegmentsAre(p.cursor.source, x, OpenStream(since, TablesOf(db, x)).segs);
      segs := before + more;
      Assoc(o.frames, before, more);
      forall k: nat | k < |segs| ensures SegmentAt(segs, o.cursor.source, k) {
        assert if k < |before| then SegmentAt(before, o.cursor.source, k) else SegmentAt(more, o.cursor.source, k - |before|);
      }
    }
  }

  /** Opening a source puts out its handshake, its entries from no state, and segments; no rows. */
  lemma OpenShape(db: Db, source: nat, handshake: RowFrame, since: Option<int>, o: Out) returns (entries: seq<RowFrame>, segs: seq<RowFrame>)
    requires o == Open(db, source, handshake, since)
    ensures o.frames == [handshake] + entries + segs
    ensures Chain(entries, source, NO_INDEX_STATE, false, o.cursor.state, o.cursor.sentFull)
    ensures AllSegments(segs, source)
    ensures o.cursor.number == 0 && o.cursor.source == source
  {
    var c := Cursor(source, map[], map[], 0, NO_INDEX_STATE, false);
    var from := if since.Some? then since.value else I64_MIN;
    var start := Out(c, [handshake]);
    var indexed := IndexTo(start, db, from, |db.names|);
    entries := IndexChain(start, db, from, |db.names|, indexed);
    segs := OpenShapeTo(indexed, db, since, |db.streams|, o);
  }
}
