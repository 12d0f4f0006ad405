/** Applying frames to an archive that seals on its own schedule (src/replicate/subscriber.rs). */
module Subscription {
  import opened Types
  import opened Rows
  import opened Encoding
  import opened Catalog
  import opened Ticks
  import opened Machine
  import opened Frames
  import opened Delivery

  // ------------------------------------------------------------------ one stream

  ghost predicate WalAtMost(wal: seq<WalRow>, c: Option<int>) {
    wal != [] ==> c.Some? && wal[|wal| - 1].ts <= c.value
  }

  /** The stream holds exactly what was delivered, and nothing in it is past that. */
  ghost predicate Holds(s: Stream, items: seq<Item>) {
    && Inv(s)
    && View(s.t) == Payload(items)
    && AtMost(s.watermark, Bound(items))
    && WalAtMost(s.t.wal, Bound(items))
    && (!HasRows(items) ==> LiveWal(s.t) == [])
  }

  lemma HoldsNothing()
    ensures Holds(EMPTY, [])
  {
    assert View(EMPTY.t) == [];
  }

  lemma BelowBound(rows: seq<WalRow>, c: Option<int>, ts: int)
    requires Sorted(rows) && WalAtMost(rows, c) && After(c, ts)
    ensures forall i: nat :: i < |rows| ==> Below(rows, i, ts)
  {
    SortedBelow(rows, ts);
  }

  lemma LiveAtMost(t: Tables, c: Option<int>)
    requires Valid(t) && WalAtMost(t.wal, c)
    ensures WalAtMost(LiveWal(t), c)
  {
    LiveIs(t);
    if t.segs != [] && LiveWal(t) != [] {
      var live := LiveWal(t);
      FromMembers(t.wal, LastOf(t.segs) + 1, live[|live| - 1]);
      var i: nat :| i < |t.wal| && t.wal[i] == live[|live| - 1];
      SortedLe(t.wal, i, |t.wal| - 1);
    }
  }

  /** A row past everything held is inserted last, and becomes visible last. */
  lemma RowLast(s: Stream, c: Option<int>, r: WalRow)
    requires Inv(s) && AtMost(s.watermark, c) && WalAtMost(s.t.wal, c) && After(c, r.ts)
    ensures var s' := s.(t := s.t.(wal := Insert(s.t.wal, r)));
            && AppendRow(s, r) == Ok(s') && s'.t.wal == s.t.wal + [r] && Inv(s')
            && LiveWal(s'.t) == LiveWal(s.t) + [r]
  {
    BelowBound(s.t.wal, c, r.ts);
    InsertAtEnd(s.t.wal, r);
    AppendKeeps(s, r, s.(t := s.t.(wal := Insert(s.t.wal, r))));
    LiveAtMost(s.t, c);
    LiveSorted(s.t);
    BelowBound(LiveWal(s.t), c, r.ts);
    InsertAtEnd(LiveWal(s.t), r);
  }

  /** A row past everything delivered is neither shadowed nor refused, and becomes visible last. */
  lemma RowLands(s: Stream, items: seq<Item>, r: WalRow, s': Stream)
    requires Holds(s, items) && After(Bound(items), r.ts)
    requires s' == s.(t := s.t.(wal := Insert(s.t.wal, r)))
    ensures s.watermark.Some? ==> r.ts > s.watermark.value
    ensures AppendRow(s, r) == Ok(s')
    ensures Holds(s', items + [Row(r)])
  {
    RowLast(s, Bound(items), r);
    PayloadMore(items, Row(r));
    ViewMore(s.t, s'.t, r);
  }

  lemma ViewMore(t: Tables, t': Tables, r: WalRow)
    requires t'.segs == t.segs && LiveWal(t') == LiveWal(t) + [r]
    ensures View(t') == View(t) + [r]
  {
    assert Data(t.segs) + (LiveWal(t) + [r]) == Data(t.segs) + LiveWal(t) + [r];
  }

  /** A segment past everything delivered, ahead of any row, is adopted. */
  lemma SegLands(s: Stream, items: seq<Item>, seg: Segment)
    requires Holds(s, items) && SegmentOk(seg) && !HasRows(items) && After(Bound(items), seg.first)
    ensures Adopt(s, seg).Adopted? && Holds(Adopt(s, seg).s, items + [Seg(seg)])
  {
    SpanNonEmpty(seg);
    AdoptKeeps(s, seg);
    PayloadMore(items, Seg(seg));
    assert LastOf([seg]) == seg.last;
    assert Data(s.t.segs) + seg.data + [] == Data(s.t.segs) + seg.data;
    assert View(s.t) == Data(s.t.segs) by {
      assert Data(s.t.segs) + [] == Data(s.t.segs);
    }
  }

  /** The subscriber's own seal changes nothing delivered. */
  lemma SealHolds(s: Stream, items: seq<Item>, enc: Encoder, maxRows: nat, s': Stream)
    requires Holds(s, items) && RowPreserving(enc) && SealStream(enc, s, maxRows) == Ok(s')
    ensures Holds(s', items)
  {
    LiveAtMost(s.t, Bound(items));
    var sealed := RowPreservingSealStream(enc, s, maxRows);
  }

  lemma PruneHolds(s: Stream, items: seq<Item>, upto: int)
    requires Holds(s, items) && s.t.segs != [] && upto <= LastOf(s.t.segs)
    ensures Holds(s.(t := Prune(s.t, upto)), items)
  {
    PruneKeeps(s, upto);
    var wal := Prune(s.t, upto).wal;
    if wal != [] {
      FromMembers(s.t.wal, upto + 1, wal[|wal| - 1]);
      var i: nat :| i < |s.t.wal| && s.t.wal[i] == wal[|wal| - 1];
      SortedLe(s.t.wal, i, |s.t.wal| - 1);
    }
  }

  // ------------------------------------------------------------------ the subscriber

  /** The subscriber's own id for the source. */
  const SRC: int := 1

  /** The subscriber's archive of one source, and the state it keeps per source. */
  datatype Sub = Sub(
    streams: Streams, index: IndexState, seenFull: bool, lastSeq: Option<nat>, entries: map<Text, seq<CallerRow>>)

  const NEW_SUB := Sub(map[], NO_INDEX_STATE, false, None, map[])

  /** What applying one frame did. */
  datatype Applied = Applied(rows: nat, rowsSkipped: nat, segments: nat, segmentsHeld: nat, entries: nat, gap: bool)

  const NOTHING := Applied(0, 0, 0, 0, 0, false)

  function EntriesUnder(entries: map<Text, seq<CallerRow>>, name: Text): seq<CallerRow> {
    if name in entries then entries[name] else []
  }

  datatype Took = Refusal | Done(sub: Sub, applied: Applied)

  /** The rows of a frame, as one tick of the subscriber's writer. */
  function Land(m: Streams, rows: seq<WalRow>): Streams {
    if rows == [] then m else TickStep(World(m, map[]), [(SRC, rows)], false, {}).streams
  }

  /** `Subscriber::apply`, for a source whose handshake has been applied. */
  function Apply(st: Sub, f: RowFrame): Took {
    match f
    case Index(_, stream, ts, kind, state, blob) =>
      Done(st.(entries := st.entries[stream := EntriesUnder(st.entries, stream) + [CallerRow(ts, blob)]],
               index := state, seenFull := st.seenFull || kind.Full?),
           NOTHING.(entries := 1))
    case Rows(_, number, state, rows) =>
      var gap := st.lastSeq.Some? && number > st.lastSeq.value + 1;
      var next := st.(lastSeq := Some(number));
      if (state != NO_INDEX_STATE && !st.seenFull) || state != st.index
      then Done(next, NOTHING.(rowsSkipped := |rows|, gap := gap))
      else Done(next.(streams := Land(st.streams, rows)), NOTHING.(rows := |rows|, gap := gap))
    case SegmentOf(_, stream, _, _, _) =>
      (match Adopt(At(st.streams, (SRC, stream)), SegmentIn(f))
       case Refused => Refusal
       case Held => Done(st, NOTHING.(segmentsHeld := 1))
       case Adopted(s) => Done(st.(streams := st.streams[(SRC, stream) := s]), NOTHING.(segments := 1)))
    case _ => Done(st, NOTHING)
  }

  ghost predicate HoldsAt(m: Streams, fs: seq<RowFrame>, stream: Text) {
    forall s :: IsAt(m, (SRC, stream), s) ==> Holds(s, ItemsOf(fs, stream))
  }

  ghost predicate EntriesAt(st: Sub, fs: seq<RowFrame>, name: Text) {
    EntriesUnder(st.entries, name) == EntriesOf(fs, name)
  }

  lemma StartsCaughtUp()
    ensures StreamsOk(NEW_SUB, []) && LogOk(NEW_SUB, [])
  {
    HoldsNothing();
  }

  /** Rows inserted one by one, each stream holding what has been delivered of it so far. */
  ghost predicate HoldsRows(m: Streams, items: seq<Item>, rows: seq<WalRow>, n: nat, stream: Text)
    requires n <= |rows|
  {
    forall s :: IsAt(m, (SRC, stream), s) ==> Holds(s, items + RowItems(rows[..n], stream))
  }

  lemma NextRowItem(items: seq<Item>, rows: seq<WalRow>, n: nat, stream: Text)
    requires n < |rows| && ItemsOk(items + RowItems(rows, stream), stream)
    ensures RowItems(rows[..n + 1], stream) == RowItems(rows[..n], stream) + RowItems([rows[n]], stream)
    ensures rows[n].stream == stream ==> ItemOk(items + RowItems(rows[..n], stream), Row(rows[n]), stream)
  {
    assert rows[..n + 1] == rows[..n] + [rows[n]] && rows == rows[..n + 1] + rows[n + 1..];
    RowItemsConcat(rows[..n], [rows[n]], stream);
    RowItemsConcat(rows[..n + 1], rows[n + 1..], stream);
    if rows[n].stream == stream {
      var all := items + RowItems(rows, stream);
      var k := |items| + |RowItems(rows[..n], stream)|;
      assert RowItems([rows[n]], stream) == [Row(rows[n])];
      assert ItemAt(all, stream, k);
      assert all[..k] == items + RowItems(rows[..n], stream) && all[k] == Row(rows[n]);
    }
  }

  ghost predicate AllHold(m: Streams, fs: seq<RowFrame>, rows: seq<WalRow>, n: nat)
    requires n <= |rows|
  {
    forall stream: Text :: HoldsRows(m, ItemsOf(fs, stream), rows, n, stream)
  }

  /** What the frames and then these rows deliver is well formed. */
  ghost predicate RowsFollow(fs: seq<RowFrame>, rows: seq<WalRow>) {
    forall stream: Text :: RowsFollowAt(fs, rows, stream)
  }

  ghost predicate RowsFollowAt(fs: seq<RowFrame>, rows: seq<WalRow>, stream: Text) {
    ItemsOk(ItemsOf(fs, stream) + RowItems(rows, stream), stream)
  }

  /** One more row of the frame. */
  lemma RowStep(m: Streams, fs: seq<RowFrame>, rows: seq<WalRow>, n: nat) returns (s: Stream)
    requires n < |rows| && AllHold(m, fs, rows, n) && RowsFollow(fs, rows)
    ensures var k := (SRC, rows[n].stream);
            && AppendRow(At(m, k), rows[n]) == Ok(s)
            && !Shadowed(m, SRC, rows[n])
            && AllHold(m[k := s], fs, rows, n + 1)
  {
    var r := rows[n];
    var k := (SRC, r.stream);
    var items := ItemsOf(fs, r.stream);
    assert HoldsRows(m, items, rows, n, r.stream) && IsAt(m, k, At(m, k)) && RowsFollowAt(fs, rows, r.stream);
    NextRowItem(items, rows, n, r.stream);
    s := At(m, k).(t := At(m, k).t.(wal := Insert(At(m, k).t.wal, r)));
    RowLands(At(m, k), items + RowItems(rows[..n], r.stream), r, s);
    RowHeld(items, rows, n, r.stream);
    var m', next := m[k := s], n + 1;
    forall stream: Text ensures HoldsRows(m', ItemsOf(fs, stream), rows, next, stream) {
      if stream != r.stream {
        OtherRow(m, m', fs, rows, n, stream);
      }
    }
  }

  lemma RowHeld(items: seq<Item>, rows: seq<WalRow>, n: nat, stream: Text)
    requires n < |rows| && rows[n].stream == stream
    ensures items + RowItems(rows[..n + 1], stream) == items + RowItems(rows[..n], stream) + [Row(rows[n])]
  {
    assert rows[..n + 1] == rows[..n] + [rows[n]];
    RowItemsConcat(rows[..n], [rows[n]], stream);
    assert RowItems([rows[n]], stream) == [Row(rows[n])];
  }

  lemma OtherRow(m: Streams, m': Streams, fs: seq<RowFrame>, rows: seq<WalRow>, n: nat, stream: Text)
    requires n < |rows| && rows[n].stream != stream && AllHold(m, fs, rows, n)
    requires At(m', (SRC, stream)) == At(m, (SRC, stream))
    ensures HoldsRows(m', ItemsOf(fs, stream), rows, n + 1, stream)
  {
    assert HoldsRows(m, ItemsOf(fs, stream), rows, n, stream) && IsAt(m, (SRC, stream), At(m, (SRC, stream)));
    assert rows[..n + 1] == rows[..n] + [rows[n]];
    RowItemsConcat(rows[..n], [rows[n]], stream);
    assert RowItems(rows[..n], stream) + [] == RowItems(rows[..n], stream);
  }

  lemma InsertNext(m: Streams, rows: seq<WalRow>, n: nat, p: Streams, s: Stream)
    requires n < |rows| && InsertTo(m, SRC, rows, n) == Ok(p)
    requires AppendRow(At(p, (SRC, rows[n].stream)), rows[n]) == Ok(s)
    ensures InsertTo(m, SRC, rows, n + 1) == Ok(p[(SRC, rows[n].stream) := s])
  {}

  lemma StillShadowed(m: Streams, rows: seq<WalRow>, n: nat, p: Streams, r: WalRow)
    requires n <= |rows| && InsertTo(m, SRC, rows, n) == Ok(p)
    ensures Shadowed(m, SRC, r) <==> Shadowed(p, SRC, r)
  {
    InsertSegs(m, SRC, rows, n, p, (SRC, r.stream));
    assert SameSegs(m, p, (SRC, r.stream));
  }

  /** Every row of a frame lands, and none was shadowed to begin with. */
  lemma RowsLand(m: Streams, fs: seq<RowFrame>, rows: seq<WalRow>) returns (m': Streams)
    requires AllHold(m, fs, rows, 0) && RowsFollow(fs, rows)
    ensures InsertTo(m, SRC, rows, |rows|) == Ok(m') && AllHold(m', fs, rows, |rows|)
    ensures forall j :: 0 <= j < |rows| ==> !Shadowed(m, SRC, rows[j])
  {
    m' := m;
    var i := 0;
    while i < |rows|
      invariant i <= |rows| && InsertTo(m, SRC, rows, i) == Ok(m') && AllHold(m', fs, rows, i)
      invariant forall j :: 0 <= j < i ==> !Shadowed(m, SRC, rows[j])
    {
      var s := RowStep(m', fs, rows, i);
      StillShadowed(m, rows, i, m', rows[i]);
      InsertNext(m, rows, i, m', s);
      m' := m'[(SRC, rows[i].stream) := s];
      i := i + 1;
    }
  }

  /** A frame's rows pass both filters and commit as one tick. */
  lemma LandIs(m: Streams, rows: seq<WalRow>, m': Streams)
    requires rows != [] && InsertTo(m, SRC, rows, |rows|) == Ok(m')
    requires forall j :: 0 <= j < |rows| ==> !Shadowed(m, SRC, rows[j])
    ensures Land(m, rows) == m'
  {
    var ticks: seq<Batch> := [(SRC, rows)];
    var none: map<int, int> := map[];
    assert DropFloored(none, ticks) == ticks by {
      assert ticks[1..] == [];
      assert !UnderFloor(none, ticks[0]);
      assert DropFloored(none, ticks[1..]) == [];
    }
    assert !AnyShadowed(m, ticks);
    assert Filtered(m, none, ticks) == ticks;
    assert BatchTo(m, ticks, 0) == Ok(m);
    assert BatchTo(m, ticks, 1) == InsertRows(m, ticks[0]);
  }

  /** One more `Rows` frame, held in full. */
  lemma RowsFrameHeld(m: Streams, fs: seq<RowFrame>, f: RowFrame)
    requires f.Rows? && (forall stream: Text :: HoldsAt(m, fs, stream)) && RowsFollow(fs, f.rows)
    ensures forall stream: Text :: HoldsAt(Land(m, f.rows), fs + [f], stream)
  {
    var rows := f.rows;
    forall stream: Text ensures HoldsRows(m, ItemsOf(fs, stream), rows, 0, stream) {
      assert HoldsAt(m, fs, stream);
      assert rows[..0] == [] && ItemsOf(fs, stream) + [] == ItemsOf(fs, stream);
    }
    var m' := RowsLand(m, fs, rows);
    if rows != [] {
      LandIs(m, rows, m');
    }
    forall stream: Text ensures HoldsAt(m', fs + [f], stream) {
      assert HoldsRows(m', ItemsOf(fs, stream), rows, |rows|, stream);
      assert rows[..|rows|] == rows;
      OneMoreFrame(fs, f, stream);
    }
  }

  lemma FollowsOf(fs: seq<RowFrame>, f: RowFrame)
    requires f.Rows? && forall stream: Text :: StreamOk(fs + [f], stream)
    ensures RowsFollow(fs, f.rows)
  {
    forall stream: Text ensures RowsFollowAt(fs, f.rows, stream) {
      assert StreamOk(fs + [f], stream);
      OneMoreFrame(fs, f, stream);
    }
  }

  /** One more `Segment` frame, adopted. */
  lemma SegmentFrameHeld(m: Streams, fs: seq<RowFrame>, f: RowFrame, all: seq<RowFrame>) returns (m': Streams)
    requires f.SegmentOf? && all == fs + [f] && (forall stream: Text :: HoldsAt(m, fs, stream)) && StreamOk(all, f.stream)
    ensures Adopt(At(m, (SRC, f.stream)), SegmentIn(f)).Adopted?
    ensures m' == m[(SRC, f.stream) := Adopt(At(m, (SRC, f.stream)), SegmentIn(f)).s]
    ensures forall stream: Text :: HoldsAt(m', all, stream)
  {
    var k := (SRC, f.stream);
    var items := ItemsOf(fs, f.stream);
    OneMoreFrame(fs, f, f.stream);
    assert HoldsAt(m, fs, f.stream) && IsAt(m, k, At(m, k));
    LastItemOk(items, Seg(SegmentIn(f)), f.stream);
    SegLands(At(m, k), items, SegmentIn(f));
    m' := m[k := Adopt(At(m, k), SegmentIn(f)).s];
    forall stream: Text ensures HoldsAt(m', all, stream) {
      if stream != f.stream {
        QuietFrame(m, m', fs, f, stream);
      }
    }
  }

  lemma LastItemOk(items: seq<Item>, i: Item, stream: Text)
    requires ItemsOk(items + [i], stream)
    ensures ItemOk(items, i, stream)
  {
    assert ItemAt(items + [i], stream, |items|);
    assert (items + [i])[..|items|] == items;
  }

  /** A frame with nothing of a stream in it leaves the stream as it was. */
  lemma QuietFrame(m: Streams, m': Streams, fs: seq<RowFrame>, f: RowFrame, stream: Text)
    requires HoldsAt(m, fs, stream) && FrameItems(f, stream) == [] && At(m', (SRC, stream)) == At(m, (SRC, stream))
    ensures HoldsAt(m', fs + [f], stream)
  {
    OneMoreFrame(fs, f, stream);
    assert ItemsOf(fs, stream) + [] == ItemsOf(fs, stream);
    assert IsAt(m, (SRC, stream), At(m, (SRC, stream)));
  }

  /** Everything but the streams. */
  ghost predicate LogOk(st: Sub, fs: seq<RowFrame>) {
    && MarksOk(st, fs)
    && (forall name: Text :: EntriesAt(st, fs, name))
  }

  lemma LogKept(st: Sub, st': Sub, fs: seq<RowFrame>, f: RowFrame)
    requires LogOk(st, fs) && DeclaredOk(fs, f)
    requires Apply(st, f).Done? && Apply(st, f).sub == st'
    ensures LogOk(st', fs + [f])
  {
    forall name: Text ensures EntriesAt(st', fs + [f], name) {
      assert EntriesAt(st, fs, name);
      ApplyEntries(st, f);
      EntriesKept(st.entries, st'.entries, fs, f, name);
    }
    MarksKept(st, st', fs, f);
  }

  lemma ApplyEntries(st: Sub, f: RowFrame)
    ensures Apply(st, f).Done? ==>
              Apply(st, f).sub.entries ==
              if f.Index? then st.entries[f.stream := EntriesUnder(st.entries, f.stream) + [CallerRow(f.ts, f.blob)]] else st.entries
  {}

  lemma EntriesKept(
    had: map<Text, seq<CallerRow>>, has: map<Text, seq<CallerRow>>, fs: seq<RowFrame>, f: RowFrame, name: Text)
    requires EntriesUnder(had, name) == EntriesOf(fs, name)
    requires has == if f.Index? then had[f.stream := EntriesUnder(had, f.stream) + [CallerRow(f.ts, f.blob)]] else had
    ensures EntriesUnder(has, name) == EntriesOf(fs + [f], name)
  {
    OneMoreFrame(fs, f, name);
    if !(f.Index? && f.stream == name) {
      assert EntriesOf(fs, name) + [] == EntriesOf(fs, name);
    }
  }

  /** The index state, the first `Full` and the last number. */
  ghost predicate MarksOk(st: Sub, fs: seq<RowFrame>) {
    && st.index == StateAfter(fs) && st.seenFull == FullSeen(fs)
    && st.lastSeq == (if RowsCount(fs) == 0 then None else Some(RowsCount(fs) - 1))
  }

  lemma MarksKept(st: Sub, st': Sub, fs: seq<RowFrame>, f: RowFrame)
    requires MarksOk(st, fs) && DeclaredOk(fs, f) && Apply(st, f).Done? && Apply(st, f).sub == st'
    ensures MarksOk(st', fs + [f])
  {
    ApplyMarks(st, f);
    OneMoreFrame(fs, f, []);
  }

  lemma ApplyMarks(st: Sub, f: RowFrame)
    ensures Apply(st, f).Done? ==>
              var s := Apply(st, f).sub;
              && s.index == (if f.Index? then f.state else st.index)
              && s.seenFull == (st.seenFull || (f.Index? && f.kind.Full?))
              && s.lastSeq == (if f.Rows? then Some(f.number) else st.lastSeq)
  {}

  ghost predicate StreamsOk(st: Sub, fs: seq<RowFrame>) {
    forall stream: Text :: HoldsAt(st.streams, fs, stream)
  }

  /** Whether applying the frame took all of it: nothing skipped, held back or reported lost. */
  predicate TookAll(f: RowFrame, a: Applied) {
    && a.rowsSkipped == 0 && a.segmentsHeld == 0 && !a.gap
    && (f.Rows? ==> a.rows == |f.rows|) && (f.SegmentOf? ==> a.segments == 1) && (f.Index? ==> a.entries == 1)
  }

  /** A subscriber that has caught up takes the next frame in full, and has caught up again. */
  lemma TakesFrame(st: Sub, fs: seq<RowFrame>, f: RowFrame)
    requires StreamsOk(st, fs) && LogOk(st, fs) && Deliverable(fs + [f])
    ensures var o := Apply(st, f);
            o.Done? && TookAll(f, o.applied) && StreamsOk(o.sub, fs + [f]) && LogOk(o.sub, fs + [f])
  {
    var all := fs + [f];
    assert DeclaredAt(all, |fs|);
    assert all[..|fs|] == fs && all[|fs|] == f;
    match f
    case Rows(_, _, _, _) =>
      FollowsOf(fs, f);
      RowsFrameHeld(st.streams, fs, f);
      LogKept(st, Apply(st, f).sub, fs, f);
    case SegmentOf(_, _, _, _, _) =>
      assert StreamOk(all, f.stream);
      var _ := SegmentFrameHeld(st.streams, fs, f, all);
      LogKept(st, Apply(st, f).sub, fs, f);
    case _ =>
      OtherFrameHeld(st, fs, f);
      LogKept(st, Apply(st, f).sub, fs, f);
  }

  lemma OtherFrameHeld(st: Sub, fs: seq<RowFrame>, f: RowFrame)
    requires StreamsOk(st, fs) && !f.Rows? && !f.SegmentOf?
    ensures Apply(st, f).Done? && StreamsOk(Apply(st, f).sub, fs + [f])
  {
    var m' := Apply(st, f).sub.streams;
    forall stream: Text ensures HoldsAt(m', fs + [f], stream) {
      assert HoldsAt(st.streams, fs, stream);
      QuietFrame(st.streams, m', fs, f, stream);
    }
  }

  // ------------------------------------------------------------------ whole runs

  /** What happens at a subscriber: a frame arrives, or it seals or prunes its own streams. */
  datatype SubEvent =
    | Deliver(frame: RowFrame)
    | OwnSeal(batch: seq<Text>, maxRows: nat, enc: Encoders)
    | OwnPrune(stream: Text, upto: int)

  function SubStep(st: Sub, e: SubEvent): Took {
    match e
    case Deliver(f) => Apply(st, f)
    case OwnSeal(batch, maxRows, enc) =>
      (match SealBatch(st.streams, SRC, batch, maxRows, enc)
       case Err => Done(st, NOTHING)
       case Ok(m) => Done(st.(streams := m), NOTHING))
    case OwnPrune(stream, upto) => Done(st.(streams := PruneAt(st.streams, (SRC, stream), upto)), NOTHING)
  }

  ghost predicate OwnOk(st: Sub, e: SubEvent) {
    match e
    case Deliver(_) => true
    case OwnSeal(_, _, enc) => forall stream: Text :: RowPreserving(enc(stream))
    case OwnPrune(stream, upto) =>
      At(st.streams, (SRC, stream)).t.segs != [] && upto <= LastOf(At(st.streams, (SRC, stream)).t.segs)
  }

  /** Its own seals and prunes take nothing away and promise nothing new. */
  lemma OwnHolds(st: Sub, fs: seq<RowFrame>, e: SubEvent)
    requires StreamsOk(st, fs) && OwnOk(st, e) && !e.Deliver?
    ensures SubStep(st, e).Done? && StreamsOk(SubStep(st, e).sub, fs)
  {
    var m, m' := st.streams, SubStep(st, e).sub.streams;
    forall stream: Text ensures HoldsAt(m', fs, stream) {
      var k := (SRC, stream);
      assert HoldsAt(m, fs, stream) && IsAt(m, k, At(m, k));
      match e {
        case OwnSeal(batch, maxRows, enc) => OwnSealHolds(m, fs, batch, maxRows, enc, stream);
        case OwnPrune(pruned, upto) =>
          if pruned == stream {
            PruneHolds(At(m, k), ItemsOf(fs, stream), upto);
          }
      }
    }
  }

  lemma OwnSealHolds(m: Streams, fs: seq<RowFrame>, batch: seq<Text>, maxRows: nat, enc: Encoders, stream: Text)
    requires HoldsAt(m, fs, stream) && forall s: Text :: RowPreserving(enc(s))
    ensures SealBatch(m, SRC, batch, maxRows, enc).Ok? ==> HoldsAt(SealBatch(m, SRC, batch, maxRows, enc).value, fs, stream)
  {
    var k := (SRC, stream);
    var r := SealBatch(m, SRC, batch, maxRows, enc);
    assert IsAt(m, k, At(m, k));
    if r.Ok? {
      SealAt(m, SRC, batch, maxRows, enc, |batch|, r.value, k);
      if stream in batch[..|batch|] {
        SealHolds(At(m, k), ItemsOf(fs, stream), enc(stream), maxRows, At(r.value, k));
      }
    }
  }

  /** The frames among the first `n` events. */
  function Arrived(evs: seq<SubEvent>, n: nat): seq<RowFrame>
    requires n <= |evs|
  {
    if n == 0 then [] else
    Arrived(evs, n - 1) + if evs[n - 1].Deliver? then [evs[n - 1].frame] else []
  }

  /** The subscriber after the first `n` events, or the refusal that stopped it. */
  function SubAfter(evs: seq<SubEvent>, n: nat): Took
    requires n <= |evs|
  {
    if n == 0 then Done(NEW_SUB, NOTHING) else
    match SubAfter(evs, n - 1)
    case Refusal => Refusal
    case Done(st, _) => SubStep(st, evs[n - 1])
  }

  /** Its own seals are row-preserving, and its prunes follow its own segments. */
  ghost predicate OwnRun(evs: seq<SubEvent>) {
    forall i: nat :: i < |evs| ==> OwnAt(evs, i)
  }

  ghost predicate OwnAt(evs: seq<SubEvent>, i: nat)
    requires i < |evs|
  {
    SubAfter(evs, i).Done? ==> OwnOk(SubAfter(evs, i).sub, evs[i])
  }

  lemma DeliverableTo(fs: seq<RowFrame>, n: nat)
    requires Deliverable(fs) && n <= |fs|
    ensures Deliverable(fs[..n])
  {
    var p := fs[..n];
    assert fs == p + fs[n..];
    forall stream: Text ensures StreamOk(p, stream) {
      assert StreamOk(fs, stream);
      ItemsConcat(p, fs[n..], stream);
      ItemsOkPrefix(ItemsOf(fs, stream), stream, |ItemsOf(p, stream)|);
      assert ItemsOf(fs, stream)[..|ItemsOf(p, stream)|] == ItemsOf(p, stream);
    }
    forall i: nat | i < n ensures DeclaredAt(p, i) {
      assert DeclaredAt(fs, i);
      assert p[..i] == fs[..i];
    }
  }

  lemma {:induction false} ArrivedGrows(evs: seq<SubEvent>, n: nat, m: nat)
    requires n <= m <= |evs|
    ensures Arrived(evs, n) <= Arrived(evs, m)
    decreases m
  {
    if n < m {
      ArrivedGrows(evs, n, m - 1);
    }
  }

  lemma DeliverableSoFar(evs: seq<SubEvent>, n: nat)
    requires n <= |evs| && Deliverable(Arrived(evs, |evs|))
    ensures Deliverable(Arrived(evs, n))
  {
    ArrivedGrows(evs, n, |evs|);
    var all, so := Arrived(evs, |evs|), Arrived(evs, n);
    DeliverableTo(all, |so|);
    assert all[..|so|] == so;
  }

  lemma LogSame(st: Sub, st': Sub, fs: seq<RowFrame>)
    requires LogOk(st, fs) && st' == st.(streams := st'.streams)
    ensures LogOk(st', fs)
  {
    forall name: Text ensures EntriesAt(st', fs, name) {
      assert EntriesAt(st, fs, name);
    }
  }

  lemma StepKeepsUp(st: Sub, fs: seq<RowFrame>, e: SubEvent, fs': seq<RowFrame>)
    requires StreamsOk(st, fs) && LogOk(st, fs) && OwnOk(st, e) && Deliverable(fs')
    requires fs' == fs + if e.Deliver? then [e.frame] else []
    ensures var o := SubStep(st, e);
            && o.Done? && StreamsOk(o.sub, fs') && LogOk(o.sub, fs')
            && (e.Deliver? ==> TookAll(e.frame, o.applied))
  {
    if e.Deliver? {
      TakesFrame(st, fs, e.frame);
    } else {
      assert fs' == fs;
      OwnHolds(st, fs, e);
      LogSame(st, SubStep(st, e).sub, fs);
    }
  }

  /**
   * On a lossless FIFO of deliverable frames, a subscriber that seals and prunes whenever it
   * likes refuses no segment, skips and loses no row, reports no gap, and holds per stream
   * exactly the rows delivered and per name exactly the entries.
   */
  lemma {:induction false} SubscriberKeepsUp(evs: seq<SubEvent>, n: nat)
    requires n <= |evs| && Deliverable(Arrived(evs, |evs|)) && OwnRun(evs)
    ensures var o := SubAfter(evs, n);
            && o.Done? && StreamsOk(o.sub, Arrived(evs, n)) && LogOk(o.sub, Arrived(evs, n))
            && (n > 0 && evs[n - 1].Deliver? ==> TookAll(evs[n - 1].frame, o.applied))
  {
    if n == 0 {
      StartsCaughtUp();
    } else {
      SubscriberKeepsUp(evs, n - 1);
      DeliverableSoFar(evs, n);
      assert OwnAt(evs, n - 1);
      StepKeepsUp(SubAfter(evs, n - 1).sub, Arrived(evs, n - 1), evs[n - 1], Arrived(evs, n));
    }
  }

  /** What a reader of the subscriber's archive sees of a stream is what was delivered of it. */
  lemma SubscriberView(evs: seq<SubEvent>, stream: Text)
    requires Deliverable(Arrived(evs, |evs|)) && OwnRun(evs)
    ensures SubAfter(evs, |evs|).Done?
    ensures var t := At(SubAfter(evs, |evs|).sub.streams, (SRC, stream)).t;
            View(t) == Payload(ItemsOf(Arrived(evs, |evs|), stream)) && Sorted(View(t))
  {
    SubscriberKeepsUp(evs, |evs|);
    var m, fs := SubAfter(evs, |evs|).sub.streams, Arrived(evs, |evs|);
    assert HoldsAt(m, fs, stream) && IsAt(m, (SRC, stream), At(m, (SRC, stream)));
    ViewSorted(At(m, (SRC, stream)).t);
  }
}
