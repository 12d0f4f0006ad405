/**
 * What a list of frames delivers to one source of a subscriber: per stream its segments and
 * rows, the index entries, and what makes the list one a subscriber can apply in full.
 */
module Delivery {
  import opened Types
  import opened Rows
  import opened Encoding
  import opened Frames

  /** A frame whose segments carry the rows their bytes hold. */
  type RowFrame = Frame<seq<WalRow>>

  /** One stream's part of the stream of frames. */
  datatype Item = Seg(seg: Segment) | Row(row: WalRow)

  function SegmentIn(f: RowFrame): Segment
    requires f.SegmentOf?
  {
    Segment(f.meta.rows, f.meta.first, f.meta.last, f.body)
  }

  function RowItems(rows: seq<WalRow>, stream: Text): seq<Item> {
    if rows == [] then [] else
    if rows[0].stream == stream then [Row(rows[0])] + RowItems(rows[1..], stream) else RowItems(rows[1..], stream)
  }

  function FrameItems(f: RowFrame, stream: Text): seq<Item> {
    match f
    case SegmentOf(_, s, _, _, _) => if s == stream then [Seg(SegmentIn(f))] else []
    case Rows(_, _, _, rows) => RowItems(rows, stream)
    case _ => []
  }

  /** Everything the frames carry of one stream, in order. */
  function ItemsOf(fs: seq<RowFrame>, stream: Text): seq<Item> {
    if fs == [] then [] else ItemsOf(fs[..|fs| - 1], stream) + FrameItems(fs[|fs| - 1], stream)
  }

  lemma {:induction false} ItemsConcat(a: seq<RowFrame>, b: seq<RowFrame>, stream: Text)
    ensures ItemsOf(a + b, stream) == ItemsOf(a, stream) + ItemsOf(b, stream)
    decreases |b|
  {
    if b == [] {
      assert a + b == a;
      assert ItemsOf(a, stream) + [] == ItemsOf(a, stream);
    } else {
      var p, f := b[..|b| - 1], b[|b| - 1];
      ItemsConcat(a, p, stream);
      Assoc(a, p, [f]);
      ItemsLast(a + p, f, stream);
      ItemsLast(p, f, stream);
      assert b == p + [f];
      Assoc(ItemsOf(a, stream), ItemsOf(p, stream), FrameItems(f, stream));
    }
  }

  lemma ItemsLast(fs: seq<RowFrame>, f: RowFrame, stream: Text)
    ensures ItemsOf(fs + [f], stream) == ItemsOf(fs, stream) + FrameItems(f, stream)
  {
    assert (fs + [f])[..|fs|] == fs;
  }

  lemma ItemsOne(f: RowFrame, stream: Text)
    ensures ItemsOf([f], stream) == FrameItems(f, stream)
  {
    assert [f][..0] == [];
    assert [] + FrameItems(f, stream) == FrameItems(f, stream);
  }

  lemma {:induction false} RowItemsConcat(a: seq<WalRow>, b: seq<WalRow>, stream: Text)
    ensures RowItems(a + b, stream) == RowItems(a, stream) + RowItems(b, stream)
  {
    if a == [] {
      assert a + b == b;
    } else {
      assert (a + b)[1..] == a[1..] + b && (a + b)[0] == a[0];
      RowItemsConcat(a[1..], b, stream);
      if a[0].stream == stream {
        assert [Row(a[0])] + (RowItems(a[1..], stream) + RowItems(b, stream))
            == [Row(a[0])] + RowItems(a[1..], stream) + RowItems(b, stream);
      }
    }
  }

  /** The rows an item carries. */
  function ItemRows(i: Item): seq<WalRow> {
    match i
    case Seg(seg) => seg.data
    case Row(r) => [r]
  }

  /** The rows delivered. */
  function Payload(items: seq<Item>): seq<WalRow> {
    if items == [] then [] else Payload(items[..|items| - 1]) + ItemRows(items[|items| - 1])
  }

  function EndOfItem(i: Item): int {
    match i
    case Seg(seg) => seg.last
    case Row(r) => r.ts
  }

  /** The newest timestamp delivered, a segment's span included. */
  function Bound(items: seq<Item>): Option<int> {
    if items == [] then None else Some(EndOfItem(items[|items| - 1]))
  }

  predicate HasRows(items: seq<Item>) {
    exists i :: 0 <= i < |items| && items[i].Row?
  }

  predicate After(c: Option<int>, ts: int) {
    c.Some? ==> c.value < ts
  }

  /** The next item starts past everything delivered, and no segment follows a row. */
  ghost predicate ItemOk(before: seq<Item>, i: Item, stream: Text) {
    match i
    case Seg(seg) => SegmentOk(seg) && !HasRows(before) && After(Bound(before), seg.first)
    case Row(r) => r.stream == stream && After(Bound(before), r.ts)
  }

  ghost predicate ItemsOk(items: seq<Item>, stream: Text) {
    forall n: nat :: n < |items| ==> ItemAt(items, stream, n)
  }

  ghost predicate ItemAt(items: seq<Item>, stream: Text, n: nat)
    requires n < |items|
  {
    ItemOk(items[..n], items[n], stream)
  }

  lemma ItemsOkPrefix(items: seq<Item>, stream: Text, n: nat)
    requires ItemsOk(items, stream) && n <= |items|
    ensures ItemsOk(items[..n], stream)
  {
    forall k: nat | k < n ensures ItemAt(items[..n], stream, k) {
      assert ItemAt(items, stream, k);
      assert items[..n][..k] == items[..k];
    }
  }

  lemma ItemsOkMore(items: seq<Item>, stream: Text, i: Item)
    requires ItemsOk(items, stream) && ItemOk(items, i, stream)
    ensures ItemsOk(items + [i], stream)
  {
    var more := items + [i];
    forall k: nat | k < |more| ensures ItemAt(more, stream, k) {
      if k < |items| {
        assert ItemAt(items, stream, k);
        assert more[..k] == items[..k];
      } else {
        assert more[..k] == items;
      }
    }
  }

  lemma PayloadMore(items: seq<Item>, i: Item)
    ensures Payload(items + [i]) == Payload(items) + ItemRows(i)
    ensures Bound(items + [i]) == Some(EndOfItem(i))
    ensures HasRows(items + [i]) <==> HasRows(items) || i.Row?
  {
    var more := items + [i];
    assert more[..|more| - 1] == items && more[|more| - 1] == i;
    assert forall k :: 0 <= k < |items| ==> more[k] == items[k];
  }

  // ------------------------------------------------------------------ index entries

  /** The declared state after the frames, and whether a `Full` has been among them. */
  function StateAfter(fs: seq<RowFrame>): IndexState {
    if fs == [] then NO_INDEX_STATE else
    if fs[|fs| - 1].Index? then fs[|fs| - 1].state else StateAfter(fs[..|fs| - 1])
  }

  function FullSeen(fs: seq<RowFrame>): bool {
    if fs == [] then false else
    (fs[|fs| - 1].Index? && fs[|fs| - 1].kind.Full?) || FullSeen(fs[..|fs| - 1])
  }

  /** How many `Rows` frames: the number the next one carries. */
  function RowsCount(fs: seq<RowFrame>): nat {
    if fs == [] then 0 else (if fs[|fs| - 1].Rows? then 1 else 0) + RowsCount(fs[..|fs| - 1])
  }

  /** The entries sent under a name, in order. */
  function EntriesOf(fs: seq<RowFrame>, name: Text): seq<CallerRow> {
    if fs == [] then [] else
    var f := fs[|fs| - 1];
    EntriesOf(fs[..|fs| - 1], name)
    + if f.Index? && f.stream == name then [CallerRow(f.ts, f.blob)] else []
  }

  /** A frame that follows `before`: its rows are declared against the state just sent. */
  ghost predicate DeclaredOk(before: seq<RowFrame>, f: RowFrame) {
    f.Rows? ==>
      && f.number == RowsCount(before)
      && f.state == StateAfter(before)
      && (f.state != NO_INDEX_STATE ==> FullSeen(before))
  }

  /** A list of frames a subscriber applies in full, however it seals in between. */
  ghost predicate Deliverable(fs: seq<RowFrame>) {
    && (forall stream: Text :: StreamOk(fs, stream))
    && (forall n: nat :: n < |fs| ==> DeclaredAt(fs, n))
  }

  ghost predicate StreamOk(fs: seq<RowFrame>, stream: Text) {
    ItemsOk(ItemsOf(fs, stream), stream)
  }

  ghost predicate DeclaredAt(fs: seq<RowFrame>, n: nat)
    requires n < |fs|
  {
    DeclaredOk(fs[..n], fs[n])
  }

  /** One more frame. */
  lemma OneMoreFrame(fs: seq<RowFrame>, f: RowFrame, name: Text)
    ensures StateAfter(fs + [f]) == if f.Index? then f.state else StateAfter(fs)
    ensures FullSeen(fs + [f]) == ((f.Index? && f.kind.Full?) || FullSeen(fs))
    ensures RowsCount(fs + [f]) == RowsCount(fs) + if f.Rows? then 1 else 0
    ensures EntriesOf(fs + [f], name) == EntriesOf(fs, name) + if f.Index? && f.stream == name then [CallerRow(f.ts, f.blob)] else []
    ensures ItemsOf(fs + [f], name) == ItemsOf(fs, name) + FrameItems(f, name)
  {
    assert (fs + [f])[..|fs|] == fs;
  }
}
