/** What the decoder accepts: frames' own bytes, their maps in whatever order, and nothing else. */
module WireExact {
  import opened Types
  import opened Frames
  import opened Wire
  import opened WireRoundTrip
  import opened WireLayout

  /** `b` from `at` to `next` is `x`. */
  ghost predicate Stands(b: Bytes, at: nat, next: nat, x: Bytes) {
    at <= next <= |b| && b[at..next] == x
  }

  lemma Joins(b: Bytes, at: nat, mid: nat, next: nat, x: Bytes, y: Bytes)
    requires Stands(b, at, mid, x) && Stands(b, mid, next, y)
    ensures Stands(b, at, next, x + y)
  {
    assert b[at..next] == b[at..mid] + b[mid..next];
  }

  lemma Nothing(b: Bytes, at: nat)
    requires at <= |b|
    ensures Stands(b, at, at, [])
  {}

  // ------------------------------------------------------------------ integers, bytes and flags

  lemma {:induction false} LeSays(b: Bytes, at: nat, n: nat)
    requires at + n <= |b|
    ensures Stands(b, at, at + n, Le(LeValue(b, at, n), n)) && LeValue(b, at, n) < Pow256(n)
    decreases n
  {
    if n > 0 {
      LeSays(b, at + 1, n - 1);
      var rest := LeValue(b, at + 1, n - 1);
      assert LeValue(b, at, n) / 256 == rest && LeValue(b, at, n) % 256 == b[at];
      assert Stands(b, at, at + 1, [b[at]]);
      Joins(b, at, at + 1, at + n, [b[at]], Le(rest, n - 1));
    }
  }

  lemma UintSays(b: Bytes, at: nat, n: nat, v: nat, next: nat)
    requires ReadUint(b, at, n) == Got(v, next)
    ensures Stands(b, at, next, Le(v, n)) && v < Pow256(n)
  {
    LeSays(b, at, n);
  }

  lemma I64Says(b: Bytes, at: nat, v: int, next: nat)
    requires ReadI64(b, at) == Got(v, next)
    ensures Stands(b, at, next, PutI64(v)) && I64(v)
  {
    Powers();
    var u := ReadUint(b, at, 8).value;
    UintSays(b, at, 8, u, next);
    assert v % TWO64 == u;
  }

  lemma BytesSays(b: Bytes, at: nat, v: Bytes, next: nat)
    requires ReadBytes(b, at) == Got(v, next)
    ensures Stands(b, at, next, PutBytes(v)) && U32(|v|)
  {
    Powers();
    var len := ReadUint(b, at, 4);
    UintSays(b, at, 4, len.value, len.next);
    Joins(b, at, len.next, next, Le(|v|, 4), v);
  }

  lemma TextSays(b: Bytes, at: nat, v: Text, next: nat)
    requires ReadText(b, at) == Got(v, next)
    ensures Stands(b, at, next, PutBytes(v)) && Utf8(v) && U32(|v|)
  {
    BytesSays(b, at, v, next);
  }

  lemma OptSays(b: Bytes, at: nat, v: Option<Bytes>, next: nat)
    requires ReadOpt(b, at) == Got(v, next)
    ensures Stands(b, at, next, PutOpt(v))
  {
    assert Stands(b, at, at + 1, [b[at]]);
    if v.Some? {
      BytesSays(b, at + 1, v.value, next);
      Joins(b, at, at + 1, next, [1], PutBytes(v.value));
    }
  }

  lemma BoolSays(b: Bytes, at: nat, v: bool, next: nat)
    requires ReadBool(b, at) == Got(v, next)
    ensures Stands(b, at, next, PutBool(v))
  {
    assert Stands(b, at, at + 1, [b[at]]);
  }

  // ------------------------------------------------------------------ maps

  /** The map that entries leave, read one after the other. */
  function Folded(m: TextMap, pairs: TextMap): TextMap
    decreases |pairs|
  {
    if pairs == [] then m else Folded(Wire.Put(m, pairs[0].0, pairs[0].1), pairs[1..])
  }

  /** A map in key order, of texts. */
  lemma PutOk(m: TextMap, k: Text, v: Text)
    requires MapOk(m) && Utf8(k) && Utf8(v)
    ensures MapOk(Wire.Put(m, k, v))
  {
    PutSets(m, k, v, k);
    PutTexts(m, k, v);
  }

  lemma {:induction false} PutTexts(m: TextMap, k: Text, v: Text)
    requires (forall i :: 0 <= i < |m| ==> Utf8(m[i].0) && Utf8(m[i].1)) && Utf8(k) && Utf8(v)
    ensures forall i :: 0 <= i < |Wire.Put(m, k, v)| ==> Utf8(Wire.Put(m, k, v)[i].0) && Utf8(Wire.Put(m, k, v)[i].1)
  {
    if m == [] || Less(k, m[0].0) || m[0].0 == k {
    } else {
      PutTexts(m[1..], k, v);
    }
  }

  lemma PairFirst(k: Text, v: Text, more: TextMap)
    ensures PutPairs([(k, v)] + more) == PutBytes(k) + (PutBytes(v) + PutPairs(more))
    ensures forall m :: Folded(m, [(k, v)] + more) == Folded(Wire.Put(m, k, v), more)
  {
    var all := [(k, v)] + more;
    assert all[1..] == more;
  }

  lemma PairsMore(
    b: Bytes, at: nat, mid: nat, end: nat, next: nat, k: Text, v: Text, m: TextMap, more: TextMap, pairs: TextMap)
    requires pairs == [(k, v)] + more
    requires Stands(b, at, mid, PutBytes(k)) && Stands(b, mid, end, PutBytes(v)) && Stands(b, end, next, PutPairs(more))
    ensures Stands(b, at, next, PutPairs(pairs)) && Folded(m, pairs) == Folded(Wire.Put(m, k, v), more)
  {
    PairFirst(k, v, more);
    Joins(b, mid, end, next, PutBytes(v), PutPairs(more));
    Joins(b, at, mid, next, PutBytes(k), PutBytes(v) + PutPairs(more));
  }

  ghost predicate PairsGot(b: Bytes, at: nat, n: nat, m: TextMap, r: TextMap, next: nat) {
    forall k: nat :: k == n ==> PairsGotTo(b, at, k, m, r, next)
  }

  ghost predicate PairsGotTo(b: Bytes, at: nat, n: nat, m: TextMap, r: TextMap, next: nat) {
    ReadPairs(b, at, n, m) == Got(r, next)
  }

  lemma NoPair(b: Bytes, at: nat, n: nat, m: TextMap, r: TextMap, next: nat)
    requires n == 0 && at <= |b| && PairsGot(b, at, n, m, r, next)
    ensures Stands(b, at, next, PutPairs([])) && r == Folded(m, [])
  {
    assert PairsGotTo(b, at, n, m, r, next);
    Nothing(b, at);
  }

  lemma NextPair(b: Bytes, at: nat, n: nat, l: nat, m: TextMap, r: TextMap, next: nat)
    returns (k: Text, v: Text, mid: nat, end: nat, more: TextMap)
    requires n == l + 1 && PairsGot(b, at, n, m, r, next) && MapOk(m)
    ensures Stands(b, at, mid, PutBytes(k)) && Stands(b, mid, end, PutBytes(v))
    ensures more == Wire.Put(m, k, v) && MapOk(more) && PairsGot(b, end, l, more, r, next)
  {
    assert PairsGotTo(b, at, n, m, r, next);
    k, mid := ReadText(b, at).value, ReadText(b, at).next;
    v, end := ReadText(b, mid).value, ReadText(b, mid).next;
    TextSays(b, at, k, mid);
    TextSays(b, mid, v, end);
    PutOk(m, k, v);
    more := Wire.Put(m, k, v);
    assert PairsGotTo(b, end, l, more, r, next);
  }

  lemma {:induction false} PairsSay(b: Bytes, at: nat, n: nat, m: TextMap, r: TextMap, next: nat) returns (pairs: TextMap)
    requires at <= |b| && PairsGot(b, at, n, m, r, next) && MapOk(m)
    ensures |pairs| == n && Stands(b, at, next, PutPairs(pairs)) && r == Folded(m, pairs) && MapOk(r)
    decreases n
  {
    if n == 0 {
      pairs := [];
      NoPair(b, at, n, m, r, next);
    } else {
      var k, v, mid, end, m' := NextPair(b, at, n, n - 1, m, r, next);
      var more := PairsSay(b, end, n - 1, m', r, next);
      pairs := [(k, v)] + more;
      PairsMore(b, at, mid, end, next, k, v, m, more, pairs);
    }
  }

  // ------------------------------------------------------------------ rows

  lemma RowSays(b: Bytes, at: nat, r: WalRow, next: nat)
    requires ReadRow(b, at) == Got(r, next)
    ensures Stands(b, at, next, PutRow(r)) && RowOk(r)
  {
    var stream := ReadText(b, at);
    var ts := ReadI64(b, stream.next);
    var offset := ReadI64(b, ts.next);
    TextSays(b, at, r.stream, stream.next);
    I64Says(b, stream.next, r.ts, ts.next);
    I64Says(b, ts.next, r.wallOffset, offset.next);
    BytesSays(b, offset.next, r.row, next);
    Joins(b, ts.next, offset.next, next, PutI64(r.wallOffset), PutBytes(r.row));
    Joins(b, stream.next, ts.next, next, PutI64(r.ts), PutI64(r.wallOffset) + PutBytes(r.row));
    Joins(b, at, stream.next, next, PutBytes(r.stream), PutI64(r.ts) + (PutI64(r.wallOffset) + PutBytes(r.row)));
  }

  lemma RowFirst(r: WalRow, more: seq<WalRow>)
    ensures PutRows([r] + more) == PutRow(r) + PutRows(more)
  {
    assert ([r] + more)[1..] == more;
  }

  lemma RowsMore(
    b: Bytes, at: nat, mid: nat, next: nat, done: seq<WalRow>, r: WalRow, rest: seq<WalRow>, all: seq<WalRow>, more: seq<WalRow>)
    requires all == done + [r] + rest && more == [r] + rest && RowOk(r) && RowsOk(rest)
    requires Stands(b, at, mid, PutRow(r)) && Stands(b, mid, next, PutRows(rest))
    ensures all == done + more && RowsOk(more) && Stands(b, at, next, PutRows(more))
  {
    RowFirst(r, rest);
    Joins(b, at, mid, next, PutRow(r), PutRows(rest));
    Assoc(done, [r], rest);
    forall i: nat | i < |more| ensures RowOkAt(more, i) {
      assert i > 0 ==> RowOkAt(rest, i - 1);
    }
  }

  ghost predicate RowsOk(rows: seq<WalRow>) {
    forall i: nat :: i < |rows| ==> RowOkAt(rows, i)
  }

  ghost predicate RowOkAt(rows: seq<WalRow>, i: nat)
    requires i < |rows|
  {
    RowOk(rows[i])
  }

  ghost predicate RowsGot(b: Bytes, at: nat, n: nat, done: seq<WalRow>, all: seq<WalRow>, next: nat) {
    forall k: nat :: k == n ==> RowsGotTo(b, at, k, done, all, next)
  }

  ghost predicate RowsGotTo(b: Bytes, at: nat, n: nat, done: seq<WalRow>, all: seq<WalRow>, next: nat) {
    ReadRows(b, at, n, done) == Got(all, next)
  }

  lemma NoRow(b: Bytes, at: nat, n: nat, done: seq<WalRow>, all: seq<WalRow>, next: nat)
    requires n == 0 && at <= |b| && RowsGot(b, at, n, done, all, next)
    ensures all == done + [] && Stands(b, at, next, PutRows([])) && RowsOk([])
  {
    assert RowsGotTo(b, at, n, done, all, next);
    Nothing(b, at);
  }

  lemma NextRow(b: Bytes, at: nat, n: nat, m: nat, done: seq<WalRow>, all: seq<WalRow>, next: nat) returns (r: WalRow, mid: nat)
    requires n == m + 1 && RowsGot(b, at, n, done, all, next)
    ensures Stands(b, at, mid, PutRow(r)) && RowOk(r) && RowsGot(b, mid, m, done + [r], all, next)
  {
    assert RowsGotTo(b, at, n, done, all, next);
    var got := ReadRow(b, at);
    RowsUnfold(b, at, n, m, done, got);
    r, mid := got.value, got.next;
    RowSays(b, at, r, mid);
    assert RowsGotTo(b, mid, m, done + [r], all, next);
  }

  lemma RowsUnfold(b: Bytes, at: nat, n: nat, m: nat, done: seq<WalRow>, got: Parsed<WalRow>)
    requires n == m + 1 && got == ReadRow(b, at)
    ensures ReadRows(b, at, n, done) == if got.Fail? then Fail else ReadRows(b, got.next, m, done + [got.value])
  {}

  lemma {:induction false} RowsSay(b: Bytes, at: nat, n: nat, done: seq<WalRow>, all: seq<WalRow>, next: nat) returns (more: seq<WalRow>)
    requires at <= |b| && RowsGot(b, at, n, done, all, next)
    ensures all == done + more && |more| == n && Stands(b, at, next, PutRows(more)) && RowsOk(more)
    decreases n
  {
    if n == 0 {
      more := [];
      NoRow(b, at, n, done, all, next);
    } else {
      var r, mid := NextRow(b, at, n, n - 1, done, all, next);
      var rest := RowsSay(b, mid, n - 1, done + [r], all, next);
      more := [r] + rest;
      RowsMore(b, at, mid, next, done, r, rest, all, more);
    }
  }

  // ------------------------------------------------------------------ fields

  /** What stood on the wire for a field: the field itself or, for a map, its entries as listed. */
  ghost predicate Spells(raw: Field, f: Field) {
    if f.MapField? then raw.MapField? && f.entries == Folded([], raw.entries) else raw == f
  }

  lemma MapSays(b: Bytes, at: nat, m: TextMap, next: nat) returns (raw: Field)
    requires ReadMap(b, at) == Got(m, next)
    ensures Stands(b, at, next, PutField(raw)) && Spells(raw, MapField(m)) && MapOk(m)
  {
    var n := ReadUint(b, at, 4);
    UintSays(b, at, 4, n.value, n.next);
    assert PairsGotTo(b, n.next, n.value, [], m, next);
    var pairs := PairsSay(b, n.next, n.value, [], m, next);
    raw := MapField(pairs);
    Joins(b, at, n.next, next, Le(n.value, 4), PutPairs(pairs));
  }

  lemma RowListSays(b: Bytes, at: nat, rows: seq<WalRow>, next: nat)
    requires ReadRowList(b, at) == Got(rows, next)
    ensures Stands(b, at, next, PutField(RowsField(rows))) && FieldOk(RowsField(rows))
  {
    var n := ReadUint(b, at, 4);
    UintSays(b, at, 4, n.value, n.next);
    assert RowsGotTo(b, n.next, n.value, [], rows, next);
    var more := RowsSay(b, n.next, n.value, [], rows, next);
    assert [] + more == more;
    forall i: nat | i < |rows| ensures RowOk(rows[i]) {
      assert RowOkAt(more, i);
    }
    Joins(b, at, n.next, next, Le(n.value, 4), PutRows(rows));
  }

  lemma FieldSays(b: Bytes, at: nat, slot: Slot, f: Field, next: nat) returns (raw: Field)
    requires ReadField(b, at, slot) == Got(f, next)
    ensures Stands(b, at, next, PutField(raw)) && Spells(raw, f) && FieldOk(f) && SlotOf(f) == slot
  {
    Powers();
    raw := f;
    match slot {
      case AU32 => UintSays(b, at, 4, f.u32, next);
      case AU64 => UintSays(b, at, 8, f.u64, next);
      case AI64 => I64Says(b, at, f.i64, next);
      case AText => TextSays(b, at, f.text, next);
      case SomeBytes => BytesSays(b, at, f.bytes, next);
      case AnOpt => OptSays(b, at, f.opt, next);
      case AnOptText => OptSays(b, at, f.optText, next);
      case AMap => raw := MapSays(b, at, f.entries, next);
      case ABool => BoolSays(b, at, f.flag, next);
      case SomeRows => RowListSays(b, at, f.rows, next);
    }
  }

  ghost predicate SpelledOut(raws: seq<Field>, fs: seq<Field>) {
    |raws| == |fs| && forall i: nat :: i < |fs| ==> SpelledAt(raws, fs, i)
  }

  ghost predicate SpelledAt(raws: seq<Field>, fs: seq<Field>, i: nat)
    requires i < |fs| == |raws|
  {
    Spells(raws[i], fs[i])
  }

  lemma FieldFirst(raw: Field, raws: seq<Field>, f: Field, fs: seq<Field>)
    requires Spells(raw, f) && SpelledOut(raws, fs) && FieldOk(f) && FieldsOk(fs)
    ensures SpelledOut([raw] + raws, [f] + fs) && FieldsOk([f] + fs)
    ensures PutFields([raw] + raws) == PutField(raw) + PutFields(raws)
  {
    var a, c := [raw] + raws, [f] + fs;
    assert a[1..] == raws;
    forall i: nat | i < |c| ensures SpelledAt(a, c, i) && FieldAt(c, i) {
      assert i > 0 ==> SpelledAt(raws, fs, i - 1) && FieldAt(fs, i - 1);
    }
  }

  ghost predicate FieldsGot(b: Bytes, at: nat, slots: seq<Slot>, fs: seq<Field>, next: nat) {
    forall l: seq<Slot> :: l == slots ==> FieldsGotOf(b, at, l, fs, next)
  }

  ghost predicate FieldsGotOf(b: Bytes, at: nat, slots: seq<Slot>, fs: seq<Field>, next: nat) {
    ReadFields(b, at, slots) == Got(fs, next)
  }

  lemma NoField(b: Bytes, at: nat, fs: seq<Field>, next: nat)
    requires at <= |b| && FieldsGot(b, at, [], fs, next)
    ensures fs == [] && Stands(b, at, next, PutFields([]))
  {
    assert FieldsGotOf(b, at, [], fs, next);
    Nothing(b, at);
  }

  lemma NextField(b: Bytes, at: nat, slots: seq<Slot>, rest: seq<Slot>, fs: seq<Field>, next: nat)
    returns (f: Field, raw: Field, mid: nat, more: seq<Field>)
    requires slots != [] && rest == slots[1..] && FieldsGot(b, at, slots, fs, next)
    ensures Stands(b, at, mid, PutField(raw)) && Spells(raw, f) && FieldOk(f) && SlotOf(f) == slots[0]
    ensures FieldsGot(b, mid, rest, more, next) && fs == [f] + more
  {
    assert FieldsGotOf(b, at, slots, fs, next);
    f, mid := ReadField(b, at, slots[0]).value, ReadField(b, at, slots[0]).next;
    raw := FieldSays(b, at, slots[0], f, mid);
    more := ReadFields(b, mid, rest).value;
    assert FieldsGotOf(b, mid, rest, more, next);
  }

  lemma {:induction false} FieldsSay(b: Bytes, at: nat, slots: seq<Slot>, fs: seq<Field>, next: nat) returns (raws: seq<Field>)
    requires at <= |b| && FieldsGot(b, at, slots, fs, next)
    ensures Stands(b, at, next, PutFields(raws)) && SpelledOut(raws, fs) && FieldsOk(fs) && SlotsOf(fs) == slots
    decreases |slots|
  {
    if slots == [] {
      raws := [];
      NoField(b, at, fs, next);
    } else {
      var f, raw, mid, more := NextField(b, at, slots, slots[1..], fs, next);
      var others := FieldsSay(b, mid, slots[1..], more, next);
      raws := [raw] + others;
      FieldFirst(raw, others, f, more);
      Joins(b, at, mid, next, PutField(raw), PutFields(others));
    }
  }

  // ------------------------------------------------------------------ frames

  lemma SlotsAt(fs: seq<Field>, slots: seq<Slot>)
    requires SlotsOf(fs) == slots
    ensures |fs| == |slots| && forall i :: 0 <= i < |fs| ==> SlotOf(fs[i]) == slots[i]
  {}

  /** The frame a kind's fields spell has those fields. */
  lemma FieldsBackOf(kind: Byte, fs: seq<Field>)
    requires 1 <= kind <= 6 && SlotsOf(fs) == Layout(kind)
    ensures KindOf(FrameOf(kind, fs)) == kind && FieldsOf(FrameOf(kind, fs)) == fs
  {
    SlotsAt(fs, Layout(kind));
  }

  /**
   * Whatever the decoder accepts is a frame's kind byte and its fields, byte for byte as they are
   * written, but for maps: a map may list its entries in any order and a key more than once, and the
   * frame has what they leave. Every value in the frame is one its type can hold.
   */
  lemma AcceptsOnly(b: Bytes, f: WireFrame) returns (raws: seq<Field>)
    requires Decode(b) == Ok(Some(f))
    ensures FrameOk(f) && SpelledOut(raws, FieldsOf(f)) && b == [KindOf(f)] + PutFields(raws)
  {
    var got := ReadFields(b, 1, Layout(b[0]));
    assert FieldsGotOf(b, 1, Layout(b[0]), got.value, |b|);
    raws := FieldsSay(b, 1, Layout(b[0]), got.value, |b|);
    FieldsBackOf(b[0], got.value);
    AfterKind(b, PutFields(raws));
  }

  lemma AfterKind(b: Bytes, x: Bytes)
    requires b != [] && Stands(b, 1, |b|, x)
    ensures b == [b[0]] + x
  {
    assert b == [b[0]] + b[1..|b|];
  }

  /** A frame of a kind without a map. */
  predicate NoMap(f: WireFrame) {
    f.Index? || f.Rows? || f.SegmentOf? || f.ClockOffset?
  }

  lemma SameFields(raws: seq<Field>, f: WireFrame)
    requires NoMap(f) && SpelledOut(raws, FieldsOf(f))
    ensures raws == FieldsOf(f)
  {
    var fs := FieldsOf(f);
    forall i: nat | i < |fs| ensures raws[i] == fs[i] {
      assert SpelledAt(raws, fs, i);
    }
  }

  /** A payload within the limit decodes to such a frame if and only if it is the frame's encoding. */
  lemma DecodesIffEncodes(b: Bytes, f: WireFrame)
    requires NoMap(f) && FrameOk(f) && |b| <= MAX_FRAME_BYTES
    ensures Decode(b) == Ok(Some(f)) <==> b == Body(f)
  {
    if Decode(b) == Ok(Some(f)) {
      var raws := AcceptsOnly(b, f);
      SameFields(raws, f);
    }
    if b == Body(f) {
      RoundTrip(f);
    }
  }
}
