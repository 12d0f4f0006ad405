/** Encodings are prefix-free, and a stream of them reads back (src/replicate/wire.rs). */
module WirePrefix {
  import opened Types
  import opened Frames
  import opened Wire
  import opened WireRoundTrip

  /** What was read from a prefix is read from the whole, and ends inside the prefix. */
  ghost predicate Stable<T>(p: Bytes, short: Parsed<T>, long: Parsed<T>) {
    short.Got? ==> long == short && short.next <= |p|
  }

  lemma {:induction false} LeStable(p: Bytes, b: Bytes, at: nat, n: nat)
    requires p <= b && at + n <= |p|
    ensures LeValue(p, at, n) == LeValue(b, at, n)
    decreases n
  {
    if n > 0 {
      LeStable(p, b, at + 1, n - 1);
    }
  }

  lemma UintStable(p: Bytes, b: Bytes, at: nat, n: nat)
    requires p <= b
    ensures Stable(p, ReadUint(p, at, n), ReadUint(b, at, n))
  {
    if at + n <= |p| {
      LeStable(p, b, at, n);
    }
  }

  lemma I64Stable(p: Bytes, b: Bytes, at: nat)
    requires p <= b
    ensures Stable(p, ReadI64(p, at), ReadI64(b, at))
  {
    UintStable(p, b, at, 8);
  }

  lemma BytesStable(p: Bytes, b: Bytes, at: nat)
    requires p <= b
    ensures Stable(p, ReadBytes(p, at), ReadBytes(b, at))
  {
    UintStable(p, b, at, 4);
    var n := ReadUint(p, at, 4);
    if n.Got? && n.next + n.value <= |p| {
      assert p[n.next..n.next + n.value] == b[n.next..n.next + n.value];
    }
  }

  lemma TextStable(p: Bytes, b: Bytes, at: nat)
    requires p <= b
    ensures Stable(p, ReadText(p, at), ReadText(b, at))
  {
    BytesStable(p, b, at);
  }

  lemma ByteStable(p: Bytes, b: Bytes, at: nat)
    requires p <= b
    ensures Stable(p, ReadByte(p, at), ReadByte(b, at))
  {}

  lemma OptStable(p: Bytes, b: Bytes, at: nat)
    requires p <= b
    ensures Stable(p, ReadOpt(p, at), ReadOpt(b, at))
    ensures Stable(p, ReadOptText(p, at), ReadOptText(b, at))
  {
    ByteStable(p, b, at);
    BytesStable(p, b, at + 1);
  }

  ghost predicate PairsAlike(p: Bytes, b: Bytes, at: nat, n: nat, m: TextMap) {
    forall k: nat :: PairsAlikeTo(p, b, at, n, m, k)
  }

  ghost predicate PairsAlikeTo(p: Bytes, b: Bytes, at: nat, n: nat, m: TextMap, k: nat) {
    k == n ==> Stable(p, ReadPairs(p, at, n, m), ReadPairs(b, at, n, m))
  }

  lemma PairsStep(p: Bytes, b: Bytes, at: nat, n: nat, m: TextMap, k: Text, mid: nat, v: Text, next: nat, m': TextMap)
    requires n > 0 && ReadText(p, at) == ReadText(b, at) == Got(k, mid) && ReadText(p, mid) == ReadText(b, mid) == Got(v, next)
    requires m' == Put(m, k, v) && PairsAlike(p, b, next, n - 1, m')
    ensures PairsAlike(p, b, at, n, m)
  {
    assert PairsAlikeTo(p, b, next, n - 1, m', n - 1);
  }

  lemma PairsEnd(p: Bytes, b: Bytes, at: nat, n: nat, m: TextMap, k: Parsed<Text>)
    requires at <= |p| && k == ReadText(p, at)
    requires n > 0 ==> k.Fail? || ReadText(p, k.next).Fail?
    ensures PairsAlike(p, b, at, n, m)
  {}

  lemma {:induction false} PairsStable(p: Bytes, b: Bytes, at: nat, n: nat, m: TextMap)
    requires p <= b && at <= |p|
    ensures PairsAlike(p, b, at, n, m)
    decreases n
  {
    TextStable(p, b, at);
    var k := ReadText(p, at);
    if n == 0 || k.Fail? {
      PairsEnd(p, b, at, n, m, k);
    } else {
      TextStable(p, b, k.next);
      var v := ReadText(p, k.next);
      if v.Fail? {
        PairsEnd(p, b, at, n, m, k);
      } else {
        var m' := Put(m, k.value, v.value);
        PairsStable(p, b, v.next, n - 1, m');
        PairsStep(p, b, at, n, m, k.value, k.next, v.value, v.next, m');
      }
    }
  }

  lemma RowStable(p: Bytes, b: Bytes, at: nat)
    requires p <= b
    ensures Stable(p, ReadRow(p, at), ReadRow(b, at))
  {
    TextStable(p, b, at);
    var stream := ReadText(p, at);
    if stream.Got? {
      I64Stable(p, b, stream.next);
      var ts := ReadI64(p, stream.next);
      if ts.Got? {
        I64Stable(p, b, ts.next);
        var offset := ReadI64(p, ts.next);
        if offset.Got? {
          BytesStable(p, b, offset.next);
        }
      }
    }
  }

  ghost predicate RowsAlike(p: Bytes, b: Bytes, at: nat, n: nat, rows: seq<WalRow>) {
    forall k: nat :: RowsAlikeTo(p, b, at, n, rows, k)
  }

  ghost predicate RowsAlikeTo(p: Bytes, b: Bytes, at: nat, n: nat, rows: seq<WalRow>, k: nat) {
    k == n ==> Stable(p, ReadRows(p, at, n, rows), ReadRows(b, at, n, rows))
  }

  lemma RowsStep(
    p: Bytes, b: Bytes, at: nat, n: nat, m: nat, rows: seq<WalRow>, r: Parsed<WalRow>, next: nat, more: seq<WalRow>)
    requires r.Got? && r == ReadRow(p, at) && r == ReadRow(b, at) && next == r.next && more == rows + [r.value]
    requires n == m + 1 && RowsAlike(p, b, next, m, more)
    ensures RowsAlike(p, b, at, n, rows)
  {
    assert RowsAlikeTo(p, b, next, m, more, m);
    ReadRowsNext(p, at, n, m, rows, r, next, more);
    ReadRowsNext(b, at, n, m, rows, r, next, more);
  }

  lemma ReadRowsNext(b: Bytes, at: nat, n: nat, m: nat, rows: seq<WalRow>, r: Parsed<WalRow>, next: nat, more: seq<WalRow>)
    requires r.Got? && r == ReadRow(b, at) && next == r.next && more == rows + [r.value] && n == m + 1
    ensures ReadRows(b, at, n, rows) == ReadRows(b, next, m, more)
  {}

  lemma RowsEnd(p: Bytes, b: Bytes, at: nat, n: nat, rows: seq<WalRow>, r: Parsed<WalRow>)
    requires at <= |p| && r == ReadRow(p, at) && (n > 0 ==> r.Fail?)
    ensures RowsAlike(p, b, at, n, rows)
  {}

  /** One row, read from a prefix and from the whole. */
  lemma RowGot(p: Bytes, b: Bytes, at: nat, r: Parsed<WalRow>)
    requires p <= b && r == ReadRow(p, at)
    ensures r.Got? ==> ReadRow(b, at) == r && r.next <= |p|
  {
    RowStable(p, b, at);
  }

  lemma {:induction false} RowsStable(p: Bytes, b: Bytes, at: nat, n: nat, rows: seq<WalRow>, r: Parsed<WalRow>)
    requires p <= b && at <= |p| && r == ReadRow(p, at)
    ensures RowsAlike(p, b, at, n, rows)
    decreases n
  {
    if n == 0 || r.Fail? {
      RowsEnd(p, b, at, n, rows, r);
    } else {
      RowGot(p, b, at, r);
      var next, m, more := r.next, n - 1, rows + [r.value];
      RowsStable(p, b, next, m, more, ReadRow(p, next));
      RowsStep(p, b, at, n, m, rows, r, next, more);
    }
  }

  lemma TableStable(p: Bytes, b: Bytes, at: nat)
    requires p <= b
    ensures Stable(p, ReadMap(p, at), ReadMap(b, at))
    ensures Stable(p, ReadRowList(p, at), ReadRowList(b, at))
  {
    UintStable(p, b, at, 4);
    var n := ReadUint(p, at, 4);
    if n.Got? {
      PairsStable(p, b, n.next, n.value, []);
      RowsStable(p, b, n.next, n.value, [], ReadRow(p, n.next));
      assert PairsAlikeTo(p, b, n.next, n.value, [], n.value) && RowsAlikeTo(p, b, n.next, n.value, [], n.value);
    }
  }

  lemma FieldStable(p: Bytes, b: Bytes, at: nat, slot: Slot)
    requires p <= b
    ensures Stable(p, ReadField(p, at, slot), ReadField(b, at, slot))
  {
    match slot
    case AU32 => UintStable(p, b, at, 4);
    case AU64 => UintStable(p, b, at, 8);
    case AI64 => I64Stable(p, b, at);
    case AText => TextStable(p, b, at);
    case SomeBytes => BytesStable(p, b, at);
    case AnOpt => OptStable(p, b, at);
    case AnOptText => OptStable(p, b, at);
    case AMap => TableStable(p, b, at);
    case ABool => ByteStable(p, b, at);
    case SomeRows => TableStable(p, b, at);
  }

  lemma {:induction false} FieldsStable(p: Bytes, b: Bytes, at: nat, slots: seq<Slot>)
    requires p <= b && at <= |p|
    ensures Stable(p, ReadFields(p, at, slots), ReadFields(b, at, slots))
    decreases |slots|
  {
    if slots != [] {
      FieldStable(p, b, at, slots[0]);
      var f := ReadField(p, at, slots[0]);
      if f.Got? {
        FieldsStable(p, b, f.next, slots[1..]);
      }
    }
  }

  /** Two payloads of known kinds, one a strict prefix of the other, do not both decode. */
  lemma NoPrefixDecodes(p: Bytes, b: Bytes)
    requires p <= b && p != b && p != [] && 1 <= p[0] <= 6
    ensures Decode(p).Err? || Decode(b).Err?
  {
    FieldsStable(p, b, 1, Layout(p[0]));
  }

  /** Every strict prefix of a frame's payload is refused. */
  lemma PrefixRefused(f: WireFrame, k: nat)
    requires FrameOk(f) && |Body(f)| <= MAX_FRAME_BYTES && k < |Body(f)|
    ensures Decode(Body(f)[..k]).Err?
  {
    RoundTrip(f);
    if k > 0 {
      NoPrefixDecodes(Body(f)[..k], Body(f));
    }
  }

  /** Any trailing byte is refused. */
  lemma TrailingRefused(f: WireFrame, more: Bytes)
    requires FrameOk(f) && |Body(f)| <= MAX_FRAME_BYTES && more != []
    ensures Decode(Body(f) + more).Err?
  {
    RoundTrip(f);
    NoPrefixDecodes(Body(f), Body(f) + more);
  }

  /** Two frames with one encoding are one frame. */
  lemma BodyInjective(f: WireFrame, g: WireFrame)
    requires FrameOk(f) && FrameOk(g) && |Body(f)| <= MAX_FRAME_BYTES && Body(f) == Body(g)
    ensures f == g
  {
    RoundTrip(f);
    RoundTrip(g);
  }
}
