/** Encoding and decoding are inverse, and encodings are prefix-free (src/replicate/wire.rs). */
module WireRoundTrip {
  import opened Types
  import opened Frames
  import opened Wire

  /** `x` stands in `b` at `at`. */
  ghost predicate Has(b: Bytes, at: nat, x: Bytes) {
    forall n: nat :: HasLength(b, at, x, n)
  }

  ghost predicate HasLength(b: Bytes, at: nat, x: Bytes, n: nat) {
    n == |x| ==> at + n <= |b| && b[at..at + n] == x
  }

  lemma HasIs(b: Bytes, at: nat, x: Bytes)
    requires Has(b, at, x)
    ensures at + |x| <= |b| && b[at..at + |x|] == x
  {
    assert HasLength(b, at, x, |x|);
  }

  lemma HasSplit(b: Bytes, at: nat, x: Bytes, y: Bytes)
    requires Has(b, at, x + y)
    ensures Has(b, at, x) && Has(b, at + |x|, y)
  {
    var z := x + y;
    HasIs(b, at, z);
    assert b[at..at + |x|] == b[at..at + |z|][..|x|];
    assert b[at + |x|..at + |x| + |y|] == b[at..at + |z|][|x|..];
  }

  lemma {:induction false} LeRead(b: Bytes, at: nat, v: nat, n: nat)
    requires Has(b, at, Le(v, n)) && v < Pow256(n)
    ensures at + n <= |b| && LeValue(b, at, n) == v
    decreases n
  {
    HasIs(b, at, Le(v, n));
    if n > 0 {
      assert b[at] == b[at..at + n][0];
      HasSplit(b, at, [v % 256], Le(v / 256, n - 1));
      LeRead(b, at + 1, v / 256, n - 1);
    }
  }

  lemma Powers()
    ensures Pow256(4) == 0x1_0000_0000 && Pow256(8) == TWO64
  {
    assert Pow256(2) == 0x1_0000 && Pow256(3) == 0x100_0000 && Pow256(4) == 0x1_0000_0000;
    assert Pow256(5) == 0x100_0000_0000 && Pow256(6) == 0x1_0000_0000_0000 && Pow256(7) == 0x100_0000_0000_0000;
  }

  lemma Read32(b: Bytes, at: nat, v: nat)
    requires Has(b, at, Le(v, 4)) && U32(v)
    ensures ReadUint(b, at, 4) == Got(v, at + 4)
  {
    Powers();
    LeRead(b, at, v, 4);
  }

  lemma Read64(b: Bytes, at: nat, v: nat)
    requires Has(b, at, Le(v, 8)) && U64(v)
    ensures ReadUint(b, at, 8) == Got(v, at + 8)
  {
    Powers();
    LeRead(b, at, v, 8);
  }

  lemma ReadSigned(b: Bytes, at: nat, v: int)
    requires Has(b, at, PutI64(v)) && I64(v)
    ensures ReadI64(b, at) == Got(v, at + 8)
  {
    TwosComplement(v);
    Read64(b, at, v % TWO64);
  }

  lemma TwosComplement(v: int)
    requires I64(v)
    ensures v % TWO64 == (if v < 0 then v + TWO64 else v) && U64(v % TWO64)
  {
    if v < 0 {
      assert (v + TWO64) % TWO64 == v + TWO64;
      assert v % TWO64 == v + TWO64;
    }
  }

  lemma ReadBytesBack(b: Bytes, at: nat, v: Bytes)
    requires Has(b, at, PutBytes(v)) && U32(|v|)
    ensures ReadBytes(b, at) == Got(v, at + |PutBytes(v)|)
  {
    HasSplit(b, at, Le(|v|, 4), v);
    Read32(b, at, |v|);
    HasIs(b, at + 4, v);
  }

  lemma ReadString(b: Bytes, at: nat, v: Text)
    requires Has(b, at, PutBytes(v)) && U32(|v|) && Utf8(v)
    ensures ReadText(b, at) == Got(v, at + |PutBytes(v)|)
  {
    ReadBytesBack(b, at, v);
  }

  lemma ReadOne(b: Bytes, at: nat, v: Byte)
    requires Has(b, at, [v])
    ensures ReadByte(b, at) == Got(v, at + 1)
  {
    HasIs(b, at, [v]);
    assert b[at] == b[at..at + 1][0];
  }

  lemma ReadOption(b: Bytes, at: nat, v: Option<Bytes>)
    requires Has(b, at, PutOpt(v)) && (v.Some? ==> U32(|v.value|))
    ensures ReadOpt(b, at) == Got(v, at + |PutOpt(v)|)
  {
    match v
    case None => ReadOne(b, at, 0);
    case Some(x) =>
      HasSplit(b, at, [1], PutBytes(x));
      ReadOne(b, at, 1);
      ReadBytesBack(b, at + 1, x);
  }

  lemma ReadFlag(b: Bytes, at: nat, v: bool)
    requires Has(b, at, PutBool(v))
    ensures ReadBool(b, at) == Got(v, at + 1)
  {
    ReadOne(b, at, if v then 1 else 0);
  }

  // ------------------------------------------------------------------ maps

  /** Every key is past every key of `m`. */
  ghost predicate Above(m: TextMap, k: Text) {
    forall i :: 0 <= i < |m| ==> Less(m[i].0, k)
  }

  lemma LessAsymmetric(a: Text, b: Text)
    requires Less(a, b)
    ensures !Less(b, a) && a != b
  {
    LessIrreflexive(a);
    if Less(b, a) {
      LessTrans(a, b, a);
    }
  }

  /** An insert past every key lands at the end, so a map written in key order reads back as itself. */
  lemma {:induction false} PutAtEnd(m: TextMap, k: Text, v: Text)
    requires Above(m, k)
    ensures Put(m, k, v) == m + [(k, v)]
  {
    if m != [] {
      LessAsymmetric(m[0].0, k);
      PutAtEnd(m[1..], k, v);
      assert m == [m[0]] + m[1..];
    }
  }

  /** Every field of the map is short enough to write. */
  ghost predicate MapFits(m: TextMap) {
    U32(|m|) && forall i :: 0 <= i < |m| ==> U32(|m[i].0|) && U32(|m[i].1|)
  }

  ghost predicate PairsOk(m: TextMap) {
    forall i: nat :: i < |m| ==> PairAt(m, i)
  }

  ghost predicate PairAt(m: TextMap, i: nat)
    requires i < |m|
  {
    PairOk(m[i]) && (i + 1 < |m| ==> Less(m[i].0, m[i + 1].0))
  }

  predicate PairOk(p: (Text, Text)) {
    Utf8(p.0) && Utf8(p.1) && U32(|p.0|) && U32(|p.1|)
  }

  /** Reading `n` more entries at `at` turns `done` into `m` and ends at `end`. */
  ghost predicate PairsRead(b: Bytes, at: nat, n: nat, done: TextMap, m: TextMap, end: nat) {
    forall k: nat :: PairsReadTo(b, at, n, done, m, end, k)
  }

  ghost predicate PairsReadTo(b: Bytes, at: nat, n: nat, done: TextMap, m: TextMap, end: nat, k: nat) {
    k == n ==> ReadPairs(b, at, n, done) == Got(m, end)
  }

  lemma ReadTwoTexts(b: Bytes, at: nat, x: Text, y: Text, rest: Bytes)
    requires Has(b, at, PutBytes(x) + (PutBytes(y) + rest)) && PairOk((x, y))
    ensures ReadText(b, at) == Got(x, at + |PutBytes(x)|)
    ensures ReadText(b, at + |PutBytes(x)|) == Got(y, at + |PutBytes(x)| + |PutBytes(y)|)
    ensures Has(b, at + |PutBytes(x)| + |PutBytes(y)|, rest)
  {
    HasSplit(b, at, PutBytes(x), PutBytes(y) + rest);
    HasSplit(b, at + |PutBytes(x)|, PutBytes(y), rest);
    ReadString(b, at, x);
    ReadString(b, at + |PutBytes(x)|, y);
  }

  /** One entry read into a map whose keys all come before it. */
  lemma ReadEntry(b: Bytes, at: nat, n: nat, done: TextMap, x: Text, y: Text, mid: nat, next: nat, m: TextMap, end: nat)
    requires ReadText(b, at) == Got(x, mid) && ReadText(b, mid) == Got(y, next) && Above(done, x)
    requires PairsRead(b, next, n, done + [(x, y)], m, end)
    ensures PairsRead(b, at, n + 1, done, m, end)
  {
    PutAtEnd(done, x, y);
    assert PairsReadTo(b, next, n, done + [(x, y)], m, end, n);
  }

  lemma {:induction false} ReadEntries(b: Bytes, at: nat, done: TextMap, m: TextMap, all: TextMap, end: nat)
    requires Has(b, at, PutPairs(m)) && PairsOk(m) && all == done + m && end == at + |PutPairs(m)|
    requires m != [] ==> Above(done, m[0].0)
    ensures PairsRead(b, at, |m|, done, all, end)
    decreases |m|
  {
    if m == [] {
      assert all == done;
    } else {
      var p, rest := m[0], m[1..];
      var mid := at + |PutBytes(p.0)|;
      var next := mid + |PutBytes(p.1)|;
      assert PairAt(m, 0);
      ReadTwoTexts(b, at, p.0, p.1, PutPairs(rest));
      PairsTail(m);
      AboveMore(done, m);
      assert done + [p] + rest == all;
      ReadEntries(b, next, done + [p], rest, all, end);
      ReadEntry(b, at, |rest|, done, p.0, p.1, mid, next, all, end);
    }
  }

  lemma PairsTail(m: TextMap)
    requires PairsOk(m) && m != []
    ensures PairsOk(m[1..])
  {
    var rest := m[1..];
    forall i: nat | i < |rest| ensures PairAt(rest, i) {
      assert PairAt(m, i + 1);
    }
  }

  lemma AboveMore(done: TextMap, m: TextMap)
    requires m != [] && PairsOk(m) && Above(done, m[0].0)
    ensures |m| > 1 ==> Above(done + [m[0]], m[1..][0].0)
  {
    var more := done + [m[0]];
    assert PairAt(m, 0);
    if |m| > 1 {
      forall i | 0 <= i < |more| ensures Less(more[i].0, m[1].0) {
        if i < |done| {
          LessTrans(done[i].0, m[0].0, m[1].0);
        }
      }
    }
  }

  lemma PairsAreOk(m: TextMap)
    requires MapOk(m) && MapFits(m)
    ensures PairsOk(m)
  {
    forall i: nat | i < |m| ensures PairAt(m, i) {
      assert i + 1 < |m| ==> Less(m[i].0, m[i + 1].0);
    }
  }

  // ------------------------------------------------------------------ rows

  predicate RowFits(r: WalRow) {
    U32(|r.stream|) && U32(|r.row|)
  }

  lemma ReadOneRow(b: Bytes, at: nat, r: WalRow)
    requires Has(b, at, PutRow(r)) && RowOk(r) && RowFits(r)
    ensures ReadRow(b, at) == Got(r, at + |PutRow(r)|)
  {
    var x, y, z := PutBytes(r.stream), PutI64(r.ts), PutI64(r.wallOffset);
    HasSplit(b, at, x, y + (z + PutBytes(r.row)));
    HasSplit(b, at + |x|, y, z + PutBytes(r.row));
    HasSplit(b, at + |x| + 8, z, PutBytes(r.row));
    ReadString(b, at, r.stream);
    ReadSigned(b, at + |x|, r.ts);
    ReadSigned(b, at + |x| + 8, r.wallOffset);
    ReadBytesBack(b, at + |x| + 16, r.row);
  }

  ghost predicate RowsOk(rows: seq<WalRow>) {
    forall i: nat :: i < |rows| ==> RowAt(rows, i)
  }

  ghost predicate RowAt(rows: seq<WalRow>, i: nat)
    requires i < |rows|
  {
    RowOk(rows[i]) && RowFits(rows[i])
  }

  lemma RowsTail(rows: seq<WalRow>)
    requires RowsOk(rows) && rows != []
    ensures RowsOk(rows[1..])
  {
    var rest := rows[1..];
    forall i: nat | i < |rest| ensures RowAt(rest, i) {
      assert RowAt(rows, i + 1);
    }
  }

  ghost predicate RowsRead(b: Bytes, at: nat, n: nat, done: seq<WalRow>, rows: seq<WalRow>, end: nat) {
    forall k: nat :: RowsReadTo(b, at, n, done, rows, end, k)
  }

  ghost predicate RowsReadTo(b: Bytes, at: nat, n: nat, done: seq<WalRow>, rows: seq<WalRow>, end: nat, k: nat) {
    k == n ==> ReadRows(b, at, n, done) == Got(rows, end)
  }

  lemma ReadNextRow(b: Bytes, at: nat, n: nat, done: seq<WalRow>, r: WalRow, next: nat, rows: seq<WalRow>, end: nat)
    requires ReadRow(b, at) == Got(r, next) && RowsRead(b, next, n, done + [r], rows, end)
    ensures RowsRead(b, at, n + 1, done, rows, end)
  {
    assert RowsReadTo(b, next, n, done + [r], rows, end, n);
  }

  lemma {:induction false} ReadAllRows(b: Bytes, at: nat, done: seq<WalRow>, rows: seq<WalRow>, all: seq<WalRow>, end: nat)
    requires Has(b, at, PutRows(rows)) && RowsOk(rows) && all == done + rows && end == at + |PutRows(rows)|
    ensures RowsRead(b, at, |rows|, done, all, end)
    decreases |rows|
  {
    if rows == [] {
      assert all == done;
    } else {
      var r, rest := rows[0], rows[1..];
      var next := at + |PutRow(r)|;
      assert RowAt(rows, 0);
      HasSplit(b, at, PutRow(r), PutRows(rest));
      ReadOneRow(b, at, r);
      RowsTail(rows);
      assert done + [r] + rest == all;
      ReadAllRows(b, next, done + [r], rest, all, end);
      ReadNextRow(b, at, |rest|, done, r, next, all, end);
    }
  }

  // ------------------------------------------------------------------ frames

  lemma {:induction false} PairsSize(m: TextMap, i: nat)
    requires i < |m|
    ensures |PutPairs(m)| >= |m[i].0| + |m[i].1|
    decreases i
  {
    if i > 0 {
      PairsSize(m[1..], i - 1);
    }
  }

  lemma {:induction false} PairsCount(m: TextMap)
    ensures |PutPairs(m)| >= |m|
  {
    if m != [] {
      PairsCount(m[1..]);
    }
  }

  lemma MapSize(m: TextMap)
    requires |PutPairs(m)| <= MAX_FRAME_BYTES
    ensures MapFits(m)
  {
    PairsCount(m);
    forall i | 0 <= i < |m| ensures U32(|m[i].0|) && U32(|m[i].1|) {
      PairsSize(m, i);
    }
  }

  lemma {:induction false} RowsSize(rows: seq<WalRow>, i: nat)
    requires i < |rows|
    ensures |PutRows(rows)| >= |rows[i].stream| + |rows[i].row|
    decreases i
  {
    if i > 0 {
      RowsSize(rows[1..], i - 1);
    }
  }

  lemma {:induction false} RowsCount(rows: seq<WalRow>)
    ensures |PutRows(rows)| >= |rows|
  {
    if rows != [] {
      RowsCount(rows[1..]);
    }
  }

  lemma RowsFit(rows: seq<WalRow>)
    requires |PutRows(rows)| <= MAX_FRAME_BYTES && forall i :: 0 <= i < |rows| ==> RowOk(rows[i])
    ensures U32(|rows|) && RowsOk(rows)
  {
    RowsCount(rows);
    forall i: nat | i < |rows| ensures RowAt(rows, i) {
      RowsSize(rows, i);
    }
  }

  /** Reading the field's slot at `at` gives the field, and what follows it starts at `next`. */
  ghost predicate Reads(b: Bytes, at: nat, f: Field, next: nat) {
    forall k: nat :: ReadsTo(b, at, f, next, k)
  }

  ghost predicate ReadsTo(b: Bytes, at: nat, f: Field, next: nat, k: nat) {
    k == next ==> ReadField(b, at, SlotOf(f)) == Got(f, next)
  }

  lemma U32Back(b: Bytes, at: nat, v: nat)
    requires Has(b, at, Le(v, 4)) && U32(v)
    ensures Reads(b, at, U32Field(v), at + 4)
  {
    Read32(b, at, v);
  }

  lemma ReadEntriesAfresh(b: Bytes, at: nat, m: TextMap, end: nat)
    requires Has(b, at, PutPairs(m)) && PairsOk(m) && end == at + |PutPairs(m)|
    ensures PairsRead(b, at, |m|, [], m, end)
  {
    assert [] + m == m;
    ReadEntries(b, at, [], m, m, end);
  }

  lemma ReadRowsAfresh(b: Bytes, at: nat, rows: seq<WalRow>, end: nat)
    requires Has(b, at, PutRows(rows)) && RowsOk(rows) && end == at + |PutRows(rows)|
    ensures RowsRead(b, at, |rows|, [], rows, end)
  {
    assert [] + rows == rows;
    ReadAllRows(b, at, [], rows, rows, end);
  }

  lemma MapFrom(b: Bytes, at: nat, m: TextMap, end: nat)
    requires Reads(b, at, U32Field(|m|), at + 4) && PairsRead(b, at + 4, |m|, [], m, end)
    ensures Reads(b, at, MapField(m), end)
  {
    assert ReadsTo(b, at, U32Field(|m|), at + 4, at + 4);
    assert PairsReadTo(b, at + 4, |m|, [], m, end, |m|);
  }

  lemma MapBack(b: Bytes, at: nat, m: TextMap, end: nat)
    requires Has(b, at, Le(|m|, 4) + PutPairs(m)) && MapOk(m) && |PutPairs(m)| <= MAX_FRAME_BYTES
    requires end == at + 4 + |PutPairs(m)|
    ensures Reads(b, at, MapField(m), end)
  {
    MapSize(m);
    HasSplit(b, at, Le(|m|, 4), PutPairs(m));
    U32Back(b, at, |m|);
    PairsAreOk(m);
    ReadEntriesAfresh(b, at + 4, m, end);
    MapFrom(b, at, m, end);
  }

  lemma RowsFrom(b: Bytes, at: nat, rows: seq<WalRow>, end: nat)
    requires Reads(b, at, U32Field(|rows|), at + 4) && RowsRead(b, at + 4, |rows|, [], rows, end)
    ensures Reads(b, at, RowsField(rows), end)
  {
    assert ReadsTo(b, at, U32Field(|rows|), at + 4, at + 4);
    assert RowsReadTo(b, at + 4, |rows|, [], rows, end, |rows|);
  }

  lemma RowsBack(b: Bytes, at: nat, rows: seq<WalRow>, end: nat)
    requires Has(b, at, Le(|rows|, 4) + PutRows(rows)) && |PutRows(rows)| <= MAX_FRAME_BYTES
    requires end == at + 4 + |PutRows(rows)|
    requires forall i :: 0 <= i < |rows| ==> RowOk(rows[i])
    ensures Reads(b, at, RowsField(rows), end)
  {
    RowsFit(rows);
    HasSplit(b, at, Le(|rows|, 4), PutRows(rows));
    U32Back(b, at, |rows|);
    ReadRowsAfresh(b, at + 4, rows, end);
    RowsFrom(b, at, rows, end);
  }

  lemma U64Back(b: Bytes, at: nat, v: nat)
    requires Has(b, at, Le(v, 8)) && U64(v)
    ensures Reads(b, at, U64Field(v), at + 8)
  {
    Read64(b, at, v);
  }

  lemma I64Back(b: Bytes, at: nat, v: int)
    requires Has(b, at, PutI64(v)) && I64(v)
    ensures Reads(b, at, I64Field(v), at + 8)
  {
    ReadSigned(b, at, v);
  }

  lemma TextBack(b: Bytes, at: nat, v: Text)
    requires Has(b, at, PutBytes(v)) && U32(|v|) && Utf8(v)
    ensures Reads(b, at, TextField(v), at + 4 + |v|)
  {
    ReadString(b, at, v);
  }

  lemma BytesBack(b: Bytes, at: nat, v: Bytes)
    requires Has(b, at, PutBytes(v)) && U32(|v|)
    ensures Reads(b, at, BytesField(v), at + 4 + |v|)
  {
    ReadBytesBack(b, at, v);
  }

  lemma OptBack(b: Bytes, at: nat, v: Option<Bytes>, end: nat)
    requires Has(b, at, PutOpt(v)) && (v.Some? ==> U32(|v.value|)) && end == at + |PutOpt(v)|
    ensures Reads(b, at, OptField(v), end)
    ensures (v.Some? ==> Utf8(v.value)) ==> Reads(b, at, OptTextField(v), end)
  {
    ReadOption(b, at, v);
  }

  lemma BoolBack(b: Bytes, at: nat, v: bool)
    requires Has(b, at, PutBool(v))
    ensures Reads(b, at, BoolField(v), at + 1)
  {
    ReadFlag(b, at, v);
  }

  /** Each field reads back, and ends where its bytes end. */
  lemma FieldBack(b: Bytes, at: nat, f: Field, end: nat)
    requires Has(b, at, PutField(f)) && FieldOk(f) && |PutField(f)| <= MAX_FRAME_BYTES && end == at + |PutField(f)|
    ensures Reads(b, at, f, end)
  {
    match f
    case U32Field(v) => U32Back(b, at, v);
    case U64Field(v) => U64Back(b, at, v);
    case I64Field(v) => I64Back(b, at, v);
    case TextField(v) => TextBack(b, at, v);
    case BytesField(v) => BytesBack(b, at, v);
    case MapField(m) => MapBack(b, at, m, end);
    case RowsField(rows) => RowsBack(b, at, rows, end);
    case OptField(v) => OptBack(b, at, v, end);
    case OptTextField(v) => OptBack(b, at, v, end);
    case BoolField(v) => BoolBack(b, at, v);
  }

  ghost predicate AllRead(b: Bytes, at: nat, fs: seq<Field>, end: nat) {
    forall k: nat :: AllReadTo(b, at, fs, end, k)
  }

  ghost predicate AllReadTo(b: Bytes, at: nat, fs: seq<Field>, end: nat, k: nat) {
    k == end ==> ReadFields(b, at, SlotsOf(fs)) == Got(fs, end)
  }

  lemma FieldsStep(b: Bytes, at: nat, f: Field, rest: seq<Field>, fs: seq<Field>, next: nat, end: nat)
    requires Reads(b, at, f, next) && AllRead(b, next, rest, end) && fs == [f] + rest
    ensures AllRead(b, at, fs, end)
  {
    assert ReadsTo(b, at, f, next, next) && AllReadTo(b, next, rest, end, end);
    assert SlotsOf(fs)[0] == SlotOf(f) && SlotsOf(fs)[1..] == SlotsOf(rest);
  }

  lemma {:induction false} FieldsBack(b: Bytes, at: nat, fs: seq<Field>, end: nat)
    requires Has(b, at, PutFields(fs)) && FieldsOk(fs) && |PutFields(fs)| <= MAX_FRAME_BYTES
    requires end == at + |PutFields(fs)|
    ensures AllRead(b, at, fs, end)
    decreases |fs|
  {
    if fs != [] {
      var f, rest := fs[0], fs[1..];
      var next := at + |PutField(f)|;
      assert FieldAt(fs, 0);
      HasSplit(b, at, PutField(f), PutFields(rest));
      FieldBack(b, at, f, next);
      FieldsTail(fs);
      FieldsBack(b, next, rest, end);
      assert [f] + rest == fs;
      FieldsStep(b, at, f, rest, fs, next, end);
    }
  }

  lemma FieldsTail(fs: seq<Field>)
    requires FieldsOk(fs) && fs != []
    ensures FieldsOk(fs[1..])
  {
    var rest := fs[1..];
    forall i: nat | i < |rest| ensures FieldAt(rest, i) {
      assert FieldAt(fs, i + 1);
    }
  }

  /** The layout is the frame's own, and its fields spell it. */
  lemma LayoutIs(f: WireFrame)
    ensures SlotsOf(FieldsOf(f)) == Layout(KindOf(f))
    ensures FrameOf(KindOf(f), FieldsOf(f)) == f
  {
    match f
    case Handshake(_, _, _, _, _, _) =>
    case Index(_, _, _, _, _, _) =>
    case Rows(_, _, _, _) =>
    case SegmentOf(_, _, _, _, _) =>
    case ClockOffset(_, _, _) =>
    case SourceUpdate(_, _, _, _) =>
  }

  /** For every frame within the size limit, decoding its encoding returns the frame. */
  lemma RoundTrip(f: WireFrame)
    requires FrameOk(f) && |Body(f)| <= MAX_FRAME_BYTES
    ensures Decode(Body(f)) == Ok(Some(f))
  {
    var b, fs := Body(f), FieldsOf(f);
    assert b[1..] == PutFields(fs);
    HasRest(b);
    FieldsBack(b, 1, fs, |b|);
    LayoutIs(f);
    assert AllReadTo(b, 1, fs, |b|, |b|);
  }

  lemma HasRest(b: Bytes)
    requires b != []
    ensures Has(b, 1, b[1..])
  {}
}
