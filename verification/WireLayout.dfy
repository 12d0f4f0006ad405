/** The bytes of a frame, field by field, as WIRE.md lays them out (sections 2 to 4). */
module WireLayout {
  import opened Types
  import opened Frames
  import opened Wire

  /** Byte `k` of an integer is its `k`th digit in base 256: least significant first. */
  lemma {:induction false} DigitAt(v: nat, n: nat, k: nat)
    requires k < n
    ensures Le(v, n)[k] == v / Pow256(k) % 256
  {
    if k > 0 {
      DigitAt(v / 256, n - 1, k - 1);
      Quotients(v, Pow256(k - 1));
    }
  }

  lemma Quotients(v: nat, p: nat)
    requires p > 0
    ensures v / 256 / p == v / (256 * p)
  {
    var q, r := v / 256 / p, v / 256 % p;
    var s := v % 256;
    assert v == 256 * (p * q + r) + s;
    assert v == (256 * p) * q + (256 * r + s);
    assert 256 * r + s < 256 * p;
    QuotientIs(v, 256 * p, q, 256 * r + s);
  }

  lemma QuotientIs(v: nat, d: nat, q: nat, r: nat)
    requires v == d * q + r && r < d
    ensures v / d == q
  {
    var p := v / d;
    assert v == d * p + v % d && v % d < d;
    if p < q {
      Grows(d, p + 1, q);
    } else if p > q {
      Grows(d, q + 1, p);
    }
  }

  lemma Grows(d: nat, a: nat, b: nat)
    requires a <= b
    ensures d * a <= d * b && d * a == d * (a - 1) + d
  {}

  // ------------------------------------------------------------------ fields

  /** A length, then the bytes. */
  function Sized(v: Bytes): Bytes {
    Le(|v|, 4) + v
  }

  function Inverted(b: Bytes): Bytes {
    seq(|b|, i requires 0 <= i < |b| => 255 - b[i])
  }

  /** A signed integer in 64 bits, two's complement: below zero, the inverted bits of `-v - 1`. */
  function Signed(v: int): Bytes {
    if v >= 0 then Le(v, 8) else Inverted(Le(-v - 1, 8))
  }

  lemma {:induction false} InvertedIs(v: nat, n: nat, w: nat)
    requires v + w == Pow256(n) - 1
    ensures Inverted(Le(v, n)) == Le(w, n)
  {
    if n > 0 {
      assert v % 256 + w % 256 == 255 && v / 256 + w / 256 == Pow256(n - 1) - 1;
      InvertedIs(v / 256, n - 1, w / 256);
      var a, b := Inverted(Le(v, n)), Le(w, n);
      assert a[0] == b[0];
      assert a[1..] == Inverted(Le(v / 256, n - 1));
      assert a == [a[0]] + a[1..] && b == [b[0]] + Le(w / 256, n - 1);
    }
  }

  /** A presence byte, and the bytes where there are any. */
  function Opt(v: Option<Bytes>): Bytes {
    if v.None? then [0] else [1] + Sized(v.value)
  }

  function Joined(parts: seq<Bytes>): Bytes {
    if parts == [] then [] else parts[0] + Joined(parts[1..])
  }

  function Pairs(m: TextMap): seq<Bytes> {
    if m == [] then [] else [Sized(m[0].0), Sized(m[0].1)] + Pairs(m[1..])
  }

  /** A count, then each entry's key and value, in key order. */
  function Entries(m: TextMap): Bytes {
    Le(|m|, 4) + Joined(Pairs(m))
  }

  /** A row: its stream, its time, its clock offset and the caller's bytes. */
  function RowBytes(r: WalRow): Bytes {
    Joined([Sized(r.stream), Signed(r.ts), Signed(r.wallOffset), Sized(r.row)])
  }

  function AllRows(rows: seq<WalRow>): Bytes {
    if rows == [] then [] else RowBytes(rows[0]) + AllRows(rows[1..])
  }

  lemma JoinedMore(p: Bytes, rest: seq<Bytes>)
    ensures Joined([p] + rest) == p + Joined(rest)
  {
    assert ([p] + rest)[1..] == rest;
  }

  lemma {:induction false} PairsLaid(m: TextMap)
    ensures PutPairs(m) == Joined(Pairs(m))
  {
    if m != [] {
      PairsLaid(m[1..]);
      JoinedMore(Sized(m[0].0), [Sized(m[0].1)] + Pairs(m[1..]));
      JoinedMore(Sized(m[0].1), Pairs(m[1..]));
      assert Pairs(m) == [Sized(m[0].0)] + ([Sized(m[0].1)] + Pairs(m[1..]));
    }
  }

  lemma SignedLaid(v: int)
    requires I64(v)
    ensures PutI64(v) == Signed(v)
  {
    if v < 0 {
      assert Pow256(8) == TWO64;
      InvertedIs(-v - 1, 8, v + TWO64);
      assert v % TWO64 == v + TWO64;
    } else {
      assert v % TWO64 == v;
    }
  }

  lemma JoinedFour(a: Bytes, b: Bytes, c: Bytes, d: Bytes)
    ensures Joined([a, b, c, d]) == a + (b + (c + d))
  {
    JoinedMore(a, [b, c, d]);
    JoinedMore(b, [c, d]);
    JoinedMore(c, [d]);
    JoinedMore(d, []);
    assert [a, b, c, d] == [a] + [b, c, d] && [b, c, d] == [b] + [c, d] && [c, d] == [c] + [d] && [d] == [d] + [];
    assert d + [] == d;
  }

  lemma {:induction false} RowsLaid(rows: seq<WalRow>)
    requires forall i :: 0 <= i < |rows| ==> RowOk(rows[i])
    ensures PutRows(rows) == AllRows(rows)
  {
    if rows != [] {
      var r := rows[0];
      RowsLaid(rows[1..]);
      SignedLaid(r.ts);
      SignedLaid(r.wallOffset);
      JoinedFour(Sized(r.stream), Signed(r.ts), Signed(r.wallOffset), Sized(r.row));
    }
  }

  // ------------------------------------------------------------------ maps read back

  /** What the map has under a key. */
  function Under(m: TextMap, k: Text): Option<Text> {
    if m == [] then None else if m[0].0 == k then Some(m[0].1) else Under(m[1..], k)
  }

  lemma {:induction false} NothingUnder(m: TextMap, k: Text)
    requires KeyOrder(m) && (m != [] ==> Less(k, m[0].0))
    ensures Under(m, k) == None
  {
    if m != [] {
      LessIrreflexive(k);
      if |m| > 1 {
        LessTrans(k, m[0].0, m[1].0);
      }
      NothingUnder(m[1..], k);
    }
  }

  /**
   * Reading an entry into a map sets its key and no other, and keeps the keys in order: whatever
   * order a frame lists a map in, and however often a key, its last value counts.
   */
  lemma {:induction false} PutSets(m: TextMap, k: Text, v: Text, other: Text)
    requires KeyOrder(m)
    ensures KeyOrder(Wire.Put(m, k, v))
    ensures Wire.Put(m, k, v) != [] && (Wire.Put(m, k, v)[0].0 == k || (m != [] && Wire.Put(m, k, v)[0].0 == m[0].0))
    ensures Under(Wire.Put(m, k, v), other) == if other == k then Some(v) else Under(m, other)
  {
    if m == [] || Less(k, m[0].0) {
      PutFirst(m, k, v);
      NothingUnder(m, k);
      assert ([(k, v)] + m)[1..] == m;
    } else if m[0].0 == k {
      var p := [(k, v)] + m[1..];
      forall i, j | 0 <= i < j < |p| ensures Less(p[i].0, p[j].0) {
        assert Less(m[i].0, m[j].0);
      }
      assert p[1..] == m[1..];
    } else {
      LessTotal(k, m[0].0);
      PutSets(m[1..], k, v, other);
      var q := Wire.Put(m[1..], k, v);
      var p := [m[0]] + q;
      PutFirst(q, m[0].0, m[0].1);
      assert p[1..] == q;
    }
  }

  lemma PutFirst(m: TextMap, k: Text, v: Text)
    requires KeyOrder(m) && (m != [] ==> Less(k, m[0].0))
    ensures KeyOrder([(k, v)] + m)
  {
    var p := [(k, v)] + m;
    forall i, j | 0 <= i < j < |p| ensures Less(p[i].0, p[j].0) {
      if i == 0 && j > 1 {
        LessTrans(k, m[0].0, m[j - 1].0);
      }
    }
  }

  // ------------------------------------------------------------------ frames

  /** What a field is on the wire. */
  function Laid(f: Field): Bytes {
    match f
    case U32Field(v) => Le(v, 4)
    case U64Field(v) => Le(v, 8)
    case I64Field(v) => Signed(v)
    case TextField(v) => Sized(v)
    case BytesField(v) => Sized(v)
    case OptField(v) => Opt(v)
    case OptTextField(v) => Opt(v)
    case MapField(m) => Entries(m)
    case BoolField(v) => [if v then 1 else 0]
    case RowsField(rows) => Le(|rows|, 4) + AllRows(rows)
  }

  lemma FieldLaid(f: Field)
    requires FieldOk(f)
    ensures PutField(f) == Laid(f)
  {
    match f {
      case MapField(m) => PairsLaid(m);
      case RowsField(rows) => RowsLaid(rows);
      case I64Field(v) => SignedLaid(v);
      case _ =>
    }
  }

  /** The kind byte and the fields of each frame, in order. */
  function Table(f: WireFrame): (Byte, seq<Bytes>) {
    match f
    case Handshake(source, uuid, labels, metadata, anchor, complete) =>
      (1, [Le(source, 4), Opt(uuid), Entries(labels), Entries(metadata), Signed(anchor), [if complete then 1 else 0]])
    case Index(source, stream, ts, kind, state, blob) =>
      (2, [Le(source, 4), Sized(stream), Signed(ts), [if kind.Full? then 0 else 1], Le(state.0, 8), Le(state.1, 8), Sized(blob)])
    case Rows(source, number, state, rows) =>
      (3, [Le(source, 4), Le(number, 8), Le(state.0, 8), Le(state.1, 8), Le(|rows|, 4) + AllRows(rows)])
    case SegmentOf(source, stream, meta, body, index) =>
      (4, [Le(source, 4), Sized(stream), Le(meta.rows, 8), Signed(meta.first), Signed(meta.last), Sized(body), Opt(index)])
    case ClockOffset(source, ts, offset) => (5, [Le(source, 4), Signed(ts), Signed(offset)])
    case SourceUpdate(source, ts, labels, metadata) => (6, [Le(source, 4), Signed(ts), Entries(labels), Entries(metadata)])
  }

  ghost predicate LaidOut(fs: seq<Field>, parts: seq<Bytes>) {
    |fs| == |parts| && forall i: nat :: i < |fs| ==> LaidAt(fs, parts, i)
  }

  ghost predicate LaidAt(fs: seq<Field>, parts: seq<Bytes>, i: nat)
    requires i < |fs| == |parts|
  {
    Laid(fs[i]) == parts[i]
  }

  lemma {:induction false} FieldsLaid(fs: seq<Field>, parts: seq<Bytes>)
    requires FieldsOk(fs) && LaidOut(fs, parts)
    ensures PutFields(fs) == Joined(parts)
  {
    if fs != [] {
      assert FieldAt(fs, 0) && LaidAt(fs, parts, 0);
      FieldLaid(fs[0]);
      forall i: nat | i < |fs| - 1 ensures FieldAt(fs[1..], i) && LaidAt(fs[1..], parts[1..], i) {
        assert FieldAt(fs, i + 1) && LaidAt(fs, parts, i + 1);
      }
      FieldsLaid(fs[1..], parts[1..]);
    }
  }

  /**
   * On the wire a frame is four bytes of payload length, least significant first, then its kind
   * byte and its fields as the table of its kind lists them.
   */
  lemma FrameLaid(f: WireFrame, k: nat)
    requires FrameOk(f) && k < 4
    ensures Framed(Body(f))[4..] == [Table(f).0] + Joined(Table(f).1)
    ensures Framed(Body(f))[k] == |[Table(f).0] + Joined(Table(f).1)| / Pow256(k) % 256
  {
    TableLaid(f);
    FieldsLaid(FieldsOf(f), Table(f).1);
    Prefixed(Body(f), k);
  }

  lemma TableLaid(f: WireFrame)
    ensures KindOf(f) == Table(f).0 && LaidOut(FieldsOf(f), Table(f).1)
  {
    match f {
      case Handshake(_, _, _, _, _, _) => HandshakeLaid(f, FieldsOf(f), Table(f).1);
      case Index(_, _, _, _, _, _) => IndexLaid(f, FieldsOf(f), Table(f).1);
      case SegmentOf(_, _, _, _, _) => SegmentLaid(f, FieldsOf(f), Table(f).1);
      case _ => OthersLaid(f, FieldsOf(f), Table(f).1);
    }
  }

  lemma HandshakeLaid(f: WireFrame, fs: seq<Field>, parts: seq<Bytes>)
    requires f.Handshake? && fs == FieldsOf(f) && parts == Table(f).1
    ensures LaidOut(fs, parts)
  {
    Six(fs, parts);
  }

  lemma IndexLaid(f: WireFrame, fs: seq<Field>, parts: seq<Bytes>)
    requires f.Index? && fs == FieldsOf(f) && parts == Table(f).1
    ensures LaidOut(fs, parts)
  {
    Seven(fs, parts);
  }

  lemma SegmentLaid(f: WireFrame, fs: seq<Field>, parts: seq<Bytes>)
    requires f.SegmentOf? && fs == FieldsOf(f) && parts == Table(f).1
    ensures LaidOut(fs, parts)
  {
    Seven(fs, parts);
  }

  lemma OthersLaid(f: WireFrame, fs: seq<Field>, parts: seq<Bytes>)
    requires f.Rows? || f.ClockOffset? || f.SourceUpdate?
    requires fs == FieldsOf(f) && parts == Table(f).1
    ensures LaidOut(fs, parts)
  {
    forall i: nat | i < |fs| ensures LaidAt(fs, parts, i) {}
  }

  lemma Six(fs: seq<Field>, parts: seq<Bytes>)
    requires |fs| == |parts| == 6
    requires Laid(fs[0]) == parts[0] && Laid(fs[1]) == parts[1] && Laid(fs[2]) == parts[2] && Laid(fs[3]) == parts[3]
    requires Laid(fs[4]) == parts[4] && Laid(fs[5]) == parts[5]
    ensures LaidOut(fs, parts)
  {}

  lemma Seven(fs: seq<Field>, parts: seq<Bytes>)
    requires |fs| == |parts| == 7
    requires Laid(fs[0]) == parts[0] && Laid(fs[1]) == parts[1] && Laid(fs[2]) == parts[2] && Laid(fs[3]) == parts[3]
    requires Laid(fs[4]) == parts[4] && Laid(fs[5]) == parts[5] && Laid(fs[6]) == parts[6]
    ensures LaidOut(fs, parts)
  {}

  lemma Prefixed(body: Bytes, k: nat)
    requires k < 4
    ensures Framed(body)[4..] == body && Framed(body)[k] == |body| / Pow256(k) % 256
  {
    DigitAt(|body|, 4, k);
  }
}
