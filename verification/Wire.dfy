/** The frame codec (src/replicate/wire.rs): layout, parser, and that they are inverse. */
module Wire {
  import opened Types
  import opened Frames

  type Bytes = seq<Byte>

  type WireFrame = Frame<Bytes>

  const MAX_FRAME_BYTES: nat := 64 * 1024 * 1024

  const MAGIC: Bytes := [100, 101, 110, 100, 114, 111, 45, 114, 101, 112, 108, 0]

  const PROTOCOL_VERSION: nat := 1

  // ------------------------------------------------------------------ layout

  /** Two's complement in 64 bits. */
  function PutI64(v: int): Bytes {
    Le(v % TWO64, 8)
  }

  function PutBytes(v: Bytes): Bytes {
    Le(|v|, 4) + v
  }

  function PutPairs(m: TextMap): Bytes {
    if m == [] then [] else PutBytes(m[0].0) + (PutBytes(m[0].1) + PutPairs(m[1..]))
  }

  function PutOpt(v: Option<Bytes>): Bytes {
    match v
    case None => [0]
    case Some(b) => [1] + PutBytes(b)
  }

  function PutBool(v: bool): Bytes {
    [if v then 1 else 0]
  }

  function PutRow(r: WalRow): Bytes {
    PutBytes(r.stream) + (PutI64(r.ts) + (PutI64(r.wallOffset) + PutBytes(r.row)))
  }

  function PutRows(rows: seq<WalRow>): Bytes {
    if rows == [] then [] else PutRow(rows[0]) + PutRows(rows[1..])
  }

  /** One field of a frame. */
  datatype Field =
    | U32Field(u32: nat)
    | U64Field(u64: nat)
    | I64Field(i64: int)
    | TextField(text: Text)
    | BytesField(bytes: Bytes)
    | OptField(opt: Option<Bytes>)
    | OptTextField(optText: Option<Text>)
    | MapField(entries: TextMap)
    | BoolField(flag: bool)
    | RowsField(rows: seq<WalRow>)

  function PutField(f: Field): Bytes {
    match f
    case U32Field(v) => Le(v, 4)
    case U64Field(v) => Le(v, 8)
    case I64Field(v) => PutI64(v)
    case TextField(v) => PutBytes(v)
    case BytesField(v) => PutBytes(v)
    case OptField(v) => PutOpt(v)
    case OptTextField(v) => PutOpt(v)
    case MapField(m) => Le(|m|, 4) + PutPairs(m)
    case BoolField(v) => PutBool(v)
    case RowsField(rows) => Le(|rows|, 4) + PutRows(rows)
  }

  function PutFields(fs: seq<Field>): Bytes {
    if fs == [] then [] else PutField(fs[0]) + PutFields(fs[1..])
  }

  /** A frame's kind byte. */
  function KindOf(f: WireFrame): Byte {
    match f
    case Handshake(_, _, _, _, _, _) => 1
    case Index(_, _, _, _, _, _) => 2
    case Rows(_, _, _, _) => 3
    case SegmentOf(_, _, _, _, _) => 4
    case ClockOffset(_, _, _) => 5
    case SourceUpdate(_, _, _, _) => 6
  }

  /** A frame's fields, in the order they are written. */
  function FieldsOf(f: WireFrame): seq<Field> {
    match f
    case Handshake(source, uuid, labels, metadata, anchor, complete) =>
      [U32Field(source), OptTextField(uuid), MapField(labels), MapField(metadata), I64Field(anchor), BoolField(complete)]
    case Index(source, stream, ts, kind, state, blob) =>
      [U32Field(source), TextField(stream), I64Field(ts), BoolField(kind.Delta?), U64Field(state.0), U64Field(state.1), BytesField(blob)]
    case Rows(source, number, state, rows) =>
      [U32Field(source), U64Field(number), U64Field(state.0), U64Field(state.1), RowsField(rows)]
    case SegmentOf(source, stream, meta, body, index) =>
      [U32Field(source), TextField(stream), U64Field(meta.rows), I64Field(meta.first), I64Field(meta.last), BytesField(body), OptField(index)]
    case ClockOffset(source, ts, offset) => [U32Field(source), I64Field(ts), I64Field(offset)]
    case SourceUpdate(source, ts, labels, metadata) => [U32Field(source), I64Field(ts), MapField(labels), MapField(metadata)]
  }

  /** A frame's payload: its kind byte and its fields. */
  function Body(f: WireFrame): Bytes {
    [KindOf(f)] + PutFields(FieldsOf(f))
  }

  /** A whole frame: the payload's length, then the payload. */
  function Framed(body: Bytes): Bytes {
    Le(|body|, 4) + body
  }

  // ------------------------------------------------------------------ the values a frame can hold

  /** RFC 3629: well-formed UTF-8, no surrogates, nothing past U+10FFFF. */
  predicate Utf8(s: Bytes) {
    Utf8From(s, 0)
  }

  predicate Tail(s: Bytes, at: nat) {
    at < |s| && 0x80 <= s[at] <= 0xBF
  }

  predicate Utf8From(s: Bytes, at: nat)
    decreases |s| - at
  {
    if at >= |s| then true
    else if s[at] < 0x80 then Utf8From(s, at + 1)
    else if 0xC2 <= s[at] <= 0xDF then Tail(s, at + 1) && Utf8From(s, at + 2)
    else if 0xE0 <= s[at] <= 0xEF then
      && Tail(s, at + 1) && Tail(s, at + 2)
      && (s[at] == 0xE0 ==> s[at + 1] >= 0xA0) && (s[at] == 0xED ==> s[at + 1] <= 0x9F)
      && Utf8From(s, at + 3)
    else if 0xF0 <= s[at] <= 0xF4 then
      && Tail(s, at + 1) && Tail(s, at + 2) && Tail(s, at + 3)
      && (s[at] == 0xF0 ==> s[at + 1] >= 0x90) && (s[at] == 0xF4 ==> s[at + 1] <= 0x8F)
      && Utf8From(s, at + 4)
    else false
  }

  predicate U32(v: nat) { v < 0x1_0000_0000 }

  predicate U64(v: nat) { v < TWO64 }

  predicate I64(v: int) { -0x8000_0000_0000_0000 <= v < 0x8000_0000_0000_0000 }

  /** A Rust `BTreeMap<String, String>`. */
  ghost predicate MapOk(m: TextMap) {
    KeyOrder(m) && forall i :: 0 <= i < |m| ==> Utf8(m[i].0) && Utf8(m[i].1)
  }

  predicate RowOk(r: WalRow) {
    Utf8(r.stream) && I64(r.ts) && I64(r.wallOffset)
  }

  /** The field is one the Rust types can hold. */
  ghost predicate FieldOk(f: Field) {
    match f
    case U32Field(v) => U32(v)
    case U64Field(v) => U64(v)
    case I64Field(v) => I64(v)
    case TextField(v) => Utf8(v)
    case BytesField(_) => true
    case OptField(_) => true
    case OptTextField(v) => v.Some? ==> Utf8(v.value)
    case MapField(m) => MapOk(m)
    case BoolField(_) => true
    case RowsField(rows) => forall i :: 0 <= i < |rows| ==> RowOk(rows[i])
  }

  ghost predicate FieldsOk(fs: seq<Field>) {
    forall i: nat :: i < |fs| ==> FieldAt(fs, i)
  }

  ghost predicate FieldAt(fs: seq<Field>, i: nat)
    requires i < |fs|
  {
    FieldOk(fs[i])
  }

  ghost predicate FrameOk(f: WireFrame) {
    FieldsOk(FieldsOf(f))
  }

  // ------------------------------------------------------------------ the parser

  /** What reading a field gives: its value and where the next one starts. */
  datatype Parsed<T> = Fail | Got(value: T, next: nat) {
    predicate IsFailure() { Fail? }

    function PropagateFailure<U>(): Parsed<U>
      requires Fail?
    {
      Fail
    }

    function Extract(): (T, nat)
      requires Got?
    {
      (value, next)
    }
  }

  function ReadByte(b: Bytes, at: nat): Parsed<Byte> {
    if at + 1 > |b| then Fail else Got(b[at], at + 1)
  }

  function LeValue(b: Bytes, at: nat, n: nat): nat
    requires at + n <= |b|
    decreases |b| - at
  {
    if n == 0 then 0 else b[at] + 256 * LeValue(b, at + 1, n - 1)
  }

  function ReadUint(b: Bytes, at: nat, n: nat): Parsed<nat> {
    if at + n > |b| then Fail else Got(LeValue(b, at, n), at + n)
  }

  function ReadI64(b: Bytes, at: nat): Parsed<int> {
    var u :- ReadUint(b, at, 8);
    Got(if u.0 < 0x8000_0000_0000_0000 then u.0 else u.0 - TWO64, u.1)
  }

  function ReadBytes(b: Bytes, at: nat): Parsed<Bytes> {
    var len :- ReadUint(b, at, 4);
    if len.1 + len.0 > |b| then Fail else Got(b[len.1..len.1 + len.0], len.1 + len.0)
  }

  function ReadText(b: Bytes, at: nat): Parsed<Text> {
    var raw :- ReadBytes(b, at);
    if Utf8(raw.0) then Got(raw.0, raw.1) else Fail
  }

  /** `BTreeMap::insert`. */
  function Put(m: TextMap, k: Text, v: Text): TextMap {
    if m == [] || Less(k, m[0].0) then [(k, v)] + m
    else if m[0].0 == k then [(k, v)] + m[1..]
    else [m[0]] + Put(m[1..], k, v)
  }

  function ReadPairs(b: Bytes, at: nat, n: nat, m: TextMap): Parsed<TextMap>
    decreases n
  {
    if n == 0 then Got(m, at) else
    var k :- ReadText(b, at);
    var v :- ReadText(b, k.1);
    ReadPairs(b, v.1, n - 1, Put(m, k.0, v.0))
  }

  function ReadMap(b: Bytes, at: nat): Parsed<TextMap> {
    var n :- ReadUint(b, at, 4);
    ReadPairs(b, n.1, n.0, [])
  }

  function ReadOpt(b: Bytes, at: nat): Parsed<Option<Bytes>> {
    var present :- ReadByte(b, at);
    if present.0 == 0 then Got(None, present.1)
    else if present.0 == 1 then
      var v :- ReadBytes(b, present.1);
      Got(Some(v.0), v.1)
    else Fail
  }

  function ReadOptText(b: Bytes, at: nat): Parsed<Option<Text>> {
    var v :- ReadOpt(b, at);
    if v.0.Some? && !Utf8(v.0.value) then Fail else Got(v.0, v.1)
  }

  function ReadBool(b: Bytes, at: nat): Parsed<bool> {
    var v :- ReadByte(b, at);
    if v.0 == 0 then Got(false, v.1) else if v.0 == 1 then Got(true, v.1) else Fail
  }

  function ReadRow(b: Bytes, at: nat): Parsed<WalRow> {
    var stream :- ReadText(b, at);
    var ts :- ReadI64(b, stream.1);
    var offset :- ReadI64(b, ts.1);
    var row :- ReadBytes(b, offset.1);
    Got(WalRow(stream.0, ts.0, offset.0, row.0), row.1)
  }

  function ReadRows(b: Bytes, at: nat, n: nat, rows: seq<WalRow>): Parsed<seq<WalRow>>
    decreases n
  {
    if n == 0 then Got(rows, at) else
    var r :- ReadRow(b, at);
    ReadRows(b, r.1, n - 1, rows + [r.0])
  }

  function ReadRowList(b: Bytes, at: nat): Parsed<seq<WalRow>> {
    var n :- ReadUint(b, at, 4);
    ReadRows(b, n.1, n.0, [])
  }

  /** What a frame's layout says stands next. */
  datatype Slot = AU32 | AU64 | AI64 | AText | SomeBytes | AnOpt | AnOptText | AMap | ABool | SomeRows

  function ReadField(b: Bytes, at: nat, slot: Slot): Parsed<Field> {
    match slot
    case AU32 => var v :- ReadUint(b, at, 4); Got(U32Field(v.0), v.1)
    case AU64 => var v :- ReadUint(b, at, 8); Got(U64Field(v.0), v.1)
    case AI64 => var v :- ReadI64(b, at); Got(I64Field(v.0), v.1)
    case AText => var v :- ReadText(b, at); Got(TextField(v.0), v.1)
    case SomeBytes => var v :- ReadBytes(b, at); Got(BytesField(v.0), v.1)
    case AnOpt => var v :- ReadOpt(b, at); Got(OptField(v.0), v.1)
    case AnOptText => var v :- ReadOptText(b, at); Got(OptTextField(v.0), v.1)
    case AMap => var v :- ReadMap(b, at); Got(MapField(v.0), v.1)
    case ABool => var v :- ReadBool(b, at); Got(BoolField(v.0), v.1)
    case SomeRows => var v :- ReadRowList(b, at); Got(RowsField(v.0), v.1)
  }

  function SlotOf(f: Field): Slot {
    match f
    case U32Field(_) => AU32
    case U64Field(_) => AU64
    case I64Field(_) => AI64
    case TextField(_) => AText
    case BytesField(_) => SomeBytes
    case OptField(_) => AnOpt
    case OptTextField(_) => AnOptText
    case MapField(_) => AMap
    case BoolField(_) => ABool
    case RowsField(_) => SomeRows
  }

  function SlotsOf(fs: seq<Field>): (r: seq<Slot>)
    ensures |r| == |fs| && forall i :: 0 <= i < |r| ==> r[i] == SlotOf(fs[i])
  {
    seq(|fs|, i requires 0 <= i < |fs| => SlotOf(fs[i]))
  }

  /** Field by field; the first that cannot be read fails the frame. */
  function ReadFields(b: Bytes, at: nat, slots: seq<Slot>): (r: Parsed<seq<Field>>)
    ensures r.Got? ==> |r.value| == |slots|
    decreases |slots|
  {
    if slots == [] then Got([], at) else
    var f :- ReadField(b, at, slots[0]);
    var rest :- ReadFields(b, f.1, slots[1..]);
    Got([f.0] + rest.0, rest.1)
  }

  /** The layout of each kind this build reads. */
  function Layout(kind: Byte): seq<Slot>
    requires 1 <= kind <= 6
  {
    if kind == 1 then [AU32, AnOptText, AMap, AMap, AI64, ABool]
    else if kind == 2 then [AU32, AText, AI64, ABool, AU64, AU64, SomeBytes]
    else if kind == 3 then [AU32, AU64, AU64, AU64, SomeRows]
    else if kind == 4 then [AU32, AText, AU64, AI64, AI64, SomeBytes, AnOpt]
    else if kind == 5 then [AU32, AI64, AI64]
    else [AU32, AI64, AMap, AMap]
  }

  function U32Of(f: Field): nat { if f.U32Field? then f.u32 else 0 }

  function U64Of(f: Field): nat { if f.U64Field? then f.u64 else 0 }

  function I64Of(f: Field): int { if f.I64Field? then f.i64 else 0 }

  function TextOf(f: Field): Text { if f.TextField? then f.text else [] }

  function BytesOf(f: Field): Bytes { if f.BytesField? then f.bytes else [] }

  function OptOf(f: Field): Option<Bytes> { if f.OptField? then f.opt else None }

  function OptTextOf(f: Field): Option<Text> { if f.OptTextField? then f.optText else None }

  function MapOf(f: Field): TextMap { if f.MapField? then f.entries else [] }

  function FlagOf(f: Field): bool { f.BoolField? && f.flag }

  function RowsOf(f: Field): seq<WalRow> { if f.RowsField? then f.rows else [] }

  /** The frame a kind's fields spell. */
  function FrameOf(kind: Byte, fs: seq<Field>): WireFrame
    requires 1 <= kind <= 6 && |fs| == |Layout(kind)|
  {
    if kind == 1 then
      Handshake(U32Of(fs[0]), OptTextOf(fs[1]), MapOf(fs[2]), MapOf(fs[3]), I64Of(fs[4]), FlagOf(fs[5]))
    else if kind == 2 then
      Index(U32Of(fs[0]), TextOf(fs[1]), I64Of(fs[2]), if FlagOf(fs[3]) then Delta else Full, (U64Of(fs[4]), U64Of(fs[5])), BytesOf(fs[6]))
    else if kind == 3 then
      Rows(U32Of(fs[0]), U64Of(fs[1]), (U64Of(fs[2]), U64Of(fs[3])), RowsOf(fs[4]))
    else if kind == 4 then
      SegmentOf(U32Of(fs[0]), TextOf(fs[1]), SegmentMeta(U64Of(fs[2]), I64Of(fs[3]), I64Of(fs[4])), BytesOf(fs[5]), OptOf(fs[6]))
    else if kind == 5 then
      ClockOffset(U32Of(fs[0]), I64Of(fs[1]), I64Of(fs[2]))
    else
      SourceUpdate(U32Of(fs[0]), I64Of(fs[1]), MapOf(fs[2]), MapOf(fs[3]))
  }

  /** `decode_known`: `None` for a kind this build does not read; every byte must be consumed. */
  function Decode(b: Bytes): Result<Option<WireFrame>> {
    if b == [] then Err
    else if !(1 <= b[0] <= 6) then Ok(None)
    else match ReadFields(b, 1, Layout(b[0]))
      case Fail => Err
      case Got(fs, next) => if next == |b| then Ok(Some(FrameOf(b[0], fs))) else Err
  }
}
