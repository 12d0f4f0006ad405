/** The codec in place: the buffer an encoder patches, the cursor, and the reader (src/replicate/wire.rs). */
module WireIo {
  import opened Types
  import opened Frames
  import opened Wire
  import opened WireRoundTrip
  import opened WireStream

  /** A field too long for its length prefix. */
  predicate FieldFits(f: Field) {
    match f
    case TextField(v) => U32(|v|)
    case BytesField(v) => U32(|v|)
    case OptField(v) => v.Some? ==> U32(|v.value|)
    case OptTextField(v) => v.Some? ==> U32(|v.value|)
    case MapField(m) => U32(|m|) && forall i :: 0 <= i < |m| ==> PairFits(m[i])
    case RowsField(rows) => U32(|rows|) && forall i :: 0 <= i < |rows| ==> RowFits(rows[i])
    case _ => true
  }

  predicate PairFits(p: (Text, Text)) {
    U32(|p.0|) && U32(|p.1|)
  }

  lemma FitsWithin(f: Field)
    requires |PutField(f)| <= MAX_FRAME_BYTES
    ensures FieldFits(f)
  {
    match f
    case MapField(m) => MapSize(m);
    case RowsField(rows) =>
      RowsCount(rows);
      forall i | 0 <= i < |rows| ensures RowFits(rows[i]) {
        RowsSize(rows, i);
      }
    case _ =>
  }

  lemma ChainFour(a: Bytes, w: Bytes, x: Bytes, y: Bytes, z: Bytes)
    ensures a + (w + (x + (y + z))) == a + w + x + y + z
  {}

  /** What is out, and what is still to come, make the whole. */
  ghost predicate Writes(out: Bytes, rest: Bytes, all: Bytes) {
    forall n: nat :: WritesTo(out, rest, all, n)
  }

  ghost predicate WritesTo(out: Bytes, rest: Bytes, all: Bytes, n: nat) {
    n == |out| ==> out + rest == all
  }

  lemma WritesAll(out: Bytes, all: Bytes)
    requires Writes(out, [], all)
    ensures out == all
  {
    assert WritesTo(out, [], all, |out|);
    assert out + [] == out;
  }

  lemma PairWritten(was: Bytes, m: TextMap, i: nat, out: Bytes, all: Bytes)
    requires i < |m| && Writes(was, PutPairs(m[i..]), all) && out == was + PutBytes(m[i].0) + PutBytes(m[i].1)
    ensures Writes(out, PutPairs(m[i + 1..]), all)
  {
    assert WritesTo(was, PutPairs(m[i..]), all, |was|);
    assert m[i..][0] == m[i] && m[i..][1..] == m[i + 1..];
    Assoc(was, PutBytes(m[i].0), PutBytes(m[i].1) + PutPairs(m[i + 1..]));
    Assoc(was + PutBytes(m[i].0), PutBytes(m[i].1), PutPairs(m[i + 1..]));
  }

  lemma RowWritten(was: Bytes, rows: seq<WalRow>, i: nat, out: Bytes, all: Bytes)
    requires i < |rows| && Writes(was, PutRows(rows[i..]), all) && out == was + PutRow(rows[i])
    ensures Writes(out, PutRows(rows[i + 1..]), all)
  {
    assert WritesTo(was, PutRows(rows[i..]), all, |was|);
    assert rows[i..][0] == rows[i] && rows[i..][1..] == rows[i + 1..];
    Assoc(was, PutRow(rows[i]), PutRows(rows[i + 1..]));
  }

  class Buffer {
    var out: Bytes

    constructor ()
      ensures out == []
    {
      out := [];
    }

    method PutLe(v: nat, n: nat)
      modifies this
      ensures out == old(out) + Le(v, n)
    {
      var rest: nat, left: nat := v, n;
      assert old(out) + [] == old(out);
      while left > 0
        invariant left <= n && out + Le(rest, left) == old(out) + Le(v, n)
      {
        Assoc(out, [rest % 256], Le(rest / 256, left - 1));
        out := out + [rest % 256];
        rest, left := rest / 256, left - 1;
      }
    }

    /** A `u32` length and the bytes, refused when the length does not fit. */
    method PutSized(v: Bytes) returns (ok: bool)
      modifies this
      ensures ok <==> U32(|v|)
      ensures out == if ok then old(out) + PutBytes(v) else old(out)
    {
      if |v| >= 0x1_0000_0000 {
        return false;
      }
      PutLe(|v|, 4);
      Assoc(old(out), Le(|v|, 4), v);
      out := out + v;
      ok := true;
    }

    method PutPair(p: (Text, Text)) returns (ok: bool)
      modifies this
      ensures ok <==> PairFits(p)
      ensures ok ==> out == old(out) + PutBytes(p.0) + PutBytes(p.1)
      ensures old(out) <= out
    {
      ok := PutSized(p.0);
      if ok {
        ok := PutSized(p.1);
      }
    }

    method PutMap(m: TextMap) returns (ok: bool)
      modifies this
      ensures ok <==> FieldFits(MapField(m))
      ensures ok ==> out == old(out) + PutField(MapField(m))
      ensures old(out) <= out
    {
      if |m| >= 0x1_0000_0000 {
        return false;
      }
      PutLe(|m|, 4);
      ghost var all := old(out) + PutField(MapField(m));
      assert m[0..] == m;
      Assoc(old(out), Le(|m|, 4), PutPairs(m));
      for i := 0 to |m|
        invariant forall j :: 0 <= j < i ==> PairFits(m[j])
        invariant Writes(out, PutPairs(m[i..]), all) && old(out) <= out
      {
        ghost var was := out;
        var one := PutPair(m[i]);
        if !one {
          return false;
        }
        PairWritten(was, m, i, out, all);
      }
      assert m[|m|..] == [];
      WritesAll(out, all);
      ok := true;
    }

    method PutRowBytes(r: WalRow) returns (ok: bool)
      modifies this
      ensures ok <==> RowFits(r)
      ensures ok ==> out == old(out) + PutRow(r)
      ensures old(out) <= out
    {
      ok := PutSized(r.stream);
      if !ok {
        return;
      }
      PutLe(r.ts % TWO64, 8);
      PutLe(r.wallOffset % TWO64, 8);
      ok := PutSized(r.row);
      ChainFour(old(out), PutBytes(r.stream), PutI64(r.ts), PutI64(r.wallOffset), PutBytes(r.row));
    }

    method PutRowTable(rows: seq<WalRow>) returns (ok: bool)
      modifies this
      ensures ok <==> FieldFits(RowsField(rows))
      ensures ok ==> out == old(out) + PutField(RowsField(rows))
      ensures old(out) <= out
    {
      if |rows| >= 0x1_0000_0000 {
        return false;
      }
      PutLe(|rows|, 4);
      ghost var all := old(out) + PutField(RowsField(rows));
      assert rows[0..] == rows;
      Assoc(old(out), Le(|rows|, 4), PutRows(rows));
      for i := 0 to |rows|
        invariant forall j :: 0 <= j < i ==> RowFits(rows[j])
        invariant Writes(out, PutRows(rows[i..]), all) && old(out) <= out
      {
        ghost var was := out;
        var one := PutRowBytes(rows[i]);
        if !one {
          return false;
        }
        RowWritten(was, rows, i, out, all);
      }
      assert rows[|rows|..] == [];
      WritesAll(out, all);
      ok := true;
    }

    method PutOption(v: Option<Bytes>) returns (ok: bool)
      modifies this
      ensures ok <==> (v.Some? ==> U32(|v.value|))
      ensures ok ==> out == old(out) + PutOpt(v)
      ensures old(out) <= out
    {
      match v {
        case None =>
          out := out + [0];
          ok := true;
        case Some(b) =>
          out := out + [1];
          ok := PutSized(b);
          Assoc(old(out), [1], PutBytes(b));
      }
    }

    method PutOne(f: Field) returns (ok: bool)
      modifies this
      ensures ok <==> FieldFits(f)
      ensures ok ==> out == old(out) + PutField(f)
      ensures old(out) <= out
    {
      ok := true;
      match f {
        case U32Field(v) => PutLe(v, 4);
        case U64Field(v) => PutLe(v, 8);
        case I64Field(v) => PutLe(v % TWO64, 8);
        case TextField(v) => ok := PutSized(v);
        case BytesField(v) => ok := PutSized(v);
        case OptField(v) => ok := PutOption(v);
        case OptTextField(v) => ok := PutOption(v);
        case MapField(m) => ok := PutMap(m);
        case BoolField(v) => out := out + [if v then 1 else 0];
        case RowsField(rows) => ok := PutRowTable(rows);
      }
    }

    /** The fields in turn, up to the first that does not fit. */
    method PutEach(fs: seq<Field>) returns (ok: bool)
      modifies this
      ensures ok <==> forall i :: 0 <= i < |fs| ==> FieldFits(fs[i])
      ensures ok ==> out == old(out) + PutFields(fs)
      ensures old(out) <= out
    {
      assert fs[0..] == fs;
      for i := 0 to |fs|
        invariant forall j :: 0 <= j < i ==> FieldFits(fs[j])
        invariant out + PutFields(fs[i..]) == old(out) + PutFields(fs)
        invariant old(out) <= out
      {
        assert fs[i..][0] == fs[i] && fs[i..][1..] == fs[i + 1..];
        Assoc(out, PutField(fs[i]), PutFields(fs[i + 1..]));
        var one := PutOne(fs[i]);
        if !one {
          return false;
        }
      }
      assert fs[|fs|..] == [] && out + [] == out;
      ok := true;
    }

    /**
     * `encode_frame`: reserve the length, append the payload, patch the length in. A payload
     * over the limit is taken back off the buffer; nothing before it is ever touched.
     */
    method EncodeFrame(f: WireFrame) returns (ok: bool)
      modifies this
      ensures ok <==> |Body(f)| <= MAX_FRAME_BYTES
      ensures ok ==> out == old(out) + Framed(Body(f))
      ensures !ok && (forall i :: 0 <= i < |FieldsOf(f)| ==> FieldFits(FieldsOf(f)[i])) ==> out == old(out)
      ensures old(out) <= out
    {
      var lenAt := |out|;
      PutLe(0, 4);
      var bodyAt := |out|;
      ghost var head := out;
      out := out + [KindOf(f)];
      var fits := PutEach(FieldsOf(f));
      AllFit(f);
      if !fits {
        return false;
      }
      Assoc(head, [KindOf(f)], PutFields(FieldsOf(f)));
      assert out == head + Body(f) && out[bodyAt..] == Body(f) && out[..lenAt] == old(out);
      var body := |out| - bodyAt;
      if body > MAX_FRAME_BYTES {
        out := out[..lenAt];
        return false;
      }
      var patch := LeBytes(body);
      out := out[..lenAt] + patch + out[bodyAt..];
      Assoc(old(out), Le(|Body(f)|, 4), Body(f));
      ok := true;
    }
  }

  /** `u32::to_le_bytes`. */
  method LeBytes(v: nat) returns (r: Bytes)
    ensures r == Le(v, 4)
  {
    r := Le(v, 4);
  }

  lemma {:induction false} FieldSize(fs: seq<Field>, i: nat)
    requires i < |fs|
    ensures |PutField(fs[i])| <= |PutFields(fs)|
    decreases i
  {
    if i > 0 {
      FieldSize(fs[1..], i - 1);
    }
  }

  /** A payload within the limit has no field too long for its prefix. */
  lemma AllFit(f: WireFrame)
    ensures |Body(f)| <= MAX_FRAME_BYTES ==> forall i :: 0 <= i < |FieldsOf(f)| ==> FieldFits(FieldsOf(f)[i])
  {
    var fs := FieldsOf(f);
    if |Body(f)| <= MAX_FRAME_BYTES {
      forall i | 0 <= i < |fs| ensures FieldFits(fs[i]) {
        FieldSize(fs, i);
        FitsWithin(fs[i]);
      }
    }
  }

  // ------------------------------------------------------------------ the cursor

  /** What a read of the cursor must do: the field and the advance the layout says, or a failure. */
  ghost predicate Tracks<T>(p: Parsed<T>, r: Result<T>, at: nat) {
    match p
    case Fail => r.Err?
    case Got(v, next) => r == Ok(v) && at == next
  }

  /** Reading a map at `start` comes down to reading `left` more entries at `at` into `m`. */
  ghost predicate PairsLeft(b: Bytes, start: nat, at: nat, left: nat, m: TextMap) {
    forall k: nat :: PairsLeftTo(b, start, at, left, m, k)
  }

  ghost predicate PairsLeftTo(b: Bytes, start: nat, at: nat, left: nat, m: TextMap, k: nat) {
    k == left ==> ReadMap(b, start) == ReadPairs(b, at, left, m)
  }

  function ReadPair(b: Bytes, at: nat): Parsed<(Text, Text)> {
    var k :- ReadText(b, at);
    var v :- ReadText(b, k.1);
    Got((k.0, v.0), v.1)
  }

  lemma PairsNext(b: Bytes, start: nat, at: nat, left: nat, m: TextMap, pair: (Text, Text), next: nat)
    requires PairsLeft(b, start, at, left, m) && left > 0 && ReadPair(b, at) == Got(pair, next)
    ensures PairsLeft(b, start, next, left - 1, Put(m, pair.0, pair.1))
  {
    assert PairsLeftTo(b, start, at, left, m, left);
  }

  lemma PairsFail(b: Bytes, start: nat, at: nat, left: nat, m: TextMap, pair: Parsed<(Text, Text)>)
    requires PairsLeft(b, start, at, left, m) && left > 0 && pair == ReadPair(b, at) && pair.Fail?
    ensures ReadMap(b, start).Fail?
  {
    assert PairsLeftTo(b, start, at, left, m, left);
  }

  lemma PairsDone(b: Bytes, start: nat, at: nat, m: TextMap)
    requires PairsLeft(b, start, at, 0, m)
    ensures ReadMap(b, start) == Got(m, at)
  {
    assert PairsLeftTo(b, start, at, 0, m, 0);
  }

  /** The same for a row table. */
  ghost predicate RowsLeft(b: Bytes, start: nat, at: nat, left: nat, rows: seq<WalRow>) {
    forall k: nat :: RowsLeftTo(b, start, at, left, rows, k)
  }

  ghost predicate RowsLeftTo(b: Bytes, start: nat, at: nat, left: nat, rows: seq<WalRow>, k: nat) {
    k == left ==> ReadRowList(b, start) == ReadRows(b, at, left, rows)
  }

  lemma RowsNext(b: Bytes, start: nat, at: nat, left: nat, rows: seq<WalRow>, r: WalRow, next: nat)
    requires RowsLeft(b, start, at, left, rows) && left > 0 && ReadRow(b, at) == Got(r, next)
    ensures RowsLeft(b, start, next, left - 1, rows + [r])
  {
    assert RowsLeftTo(b, start, at, left, rows, left);
  }

  lemma RowsFail(b: Bytes, start: nat, at: nat, left: nat, rows: seq<WalRow>, r: Parsed<WalRow>)
    requires RowsLeft(b, start, at, left, rows) && left > 0 && r == ReadRow(b, at) && r.Fail?
    ensures ReadRowList(b, start).Fail?
  {
    assert RowsLeftTo(b, start, at, left, rows, left);
  }

  lemma RowsDone(b: Bytes, start: nat, at: nat, rows: seq<WalRow>)
    requires RowsLeft(b, start, at, 0, rows)
    ensures ReadRowList(b, start) == Got(rows, at)
  {
    assert RowsLeftTo(b, start, at, 0, rows, 0);
  }

  class Cursor {
    const bytes: Bytes
    var at: nat

    constructor (bytes: Bytes)
      ensures this.bytes == bytes && at == 0
    {
      this.bytes := bytes;
      at := 0;
    }

    /** The next `n` bytes, or an early end. */
    method Take(n: nat) returns (r: Result<Bytes>)
      modifies this
      ensures r.Ok? <==> old(at) + n <= |bytes|
      ensures r.Ok? ==> r.value == bytes[old(at)..old(at) + n] && at == old(at) + n
      ensures r.Err? ==> at == old(at)
    {
      if at + n > |bytes| {
        return Err;
      }
      r := Ok(bytes[at..at + n]);
      at := at + n;
    }

    method Uint(n: nat) returns (r: Result<nat>)
      modifies this
      ensures Tracks(ReadUint(bytes, old(at), n), r, at)
    {
      var raw := Take(n);
      if raw.Err? {
        return Err;
      }
      r := Ok(LeValue(bytes, at - n, n));
    }

    method U8() returns (r: Result<Byte>)
      modifies this
      ensures Tracks(ReadByte(bytes, old(at)), r, at)
    {
      var raw := Take(1);
      if raw.Err? {
        return Err;
      }
      r := Ok(raw.value[0]);
    }

    method Signed() returns (r: Result<int>)
      modifies this
      ensures Tracks(ReadI64(bytes, old(at)), r, at)
    {
      var u := Uint(8);
      if u.Err? {
        return Err;
      }
      r := Ok(if u.value < 0x8000_0000_0000_0000 then u.value else u.value - TWO64);
    }

    method Sized() returns (r: Result<Bytes>)
      modifies this
      ensures Tracks(ReadBytes(bytes, old(at)), r, at)
    {
      var len := Uint(4);
      if len.Err? {
        return Err;
      }
      r := Take(len.value);
    }

    method String() returns (r: Result<Text>)
      modifies this
      ensures Tracks(ReadText(bytes, old(at)), r, at)
    {
      var raw := Sized();
      if raw.Err? || !Utf8(raw.value) {
        return Err;
      }
      r := raw;
    }

    /** A map's next key and value. */
    method Pair() returns (r: Result<(Text, Text)>)
      modifies this
      ensures Tracks(ReadPair(bytes, old(at)), r, at)
    {
      var k := String();
      if k.Err? {
        return Err;
      }
      var v := String();
      if v.Err? {
        return Err;
      }
      r := Ok((k.value, v.value));
    }

    method Map() returns (r: Result<TextMap>)
      modifies this
      ensures Tracks(ReadMap(bytes, old(at)), r, at)
    {
      var len := Uint(4);
      if len.Err? {
        return Err;
      }
      var out: TextMap, left := [], len.value;
      while left > 0
        invariant PairsLeft(bytes, old(at), at, left, out)
      {
        ghost var from := at;
        var pair := Pair();
        if pair.Err? {
          PairsFail(bytes, old(at), from, left, out, ReadPair(bytes, from));
          return Err;
        }
        PairsNext(bytes, old(at), from, left, out, pair.value, at);
        out := Put(out, pair.value.0, pair.value.1);
        left := left - 1;
      }
      PairsDone(bytes, old(at), at, out);
      r := Ok(out);
    }

    method Optional() returns (r: Result<Option<Bytes>>)
      modifies this
      ensures Tracks(ReadOpt(bytes, old(at)), r, at)
    {
      var present := U8();
      if present.Err? || present.value > 1 {
        return Err;
      }
      if present.value == 0 {
        return Ok(None);
      }
      var v := Sized();
      if v.Err? {
        return Err;
      }
      r := Ok(Some(v.value));
    }

    method Bool() returns (r: Result<bool>)
      modifies this
      ensures Tracks(ReadBool(bytes, old(at)), r, at)
    {
      var v := U8();
      if v.Err? || v.value > 1 {
        return Err;
      }
      r := Ok(v.value == 1);
    }

    method Row() returns (r: Result<WalRow>)
      modifies this
      ensures Tracks(ReadRow(bytes, old(at)), r, at)
    {
      var stream := String();
      if stream.Err? {
        return Err;
      }
      var ts := Signed();
      if ts.Err? {
        return Err;
      }
      var offset := Signed();
      if offset.Err? {
        return Err;
      }
      var row := Sized();
      if row.Err? {
        return Err;
      }
      r := Ok(WalRow(stream.value, ts.value, offset.value, row.value));
    }

    method RowTable() returns (r: Result<seq<WalRow>>)
      modifies this
      ensures Tracks(ReadRowList(bytes, old(at)), r, at)
    {
      var len := Uint(4);
      if len.Err? {
        return Err;
      }
      var rows: seq<WalRow>, left := [], len.value;
      while left > 0
        invariant RowsLeft(bytes, old(at), at, left, rows)
      {
        ghost var from := at;
        var row := Row();
        if row.Err? {
          RowsFail(bytes, old(at), from, left, rows, ReadRow(bytes, from));
          return Err;
        }
        RowsNext(bytes, old(at), from, left, rows, row.value, at);
        rows := rows + [row.value];
        left := left - 1;
      }
      RowsDone(bytes, old(at), at, rows);
      r := Ok(rows);
    }

    method One(slot: Slot) returns (r: Result<Field>)
      modifies this
      ensures Tracks(ReadField(bytes, old(at), slot), r, at)
    {
      match slot {
        case AU32 =>
          var v := Uint(4);
          r := match v case Err => Err case Ok(x) => Ok(U32Field(x));
        case AU64 =>
          var v := Uint(8);
          r := match v case Err => Err case Ok(x) => Ok(U64Field(x));
        case AI64 =>
          var v := Signed();
          r := match v case Err => Err case Ok(x) => Ok(I64Field(x));
        case AText =>
          var v := String();
          r := match v case Err => Err case Ok(x) => Ok(TextField(x));
        case SomeBytes =>
          var v := Sized();
          r := match v case Err => Err case Ok(x) => Ok(BytesField(x));
        case AnOpt =>
          var v := Optional();
          r := match v case Err => Err case Ok(x) => Ok(OptField(x));
        case AnOptText =>
          var v := Optional();
          r := match v case Err => Err
                       case Ok(x) => if x.Some? && !Utf8(x.value) then Err else Ok(OptTextField(x));
        case AMap =>
          var v := Map();
          r := match v case Err => Err case Ok(x) => Ok(MapField(x));
        case ABool =>
          var v := Bool();
          r := match v case Err => Err case Ok(x) => Ok(BoolField(x));
        case SomeRows =>
          var v := RowTable();
          r := match v case Err => Err case Ok(x) => Ok(RowsField(x));
      }
    }

    /** The fields of a layout in turn. */
    method Each(slots: seq<Slot>) returns (r: Result<seq<Field>>)
      modifies this
      ensures Tracks(ReadFields(bytes, old(at), slots), r, at)
    {
      var fs: seq<Field> := [];
      assert slots[0..] == slots;
      Joined([], ReadFields(bytes, at, slots));
      for i := 0 to |slots|
        invariant ReadFields(bytes, old(at), slots) == Join(fs, ReadFields(bytes, at, slots[i..]))
      {
        assert slots[i..][0] == slots[i] && slots[i..][1..] == slots[i + 1..];
        var f := One(slots[i]);
        if f.Err? {
          return Err;
        }
        JoinedTwice(fs, f.value, ReadFields(bytes, at, slots[i + 1..]));
        fs := fs + [f.value];
      }
      assert slots[|slots|..] == [] && fs + [] == fs;
      r := Ok(fs);
    }
  }

  ghost function Join(fs: seq<Field>, rest: Parsed<seq<Field>>): Parsed<seq<Field>> {
    match rest
    case Fail => Fail
    case Got(gs, next) => Got(fs + gs, next)
  }

  lemma Joined(fs: seq<Field>, rest: Parsed<seq<Field>>)
    ensures Join([], rest) == rest
  {
    if rest.Got? {
      assert [] + rest.value == rest.value;
    }
  }

  lemma JoinedTwice(fs: seq<Field>, f: Field, rest: Parsed<seq<Field>>)
    ensures Join(fs, Join([f], rest)) == Join(fs + [f], rest)
  {
    if rest.Got? {
      assert fs + ([f] + rest.value) == fs + [f] + rest.value;
    }
  }

  /** `decode_known`. */
  method DecodeKnown(payload: Bytes) returns (r: Result<Option<WireFrame>>)
    ensures r == Decode(payload)
  {
    var c := new Cursor(payload);
    var kind := c.U8();
    if kind.Err? {
      return Err;
    }
    if !(1 <= kind.value <= 6) {
      return Ok(None);
    }
    var fs := c.Each(Layout(kind.value));
    if fs.Err? || c.at != |payload| {
      return Err;
    }
    r := Ok(Some(FrameOf(kind.value, fs.value)));
  }

  // ------------------------------------------------------------------ the reader

  /** `FrameReader` over a byte stream: what of it has been read, and its own buffer. */
  class FrameReader {
    const inner: Bytes
    var at: nat
    var buf: Bytes
    var skipped: nat

    constructor (inner: Bytes, at: nat)
      ensures this.inner == inner && this.at == at && skipped == 0 && buf == []
    {
      this.inner, this.at, buf, skipped := inner, at, [], 0;
    }

    /** Check the preamble, then be ready for frames. */
    static method New(inner: Bytes) returns (r: Result<FrameReader>)
      ensures r.Ok? <==> Open(inner).Ok?
      ensures r.Ok? ==> fresh(r.value) && r.value.inner == inner && r.value.at == 14 && r.value.skipped == 0
    {
      if |inner| < 12 || inner[..12] != MAGIC {
        return Err;
      }
      if |inner| < 14 || LeValue(inner, 12, 2) != PROTOCOL_VERSION {
        return Err;
      }
      var reader := new FrameReader(inner, 14);
      r := Ok(reader);
    }

    /** One payload into `buf`; false at a clean end. The length is judged before the buffer grows. */
    method ReadPayload() returns (r: Result<bool>)
      modifies this`at, this`buf
      ensures match NextPayload(inner, old(at))
              case CleanEnd => r == Ok(false) && at == old(at) && buf == old(buf)
              case Refused => r.Err? && (Oversized(inner, old(at)) ==> buf == old(buf))
              case Payload(body, next) => r == Ok(true) && buf == body && at == next
      ensures |buf| <= Max(|old(buf)|, MAX_FRAME_BYTES)
    {
      if at + 4 > |inner| {
        return Ok(false);
      }
      var len := LeValue(inner, at, 4);
      if len > MAX_FRAME_BYTES {
        return Err;
      }
      buf := seq(len, i => 0);
      if at + 4 + len > |inner| {
        return Err;
      }
      buf := inner[at + 4..at + 4 + len];
      at := at + 4 + len;
      r := Ok(true);
    }

    /** The next frame of a known kind, or `None` at a clean end; later kinds are skipped and counted. */
    method Next() returns (r: Result<Option<WireFrame>>)
      modifies this
      ensures match NextFrame(inner, old(at), old(skipped))
              case Err => r.Err?
              case Ok(s) => r == Ok(s.frame) && at == s.at && skipped == s.skipped
    {
      while true
        invariant NextFrame(inner, at, skipped) == NextFrame(inner, old(at), old(skipped))
        decreases |inner| - at
      {
        ghost var was := at;
        var more := ReadPayload();
        if more.Err? {
          return Err;
        }
        if !more.value {
          return Ok(None);
        }
        var frame := DecodeKnown(buf);
        match frame {
          case Err => return Err;
          case Ok(Some(f)) => return Ok(Some(f));
          case Ok(None) => skipped := skipped + 1;
        }
      }
    }
  }
}
