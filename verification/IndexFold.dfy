/** The declared index state: an accumulator over the entries sent (src/replicate/publisher.rs). */
module IndexFold {
  import opened Types
  import opened Frames

  const BASIS_A: nat := 0xcbf2_9ce4_8422_2325
  const BASIS_B: nat := 0x9e37_79b9_7f4a_7c15
  const PRIME_A: nat := 0x100_0000_01b3
  /** `PRIME_A.rotate_left(17)`. */
  const PRIME_B: nat := 0x0200_0000_0366_0000

  function Xor(l: Byte, b: Byte): Byte {
    ((l as bv8) ^ (b as bv8)) as int
  }

  /** The low byte of `h` against `b`. */
  function XorByte(h: nat, b: Byte): nat {
    h / 256 * 256 + Xor(h % 256, b)
  }

  /** One byte into both streams: by the FNV prime, and by the prime rotated left 17. */
  function FoldByte(s: IndexState, b: Byte): IndexState {
    (XorByte(s.0, b) * PRIME_A % TWO64, XorByte(s.1, b) * PRIME_B % TWO64)
  }

  function FoldTo(s: IndexState, bytes: seq<Byte>, n: nat): IndexState
    requires n <= |bytes|
  {
    if n == 0 then s else FoldByte(FoldTo(s, bytes, n - 1), bytes[n - 1])
  }

  /** Where the two streams start from. */
  function Basis(s: IndexState): IndexState {
    if s == NO_INDEX_STATE then (BASIS_A, BASIS_B) else s
  }

  /** A declared state is never the one that means "built against no index". */
  function Declared(s: IndexState): (r: IndexState)
    ensures r != NO_INDEX_STATE
  {
    if s == NO_INDEX_STATE then (1, 0) else s
  }

  /** What an entry is folded as: its time's eight bytes, then its contents. */
  function EntryBytes(ts: int, blob: seq<Byte>): seq<Byte> {
    Le(ts % TWO64, 8) + blob
  }

  /** Both streams after an entry. */
  function Accumulated(s: IndexState, bytes: seq<Byte>): IndexState {
    FoldTo(Basis(s), bytes, |bytes|)
  }

  /** `fold_index_state`. */
  function Fold(s: IndexState, ts: int, blob: seq<Byte>): (r: IndexState)
    ensures r != NO_INDEX_STATE
  {
    Declared(Accumulated(s, EntryBytes(ts, blob)))
  }

  /** The loop over both accumulators. */
  method FoldIndexState(s: IndexState, ts: int, blob: seq<Byte>) returns (r: IndexState)
    ensures r == Fold(s, ts, blob) && r != NO_INDEX_STATE
  {
    var bytes := EntryBytes(ts, blob);
    var acc := Basis(s);
    for i := 0 to |bytes|
      invariant acc == FoldTo(Basis(s), bytes, i)
    {
      acc := FoldByte(acc, bytes[i]);
    }
    r := Declared(acc);
  }

  // ------------------------------------------------------------------ the first stream keeps everything

  predicate Wide(h: nat) {
    h < TWO64
  }

  lemma XorWide(h: nat, b: Byte)
    requires Wide(h)
    ensures Wide(XorByte(h, b))
  {}

  lemma BitsBack(a: bv8, b: bv8)
    ensures a ^ b ^ b == a
  {}

  lemma BitsOf(x: bv8, l: Byte)
    requires l == x as int
    ensures l as bv8 == x
  {}

  lemma XorBack(l: Byte, b: Byte)
    ensures Xor(Xor(l, b), b) == l
  {
    ByteBack(l);
    XorAgain(l as bv8, b as bv8, Xor(l, b), b, l);
  }

  lemma XorAgain(x: bv8, y: bv8, m: Byte, b: Byte, l: Byte)
    requires m == (x ^ y) as int && y == b as bv8 && l == x as int
    ensures Xor(m, b) == l
  {
    BitsOf(x ^ y, m);
    BitsBack(x, y);
    XorIs(m, b, x ^ y, y, x);
  }

  lemma XorIs(l: Byte, b: Byte, x: bv8, y: bv8, z: bv8)
    requires x == l as bv8 && y == b as bv8 && x ^ y == z
    ensures Xor(l, b) == z as int
  {}

  /** The byte as bits. */
  lemma {:induction false} BitsFor(l: Byte) returns (x: bv8)
    ensures x as int == l
  {
    if l == 0 {
      x := 0;
    } else {
      var y := BitsFor(l - 1);
      x := y + 1;
      BitsNext(y);
    }
  }

  lemma BitsNext(y: bv8)
    requires y != 255
    ensures (y + 1) as int == y as int + 1
  {}

  lemma ByteBack(l: Byte)
    ensures (l as bv8) as int == l
  {
    var x := BitsFor(l);
    BitsOf(x, l);
  }

  lemma XorSwaps(l: Byte, b: Byte)
    ensures Xor(l, b) == Xor(b, l)
  {
    BitsSwap(l as bv8, b as bv8);
  }

  lemma BitsSwap(a: bv8, b: bv8)
    ensures a ^ b == b ^ a
  {}

  /** The low byte and the rest. */
  lemma XorParts(h: nat, b: Byte)
    ensures XorByte(h, b) / 256 == h / 256 && XorByte(h, b) % 256 == Xor(h % 256, b)
  {
    Quotient(h / 256, Xor(h % 256, b));
  }

  lemma Quotient(q: nat, l: Byte)
    ensures (q * 256 + l) / 256 == q && (q * 256 + l) % 256 == l
  {}

  /** Absorbing is undone by absorbing the byte again. */
  lemma XorTwice(h: nat, b: Byte)
    ensures XorByte(XorByte(h, b), b) == h
  {
    XorParts(h, b);
    XorBack(h % 256, b);
  }

  lemma XorOther(h: nat, b: Byte, c: Byte)
    requires b != c
    ensures XorByte(h, b) != XorByte(h, c)
  {
    var l := h % 256;
    XorSwaps(l, b);
    XorSwaps(l, c);
    XorBack(b, l);
    XorBack(c, l);
    XorParts(h, b);
    XorParts(h, c);
  }

  const INVERSE_A: nat := 0xce96_5057_aff6_957b

  /** The first stream's prime is odd, so multiplying by it loses nothing. */
  lemma TimesBack(x: nat)
    requires Wide(x)
    ensures x * PRIME_A % TWO64 * INVERSE_A % TWO64 == x
  {
    var r, k := x * PRIME_A % TWO64, x * PRIME_A / TWO64;
    assert r == x * PRIME_A - k * TWO64;
    assert PRIME_A * INVERSE_A == 1 + (PRIME_A * INVERSE_A / TWO64) * TWO64;
    assert r * INVERSE_A == x + (x * (PRIME_A * INVERSE_A / TWO64) - k * INVERSE_A) * TWO64;
    ModPlus(x, x * (PRIME_A * INVERSE_A / TWO64) - k * INVERSE_A, r * INVERSE_A);
  }

  lemma ModPlus(x: nat, k: int, y: int)
    requires Wide(x) && y == x + k * TWO64
    ensures y % TWO64 == x
  {}

  /** Different accumulators stay different. */
  lemma FirstApart(s: IndexState, t: IndexState, a: Byte, b: Byte)
    requires Wide(s.0) && Wide(t.0) && XorByte(s.0, a) != XorByte(t.0, b)
    ensures FoldByte(s, a).0 != FoldByte(t, b).0
  {
    XorWide(s.0, a);
    XorWide(t.0, b);
    TimesBack(XorByte(s.0, a));
    TimesBack(XorByte(t.0, b));
  }

  lemma {:induction false} FoldWide(s: IndexState, bytes: seq<Byte>, n: nat)
    requires n <= |bytes| && Wide(s.0)
    ensures Wide(FoldTo(s, bytes, n).0)
  {
    if n > 0 {
      FoldWide(s, bytes, n - 1);
    }
  }

  /** Two byte strings that agree but at one place. */
  ghost predicate OnePlace(a: seq<Byte>, b: seq<Byte>, i: nat) {
    && |a| == |b| && i < |a| && a[i] != b[i]
    && forall k: nat :: k < |a| && k != i ==> a[k] == b[k]
  }

  lemma SameByteApart(x: IndexState, y: IndexState, b: Byte)
    requires Wide(x.0) && Wide(y.0)
    ensures FoldByte(x, b).0 == FoldByte(y, b).0 <==> x.0 == y.0
  {
    if x.0 != y.0 {
      XorTwice(x.0, b);
      XorTwice(y.0, b);
      FirstApart(x, y, b, b);
    }
  }

  /** From two accumulators the same bytes make two accumulators. */
  lemma {:induction false} StateCarries(s: IndexState, t: IndexState, bytes: seq<Byte>, n: nat)
    requires n <= |bytes| && Wide(s.0) && Wide(t.0)
    ensures FoldTo(s, bytes, n).0 == FoldTo(t, bytes, n).0 <==> s.0 == t.0
  {
    if n > 0 {
      StateCarries(s, t, bytes, n - 1);
      FoldWide(s, bytes, n - 1);
      FoldWide(t, bytes, n - 1);
      SameByteApart(FoldTo(s, bytes, n - 1), FoldTo(t, bytes, n - 1), bytes[n - 1]);
    }
  }

  lemma {:induction false} PlaceCarries(s: IndexState, a: seq<Byte>, b: seq<Byte>, i: nat, n: nat)
    requires OnePlace(a, b, i) && n <= |a| && Wide(s.0)
    ensures FoldTo(s, a, n).0 == FoldTo(s, b, n).0 <==> n <= i
  {
    if n > 0 {
      PlaceCarries(s, a, b, i, n - 1);
      FoldWide(s, a, n - 1);
      FoldWide(s, b, n - 1);
      var x, y := FoldTo(s, a, n - 1), FoldTo(s, b, n - 1);
      if n - 1 == i {
        XorOther(x.0, a[i], b[i]);
        FirstApart(x, y, a[i], b[i]);
      } else {
        SameByteApart(x, y, a[n - 1]);
      }
    }
  }

  /**
   * The first accumulator after an entry depends on every byte of it, its time's included, and
   * on everything before: one byte changed changes it, and from two states before, one and the
   * same entry leaves two different values exactly when they differed.
   */
  lemma EntryMatters(s: IndexState, t: IndexState, a: seq<Byte>, b: seq<Byte>, i: nat)
    requires Wide(s.0) && Wide(t.0) && OnePlace(a, b, i)
    ensures Accumulated(s, a).0 != Accumulated(s, b).0
    ensures Accumulated(s, a).0 == Accumulated(t, a).0 <==> Basis(s).0 == Basis(t).0
  {
    PlaceCarries(Basis(s), a, b, i, |a|);
    StateCarries(Basis(s), Basis(t), a, |a|);
  }

  // ------------------------------------------------------------------ the second keeps three bytes

  /** A multiple of 256 absorbs a byte by adding it. */
  lemma XorAdds(h: nat, b: Byte)
    requires h % 256 == 0
    ensures XorByte(h, b) == h + b
  {
    XorZero(b);
  }

  lemma XorZero(b: Byte)
    ensures Xor(0, b) == b
  {
    XorSwaps(0, b);
    XorBack(b, 0);
    BitsZero(b as bv8);
    BitsOf(b as bv8, b);
  }

  lemma BitsZero(b: bv8)
    ensures b ^ (0 as bv8) == b
  {}

  /** Three bytes' worth: the last one first. */
  function LastThree(c: Byte, b: Byte, a: Byte): nat {
    (PRIME_B * c + PRIME_B * PRIME_B * b + PRIME_B * PRIME_B * PRIME_B * a) % TWO64
  }

  /** Every value of the second stream is a multiple of 2^17. */
  lemma SecondEven(x: nat)
    ensures x * PRIME_B % TWO64 % 256 == 0
  {
    var q := x * PRIME_B / TWO64;
    Multiple(x * PRIME_B % TWO64, x * 0x2_0000_0003_6600 - q * 0x100_0000_0000_0000);
  }

  lemma Multiple(h: int, m: int)
    requires h == 256 * m
    ensures h % 256 == 0
  {}

  /** A step depends on its input below 2^64 only. */
  lemma StepBelow(x: int, b: Byte)
    ensures (x % TWO64 + b) * PRIME_B % TWO64 == (x + b) * PRIME_B % TWO64
  {
    var k := x / TWO64;
    assert (x + b) * PRIME_B == (x % TWO64 + b) * PRIME_B + (k * PRIME_B) * TWO64;
    SameBelow((x % TWO64 + b) * PRIME_B, k * PRIME_B, (x + b) * PRIME_B);
  }

  lemma SameBelow(u: int, k: int, v: int)
    requires v == u + k * TWO64
    ensures v % TWO64 == u % TWO64
  {}

  lemma FourSteps(x: nat, a: Byte, b: Byte, c: Byte, x1: nat, x2: nat, x3: nat)
    requires x1 == x * PRIME_B % TWO64 && x2 == (x1 + a) * PRIME_B % TWO64 && x3 == (x2 + b) * PRIME_B % TWO64
    ensures (x3 + c) * PRIME_B % TWO64 == LastThree(c, b, a)
  {
    var y1 := x * PRIME_B;
    var y2 := (y1 + a) * PRIME_B;
    var y3 := (y2 + b) * PRIME_B;
    StepBelow(y1, a);
    StepBelow(y2, b);
    StepBelow(y3, c);
    var sum := PRIME_B * c + PRIME_B * PRIME_B * b + PRIME_B * PRIME_B * PRIME_B * a;
    var fourth := PRIME_B * PRIME_B * PRIME_B * PRIME_B / TWO64;
    assert (y3 + c) * PRIME_B == sum + (fourth * x) * TWO64;
    SameBelow(sum, fourth * x, (y3 + c) * PRIME_B);
  }

  lemma SecondIs(s: IndexState, bytes: seq<Byte>, n: nat)
    requires n + 4 <= |bytes|
    ensures FoldTo(s, bytes, n + 4).1 == LastThree(bytes[n + 3], bytes[n + 2], bytes[n + 1])
  {
    var x := XorByte(FoldTo(s, bytes, n).1, bytes[n]);
    SecondStep(s, bytes, n + 1);
    SecondStep(s, bytes, n + 2);
    SecondStep(s, bytes, n + 3);
    FourSteps(x, bytes[n + 1], bytes[n + 2], bytes[n + 3],
              FoldTo(s, bytes, n + 1).1, FoldTo(s, bytes, n + 2).1, FoldTo(s, bytes, n + 3).1);
  }

  lemma SecondStep(s: IndexState, bytes: seq<Byte>, n: nat)
    requires 0 < n < |bytes|
    ensures FoldTo(s, bytes, n + 1).1 == (FoldTo(s, bytes, n).1 + bytes[n]) * PRIME_B % TWO64
  {
    SecondEven(XorByte(FoldTo(s, bytes, n - 1).1, bytes[n - 1]));
    XorAdds(FoldTo(s, bytes, n).1, bytes[n]);
  }

  /** Three bytes leave different values from three others. */
  lemma ThreeApart(a: Byte, b: Byte, c: Byte, a': Byte, b': Byte, c': Byte)
    requires LastThree(c, b, a) == LastThree(c', b', a')
    ensures c == c' && b == b' && a == a'
  {
    var p, q := PRIME_B * c + PRIME_B * PRIME_B * b + PRIME_B * PRIME_B * PRIME_B * a,
                PRIME_B * c' + PRIME_B * PRIME_B * b' + PRIME_B * PRIME_B * PRIME_B * a';
    var k := p / TWO64 - q / TWO64;
    assert p - q == k * TWO64;
    Digits(c - c', b - b', a - a', k);
  }

  /** An odd number's multiple of a byte is no multiple of 256. */
  lemma OddDigit(o: int, inverse: int, z: int, c: int, t: int)
    requires o * inverse == 1 + 256 * z && o * c == 256 * t && -256 < c < 256
    ensures c == 0
  {
    assert o * inverse * c == inverse * (o * c) == inverse * (256 * t);
    assert (1 + 256 * z) * c == c + 256 * (z * c);
    SmallMultiple(c, inverse * t - z * c);
  }

  lemma SmallMultiple(c: int, k: int)
    requires c == 256 * k && -256 < c < 256
    ensures c == 0
  {}

  /** Bytes scaled by powers of an odd number, 2^17 apart, do not cancel below 2^64. */
  lemma Digits(c: int, b: int, a: int, k: int)
    requires -256 < c < 256 && -256 < b < 256 && -256 < a < 256
    requires PRIME_B * c + PRIME_B * PRIME_B * b + PRIME_B * PRIME_B * PRIME_B * a == k * TWO64
    ensures c == 0 && b == 0 && a == 0
  {
    var o := PRIME_A;
    OddDigit(o, 123, (o * 123 - 1) / 256, c, k * 0x80_0000_0000 - 512 * (o * o * b) - 0x400_0000 * (o * o * o * a));
    OddDigit(o * o, 25, (o * o * 25 - 1) / 256, b, k * 0x40_0000 - 512 * (o * o * o * a));
    OddDigit(o * o * o, 3, (o * o * o * 3 - 1) / 256, a, k * 0x20);
  }

  /** What the second accumulator says after at least four bytes is what its last three are. */
  lemma SecondForgets(s: IndexState, t: IndexState, a: seq<Byte>, b: seq<Byte>)
    requires |a| >= 4 && |b| >= 4
    ensures Accumulated(s, a).1 == Accumulated(t, b).1 <==> a[|a| - 3..] == b[|b| - 3..]
  {
    SecondIs(Basis(s), a, |a| - 4);
    SecondIs(Basis(t), b, |b| - 4);
    var x, y := a[|a| - 3..], b[|b| - 3..];
    if Accumulated(s, a).1 == Accumulated(t, b).1 {
      ThreeApart(x[0], x[1], x[2], y[0], y[1], y[2]);
    }
  }

  /**
   * A subscriber in another state when an entry arrives, because it missed one, is told apart
   * from the publisher by the first accumulator alone: the second is the same from any state.
   */
  lemma MissedEntry(s: IndexState, t: IndexState, ts: int, blob: seq<Byte>)
    requires Wide(s.0) && Wide(t.0)
    ensures Accumulated(s, EntryBytes(ts, blob)).1 == Accumulated(t, EntryBytes(ts, blob)).1
    ensures Accumulated(s, EntryBytes(ts, blob)) == Accumulated(t, EntryBytes(ts, blob)) <==> Basis(s).0 == Basis(t).0
  {
    var bytes := EntryBytes(ts, blob);
    SecondForgets(s, t, bytes, bytes);
    StateCarries(Basis(s), Basis(t), bytes, |bytes|);
  }

  /** Entries of one length that differ in one byte leave different declared states, unless the reserved one had to be avoided. */
  lemma OtherEntry(s: IndexState, ts: int, blob: seq<Byte>, ts': int, blob': seq<Byte>, i: nat)
    requires Wide(s.0) && OnePlace(EntryBytes(ts, blob), EntryBytes(ts', blob'), i)
    ensures Fold(s, ts, blob) != Fold(s, ts', blob')
            || Accumulated(s, EntryBytes(ts, blob)) == NO_INDEX_STATE || Accumulated(s, EntryBytes(ts', blob')) == NO_INDEX_STATE
  {
    EntryMatters(s, s, EntryBytes(ts, blob), EntryBytes(ts', blob'), i);
  }

  lemma {:induction false} LeApart(v: nat, w: nat, n: nat, bound: nat)
    requires v < bound && w < bound && Le(v, n) == Le(w, n) && bound == Pow256(n)
    ensures v == w
  {
    if n > 0 {
      var x, y := [v % 256] + Le(v / 256, n - 1), [w % 256] + Le(w / 256, n - 1);
      assert x[0] == y[0] && x[1..] == Le(v / 256, n - 1) && y[1..] == Le(w / 256, n - 1);
      LeApart(v / 256, w / 256, n - 1, Pow256(n - 1));
    }
  }

  /** The bytes folded say which entry it is. */
  lemma EntryBytesApart(ts: int, blob: seq<Byte>, ts': int, blob': seq<Byte>)
    requires I64_MIN <= ts <= I64_MAX && I64_MIN <= ts' <= I64_MAX
    ensures EntryBytes(ts, blob) == EntryBytes(ts', blob') <==> ts == ts' && blob == blob'
  {
    var a, b := EntryBytes(ts, blob), EntryBytes(ts', blob');
    if a == b {
      assert a[..8] == Le(ts % TWO64, 8) && b[..8] == Le(ts' % TWO64, 8);
      assert a[8..] == blob && b[8..] == blob';
      LeApart(ts % TWO64, ts' % TWO64, 8, TWO64);
    }
  }

  /** The published FNV-1a value of the one-byte text "a", and the second stream's beside it. */
  lemma KnownFold(bytes: seq<Byte>)
    requires bytes == [97]
    ensures Accumulated(NO_INDEX_STATE, bytes) == (0xaf63_dc4c_8601_ec8c, 0x9466_9722_f238_0000)
  {
    XorBasis(97);
    var s := Basis(NO_INDEX_STATE);
    assert FoldTo(s, bytes, 0) == s;
    ModPlus(0xaf63_dc4c_8601_ec8c, 875948729822, XorByte(s.0, 97) * PRIME_A);
    ModPlus(0x9466_9722_f238_0000, 89068084561200512, XorByte(s.1, 97) * PRIME_B);
    OneFolded(s, bytes, 1);
  }

  lemma OneFolded(s: IndexState, bytes: seq<Byte>, n: nat)
    requires n == 1 && bytes == [97]
    ensures FoldTo(s, bytes, n) == (XorByte(s.0, 97) * PRIME_A % TWO64, XorByte(s.1, 97) * PRIME_B % TWO64)
  {
    assert FoldTo(s, bytes, 0) == s;
  }

  lemma XorBasis(b: Byte)
    requires b == 97
    ensures XorByte(BASIS_A, b) == 0xcbf2_9ce4_8422_2344
    ensures XorByte(BASIS_B, b) == 0x9e37_79b9_7f4a_7c74
  {
    XorKnown(b as bv8);
    XorLow(BASIS_A, b, 0x25, b as bv8, 0x44);
    XorLow(BASIS_B, b, 0x15, b as bv8, 0x74);
  }

  lemma XorLow(h: nat, b: Byte, l: bv8, y: bv8, z: bv8)
    requires h % 256 == l as int && y == b as bv8 && l ^ y == z
    ensures XorByte(h, b) == h - h % 256 + z as int
  {
    BitsOf(l, h % 256);
    XorIs(h % 256, b, l, y, z);
  }

  lemma XorKnown(b: bv8)
    requires b == 97
    ensures 0x25 ^ b == 0x44 && 0x15 ^ b == 0x74
  {}
}
