/** The stagger hash (src/seal.rs). */
module Stagger {

  const BASIS: bv64 := 0xcbf2_9ce4_8422_2325

  /** A `str`'s bytes, as the hash reads them. */
  type Bytes = seq<bv8>

  /** One FNV-1a step. */
  function Step(h: bv64, b: bv8): bv64 {
    (h ^ (b as bv64)) * 0x100_0000_01b3
  }

  /** One byte, and then its two high bits, into the state. */
  function Absorb(h: bv64, b: bv8): bv64 {
    Step(Step(h, b), b >> 6)
  }

  /** The state after the first `n` bytes. */
  function AbsorbTo(h: bv64, s: Bytes, n: nat): bv64
    requires n <= |s|
  {
    if n == 0 then h else Absorb(AbsorbTo(h, s, n - 1), s[n - 1])
  }

  /** `stagger_bucket`: the stream, a byte no label supplies, then the source key. */
  function Bucket(stream: Bytes, key: Bytes): bv64 {
    AbsorbTo(Absorb(AbsorbTo(BASIS, stream, |stream|), 0xff), key, |key|) % 64
  }

  method StaggerBucket(stream: Bytes, key: Bytes) returns (r: bv64)
    ensures r == Bucket(stream, key) && r < 64
  {
    var h := BASIS;
    for i := 0 to |stream|
      invariant h == AbsorbTo(BASIS, stream, i)
    {
      h := Absorb(h, stream[i]);
    }
    h := Absorb(h, 0xff);
    ghost var mid := h;
    for i := 0 to |key|
      invariant h == AbsorbTo(mid, key, i)
    {
      h := Absorb(h, key[i]);
    }
    LowMod(h, Low(h));
    r := h % 64;
  }

  /** How many of the first `n` bytes differ in bit 5 alone. */
  function FlipsTo(a: Bytes, b: Bytes, n: nat): nat
    requires n <= |a| == |b|
  {
    if n == 0 then 0 else FlipsTo(a, b, n - 1) + if a[n - 1] ^ b[n - 1] == 0x20 then 1 else 0
  }

  /** The same bytes but for bit 5. */
  predicate CaseAlike(a: Bytes, b: Bytes) {
    |a| == |b| && forall i :: 0 <= i < |a| ==> a[i] ^ b[i] == 0 || a[i] ^ b[i] == 0x20
  }

  /** `staggers_identically`. */
  method StaggersIdentically(a: Bytes, b: Bytes) returns (same: bool)
    ensures same <==> CaseAlike(a, b) && FlipsTo(a, b, |a|) % 2 == 0
  {
    if |a| != |b| {
      return false;
    }
    var flips := 0;
    for i := 0 to |a|
      invariant flips == FlipsTo(a, b, i)
      invariant forall j :: 0 <= j < i ==> a[j] ^ b[j] == 0 || a[j] ^ b[j] == 0x20
    {
      if a[i] ^ b[i] == 0x20 {
        flips := flips + 1;
      } else if a[i] ^ b[i] != 0 {
        return false;
      }
    }
    return flips % 2 == 0;
  }

  // ------------------------------------------------------------------ the six bits a bucket keeps

  function Low(h: bv64): bv8 {
    (h & 63) as bv8
  }

  /** A step on those bits alone: the multiplier is 51 modulo 64. */
  function LowStep(l: bv8, b: bv8): bv8 {
    ((l ^ b) * 51) & 63
  }

  function LowAbsorb(l: bv8, b: bv8): bv8 {
    LowStep(LowStep(l, b), b >> 6)
  }

  function LowTo(l: bv8, s: Bytes, n: nat): bv8
    requires n <= |s|
  {
    if n == 0 then l else LowAbsorb(LowTo(l, s, n - 1), s[n - 1])
  }

  lemma StepLow(h: bv64, b: bv8)
    ensures Low(Step(h, b)) == LowStep(Low(h), b)
  {}

  lemma AbsorbLow(h: bv64, b: bv8)
    ensures Low(Absorb(h, b)) == LowAbsorb(Low(h), b)
  {
    StepLow(h, b);
    StepLow(Step(h, b), b >> 6);
  }

  lemma AbsorbLowIs(h: bv64, b: bv8, g: bv64, l: bv8)
    requires g == Absorb(h, b) && Low(h) == l
    ensures Low(g) == LowAbsorb(l, b)
  {
    AbsorbLow(h, b);
  }

  /** The state's low six bits go their own way. */
  lemma {:induction false} LowIs(h: bv64, s: Bytes, n: nat, g: bv64, l: bv8)
    requires n <= |s| && g == AbsorbTo(h, s, n) && l == LowTo(Low(h), s, n)
    ensures Low(g) == l
  {
    if n > 0 {
      var p, q := AbsorbTo(h, s, n - 1), LowTo(Low(h), s, n - 1);
      LowIs(h, s, n - 1, p, q);
      AbsorbLowIs(p, s[n - 1], g, q);
    }
  }

  /** The states a string leads through. */
  ghost predicate Trace(s: Bytes, t: Bytes) {
    |t| == |s| + 1 && t[0] < 64 && forall i: nat :: i < |s| ==> StepAt(s, t, i)
  }

  ghost predicate StepAt(s: Bytes, t: Bytes, i: nat)
    requires |t| == |s| + 1 && i < |s|
  {
    Goes(t[i], s[i], t[i + 1])
  }

  /** One byte leads from one state to the next. */
  ghost predicate Goes(l: bv8, x: bv8, next: bv8) {
    forall y: bv8 :: y == x ==> GoesBy(l, y, next)
  }

  ghost predicate GoesBy(l: bv8, x: bv8, next: bv8) {
    next == LowAbsorb(l, x)
  }

  lemma {:induction false} LowTrace(l: bv8, s: Bytes, n: nat) returns (t: Bytes)
    requires n <= |s| && l < 64
    ensures Trace(s[..n], t) && t[0] == l && t[n] == LowTo(l, s, n)
  {
    if n == 0 {
      t := [l];
    } else {
      var p := LowTrace(l, s, n - 1);
      t := p + [LowTo(l, s, n)];
      forall i: nat | i < n ensures StepAt(s[..n], t, i) {
        if i < n - 1 {
          assert StepAt(s[..n - 1], p, i);
        }
      }
    }
  }

  lemma WholeTrace(l: bv8, s: Bytes) returns (t: Bytes)
    requires l < 64
    ensures Trace(s, t) && t[0] == l && t[|s|] == LowTo(l, s, |s|)
  {
    t := LowTrace(l, s, |s|);
    assert s[..|s|] == s;
  }

  function LowBucket(stream: Bytes, key: Bytes): bv8 {
    LowTo(LowAbsorb(LowTo(Low(BASIS), stream, |stream|), 0xff), key, |key|)
  }

  lemma LowMod(h: bv64, l: bv8)
    requires Low(h) == l
    ensures h % 64 == l as bv64 && l < 64
  {}

  /** A bucket is those bits of the hash of the stream, a byte no label supplies, and the key. */
  lemma BucketIs(stream: Bytes, key: Bytes)
    ensures Bucket(stream, key) == LowBucket(stream, key) as bv64 && LowBucket(stream, key) < 64
  {
    var h, l := AbsorbTo(BASIS, stream, |stream|), LowTo(Low(BASIS), stream, |stream|);
    LowIs(BASIS, stream, |stream|, h, l);
    var g, k := Absorb(h, 0xff), LowAbsorb(l, 0xff);
    AbsorbLowIs(h, 0xff, g, l);
    LowIs(g, key, |key|, AbsorbTo(g, key, |key|), LowTo(k, key, |key|));
    LowMod(AbsorbTo(g, key, |key|), LowTo(k, key, |key|));
  }

  /** Bytes widen without loss, so buckets compare as they do. */
  lemma BucketsAre(stream: Bytes, key: Bytes, stream': Bytes, key': Bytes)
    ensures Bucket(stream, key) == Bucket(stream', key') <==> LowBucket(stream, key) == LowBucket(stream', key')
  {
    BucketIs(stream, key);
    BucketIs(stream', key');
    Widens(LowBucket(stream, key), LowBucket(stream', key'));
  }

  lemma Widens(x: bv8, y: bv8)
    ensures x as bv64 == y as bv64 <==> x == y
    ensures x < 64 && y < 64 ==> (x as bv64 == (y as bv64) + 32 <==> x == y + 32)
  {}

  // ------------------------------------------------------------------ keys that differ in bit 5

  function Flip(flipped: bool): bv8 {
    if flipped then 0x20 else 0
  }

  /** A difference in bit 5 passes through a byte, and a second one cancels it. */
  lemma FlipThrough(h: bv8, g: bv8, o: bool, x: bv8, y: bv8, e: bool)
    requires h ^ g == Flip(o) && x ^ y == Flip(e)
    ensures LowAbsorb(h, x) ^ LowAbsorb(g, y) == Flip(o != e)
  {}

  /** The two states are alike, or apart by bit 5, after `n` bytes. */
  ghost predicate Parted(t: Bytes, u: Bytes, n: nat, flipped: bool) {
    forall k: nat :: k == n ==> PartedTo(t, u, k, flipped)
  }

  ghost predicate PartedTo(t: Bytes, u: Bytes, n: nat, flipped: bool) {
    n < |t| == |u| && t[n] ^ u[n] == Flip(flipped)
  }

  /** They differ by a flip after an odd number of them, and by nothing after an even one. */
  lemma {:induction false} AbsorbAlike(a: Bytes, b: Bytes, t: Bytes, u: Bytes, n: nat)
    requires n <= |a| && CaseAlike(a, b) && Trace(a, t) && Trace(b, u) && t[0] == u[0]
    ensures Parted(t, u, n, FlipsTo(a, b, n) % 2 == 1)
  {
    if n == 0 {
      SameState(t[0], u[0]);
    } else {
      var flipped := a[n - 1] ^ b[n - 1] == 0x20;
      AbsorbAlike(a, b, t, u, n - 1);
      FlipNow(a[n - 1], b[n - 1], flipped);
      assert StepAt(a, t, n - 1) && StepAt(b, u, n - 1);
      AlikeNext(t, u, n - 1, n, FlipsTo(a, b, n - 1) % 2 == 1, a[n - 1], b[n - 1], flipped, FlipsTo(a, b, n) % 2 == 1);
    }
  }

  lemma AlikeNext(t: Bytes, u: Bytes, n: nat, m: nat, had: bool, x: bv8, y: bv8, flipped: bool, has: bool)
    requires m == n + 1 < |t| == |u| && Parted(t, u, n, had) && x ^ y == Flip(flipped) && has == (had != flipped)
    requires Goes(t[n], x, t[m]) && Goes(u[n], y, u[m])
    ensures Parted(t, u, m, has)
  {
    assert PartedTo(t, u, n, had);
    FlipGoes(t[n], u[n], had, x, y, flipped, t[m], u[m]);
  }

  lemma FlipGoes(h: bv8, g: bv8, o: bool, x: bv8, y: bv8, e: bool, h': bv8, g': bv8)
    requires h ^ g == Flip(o) && x ^ y == Flip(e) && Goes(h, x, h') && Goes(g, y, g')
    ensures h' ^ g' == Flip(o != e)
  {
    assert GoesBy(h, x, h') && GoesBy(g, y, g');
    FlipThrough(h, g, o, x, y, e);
  }

  lemma FlipNow(x: bv8, y: bv8, flipped: bool)
    requires (x ^ y == 0 || x ^ y == 0x20) && flipped == (x ^ y == 0x20)
    ensures x ^ y == Flip(flipped)
  {}

  /** The states two keys lead through after one stream. */
  lemma KeyTraces(stream: Bytes, a: Bytes, b: Bytes) returns (t: Bytes, u: Bytes)
    ensures Trace(a, t) && Trace(b, u) && t[0] == u[0] == LowAbsorb(LowTo(Low(BASIS), stream, |stream|), 0xff)
    ensures t[|a|] == LowBucket(stream, a) && u[|b|] == LowBucket(stream, b)
  {
    var l := LowAbsorb(LowTo(Low(BASIS), stream, |stream|), 0xff);
    LowSmall(LowTo(Low(BASIS), stream, |stream|), 0xff);
    t := WholeTrace(l, a);
    u := WholeTrace(l, b);
  }

  lemma LowSmall(l: bv8, x: bv8)
    ensures LowAbsorb(l, x) < 64
  {}

  /** Keys that differ in bit 5 at an even number of places share every stream's bucket. */
  lemma SameBucket(stream: Bytes, a: Bytes, b: Bytes)
    requires CaseAlike(a, b) && FlipsTo(a, b, |a|) % 2 == 0
    ensures Bucket(stream, a) == Bucket(stream, b)
  {
    var t, u := KeyTraces(stream, a, b);
    AbsorbAlike(a, b, t, u, |a|);
    assert PartedTo(t, u, |a|, false);
    SameState(t[|a|], u[|b|]);
    BucketsAre(stream, a, stream, b);
  }

  /** At an odd number of places they are 32 buckets apart for every stream. */
  lemma BucketsApart(stream: Bytes, a: Bytes, b: Bytes)
    requires CaseAlike(a, b) && FlipsTo(a, b, |a|) % 2 == 1
    ensures Bucket(stream, a) == Bucket(stream, b) + 32 || Bucket(stream, b) == Bucket(stream, a) + 32
    ensures Bucket(stream, a) < 64 && Bucket(stream, b) < 64
  {
    var t, u := KeyTraces(stream, a, b);
    AbsorbAlike(a, b, t, u, |a|);
    assert PartedTo(t, u, |a|, true);
    BucketIs(stream, a);
    BucketIs(stream, b);
    ApartBy(LowBucket(stream, a), LowBucket(stream, b));
  }

  lemma SameState(x: bv8, y: bv8)
    ensures x ^ y == 0 <==> x == y
  {}

  lemma ApartBy(x: bv8, y: bv8)
    requires x < 64 && y < 64 && x ^ y == 0x20
    ensures x as bv64 == (y as bv64) + 32 || y as bv64 == (x as bv64) + 32
    ensures x as bv64 < 64 && y as bv64 < 64
  {}

  // ------------------------------------------------------------------ strings one byte apart

  /**
   * Whether two bytes lead from one state to the same bucket: their six low bits must move it
   * apart by exactly what their two high bits differ in.
   */
  predicate BytesMeet(l: bv8, x: bv8, y: bv8) {
    LowStep(l, x) ^ LowStep(l, y) == (x >> 6) ^ (y >> 6)
  }

  lemma AbsorbMeets(l: bv8, x: bv8, y: bv8)
    ensures LowAbsorb(l, x) == LowAbsorb(l, y) <==> BytesMeet(l, x, y)
  {
    StepMeets(LowStep(l, x), LowStep(l, y), x >> 6, y >> 6);
  }

  lemma StepMeets(u: bv8, v: bv8, p: bv8, q: bv8)
    requires u < 64 && v < 64 && p < 64 && q < 64
    ensures LowStep(u, p) == LowStep(v, q) <==> u ^ v == p ^ q
  {
    TimesKeeps(u ^ p, v ^ q);
    XorMoves(u, v, p, q);
  }

  lemma TimesKeeps(u: bv8, v: bv8)
    requires u < 64 && v < 64
    ensures (u * 51) & 63 == (v * 51) & 63 <==> u == v
  {}

  lemma XorMoves(u: bv8, v: bv8, p: bv8, q: bv8)
    ensures u ^ p == v ^ q <==> u ^ v == p ^ q
    ensures u < 64 && p < 64 ==> u ^ p < 64
    ensures v < 64 && q < 64 ==> v ^ q < 64
  {}

  /** Bytes that differ only in the high two bits, or only in the low six, never meet. */
  lemma NeverMeet(l: bv8, x: bv8, y: bv8)
    requires NeverMeets(x, y)
    ensures !BytesMeet(l, x, y)
  {}

  predicate NeverMeets(x: bv8, y: bv8) {
    x != y && ((x ^ y) & 0x3f == 0 || (x ^ y) & 0xc0 == 0)
  }

  /** The multiplier is odd, so a byte loses nothing of a state's six bits. */
  lemma AbsorbKeeps(l: bv8, k: bv8, x: bv8)
    requires l < 64 && k < 64
    ensures LowAbsorb(l, x) == LowAbsorb(k, x) <==> l == k
    ensures LowAbsorb(l, x) < 64 && LowAbsorb(k, x) < 64
  {}

  /** Over bytes two strings share, states that agree stay so, and states that do not, too. */
  lemma {:induction false} SharedBytes(a: Bytes, b: Bytes, t: Bytes, u: Bytes, i: nat, j: nat)
    requires |a| == |b| && i <= j <= |a| && Trace(a, t) && Trace(b, u) && forall k :: i <= k < j ==> a[k] == b[k]
    requires t[i] < 64 && u[i] < 64
    ensures t[j] == u[j] <==> t[i] == u[i]
    ensures t[j] < 64 && u[j] < 64
    decreases j
  {
    if i < j {
      SharedBytes(a, b, t, u, i, j - 1);
      assert StepAt(a, t, j - 1) && StepAt(b, u, j - 1);
      assert GoesBy(t[j - 1], a[j - 1], t[j]) && GoesBy(u[j - 1], a[j - 1], u[j]);
      AbsorbKeeps(t[j - 1], u[j - 1], a[j - 1]);
    }
  }

  /** Two strings that differ at `p` alone: they part there, and stay apart, unless the two bytes meet. */
  lemma OneByte(a: Bytes, b: Bytes, t: Bytes, u: Bytes, p: nat)
    requires OneApart(a, b, p) && Trace(a, t) && Trace(b, u) && t[0] == u[0]
    ensures t[|a|] == u[|b|] <==> BytesMeet(t[p], a[p], b[p])
    ensures t[|a|] < 64 && u[|b|] < 64 && t[p] == u[p]
    ensures NeverMeets(a[p], b[p]) ==> t[|a|] != u[|b|]
  {
    SharedBytes(a, b, t, u, 0, p);
    assert StepAt(a, t, p) && StepAt(b, u, p) && GoesBy(t[p], a[p], t[p + 1]) && GoesBy(u[p], b[p], u[p + 1]);
    AbsorbMeets(t[p], a[p], b[p]);
    LowSmall(t[p], a[p]);
    LowSmall(t[p], b[p]);
    SharedBytes(a, b, t, u, p + 1, |a|);
    if NeverMeets(a[p], b[p]) {
      NeverMeet(t[p], a[p], b[p]);
    }
  }

  /** Strings of one length that differ at `p` and nowhere else. */
  ghost predicate OneApart(a: Bytes, b: Bytes, p: nat) {
    |a| == |b| && p < |a| && a[p] != b[p] && forall k :: 0 <= k < |a| && k != p ==> a[k] == b[k]
  }

  /**
   * Source keys that differ at `p` alone share a stream's bucket exactly where the two bytes meet in
   * the state they are absorbed into; so never where they differ in their high two bits alone, as
   * `-` and `m` do, nor in their low six alone.
   */
  lemma KeysOneByte(stream: Bytes, a: Bytes, b: Bytes, p: nat)
    requires OneApart(a, b, p)
    ensures var l := LowTo(LowAbsorb(LowTo(Low(BASIS), stream, |stream|), 0xff), a, p);
            Bucket(stream, a) == Bucket(stream, b) <==> BytesMeet(l, a[p], b[p])
    ensures NeverMeets(a[p], b[p]) ==> Bucket(stream, a) != Bucket(stream, b)
  {
    var t, u := KeyTraces(stream, a, b);
    TraceAt(a, t, p);
    OneByte(a, b, t, u, p);
    BucketsAre(stream, a, stream, b);
  }

  lemma {:induction false} TraceAt(s: Bytes, t: Bytes, n: nat)
    requires Trace(s, t) && n <= |s|
    ensures t[n] == LowTo(t[0], s, n)
  {
    if n > 0 {
      TraceAt(s, t, n - 1);
      assert StepAt(s, t, n - 1) && GoesBy(t[n - 1], s[n - 1], t[n]);
    }
  }

  /** The stream takes part in the same way, under every source key. */
  lemma StreamsOneByte(a: Bytes, b: Bytes, p: nat, key: Bytes)
    requires OneApart(a, b, p)
    ensures Bucket(a, key) == Bucket(b, key) <==> BytesMeet(LowTo(Low(BASIS), a, p), a[p], b[p])
    ensures NeverMeets(a[p], b[p]) ==> Bucket(a, key) != Bucket(b, key)
  {
    LowBasis();
    var t := WholeTrace(Low(BASIS), a);
    var u := WholeTrace(Low(BASIS), b);
    TraceAt(a, t, p);
    OneByte(a, b, t, u, p);
    AfterStream(t[|a|], u[|b|], a, b, key);
    BucketsAre(a, key, b, key);
  }

  lemma LowBasis()
    ensures Low(BASIS) < 64
  {}

  lemma AfterStream(x: bv8, y: bv8, a: Bytes, b: Bytes, key: Bytes)
    requires x == LowTo(Low(BASIS), a, |a|) && y == LowTo(Low(BASIS), b, |b|) && x < 64 && y < 64
    ensures LowBucket(a, key) == LowBucket(b, key) <==> x == y
  {
    AbsorbKeeps(x, y, 0xff);
    var t := WholeTrace(LowAbsorb(x, 0xff), key);
    var u := WholeTrace(LowAbsorb(y, 0xff), key);
    SharedBytes(key, key, t, u, 0, |key|);
  }

  lemma LowNext(l: bv8, s: Bytes, n: nat, had: bv8, has: bv8)
    requires n < |s| && LowTo(l, s, n) == had && LowAbsorb(had, s[n]) == has
    ensures LowTo(l, s, n + 1) == has
  {}

  /** A bucket that is known, for the archive of one source: `cpu_usage` always draws the 32nd. */
  lemma KnownBucket()
    ensures Bucket([0x63, 0x70, 0x75, 0x5f, 0x75, 0x73, 0x61, 0x67, 0x65], []) == 32
  {
    var s: Bytes := [0x63, 0x70, 0x75, 0x5f, 0x75, 0x73, 0x61, 0x67, 0x65];
    assert Low(BASIS) == 0x25;
    LowNext(0x25, s, 0, 37, 41);
    LowNext(0x25, s, 1, 41, 14);
    LowNext(0x25, s, 2, 14, 0);
    LowNext(0x25, s, 3, 0, 4);
    LowNext(0x25, s, 4, 4, 38);
    LowNext(0x25, s, 5, 38, 42);
    LowNext(0x25, s, 6, 42, 16);
    LowNext(0x25, s, 7, 16, 28);
    LowNext(0x25, s, 8, 28, 46);
    BucketIs(s, []);
    assert LowAbsorb(46, 0xff) == 32;
  }
}
