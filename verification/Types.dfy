/** The values that move through dendro: rows, catalog facts and results. */
module Types {

  datatype Option<+T> = None | Some(value: T)

  datatype Result<+T> = Ok(value: T) | Err

  /** One byte. */
  type Byte = b: int | 0 <= b < 256

  /** A Rust `str`, as its UTF-8 bytes. Only the wire codec looks inside. */
  type Text = seq<Byte>

  /** A row of the `wal` table; `row` is the caller's opaque BLOB. */
  datatype WalRow = WalRow(stream: Text, ts: int, wallOffset: int, row: seq<Byte>)

  /** A row of the caller's time-keyed store. */
  datatype CallerRow = CallerRow(ts: int, blob: seq<Byte>)

  /** What the catalog knows about a segment. */
  datatype SegmentMeta = SegmentMeta(rows: nat, first: int, last: int)

  /** No later than, where nothing comes before everything. */
  ghost predicate AtMost(w: Option<int>, c: Option<int>) {
    w.Some? ==> c.Some? && w.value <= c.value
  }

  /** `n` bytes, least significant first. */
  function Le(v: nat, n: nat): (r: seq<Byte>)
    ensures |r| == n
  {
    if n == 0 then [] else [v % 256] + Le(v / 256, n - 1)
  }

  function Pow256(n: nat): (r: nat)
    ensures r > 0
  {
    if n == 0 then 1 else 256 * Pow256(n - 1)
  }

  lemma Assoc<T>(a: seq<T>, b: seq<T>, c: seq<T>)
    ensures a + (b + c) == (a + b) + c
  {}

  /** `out` is `all` at the positions `idx`, in order. */
  ghost predicate Picks<T>(all: seq<T>, out: seq<T>, idx: seq<nat>) {
    && |idx| == |out|
    && (forall k: nat :: k < |idx| ==> PickedAt(all, out, idx, k))
    && (forall a: nat, b: nat :: a < b < |idx| ==> RisesAt(idx, a, b))
  }

  ghost predicate PickedAt<T>(all: seq<T>, out: seq<T>, idx: seq<nat>, k: nat)
    requires k < |idx| == |out|
  {
    idx[k] < |all| && out[k] == all[idx[k]]
  }

  ghost predicate RisesAt(idx: seq<nat>, a: nat, b: nat)
    requires a < |idx| && b < |idx|
  {
    idx[a] < idx[b]
  }

  /** The positions of a list's picks, once a first element is put before it. */
  function Shifted(idx: seq<nat>, first: bool): seq<nat> {
    (if first then [0] else []) + seq(|idx|, i requires 0 <= i < |idx| => idx[i] + 1)
  }

  lemma ShiftPicks<T>(x: T, rest: seq<T>, out: seq<T>, idx: seq<nat>, first: bool, all: seq<T>, more: seq<T>, jdx: seq<nat>)
    requires Picks(rest, out, idx) && all == [x] + rest && more == (if first then [x] else []) + out && jdx == Shifted(idx, first)
    ensures Picks(all, more, jdx)
    ensures forall i: nat :: i < |all| ==> (i in jdx <==> if i == 0 then first else i - 1 in idx)
  {
    var o := if first then 1 else 0;
    forall k: nat | k < |jdx| ensures PickedAt(all, more, jdx, k) {
      assert k >= o ==> PickedAt(rest, out, idx, k - o);
    }
    forall a: nat, b: nat | a < b < |jdx| ensures RisesAt(jdx, a, b) {
      assert a >= o ==> RisesAt(idx, a - o, b - o);
    }
    forall i: nat | i < |all| ensures i in jdx <==> if i == 0 then first else i - 1 in idx {
      if i > 0 && i - 1 in idx {
        var k: nat :| k < |idx| && idx[k] == i - 1;
        assert jdx[k + o] == i;
      }
      if i in jdx {
        var k: nat :| k < |jdx| && jdx[k] == i;
        assert k >= o ==> idx[k - o] == i - 1;
      }
    }
  }

  /** How often one more element occurs. */
  lemma CountMore<T>(a: seq<T>, x: T, r: T)
    ensures multiset(a + [x])[r] == multiset(a)[r] + if x == r then 1 else 0
  {}

  lemma CountFirst<T>(x: T, a: seq<T>, r: T)
    ensures multiset([x] + a)[r] == multiset(a)[r] + if x == r then 1 else 0
  {}

  function Max(a: int, b: int): int { if a >= b then a else b }

  function Min(a: int, b: int): int { if a <= b then a else b }

  const I64_MIN: int := -0x8000_0000_0000_0000
  const I64_MAX: int := 0x7fff_ffff_ffff_ffff
  const TWO64: nat := 0x1_0000_0000_0000_0000

  /** The order Rust gives strings: byte by byte, a prefix first. */
  predicate Less(a: Text, b: Text) {
    if a == [] || b == [] then a == [] && b != []
    else a[0] < b[0] || (a[0] == b[0] && Less(a[1..], b[1..]))
  }

  lemma {:induction false} LessTrans(a: Text, b: Text, c: Text)
    requires Less(a, b) && Less(b, c)
    ensures Less(a, c)
  {
    if a != [] && a[0] == b[0] == c[0] {
      LessTrans(a[1..], b[1..], c[1..]);
    }
  }

  lemma {:induction false} LessIrreflexive(a: Text)
    ensures !Less(a, a)
  {
    if a != [] {
      LessIrreflexive(a[1..]);
    }
  }

  lemma {:induction false} LessTotal(a: Text, b: Text)
    ensures a == b || Less(a, b) || Less(b, a)
  {
    if a != [] && b != [] && a[0] == b[0] {
      LessTotal(a[1..], b[1..]);
      assert a == [a[0]] + a[1..] && b == [b[0]] + b[1..];
    }
  }

  /** A listing that names each thing once. */
  ghost predicate Distinct(names: seq<Text>) {
    forall i: nat, j: nat :: i < j < |names| ==> NamesDiffer(names, i, j)
  }

  ghost predicate NamesDiffer(names: seq<Text>, i: nat, j: nat)
    requires i < |names| && j < |names|
  {
    names[i] != names[j]
  }

  lemma FreshName(names: seq<Text>, n: nat)
    requires Distinct(names) && n < |names|
    ensures names[n] !in names[..n]
  {
    if names[n] in names[..n] {
      var i: nat :| i < n && names[..n][i] == names[n];
      var probe := NamesDiffer(names, i, n);
    }
  }

  /** A `BTreeMap<String, V>` as its entries in key order. */
  ghost predicate KeyOrder<V>(m: seq<(Text, V)>) {
    forall i, j :: 0 <= i < j < |m| ==> Less(m[i].0, m[j].0)
  }

  lemma KeyOrderDistinct<V>(m: seq<(Text, V)>, i: nat, j: nat)
    requires KeyOrder(m) && i < j < |m|
    ensures m[i].0 != m[j].0
  {
    LessIrreflexive(m[i].0);
  }
}
