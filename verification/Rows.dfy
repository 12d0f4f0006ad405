/** Runs of WAL rows in timestamp order, and the queries SQL makes of them. */
module Rows {
  import opened Types

  ghost predicate Lt(s: seq<WalRow>, i: nat, j: nat)
    requires i < |s| && j < |s|
  {
    s[i].ts < s[j].ts
  }

  ghost predicate Sorted(s: seq<WalRow>) {
    forall i: nat, j: nat :: i < j < |s| ==> Lt(s, i, j)
  }

  ghost predicate Below(s: seq<WalRow>, i: nat, c: int)
    requires i < |s|
  {
    s[i].ts < c
  }

  ghost predicate Past(s: seq<WalRow>, i: nat, w: int)
    requires i < |s|
  {
    w < s[i].ts
  }

  /** The first `n` rows are below `c`, and the next one, if any, is not. */
  ghost predicate SplitsAt(s: seq<WalRow>, n: nat, c: int) {
    && n <= |s|
    && (forall k: nat :: k < n ==> Below(s, k, c))
    && (n < |s| ==> !Below(s, n, c))
  }

  /** `SELECT ... WHERE ts >= c`, and equally what `DELETE ... WHERE ts < c` leaves. */
  function From(s: seq<WalRow>, c: int): (r: seq<WalRow>)
    ensures |r| <= |s|
  {
    if s == [] then [] else
    if s[0].ts >= c then [s[0]] + From(s[1..], c) else From(s[1..], c)
  }

  /** Whether the primary key `(source, stream, ts)` already holds `ts`. */
  predicate HasTs(s: seq<WalRow>, ts: int) {
    exists i :: 0 <= i < |s| && s[i].ts == ts
  }

  /** `INSERT` into the key-ordered table. */
  function Insert(s: seq<WalRow>, r: WalRow): seq<WalRow> {
    if s == [] || r.ts < s[0].ts then [r] + s else [s[0]] + Insert(s[1..], r)
  }

  lemma FromCons(x: WalRow, rest: seq<WalRow>, c: int)
    ensures From([x] + rest, c) == if x.ts >= c then [x] + From(rest, c) else From(rest, c)
  {
    assert ([x] + rest)[1..] == rest;
  }

  lemma {:induction false} FromConcat(s: seq<WalRow>, t: seq<WalRow>, c: int)
    ensures From(s + t, c) == From(s, c) + From(t, c)
  {
    if s == [] {
      assert s + t == t;
    } else {
      var x, rest := s[0], s[1..];
      assert s == [x] + rest && s + t == [x] + (rest + t);
      FromCons(x, rest + t, c);
      FromCons(x, rest, c);
      FromConcat(rest, t, c);
      Assoc([x], From(rest, c), From(t, c));
    }
  }

  /** Two cutoffs in either order are the higher one. */
  lemma {:induction false} FromFrom(s: seq<WalRow>, a: int, b: int)
    ensures From(From(s, a), b) == From(s, Max(a, b))
  {
    if s != [] {
      FromFrom(s[1..], a, b);
      if s[0].ts >= a {
        FromConcat([s[0]], From(s[1..], a), b);
      }
    }
  }

  /** `SELECT ... WHERE ts < c`. */
  function Before(s: seq<WalRow>, c: int): seq<WalRow> {
    if s == [] then [] else
    if s[0].ts < c then [s[0]] + Before(s[1..], c) else Before(s[1..], c)
  }

  /** A cutoff splits the rows and loses none. */
  lemma {:induction false} BeforeFrom(s: seq<WalRow>, c: int)
    ensures multiset(s) == multiset(Before(s, c)) + multiset(From(s, c))
  {
    if s != [] {
      var head, rest := s[0], s[1..];
      BeforeFrom(rest, c);
      assert s == [head] + rest;
      assert multiset(s) == multiset{head} + multiset(rest);
    }
  }

  /** `SELECT COUNT(*) ... WHERE ts < c`. */
  function CountBelow(s: seq<WalRow>, c: int): nat {
    if s == [] then 0 else (if s[0].ts < c then 1 else 0) + CountBelow(s[1..], c)
  }

  lemma {:induction false} FromCount(s: seq<WalRow>, c: int)
    ensures |From(s, c)| + CountBelow(s, c) == |s|
  {
    if s != [] {
      FromCount(s[1..], c);
    }
  }

  lemma {:induction false} FromMembers(s: seq<WalRow>, c: int, r: WalRow)
    ensures r in From(s, c) <==> r in s && r.ts >= c
  {
    if s != [] {
      FromMembers(s[1..], c, r);
      assert r in s <==> r == s[0] || r in s[1..];
    }
  }

  lemma {:induction false} FromAll(s: seq<WalRow>, c: int)
    requires forall k: nat :: k < |s| ==> !Below(s, k, c)
    ensures From(s, c) == s
  {
    if s != [] {
      assert !Below(s, 0, c);
      forall k: nat | k < |s| - 1 ensures !Below(s[1..], k, c) {
        assert !Below(s, k + 1, c);
      }
      FromAll(s[1..], c);
    }
  }

  lemma {:induction false} FromNone(s: seq<WalRow>, c: int)
    requires forall k: nat :: k < |s| ==> Below(s, k, c)
    ensures From(s, c) == []
  {
    if s != [] {
      assert Below(s, 0, c);
      forall k: nat | k < |s| - 1 ensures Below(s[1..], k, c) {
        assert Below(s, k + 1, c);
      }
      FromNone(s[1..], c);
    }
  }

  /** On sorted rows the query is the suffix that starts at the cut. */
  lemma FromIs(s: seq<WalRow>, c: int, i: nat)
    requires Sorted(s) && SplitsAt(s, i, c)
    ensures From(s, c) == s[i..]
  {
    var a, b := s[..i], s[i..];
    assert s == a + b;
    FromConcat(a, b, c);
    forall k: nat | k < |a| ensures Below(a, k, c) {
      assert Below(s, k, c);
    }
    FromNone(a, c);
    forall k: nat | k < |b| ensures !Below(b, k, c) {
      SortedLe(s, i, i + k);
      assert !Below(s, i, c);
    }
    FromAll(b, c);
  }

  lemma CutExists(s: seq<WalRow>, c: int) returns (i: nat)
    requires Sorted(s)
    ensures SplitsAt(s, i, c) && From(s, c) == s[i..]
  {
    i := 0;
    while i < |s| && s[i].ts < c
      invariant i <= |s|
      invariant forall k: nat :: k < i ==> Below(s, k, c)
    {
      assert Below(s, i, c);
      i := i + 1;
    }
    FromIs(s, c, i);
  }

  lemma SortedLe(s: seq<WalRow>, i: nat, j: nat)
    requires Sorted(s) && i <= j < |s|
    ensures s[i].ts <= s[j].ts
  {
    assert i < j ==> Lt(s, i, j);
  }

  lemma SortedSlice(s: seq<WalRow>, i: nat, j: nat)
    requires Sorted(s) && i <= j <= |s|
    ensures Sorted(s[i..j])
  {
    forall a: nat, b: nat | a < b < j - i ensures Lt(s[i..j], a, b) {
      assert Lt(s, i + a, i + b);
    }
  }

  lemma SortedSuffix(s: seq<WalRow>, i: nat)
    requires Sorted(s) && i <= |s|
    ensures Sorted(s[i..])
  {
    SortedSlice(s, i, |s|);
    assert s[i..|s|] == s[i..];
  }

  lemma FromSorted(s: seq<WalRow>, c: int)
    requires Sorted(s)
    ensures Sorted(From(s, c))
    ensures forall k: nat :: k < |From(s, c)| ==> !Below(From(s, c), k, c)
  {
    var i := CutExists(s, c);
    SortedSuffix(s, i);
    var r := From(s, c);
    forall k: nat | k < |r| ensures !Below(r, k, c) {
      assert r[k] in r;
      FromMembers(s, c, r[k]);
    }
  }

  lemma SortedConcat(s: seq<WalRow>, t: seq<WalRow>)
    requires Sorted(s) && Sorted(t)
    requires s != [] && t != [] ==> s[|s| - 1].ts < t[0].ts
    ensures Sorted(s + t)
  {
    var u := s + t;
    forall i: nat, j: nat | i < j < |u| ensures Lt(u, i, j) {
      if j < |s| {
        assert Lt(s, i, j);
      } else if i >= |s| {
        assert Lt(t, i - |s|, j - |s|);
      } else {
        SortedLe(s, i, |s| - 1);
        SortedLe(t, 0, j - |s|);
      }
    }
  }

  lemma {:induction false} InsertMultiset(s: seq<WalRow>, r: WalRow)
    ensures multiset(Insert(s, r)) == multiset(s) + multiset{r}
    ensures forall x :: x in Insert(s, r) <==> x in s || x == r
  {
    if s == [] || r.ts < s[0].ts {
    } else {
      InsertMultiset(s[1..], r);
      assert s == [s[0]] + s[1..];
    }
  }

  lemma {:induction false} InsertSorted(s: seq<WalRow>, r: WalRow)
    requires Sorted(s) && !HasTs(s, r.ts)
    ensures Sorted(Insert(s, r))
  {
    if s == [] || r.ts < s[0].ts {
      SortedConcat([r], s);
    } else {
      var rest := s[1..];
      assert forall i :: 0 <= i < |rest| ==> rest[i] == s[i + 1];
      SortedSuffix(s, 1);
      InsertSorted(rest, r);
      assert rest != [] ==> Lt(s, 0, 1);
      assert Insert(rest, r)[0] == r || (rest != [] && Insert(rest, r)[0] == rest[0]);
      SortedConcat([s[0]], Insert(rest, r));
    }
  }

  /** Inserting at or above a cutoff commutes with the query past it. */
  lemma {:induction false} FromInsert(s: seq<WalRow>, r: WalRow, c: int)
    requires Sorted(s) && r.ts >= c
    ensures From(Insert(s, r), c) == Insert(From(s, c), r)
  {
    if s == [] || r.ts < s[0].ts {
      FromConcat([r], s, c);
      var _ := CutExists(s, c);
      assert From([r], c) == [r];
    } else {
      SortedSuffix(s, 1);
      FromInsert(s[1..], r, c);
      FromConcat([s[0]], Insert(s[1..], r), c);
      if s[0].ts >= c {
        assert From(s, c)[1..] == From(s[1..], c);
      } else {
        assert From(s, c) == From(s[1..], c);
      }
    }
  }

  /** A row past every row held lands at the end. */
  lemma {:induction false} InsertAtEnd(s: seq<WalRow>, r: WalRow)
    requires forall i: nat :: i < |s| ==> Below(s, i, r.ts)
    ensures Insert(s, r) == s + [r] && !HasTs(s, r.ts)
  {
    if s != [] {
      assert Below(s, 0, r.ts);
      forall i: nat | i < |s| - 1 ensures Below(s[1..], i, r.ts) {
        assert Below(s, i + 1, r.ts);
      }
      InsertAtEnd(s[1..], r);
      assert s == [s[0]] + s[1..];
    }
    forall i: nat | i < |s| ensures s[i].ts != r.ts {
      assert Below(s, i, r.ts);
    }
  }

  /** A sorted run whose last row is below `c` is wholly below it. */
  lemma SortedBelow(s: seq<WalRow>, c: int)
    requires Sorted(s) && (s != [] ==> s[|s| - 1].ts < c)
    ensures forall i: nat :: i < |s| ==> Below(s, i, c)
  {
    forall i: nat | i < |s| ensures Below(s, i, c) {
      SortedLe(s, i, |s| - 1);
    }
  }
}
