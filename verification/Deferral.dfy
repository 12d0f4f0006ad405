/** Deferred seals per stream: a `BTreeMap<String, usize>` of the smallest cap asked for. */
module Deferral {
  import opened Types

  type Listed = seq<(Text, nat)>

  /** `entry(stream).or_insert(cap)`, then the smaller of the two. */
  function Put(listed: Listed, stream: Text, cap: nat): Listed {
    if listed == [] || Less(stream, listed[0].0) then [(stream, cap)] + listed
    else if listed[0].0 == stream then [(stream, Min(listed[0].1, cap))] + listed[1..]
    else [listed[0]] + Put(listed[1..], stream, cap)
  }

  function Remove(listed: Listed, stream: Text): Listed {
    if listed == [] then [] else
    if listed[0].0 == stream then Remove(listed[1..], stream) else [listed[0]] + Remove(listed[1..], stream)
  }

  predicate Lists(listed: Listed, stream: Text) {
    exists i :: 0 <= i < |listed| && listed[i].0 == stream
  }

  /** The cap a stream is listed with. */
  function CapOf(listed: Listed, stream: Text): Option<nat> {
    if listed == [] then None else
    if listed[0].0 == stream then Some(listed[0].1) else CapOf(listed[1..], stream)
  }

  lemma {:induction false} PutOrder(listed: Listed, stream: Text, cap: nat)
    requires KeyOrder(listed)
    ensures KeyOrder(Put(listed, stream, cap))
    ensures forall e :: e in Put(listed, stream, cap) ==> e.0 == stream || e in listed
  {
    var out := Put(listed, stream, cap);
    if listed == [] || Less(stream, listed[0].0) {
      forall i, j | 0 <= i < j < |out| ensures Less(out[i].0, out[j].0) {
        if i == 0 && j > 1 {
          assert Less(listed[0].0, listed[j - 1].0);
          LessTrans(stream, listed[0].0, listed[j - 1].0);
        } else if i > 0 {
          assert Less(listed[i - 1].0, listed[j - 1].0);
        }
      }
    } else if listed[0].0 == stream {
    } else {
      var rest := listed[1..];
      PutOrder(rest, stream, cap);
      LessTotal(stream, listed[0].0);
      forall i, j | 0 <= i < j < |out| ensures Less(out[i].0, out[j].0) {
        if i == 0 {
          var e := Put(rest, stream, cap)[j - 1];
          assert e in Put(rest, stream, cap);
        }
      }
    }
  }

  lemma {:induction false} RemoveOrder(listed: Listed, stream: Text)
    requires KeyOrder(listed)
    ensures KeyOrder(Remove(listed, stream))
    ensures forall e :: e in Remove(listed, stream) <==> e in listed && e.0 != stream
  {
    if listed != [] {
      RemoveOrder(listed[1..], stream);
      assert forall e :: e in listed <==> e == listed[0] || e in listed[1..];
    }
  }

  /** A stream put on the list keeps the smallest cap asked for it, and no other entry moves. */
  lemma {:induction false} PutCap(listed: Listed, stream: Text, cap: nat, other: Text)
    requires KeyOrder(listed)
    ensures CapOf(Put(listed, stream, cap), other) ==
            if other != stream then CapOf(listed, other)
            else Some(Smaller(CapOf(listed, stream), cap))
  {
    if listed == [] || Less(stream, listed[0].0) {
      assert ([(stream, cap)] + listed)[1..] == listed;
      if other == stream {
        AbsentBelow(listed, stream);
      }
    } else if listed[0].0 == stream {
      assert ([(stream, Min(listed[0].1, cap))] + listed[1..])[1..] == listed[1..];
    } else {
      PutCap(listed[1..], stream, cap, other);
      assert ([listed[0]] + Put(listed[1..], stream, cap))[1..] == Put(listed[1..], stream, cap);
    }
  }

  lemma {:induction false} AbsentBelow(listed: Listed, stream: Text)
    requires KeyOrder(listed) && (listed != [] ==> Less(stream, listed[0].0))
    ensures CapOf(listed, stream) == None
  {
    if listed != [] {
      LessIrreflexive(stream);
      if |listed| > 1 {
        assert Less(listed[0].0, listed[1].0);
        LessTrans(stream, listed[0].0, listed[1].0);
      }
      AbsentBelow(listed[1..], stream);
    }
  }

  /** A stream whose seal committed is off the list. */
  lemma {:induction false} RemoveCap(listed: Listed, stream: Text, other: Text)
    ensures CapOf(Remove(listed, stream), other) == if other == stream then None else CapOf(listed, other)
  {
    if listed != [] {
      RemoveCap(listed[1..], stream, other);
      assert ([listed[0]] + Remove(listed[1..], stream))[1..] == Remove(listed[1..], stream);
    }
  }

  function PutAll(listed: Listed, batch: seq<Text>, cap: nat, n: nat): Listed
    requires n <= |batch|
  {
    if n == 0 then listed else Put(PutAll(listed, batch, cap, n - 1), batch[n - 1], cap)
  }

  function RemoveAll(listed: Listed, batch: seq<Text>, n: nat): Listed
    requires n <= |batch|
  {
    if n == 0 then listed else Remove(RemoveAll(listed, batch, n - 1), batch[n - 1])
  }

  lemma {:induction false} PutAllOrder(listed: Listed, batch: seq<Text>, cap: nat, n: nat)
    requires KeyOrder(listed) && n <= |batch|
    ensures KeyOrder(PutAll(listed, batch, cap, n))
  {
    if n > 0 {
      PutAllOrder(listed, batch, cap, n - 1);
      PutOrder(PutAll(listed, batch, cap, n - 1), batch[n - 1], cap);
    }
  }

  lemma {:induction false} RemoveAllOrder(listed: Listed, batch: seq<Text>, n: nat)
    requires KeyOrder(listed) && n <= |batch|
    ensures KeyOrder(RemoveAll(listed, batch, n))
  {
    if n > 0 {
      RemoveAllOrder(listed, batch, n - 1);
      RemoveOrder(RemoveAll(listed, batch, n - 1), batch[n - 1]);
    }
  }

  /** The smaller of the cap a stream had, if any, and the one asked for. */
  function Smaller(had: Option<nat>, cap: nat): nat {
    if had.None? then cap else Min(had.value, cap)
  }

  /** After a deferred batch every one of its streams is listed, at the smallest cap it was asked for. */
  lemma {:induction false} PutAllCap(listed: Listed, batch: seq<Text>, cap: nat, n: nat, s: Text)
    requires KeyOrder(listed) && n <= |batch|
    ensures CapOf(PutAll(listed, batch, cap, n), s) ==
            if s in batch[..n] then Some(Smaller(CapOf(listed, s), cap)) else CapOf(listed, s)
  {
    if n > 0 {
      var p := PutAll(listed, batch, cap, n - 1);
      PutAllCap(listed, batch, cap, n - 1, s);
      PutAllOrder(listed, batch, cap, n - 1);
      PutCap(p, batch[n - 1], cap, s);
      NamedMore(batch, n - 1, n, s);
    }
  }

  lemma NamedMore(batch: seq<Text>, n: nat, m: nat, s: Text)
    requires m == n + 1 <= |batch|
    ensures s in batch[..m] <==> s in batch[..n] || s == batch[n]
  {
    assert batch[..m] == batch[..n] + [batch[n]];
  }

  lemma {:induction false} RemoveAllCap(listed: Listed, batch: seq<Text>, n: nat, s: Text)
    requires n <= |batch|
    ensures CapOf(RemoveAll(listed, batch, n), s) == if s in batch[..n] then None else CapOf(listed, s)
  {
    if n > 0 {
      RemoveAllCap(listed, batch, n - 1, s);
      RemoveCap(RemoveAll(listed, batch, n - 1), batch[n - 1], s);
      NamedMore(batch, n - 1, n, s);
    }
  }

  method PutEach(listed: Listed, batch: seq<Text>, cap: nat) returns (out: Listed)
    ensures out == PutAll(listed, batch, cap, |batch|)
  {
    out := listed;
    for i := 0 to |batch|
      invariant out == PutAll(listed, batch, cap, i)
    {
      out := Put(out, batch[i], cap);
    }
  }

  method RemoveEach(listed: Listed, batch: seq<Text>) returns (out: Listed)
    ensures out == RemoveAll(listed, batch, |batch|)
  {
    out := listed;
    for i := 0 to |batch|
      invariant out == RemoveAll(listed, batch, i)
    {
      out := Remove(out, batch[i]);
    }
  }
}
