/** Which bytes are a `str`: exactly the encodings of Unicode text (RFC 3629, sections 3 and 4). */
module Utf8Text {
  import opened Types
  import opened Wire

  /** A Unicode scalar value: a code point that is no surrogate. */
  predicate Scalar(c: int) {
    0 <= c < 0xD800 || 0xE000 <= c <= 0x10FFFF
  }

  /** A continuation byte. */
  function More(c: nat): Byte {
    0x80 + c % 64
  }

  function Encoded(c: nat): Bytes
    requires Scalar(c)
  {
    if c < 0x80 then [c]
    else if c < 0x800 then [0xC0 + c / 64, More(c)]
    else if c < 0x1_0000 then [0xE0 + c / 4096, More(c / 64), More(c)]
    else [0xF0 + c / 262144, More(c / 4096), More(c / 64), More(c)]
  }

  ghost predicate Scalars(cs: seq<nat>) {
    forall i: nat :: i < |cs| ==> ScalarAt(cs, i)
  }

  ghost predicate ScalarAt(cs: seq<nat>, i: nat)
    requires i < |cs|
  {
    Scalar(cs[i])
  }

  ghost function Text8(cs: seq<nat>): Bytes
    requires Scalars(cs)
    decreases |cs|
  {
    if cs == [] then [] else
    assert ScalarAt(cs, 0);
    assert Scalars(cs[1..]) by { RestScalars(cs); }
    Encoded(cs[0]) + Text8(cs[1..])
  }

  lemma RestScalars(cs: seq<nat>)
    requires Scalars(cs) && cs != []
    ensures Scalars(cs[1..])
  {
    forall i: nat | i < |cs| - 1 ensures ScalarAt(cs[1..], i) {
      assert ScalarAt(cs, i + 1);
    }
  }

  lemma FirstScalar(c: nat, cs: seq<nat>)
    requires Scalar(c) && Scalars(cs)
    ensures Scalars([c] + cs) && Text8([c] + cs) == Encoded(c) + Text8(cs)
  {
    var all := [c] + cs;
    forall i: nat | i < |all| ensures ScalarAt(all, i) {
      assert i > 0 ==> ScalarAt(cs, i - 1);
    }
    assert all[1..] == cs;
  }

  // ------------------------------------------------------------------ every encoding is accepted

  /** The bytes of `c` stand at `at`. */
  ghost predicate StandsAt(s: Bytes, at: nat, c: nat)
    requires Scalar(c)
  {
    at + |Encoded(c)| <= |s| && s[at..at + |Encoded(c)|] == Encoded(c)
  }

  lemma ByteOf(s: Bytes, at: nat, c: nat, i: nat)
    requires Scalar(c) && StandsAt(s, at, c) && i < |Encoded(c)|
    ensures s[at + i] == Encoded(c)[i]
  {
    assert s[at..at + |Encoded(c)|][i] == s[at + i];
  }

  lemma OverTwo(s: Bytes, at: nat, c: nat)
    requires 0x80 <= c < 0x800 && at + 2 <= |s| && s[at] == 0xC0 + c / 64 && s[at + 1] == More(c)
    ensures Utf8From(s, at) == Utf8From(s, at + 2)
  {}

  lemma OverThree(s: Bytes, at: nat, c: nat)
    requires Scalar(c) && 0x800 <= c < 0x1_0000 && at + 3 <= |s|
    requires s[at] == 0xE0 + c / 4096 && s[at + 1] == More(c / 64) && s[at + 2] == More(c)
    ensures Utf8From(s, at) == Utf8From(s, at + 3)
  {}

  lemma OverFour(s: Bytes, at: nat, c: nat)
    requires Scalar(c) && 0x1_0000 <= c && at + 4 <= |s|
    requires s[at] == 0xF0 + c / 262144 && s[at + 1] == More(c / 4096) && s[at + 2] == More(c / 64) && s[at + 3] == More(c)
    ensures Utf8From(s, at) == Utf8From(s, at + 4)
  {}

  lemma StepsOver(s: Bytes, at: nat, c: nat, next: nat)
    requires Scalar(c) && StandsAt(s, at, c) && next == at + |Encoded(c)|
    ensures Utf8From(s, at) == Utf8From(s, next)
  {
    ByteOf(s, at, c, 0);
    if c >= 0x80 {
      ByteOf(s, at, c, 1);
      if c < 0x800 {
        OverTwo(s, at, c);
      } else {
        ByteOf(s, at, c, 2);
        if c < 0x1_0000 {
          OverThree(s, at, c);
        } else {
          ByteOf(s, at, c, 3);
          OverFour(s, at, c);
        }
      }
    }
  }

  lemma Splits(s: Bytes, at: nat, e: Bytes, rest: Bytes, next: nat)
    requires at <= |s| && s[at..] == e + rest && next == at + |e|
    ensures next <= |s| && s[at..next] == e && s[next..] == rest
  {
    assert |s[at..]| == |s| - at;
    assert s[at..next] == s[at..][..|e|];
    assert s[next..] == s[at..][|e|..];
  }

  lemma TextFirst(cs: seq<nat>)
    requires Scalars(cs) && cs != []
    ensures Scalar(cs[0]) && Scalars(cs[1..]) && Text8(cs) == Encoded(cs[0]) + Text8(cs[1..])
  {
    assert ScalarAt(cs, 0);
    RestScalars(cs);
  }

  lemma {:induction false} EncodedAccepted(s: Bytes, at: nat, cs: seq<nat>, text: Bytes)
    requires Scalars(cs) && at <= |s| && text == Text8(cs) && s[at..] == text
    ensures Utf8From(s, at)
    decreases |cs|
  {
    if cs != [] {
      TextFirst(cs);
      var e, rest := Encoded(cs[0]), Text8(cs[1..]);
      Splits(s, at, e, rest, at + |e|);
      EncodedAccepted(s, at + |e|, cs[1..], rest);
      StepsOver(s, at, cs[0], at + |e|);
    }
  }

  // ------------------------------------------------------------------ nothing else is

  lemma TwoBytes(s: Bytes, at: nat) returns (c: nat)
    requires at < |s| && 0xC2 <= s[at] <= 0xDF && Tail(s, at + 1)
    ensures Scalar(c) && Encoded(c) == s[at..at + 2]
  {
    var a: int, b: int := s[at], s[at + 1];
    c := (a - 0xC0) * 64 + (b - 0x80);
    assert c / 64 == s[at] - 0xC0 && c % 64 == s[at + 1] - 0x80;
  }

  lemma ThreeBytes(s: Bytes, at: nat) returns (c: nat)
    requires at < |s| && 0xE0 <= s[at] <= 0xEF && Tail(s, at + 1) && Tail(s, at + 2)
    requires (s[at] == 0xE0 ==> s[at + 1] >= 0xA0) && (s[at] == 0xED ==> s[at + 1] <= 0x9F)
    ensures Scalar(c) && Encoded(c) == s[at..at + 3]
  {
    var x: int, y: int, z: int := s[at], s[at + 1], s[at + 2];
    var d := (x - 0xE0) * 64 + (y - 0x80);
    c := d * 64 + (z - 0x80);
    assert c / 64 == d && c % 64 == s[at + 2] - 0x80;
    assert d / 64 == s[at] - 0xE0 && d % 64 == s[at + 1] - 0x80;
    assert c / 4096 == d / 64;
  }

  lemma FourBytes(s: Bytes, at: nat) returns (c: nat)
    requires at < |s| && 0xF0 <= s[at] <= 0xF4 && Tail(s, at + 1) && Tail(s, at + 2) && Tail(s, at + 3)
    requires (s[at] == 0xF0 ==> s[at + 1] >= 0x90) && (s[at] == 0xF4 ==> s[at + 1] <= 0x8F)
    ensures Scalar(c) && Encoded(c) == s[at..at + 4]
  {
    var w: int, x: int, y: int, z: int := s[at], s[at + 1], s[at + 2], s[at + 3];
    var e := (w - 0xF0) * 64 + (x - 0x80);
    var d := e * 64 + (y - 0x80);
    c := d * 64 + (z - 0x80);
    assert c / 64 == d && c % 64 == s[at + 3] - 0x80;
    assert d / 64 == e && d % 64 == s[at + 2] - 0x80;
    assert e / 64 == s[at] - 0xF0 && e % 64 == s[at + 1] - 0x80;
    assert c / 4096 == d / 64 && c / 262144 == e / 64;
  }

  /** The scalar that accepted bytes start with. */
  lemma FirstOf(s: Bytes, at: nat) returns (c: nat)
    requires at < |s| && Utf8From(s, at)
    ensures Scalar(c) && at + |Encoded(c)| <= |s| && Encoded(c) == s[at..at + |Encoded(c)|]
    ensures Utf8From(s, at + |Encoded(c)|)
  {
    if s[at] < 0x80 {
      c := s[at];
      assert s[at..at + 1] == [c];
    } else if s[at] <= 0xDF {
      c := TwoBytes(s, at);
    } else if s[at] <= 0xEF {
      c := ThreeBytes(s, at);
    } else {
      c := FourBytes(s, at);
    }
  }

  lemma Joins(s: Bytes, at: nat, next: nat)
    requires at <= next <= |s|
    ensures s[at..] == s[at..next] + s[next..]
  {}

  lemma {:induction false} AcceptedEncodes(s: Bytes, at: nat) returns (cs: seq<nat>)
    requires at <= |s| && Utf8From(s, at)
    ensures Scalars(cs) && Text8(cs) == s[at..]
    decreases |s| - at
  {
    if at == |s| {
      cs := [];
    } else {
      var c := FirstOf(s, at);
      var e := Encoded(c);
      var rest := AcceptedEncodes(s, at + |e|);
      FirstScalar(c, rest);
      cs := [c] + rest;
      Joins(s, at, at + |e|);
    }
  }

  ghost predicate Encodes(s: Bytes, cs: seq<nat>) {
    Scalars(cs) && Text8(cs) == s
  }

  /** Bytes are accepted as a `str` exactly when they encode some sequence of Unicode scalar values. */
  lemma Utf8Exactly(s: Bytes)
    ensures Utf8(s) <==> exists cs: seq<nat> :: Encodes(s, cs)
  {
    assert s[0..] == s;
    if Utf8(s) {
      var cs := AcceptedEncodes(s, 0);
      assert Encodes(s, cs);
    }
    if cs: seq<nat> :| Encodes(s, cs) {
      EncodedAccepted(s, 0, cs, s);
    }
  }
}
