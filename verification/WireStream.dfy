/** A stream of frames (`FrameReader` in src/replicate/wire.rs), as values. */
module WireStream {
  import opened Types
  import opened Frames
  import opened Wire
  import opened WireRoundTrip

  /** The preamble: the magic and the version. */
  const PREAMBLE: Bytes := MAGIC + Le(PROTOCOL_VERSION, 2)

  /** `FrameReader::new`: where the frames start, when the preamble is this build's. */
  function Open(b: Bytes): Result<nat> {
    if 14 <= |b| && b[..12] == MAGIC && LeValue(b, 12, 2) == PROTOCOL_VERSION then Ok(14) else Err
  }

  datatype Payload = CleanEnd | Refused | Payload(body: Bytes, next: nat)

  /** `read_payload`: ending inside the length is a clean end, inside the payload an error. */
  function NextPayload(b: Bytes, at: nat): Payload {
    if at + 4 > |b| then CleanEnd else
    var len := LeValue(b, at, 4);
    if len > MAX_FRAME_BYTES || at + 4 + len > |b| then Refused
    else Payload(b[at + 4..at + 4 + len], at + 4 + len)
  }

  /** A length over the limit, whatever follows it. */
  predicate Oversized(b: Bytes, at: nat) {
    at + 4 <= |b| && LeValue(b, at, 4) > MAX_FRAME_BYTES
  }

  /** What a call of `next_frame` leaves: the frame or the end, the position and the skip count. */
  datatype Step = Step(frame: Option<WireFrame>, at: nat, skipped: nat)

  function NextFrame(b: Bytes, at: nat, skipped: nat): Result<Step>
    decreases |b| - at
  {
    match NextPayload(b, at)
    case CleanEnd => Ok(Step(None, at, skipped))
    case Refused => Err
    case Payload(body, next) =>
      match Decode(body)
      case Err => Err
      case Ok(None) => NextFrame(b, next, skipped + 1)
      case Ok(Some(f)) => Ok(Step(Some(f), next, skipped))
  }

  datatype All = All(frames: seq<WireFrame>, skipped: nat)

  lemma {:induction false} NextAdvances(b: Bytes, at: nat, skipped: nat)
    ensures var s := NextFrame(b, at, skipped);
            s.Ok? && s.value.frame.Some? ==> at < s.value.at <= |b|
    decreases |b| - at
  {
    match NextPayload(b, at)
    case Payload(body, next) =>
      if Decode(body) == Ok(None) {
        NextAdvances(b, next, skipped + 1);
      }
    case _ =>
  }

  /** Every frame to the clean end. */
  function ReadAll(b: Bytes, at: nat, skipped: nat): Result<All>
    decreases |b| - at
  {
    match NextFrame(b, at, skipped)
    case Err => Err
    case Ok(Step(None, _, s)) => Ok(All([], s))
    case Ok(Step(Some(f), next, s)) =>
      NextAdvances(b, at, skipped);
      Prepend([f], ReadAll(b, next, s))
  }

  function Prepend(fs: seq<WireFrame>, r: Result<All>): Result<All> {
    match r
    case Err => Err
    case Ok(All(gs, s)) => Ok(All(fs + gs, s))
  }

  /** What a publisher writes: a frame this build knows, or one of a later kind. */
  datatype Item = Known(frame: WireFrame) | Later(body: Bytes)

  function ItemBody(i: Item): Bytes {
    match i
    case Known(f) => Body(f)
    case Later(b) => b
  }

  ghost predicate ItemOk(i: Item) {
    && |ItemBody(i)| <= MAX_FRAME_BYTES
    && match i
       case Known(f) => FrameOk(f)
       case Later(b) => b != [] && !(1 <= b[0] <= 6)
  }

  ghost predicate ItemsOk(items: seq<Item>) {
    forall i: nat :: i < |items| ==> ItemAt(items, i)
  }

  ghost predicate ItemAt(items: seq<Item>, i: nat)
    requires i < |items|
  {
    ItemOk(items[i])
  }

  function PutItems(items: seq<Item>): Bytes {
    if items == [] then [] else Framed(ItemBody(items[0])) + PutItems(items[1..])
  }

  function KnownFrames(items: seq<Item>): seq<WireFrame> {
    if items == [] then [] else FrameIn(items[0]) + KnownFrames(items[1..])
  }

  function LaterCount(items: seq<Item>): nat {
    if items == [] then 0 else SkipOf(items[0]) + LaterCount(items[1..])
  }

  lemma PayloadBack(b: Bytes, at: nat, body: Bytes)
    requires Has(b, at, Framed(body)) && |body| <= MAX_FRAME_BYTES
    ensures NextPayload(b, at) == Payload(body, at + 4 + |body|)
  {
    HasSplit(b, at, Le(|body|, 4), body);
    Read32(b, at, |body|);
    HasIs(b, at + 4, body);
  }

  lemma DecodeItem(i: Item)
    requires ItemOk(i)
    ensures Decode(ItemBody(i)) == Ok(if i.Known? then Some(i.frame) else None)
  {
    if i.Known? {
      RoundTrip(i.frame);
    }
  }

  /** Reading on from `at` gives `fs`, and then what reading on from `end` gives. */
  ghost predicate Follows(b: Bytes, at: nat, s: nat, fs: seq<WireFrame>, end: nat, s': nat) {
    forall k: nat :: FollowsTo(b, at, s, fs, end, s', k)
  }

  ghost predicate FollowsTo(b: Bytes, at: nat, s: nat, fs: seq<WireFrame>, end: nat, s': nat, k: nat) {
    k == end ==> ReadAll(b, at, s) == Prepend(fs, ReadAll(b, end, s'))
  }

  lemma FollowsNone(b: Bytes, at: nat, s: nat)
    ensures Follows(b, at, s, [], at, s)
  {
    PrependNone(ReadAll(b, at, s));
  }

  lemma FollowsTrans(
    b: Bytes, at: nat, s: nat, x: seq<WireFrame>, mid: nat, s1: nat, y: seq<WireFrame>, end: nat, s2: nat, all: seq<WireFrame>)
    requires Follows(b, at, s, x, mid, s1) && Follows(b, mid, s1, y, end, s2) && all == x + y
    ensures Follows(b, at, s, all, end, s2)
  {
    assert FollowsTo(b, at, s, x, mid, s1, mid) && FollowsTo(b, mid, s1, y, end, s2, end);
    PrependTwice(x, y, ReadAll(b, end, s2));
  }

  lemma ReadKnown(b: Bytes, at: nat, s: nat, body: Bytes, f: WireFrame, next: nat)
    requires NextPayload(b, at) == Payload(body, next) && Decode(body) == Ok(Some(f))
    ensures Follows(b, at, s, [f], next, s)
  {
    assert NextFrame(b, at, s) == Ok(Step(Some(f), next, s));
  }

  lemma ReadLater(b: Bytes, at: nat, s: nat, body: Bytes, next: nat)
    requires NextPayload(b, at) == Payload(body, next) && Decode(body) == Ok(None)
    ensures Follows(b, at, s, [], next, s + 1)
  {
    assert NextFrame(b, at, s) == NextFrame(b, next, s + 1);
    PrependNone(ReadAll(b, next, s + 1));
  }

  function FrameIn(i: Item): seq<WireFrame> {
    if i.Known? then [i.frame] else []
  }

  function SkipOf(i: Item): nat {
    if i.Later? then 1 else 0
  }

  /** One item read off the stream. */
  lemma ReadItem(b: Bytes, at: nat, s: nat, i: Item, next: nat, s': nat)
    requires ItemOk(i) && Has(b, at, Framed(ItemBody(i))) && next == at + 4 + |ItemBody(i)| && s' == s + SkipOf(i)
    ensures Follows(b, at, s, FrameIn(i), next, s')
  {
    PayloadBack(b, at, ItemBody(i));
    DecodeItem(i);
    match i
    case Known(f) => ReadKnown(b, at, s, ItemBody(i), f, next);
    case Later(_) => ReadLater(b, at, s, ItemBody(i), next);
  }

  /** Items read off the stream, and then whatever follows them. */
  lemma {:induction false} ReadItems(b: Bytes, at: nat, s: nat, items: seq<Item>, frames: seq<WireFrame>, end: nat, s': nat)
    requires ItemsOk(items) && Has(b, at, PutItems(items)) && end == at + |PutItems(items)|
    requires frames == KnownFrames(items) && s' == s + LaterCount(items)
    ensures Follows(b, at, s, frames, end, s')
    decreases |items|
  {
    if items == [] {
      FollowsNone(b, at, s);
    } else {
      var i, rest := items[0], items[1..];
      var next, more, s1 := at + 4 + |ItemBody(i)|, KnownFrames(rest), s + SkipOf(i);
      assert ItemAt(items, 0);
      HasSplit(b, at, Framed(ItemBody(i)), PutItems(rest));
      ReadItem(b, at, s, i, next, s1);
      ItemsTail(items);
      ReadItems(b, next, s1, rest, more, end, s');
      FollowsTrans(b, at, s, FrameIn(i), next, s1, more, end, s', frames);
    }
  }

  lemma PrependNone(r: Result<All>)
    ensures Prepend([], r) == r
  {
    match r
    case Err =>
    case Ok(All(gs, s)) => assert [] + gs == gs;
  }

  lemma PrependTwice(x: seq<WireFrame>, y: seq<WireFrame>, r: Result<All>)
    ensures Prepend(x, Prepend(y, r)) == Prepend(x + y, r)
  {
    match r
    case Err =>
    case Ok(All(gs, s)) => assert x + (y + gs) == x + y + gs;
  }

  lemma ItemsTail(items: seq<Item>)
    requires ItemsOk(items) && items != []
    ensures ItemsOk(items[1..])
  {
    var rest := items[1..];
    forall i: nat | i < |rest| ensures ItemAt(rest, i) {
      assert ItemAt(items, i + 1);
    }
  }

  lemma PreambleOpens(rest: Bytes)
    ensures Open(PREAMBLE + rest) == Ok(14) && Has(PREAMBLE + rest, 14, rest)
  {
    var b := PREAMBLE + rest;
    assert b[..12] == MAGIC && b[12] == 1 && b[13] == 0;
    assert LeValue(b, 12, 2) == b[12] + 256 * (b[13] + 256 * LeValue(b, 14, 0));
    assert b[14..14 + |rest|] == rest;
  }

  /** What ends a stream after its items: nothing, part of a length, or part of a payload. */
  lemma StreamThen(items: seq<Item>, tail: Bytes, b: Bytes, end: nat)
    requires ItemsOk(items) && b == PREAMBLE + (PutItems(items) + tail) && end == |b| - |tail|
    ensures Open(b) == Ok(14) && Has(b, end, tail)
    ensures Follows(b, 14, 0, KnownFrames(items), end, LaterCount(items))
  {
    PreambleOpens(PutItems(items) + tail);
    HasSplit(b, 14, PutItems(items), tail);
    ReadItems(b, 14, 0, items, KnownFrames(items), end, LaterCount(items));
  }

  /** A clean end after the items. */
  lemma EndsThere(items: seq<Item>, b: Bytes, end: nat)
    requires Follows(b, 14, 0, KnownFrames(items), end, LaterCount(items)) && end + 4 > |b|
    ensures ReadAll(b, 14, 0) == Ok(All(KnownFrames(items), LaterCount(items)))
  {
    assert FollowsTo(b, 14, 0, KnownFrames(items), end, LaterCount(items), end);
    assert NextFrame(b, end, LaterCount(items)) == Ok(Step(None, end, LaterCount(items)));
    assert KnownFrames(items) + [] == KnownFrames(items);
  }

  /**
   * A preamble followed by any list of frames, with well-framed later kinds among them, reads
   * back exactly the known frames in order, and the right number skipped.
   */
  lemma StreamBack(items: seq<Item>)
    requires ItemsOk(items)
    ensures var b := PREAMBLE + PutItems(items);
            Open(b) == Ok(14) && ReadAll(b, 14, 0) == Ok(All(KnownFrames(items), LaterCount(items)))
  {
    var b := PREAMBLE + PutItems(items);
    assert PutItems(items) + [] == PutItems(items);
    StreamThen(items, [], b, |b|);
    EndsThere(items, b, |b|);
  }

  /** A stream cut inside a payload is refused: the frames before it do not pass for a whole stream. */
  lemma CutPayloadRefused(items: seq<Item>, body: Bytes, k: nat)
    requires ItemsOk(items) && k < |body| <= MAX_FRAME_BYTES
    ensures ReadAll(PREAMBLE + (PutItems(items) + (Le(|body|, 4) + body[..k])), 14, 0).Err?
  {
    var tail := Le(|body|, 4) + body[..k];
    var b := PREAMBLE + (PutItems(items) + tail);
    var end := |b| - |tail|;
    StreamThen(items, tail, b, end);
    HasSplit(b, end, Le(|body|, 4), body[..k]);
    Read32(b, end, |body|);
    RefusedThere(items, b, end);
  }

  lemma RefusedThere(items: seq<Item>, b: Bytes, end: nat)
    requires Follows(b, 14, 0, KnownFrames(items), end, LaterCount(items)) && NextPayload(b, end).Refused?
    ensures ReadAll(b, 14, 0).Err?
  {
    assert FollowsTo(b, 14, 0, KnownFrames(items), end, LaterCount(items), end);
    assert NextFrame(b, end, LaterCount(items)).Err?;
  }

  /** A stream cut inside the four length bytes ends cleanly, without the frame they announce. */
  lemma CutLengthEnds(items: seq<Item>, body: Bytes, k: nat)
    requires ItemsOk(items) && k < 4
    ensures ReadAll(PREAMBLE + (PutItems(items) + Le(|body|, 4)[..k]), 14, 0) == Ok(All(KnownFrames(items), LaterCount(items)))
  {
    var tail := Le(|body|, 4)[..k];
    var b := PREAMBLE + (PutItems(items) + tail);
    StreamThen(items, tail, b, |b| - k);
    EndsThere(items, b, |b| - k);
  }
}
