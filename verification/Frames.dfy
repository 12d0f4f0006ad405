/** What a publisher emits and a subscriber applies (src/replicate/frame.rs). */
module Frames {
  import opened Types

  /** A hash over the publisher's index state; `NO_INDEX_STATE` before any entry. */
  type IndexState = (nat, nat)

  const NO_INDEX_STATE: IndexState := (0, 0)

  datatype IndexKind = Full | Delta

  /** A string map in key order. */
  type TextMap = seq<(Text, Text)>

  /** One unit of replication; `B` is what a segment's payload is. */
  datatype Frame<B> =
    | Handshake(source: nat, uuid: Option<Text>, labels: TextMap, metadata: TextMap, anchor: int, complete: bool)
    | Index(source: nat, stream: Text, ts: int, kind: IndexKind, state: IndexState, blob: seq<Byte>)
    | Rows(source: nat, number: nat, state: IndexState, rows: seq<WalRow>)
    | SegmentOf(source: nat, stream: Text, meta: SegmentMeta, body: B, callerIndex: Option<seq<Byte>>)
    | ClockOffset(source: nat, ts: int, offset: int)
    | SourceUpdate(source: nat, ts: int, labels: TextMap, metadata: TextMap)
}
