/**
 * The frame source the replay reader is built on. Its header check and
 * framing are not part of this model: once opened, it is the sequence of
 * frame payloads it will yield, and a cursor that only moves forward.
 */
module Replay {
  import opened Utf8
  import opened Wrappers

  type Payload = seq<byte>

  /** The two ways opening the frame source can fail. */
  datatype ReplayReaderError = NotAReplayFile | UnsupportedReplayVersion

  class ReplayReader {
    /** The payloads of the frames, in file order, up to the closing frame. */
    const frames: seq<Payload>
    /** How many frames have been handed out. */
    var cursor: nat

    ghost predicate Valid()
      reads this
    {
      cursor <= |frames|
    }

    constructor (frames: seq<Payload>)
      ensures Valid()
      ensures this.frames == frames && cursor == 0
    {
      this.frames := frames;
      cursor := 0;
    }

    /** Hands out the next frame's payload, or None once every frame was read. */
    method ReadMsg() returns (m: Option<Payload>)
      requires Valid()
      modifies this
      ensures Valid()
      ensures old(cursor) < |frames| ==> m == Some(frames[old(cursor)]) && cursor == old(cursor) + 1
      ensures old(cursor) == |frames| ==> m == None && cursor == old(cursor)
    {
      if cursor < |frames| {
        m := Some(frames[cursor]);
        cursor := cursor + 1;
      } else {
        m := None;
      }
    }
  }
}
