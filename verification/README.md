# dogstatsd replay reader, modelled in Dafny

A dogstatsd replay capture is a sequence of frames. Each frame carries a
payload: the raw text one or more statsd clients submitted, possibly several
metric lines joined by newlines. `DogStatsDReplayReader`
(src/dogstatsdreplayreader.rs) turns those frames back into metric lines.
Each call to `read_msg` does one of five things:
- it hands out one queued line, prepending it to the caller's string;
- it reads the next frame, checks that its payload is UTF-8, queues all the
  payload's lines and hands out the first of them;
- it reads the next frame, finds that its payload is not UTF-8, and returns
  `InvalidUtf8Sequence`; that frame is consumed;
- it reports that a frame had an empty payload;
- it reports that there is nothing left.

The model has five modules:

- `Utf8` (utf8.dfy): the UTF-8 octet syntax of section 4 of RFC 3629 as
  `CharLength` and `WellFormed`. The encoder and decoder of section 3 of
  RFC 3629 are its reference: a byte sequence is well-formed exactly when it
  is the encoding of a sequence of Unicode scalar values. It also proves that
  cutting at an octet below 0x80 keeps both halves well-formed.
- `LineSplit` (lines.dfy): Rust's `str::lines` on octets. It splits on
  "\n", drops one "\r" before a "\n", treats a final line ending as
  optional, and keeps empty lines between two endings.
- `Replay` (replay.dfy): the frame source `ReplayReader`. It is a fixed
  sequence of payloads and a cursor that only moves forward.
- `DogStatsDReader` (reader.dfy): the error enum and the class
  `DogStatsDReplayReader`. The class has the frame source, the pending-line
  queue `currentMessages`, `New`, and the recursive `ReadMsg`. `ReadMsg`
  has the two halves of the source's body as helpers: `PopLine` hands out
  a queued line, and `ReadFrame` reads a frame and queues its lines. The ghost
  field `emitted` logs every line handed out. The class invariant states
  the whole-session property: the lines handed out, followed by the lines
  still queued, are exactly the lines of the frames read so far, in order.
  Frames that were not UTF-8 contribute no lines.
- `ReplayScenarios` (scenarios.dfy): the unit tests of the source file,
  with their metric lines as parameters. An empty-payload case is added.

Rust's `&mut String` argument is modelled by value: `ReadMsg(s)` returns the
new string as `s'`. A `String` is its UTF-8 octets, `seq<byte>`.

`Ok(0)` does not by itself mean end of stream. It is also returned for a
frame with an empty payload. `ReadMsg` promises that an `Ok(0)` which
consumed no frame leaves the reader exhausted. The code does not make
`InvalidUtf8Sequence` terminal: the bad frame is consumed, and a further
call goes on with the next frame. The model follows the code.

## Model

| member | source | states |
|---|---|---|
| `Utf8.CharLength` | src/dogstatsdreplayreader.rs:38 | a UTF8-char is 1 to 4 octets; it is 1 octet exactly when the lead octet is below 0x80; a longer char has a lead octet of at least 0x80 |
| `Utf8.MultiOctetCharIsHigh` | src/dogstatsdreplayreader.rs:38 | every octet of a multi-octet UTF8-char is at least 0x80, so no "\n" or "\r" hides inside one |
| `Utf8.WellFormed` | src/dogstatsdreplayreader.rs:38 | the acceptance test of `std::str::from_utf8`: the octets are a run of UTF8-chars (UTF8-octets = *( UTF8-char )); its meaning is fixed by `Decode`, `EncodeWellFormed` and `DecodeEncode` below |
| `Utf8.WellFormedConcat` | src/dogstatsdreplayreader.rs:38 | two well-formed UTF-8 sequences concatenate to a well-formed one |
| `Utf8.SplitAtAscii` | src/dogstatsdreplayreader.rs:38-45 | with an octet below 0x80 at i, b is well-formed exactly when b[..i] and b[i+1..] both are, so splitting UTF-8 text on "\n" at octet level is sound |
| `Utf8.EncodeScalarChar` | src/dogstatsdreplayreader.rs:38 | the syntax accepts the encoding of every scalar value as one UTF8-char, and decoding that char gives the value back |
| `Utf8.DecodeCharScalar` | src/dogstatsdreplayreader.rs:38 | every UTF8-char decodes to a scalar value (no surrogate, at most 0x10FFFF), and is that value's unique encoding |
| `Utf8.EncodeWellFormed` | src/dogstatsdreplayreader.rs:38 | the encoding of any sequence of scalar values is well-formed |
| `Utf8.Decode` | src/dogstatsdreplayreader.rs:38 | every well-formed sequence decodes to scalar values whose encoding is that sequence |
| `Utf8.DecodeEncode` | src/dogstatsdreplayreader.rs:38 | decoding the encoding of scalar values gives them back |
| `LineSplit.IndexOfLF` | src/dogstatsdreplayreader.rs:45 | the result is at most the length, and when below it the octet there is "\n" |
| `LineSplit.IndexOfLFIsFirst` | src/dogstatsdreplayreader.rs:45 | no "\n" comes before the result: it is the first "\n", or the length when there is none |
| `LineSplit.IndexOfLFAt` | src/dogstatsdreplayreader.rs:45 | a "\n" with no "\n" before it is the one found |
| `LineSplit.StripCR` | src/dogstatsdreplayreader.rs:45 | the result is a prefix of the line, one octet shorter exactly when the line ends in "\r", otherwise the line itself: at most one "\r" is stripped |
| `LineSplit.Lines` | src/dogstatsdreplayreader.rs:45 | a payload has no lines exactly when it is empty, so after a non-empty payload the queue is non-empty |
| `LineSplit.LinesCount` | src/dogstatsdreplayreader.rs:45 | there is one line per "\n", plus one for a final line with no ending |
| `LineSplit.LinesHaveNoLF` | src/dogstatsdreplayreader.rs:45 | no line contains "\n" |
| `LineSplit.LinesWellFormed` | src/dogstatsdreplayreader.rs:45-46 | the lines of well-formed UTF-8 are well-formed UTF-8, so each is a valid `String` |
| `LineSplit.LinesOfTerminated` | src/dogstatsdreplayreader.rs:45 | lines with no "\n" and no final "\r", each written followed by "\n", split back into exactly those lines, empty lines included |
| `LineSplit.LinesOfCrlfTerminated` | src/dogstatsdreplayreader.rs:45 | lines with no "\n", each written followed by "\r\n", split back into exactly those lines |
| `LineSplit.FinalLFOptional` | src/dogstatsdreplayreader.rs:45 | a final "\n" adds no empty trailing line |
| `LineSplit.FinalCrlfOptional` | src/dogstatsdreplayreader.rs:45 | a final "\r\n" adds no empty trailing line |
| `LineSplit.TerminatedWellFormed` | src/dogstatsdreplayreader.rs:45 | UTF-8 lines written with "\n" endings form a UTF-8 payload |
| `Replay.ReplayReaderError` | src/dogstatsdreplayreader.rs:64-71 | the two ways opening the frame source fails, as matched there |
| `Replay.ReplayReader.constructor` | src/dogstatsdreplayreader.rs:59-60 | a frame source after a successful open: its frames, cursor at the first one |
| `Replay.ReplayReader.ReadMsg` | src/dogstatsdreplayreader.rs:36 | the frame source hands out the payload at the cursor and advances by one frame, or gives None and stays put at the end |
| `DogStatsDReader.DogStatsDReplayReaderError` | src/dogstatsdreplayreader.rs:14-22 | the three error variants of the reader |
| `DogStatsDReader.FrameLines` | src/dogstatsdreplayreader.rs:38-47 | the lines one frame contributes: its `Lines` when the payload is UTF-8, none when it is not (the error path adds nothing to the queue) |
| `DogStatsDReader.Decoded` | src/dogstatsdreplayreader.rs:36-47 | the lines of the first n frames, frame after frame, in order |
| `DogStatsDReader.DogStatsDReplayReader.Valid` | src/dogstatsdreplayreader.rs:24-27 | the session invariant: the lines handed out followed by the lines still queued are exactly `Decoded` of the frames read so far; established by the constructor and `New`, kept by `PopLine`, `ReadFrame` and `ReadMsg`; `PushLines` is the step inside `ReadFrame` that restores it after a frame is read |
| `DogStatsDReader.DecodedNext` | src/dogstatsdreplayreader.rs:36-47 | reading one more frame adds that frame's `Lines` when its payload is UTF-8, and no line when it is not UTF-8 or is empty |
| `DogStatsDReader.DecodedWellFormed` | src/dogstatsdreplayreader.rs:38-46 | every line of the frames read so far is well-formed UTF-8 |
| `DogStatsDReader.DogStatsDReplayReader.LinesAreStrings` | src/dogstatsdreplayreader.rs:26 | under the session invariant every queued line and every line handed out is well-formed UTF-8, as the `VecDeque<String>` demands |
| `DogStatsDReader.DogStatsDReplayReader.constructor` | src/dogstatsdreplayreader.rs:60-63 | a new reader starts with an empty queue, at the first frame, and satisfies the session invariant |
| `DogStatsDReader.DogStatsDReplayReader.New` | src/dogstatsdreplayreader.rs:58-73 | `NotAReplayFile` and `UnsupportedReplayVersion` from the frame source come back under the same names; on success the reader is fresh, its queue empty, at frame 0 |
| `DogStatsDReader.DogStatsDReplayReader.PushLines` | src/dogstatsdreplayreader.rs:45-47 | pushing appends the lines to the back of the queue, in order |
| `DogStatsDReader.DogStatsDReplayReader.PopLine` | src/dogstatsdreplayreader.rs:31-34 | the front line leaves the queue and is prepended to `s`; the rest keeps its order; a UTF-8 `s` stays UTF-8; the session invariant is kept |
| `DogStatsDReader.DogStatsDReplayReader.ReadFrame` | src/dogstatsdreplayreader.rs:36-54 | with an empty queue: no frame left gives `Ok(0)` and nothing moves; otherwise exactly one frame is consumed, and a non-UTF-8 payload gives `InvalidUtf8Sequence`, an empty one `Ok(0)`, any other has all its `Lines` queued; the session invariant is kept |
| `DogStatsDReader.DogStatsDReplayReader.ReadMsg` | src/dogstatsdreplayreader.rs:30-56 | the session invariant is kept; `Ok` is 0 or 1; a UTF-8 `s` stays UTF-8. A queued line pops first: `Ok(1)`, `s' == line + s`, the rest keeps its order, no frame is read. With an empty queue and no frame: `Ok(0)`, nothing changes. Otherwise exactly one frame is consumed. Non-UTF-8: `InvalidUtf8Sequence`, `s` and the queue unchanged. Empty payload: `Ok(0)`, `s` unchanged. Otherwise all its lines are queued and the first is handed out with `Ok(1)`; the recursion is at most one level deep. |
| `ReplayScenarios.TwoMsgsOneLineEach` | src/dogstatsdreplayreader.rs:140-153 | two one-line frames give `Ok(1)`, `Ok(1)`, then `Ok(0)` leaving the string alone, for any metric line |
| `ReplayScenarios.OneMsgTwoLines` | src/dogstatsdreplayreader.rs:155-168 | one frame of two "\n"-ended lines gives both lines in order, then `Ok(0)`; no phantom empty line |
| `ReplayScenarios.OneMsgThreeLines` | src/dogstatsdreplayreader.rs:170-192 | one frame of three lines gives the three lines in order, then `Ok(0)` |
| `ReplayScenarios.EmptyFrameThenLine` | src/dogstatsdreplayreader.rs:40-43 | an empty-payload frame gives `Ok(0)`, and the next frame's line still follows |

## Left out

- The frame source's own logic is not part of this model. That covers the
  header marker and version check, the length-prefixed framing, the all-zero
  closing frame and truncation handling (`crate::replay::ReplayReader`).
  `New` takes the outcome of opening the frame source, either its payloads or
  its error, as a parameter.
- The generated protobuf decoder of the frame contents is foreign code. Only
  a frame's payload bytes are modelled.
- `bytes::Bytes` is not modelled: the capture buffer is represented only by
  the frames it yields.
- The `thiserror` display messages of the error enum are left out; the
  variants are kept.
- src/bin/replaydump.rs is command-line and file plumbing (arguments, file
  I/O, printing, exit codes) over a module that is not part of this model.
- `ReadMsg`: `&mut String` is modelled by value (new string returned as
  `s'`), so aliasing of the caller's buffer is not modelled.
- `ReadMsg`: the `usize` count is an unbounded `nat`; it is never more
  than 1, so width does not matter.
- `ReplayScenarios`: the tests' concrete metric strings are replaced by
  parameters. Each parameter is any UTF-8 line with no "\n" and no final
  "\r", which the test lines are.
- `Lines` follows the current `str::lines`: only a "\r" directly before a
  "\n" is stripped, so a final "\r" with no "\n" after it stays in the last
  line ("a\r" gives one line "a\r"). Older Rust releases also stripped that
  bare final "\r"; that behaviour is not modelled.
