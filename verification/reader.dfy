/**
 * DogStatsDReplayReader: turns the frames of a dogstatsd replay capture into
 * the metric lines their payloads carry, one line per call to ReadMsg.
 */
module DogStatsDReader {
  import opened Utf8
  import opened Wrappers
  import opened LineSplit
  import opened Replay

  datatype DogStatsDReplayReaderError =
    | NotAReplayFile
    | UnsupportedReplayVersion
    | InvalidUtf8Sequence

  /** The caller's string: its UTF-8 octets. It may hold several lines, one prepended per Success(1). */
  type Str = seq<byte>

  /** The lines one frame contributes: none when its payload is not UTF-8. */
  function FrameLines(p: Payload): seq<Line> {
    if WellFormed(p) then Lines(p) else []
  }

  /** The lines of the first `n` frames of `ps`, frame after frame. */
  function Decoded(ps: seq<Payload>, n: nat): seq<Line>
    requires n <= |ps|
  {
    if n == 0 then [] else Decoded(ps, n - 1) + FrameLines(ps[n - 1])
  }

  /** Reading frame `n` adds its lines, or none when it is not UTF-8 or empty. */
  lemma DecodedNext(ps: seq<Payload>, n: nat)
    requires n < |ps|
    ensures WellFormed(ps[n]) ==> Decoded(ps, n + 1) == Decoded(ps, n) + Lines(ps[n])
    ensures !WellFormed(ps[n]) || ps[n] == [] ==> Decoded(ps, n + 1) == Decoded(ps, n)
  {
  }

  /** Every line of a decoded run of frames is a UTF-8 string. */
  lemma {:induction false} DecodedWellFormed(ps: seq<Payload>, n: nat)
    requires n <= |ps|
    ensures forall k :: 0 <= k < |Decoded(ps, n)| ==> WellFormed(Decoded(ps, n)[k])
  {
    if n > 0 {
      DecodedWellFormed(ps, n - 1);
      var front, last := Decoded(ps, n - 1), FrameLines(ps[n - 1]);
      if WellFormed(ps[n - 1]) {
        LinesWellFormed(ps[n - 1]);
      }
      assert forall k :: 0 <= k < |last| ==> WellFormed(last[k]);
      assert forall k :: |front| <= k < |front + last| ==> (front + last)[k] == last[k - |front|];
    }
  }

  class DogStatsDReplayReader {
    const replayMsgReader: ReplayReader
    /** Lines of the last frame read that were not handed out yet, first one first. */
    var currentMessages: seq<Line>
    /** Every line handed out so far, in order. */
    ghost var emitted: seq<Line>

    /**
     * The lines handed out followed by the lines queued are exactly the
     * lines of the frames read so far.
     */
    ghost predicate Valid()
      reads this, replayMsgReader
    {
      replayMsgReader.Valid() &&
      emitted + currentMessages == Decoded(replayMsgReader.frames, replayMsgReader.cursor)
    }

    /** Queued and handed-out lines are UTF-8 strings (Rust `String`s). */
    lemma LinesAreStrings()
      requires Valid()
      ensures forall k :: 0 <= k < |currentMessages| ==> WellFormed(currentMessages[k])
      ensures forall k :: 0 <= k < |emitted| ==> WellFormed(emitted[k])
    {
      var d := Decoded(replayMsgReader.frames, replayMsgReader.cursor);
      DecodedWellFormed(replayMsgReader.frames, replayMsgReader.cursor);
      assert forall k :: 0 <= k < |emitted| ==> emitted[k] == d[k];
      assert forall k :: 0 <= k < |currentMessages| ==> currentMessages[k] == d[|emitted| + k];
    }

    /** Every frame was read and every line handed out. */
    ghost predicate Exhausted()
      reads this, replayMsgReader
    {
      currentMessages == [] && replayMsgReader.cursor == |replayMsgReader.frames|
    }

    constructor (reader: ReplayReader)
      requires reader.Valid() && reader.cursor == 0
      ensures Valid()
      ensures replayMsgReader == reader && currentMessages == [] && emitted == []
    {
      replayMsgReader := reader;
      currentMessages := [];
      emitted := [];
    }

    /**
     * Opens a reader over the frames of a replay capture. `source` is what
     * opening the frame source gave: its frames, or why the capture was
     * refused; the errors carry over under the same names.
     */
    static method New(source: Result<seq<Payload>, ReplayReaderError>)
      returns (r: Result<DogStatsDReplayReader, DogStatsDReplayReaderError>)
      ensures source == Failure(ReplayReaderError.NotAReplayFile) ==>
                r == Failure(DogStatsDReplayReaderError.NotAReplayFile)
      ensures source == Failure(ReplayReaderError.UnsupportedReplayVersion) ==>
                r == Failure(DogStatsDReplayReaderError.UnsupportedReplayVersion)
      ensures source.Success? ==> r.Success? && fresh(r.value) && fresh(r.value.replayMsgReader)
      ensures source.Success? ==> r.value.Valid() && r.value.replayMsgReader.frames == source.value
      ensures source.Success? ==> r.value.replayMsgReader.cursor == 0
      ensures source.Success? ==> r.value.currentMessages == [] && r.value.emitted == []
    {
      match source {
        case Success(frames) =>
          var reader := new ReplayReader(frames);
          var replay := new DogStatsDReplayReader(reader);
          r := Success(replay);
        case Failure(e) =>
          match e {
            case NotAReplayFile =>
              r := Failure(DogStatsDReplayReaderError.NotAReplayFile);
            case UnsupportedReplayVersion =>
              r := Failure(DogStatsDReplayReaderError.UnsupportedReplayVersion);
          }
      }
    }

    /** Queues the lines `ls` behind those already queued, in order. */
    method PushLines(ls: seq<Line>)
      modifies this`currentMessages
      ensures currentMessages == old(currentMessages) + ls
    {
      for k := 0 to |ls|
        invariant currentMessages == old(currentMessages) + ls[..k]
      {
        currentMessages := currentMessages + [ls[k]];
      }
      assert ls[..|ls|] == ls;
    }

    /** Hands out the first queued line: prepends it to `s`. */
    method PopLine(s: Str) returns (s': Str)
      requires Valid() && currentMessages != []
      modifies this`currentMessages, this`emitted
      ensures Valid()
      ensures s' == old(currentMessages)[0] + s
      ensures currentMessages == old(currentMessages)[1..]
      ensures emitted == old(emitted) + [old(currentMessages)[0]]
      ensures WellFormed(s) ==> WellFormed(s')
    {
      var line := currentMessages[0];
      if WellFormed(s) {
        assert WellFormed(line) by {
          LinesAreStrings();
        }
        WellFormedConcat(line, s);
      }
      assert emitted + currentMessages == (emitted + [line]) + currentMessages[1..];
      currentMessages := currentMessages[1..];
      emitted := emitted + [line];
      s' := line + s;
    }

    /**
     * With nothing queued, reads the next frame. Gives None once the
     * frame's lines are queued; otherwise gives what ReadMsg then returns:
     * Success(0) with no frame left or an empty payload,
     * Failure(InvalidUtf8Sequence) for a payload that is not UTF-8.
     */
    method ReadFrame() returns (done: Option<Result<nat, DogStatsDReplayReaderError>>)
      requires Valid() && currentMessages == []
      modifies this`currentMessages, replayMsgReader
      ensures Valid() && emitted == old(emitted)
      ensures old(replayMsgReader.cursor) == |replayMsgReader.frames| ==>
                done == Some(Success(0)) && currentMessages == [] &&
                replayMsgReader.cursor == old(replayMsgReader.cursor)
      ensures old(replayMsgReader.cursor) < |replayMsgReader.frames| ==>
                replayMsgReader.cursor == old(replayMsgReader.cursor) + 1
      ensures old(replayMsgReader.cursor) < |replayMsgReader.frames| ==>
                var p := replayMsgReader.frames[old(replayMsgReader.cursor)];
                (!WellFormed(p) ==> done == Some(Failure(InvalidUtf8Sequence)) && currentMessages == []) &&
                (p == [] ==> done == Some(Success(0)) && currentMessages == []) &&
                (WellFormed(p) && p != [] ==> done == None && currentMessages == Lines(p))
    {
      ghost var n := replayMsgReader.cursor;
      assert emitted == Decoded(replayMsgReader.frames, n) by {
        assert emitted + currentMessages == emitted;
      }
      var msg := replayMsgReader.ReadMsg();
      match msg {
        case Some(payload) =>
          DecodedNext(replayMsgReader.frames, n);
          if WellFormed(payload) {
            if |payload| == 0 {
              return Some(Success(0));
            }
            PushLines(Lines(payload));
            assert currentMessages == Lines(payload);
            return None;
          } else {
            return Some(Failure(InvalidUtf8Sequence));
          }
        case None =>
          return Some(Success(0));
      }
    }

    /**
     * Hands out at most one line: prepends it to `s` (giving `s'`) and
     * returns Success(1), or returns Success(0) leaving `s` alone. A queued
     * line goes first; otherwise the next frame is read and its lines queued.
     * A frame whose payload is not UTF-8 is consumed and gives
     * Failure(InvalidUtf8Sequence), `s` left alone.
     */
    method ReadMsg(s: Str) returns (r: Result<nat, DogStatsDReplayReaderError>, s': Str)
      requires Valid()
      modifies this, replayMsgReader
      ensures Valid()
      ensures r.Success? ==> r.value <= 1
      // the caller's string stays a valid UTF-8 `String`
      ensures WellFormed(s) ==> WellFormed(s')
      ensures r != Success(1) ==> s' == s && emitted == old(emitted)
      // a queued line is handed out without touching the frame source
      ensures old(currentMessages) != [] ==>
                r == Success(1) && s' == old(currentMessages)[0] + s &&
                currentMessages == old(currentMessages)[1..] &&
                emitted == old(emitted) + [old(currentMessages)[0]] &&
                replayMsgReader.cursor == old(replayMsgReader.cursor)
      // nothing queued and no frame left
      ensures old(currentMessages) == [] && old(replayMsgReader.cursor) == |replayMsgReader.frames| ==>
                r == Success(0) && currentMessages == [] &&
                replayMsgReader.cursor == old(replayMsgReader.cursor)
      // nothing queued: exactly one frame is consumed
      ensures old(currentMessages) == [] && old(replayMsgReader.cursor) < |replayMsgReader.frames| ==>
                replayMsgReader.cursor == old(replayMsgReader.cursor) + 1
      ensures old(currentMessages) == [] && old(replayMsgReader.cursor) < |replayMsgReader.frames| &&
              !WellFormed(replayMsgReader.frames[old(replayMsgReader.cursor)]) ==>
                r == Failure(InvalidUtf8Sequence) && currentMessages == []
      ensures old(currentMessages) == [] && old(replayMsgReader.cursor) < |replayMsgReader.frames| &&
              replayMsgReader.frames[old(replayMsgReader.cursor)] == [] ==>
                r == Success(0) && currentMessages == []
      ensures old(currentMessages) == [] && old(replayMsgReader.cursor) < |replayMsgReader.frames| &&
              WellFormed(replayMsgReader.frames[old(replayMsgReader.cursor)]) &&
              replayMsgReader.frames[old(replayMsgReader.cursor)] != [] ==>
                var ls := Lines(replayMsgReader.frames[old(replayMsgReader.cursor)]);
                r == Success(1) && s' == ls[0] + s && currentMessages == ls[1..] &&
                emitted == old(emitted) + [ls[0]]
      // Success(0) that consumed no frame means the reader is exhausted
      ensures r == Success(0) ==> currentMessages == []
      ensures r == Success(0) && replayMsgReader.cursor == old(replayMsgReader.cursor) ==> Exhausted()
      decreases if currentMessages == [] then 1 else 0
    {
      if currentMessages != [] {
        s' := PopLine(s);
        return Success(1), s';
      }
      var done := ReadFrame();
      match done {
        case Some(result) =>
          return result, s;
        case None =>
          r, s' := ReadMsg(s);
      }
    }
  }
}
