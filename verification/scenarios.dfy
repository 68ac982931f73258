/**
 * The replay captures of the reader's unit tests, with their metric lines
 * left as parameters: any lines with no "\n" and no final "\r" behave as the
 * tests' statsd lines do.
 */
module ReplayScenarios {
  import opened Utf8
  import opened Wrappers
  import opened LineSplit
  import opened DogStatsDReader

  /** A metric line as the tests use them: UTF-8 text with no line ending in it. */
  predicate MetricLine(l: Line) {
    WellFormed(l) && Plain(l)
  }

  /** The payload of a frame that carries `ls`, each line ended by "\n". */
  function TerminatedPayload(ls: seq<Line>): (p: seq<byte>)
    requires forall k :: 0 <= k < |ls| ==> MetricLine(ls[k])
    ensures WellFormed(p) && Lines(p) == ls
  {
    forall k | 0 <= k < |ls|
      ensures WellFormed(ls[k]) && Plain(ls[k])
    {
      assert MetricLine(ls[k]);
    }
    TerminatedWellFormed(ls);
    LinesOfTerminated(ls);
    Terminated(ls, [LF])
  }

  /**
   * Two frames of one line each: the two lines, then Success(0) leaving the
   * last output alone (test two_msg_two_lines).
   */
  method TwoMsgsOneLineEach(line: Line)
    returns (results: seq<Result<nat, DogStatsDReplayReaderError>>, outputs: seq<Str>)
    requires MetricLine(line)
    ensures results == [Success(1), Success(1), Success(0)]
    ensures outputs == [line, line, line]
  {
    var frame := TerminatedPayload([line]);
    var created := DogStatsDReplayReader.New(Success([frame, frame]));
    var replay := created.value;
    assert replay.replayMsgReader.frames[0] == frame;
    var r1, s1 := replay.ReadMsg([]);
    assert r1 == Success(1);
    assert s1 == line + [] == line;
    assert replay.currentMessages == [];
    assert replay.replayMsgReader.cursor == 1;
    var r2, s2 := replay.ReadMsg([]);
    assert r2 == Success(1);
    assert s2 == line;
    assert replay.replayMsgReader.cursor == 2;
    var r3, s3 := replay.ReadMsg(s2);
    assert r3 == Success(0);
    results, outputs := [r1, r2, r3], [s1, s2, s3];
  }

  /** One frame of two lines: both lines in order, then Success(0) (test one_msg_two_lines). */
  method OneMsgTwoLines(first: Line, second: Line)
    returns (results: seq<Result<nat, DogStatsDReplayReaderError>>, outputs: seq<Str>)
    requires MetricLine(first) && MetricLine(second)
    ensures results == [Success(1), Success(1), Success(0)]
    ensures outputs == [first, second, second]
  {
    var frame := TerminatedPayload([first, second]);
    var created := DogStatsDReplayReader.New(Success([frame]));
    var replay := created.value;
    assert replay.replayMsgReader.frames[0] == frame;
    var r1, s1 := replay.ReadMsg([]);
    assert r1 == Success(1) && s1 == first + [] == first;
    assert replay.currentMessages == [second];
    var r2, s2 := replay.ReadMsg([]);
    assert r2 == Success(1) && s2 == second + [] == second;
    assert replay.currentMessages == [] && replay.replayMsgReader.cursor == 1;
    var r3, s3 := replay.ReadMsg(s2);
    assert r3 == Success(0) && s3 == s2;
    results, outputs := [r1, r2, r3], [s1, s2, s3];
  }

  /** One frame of three lines: the three lines in order, then Success(0) (test one_msg_three_lines). */
  method OneMsgThreeLines(first: Line, second: Line, third: Line)
    returns (results: seq<Result<nat, DogStatsDReplayReaderError>>, outputs: seq<Str>)
    requires MetricLine(first) && MetricLine(second) && MetricLine(third)
    ensures results == [Success(1), Success(1), Success(1), Success(0)]
    ensures outputs == [first, second, third, []]
  {
    var frame := TerminatedPayload([first, second, third]);
    var created := DogStatsDReplayReader.New(Success([frame]));
    var replay := created.value;
    assert replay.replayMsgReader.frames[0] == frame;
    var r1, s1 := replay.ReadMsg([]);
    assert r1 == Success(1) && s1 == first + [] == first;
    assert replay.currentMessages == [second, third];
    var r2, s2 := replay.ReadMsg([]);
    assert r2 == Success(1) && s2 == second + [] == second;
    assert replay.currentMessages == [third];
    var r3, s3 := replay.ReadMsg([]);
    assert r3 == Success(1) && s3 == third + [] == third;
    assert replay.currentMessages == [] && replay.replayMsgReader.cursor == 1;
    var r4, s4 := replay.ReadMsg([]);
    assert r4 == Success(0) && s4 == [];
    results, outputs := [r1, r2, r3, r4], [s1, s2, s3, s4];
  }

  /**
   * A frame with an empty payload gives Success(0) without ending the
   * session: the next frame's line still follows.
   */
  method EmptyFrameThenLine(line: Line)
    returns (results: seq<Result<nat, DogStatsDReplayReaderError>>, outputs: seq<Str>)
    requires MetricLine(line)
    ensures results == [Success(0), Success(1), Success(0)]
    ensures outputs == [[], line, []]
  {
    var frame := TerminatedPayload([line]);
    var created := DogStatsDReplayReader.New(Success([[], frame]));
    var replay := created.value;
    assert replay.replayMsgReader.frames[0] == [] && replay.replayMsgReader.frames[1] == frame;
    var r1, s1 := replay.ReadMsg([]);
    assert r1 == Success(0) && s1 == [] && replay.replayMsgReader.cursor == 1;
    var r2, s2 := replay.ReadMsg([]);
    assert r2 == Success(1) && s2 == line + [] == line;
    assert replay.currentMessages == [] && replay.replayMsgReader.cursor == 2;
    var r3, s3 := replay.ReadMsg([]);
    assert r3 == Success(0) && s3 == [];
    results, outputs := [r1, r2, r3], [s1, s2, s3];
  }
}
