/**
 * Rust's `str::lines`, stated on the UTF-8 octets of the string. A line ends
 * at "\n" or "\r\n"; the final line ending is optional and adds no empty line.
 * Working on octets is sound because an octet below 0x80 only ever encodes
 * itself in UTF-8 (section 3 of RFC 3629, lemma Utf8.SplitAtAscii).
 */
module LineSplit {
  import opened Utf8

  type Line = seq<byte>

  const LF: byte := 0x0A
  const CR: byte := 0x0D

  /** Index of the first "\n" in `b`, or |b| when there is none (see IndexOfLFIsFirst). */
  function IndexOfLF(b: seq<byte>): (i: nat)
    ensures i <= |b|
    ensures i < |b| ==> b[i] == LF
  {
    if |b| == 0 then 0
    else if b[0] == LF then 0
    else 1 + IndexOfLF(b[1..])
  }

  /** No "\n" comes before IndexOfLF(b): it is the first one. */
  lemma {:induction false} IndexOfLFIsFirst(b: seq<byte>)
    ensures forall k :: 0 <= k < IndexOfLF(b) ==> b[k] != LF
  {
    if |b| > 0 && b[0] != LF {
      IndexOfLFIsFirst(b[1..]);
      assert forall k :: 1 <= k <= IndexOfLF(b[1..]) ==> b[k] == b[1..][k - 1];
    }
  }

  /** A "\n" with none before it is the one IndexOfLF finds. */
  lemma IndexOfLFAt(b: seq<byte>, j: nat)
    requires j < |b| && b[j] == LF
    requires forall k :: 0 <= k < j ==> b[k] != LF
    ensures IndexOfLF(b) == j
  {
    IndexOfLFIsFirst(b);
  }

  /** Drops one "\r" that ends a line whose "\n" was stripped. */
  function StripCR(l: Line): (r: Line)
    ensures |r| <= |l| && r == l[..|r|]
    ensures |r| == |l| || (|r| == |l| - 1 && l[|l| - 1] == CR)
    ensures |l| > 0 && l[|l| - 1] == CR ==> |r| == |l| - 1
  {
    if |l| > 0 && l[|l| - 1] == CR then l[..|l| - 1] else l
  }

  /** The lines of `b`, in order. */
  function Lines(b: seq<byte>): (ls: seq<Line>)
    ensures |ls| == 0 <==> |b| == 0
    decreases |b|
  {
    if |b| == 0 then []
    else
      var i := IndexOfLF(b);
      if i == |b| then [b]
      else [StripCR(b[..i])] + Lines(b[i + 1..])
  }

  /** The number of "\n" octets in `b`. */
  function CountLF(b: seq<byte>): nat {
    if |b| == 0 then 0 else (if b[0] == LF then 1 else 0) + CountLF(b[1..])
  }

  /** The lines `ls`, each followed by the line ending `ending`. */
  function Terminated(ls: seq<Line>, ending: seq<byte>): seq<byte> {
    if |ls| == 0 then [] else ls[0] + ending + Terminated(ls[1..], ending)
  }

  /** A line `Lines` can give back unchanged after "\n": no "\n" in it and no final "\r". */
  predicate Plain(l: Line) {
    LF !in l && (|l| == 0 || l[|l| - 1] != CR)
  }

  /** CountLF distributes over concatenation. */
  lemma {:induction false} CountLFConcat(a: seq<byte>, c: seq<byte>)
    ensures CountLF(a + c) == CountLF(a) + CountLF(c)
    decreases |a|
  {
    if |a| == 0 {
      assert a + c == c;
    } else {
      assert (a + c)[1..] == a[1..] + c;
      CountLFConcat(a[1..], c);
    }
  }

  /** No "\n" comes before the first one. */
  lemma NoLFBefore(b: seq<byte>, i: nat)
    requires i <= |b| && forall k :: 0 <= k < i ==> b[k] != LF
    ensures CountLF(b[..i]) == 0
    decreases i
  {
    if i > 0 {
      assert b[..i][1..] == b[1..][..i - 1];
      NoLFBefore(b[1..], i - 1);
    }
  }

  /** The first "\n" splits `b` into the line before it and the rest after it. */
  lemma SplitAtFirstLF(b: seq<byte>, i: nat)
    requires i < |b| && b[i] == LF
    requires forall k :: 0 <= k < i ==> b[k] != LF
    ensures CountLF(b) == 1 + CountLF(b[i + 1..])
  {
    var before, after := b[..i], b[i + 1..];
    NoLFBefore(b, i);
    var tail := [LF] + after;
    assert tail[1..] == after;
    assert CountLF(tail) == 1 + CountLF(after);
    assert b == before + tail;
    CountLFConcat(before, tail);
  }

  /**
   * There is one line per "\n", plus one for a final line without a line
   * ending.
   */
  lemma {:induction false} LinesCount(b: seq<byte>)
    ensures |Lines(b)| == CountLF(b) + (if |b| > 0 && b[|b| - 1] != LF then 1 else 0)
    decreases |b|
  {
    if |b| > 0 {
      var i := IndexOfLF(b);
      IndexOfLFIsFirst(b);
      if i == |b| {
        NoLFBefore(b, i);
        assert b[..i] == b;
      } else {
        SplitAtFirstLF(b, i);
        LinesCount(b[i + 1..]);
      }
    }
  }

  /** No line contains a "\n". */
  lemma {:induction false} LinesHaveNoLF(b: seq<byte>)
    ensures forall k :: 0 <= k < |Lines(b)| ==> LF !in Lines(b)[k]
    decreases |b|
  {
    if |b| > 0 {
      var i := IndexOfLF(b);
      IndexOfLFIsFirst(b);
      if i < |b| {
        LinesHaveNoLF(b[i + 1..]);
        assert LF !in b[..i];
      }
    }
  }

  /** The lines of well-formed UTF-8 are well-formed UTF-8, so each is a Rust `&str`. */
  lemma {:induction false} LinesWellFormed(b: seq<byte>)
    requires WellFormed(b)
    ensures forall k :: 0 <= k < |Lines(b)| ==> WellFormed(Lines(b)[k])
    decreases |b|
  {
    if |b| > 0 {
      var i := IndexOfLF(b);
      if i < |b| {
        SplitAtAscii(b, i);
        var l := b[..i];
        if |l| > 0 && l[|l| - 1] == CR {
          SplitAtAscii(l, |l| - 1);
        }
        LinesWellFormed(b[i + 1..]);
      }
    }
  }

  /** In `x + ending + y` with no "\n" in `x` and one ending "\n", the first "\n" ends the ending. */
  lemma FirstLFAfter(x: seq<byte>, ending: seq<byte>, y: seq<byte>)
    requires LF !in x && |ending| > 0 && ending[|ending| - 1] == LF
    requires forall k :: 0 <= k < |ending| - 1 ==> ending[k] != LF
    ensures IndexOfLF(x + ending + y) == |x| + |ending| - 1
  {
    var b := x + ending + y;
    var i := IndexOfLF(b);
    var j := |x| + |ending| - 1;
    assert b[j] == LF;
    forall k | 0 <= k < j
      ensures b[k] != LF
    {
      if k < |x| {
        assert b[k] == x[k];
      } else {
        assert b[k] == ending[k - |x|];
      }
    }
    IndexOfLFAt(b, j);
  }

  /**
   * Writing each line followed by "\n" and splitting again gives the lines
   * back, empty lines included.
   */
  lemma {:induction false} LinesOfTerminated(ls: seq<Line>)
    requires forall k :: 0 <= k < |ls| ==> Plain(ls[k])
    ensures Lines(Terminated(ls, [LF])) == ls
    decreases |ls|
  {
    if |ls| > 0 {
      var rest := Terminated(ls[1..], [LF]);
      var b := ls[0] + [LF] + rest;
      FirstLFAfter(ls[0], [LF], rest);
      assert b[..|ls[0]|] == ls[0];
      assert b[|ls[0]| + 1..] == rest;
      LinesOfTerminated(ls[1..]);
    }
  }

  /**
   * Writing each line followed by "\r\n" and splitting again gives the lines
   * back; only the "\r" of the line ending is stripped.
   */
  lemma {:induction false} LinesOfCrlfTerminated(ls: seq<Line>)
    requires forall k :: 0 <= k < |ls| ==> LF !in ls[k]
    ensures Lines(Terminated(ls, [CR, LF])) == ls
    decreases |ls|
  {
    if |ls| > 0 {
      var rest := Terminated(ls[1..], [CR, LF]);
      var b := ls[0] + [CR, LF] + rest;
      FirstLFAfter(ls[0], [CR, LF], rest);
      assert b[..|ls[0]| + 1] == ls[0] + [CR];
      assert (ls[0] + [CR])[..|ls[0]|] == ls[0];
      assert b[|ls[0]| + 2..] == rest;
      LinesOfCrlfTerminated(ls[1..]);
    }
  }

  /** A final "\n" is optional: it adds no empty trailing line. */
  lemma {:induction false} FinalLFOptional(b: seq<byte>)
    requires |b| > 0 && b[|b| - 1] != LF && b[|b| - 1] != CR
    ensures Lines(b + [LF]) == Lines(b)
    decreases |b|
  {
    var i := IndexOfLF(b);
    var b' := b + [LF];
    IndexOfLFIsFirst(b);
    assert forall k :: 0 <= k < i ==> b'[k] == b[k];
    IndexOfLFAt(b', i);
    if i == |b| {
      assert b'[..i] == b;
    } else {
      assert b'[..i] == b[..i];
      assert b'[i + 1..] == b[i + 1..] + [LF];
      FinalLFOptional(b[i + 1..]);
    }
  }

  /** A final "\r\n" is optional too. */
  lemma {:induction false} FinalCrlfOptional(b: seq<byte>)
    requires |b| > 0 && b[|b| - 1] != LF
    ensures Lines(b + [CR, LF]) == Lines(b)
    decreases |b|
  {
    var i := IndexOfLF(b);
    var b' := b + [CR, LF];
    IndexOfLFIsFirst(b);
    assert forall k :: 0 <= k < i ==> b'[k] == b[k];
    if i == |b| {
      assert b'[i] == CR && b'[i + 1] == LF;
      IndexOfLFAt(b', i + 1);
      assert b'[..i + 1] == b + [CR];
      assert (b + [CR])[..|b|] == b;
    } else {
      IndexOfLFAt(b', i);
      assert b'[..i] == b[..i];
      assert b'[i + 1..] == b[i + 1..] + [CR, LF];
      FinalCrlfOptional(b[i + 1..]);
    }
  }

  /** Lines of well-formed UTF-8 written out with "\n" endings make well-formed UTF-8. */
  lemma {:induction false} TerminatedWellFormed(ls: seq<Line>)
    requires forall k :: 0 <= k < |ls| ==> WellFormed(ls[k])
    ensures WellFormed(Terminated(ls, [LF]))
    decreases |ls|
  {
    if |ls| > 0 {
      TerminatedWellFormed(ls[1..]);
      assert WellFormed([LF]) by {
        assert CharLength([LF]) == 1;
        assert [LF][1..] == [];
      }
      WellFormedConcat(ls[0], [LF]);
      WellFormedConcat(ls[0] + [LF], Terminated(ls[1..], [LF]));
    }
  }
}
