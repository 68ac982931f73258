/**
 * Well-formed UTF-8 byte sequences, following the syntax of section 4 of
 * RFC 3629 (the grammar that Rust's `std::str::from_utf8` accepts).
 */
module Utf8 {

  newtype byte = x: int | 0 <= x < 0x100

  /** UTF8-tail: %x80-BF. */
  predicate IsTail(b: byte) {
    0x80 <= b <= 0xBF
  }

  /** Lowest second octet allowed after a 3- or 4-octet lead (%xE0 and %xF0 are restricted). */
  function SecondLow(lead: byte): byte {
    if lead == 0xE0 then 0xA0 else if lead == 0xF0 then 0x90 else 0x80
  }

  /** Highest second octet allowed after a 3- or 4-octet lead (%xED and %xF4 are restricted). */
  function SecondHigh(lead: byte): byte {
    if lead == 0xED then 0x9F else if lead == 0xF4 then 0x8F else 0xBF
  }

  /**
   * The length of the UTF8-char at the head of `b`, or 0 when `b` does not
   * start with one. A UTF8-char is one octet below 0x80 or a multi-octet
   * sequence every octet of which is at least 0x80 (section 3 of RFC 3629).
   */
  function CharLength(b: seq<byte>): (n: nat)
    ensures n <= 4 && n <= |b|
    ensures n == 1 <==> |b| > 0 && b[0] < 0x80
    ensures n > 1 ==> b[0] >= 0x80
  {
    if |b| == 0 then 0
    else if b[0] < 0x80 then 1
    else if 0xC2 <= b[0] <= 0xDF then
      if |b| >= 2 && IsTail(b[1]) then 2 else 0
    else if 0xE0 <= b[0] <= 0xEF then
      if |b| >= 3 && SecondLow(b[0]) <= b[1] <= SecondHigh(b[0]) && IsTail(b[2]) then 3 else 0
    else if 0xF0 <= b[0] <= 0xF4 then
      if |b| >= 4 && SecondLow(b[0]) <= b[1] <= SecondHigh(b[0]) && IsTail(b[2]) && IsTail(b[3])
      then 4 else 0
    else 0
  }

  /** Every octet of a multi-octet UTF8-char is at least 0x80 (section 3 of RFC 3629). */
  lemma MultiOctetCharIsHigh(b: seq<byte>, k: nat)
    requires CharLength(b) > 1 && k < CharLength(b)
    ensures b[k] >= 0x80
  {
  }

  /** UTF8-octets = *( UTF8-char ). */
  predicate WellFormed(b: seq<byte>)
    decreases |b|
  {
    |b| == 0 || (CharLength(b) > 0 && WellFormed(b[CharLength(b)..]))
  }

  /** One UTF8-char followed by UTF8-octets is UTF8-octets. */
  lemma WellFormedFold(b: seq<byte>)
    requires CharLength(b) > 0 && WellFormed(b[CharLength(b)..])
    ensures WellFormed(b)
  {
  }

  /** A UTF8-char is recognised from its own octets: what follows it does not matter. */
  lemma CharLengthOfPrefix(b: seq<byte>, c: seq<byte>)
    requires 0 < CharLength(b) <= |c|
    requires c[..CharLength(b)] == b[..CharLength(b)]
    ensures CharLength(c) == CharLength(b)
  {
    var n := CharLength(b);
    assert c[0] == b[0];
    if n > 1 {
      assert c[1] == b[1];
    }
    if n > 2 {
      assert c[2] == b[2];
    }
    if n > 3 {
      assert c[3] == b[3];
    }
  }

  /** Concatenating two well-formed sequences gives a well-formed sequence. */
  lemma {:induction false} WellFormedConcat(a: seq<byte>, c: seq<byte>)
    requires WellFormed(a) && WellFormed(c)
    ensures WellFormed(a + c)
    decreases |a|
  {
    if |a| == 0 {
      assert a + c == c;
    } else {
      var rest := a[CharLength(a)..];
      assert WellFormed(rest);
      WellFormedConcat(rest, c);
      ConcatStep(a, c);
    }
  }

  /** The first UTF8-char of `a` stays the first UTF8-char of `a + c`. */
  lemma ConcatStep(a: seq<byte>, c: seq<byte>)
    requires CharLength(a) > 0 && WellFormed(a[CharLength(a)..] + c)
    ensures WellFormed(a + c)
  {
    var n := CharLength(a);
    var ac := a + c;
    assert ac[..n] == a[..n];
    CharLengthOfPrefix(a, ac);
    assert ac[n..] == a[n..] + c;
    WellFormedFold(ac);
  }

  /**
   * An octet below 0x80 inside a well-formed sequence is a whole UTF8-char,
   * so cutting the sequence around it leaves two well-formed sequences; and
   * conversely.
   */
  lemma {:induction false} SplitAtAscii(b: seq<byte>, i: nat)
    requires i < |b| && b[i] < 0x80
    ensures WellFormed(b) <==> WellFormed(b[..i]) && WellFormed(b[i + 1..])
    decreases |b|
  {
    if WellFormed(b) {
      SplitForward(b, i);
    }
    if WellFormed(b[..i]) && WellFormed(b[i + 1..]) {
      assert CharLength(b[i..]) == 1;
      assert b[i..][1..] == b[i + 1..];
      assert WellFormed(b[i..]);
      WellFormedConcat(b[..i], b[i..]);
      assert b[..i] + b[i..] == b;
    }
  }

  lemma {:induction false} SplitForward(b: seq<byte>, i: nat)
    requires i < |b| && b[i] < 0x80 && WellFormed(b)
    ensures WellFormed(b[..i]) && WellFormed(b[i + 1..])
    decreases |b|
  {
    var n := CharLength(b);
    if i == 0 {
      assert n == 1;
      assert b[..0] == [];
    } else {
      if i < n {
        MultiOctetCharIsHigh(b, i);
      }
      assert n <= i;
      SplitForward(b[n..], i - n);
      assert b[n..][i - n + 1..] == b[i + 1..];
      assert b[..i][..n] == b[..n];
      CharLengthOfPrefix(b, b[..i]);
      assert b[..i][n..] == b[n..][..i - n];
    }
  }

  /** A Unicode scalar value: a code point that is not a surrogate. */
  predicate IsScalar(c: int) {
    0 <= c <= 0x10FFFF && !(0xD800 <= c <= 0xDFFF)
  }

  /** A UTF8-tail octet carrying the low six bits of `x`. */
  function Tail(x: nat): byte {
    (0x80 + x % 0x40) as byte
  }

  /** The UTF-8 encoding of one scalar value (the table of section 3 of RFC 3629). */
  function EncodeScalar(c: int): (b: seq<byte>)
    requires IsScalar(c)
  {
    if c < 0x80 then [c as byte]
    else if c < 0x800 then [(0xC0 + c / 0x40) as byte, Tail(c)]
    else if c < 0x10000 then [(0xE0 + c / 0x40 / 0x40) as byte, Tail(c / 0x40), Tail(c)]
    else [(0xF0 + c / 0x40 / 0x40 / 0x40) as byte, Tail(c / 0x40 / 0x40), Tail(c / 0x40), Tail(c)]
  }

  /** The scalar value the UTF8-char at the head of `b` encodes. */
  function DecodeChar(b: seq<byte>): int
    requires CharLength(b) > 0
  {
    var n := CharLength(b);
    if n == 1 then b[0] as int
    else if n == 2 then (b[0] as int - 0xC0) * 0x40 + (b[1] as int - 0x80)
    else if n == 3 then
      ((b[0] as int - 0xE0) * 0x40 + (b[1] as int - 0x80)) * 0x40 + (b[2] as int - 0x80)
    else
      (((b[0] as int - 0xF0) * 0x40 + (b[1] as int - 0x80)) * 0x40 + (b[2] as int - 0x80)) * 0x40
        + (b[3] as int - 0x80)
  }

  lemma DivMod64(q: int, r: int)
    requires 0 <= r < 0x40
    ensures (q * 0x40 + r) / 0x40 == q && (q * 0x40 + r) % 0x40 == r
  {
  }

  lemma Encode2(c: int, rest: seq<byte>)
    requires 0x80 <= c < 0x800
    ensures CharLength(EncodeScalar(c) + rest) == 2
    ensures DecodeChar(EncodeScalar(c) + rest) == c
  {
    var q1, r0 := c / 0x40, c % 0x40;
    assert c == q1 * 0x40 + r0;
    assert 2 <= q1 < 0x20;
    var b := EncodeScalar(c) + rest;
    assert b[0] as int == 0xC0 + q1 && b[1] as int == 0x80 + r0;
  }

  lemma Encode3(c: int, rest: seq<byte>)
    requires 0x800 <= c < 0x10000 && IsScalar(c)
    ensures CharLength(EncodeScalar(c) + rest) == 3
    ensures DecodeChar(EncodeScalar(c) + rest) == c
  {
    var q1, r0 := c / 0x40, c % 0x40;
    var q2, r1 := q1 / 0x40, q1 % 0x40;
    assert c == q1 * 0x40 + r0 && q1 == q2 * 0x40 + r1;
    assert q2 < 0x10;
    assert q2 == 0 ==> r1 >= 0x20;
    assert q2 == 0xD ==> r1 < 0x20;
    var b := EncodeScalar(c) + rest;
    assert b[0] as int == 0xE0 + q2 && b[1] as int == 0x80 + r1 && b[2] as int == 0x80 + r0;
  }

  lemma Encode4(c: int, rest: seq<byte>)
    requires 0x10000 <= c <= 0x10FFFF
    ensures CharLength(EncodeScalar(c) + rest) == 4
    ensures DecodeChar(EncodeScalar(c) + rest) == c
  {
    var q1, r0 := c / 0x40, c % 0x40;
    var q2, r1 := q1 / 0x40, q1 % 0x40;
    var q3, r2 := q2 / 0x40, q2 % 0x40;
    assert c == q1 * 0x40 + r0 && q1 == q2 * 0x40 + r1 && q2 == q3 * 0x40 + r2;
    assert q3 <= 4;
    assert q3 == 0 ==> r2 >= 0x10;
    assert q3 == 4 ==> r2 < 0x10;
    var b := EncodeScalar(c) + rest;
    assert b[0] as int == 0xF0 + q3 && b[1] as int == 0x80 + r2;
    assert b[2] as int == 0x80 + r1 && b[3] as int == 0x80 + r0;
  }

  /** The grammar accepts the encoding of every scalar value, and decoding gives the value back. */
  lemma EncodeScalarChar(c: int, rest: seq<byte>)
    requires IsScalar(c)
    ensures CharLength(EncodeScalar(c) + rest) == |EncodeScalar(c)|
    ensures DecodeChar(EncodeScalar(c) + rest) == c
  {
    if c < 0x80 {
    } else if c < 0x800 {
      Encode2(c, rest);
    } else if c < 0x10000 {
      Encode3(c, rest);
    } else {
      Encode4(c, rest);
    }
  }

  lemma Decode2(b: seq<byte>)
    requires CharLength(b) == 2
    ensures IsScalar(DecodeChar(b)) && EncodeScalar(DecodeChar(b)) == b[..2]
  {
    var x0, x1 := b[0] as int - 0xC0, b[1] as int - 0x80;
    var c := DecodeChar(b);
    assert c == x0 * 0x40 + x1;
    DivMod64(x0, x1);
    assert 0x80 <= c < 0x800;
    assert EncodeScalar(c)[0] == b[0] && EncodeScalar(c)[1] == b[1];
  }

  lemma Decode3(b: seq<byte>)
    requires CharLength(b) == 3
    ensures IsScalar(DecodeChar(b)) && EncodeScalar(DecodeChar(b)) == b[..3]
  {
    var x0, x1, x2 := b[0] as int - 0xE0, b[1] as int - 0x80, b[2] as int - 0x80;
    var q1 := x0 * 0x40 + x1;
    var c := DecodeChar(b);
    assert c == q1 * 0x40 + x2;
    DivMod64(q1, x2);
    DivMod64(x0, x1);
    assert 0x800 <= c < 0x10000;
    assert !(0xD800 <= c <= 0xDFFF);
    var e := EncodeScalar(c);
    assert e[0] == b[0] && e[1] == b[1] && e[2] == b[2];
  }

  lemma Decode4(b: seq<byte>)
    requires CharLength(b) == 4
    ensures IsScalar(DecodeChar(b)) && EncodeScalar(DecodeChar(b)) == b[..4]
  {
    var x0, x1, x2, x3 := b[0] as int - 0xF0, b[1] as int - 0x80, b[2] as int - 0x80, b[3] as int - 0x80;
    var q2 := x0 * 0x40 + x1;
    var q1 := q2 * 0x40 + x2;
    var c := DecodeChar(b);
    assert c == q1 * 0x40 + x3;
    DivMod64(q1, x3);
    DivMod64(q2, x2);
    DivMod64(x0, x1);
    assert 0x10000 <= c <= 0x10FFFF;
    var e := EncodeScalar(c);
    assert e[0] == b[0] && e[1] == b[1] && e[2] == b[2] && e[3] == b[3];
  }

  /** Every UTF8-char encodes a scalar value, and is that value's encoding. */
  lemma DecodeCharScalar(b: seq<byte>)
    requires CharLength(b) > 0
    ensures IsScalar(DecodeChar(b))
    ensures EncodeScalar(DecodeChar(b)) == b[..CharLength(b)]
  {
    var n := CharLength(b);
    if n == 1 {
    } else if n == 2 {
      Decode2(b);
    } else if n == 3 {
      Decode3(b);
    } else {
      Decode4(b);
    }
  }

  /** The UTF-8 encoding of a sequence of scalar values. */
  function Encode(cs: seq<int>): seq<byte>
    requires forall k :: 0 <= k < |cs| ==> IsScalar(cs[k])
  {
    if |cs| == 0 then [] else EncodeScalar(cs[0]) + Encode(cs[1..])
  }

  /** Every encoding is well-formed. */
  lemma {:induction false} EncodeWellFormed(cs: seq<int>)
    requires forall k :: 0 <= k < |cs| ==> IsScalar(cs[k])
    ensures WellFormed(Encode(cs))
  {
    if |cs| > 0 {
      var e, rest := EncodeScalar(cs[0]), Encode(cs[1..]);
      EncodeScalarChar(cs[0], rest);
      EncodeWellFormed(cs[1..]);
      assert (e + rest)[|e|..] == rest;
      WellFormedFold(e + rest);
    }
  }

  /** Encoding one more scalar value in front. */
  lemma EncodeCons(c: int, cs: seq<int>)
    requires IsScalar(c) && forall k :: 0 <= k < |cs| ==> IsScalar(cs[k])
    ensures forall k :: 0 <= k < |[c] + cs| ==> IsScalar(([c] + cs)[k])
    ensures Encode([c] + cs) == EncodeScalar(c) + Encode(cs)
  {
    assert ([c] + cs)[1..] == cs;
  }

  /** The scalar values a well-formed sequence encodes; it is their encoding. */
  function Decode(b: seq<byte>): (cs: seq<int>)
    requires WellFormed(b)
    ensures forall k :: 0 <= k < |cs| ==> IsScalar(cs[k])
    ensures Encode(cs) == b
    decreases |b|
  {
    if |b| == 0 then []
    else
      var n := CharLength(b);
      DecodeCharScalar(b);
      var rest := Decode(b[n..]);
      EncodeCons(DecodeChar(b), rest);
      assert b[..n] + b[n..] == b;
      [DecodeChar(b)] + rest
  }

  /** Decoding an encoding gives back the scalar values. */
  lemma {:induction false} DecodeEncode(cs: seq<int>)
    requires forall k :: 0 <= k < |cs| ==> IsScalar(cs[k])
    ensures WellFormed(Encode(cs)) && Decode(Encode(cs)) == cs
  {
    EncodeWellFormed(cs);
    if |cs| > 0 {
      var e, rest := EncodeScalar(cs[0]), Encode(cs[1..]);
      EncodeScalarChar(cs[0], rest);
      assert (e + rest)[|e|..] == rest;
      EncodeWellFormed(cs[1..]);
      DecodeEncode(cs[1..]);
    }
  }
}
