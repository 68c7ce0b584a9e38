/**
 * UTF-8 as Rust's `std::str::from_utf8` accepts it: the well-formed byte
 * sequences of table 3-7 of the Unicode Standard (no overlong forms, no
 * surrogates, nothing above U+10FFFF). A byte sequence is valid exactly when it
 * is the encoding of some string; `Decode` returns that string.
 */
module Utf8 {
  import opened Wrappers
  import opened Ints

  predicate IsContinuation(b: byte) { 0x80 <= b <= 0xBF }

  /** The one to four bytes that encode one Unicode scalar value. */
  function EncodeChar(c: char): (r: seq<byte>)
    ensures 1 <= |r| <= 4
  {
    var n := c as int;
    if n < 0x80 then [n]
    else if n < 0x800 then [0xC0 + n / 64, 0x80 + n % 64]
    else if n < 0x10000 then [0xE0 + n / 4096, 0x80 + n / 64 % 64, 0x80 + n % 64]
    else [0xF0 + n / 262144, 0x80 + n / 4096 % 64, 0x80 + n / 64 % 64, 0x80 + n % 64]
  }

  function Encode(s: string): (r: seq<byte>)
    ensures |r| >= |s|
  {
    if s == [] then [] else EncodeChar(s[0]) + Encode(s[1..])
  }

  /** The scalar value at the head of `bs` and the number of bytes it takes, if well formed. */
  function DecodeFirst(bs: seq<byte>): (r: Option<(char, nat)>)
    requires |bs| > 0
    ensures r.Some? ==> 1 <= r.value.1 <= |bs| && r.value.1 <= 4
  {
    var b0 := bs[0] as int;
    if b0 < 0x80 then
      Some((b0 as char, 1))
    else if 0xC2 <= b0 <= 0xDF then
      if |bs| >= 2 && IsContinuation(bs[1])
      then Some((((b0 - 0xC0) * 64 + (bs[1] as int - 0x80)) as char, 2))
      else None
    else if 0xE0 <= b0 <= 0xEF then
      var lo := if b0 == 0xE0 then 0xA0 else 0x80;
      var hi := if b0 == 0xED then 0x9F else 0xBF;
      if |bs| >= 3 && lo <= bs[1] <= hi && IsContinuation(bs[2])
      then Some((((b0 - 0xE0) * 4096 + (bs[1] as int - 0x80) * 64 + (bs[2] as int - 0x80)) as char, 3))
      else None
    else if 0xF0 <= b0 <= 0xF4 then
      var lo := if b0 == 0xF0 then 0x90 else 0x80;
      var hi := if b0 == 0xF4 then 0x8F else 0xBF;
      if |bs| >= 4 && lo <= bs[1] <= hi && IsContinuation(bs[2]) && IsContinuation(bs[3])
      then Some((((b0 - 0xF0) * 262144 + (bs[1] as int - 0x80) * 4096 + (bs[2] as int - 0x80) * 64 + (bs[3] as int - 0x80)) as char, 4))
      else None
    else
      None
  }

  /** The string whose UTF-8 encoding is `bs`, or None when `bs` is not well formed. */
  function Decode(bs: seq<byte>): Option<string>
    decreases |bs|
  {
    if |bs| == 0 then Some([])
    else match DecodeFirst(bs)
      case None => None
      case Some((c, k)) =>
        match Decode(bs[k..])
        case None => None
        case Some(s) => Some([c] + s)
  }

  predicate Valid(bs: seq<byte>) { Decode(bs).Some? }

  lemma DecodeFirstTwo(n: int, rest: seq<byte>)
    requires 0x80 <= n < 0x800
    ensures DecodeFirst([0xC0 + n / 64, 0x80 + n % 64] + rest) == Some((n as char, 2))
  {
    var q, r := n / 64, n % 64;
    assert n == q * 64 + r && 2 <= q <= 31;
  }

  lemma DecodeFirstThree(n: int, rest: seq<byte>)
    requires 0x800 <= n < 0xD800 || 0xE000 <= n < 0x10000
    ensures DecodeFirst([0xE0 + n / 4096, 0x80 + n / 64 % 64, 0x80 + n % 64] + rest) == Some((n as char, 3))
  {
    var q, r := n / 64, n % 64;
    var q2, r2 := q / 64, q % 64;
    assert n == q * 64 + r;
    assert q == q2 * 64 + r2;
    assert n / 4096 == q2;
    assert n == q2 * 4096 + r2 * 64 + r;
  }

  lemma DecodeFirstFour(n: int, rest: seq<byte>)
    requires 0x10000 <= n < 0x110000
    ensures DecodeFirst([0xF0 + n / 262144, 0x80 + n / 4096 % 64, 0x80 + n / 64 % 64, 0x80 + n % 64] + rest)
         == Some((n as char, 4))
  {
    var q, r := n / 64, n % 64;
    var q2, r2 := q / 64, q % 64;
    var q3, r3 := q2 / 64, q2 % 64;
    assert n == q * 64 + r;
    assert q == q2 * 64 + r2;
    assert q2 == q3 * 64 + r3;
    assert n / 4096 == q2 && n / 262144 == q3;
    assert n == q3 * 262144 + r3 * 4096 + r2 * 64 + r;
  }

  lemma DecodeFirstOfEncodeChar(c: char, rest: seq<byte>)
    ensures DecodeFirst(EncodeChar(c) + rest) == Some((c, |EncodeChar(c)|))
  {
    var n := c as int;
    if n < 0x80 {
    } else if n < 0x800 {
      DecodeFirstTwo(n, rest);
    } else if n < 0x10000 {
      DecodeFirstThree(n, rest);
    } else {
      DecodeFirstFour(n, rest);
    }
  }

  /** Decoding the encoding of a string gives back the string. */
  lemma {:induction false} DecodeEncode(s: string)
    ensures Decode(Encode(s)) == Some(s)
  {
    if s != [] {
      var e := Encode(s);
      assert e == EncodeChar(s[0]) + Encode(s[1..]);
      DecodeFirstOfEncodeChar(s[0], Encode(s[1..]));
      assert e[|EncodeChar(s[0])|..] == Encode(s[1..]);
      DecodeEncode(s[1..]);
      assert [s[0]] + s[1..] == s;
    }
  }

  lemma EncodeTwo(x0: int, x1: int)
    requires 2 <= x0 < 32 && 0 <= x1 < 64
    ensures EncodeChar((x0 * 64 + x1) as char) == [0xC0 + x0, 0x80 + x1]
  {
    var n := x0 * 64 + x1;
    assert n / 64 == x0 && n % 64 == x1;
  }

  lemma EncodeThree(x0: int, x1: int, x2: int)
    requires 0 <= x0 < 16 && 0 <= x1 < 64 && 0 <= x2 < 64
    requires 0x800 <= (x0 * 64 + x1) * 64 + x2 < 0xD800 || 0xE000 <= (x0 * 64 + x1) * 64 + x2
    ensures EncodeChar(((x0 * 64 + x1) * 64 + x2) as char) == [0xE0 + x0, 0x80 + x1, 0x80 + x2]
  {
    var q := x0 * 64 + x1;
    var n := q * 64 + x2;
    assert n / 64 == q && n % 64 == x2;
    assert q / 64 == x0 && q % 64 == x1;
    assert n / 4096 == q / 64;
  }

  lemma EncodeFour(x0: int, x1: int, x2: int, x3: int)
    requires 0 <= x0 < 5 && 0 <= x1 < 64 && 0 <= x2 < 64 && 0 <= x3 < 64
    requires 0x10000 <= ((x0 * 64 + x1) * 64 + x2) * 64 + x3 < 0x110000
    ensures EncodeChar((((x0 * 64 + x1) * 64 + x2) * 64 + x3) as char)
         == [0xF0 + x0, 0x80 + x1, 0x80 + x2, 0x80 + x3]
  {
    var q2 := x0 * 64 + x1;
    var q := q2 * 64 + x2;
    var n := q * 64 + x3;
    assert n / 64 == q && n % 64 == x3;
    assert q / 64 == q2 && q % 64 == x2;
    assert q2 / 64 == x0 && q2 % 64 == x1;
    assert n / 4096 == q / 64 && n / 262144 == q2 / 64;
  }

  lemma EncodeCharOfDecodeFirst(bs: seq<byte>)
    requires |bs| > 0 && DecodeFirst(bs).Some?
    ensures EncodeChar(DecodeFirst(bs).value.0) == bs[..DecodeFirst(bs).value.1]
  {
    var b0 := bs[0] as int;
    if b0 < 0x80 {
    } else if b0 <= 0xDF {
      EncodeTwo(b0 - 0xC0, bs[1] as int - 0x80);
      assert bs[..2] == [bs[0], bs[1]];
    } else if b0 <= 0xEF {
      EncodeThree(b0 - 0xE0, bs[1] as int - 0x80, bs[2] as int - 0x80);
      assert bs[..3] == [bs[0], bs[1], bs[2]];
    } else {
      EncodeFour(b0 - 0xF0, bs[1] as int - 0x80, bs[2] as int - 0x80, bs[3] as int - 0x80);
      assert bs[..4] == [bs[0], bs[1], bs[2], bs[3]];
    }
  }

  /** A valid sequence decodes to its first character followed by the decoding of the rest. */
  lemma DecodeUnfolds(bs: seq<byte>)
    requires Valid(bs) && |bs| > 0
    ensures DecodeFirst(bs).Some? && Valid(bs[DecodeFirst(bs).value.1..])
    ensures Decode(bs) == Some([DecodeFirst(bs).value.0] + Decode(bs[DecodeFirst(bs).value.1..]).value)
  {
  }

  lemma EncodeCons(c: char, s: string)
    ensures Encode([c] + s) == EncodeChar(c) + Encode(s)
  {
    assert ([c] + s)[1..] == s;
  }

  /** Whatever decodes is the encoding of what it decodes to. */
  lemma {:induction false} EncodeDecode(bs: seq<byte>)
    requires Valid(bs)
    ensures Encode(Decode(bs).value) == bs
    decreases |bs|
  {
    if |bs| > 0 {
      DecodeUnfolds(bs);
      var first := DecodeFirst(bs).value;
      var k := first.1;
      EncodeCharOfDecodeFirst(bs);
      EncodeDecode(bs[k..]);
      EncodeCons(first.0, Decode(bs[k..]).value);
      assert bs == bs[..k] + bs[k..];
    }
  }

  /** The two directions together: `bs` is valid UTF-8 exactly when it encodes some string. */
  lemma ValidIffEncoding(bs: seq<byte>, s: string)
    ensures Decode(bs) == Some(s) <==> Encode(s) == bs
  {
    if Decode(bs) == Some(s) { EncodeDecode(bs); }
    if Encode(s) == bs { DecodeEncode(s); }
  }

  /** Bytes below 0x80 are each one character. */
  lemma {:induction false} AsciiIsValid(bs: seq<byte>)
    requires forall i :: 0 <= i < |bs| ==> bs[i] < 0x80
    ensures Valid(bs) && |Decode(bs).value| == |bs|
    decreases |bs|
  {
    if |bs| > 0 {
      AsciiIsValid(bs[1..]);
    }
  }
}
