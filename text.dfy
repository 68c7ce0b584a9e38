/**
 * The few string operations of the Rust standard library the core relies on:
 * `{}` formatting of integers, `u32::from_str`, and `str::split` on one char.
 */
module Text {
  import opened Wrappers
  import opened Ints

  predicate IsDigit(c: char) { '0' <= c <= '9' }

  predicate AllDigits(s: string) { forall i :: 0 <= i < |s| ==> IsDigit(s[i]) }

  function DigitChar(d: int): (c: char)
    requires 0 <= d < 10
    ensures IsDigit(c)
  {
    ('0' as int + d) as char
  }

  /** Value of a string of decimal digits, most significant first (leading zeros allowed). */
  function DigitsValue(s: string): nat
    requires AllDigits(s)
  {
    if s == [] then 0 else 10 * DigitsValue(s[..|s| - 1]) + (s[|s| - 1] as int - '0' as int)
  }

  /** `format!("{}", n)` for an unsigned integer: decimal, no sign and no leading zero. */
  function NatToString(n: nat): (r: string)
    ensures 0 < |r| && AllDigits(r)
    ensures r[0] == '0' ==> n == 0
  {
    if n < 10 then [DigitChar(n)] else NatToString(n / 10) + [DigitChar(n % 10)]
  }

  /** `format!("{}", x)` for a signed integer. */
  function IntToString(x: int): string
  {
    if x < 0 then "-" + NatToString(-x) else NatToString(x)
  }

  lemma {:induction false} NatToStringValue(n: nat)
    ensures DigitsValue(NatToString(n)) == n
  {
    if n >= 10 {
      var s := NatToString(n);
      NatToStringValue(n / 10);
      assert s[..|s| - 1] == NatToString(n / 10);
    }
  }

  /** Distinct numbers are written differently. */
  lemma NatToStringInjective(m: nat, n: nat)
    ensures NatToString(m) == NatToString(n) ==> m == n
  {
    NatToStringValue(m);
    NatToStringValue(n);
  }

  /**
   * `str::parse::<u32>`: an optional leading '+', then at least one decimal
   * digit, and a value below 2^32.
   */
  function ParseU32(s: string): (r: Option<u32>)
    ensures r.Some? ==> 0 < |s|
  {
    var digits := if 0 < |s| && s[0] == '+' then s[1..] else s;
    if |digits| == 0 || !AllDigits(digits) then None
    else if DigitsValue(digits) < TWO_TO_THE_32 then Some(DigitsValue(digits))
    else None
  }

  lemma ParseU32OfNatToString(n: u32)
    ensures ParseU32(NatToString(n)) == Some(n)
  {
    NatToStringValue(n);
  }

  /** `s.split(sep)`: the pieces between separators, empty pieces included. */
  function Split(s: string, sep: char): (r: seq<string>)
    ensures 0 < |r|
  {
    if |s| == 0 then [""]
    else
      var rest := Split(s[1..], sep);
      if s[0] == sep then [""] + rest else [[s[0]] + rest[0]] + rest[1..]
  }

  /** The pieces glued back together with the separator between them. */
  function Join(parts: seq<string>, sep: char): string
    requires 0 < |parts|
  {
    if |parts| == 1 then parts[0] else parts[0] + [sep] + Join(parts[1..], sep)
  }

  predicate Free(s: string, sep: char) { forall i :: 0 <= i < |s| ==> s[i] != sep }

  lemma {:induction false} SplitAfterFreePrefix(x: string, t: string, sep: char)
    requires Free(x, sep)
    ensures Split(x + t, sep) == [x + Split(t, sep)[0]] + Split(t, sep)[1..]
  {
    if x != [] {
      var st := Split(t, sep);
      SplitAfterFreePrefix(x[1..], t, sep);
      assert (x + t)[1..] == x[1..] + t && (x + t)[0] == x[0] != sep;
      var rest := Split(x[1..] + t, sep);
      assert rest[0] == x[1..] + st[0] && rest[1..] == st[1..];
      assert [x[0]] + (x[1..] + st[0]) == x + st[0];
    } else {
      var r := Split(t, sep);
      assert x + t == t && x + r[0] == r[0];
      assert r == [r[0]] + r[1..];
    }
  }

  /** Splitting a join of separator-free pieces gives back the pieces. */
  lemma {:induction false} SplitJoin(parts: seq<string>, sep: char)
    requires 0 < |parts|
    requires forall i :: 0 <= i < |parts| ==> Free(parts[i], sep)
    ensures Split(Join(parts, sep), sep) == parts
  {
    if |parts| == 1 {
      SplitAfterFreePrefix(parts[0], "", sep);
      assert parts[0] + "" == parts[0];
    } else {
      var rest := Join(parts[1..], sep);
      SplitJoin(parts[1..], sep);
      SplitAfterFreePrefix(parts[0], [sep] + rest, sep);
      var tail := [sep] + rest;
      assert tail[0] == sep && tail[1..] == rest;
      assert Split(tail, sep) == [""] + Split(rest, sep);
      assert parts[0] + "" == parts[0];
      assert parts[0] + [sep] + rest == parts[0] + tail;
      assert [parts[0]] + parts[1..] == parts;
    }
  }

  /** Joining the pieces of a split gives back the string, and no piece holds the separator. */
  lemma {:induction false} JoinSplit(s: string, sep: char)
    ensures Join(Split(s, sep), sep) == s
    ensures forall i :: 0 <= i < |Split(s, sep)| ==> Free(Split(s, sep)[i], sep)
  {
    if |s| > 0 {
      var rest := Split(s[1..], sep);
      JoinSplit(s[1..], sep);
      if s[0] == sep {
        assert Split(s, sep)[1..] == rest;
        assert [s[0]] + s[1..] == s;
      } else {
        var r := Split(s, sep);
        assert r[0] == [s[0]] + rest[0];
        if |rest| == 1 {
          assert [s[0]] + s[1..] == s;
        } else {
          assert r[1..] == rest[1..];
          assert Join(rest, sep) == rest[0] + [sep] + Join(rest[1..], sep);
          assert [s[0]] + s[1..] == s;
        }
        assert forall i :: 1 <= i < |r| ==> r[i] == rest[i];
      }
    }
  }
}
