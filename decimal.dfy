/**
 * Unsigned 64-bit integers and their decimal text: strconv.ParseUint(s, 10, 64),
 * which the handlers use on the path id, and fmt's %d, which writes an id
 * back into a response header.
 */
module Decimal {
  import opened Wrappers

  /** 2^64 - 1, the largest value a Go uint64 holds. */
  const MaxUint64: int := 0xFFFF_FFFF_FFFF_FFFF

  type uint64 = x: int | 0 <= x <= MaxUint64

  predicate IsDigit(c: char)
  {
    '0' <= c <= '9'
  }

  predicate AllDigits(s: string)
  {
    forall i :: 0 <= i < |s| ==> IsDigit(s[i])
  }

  function DigitValue(c: char): (d: nat)
    requires IsDigit(c)
    ensures d < 10
  {
    c as int - '0' as int
  }

  function DigitChar(d: nat): (c: char)
    requires d < 10
    ensures IsDigit(c) && DigitValue(c) == d
  {
    ('0' as int + d) as char
  }

  /** The number a string of decimal digits denotes, most significant digit first. */
  function Value(s: string): nat
    requires AllDigits(s)
    decreases |s|
  {
    if s == [] then 0 else Value(s[..|s| - 1]) * 10 + DigitValue(s[|s| - 1])
  }

  /** What strconv.ParseUint(s, 10, 64) accepts, and the value it yields. */
  function ParsedUint(s: string): Option<uint64>
  {
    if s != [] && AllDigits(s) && Value(s) <= MaxUint64 then Some(Value(s)) else None
  }

  /** A longer digit string never denotes a smaller number. */
  lemma {:induction false} ValueOfPrefix(s: string, k: nat)
    requires AllDigits(s) && k <= |s|
    ensures Value(s[..k]) <= Value(s)
    decreases |s| - k
  {
    if k < |s| {
      ValueOfPrefix(s, k + 1);
      assert s[..k + 1][..k] == s[..k];
    } else {
      assert s[..k] == s;
    }
  }

  /**
   * strconv.ParseUint(s, 10, 64): the digits are read left to right; a
   * character that is not a digit is a syntax error and a value that would
   * exceed 2^64 - 1 is a range error, both reported as soon as they are met.
   * The input is accepted exactly when it is a non-empty string of digits
   * whose value fits.
   */
  method ParseUint(s: string) returns (r: Option<uint64>)
    ensures r.Some? <==> s != [] && AllDigits(s) && Value(s) <= MaxUint64
    ensures r.Some? ==> r.value == Value(s)
  {
    if |s| == 0 {
      return None;
    }
    var cutoff: uint64 := MaxUint64 / 10 + 1;
    var n: uint64 := 0;
    var i := 0;
    while i < |s|
      invariant 0 <= i <= |s|
      invariant AllDigits(s[..i])
      invariant n == Value(s[..i])
    {
      var c := s[i];
      assert s[..i + 1][..i] == s[..i];
      if !IsDigit(c) {
        return None;
      }
      var d := DigitValue(c);
      if n >= cutoff {
        if AllDigits(s) {
          ValueOfPrefix(s, i + 1);
        }
        return None;
      }
      var n1 := n * 10 + d;
      if n1 > MaxUint64 {
        if AllDigits(s) {
          ValueOfPrefix(s, i + 1);
        }
        return None;
      }
      n := n1;
      i := i + 1;
    }
    assert s[..i] == s;
    return Some(n);
  }

  /** fmt's %d of an unsigned integer: its shortest decimal digits. */
  function FormatUint(n: nat): (s: string)
    ensures s != [] && AllDigits(s)
    decreases n
  {
    if n < 10 then [DigitChar(n)] else FormatUint(n / 10) + [DigitChar(n % 10)]
  }

  lemma {:induction false} ValueOfFormat(n: nat)
    ensures Value(FormatUint(n)) == n
    decreases n
  {
    var s := FormatUint(n);
    if n >= 10 {
      ValueOfFormat(n / 10);
      assert s[..|s| - 1] == FormatUint(n / 10);
    }
  }

  /** Parsing what %d printed gives back the id: the two are inverse. */
  lemma ParseFormatted(n: uint64)
    ensures ParsedUint(FormatUint(n)) == Some(n)
  {
    ValueOfFormat(n);
  }

  /** Leading zeros are accepted and do not change the value. */
  lemma {:induction false} LeadingZero(s: string)
    requires AllDigits(s)
    ensures AllDigits("0" + s) && Value("0" + s) == Value(s)
    decreases |s|
  {
    var z := "0" + s;
    if s != [] {
      LeadingZero(s[..|s| - 1]);
      assert z[..|z| - 1] == "0" + s[..|s| - 1];
    }
  }
}
