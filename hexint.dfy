/**
 * Python's `int(x, 16)`, which the assembler applies to every token
 * (assembler.py, line 25). A literal is an optional sign `+` or `-`, an
 * optional prefix `0x` or `0X`, then hexadecimal digits in either case; one
 * underscore may stand right after the prefix and one between any two
 * digits. Anything else makes `int` raise `ValueError`, written `None` here.
 */
module HexInt {
  import opened Options

  predicate IsHexDigit(c: char) {
    '0' <= c <= '9' || 'a' <= c <= 'f' || 'A' <= c <= 'F'
  }

  predicate AllHexDigits(s: string) {
    forall i :: 0 <= i < |s| ==> IsHexDigit(s[i])
  }

  function DigitValue(c: char): (d: nat)
    requires IsHexDigit(c)
    ensures d < 16
  {
    if '0' <= c <= '9' then c as int - '0' as int
    else if 'a' <= c <= 'f' then c as int - 'a' as int + 10
    else c as int - 'A' as int + 10
  }

  /** The upper-case digit for a value below 16. */
  function DigitChar(d: nat): (c: char)
    requires d < 16
    ensures IsHexDigit(c) && DigitValue(c) == d
  {
    if d < 10 then ('0' as int + d) as char else ('A' as int + d - 10) as char
  }

  function Pow16(n: nat): (p: nat)
    ensures p >= 1
  {
    if n == 0 then 1 else 16 * Pow16(n - 1)
  }

  /** The number the digits `ds` denote, most significant first. */
  function HexValue(ds: string): (v: nat)
    requires AllHexDigits(ds)
    ensures v < Pow16(|ds|)
    decreases |ds|
  {
    if ds == [] then 0
    else
      var init := ds[..|ds| - 1];
      assert AllHexDigits(init) by {
        forall i | 0 <= i < |init| ensures IsHexDigit(init[i]) { assert init[i] == ds[i]; }
      }
      HexValue(init) * 16 + DigitValue(ds[|ds| - 1])
  }

  /** Appending a digit multiplies the value so far by 16 and adds the digit. */
  lemma HexValueSnoc(s: string, c: char)
    requires AllHexDigits(s) && IsHexDigit(c)
    ensures AllHexDigits(s + [c]) && HexValue(s + [c]) == HexValue(s) * 16 + DigitValue(c)
  {
    assert (s + [c])[..|s|] == s;
  }

  /**
   * Digits with single underscores allowed between them, `hexdigit (["_"] hexdigit)*`:
   * `1f` and `ff_ff`, but not `_1`, `1_` or `1__2`.
   */
  predicate IsDigitRun(d: string)
    decreases |d|
  {
    && |d| > 0
    && IsHexDigit(d[0])
    && (|d| == 1 || if d[1] == '_' then IsDigitRun(d[2..]) else IsDigitRun(d[1..]))
  }

  function WithoutUnderscores(s: string): (r: string)
    ensures |r| <= |s|
  {
    if s == [] then ""
    else if s[0] == '_' then WithoutUnderscores(s[1..])
    else [s[0]] + WithoutUnderscores(s[1..])
  }

  /** Removing the underscores of a digit run leaves plain digits, at least one. */
  lemma {:induction false} DigitRunWithoutUnderscores(d: string)
    requires IsDigitRun(d)
    ensures |WithoutUnderscores(d)| > 0 && AllHexDigits(WithoutUnderscores(d))
    decreases |d|
  {
    if |d| > 1 {
      if d[1] == '_' {
        DigitRunWithoutUnderscores(d[2..]);
        assert d[1..][1..] == d[2..];
      } else {
        DigitRunWithoutUnderscores(d[1..]);
      }
    }
  }

  /** Plain digits form a digit run. */
  lemma {:induction false} DigitsAreDigitRun(ds: string)
    requires |ds| > 0 && AllHexDigits(ds)
    ensures IsDigitRun(ds)
    decreases |ds|
  {
    if |ds| > 1 {
      assert IsHexDigit(ds[1]);
      assert AllHexDigits(ds[1..]) by {
        forall i | 0 <= i < |ds[1..]| ensures IsHexDigit(ds[1..][i]) { assert ds[1..][i] == ds[i + 1]; }
      }
      DigitsAreDigitRun(ds[1..]);
    }
  }

  /** `int(u, 16)` for a literal without sign: optional prefix, then a digit run. */
  function ParseUnsigned(u: string): (r: Option<nat>)
    ensures r.Some? ==> r.value < Pow16(|u|)
  {
    var prefixed := |u| >= 2 && u[0] == '0' && (u[1] == 'x' || u[1] == 'X');
    var body := if prefixed then u[2..] else u;
    var digits := if prefixed && |body| > 0 && body[0] == '_' then body[1..] else body;
    if IsDigitRun(digits) then
      var plain := WithoutUnderscores(digits);
      DigitRunWithoutUnderscores(digits);
      Pow16Monotone(|plain|, |u|);
      Some(HexValue(plain))
    else
      None
  }

  /**
   * `int(t, 16)`: `Some` of the value, or `None` where Python raises
   * `ValueError`. A literal of `n` characters has magnitude below 16^n, and
   * only a leading `-` makes it negative.
   */
  function ParseHex(t: string): (r: Option<int>)
    ensures r.Some? ==> -(Pow16(|t|) as int) < r.value < Pow16(|t|)
    ensures r.Some? && r.value < 0 ==> t[0] == '-'
  {
    if |t| > 0 && (t[0] == '+' || t[0] == '-') then
      match ParseUnsigned(t[1..])
      case None => None
      case Some(m) =>
        Pow16Monotone(|t| - 1, |t|);
        Some(if t[0] == '-' then -(m as int) else m)
    else
      ParseUnsigned(t)
  }

  /** The shortest upper-case hexadecimal digits of `m`. */
  function Digits(m: nat): (ds: string)
    ensures |ds| > 0 && AllHexDigits(ds)
    ensures HexValue(ds) == m
    decreases m
  {
    if m < 16 then [DigitChar(m)]
    else
      var high := Digits(m / 16);
      var ds := high + [DigitChar(m % 16)];
      assert ds[..|ds| - 1] == high;
      ds
  }

  /** A literal for `n` that Python's `int(_, 16)` reads: sign if negative, `0x` if asked, then digits. */
  function Format(n: int, prefixed: bool): string {
    var unsigned := (if prefixed then "0x" else "") + Digits(if n < 0 then -n else n);
    if n < 0 then "-" + unsigned else unsigned
  }

  lemma {:induction false} WithoutUnderscoresOfDigits(ds: string)
    requires AllHexDigits(ds)
    ensures WithoutUnderscores(ds) == ds
  {
    if ds != [] {
      assert AllHexDigits(ds[1..]) by {
        forall i | 0 <= i < |ds[1..]| ensures IsHexDigit(ds[1..][i]) { assert ds[1..][i] == ds[i + 1]; }
      }
      WithoutUnderscoresOfDigits(ds[1..]);
    }
  }

  /** A non-empty run of plain digits, without sign or prefix, is read as the number it denotes. */
  lemma ParsePlainDigits(ds: string)
    requires |ds| > 0 && AllHexDigits(ds)
    ensures ParseHex(ds) == Some(HexValue(ds))
  {
    ParseUnprefixedDigits(ds);
    assert IsHexDigit(ds[0]);
  }

  /** Round trip: every integer, written by `Format` with or without prefix, is read back unchanged. */
  lemma ParseFormat(n: int, prefixed: bool)
    ensures ParseHex(Format(n, prefixed)) == Some(n)
  {
    var m := if n < 0 then -n else n;
    var unsigned := (if prefixed then "0x" else "") + Digits(m);
    ParseUnsignedFormat(m, prefixed);
    if n < 0 {
      var t := Format(n, prefixed);
      assert t == "-" + unsigned;
      assert t[0] == '-' && t[1..] == unsigned;
    } else {
      assert Format(n, prefixed) == unsigned;
      assert unsigned[0] == '0' || IsHexDigit(unsigned[0]);
    }
  }

  lemma ParseUnsignedFormat(m: nat, prefixed: bool)
    ensures ParseUnsigned((if prefixed then "0x" else "") + Digits(m)) == Some(m)
  {
    var ds := Digits(m);
    if prefixed {
      ParsePrefixedDigits(ds);
    } else {
      assert "" + ds == ds;
      ParseUnprefixedDigits(ds);
    }
  }

  lemma ParseUnprefixedDigits(ds: string)
    requires |ds| > 0 && AllHexDigits(ds)
    ensures ParseUnsigned(ds) == Some(HexValue(ds))
  {
    WithoutUnderscoresOfDigits(ds);
    DigitsAreDigitRun(ds);
    assert !(|ds| >= 2 && (ds[1] == 'x' || ds[1] == 'X')) by {
      if |ds| >= 2 { assert IsHexDigit(ds[1]); }
    }
  }

  lemma ParsePrefixedDigits(ds: string)
    requires |ds| > 0 && AllHexDigits(ds)
    ensures ParseUnsigned("0x" + ds) == Some(HexValue(ds))
  {
    var u := "0x" + ds;
    WithoutUnderscoresOfDigits(ds);
    DigitsAreDigitRun(ds);
    assert u[0] == '0' && u[1] == 'x';
    assert u[2..] == ds;
    assert ds[0] != '_' by { assert IsHexDigit(ds[0]); }
  }

  /** A token of at most four plain digits always denotes a 16-bit unsigned value. */
  lemma ShortTokenFitsSixteenBits(ds: string)
    requires 0 < |ds| <= 4 && AllHexDigits(ds)
    ensures ParseHex(ds).Some? && 0 <= ParseHex(ds).value <= 0xFFFF
  {
    ParsePlainDigits(ds);
    Pow16Monotone(|ds|, 4);
  }

  lemma {:induction false} Pow16Monotone(m: nat, n: nat)
    requires m <= n
    ensures Pow16(m) <= Pow16(n)
    decreases n
  {
    if m < n {
      Pow16Monotone(m, n - 1);
    }
  }

  /** The characters a literal accepted by `int(_, 16)` can contain. */
  predicate InLiteralAlphabet(c: char) {
    IsHexDigit(c) || c == '+' || c == '-' || c == 'x' || c == 'X' || c == '_'
  }

  lemma {:induction false} DigitRunAlphabet(d: string)
    requires IsDigitRun(d)
    ensures forall i :: 0 <= i < |d| ==> IsHexDigit(d[i]) || d[i] == '_'
    decreases |d|
  {
    if |d| > 1 {
      if d[1] == '_' {
        DigitRunAlphabet(d[2..]);
        assert forall i :: 2 <= i < |d| ==> d[i] == d[2..][i - 2];
      } else {
        DigitRunAlphabet(d[1..]);
        assert forall i :: 1 <= i < |d| ==> d[i] == d[1..][i - 1];
      }
    }
  }

  lemma ParseUnsignedAlphabet(u: string)
    requires ParseUnsigned(u).Some?
    ensures forall i :: 0 <= i < |u| ==> IsHexDigit(u[i]) || u[i] == 'x' || u[i] == 'X' || u[i] == '_'
  {
    var prefixed := |u| >= 2 && u[0] == '0' && (u[1] == 'x' || u[1] == 'X');
    var body := if prefixed then u[2..] else u;
    var skip := prefixed && |body| > 0 && body[0] == '_';
    var digits := if skip then body[1..] else body;
    DigitRunAlphabet(digits);
    var offset := (if prefixed then 2 else 0) + (if skip then 1 else 0);
    assert forall i :: offset <= i < |u| ==> u[i] == digits[i - offset];
  }

  /** A token with a character outside signs, `x`, `X`, `_` and hexadecimal digits is rejected. */
  lemma ParseHexAlphabet(t: string)
    requires ParseHex(t).Some?
    ensures forall i :: 0 <= i < |t| ==> InLiteralAlphabet(t[i])
  {
    if |t| > 0 && (t[0] == '+' || t[0] == '-') {
      ParseUnsignedAlphabet(t[1..]);
      assert forall i :: 1 <= i < |t| ==> t[i] == t[1..][i - 1];
    } else {
      ParseUnsignedAlphabet(t);
    }
  }
}
