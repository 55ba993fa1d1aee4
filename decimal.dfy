/** Decimal rendering of integers as Python's `str(i)` and `format(i, "0Nd")`
    produce it, and parsing such text back to the integer. */
module Decimal {

  predicate IsDigit(c: char)
  {
    '0' <= c <= '9'
  }

  predicate AllDigits(s: string)
  {
    forall k :: 0 <= k < |s| ==> IsDigit(s[k])
  }

  /** Text made only of digits and minus signs: in particular it holds no
      path separator. */
  predicate IsNumeral(s: string)
  {
    forall k :: 0 <= k < |s| ==> IsDigit(s[k]) || s[k] == '-'
  }

  function DigitValue(c: char): (d: nat)
    requires IsDigit(c)
    ensures d < 10
  {
    c as int - '0' as int
  }

  function DigitChar(d: nat): (c: char)
    requires d < 10
    ensures IsDigit(c) && DigitValue(c) == d
  {
    (48 + d) as char
  }

  function Abs(i: int): nat
  {
    if i < 0 then -i else i
  }

  /** The digits of `n`, most significant first, without leading zeros. */
  function NatToDigits(n: nat): (s: string)
    ensures |s| >= 1 && AllDigits(s)
    ensures s[0] == '0' <==> n == 0
    decreases n
  {
    if n < 10 then [DigitChar(n)] else NatToDigits(n / 10) + [DigitChar(n % 10)]
  }

  /** The value of a string of digits (leading zeros allowed). */
  function ParseDigits(s: string): nat
    requires AllDigits(s)
    decreases |s|
  {
    if s == [] then 0 else 10 * ParseDigits(s[..|s| - 1]) + DigitValue(s[|s| - 1])
  }

  /** `str(i)`. */
  function IntToString(i: int): string
  {
    if i < 0 then "-" + NatToDigits(-i) else NatToDigits(i)
  }

  function Zeros(k: nat): string
  {
    seq(k, _ => '0')
  }

  /** `format(i, "0{width}d")`: the sign, then the digits of `|i|` padded on
      the left with zeros until the whole is `width` long; never cut short. */
  function FormatPadded(i: int, width: nat): string
  {
    var digits := NatToDigits(Abs(i));
    if i < 0 then
      var field := if width > 0 then width - 1 else 0;
      "-" + (if |digits| >= field then digits else Zeros(field - |digits|) + digits)
    else
      if |digits| >= width then digits else Zeros(width - |digits|) + digits
  }

  /** `str(i)` is a minus sign (for a negative `i`) and the digits of `|i|`. */
  lemma IntToStringLayout(i: int)
    ensures IsNumeral(IntToString(i))
    ensures IntToString(i) == (if i < 0 then "-" else "") + NatToDigits(Abs(i))
  {
  }

  /** The layout of `format(i, "0{width}d")`: the sign, zeros, then the
      digits of `|i|`, the whole `width` long unless the digits need more. */
  lemma FormatPaddedLayout(i: int, width: nat)
    ensures var s := FormatPadded(i, width);
            var digits := NatToDigits(Abs(i));
            var signLen := if i < 0 then 1 else 0;
            && IsNumeral(s)
            && |s| == (if width > signLen + |digits| then width else signLen + |digits|)
            && (i < 0 ==> s[0] == '-')
            && (forall k :: signLen <= k < |s| - |digits| ==> s[k] == '0')
            && s[|s| - |digits|..] == digits
  {
    var digits := NatToDigits(Abs(i));
    if i < 0 {
      var field := if width > 0 then width - 1 else 0;
      var body := if |digits| >= field then digits else Zeros(field - |digits|) + digits;
      PaddedLayout(body, digits, field);
      assert FormatPadded(i, width) == "-" + body;
    } else {
      var body := if |digits| >= width then digits else Zeros(width - |digits|) + digits;
      PaddedLayout(body, digits, width);
    }
  }

  /** Digits padded on the left with zeros to `width`. */
  lemma PaddedLayout(body: string, digits: string, width: nat)
    requires AllDigits(digits)
    requires body == if |digits| >= width then digits else Zeros(width - |digits|) + digits
    ensures AllDigits(body)
    ensures |body| == if width > |digits| then width else |digits|
    ensures forall k :: 0 <= k < |body| - |digits| ==> body[k] == '0'
    ensures body[|body| - |digits|..] == digits
  {
    if |digits| < width {
      assert forall k :: 0 <= k < width - |digits| ==> body[k] == Zeros(width - |digits|)[k];
    }
  }

  /** An optional minus sign followed by at least one digit. */
  predicate IsIntLiteral(s: string)
  {
    (|s| > 0 && AllDigits(s)) || (|s| > 1 && s[0] == '-' && AllDigits(s[1..]))
  }

  /** `int(s)` for an integer literal. */
  function ParseInt(s: string): int
    requires IsIntLiteral(s)
  {
    if s[0] == '-' then -(ParseDigits(s[1..]) as int) else ParseDigits(s)
  }

  /** The number of digits that `s` starts with. */
  function DigitRun(s: string): (n: nat)
    ensures n <= |s|
    decreases |s|
  {
    if s == [] || !IsDigit(s[0]) then 0 else 1 + DigitRun(s[1..])
  }

  /** The integer literal `s` starts with: an optional minus sign and the
      digits that follow it. */
  function LeadingInt(s: string): string
  {
    if |s| > 0 && s[0] == '-' then "-" + s[1..][..DigitRun(s[1..])] else s[..DigitRun(s)]
  }

  lemma {:induction false} ParseNatToDigits(n: nat)
    ensures ParseDigits(NatToDigits(n)) == n
    decreases n
  {
    if n >= 10 {
      var s := NatToDigits(n);
      assert s[..|s| - 1] == NatToDigits(n / 10);
      ParseNatToDigits(n / 10);
    }
  }

  lemma {:induction false} ParseZeros(k: nat)
    ensures AllDigits(Zeros(k)) && ParseDigits(Zeros(k)) == 0
  {
    if k > 0 {
      assert Zeros(k)[..k - 1] == Zeros(k - 1);
      ParseZeros(k - 1);
    }
  }

  /** Leading zeros do not change the value of a digit string. */
  lemma {:induction false} ParseWithLeadingZeros(k: nat, s: string)
    requires AllDigits(s)
    ensures AllDigits(Zeros(k) + s) && ParseDigits(Zeros(k) + s) == ParseDigits(s)
    decreases |s|
  {
    ParseZeros(k);
    var t := Zeros(k) + s;
    if s == [] {
      assert t == Zeros(k);
    } else {
      assert t[..|t| - 1] == Zeros(k) + s[..|s| - 1];
      ParseWithLeadingZeros(k, s[..|s| - 1]);
    }
  }

  /** Rendering and parsing are inverse: `int(str(i)) == i`. */
  lemma IntToStringRoundTrip(i: int)
    ensures IsIntLiteral(IntToString(i)) && ParseInt(IntToString(i)) == i
  {
    var s := IntToString(i);
    IntToStringLayout(i);
    if i < 0 {
      assert s[1..] == NatToDigits(-i);
      ParseNatToDigits(-i);
    } else {
      ParseNatToDigits(i);
    }
  }

  /** A zero-padded rendering parses back to the same integer, whatever the
      width: `int(format(i, "0Nd")) == i`. */
  lemma FormatPaddedRoundTrip(i: int, width: nat)
    ensures IsIntLiteral(FormatPadded(i, width)) && ParseInt(FormatPadded(i, width)) == i
  {
    var s := FormatPadded(i, width);
    var digits := NatToDigits(Abs(i));
    FormatPaddedLayout(i, width);
    ParseNatToDigits(Abs(i));
    var body := if i < 0 then s[1..] else s;
    var pad := |body| - |digits|;
    assert body == Zeros(pad) + digits;
    ParseWithLeadingZeros(pad, digits);
  }

  /** Two digits for a value below 100, as in `format(s, "02d")`. */
  lemma TwoDigitField(v: int)
    requires 0 <= v < 100
    ensures FormatPadded(v, 2) == [DigitChar(v / 10), DigitChar(v % 10)]
  {
    if v >= 10 {
      assert NatToDigits(v) == NatToDigits(v / 10) + [DigitChar(v % 10)];
    }
  }

  lemma {:induction false} DigitRunOfDigits(d: string, rest: string)
    requires AllDigits(d)
    requires rest == [] || !IsDigit(rest[0])
    ensures DigitRun(d + rest) == |d|
    decreases |d|
  {
    if d != [] {
      assert (d + rest)[1..] == d[1..] + rest;
      DigitRunOfDigits(d[1..], rest);
    }
  }

  /** An integer literal followed by text that does not start with a digit
      can be read back off the front. */
  lemma LeadingIntOfLiteral(lit: string, rest: string)
    requires IsIntLiteral(lit)
    requires rest == [] || !IsDigit(rest[0])
    ensures LeadingInt(lit + rest) == lit
  {
    var s := lit + rest;
    if lit[0] == '-' {
      assert s[1..] == lit[1..] + rest;
      DigitRunOfDigits(lit[1..], rest);
      assert s[1..][..|lit| - 1] == lit[1..];
    } else {
      DigitRunOfDigits(lit, rest);
      assert s[..|lit|] == lit;
    }
  }
}
