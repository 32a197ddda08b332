/**
  The C library's `atoi` as the evaluator uses it on the text of a number
  leaf: skip leading white space, read an optional sign, then the longest
  run of decimal digits; whatever follows (the `.digits` of a decimal
  literal, say) is ignored, and text with no digits reads as 0.  The value
  is computed over unbounded integers; whether it fits the C `int` that
  `atoi` returns is a separate question (`InInt`).
 */
module CAtoi {

  const IntMin: int := -0x8000_0000
  const IntMax: int := 0x7fff_ffff

  /** The value is representable in a 32-bit C `int`. */
  predicate InInt(n: int)
  {
    IntMin <= n <= IntMax
  }

  /** `isspace` in the C locale. */
  predicate IsSpace(c: char)
  {
    c == ' ' || c == '\t' || c == '\n' || c == '\U{000B}' || c == '\U{000C}' || c == '\r'
  }

  predicate IsDigit(c: char)
  {
    '0' <= c <= '9'
  }

  predicate AllDigits(s: string)
  {
    forall i :: 0 <= i < |s| ==> IsDigit(s[i])
  }

  function DigitValue(c: char): (d: nat)
    requires IsDigit(c)
    ensures d < 10
  {
    c as int - '0' as int
  }

  function DigitChar(d: nat): (c: char)
    requires d < 10
    ensures IsDigit(c) && DigitValue(c) == d
  {
    ('0' as int + d) as char
  }

  /** The value of a run of decimal digits, most significant first. */
  function DecimalValue(ds: string): nat
    requires AllDigits(ds)
  {
    if ds == [] then 0 else DecimalValue(ds[..|ds| - 1]) * 10 + DigitValue(ds[|ds| - 1])
  }

  /** The longest prefix of `s` made of decimal digits. */
  function LeadingDigits(s: string): (ds: string)
    ensures ds <= s && AllDigits(ds)
    ensures |ds| < |s| ==> !IsDigit(s[|ds|])
  {
    if s == [] || !IsDigit(s[0]) then [] else [s[0]] + LeadingDigits(s[1..])
  }

  /** `s` with its leading white space removed. */
  function SkipSpace(s: string): string
  {
    if s != [] && IsSpace(s[0]) then SkipSpace(s[1..]) else s
  }

  /** `atoi(s)`, before the conversion to `int`. */
  function Atoi(s: string): int
  {
    var t := SkipSpace(s);
    if t != [] && t[0] == '-' then -(DecimalValue(LeadingDigits(t[1..])) as int)
    else if t != [] && t[0] == '+' then DecimalValue(LeadingDigits(t[1..]))
    else DecimalValue(LeadingDigits(t))
  }

  /** The decimal text of a natural number, without leading zeros. */
  function NatText(n: nat): (s: string)
    ensures |s| > 0 && AllDigits(s)
  {
    if n < 10 then [DigitChar(n)] else NatText(n / 10) + [DigitChar(n % 10)]
  }

  /** The decimal text of an integer, as `printf("%li")` writes it. */
  function IntText(n: int): string
  {
    if n < 0 then ['-'] + NatText(-n) else NatText(n)
  }

  /** Reading the text of a natural number gives the number back. */
  lemma {:induction false} NatTextValue(n: nat)
    ensures DecimalValue(NatText(n)) == n
  {
    if n >= 10 {
      NatTextValue(n / 10);
      var s := NatText(n);
      assert s[..|s| - 1] == NatText(n / 10);
    }
  }

  /** A run of digits followed by something that is not a digit is exactly the leading digit run. */
  lemma {:induction false} LeadingDigitsOf(ds: string, rest: string)
    requires AllDigits(ds)
    requires rest == [] || !IsDigit(rest[0])
    ensures LeadingDigits(ds + rest) == ds
  {
    if ds != [] {
      assert (ds + rest)[1..] == ds[1..] + rest;
      LeadingDigitsOf(ds[1..], rest);
    } else if rest != [] {
      assert (ds + rest)[0] == rest[0];
    }
  }

  /** Text that starts with a digit reads as the value of its leading digit run. */
  lemma {:induction false} AtoiUnsigned(u: string)
    requires u != [] && IsDigit(u[0])
    ensures Atoi(u) == DecimalValue(LeadingDigits(u))
    ensures Atoi(['-'] + u) == -(DecimalValue(LeadingDigits(u)) as int)
  {
  }

  /** The source text of a number literal: optional minus, integer digits, optional `.digits`. */
  function LiteralText(negative: bool, ip: string, frac: string): string
  {
    (if negative then ['-'] else []) + ip + (if frac == [] then [] else ['.'] + frac)
  }

  /**
    A number literal of the grammar, `-?[0-9]+(\.[0-9]+)?`, reads as the value of
    its integer digits with its sign; a fractional part is ignored.  (`frac` empty
    stands for a literal without a fractional part.)
   */
  lemma {:induction false} AtoiOfLiteral(negative: bool, ip: string, frac: string)
    requires |ip| > 0 && AllDigits(ip) && AllDigits(frac)
    ensures Atoi(LiteralText(negative, ip, frac)) == if negative then -(DecimalValue(ip) as int) else DecimalValue(ip)
  {
    var tail := if frac == [] then [] else ['.'] + frac;
    var unsigned := ip + tail;
    var text := LiteralText(negative, ip, frac);
    LeadingDigitsOf(ip, tail);
    assert LeadingDigits(unsigned) == ip;
    assert unsigned[0] == ip[0];
    AtoiUnsigned(unsigned);
    if negative {
      assert text == ['-'] + unsigned by {
        assert text == ['-'] + ip + tail;
      }
    } else {
      assert text == unsigned by {
        assert text == [] + ip + tail;
      }
    }
  }

  /**
    `atoi`'s digit reading, before the conversion to `int`, reads back the
    decimal text of every integer: `Atoi(IntText(n)) == n`.
   */
  lemma {:induction false} AtoiOfIntText(n: int)
    ensures Atoi(IntText(n)) == n
  {
    if n < 0 {
      NatTextValue(-n);
      AtoiOfLiteral(true, NatText(-n), "");
      assert IntText(n) == LiteralText(true, NatText(-n), "");
    } else {
      NatTextValue(n);
      AtoiOfLiteral(false, NatText(n), "");
      assert IntText(n) == LiteralText(false, NatText(n), "");
    }
  }

  /** Every character of `ws` is white space. */
  predicate AllSpace(ws: string)
  {
    forall k :: 0 <= k < |ws| ==> IsSpace(ws[k])
  }

  /** Leading white space is skipped up to the first character that is not white space. */
  lemma {:induction false} SkipSpaceOf(ws: string, u: string)
    requires AllSpace(ws)
    requires u == [] || !IsSpace(u[0])
    ensures SkipSpace(ws + u) == u
    decreases |ws|
  {
    if ws != [] {
      assert (ws + u)[1..] == ws[1..] + u;
      SkipSpaceOf(ws[1..], u);
    }
  }

  /**
    Text with no digit after its leading white space and optional sign reads
    as 0: `atoi` converts nothing.  After a sign, even white space ends the
    number.
   */
  lemma {:induction false} AtoiWithoutDigits(ws: string, sign: string, rest: string)
    requires AllSpace(ws)
    requires sign == [] || sign == ['-'] || sign == ['+']
    requires rest == [] || !IsDigit(rest[0])
    requires sign == [] && rest != [] ==> !IsSpace(rest[0]) && rest[0] != '-' && rest[0] != '+'
    ensures Atoi(ws + sign + rest) == 0
  {
    assert ws + sign + rest == ws + (sign + rest);
    SkipSpaceOf(ws, sign + rest);
    if sign != [] {
      assert (sign + rest)[1..] == rest;
    }
  }
}
