/** Decimal text: what `format!("{n}")` and `format!("{n:04}")` print, and what the
    `parse::<i64>()` and `parse::<usize>()` of the standard library read. */
module Decimal {
  import opened Wrappers

  predicate IsDigit(c: char) {
    '0' <= c <= '9'
  }

  predicate AllDigits(s: string) {
    forall c <- s :: IsDigit(c)
  }

  function DigitChar(d: nat): (c: char)
    requires d < 10
    ensures IsDigit(c) && DigitValue(c) == d
  {
    '0' + d as char
  }

  function DigitValue(c: char): (d: nat)
    requires IsDigit(c)
    ensures d < 10
  {
    c as int - '0' as int
  }

  // ----- Printing -----

  function Print(n: nat): (s: string)
    ensures |s| > 0 && AllDigits(s)
  {
    if n < 10 then [DigitChar(n)] else Print(n / 10) + [DigitChar(n % 10)]
  }

  function Zeros(k: nat): (s: string)
    ensures |s| == k && AllDigits(s)
    ensures forall c <- s :: c == '0'
  {
    seq(k, _ => '0')
  }

  /** Zero-padded to at least `width` characters. */
  function PrintPadded(n: nat, width: nat): (s: string)
    ensures |s| > 0 && AllDigits(s)
  {
    var s := Print(n);
    if |s| < width then Zeros(width - |s|) + s else s
  }

  // ----- Parsing -----

  /** Value of a digit string; the empty string reads as 0. */
  function Value(s: string): nat
    requires AllDigits(s)
  {
    if s == "" then 0 else Value(s[..|s| - 1]) * 10 + DigitValue(s[|s| - 1])
  }

  /** An unsigned integer of at most `max`: one optional `+`, then digits. */
  function ParseUnsigned(s: string, max: nat): Option<nat> {
    var digits := if |s| > 0 && s[0] == '+' then s[1..] else s;
    if digits != "" && AllDigits(digits) && Value(digits) <= max then Some(Value(digits)) else None
  }

  /** A signed integer in `min..max`: one optional sign, then digits. */
  function ParseSigned(s: string, min: int, max: int): Option<int> {
    var signed := |s| > 0 && (s[0] == '+' || s[0] == '-');
    var digits := if signed then s[1..] else s;
    if digits == "" || !AllDigits(digits) then None
    else
      var v: int := Value(digits);
      var n := if signed && s[0] == '-' then -v else v;
      if min <= n <= max then Some(n) else None
  }

  // ----- Round trips -----

  lemma {:induction false} ValueOfPrint(n: nat)
    ensures Value(Print(n)) == n
  {
    if n >= 10 {
      ValueOfPrint(n / 10);
      assert Print(n)[..|Print(n)| - 1] == Print(n / 10);
    }
  }

  lemma {:induction false} LeadingZeros(k: nat, s: string)
    requires AllDigits(s)
    ensures Value(Zeros(k) + s) == Value(s)
  {
    var t := Zeros(k) + s;
    if s != "" {
      assert t[..|t| - 1] == Zeros(k) + s[..|s| - 1];
      LeadingZeros(k, s[..|s| - 1]);
    } else if k > 0 {
      assert t[..|t| - 1] == Zeros(k - 1) + s;
      LeadingZeros(k - 1, s);
    }
  }

  lemma {:induction false} ValueOfPrintPadded(n: nat, width: nat)
    ensures Value(PrintPadded(n, width)) == n
  {
    ValueOfPrint(n);
    var s := Print(n);
    if |s| < width {
      LeadingZeros(width - |s|, s);
    }
  }

  lemma {:induction false} ParseSignedOfPadded(n: nat, width: nat, min: int, max: int)
    requires min <= n <= max
    ensures ParseSigned(PrintPadded(n, width), min, max) == Some(n)
  {
    ValueOfPrintPadded(n, width);
    assert IsDigit(PrintPadded(n, width)[0]);
  }

  lemma {:induction false} ParseUnsignedOfPrint(n: nat, max: nat)
    ensures ParseUnsigned(Print(n), max) == if n <= max then Some(n) else None
  {
    ValueOfPrint(n);
    assert IsDigit(Print(n)[0]);
  }

  function Power(k: nat): nat {
    if k == 0 then 1 else 10 * Power(k - 1)
  }

  /** A number below the `k`-th power of ten is printed with at most `k` digits. */
  lemma {:induction false} PrintLength(n: nat, k: nat)
    requires k > 0 && n < Power(k)
    ensures |Print(n)| <= k
  {
    if n >= 10 {
      PrintLength(n / 10, k - 1);
    }
  }

  lemma {:induction false} PaddedLength(n: nat, width: nat)
    requires width > 0
    ensures |PrintPadded(n, width)| >= width
    ensures n < Power(width) ==> |PrintPadded(n, width)| == width
  {
    if n < Power(width) {
      PrintLength(n, width);
    }
  }

  /** What reads as a signed number: digits behind at most one sign, within the range. */
  lemma {:induction false} ParseSignedIs(digits: string, min: int, max: int)
    requires digits != "" && AllDigits(digits)
    ensures ParseSigned(digits, min, max) == if min <= Value(digits) <= max then Some(Value(digits)) else None
    ensures ParseSigned("+" + digits, min, max) == ParseSigned(digits, min, max)
    ensures ParseSigned("-" + digits, min, max) ==
            if min <= 0 - Value(digits) <= max then Some(0 - Value(digits)) else None
  {
    assert digits[0] in digits;
    assert ("+" + digits)[1..] == digits && ("-" + digits)[1..] == digits;
  }

  /** And nothing else does. */
  lemma {:induction false} ParseSignedOnly(s: string, min: int, max: int)
    requires ParseSigned(s, min, max).Some?
    ensures exists digits :: digits != "" && AllDigits(digits) && s in {digits, "+" + digits, "-" + digits}
  {
    var digits := if s[0] == '+' || s[0] == '-' then s[1..] else s;
    assert s == (if s[0] == '+' then "+" + digits else if s[0] == '-' then "-" + digits else digits);
  }

  /** What reads as an unsigned number: digits behind at most one plus, within the range. */
  lemma {:induction false} ParseUnsignedIs(digits: string, max: nat)
    requires digits != "" && AllDigits(digits)
    ensures ParseUnsigned(digits, max) == if Value(digits) <= max then Some(Value(digits)) else None
    ensures ParseUnsigned("+" + digits, max) == ParseUnsigned(digits, max)
  {
    assert digits[0] in digits;
    assert ("+" + digits)[1..] == digits;
  }

  lemma {:induction false} ParseUnsignedOnly(s: string, max: nat)
    requires ParseUnsigned(s, max).Some?
    ensures exists digits :: digits != "" && AllDigits(digits) && s in {digits, "+" + digits}
  {
    var digits := if s[0] == '+' then s[1..] else s;
    assert s == (if s[0] == '+' then "+" + digits else digits);
  }
}
