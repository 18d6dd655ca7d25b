/** Numbers as text: `Number.prototype.toString(radix)` for non-negative
    integers, `String(n)`, and `parseInt(s, 10)`. */
module Numerals {
  import opened Wrappers
  import Strings

  predicate IsDigit(c: char) { '0' <= c <= '9' }

  /** The digits of radix 36, of which radix 10 uses the first ten. */
  predicate IsBase36Digit(c: char) { IsDigit(c) || 'a' <= c <= 'z' }

  function DigitChar(d: nat): (c: char)
    requires d < 36
    ensures IsBase36Digit(c)
    ensures d < 10 ==> IsDigit(c)
  {
    if d < 10 then ('0' as int + d) as char else ('a' as int + d - 10) as char
  }

  function DigitValue(c: char): nat
    requires IsDigit(c)
  {
    c as int - '0' as int
  }

  /** The digits of `n` in `base`, most significant first, without leading zeros. */
  function ToBase(n: nat, base: nat): (r: string)
    requires 2 <= base <= 36
    ensures 1 <= |r|
    ensures forall i | 0 <= i < |r| :: IsBase36Digit(r[i])
    ensures base <= 10 ==> forall i | 0 <= i < |r| :: IsDigit(r[i])
    decreases n
  {
    if n < base then [DigitChar(n)]
    else
      DivBelow(n, base);
      ToBase(n / base, base) + [DigitChar(n % base)]
  }

  lemma DivBelow(n: nat, b: nat)
    requires 2 <= b <= n
    ensures n / b < n
  {
    var q := n / b;
    assert q * b + n % b == n;
    assert q * b <= n;
    assert q * 2 <= q * b by {
      assert q * b == q * 2 + q * (b - 2);
    }
  }

  /** `String(n)` for a non-negative integer. */
  function Decimal(n: nat): string {
    ToBase(n, 10)
  }

  predicate AllDigits(s: string) {
    forall i | 0 <= i < |s| :: IsDigit(s[i])
  }

  /** The value of a string of decimal digits (the empty string reads as 0). */
  function DigitsValue(s: string): nat
    requires AllDigits(s)
    decreases |s|
  {
    if s == [] then 0 else DigitsValue(s[..|s| - 1]) * 10 + DigitValue(s[|s| - 1])
  }

  /** Reading back `String(n)` gives `n`. */
  lemma {:induction false} DecimalRoundTrip(n: nat)
    ensures AllDigits(Decimal(n))
    ensures DigitsValue(Decimal(n)) == n
    decreases n
  {
    var s := Decimal(n);
    if n >= 10 {
      DecimalRoundTrip(n / 10);
      assert s[..|s| - 1] == Decimal(n / 10);
    }
  }

  /** Distinct numbers print differently. */
  lemma DecimalInjective(m: nat, n: nat)
    requires Decimal(m) == Decimal(n)
    ensures m == n
  {
    DecimalRoundTrip(m);
    DecimalRoundTrip(n);
  }

  function Pow10(k: nat): nat
    ensures Pow10(k) >= 1
  {
    if k == 0 then 1 else 10 * Pow10(k - 1)
  }

  /** A number with exactly `k + 1` decimal digits prints as `k + 1` characters. */
  lemma {:induction false} DecimalLength(n: nat, k: nat)
    requires Pow10(k) <= n < Pow10(k + 1)
    ensures |Decimal(n)| == k + 1
    decreases k
  {
    if k > 0 {
      DecimalLength(n / 10, k - 1);
    }
  }

  /** The longest prefix of `s` made of decimal digits. */
  function LeadingDigits(s: string): (r: string)
    ensures |r| <= |s| && r == s[..|r|]
    ensures AllDigits(r)
    ensures |r| < |s| ==> !IsDigit(s[|r|])
    decreases |s|
  {
    if s != [] && IsDigit(s[0]) then [s[0]] + LeadingDigits(s[1..]) else ""
  }

  /** `parseInt(s, 10)`: leading white space is skipped, one sign is read,
      then the longest run of digits; `None` is `NaN` (no digit found). */
  function ParseInt(s: string): Option<int> {
    ParseTrimmed(Strings.TrimStart(s))
  }

  /** `parseInt` once the leading white space is gone. */
  function ParseTrimmed(t: string): Option<int> {
    var negative := t != [] && t[0] == '-';
    var u := if t != [] && (t[0] == '-' || t[0] == '+') then t[1..] else t;
    var d := LeadingDigits(u);
    if d == [] then None
    else if negative then Some(-(DigitsValue(d) as int))
    else Some(DigitsValue(d))
  }

  lemma {:induction false} LeadingDigitsOfDecimal(n: nat, tail: string)
    requires tail == [] || !IsDigit(tail[0])
    ensures LeadingDigits(Decimal(n) + tail) == Decimal(n)
  {
    var s := Decimal(n);
    DecimalRoundTrip(n);
    LeadingDigitsPrefix(s, tail);
  }

  lemma {:induction false} LeadingDigitsPrefix(s: string, tail: string)
    requires AllDigits(s)
    requires tail == [] || !IsDigit(tail[0])
    ensures LeadingDigits(s + tail) == s
    decreases |s|
  {
    if s != [] {
      LeadingDigitsPrefix(s[1..], tail);
      assert (s + tail)[1..] == s[1..] + tail;
    }
  }

  /** `parseInt` reads back what `String` printed, ignoring any non-digit tail. */
  lemma ParseIntDecimal(n: nat, tail: string)
    requires tail == [] || !IsDigit(tail[0])
    ensures ParseInt(Decimal(n) + tail) == Some(n)
  {
    DecimalRoundTrip(n);
    LeadingDigitsOfDecimal(n, tail);
    assert !Strings.IsSpace((Decimal(n) + tail)[0]);
  }

  /** A leading minus sign negates the value read. */
  lemma ParseIntNegative(n: nat, tail: string)
    requires tail == [] || !IsDigit(tail[0])
    ensures ParseInt("-" + Decimal(n) + tail) == Some(-(n as int))
  {
    var s := "-" + Decimal(n) + tail;
    assert s[0] == '-' && !Strings.IsSpace(s[0]);
    assert Strings.TrimStart(s) == s;
    assert s[1..] == Decimal(n) + tail;
    LeadingDigitsOfDecimal(n, tail);
    DecimalRoundTrip(n);
  }

  /** Leading white space does not change what `parseInt` reads. */
  lemma ParseIntSkipsSpace(c: char, s: string)
    requires Strings.IsSpace(c)
    ensures ParseInt([c] + s) == ParseInt(s)
  {
    assert ([c] + s)[1..] == s;
  }

  /** Text that starts with neither white space, a sign nor a digit is `NaN`. */
  lemma ParseIntNaN(s: string)
    requires s == [] || (!Strings.IsSpace(s[0]) && !IsDigit(s[0]) && s[0] != '-' && s[0] != '+')
    ensures ParseInt(s) == None
  {
  }

  /** `parseInt(s, 10) || fallback`: the parsed value unless it is `NaN` or 0. */
  function ParseIntOr(s: string, fallback: int): (r: int)
    ensures ParseInt(s) == Some(r) || r == fallback
    ensures r == fallback <== (ParseInt(s) == None || ParseInt(s) == Some(0))
    ensures fallback != 0 ==> r != 0
    ensures ParseInt(s).Some? && ParseInt(s).value != 0 ==> r == ParseInt(s).value
  {
    match ParseInt(s)
    case Some(v) => if v != 0 then v else fallback
    case None => fallback
  }
}
