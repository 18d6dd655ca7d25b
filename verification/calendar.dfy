/** Proleptic Gregorian dates counted in days from 1970-01-01, and their
    `YYYY-MM-DD` rendering (the date part of `Date.prototype.toISOString`). */
module Calendar {
  import opened Wrappers
  import Numerals

  predicate IsLeap(y: int) {
    y % 4 == 0 && (y % 100 != 0 || y % 400 == 0)
  }

  function DaysInYear(y: int): nat {
    if IsLeap(y) then 366 else 365
  }

  function DaysInMonth(y: int, m: int): nat
    requires 1 <= m <= 12
  {
    if m == 2 then (if IsLeap(y) then 29 else 28)
    else if m == 4 || m == 6 || m == 9 || m == 11 then 30
    else 31
  }

  /** Days of year `y` before the first of month `m`; month 13 stands for
      the end of the year. */
  function MonthStart(y: int, m: int): nat
    requires 1 <= m <= 13
  {
    var common := [0, 31, 59, 90, 120, 151, 181, 212, 243, 273, 304, 334, 365][m - 1];
    if IsLeap(y) && m > 2 then common + 1 else common
  }

  /** The cumulative table agrees with the month lengths. */
  lemma MonthStartStep(y: int, m: int)
    requires 1 <= m <= 12
    ensures MonthStart(y, m + 1) == MonthStart(y, m) + DaysInMonth(y, m)
    ensures MonthStart(y, 13) == DaysInYear(y)
  {
  }

  datatype Date = Date(year: int, month: int, day: int)

  predicate Valid(d: Date) {
    1 <= d.month <= 12 && 1 <= d.day <= DaysInMonth(d.year, d.month)
  }

  /** Days from 1970-01-01 to the first of January of `y`. */
  function YearStart(y: int): nat
    requires y >= 1970
    decreases y - 1970
  {
    if y == 1970 then 0 else YearStart(y - 1) + DaysInYear(y - 1)
  }

  /** Later years start later. */
  lemma {:induction false} YearStartMonotone(a: int, b: int)
    requires 1970 <= a <= b
    ensures YearStart(a) + (b - a) * 365 <= YearStart(b)
    decreases b - a
  {
    if a < b {
      YearStartMonotone(a, b - 1);
    }
  }

  /** The number of days from 1970-01-01 to `d`. */
  function DayNumber(d: Date): int
    requires Valid(d) && d.year >= 1970
  {
    YearStart(d.year) + MonthStart(d.year, d.month) + d.day - 1
  }

  /** The date `n` days after 1970-01-01. */
  function FromDayNumber(n: nat): (d: Date)
    ensures Valid(d) && d.year >= 1970
    ensures DayNumber(d) == n
  {
    InYear(n, 1970)
  }

  /** The date `n` days after the first of January of `y`. */
  function InYear(n: nat, y: int): (d: Date)
    requires y >= 1970
    ensures Valid(d) && d.year >= y
    ensures DayNumber(d) == YearStart(y) + n
    decreases n
  {
    if n < DaysInYear(y) then
      MonthStartStep(y, 1);
      InMonth(n, y, 1)
    else InYear(n - DaysInYear(y), y + 1)
  }

  /** The date `n` days after the first of month `m` of `y`, inside that year. */
  function InMonth(n: nat, y: int, m: int): (d: Date)
    requires y >= 1970 && 1 <= m <= 12
    requires MonthStart(y, m) + n < DaysInYear(y)
    ensures Valid(d) && d.year == y && d.month >= m
    ensures DayNumber(d) == YearStart(y) + MonthStart(y, m) + n
    decreases 12 - m
  {
    MonthStartStep(y, m);
    if n < DaysInMonth(y, m) then Date(y, m, n + 1)
    else InMonth(n - DaysInMonth(y, m), y, m + 1)
  }

  /** Day numbers below the start of year `y + 1` fall in year `y` or earlier,
      and a day number determines its date. */
  lemma YearBound(n: nat, y: int)
    requires y >= 1970 && n < YearStart(y + 1)
    ensures FromDayNumber(n).year <= y
  {
    var d := FromDayNumber(n);
    if d.year > y {
      YearStartMonotone(y + 1, d.year);
      assert false;
    }
  }

  /** Different valid dates have different day numbers. */
  lemma {:induction false} DayNumberInjective(a: Date, b: Date)
    requires Valid(a) && a.year >= 1970 && Valid(b) && b.year >= 1970
    requires DayNumber(a) == DayNumber(b)
    ensures a == b
  {
    if a.year < b.year {
      YearStartMonotone(a.year + 1, b.year);
      MonthStartStep(a.year, a.month);
      assert false;
    } else if b.year < a.year {
      YearStartMonotone(b.year + 1, a.year);
      MonthStartStep(b.year, b.month);
      assert false;
    } else if a.month < b.month {
      MonthStartOrder(a.year, a.month, b.month);
      assert false;
    } else if b.month < a.month {
      MonthStartOrder(a.year, b.month, a.month);
      assert false;
    }
  }

  /** A later month starts at least a whole month later. */
  lemma MonthStartOrder(y: int, m: int, m': int)
    requires 1 <= m < m' <= 12
    ensures MonthStart(y, m) + DaysInMonth(y, m) <= MonthStart(y, m')
  {
  }

  /** The `k` characters "0". */
  function Zeros(k: nat): (r: string)
    ensures |r| == k && Numerals.AllDigits(r)
  {
    seq(k, _ => '0')
  }

  /** Leading zeros do not change the value of a digit string. */
  lemma {:induction false} ZerosValue(k: nat, s: string)
    requires Numerals.AllDigits(s)
    ensures Numerals.AllDigits(Zeros(k) + s)
    ensures Numerals.DigitsValue(Zeros(k) + s) == Numerals.DigitsValue(s)
    decreases |s|
  {
    var t := Zeros(k) + s;
    if s == [] {
      ZerosOnly(k);
      assert t == Zeros(k);
    } else {
      ZerosValue(k, s[..|s| - 1]);
      assert t[..|t| - 1] == Zeros(k) + s[..|s| - 1];
    }
  }

  lemma {:induction false} ZerosOnly(k: nat)
    ensures Numerals.DigitsValue(Zeros(k)) == 0
    decreases k
  {
    if k > 0 {
      ZerosOnly(k - 1);
      assert Zeros(k)[..k - 1] == Zeros(k - 1);
    }
  }

  /** `String(n).padStart(w, '0')`. */
  function Pad(n: nat, w: nat): (r: string)
    ensures Numerals.AllDigits(r)
    ensures Numerals.DigitsValue(r) == n
    ensures |r| == Max(w, |Numerals.Decimal(n)|)
  {
    var s := Numerals.Decimal(n);
    Numerals.DecimalRoundTrip(n);
    if |s| < w then
      ZerosValue(w - |s|, s);
      Zeros(w - |s|) + s
    else s
  }

  /** A number below `10^k` prints in at most `k` digits. */
  lemma {:induction false} DecimalWidth(n: nat, k: nat)
    requires 1 <= k && n < Numerals.Pow10(k)
    ensures |Numerals.Decimal(n)| <= k
    decreases k
  {
    if n >= 10 {
      DecimalWidth(n / 10, k - 1);
    }
  }

  /** `YYYY-MM-DD` for a date of the years 0 to 9999. */
  function Iso(d: Date): (r: string)
    requires Valid(d) && 0 <= d.year <= 9999
    ensures |r| == 10 && r[4] == '-' && r[7] == '-'
    ensures forall i | 0 <= i < 10 && i != 4 && i != 7 :: Numerals.IsDigit(r[i])
  {
    DecimalWidth(d.year, 4);
    DecimalWidth(d.month, 2);
    DecimalWidth(d.day, 2);
    Pad(d.year, 4) + "-" + Pad(d.month, 2) + "-" + Pad(d.day, 2)
  }

  /** Reads a `YYYY-MM-DD` string back. */
  function ParseIso(s: string): Option<Date> {
    if |s| == 10 && s[4] == '-' && s[7] == '-'
      && Numerals.AllDigits(s[..4]) && Numerals.AllDigits(s[5..7]) && Numerals.AllDigits(s[8..])
    then Some(Date(Numerals.DigitsValue(s[..4]), Numerals.DigitsValue(s[5..7]), Numerals.DigitsValue(s[8..])))
    else None
  }

  /** The rendering loses nothing. */
  lemma IsoRoundTrip(d: Date)
    requires Valid(d) && 0 <= d.year <= 9999
    ensures ParseIso(Iso(d)) == Some(d)
  {
    var s := Iso(d);
    assert s[..4] == Pad(d.year, 4);
    assert s[5..7] == Pad(d.month, 2);
    assert s[8..] == Pad(d.day, 2);
  }
}
