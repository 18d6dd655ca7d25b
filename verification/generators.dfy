/** The realistic value generators of `checkboxData.js`: names, e-mail
    addresses, phone numbers, dates, street addresses, numbers and random
    strings, each drawing from the injected random stream. */
module Generators {
  import opened Wrappers
  import Strings
  import Numerals
  import Oracle
  import Calendar

  const FirstNames: seq<string> := ["Alex", "Sam", "Jordan", "Taylor", "Chris", "Pat", "Morgan", "Riley", "Casey", "Jamie"]
  const LastNames: seq<string> := ["Smith", "Johnson", "Brown", "Williams", "Jones", "Davis", "Miller", "Wilson", "Taylor", "Anderson"]
  const Domains: seq<string> := ["example.com", "test.com", "mail.com", "example.org"]
  const Streets: seq<string> := ["Main St", "Oak Ave", "Pine Rd", "Maple Dr", "Cedar Ln", "Elm St"]

  /** `chooseRandom(arr)`: "" without drawing for an empty list, otherwise
      one draw picks an element. */
  function ChooseRandom(arr: seq<string>, rand: Oracle.Rng, k: nat): (r: Oracle.Drawn<string>)
    ensures arr == [] ==> r.value == "" && r.next == k
    ensures arr != [] ==> r.value in arr && r.next == k + 1
  {
    if arr == [] then Oracle.Drawn("", k)
    else
      var i := Oracle.Below(rand, k, |arr|);
      Oracle.Drawn(arr[i.value], i.next)
  }

  /** `randomNumber(min, max)` and the `Math.floor(Math.random() * w + lo)`
      expressions: one draw, a whole number from `lo` to `hi` inclusive. */
  function RandomNumber(lo: int, hi: int, rand: Oracle.Rng, k: nat): (r: Oracle.Drawn<int>)
    requires lo <= hi
    ensures lo <= r.value <= hi
    ensures r.next == k + 1
  {
    var i := Oracle.Below(rand, k, hi - lo + 1);
    Oracle.Drawn(lo + i.value, i.next)
  }

  /** A first name, a space and a last name from the two pools. */
  ghost predicate IsName(s: string) {
    exists i, j | 0 <= i < |FirstNames| && 0 <= j < |LastNames| :: s == FirstNames[i] + " " + LastNames[j]
  }

  /** `randomName()`: two draws. */
  function RandomName(rand: Oracle.Rng, k: nat): (r: Oracle.Drawn<string>)
    ensures IsName(r.value)
    ensures r.next == k + 2
  {
    var first := ChooseRandom(FirstNames, rand, k);
    var last := ChooseRandom(LastNames, rand, first.next);
    var i :| 0 <= i < |FirstNames| && FirstNames[i] == first.value;
    var j :| 0 <= j < |LastNames| && LastNames[j] == last.value;
    Oracle.Drawn(first.value + " " + last.value, last.next)
  }

  /** The local part of a generated e-mail address: the lower-cased first
      word of `name` reduced to the letters a to z, or, when `name` is
      empty, a random string of up to six characters so reduced. */
  function LocalPart(name: string, rand: Oracle.Rng, k: nat): (r: Oracle.Drawn<string>)
    ensures forall i | 0 <= i < |r.value| :: Strings.IsLowerLetter(r.value[i])
    ensures name != "" ==> r.next == k
    ensures name == "" ==> r.next == k + 1 && |r.value| <= 6
  {
    if name != "" then Oracle.Drawn(Strings.KeepLowerLetters(Strings.Lower(Strings.FirstWord(name))), k)
    else
      var t := Oracle.RandomString(6, rand, k);
      Oracle.Drawn(Strings.KeepLowerLetters(t.value), t.next)
  }

  /** A name drawn from the pools yields its first name, lower-cased, as local part. */
  lemma LocalPartOfName(i: nat, j: nat, rand: Oracle.Rng, k: nat)
    requires i < |FirstNames| && j < |LastNames|
    ensures LocalPart(FirstNames[i] + " " + LastNames[j], rand, k).value == Strings.Lower(FirstNames[i])
  {
    var f := FirstNames[i];
    assert IsWord(f);
    FirstWordOfPair(f, LastNames[j]);
    LettersKept(Strings.Lower(f));
  }

  /** Made of ASCII letters only. */
  predicate IsWord(s: string) {
    forall i | 0 <= i < |s| :: Strings.IsUpper(s[i]) || Strings.IsLowerLetter(s[i])
  }

  lemma {:induction false} FirstWordOfPair(f: string, l: string)
    requires IsWord(f)
    ensures Strings.FirstWord(f + " " + l) == f
    decreases |f|
  {
    if f != [] {
      FirstWordOfPair(f[1..], l);
      assert (f + " " + l)[1..] == f[1..] + " " + l;
    }
  }

  /** A string of lower-case letters passes the letter filter unchanged. */
  lemma {:induction false} LettersKept(s: string)
    requires forall i | 0 <= i < |s| :: Strings.IsLowerLetter(s[i])
    ensures Strings.KeepLowerLetters(s) == s
    decreases |s|
  {
    if s != [] {
      LettersKept(s[1..]);
    }
  }

  /** `local.dddd`: the local part, a dot and a four-digit number from 1000 to 9999. */
  ghost predicate IsNumberedLocal(t: string) {
    && |t| >= 5
    && t[|t| - 5] == '.'
    && (forall i | 0 <= i < |t| - 5 :: Strings.IsLowerLetter(t[i]))
    && Numerals.AllDigits(t[|t| - 4..])
    && 1000 <= Numerals.DigitsValue(t[|t| - 4..]) <= 9999
  }

  /** An address `local.dddd@domain` with a domain from the pool. */
  ghost predicate IsEmail(s: string) {
    exists i | 0 <= i < |s| && s[i] == '@' :: IsNumberedLocal(s[..i]) && s[i + 1..] in Domains
  }

  /** `randomEmail(name)`: a draw for the local part only when `name` is
      empty, then one for the number and one for the domain. */
  function RandomEmail(name: string, rand: Oracle.Rng, k: nat): (r: Oracle.Drawn<string>)
    ensures IsEmail(r.value)
    ensures var local := LocalPart(name, rand, k).value; |local| < |r.value| && r.value[..|local|] == local
    ensures r.next == (if name == "" then k + 3 else k + 2)
  {
    var local := LocalPart(name, rand, k);
    var n := RandomNumber(1000, 9999, rand, local.next);
    var d := ChooseRandom(Domains, rand, n.next);
    EmailShape(local.value, n.value, d.value);
    Oracle.Drawn(local.value + "." + Numerals.Decimal(n.value) + "@" + d.value, d.next)
  }

  /** The pieces of an address put together make an address. */
  lemma EmailShape(local: string, n: int, domain: string)
    requires forall i | 0 <= i < |local| :: Strings.IsLowerLetter(local[i])
    requires 1000 <= n <= 9999 && domain in Domains
    ensures var s := local + "." + Numerals.Decimal(n) + "@" + domain;
      IsEmail(s) && |local| < |s| && s[..|local|] == local
  {
    var digits := Numerals.Decimal(n);
    NumberedLocal(local, n);
    var t := local + "." + digits;
    var s := t + "@" + domain;
    assert s[..|t|] == t && s[|t| + 1..] == domain && s[|t|] == '@';
    assert s[..|local|] == local;
  }

  /** `local.dddd` for a four-digit number. */
  lemma NumberedLocal(local: string, n: int)
    requires forall i | 0 <= i < |local| :: Strings.IsLowerLetter(local[i])
    requires 1000 <= n <= 9999
    ensures IsNumberedLocal(local + "." + Numerals.Decimal(n))
  {
    var digits := Numerals.Decimal(n);
    assert Numerals.Pow10(4) == 10000 && Numerals.Pow10(3) == 1000;
    FixedWidth(n, 4);
    var t := local + "." + digits;
    assert t[|t| - 4..] == digits;
    assert t[|t| - 5] == '.';
  }

  /** `String(n)` of a number with exactly `w` digits has `w` characters and reads back as `n`. */
  lemma FixedWidth(n: nat, w: nat)
    requires 1 <= w <= 4
    requires Numerals.Pow10(w - 1) <= n < Numerals.Pow10(w)
    ensures |Numerals.Decimal(n)| == w
    ensures Numerals.AllDigits(Numerals.Decimal(n))
    ensures Numerals.DigitsValue(Numerals.Decimal(n)) == n
  {
    Numerals.DecimalLength(n, w - 1);
    Numerals.DecimalRoundTrip(n);
  }

  /** `ddd-ddd-dddd` with the groups in 100..999, 100..999 and 1000..9999. */
  ghost predicate IsPhone(s: string) {
    && |s| == 12 && s[3] == '-' && s[7] == '-'
    && Numerals.AllDigits(s[..3]) && Numerals.AllDigits(s[4..7]) && Numerals.AllDigits(s[8..])
    && 100 <= Numerals.DigitsValue(s[..3]) <= 999
    && 100 <= Numerals.DigitsValue(s[4..7]) <= 999
    && 1000 <= Numerals.DigitsValue(s[8..]) <= 9999
  }

  /** `randomPhone()`: three draws. */
  function RandomPhone(rand: Oracle.Rng, k: nat): (r: Oracle.Drawn<string>)
    ensures IsPhone(r.value)
    ensures r.next == k + 3
  {
    var a := RandomNumber(100, 999, rand, k);
    var b := RandomNumber(100, 999, rand, a.next);
    var c := RandomNumber(1000, 9999, rand, b.next);
    assert Numerals.Pow10(3) == 1000 && Numerals.Pow10(2) == 100;
    FixedWidth(a.value, 3);
    FixedWidth(b.value, 3);
    FixedWidth(c.value, 4);
    var s := Numerals.Decimal(a.value) + "-" + Numerals.Decimal(b.value) + "-" + Numerals.Decimal(c.value);
    assert s[..3] == Numerals.Decimal(a.value);
    assert s[4..7] == Numerals.Decimal(b.value);
    assert s[8..] == Numerals.Decimal(c.value);
    Oracle.Drawn(s, c.next)
  }

  /** `YYYY-MM-DD` naming a valid day from 1970-01-01 to the day before endYear-12-31. */
  ghost predicate IsDate(s: string, endYear: int)
    requires 1970 <= endYear
  {
    && Calendar.ParseIso(s).Some?
    && var d := Calendar.ParseIso(s).value;
    && Calendar.Valid(d)
    && 1970 <= d.year <= endYear
    && Calendar.DayNumber(d) < Calendar.DayNumber(Calendar.Date(endYear, 12, 31))
  }

  /** The decimal text of a whole number from 0 to `hi`, as `String` prints it. */
  ghost predicate IsNumeral(s: string, hi: nat) {
    && Numerals.ParseInt(s).Some?
    && 0 <= Numerals.ParseInt(s).value <= hi
    && s == Numerals.Decimal(Numerals.ParseInt(s).value as nat)
  }

  /** `String(randomNumber(0, hi))`: one draw. */
  function RandomNumeral(hi: nat, rand: Oracle.Rng, k: nat): (r: Oracle.Drawn<string>)
    ensures IsNumeral(r.value, hi)
    ensures r.next == k + 1
  {
    var n := RandomNumber(0, hi, rand, k);
    Numerals.ParseIntDecimal(n.value as nat, "");
    assert Numerals.Decimal(n.value as nat) + "" == Numerals.Decimal(n.value as nat);
    Oracle.Drawn(Numerals.Decimal(n.value as nat), n.next)
  }

  /** `randomDate(1970, endYear)` in a UTC time zone: one draw chooses a
      whole day from 1970-01-01 up to, not including, endYear-12-31; the
      result is that day as `YYYY-MM-DD`. */
  function RandomDate(endYear: int, rand: Oracle.Rng, k: nat): (r: Oracle.Drawn<string>)
    requires 1970 <= endYear <= 9999
    ensures IsDate(r.value, endYear)
    ensures r.next == k + 1
  {
    var span := Calendar.DayNumber(Calendar.Date(endYear, 12, 31));
    Calendar.MonthStartStep(endYear, 12);
    var offset := Oracle.Below(rand, k, span);
    var d := Calendar.FromDayNumber(offset.value);
    Calendar.YearBound(offset.value, endYear);
    Calendar.IsoRoundTrip(d);
    Oracle.Drawn(Calendar.Iso(d), offset.next)
  }

  /** `n Street, Suite m` with `n` in 1..9999, a street from the pool and
      `m` in 100..999. */
  ghost predicate IsAddress(s: string) {
    exists p | 0 < p < |s| :: && Numerals.AllDigits(s[..p])
                              && 1 <= Numerals.DigitsValue(s[..p]) <= 9999
                              && IsAddressTail(s[p..])
  }

  ghost predicate IsAddressTail(t: string) {
    exists j | 0 <= j < |Streets| ::
      && |t| == |Streets[j]| + 12
      && t[..|Streets[j]| + 9] == " " + Streets[j] + ", Suite "
      && Numerals.AllDigits(t[|Streets[j]| + 9..])
      && 100 <= Numerals.DigitsValue(t[|Streets[j]| + 9..]) <= 999
  }

  /** `randomAddress()`: a house number, a street and a suite number, three draws. */
  function RandomAddress(rand: Oracle.Rng, k: nat): (r: Oracle.Drawn<string>)
    ensures IsAddress(r.value)
    ensures r.next == k + 3
  {
    var n := RandomNumber(1, 9999, rand, k);
    var st := ChooseRandom(Streets, rand, n.next);
    var suite := RandomNumber(100, 999, rand, st.next);
    assert Numerals.Pow10(3) == 1000 && Numerals.Pow10(2) == 100;
    FixedWidth(suite.value, 3);
    Calendar.DecimalWidth(n.value, 4);
    Numerals.DecimalRoundTrip(n.value);
    var house := Numerals.Decimal(n.value);
    var tail := " " + st.value + ", Suite " + Numerals.Decimal(suite.value);
    var j :| 0 <= j < |Streets| && Streets[j] == st.value;
    assert tail[..|st.value| + 9] == " " + st.value + ", Suite ";
    assert tail[|st.value| + 9..] == Numerals.Decimal(suite.value);
    assert IsAddressTail(tail);
    var s := house + tail;
    assert s[..|house|] == house && s[|house|..] == tail;
    Oracle.Drawn(s, suite.next)
  }
}
