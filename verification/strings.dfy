/** String helpers with the JavaScript meaning the source relies on:
    `trim`, ASCII `toLowerCase`, `join`, quote doubling and the two small
    text rewrites used to build e-mail local parts. */
module Strings {
  import Sequences

  /** White space and line terminators as ECMAScript defines them; these are
      the characters `String.prototype.trim` and `parseInt` skip. */
  predicate IsSpace(c: char) {
    || c == '\t' || c == '\n' || c == '\U{B}' || c == '\U{C}' || c == '\r'
    || c == ' ' || c == '\U{A0}' || c == '\U{1680}'
    || ('\U{2000}' <= c <= '\U{200A}')
    || c == '\U{2028}' || c == '\U{2029}' || c == '\U{202F}' || c == '\U{205F}'
    || c == '\U{3000}' || c == '\U{FEFF}'
  }

  /** `s` with its leading white space removed. */
  function TrimStart(s: string): (r: string)
    ensures |r| <= |s| && r == s[|s| - |r|..]
    ensures forall i | 0 <= i < |s| - |r| :: IsSpace(s[i])
    ensures r != [] ==> !IsSpace(r[0])
  {
    if s != [] && IsSpace(s[0]) then TrimStart(s[1..]) else s
  }

  /** `s` with its trailing white space removed. */
  function TrimEnd(s: string): (r: string)
    ensures |r| <= |s| && r == s[..|r|]
    ensures forall i | |r| <= i < |s| :: IsSpace(s[i])
    ensures r != [] ==> !IsSpace(r[|r| - 1])
  {
    if s != [] && IsSpace(s[|s| - 1]) then TrimEnd(s[..|s| - 1]) else s
  }

  /** `String.prototype.trim`. */
  function Trim(s: string): (r: string)
    ensures |r| <= |s|
    ensures r != [] ==> !IsSpace(r[0]) && !IsSpace(r[|r| - 1])
    ensures exists a :: SpaceAround(s, a, r)
  {
    TrimAround(s);
    TrimEnd(TrimStart(s))
  }

  /** What `TrimEnd(TrimStart(s))` leaves is `s` from the first non-blank
      character on, with only white space around it. */
  lemma TrimAround(s: string)
    ensures SpaceAround(s, |s| - |TrimStart(s)|, TrimEnd(TrimStart(s)))
  {
    var t := TrimStart(s);
    var r := TrimEnd(t);
    var a := |s| - |t|;
    assert t == s[a..];
    assert r == s[a..][..|r|];
    assert r == s[a..a + |r|];
    assert forall i | 0 <= i < a :: IsSpace(s[i]);
    forall i | a + |r| <= i < |s|
      ensures IsSpace(s[i])
    {
      assert s[i] == t[i - a];
    }
    assert SpaceAround(s, a, r);
  }

  /** `r` is the part of `s` from `a` on, with only white space around it. */
  predicate SpaceAround(s: string, a: nat, r: string) {
    && a + |r| <= |s|
    && r == s[a..a + |r|]
    && (forall i | 0 <= i < a :: IsSpace(s[i]))
    && (forall i | a + |r| <= i < |s| :: IsSpace(s[i]))
  }

  predicate IsUpper(c: char) { 'A' <= c <= 'Z' }

  predicate IsLowerLetter(c: char) { 'a' <= c <= 'z' }

  function LowerChar(c: char): char {
    if IsUpper(c) then (c as int - 'A' as int + 'a' as int) as char else c
  }

  /** `toLowerCase`, restricted to the ASCII letters. */
  function Lower(s: string): (r: string)
    ensures |r| == |s|
    ensures forall i | 0 <= i < |s| :: r[i] == LowerChar(s[i])
  {
    seq(|s|, i requires 0 <= i < |s| => LowerChar(s[i]))
  }

  /** `s || fallback`: the empty string is falsy. */
  function OrDefault(s: string, fallback: string): string {
    if s == "" then fallback else s
  }

  /** `xs.join(sep)`. */
  function Join(sep: string, xs: seq<string>): string
    decreases |xs|
  {
    if |xs| == 0 then ""
    else if |xs| == 1 then xs[0]
    else xs[0] + sep + Join(sep, xs[1..])
  }

  /** A character that no element nor the separator contains does not occur in the join. */
  lemma {:induction false} JoinAvoids(sep: string, xs: seq<string>, c: char)
    requires c !in sep
    requires forall i | 0 <= i < |xs| :: c !in xs[i]
    ensures c !in Join(sep, xs)
    decreases |xs|
  {
    if |xs| > 1 {
      JoinAvoids(sep, xs[1..], c);
      assert Join(sep, xs) == xs[0] + sep + Join(sep, xs[1..]);
    }
  }

  /** `s.replace(/"/g, '""')`. */
  function DoubleQuotes(s: string): (r: string)
    ensures '"' !in s ==> r == s
    ensures |r| >= |s|
    decreases |s|
  {
    if s == [] then ""
    else if s[0] == '"' then "\"\"" + DoubleQuotes(s[1..])
    else [s[0]] + DoubleQuotes(s[1..])
  }

  /** `s.split(' ')[0]`: the text before the first space. */
  function FirstWord(s: string): (r: string)
    ensures ' ' !in r
    ensures |r| <= |s| && r == s[..|r|]
    ensures |r| < |s| ==> s[|r|] == ' '
    decreases |s|
  {
    if s == [] || s[0] == ' ' then "" else [s[0]] + FirstWord(s[1..])
  }

  /** `s.replace(/[^a-z]/g, '')`: the lower-case ASCII letters of `s`, in order. */
  function KeepLowerLetters(s: string): (r: string)
    ensures forall i | 0 <= i < |r| :: IsLowerLetter(r[i])
    ensures forall i | 0 <= i < |s| && IsLowerLetter(s[i]) :: s[i] in r
    ensures |r| <= |s|
    decreases |s|
  {
    if s == [] then ""
    else if IsLowerLetter(s[0]) then [s[0]] + KeepLowerLetters(s[1..])
    else KeepLowerLetters(s[1..])
  }

  /** Which positions of `s` hold a lower-case letter. */
  function LowerMask(s: string): (m: seq<bool>)
    ensures |m| == |s|
    ensures forall i | 0 <= i < |s| :: m[i] == IsLowerLetter(s[i])
  {
    seq(|s|, i requires 0 <= i < |s| => IsLowerLetter(s[i]))
  }

  lemma {:induction false} KeepLowerLettersFrom(s: string, from: nat)
    requires from <= |s|
    ensures KeepLowerLetters(s[from..]) == Sequences.At(s, Sequences.Marked(LowerMask(s), from))
    decreases |s| - from
  {
    if from < |s| {
      KeepLowerLettersFrom(s, from + 1);
      assert s[from..][1..] == s[from + 1..];
      if IsLowerLetter(s[from]) {
        Sequences.AtCons(s, from, Sequences.Marked(LowerMask(s), from + 1));
      }
    }
  }

  /** The letters kept are exactly those at the positions holding a
      lower-case letter, in their order in `s`. */
  lemma KeepLowerLettersInOrder(s: string)
    ensures KeepLowerLetters(s) == Sequences.At(s, Sequences.Marked(LowerMask(s), 0))
  {
    KeepLowerLettersFrom(s, 0);
    assert s[0..] == s;
  }
}
