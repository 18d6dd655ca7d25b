/** Facts about sequences used throughout: repetition, first occurrence and
    counting. */
module Sequences {

  /** No element occurs twice. */
  predicate Distinct<T(==)>(xs: seq<T>) {
    forall i, j | 0 <= i < j < |xs| :: xs[i] != xs[j]
  }

  /** The position where `x` first occurs in `xs`. */
  function FirstIndex<T(==)>(xs: seq<T>, x: T): (i: nat)
    requires x in xs
    ensures i < |xs| && xs[i] == x
    ensures x !in xs[..i]
    decreases |xs|
  {
    if xs[0] == x then 0
    else
      var j := FirstIndex(xs[1..], x);
      assert xs[..j + 1] == [xs[0]] + xs[1..][..j];
      1 + j
  }

  /** Every occurrence lies at or after the first one. */
  lemma FirstIndexLeast<T>(xs: seq<T>, i: nat)
    requires i < |xs|
    ensures FirstIndex(xs, xs[i]) <= i
  {
  }

  /** An element not seen before position `i` first occurs at `i`. */
  lemma FirstIndexAt<T>(xs: seq<T>, i: nat)
    requires i < |xs|
    requires xs[i] !in xs[..i]
    ensures FirstIndex(xs, xs[i]) == i
  {
    FirstIndexLeast(xs, i);
  }

  /** The elements of `xs` at the positions `ps`. */
  function At<T>(xs: seq<T>, ps: seq<nat>): (r: seq<T>)
    requires forall j | 0 <= j < |ps| :: ps[j] < |xs|
    ensures |r| == |ps|
    ensures forall j | 0 <= j < |ps| :: r[j] == xs[ps[j]]
  {
    seq(|ps|, j requires 0 <= j < |ps| => xs[ps[j]])
  }

  /** Taking one more position in front takes its element in front. */
  lemma AtCons<T>(xs: seq<T>, p: nat, ps: seq<nat>)
    requires p < |xs|
    requires forall j | 0 <= j < |ps| :: ps[j] < |xs|
    ensures At(xs, [p] + ps) == [xs[p]] + At(xs, ps)
  {
  }

  /** The positions, from `from` on, where `mask` holds, in increasing order:
      a filter written as the positions it keeps. */
  function Marked(mask: seq<bool>, from: nat): (ps: seq<nat>)
    requires from <= |mask|
    ensures forall j | 0 <= j < |ps| :: from <= ps[j] < |mask| && mask[ps[j]]
    ensures forall i | from <= i < |mask| && mask[i] :: i in ps
    ensures forall a, b | 0 <= a < b < |ps| :: ps[a] < ps[b]
    decreases |mask| - from
  {
    if from == |mask| then []
    else
      var rest := Marked(mask, from + 1);
      if mask[from] then [from] + rest else rest
  }

  /** The positions, from `i` on, of the elements seen for the first time:
      a scan that remembers the elements met so far in `seen` and keeps a
      position only when its element is new. */
  function FirstOccurrences<T(==)>(xs: seq<T>, i: nat, seen: set<T>): (r: seq<nat>)
    requires i <= |xs|
    requires seen == set x | x in xs[..i]
    ensures forall j | 0 <= j < |r| :: i <= r[j] < |xs| && xs[r[j]] !in xs[..r[j]]
    ensures forall a, b | 0 <= a < b < |r| :: r[a] < r[b]
    ensures forall m | i <= m < |xs| && xs[m] !in seen :: xs[m] in At(xs, r)
    decreases |xs| - i
  {
    if i == |xs| then []
    else
      assert xs[..i + 1] == xs[..i] + [xs[i]];
      if xs[i] in seen then
        var rest := FirstOccurrences(xs, i + 1, seen);
        SkipStep(xs, i, seen, rest);
        rest
      else
        var rest := FirstOccurrences(xs, i + 1, seen + {xs[i]});
        KeepStep(xs, i, seen, rest);
        [i] + rest
  }

  /** The step of `FirstOccurrences` over an element already met. */
  lemma SkipStep<T>(xs: seq<T>, i: nat, seen: set<T>, rest: seq<nat>)
    requires i < |xs| && xs[i] in seen
    requires forall j | 0 <= j < |rest| :: i + 1 <= rest[j] < |xs| && xs[rest[j]] !in xs[..rest[j]]
    requires forall m | i + 1 <= m < |xs| && xs[m] !in seen :: xs[m] in At(xs, rest)
    ensures forall j | 0 <= j < |rest| :: i <= rest[j] < |xs| && xs[rest[j]] !in xs[..rest[j]]
    ensures forall m | i <= m < |xs| && xs[m] !in seen :: xs[m] in At(xs, rest)
  {
  }

  /** The step of `FirstOccurrences` over an element met for the first time. */
  lemma KeepStep<T>(xs: seq<T>, i: nat, seen: set<T>, rest: seq<nat>)
    requires i < |xs| && seen == set x | x in xs[..i] && xs[i] !in seen
    requires forall j | 0 <= j < |rest| :: i + 1 <= rest[j] < |xs| && xs[rest[j]] !in xs[..rest[j]]
    requires forall a, b | 0 <= a < b < |rest| :: rest[a] < rest[b]
    requires forall m | i + 1 <= m < |xs| && xs[m] !in seen + {xs[i]} :: xs[m] in At(xs, rest)
    ensures forall j | 0 <= j < |[i] + rest| :: i <= ([i] + rest)[j] < |xs| && xs[([i] + rest)[j]] !in xs[..([i] + rest)[j]]
    ensures forall a, b | 0 <= a < b < |[i] + rest| :: ([i] + rest)[a] < ([i] + rest)[b]
    ensures forall m | i <= m < |xs| && xs[m] !in seen :: xs[m] in At(xs, [i] + rest)
  {
    var r := [i] + rest;
    assert At(xs, r) == [xs[i]] + At(xs, rest);
    forall j | 0 <= j < |r|
      ensures i <= r[j] < |xs| && xs[r[j]] !in xs[..r[j]]
    {
      if j > 0 {
        assert r[j] == rest[j - 1];
      }
    }
  }

  /** The elements at first-occurrence positions are pairwise different. */
  lemma FirstOccurrencesDistinct<T>(xs: seq<T>, ps: seq<nat>)
    requires forall j | 0 <= j < |ps| :: ps[j] < |xs| && xs[ps[j]] !in xs[..ps[j]]
    requires forall a, b | 0 <= a < b < |ps| :: ps[a] < ps[b]
    ensures Distinct(At(xs, ps))
  {
    var r := At(xs, ps);
    forall a, b | 0 <= a < b < |ps|
      ensures r[a] != r[b]
    {
      assert xs[ps[a]] in xs[..ps[b]];
    }
  }

  /** What the first-occurrence positions of a sequence determine: there
      are no more of them than elements, their elements are distinct, each
      element of `xs` is met at one of them, and each is the first index of
      its element. */
  lemma FirstOccurrencesFacts<T>(xs: seq<T>, ps: seq<nat>)
    requires forall j | 0 <= j < |ps| :: ps[j] < |xs| && xs[ps[j]] !in xs[..ps[j]]
    requires forall a, b | 0 <= a < b < |ps| :: ps[a] < ps[b]
    ensures |ps| <= |xs|
    ensures Distinct(At(xs, ps))
    ensures forall j | 0 <= j < |ps| :: FirstIndex(xs, xs[ps[j]]) == ps[j]
  {
    FirstOccurrencesDistinct(xs, ps);
    IncreasingBound(ps, |xs|);
    forall j | 0 <= j < |ps|
      ensures FirstIndex(xs, xs[ps[j]]) == ps[j]
    {
      FirstIndexAt(xs, ps[j]);
    }
  }

  /** A strictly increasing sequence of positions below `n` has at most `n` elements. */
  lemma {:induction false} IncreasingBound(ps: seq<nat>, n: nat)
    requires forall j | 0 <= j < |ps| :: ps[j] < n
    requires forall a, b | 0 <= a < b < |ps| :: ps[a] < ps[b]
    ensures |ps| <= n
    decreases n
  {
    if |ps| > 0 {
      var last := ps[|ps| - 1];
      IncreasingBound(ps[..|ps| - 1], last);
    }
  }

  /** The position of the last occurrence of `x` in `xs`. */
  function LastIndex<T(==)>(xs: seq<T>, x: T): (i: nat)
    requires x in xs
    ensures i < |xs| && xs[i] == x && x !in xs[i + 1..]
    decreases |xs|
  {
    if xs[|xs| - 1] == x then |xs| - 1
    else
      assert x in xs[..|xs| - 1] by {
        var j :| 0 <= j < |xs| && xs[j] == x;
        assert xs[..|xs| - 1][j] == x;
      }
      var i := LastIndex(xs[..|xs| - 1], x);
      assert xs[i + 1..] == xs[..|xs| - 1][i + 1..] + [xs[|xs| - 1]];
      i
  }

  lemma SplitLast<T>(s: seq<T>)
    requires s != []
    ensures s[..|s| - 1] + [s[|s| - 1]] == s
  {
  }
}
