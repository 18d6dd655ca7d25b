/** The random source, injected. Each call of `Math.random` is replaced by
    the next natural number of a stream `rand`; a cursor `k` says how many
    calls were made before. `Math.floor(Math.random() * n)` becomes
    `rand(k) % n`, so every stream yields an outcome the program can have and
    every draw below `n` is reached by some stream; probabilities are not
    modelled. */
module Oracle {
  import opened Wrappers
  import Sequences
  import Numerals

  type Rng = nat -> nat

  /** A value computed from the stream, with the index of the next unused call. */
  datatype Drawn<T> = Drawn(value: T, next: nat)

  /** `Math.floor(Math.random() * n)`: one call, a draw below `n` (0 when `n` is 0). */
  function Below(rand: Rng, k: nat, n: nat): (r: Drawn<nat>)
    ensures r.next == k + 1
    ensures n > 0 ==> r.value < n
    ensures n == 0 ==> r.value == 0
  {
    Drawn(if n == 0 then 0 else rand(k) % n, k + 1)
  }

  /** `Math.random() < 0.3`: one call; either outcome is possible. */
  function RandBool(rand: Rng, k: nat): Drawn<bool> {
    Drawn(rand(k) % 10 < 3, k + 1)
  }

  /** Strings of at most `len` base-36 digits; the empty string is one. */
  ghost predicate IsToken(s: string, len: nat) {
    && |s| <= len
    && forall i | 0 <= i < |s| :: Numerals.IsBase36Digit(s[i])
  }

  /** `s` without the zeros it ends with. */
  function DropTrailingZeros(s: string): (r: string)
    ensures |r| <= |s| && r == s[..|r|]
    ensures forall i | |r| <= i < |s| :: s[i] == '0'
    ensures r == [] || r[|r| - 1] != '0'
    decreases |s|
  {
    if s != [] && s[|s| - 1] == '0' then DropTrailingZeros(s[..|s| - 1]) else s
  }

  /** The base-36 digits after the point of the number `Math.random()`
      returns, as `toString(36)` prints them: the numeral of the draw without
      its leading digit (so every digit string, leading zeros included, is
      the fraction of some draw: the one written `1` followed by it), with
      no zero at the end. A draw below 36 stands for the number 0, whose text
      is "0" and has no digits after the point. */
  function FractionDigits(n: nat): (r: string)
    ensures r == [] || r[|r| - 1] != '0'
    ensures forall i | 0 <= i < |r| :: Numerals.IsBase36Digit(r[i])
    ensures n < 36 ==> r == []
  {
    DropTrailingZeros(Numerals.ToBase(n, 36)[1..])
  }

  /** `Math.random().toString(36).substring(2, 2 + len)`: the first `len`
      fraction digits of one draw. */
  function RandomString(len: nat, rand: Rng, k: nat): (r: Drawn<string>)
    ensures r.next == k + 1
    ensures IsToken(r.value, len)
    ensures |r.value| <= |FractionDigits(rand(k))| && r.value == FractionDigits(rand(k))[..|r.value|]
    ensures |r.value| < len ==> r.value == FractionDigits(rand(k))
    ensures |r.value| < len && r.value != [] ==> r.value[|r.value| - 1] != '0'
    ensures rand(k) < 36 ==> r.value == []
  {
    var f := FractionDigits(rand(k));
    Drawn(f[..Min(len, |f|)], k + 1)
  }

  /** A token may start with a zero: the draw written `101` in base 36. */
  lemma {:induction false} RandomStringLeadingZero(rand: Rng, k: nat)
    requires rand(k) == 36 * 36 + 1
    ensures RandomString(2, rand, k).value == "01"
  {
    assert Numerals.ToBase(1, 36) == "1";
    assert Numerals.ToBase(36, 36) == Numerals.ToBase(1, 36) + [Numerals.DigitChar(0)];
    assert Numerals.ToBase(36 * 36 + 1, 36) == Numerals.ToBase(36, 36) + [Numerals.DigitChar(1)];
    assert Numerals.ToBase(36 * 36 + 1, 36) == "101";
    assert FractionDigits(36 * 36 + 1) == "01";
  }

  /** `s` without its element at position `i`, as `splice(i, 1)` leaves it. */
  function RemoveAt<T>(s: seq<T>, i: nat): (r: seq<T>)
    requires i < |s|
    ensures |r| == |s| - 1
    ensures multiset(r) + multiset{s[i]} == multiset(s)
  {
    assert s == s[..i] + [s[i]] + s[i + 1..];
    s[..i] + s[i + 1..]
  }

  /** The draw-without-replacement loop of the source: while fewer than
      `count` picks were made and the pool is not empty, one call chooses a
      position of the pool and that element moves from the pool to the picks. */
  function PickDistinct<T>(pool: seq<T>, count: int, rand: Rng, k: nat): (r: Drawn<seq<T>>)
    ensures |r.value| == Min(Max(count, 0), |pool|)
    ensures multiset(r.value) <= multiset(pool)
    ensures r.next == k + |r.value|
    decreases |pool|
  {
    if count <= 0 || |pool| == 0 then Drawn([], k)
    else
      var i := Below(rand, k, |pool|);
      var rest := PickDistinct(RemoveAt(pool, i.value), count - 1, rand, i.next);
      Drawn([pool[i.value]] + rest.value, rest.next)
  }

  /** Picks from a pool without repeated elements are themselves distinct and
      all come from the pool. */
  lemma SubMultisetDistinct<T>(picks: seq<T>, pool: seq<T>)
    requires multiset(picks) <= multiset(pool)
    requires Sequences.Distinct(pool)
    ensures Sequences.Distinct(picks)
    ensures forall x | x in picks :: x in pool
  {
    forall x | x in picks
      ensures x in pool
    {
      assert x in multiset(picks);
    }
    DistinctMultiplicity(pool);
    forall i, j | 0 <= i < j < |picks|
      ensures picks[i] != picks[j]
    {
      var rest := RemoveAt(picks, j);
      assert rest[i] == picks[i];
      assert picks[i] in multiset(rest);
      assert multiset(picks) == multiset(rest) + multiset{picks[j]};
      assert picks[j] in pool by {
        assert picks[j] in multiset(picks);
      }
    }
  }

  /** In a sequence without repetitions every element occurs once. */
  lemma {:induction false} DistinctMultiplicity<T>(s: seq<T>)
    requires Sequences.Distinct(s)
    ensures forall x | x in s :: multiset(s)[x] == 1
    decreases |s|
  {
    if s != [] {
      DistinctMultiplicity(s[1..]);
      assert s == [s[0]] + s[1..];
      assert s[0] !in s[1..];
    }
  }

  function Map<T, U>(f: T -> U, s: seq<T>): (r: seq<U>)
    ensures |r| == |s|
  {
    seq(|s|, i requires 0 <= i < |s| => f(s[i]))
  }

  /** Drawing positions and then reading the elements there picks the same
      elements, with the same calls, as drawing from the elements directly. */
  lemma {:induction false} PickDistinctMap<T, U>(f: T -> U, pool: seq<T>, count: int, rand: Rng, k: nat)
    ensures PickDistinct(Map(f, pool), count, rand, k).value == Map(f, PickDistinct(pool, count, rand, k).value)
    ensures PickDistinct(Map(f, pool), count, rand, k).next == PickDistinct(pool, count, rand, k).next
    decreases |pool|
  {
    if count > 0 && |pool| > 0 {
      PickDistinctMap(f, RemoveAt(pool, rand(k) % |pool|), count - 1, rand, k + 1);
      PickDistinctMapStep(f, pool, count, rand, k);
    } else {
      PickDistinctNone(pool, count, rand, k);
      PickDistinctNone(Map(f, pool), count, rand, k);
    }
  }

  /** Nothing is drawn once the count is reached or the pool is empty. */
  lemma PickDistinctNone<T>(pool: seq<T>, count: int, rand: Rng, k: nat)
    requires count <= 0 || |pool| == 0
    ensures PickDistinct(pool, count, rand, k) == Drawn([], k)
  {
  }

  /** The inductive step of `PickDistinctMap`. */
  lemma PickDistinctMapStep<T, U>(f: T -> U, pool: seq<T>, count: int, rand: Rng, k: nat)
    requires count > 0 && |pool| > 0
    requires var smaller := RemoveAt(pool, rand(k) % |pool|);
      && PickDistinct(Map(f, smaller), count - 1, rand, k + 1).value == Map(f, PickDistinct(smaller, count - 1, rand, k + 1).value)
      && PickDistinct(Map(f, smaller), count - 1, rand, k + 1).next == PickDistinct(smaller, count - 1, rand, k + 1).next
    ensures PickDistinct(Map(f, pool), count, rand, k).value == Map(f, PickDistinct(pool, count, rand, k).value)
    ensures PickDistinct(Map(f, pool), count, rand, k).next == PickDistinct(pool, count, rand, k).next
  {
    var i := rand(k) % |pool|;
    var smaller := RemoveAt(pool, i);
    PickDistinctStep(pool, count, rand, k);
    PickDistinctStep(Map(f, pool), count, rand, k);
    MapRemoveAt(f, pool, i);
    MapCons(f, pool[i], PickDistinct(smaller, count - 1, rand, k + 1).value);
  }

  /** One round of the draw loop. */
  lemma PickDistinctStep<T>(pool: seq<T>, count: int, rand: Rng, k: nat)
    requires count > 0 && |pool| > 0
    ensures var i := rand(k) % |pool|;
            var rest := PickDistinct(RemoveAt(pool, i), count - 1, rand, k + 1);
            PickDistinct(pool, count, rand, k) == Drawn([pool[i]] + rest.value, rest.next)
  {
  }

  lemma MapRemoveAt<T, U>(f: T -> U, s: seq<T>, i: nat)
    requires i < |s|
    ensures RemoveAt(Map(f, s), i) == Map(f, RemoveAt(s, i))
  {
  }

  lemma MapCons<T, U>(f: T -> U, x: T, s: seq<T>)
    ensures Map(f, [x] + s) == [f(x)] + Map(f, s)
  {
  }
}
