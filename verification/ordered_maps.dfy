/** Insertion-ordered maps: a JavaScript plain object with string keys, or a
    `Map`, seen as its list of entries in the order the keys were first set. */
module OrderedMaps {
  import opened Wrappers
  import Sequences

  type OrderedMap<K(==), V> = seq<(K, V)>

  /** `Object.keys(m)` / `m.keys()`. */
  function Keys<K(==), V>(m: OrderedMap<K, V>): (ks: seq<K>)
    ensures |ks| == |m|
    ensures forall i | 0 <= i < |m| :: ks[i] == m[i].0
  {
    seq(|m|, i requires 0 <= i < |m| => m[i].0)
  }

  predicate DistinctKeys<K(==), V>(m: OrderedMap<K, V>) {
    Sequences.Distinct(Keys(m))
  }

  /** `m[k]`, `None` standing for `undefined`. */
  function Get<K(==), V>(m: OrderedMap<K, V>, k: K): Option<V>
    decreases |m|
  {
    if |m| == 0 then None
    else if m[0].0 == k then Some(m[0].1)
    else Get(m[1..], k)
  }

  /** A key has a value exactly when it is one of the keys. */
  lemma {:induction false} GetDefined<K, V>(m: OrderedMap<K, V>, k: K)
    ensures Get(m, k).Some? <==> k in Keys(m)
    decreases |m|
  {
    if |m| > 0 {
      GetDefined(m[1..], k);
      KeysCons(m[0], m[1..]);
      assert m == [m[0]] + m[1..];
    }
  }

  /** `m[k] = v`: a key already present keeps its place, a new key goes last. */
  function Put<K(==,!new), V>(m: OrderedMap<K, V>, k: K, v: V): (r: OrderedMap<K, V>)
    ensures Get(r, k) == Some(v)
    ensures forall k' | k' != k :: Get(r, k') == Get(m, k')
    ensures Keys(r) == if k in Keys(m) then Keys(m) else Keys(m) + [k]
    decreases |m|
  {
    if |m| == 0 then [(k, v)]
    else if m[0].0 == k then
      var r := [(k, v)] + m[1..];
      assert r[1..] == m[1..];
      KeysCons((k, v), m[1..]);
      KeysCons(m[0], m[1..]);
      assert m == [m[0]] + m[1..];
      r
    else
      var t := Put(m[1..], k, v);
      var r := [m[0]] + t;
      assert r[1..] == t;
      KeysCons(m[0], m[1..]);
      KeysCons(m[0], t);
      assert m == [m[0]] + m[1..];
      r
  }

  lemma KeysCons<K, V>(e: (K, V), m: OrderedMap<K, V>)
    ensures Keys([e] + m) == [e.0] + Keys(m)
  {
  }

  /** Setting a key never introduces a repeated key. */
  lemma PutKeepsKeysDistinct<K(!new), V>(m: OrderedMap<K, V>, k: K, v: V)
    requires DistinctKeys(m)
    ensures DistinctKeys(Put(m, k, v))
  {
  }
}
