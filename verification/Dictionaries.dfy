/** Python dictionaries whose iteration order matters, as association lists in
    insertion order: writing to a key that is present keeps its place. */
module Dictionaries {
  import opened Sorting

  datatype Option<+T> = None | Some(value: T)

  type Dict<K, V> = seq<(K, V)>

  function Keys<K, V>(d: Dict<K, V>): (r: seq<K>)
    ensures |r| == |d|
    ensures forall i :: 0 <= i < |d| ==> r[i] == d[i].0
  {
    seq<K>(|d|, i requires 0 <= i < |d| => d[i].0)
  }

  ghost predicate UniqueKeys<K, V>(d: Dict<K, V>) {
    Distinct(Keys(d))
  }

  function Lookup<K(==), V>(d: Dict<K, V>, k: K): (r: Option<V>)
    ensures r.Some? <==> k in Keys(d)
    ensures r.Some? ==> (k, r.value) in d
  {
    if d == [] then None
    else
      assert Keys(d) == [d[0].0] + Keys(d[1..]);
      if d[0].0 == k then Some(d[0].1) else Lookup(d[1..], k)
  }

  function Put<K(==), V>(d: Dict<K, V>, k: K, v: V): Dict<K, V> {
    if d == [] then [(k, v)]
    else if d[0].0 == k then [(k, v)] + d[1..]
    else [d[0]] + Put(d[1..], k, v)
  }

  lemma KeysCons<K, V>(p: (K, V), d: Dict<K, V>)
    ensures Keys([p] + d) == [p.0] + Keys(d)
  {}

  lemma {:induction false} PutKeys<K, V>(d: Dict<K, V>, k: K, v: V, x: K)
    ensures x in Keys(Put(d, k, v)) <==> x in Keys(d) || x == k
  {
    if d == [] {
      assert Keys(Put(d, k, v)) == [k];
    } else {
      assert d == [d[0]] + d[1..];
      KeysCons(d[0], d[1..]);
      if d[0].0 == k {
        KeysCons((k, v), d[1..]);
      } else {
        PutKeys(d[1..], k, v, x);
        KeysCons(d[0], Put(d[1..], k, v));
      }
    }
  }

  /** A new key goes to the end, a present one keeps its place. */
  lemma {:induction false} KeysPut<K, V>(d: Dict<K, V>, k: K, v: V)
    ensures Keys(Put(d, k, v)) == if k in Keys(d) then Keys(d) else Keys(d) + [k]
  {
    if d == [] {
      assert Keys(Put(d, k, v)) == [k];
    } else {
      assert d == [d[0]] + d[1..];
      KeysCons(d[0], d[1..]);
      if d[0].0 == k {
        KeysCons((k, v), d[1..]);
      } else {
        KeysPut(d[1..], k, v);
        KeysCons(d[0], Put(d[1..], k, v));
      }
    }
  }

  lemma {:induction false} PutUnique<K, V>(d: Dict<K, V>, k: K, v: V)
    requires UniqueKeys(d)
    ensures UniqueKeys(Put(d, k, v))
  {
    if d == [] {
      assert Keys(Put(d, k, v)) == [k];
    } else {
      KeysCons(d[0], d[1..]);
      assert d == [d[0]] + d[1..];
      DistinctCons(d[0].0, Keys(d[1..]));
      if d[0].0 == k {
        KeysCons((k, v), d[1..]);
      } else {
        PutUnique(d[1..], k, v);
        PutKeys(d[1..], k, v, d[0].0);
        KeysCons(d[0], Put(d[1..], k, v));
        DistinctCons(d[0].0, Keys(Put(d[1..], k, v)));
      }
    }
  }

  lemma {:induction false} LookupPut<K, V>(d: Dict<K, V>, k: K, v: V, x: K)
    ensures Lookup(Put(d, k, v), x) == if x == k then Some(v) else Lookup(d, x)
  {
    if d != [] && d[0].0 != k {
      LookupPut(d[1..], k, v, x);
    }
  }
}
