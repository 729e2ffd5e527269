/**
 * A JavaScript `Map` as a value: its keys in insertion order and the
 * key-to-value table. `set` on a present key keeps the key's position;
 * on a new key it appends the key. `values()` lists values in key order.
 */
module JsMap {
  import opened Wrappers

  predicate Distinct<K(==)>(s: seq<K>)
  {
    forall i, j :: 0 <= i < j < |s| ==> s[i] != s[j]
  }

  datatype OrderedMap<K, V> = OrderedMap(keys: seq<K>, table: map<K, V>)
  {
    ghost predicate Valid()
    {
      && Distinct(keys)
      && (forall k :: k in table ==> k in keys)
      && (forall i :: 0 <= i < |keys| ==> keys[i] in table)
    }

    function Size(): nat
    {
      |keys|
    }

    /** `map.get(k)`. */
    function Get(k: K): (r: Option<V>)
      ensures r.Some? <==> k in table
      ensures r.Some? ==> r.value == table[k]
    {
      if k in table then Some(table[k]) else None
    }

    /** `map.set(k, v)`. */
    function Set(k: K, v: V): (m: OrderedMap<K, V>)
      requires Valid()
      ensures m.Valid()
      ensures m.table == table[k := v]
      ensures m.keys == if k in table then keys else keys + [k]
    {
      if k in table then OrderedMap(keys, table[k := v])
      else OrderedMap(keys + [k], table[k := v])
    }

    /** `Array.from(map.values())`. */
    function Values(): (vs: seq<V>)
      requires Valid()
      ensures |vs| == |keys|
      ensures forall i :: 0 <= i < |keys| ==> vs[i] == table[keys[i]]
    {
      seq(|keys|, i requires 0 <= i < |keys| => table[keys[i]])
    }
  }

  function Empty<K, V>(): (m: OrderedMap<K, V>)
    ensures m.Valid() && m.keys == [] && m.table == map[]
  {
    OrderedMap([], map[])
  }

  /** A key is never listed twice, so the map has as many entries as distinct keys. */
  lemma {:induction false} SizeIsKeyCount<K, V>(m: OrderedMap<K, V>)
    requires m.Valid()
    ensures m.Size() == |m.table.Keys|
  {
    DistinctCard(m.keys);
    assert (set k | k in m.keys) == m.table.Keys;
  }

  lemma {:induction false} DistinctCard<K>(s: seq<K>)
    requires Distinct(s)
    ensures |set k | k in s| == |s|
  {
    if s != [] {
      var t := s[..|s| - 1];
      assert Distinct(t);
      DistinctCard(t);
      assert (set k | k in s) == (set k | k in t) + {s[|s| - 1]};
      assert s[|s| - 1] !in t;
    }
  }
}
