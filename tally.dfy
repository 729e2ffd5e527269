/** Counting occurrences of keys in a sequence, and their sum over all keys. */
module Tally {
  import opened JsMap

  function Occurrences<K(==)>(s: seq<K>, k: K): (n: nat)
    ensures n <= |s|
    ensures n > 0 <==> k in s
  {
    if s == [] then 0
    else Occurrences(s[..|s| - 1], k) + (if s[|s| - 1] == k then 1 else 0)
  }

  function SumOccurrences<K(==)>(s: seq<K>, keys: seq<K>): nat
  {
    if keys == [] then 0
    else SumOccurrences(s, keys[..|keys| - 1]) + Occurrences(s, keys[|keys| - 1])
  }

  /**
   * Summing, over a list of distinct keys that includes every element of s,
   * the number of times each key occurs in s gives the length of s.
   */
  lemma {:induction false} SumOfOccurrences<K>(s: seq<K>, keys: seq<K>)
    requires Distinct(keys)
    requires forall x :: x in s ==> x in keys
    ensures SumOccurrences(s, keys) == |s|
  {
    if s == [] {
      ZeroSum(s, keys);
    } else {
      var t, x := s[..|s| - 1], s[|s| - 1];
      assert forall y :: y in t ==> y in s;
      SumOfOccurrences(t, keys);
      SumAppend(t, x, keys);
      assert s == t + [x] && x in keys;
    }
  }

  lemma {:induction false} ZeroSum<K>(s: seq<K>, keys: seq<K>)
    requires s == []
    ensures SumOccurrences(s, keys) == 0
  {
    if keys != [] {
      ZeroSum(s, keys[..|keys| - 1]);
    }
  }

  lemma {:induction false} SumAppend<K>(t: seq<K>, x: K, keys: seq<K>)
    requires Distinct(keys)
    ensures SumOccurrences(t + [x], keys) == SumOccurrences(t, keys) + (if x in keys then 1 else 0)
  {
    var s := t + [x];
    assert s[..|s| - 1] == t;
    if keys != [] {
      var ks, k := keys[..|keys| - 1], keys[|keys| - 1];
      assert Distinct(ks);
      SumAppend(t, x, ks);
      assert x in keys <==> x in ks || x == k;
      assert x == k ==> x !in ks;
    }
  }
}
