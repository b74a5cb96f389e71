/** Adding up the counters of a map. */
module Sums {
  ghost function SumOver<K>(keys: set<K>, m: map<K, nat>): (n: nat)
    requires keys <= m.Keys
    decreases |keys|
  {
    if keys == {} then 0 else
      var k :| k in keys;
      m[k] + SumOver(keys - {k}, m)
  }

  lemma {:induction false} SumRemove<K>(keys: set<K>, m: map<K, nat>, k: K)
    requires keys <= m.Keys && k in keys
    ensures SumOver(keys, m) == m[k] + SumOver(keys - {k}, m)
    decreases |keys|
  {
    var j :| j in keys && SumOver(keys, m) == m[j] + SumOver(keys - {j}, m);
    if j != k {
      SumRemove(keys - {j}, m, k);
      SumRemove(keys - {k}, m, j);
      assert keys - {j} - {k} == keys - {k} - {j};
    }
  }

  lemma {:induction false} SumExtends<K>(keys: set<K>, m: map<K, nat>, m': map<K, nat>)
    requires keys <= m.Keys && keys <= m'.Keys && forall k :: k in keys ==> m[k] == m'[k]
    ensures SumOver(keys, m) == SumOver(keys, m')
    decreases |keys|
  {
    if keys != {} {
      var k :| k in keys;
      SumRemove(keys, m, k);
      SumRemove(keys, m', k);
      SumExtends(keys - {k}, m, m');
    }
  }

  /** Multiplicities of a list, summed over keys that cover it, give its length. */
  lemma {:induction false} SumIsLength<K>(keys: set<K>, m: map<K, nat>, list: seq<K>)
    requires keys <= m.Keys
    requires forall k :: k in keys ==> m[k] == multiset(list)[k]
    requires forall k :: k in list ==> k in keys
    ensures SumOver(keys, m) == |list|
    decreases |list|
  {
    if list == [] {
      SumZero(keys, m);
    } else {
      var last, front := list[|list| - 1], list[..|list| - 1];
      assert list == front + [last];
      var m' := m[last := m[last] - 1];
      SumIsLength(keys, m', front);
      SumRemove(keys, m, last);
      SumRemove(keys, m', last);
      SumExtends(keys - {last}, m, m');
    }
  }

  lemma {:induction false} SumZero<K>(keys: set<K>, m: map<K, nat>)
    requires keys <= m.Keys && forall k :: k in keys ==> m[k] == 0
    ensures SumOver(keys, m) == 0
    decreases |keys|
  {
    if keys != {} {
      var k :| k in keys;
      SumRemove(keys, m, k);
      SumZero(keys - {k}, m);
    }
  }
}
