/** Sums over finite sets, and what they owe to the order of summation: nothing. */
module Sums {

  ghost function Sum<K>(keys: set<K>, f: K -> nat): (total: nat) {
    if keys == {} then 0 else
      var k :| k in keys;
      f(k) + Sum(keys - {k}, f)
  }

  /** Any element may be summed first. */
  lemma {:induction false} SumExtract<K>(keys: set<K>, f: K -> nat, k: K)
    requires k in keys
    ensures Sum(keys, f) == f(k) + Sum(keys - {k}, f)
  {
    var first :| first in keys && Sum(keys, f) == f(first) + Sum(keys - {first}, f);
    if first != k {
      SumExtract(keys - {first}, f, k);
      SumExtract(keys - {k}, f, first);
      assert keys - {first} - {k} == keys - {k} - {first};
    }
  }

  lemma SumInsert<K>(keys: set<K>, f: K -> nat, k: K)
    requires k !in keys
    ensures Sum(keys + {k}, f) == f(k) + Sum(keys, f)
  {
    SumExtract(keys + {k}, f, k);
    assert keys + {k} - {k} == keys;
  }

  /** Only the values on the keys matter. */
  lemma {:induction false} SumAgree<K>(keys: set<K>, f: K -> nat, g: K -> nat)
    requires forall k :: k in keys ==> f(k) == g(k)
    ensures Sum(keys, f) == Sum(keys, g)
  {
    if keys != {} {
      var k :| k in keys;
      SumExtract(keys, f, k);
      SumExtract(keys, g, k);
      SumAgree(keys - {k}, f, g);
    }
  }
}
