/**
 Sums of an integer-valued projection over the values of a finite map.

 The aggregate statistics of the placement-group map are all of this shape:
 a total over the records of a table. `Sum` is the from-scratch reference
 definition; the lemmas below say how it moves when one entry is inserted,
 replaced or erased, which is exactly the work the incremental add/subtract
 bookkeeping does.
 */
module Sums {

  /* Some key of a non-empty map: the one a fold over the map visits first. */
  ghost function Pick<K, V>(m: map<K, V>): (k: K)
    requires |m| != 0
    ensures k in m
  {
    assert m.Keys != {};
    var k :| k in m; k
  }

  /* Some element of a non-empty set: the one a loop over it visits first. */
  ghost function PickElem<K>(s: set<K>): (k: K)
    requires s != {}
    ensures k in s
  {
    var k :| k in s; k
  }

  /* Erasing a present key shrinks a map by one. */
  lemma MapRemoveCard<K, V>(m: map<K, V>, k: K)
    requires k in m
    ensures (m - {k}).Keys == m.Keys - {k}
    ensures |m - {k}| == |m| - 1
  {
    assert (m - {k}).Keys == m.Keys - {k};
  }

  /* Overriding by an empty map changes nothing. */
  lemma MapOverrideEmpty<K, V>(t: map<K, V>, upd: map<K, V>)
    requires |upd| == 0
    ensures upd.Keys == {}
    ensures t + upd == t
  {
    assert upd == map[];
  }

  /* Overriding an empty map gives the overriding map. */
  lemma MapOverrideOfEmpty<K, V>(t: map<K, V>)
    ensures map[] + t == t
  {
  }

  /* Overriding by `upd` is overriding by one of its entries, then by the rest. */
  lemma MapOverrideStep<K, V>(t: map<K, V>, upd: map<K, V>, k: K)
    requires k in upd
    ensures t[k := upd[k]] + (upd - {k}) == t + upd
  {
  }

  /* Erasing a set of keys is erasing one of them, then the rest. */
  lemma MapEraseStep<K, V>(t: map<K, V>, rm: set<K>, k: K)
    requires k in rm
    ensures t - {k} - (rm - {k}) == t - rm
  {
  }

  /* The sum of `f` over every value stored in `m`. */
  ghost function Sum<K, V>(m: map<K, V>, f: V -> int): int
    decreases |m|
  {
    if |m| == 0 then 0
    else
      var k := Pick(m);
      MapRemoveCard(m, k);
      f(m[k]) + Sum(m - {k}, f)
  }

  /* Removing one key takes exactly that key's value out of the sum,
     whichever key the definition happened to pick first. */
  lemma {:induction false} SumRemove<K, V>(m: map<K, V>, k: K, f: V -> int)
    requires k in m
    ensures Sum(m, f) == f(m[k]) + Sum(m - {k}, f)
    decreases |m|
  {
    var j := Pick(m);
    assert (m - {j}).Keys == m.Keys - {j};
    assert (m - {k}).Keys == m.Keys - {k};
    if j != k {
      SumRemove(m - {j}, k, f);
      SumRemove(m - {k}, j, f);
      assert m - {j} - {k} == m - {k} - {j};
    }
  }

  /* Inserting a fresh key adds its value to the sum. */
  lemma SumInsert<K, V>(m: map<K, V>, k: K, v: V, f: V -> int)
    requires k !in m
    ensures Sum(m[k := v], f) == Sum(m, f) + f(v)
  {
    SumRemove(m[k := v], k, f);
    assert m[k := v] - {k} == m;
  }

  /* Overwriting (or inserting) a key retracts the old value, if any, and
     adds the new one. */
  lemma SumUpdate<K, V>(m: map<K, V>, k: K, v: V, f: V -> int)
    ensures Sum(m[k := v], f) == Sum(m, f) - (if k in m then f(m[k]) else 0) + f(v)
  {
    var rest := m - {k};
    SumRemove(m[k := v], k, f);
    assert m[k := v] - {k} == rest;
    if k in m {
      SumRemove(m, k, f);
    } else {
      assert rest == m;
    }
  }
}
