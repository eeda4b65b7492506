/** Walking a map's keys in no particular order, as Go's `range` and `sync.Map.Range` do. */
module Walks {

  lemma EmptyOrNot<K>(keys: set<K>)
    ensures keys == {} || exists k :: k in keys
  {
    if forall k :: k !in keys {
      assert keys == {};
    }
  }

  /** The next key, and those still to come. */
  method Next<K(==)>(keys: set<K>) returns (k: K, rest: set<K>)
    requires keys != {}
    ensures k in keys && rest == keys - {k} && |rest| < |keys|
  {
    EmptyOrNot(keys);
    k :| k in keys;
    rest := keys - {k};
  }
}
