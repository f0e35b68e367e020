/** Histories of `map_new` followed by `map_set` calls only: what the map then holds and what
    `map_get` returns. */
module SetHistories {
  import opened Options
  import opened Probing
  import opened Tables
  import opened TableProperties

  /** The table after `map_new(n)` and then `map_set(k, v)` for each pair of `sets`, in order. */
  function AfterSets<V>(n: nat, sets: seq<(Key, Option<V>)>): (t: Table<V>)
    requires n > 0
    ensures Inv(t) && t.size == |sets|
    decreases |sets|
  {
    if sets == [] then Empty(n)
    else
      var last := sets[|sets| - 1];
      Put(AfterSets(n, sets[..|sets| - 1]), last.0, last.1)
  }

  /** The value of the last `map_set` of `key` in `sets`, or NULL when there is none. */
  function LastSet<V>(sets: seq<(Key, Option<V>)>, key: Key): (v: Option<V>)
    decreases |sets|
  {
    if sets == [] then None
    else if sets[|sets| - 1].0 == key then sets[|sets| - 1].1
    else LastSet(sets[..|sets| - 1], key)
  }

  /** Without deletes the table stays well formed and stores, for every key, the value it was
      last set to, however many resizes happened on the way. */
  lemma {:induction false} AfterSetsStored<V>(n: nat, sets: seq<(Key, Option<V>)>)
    requires n > 0
    ensures WellFormed(AfterSets(n, sets))
    ensures forall k :: Stored(AfterSets(n, sets), k) == LastSet(sets, k)
    decreases |sets|
  {
    if sets == [] {
      forall k ensures Stored(AfterSets(n, sets), k) == None {
        EmptyStored<V>(n, k);
      }
    } else {
      var prefix, last := sets[..|sets| - 1], sets[|sets| - 1];
      AfterSetsStored(n, prefix);
      PutStored(AfterSets(n, prefix), last.0, last.1);
    }
  }

  /** Without deletes `map_get` returns the value a key was last set to, and NULL for a key never
      set, except that a probe for a key the table does not hold may break early on a full
      table (the size counter equal to the capacity). */
  lemma AfterSetsLookup<V>(n: nat, sets: seq<(Key, Option<V>)>, key: Key)
    requires n > 0
    requires |sets| != |AfterSets(n, sets).keys| || Holds(AfterSets(n, sets).keys, key)
    ensures Lookup(AfterSets(n, sets), key) == LastSet(sets, key)
  {
    var t := AfterSets(n, sets);
    AfterSetsStored(n, sets);
    if !Holds(t.keys, key) {
      StoredAbsent(t.keys, t.values, key, |t.keys|);
    }
    LookupStored(t, key);
  }
}
