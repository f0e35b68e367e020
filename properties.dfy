/** What the operations promise about the map's contents: the probe-chain invariant, the value
    stored under each key, and how set, delete and resize change it. */
module TableProperties {
  import opened Options
  import opened Probing
  import opened Tables

  /** The probe chain of slot `p` is intact: every slot from its key's start slot up to `p`,
      cyclically, holds a key. */
  ghost predicate ChainTo(keys: Slots, p: nat)
    requires p < |keys|
  {
    keys[p].Some? ==>
      var s := Start(keys[p].value, |keys|);
      forall d :: 0 <= d <= Offset(s, p, |keys|) ==> keys[Slot(s, d, |keys|)].Some?
  }

  ghost predicate ChainsIntact(keys: Slots)
  {
    forall p :: 0 <= p < |keys| ==> ChainTo(keys, p)
  }

  /** No key is held by two slots. */
  ghost predicate Distinct(keys: Slots)
  {
    forall p, q :: 0 <= p < |keys| && 0 <= q < |keys| && keys[p].Some? && keys[p] == keys[q] ==> p == q
  }

  /** The shape a history of `map_new` and `map_set` calls keeps and `map_del` may break. */
  ghost predicate WellFormed<V>(t: Table<V>)
  {
    ChainsIntact(t.keys) && Distinct(t.keys)
  }

  /** Some slot holds `key`. */
  ghost predicate Holds(keys: Slots, key: Key)
  {
    exists p :: 0 <= p < |keys| && keys[p] == Some(key)
  }

  /** The value held for `key` by the last of the first `m` slots that hold `key` with a non-NULL
      value, or NULL: exactly what `resize`'s copy loop keeps for `key`. */
  function StoredIn<V>(keys: Slots, values: seq<Option<V>>, key: Key, m: nat): (v: Option<V>)
    requires m <= |keys| && m <= |values|
  {
    if m == 0 then None
    else if keys[m - 1] == Some(key) && values[m - 1].Some? then values[m - 1]
    else StoredIn(keys, values, key, m - 1)
  }

  /** The value the map holds for `key`. */
  function Stored<V>(t: Table<V>, key: Key): (v: Option<V>)
    requires |t.keys| == |t.values|
  {
    StoredIn(t.keys, t.values, key, |t.keys|)
  }

  lemma {:induction false} StoredAbsent<V>(keys: Slots, values: seq<Option<V>>, key: Key, m: nat)
    requires m <= |keys| && m <= |values|
    requires forall p :: 0 <= p < m && keys[p] == Some(key) ==> values[p].None?
    ensures StoredIn(keys, values, key, m) == None
  {
    if m > 0 {
      StoredAbsent(keys, values, key, m - 1);
    }
  }

  lemma {:induction false} StoredAt<V>(keys: Slots, values: seq<Option<V>>, key: Key, p: nat, m: nat)
    requires Distinct(keys) && p < m <= |keys| && m <= |values| && keys[p] == Some(key)
    ensures StoredIn(keys, values, key, m) == values[p]
  {
    if m - 1 == p {
      StoredAbsent(keys, values, key, p);
    } else {
      StoredAt(keys, values, key, p, m - 1);
    }
  }

  lemma {:induction false} StoredFrame<V>(keys: Slots, values: seq<Option<V>>,
                                          keys': Slots, values': seq<Option<V>>, key: Key, m: nat)
    requires m <= |keys| && m <= |values| && m <= |keys'| && m <= |values'|
    requires forall p :: 0 <= p < m ==>
      (keys[p] == Some(key) && values[p].Some?) == (keys'[p] == Some(key) && values'[p].Some?)
    requires forall p :: 0 <= p < m && keys[p] == Some(key) && values[p].Some? ==> values[p] == values'[p]
    ensures StoredIn(keys, values, key, m) == StoredIn(keys', values', key, m)
  {
    if m > 0 {
      StoredFrame(keys, values, keys', values', key, m - 1);
    }
  }

  /** In a well-formed table the probe for a held key reaches the slot holding it. This holds
      even when the size counter equals the capacity, provided that capacity is at most 2 (the
      only capacities at which the invariant lets that happen). */
  lemma ProbeFindsKey(keys: Slots, key: Key, size: int, p: nat)
    requires ChainsIntact(keys) && Distinct(keys)
    requires p < |keys| && keys[p] == Some(key)
    requires size != |keys| || |keys| <= 2
    ensures ProbeEnds(keys, key, size) && Probe(keys, key, size) == p
  {
    var n, s := |keys|, Start(key, |keys|);
    var o := Offset(s, p, n);
    assert ChainTo(keys, p);
    assert forall d :: 0 <= d < o ==> keys[Slot(s, d, n)].Some? && Slot(s, d, n) != p;
    if size != n {
      ProbeIsFirstStop(keys, key, size, p);
    } else if o == 1 {
      assert keys[Slot(s, 0, n)].Some? && Slot(s, 0, n) != p;
    }
  }

  /** Storing at the probed slot keeps the table well formed and changes the stored value of
      `key` alone. */
  lemma InsertStored<V>(t: Table<V>, key: Key, value: Option<V>)
    requires |t.keys| == |t.values| && t.size != |t.keys| && ProbeEnds(t.keys, key, t.size)
    requires WellFormed(t)
    ensures WellFormed(Insert(t, key, value))
    ensures forall k :: Stored(Insert(t, key, value), k) == if k == key then value else Stored(t, k)
  {
    var n, s := |t.keys|, Start(key, |t.keys|);
    var j := Probe(t.keys, key, t.size);
    var r := Insert(t, key, value);
    assert r.keys == t.keys[j := Some(key)];
    if t.keys[j].None? {
      forall p | 0 <= p < n ensures t.keys[p] != Some(key) {
        if t.keys[p] == Some(key) {
          ProbeFindsKey(t.keys, key, t.size, p);
        }
      }
    }
    assert Distinct(r.keys);
    var oj := Offset(s, j, n);
    forall p | 0 <= p < n ensures ChainTo(r.keys, p) {
      if p == j {
        assert forall d :: 0 <= d < oj ==> t.keys[Slot(s, d, n)].Some? && Slot(s, d, n) != j;
      } else {
        assert ChainTo(t.keys, p);
      }
    }
    forall k ensures Stored(r, k) == if k == key then value else Stored(t, k) {
      if k == key {
        StoredAt(r.keys, r.values, key, j, n);
      } else {
        StoredFrame(t.keys, t.values, r.keys, r.values, k, n);
      }
    }
  }

  /** `resize`'s copy loop yields a well-formed table holding, for every key, what the copied
      prefix of the old slots stored. */
  lemma {:induction false} RehashStored<V>(t: Table<V>, n: nat, m: nat)
    requires |t.keys| == |t.values| && m <= |t.keys| < n && t.size != n
    ensures WellFormed(Rehash(t, n, m))
    ensures forall k :: Stored(Rehash(t, n, m), k) == StoredIn(t.keys, t.values, k, m)
    decreases m
  {
    var r := Rehash(t, n, m);
    if m == 0 {
      forall k ensures Stored(r, k) == None {
        StoredAbsent(r.keys, r.values, k, n);
      }
    } else {
      var r' := Rehash(t, n, m - 1);
      RehashStored(t, n, m - 1);
      if t.keys[m - 1].Some? && t.values[m - 1].Some? {
        OccupiedPrefix(t.keys, m - 1);
        EmptySlotExists(r'.keys);
        InsertStored(r', t.keys[m - 1].value, t.values[m - 1]);
      }
    }
  }

  /** Writing `key` into a slot that is empty or already holds `key` adds `key` to the keys held
      and removes none. */
  lemma HoldsUpdate(keys: Slots, j: nat, key: Key, k: Key)
    requires j < |keys| && Stops(keys[j], key)
    ensures Holds(keys[j := Some(key)], k) <==> Holds(keys, k) || k == key
  {
    var keys' := keys[j := Some(key)];
    if Holds(keys, k) {
      var p :| 0 <= p < |keys| && keys[p] == Some(k);
      assert keys'[if p == j then j else p] == Some(k);
    }
    if k == key {
      assert keys'[j] == Some(k);
    }
    if Holds(keys', k) && k != key {
      var p :| 0 <= p < |keys| && keys'[p] == Some(k);
      assert keys[p] == Some(k);
    }
  }

  /** One of the first `m` slots holds `k` with a non-NULL value: a slot `resize` copies. */
  ghost predicate Kept<V>(keys: Slots, values: seq<Option<V>>, k: Key, m: nat)
    requires m <= |keys| && m <= |values|
  {
    exists p :: 0 <= p < m && keys[p] == Some(k) && values[p].Some?
  }

  lemma KeptStep<V>(keys: Slots, values: seq<Option<V>>, k: Key, m: nat)
    requires 0 < m <= |keys| && m <= |values|
    ensures Kept(keys, values, k, m) <==>
      Kept(keys, values, k, m - 1) || (keys[m - 1] == Some(k) && values[m - 1].Some?)
  {
    if Kept(keys, values, k, m) {
      var p :| 0 <= p < m && keys[p] == Some(k) && values[p].Some?;
      if p < m - 1 {
        assert Kept(keys, values, k, m - 1);
      }
    }
  }

  /** The copy loop of `resize` keeps exactly the keys of the copied old slots whose value is
      non-NULL: a key held with a NULL value is dropped. */
  lemma {:induction false} RehashHolds<V>(t: Table<V>, n: nat, m: nat)
    requires |t.keys| == |t.values| && m <= |t.keys| < n && t.size != n
    ensures forall k :: Holds(Rehash(t, n, m).keys, k) <==> Kept(t.keys, t.values, k, m)
    decreases m
  {
    if m > 0 {
      var r, r' := Rehash(t, n, m), Rehash(t, n, m - 1);
      RehashHolds(t, n, m - 1);
      if t.keys[m - 1].Some? && t.values[m - 1].Some? {
        var key := t.keys[m - 1].value;
        RehashHasRoom(t, n, m - 1, key, t.size);
        var j := Probe(r'.keys, key, r'.size);
        assert r.keys == r'.keys[j := Some(key)];
        forall k ensures Holds(r.keys, k) <==> Kept(t.keys, t.values, k, m) {
          HoldsUpdate(r'.keys, j, key, k);
          KeptStep(t.keys, t.values, k, m);
        }
      } else {
        forall k ensures Holds(r.keys, k) <==> Kept(t.keys, t.values, k, m) {
          KeptStep(t.keys, t.values, k, m);
        }
      }
    } else {
      forall k ensures !Holds(Rehash(t, n, 0).keys, k) && !Kept(t.keys, t.values, k, 0) {
      }
    }
  }

  /** `resize` loses nothing the map stores and drops nothing else: for every key the stored
      value is unchanged. When it does rehash, the result is well formed whatever the old table
      was; when it does not, the table is unchanged. */
  lemma GrowStored<V>(t: Table<V>)
    requires Inv(t)
    ensures forall k :: Stored(Grow(t), k) == Stored(t, k)
    ensures WellFormed(t) || 5 * t.size >= 3 * |t.keys| ==> WellFormed(Grow(t))
    ensures 5 * t.size >= 3 * |t.keys| ==>
      forall k :: Holds(Grow(t).keys, k) <==> Kept(t.keys, t.values, k, |t.keys|)
  {
    if 5 * t.size >= 3 * |t.keys| {
      var n := |t.keys|;
      RehashStored(t, 2 * n, n);
      RehashHolds(t, 2 * n, n);
    }
  }

  /** `map_set` on a well-formed table: the key now stores the new value, every other key keeps
      its value, and the table stays well formed. */
  lemma PutStored<V>(t: Table<V>, key: Key, value: Option<V>)
    requires Inv(t) && WellFormed(t)
    ensures WellFormed(Put(t, key, value))
    ensures forall k :: Stored(Put(t, key, value), k) == if k == key then value else Stored(t, k)
  {
    var g := Grow(t);
    GrowStored(t);
    ProbeEndsFromInv(g, key);
    InsertStored(g, key, value);
    var i, r := Insert(g, key, value), Put(t, key, value);
    assert r.keys == i.keys && r.values == i.values;
    forall k ensures Stored(r, k) == if k == key then value else Stored(t, k) {
      assert Stored(r, k) == Stored(i, k);
    }
  }

  /** `map_get` right after `map_set` returns the value just set, on any reachable table. */
  lemma PutThenLookup<V>(t: Table<V>, key: Key, value: Option<V>)
    requires Inv(t)
    ensures Lookup(Put(t, key, value), key) == value
  {
    var g := Grow(t);
    var n, s := |g.keys|, Start(key, |g.keys|);
    ProbeEndsFromInv(g, key);
    var j := Probe(g.keys, key, g.size);
    var r := Put(t, key, value);
    assert r.keys == g.keys[j := Some(key)];
    var oj := Offset(s, j, n);
    assert forall d :: 0 <= d < oj ==> !Stops(r.keys[Slot(s, d, n)], key);
    if r.size != n {
      ProbeIsFirstStop(r.keys, key, r.size, j);
    } else if oj == 1 {
      assert !Stops(r.keys[Slot(s, 0, n)], key);
    }
  }

  /** `map_get` on a well-formed table returns what the map stores for the key, provided the
      probe cannot break early on a full table (the size counter differs from the capacity, or
      the key is held). */
  lemma LookupStored<V>(t: Table<V>, key: Key)
    requires Inv(t) && WellFormed(t)
    requires t.size != |t.keys| || Holds(t.keys, key)
    ensures Lookup(t, key) == Stored(t, key)
  {
    if Holds(t.keys, key) {
      var p :| 0 <= p < |t.keys| && t.keys[p] == Some(key);
      SizeBound(t);
      ProbeFindsKey(t.keys, key, t.size, p);
      StoredAt(t.keys, t.values, key, p, |t.keys|);
    } else {
      StoredAbsent(t.keys, t.values, key, |t.keys|);
    }
  }

  /** `map_del` on a well-formed table whose size counter differs from its capacity, or which
      holds the key: the key stores nothing afterwards, every other key keeps its value, and the
      size counter drops by one exactly when the key stored a value. */
  lemma RemoveStored<V>(t: Table<V>, key: Key)
    requires Inv(t) && WellFormed(t) && (t.size != |t.keys| || Holds(t.keys, key))
    ensures forall k :: Stored(Remove(t, key), k) == if k == key then None else Stored(t, k)
    ensures Remove(t, key).size == t.size - (if Stored(t, key).Some? then 1 else 0)
  {
    var n := |t.keys|;
    ProbeEndsFromInv(t, key);
    var j := Probe(t.keys, key, t.size);
    var r := Remove(t, key);
    SizeBound(t);
    if Holds(t.keys, key) {
      var p :| 0 <= p < n && t.keys[p] == Some(key);
      ProbeFindsKey(t.keys, key, t.size, p);
      StoredAt(t.keys, t.values, key, j, n);
    } else {
      assert t.keys[j] != Some(key);
      StoredAbsent(t.keys, t.values, key, n);
    }
    forall k ensures Stored(r, k) == if k == key then None else Stored(t, k) {
      if k == key {
        StoredAbsent(r.keys, r.values, key, n);
      } else {
        StoredFrame(t.keys, t.values, r.keys, r.values, k, n);
      }
    }
  }

  /** `map_del` of a key no slot holds changes nothing, provided the size counter differs from
      the capacity. */
  lemma RemoveAbsent<V>(t: Table<V>, key: Key)
    requires Inv(t) && t.size != |t.keys| && !Holds(t.keys, key)
    ensures Remove(t, key) == t
  {
    ProbeEndsFromInv(t, key);
    var j := Probe(t.keys, key, t.size);
    assert t.keys[j] != Some(key);
  }

  /** `map_get` right after `map_del` of the same key returns NULL, on any reachable table. */
  lemma RemoveThenLookup<V>(t: Table<V>, key: Key)
    requires Inv(t)
    ensures Lookup(Remove(t, key), key) == None
  {
    var n, s := |t.keys|, Start(key, |t.keys|);
    ProbeEndsFromInv(t, key);
    var j := Probe(t.keys, key, t.size);
    var r := Remove(t, key);
    if r != t {
      var oj := Offset(s, j, n);
      assert r.keys == t.keys[j := None] && r.size == t.size - 1;
      SizeBound(t);
      if t.size != n {
        assert forall d :: 0 <= d < oj ==> !Stops(r.keys[Slot(s, d, n)], key);
      } else if oj == 1 {
        assert !Stops(r.keys[Slot(s, 0, n)], key);
      }
      ProbeIsFirstStop(r.keys, key, r.size, j);
    }
  }

  /** Deleting twice is deleting once, on any reachable table. */
  lemma RemoveIdempotent<V>(t: Table<V>, key: Key)
    requires Inv(t)
    ensures Remove(Remove(t, key), key) == Remove(t, key)
  {
    RemoveThenLookup(t, key);
  }

  /** `map_new(n)` stores nothing, is well formed, and `map_get` finds nothing in it. */
  lemma EmptyStored<V>(n: nat, key: Key)
    requires n > 0
    ensures WellFormed(Empty<V>(n))
    ensures Stored(Empty<V>(n), key) == None && Lookup(Empty<V>(n), key) == None
  {
    var t := Empty<V>(n);
    StoredAbsent(t.keys, t.values, key, n);
  }
}
