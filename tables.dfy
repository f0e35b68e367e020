/** The map's state as a value, and each operation of map.c as a function on it. */
module Tables {
  import opened Options
  import opened Probing

  /** The fields of a `Map`: the parallel key and value arrays and the size counter;
      the capacity is the arrays' length. */
  datatype Table<V> = Table(keys: Slots, values: seq<Option<V>>, size: int)

  /** Number of slots holding a key. */
  function Occupied(keys: Slots): (n: nat)
    ensures n <= |keys|
  {
    if keys == [] then 0
    else Occupied(keys[..|keys| - 1]) + (if keys[|keys| - 1].Some? then 1 else 0)
  }

  /** What every operation keeps: parallel arrays of positive length, no value without a key,
      a size counter at least the number of keys held, and the bound the 60% resize trigger
      (`size < cap * 0.6`, taken as `5 * size < 3 * cap`) leaves after the increment of a set. */
  ghost predicate Inv<V>(t: Table<V>)
  {
    0 < |t.keys| == |t.values| &&
    (forall p :: 0 <= p < |t.keys| && t.keys[p].None? ==> t.values[p].None?) &&
    Occupied(t.keys) <= t.size &&
    5 * t.size < 3 * |t.keys| + 5
  }

  lemma OccupiedUpdate(keys: Slots, j: nat, x: Option<Key>)
    requires j < |keys|
    ensures Occupied(keys[j := x]) ==
      Occupied(keys) - (if keys[j].Some? then 1 else 0) + (if x.Some? then 1 else 0)
    decreases |keys|
  {
    var n := |keys|;
    if j < n - 1 {
      assert keys[j := x][..n - 1] == keys[..n - 1][j := x];
      OccupiedUpdate(keys[..n - 1], j, x);
    } else {
      assert keys[j := x][..n - 1] == keys[..n - 1];
    }
  }

  lemma OccupiedPrefix(keys: Slots, m: nat)
    requires m < |keys|
    ensures Occupied(keys[..m + 1]) == Occupied(keys[..m]) + (if keys[m].Some? then 1 else 0)
  {
    assert keys[..m + 1][..m] == keys[..m];
  }

  lemma {:induction false} OccupiedPrefixBound(keys: Slots, m: nat)
    requires m <= |keys|
    ensures Occupied(keys[..m]) <= Occupied(keys)
    decreases |keys| - m
  {
    if m < |keys| {
      OccupiedPrefix(keys, m);
      OccupiedPrefixBound(keys, m + 1);
    } else {
      assert keys[..m] == keys;
    }
  }

  /** A freshly `calloc`ed array of `n` slots, all NULL. */
  function Nulls<T>(n: nat): (s: seq<Option<T>>)
    ensures |s| == n && forall p :: 0 <= p < n ==> s[p] == None
  {
    seq(n, _ => None)
  }

  lemma {:induction false} OccupiedNone(n: nat)
    ensures Occupied(Nulls(n)) == 0
  {
    if n > 0 {
      assert Nulls<Key>(n)[..n - 1] == Nulls(n - 1);
      OccupiedNone(n - 1);
    }
  }

  /** Fewer keys than slots leaves an empty slot. */
  lemma {:induction false} EmptySlotExists(keys: Slots)
    requires Occupied(keys) < |keys|
    ensures exists p :: 0 <= p < |keys| && keys[p].None?
  {
    var n := |keys|;
    if keys[n - 1].Some? {
      EmptySlotExists(keys[..n - 1]);
      var p :| 0 <= p < n - 1 && keys[..n - 1][p].None?;
      assert keys[p].None?;
    } else {
      assert keys[n - 1].None?;
    }
  }

  /** Under the invariant the size counter never exceeds the capacity, and equals it only
      in tables of one or two slots. */
  lemma SizeBound<V>(t: Table<V>)
    requires Inv(t)
    ensures t.size <= |t.keys|
    ensures t.size == |t.keys| ==> |t.keys| <= 2
  {
  }

  /** Under the invariant every probe loop ends. */
  lemma ProbeEndsFromInv<V>(t: Table<V>, key: Key)
    requires Inv(t)
    ensures ProbeEnds(t.keys, key, t.size)
  {
    if t.size != |t.keys| {
      EmptySlotExists(t.keys);
    }
  }

  /** `map_new(n)`. */
  function Empty<V>(n: nat): (t: Table<V>)
    requires n > 0
    ensures Inv(t)
  {
    OccupiedNone(n);
    Table(Nulls(n), Nulls(n), 0)
  }

  /** Lines 62-65 of `map_set`, and the body of the copy loop in `resize`: store the pair at the
      probed slot, leaving every other slot and the size counter alone. */
  function Insert<V>(t: Table<V>, key: Key, value: Option<V>): (r: Table<V>)
    requires |t.keys| == |t.values| && ProbeEnds(t.keys, key, t.size)
    ensures |r.keys| == |r.values| == |t.keys| && r.size == t.size
    ensures Occupied(r.keys) <= Occupied(t.keys) + 1
  {
    var j := Probe(t.keys, key, t.size);
    OccupiedUpdate(t.keys, j, Some(key));
    Table(t.keys[j := Some(key)], t.values[j := value], t.size)
  }

  /** The arrays `resize` has built after copying the first `m` old slots into arrays of `n`
      slots: a slot is copied only when both its key and its value are non-NULL. */
  function Rehash<V>(t: Table<V>, n: nat, m: nat): (r: Table<V>)
    requires |t.keys| == |t.values| && m <= |t.keys| < n
    ensures |r.keys| == |r.values| == n && r.size == t.size
    ensures Occupied(r.keys) <= Occupied(t.keys[..m])
    ensures forall p :: 0 <= p < n && r.keys[p].None? ==> r.values[p].None?
    decreases m
  {
    if m == 0 then
      OccupiedNone(n);
      Table(Nulls(n), Nulls(n), t.size)
    else
      var r := Rehash(t, n, m - 1);
      OccupiedPrefix(t.keys, m - 1);
      if t.keys[m - 1].Some? && t.values[m - 1].Some? then
        EmptySlotExists(r.keys);
        Insert(r, t.keys[m - 1].value, t.values[m - 1])
      else
        r
  }

  /** While `resize` copies, the new arrays always have an empty slot, so every probe ends. */
  lemma RehashHasRoom<V>(t: Table<V>, n: nat, m: nat, key: Key, size: int)
    requires |t.keys| == |t.values| && m < |t.keys| < n
    ensures ProbeEnds(Rehash(t, n, m).keys, key, size)
  {
    EmptySlotExists(Rehash(t, n, m).keys);
  }

  /** `resize`: below the trigger nothing changes; otherwise the capacity doubles, the size
      counter stays, and the old slots are re-probed into fresh arrays. */
  function Grow<V>(t: Table<V>): (g: Table<V>)
    requires Inv(t)
    ensures Inv(g) && g.size == t.size && 5 * g.size < 3 * |g.keys|
    ensures 5 * t.size < 3 * |t.keys| ==> g == t
    ensures |g.keys| == if 5 * t.size < 3 * |t.keys| then |t.keys| else 2 * |t.keys|
  {
    if 5 * t.size < 3 * |t.keys| then t
    else
      var n := |t.keys|;
      OccupiedPrefixBound(t.keys, n);
      Rehash(t, 2 * n, n)
  }

  /** `map_set`: resize if needed, store the pair at the probed slot, and count one more entry
      whether or not the key was already there. */
  function Put<V>(t: Table<V>, key: Key, value: Option<V>): (r: Table<V>)
    requires Inv(t)
    ensures Inv(r) && r.size == t.size + 1
  {
    var g := Grow(t);
    ProbeEndsFromInv(g, key);
    var i := Insert(g, key, value);
    Table(i.keys, i.values, g.size + 1)
  }

  /** `map_del`: clear the probed slot if both its key and its value are non-NULL. */
  function Remove<V>(t: Table<V>, key: Key): (r: Table<V>)
    requires Inv(t)
    ensures Inv(r)
  {
    ProbeEndsFromInv(t, key);
    var j := Probe(t.keys, key, t.size);
    if t.values[j].Some? && t.keys[j].Some? then
      OccupiedUpdate(t.keys, j, None);
      Table(t.keys[j := None], t.values[j := None], t.size - 1)
    else
      t
  }

  /** `map_get`: the value at the probed slot (NULL when that slot has none). */
  function Lookup<V>(t: Table<V>, key: Key): (r: Option<V>)
    requires Inv(t)
    ensures r.Some? ==> exists p :: 0 <= p < |t.keys| && t.keys[p].Some? && t.values[p] == r
    ensures (ProbeEndsFromInv(t, key); t.keys[Probe(t.keys, key, t.size)].None? ==> r == None)
  {
    ProbeEndsFromInv(t, key);
    t.values[Probe(t.keys, key, t.size)]
  }
}
