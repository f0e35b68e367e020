/** The `Map` of map.c: two parallel arrays, a capacity and a size counter, updated in place. */
module ProbingMap {
  import opened Options
  import opened CStrings
  import opened Djb2Hash
  import opened Probing
  import opened Tables

  class Map<V> {
    var keys: array<Option<Key>>
    var values: array<Option<V>>
    var cap: int
    var size: int

    /** The fields as a `Table` value. */
    ghost function Abs(): Table<V>
      reads this, keys, values
    {
      Table(keys[..], values[..], size)
    }

    ghost predicate Valid()
      reads this, keys, values
    {
      keys.Length == cap && values.Length == cap &&
      (keys as object) != (values as object) &&
      Inv(Abs())
    }

    /** `map_new`: both arrays zero-filled (all NULL), capacity as given, size 0. */
    constructor (initialSize: int)
      requires initialSize > 0
      ensures Valid() && fresh(keys) && fresh(values)
      ensures Abs() == Empty(initialSize)
    {
      keys := new Option<Key>[initialSize](_ => None);
      values := new Option<V>[initialSize](_ => None);
      cap := initialSize;
      size := 0;
      new;
      assert keys[..] == Nulls(initialSize);
      assert values[..] == Nulls(initialSize);
      assert Abs() == Empty<V>(initialSize);
    }

    /** `map_index`: probe `ks` from the key's hash modulo the capacity until an empty slot or a
        slot holding an equal key, giving up after one step when the size counter equals the
        capacity. */
    method Index(key: Key, ks: array<Option<Key>>) returns (i: int)
      requires ks.Length == cap && ProbeEnds(ks[..], key, size)
      ensures i == Probe(ks[..], key, size)
    {
      var h := Hash(key);
      i := h % cap;
      ghost var s := i;
      ghost var d := 0;
      while true
        invariant 0 <= d < cap && i == Slot(s, d, cap)
        invariant forall e :: 0 <= e < d ==> !Stops(ks[Slot(s, e, cap)], key)
        invariant size == cap ==> d == 0
        decreases cap - d
      {
        if ks[i].None? {
          break;
        }
        var c := Strcmp(ks[i].value, key);
        if c == 0 {
          break;
        }
        if size != cap {
          ghost var p :| 0 <= p < cap && Stops(ks[p], key);
          assert d < Offset(s, p, cap);
        }
        if d + 1 < cap {
          NextSlot(s, d, cap);
        }
        i := (i + 1) % cap;
        d := d + 1;
        if cap == size {
          break;
        }
      }
      if size != cap && d > 0 {
        ProbeIsFirstStop(ks[..], key, size, i);
      }
    }

    /** Store the pair at the slot `map_index` picks in `ks`: lines 62-65 of `map_set`, and the
        body of the copy loop of `resize`. */
    method Place(key: Key, value: Option<V>, ks: array<Option<Key>>, vs: array<Option<V>>)
      requires ks.Length == cap && vs.Length == cap && (ks as object) != (vs as object)
      requires ProbeEnds(ks[..], key, size)
      modifies ks, vs
      ensures Table(ks[..], vs[..], size) == Insert(old(Table(ks[..], vs[..], size)), key, value)
    {
      var index := Index(key, ks);
      ks[index] := Some(key);
      vs[index] := value;
    }

    /** `resize`: below the trigger nothing changes; otherwise the capacity doubles and every old
        slot whose key and value are both non-NULL is re-probed into fresh arrays. */
    method Resize()
      requires Valid()
      modifies this
      ensures Valid() && Abs() == Grow(old(Abs()))
      ensures (keys == old(keys) && values == old(values)) || (fresh(keys) && fresh(values))
    {
      if 5 * size < 3 * cap {  // map->size < map->cap * 0.6
        return;
      }
      ghost var t := Abs();
      var oldKeys, oldValues := keys, values;
      cap := cap * 2;
      var newKeys := new Option<Key>[cap](_ => None);
      var newValues := new Option<V>[cap](_ => None);
      assert newKeys[..] == Nulls(cap) && newValues[..] == Nulls(cap);
      var i := 0;
      while i < cap / 2
        invariant 0 <= i <= cap / 2 && cap == 2 * |t.keys| && size == t.size
        invariant oldKeys[..] == t.keys && oldValues[..] == t.values
        invariant fresh(newKeys) && fresh(newValues) && (newKeys as object) != (newValues as object)
        invariant newKeys.Length == cap && newValues.Length == cap
        invariant Table(newKeys[..], newValues[..], size) == Rehash(t, cap, i)
      {
        var key := oldKeys[i];
        var value := oldValues[i];
        if key.Some? && value.Some? {
          RehashHasRoom(t, cap, i, key.value, size);
          Place(key.value, value, newKeys, newValues);
        }
        i := i + 1;
      }
      keys := newKeys;
      values := newValues;
      assert Abs() == Rehash(t, cap, |t.keys|) == Grow(t);
    }

    /** `map_set`: resize if needed, write the pair at the probed slot, count one more entry. */
    method Set(key: Key, value: Option<V>)
      requires Valid()
      modifies this, keys, values
      ensures Valid() && Abs() == Put(old(Abs()), key, value)
    {
      ghost var t := Abs();
      Resize();
      ghost var g := Abs();
      assert g == Grow(t);
      ProbeEndsFromInv(g, key);
      Place(key, value, keys, values);
      size := size + 1;
      assert Abs() == Put(t, key, value);
    }

    /** `map_del`: clear the probed slot and count one entry fewer, if both its key and its
        value are non-NULL. */
    method Del(key: Key)
      requires Valid()
      modifies this`size, keys, values
      ensures Valid() && Abs() == Remove(old(Abs()), key)
    {
      ghost var t := Abs();
      ProbeEndsFromInv(t, key);
      var i := Index(key, keys);
      if values[i].Some? && keys[i].Some? {
        values[i] := None;
        keys[i] := None;
        size := size - 1;
        assert Abs() == Table(t.keys[i := None], t.values[i := None], t.size - 1) == Remove(t, key);
      }
    }

    /** `map_get`: the value at the probed slot, or NULL. */
    method Get(key: Key) returns (r: Option<V>)
      requires Valid()
      ensures r == Lookup(Abs(), key)
    {
      ProbeEndsFromInv(Abs(), key);
      var i := Index(key, keys);
      if values[i].Some? {
        r := values[i];
      } else {
        r := None;
      }
    }

    /** `map_size`: the size counter, which is never below the number of keys held. */
    method Size() returns (n: int)
      requires Valid()
      ensures n == size && Occupied(keys[..]) <= n
    {
      n := size;
    }

    /** `map_in`: 1 when `map_get` finds a non-NULL value, else 0. */
    method In(key: Key) returns (r: int)
      requires Valid()
      ensures r == 0 || r == 1
      ensures r == 1 <==> Lookup(Abs(), key).Some?
    {
      var v := Get(key);
      r := if v.Some? then 1 else 0;
    }
  }
}
