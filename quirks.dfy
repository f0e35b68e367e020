/** Behaviour of map.c that differs from what a reader of its interface would expect, shown on
    concrete one-byte keys. Each lemma follows the source as written. */
module Quirks {
  import opened Options
  import opened Djb2Hash
  import opened Probing
  import opened Tables
  import opened TableProperties

  /** The keys "a", "b", "c" and "e"; their djb2 hashes are 177670, 177671, 177672 and 177674. */
  const KeyA: Key := [97]
  const KeyB: Key := [98]
  const KeyC: Key := [99]
  const KeyE: Key := [101]

  lemma Hashes()
    ensures Djb2(KeyA) == 177670 && Djb2(KeyB) == 177671
    ensures Djb2(KeyC) == 177672 && Djb2(KeyE) == 177674
  {
    assert KeyA[..0] == [] && KeyB[..0] == [] && KeyC[..0] == [] && KeyE[..0] == [];
  }

  /** Setting a key that is already there counts it again: after `map_set("a", 1)` and
      `map_set("a", 2)` on `map_new(4)` the size counter is 2 while one slot holds a key. */
  lemma OverwriteCountsTwice()
    ensures var t := Put(Put(Empty<int>(4), KeyA, Some(1)), KeyA, Some(2));
      t.size == 2 && Occupied(t.keys) == 1 && Lookup(t, KeyA) == Some(2)
  {
    Hashes();
    var t0 := Empty<int>(4);
    var t1 := Put(t0, KeyA, Some(1));
    assert Probe(t0.keys, KeyA, 0) == 2;
    assert t1.keys == Nulls(4)[2 := Some(KeyA)];
    OccupiedNone(4);
    OccupiedUpdate(Nulls(4), 2, Some(KeyA));
    assert Probe(t1.keys, KeyA, 1) == 2;
    PutThenLookup(t1, KeyA, Some(2));
  }

  /** On `map_new(4)`, "a" and "e" both start at slot 2, so "e" lands in slot 3. */
  lemma CollidingPair()
    ensures Put(Put(Empty<int>(4), KeyA, Some(1)), KeyE, Some(5)) ==
      Table([None, None, Some(KeyA), Some(KeyE)], [None, None, Some(1), Some(5)], 2)
  {
    Hashes();
    var t0 := Empty<int>(4);
    var t1 := Put(t0, KeyA, Some(1));
    assert Probe(t0.keys, KeyA, 0) == 2;
    assert t1.keys == Nulls(4)[2 := Some(KeyA)];
    OccupiedNone(4);
    OccupiedUpdate(Nulls(4), 2, Some(KeyA));
    assert Grow(t1) == t1;
    ProbeIsFirstStop(t1.keys, KeyE, 1, 3);
  }

  /** Deleting clears a slot without a tombstone, which cuts the probe chain of a later key
      that collided with it: after `map_del("a")` the map still stores "e" in slot 3, but
      `map_get("e")` stops at the emptied slot 2 and returns NULL. */
  lemma DeleteBreaksProbeChain()
    ensures var t := Remove(Put(Put(Empty<int>(4), KeyA, Some(1)), KeyE, Some(5)), KeyA);
      Stored(t, KeyE) == Some(5) && Lookup(t, KeyE) == None && !WellFormed(t)
  {
    Hashes();
    CollidingPair();
    var t2 := Table([None, None, Some(KeyA), Some(KeyE)], [None, None, Some(1), Some(5)], 2);
    assert Probe(t2.keys, KeyA, 2) == 2;
    var t := Remove(t2, KeyA);
    assert t == Table([None, None, None, Some(KeyE)], [None, None, None, Some(5)], 1);
    assert Probe(t.keys, KeyE, 1) == 2;
    assert !ChainTo(t.keys, 3);
  }

  /** On `map_new(2)`, "a" goes to slot 0 and "b" to slot 1, and no resize happens: the table
      is full and its size counter equals its capacity. */
  lemma FilledPair()
    ensures Put(Put(Empty<int>(2), KeyA, Some(1)), KeyB, Some(2)) ==
      Table([Some(KeyA), Some(KeyB)], [Some(1), Some(2)], 2)
  {
    Hashes();
    var t0 := Empty<int>(2);
    var t1 := Put(t0, KeyA, Some(1));
    assert Probe(t0.keys, KeyA, 0) == 0;
    assert t1.keys == Nulls(2)[0 := Some(KeyA)];
    OccupiedNone(2);
    OccupiedUpdate(Nulls(2), 0, Some(KeyA));
    assert Grow(t1) == t1;
    assert Probe(t1.keys, KeyB, 1) == 1;
  }

  /** With capacity 2 the 60% trigger lets the table fill up (`map_set` resizes only before
      inserting, and 1 < 2 * 0.6). Then a probe for a key the table does not hold breaks after
      one step on another key's slot: on `map_new(2)` after setting "a" and "b",
      `map_get("c")` returns the value of "b", and `map_del("c")` deletes "b". */
  lemma FullTableProbeMisses()
    ensures var t := Put(Put(Empty<int>(2), KeyA, Some(1)), KeyB, Some(2));
      t.size == |t.keys| == 2 && Stored(t, KeyC) == None && Lookup(t, KeyC) == Some(2) &&
      Stored(t, KeyB) == Some(2) && Stored(Remove(t, KeyC), KeyB) == None
  {
    Hashes();
    FilledPair();
    var t := Table([Some(KeyA), Some(KeyB)], [Some(1), Some(2)], 2);
    assert Probe(t.keys, KeyC, 2) == 1;
    var r := Remove(t, KeyC);
    assert r.keys == [Some(KeyA), None] && r.values == [Some(1), None];
    StoredAbsent(r.keys, r.values, KeyB, 2);
  }
}
