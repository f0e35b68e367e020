/** The probe sequence of `map_index`, as functions over the key slots. */
module Probing {
  import opened Options
  import opened CStrings
  import opened Djb2Hash

  type Key = CString

  /** The key array: each slot empty (NULL) or holding a key. */
  type Slots = seq<Option<Key>>

  /** The slot probing starts at: the hash reduced modulo the capacity. */
  function Start(key: Key, cap: nat): (s: nat)
    requires cap > 0
    ensures s < cap
  {
    Djb2(key) % cap
  }

  /** The slot `e` steps after slot `s`, wrapping around at `cap`. */
  function Slot(s: nat, e: nat, cap: nat): (p: nat)
    requires s < cap && e < cap
    ensures p < cap
  {
    if s + e < cap then s + e else s + e - cap
  }

  /** How many steps after slot `s` slot `p` comes. */
  function Offset(s: nat, p: nat, cap: nat): (e: nat)
    requires s < cap && p < cap
    ensures e < cap && Slot(s, e, cap) == p
    ensures forall d :: 0 <= d < cap && Slot(s, d, cap) == p ==> d == e
  {
    if s <= p then p - s else p + cap - s
  }

  /** Stepping once with `(i + 1) % cap` moves one offset further. */
  lemma NextSlot(s: nat, e: nat, cap: nat)
    requires s < cap && e + 1 < cap
    ensures (Slot(s, e, cap) + 1) % cap == Slot(s, e + 1, cap)
  {
    var i := Slot(s, e, cap);
    if i + 1 == cap {
      assert (i + 1) % cap == 0;
    } else {
      assert (i + 1) % cap == i + 1;
    }
  }

  /** The probe loop stops at a slot that is empty or holds a key byte-equal to `key`. */
  predicate Stops(k: Option<Key>, key: Key)
  {
    k.None? || k.value == key
  }

  /** The probe loop ends: either it breaks after one step because the size counter equals the
      capacity, or some slot stops it. */
  predicate ProbeEnds(keys: Slots, key: Key, size: int)
  {
    |keys| > 0 && (size == |keys| || exists p :: 0 <= p < |keys| && Stops(keys[p], key))
  }

  /** The first offset at or after `e` whose slot stops the probe. */
  function FirstStop(keys: Slots, key: Key, s: nat, e: nat): (r: nat)
    requires s < |keys| && e < |keys|
    requires exists p :: 0 <= p < |keys| && e <= Offset(s, p, |keys|) && Stops(keys[p], key)
    ensures e <= r < |keys| && Stops(keys[Slot(s, r, |keys|)], key)
    ensures forall d :: e <= d < r ==> !Stops(keys[Slot(s, d, |keys|)], key)
    decreases |keys| - e
  {
    if Stops(keys[Slot(s, e, |keys|)], key) then e
    else
      var p :| 0 <= p < |keys| && e <= Offset(s, p, |keys|) && Stops(keys[p], key);
      assert e + 1 <= Offset(s, p, |keys|);
      FirstStop(keys, key, s, e + 1)
  }

  /** The slot `map_index` returns. When the size counter differs from the capacity it is the
      first slot, probing forward from the start slot, that is empty or holds `key`; otherwise
      the loop breaks after its first step. */
  function Probe(keys: Slots, key: Key, size: int): (i: nat)
    requires ProbeEnds(keys, key, size)
    ensures i < |keys|
    ensures Stops(keys[Start(key, |keys|)], key) ==> i == Start(key, |keys|)
    ensures size != |keys| ==> Stops(keys[i], key)
    ensures size != |keys| ==>
      forall d :: 0 <= d < Offset(Start(key, |keys|), i, |keys|) ==>
        !Stops(keys[Slot(Start(key, |keys|), d, |keys|)], key)
    ensures size == |keys| && |keys| > 1 && !Stops(keys[Start(key, |keys|)], key) ==>
      Offset(Start(key, |keys|), i, |keys|) == 1
  {
    var s := Start(key, |keys|);
    if Stops(keys[s], key) then s
    else if size == |keys| then
      if |keys| > 1 then NextSlot(s, 0, |keys|); (s + 1) % |keys| else (s + 1) % |keys|
    else
      var p :| 0 <= p < |keys| && Stops(keys[p], key);
      assert Offset(s, p, |keys|) != 0;
      Slot(s, FirstStop(keys, key, s, 1), |keys|)
  }

  /** A stopping slot with only non-stopping slots before it (from the start slot) is the one
      the probe returns, whenever the size counter differs from the capacity. */
  lemma ProbeIsFirstStop(keys: Slots, key: Key, size: int, j: nat)
    requires |keys| > 0 && size != |keys| && j < |keys| && Stops(keys[j], key)
    requires forall d :: 0 <= d < Offset(Start(key, |keys|), j, |keys|) ==>
      !Stops(keys[Slot(Start(key, |keys|), d, |keys|)], key)
    ensures ProbeEnds(keys, key, size) && Probe(keys, key, size) == j
  {
    var n, s := |keys|, Start(key, |keys|);
    var i := Probe(keys, key, size);
    var oi, oj := Offset(s, i, n), Offset(s, j, n);
    assert keys[Slot(s, oi, n)] == keys[i] && keys[Slot(s, oj, n)] == keys[j];
    assert oi == oj;
  }
}
