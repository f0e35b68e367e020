# A verified model of map.c, an open-addressing string map

map.c implements a hash map from NUL-terminated C strings to opaque `void *` values. A `Map` holds:

- two parallel arrays of `cap` slots, `keys` and `values`;
- a capacity `cap`;
- a size counter `size`.

The map works like this:

- A key is hashed with djb2, which computes `h * 33 + c` over the key's bytes in 64-bit unsigned arithmetic, starting from 5381. `map_index` probes linearly from `hash % cap` until it reaches an empty slot or a slot whose key compares equal under `strcmp_`.
- `map_set` first calls `resize`. That call doubles the capacity when `size >= cap * 0.6`, re-probing the old slots into fresh arrays. `map_set` then writes the pair at the probed slot and increments `size`.
- `map_del` clears the probed slot when both its key and its value are non-NULL, and leaves no tombstone.
- `map_get` returns the value at the probed slot.
- `map_in` reports whether that value is non-NULL.
- `map_size` returns the counter.

The model has these layers:

- `CStrings` models `strcmp_` and `Djb2Hash` models `hash`. Each has a function that specifies it and a method with the source's loop proved against that function.
- `Probing` gives the slot `map_index` returns as a function, `Probe`, over the key slots.
- `Tables` models the map's state as a value, `Table(keys, values, size)`, with one function per operation: `Empty`, `Put`, `Remove`, `Lookup` and `Grow`. It also defines the invariant `Inv` that every operation keeps.
- `TableProperties` defines what the map stores for a key (`Stored`) and a well-formedness predicate: every probe chain is intact and no key is held twice. It proves how set, delete, get and resize act on both.
- `SetHistories` proves that after any sequence of sets, each key stores the value it was last set to, across any number of resizes.
- `Quirks` shows, on concrete one-byte keys, the behaviours the source has that a reader of its interface would not expect.
- `ProbingMap.Map` is the `Map` struct as a class over two arrays. On the abstract `Table`, its state-changing methods `Resize`, `Set`, `Del` and `Place` are proved equal to `Grow`, `Put`, `Remove` and `Insert`. `Index` is proved equal to `Probe`, and `Get` to `Lookup`.

Keys are byte sequences with no zero byte; a NULL key is outside the model. Values are `Option<V>`, where `None` stands for NULL.

### Behaviour of map.c a caller may not expect

- **How the probe loop gives up.** After each step, the loop in `map_index` breaks when `cap == size` (map.c:130). Suppose the counter equals the capacity and the start slot is neither empty nor holds the key. The probe then returns the slot after the start slot, and that slot may hold a different key.
- **A full table is reachable.** The 60% trigger is tested only before an insertion. A capacity of 1 or 2 can therefore fill up: with `map_new(2)`, setting "a" and then "b" leaves `size == cap == 2`. `map_get("c")` then returns the value of "b", and `map_del("c")` deletes "b" (`Quirks.FullTableProbeMisses`). For capacities of 3 or more, the invariant keeps `size < cap`.
- **A key with a NULL value.** `map_set(k, NULL)` stores a key with a NULL value. A slot therefore does not always hold either both or neither. `map_del` does not clear such a slot (map.c:75). `resize` does not copy it, because it copies only slots where both are non-NULL (map.c:155).
- **The size counter.** `size` counts calls to set minus successful deletes, not keys held. It is never below the number of occupied slots (`Inv`).

## Model

| member | source | states |
|---|---|---|
| CStrings.Compare | map.c:16-25 | the result lies in -255..255 and is zero exactly when the two strings are equal |
| CStrings.Strcmp | map.c:16-25 | the loop that advances both pointers while the bytes agree and are not NUL returns `Compare` of the two strings |
| CStrings.CompareAntisymmetric | map.c:16-25 | swapping the arguments negates the result |
| CStrings.CompareFirstMismatch | map.c:18-24 | the result is the difference of the first differing bytes, or of the terminating NUL and the other string's byte |
| Djb2Hash.Hash | map.c:110-120 | the loop with the shift-and-add step returns `Djb2` of the key: the fold of `h * 33 + c` over the key's bytes from 5381, modulo 2^64 |
| Djb2Hash.ShiftAddIsStep | map.c:116 | `(h << 5) + h + c` in 64-bit unsigned arithmetic equals `(h * 33 + c) mod 2^64` |
| Djb2Hash.Djb2IsPolyModWord | map.c:110-120 | the fold reduced at each step equals the unreduced polynomial `5381 * 33^n + sum c_i * 33^(n-1-i)` reduced once |
| Probing.Start | map.c:126 | the start slot is `Djb2` of the key reduced modulo the capacity, and lies within the table |
| Probing.FirstStop | map.c:128-129 | the first offset, at or after a given one, whose slot is empty or holds the key, with every earlier slot neither |
| Probing.Probe | map.c:122-136 | the returned slot is in range; it is the start slot when that stops the loop; when `size != cap` it is the first empty or matching slot from the start slot; when `size == cap` and the start slot does not stop, it is the slot after it |
| Probing.ProbeIsFirstStop | map.c:128-133 | when `size != cap`, any empty or matching slot with no such slot before it in the probe order is exactly the slot returned |
| Tables.SizeBound | map.c:142 | under the invariant the counter never exceeds the capacity, and equals it only for capacities of at most 2 |
| Tables.ProbeEndsFromInv | map.c:128-133 | under the invariant every probe loop terminates: an empty slot exists, or the `size == cap` break applies |
| Tables.Empty | map.c:27-37 | the table `map_new` builds satisfies the invariant |
| Tables.Insert | map.c:62-65 | writing at the probed slot keeps the array lengths and the counter, and occupies at most one more slot |
| Tables.Rehash | map.c:148-161 | the arrays built so far have the new capacity, keep the counter, hold no more keys than the copied prefix, and have no value without a key |
| Tables.RehashHasRoom | map.c:151-156 | while the old slots are copied, the new arrays always have an empty slot, so each re-probe terminates |
| Tables.Grow | map.c:138-168 | `resize` keeps the invariant and the counter; afterwards `5 * size < 3 * cap`; below the trigger the table is unchanged, and at or above it the capacity doubles |
| Tables.Put | map.c:56-67 | `map_set` keeps the invariant and raises the counter by one, even when the key was already present |
| Tables.Remove | map.c:69-80 | `map_del` keeps the invariant |
| Tables.Lookup | map.c:82-93 | `map_get` returns NULL when the probed slot is empty, and a non-NULL result is a value the table holds in some occupied slot |
| TableProperties.StoredAbsent | map.c:151-161 | a key held by no slot with a non-NULL value stores NULL |
| TableProperties.StoredAt | map.c:82-93 | in a table where no key is held twice, the value stored for a key is the value in the slot holding it |
| TableProperties.ProbeFindsKey | map.c:122-136 | in a well-formed table, the probe for a key that is present returns the slot holding it (with `size != cap`, or a capacity of at most 2) |
| TableProperties.InsertStored | map.c:62-65 | writing at the probed slot keeps the table well formed, sets the stored value of the key, and leaves every other key's stored value unchanged |
| TableProperties.RehashStored | map.c:151-161 | the copy loop yields a well-formed table that stores, for every key, what the copied old slots stored |
| TableProperties.RehashHolds | map.c:151-161 | after the copy loop, the new arrays hold exactly the keys of the copied old slots whose value is non-NULL; a key held with a NULL value is dropped |
| TableProperties.GrowStored | map.c:138-168 | `resize` leaves every key's stored value unchanged; when it rehashes, the result is well formed whatever the old table was, and holds exactly the old keys whose value is non-NULL |
| TableProperties.PutStored | map.c:56-67 | on a well-formed table, `map_set` stores the new value for the key, leaves every other key unchanged, and keeps the table well formed |
| TableProperties.PutThenLookup | map.c:56-67 | `map_get` right after `map_set(k, v)` returns `v`, on every table the operations can reach |
| TableProperties.LookupStored | map.c:82-93 | on a well-formed table, `map_get` returns the key's stored value, unless the table is full and does not hold the key |
| TableProperties.RemoveStored | map.c:69-80 | on a well-formed table that is not full or holds the key, after `map_del` the key stores NULL, other keys are unchanged, and the counter drops by one exactly when the key stored a value |
| TableProperties.RemoveAbsent | map.c:69-80 | `map_del` of a key that no slot holds changes nothing on a table that is not full |
| TableProperties.RemoveIdempotent | map.c:69-80 | a second `map_del` of the same key changes nothing |
| TableProperties.RemoveThenLookup | map.c:69-93 | `map_get` right after `map_del` of the same key returns NULL, on every table the operations can reach |
| TableProperties.EmptyStored | map.c:27-37 | a new map is well formed, stores nothing, and `map_get` on it returns NULL |
| SetHistories.AfterSets | map.c:56-67 | after `map_new(n)` and a sequence of sets, the invariant holds and the counter equals the number of sets |
| SetHistories.AfterSetsStored | map.c:56-67 | after a sequence of sets, the table is well formed and stores, for each key, the value it was last set to, however many resizes happened on the way |
| SetHistories.AfterSetsLookup | map.c:82-93 | after a sequence of sets, `map_get` returns the value a key was last set to, and NULL for a key never set, except when a full table is probed for a key it does not hold |
| Quirks.Hashes | map.c:110-120 | djb2 of "a", "b", "c" and "e" is 177670, 177671, 177672 and 177674 |
| Quirks.OverwriteCountsTwice | map.c:66 | setting "a" twice on `map_new(4)` leaves the counter at 2 with one slot occupied, and `map_get("a")` returns the second value |
| Quirks.CollidingPair | map.c:128-129 | on `map_new(4)`, "a" lands in slot 2 and "e", which also starts at slot 2, in slot 3 |
| Quirks.DeleteBreaksProbeChain | map.c:75-78 | deleting "a" leaves "e" stored in slot 3, yet `map_get("e")` stops at the emptied slot 2 and returns NULL, and the table is no longer well formed |
| Quirks.FilledPair | map.c:142 | on `map_new(2)`, setting "a" and then "b" triggers no resize and fills both slots |
| Quirks.FullTableProbeMisses | map.c:130-131 | on that full table, "c" stores nothing, yet `map_get("c")` returns the value of "b", and `map_del("c")` removes "b" |
| ProbingMap.Map.constructor | map.c:27-37 | both arrays are NULL-filled, the capacity is as given, the counter is 0, and the state is `Empty` |
| ProbingMap.Map.Index | map.c:122-136 | the probe loop over an array returns `Probe` of its contents |
| ProbingMap.Map.Place | map.c:62-65 | writing the pair at the probed slot of two arrays produces `Insert` of their old contents |
| ProbingMap.Map.Resize | map.c:138-168 | the new state is `Grow` of the old one; the arrays are kept or freshly allocated |
| ProbingMap.Map.Set | map.c:56-67 | the new state is `Put` of the old one |
| ProbingMap.Map.Del | map.c:69-80 | the new state is `Remove` of the old one |
| ProbingMap.Map.Get | map.c:82-93 | the result is `Lookup` of the state, the value at the probed slot |
| ProbingMap.Map.Size | map.c:95-100 | the result is the counter, which is never below the number of occupied slots |
| ProbingMap.Map.In | map.c:102-107 | the result is 0 or 1, and is 1 exactly when `map_get` returns a non-NULL value |

## Left out

- `map_free` (map.c:39-54) only releases memory. The model has no deallocation.
- A failing `calloc` is not modelled. Allocation always succeeds.
- The `assert(map != NULL)` checks are not modelled. A `Map` object always exists.
- Pointer identity is not modelled. The map stores the caller's key pointer, not a copy, and the model stores the key's bytes. A caller that later changes the string through that pointer changes the stored key; the model does not capture that aliasing.
- The `double` trigger `size < cap * 0.6` is modelled in integers, as `5 * size < 3 * cap`. The two agree for every `int` size and capacity: whenever the comparison is strict, the gap between `size` and `0.6 * cap` is at least 1/5, far above the rounding error of the `double` product, and when the gap is zero that product rounds to exactly `3 * cap / 5`.
- 32-bit `int` overflow is not modelled. This covers `cap * 2` in `resize`, `size++` in `map_set`, and an `int` index computed from a capacity above `INT_MAX`. The capacity and the counter are unbounded integers.
- `unsigned long` is taken to be 64 bits wide, as on LP64 platforms. The hash is computed modulo 2^64.
- ProbingMap.Map.constructor: requires `initialSize > 0`. With 0, the first probe computes `hash % 0` (map.c:126). With a negative size, the allocations fail (map.c:31-32) and the probe reads a NULL `keys` array (map.c:128).
- ProbingMap.Map.Index: requires that the probe loop terminates (an empty slot exists, or `size == cap`). The invariant guarantees this for every reachable state. On other states the source loops forever.
- TableProperties.LookupStored: does not claim `map_get` returns the stored value when the table is full and does not hold the key. In that case the source returns another key's value (`Quirks.FullTableProbeMisses`).
- TableProperties.RemoveStored: requires a table that is not full or holds the key, for the same reason. On a full table without the key, `map_del` can remove another key.
- A NULL key is not modelled. `map_set`, `map_get` and `map_del` with a NULL key dereference it in `hash` (map.c:115), which is undefined behaviour. The `Key` type holds only real strings.
- map.h is not part of this model. The fields of `ProbingMap.Map` are inferred from their use in map.c.
