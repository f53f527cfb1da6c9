# A separate-chaining hash table, modelled and verified in Dafny

This project models `src/HashTable.java`, a generic hash table `HashTable<K, V>`
that resolves collisions by separate chaining. It has two layers.

- **The bucket.** The private nested class `SequentialSearchSymbolTable` keeps
  two parallel `ArrayList`s, `keySet` and `valueSet`, and a counter `size`.
  - Lookup is a linear scan (`contains`, `indexOf`).
  - `put` ignores a null key or a null value. It overwrites the value of a
    present key in place and appends an absent one.
  - `delete` copies the slot at position `size - 1` over the deleted slot and
    nulls slot `size - 1`. The lists never shrink, so null "holes" pile up and
    slot `size - 1` need not be the last live slot.
- **The table.** A fixed list of `capacity` buckets is built by the
  constructor.
  - `get`, `put` and `delete` go to the bucket `calcIndex(key) =
    Math.abs(key.hashCode() % capacity)`.
  - `getSize` adds up the bucket sizes.
  - `clear` clears every bucket.

The model keeps the source's form:

- Both layers are classes whose methods update their fields in place.
- Java's null is `None` of an `Option`.
- A bucket's lists are `seq<Option<K>>` and `seq<Option<V>>`. The abstraction
  function `SymbolTable.Abstract` maps them to the finite map they stand for.
  Every bucket operation is proved to refine the matching map operation, holes
  included. In particular, `delete`'s use of slot `size - 1` is correct even
  when that slot is already a null hole and live keys lie to its right.
- The table stands for the union (`HashTables.Merge`) of its buckets' maps. The
  invariant `Homed` says every key sits in the bucket its hash selects. From it
  follow three facts:
  - a lookup in the key's own bucket is a lookup in the whole table;
  - a change to that bucket is the same change to the whole map;
  - the bucket sizes add up to the number of keys.
- Java's truncating `%` and overflowing `Math.abs` on 32-bit `int` are written
  out in `JavaInt`.

Files:

- `wrappers.dfy`: `Option`.
- `java_int.dfy`: `int`, `%` and `Math.abs`.
- `symbol_table.dfy`: the bucket.
- `hash_table.dfy`: the table.
- `scenario.dfy`: the operation sequence of `main` and a collision, as
  verified clients of the table.

## Model

| member | source | states |
|---|---|---|
| JavaInt.Rem | src/HashTable.java:211 | Java's `%`: the remainder has magnitude \|a\| mod \|b\|, below \|b\|, and is zero or has the dividend's sign |
| JavaInt.Wrap | src/HashTable.java:211 | narrowing to `int`: in-range values are kept, and every result is congruent to its input modulo 2^32 |
| JavaInt.MathAbs | src/HashTable.java:211 | `Math.abs`: negation in 32 bits, so the absolute value except that `Integer.MIN_VALUE` is returned unchanged |
| HashTables.CalcIndex | src/HashTable.java:210-212 | for capacity > 0 and every 32-bit hash, the index lies in [0, capacity) |
| HashTables.CalcIndexIsAbsMod | src/HashTable.java:210-212 | the index equals \|hash\| mod capacity, so `Math.abs` never meets `Integer.MIN_VALUE` |
| SymbolTable.IndexOf | src/HashTable.java:67-70 | `indexOf`: -1 exactly when the key is in no slot; otherwise a slot holding the key with no earlier slot holding it |
| SymbolTable.CountLive | src/HashTable.java:37 | the number of non-null key slots is at most the list length |
| SymbolTable.WellFormedSlots | src/HashTable.java:35-37 | the recursive invariant is equivalent to: equal lengths, a key slot is null exactly when its value slot is, and live keys are pairwise distinct |
| SymbolTable.AbstractHas | src/HashTable.java:88-93 | every key of the abstract map sits in some slot of `keySet` |
| SymbolTable.AbstractSlot | src/HashTable.java:88-93 | every live slot is an entry of the abstract map, with that slot's value |
| SymbolTable.AbstractUnique | src/HashTable.java:35-36 | a map that agrees with the lists slot by slot, in both directions, is their abstraction |
| SymbolTable.CountLiveIsSize | src/HashTable.java:100-102 | the number of live slots is the number of entries of the abstract map |
| SymbolTable.CountLiveUpdate | src/HashTable.java:71-75 | overwriting one slot changes the live count by the difference of the old and new slot's weight |
| SymbolTable.MoveLast | src/HashTable.java:71-74 | the list after `delete`'s two `set` calls: slot `size - 1` is null, the found slot holds what slot `size - 1` held, every other slot is unchanged |
| SymbolTable.FoundMeansLive | src/HashTable.java:67-71 | a found key means at least one live slot, so `size - 1` is a valid index |
| SymbolTable.DeleteKeepsInvariant | src/HashTable.java:71-75 | moving slot `last` over a live slot keeps the invariant and lowers the live count by exactly one |
| SymbolTable.DeleteRemovesKey | src/HashTable.java:71-74 | after the move, the abstract map is the old one without the deleted key |
| SymbolTable.DeleteRefines | src/HashTable.java:66-78 | `delete` of a present key keeps the invariant, makes `size` one less and removes exactly that key, even when slot `size - 1` is a hole and live keys lie to its right |
| SymbolTable.OverwriteRefines | src/HashTable.java:116-117 | overwriting the value in the key's slot keeps the invariant and updates the abstract map at that key only |
| SymbolTable.AppendRefines | src/HashTable.java:118-121 | appending an absent key and its value keeps the invariant, raises the live count by one and adds the entry to the map |
| SymbolTable.IndexOfAppended | src/HashTable.java:119-120 | a key appended to a list lacking it is found at the new last position, where `valueSet.add(indexOf(key), value)` inserts |
| SymbolTable.SequentialSearchSymbolTable.constructor | src/HashTable.java:42-46 | a new bucket is valid and empty |
| SymbolTable.SequentialSearchSymbolTable.Clear | src/HashTable.java:51-55 | `clear` leaves a valid, empty bucket |
| SymbolTable.SequentialSearchSymbolTable.Delete | src/HashTable.java:66-78 | answers whether the key was present; the map loses exactly that key; `size` drops by one only when it was present; otherwise nothing changes |
| SymbolTable.SequentialSearchSymbolTable.Get | src/HashTable.java:88-93 | the value the map gives the key, or null when the key is absent |
| SymbolTable.SequentialSearchSymbolTable.GetSize | src/HashTable.java:100-102 | the counter equals the number of entries of the map |
| SymbolTable.SequentialSearchSymbolTable.Put | src/HashTable.java:113-123 | with a non-null key and value, the map is updated at that key and `size` grows by one exactly when the key was absent; with a null key or value the bucket is unchanged |
| HashTables.TotalSizeStep | src/HashTable.java:183-185 | one more loop step adds the next bucket's size to the running total |
| HashTables.MergeLookup | src/HashTable.java:171-173 | with every key in its own bucket, a key is in the table exactly when it is in bucket `calcIndex(key)`, with that bucket's value |
| HashTables.MergeSize | src/HashTable.java:181-187 | with every key in its own bucket, the bucket sizes add up to the number of keys in the table |
| HashTables.EmptyBuckets | src/HashTable.java:136-138 | `n` empty buckets |
| HashTables.MergeEmpty | src/HashTable.java:144-148 | all-empty buckets make an empty table |
| HashTables.HomedReplace | src/HashTable.java:199-201 | replacing a bucket by a map whose keys all hash to it keeps every key in its own bucket |
| HashTables.MergeInsert | src/HashTable.java:199-201 | putting a key into its own bucket puts it into the table and leaves every other key alone |
| HashTables.MergeRemove | src/HashTable.java:158-161 | deleting a key from its own bucket deletes it from the table and leaves every other key alone |
| HashTables.HashTable.constructor | src/HashTable.java:133-139 | `tableSize` fresh, distinct, empty buckets; the table is valid and its map empty |
| HashTables.HashTable.Clear | src/HashTable.java:144-148 | after clearing every bucket the table is valid and its map empty |
| HashTables.HashTable.Delete | src/HashTable.java:158-161 | answers whether the key was in the table; the map loses exactly that key; only the key's own bucket is modified |
| HashTables.HashTable.Get | src/HashTable.java:171-173 | the value the table's map gives the key, or null when absent; the table is unchanged |
| HashTables.HashTable.GetSize | src/HashTable.java:181-187 | the loop's total is the number of keys in the table |
| HashTables.HashTable.Put | src/HashTable.java:199-201 | with a non-null value the map is updated at that key; a null value leaves it unchanged; only the key's own bucket is modified |
| Scenario.FourEntries | src/HashTable.java:222-227 | the map of four puts of distinct keys has four entries |
| Scenario.AfterCollision | src/HashTable.java:158-173 | with two distinct keys in one bucket, deleting the first leaves the second with its value and the size at 1 |
| Scenario.FreshTable | src/HashTable.java:133-139 | a new table has size 0 and maps every key to null |
| Scenario.Filled | src/HashTable.java:216-225 | the table `main` builds with four puts holds exactly those four entries |
| Scenario.PutsThenGets | src/HashTable.java:227-231 | on the table of four puts, `main`'s size is 4 and its four gets return the four values put (24, 48, 128, 89) |
| Scenario.DeletesThenOverwrite | src/HashTable.java:232-236 | on the table of four puts, `main`'s deletes answer true and false, and the overwritten key then maps to the new value (84) |
| Scenario.ClearThenGets | src/HashTable.java:237-241 | on any valid table, after `main`'s clear the size is 0 and the three gets return null |
| Scenario.MainScenario | src/HashTable.java:216-241 | `main`'s whole sequence on one table: size 4, the four values, deletes answering true then false, the overwritten value, then size 0 and three nulls after the clear |
| Scenario.CollidingKeys | src/HashTable.java:158-173 | two distinct keys with the same index share a bucket without interfering |

## Left out

- `src/Animalpedia.java` is not part of this model. It reads a file and the console, prints, and only uses the table through its public methods.
- The printing in `main` (src/HashTable.java:215-270) is left out. Its operation sequence is verified in `Scenario.MainScenario`, on one table, stage after stage. The string keys are pairwise distinct parameters, and the integer values are parameters too. The second, `<String, String>` run repeats the same sequence.
- `String.hashCode` and `Object.equals` internals are left out. The hash is a function `K -> Int32` given to the constructor, and key equality is Dafny equality on `K`.
- A null key at table level is not modelled: `calcIndex` calls `key.hashCode()` and throws `NullPointerException`, so table methods take a non-null `K`.
- Bucket `get` and `delete` take non-null keys only, because the table never passes them a null key.
- `HashTables.HashTable.constructor` requires `tableSize > 0` and has no error path. The code has no check: a zero capacity makes `calcIndex` divide by zero later, and a negative one makes the `ArrayList` constructor throw.
- `HashTables.HashTable.GetSize` sums with unbounded integers. Java's 32-bit `int` total, and each bucket's `size`, would wrap after 2^31 - 1 entries.
- `ArrayList` growth and capacity hints are left out. Lists are sequences, and `table` is a constant sequence of bucket objects that the constructor fills once.
- Concurrency is left out: the source is single-threaded.
