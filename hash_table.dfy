/**
 * The hash table of src/HashTable.java: a fixed list of `capacity` buckets,
 * created empty by the constructor. Every operation on a key goes to the one
 * bucket `calcIndex(key)` selects; the size is the sum of the bucket sizes.
 *
 * The table stands for the union of its buckets' maps (`Merge`). Because every
 * key sits in the bucket its hash selects (`Homed`), that union is disjoint,
 * a key is found by looking in its own bucket only, and the sum of the bucket
 * sizes is the number of keys in the table.
 */
module HashTables {
  import opened Wrappers
  import opened JavaInt
  import opened SymbolTable

  /**
   * `calcIndex`: `Math.abs(key.hashCode() % capacity)` with Java's truncating
   * `%` and overflowing `Math.abs`. The remainder is smaller than `capacity`
   * in magnitude, so `Math.abs` never meets `Integer.MIN_VALUE` and the index
   * is the non-negative reduction |hash| mod capacity.
   */
  function CalcIndex(h: Int32, capacity: Int32): (r: int)
    requires capacity > 0
    ensures 0 <= r < capacity
  {
    MathAbs(Rem(h, capacity))
  }

  /** The index is |hash| mod capacity, a reduction that is never negative. */
  lemma CalcIndexIsAbsMod(h: Int32, capacity: Int32)
    requires capacity > 0
    ensures CalcIndex(h, capacity) == Abs(h) % capacity
  {
  }

  /** The map a list of buckets stands for: the union of the buckets' maps. */
  function Merge<K, V>(ms: seq<map<K, V>>): map<K, V>
  {
    if |ms| == 0 then map[] else Merge(ms[..|ms| - 1]) + ms[|ms| - 1]
  }

  /** The sum of the bucket sizes, as `getSize` adds them up. */
  function TotalSize<K, V>(ms: seq<map<K, V>>): nat
  {
    if |ms| == 0 then 0 else TotalSize(ms[..|ms| - 1]) + |ms[|ms| - 1]|
  }

  /** Adding one more bucket to the prefix adds its size to the total. */
  lemma TotalSizeStep<K, V>(ms: seq<map<K, V>>, i: int)
    requires 0 <= i < |ms|
    ensures TotalSize(ms[..i + 1]) == TotalSize(ms[..i]) + |ms[i]|
  {
    assert ms[..i + 1][..i] == ms[..i];
  }

  /** Every key of bucket `i` is one whose `calcIndex` is `i`. */
  ghost predicate Homed<K, V>(ms: seq<map<K, V>>, hash: K -> Int32, capacity: Int32)
    requires capacity > 0
  {
    forall i, k :: 0 <= i < |ms| && k in ms[i] ==> CalcIndex(hash(k), capacity) == i
  }

  /**
   * When keys live in their own buckets, a key is in the table exactly when it
   * is in its own bucket, with that bucket's value.
   */
  lemma {:induction false} MergeLookup<K, V>(ms: seq<map<K, V>>, hash: K -> Int32, capacity: Int32, k: K)
    requires capacity > 0
    requires Homed(ms, hash, capacity)
    ensures var i := CalcIndex(hash(k), capacity);
            && (k in Merge(ms) <==> 0 <= i < |ms| && k in ms[i])
            && (k in Merge(ms) ==> Merge(ms)[k] == ms[i][k])
  {
    if |ms| > 0 {
      var p := ms[..|ms| - 1];
      assert Homed(p, hash, capacity);
      MergeLookup(p, hash, capacity, k);
    }
  }

  /** When keys live in their own buckets, the bucket sizes add up to the number of keys. */
  lemma {:induction false} MergeSize<K, V>(ms: seq<map<K, V>>, hash: K -> Int32, capacity: Int32)
    requires capacity > 0
    requires Homed(ms, hash, capacity)
    ensures |Merge(ms)| == TotalSize(ms)
  {
    if |ms| > 0 {
      var p, last := ms[..|ms| - 1], ms[|ms| - 1];
      assert Homed(p, hash, capacity);
      MergeSize(p, hash, capacity);
      forall k | k in last ensures k !in Merge(p) {
        MergeLookup(p, hash, capacity, k);
      }
      assert (Merge(p) + last).Keys == Merge(p).Keys + last.Keys;
    }
  }

  /** `n` empty buckets. */
  ghost function EmptyBuckets<K, V>(n: nat): (ms: seq<map<K, V>>)
    ensures |ms| == n
    ensures forall i :: 0 <= i < n ==> ms[i] == map[]
  {
    if n == 0 then [] else EmptyBuckets(n - 1) + [map[]]
  }

  /** Buckets that are all empty make an empty table. */
  lemma {:induction false} MergeEmpty<K, V>(ms: seq<map<K, V>>)
    requires forall i :: 0 <= i < |ms| ==> ms[i] == map[]
    ensures Merge(ms) == map[]
  {
    if |ms| > 0 {
      MergeEmpty(ms[..|ms| - 1]);
    }
  }

  /** Replacing bucket `i` by a map whose keys all have index `i` keeps every key in its own bucket. */
  lemma HomedReplace<K, V>(ms: seq<map<K, V>>, hash: K -> Int32, capacity: Int32, i: int, m: map<K, V>)
    requires capacity > 0
    requires Homed(ms, hash, capacity) && 0 <= i < |ms|
    requires forall k :: k in m ==> CalcIndex(hash(k), capacity) == i
    ensures Homed(ms[i := m], hash, capacity)
  {
    var ms' := ms[i := m];
    forall j, k | 0 <= j < |ms'| && k in ms'[j] ensures CalcIndex(hash(k), capacity) == j {
      if j != i { assert k in ms[j]; }
    }
  }

  /**
   * Putting `k` into its own bucket puts it into the table and leaves every
   * key of every other bucket alone.
   */
  lemma MergeInsert<K, V>(ms: seq<map<K, V>>, hash: K -> Int32, capacity: Int32, k: K, v: V)
    requires capacity > 0
    requires Homed(ms, hash, capacity)
    requires CalcIndex(hash(k), capacity) < |ms|
    ensures var i := CalcIndex(hash(k), capacity);
            var ms' := ms[i := ms[i][k := v]];
            Homed(ms', hash, capacity) && Merge(ms') == Merge(ms)[k := v]
  {
    var i := CalcIndex(hash(k), capacity);
    var ms' := ms[i := ms[i][k := v]];
    HomedReplace(ms, hash, capacity, i, ms[i][k := v]);
    var m, m' := Merge(ms)[k := v], Merge(ms');
    forall k' | k' in m' ensures k' in m && m'[k'] == m[k'] {
      MergeLookup(ms, hash, capacity, k');
      MergeLookup(ms', hash, capacity, k');
    }
    forall k' | k' in m ensures k' in m' {
      MergeLookup(ms, hash, capacity, k');
      MergeLookup(ms', hash, capacity, k');
    }
    assert m'.Keys == m.Keys;
  }

  /**
   * Deleting `k` from its own bucket deletes it from the table and leaves
   * every other key alone.
   */
  lemma MergeRemove<K, V>(ms: seq<map<K, V>>, hash: K -> Int32, capacity: Int32, k: K)
    requires capacity > 0
    requires Homed(ms, hash, capacity)
    requires CalcIndex(hash(k), capacity) < |ms|
    ensures var i := CalcIndex(hash(k), capacity);
            var ms' := ms[i := ms[i] - {k}];
            Homed(ms', hash, capacity) && Merge(ms') == Merge(ms) - {k}
  {
    var i := CalcIndex(hash(k), capacity);
    var ms' := ms[i := ms[i] - {k}];
    HomedReplace(ms, hash, capacity, i, ms[i] - {k});
    var m, m' := Merge(ms) - {k}, Merge(ms');
    forall k' | k' in m' ensures k' in m && m'[k'] == m[k'] {
      MergeLookup(ms, hash, capacity, k');
      MergeLookup(ms', hash, capacity, k');
    }
    forall k' | k' in m ensures k' in m' {
      MergeLookup(ms, hash, capacity, k');
      MergeLookup(ms', hash, capacity, k');
    }
    assert m'.Keys == m.Keys;
  }

  /**
   * `HashTable<K, V>`. `hash` is the keys' `hashCode()`; `table` is the list
   * of buckets, filled once by the constructor and never changed afterwards.
   */
  class HashTable<K(==), V> {
    const table: seq<SequentialSearchSymbolTable<K, V>>
    const capacity: Int32
    const hash: K -> Int32
    /** The position of each bucket in `table`; it makes the buckets distinct objects. */
    ghost const slot: map<SequentialSearchSymbolTable<K, V>, int>
    /** The maps the buckets stand for, in bucket order. */
    ghost var buckets: seq<map<K, V>>

    /**
     * The table invariant: `capacity` distinct buckets, each keeping its own
     * invariant and standing for its entry of `buckets`, and every key in the
     * bucket its hash selects.
     */
    ghost predicate Valid()
      reads this, table
    {
      && capacity > 0
      && |table| == capacity as int
      && |buckets| == |table|
      && (forall i :: 0 <= i < |table| ==> table[i] in slot && slot[table[i]] == i)
      && (forall i :: 0 <= i < |table| ==> table[i].Valid() && table[i].Contents() == buckets[i])
      && Homed(buckets, hash, capacity)
    }

    /** The map the table stands for. */
    ghost function Contents(): map<K, V>
      reads this
    {
      Merge(buckets)
    }

    /** Allocates `tableSize` empty buckets. */
    constructor (tableSize: Int32, hashCode: K -> Int32)
      requires tableSize > 0
      ensures Valid() && Contents() == map[]
      ensures capacity == tableSize && hash == hashCode
      ensures forall i :: 0 <= i < |table| ==> fresh(table[i])
    {
      var list: seq<SequentialSearchSymbolTable<K, V>> := [];
      ghost var positions := map[];
      var i := 0;
      while i < tableSize
        invariant 0 <= i <= tableSize as int
        invariant |list| == i
        invariant forall j :: 0 <= j < i ==> fresh(list[j])
        invariant forall j :: 0 <= j < i ==> list[j].Valid() && list[j].Contents() == map[]
        invariant forall j :: 0 <= j < i ==> list[j] in positions && positions[list[j]] == j
      {
        var b := new SequentialSearchSymbolTable();
        list, positions := list + [b], positions[b := i];
        i := i + 1;
      }
      table := list;
      slot := positions;
      capacity := tableSize;
      hash := hashCode;
      buckets := EmptyBuckets(tableSize as int);
      new;
      MergeEmpty(buckets);
    }

    /** Clears every bucket. */
    method Clear()
      requires Valid()
      modifies this, table
      ensures Valid() && Contents() == map[]
    {
      var i := 0;
      while i < |table|
        invariant 0 <= i <= |table|
        invariant forall j :: 0 <= j < |table| ==> table[j].Valid()
        invariant forall j :: 0 <= j < i ==> table[j].Contents() == map[]
      {
        table[i].Clear();
        i := i + 1;
      }
      buckets := EmptyBuckets(|table|);
      MergeEmpty(buckets);
    }

    /** Removes `key`; answers whether it was present. */
    method Delete(key: K) returns (deleted: bool)
      requires Valid()
      modifies this, table[CalcIndex(hash(key), capacity)]
      ensures Valid()
      ensures deleted <==> key in old(Contents())
      ensures Contents() == old(Contents()) - {key}
    {
      var i := CalcIndex(hash(key), capacity);
      MergeLookup(buckets, hash, capacity, key);
      MergeRemove(buckets, hash, capacity, key);
      deleted := table[i].Delete(key);
      buckets := buckets[i := buckets[i] - {key}];
    }

    /** The value `key` maps to, or null: the answer of the key's own bucket. */
    method Get(key: K) returns (r: Option<V>)
      requires Valid()
      ensures key in Contents() ==> r == Some(Contents()[key])
      ensures key !in Contents() ==> r == None
      ensures Valid() && Contents() == old(Contents())
    {
      MergeLookup(buckets, hash, capacity, key);
      r := table[CalcIndex(hash(key), capacity)].Get(key);
    }

    /** The number of entries, summed bucket by bucket. */
    method GetSize() returns (total: int)
      requires Valid()
      ensures total == |Contents()|
      ensures Valid() && Contents() == old(Contents())
    {
      total := 0;
      var i := 0;
      while i < capacity
        invariant 0 <= i <= capacity
        invariant total == TotalSize(buckets[..i])
      {
        TotalSizeStep(buckets, i);
        total := total + table[i].GetSize();
        i := i + 1;
      }
      assert buckets[..capacity] == buckets;
      MergeSize(buckets, hash, capacity);
    }

    /**
     * Maps `key` to `value`; a null value is ignored, as the bucket
     * ignores it, and the table is left as it was.
     */
    method Put(key: K, value: Option<V>)
      requires Valid()
      modifies this, table[CalcIndex(hash(key), capacity)]
      ensures Valid()
      ensures value.Some? ==> Contents() == old(Contents())[key := value.value]
      ensures value.None? ==> Contents() == old(Contents())
    {
      var i := CalcIndex(hash(key), capacity);
      table[i].Put(Some(key), value);
      if value.Some? {
        MergeInsert(buckets, hash, capacity, key, value.value);
        buckets := buckets[i := buckets[i][key := value.value]];
      }
    }
  }
}
