/**
 * The bucket of the hash table: the private nested class
 * `SequentialSearchSymbolTable` of src/HashTable.java.
 *
 * A bucket keeps two parallel lists, the keys and the values, plus a counter
 * `size`. Lookup scans the key list (`ArrayList.contains` / `indexOf`). Delete
 * copies the slot at position `size - 1` into the deleted slot and nulls slot
 * `size - 1`; the lists never shrink, so null slots ("holes") pile up, a later
 * put appends after them, and slot `size - 1` need not be the last live entry.
 * Lookups still work because they scan the whole list.
 *
 * Here a list slot is an `Option` (`None` is Java's null) and the abstraction
 * function `Abstract` maps the two lists to the finite map they stand for.
 * The lemmas below prove that every operation on the lists refines the
 * matching operation on that map.
 */
module SymbolTable {
  import opened Wrappers

  /** 1 for a live slot, 0 for a null one. */
  function Weight<T>(o: Option<T>): nat { if o.Some? then 1 else 0 }

  /**
   * `ArrayList.indexOf(k)` on the key list: the first slot holding `k`,
   * or -1 when no slot holds it.
   */
  function IndexOf<K(==)>(keys: seq<Option<K>>, k: K): (r: int)
    ensures -1 <= r < |keys|
    ensures r == -1 <==> Some(k) !in keys
    ensures 0 <= r ==> keys[r] == Some(k) && Some(k) !in keys[..r]
  {
    if |keys| == 0 then -1
    else if keys[0] == Some(k) then 0
    else
      var r := IndexOf(keys[1..], k);
      assert keys == [keys[0]] + keys[1..];
      if r < 0 then -1
      else
        assert keys[..r + 1] == [keys[0]] + keys[1..][..r];
        r + 1
  }

  /** The number of non-null slots of a key list. */
  function CountLive<K>(keys: seq<Option<K>>): (n: nat)
    ensures n <= |keys|
  {
    if |keys| == 0 then 0
    else CountLive(keys[..|keys| - 1]) + Weight(keys[|keys| - 1])
  }

  /** No key occupies two slots. */
  predicate DistinctKeys<K(==)>(keys: seq<Option<K>>)
  {
    forall a, b :: 0 <= a < |keys| && 0 <= b < |keys| && a != b && keys[a].Some? ==> keys[a] != keys[b]
  }

  /**
   * The representation invariant of the two lists, slot by slot: equal length,
   * a slot's key is null exactly when its value is, and the live keys are
   * pairwise distinct.
   */
  predicate SlotsAgree<K(==), V>(keys: seq<Option<K>>, vals: seq<Option<V>>)
  {
    && |keys| == |vals|
    && (forall j :: 0 <= j < |keys| ==> keys[j].Some? == vals[j].Some?)
    && DistinctKeys(keys)
  }

  /**
   * The same invariant, stated slot after slot from the front: each slot's key
   * and value are both null or both not, and a live key does not occur in an
   * earlier slot.
   */
  predicate WellFormed<K(==), V>(keys: seq<Option<K>>, vals: seq<Option<V>>)
  {
    && |keys| == |vals|
    && (|keys| == 0 ||
        var n := |keys| - 1;
        && WellFormed(keys[..n], vals[..n])
        && keys[n].Some? == vals[n].Some?
        && (keys[n].Some? ==> keys[n] !in keys[..n]))
  }

  /** The two statements of the invariant agree. */
  lemma {:induction false} WellFormedSlots<K, V>(keys: seq<Option<K>>, vals: seq<Option<V>>)
    ensures WellFormed(keys, vals) <==> SlotsAgree(keys, vals)
  {
    if |keys| == |vals| && |keys| > 0 {
      var n := |keys| - 1;
      WellFormedSlots(keys[..n], vals[..n]);
      if SlotsAgree(keys, vals) {
        assert SlotsAgree(keys[..n], vals[..n]);
      }
      if WellFormed(keys, vals) {
        forall a, b | 0 <= a < |keys| && 0 <= b < |keys| && a != b && keys[a].Some?
          ensures keys[a] != keys[b]
        {
          if a == n { assert keys[b] == keys[..n][b]; }
          else if b == n { assert keys[a] == keys[..n][a]; }
          else { assert keys[a] == keys[..n][a] && keys[b] == keys[..n][b]; }
        }
        forall j | 0 <= j < |keys| ensures keys[j].Some? == vals[j].Some? {
          if j < n { assert keys[j] == keys[..n][j] && vals[j] == vals[..n][j]; }
        }
      }
    }
  }

  /**
   * The abstraction function: the map the two lists stand for. Each live slot
   * contributes its key and value; null slots contribute nothing.
   */
  function Abstract<K, V>(keys: seq<Option<K>>, vals: seq<Option<V>>): map<K, V>
    requires |keys| == |vals|
  {
    if |keys| == 0 then map[]
    else
      var n := |keys| - 1;
      var m := Abstract(keys[..n], vals[..n]);
      if keys[n].Some? && vals[n].Some? then m[keys[n].value := vals[n].value] else m
  }

  /** Every key of the abstraction sits in some slot. */
  lemma {:induction false} AbstractHas<K, V>(keys: seq<Option<K>>, vals: seq<Option<V>>, k: K)
    requires |keys| == |vals|
    ensures k in Abstract(keys, vals) ==> Some(k) in keys
  {
    if |keys| > 0 {
      var n := |keys| - 1;
      AbstractHas(keys[..n], vals[..n], k);
      if k in Abstract(keys[..n], vals[..n]) {
        var j :| 0 <= j < n && keys[..n][j] == Some(k);
        assert keys[j] == Some(k);
      }
    }
  }

  /** Every live slot is an entry of the abstraction, with that slot's value. */
  lemma {:induction false} AbstractSlot<K, V>(keys: seq<Option<K>>, vals: seq<Option<V>>, j: int)
    requires WellFormed(keys, vals)
    requires 0 <= j < |keys| && keys[j].Some?
    ensures keys[j].value in Abstract(keys, vals)
    ensures vals[j] == Some(Abstract(keys, vals)[keys[j].value])
  {
    var n := |keys| - 1;
    if j < n {
      assert keys[..n][j] == keys[j] && vals[..n][j] == vals[j];
      AbstractSlot(keys[..n], vals[..n], j);
    }
  }

  /**
   * A map that agrees with the lists slot by slot, in both directions, is the
   * abstraction of the lists.
   */
  lemma AbstractUnique<K, V>(keys: seq<Option<K>>, vals: seq<Option<V>>, m: map<K, V>)
    requires WellFormed(keys, vals)
    requires forall k :: k in m <==> Some(k) in keys
    requires forall j :: 0 <= j < |keys| && keys[j].Some? ==> keys[j].value in m && vals[j] == Some(m[keys[j].value])
    ensures Abstract(keys, vals) == m
  {
    var a := Abstract(keys, vals);
    forall k | k in a ensures k in m && a[k] == m[k] {
      AbstractHas(keys, vals, k);
      var j :| 0 <= j < |keys| && keys[j] == Some(k);
      AbstractSlot(keys, vals, j);
    }
    forall k | k in m ensures k in a {
      var j :| 0 <= j < |keys| && keys[j] == Some(k);
      AbstractSlot(keys, vals, j);
    }
    assert a.Keys == m.Keys;
  }

  /** The abstraction has one entry per live slot, so `size` counts the entries. */
  lemma {:induction false} CountLiveIsSize<K, V>(keys: seq<Option<K>>, vals: seq<Option<V>>)
    requires WellFormed(keys, vals)
    ensures CountLive(keys) == |Abstract(keys, vals)|
  {
    if |keys| > 0 {
      var n := |keys| - 1;
      CountLiveIsSize(keys[..n], vals[..n]);
      if keys[n].Some? {
        AbstractHas(keys[..n], vals[..n], keys[n].value);
      }
    }
  }

  /** Overwriting one slot changes the live count by the difference of the two weights. */
  lemma {:induction false} CountLiveUpdate<K>(keys: seq<Option<K>>, j: int, x: Option<K>)
    requires 0 <= j < |keys|
    ensures CountLive(keys[j := x]) == CountLive(keys) - Weight(keys[j]) + Weight(x)
  {
    var n := |keys|;
    if j == n - 1 {
      assert keys[j := x][..n - 1] == keys[..n - 1];
    } else {
      assert keys[j := x][..n - 1] == keys[..n - 1][j := x];
      CountLiveUpdate(keys[..n - 1], j, x);
    }
  }

  /**
   * The list change `delete` makes (HashTable.java:71-74): slot `last` is
   * copied over slot `i`, then slot `last` is nulled.
   */
  function MoveLast<T>(s: seq<Option<T>>, i: int, last: int): (r: seq<Option<T>>)
    requires 0 <= i < |s| && 0 <= last < |s|
    ensures |r| == |s|
    ensures forall j :: 0 <= j < |s| ==> r[j] == if j == last then None else if j == i then s[last] else s[j]
  {
    s[i := s[last]][last := None]
  }

  /** A found key means a live slot, so `size - 1` is a valid position. */
  lemma FoundMeansLive<K>(keys: seq<Option<K>>, k: K)
    requires Some(k) in keys
    ensures 1 <= CountLive(keys) <= |keys|
  {
    var i := IndexOf(keys, k);
    assert keys[i].Some?;
  }

  /** Deleting at a live slot `i` keeps the lists well formed and lowers the live count by one. */
  lemma DeleteKeepsInvariant<K, V>(keys: seq<Option<K>>, vals: seq<Option<V>>, i: int, last: int)
    requires WellFormed(keys, vals)
    requires 0 <= i < |keys| && 0 <= last < |keys| && keys[i].Some?
    ensures WellFormed(MoveLast(keys, i, last), MoveLast(vals, i, last))
    ensures CountLive(MoveLast(keys, i, last)) == CountLive(keys) - 1
  {
    var keys', vals' := MoveLast(keys, i, last), MoveLast(vals, i, last);
    WellFormedSlots(keys, vals);
    forall a, b | 0 <= a < |keys'| && 0 <= b < |keys'| && a != b && keys'[a].Some?
      ensures keys'[a] != keys'[b]
    {
      var a0 := if a == i then last else a;
      var b0 := if b == i then last else b;
      assert keys'[a] == keys[a0];
      if keys'[b].Some? { assert keys'[b] == keys[b0]; }
    }
    WellFormedSlots(keys', vals');
    CountLiveUpdate(keys, i, keys[last]);
    CountLiveUpdate(keys[i := keys[last]], last, None);
  }

  /** The map of the lists after deleting at the slot `i` holding `k`: `k` is gone, nothing else changes. */
  lemma DeleteRemovesKey<K, V>(keys: seq<Option<K>>, vals: seq<Option<V>>, k: K, i: int, last: int)
    requires WellFormed(keys, vals)
    requires 0 <= i < |keys| && 0 <= last < |keys| && keys[i] == Some(k)
    requires WellFormed(MoveLast(keys, i, last), MoveLast(vals, i, last))
    ensures Abstract(MoveLast(keys, i, last), MoveLast(vals, i, last)) == Abstract(keys, vals) - {k}
  {
    var keys', vals' := MoveLast(keys, i, last), MoveLast(vals, i, last);
    var old_m := Abstract(keys, vals);
    WellFormedSlots(keys, vals);
    forall j | 0 <= j < |keys| && keys[j].Some? ensures keys[j].value in old_m && vals[j] == Some(old_m[keys[j].value]) {
      AbstractSlot(keys, vals, j);
    }
    var m := old_m - {k};
    forall k' ensures k' in m <==> Some(k') in keys' {
      if k' in m {
        AbstractHas(keys, vals, k');
        var j :| 0 <= j < |keys| && keys[j] == Some(k');
        if j == last { assert keys'[i] == Some(k'); } else { assert keys'[j] == Some(k'); }
      }
      if Some(k') in keys' {
        var j :| 0 <= j < |keys'| && keys'[j] == Some(k');
        var j0 := if j == i then last else j;
        assert keys[j0] == Some(k');
      }
    }
    forall j | 0 <= j < |keys'| && keys'[j].Some? ensures keys'[j].value in m && vals'[j] == Some(m[keys'[j].value]) {
      var j0 := if j == i then last else j;
      assert keys'[j] == keys[j0] && vals'[j] == vals[j0];
    }
    AbstractUnique(keys', vals', m);
  }

  /**
   * `delete` on a present key (HashTable.java:69-76): copying slot `size - 1`
   * over the found slot and nulling slot `size - 1` keeps the invariant,
   * lowers the live count by one and removes exactly `k` from the map, even
   * when slot `size - 1` is already a hole and live keys sit to its right.
   */
  lemma DeleteRefines<K, V>(keys: seq<Option<K>>, vals: seq<Option<V>>, size: int, k: K)
    requires WellFormed(keys, vals) && size == CountLive(keys)
    requires Some(k) in keys
    ensures 0 <= IndexOf(keys, k) < |keys| && 1 <= size <= |keys|
    ensures var i := IndexOf(keys, k);
            var keys', vals' := MoveLast(keys, i, size - 1), MoveLast(vals, i, size - 1);
            && WellFormed(keys', vals')
            && CountLive(keys') == size - 1
            && Abstract(keys', vals') == Abstract(keys, vals) - {k}
  {
    FoundMeansLive(keys, k);
    var i := IndexOf(keys, k);
    DeleteKeepsInvariant(keys, vals, i, size - 1);
    DeleteRemovesKey(keys, vals, k, i, size - 1);
  }

  /** `put` on a present key (HashTable.java:116-117): the value is overwritten in place. */
  lemma OverwriteRefines<K, V>(keys: seq<Option<K>>, vals: seq<Option<V>>, k: K, v: V)
    requires WellFormed(keys, vals)
    requires Some(k) in keys
    ensures 0 <= IndexOf(keys, k) < |vals|
    ensures var vals' := vals[IndexOf(keys, k) := Some(v)];
            WellFormed(keys, vals') && Abstract(keys, vals') == Abstract(keys, vals)[k := v]
  {
    var i := IndexOf(keys, k);
    var vals' := vals[i := Some(v)];
    var m := Abstract(keys, vals)[k := v];
    WellFormedSlots(keys, vals);
    WellFormedSlots(keys, vals');
    forall j | 0 <= j < |keys| && keys[j].Some? ensures keys[j].value in m && vals'[j] == Some(m[keys[j].value]) {
      AbstractSlot(keys, vals, j);
    }
    forall k' ensures k' in m <==> Some(k') in keys {
      AbstractHas(keys, vals, k');
      if Some(k') in keys {
        var j :| 0 <= j < |keys| && keys[j] == Some(k');
        AbstractSlot(keys, vals, j);
      }
    }
    AbstractUnique(keys, vals', m);
  }

  /**
   * `put` on an absent key (HashTable.java:118-121): appending a slot keeps the
   * invariant, raises the live count by one and adds `k` to the map.
   */
  lemma AppendRefines<K, V>(keys: seq<Option<K>>, vals: seq<Option<V>>, k: K, v: V)
    requires WellFormed(keys, vals)
    requires Some(k) !in keys
    ensures WellFormed(keys + [Some(k)], vals + [Some(v)])
    ensures CountLive(keys + [Some(k)]) == CountLive(keys) + 1
    ensures Abstract(keys + [Some(k)], vals + [Some(v)]) == Abstract(keys, vals)[k := v]
  {
    var keys', vals' := keys + [Some(k)], vals + [Some(v)];
    assert keys'[..|keys|] == keys && vals'[..|keys|] == vals;
    var m := Abstract(keys, vals)[k := v];
    forall j | 0 <= j < |keys'| && keys'[j].Some? ensures keys'[j].value in m && vals'[j] == Some(m[keys'[j].value]) {
      if j < |keys| { AbstractSlot(keys, vals, j); }
    }
    forall k' ensures k' in m <==> Some(k') in keys' {
      AbstractHas(keys, vals, k');
      if k' in m && k' != k {
        var j :| 0 <= j < |keys| && keys[j] == Some(k');
        assert keys'[j] == Some(k');
      }
      if Some(k') in keys' && k' != k {
        var j :| 0 <= j < |keys'| && keys'[j] == Some(k');
        assert j < |keys| && keys[j] == Some(k');
        AbstractSlot(keys, vals, j);
      }
    }
    AbstractUnique(keys', vals', m);
  }

  /** A key appended to a list that lacked it is found at the new last slot. */
  lemma IndexOfAppended<K>(keys: seq<Option<K>>, k: K)
    requires Some(k) !in keys
    ensures IndexOf(keys + [Some(k)], k) == |keys|
  {
  }

  /**
   * One bucket. The fields are the source's `keySet`, `valueSet` and `size`;
   * `Valid()` is the representation invariant and `Contents()` the map the
   * bucket stands for.
   */
  class SequentialSearchSymbolTable<K(==), V> {
    var keySet: seq<Option<K>>
    var valueSet: seq<Option<V>>
    var size: int

    ghost predicate Valid()
      reads this
    {
      WellFormed(keySet, valueSet) && size == CountLive(keySet)
    }

    ghost function Contents(): map<K, V>
      reads this
      requires Valid()
    {
      Abstract(keySet, valueSet)
    }

    constructor ()
      ensures Valid() && Contents() == map[]
    {
      keySet := [];
      valueSet := [];
      size := 0;
    }

    /** Empties both lists and resets the counter. */
    method Clear()
      requires Valid()
      modifies this
      ensures Valid() && Contents() == map[]
    {
      keySet := [];
      valueSet := [];
      size := 0;
    }

    /** Removes `key`; answers whether it was present. */
    method Delete(key: K) returns (deleted: bool)
      requires Valid()
      modifies this
      ensures Valid()
      ensures deleted <==> key in old(Contents())
      ensures Contents() == old(Contents()) - {key}
      ensures size == if deleted then old(size) - 1 else old(size)
      ensures !deleted ==> unchanged(this)
    {
      AbstractHas(keySet, valueSet, key);
      if Some(key) !in keySet {
        return false;
      }
      var index := IndexOf(keySet, key);
      ghost var keys, vals := keySet, valueSet;
      AbstractSlot(keys, vals, index);
      DeleteRefines(keys, vals, size, key);
      keySet := MoveLast(keySet, index, size - 1);
      valueSet := MoveLast(valueSet, index, size - 1);
      size := size - 1;
      return true;
    }

    /** The value `key` maps to, or null: a scan for the key, then the value in the same slot. */
    function Get(key: K): (r: Option<V>)
      reads this
      requires Valid()
      ensures key in Contents() ==> r == Some(Contents()[key])
      ensures key !in Contents() ==> r == None
    {
      AbstractHas(keySet, valueSet, key);
      if Some(key) !in keySet then None
      else
        var j := IndexOf(keySet, key);
        AbstractSlot(keySet, valueSet, j);
        valueSet[j]
    }

    /** The counter, which is the number of entries. */
    function GetSize(): (n: int)
      reads this
      requires Valid()
      ensures n == |Contents()|
    {
      CountLiveIsSize(keySet, valueSet);
      size
    }

    /**
     * Maps `key` to `value`; a null key or a null value is ignored
     * and the bucket is left as it was.
     */
    method Put(key: Option<K>, value: Option<V>)
      requires Valid()
      modifies this
      ensures Valid()
      ensures key.Some? && value.Some? ==> Contents() == old(Contents())[key.value := value.value]
      ensures key.Some? && value.Some? ==> size == if key.value in old(Contents()) then old(size) else old(size) + 1
      ensures key.None? || value.None? ==> unchanged(this)
    {
      if key.None? || value.None? {
        return;
      }
      var k, v := key.value, value.value;
      AbstractHas(keySet, valueSet, k);
      if Some(k) in keySet {
        AbstractSlot(keySet, valueSet, IndexOf(keySet, k));
        OverwriteRefines(keySet, valueSet, k, v);
        valueSet := valueSet[IndexOf(keySet, k) := value];
      } else {
        AppendRefines(keySet, valueSet, k, v);
        IndexOfAppended(keySet, k);
        var keys := keySet + [key];
        // `ArrayList.add(index, element)` inserts at `index`, here the end.
        var at := IndexOf(keys, k);
        var vals := valueSet[..at] + [value] + valueSet[at..];
        assert vals == valueSet + [value];
        keySet, valueSet := keys, vals;
        size := size + 1;
      }
    }
  }
}
