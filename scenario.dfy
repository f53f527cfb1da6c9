/**
 * Clients of the table that exercise its public contract: the operation
 * sequence of `HashTable.main`, and two colliding keys sharing one bucket.
 * Both hold for every hash function, so nothing here depends on the actual
 * `String.hashCode` values.
 *
 * Each stage of `main` is a method on the one table `main` uses; its
 * contract states what the demo prints at that stage.
 */
module Scenario {
  import opened Wrappers
  import opened JavaInt
  import opened HashTables

  /** The five keys `main` uses are pairwise distinct. */
  predicate Distinct5<K(==)>(hello: K, goodbye: K, pizza: K, pie: K, alaska: K)
  {
    && hello != goodbye && hello != pizza && hello != pie && hello != alaska
    && goodbye != pizza && goodbye != pie && goodbye != alaska
    && pizza != pie && pizza != alaska
    && pie != alaska
  }

  /** The map after the four puts of `main` has four entries. */
  lemma FourEntries<K, V>(hello: K, goodbye: K, pizza: K, pie: K, v24: V, v48: V, v128: V, v89: V)
    requires hello != goodbye && hello != pizza && hello != pie
    requires goodbye != pizza && goodbye != pie && pizza != pie
    ensures |map[hello := v24, goodbye := v48, pizza := v128, pie := v89]| == 4
  {
    var m := map[hello := v24, goodbye := v48, pizza := v128, pie := v89];
    assert m.Keys == {hello, goodbye, pizza, pie};
  }

  /** A new table is empty: its size is 0 and every key maps to null. */
  method FreshTable<K(==), V>(hashCode: K -> Int32, tableSize: Int32, key: K)
    returns (size: int, r: Option<V>)
    requires tableSize > 0
    ensures size == 0 && r == None
  {
    var table := new HashTable<K, V>(tableSize, hashCode);
    size := table.GetSize();
    r := table.Get(key);
  }

  /** The table `main` builds first: capacity 10, then four puts. */
  method Filled<K(==), V>(hashCode: K -> Int32, hello: K, goodbye: K, pizza: K, pie: K,
                          v24: V, v48: V, v128: V, v89: V)
    returns (table: HashTable<K, V>)
    ensures fresh(table) && forall i :: 0 <= i < |table.table| ==> fresh(table.table[i])
    ensures table.Valid()
    ensures table.Contents() == map[hello := v24, goodbye := v48, pizza := v128, pie := v89]
  {
    table := new HashTable<K, V>(10, hashCode);
    table.Put(hello, Some(v24));
    table.Put(goodbye, Some(v48));
    table.Put(pizza, Some(v128));
    table.Put(pie, Some(v89));
  }

  /** The first stage of `main`: after the four puts, the size and four gets. */
  method PutsThenGets<K(==), V>(table: HashTable<K, V>, hello: K, goodbye: K, pizza: K, pie: K, alaska: K,
                                v24: V, v48: V, v128: V, v89: V)
    returns (size: int, gets: seq<Option<V>>)
    requires Distinct5(hello, goodbye, pizza, pie, alaska)
    requires table.Valid() && table.Contents() == map[hello := v24, goodbye := v48, pizza := v128, pie := v89]
    ensures size == 4
    ensures gets == [Some(v24), Some(v48), Some(v128), Some(v89)]
  {
    FourEntries(hello, goodbye, pizza, pie, v24, v48, v128, v89);
    size := table.GetSize();
    var getHello := table.Get(hello);
    var getGoodbye := table.Get(goodbye);
    var getPizza := table.Get(pizza);
    var getPie := table.Get(pie);
    gets := [getHello, getGoodbye, getPizza, getPie];
  }

  /**
   * The second stage of `main`: deleting the present `pizza` answers true,
   * deleting the absent `alaska` answers false, and overwriting `goodbye`
   * makes it map to the new value.
   */
  method DeletesThenOverwrite<K(==), V>(table: HashTable<K, V>, hello: K, goodbye: K, pizza: K, pie: K, alaska: K,
                                        v24: V, v48: V, v128: V, v89: V, v84: V)
    returns (deletedPizza: bool, deletedAlaska: bool, goodbyeAfterOverwrite: Option<V>)
    requires Distinct5(hello, goodbye, pizza, pie, alaska)
    requires table.Valid() && table.Contents() == map[hello := v24, goodbye := v48, pizza := v128, pie := v89]
    modifies table, table.table
    ensures table.Valid()
    ensures deletedPizza && !deletedAlaska
    ensures goodbyeAfterOverwrite == Some(v84)
  {
    deletedPizza := table.Delete(pizza);
    deletedAlaska := table.Delete(alaska);
    table.Put(goodbye, Some(v84));
    goodbyeAfterOverwrite := table.Get(goodbye);
  }

  /** The last stage of `main`: after a clear the size is 0 and the keys map to null. */
  method ClearThenGets<K(==), V>(table: HashTable<K, V>, hello: K, goodbye: K, pie: K)
    returns (size: int, gets: seq<Option<V>>)
    requires table.Valid()
    modifies table, table.table
    ensures size == 0
    ensures gets == [None, None, None]
  {
    table.Clear();
    size := table.GetSize();
    var getHello := table.Get(hello);
    var getGoodbye := table.Get(goodbye);
    var getPie := table.Get(pie);
    gets := [getHello, getGoodbye, getPie];
  }

  /**
   * The sequence `main` runs on one table of capacity 10
   * (HashTable.java:216-241, repeated at 248-268 with string values): four
   * puts, the size and four gets, two deletes and an overwrite, then a clear,
   * the size and three gets.
   */
  method MainScenario<K(==), V>(hashCode: K -> Int32, hello: K, goodbye: K, pizza: K, pie: K, alaska: K,
                                v24: V, v48: V, v128: V, v89: V, v84: V)
    returns (sizeAfterPuts: int, gets: seq<Option<V>>, deletedPizza: bool, deletedAlaska: bool,
             goodbyeAfterOverwrite: Option<V>, sizeAfterClear: int, getsAfterClear: seq<Option<V>>)
    requires Distinct5(hello, goodbye, pizza, pie, alaska)
    ensures sizeAfterPuts == 4
    ensures gets == [Some(v24), Some(v48), Some(v128), Some(v89)]
    ensures deletedPizza && !deletedAlaska
    ensures goodbyeAfterOverwrite == Some(v84)
    ensures sizeAfterClear == 0
    ensures getsAfterClear == [None, None, None]
  {
    var table := Filled(hashCode, hello, goodbye, pizza, pie, v24, v48, v128, v89);
    sizeAfterPuts, gets := PutsThenGets(table, hello, goodbye, pizza, pie, alaska, v24, v48, v128, v89);
    deletedPizza, deletedAlaska, goodbyeAfterOverwrite :=
      DeletesThenOverwrite(table, hello, goodbye, pizza, pie, alaska, v24, v48, v128, v89, v84);
    sizeAfterClear, getsAfterClear := ClearThenGets(table, hello, goodbye, pie);
  }

  /**
   * Two distinct keys that share a bucket: after putting both and deleting
   * the first, only the second is left, with its own value.
   */
  lemma AfterCollision<K, V>(m: map<K, V>, m': map<K, V>, k1: K, k2: K, v1: V, v2: V,
                             deleted: bool, second: Option<V>, first: Option<V>, size: int)
    requires k1 != k2
    requires m == map[k1 := v1, k2 := v2]
    requires (deleted <==> k1 in m) && m' == m - {k1}
    requires k2 in m' ==> second == Some(m'[k2])
    requires k1 !in m' ==> first == None
    requires size == |m'|
    ensures deleted && second == Some(v2) && first == None && size == 1
  {
    assert m' == map[k2 := v2];
  }

  /**
   * Two distinct keys with the same index share one bucket without
   * interfering: after putting both and deleting the first, the second is
   * still found and the table holds one entry.
   */
  method CollidingKeys<K(==), V>(hashCode: K -> Int32, capacity: Int32, k1: K, k2: K, v1: V, v2: V)
    returns (deleted: bool, second: Option<V>, first: Option<V>, size: int)
    requires capacity > 0 && k1 != k2
    requires CalcIndex(hashCode(k1), capacity) == CalcIndex(hashCode(k2), capacity)
    ensures deleted && second == Some(v2) && first == None && size == 1
  {
    var table := new HashTable<K, V>(capacity, hashCode);
    table.Put(k1, Some(v1));
    table.Put(k2, Some(v2));
    ghost var both := table.Contents();
    assert both == map[k1 := v1, k2 := v2];
    deleted := table.Delete(k1);
    ghost var one := table.Contents();
    second := table.Get(k2);
    first := table.Get(k1);
    size := table.GetSize();
    AfterCollision(both, one, k1, k2, v1, v2, deleted, second, first, size);
  }
}
