/**
 * The persistent key/value table the example states are built from. Every
 * operation returns a new table; the table a caller holds never changes.
 */
module DatabaseTable {
  import opened Wrappers
  import Sets

  datatype Table<K(!new), V> = Table(data: map<K, V>) {

    /** `size`: the number of rows. */
    function Size(): nat {
      |data|
    }

    /** `keys`. */
    function Keys(): set<K> {
      data.Keys
    }

    /** `at(key)`: the row's value, or none when the key is absent. */
    function At(key: K): Option<V> {
      if key in data then Some(data[key]) else None
    }

    /** `empty`: the table has no rows. */
    function Empty(): (r: bool)
      ensures r <==> Keys() == {}
      ensures r <==> forall key :: At(key) == None
    {
      assert forall key :: key in data ==> At(key) == Some(data[key]);
      |data| == 0
    }

    /** `containsKey(key)`. */
    function ContainsKey(key: K): (r: bool)
      ensures r <==> At(key).Some?
    {
      key in Keys()
    }

    /** `insert`: adds a row for an absent key; a present key keeps its first value. */
    function Insert(newKey: K, newValue: V): (t: Table<K, V>)
      ensures ContainsKey(newKey) ==> t == this
      ensures !ContainsKey(newKey) ==> t.At(newKey) == Some(newValue) && t.Size() == Size() + 1
      ensures forall key :: key != newKey ==> t.At(key) == At(key)
    {
      if newKey in data then this else Table(data[newKey := newValue])
    }

    /** `upsert`: the key ends up holding `value`, whether or not it was present. */
    function Upsert(key: K, value: V): (t: Table<K, V>)
      ensures t.At(key) == Some(value)
      ensures forall other :: other != key ==> t.At(other) == At(other)
      ensures t.Size() == if ContainsKey(key) then Size() else Size() + 1
    {
      Table(data[key := value])
    }

    /** `update`: changes the value of a present key and ignores an absent one. */
    function Update(key: K, value: V): (t: Table<K, V>)
      ensures !ContainsKey(key) ==> t == this
      ensures ContainsKey(key) ==> t.At(key) == Some(value)
      ensures t.Keys() == Keys()
      ensures forall other :: other != key ==> t.At(other) == At(other)
    {
      if key !in data then this else Upsert(key, value)
    }

    /** `delete`: removes the key's row; deleting an absent key changes nothing. */
    function Delete(key: K): (t: Table<K, V>)
      ensures !ContainsKey(key) ==> t == this
      ensures t.At(key) == None
      ensures forall other :: other != key ==> t.At(other) == At(other)
      ensures t.Size() == if ContainsKey(key) then Size() - 1 else Size()
    {
      if key !in data then this else Table(data - {key})
    }

    /** The keys whose rows satisfy `pred`. */
    function Matching(pred: (K, V) -> bool): set<K> {
      set key | key in data && pred(key, data[key])
    }

    /** The number of rows satisfying `pred`: what `countIf` computes. */
    function Count(pred: (K, V) -> bool): (n: nat)
      ensures n <= Size()
    {
      Sets.SubsetNoLarger(Matching(pred), data.Keys);
      |Matching(pred)|
    }

    /** `countIf`: counts, row by row, the rows satisfying `pred`. */
    method CountIf(pred: (K, V) -> bool) returns (count: nat)
      ensures count == Count(pred)
    {
      count := 0;
      var remaining := data.Keys;
      while remaining != {}
        invariant remaining <= data.Keys
        invariant count == |Matching(pred) - remaining|
        decreases |remaining|
      {
        var key :| key in remaining;
        if pred(key, data[key]) {
          assert Matching(pred) - (remaining - {key}) == (Matching(pred) - remaining) + {key};
          count := count + 1;
        } else {
          assert Matching(pred) - (remaining - {key}) == Matching(pred) - remaining;
        }
        remaining := remaining - {key};
      }
    }
  }

  /** `emptyTable()`. */
  function EmptyTable<K(!new), V>(): (t: Table<K, V>)
    ensures t.Empty() && t.Size() == 0
  {
    Table(map[])
  }

  /** `tableOf(k, v)`: the one-row table, the same as inserting into the empty one. */
  function TableOf<K(!new), V>(key: K, value: V): (t: Table<K, V>)
    ensures t.Keys() == {key} && t.At(key) == Some(value)
    ensures t == EmptyTable().Insert(key, value)
  {
    Table(map[key := value])
  }

  /** The last `upsert` wins: a second upsert of the same key overrides the first. */
  lemma UpsertOverrides<K(!new), V>(t: Table<K, V>, key: K, first: V, second: V)
    ensures t.Upsert(key, first).Upsert(key, second) == t.Upsert(key, second)
  {
    assert t.Upsert(key, first).Upsert(key, second).data == t.Upsert(key, second).data;
  }

  /** Inserting a key and then deleting it restores a table that lacked the key. */
  lemma InsertThenDelete<K(!new), V>(t: Table<K, V>, key: K, value: V)
    requires !t.ContainsKey(key)
    ensures t.Insert(key, value).Delete(key) == t
  {
    assert t.Insert(key, value).Delete(key).data == t.data;
  }

  /** Inserting an absent key adds one to the count of every predicate its row satisfies, and nothing to the others. */
  lemma CountAfterInsert<K(!new), V>(t: Table<K, V>, key: K, value: V, pred: (K, V) -> bool)
    requires !t.ContainsKey(key)
    ensures t.Insert(key, value).Count(pred) == t.Count(pred) + if pred(key, value) then 1 else 0
  {
    var after := t.Insert(key, value);
    if pred(key, value) {
      assert after.Matching(pred) == t.Matching(pred) + {key};
    } else {
      assert after.Matching(pred) == t.Matching(pred);
    }
  }

  /** Deleting a present key takes one off the count of every predicate its row satisfied. */
  lemma CountAfterDelete<K(!new), V>(t: Table<K, V>, key: K, pred: (K, V) -> bool)
    requires t.ContainsKey(key)
    ensures t.Delete(key).Count(pred) + (if pred(key, t.data[key]) then 1 else 0) == t.Count(pred)
  {
    var after := t.Delete(key);
    if pred(key, t.data[key]) {
      assert t.Matching(pred) == after.Matching(pred) + {key};
    } else {
      assert after.Matching(pred) == t.Matching(pred);
    }
  }

  /** The expectations of the table's tests. */
  lemma TableExamples()
    ensures EmptyTable<int, int>().Insert(1, 11).Size() == 1
    ensures EmptyTable<int, int>().Insert(1, 11).Insert(2, 22).Keys() == {1, 2}
    ensures EmptyTable<int, int>().Insert(1, 11).Insert(1, 12).At(1) == Some(11)
    ensures EmptyTable<int, int>().Delete(1).Size() == 0
    ensures EmptyTable<int, int>().Insert(1, 11).Insert(2, 22).Delete(1).Keys() == {2}
    ensures EmptyTable<int, int>().Upsert(1, 11).Upsert(1, 12).At(1) == Some(12)
    ensures !EmptyTable<int, int>().Insert(1, 11).ContainsKey(2)
    ensures EmptyTable<int, int>().Insert(1, 11).Insert(2, 12).Count((k, _) => k == 1) == 1
  {
    var two := EmptyTable<int, int>().Insert(1, 11).Insert(2, 12);
    assert two.Matching((k, _) => k == 1) == {1};
  }
}
