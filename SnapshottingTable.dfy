/**
 * The time-versioned table: each key keeps a history from timestamps to a
 * value or a tombstone (`None`, written by a delete). A read at time `t`
 * sees, for each key, the record with the greatest timestamp not after
 * `t`; a read with no time sees the newest record.
 */
module SnapshottingTable {
  import opened Wrappers
  import IntSets

  type History<V> = map<int, Option<V>>

  /** Whether a record written at `ts` is seen by a read at `asOf` (`None`: no bound). */
  predicate Admits(asOf: Option<int>, ts: int) {
    asOf.None? || ts <= asOf.value
  }

  /** The timestamps of the history seen by a read at `asOf`. */
  function Visible<V>(history: History<V>, asOf: Option<int>): set<int> {
    set ts | ts in history && Admits(asOf, ts)
  }

  /**
   * `latest`: the value (or tombstone) of the seen record with the greatest
   * timestamp, or none when no record is seen.
   */
  function Latest<V>(history: History<V>, asOf: Option<int>): (r: Option<V>)
    ensures Visible(history, asOf) == {} ==> r == None
    ensures forall ts :: ts in Visible(history, asOf) && (forall u :: u in Visible(history, asOf) ==> u <= ts)
              ==> r == history[ts]
  {
    var visible := Visible(history, asOf);
    if visible == {} then None else history[IntSets.Max(visible)]
  }

  datatype Table<K(!new), V> = Table(data: map<K, History<V>>) {

    /** `at(key, atTime)`; `at(key)` is `At(key, None)`. */
    function At(key: K, atTime: Option<int>): (r: Option<V>)
      ensures key !in data || Visible(data[key], atTime) == {} ==> r == None
      ensures r.Some? ==> key in data && exists ts :: ts in Visible(data[key], atTime) && data[key][ts] == r
      ensures key in data ==>
                forall ts :: ts in Visible(data[key], atTime) && (forall u :: u in Visible(data[key], atTime) ==> u <= ts)
                  ==> r == data[key][ts]
    {
      if key !in data then None else Latest(data[key], atTime)
    }

    /** `keys(atTime)` as a set: the keys whose latest seen record is a value. */
    function Keys(atTime: Option<int>): (r: set<K>)
      ensures forall key :: key in r <==> At(key, atTime).Some?
    {
      set key | key in data && Latest(data[key], atTime).Some?
    }

    /** `keys(atTime)`: the loop of `SnapshottingDatabaseTable.keys` over every key's history. */
    method KeysAt(atTime: Option<int>) returns (keySet: set<K>)
      ensures keySet == Keys(atTime)
    {
      keySet := {};
      var remaining := data.Keys;
      while remaining != {}
        invariant remaining <= data.Keys
        invariant keySet == KeysAmong(data.Keys - remaining, atTime)
        decreases |remaining|
      {
        var key :| key in remaining;
        KeysAmongAdd(data.Keys - remaining, key, atTime);
        assert data.Keys - (remaining - {key}) == (data.Keys - remaining) + {key};
        if Latest(data[key], atTime).Some? {
          keySet := keySet + {key};
        }
        remaining := remaining - {key};
      }
      assert data.Keys - remaining == data.Keys;
    }

    /** The keys among `keys` whose latest seen record is a value. */
    ghost function KeysAmong(keys: set<K>, atTime: Option<int>): set<K>
      requires keys <= data.Keys
    {
      set key | key in keys && Latest(data[key], atTime).Some?
    }

    lemma KeysAmongAdd(keys: set<K>, key: K, atTime: Option<int>)
      requires keys <= data.Keys && key in data
      ensures KeysAmong(keys + {key}, atTime)
        == KeysAmong(keys, atTime) + (if Latest(data[key], atTime).Some? then {key} else {})
    {
    }

    /** `empty(atTime)`; the `empty` property is `Empty(None)`. */
    function Empty(atTime: Option<int>): (r: bool)
      ensures r <==> forall key :: At(key, atTime) == None
    {
      var keys := Keys(atTime);
      assert forall key :: At(key, atTime).Some? ==> key in keys;
      keys == {}
    }

    /**
     * `internalInsert`: writes a record (a value, or a tombstone) for `key`
     * at `t`. Every other key's history, and every other timestamp of
     * `key`, stays as it was; a record already at `t` is replaced.
     */
    function InternalInsert(key: K, v: Option<V>, t: int): (r: Table<K, V>)
      ensures r.data.Keys == data.Keys + {key}
      ensures forall other :: other in data && other != key ==> r.data[other] == data[other]
      ensures t in r.data[key] && r.data[key][t] == v
      ensures forall ts :: ts != t ==>
                (ts in r.data[key] <==> key in data && ts in data[key])
      ensures forall ts :: ts != t && ts in r.data[key] ==> r.data[key][ts] == data[key][ts]
    {
      if key in data then Table(data[key := data[key][t := v]])
      else Table(data[key := map[t := v]])
    }

    /**
     * The loop of `internalInsert`: a key already present is handled by
     * copying every entry, the one for `key` with the new record added; a new
     * key gets a history of its own.
     */
    method InternalInsertByLoop(key: K, v: Option<V>, t: int) returns (r: Table<K, V>)
      ensures r == InternalInsert(key, v, t)
    {
      if key !in data {
        return Table(data[key := map[t := v]]);
      }
      var newData: map<K, History<V>> := map[];
      var remaining := data.Keys;
      while remaining != {}
        invariant remaining <= data.Keys
        invariant newData.Keys == data.Keys - remaining
        invariant forall k :: k in newData ==> newData[k] == if k == key then data[key][t := v] else data[k]
        decreases |remaining|
      {
        var k :| k in remaining;
        if k == key {
          newData := newData[k := data[key][t := v]];
        } else {
          newData := newData[k := data[k]];
        }
        remaining := remaining - {k};
      }
      assert newData == data[key := data[key][t := v]];
      r := Table(newData);
    }

    /** `insert`: records `v` for `key` at `t`. */
    function Insert(key: K, v: V, t: int): (r: Table<K, V>)
      ensures r.At(key, Some(t)) == Some(v)
      ensures forall earlier :: earlier < t ==> r.At(key, Some(earlier)) == At(key, Some(earlier))
      ensures forall other, atTime :: other != key ==> r.At(other, atTime) == At(other, atTime)
    {
      WriteSeen(this, key, Some(v), t);
      InternalInsert(key, Some(v), t)
    }

    /** `delete`: records a tombstone for `key` at `t`. */
    function Delete(key: K, t: int): (r: Table<K, V>)
      ensures r.At(key, Some(t)) == None
      ensures forall earlier :: earlier < t ==> r.At(key, Some(earlier)) == At(key, Some(earlier))
      ensures forall other, atTime :: other != key ==> r.At(other, atTime) == At(other, atTime)
    {
      WriteSeen(this, key, None, t);
      InternalInsert(key, None, t)
    }
  }

  /** `emptySnapshottingTable()`: no keys and empty at every time. */
  function EmptySnapshottingTable<K(!new), V>(): (r: Table<K, V>)
    ensures forall atTime :: r.Keys(atTime) == {} && r.Empty(atTime)
  {
    Table(map[])
  }

  /** A record written at `t` is what a read at `t` sees. */
  lemma LatestAtWrite<V>(history: History<V>, v: Option<V>, t: int)
    ensures Latest(history[t := v], Some(t)) == v
  {
    var h := history[t := v];
    assert t in Visible(h, Some(t));
  }

  /** A write at `t` is invisible to reads before `t`. */
  lemma LatestBeforeWrite<V>(history: History<V>, v: Option<V>, t: int, earlier: int)
    requires earlier < t
    ensures Latest(history[t := v], Some(earlier)) == Latest(history, Some(earlier))
  {
    assert Visible(history[t := v], Some(earlier)) == Visible(history, Some(earlier));
  }

  /** A write no earlier than every existing record is what an unbounded read sees. */
  lemma LatestAfterAll<V>(history: History<V>, v: Option<V>, t: int)
    requires forall ts :: ts in history ==> ts <= t
    ensures Latest(history[t := v], None) == v
  {
    var h := history[t := v];
    assert t in Visible(h, None);
  }

  /** The facts `Insert` and `Delete` state, for a record (value or tombstone). */
  lemma WriteSeen<K(!new), V>(table: Table<K, V>, key: K, v: Option<V>, t: int)
    ensures table.InternalInsert(key, v, t).At(key, Some(t)) == v
    ensures forall earlier :: earlier < t ==>
              table.InternalInsert(key, v, t).At(key, Some(earlier)) == table.At(key, Some(earlier))
  {
    var history := if key in table.data then table.data[key] else map[];
    assert table.InternalInsert(key, v, t).data[key] == history[t := v];
    LatestAtWrite(history, v, t);
    forall earlier | earlier < t
      ensures table.InternalInsert(key, v, t).At(key, Some(earlier)) == table.At(key, Some(earlier))
    {
      LatestBeforeWrite(history, v, t, earlier);
      if key !in table.data {
        assert Visible(history, Some(earlier)) == {};
      }
    }
  }

  /** The newest timestamp of `key`, if any: the time a newer write must follow. */
  predicate NewerThanAll<K(!new), V>(table: Table<K, V>, key: K, t: int) {
    key in table.data ==> forall ts :: ts in table.data[key] ==> ts <= t
  }

  /**
   * A write no earlier than the key's existing records decides what an
   * unbounded read sees: after `delete` the key reads as absent and leaves
   * `keys()`; after `insert` (also after a delete) it reads as the new value.
   */
  lemma NewestWriteWins<K(!new), V>(table: Table<K, V>, key: K, v: Option<V>, t: int)
    requires NewerThanAll(table, key, t)
    ensures table.InternalInsert(key, v, t).At(key, None) == v
    ensures key in table.InternalInsert(key, v, t).Keys(None) <==> v.Some?
  {
    var history := if key in table.data then table.data[key] else map[];
    assert table.InternalInsert(key, v, t).data[key] == history[t := v];
    LatestAfterAll(history, v, t);
  }

  /** A record written at an existing timestamp replaces the one there. */
  lemma SameTimestampReplaces<K(!new), V>(table: Table<K, V>, key: K, first: Option<V>, second: Option<V>, t: int)
    ensures table.InternalInsert(key, first, t).InternalInsert(key, second, t) == table.InternalInsert(key, second, t)
  {
    var h := if key in table.data then table.data[key] else map[];
    var once := table.InternalInsert(key, first, t);
    assert once.data == table.data[key := h[t := first]];
    assert once.InternalInsert(key, second, t).data == table.data[key := h[t := first][t := second]];
    assert h[t := first][t := second] == h[t := second];
  }

  /** A table holding records for one key only lists that key exactly when it reads as present. */
  lemma OnlyKey<K(!new), V>(table: Table<K, V>, key: K, atTime: Option<int>)
    requires table.data.Keys == {key}
    ensures table.Keys(atTime) == if table.At(key, atTime).Some? then {key} else {}
  {
  }

  /** Insert, delete, insert again: the key is back with the newest value. */
  lemma ReinsertAfterDelete<K(!new), V>(table: Table<K, V>, key: K, first: V, last: V, t1: int, t2: int, t3: int)
    requires NewerThanAll(table, key, t1) && t1 <= t2 <= t3
    ensures table.Insert(key, first, t1).Delete(key, t2).Insert(key, last, t3).At(key, None) == Some(last)
    ensures key in table.Insert(key, first, t1).Delete(key, t2).Insert(key, last, t3).Keys(None)
  {
    var a := table.Insert(key, first, t1);
    var b := a.Delete(key, t2);
    assert NewerThanAll(a, key, t2);
    assert NewerThanAll(b, key, t3);
    NewestWriteWins(b, key, Some(last), t3);
  }

  /** The expectations of the table's test for an update. */
  lemma SnapshotUpdateExample()
    ensures var t := EmptySnapshottingTable<int, int>().Insert(10, 100, 1).Insert(10, 101, 3);
      t.At(10, None) == Some(101) && t.At(10, Some(2)) == Some(100) && t.At(10, Some(0)) == None
  {
    var one := EmptySnapshottingTable<int, int>().Insert(10, 100, 1);
    assert NewerThanAll(one, 10, 3);
    NewestWriteWins(one, 10, Some(101), 3);
  }

  /** The expectations of the table's test for a delete. */
  lemma SnapshotDeleteExample()
    ensures var t := EmptySnapshottingTable<int, int>().Insert(10, 100, 1).Delete(10, 3);
      t.Keys(None) == {} && t.Keys(Some(2)) == {10} && t.At(10, Some(2)) == Some(100)
  {
    var one := EmptySnapshottingTable<int, int>().Insert(10, 100, 1);
    assert NewerThanAll(one, 10, 3);
    NewestWriteWins(one, 10, None, 3);
    var deleted := one.Delete(10, 3);
    assert deleted.At(10, Some(2)) == Some(100) by {
      assert one.data[10] == map[1 := Some(100)];
      assert Visible(one.data[10], Some(2)) == {1};
    }
    OnlyKey(deleted, 10, None);
    OnlyKey(deleted, 10, Some(2));
  }
}
