/**
 * A table of items kept in folders, next to a table of per-folder item
 * counts that every insert and delete updates in the same step. The safety
 * property is that the counts always match the items.
 */
module Counter {
  import opened Wrappers
  import opened Framework
  import opened DatabaseTable

  const Folders: set<int> := {1, 2, 3}
  const Items: set<int> := {11, 12, 13}
  const ItemValue: int := 111
  /** The order in which `setOf(1, 2, 3)` iterates. */
  const FolderOrder: seq<int> := [1, 2, 3]

  datatype ItemsKey = ItemsKey(folder: int, item: int)

  datatype CounterState = CounterState(items: Table<ItemsKey, int>, counts: Table<int, int>)

  /** `startEmpty`: both tables empty. */
  function StartEmpty(): CounterState {
    CounterState(EmptyTable(), EmptyTable())
  }

  /** The state after inserting `key` and counting it in its folder. */
  function Inserted(s: CounterState, key: ItemsKey): CounterState {
    CounterState(
      s.items.Insert(key, ItemValue),
      s.counts.Upsert(key.folder, s.counts.At(key.folder).GetOr(0) + 1))
  }

  /** `insertRow`: one successor per absent (folder, item) key. */
  function InsertRow(s: CounterState): set<CounterState> {
    set folder, item | folder in Folders && item in Items && !s.items.ContainsKey(ItemsKey(folder, item))
      :: Inserted(s, ItemsKey(folder, item))
  }

  /** The state after deleting `key` and uncounting it; the folder must have a count. */
  function Deleted(s: CounterState, key: ItemsKey): CounterState
    requires s.counts.At(key.folder).Some?
  {
    CounterState(
      s.items.Delete(key),
      s.counts.Upsert(key.folder, s.counts.At(key.folder).value - 1))
  }

  /**
   * `deleteRow`: one successor per present (folder, item) key. A folder
   * without a count, where `deleteRow`'s `!!` throws, gives no successor;
   * `DeleteNeverMeetsNull` shows this cannot happen while the counts match.
   */
  function DeleteRow(s: CounterState): set<CounterState> {
    set folder, item | folder in Folders && item in Items && s.items.ContainsKey(ItemsKey(folder, item))
                       && s.counts.At(folder).Some?
      :: Deleted(s, ItemsKey(folder, item))
  }

  /** The rows of the items table that lie in `folder`. */
  function InFolder(folder: int): (ItemsKey, int) -> bool {
    (k: ItemsKey, _: int) => k.folder == folder
  }

  /** `countsMatch`: each folder's count, or 0 when it has none, is its number of items. */
  function CountsMatch(s: CounterState): bool {
    forall folder | folder in Folders :: s.items.Count(InFolder(folder)) == s.counts.At(folder).GetOr(0)
  }

  /** The loop of `countsMatch`: the folders in order, stopping at the first whose count is off. */
  method CheckCountsMatch(s: CounterState) returns (r: bool)
    ensures r == CountsMatch(s)
  {
    for j := 0 to |FolderOrder|
      invariant forall k :: 0 <= k < j ==>
        s.items.Count(InFolder(FolderOrder[k])) == s.counts.At(FolderOrder[k]).GetOr(0)
    {
      var folder := FolderOrder[j];
      var numItemsInFolder := s.items.CountIf(InFolder(folder));
      var countInCountsTable := s.counts.At(folder).GetOr(0);
      if numItemsInFolder != countInCountsTable {
        assert folder in Folders;
        return false;
      }
    }
    assert forall folder :: folder in Folders ==> FolderOrder[folder - 1] == folder;
    return true;
  }

  function CounterModel(): Model<CounterState> {
    Model(
      [StartEmpty()],
      [ Step(s => Many(InsertRow(s)), "insertRow"),
        Step(s => Many(DeleteRow(s)), "deleteRow") ],
      [SafetySpec(CountsMatch)],
      [])
  }

  // ---------------------------------------------------------------------------
  // What the steps do
  // ---------------------------------------------------------------------------

  /**
   * Each `insertRow` successor adds one item of value 111 under a key that
   * was absent, raises that key's folder count by one and leaves every other
   * row and count as it was.
   */
  lemma InsertRowEffect(s: CounterState, t: CounterState)
    requires t in InsertRow(s)
    ensures exists key: ItemsKey :: key.folder in Folders && key.item in Items && !s.items.ContainsKey(key) && t == Inserted(s, key)
    ensures t.items.Size() == s.items.Size() + 1
    ensures forall key :: t.items.At(key) != s.items.At(key) ==> t.items.At(key) == Some(ItemValue)
    ensures forall folder :: t.counts.At(folder) != s.counts.At(folder) ==>
              t.counts.At(folder) == Some(s.counts.At(folder).GetOr(0) + 1)
  {
  }

  /**
   * Each `deleteRow` successor removes one present key, lowers that key's
   * folder count by one and leaves every other row and count as it was.
   */
  lemma DeleteRowEffect(s: CounterState, t: CounterState)
    requires t in DeleteRow(s)
    ensures exists key: ItemsKey :: key.folder in Folders && key.item in Items && s.items.ContainsKey(key)
              && s.counts.At(key.folder).Some? && t == Deleted(s, key)
    ensures t.items.Size() + 1 == s.items.Size()
    ensures forall key :: t.items.At(key) != s.items.At(key) ==> t.items.At(key) == None
  {
  }

  // ---------------------------------------------------------------------------
  // The counts match
  // ---------------------------------------------------------------------------

  lemma StartEmptyMatches()
    ensures CountsMatch(StartEmpty())
  {
    var s := StartEmpty();
    forall folder | folder in Folders
      ensures s.items.Count(InFolder(folder)) == 0
    {
      assert s.items.Matching(InFolder(folder)) == {};
    }
  }

  /** Inserting a row keeps the counts matching. */
  lemma InsertedMatches(s: CounterState, key: ItemsKey)
    requires CountsMatch(s) && !s.items.ContainsKey(key)
    ensures CountsMatch(Inserted(s, key))
  {
    var t := Inserted(s, key);
    forall folder | folder in Folders
      ensures t.items.Count(InFolder(folder)) == t.counts.At(folder).GetOr(0)
    {
      CountAfterInsert(s.items, key, ItemValue, InFolder(folder));
    }
  }

  /** Deleting a row keeps the counts matching. */
  lemma DeletedMatches(s: CounterState, key: ItemsKey)
    requires CountsMatch(s) && s.items.ContainsKey(key) && s.counts.At(key.folder).Some?
    ensures CountsMatch(Deleted(s, key))
  {
    var t := Deleted(s, key);
    forall folder | folder in Folders
      ensures t.items.Count(InFolder(folder)) == t.counts.At(folder).GetOr(0)
    {
      CountAfterDelete(s.items, key, InFolder(folder));
    }
  }

  /**
   * While the counts match, a folder holding an item has a count of at least
   * one, so the `!!` of `deleteRow` never meets a missing count.
   */
  lemma DeleteNeverMeetsNull(s: CounterState, key: ItemsKey)
    requires CountsMatch(s) && s.items.ContainsKey(key) && key.folder in Folders
    ensures s.counts.At(key.folder).Some? && s.counts.At(key.folder).value >= 1
  {
    assert key in s.items.Matching(InFolder(key.folder));
  }

  /** Both steps keep `countsMatch`. */
  lemma StepsKeepCountsMatch(s: CounterState, i: nat, t: CounterState)
    requires CountsMatch(s)
    requires i < |CounterModel().steps| && t in CounterModel().steps[i].generator(s)
    ensures CountsMatch(t)
  {
    if i == 0 {
      var folder, item :| folder in Folders && item in Items && !s.items.ContainsKey(ItemsKey(folder, item))
                          && t == Inserted(s, ItemsKey(folder, item));
      InsertedMatches(s, ItemsKey(folder, item));
    } else {
      var folder, item :| folder in Folders && item in Items && s.items.ContainsKey(ItemsKey(folder, item))
                          && s.counts.At(folder).Some? && t == Deleted(s, ItemsKey(folder, item));
      DeletedMatches(s, ItemsKey(folder, item));
    }
  }

  /**
   * The test `succeeds`: `countsMatch` holds in every reachable state, so the
   * search finds no violation.
   */
  lemma CountsAlwaysMatch(s: CounterState)
    requires Reachable(CounterModel(), [StartEmpty()], s)
    ensures CountsMatch(s)
    ensures !SafetyViolated(s, CounterModel().safeties)
  {
    var m := CounterModel();
    StartEmptyMatches();
    forall a, i, b | CountsMatch(a) && 0 <= i < |m.steps| && b in m.steps[i].generator(a)
                     && WithinBoundaries(m.boundaries, b)
      ensures CountsMatch(b)
    {
      StepsKeepCountsMatch(a, i, b);
    }
    assert Inductive(m, [StartEmpty()], CountsMatch);
    InductiveHoldsReachable(m, [StartEmpty()], CountsMatch);
  }

  // ---------------------------------------------------------------------------
  // The tests' reachability facts
  // ---------------------------------------------------------------------------

  /** One insert from the empty state. */
  function FirstInsert(): CounterState {
    Inserted(StartEmpty(), ItemsKey(1, 11))
  }

  lemma FirstInsertReachable()
    ensures Reachable(CounterModel(), [StartEmpty()], FirstInsert())
  {
    var m := CounterModel();
    InitReachable(m, [StartEmpty()], StartEmpty());
    assert FirstInsert() in InsertRow(StartEmpty());
    ReachableStep(m, [StartEmpty()], StartEmpty(), 0, FirstInsert());
  }

  /** The tests `reachesInsertedItems` and `reachesNonZeroCount`: one insert into folder 1. */
  lemma ReachesInsertedItems()
    ensures Reachable(CounterModel(), [StartEmpty()], FirstInsert())
    ensures FirstInsert().items.ContainsKey(ItemsKey(1, 11))
    ensures FirstInsert().counts.At(1) == Some(1)
  {
    FirstInsertHolds();
    FirstInsertReachable();
  }

  lemma FirstInsertHolds()
    ensures FirstInsert().items.ContainsKey(ItemsKey(1, 11))
    ensures FirstInsert().counts.At(1) == Some(1)
  {
  }

  /** The test `reachesIncrementedCount`: a second insert into folder 1 raises its count to 2. */
  lemma ReachesIncrementedCount()
    ensures var t := Inserted(FirstInsert(), ItemsKey(1, 12));
      Reachable(CounterModel(), [StartEmpty()], t) && t.counts.At(1) == Some(2)
  {
    var m, s := CounterModel(), FirstInsert();
    var t := Inserted(s, ItemsKey(1, 12));
    FirstInsertReachable();
    assert !s.items.ContainsKey(ItemsKey(1, 12));
    assert t in InsertRow(s);
    ReachableStep(m, [StartEmpty()], s, 0, t);
  }

  /** The initial state of the tests that start from one row. */
  function OneRow(): CounterState {
    CounterState(TableOf(ItemsKey(1, 11), 123), TableOf(1, 1))
  }

  /**
   * The tests `reachesEmptyFromNonEmpty` and `reachesZeroCountFromNonEmpty`:
   * deleting the one row empties the items and brings folder 1's count to 0.
   */
  lemma ReachesEmptyFromOneRow()
    ensures var t := Deleted(OneRow(), ItemsKey(1, 11));
      Reachable(CounterModel(), [OneRow()], t) && t.items.Empty() && t.counts.At(1) == Some(0)
  {
    var m, s := CounterModel(), OneRow();
    var t := Deleted(s, ItemsKey(1, 11));
    InitReachable(m, [s], s);
    assert t in DeleteRow(s);
    ReachableStep(m, [s], s, 1, t);
    assert t.items.data == map[];
  }
}
