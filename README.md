# A verified model of model-verifier-in-kotlin

The Kotlin library checks models of concurrent and puzzle-like systems.
A model has initial states, steps, safety properties and boundaries. The
library searches the reachable states breadth-first and reports either
success or the first state that breaks a safety property, together with
the chain of steps that led to it.

This project models, in Dafny:

- **The search engine** (`Framework`, from `framework/Model.kt`).
  - The solve loop is a method. It is proved against a reachability
    specification: a state is reachable when a chain of steps, each
    allowed by the boundaries, replays from an initial state to it.
  - A failure names a state that breaks a safety property, and its chain
    replays.
  - On success, the visited states are exactly the reachable ones, and no
    reachable state breaks a safety property.
  - The `reaches` technique of the test helper is a method proved to
    answer exactly whether a target is reachable.
- **The model-definition language** (`Lang`).
  - The `StateReceiver` class with its `emit` methods.
  - `collecting`, and `assuming(...) collecting`.
- **The set helper** `subsets()` (`Sets`), proved to return every non-empty
  subset, with `2^n - 1` members.
- **The two tables.**
  - `DatabaseTable`: insert, upsert, update, delete and countIf.
  - `SnapshottingTable`, the time-versioned table: a read at a time sees
    each key's newest record not after that time.
- **The example models**: DieHard, EightQueens, Mu, Counter,
  FortyOunceStone, ReadersWriters, and the Paxos model with its state.
  - Each model's steps are proved against what they change.
  - Each model's safety verdict is proved: an inductive invariant for the
    models that succeed, and a reachable witness for those whose safety
    property is meant to fail.
  - The eight queens model is split in three modules: the board and its
    lemmas (`EightQueensBoard`), the finite set of boards the search can
    meet (`EightQueensUniverse`), and the model with its search
    (`EightQueens`).

## Model

| member | source | states |
|---|---|---|
| Framework.ProduceStates | framework/Model.kt:137-146 | a step's set is taken as it is, a null becomes no successor, and a single state becomes a one-element set |
| Framework.Step | framework/Model.kt:106-114 | a step keeps its member's name, and its generator yields exactly the states the member's return value stands for |
| Framework.Merge | framework/Model.kt:159-168 | the child's chain is the parent's chain with one hop appended, holding the parent's state and the step's name |
| Framework.WithinBoundaries | framework/Model.kt:170-175 | true exactly when every boundary property holds of the state |
| Framework.CheckBoundaries | framework/Model.kt:170-175 | the loop over the boundaries, which returns at the first rejection, returns exactly `WithinBoundaries` |
| Framework.SafetyViolated | framework/Model.kt:177-182 | true exactly when some safety property is false of the state |
| Framework.CheckSafety | framework/Model.kt:177-182 | the loop over the safety properties, which returns at the first failure, returns exactly `SafetyViolated` |
| Framework.ExtendChain | framework/Model.kt:80-90 | appending a hop to a replayable chain, for an allowed successor that survives the boundaries, gives a replayable chain to that successor |
| Framework.ClosedHoldsReachable | framework/Model.kt:66-96 | a set that holds the initial states and is closed under the boundary-filtered steps holds every reachable state |
| Framework.InductiveHoldsReachable | framework/Model.kt:66-96 | a predicate that holds initially and is kept by every boundary-filtered step holds in every reachable state |
| Framework.EnqueueSuccessors | framework/Model.kt:81-91 | one step's successors: each unvisited one within the boundaries is queued once with its merged chain and marked visited, and afterwards every successor within the boundaries is visited |
| Framework.ExpandState | framework/Model.kt:80-92 | after all steps are applied to the dequeued state, every successor within the boundaries is visited, and the queue invariant is kept |
| Framework.Search | framework/Model.kt:72-95 | the queue loop ends either in a failure, at a dequeued state that breaks a property, whose chain replays and which was never expanded, or in a success, where every visited state was expanded and the visited set is closed under the steps; only states that passed every safety property were expanded, each with all its in-bounds successors visited; every visited state is reachable and was enqueued once |
| Framework.Solve | framework/Model.kt:66-96 | the visited count is the number of distinct states queued; only states that passed every safety property are expanded, each with all its in-bounds successors visited; failure gives a violating, visited but unexpanded state with a replaying chain; success expands every visited state and means the visited set is exactly the reachable set, and no reachable state violates a property; no initial states, or no properties, give success |
| Framework.NothingReachableWithoutInit | framework/Model.kt:67-70 | with no initial states, nothing is reachable |
| Framework.SolveModel | framework/Model.kt:54-56 | `solve()`: the model's own initial states and safeties, with the verdict of `Solve` |
| Framework.SolveFrom | framework/Model.kt:58-60 | `solveFrom`: the given initial states and the model's safeties, with the verdict of `Solve` |
| Framework.SolveWithSafeties | framework/Model.kt:62-64 | `solveWithSafeties`: the model's initial states and the given safeties, with the verdict of `Solve` |
| Framework.Reaches | testing/ModelClassSubject.kt:47-50 | solving with the single property "not the target" fails exactly when the target is reachable |
| Framework.InitReachable | framework/Model.kt:69-70 | every initial state is reachable |
| Framework.ReachableStep | framework/Model.kt:80-90 | a successor of a reachable state that survives the boundaries is reachable |
| Framework.StricterBoundariesReachLess | framework/Model.kt:82 | with the same steps, stricter boundaries reach only states that looser ones reach |
| Lang.Emitted | lang/Lang.kt:22-26 | what a `collecting` body leaves in the receiver, emission by emission; EmittedExactly and EmittedAppend state what it holds |
| Lang.Assuming | lang/Lang.kt:38-40 | `assuming(cond)` evaluates the guard once; ConditionLhs.Collecting states that a false guard collects nothing and a true one everything the body emits |
| Lang.EmittedExactly | lang/Lang.kt:22-26 | a state is collected exactly when some emission of the body produces it |
| Lang.EmittedAppend | lang/Lang.kt:28-35 | collecting two bodies in sequence gives the union of their results |
| Lang.DuplicateEmissionCollapses | lang/Lang.kt:29-31 | emitting a state again changes nothing, because the receiver is a set |
| Lang.StateReceiver.constructor | lang/Lang.kt:28 | a new receiver holds no states |
| Lang.StateReceiver.Emit | lang/Lang.kt:29-31 | `emit(s)` adds `s` and nothing else |
| Lang.StateReceiver.EmitAll | lang/Lang.kt:33-35 | `emit(ss)` adds the elements of `ss`, one by one, and nothing else |
| Lang.StateReceiver.Run | lang/Lang.kt:22-26 | running a body adds exactly what its emissions produce |
| Lang.Collecting | lang/Lang.kt:22-26 | `collecting { body }` returns exactly what the body emits |
| Lang.ConditionLhs.Collecting | lang/Lang.kt:42-48 | under a true condition, what the body emits; under a false one, the empty set |
| Sets.IsSubsetOf | lib/Sets.kt:19-21 | `a isSubsetOf b` holds exactly when every element of `a` is in `b` |
| Sets.Pick | lib/Sets.kt:43-45 | `pick` returns a one-element subset of the set |
| Sets.AddWithAndWithout | lib/Sets.kt:34-38 | the loop adds each subset of the rest both with and without the picked item |
| Sets.Subsets | lib/Sets.kt:23-41 | `subsets()` returns exactly the non-empty subsets |
| Sets.SubsetsOfEmpty | lib/Sets.kt:24-26 | the empty set has no non-empty subsets |
| Sets.SubsetsOfSingleton | lib/Sets.kt:28-30 | a singleton's only non-empty subset is itself |
| Sets.SubsetsStep | lib/Sets.kt:32-40 | the non-empty subsets are those of the rest, with and without the item, plus the item alone |
| Sets.SubsetsCount | lib/Sets.kt:23-41 | a set of `n` elements has `2^n - 1` non-empty subsets |
| Sets.SubsetsCountExamples | lib/SetsTest.kt:28-66 | sets of size 2, 3 and 4 give 3, 7 and 15 subsets |
| DatabaseTable.Table.Size | lib/DatabaseTable.kt:64 | the number of rows; the contracts of Insert, Upsert and Delete state how each operation changes it |
| DatabaseTable.Table.Keys | lib/DatabaseTable.kt:68 | the keys present; Empty, ContainsKey and Update state their relation to the rows |
| DatabaseTable.Table.At | lib/DatabaseTable.kt:72 | the row's value, or none for an absent key; ContainsKey and the contracts of every operation state what each read returns afterwards |
| DatabaseTable.Table.Empty | lib/DatabaseTable.kt:66 | empty exactly when there are no keys, and so no key has a value |
| DatabaseTable.Table.ContainsKey | lib/DatabaseTable.kt:70-72 | a key is contained exactly when `at` gives it a value |
| DatabaseTable.Table.Insert | lib/DatabaseTable.kt:20-28 | a present key leaves the table unchanged; an absent key gets the value and the size grows by one; other keys are untouched |
| DatabaseTable.Table.Upsert | lib/DatabaseTable.kt:30-35 | the key gets the value, the other keys are untouched, and the size grows only when the key was absent |
| DatabaseTable.Table.Update | lib/DatabaseTable.kt:37-42 | an absent key leaves the table unchanged; a present key gets the value; the keys stay the same and other keys are untouched |
| DatabaseTable.Table.Delete | lib/DatabaseTable.kt:44-52 | an absent key leaves the table unchanged; the key loses its value, the other keys are untouched, and the size drops only when the key was present |
| DatabaseTable.Table.Count | lib/DatabaseTable.kt:54-62 | the number of matching rows is at most the size |
| DatabaseTable.Table.CountIf | lib/DatabaseTable.kt:54-62 | the loop over the entries counts exactly the rows that satisfy the predicate |
| DatabaseTable.EmptyTable | lib/DatabaseTable.kt:75 | `emptyTable()` is empty, with size 0 |
| DatabaseTable.TableOf | lib/DatabaseTable.kt:77 | `tableOf(k, v)` has key `k` only, with value `v`, and equals inserting it into an empty table |
| DatabaseTable.UpsertOverrides | lib/DatabaseTable.kt:30-35 | a second upsert of the same key overrides the first |
| DatabaseTable.InsertThenDelete | lib/DatabaseTable.kt:20-52 | inserting an absent key and then deleting it gives back the table |
| DatabaseTable.CountAfterInsert | lib/DatabaseTable.kt:20-62 | inserting an absent key raises the count by one exactly when the new row matches |
| DatabaseTable.CountAfterDelete | lib/DatabaseTable.kt:44-62 | deleting a present key lowers the count by one exactly when the deleted row matched |
| DatabaseTable.TableExamples | lib/DatabaseTableTest.kt:34-150 | the size, keys, value, containment and count expectations of the table's tests |
| SnapshottingTable.Latest | lib/SnapshottingDatabaseTable.kt:72-75 | with no record seen, nothing; otherwise the record with the greatest timestamp seen |
| SnapshottingTable.Table.At | lib/SnapshottingDatabaseTable.kt:45-50 | a key with no history, or no record seen, reads as nothing; otherwise the read returns the record, value or tombstone, with the greatest timestamp at or before the read time, and a value read was written at a seen timestamp |
| SnapshottingTable.Table.Keys | lib/SnapshottingDatabaseTable.kt:34-43 | a key is listed exactly when reading it at that time gives a value |
| SnapshottingTable.Table.KeysAt | lib/SnapshottingDatabaseTable.kt:34-43 | the loop over the histories returns exactly `Keys` |
| SnapshottingTable.Table.Empty | lib/SnapshottingDatabaseTable.kt:28-30 | empty at a time exactly when no key reads as a value then |
| SnapshottingTable.Table.InternalInsert | lib/SnapshottingDatabaseTable.kt:52-70 | the key joins the keys with the record at `t`; other keys, and the key's other timestamps, are untouched; a record already at `t` is replaced |
| SnapshottingTable.Table.InternalInsertByLoop | lib/SnapshottingDatabaseTable.kt:52-70 | the entry-copying loop builds exactly `InternalInsert` |
| SnapshottingTable.Table.Insert | lib/SnapshottingDatabaseTable.kt:20-22 | a read at `t` sees the new value; reads before `t`, and reads of other keys, are unchanged |
| SnapshottingTable.Table.Delete | lib/SnapshottingDatabaseTable.kt:24-26 | a read at `t` sees nothing; reads before `t`, and reads of other keys, are unchanged |
| SnapshottingTable.EmptySnapshottingTable | lib/SnapshottingDatabaseTable.kt:78 | at every time, no keys and empty |
| SnapshottingTable.LatestAtWrite | lib/SnapshottingDatabaseTable.kt:72-75 | a read at the time of a write sees that write |
| SnapshottingTable.LatestBeforeWrite | lib/SnapshottingDatabaseTable.kt:72-75 | a read before a write does not see it |
| SnapshottingTable.LatestAfterAll | lib/SnapshottingDatabaseTable.kt:72-75 | an unbounded read sees a write newer than every record |
| SnapshottingTable.WriteSeen | lib/SnapshottingDatabaseTable.kt:52-75 | after `internalInsert`, a read at `t` sees the record, and reads before `t` see what they saw before |
| SnapshottingTable.NewestWriteWins | lib/SnapshottingDatabaseTable.kt:34-75 | a write newer than every record of the key is what an unbounded read sees, and the key is listed exactly when it wrote a value |
| SnapshottingTable.SameTimestampReplaces | lib/SnapshottingDatabaseTable.kt:57-60 | two writes at the same timestamp leave only the second |
| SnapshottingTable.OnlyKey | lib/SnapshottingDatabaseTable.kt:34-43 | a table with one key lists it exactly when it reads as a value |
| SnapshottingTable.ReinsertAfterDelete | lib/SnapshottingDatabaseTableTest.kt:181-192 | insert, delete, insert at later times: the key is listed and reads as the last value |
| SnapshottingTable.SnapshotUpdateExample | lib/SnapshottingDatabaseTableTest.kt:83-122 | after two writes at times 1 and 3: the newest value now, the first value at time 2, nothing at time 0 |
| SnapshottingTable.SnapshotDeleteExample | lib/SnapshottingDatabaseTableTest.kt:125-151 | after a write at 1 and a delete at 3: no keys now, while at time 2 the key is listed and holds the old value |
| DieHard.StartBothJugsEmpty | examples/diehard/DieHardModel.kt:30-32 | both jugs start empty; ReachableInBounds and FourGallonsReachable start their chains from it |
| DieHard.Jug5DoesntContain4Gallons | examples/diehard/DieHardModel.kt:75-77 | the first safety property; ViolationIsFourGallons states that the two safeties fail exactly when the 5-gallon jug holds 4 |
| DieHard.Jug3WithinSize | examples/diehard/DieHardModel.kt:80-82 | the second safety property; ReachableInBounds states that it holds of every reachable state |
| DieHard.Fill3 | examples/diehard/DieHardModel.kt:34-37 | the 3-gallon jug is full, and the 5-gallon jug is unchanged |
| DieHard.Fill5 | examples/diehard/DieHardModel.kt:39-42 | corrected: the 5-gallon jug is full, and the 3-gallon jug is unchanged |
| DieHard.Empty3 | examples/diehard/DieHardModel.kt:44-47 | the 3-gallon jug is empty, and the other is unchanged |
| DieHard.Empty5 | examples/diehard/DieHardModel.kt:49-52 | the 5-gallon jug is empty, and the other is unchanged |
| DieHard.Pour3To5 | examples/diehard/DieHardModel.kt:54-62 | the water is conserved, and either the 3-gallon jug is emptied or the 5-gallon jug is filled |
| DieHard.Pour5To3 | examples/diehard/DieHardModel.kt:64-72 | the water is conserved, and either the 5-gallon jug is emptied or the 3-gallon jug is filled |
| DieHard.UniverseIsInBounds | examples/diehard/DieHardModel.kt:29-72 | the finite state space is exactly the jug contents within their sizes |
| DieHard.StepsKeepBounds | examples/diehard/DieHardModel.kt:34-72 | every pour, fill and empty keeps both jugs within their sizes |
| DieHard.ReachableInBounds | examples/diehard/DieHardModel.kt:79-82 | every reachable state keeps the 3-gallon jug within its size, so `jug3WithinSize` never fails |
| DieHard.FourGallonsReachable | examples/diehard/DieHardModel.kt:29-77 | the six-pour answer replays from empty jugs to 4 gallons in the 5-gallon jug |
| DieHard.SolveDieHard | examples/diehard/DieHardModel.kt:27-83 | solving fails, with 4 gallons in the 5-gallon jug, and the chain replays |
| DieHard.ViolationIsFourGallons | examples/diehard/DieHardModel.kt:74-82 | a reachable state breaks a property exactly when the 5-gallon jug holds 4 gallons |
| DieHard.Fill5AsWrittenFallsShort | examples/diehard/DieHardModel.kt:39-42 | as written, `fill5` never leaves the 5-gallon jug full; from empty jugs it gives 3 gallons, not 5 |
| DieHard.AsWrittenVerdictUnchanged | examples/diehard/DieHardModel.kt:39-82 | the model as written also stays within bounds and also reaches 4 gallons |
| EightQueensBoard.NoQueensPlaced | examples/eightqueens/EightQueensModel.kt:42-44 | the empty board; PeacefulReachable and ReachablePeaceful state what the search reaches from it |
| EightQueensBoard.Attacks | examples/eightqueens/EightQueensModel.kt:72-76 | `attacks`; AttacksMeaning states it as a shared column or diagonal, AttacksSymmetric its symmetry |
| EightQueensBoard.NewQueenSafe | examples/eightqueens/EightQueensModel.kt:50-51 | no earlier queen attacks the new one; PlaceQueen and PlaceQueenOffers state that exactly the safe on-board columns are offered |
| EightQueensBoard.IsSolution | examples/eightqueens/EightQueensModel.kt:62-70 | `isSolution`; SolutionByRows restates it row by row and CheckSolution proves the nested loops equal to it |
| EightQueensBoard.NoSolution | examples/eightqueens/EightQueensModel.kt:58-60 | the safety property whose failure is a solution; SolveEightQueens states that the search violates it at a solution |
| EightQueensBoard.EightQueensState.Place | examples/eightqueens/EightQueensModel.kt:29-31 | `place` appends one queen in the given column and keeps the others |
| EightQueensBoard.AttacksMeaning | examples/eightqueens/EightQueensModel.kt:72-76 | two queens attack exactly when they share a column or a diagonal: equal columns, or column distance equal to row distance |
| EightQueensBoard.AttacksSymmetric | examples/eightqueens/EightQueensModel.kt:72-76 | attacking is symmetric |
| EightQueensBoard.PlaceQueen | examples/eightqueens/EightQueensModel.kt:46-55 | each successor adds one queen on the board, in the next row, attacked by no earlier queen |
| EightQueensBoard.PlaceQueenOffers | examples/eightqueens/EightQueensModel.kt:46-55 | every free column of the next row is offered |
| EightQueensBoard.SolutionByRows | examples/eightqueens/EightQueensModel.kt:62-70 | a full board is a solution exactly when each row is clear of every row below it, the order the loops check it in |
| EightQueensBoard.PairsClearSound | examples/eightqueens/EightQueensModel.kt:62-70 | walking the pairs of rows in the loops' order finds no attack exactly when the rest of the current row and every later row are clear |
| EightQueensBoard.CheckSolution | examples/eightqueens/EightQueensModel.kt:62-70 | the nested loop over the pairs of rows returns exactly `IsSolution` |
| EightQueensBoard.PlaceQueenKeepsPeace | examples/eightqueens/EightQueensModel.kt:46-55 | placing a queen keeps the queens on the board and keeps any two of them from attacking each other |
| EightQueensBoard.PeacefulDistinct | examples/eightqueens/EightQueensModel.kt:72-73 | queens that do not attack each other stand in distinct columns |
| EightQueensBoard.FullBoardHasNoSuccessor | examples/eightqueens/EightQueensModel.kt:46-55 | with eight peaceful queens, no ninth can be placed |
| EightQueensBoard.FullBoardUsesEveryColumn | examples/eightqueens/EightQueensModel.kt:62-70 | eight queens in distinct columns use every column |
| EightQueens.UniverseClosed | examples/eightqueens/EightQueensModel.kt:46-55 | the peaceful boards of at most eight queens are closed under `placeQueen` |
| EightQueens.ReachablePeaceful | examples/eightqueens/EightQueensModel.kt:41-70 | every reachable board is peaceful, with at most eight queens, and is a solution exactly when it has eight |
| EightQueensBoard.SolutionIsSolution | examples/eightqueens/EightQueensModel.kt:62-70 | the board 0, 4, 7, 5, 2, 6, 1, 3 is a solution |
| EightQueens.PeacefulReachable | examples/eightqueens/EightQueensModel.kt:41-55 | every peaceful board is reachable, queen by queen |
| EightQueens.SolutionReachable | examples/eightqueens/EightQueensModel.kt:41-70 | a solution is reachable |
| EightQueens.SolveEightQueens | examples/eightqueens/EightQueensModel.kt:57-60 | solving fails at a solution of the puzzle, and the chain replays |
| Mu.Mi | examples/mu/MuModel.kt:61-63 | the initial string MI; ReachableKeepsInvariant starts the I-count invariant from it |
| Mu.AppendU | examples/mu/MuModel.kt:66-71 | `appendU`; AppendUEffect states its one successor and its no-successor case |
| Mu.DoubleAfterM | examples/mu/MuModel.kt:74-77 | `doubleAfterM`; DoubleAfterMEffect states that Mx becomes Mxx |
| Mu.SquashTripleI | examples/mu/MuModel.kt:80-86 | `squashTripleI`; SquashTripleIEffect and SquashTripleAtEffect state its successors |
| Mu.SquashDoubleU | examples/mu/MuModel.kt:89-95 | `squashDoubleU`; SquashDoubleUEffect and SquashDoubleAtEffect state its successors |
| Mu.LimitedLength | examples/mu/MuModel.kt:98-100 | the length boundary; UniverseIsBounded and UniverseClosed state that it keeps the search finite |
| Mu.ExpectedLetters | examples/mu/MuModel.kt:103-109 | `expectedLetters`; CheckExpectedLetters proves the loop equal to it and StepsKeepLetters that every rule keeps it |
| Mu.NoMu | examples/mu/MuModel.kt:112-114 | the safety property MU is not reached; SolveMu states that it holds from MI and SolveMuFromMuuu that it fails from MUUU |
| Mu.CheckExpectedLetters | examples/mu/MuModel.kt:102-109 | the letter-by-letter loop returns exactly `ExpectedLetters` |
| Mu.ICountAppend | examples/mu/MuModel.kt:73-77 | the count of 'I's of a concatenation is the sum of the counts |
| Mu.AppendUEffect | examples/mu/MuModel.kt:65-71 | `appendU` fires exactly after a final 'I'; it appends 'U', keeps the count of 'I's and keeps the letters expected |
| Mu.DoubleAfterMEffect | examples/mu/MuModel.kt:73-77 | `doubleAfterM` fires on any non-empty string, appends everything after the first letter, and doubles the count of 'I's of a well-formed string |
| Mu.SquashTripleIEffect | examples/mu/MuModel.kt:79-86 | a successor exists exactly for each occurrence of "III", and it replaces that occurrence by 'U' |
| Mu.SquashTripleAtEffect | examples/mu/MuModel.kt:79-86 | squashing "III" shortens the string by two, removes three 'I's and keeps the letters expected |
| Mu.SquashDoubleUEffect | examples/mu/MuModel.kt:88-95 | a successor exists exactly for each occurrence of "UU", and it deletes that occurrence |
| Mu.SquashDoubleAtEffect | examples/mu/MuModel.kt:88-95 | deleting "UU" shortens the string by two, keeps the count of 'I's and keeps the letters expected |
| Mu.StepsKeepLetters | examples/mu/MuModel.kt:65-109 | every rule keeps `expectedLetters` |
| Mu.StepsKeepInvariant | examples/mu/MuModel.kt:65-95 | every rule keeps the count of 'I's off the multiples of three |
| Mu.UniverseIsBounded | examples/mu/MuModel.kt:97-109 | the finite state space is exactly the well-formed strings shorter than eight letters |
| Mu.UniverseClosed | examples/mu/MuModel.kt:65-100 | the well-formed short strings are closed under the rules within the boundary |
| Mu.ReachableKeepsInvariant | examples/mu/MuModel.kt:58-114 | every reachable string is well formed, shorter than eight letters, and has a count of 'I's off the multiples of three, so "MU" is never reached |
| Mu.SolveMu | examples/mu/MuModelTest.kt:28-30 | `succeeds`: solving from "MI" finds no violation |
| Mu.MiuReachable | examples/mu/MuModelTest.kt:33-35 | "MIU" is reachable from "MI" |
| Mu.MiuiuFromMiu | examples/mu/MuModelTest.kt:38-40 | "MIUIU" is reachable from "MIU" |
| Mu.MuuuFromMuiiiu | examples/mu/MuModelTest.kt:43-45 | "MUUU" is reachable from "MUIIIU" |
| Mu.MuFromMuuu | examples/mu/MuModelTest.kt:48-50 | "MU" is reachable from "MUUU" |
| Mu.SolveMuFromMuuu | examples/mu/MuModelTest.kt:53-55 | `failsFromMuuu`: solving from "MUUU" fails |
| Counter.StartEmpty | examples/counter/sync/CounterModel.kt:35-37 | both tables empty; StartEmptyMatches states that the counts match there |
| Counter.InsertRow | examples/counter/sync/CounterModel.kt:40-51 | `insertRow`; InsertRowEffect states each successor and InsertedMatches that it keeps the counts matching |
| Counter.DeleteRow | examples/counter/sync/CounterModel.kt:54-65 | `deleteRow`; DeleteRowEffect states each successor, DeletedMatches that it keeps the counts matching and DeleteNeverMeetsNull that `!!` never throws |
| Counter.CountsMatch | examples/counter/sync/CounterModel.kt:68-77 | `countsMatch`; CheckCountsMatch proves the loop equal to it and CountsAlwaysMatch that every reachable state meets it |
| Counter.CheckCountsMatch | examples/counter/sync/CounterModel.kt:67-77 | the loop over the folders returns exactly `CountsMatch` |
| Counter.InsertRowEffect | examples/counter/sync/CounterModel.kt:39-51 | each successor inserts one absent key with value 111 and raises that folder's count by one; nothing else changes |
| Counter.DeleteRowEffect | examples/counter/sync/CounterModel.kt:53-65 | each successor deletes one present key whose folder has a count; the items shrink by one, and no other item changes |
| Counter.StartEmptyMatches | examples/counter/sync/CounterModel.kt:34-37 | the empty tables match |
| Counter.InsertedMatches | examples/counter/sync/CounterModel.kt:39-51 | inserting keeps the counts matching |
| Counter.DeletedMatches | examples/counter/sync/CounterModel.kt:53-65 | deleting keeps the counts matching |
| Counter.DeleteNeverMeetsNull | examples/counter/sync/CounterModel.kt:61 | while the counts match, a present item's folder has a count of at least one, so the `!!` never throws |
| Counter.StepsKeepCountsMatch | examples/counter/sync/CounterModel.kt:39-77 | both steps keep the counts matching |
| Counter.CountsAlwaysMatch | examples/counter/sync/CounterModelTest.kt:29-31 | `succeeds`: every reachable state has matching counts, so nothing breaks the safety property |
| Counter.ReachesInsertedItems | examples/counter/sync/CounterModelTest.kt:34-41 | a state holding item (1, 11) with folder 1 counted once is reachable |
| Counter.ReachesIncrementedCount | examples/counter/sync/CounterModelTest.kt:44-46 | a state with folder 1 counted twice is reachable |
| Counter.ReachesEmptyFromOneRow | examples/counter/sync/CounterModelTest.kt:49-58 | from one row, a state with no items and folder 1 counted zero is reachable |
| FortyOunceStone.OnePieceOf40 | examples/fortyouncestone/FortyOunceStoneModel.kt:36-38 | the single 40-ounce stone; ReachableInvariant starts from it and OneStoneMeasuresOnlyItself states what it measures |
| FortyOunceStone.Split | examples/fortyouncestone/FortyOunceStoneModel.kt:41-50 | `split`; SplitEffect states each successor and NoSplitFromFour the guard |
| FortyOunceStone.IsRepresentation | examples/fortyouncestone/FortyOunceStoneModel.kt:64-75 | `isRepresentation`; CheckRepresentation proves the loops equal to it, RepresentationBound bounds it and BalanceRepresents gives its witnesses |
| FortyOunceStone.IsSolution | examples/fortyouncestone/FortyOunceStoneModel.kt:57-62 | `isSolution`; CheckSolution proves the loop equal to it, SolutionWeighsForty and PowersOfThreeSolve state its consequences and an instance |
| FortyOunceStone.NoSolution | examples/fortyouncestone/FortyOunceStoneModel.kt:53-55 | the safety property whose failure is the answer; SolveFortyOunceStone states that the search violates it |
| FortyOunceStone.CheckDifferences | examples/fortyouncestone/FortyOunceStoneModel.kt:69-72 | the inner loop finds exactly whether the target is a difference, either way round, with some group of the rest |
| FortyOunceStone.CheckRepresentation | examples/fortyouncestone/FortyOunceStoneModel.kt:64-75 | the loops return exactly `IsRepresentation` |
| FortyOunceStone.CheckSolution | examples/fortyouncestone/FortyOunceStoneModel.kt:57-62 | the loop over 1 to 40 returns exactly `IsSolution` |
| FortyOunceStone.SplitEffect | examples/fortyouncestone/FortyOunceStoneModel.kt:40-50 | a split needs fewer than four pieces and adds at most one; it keeps the pieces positive and never adds weight |
| FortyOunceStone.NoSplitFromFour | examples/fortyouncestone/FortyOunceStoneModel.kt:42 | four pieces or more have no split |
| FortyOunceStone.SumCanShrink | examples/fortyouncestone/FortyOunceStoneModel.kt:44-47 | splitting 40 into 20 and 20 leaves one piece of 20, because the pieces form a set |
| FortyOunceStone.ReachableInvariant | examples/fortyouncestone/FortyOunceStoneModel.kt:35-50 | every reachable state has at most four positive pieces weighing at most 40 in all |
| FortyOunceStone.RepresentationBound | examples/fortyouncestone/FortyOunceStoneModel.kt:64-75 | a measurable weight lies within the total weight of the pieces |
| FortyOunceStone.SolutionWeighsForty | examples/fortyouncestone/FortyOunceStoneModel.kt:57-62 | a reachable solution keeps the full 40 ounces |
| FortyOunceStone.OneStoneMeasuresOnlyItself | examples/fortyouncestone/FortyOunceStoneModel.kt:35-38 | the initial stone measures 40 and nothing else |
| FortyOunceStone.BalancedTernary | examples/fortyouncestone/FortyOunceStoneModel.kt:64-75 | with the first `k` powers of three, every weight up to (3^k - 1) / 2 either way balances between two disjoint groups |
| FortyOunceStone.BalanceRepresents | examples/fortyouncestone/FortyOunceStoneModel.kt:64-75 | a balance of a positive weight is a representation |
| FortyOunceStone.PowersOfThreeSolve | examples/fortyouncestone/FortyOunceStoneModel.kt:57-75 | the pieces 1, 3, 9 and 27 measure every weight from 1 to 40 |
| FortyOunceStone.PowersOfThreeReachable | examples/fortyouncestone/FortyOunceStoneModel.kt:40-50 | three splits reach 1, 3, 9 and 27 |
| FortyOunceStone.UniverseClosed | examples/fortyouncestone/FortyOunceStoneModel.kt:35-50 | the initial stone is in the finite state space, which is closed under splitting |
| FortyOunceStone.SolveFortyOunceStone | examples/fortyouncestone/FortyOunceStoneModel.kt:52-55 | solving fails at a solution of at most four pieces weighing 40 in all, and the chain replays |
| ReadersWriters.StartEmpty | examples/readerswriters/ReadersWritersModel.kt:49-51 | nobody active or waiting; ReachableInvariant starts the invariant from it |
| ReadersWriters.ActorsWaiting | examples/readerswriters/ReadersWritersModel.kt:110-116 | `actorsWaiting`; ActorsWaitingMeans states which actors it lists |
| ReadersWriters.TryAction | examples/readerswriters/ReadersWritersModel.kt:54-69 | the common shape of `tryRead` and `tryWrite`; TryActionEffect and TryActionComplete state its successors |
| ReadersWriters.TryRead | examples/readerswriters/ReadersWritersModel.kt:54-60 | `tryRead`, TryAction with a read |
| ReadersWriters.TryWrite | examples/readerswriters/ReadersWritersModel.kt:63-69 | `tryWrite`, TryAction with a write |
| ReadersWriters.ReadOrWrite | examples/readerswriters/ReadersWritersModel.kt:72-85 | `readOrWrite`; ReadOrWriteBlocked states when it has no successor and ReadOrWriteEffect what its successor is |
| ReadersWriters.ReadAs | examples/readerswriters/ReadersWritersModel.kt:118-120 | `read`; ReadOrWriteEffect states its effect |
| ReadersWriters.WriteAs | examples/readerswriters/ReadersWritersModel.kt:122-125 | `write`; ReadOrWriteBlocked and ReadOrWriteEffect state its effect and its null case |
| ReadersWriters.StopA | examples/readerswriters/ReadersWritersModel.kt:88-92 | `stopA`; StopAEffect and StopANeedsActivity state its successors |
| ReadersWriters.StopActivity | examples/readerswriters/ReadersWritersModel.kt:127-133 | `stopActivity`; StopAEffect states its effect |
| ReadersWriters.TypeOk | examples/readerswriters/ReadersWritersModel.kt:95-98 | `typeOk`; InvariantIsSafe and ReachableInvariant state that it always holds |
| ReadersWriters.EitherReadersOrWriters | examples/readerswriters/ReadersWritersModel.kt:101-103 | `eitherReadersOrWriters`; InvariantIsSafe and ReachableInvariant state that it always holds |
| ReadersWriters.AtMostOneWriter | examples/readerswriters/ReadersWritersModel.kt:106-108 | `atMostOneWriter`; InvariantIsSafe and ReachableInvariant state that it always holds |
| ReadersWriters.ActorsWaitingMeans | examples/readerswriters/ReadersWritersModel.kt:110-116 | an actor is waiting for an action exactly when that pair is in the queue |
| ReadersWriters.TryActionEffect | examples/readerswriters/ReadersWritersModel.kt:53-69 | `tryRead`/`tryWrite` append one known actor that is not already waiting for that action, and change nothing else |
| ReadersWriters.TryActionComplete | examples/readerswriters/ReadersWritersModel.kt:53-69 | every known actor not already waiting for the action may join the queue |
| ReadersWriters.ReadOrWriteBlocked | examples/readerswriters/ReadersWritersModel.kt:71-125 | no successor exactly when the queue is empty, a writer is active, or the head wants to write while readers are active |
| ReadersWriters.ReadOrWriteEffect | examples/readerswriters/ReadersWritersModel.kt:71-125 | the head of the queue leaves it and becomes a reader or the writer, by its action |
| ReadersWriters.StopAEffect | examples/readerswriters/ReadersWritersModel.kt:87-133 | one active actor stops; the queue is unchanged |
| ReadersWriters.StopANeedsActivity | examples/readerswriters/ReadersWritersModel.kt:87-92 | `stopA` has no successor exactly when nobody is active |
| ReadersWriters.TryActionKeepsInvariant | examples/readerswriters/ReadersWritersModel.kt:53-69 | joining the queue keeps the state well formed and exclusive |
| ReadersWriters.ReadOrWriteKeepsInvariant | examples/readerswriters/ReadersWritersModel.kt:71-85 | starting to read or write keeps the invariant |
| ReadersWriters.StopAKeepsInvariant | examples/readerswriters/ReadersWritersModel.kt:87-92 | stopping keeps the state well formed and exclusive |
| ReadersWriters.StepsKeepInvariant | examples/readerswriters/ReadersWritersModel.kt:53-92 | every step keeps the invariant |
| ReadersWriters.ReachableInvariant | examples/readerswriters/ReadersWritersModel.kt:48-108 | every reachable state keeps the invariant and breaks no safety property |
| ReadersWriters.InvariantIsSafe | examples/readerswriters/ReadersWritersModel.kt:94-108 | the invariant implies `typeOk`, `eitherReadersOrWriters` and `atMostOneWriter` |
| ReadersWriters.WriterReachable | examples/readerswriters/ReadersWritersModel.kt:62-85 | a single active writer is reachable |
| ReadersWriters.TwoReadersReachable | examples/readerswriters/ReadersWritersModel.kt:53-85 | two concurrent readers are reachable |
| ReadersWriters.UniverseHolds | examples/readerswriters/ReadersWritersModel.kt:39-43 | the finite state space is exactly the well-formed states |
| ReadersWriters.UniverseClosed | examples/readerswriters/ReadersWritersModel.kt:48-92 | the start is in the finite state space, which is closed under the steps |
| ReadersWriters.SolveReadersWriters | examples/readerswriters/ReadersWritersModel.kt:46-134 | solving succeeds |
| PaxosState.AcceptorState.HasPromised | examples/paxos/PaxosState.kt:29 | `hasPromised`; WithNewMaxPromise and PromiseEffect state when it becomes true |
| PaxosState.AcceptorState.HasAccepted | examples/paxos/PaxosState.kt:31 | `hasAccepted`; WithNewMaxPromise states that it is kept and AcceptedEffect that a vote sets it |
| PaxosState.PaxosState.Updated | examples/paxos/PaxosState.kt:61-74 | the private `updateAcceptor`; UpdatedByLoop proves the loop equal to it and UpdatedEffect states what it changes |
| PaxosState.PaxosState.UpdateAcceptor | examples/paxos/PaxosState.kt:53-55 | `updateAcceptor(index, newState)`, Updated with a constant function; AcceptedEffect states its use |
| PaxosState.PaxosState.Accept | examples/paxos/PaxosState.kt:57-59 | `accept(index, ballot)`; AcceptEffect states its effect |
| PaxosState.AcceptorState.WithNewMaxPromise | examples/paxos/PaxosState.kt:25-27 | the new promise is recorded and the last vote is kept |
| PaxosState.PaxosState.Send | examples/paxos/PaxosState.kt:49-51 | the message joins the messages; nothing else is added or removed, and the acceptors are unchanged |
| PaxosState.PaxosState.ContainsMessageMatching | examples/paxos/PaxosState.kt:76 | true exactly when some sent message satisfies the predicate |
| PaxosState.UpdatedByLoop | examples/paxos/PaxosState.kt:61-74 | the entry-copying loop builds exactly the acceptor map with only that entry updated |
| PaxosState.SendIdempotent | examples/paxos/PaxosState.kt:49-51 | sending twice is sending once, and resending a sent message changes nothing |
| PaxosState.UpdatedEffect | examples/paxos/PaxosState.kt:53-74 | only the named acceptor changes; the keys and messages stay, and an absent acceptor is not added |
| PaxosState.AcceptEffect | examples/paxos/PaxosState.kt:57-59 | `accept` makes the acceptor promise the ballot and keeps its last vote |
| Paxos.StartEmpty | examples/paxos/PaxosModel.kt:37-39 | every acceptor unused and no message; ReachableInvariant starts the invariant from it |
| Paxos.PrepareStep | examples/paxos/PaxosModel.kt:42-50 | `prepare`; StepsKeepMessagesAndAcceptors and ReachesPrepareMessage state its effect |
| Paxos.PromiseFrom | examples/paxos/PaxosModel.kt:59-70 | `promise(s, acceptor)`; PromiseEffect states each successor |
| Paxos.PromiseStep | examples/paxos/PaxosModel.kt:52-57 | `promise`: the successors of every acceptor; StepsKeepMessagesAndAcceptors and StepsKeepInvariant state what they keep |
| Paxos.AcceptStep | examples/paxos/PaxosModel.kt:72-79 | `accept`: the successors of every ballot and value; StepsKeepMessagesAndAcceptors and StepsKeepInvariant state what they keep |
| Paxos.AcceptedStep | examples/paxos/PaxosModel.kt:124-129 | `accepted`: the successors of every acceptor; StepsKeepMessagesAndAcceptors and StepsKeepInvariant state what they keep |
| Paxos.Quorums | examples/paxos/PaxosModel.kt:121-122 | `quorums()`; QuorumsIntersect states that any two share an acceptor |
| Paxos.ConditionA | examples/paxos/PaxosModel.kt:105 | condition (a); OnlyConditionAMatters states when it holds |
| Paxos.ConditionB | examples/paxos/PaxosModel.kt:106-112 | condition (b) as written; AcceptForEffect states its part in the proposal |
| Paxos.QuorumAllows | examples/paxos/PaxosModel.kt:87-117 | the body of the loop over quorums; AcceptForEffect and OnlyConditionAMatters state it |
| Paxos.AcceptFor | examples/paxos/PaxosModel.kt:81-119 | `accept(s, ballot, value)`; AcceptForEffect states its successors |
| Paxos.AcceptedBy | examples/paxos/PaxosModel.kt:131-143 | `accepted(s, acceptor)`; AcceptedEffect states each successor |
| Paxos.AcceptorStateConverged | examples/paxos/PaxosModel.kt:166-178 | `acceptorStateConverged`; CheckConverged proves the loop equal to it, ConvergedIsSafe and ReachableInvariant that it always holds |
| Paxos.Votes | examples/paxos/PaxosModel.kt:152-163 | the loop over the acceptors builds exactly the votes list |
| Paxos.VotesListMeaning | examples/paxos/PaxosModel.kt:152-163 | the list has an entry for each acceptor number, holding exactly the votes that acceptor sent |
| Paxos.CheckConverged | examples/paxos/PaxosModel.kt:165-178 | the loop over the acceptors returns exactly `AcceptorStateConverged` |
| Paxos.QuorumsIntersect | examples/paxos/PaxosModel.kt:121-122 | any two quorums share an acceptor |
| Paxos.PromiseEffect | examples/paxos/PaxosModel.kt:52-70 | a promise needs a record and a prepared ballot above the acceptor's promise; it records the promise, keeps the vote, sends a promise reporting no vote, and changes nothing else |
| Paxos.AcceptForEffect | examples/paxos/PaxosModel.kt:81-119 | a proposal is sent exactly when none was sent for the ballot and some quorum allows it |
| Paxos.AcceptedEffect | examples/paxos/PaxosModel.kt:124-143 | a vote needs a proposal at or above the acceptor's promise; the acceptor then holds it as promise and vote, the vote is sent, and nothing else changes |
| Paxos.StepsKeepMessagesAndAcceptors | examples/paxos/PaxosModel.kt:41-143 | no step forgets a message, or adds or removes an acceptor |
| Paxos.OnlyConditionAMatters | examples/paxos/PaxosModel.kt:96-116 | while promises report no earlier vote, condition (b) is never consulted, and a quorum allows a proposal exactly when all its members have promised |
| Paxos.ConvergedIsSafe | examples/paxos/PaxosModel.kt:165-178 | converged acceptors satisfy `acceptorStateConverged` |
| Paxos.VotesGrow | examples/paxos/PaxosModel.kt:152-163 | votes are never withdrawn |
| Paxos.PromiseKeepsInvariant | examples/paxos/PaxosModel.kt:59-70 | promising keeps the invariant |
| Paxos.AcceptedKeepsInvariant | examples/paxos/PaxosModel.kt:131-143 | voting keeps the invariant |
| Paxos.StepsKeepInvariant | examples/paxos/PaxosModel.kt:41-143 | every step keeps the invariant |
| Paxos.ReachableInvariant | examples/paxos/PaxosModelTest.kt:27-29 | `succeeds`: every reachable state keeps the invariant, and so breaks no safety property |
| Paxos.ReachesPrepareMessage | examples/paxos/PaxosModelTest.kt:32-34 | a state with a prepare message is reachable |
| Paxos.ReachesPromisedAcceptors | examples/paxos/PaxosModelTest.kt:37-54 | a state with promise messages, where every acceptor has promised, is reachable |
| Paxos.ReachesAcceptMessage | examples/paxos/PaxosModelTest.kt:42-44 | a state with a proposal message is reachable |
| Paxos.ReachesConvergence | examples/paxos/PaxosModelTest.kt:47-65 | a state where every acceptor holds ballot 1 and value 101, and votes were sent, is reachable |

## Left out

- Reflection: steps, safeties, boundaries and initial states are found through annotations in Kotlin; here each model lists them explicitly, in declaration order.
- Framework.Solve: termination rests on a ghost finite set of states, closed under the steps, which each model supplies and proves; Kotlin's `solve` needs no such set, and would loop forever on an infinite state space.
- Framework.Solve: the search is breadth-first, but the model does not prove that counterexample chains are shortest.
- Iteration order: the Kotlin code iterates Kotlin sets and maps in insertion order. The model iterates sets in an unspecified order. Only which states are queued first, and so which violating state is reported first, depends on the order; each example's reported state is pinned down only as far as its contract says.
- Steps written with `collecting { for ... emit }` are modelled directly as set comprehensions. `Lang` separately proves that `collecting` returns exactly the union of what the body emits.
- Exceptions: a Kotlin `!!` on a missing record, `d[0]` or `last` on an empty string, and `substring(1)` on an empty string are modelled as "no successor" for a step, and as "false" for a safety property. Counter.DeleteNeverMeetsNull shows the Counter case cannot happen while the counts match.
- Paxos: the inner lists of `votes` are modelled as sets, because only membership is ever asked of them.
- Paxos: there is no `solve()` method. The `succeeds` test is stated as the lemma Paxos.ReachableInvariant, because a finite universe of Paxos states is too large to state usefully. The same holds for Counter.CountsAlwaysMatch.
- Paxos.OnlyConditionAMatters: condition (b) is kept as written; it compares a promise's `maxVBallot` with a value. Promises always report no earlier vote, so condition (b) never decides anything, and the model proves that rather than changing it.
- FortyOunceStone: the pieces are a set, as in `FortyOunceStoneState`, so two pieces of equal weight collapse into one (FortyOunceStone.SumCanShrink).
- DatabaseTable.Table.Count: its own contract states only that the count is at most the size. What it counts is pinned down by DatabaseTable.Table.CountIf, DatabaseTable.CountAfterInsert and DatabaseTable.CountAfterDelete.
- Result statistics: only the count of visited states is kept.
- The `print`-style `toString` of results, and the test harness's `Truth` assertions, are not modelled; the tests are stated as lemmas or as methods with postconditions.

## Findings

| source | as written | input that shows it | evidently intended | confidence | as-written member | corrected member |
|---|---|---|---|---|---|---|
| examples/diehard/DieHardModel.kt:40-42 | `fill5` sets the 5-gallon jug to 3 gallons | from two empty jugs, `fill5` gives (3, 0) rather than (5, 0) | the 5-gallon jug filled to 5 gallons | not executed | DieHard.Fill5AsWrittenFallsShort, DieHard.AsWrittenVerdictUnchanged | DieHard.Fill5, DieHard.SolveDieHard |
