/**
 * The explicit-state safety checker: a breadth-first search over the states a
 * model can reach from its initial states, looking for one that breaks a
 * safety property.
 *
 * Kotlin's `Model` discovers a model's `@Init`, `@Step`, `@Safety` and `@Boundary`
 * members by reflection; here a model lists them explicitly, in order, in a
 * `Model` value.
 */
module Framework {

  /** What a step member returns: a set of states, `null`, or a single state. */
  datatype StepOutput<S> = Many(states: set<S>) | Nothing | One(state: S)

  /** A step, already normalised to a set-valued generator, with its member name. */
  datatype StepSpec<!S> = StepSpec(generator: S -> set<S>, methodName: string)

  datatype SafetySpec<!S> = SafetySpec(property: S -> bool)

  datatype BoundarySpec<!S> = BoundarySpec(property: S -> bool)

  /** One hop of a counterexample: the state it starts from and the step taken. */
  datatype ChainElement<S> = ChainElement(state: S, methodName: string)

  type Chain<S> = seq<ChainElement<S>>

  /** An entry of the search queue. */
  datatype StateAndChain<S> = StateAndChain(state: S, chain: Chain<S>)

  datatype Stats = Stats(visitedStates: nat)

  datatype Result<S> =
    | Success(stats: Stats)
    | Failure(stats: Stats, endState: S, chain: Chain<S>)

  /** A model: its initial states, steps, safety properties and boundaries, in order. */
  datatype Model<!S> = Model(
    init: seq<S>,
    steps: seq<StepSpec<S>>,
    safeties: seq<SafetySpec<S>>,
    boundaries: seq<BoundarySpec<S>>)

  /** The successors a step's return value stands for. */
  function ProduceStates<S>(output: StepOutput<S>): (r: set<S>)
    ensures output.Many? ==> r == output.states
    ensures output.Nothing? ==> r == {}
    ensures output.One? ==> r == {output.state}
  {
    match output
    case Many(states) => states
    case Nothing => {}
    case One(state) => {state}
  }

  /** Wraps a step member as a `StepSpec` whose generator goes through `ProduceStates`. */
  function Step<S(!new)>(member: S -> StepOutput<S>, name: string): (step: StepSpec<S>)
    ensures step.methodName == name
    ensures forall s :: step.generator(s) == ProduceStates(member(s))
  {
    StepSpec(s => ProduceStates(member(s)), name)
  }

  /** The chain of a successor: the parent's chain plus one hop from the parent. */
  function Merge<S>(chain: Chain<S>, state: S, methodName: string): (r: Chain<S>)
    ensures |r| == |chain| + 1
    ensures r[..|chain|] == chain
    ensures r[|chain|] == ChainElement(state, methodName)
  {
    chain + [ChainElement(state, methodName)]
  }

  /** True unless some boundary rejects `state`; checked in order, stopping at the first rejection. */
  function WithinBoundaries<S>(boundaries: seq<BoundarySpec<S>>, state: S): (r: bool)
    ensures r <==> forall i :: 0 <= i < |boundaries| ==> boundaries[i].property(state)
  {
    if boundaries == [] then true
    else if !boundaries[0].property(state) then false
    else WithinBoundaries(boundaries[1..], state)
  }

  /** True when some safety property is false of `state`; checked in order, stopping at the first. */
  function SafetyViolated<S>(state: S, safetyProperties: seq<SafetySpec<S>>): (r: bool)
    ensures r <==> exists i :: 0 <= i < |safetyProperties| && !safetyProperties[i].property(state)
  {
    if safetyProperties == [] then false
    else if !safetyProperties[0].property(state) then true
    else SafetyViolated(state, safetyProperties[1..])
  }

  /** The loop of `withinBoundaries`: the boundaries in order, returning at the first that rejects. */
  method CheckBoundaries<S>(boundaries: seq<BoundarySpec<S>>, state: S) returns (within: bool)
    ensures within == WithinBoundaries(boundaries, state)
  {
    for i := 0 to |boundaries|
      invariant forall k :: 0 <= k < i ==> boundaries[k].property(state)
    {
      if !boundaries[i].property(state) {
        return false;
      }
    }
    return true;
  }

  /** The loop of `safetyViolated`: the properties in order, returning at the first that fails. */
  method CheckSafety<S>(state: S, safetyProperties: seq<SafetySpec<S>>) returns (violated: bool)
    ensures violated == SafetyViolated(state, safetyProperties)
  {
    for i := 0 to |safetyProperties|
      invariant forall k :: 0 <= k < i ==> safetyProperties[k].property(state)
    {
      if !safetyProperties[i].property(state) {
        return true;
      }
    }
    return false;
  }

  // ---------------------------------------------------------------------------
  // Reachability: the specification the search is proved against
  // ---------------------------------------------------------------------------

  /** `next` is a successor of `state` under some step called `name`. */
  ghost predicate IsStep<S>(m: Model<S>, state: S, name: string, next: S) {
    exists i :: 0 <= i < |m.steps| && m.steps[i].methodName == name && next in m.steps[i].generator(state)
  }

  /** The state a chain's `k`-th hop leads to: the next element's state, or the end state. */
  function HopTarget<S>(chain: Chain<S>, k: nat, end: S): S
    requires k < |chain|
  {
    if k + 1 < |chain| then chain[k + 1].state else end
  }

  /**
   * `chain` replays from one of `initStates` to `end`: it starts at an initial
   * state (or is empty and `end` is initial), and every hop applies the named
   * step and lands on a state that passes all boundaries.
   */
  ghost predicate IsChain<S>(m: Model<S>, initStates: seq<S>, chain: Chain<S>, end: S) {
    && (if chain == [] then end in initStates else chain[0].state in initStates)
    && forall k :: 0 <= k < |chain| ==>
         && IsStep(m, chain[k].state, chain[k].methodName, HopTarget(chain, k, end))
         && WithinBoundaries(m.boundaries, HopTarget(chain, k, end))
  }

  /** A state the search can reach: the end of some replayable chain. */
  ghost predicate Reachable<S(!new)>(m: Model<S>, initStates: seq<S>, s: S) {
    exists chain :: IsChain(m, initStates, chain, s)
  }

  /** Every boundary-surviving successor of a state in `from` is in `into`. */
  ghost predicate ClosedInto<S>(m: Model<S>, from: set<S>, into: set<S>) {
    forall s, i, t ::
      (s in from && 0 <= i < |m.steps| && t in m.steps[i].generator(s) && WithinBoundaries(m.boundaries, t))
      ==> t in into
  }

  /** Every boundary-surviving successor of a state in `states` is in `states`. */
  ghost predicate Closed<S>(m: Model<S>, states: set<S>) {
    ClosedInto(m, states, states)
  }

  /** The states waiting in a search queue. */
  ghost function QueueStates<S>(queue: seq<StateAndChain<S>>): set<S> {
    set k | 0 <= k < |queue| :: queue[k].state
  }

  /** The set of elements of a sequence. */
  ghost function Elements<S>(xs: seq<S>): set<S> {
    set x | x in xs
  }

  ghost predicate NoDuplicates<S>(xs: seq<S>) {
    forall a, b :: 0 <= a < b < |xs| ==> xs[a] != xs[b]
  }

  lemma {:induction false} ExtendChain<S>(m: Model<S>, initStates: seq<S>, chain: Chain<S>, state: S, i: nat, next: S)
    requires IsChain(m, initStates, chain, state)
    requires i < |m.steps| && next in m.steps[i].generator(state)
    requires WithinBoundaries(m.boundaries, next)
    ensures IsChain(m, initStates, Merge(chain, state, m.steps[i].methodName), next)
  {
    var c := Merge(chain, state, m.steps[i].methodName);
    forall k | 0 <= k < |c|
      ensures IsStep(m, c[k].state, c[k].methodName, HopTarget(c, k, next))
      ensures WithinBoundaries(m.boundaries, HopTarget(c, k, next))
    {
      if k < |chain| {
        assert c[k] == chain[k];
        assert HopTarget(c, k, next) == HopTarget(chain, k, state);
      } else {
        assert HopTarget(c, k, next) == next;
      }
    }
    if chain == [] {
      assert c[0].state == state;
    } else {
      assert c[0] == chain[0];
    }
  }

  /** Dropping the last hop of a replayable chain leaves a replayable chain to that hop's start. */
  lemma {:induction false} ChainPrefix<S>(m: Model<S>, initStates: seq<S>, chain: Chain<S>, end: S)
    requires chain != [] && IsChain(m, initStates, chain, end)
    ensures IsChain(m, initStates, chain[..|chain| - 1], chain[|chain| - 1].state)
  {
    var n := |chain| - 1;
    var p := chain[..n];
    forall k | 0 <= k < |p|
      ensures IsStep(m, p[k].state, p[k].methodName, HopTarget(p, k, chain[n].state))
      ensures WithinBoundaries(m.boundaries, HopTarget(p, k, chain[n].state))
    {
      assert HopTarget(p, k, chain[n].state) == HopTarget(chain, k, end);
    }
  }

  /** A set that holds the initial states and is closed under the steps holds every reachable state. */
  lemma {:induction false} ClosedHoldsChain<S>(m: Model<S>, initStates: seq<S>, states: set<S>, chain: Chain<S>, end: S)
    requires forall s :: s in initStates ==> s in states
    requires Closed(m, states)
    requires IsChain(m, initStates, chain, end)
    ensures end in states
    decreases |chain|
  {
    if chain != [] {
      var n := |chain| - 1;
      ChainPrefix(m, initStates, chain, end);
      ClosedHoldsChain(m, initStates, states, chain[..n], chain[n].state);
      assert HopTarget(chain, n, end) == end;
      assert IsStep(m, chain[n].state, chain[n].methodName, end);
      var i :| 0 <= i < |m.steps| && m.steps[i].methodName == chain[n].methodName
        && end in m.steps[i].generator(chain[n].state);
    }
  }

  lemma ClosedHoldsReachable<S(!new)>(m: Model<S>, initStates: seq<S>, states: set<S>)
    requires forall s :: s in initStates ==> s in states
    requires Closed(m, states)
    ensures forall s :: Reachable(m, initStates, s) ==> s in states
  {
    forall s | Reachable(m, initStates, s) ensures s in states {
      var chain :| IsChain(m, initStates, chain, s);
      ClosedHoldsChain(m, initStates, states, chain, s);
    }
  }

  /**
   * `inv` holds of the initial states and survives every boundary-surviving
   * step: an inductive invariant of the search.
   */
  ghost predicate Inductive<S(!new)>(m: Model<S>, initStates: seq<S>, inv: S -> bool) {
    && (forall s :: s in initStates ==> inv(s))
    && (forall s, i, t ::
          (inv(s) && 0 <= i < |m.steps| && t in m.steps[i].generator(s) && WithinBoundaries(m.boundaries, t))
          ==> inv(t))
  }

  lemma {:induction false} InductiveHoldsChain<S(!new)>(m: Model<S>, initStates: seq<S>, inv: S -> bool, chain: Chain<S>, end: S)
    requires Inductive(m, initStates, inv)
    requires IsChain(m, initStates, chain, end)
    ensures inv(end)
    decreases |chain|
  {
    if chain != [] {
      var n := |chain| - 1;
      ChainPrefix(m, initStates, chain, end);
      InductiveHoldsChain(m, initStates, inv, chain[..n], chain[n].state);
      assert HopTarget(chain, n, end) == end;
      assert IsStep(m, chain[n].state, chain[n].methodName, end);
    }
  }

  /** An inductive invariant holds of every reachable state. */
  lemma InductiveHoldsReachable<S(!new)>(m: Model<S>, initStates: seq<S>, inv: S -> bool)
    requires Inductive(m, initStates, inv)
    ensures forall s :: Reachable(m, initStates, s) ==> inv(s)
  {
    forall s | Reachable(m, initStates, s) ensures inv(s) {
      var chain :| IsChain(m, initStates, chain, s);
      InductiveHoldsChain(m, initStates, inv, chain, s);
    }
  }

  lemma QueueStatesPop<S>(queue: seq<StateAndChain<S>>)
    requires queue != []
    ensures QueueStates(queue) == {queue[0].state} + QueueStates(queue[1..])
  {
    var rest := queue[1..];
    forall x | x in QueueStates(queue) ensures x in {queue[0].state} + QueueStates(rest) {
      var k :| 0 <= k < |queue| && queue[k].state == x;
      if k > 0 { assert rest[k - 1] == queue[k]; }
    }
    forall x | x in QueueStates(rest) ensures x in QueueStates(queue) {
      var k :| 0 <= k < |rest| && rest[k].state == x;
      assert queue[k + 1] == rest[k];
    }
  }

  lemma QueueStatesPush<S>(queue: seq<StateAndChain<S>>, entry: StateAndChain<S>)
    ensures QueueStates(queue + [entry]) == QueueStates(queue) + {entry.state}
  {
    var q := queue + [entry];
    assert q[|queue|] == entry;
    forall x | x in QueueStates(q) ensures x in QueueStates(queue) + {entry.state} {
      var k :| 0 <= k < |q| && q[k].state == x;
      if k < |queue| { assert q[k] == queue[k]; }
    }
    forall x | x in QueueStates(queue) ensures x in QueueStates(q) {
      var k :| 0 <= k < |queue| && queue[k].state == x;
      assert q[k] == queue[k];
    }
  }

  // ---------------------------------------------------------------------------
  // The search
  // ---------------------------------------------------------------------------

  /** Every queued chain replays to its queued state. */
  ghost predicate ChainsReplay<S>(m: Model<S>, initStates: seq<S>, queue: seq<StateAndChain<S>>) {
    forall k :: 0 <= k < |queue| ==> IsChain(m, initStates, queue[k].chain, queue[k].state)
  }

  lemma ChainsReplayPush<S>(m: Model<S>, initStates: seq<S>, queue: seq<StateAndChain<S>>, entry: StateAndChain<S>)
    requires ChainsReplay(m, initStates, queue)
    requires IsChain(m, initStates, entry.chain, entry.state)
    ensures ChainsReplay(m, initStates, queue + [entry])
  {
    var q := queue + [entry];
    forall k | 0 <= k < |q| ensures IsChain(m, initStates, q[k].chain, q[k].state) {
      if k < |queue| { assert q[k] == queue[k]; } else { assert q[k] == entry; }
    }
  }

  ghost predicate AllReachable<S(!new)>(m: Model<S>, initStates: seq<S>, states: set<S>) {
    forall s :: s in states ==> Reachable(m, initStates, s)
  }

  /**
   * The visited set is the initial states plus the successors enqueued so far,
   * each of which was enqueued once and is not an initial state.
   */
  ghost predicate EnqueuedOnce<S>(initStates: seq<S>, visited: set<S>, enqueued: seq<S>) {
    && visited == Elements(initStates) + Elements(enqueued)
    && NoDuplicates(enqueued)
    && (forall k :: 0 <= k < |enqueued| ==> enqueued[k] !in initStates)
    && |visited| == |Elements(initStates)| + |enqueued|
  }

  lemma EnqueuedOncePush<S>(initStates: seq<S>, visited: set<S>, enqueued: seq<S>, next: S)
    requires EnqueuedOnce(initStates, visited, enqueued)
    requires next !in visited
    ensures EnqueuedOnce(initStates, visited + {next}, enqueued + [next])
  {
    var e := enqueued + [next];
    assert Elements(e) == Elements(enqueued) + {next};
    forall a, b | 0 <= a < b < |e| ensures e[a] != e[b] {
      if b == |enqueued| { assert e[a] == enqueued[a] && enqueued[a] in Elements(enqueued); }
    }
  }

  /** Marking `next` visited uses up one state of the universe. */
  lemma UniverseShrinks<S>(universe: set<S>, visited: set<S>, next: S)
    requires next in universe && next !in visited
    ensures |universe - (visited + {next})| == |universe - visited| - 1
  {
    assert universe - (visited + {next}) == (universe - visited) - {next};
  }

  /**
   * What the inner loop of the search keeps true while it adds successors to a
   * queue `toVisit0` and visited set `visited0`: the new queue entries are
   * exactly the newly visited states, every queued chain replays, every
   * visited state is reachable, each successor is enqueued once, and each
   * enqueue uses up one state of the universe.
   */
  ghost predicate Enqueuing<S(!new)>(
    m: Model<S>, initStates: seq<S>, universe: set<S>,
    toVisit0: seq<StateAndChain<S>>, visited0: set<S>,
    toVisit: seq<StateAndChain<S>>, visited: set<S>, enqueued: seq<S>)
  {
    && visited0 <= visited <= universe
    && QueueStates(toVisit) == QueueStates(toVisit0) + (visited - visited0)
    && ChainsReplay(m, initStates, toVisit)
    && AllReachable(m, initStates, visited)
    && EnqueuedOnce(initStates, visited, enqueued)
    && |universe - visited| + |toVisit| == |universe - visited0| + |toVisit0|
  }

  lemma EnqueuingPush<S(!new)>(
    m: Model<S>, initStates: seq<S>, universe: set<S>,
    toVisit0: seq<StateAndChain<S>>, visited0: set<S>,
    toVisit: seq<StateAndChain<S>>, visited: set<S>, enqueued: seq<S>, entry: StateAndChain<S>)
    requires Enqueuing(m, initStates, universe, toVisit0, visited0, toVisit, visited, enqueued)
    requires entry.state in universe && entry.state !in visited
    requires IsChain(m, initStates, entry.chain, entry.state)
    ensures Enqueuing(m, initStates, universe, toVisit0, visited0,
      toVisit + [entry], visited + {entry.state}, enqueued + [entry.state])
  {
    var x := entry.state;
    QueueGrows(toVisit0, visited0, toVisit, visited, entry);
    ChainsReplayPush(m, initStates, toVisit, entry);
    AllReachablePush(m, initStates, visited, entry);
    EnqueuedOncePush(initStates, visited, enqueued, x);
    UniverseShrinks(universe, visited, x);
  }

  /** Enqueuing an unvisited state keeps the queue holding exactly the states visited since the start. */
  lemma QueueGrows<S>(
    toVisit0: seq<StateAndChain<S>>, visited0: set<S>,
    toVisit: seq<StateAndChain<S>>, visited: set<S>, entry: StateAndChain<S>)
    requires QueueStates(toVisit) == QueueStates(toVisit0) + (visited - visited0)
    requires visited0 <= visited && entry.state !in visited
    ensures QueueStates(toVisit + [entry]) == QueueStates(toVisit0) + ((visited + {entry.state}) - visited0)
  {
    QueueStatesPush(toVisit, entry);
    assert (visited + {entry.state}) - visited0 == (visited - visited0) + {entry.state};
  }

  lemma AllReachablePush<S(!new)>(m: Model<S>, initStates: seq<S>, visited: set<S>, entry: StateAndChain<S>)
    requires AllReachable(m, initStates, visited)
    requires IsChain(m, initStates, entry.chain, entry.state)
    ensures AllReachable(m, initStates, visited + {entry.state})
  {
    assert Reachable(m, initStates, entry.state);
  }

  /**
   * The inner loop of the search: every successor of `current` under step `i`
   * that passes the boundaries and is not yet visited is marked visited and
   * enqueued with its parent's chain extended by one hop. `queueBase` and
   * `visitedBase` are the queue and visited set the enclosing expansion
   * started from.
   */
  method EnqueueSuccessors<S(==,!new)>(
    m: Model<S>, initStates: seq<S>, ghost universe: set<S>,
    ghost queueBase: seq<StateAndChain<S>>, ghost visitedBase: set<S>,
    current: StateAndChain<S>, i: nat,
    toVisit0: seq<StateAndChain<S>>, visited0: set<S>, ghost enqueued0: seq<S>)
    returns (toVisit: seq<StateAndChain<S>>, visited: set<S>, ghost enqueued: seq<S>)
    requires i < |m.steps|
    requires forall t :: t in m.steps[i].generator(current.state) && WithinBoundaries(m.boundaries, t) ==> t in universe
    requires IsChain(m, initStates, current.chain, current.state)
    requires Enqueuing(m, initStates, universe, queueBase, visitedBase, toVisit0, visited0, enqueued0)
    ensures Enqueuing(m, initStates, universe, queueBase, visitedBase, toVisit, visited, enqueued)
    ensures visited0 <= visited
    ensures forall t :: t in m.steps[i].generator(current.state) && WithinBoundaries(m.boundaries, t) ==> t in visited
  {
    toVisit, visited, enqueued := toVisit0, visited0, enqueued0;
    var step := m.steps[i];
    var successors := step.generator(current.state);
    while successors != {}
      invariant successors <= step.generator(current.state)
      invariant Enqueuing(m, initStates, universe, queueBase, visitedBase, toVisit, visited, enqueued)
      invariant visited0 <= visited
      invariant forall t ::
                  (t in step.generator(current.state) && t !in successors && WithinBoundaries(m.boundaries, t))
                  ==> t in visited
      decreases successors
    {
      var nextState :| nextState in successors;
      successors := successors - {nextState};
      var within := CheckBoundaries(m.boundaries, nextState);
      if within && nextState !in visited {
        var entry := StateAndChain(nextState, Merge(current.chain, current.state, step.methodName));
        ExtendChain(m, initStates, current.chain, current.state, i, nextState);
        EnqueuingPush(m, initStates, universe, queueBase, visitedBase, toVisit, visited, enqueued, entry);
        toVisit := toVisit + [entry];
        visited := visited + {nextState};
        enqueued := enqueued + [nextState];
      }
    }
  }

  /** Every boundary-surviving successor of `state` under the first `n` steps is in `into`. */
  ghost predicate ExpandedInto<S>(m: Model<S>, state: S, n: nat, into: set<S>) {
    forall i, t ::
      (0 <= i < n && i < |m.steps| && t in m.steps[i].generator(state) && WithinBoundaries(m.boundaries, t))
      ==> t in into
  }

  lemma ExpandedIntoNext<S>(m: Model<S>, state: S, i: nat, before: set<S>, after: set<S>)
    requires ExpandedInto(m, state, i, before) && before <= after
    requires i < |m.steps|
    requires forall t :: t in m.steps[i].generator(state) && WithinBoundaries(m.boundaries, t) ==> t in after
    ensures ExpandedInto(m, state, i + 1, after)
  {
  }

  /**
   * The loop over the steps: applies every step of the model, in order, to
   * `current` and enqueues the new successors.
   */
  method ExpandState<S(==,!new)>(
    m: Model<S>, initStates: seq<S>, ghost universe: set<S>, current: StateAndChain<S>,
    toVisit0: seq<StateAndChain<S>>, visited0: set<S>, ghost enqueued0: seq<S>)
    returns (toVisit: seq<StateAndChain<S>>, visited: set<S>, ghost enqueued: seq<S>)
    requires Closed(m, universe) && current.state in universe
    requires IsChain(m, initStates, current.chain, current.state)
    requires Enqueuing(m, initStates, universe, toVisit0, visited0, toVisit0, visited0, enqueued0)
    ensures Enqueuing(m, initStates, universe, toVisit0, visited0, toVisit, visited, enqueued)
    ensures ExpandedInto(m, current.state, |m.steps|, visited)
  {
    toVisit, visited, enqueued := toVisit0, visited0, enqueued0;
    for i := 0 to |m.steps|
      invariant Enqueuing(m, initStates, universe, toVisit0, visited0, toVisit, visited, enqueued)
      invariant ExpandedInto(m, current.state, i, visited)
    {
      ghost var visitedBefore := visited;
      toVisit, visited, enqueued :=
        EnqueueSuccessors(m, initStates, universe, toVisit0, visited0, current, i, toVisit, visited, enqueued);
      ExpandedIntoNext(m, current.state, i, visitedBefore, visited);
    }
  }

  /**
   * What the outer loop of the search keeps true: the visited set is the
   * expanded states plus the queued ones, every expanded state passed every
   * safety property and had its boundary-surviving successors visited, and
   * the bookkeeping of `Enqueuing` holds.
   */
  ghost predicate Searching<S(!new)>(
    m: Model<S>, initStates: seq<S>, safetyProperties: seq<SafetySpec<S>>, universe: set<S>,
    toVisit: seq<StateAndChain<S>>, visited: set<S>, enqueued: seq<S>, expanded: set<S>)
  {
    && visited <= universe
    && visited == expanded + QueueStates(toVisit)
    && ChainsReplay(m, initStates, toVisit)
    && AllReachable(m, initStates, visited)
    && EnqueuedOnce(initStates, visited, enqueued)
    && (forall s :: s in expanded ==> !SafetyViolated(s, safetyProperties))
    && ClosedInto(m, expanded, visited)
  }

  lemma SearchingStart<S(!new)>(
    m: Model<S>, initStates: seq<S>, safetyProperties: seq<SafetySpec<S>>, universe: set<S>,
    toVisit: seq<StateAndChain<S>>)
    requires forall s :: s in initStates ==> s in universe
    requires |toVisit| == |initStates|
    requires forall k :: 0 <= k < |initStates| ==> toVisit[k] == StateAndChain(initStates[k], [])
    ensures Searching(m, initStates, safetyProperties, universe, toVisit, Elements(initStates), [], {})
  {
    var visited := Elements(initStates);
    forall x | x in visited ensures x in QueueStates(toVisit) {
      var k :| 0 <= k < |initStates| && initStates[k] == x;
      assert toVisit[k].state == x;
    }
    forall s | s in visited ensures Reachable(m, initStates, s) {
      assert IsChain(m, initStates, [], s);
    }
    forall k | 0 <= k < |toVisit| ensures IsChain(m, initStates, toVisit[k].chain, toVisit[k].state) {
      assert toVisit[k].state == initStates[k];
    }
  }

  /** Adding a fully expanded state to the expanded set keeps it closed into a larger visited set. */
  lemma ClosedIntoExpand<S>(m: Model<S>, expanded: set<S>, before: set<S>, state: S, after: set<S>)
    requires ClosedInto(m, expanded, before) && before <= after
    requires ExpandedInto(m, state, |m.steps|, after)
    ensures ClosedInto(m, expanded + {state}, after)
  {
  }

  /** The state taken off the queue passed the safety check and has had all its steps applied. */
  lemma SearchingExpand<S(!new)>(
    m: Model<S>, initStates: seq<S>, safetyProperties: seq<SafetySpec<S>>, universe: set<S>,
    toVisit0: seq<StateAndChain<S>>, visited0: set<S>, enqueued0: seq<S>, expanded: set<S>,
    toVisit: seq<StateAndChain<S>>, visited: set<S>, enqueued: seq<S>)
    requires toVisit0 != []
    requires Searching(m, initStates, safetyProperties, universe, toVisit0, visited0, enqueued0, expanded)
    requires !SafetyViolated(toVisit0[0].state, safetyProperties)
    requires Enqueuing(m, initStates, universe, toVisit0[1..], visited0, toVisit, visited, enqueued)
    requires ExpandedInto(m, toVisit0[0].state, |m.steps|, visited)
    ensures Searching(m, initStates, safetyProperties, universe, toVisit, visited, enqueued, expanded + {toVisit0[0].state})
  {
    var current := toVisit0[0].state;
    QueueStatesPop(toVisit0);
    VisitedSplit(visited0, visited, expanded, current, QueueStates(toVisit0[1..]), QueueStates(toVisit));
    ClosedIntoExpand(m, expanded, visited0, current, visited);
  }

  /** The set algebra of one expansion: the popped state moves from the queue to the expanded set. */
  lemma VisitedSplit<S>(visited0: set<S>, visited: set<S>, expanded: set<S>, current: S, rest: set<S>, queue: set<S>)
    requires visited0 == expanded + ({current} + rest)
    requires queue == rest + (visited - visited0)
    requires visited0 <= visited
    ensures visited == expanded + {current} + queue
  {
  }

  /**
   * What the search promises when it returns: the facts `Solve` states, in
   * bulk. `expanded` holds the states whose steps were run: each passed every
   * safety property, the failing state is not among them, and on success they
   * are all the visited states.
   */
  ghost predicate Finished<S(!new)>(
    m: Model<S>, initStates: seq<S>, safetyProperties: seq<SafetySpec<S>>,
    r: Result<S>, visited: set<S>, enqueued: seq<S>, expanded: set<S>)
  {
    && r.stats.visitedStates == |visited|
    && AllReachable(m, initStates, visited)
    && EnqueuedOnce(initStates, visited, enqueued)
    && expanded <= visited
    && (forall s :: s in expanded ==> !SafetyViolated(s, safetyProperties))
    && ClosedInto(m, expanded, visited)
    && (r.Failure? ==> SafetyViolated(r.endState, safetyProperties) && IsChain(m, initStates, r.chain, r.endState))
    && (r.Failure? ==> r.endState in visited && r.endState !in expanded)
    && (r.Success? ==> expanded == visited && Closed(m, visited))
    && (r.Success? ==> forall s :: s in visited ==> !SafetyViolated(s, safetyProperties))
  }

  lemma SearchingDone<S(!new)>(
    m: Model<S>, initStates: seq<S>, safetyProperties: seq<SafetySpec<S>>, universe: set<S>,
    visited: set<S>, enqueued: seq<S>, expanded: set<S>)
    requires Searching(m, initStates, safetyProperties, universe, [], visited, enqueued, expanded)
    ensures Finished(m, initStates, safetyProperties, Success(Stats(|visited|)), visited, enqueued, expanded)
  {
    assert QueueStates<S>([]) == {};
  }

  lemma SearchingFails<S(!new)>(
    m: Model<S>, initStates: seq<S>, safetyProperties: seq<SafetySpec<S>>, universe: set<S>,
    toVisit: seq<StateAndChain<S>>, visited: set<S>, enqueued: seq<S>, expanded: set<S>)
    requires toVisit != []
    requires Searching(m, initStates, safetyProperties, universe, toVisit, visited, enqueued, expanded)
    requires SafetyViolated(toVisit[0].state, safetyProperties)
    ensures Finished(m, initStates, safetyProperties,
      Failure(Stats(|visited|), toVisit[0].state, toVisit[0].chain), visited, enqueued, expanded)
  {
    QueueStatesPop(toVisit);
  }

  /** Taking the head off the queue: it is in the universe and its chain replays. */
  lemma SearchingPop<S(!new)>(
    m: Model<S>, initStates: seq<S>, safetyProperties: seq<SafetySpec<S>>, universe: set<S>,
    toVisit: seq<StateAndChain<S>>, visited: set<S>, enqueued: seq<S>, expanded: set<S>)
    requires toVisit != []
    requires Searching(m, initStates, safetyProperties, universe, toVisit, visited, enqueued, expanded)
    ensures toVisit[0].state in universe && IsChain(m, initStates, toVisit[0].chain, toVisit[0].state)
    ensures Enqueuing(m, initStates, universe, toVisit[1..], visited, toVisit[1..], visited, enqueued)
  {
    QueueStatesPop(toVisit);
    var rest := toVisit[1..];
    forall k | 0 <= k < |rest| ensures IsChain(m, initStates, rest[k].chain, rest[k].state) {
      assert rest[k] == toVisit[k + 1];
    }
  }

  /**
   * The `while` loop of the search: dequeue the head, stop with a failure if it
   * violates a safety property, otherwise expand it; succeed once the queue is
   * empty.
   */
  method Search<S(==,!new)>(
    m: Model<S>, initStates: seq<S>, safetyProperties: seq<SafetySpec<S>>, ghost universe: set<S>,
    toVisit0: seq<StateAndChain<S>>, visited0: set<S>)
    returns (r: Result<S>, ghost visitedSet: set<S>, ghost enqueued: seq<S>, ghost expanded: set<S>)
    requires Closed(m, universe)
    requires Searching(m, initStates, safetyProperties, universe, toVisit0, visited0, [], {})
    ensures Finished(m, initStates, safetyProperties, r, visitedSet, enqueued, expanded)
  {
    var toVisit, visited := toVisit0, visited0;
    expanded := {};
    enqueued := [];
    while toVisit != []
      invariant Searching(m, initStates, safetyProperties, universe, toVisit, visited, enqueued, expanded)
      decreases |universe - visited| + |toVisit|
    {
      var current := toVisit[0];
      ghost var toVisit1, visited1, enqueued1 := toVisit, visited, enqueued;
      SearchingPop(m, initStates, safetyProperties, universe, toVisit, visited, enqueued, expanded);
      toVisit := toVisit[1..];

      var violated := CheckSafety(current.state, safetyProperties);
      if violated {
        SearchingFails(m, initStates, safetyProperties, universe, toVisit1, visited, enqueued, expanded);
        return Failure(Stats(|visited|), current.state, current.chain), visited, enqueued, expanded;
      }

      toVisit, visited, enqueued := ExpandState(m, initStates, universe, current, toVisit, visited, enqueued);
      SearchingExpand(m, initStates, safetyProperties, universe, toVisit1, visited1, enqueued1, expanded,
        toVisit, visited, enqueued);
      expanded := expanded + {current.state};
    }
    SearchingDone(m, initStates, safetyProperties, universe, visited, enqueued, expanded);
    r, visitedSet := Success(Stats(|visited|)), visited;
  }

  /**
   * Breadth-first search from `initStates` through the model's steps, pruned by
   * its boundaries, checking every dequeued state against `safetyProperties`.
   *
   * `universe` is a proof device only: a finite set of states that holds the
   * initial states and every boundary-surviving successor of its members, so
   * that the search is known to stop. The ghost outputs expose the search's
   * own bookkeeping: `visitedSet` is its visited set, `enqueued` lists, in
   * order, every successor it put on the queue, and `expanded` holds the
   * states it dequeued, found safe and ran the steps on.
   */
  method Solve<S(==,!new)>(m: Model<S>, initStates: seq<S>, safetyProperties: seq<SafetySpec<S>>, ghost universe: set<S>)
    returns (r: Result<S>, ghost visitedSet: set<S>, ghost enqueued: seq<S>, ghost expanded: set<S>)
    requires forall s :: s in initStates ==> s in universe
    requires Closed(m, universe)
    // the reported count is the size of the visited set
    ensures r.stats.visitedStates == |visitedSet|
    // everything visited is reachable
    ensures forall s :: s in visitedSet ==> Reachable(m, initStates, s)
    // visited holds exactly the initial states and the enqueued successors,
    // and no successor was enqueued twice
    ensures visitedSet == Elements(initStates) + Elements(enqueued)
    ensures NoDuplicates(enqueued) && forall k :: 0 <= k < |enqueued| ==> enqueued[k] !in initStates
    ensures |visitedSet| == |Elements(initStates)| + |enqueued|
    // only states that passed every safety property were expanded, and each
    // had all its boundary-surviving successors visited
    ensures expanded <= visitedSet
    ensures forall s :: s in expanded ==> !SafetyViolated(s, safetyProperties)
    ensures ClosedInto(m, expanded, visitedSet)
    // a failing state is visited but never expanded; a success expanded everything it visited
    ensures r.Failure? ==> r.endState in visitedSet && r.endState !in expanded
    ensures r.Success? ==> expanded == visitedSet
    // a failure ends in a violating state and carries a chain that replays to it
    ensures r.Failure? ==> SafetyViolated(r.endState, safetyProperties)
    ensures r.Failure? ==> IsChain(m, initStates, r.chain, r.endState)
    // a success has visited exactly the reachable states, and none violates a safety property
    ensures r.Success? ==> forall s :: Reachable(m, initStates, s) <==> s in visitedSet
    ensures r.Success? ==> forall s :: Reachable(m, initStates, s) ==> !SafetyViolated(s, safetyProperties)
    // no initial states: an empty search; no safety properties: nothing to violate
    ensures |initStates| == 0 ==> r == Success(Stats(0))
    ensures |safetyProperties| == 0 ==> r.Success?
  {
    var toVisit: seq<StateAndChain<S>> := [];
    for j := 0 to |initStates|
      invariant |toVisit| == j
      invariant forall k :: 0 <= k < j ==> toVisit[k] == StateAndChain(initStates[k], [])
    {
      toVisit := toVisit + [StateAndChain(initStates[j], [])];
    }
    var visited: set<S> := set s | s in initStates;
    SearchingStart(m, initStates, safetyProperties, universe, toVisit);
    r, visitedSet, enqueued, expanded := Search(m, initStates, safetyProperties, universe, toVisit, visited);
    if r.Success? {
      ClosedHoldsReachable(m, initStates, visitedSet);
    }
    if |initStates| == 0 {
      NothingReachableWithoutInit(m, initStates);
      assert visitedSet == {};
    }
  }

  /** Without initial states no chain starts anywhere, so nothing is reachable. */
  lemma NothingReachableWithoutInit<S(!new)>(m: Model<S>, initStates: seq<S>)
    requires |initStates| == 0
    ensures forall s :: !Reachable(m, initStates, s)
  {
  }

  /** `solve()`: the model's own initial states and safety properties. */
  method SolveModel<S(==,!new)>(m: Model<S>, ghost universe: set<S>) returns (r: Result<S>)
    requires forall s :: s in m.init ==> s in universe
    requires Closed(m, universe)
    ensures r.Failure? ==> SafetyViolated(r.endState, m.safeties) && IsChain(m, m.init, r.chain, r.endState)
    ensures r.Success? ==> forall s :: Reachable(m, m.init, s) ==> !SafetyViolated(s, m.safeties)
  {
    ghost var visited, enqueued, expanded;
    r, visited, enqueued, expanded := Solve(m, m.init, m.safeties, universe);
  }

  /** `solveFrom(initStates)`: caller-supplied initial states, the model's safety properties. */
  method SolveFrom<S(==,!new)>(m: Model<S>, initStates: seq<S>, ghost universe: set<S>) returns (r: Result<S>)
    requires forall s :: s in initStates ==> s in universe
    requires Closed(m, universe)
    ensures r.Failure? ==> SafetyViolated(r.endState, m.safeties) && IsChain(m, initStates, r.chain, r.endState)
    ensures r.Success? ==> forall s :: Reachable(m, initStates, s) ==> !SafetyViolated(s, m.safeties)
  {
    ghost var visited, enqueued, expanded;
    r, visited, enqueued, expanded := Solve(m, initStates, m.safeties, universe);
  }

  /** `solveWithSafeties(safetyProperties)`: the model's initial states, caller-supplied safety properties. */
  method SolveWithSafeties<S(==,!new)>(m: Model<S>, safetyProperties: seq<SafetySpec<S>>, ghost universe: set<S>)
    returns (r: Result<S>)
    requires forall s :: s in m.init ==> s in universe
    requires Closed(m, universe)
    ensures r.Failure? ==> SafetyViolated(r.endState, safetyProperties) && IsChain(m, m.init, r.chain, r.endState)
    ensures r.Success? ==> forall s :: Reachable(m, m.init, s) ==> !SafetyViolated(s, safetyProperties)
  {
    ghost var visited, enqueued, expanded;
    r, visited, enqueued, expanded := Solve(m, m.init, safetyProperties, universe);
  }

  /**
   * The `reaches` test technique: solve from `initStates` with the single
   * safety property "the state is not `target`"; a failure shows the target
   * is reachable, and a success that it is not.
   */
  method Reaches<S(==,!new)>(m: Model<S>, initStates: seq<S>, target: S, ghost universe: set<S>) returns (reached: bool)
    requires forall s :: s in initStates ==> s in universe
    requires Closed(m, universe)
    ensures reached <==> Reachable(m, initStates, target)
  {
    var notTarget := [SafetySpec(s => s != target)];
    assert forall s :: SafetyViolated(s, notTarget) <==> s == target by {
      forall s ensures SafetyViolated(s, notTarget) <==> s == target {
        assert notTarget[0].property(s) <==> s != target;
      }
    }
    var r, _, _, _ := Solve(m, initStates, notTarget, universe);
    reached := r.Failure?;
    if r.Failure? {
      assert IsChain(m, initStates, r.chain, target);
    }
  }

  /** An initial state is reachable, by the empty chain. */
  lemma InitReachable<S(!new)>(m: Model<S>, initStates: seq<S>, s: S)
    requires s in initStates
    ensures Reachable(m, initStates, s)
  {
    assert IsChain(m, initStates, [], s);
  }

  /** A boundary-surviving successor of a reachable state is reachable. */
  lemma ReachableStep<S(!new)>(m: Model<S>, initStates: seq<S>, s: S, i: nat, next: S)
    requires Reachable(m, initStates, s)
    requires i < |m.steps| && next in m.steps[i].generator(s)
    requires WithinBoundaries(m.boundaries, next)
    ensures Reachable(m, initStates, next)
  {
    var chain :| IsChain(m, initStates, chain, s);
    ExtendChain(m, initStates, chain, s, i, next);
  }

  /**
   * Boundaries only prune: with the same steps, boundaries that let fewer
   * states through make fewer states reachable.
   */
  lemma StricterBoundariesReachLess<S(!new)>(strict: Model<S>, loose: Model<S>, initStates: seq<S>, s: S)
    requires strict.steps == loose.steps
    requires forall t :: WithinBoundaries(strict.boundaries, t) ==> WithinBoundaries(loose.boundaries, t)
    requires Reachable(strict, initStates, s)
    ensures Reachable(loose, initStates, s)
  {
    var chain: Chain<S> :| IsChain(strict, initStates, chain, s);
    forall k | 0 <= k < |chain|
      ensures IsStep(loose, chain[k].state, chain[k].methodName, HopTarget(chain, k, s))
      ensures WithinBoundaries(loose.boundaries, HopTarget(chain, k, s))
    {
      assert IsStep(strict, chain[k].state, chain[k].methodName, HopTarget(chain, k, s));
    }
    assert IsChain(loose, initStates, chain, s);
  }
}
