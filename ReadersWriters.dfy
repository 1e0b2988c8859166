/**
 * The readers-writers problem: four actors queue up to read or to write; the
 * head of the queue starts when no writer is active, and a writer only when
 * no reader is either; any active actor may stop. The safety properties are
 * that readers and writers never overlap and that there is at most one
 * writer.
 */
module ReadersWriters {
  import opened Framework
  import opened Sets

  const Actors: set<int> := {1, 2, 3, 4}

  datatype Action = Read | Write

  datatype ActorAndAction = ActorAndAction(actor: int, action: Action)

  datatype ReadersWritersState = ReadersWritersState(
    readers: set<int>,
    writers: set<int>,
    waiting: seq<ActorAndAction>)

  /** `startEmpty`: nobody active, nobody waiting. */
  function StartEmpty(): ReadersWritersState {
    ReadersWritersState({}, {}, [])
  }

  /** `actorsWaiting`: the actors queued with action `a`. */
  function ActorsWaiting(s: ReadersWritersState, a: Action): set<int> {
    set k | 0 <= k < |s.waiting| && s.waiting[k].action == a :: s.waiting[k].actor
  }

  /** `tryRead` and `tryWrite`: queue `a` for every actor not already queued with it. */
  function TryAction(s: ReadersWritersState, a: Action): set<ReadersWritersState> {
    set actor | actor in Actors - ActorsWaiting(s, a) ::
      ReadersWritersState(s.readers, s.writers, s.waiting + [ActorAndAction(actor, a)])
  }

  function TryRead(s: ReadersWritersState): set<ReadersWritersState> {
    TryAction(s, Read)
  }

  function TryWrite(s: ReadersWritersState): set<ReadersWritersState> {
    TryAction(s, Write)
  }

  /** `read`: the actor joins the readers and leaves the head of the queue. */
  function ReadAs(s: ReadersWritersState, actor: int): ReadersWritersState
    requires |s.waiting| > 0
  {
    ReadersWritersState(s.readers + {actor}, s.writers, s.waiting[1..])
  }

  /** `write`: no successor while anyone reads; otherwise the actor becomes a writer. */
  function WriteAs(s: ReadersWritersState, actor: int): StepOutput<ReadersWritersState>
    requires |s.waiting| > 0
  {
    if s.readers != {} then Nothing
    else One(ReadersWritersState(s.readers, s.writers + {actor}, s.waiting[1..]))
  }

  /** `readOrWrite`: the head of the queue starts, unless the queue is empty or a writer is active. */
  function ReadOrWrite(s: ReadersWritersState): StepOutput<ReadersWritersState> {
    if |s.waiting| == 0 then Nothing
    else if s.writers != {} then Nothing
    else
      var head := s.waiting[0];
      if head.action == Read then One(ReadAs(s, head.actor)) else WriteAs(s, head.actor)
  }

  /** `stopActivity`: a reader stops reading; anyone else stops writing. */
  function StopActivity(s: ReadersWritersState, actor: int): ReadersWritersState {
    if actor in s.readers then ReadersWritersState(s.readers - {actor}, s.writers, s.waiting)
    else ReadersWritersState(s.readers, s.writers - {actor}, s.waiting)
  }

  /** `stopA`: any active actor stops. */
  function StopA(s: ReadersWritersState): set<ReadersWritersState> {
    set actor | actor in s.readers + s.writers :: StopActivity(s, actor)
  }

  /** `typeOk`. */
  function TypeOk(s: ReadersWritersState): bool {
    IsSubsetOf(s.writers, Actors) && IsSubsetOf(s.readers, Actors)
  }

  /** `eitherReadersOrWriters`. */
  function EitherReadersOrWriters(s: ReadersWritersState): bool {
    s.readers == {} || s.writers == {}
  }

  /** `atMostOneWriter`. */
  function AtMostOneWriter(s: ReadersWritersState): bool {
    |s.writers| <= 1
  }

  function ReadersWritersModel(): Model<ReadersWritersState> {
    Model(
      [StartEmpty()],
      [ Step(s => Many(TryRead(s)), "tryRead"),
        Step(s => Many(TryWrite(s)), "tryWrite"),
        Step(ReadOrWrite, "readOrWrite"),
        Step(s => Many(StopA(s)), "stopA") ],
      [SafetySpec(TypeOk), SafetySpec(EitherReadersOrWriters), SafetySpec(AtMostOneWriter)],
      [])
  }

  // ---------------------------------------------------------------------------
  // What the steps do
  // ---------------------------------------------------------------------------

  /** An actor is among `actorsWaiting(s, a)` exactly when it is queued with `a`. */
  lemma ActorsWaitingMeans(s: ReadersWritersState, a: Action, actor: int)
    ensures actor in ActorsWaiting(s, a) <==> ActorAndAction(actor, a) in s.waiting
  {
    if ActorAndAction(actor, a) in s.waiting {
      var k :| 0 <= k < |s.waiting| && s.waiting[k] == ActorAndAction(actor, a);
      assert s.waiting[k].actor in ActorsWaiting(s, a);
    }
  }

  /**
   * A `tryRead`/`tryWrite` successor appends one new pair, for an actor of
   * the four not yet queued with that action, and changes nothing else.
   */
  lemma TryActionEffect(s: ReadersWritersState, a: Action, t: ReadersWritersState)
    requires t in TryAction(s, a)
    ensures t.readers == s.readers && t.writers == s.writers
    ensures |t.waiting| == |s.waiting| + 1 && t.waiting[..|s.waiting|] == s.waiting
    ensures var last := t.waiting[|s.waiting|];
      last.action == a && last.actor in Actors && last !in s.waiting
  {
    var actor :| actor in Actors - ActorsWaiting(s, a)
      && t == ReadersWritersState(s.readers, s.writers, s.waiting + [ActorAndAction(actor, a)]);
    ActorsWaitingMeans(s, a, actor);
    assert t.waiting[..|s.waiting|] == s.waiting;
  }

  /** Conversely, every actor not yet queued with an action can queue it. */
  lemma TryActionComplete(s: ReadersWritersState, a: Action, actor: int)
    requires actor in Actors && ActorAndAction(actor, a) !in s.waiting
    ensures ReadersWritersState(s.readers, s.writers, s.waiting + [ActorAndAction(actor, a)]) in TryAction(s, a)
  {
    ActorsWaitingMeans(s, a, actor);
  }

  /**
   * `readOrWrite` has no successor exactly when the queue is empty, a writer
   * is active, or the head wants to write while someone reads.
   */
  lemma ReadOrWriteBlocked(s: ReadersWritersState)
    ensures !ReadOrWrite(s).Many?
    ensures ReadOrWrite(s).Nothing? <==>
      |s.waiting| == 0 || s.writers != {} || (s.waiting[0].action == Write && s.readers != {})
  {
  }

  /**
   * When it has a successor, `readOrWrite` pops the head of the queue: a
   * reader joins the readers while no writer is active, and a writer becomes
   * the only writer while nobody reads.
   */
  lemma ReadOrWriteEffect(s: ReadersWritersState)
    requires ReadOrWrite(s).One?
    ensures var t := ReadOrWrite(s).state;
      && |s.waiting| > 0 && s.writers == {}
      && t.waiting == s.waiting[1..]
      && (s.waiting[0].action == Read ==> t.readers == s.readers + {s.waiting[0].actor} && t.writers == {})
      && (s.waiting[0].action == Write ==> t.readers == {} == s.readers && t.writers == {s.waiting[0].actor})
  {
  }

  /**
   * A `stopA` successor has one active actor fewer and the same queue; with
   * nobody active there is no successor.
   */
  lemma StopAEffect(s: ReadersWritersState, t: ReadersWritersState)
    requires t in StopA(s)
    ensures t.waiting == s.waiting
    ensures t.readers <= s.readers && t.writers <= s.writers
    ensures |t.readers| + |t.writers| + 1 == |s.readers| + |s.writers|
  {
    var actor :| actor in s.readers + s.writers && t == StopActivity(s, actor);
    if actor in s.readers {
      assert s.readers == t.readers + {actor};
    } else {
      assert s.writers == t.writers + {actor};
    }
  }

  lemma StopANeedsActivity(s: ReadersWritersState)
    ensures StopA(s) == {} <==> s.readers == {} && s.writers == {}
  {
    if s.readers + s.writers != {} {
      var actor := Any(s.readers + s.writers);
      assert StopActivity(s, actor) in StopA(s);
    }
  }

  // ---------------------------------------------------------------------------
  // The safety properties hold everywhere
  // ---------------------------------------------------------------------------

  /** Actors are among the four, and no (actor, action) pair is queued twice. */
  ghost predicate WellFormed(s: ReadersWritersState) {
    && s.readers <= Actors && s.writers <= Actors
    && (forall k :: 0 <= k < |s.waiting| ==> s.waiting[k].actor in Actors)
    && NoDuplicates(s.waiting)
  }

  /** The two exclusion properties. */
  predicate Exclusive(s: ReadersWritersState) {
    EitherReadersOrWriters(s) && AtMostOneWriter(s)
  }

  ghost predicate Invariant(s: ReadersWritersState) {
    WellFormed(s) && Exclusive(s)
  }

  lemma TryActionKeepsInvariant(s: ReadersWritersState, a: Action, t: ReadersWritersState)
    requires WellFormed(s) && t in TryAction(s, a)
    ensures WellFormed(t) && (Exclusive(s) ==> Exclusive(t))
  {
    TryActionEffect(s, a, t);
    var n := |s.waiting|;
    forall i, j | 0 <= i < j < |t.waiting|
      ensures t.waiting[i] != t.waiting[j]
    {
      if j < n {
        assert t.waiting[i] == s.waiting[i] && t.waiting[j] == s.waiting[j];
      } else {
        assert t.waiting[i] == s.waiting[i];
      }
    }
    forall k | 0 <= k < |t.waiting|
      ensures t.waiting[k].actor in Actors
    {
      if k < n {
        assert t.waiting[k] == s.waiting[k];
      }
    }
  }

  lemma ReadOrWriteKeepsInvariant(s: ReadersWritersState, t: ReadersWritersState)
    requires Invariant(s) && t in ProduceStates(ReadOrWrite(s))
    ensures Invariant(t)
  {
    ReadOrWriteBlocked(s);
    ReadOrWriteEffect(s);
    assert s.waiting[0].actor in Actors;
    forall i, j | 0 <= i < j < |t.waiting|
      ensures t.waiting[i] != t.waiting[j]
    {
      assert t.waiting[i] == s.waiting[i + 1] && t.waiting[j] == s.waiting[j + 1];
    }
    forall k | 0 <= k < |t.waiting|
      ensures t.waiting[k].actor in Actors
    {
      assert t.waiting[k] == s.waiting[k + 1];
    }
  }

  lemma StopAKeepsInvariant(s: ReadersWritersState, t: ReadersWritersState)
    requires WellFormed(s) && t in StopA(s)
    ensures WellFormed(t) && (Exclusive(s) ==> Exclusive(t))
  {
    StopAEffect(s, t);
    SubsetNoLarger(t.writers, s.writers);
  }

  /** Every step keeps the invariant. */
  lemma StepsKeepInvariant(s: ReadersWritersState, i: nat, t: ReadersWritersState)
    requires Invariant(s)
    requires i < |ReadersWritersModel().steps| && t in ReadersWritersModel().steps[i].generator(s)
    ensures Invariant(t)
  {
    if i == 0 {
      TryActionKeepsInvariant(s, Read, t);
    } else if i == 1 {
      TryActionKeepsInvariant(s, Write, t);
    } else if i == 2 {
      ReadOrWriteKeepsInvariant(s, t);
    } else {
      StopAKeepsInvariant(s, t);
    }
  }

  /**
   * In every reachable state the actors are among the four, no pair is
   * queued twice, readers and writers never overlap and there is at most
   * one writer.
   */
  lemma ReachableInvariant(s: ReadersWritersState)
    requires Reachable(ReadersWritersModel(), [StartEmpty()], s)
    ensures Invariant(s)
    ensures !SafetyViolated(s, ReadersWritersModel().safeties)
  {
    var m := ReadersWritersModel();
    forall a, i, b | Invariant(a) && 0 <= i < |m.steps| && b in m.steps[i].generator(a)
                     && WithinBoundaries(m.boundaries, b)
      ensures Invariant(b)
    {
      StepsKeepInvariant(a, i, b);
    }
    assert Inductive(m, [StartEmpty()], Invariant);
    InductiveHoldsReachable(m, [StartEmpty()], Invariant);
    InvariantIsSafe(s);
  }

  /** The invariant implies the three safety properties. */
  lemma InvariantIsSafe(s: ReadersWritersState)
    requires Invariant(s)
    ensures !SafetyViolated(s, ReadersWritersModel().safeties)
  {
    var m := ReadersWritersModel();
    assert m.safeties[0].property(s) && m.safeties[1].property(s) && m.safeties[2].property(s);
  }

  /** The exclusion is not vacuous: a writer can start. */
  lemma WriterReachable()
    ensures Reachable(ReadersWritersModel(), [StartEmpty()], ReadersWritersState({}, {1}, []))
  {
    var m, init := ReadersWritersModel(), [StartEmpty()];
    var s0 := StartEmpty();
    var s1 := ReadersWritersState({}, {}, [ActorAndAction(1, Write)]);
    var s2 := ReadersWritersState({}, {1}, []);
    assert s1.writers + {1} == {1} && s1.waiting[1..] == [];
    assert ReadOrWrite(s1) == One(s2);
    assert s2 in m.steps[2].generator(s1);
    InitReachable(m, init, s0);
    TryActionComplete(s0, Write, 1);
    assert s0.waiting + [ActorAndAction(1, Write)] == s1.waiting;
    assert s1 in m.steps[1].generator(s0);
    ReachableStep(m, init, s0, 1, s1);
    ReachableStep(m, init, s1, 2, s2);
  }

  /** Actors 1 and 2 can both queue to read. */
  lemma TwoReadersQueue()
    ensures Reachable(ReadersWritersModel(), [StartEmpty()],
      ReadersWritersState({}, {}, [ActorAndAction(1, Read), ActorAndAction(2, Read)]))
  {
    var m, init := ReadersWritersModel(), [StartEmpty()];
    var p1, p2 := ActorAndAction(1, Read), ActorAndAction(2, Read);
    var s0, s1, s2 := StartEmpty(), ReadersWritersState({}, {}, [p1]), ReadersWritersState({}, {}, [p1, p2]);
    assert s0.waiting + [p1] == s1.waiting && s1.waiting + [p2] == s2.waiting;
    TryActionComplete(s0, Read, 1);
    TryActionComplete(s1, Read, 2);
    assert s1 in m.steps[0].generator(s0) && s2 in m.steps[0].generator(s1);
    InitReachable(m, init, s0);
    ReachableStep(m, init, s0, 0, s1);
    ReachableStep(m, init, s1, 0, s2);
  }

  /** Nor is it exclusive among readers: two readers can read at once. */
  lemma TwoReadersReachable()
    ensures Reachable(ReadersWritersModel(), [StartEmpty()], ReadersWritersState({1, 2}, {}, []))
  {
    var m, init := ReadersWritersModel(), [StartEmpty()];
    var p1, p2 := ActorAndAction(1, Read), ActorAndAction(2, Read);
    var s2 := ReadersWritersState({}, {}, [p1, p2]);
    var s3 := ReadersWritersState({1}, {}, [p2]);
    var s4 := ReadersWritersState({1, 2}, {}, []);
    assert s2.waiting[1..] == [p2] && s3.waiting[1..] == [];
    assert {} + {1} == s3.readers && s3.readers + {2} == s4.readers;
    assert ReadOrWrite(s2) == One(s3) && ReadOrWrite(s3) == One(s4);
    assert s3 in m.steps[2].generator(s2) && s4 in m.steps[2].generator(s3);
    TwoReadersQueue();
    ReachableStep(m, init, s2, 2, s3);
    ReachableStep(m, init, s3, 2, s4);
  }

  // ---------------------------------------------------------------------------
  // The search
  // ---------------------------------------------------------------------------

  /** Every queue that repeats no pair and draws its pairs from `avail`. */
  ghost function Queues(avail: set<ActorAndAction>): set<seq<ActorAndAction>>
    decreases avail
  {
    {[]} + set x, q | x in avail && q in Queues(avail - {x}) :: [x] + q
  }

  lemma {:induction false} QueuesHold(avail: set<ActorAndAction>, q: seq<ActorAndAction>)
    ensures q in Queues(avail) <==> NoDuplicates(q) && forall k :: 0 <= k < |q| ==> q[k] in avail
    decreases avail
  {
    if q != [] {
      var x, rest := q[0], q[1..];
      assert q == [x] + rest;
      if x in avail {
        QueuesHold(avail - {x}, rest);
        if q in Queues(avail) {
          var y, r :| y in avail && r in Queues(avail - {y}) && q == [y] + r;
          assert y == x && r == rest;
          forall i, j | 0 <= i < j < |q|
            ensures q[i] != q[j]
          {
            if i > 0 {
              assert q[i] == rest[i - 1] && q[j] == rest[j - 1];
            } else {
              assert q[j] == rest[j - 1];
            }
          }
        }
        if NoDuplicates(q) && forall k :: 0 <= k < |q| ==> q[k] in avail {
          forall k | 0 <= k < |rest|
            ensures rest[k] in avail - {x}
          {
            assert rest[k] == q[k + 1];
          }
        }
      } else {
        assert !(q in Queues(avail));
      }
    }
  }

  /** The four actors with either action. */
  function Pairs(): set<ActorAndAction> {
    set actor, action | actor in Actors && action in {Read, Write} :: ActorAndAction(actor, action)
  }

  /** Every well-formed state. */
  ghost function Universe(): set<ReadersWritersState> {
    set r, w, q | r <= Actors && w <= Actors && q in Queues(Pairs()) :: ReadersWritersState(r, w, q)
  }

  lemma UniverseHolds(s: ReadersWritersState)
    ensures s in Universe() <==> WellFormed(s)
  {
    QueuesHold(Pairs(), s.waiting);
    if WellFormed(s) {
      forall k | 0 <= k < |s.waiting|
        ensures s.waiting[k] in Pairs()
      {
        var p := s.waiting[k];
        assert p.actor in Actors;
        if p.action == Read {
          assert p == ActorAndAction(p.actor, Read);
        } else {
          assert p == ActorAndAction(p.actor, Write);
        }
      }
    }
  }

  lemma UniverseClosed()
    ensures StartEmpty() in Universe()
    ensures Closed(ReadersWritersModel(), Universe())
  {
    var m := ReadersWritersModel();
    UniverseHolds(StartEmpty());
    forall s, i, t | s in Universe() && 0 <= i < |m.steps| && t in m.steps[i].generator(s)
                     && WithinBoundaries(m.boundaries, t)
      ensures t in Universe()
    {
      UniverseHolds(s);
      if i == 0 {
        TryActionKeepsInvariant(s, Read, t);
      } else if i == 1 {
        TryActionKeepsInvariant(s, Write, t);
      } else if i == 2 {
        ReadOrWriteBlocked(s);
        ReadOrWriteEffect(s);
        assert s.waiting[0].actor in Actors;
        QueuesHold(Pairs(), s.waiting);
        QueuesHold(Pairs(), t.waiting);
        forall k | 0 <= k < |t.waiting|
          ensures t.waiting[k] == s.waiting[k + 1]
        {
        }
      } else {
        StopAKeepsInvariant(s, t);
      }
      UniverseHolds(t);
    }
  }

  /** Solving the model succeeds: no reachable state breaks a safety property. */
  method SolveReadersWriters() returns (r: Result<ReadersWritersState>)
    ensures r.Success?
  {
    var m := ReadersWritersModel();
    UniverseClosed();
    forall s | Reachable(m, m.init, s)
      ensures !SafetyViolated(s, m.safeties)
    {
      ReachableInvariant(s);
    }
    r := SolveModel(m, Universe());
  }
}
