/**
 * A basic single-decree Paxos: three acceptors, three ballots and two
 * values. Proposers prepare ballots, acceptors promise them, a ballot whose
 * promises cover a quorum gets a value proposed once, and acceptors vote for
 * proposals at or above their promise. The safety property is that each
 * acceptor's last vote is one of the votes it sent.
 */
module Paxos {
  import opened Wrappers
  import opened Framework
  import opened Sets
  import opened PaxosState

  const Ballots: set<int> := {1, 2, 3}
  const Acceptors: set<int> := {0, 1, 2}
  const Values: set<int> := {101, 280}

  /** The order in which the acceptors are iterated: the order they are listed in. */
  const AcceptorOrder: seq<int> := [0, 1, 2]

  /** `startEmpty`: every acceptor unused, no message sent. */
  function StartEmpty(): PaxosState {
    PaxosState(map a | a in Acceptors :: Unused, {})
  }

  // ---------------------------------------------------------------------------
  // The steps
  // ---------------------------------------------------------------------------

  /** `prepare(s, ballot)`: send `Prepare(ballot)`. */
  function PrepareBallot(s: PaxosState, ballot: int): PaxosState {
    s.Send(Prepare(ballot))
  }

  /** `prepare`: one successor per ballot. */
  function PrepareStep(s: PaxosState): set<PaxosState> {
    set ballot | ballot in Ballots :: PrepareBallot(s, ballot)
  }

  /** An acceptor may promise a ballot above any it has promised. */
  predicate MayPromise(a: AcceptorState, ballot: int) {
    a.maxBallot.None? || ballot > a.maxBallot.value
  }

  /** The acceptor promises `ballot` and says so, reporting no earlier vote. */
  function Promised(s: PaxosState, acceptor: int, ballot: int): PaxosState {
    s.Accept(acceptor, ballot).Send(Promise(ballot, acceptor, None, None))
  }

  /**
   * `promise(s, acceptor)`: one successor per prepared ballot the acceptor
   * may promise. An acceptor without a record, where `promise`'s
   * `acceptors[acceptor]!!` throws, has no successor.
   */
  function PromiseFrom(s: PaxosState, acceptor: int): set<PaxosState> {
    set msg | msg in s.msgs && msg.Prepare? && acceptor in s.acceptors && MayPromise(s.acceptors[acceptor], msg.ballot)
      :: Promised(s, acceptor, msg.ballot)
  }

  /** `promise`: the successors of every acceptor. */
  function PromiseStep(s: PaxosState): set<PaxosState> {
    set acceptor, t | acceptor in Acceptors && t in PromiseFrom(s, acceptor) :: t
  }

  /** `quorums()`: the subsets of the acceptors with at least two members. */
  function Quorums(): set<set<int>> {
    set q | q in NonEmptySubsets(Acceptors) && |q| >= 2
  }

  /** Whether a proposal for `ballot` was sent already. */
  predicate AcceptSent(s: PaxosState, ballot: int) {
    exists m | m in s.msgs :: m.Accept? && m.ballot == ballot
  }

  /** The promises for `ballot` from the acceptors of `quorum`. */
  function PromisesFor(s: PaxosState, quorum: set<int>, ballot: int): set<Message> {
    set m | m in s.msgs && m.Promise? && m.acceptor in quorum && m.ballot == ballot
  }

  /** The promises that report an earlier vote. */
  function WithMaxBallots(promises: set<Message>): set<Message> {
    set m | m in promises && m.Promise? && m.maxBallot.Some?
  }

  /** Every acceptor of the quorum has promised. */
  predicate AllPromised(quorum: set<int>, promises: set<Message>) {
    forall acceptor | acceptor in quorum :: exists p | p in promises :: p.Promise? && p.acceptor == acceptor
  }

  /** Condition (a): no promise reports an earlier vote. */
  predicate ConditionA(withMax: set<Message>) {
    withMax == {}
  }

  /**
   * Condition (b) as written: some promise whose `maxVBallot` equals the
   * value has the largest `maxBallot` of all.
   */
  predicate ConditionB(withMax: set<Message>, value: int) {
    exists lhs | lhs in withMax ::
      && lhs.Promise? && lhs.maxVBallot == Some(value)
      && forall rhs | rhs in withMax ::
           rhs.Promise? && rhs.maxBallot.Some? && lhs.maxBallot.Some? && rhs.maxBallot.value <= lhs.maxBallot.value
  }

  /** The quorum lets `value` be proposed for `ballot`. */
  predicate QuorumAllows(s: PaxosState, quorum: set<int>, ballot: int, value: int) {
    var promises := PromisesFor(s, quorum, ballot);
    var withMax := WithMaxBallots(promises);
    AllPromised(quorum, promises) && (ConditionA(withMax) || ConditionB(withMax, value))
  }

  /**
   * `accept(s, ballot, value)`: nothing once a proposal for the ballot was
   * sent; otherwise the proposal, once for every quorum that allows it.
   */
  function AcceptFor(s: PaxosState, ballot: int, value: int): set<PaxosState> {
    if AcceptSent(s, ballot) then {}
    else set quorum | quorum in Quorums() && QuorumAllows(s, quorum, ballot, value) :: s.Send(Accept(ballot, value))
  }

  /** `accept`: the successors of every ballot and value. */
  function AcceptStep(s: PaxosState): set<PaxosState> {
    set ballot, value, t | ballot in Ballots && value in Values && t in AcceptFor(s, ballot, value) :: t
  }

  /** An acceptor may vote for a proposal at or above its promise. */
  predicate MayVote(a: AcceptorState, ballot: int) {
    a.maxBallot.None? || ballot >= a.maxBallot.value
  }

  /** The acceptor votes for `value` in `ballot` and says so. */
  function Voted(s: PaxosState, acceptor: int, ballot: int, value: int): PaxosState {
    s.UpdateAcceptor(acceptor, AcceptorState(Some(ballot), Some(ballot), Some(value)))
      .Send(Accepted(ballot, value, acceptor))
  }

  /** `accepted(s, acceptor)`: one successor per proposal the acceptor may vote for. */
  function AcceptedBy(s: PaxosState, acceptor: int): set<PaxosState> {
    set msg | msg in s.msgs && msg.Accept? && acceptor in s.acceptors && MayVote(s.acceptors[acceptor], msg.ballot)
      :: Voted(s, acceptor, msg.ballot, msg.value)
  }

  /** `accepted`: the successors of every acceptor. */
  function AcceptedStep(s: PaxosState): set<PaxosState> {
    set acceptor, t | acceptor in Acceptors && t in AcceptedBy(s, acceptor) :: t
  }

  // ---------------------------------------------------------------------------
  // Votes and the safety property
  // ---------------------------------------------------------------------------

  datatype Vote = Vote(ballot: int, value: int)

  /** The votes in the `Accepted` messages of one acceptor. */
  function VotesOf(s: PaxosState, acceptor: int): set<Vote> {
    set m | m in s.msgs && m.Accepted? && m.acceptor == acceptor :: Vote(m.ballot, m.value)
  }

  /** What `votes` returns: the votes of each acceptor, in iteration order. */
  function VotesList(s: PaxosState): seq<set<Vote>> {
    seq(|AcceptorOrder|, j requires 0 <= j < |AcceptorOrder| => VotesOf(s, AcceptorOrder[j]))
  }

  /** `votes`: collects each acceptor's votes into a list, one acceptor at a time. */
  method Votes(s: PaxosState) returns (votes: seq<set<Vote>>)
    ensures votes == VotesList(s)
  {
    votes := [];
    for j := 0 to |AcceptorOrder|
      invariant votes == VotesList(s)[..j]
    {
      votes := votes + [VotesOf(s, AcceptorOrder[j])];
    }
  }

  /** One acceptor has converged: no value without a ballot, and its last vote was sent. */
  predicate AcceptorConverged(a: AcceptorState, votes: set<Vote>) {
    if a.maxVBallot.None? then a.maxValue.None?
    else a.maxValue.Some? && Vote(a.maxVBallot.value, a.maxValue.value) in votes
  }

  /**
   * `acceptorStateConverged`. The list of votes is indexed by acceptor
   * number. An acceptor without a record, where
   * `acceptors[acceptorIndex]!!` throws, counts as a violation.
   */
  function AcceptorStateConverged(s: PaxosState): bool {
    var votes := VotesList(s);
    forall acceptorIndex | acceptorIndex in Acceptors ::
      && acceptorIndex in s.acceptors && 0 <= acceptorIndex < |votes|
      && AcceptorConverged(s.acceptors[acceptorIndex], votes[acceptorIndex])
  }

  /**
   * The loop of `acceptorStateConverged`: the acceptors in order, returning
   * false at the first that has not converged (or has no record, where
   * `acceptors[acceptorIndex]!!` throws).
   */
  method CheckConverged(s: PaxosState) returns (r: bool)
    ensures r == AcceptorStateConverged(s)
  {
    var votes := Votes(s);
    for j := 0 to |AcceptorOrder|
      invariant forall k :: 0 <= k < j ==>
        && AcceptorOrder[k] in s.acceptors && 0 <= AcceptorOrder[k] < |votes|
        && AcceptorConverged(s.acceptors[AcceptorOrder[k]], votes[AcceptorOrder[k]])
    {
      var acceptorIndex := AcceptorOrder[j];
      assert acceptorIndex in Acceptors && acceptorIndex == j;
      if acceptorIndex !in s.acceptors {
        return false;
      }
      var acceptor := s.acceptors[acceptorIndex];
      if acceptor.maxVBallot.None? {
        if acceptor.maxValue.Some? {
          return false;
        }
      } else {
        if acceptor.maxValue.None? {
          return false;
        }
        if Vote(acceptor.maxVBallot.value, acceptor.maxValue.value) !in votes[acceptorIndex] {
          return false;
        }
      }
    }
    assert forall a :: a in Acceptors ==> AcceptorOrder[a] == a;
    return true;
  }

  function PaxosModel(): Model<PaxosState> {
    Model(
      [StartEmpty()],
      [ Step(s => Many(PrepareStep(s)), "prepare"),
        Step(s => Many(PromiseStep(s)), "promise"),
        Step(s => Many(AcceptStep(s)), "accept"),
        Step(s => Many(AcceptedStep(s)), "accepted") ],
      [SafetySpec(AcceptorStateConverged)],
      [])
  }

  // ---------------------------------------------------------------------------
  // What the steps do
  // ---------------------------------------------------------------------------

  /** Any two quorums share an acceptor. */
  lemma QuorumsIntersect(q1: set<int>, q2: set<int>)
    requires q1 in Quorums() && q2 in Quorums()
    ensures q1 * q2 != {}
  {
    assert |Acceptors| == 3;
    SubsetNoLarger(q1 + q2, Acceptors);
  }

  /** The votes list has one entry per acceptor, holding exactly the votes that acceptor sent. */
  lemma VotesListMeaning(s: PaxosState, acceptor: int, v: Vote)
    requires acceptor in Acceptors
    ensures 0 <= acceptor < |VotesList(s)|
    ensures v in VotesList(s)[acceptor] <==> Accepted(v.ballot, v.value, acceptor) in s.msgs
  {
    assert AcceptorOrder[acceptor] == acceptor;
    if v in VotesOf(s, acceptor) {
      var m :| m in s.msgs && m.Accepted? && m.acceptor == acceptor && v == Vote(m.ballot, m.value);
      assert m == Accepted(v.ballot, v.value, acceptor);
    } else {
      assert Accepted(v.ballot, v.value, acceptor) !in s.msgs;
    }
  }

  /**
   * A `promise` successor: the acceptor had a record and a prepared ballot it
   * could promise; it now promises that ballot, keeps its last vote, and a
   * promise reporting no vote is sent. Nothing else changes.
   */
  lemma PromiseEffect(s: PaxosState, acceptor: int, t: PaxosState)
    requires t in PromiseFrom(s, acceptor)
    ensures acceptor in s.acceptors && t.acceptors.Keys == s.acceptors.Keys
    ensures exists ballot ::
      && Prepare(ballot) in s.msgs && MayPromise(s.acceptors[acceptor], ballot)
      && t.acceptors[acceptor] == s.acceptors[acceptor].WithNewMaxPromise(ballot)
      && t.msgs == s.msgs + {Promise(ballot, acceptor, None, None)}
    ensures t.acceptors[acceptor].HasPromised()
    ensures forall k :: k in s.acceptors && k != acceptor ==> t.acceptors[k] == s.acceptors[k]
  {
    var msg :| msg in s.msgs && msg.Prepare? && acceptor in s.acceptors && MayPromise(s.acceptors[acceptor], msg.ballot)
      && t == Promised(s, acceptor, msg.ballot);
    assert msg == Prepare(msg.ballot);
  }

  /**
   * `accept(s, ballot, value)` has a successor exactly when no proposal for
   * the ballot was sent and some quorum allows it, and then only one: the
   * proposal sent.
   */
  lemma AcceptForEffect(s: PaxosState, ballot: int, value: int)
    ensures AcceptFor(s, ballot, value) ==
      if !AcceptSent(s, ballot) && exists q :: q in Quorums() && QuorumAllows(s, q, ballot, value)
      then {s.Send(Accept(ballot, value))} else {}
  {
  }

  /**
   * An `accepted` successor: a proposal at or above the acceptor's promise
   * was sent; the acceptor now holds that ballot as promise and vote, with
   * its value, and its vote is sent. Nothing else changes.
   */
  lemma AcceptedEffect(s: PaxosState, acceptor: int, t: PaxosState)
    requires t in AcceptedBy(s, acceptor)
    ensures acceptor in s.acceptors && t.acceptors.Keys == s.acceptors.Keys
    ensures exists ballot, value ::
      && Accept(ballot, value) in s.msgs && MayVote(s.acceptors[acceptor], ballot)
      && t.acceptors[acceptor] == AcceptorState(Some(ballot), Some(ballot), Some(value))
      && t.msgs == s.msgs + {Accepted(ballot, value, acceptor)}
    ensures t.acceptors[acceptor].HasAccepted()
    ensures forall k :: k in s.acceptors && k != acceptor ==> t.acceptors[k] == s.acceptors[k]
  {
    var msg :| msg in s.msgs && msg.Accept? && acceptor in s.acceptors && MayVote(s.acceptors[acceptor], msg.ballot)
      && t == Voted(s, acceptor, msg.ballot, msg.value);
    assert msg == Accept(msg.ballot, msg.value);
  }

  /** No step forgets a message, or adds or removes an acceptor. */
  lemma StepsKeepMessagesAndAcceptors(s: PaxosState, i: nat, t: PaxosState)
    requires i < |PaxosModel().steps| && t in PaxosModel().steps[i].generator(s)
    ensures s.msgs <= t.msgs && t.acceptors.Keys == s.acceptors.Keys
  {
    if i == 1 {
      var acceptor :| acceptor in Acceptors && t in PromiseFrom(s, acceptor);
      PromiseEffect(s, acceptor, t);
    } else if i == 2 {
      var ballot, value :| ballot in Ballots && value in Values && t in AcceptFor(s, ballot, value);
      AcceptForEffect(s, ballot, value);
    } else if i == 3 {
      var acceptor :| acceptor in Acceptors && t in AcceptedBy(s, acceptor);
      AcceptedEffect(s, acceptor, t);
    }
  }

  // ---------------------------------------------------------------------------
  // The invariant
  // ---------------------------------------------------------------------------

  /** Every promise reports no earlier vote. */
  predicate PromisesReportNothing(s: PaxosState) {
    forall m | m in s.msgs && m.Promise? :: m.maxBallot.None? && m.maxVBallot.None?
  }

  /** Every acceptor has a record, and has converged against the votes it sent. */
  predicate Converged(s: PaxosState) {
    forall a | a in Acceptors :: a in s.acceptors && AcceptorConverged(s.acceptors[a], VotesOf(s, a))
  }

  predicate Invariant(s: PaxosState) {
    s.acceptors.Keys == Acceptors && PromisesReportNothing(s) && Converged(s)
  }

  /**
   * While promises report no earlier vote, condition (b) is never consulted:
   * a quorum allows a proposal exactly when all its acceptors have promised.
   */
  lemma OnlyConditionAMatters(s: PaxosState, quorum: set<int>, ballot: int, value: int)
    requires PromisesReportNothing(s)
    ensures ConditionA(WithMaxBallots(PromisesFor(s, quorum, ballot)))
    ensures QuorumAllows(s, quorum, ballot, value) <==> AllPromised(quorum, PromisesFor(s, quorum, ballot))
  {
  }

  /** `acceptorStateConverged` reads each acceptor's votes at its own number. */
  lemma ConvergedIsSafe(s: PaxosState)
    requires Converged(s)
    ensures AcceptorStateConverged(s)
  {
    forall a | a in Acceptors
      ensures 0 <= a < |VotesList(s)| && VotesList(s)[a] == VotesOf(s, a)
    {
      assert AcceptorOrder[a] == a;
    }
  }

  /** Votes are never withdrawn: a sent vote stays sent. */
  lemma VotesGrow(s: PaxosState, t: PaxosState, a: int)
    requires s.msgs <= t.msgs
    ensures VotesOf(s, a) <= VotesOf(t, a)
  {
  }

  lemma PromiseKeepsInvariant(s: PaxosState, acceptor: int, t: PaxosState)
    requires Invariant(s) && t in PromiseFrom(s, acceptor)
    ensures Invariant(t)
  {
    PromiseEffect(s, acceptor, t);
    forall a | a in Acceptors
      ensures AcceptorConverged(t.acceptors[a], VotesOf(t, a))
    {
      VotesGrow(s, t, a);
    }
  }

  lemma AcceptedKeepsInvariant(s: PaxosState, acceptor: int, t: PaxosState)
    requires Invariant(s) && t in AcceptedBy(s, acceptor)
    ensures Invariant(t)
  {
    AcceptedEffect(s, acceptor, t);
    var ballot, value :| && Accept(ballot, value) in s.msgs && MayVote(s.acceptors[acceptor], ballot)
      && t.acceptors[acceptor] == AcceptorState(Some(ballot), Some(ballot), Some(value))
      && t.msgs == s.msgs + {Accepted(ballot, value, acceptor)};
    forall a | a in Acceptors
      ensures AcceptorConverged(t.acceptors[a], VotesOf(t, a))
    {
      VotesGrow(s, t, a);
      if a == acceptor {
        assert Accepted(ballot, value, acceptor) in t.msgs;
        assert Vote(ballot, value) in VotesOf(t, a);
      }
    }
  }

  /** Every step keeps the invariant. */
  lemma StepsKeepInvariant(s: PaxosState, i: nat, t: PaxosState)
    requires Invariant(s)
    requires i < |PaxosModel().steps| && t in PaxosModel().steps[i].generator(s)
    ensures Invariant(t)
  {
    StepsKeepMessagesAndAcceptors(s, i, t);
    if i == 0 {
      var ballot :| ballot in Ballots && t == PrepareBallot(s, ballot);
      forall a | a in Acceptors
        ensures AcceptorConverged(t.acceptors[a], VotesOf(t, a))
      {
        VotesGrow(s, t, a);
      }
    } else if i == 1 {
      var acceptor :| acceptor in Acceptors && t in PromiseFrom(s, acceptor);
      PromiseKeepsInvariant(s, acceptor, t);
    } else if i == 2 {
      var ballot, value :| ballot in Ballots && value in Values && t in AcceptFor(s, ballot, value);
      AcceptForEffect(s, ballot, value);
      forall a | a in Acceptors
        ensures AcceptorConverged(t.acceptors[a], VotesOf(t, a))
      {
        VotesGrow(s, t, a);
      }
    } else {
      var acceptor :| acceptor in Acceptors && t in AcceptedBy(s, acceptor);
      AcceptedKeepsInvariant(s, acceptor, t);
    }
  }

  /**
   * The test `succeeds`: every reachable state keeps the invariant, so
   * `acceptorStateConverged` holds everywhere and the search finds no
   * violation.
   */
  lemma ReachableInvariant(s: PaxosState)
    requires Reachable(PaxosModel(), [StartEmpty()], s)
    ensures Invariant(s)
    ensures AcceptorStateConverged(s)
    ensures !SafetyViolated(s, PaxosModel().safeties)
  {
    var m := PaxosModel();
    forall a, i, b | Invariant(a) && 0 <= i < |m.steps| && b in m.steps[i].generator(a)
                     && WithinBoundaries(m.boundaries, b)
      ensures Invariant(b)
    {
      StepsKeepInvariant(a, i, b);
    }
    assert Invariant(StartEmpty());
    assert Inductive(m, [StartEmpty()], Invariant);
    InductiveHoldsReachable(m, [StartEmpty()], Invariant);
    ConvergedIsSafe(s);
    assert m.safeties[0].property(s);
  }

  // ---------------------------------------------------------------------------
  // The tests' reachability facts
  // ---------------------------------------------------------------------------

  ghost predicate ReachableFromStart(s: PaxosState) {
    Reachable(PaxosModel(), [StartEmpty()], s)
  }

  lemma PrepareReachable(s: PaxosState, ballot: int)
    requires ReachableFromStart(s) && ballot in Ballots
    ensures ReachableFromStart(PrepareBallot(s, ballot))
  {
    var m := PaxosModel();
    assert PrepareBallot(s, ballot) in m.steps[0].generator(s);
    ReachableStep(m, [StartEmpty()], s, 0, PrepareBallot(s, ballot));
  }

  lemma PromiseReachable(s: PaxosState, acceptor: int, ballot: int)
    requires ReachableFromStart(s) && acceptor in Acceptors && acceptor in s.acceptors
    requires Prepare(ballot) in s.msgs && MayPromise(s.acceptors[acceptor], ballot)
    ensures ReachableFromStart(Promised(s, acceptor, ballot))
  {
    var m, t := PaxosModel(), Promised(s, acceptor, ballot);
    assert t in PromiseFrom(s, acceptor);
    assert t in m.steps[1].generator(s);
    ReachableStep(m, [StartEmpty()], s, 1, t);
  }

  lemma AcceptReachable(s: PaxosState, ballot: int, value: int, quorum: set<int>)
    requires ReachableFromStart(s) && ballot in Ballots && value in Values
    requires !AcceptSent(s, ballot) && quorum in Quorums() && QuorumAllows(s, quorum, ballot, value)
    ensures ReachableFromStart(s.Send(Accept(ballot, value)))
  {
    var m, t := PaxosModel(), s.Send(Accept(ballot, value));
    assert t in AcceptFor(s, ballot, value);
    assert t in m.steps[2].generator(s);
    ReachableStep(m, [StartEmpty()], s, 2, t);
  }

  lemma AcceptedReachable(s: PaxosState, acceptor: int, ballot: int, value: int)
    requires ReachableFromStart(s) && acceptor in Acceptors && acceptor in s.acceptors
    requires Accept(ballot, value) in s.msgs && MayVote(s.acceptors[acceptor], ballot)
    ensures ReachableFromStart(Voted(s, acceptor, ballot, value))
  {
    var m, t := PaxosModel(), Voted(s, acceptor, ballot, value);
    assert t in AcceptedBy(s, acceptor);
    assert t in m.steps[3].generator(s);
    ReachableStep(m, [StartEmpty()], s, 3, t);
  }

  /** Ballot 1 prepared. */
  function Prepared(): PaxosState {
    PrepareBallot(StartEmpty(), 1)
  }

  /** Then promised by acceptors 0, 1 and 2. */
  function AllPromisedState(): PaxosState {
    Promised(Promised(Promised(Prepared(), 0, 1), 1, 1), 2, 1)
  }

  /** Then value 101 proposed for ballot 1. */
  function Proposed(): PaxosState {
    AllPromisedState().Send(Accept(1, 101))
  }

  /** Then voted for by acceptors 0, 1 and 2. */
  function AllVotedState(): PaxosState {
    Voted(Voted(Voted(Proposed(), 0, 1, 101), 1, 1, 101), 2, 1, 101)
  }

  /** Every acceptor holds `a`. */
  predicate AllAcceptorsAre(s: PaxosState, a: AcceptorState) {
    s.acceptors.Keys == Acceptors && forall k | k in Acceptors :: s.acceptors[k] == a
  }

  /** The test `reachesPrepareMessage`. */
  lemma ReachesPrepareMessage()
    ensures ReachableFromStart(Prepared())
    ensures Prepared().ContainsMessageMatching((m: Message) => m.Prepare?)
  {
    InitReachable(PaxosModel(), [StartEmpty()], StartEmpty());
    PrepareReachable(StartEmpty(), 1);
  }

  /** The tests `reachesPromiseMessage` and `reachesPromisedAcceptors`. */
  lemma ReachesPromisedAcceptors()
    ensures ReachableFromStart(AllPromisedState())
    ensures AllPromisedState().ContainsMessageMatching((m: Message) => m.Promise?)
    ensures AllAcceptorsAre(AllPromisedState(), AcceptorState(Some(1), None, None))
    ensures forall k | k in AllPromisedState().acceptors :: AllPromisedState().acceptors[k].HasPromised()
  {
    var s0 := Prepared();
    var s1 := Promised(s0, 0, 1);
    var s2 := Promised(s1, 1, 1);
    var s3 := Promised(s2, 2, 1);
    var p := AcceptorState(Some(1), None, None);
    assert s0.acceptors == map a | a in Acceptors :: Unused;
    assert s0.acceptors.Keys == Acceptors;
    UpdatedEffect(s0, 0, (a: AcceptorState) => a.WithNewMaxPromise(1));
    UpdatedEffect(s1, 1, (a: AcceptorState) => a.WithNewMaxPromise(1));
    UpdatedEffect(s2, 2, (a: AcceptorState) => a.WithNewMaxPromise(1));
    assert s1.acceptors.Keys == Acceptors;
    assert s1.acceptors[0] == p && s1.acceptors[1] == Unused && s1.acceptors[2] == Unused;
    assert s2.acceptors.Keys == Acceptors;
    assert s2.acceptors[0] == p && s2.acceptors[1] == p && s2.acceptors[2] == Unused;
    assert s3.acceptors.Keys == Acceptors;
    assert s3.acceptors[0] == p && s3.acceptors[1] == p && s3.acceptors[2] == p;
    assert AllAcceptorsAre(s3, p);
    ReachesPrepareMessage();
    PromiseReachable(s0, 0, 1);
    PromiseReachable(s1, 1, 1);
    PromiseReachable(s2, 2, 1);
    assert Promise(1, 2, None, None) in s3.msgs;
  }

  /** All three acceptors form a quorum. */
  lemma EveryoneIsAQuorum()
    ensures Acceptors in Quorums()
  {
    assert Acceptors in NonEmptySubsets(Acceptors);
    assert |Acceptors| == 3;
  }

  /** After the three promises, every acceptor's promise for ballot 1 was sent, and no proposal. */
  lemma PromisesSent()
    ensures forall a | a in Acceptors :: Promise(1, a, None, None) in AllPromisedState().msgs
    ensures !AcceptSent(AllPromisedState(), 1)
  {
    var s1 := Promised(Prepared(), 0, 1);
    var s2 := Promised(s1, 1, 1);
    assert Promise(1, 0, None, None) in s1.msgs;
    assert Promise(1, 1, None, None) in s2.msgs;
  }

  /** The test `reachesAcceptMessage`. */
  lemma ReachesAcceptMessage()
    ensures ReachableFromStart(Proposed())
    ensures Proposed().ContainsMessageMatching((m: Message) => m.Accept?)
    ensures AllAcceptorsAre(Proposed(), AcceptorState(Some(1), None, None))
  {
    var s := AllPromisedState();
    var promises := PromisesFor(s, Acceptors, 1);
    PromisesSent();
    forall a | a in Acceptors
      ensures exists p | p in promises :: p.Promise? && p.acceptor == a
    {
      assert Promise(1, a, None, None) in promises;
    }
    ReachesPromisedAcceptors();
    ReachableInvariant(s);
    OnlyConditionAMatters(s, Acceptors, 1, 101);
    EveryoneIsAQuorum();
    AcceptReachable(s, 1, 101, Acceptors);
  }

  /** The tests `reachesAcceptedMessage`, `reachesAcceptedAcceptors` and `reachesConvergence`. */
  lemma ReachesConvergence()
    ensures ReachableFromStart(AllVotedState())
    ensures AllVotedState().ContainsMessageMatching((m: Message) => m.Accepted?)
    ensures AllAcceptorsAre(AllVotedState(), AcceptorState(Some(1), Some(1), Some(101)))
    ensures forall k | k in AllVotedState().acceptors :: AllVotedState().acceptors[k].HasAccepted()
  {
    var s0 := Proposed();
    var v := AcceptorState(Some(1), Some(1), Some(101));
    var s1 := Voted(s0, 0, 1, 101);
    var s2 := Voted(s1, 1, 1, 101);
    var s3 := Voted(s2, 2, 1, 101);
    ReachesAcceptMessage();
    UpdatedEffect(s0, 0, _ => v);
    UpdatedEffect(s1, 1, _ => v);
    UpdatedEffect(s2, 2, _ => v);
    assert s1.acceptors[1] == s0.acceptors[1] && s1.acceptors[2] == s0.acceptors[2];
    assert s2.acceptors[2] == s0.acceptors[2];
    AcceptedReachable(s0, 0, 1, 101);
    AcceptedReachable(s1, 1, 1, 101);
    AcceptedReachable(s2, 2, 1, 101);
    assert s3.acceptors[0] == v && s3.acceptors[1] == v && s3.acceptors[2] == v;
    assert Accepted(1, 101, 2) in s3.msgs;
  }
}
