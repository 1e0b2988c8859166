/**
 * The state of a single-decree Paxos run: one record per acceptor and the
 * set of every message ever sent.
 */
module PaxosState {
  import opened Wrappers
  import opened Sets

  /** One acceptor: the highest ballot promised, and the last ballot and value voted for. */
  datatype AcceptorState = AcceptorState(maxBallot: Option<int>, maxVBallot: Option<int>, maxValue: Option<int>) {

    /** `withNewMaxPromise`: promise `newMaxBallot`, keeping the last vote. */
    function WithNewMaxPromise(newMaxBallot: int): (r: AcceptorState)
      ensures r.maxBallot == Some(newMaxBallot) && r.HasPromised()
      ensures r.maxVBallot == maxVBallot && r.maxValue == maxValue
      ensures HasAccepted() ==> r.HasAccepted()
    {
      AcceptorState(Some(newMaxBallot), maxVBallot, maxValue)
    }

    /** `hasPromised`. */
    predicate HasPromised() {
      maxBallot.Some?
    }

    /** `hasAccepted`. */
    predicate HasAccepted() {
      maxBallot.Some? && maxVBallot.Some? && maxValue.Some?
    }
  }

  /** The default acceptor record: no promise, no vote. */
  const Unused: AcceptorState := AcceptorState(None, None, None)

  /** The messages of stages 1a, 1b, 2a and 2b. */
  datatype Message =
    | Prepare(ballot: int)
    | Promise(ballot: int, acceptor: int, maxBallot: Option<int>, maxVBallot: Option<int>)
    | Accept(ballot: int, value: int)
    | Accepted(ballot: int, value: int, acceptor: int)

  datatype PaxosState = PaxosState(acceptors: map<int, AcceptorState>, msgs: set<Message>) {

    /** `send`: the message joins the messages sent; the acceptors stay as they are. */
    function Send(m: Message): (r: PaxosState)
      ensures r.acceptors == acceptors
      ensures m in r.msgs && msgs <= r.msgs
      ensures forall n :: n in r.msgs ==> n in msgs || n == m
    {
      PaxosState(acceptors, msgs + {m})
    }

    /**
     * The private `updateAcceptor(acceptorIndex, newStateFun)`: the entry at
     * `acceptorIndex`, if there is one, becomes `f` of itself.
     */
    function Updated(acceptorIndex: int, f: AcceptorState -> AcceptorState): PaxosState {
      PaxosState(
        map k | k in acceptors :: if k == acceptorIndex then f(acceptors[k]) else acceptors[k],
        msgs)
    }

    /** `updateAcceptor(acceptorIndex, newState)`. */
    function UpdateAcceptor(acceptorIndex: int, newState: AcceptorState): PaxosState {
      Updated(acceptorIndex, _ => newState)
    }

    /** `accept(acceptorIndex, ballot)`: the acceptor promises `ballot`. */
    function Accept(acceptorIndex: int, ballot: int): PaxosState {
      Updated(acceptorIndex, (a: AcceptorState) => a.WithNewMaxPromise(ballot))
    }

    /** `containsMessageMatching`: whether the messages that satisfy `pred` are not none. */
    function ContainsMessageMatching(pred: Message -> bool): (r: bool)
      ensures r <==> exists m :: m in msgs && pred(m)
    {
      var matching := set m | m in msgs && pred(m);
      if matching == {} then
        assert forall m :: m in msgs && pred(m) ==> m in matching;
        false
      else
        assert Any(matching) in msgs;
        true
    }
  }

  /**
   * The loop of the private `updateAcceptor`: copies every entry into a
   * fresh map, passing the one at `acceptorIndex` through `f`.
   */
  method UpdatedByLoop(s: PaxosState, acceptorIndex: int, f: AcceptorState -> AcceptorState)
    returns (r: PaxosState)
    ensures r == s.Updated(acceptorIndex, f)
  {
    var newAcceptors: map<int, AcceptorState> := map[];
    var remaining := s.acceptors.Keys;
    while remaining != {}
      invariant remaining <= s.acceptors.Keys
      invariant newAcceptors.Keys == s.acceptors.Keys - remaining
      invariant forall k :: k in newAcceptors ==>
        newAcceptors[k] == if k == acceptorIndex then f(s.acceptors[k]) else s.acceptors[k]
      decreases |remaining|
    {
      ghost var some := Any(remaining);
      var key :| key in remaining;
      if key == acceptorIndex {
        newAcceptors := newAcceptors[key := f(s.acceptors[key])];
      } else {
        newAcceptors := newAcceptors[key := s.acceptors[key]];
      }
      remaining := remaining - {key};
    }
    r := PaxosState(newAcceptors, s.msgs);
  }

  /** Sending a message twice is sending it once. */
  lemma SendIdempotent(s: PaxosState, m: Message)
    ensures s.Send(m).Send(m) == s.Send(m)
    ensures m in s.msgs ==> s.Send(m) == s
  {
    assert s.msgs + {m} + {m} == s.msgs + {m};
  }

  /**
   * Updating an acceptor replaces that entry only: the acceptors' keys and
   * the messages stay the same, and an absent acceptor is not added.
   */
  lemma UpdatedEffect(s: PaxosState, acceptorIndex: int, f: AcceptorState -> AcceptorState)
    ensures var t := s.Updated(acceptorIndex, f);
      && t.acceptors.Keys == s.acceptors.Keys && t.msgs == s.msgs
      && (acceptorIndex in s.acceptors ==> t.acceptors[acceptorIndex] == f(s.acceptors[acceptorIndex]))
      && (forall k :: k in s.acceptors && k != acceptorIndex ==> t.acceptors[k] == s.acceptors[k])
      && (acceptorIndex !in s.acceptors ==> t == s)
  {
  }

  /** `accept(i, b)` makes acceptor `i` promise `b` and keeps its last vote. */
  lemma AcceptEffect(s: PaxosState, acceptorIndex: int, ballot: int)
    requires acceptorIndex in s.acceptors
    ensures var a, old_a := s.Accept(acceptorIndex, ballot).acceptors[acceptorIndex], s.acceptors[acceptorIndex];
      a.maxBallot == Some(ballot) && a.maxVBallot == old_a.maxVBallot && a.maxValue == old_a.maxValue
  {
  }
}
