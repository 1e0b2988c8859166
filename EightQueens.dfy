/**
 * The eight queens puzzle: queens are placed row by row, each new queen in
 * a column no earlier queen attacks. The safety property "no solution"
 * is expected to fail; its counterexample is a solution.
 */
module EightQueens {
  import opened Framework
  import opened EightQueensBoard
  import opened EightQueensUniverse

  function EightQueensModel(): Model<EightQueensState> {
    Model([NoQueensPlaced()], [StepSpec(PlaceQueen, "placeQueen")], [SafetySpec(NoSolution)], [])
  }

  lemma UniverseClosed()
    ensures Closed(EightQueensModel(), Universe())
  {
    var m := EightQueensModel();
    forall s, i, t | s in Universe() && 0 <= i < |m.steps| && t in m.steps[i].generator(s)
      ensures t in Universe()
    {
      BoardsUpToBounded(s.locations, BoardSize);
      if |s.locations| == BoardSize {
        FullBoardHasNoSuccessor(s);
      }
      PlaceQueenKeepsPeace(s, t);
      InUniverse(t);
    }
  }

  /** Every state reachable from the empty board has no attacking pair. */
  lemma ReachablePeaceful(s: EightQueensState)
    requires Reachable(EightQueensModel(), [NoQueensPlaced()], s)
    ensures Peaceful(s) && |s.locations| <= BoardSize
    ensures IsSolution(s) <==> |s.locations| == BoardSize
  {
    InUniverse(NoQueensPlaced());
    UniverseClosed();
    ClosedHoldsReachable(EightQueensModel(), [NoQueensPlaced()], Universe());
    BoardsUpToBounded(s.locations, BoardSize);
  }

  /** The hops that place the queens of `xs` one row at a time. */
  ghost function PrefixChain(xs: seq<int>): Chain<EightQueensState> {
    seq(|xs|, k requires 0 <= k < |xs| => ChainElement(EightQueensState(xs[..k]), "placeQueen"))
  }

  lemma PrefixChainHop(xs: seq<int>, k: nat)
    requires Peaceful(EightQueensState(xs)) && OnBoard(EightQueensState(xs)) && k < |xs|
    ensures PrefixChain(xs)[k].methodName == "placeQueen"
    ensures HopTarget(PrefixChain(xs), k, EightQueensState(xs)) in PlaceQueen(PrefixChain(xs)[k].state)
  {
    PrefixStep(xs, k);
    if k + 1 == |xs| {
      assert xs[..k + 1] == xs;
    }
  }

  /** Every peaceful board is reached by placing its queens row by row. */
  lemma PeacefulReachable(xs: seq<int>)
    requires Peaceful(EightQueensState(xs)) && OnBoard(EightQueensState(xs))
    ensures Reachable(EightQueensModel(), [NoQueensPlaced()], EightQueensState(xs))
  {
    var m := EightQueensModel();
    var end := EightQueensState(xs);
    var chain := PrefixChain(xs);
    forall k | 0 <= k < |chain|
      ensures IsStep(m, chain[k].state, chain[k].methodName, HopTarget(chain, k, end))
    {
      PrefixChainHop(xs, k);
      assert m.steps[0] == StepSpec(PlaceQueen, "placeQueen");
    }
    if xs == [] {
      assert end == NoQueensPlaced();
    } else {
      assert chain[0].state == NoQueensPlaced();
    }
    assert IsChain(m, [NoQueensPlaced()], chain, end);
  }

  /** The search places the queens of `Solution()` one row at a time. */
  lemma SolutionReachable()
    ensures IsSolution(EightQueensState(Solution()))
    ensures Reachable(EightQueensModel(), [NoQueensPlaced()], EightQueensState(Solution()))
  {
    SolutionIsSolution();
    SolutionPeaceful(EightQueensState(Solution()));
    OnBoardByElements(EightQueensState(Solution()));
    PeacefulReachable(Solution());
  }

  /** Solving fails, as the puzzle expects, and the end state is a solution. */
  method SolveEightQueens() returns (r: Result<EightQueensState>)
    ensures r.Failure? && IsSolution(r.endState)
    ensures r.Failure? ==> IsChain(EightQueensModel(), [NoQueensPlaced()], r.chain, r.endState)
  {
    InUniverse(NoQueensPlaced());
    UniverseClosed();
    r := SolveModel(EightQueensModel(), Universe());
    SolutionReachable();
  }
}
