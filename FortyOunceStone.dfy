/**
 * Bachet's weights: can a 40-ounce stone be split into pieces with which a
 * balance measures every whole weight from 1 to 40 ounces? A weight is
 * measured by some pieces alone, or as the difference between two disjoint
 * groups of pieces on the two pans. The search splits pieces while there
 * are fewer than four and fails once a split measures everything.
 */
module FortyOunceStone {
  import opened Framework
  import opened Sets
  import opened IntSets

  /** The weight of the stone. */
  const Stone: int := 40

  /** The pieces, as a set: two pieces of the same weight are one element. */
  datatype FortyOunceStoneState = FortyOunceStoneState(pieces: set<int>)

  /** `onePieceOf40`. */
  function OnePieceOf40(): FortyOunceStoneState {
    FortyOunceStoneState({Stone})
  }

  /** Replaces `piece` by `left` and `piece - left`. */
  function SplitAt(s: FortyOunceStoneState, piece: int, left: int): FortyOunceStoneState {
    FortyOunceStoneState(s.pieces - {piece} + {left, piece - left})
  }

  /**
   * `split`: while there are fewer than four pieces, every way of cutting one
   * piece into two whole positive parts.
   */
  function Split(s: FortyOunceStoneState): set<FortyOunceStoneState> {
    if |s.pieces| < 4 then
      set piece, left | piece in s.pieces && 1 <= left <= piece - 1 :: SplitAt(s, piece, left)
    else {}
  }

  /**
   * `isRepresentation`: `target` is the weight of some non-empty group of
   * pieces, or the difference, either way round, between a non-empty group
   * and a non-empty group of the remaining pieces.
   */
  function IsRepresentation(pieces: set<int>, target: int): bool {
    exists ss | ss in NonEmptySubsets(pieces) ::
      || Sum(ss) == target
      || exists sss | sss in NonEmptySubsets(pieces - ss) ::
           Sum(ss) - Sum(sss) == target || Sum(sss) - Sum(ss) == target
  }

  /** `isSolution`: every weight from 1 to 40 ounces can be measured. */
  function IsSolution(s: FortyOunceStoneState): bool {
    forall i | 1 <= i <= Stone :: IsRepresentation(s.pieces, i)
  }

  /** `noSolution`: the safety property whose violation is the answer. */
  function NoSolution(s: FortyOunceStoneState): bool {
    !IsSolution(s)
  }

  /**
   * The inner loop of `isRepresentation`: whether `target` is the difference,
   * either way round, between `left` and some non-empty group of `others`.
   */
  method CheckDifferences(others: set<int>, left: int, target: int) returns (r: bool)
    ensures r <==> exists sss | sss in NonEmptySubsets(others) :: left - Sum(sss) == target || Sum(sss) - left == target
  {
    var groups := Subsets(others);
    while groups != {}
      invariant groups <= NonEmptySubsets(others)
      invariant forall sss | sss in NonEmptySubsets(others) && sss !in groups ::
                  left - Sum(sss) != target && Sum(sss) - left != target
      decreases |groups|
    {
      var sss :| sss in groups;
      var right := Sum(sss);
      if left - right == target || right - left == target {
        return true;
      }
      groups := groups - {sss};
    }
    return false;
  }

  /** The loops of `isRepresentation`: each group, alone and then against each group of the rest. */
  method CheckRepresentation(pieces: set<int>, target: int) returns (r: bool)
    ensures r == IsRepresentation(pieces, target)
  {
    var groups := Subsets(pieces);
    while groups != {}
      invariant groups <= NonEmptySubsets(pieces)
      invariant forall ss | ss in NonEmptySubsets(pieces) && ss !in groups ::
                  && Sum(ss) != target
                  && forall sss | sss in NonEmptySubsets(pieces - ss) ::
                       Sum(ss) - Sum(sss) != target && Sum(sss) - Sum(ss) != target
      decreases |groups|
    {
      var ss :| ss in groups;
      var left := Sum(ss);
      if left == target {
        return true;
      }
      var found := CheckDifferences(pieces - ss, left, target);
      if found {
        return true;
      }
      groups := groups - {ss};
    }
    return false;
  }

  /** The loop of `isSolution`: the weights 1 to 40 in turn, stopping at the first that cannot be measured. */
  method CheckSolution(s: FortyOunceStoneState) returns (r: bool)
    ensures r == IsSolution(s)
  {
    for i := 1 to Stone + 1
      invariant forall k :: 1 <= k < i ==> IsRepresentation(s.pieces, k)
    {
      var represented := CheckRepresentation(s.pieces, i);
      if !represented {
        return false;
      }
    }
    return true;
  }

  function FortyOunceStoneModel(): Model<FortyOunceStoneState> {
    Model([OnePieceOf40()], [Step(s => Many(Split(s)), "split")], [SafetySpec(NoSolution)], [])
  }

  // ---------------------------------------------------------------------------
  // What a split does
  // ---------------------------------------------------------------------------

  predicate AllPositive(pieces: set<int>) {
    forall x :: x in pieces ==> x > 0
  }

  /**
   * A split needs fewer than four pieces and adds at most one; it keeps the
   * pieces positive, and the total weight never grows (it shrinks when a
   * part equals a piece already there, since equal weights collapse).
   */
  lemma SplitEffect(s: FortyOunceStoneState, t: FortyOunceStoneState)
    requires t in Split(s)
    ensures |s.pieces| < 4 && |t.pieces| <= |s.pieces| + 1
    ensures AllPositive(s.pieces) ==> AllPositive(t.pieces) && Sum(t.pieces) <= Sum(s.pieces)
  {
    var piece, left :| piece in s.pieces && 1 <= left <= piece - 1 && t == SplitAt(s, piece, left);
    SplitAtSize(s, piece, left);
    if AllPositive(s.pieces) {
      SplitAtWeight(s, piece, left);
    }
  }

  lemma SplitAtSize(s: FortyOunceStoneState, piece: int, left: int)
    requires piece in s.pieces
    ensures |SplitAt(s, piece, left).pieces| <= |s.pieces| + 1
  {
    var rest := s.pieces - {piece};
    assert SplitAt(s, piece, left).pieces == rest + {left} + {piece - left};
    assert |rest + {left}| <= |rest| + 1;
  }

  lemma SplitAtWeight(s: FortyOunceStoneState, piece: int, left: int)
    requires piece in s.pieces && 1 <= left <= piece - 1 && AllPositive(s.pieces)
    ensures AllPositive(SplitAt(s, piece, left).pieces)
    ensures Sum(SplitAt(s, piece, left).pieces) <= Sum(s.pieces)
  {
    var rest := s.pieces - {piece};
    assert SplitAt(s, piece, left).pieces == rest + {left} + {piece - left};
    SumRemove(s.pieces, piece);
    SumAddAtMost(rest, left);
    SumAddAtMost(rest + {left}, piece - left);
  }

  /** Four pieces or more end the splitting. */
  lemma NoSplitFromFour(s: FortyOunceStoneState)
    requires |s.pieces| >= 4
    ensures Split(s) == {}
  {
  }

  /** Splitting 40 into 20 and 20 leaves one piece of 20: the total weight can shrink. */
  lemma SumCanShrink()
    ensures FortyOunceStoneState({20}) in Split(OnePieceOf40())
    ensures Sum({20}) == 20 < Sum(OnePieceOf40().pieces)
  {
    assert SplitAt(OnePieceOf40(), 40, 20).pieces == {20};
  }

  /** What every reachable state keeps: at most four positive pieces weighing at most 40 in all. */
  predicate Invariant(s: FortyOunceStoneState) {
    |s.pieces| <= 4 && AllPositive(s.pieces) && Sum(s.pieces) <= Stone
  }

  lemma {:induction false} ReachableInvariant(s: FortyOunceStoneState)
    requires Reachable(FortyOunceStoneModel(), [OnePieceOf40()], s)
    ensures Invariant(s)
  {
    var m := FortyOunceStoneModel();
    SumAdd({}, Stone);
    assert {} + {Stone} == {Stone};
    forall a, i, b | Invariant(a) && 0 <= i < |m.steps| && b in m.steps[i].generator(a)
                     && WithinBoundaries(m.boundaries, b)
      ensures Invariant(b)
    {
      SplitEffect(a, b);
    }
    assert Inductive(m, [OnePieceOf40()], Invariant);
    InductiveHoldsReachable(m, [OnePieceOf40()], Invariant);
  }

  // ---------------------------------------------------------------------------
  // What can be measured
  // ---------------------------------------------------------------------------

  /** No measured weight exceeds the weight of all pieces together. */
  lemma RepresentationBound(pieces: set<int>, target: int)
    requires AllPositive(pieces) && IsRepresentation(pieces, target)
    ensures -Sum(pieces) <= target <= Sum(pieces)
  {
    var ss :| ss in NonEmptySubsets(pieces) &&
      (|| Sum(ss) == target
       || exists sss | sss in NonEmptySubsets(pieces - ss) ::
            Sum(ss) - Sum(sss) == target || Sum(sss) - Sum(ss) == target);
    SumSubset(ss, pieces);
    forall sss | sss in NonEmptySubsets(pieces - ss)
      ensures -Sum(pieces) <= Sum(ss) - Sum(sss) <= Sum(pieces)
      ensures -Sum(pieces) <= Sum(sss) - Sum(ss) <= Sum(pieces)
    {
      SumSubset(sss, pieces);
    }
  }

  /** A solution weighs the full 40 ounces: nothing of the stone was lost to a collapse. */
  lemma SolutionWeighsForty(s: FortyOunceStoneState)
    requires Reachable(FortyOunceStoneModel(), [OnePieceOf40()], s)
    requires IsSolution(s)
    ensures Sum(s.pieces) == Stone
  {
    ReachableInvariant(s);
    RepresentationBound(s.pieces, Stone);
  }

  /** The whole stone measures only its own weight, so the search must split it. */
  lemma OneStoneMeasuresOnlyItself(target: int)
    ensures IsRepresentation(OnePieceOf40().pieces, target) <==> target == Stone
  {
    var p := OnePieceOf40().pieces;
    SumAdd({}, Stone);
    assert {} + {Stone} == p;
    forall ss | ss in NonEmptySubsets(p)
      ensures ss == p && NonEmptySubsets(p - ss) == {}
    {
      assert Stone in ss;
      assert p - ss == {};
    }
    assert p in NonEmptySubsets(p);
  }

  // ---------------------------------------------------------------------------
  // Bachet's answer: the powers of three
  // ---------------------------------------------------------------------------

  function Pow3(k: nat): nat {
    if k == 0 then 1 else 3 * Pow3(k - 1)
  }

  /** The weights 1, 3, ..., 3^(k-1). */
  function Powers(k: nat): set<int> {
    if k == 0 then {} else Powers(k - 1) + {Pow3(k - 1)}
  }

  /** The heaviest weight the first `k` powers of three measure: (3^k - 1) / 2. */
  function Reach(k: nat): nat {
    if k == 0 then 0 else 3 * Reach(k - 1) + 1
  }

  lemma {:induction false} Pow3Odd(k: nat)
    ensures Pow3(k) == 2 * Reach(k) + 1
  {
    if k > 0 {
      Pow3Odd(k - 1);
    }
  }

  lemma {:induction false} PowersBelow(k: nat)
    ensures forall x :: x in Powers(k) ==> 1 <= x < Pow3(k)
  {
    if k > 0 {
      PowersBelow(k - 1);
      Pow3Odd(k - 1);
    }
  }

  /** Weights `a` on one pan and `b` on the other, drawn from the first `k` powers of three, balance `t`. */
  predicate Balances(k: nat, t: int, a: set<int>, b: set<int>) {
    a <= Powers(k) && b <= Powers(k) && a !! b && Sum(a) - Sum(b) == t
  }

  /** A balance with the first `k - 1` powers extends with the next power on either pan or on neither. */
  lemma BalanceExtend(k: nat, u: int, a: set<int>, b: set<int>)
    requires k > 0 && Balances(k - 1, u, a, b)
    ensures var p := Pow3(k - 1);
      Balances(k, u + p, a + {p}, b) && Balances(k, u - p, a, b + {p}) && Balances(k, u, a, b)
  {
    var p := Pow3(k - 1);
    PowersBelow(k - 1);
    assert p !in a && p !in b && Powers(k) == Powers(k - 1) + {p};
    SumAdd(a, p);
    SumAdd(b, p);
  }

  /**
   * Balanced ternary: with the first `k` powers of three, every whole weight
   * `t` with |t| <= (3^k - 1) / 2 is a difference of two disjoint groups.
   */
  lemma {:induction false} BalancedTernary(k: nat, t: int)
    requires -(Reach(k) as int) <= t <= Reach(k)
    ensures exists a, b :: Balances(k, t, a, b)
  {
    if k == 0 {
      assert Balances(0, 0, {}, {});
    } else {
      var p: int := Pow3(k - 1);
      Pow3Odd(k - 1);
      if t > Reach(k - 1) {
        BalancedTernary(k - 1, t - p);
        var a, b :| Balances(k - 1, t - p, a, b);
        BalanceExtend(k, t - p, a, b);
        assert Balances(k, t, a + {p}, b);
      } else if t < -(Reach(k - 1) as int) {
        BalancedTernary(k - 1, t + p);
        var a, b :| Balances(k - 1, t + p, a, b);
        BalanceExtend(k, t + p, a, b);
        assert Balances(k, t, a, b + {p});
      } else {
        BalancedTernary(k - 1, t);
        var a, b :| Balances(k - 1, t, a, b);
        BalanceExtend(k, t, a, b);
      }
    }
  }

  /** A balance of a positive weight is a representation. */
  lemma BalanceRepresents(k: nat, t: int, a: set<int>, b: set<int>)
    requires t >= 1 && Balances(k, t, a, b)
    ensures IsRepresentation(Powers(k), t)
  {
    PowersBelow(k);
    SumOfPositives(a);
    SumOfPositives(b);
    assert a != {};
    assert a in NonEmptySubsets(Powers(k));
    if b != {} {
      assert b in NonEmptySubsets(Powers(k) - a);
    }
  }

  /** The pieces 1, 3, 9 and 27 measure every weight from 1 to 40 ounces. */
  lemma PowersOfThreeSolve()
    ensures Powers(4) == {1, 3, 9, 27}
    ensures IsSolution(FortyOunceStoneState(Powers(4)))
  {
    assert Reach(4) == Stone;
    forall i | 1 <= i <= Stone
      ensures IsRepresentation(Powers(4), i)
    {
      BalancedTernary(4, i);
      var a, b :| Balances(4, i, a, b);
      BalanceRepresents(4, i, a, b);
    }
  }

  /** Three splits reach 1, 3, 9 and 27: 40 = 1 + 39, 39 = 3 + 36, 36 = 9 + 27. */
  lemma PowersOfThreeReachable()
    ensures Reachable(FortyOunceStoneModel(), [OnePieceOf40()], FortyOunceStoneState({1, 3, 9, 27}))
  {
    var m, init := FortyOunceStoneModel(), [OnePieceOf40()];
    var s0, s1, s2, s3 := OnePieceOf40(), FortyOunceStoneState({1, 39}),
                          FortyOunceStoneState({1, 3, 36}), FortyOunceStoneState({1, 3, 9, 27});
    InitReachable(m, init, s0);
    assert SplitAt(s0, 40, 1) == s1;
    assert s1 in m.steps[0].generator(s0);
    ReachableStep(m, init, s0, 0, s1);
    assert |s1.pieces| == 2;
    assert SplitAt(s1, 39, 3) == s2;
    assert s2 in m.steps[0].generator(s1);
    ReachableStep(m, init, s1, 0, s2);
    assert |s2.pieces| == 3;
    assert SplitAt(s2, 36, 9) == s3;
    assert s3 in m.steps[0].generator(s2);
    ReachableStep(m, init, s2, 0, s3);
  }

  // ---------------------------------------------------------------------------
  // The search
  // ---------------------------------------------------------------------------

  /** The whole weights from 1 to `n`. */
  ghost function WeightsUpTo(n: nat): set<int> {
    if n == 0 then {} else WeightsUpTo(n - 1) + {n}
  }

  lemma {:induction false} WeightsUpToHolds(n: nat, x: int)
    ensures x in WeightsUpTo(n) <==> 1 <= x <= n
  {
    if n > 0 {
      WeightsUpToHolds(n - 1, x);
    }
  }

  /** The whole weights a piece can have. */
  ghost function PieceWeights(): set<int> {
    WeightsUpTo(Stone)
  }

  /** Every set of pieces weighing from 1 to 40 ounces each. */
  ghost function Universe(): set<FortyOunceStoneState> {
    set p: set<int> | p <= PieceWeights() :: FortyOunceStoneState(p)
  }

  lemma UniverseClosed()
    ensures OnePieceOf40() in Universe()
    ensures Closed(FortyOunceStoneModel(), Universe())
  {
    var m := FortyOunceStoneModel();
    WeightsUpToHolds(Stone, Stone);
    assert OnePieceOf40().pieces <= PieceWeights();
    forall s, i, t | s in Universe() && 0 <= i < |m.steps| && t in m.steps[i].generator(s)
                     && WithinBoundaries(m.boundaries, t)
      ensures t in Universe()
    {
      var piece, left :| piece in s.pieces && 1 <= left <= piece - 1 && t == SplitAt(s, piece, left);
      forall x | x in t.pieces
        ensures x in PieceWeights()
      {
        WeightsUpToHolds(Stone, x);
        WeightsUpToHolds(Stone, piece);
      }
    }
  }

  /**
   * Solving the model fails: a reachable state measures every weight from 1
   * to 40, so `noSolution` is broken. The state found weighs 40 ounces in
   * at most four pieces, and its chain replays from the whole stone.
   */
  method SolveFortyOunceStone() returns (r: Result<FortyOunceStoneState>)
    ensures r.Failure?
    ensures r.Failure? ==> IsSolution(r.endState) && Sum(r.endState.pieces) == Stone && |r.endState.pieces| <= 4
    ensures r.Failure? ==> IsChain(FortyOunceStoneModel(), [OnePieceOf40()], r.chain, r.endState)
  {
    var m := FortyOunceStoneModel();
    UniverseClosed();
    r := SolveModel(m, Universe());
    PowersOfThreeReachable();
    PowersOfThreeSolve();
    assert SafetyViolated(FortyOunceStoneState({1, 3, 9, 27}), m.safeties);
    if r.Failure? {
      assert !m.safeties[0].property(r.endState);
      assert Reachable(m, m.init, r.endState);
      SolutionWeighsForty(r.endState);
      ReachableInvariant(r.endState);
    }
  }
}
