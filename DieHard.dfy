/**
 * The two-jug puzzle: with a 3-gallon jug, a 5-gallon jug and a faucet,
 * can exactly 4 gallons be measured? The safety property "the 5-gallon jug
 * never holds 4 gallons" is expected to fail, and its counterexample is the
 * puzzle's answer.
 */
module DieHard {
  import opened Framework

  datatype DieHardState = DieHardState(jug5: int, jug3: int)

  /** `startBothJugsEmpty`. */
  function StartBothJugsEmpty(): DieHardState {
    DieHardState(0, 0)
  }

  function Fill3(s: DieHardState): (r: DieHardState)
    ensures r.jug3 == 3 && r.jug5 == s.jug5
  {
    DieHardState(s.jug5, 3)
  }

  /** `fill5` as `DieHardModel.fill5` writes it: the 5-gallon jug ends up holding 3 gallons. */
  function Fill5AsWritten(s: DieHardState): DieHardState {
    DieHardState(3, s.jug3)
  }

  /** `fill5` as intended: the 5-gallon jug is filled to the brim. */
  function Fill5(s: DieHardState): (r: DieHardState)
    ensures r.jug5 == 5 && r.jug3 == s.jug3
  {
    DieHardState(5, s.jug3)
  }

  function Empty3(s: DieHardState): (r: DieHardState)
    ensures r.jug3 == 0 && r.jug5 == s.jug5
  {
    DieHardState(s.jug5, 0)
  }

  function Empty5(s: DieHardState): (r: DieHardState)
    ensures r.jug5 == 0 && r.jug3 == s.jug3
  {
    DieHardState(0, s.jug3)
  }

  /**
   * `pour3to5`: pours until the 3-gallon jug is empty or the 5-gallon jug
   * is full; no water is lost.
   */
  function Pour3To5(s: DieHardState): (r: DieHardState)
    ensures r.jug5 + r.jug3 == s.jug5 + s.jug3
    ensures r.jug3 == 0 || r.jug5 == 5
  {
    if s.jug5 + s.jug3 <= 5 then DieHardState(s.jug5 + s.jug3, 0)
    else
      var amount := 5 - s.jug5;
      DieHardState(5, s.jug3 - amount)
  }

  /**
   * `pour5to3`: pours until the 5-gallon jug is empty or the 3-gallon jug
   * is full; no water is lost.
   */
  function Pour5To3(s: DieHardState): (r: DieHardState)
    ensures r.jug5 + r.jug3 == s.jug5 + s.jug3
    ensures r.jug5 == 0 || r.jug3 == 3
  {
    if s.jug5 + s.jug3 <= 3 then DieHardState(0, s.jug5 + s.jug3)
    else
      var amount := 3 - s.jug3;
      DieHardState(s.jug5 - amount, 3)
  }

  /** `jug5DoesntContain4Gallos`. */
  function Jug5DoesntContain4Gallons(s: DieHardState): bool {
    s.jug5 != 4
  }

  /** `jug3WithinSize`. */
  function Jug3WithinSize(s: DieHardState): bool {
    s.jug3 <= 3
  }

  /** The model, with the given `fill5` step and the other five steps in the order `DieHardModel` declares them. */
  function ModelWith(fill5: DieHardState -> DieHardState): Model<DieHardState> {
    Model(
      [StartBothJugsEmpty()],
      [ Step(s => One(Fill3(s)), "fill3"),
        Step(s => One(fill5(s)), "fill5"),
        Step(s => One(Empty3(s)), "empty3"),
        Step(s => One(Empty5(s)), "empty5"),
        Step(s => One(Pour3To5(s)), "pour3to5"),
        Step(s => One(Pour5To3(s)), "pour5to3") ],
      [SafetySpec(Jug5DoesntContain4Gallons), SafetySpec(Jug3WithinSize)],
      [])
  }

  /** The model with the corrected `fill5`. */
  function DieHardModel(): Model<DieHardState> {
    ModelWith(Fill5)
  }

  /** The model exactly as `DieHardModel` writes it, `fill5` included. */
  function DieHardModelAsWritten(): Model<DieHardState> {
    ModelWith(Fill5AsWritten)
  }

  /** Neither jug holds more than it can, nor less than nothing. */
  predicate InBounds(s: DieHardState) {
    0 <= s.jug5 <= 5 && 0 <= s.jug3 <= 3
  }

  /** The finite set of in-bounds states: every state the search can meet. */
  ghost function Universe(): set<DieHardState> {
    set j5: int, j3: int | 0 <= j5 <= 5 && 0 <= j3 <= 3 :: DieHardState(j5, j3)
  }

  lemma UniverseIsInBounds()
    ensures forall s :: s in Universe() <==> InBounds(s)
  {
    forall s | InBounds(s)
      ensures s in Universe()
    {
      assert s == DieHardState(s.jug5, s.jug3);
    }
  }

  /** A `fill5` that keeps the jugs within their sizes: both versions do. */
  ghost predicate KeepsBounds(fill5: DieHardState -> DieHardState) {
    forall s :: InBounds(s) ==> InBounds(fill5(s))
  }

  /** Every step keeps both jugs within their sizes. */
  lemma {:induction false} StepsKeepBounds(fill5: DieHardState -> DieHardState)
    requires KeepsBounds(fill5)
    ensures Closed(ModelWith(fill5), Universe())
  {
    var m := ModelWith(fill5);
    UniverseIsInBounds();
    forall s, i, t | s in Universe() && 0 <= i < |m.steps| && t in m.steps[i].generator(s)
      ensures t in Universe()
    {
      assert InBounds(s);
    }
  }

  /** From two empty jugs, both jugs always stay within their sizes, so `jug3WithinSize` always holds. */
  lemma ReachableInBounds(fill5: DieHardState -> DieHardState, s: DieHardState)
    requires KeepsBounds(fill5)
    requires Reachable(ModelWith(fill5), [StartBothJugsEmpty()], s)
    ensures InBounds(s) && Jug3WithinSize(s)
  {
    UniverseIsInBounds();
    StepsKeepBounds(fill5);
    ClosedHoldsReachable(ModelWith(fill5), [StartBothJugsEmpty()], Universe());
  }

  /**
   * The puzzle's answer, without `fill5`: fill the 3-gallon jug, pour it
   * into the 5-gallon jug, fill and pour again (the 5-gallon jug is now
   * full, 1 gallon is left over), empty the 5-gallon jug, pour the 1 gallon
   * into it, fill the 3-gallon jug and pour it in: 4 gallons.
   */
  function Answer(): Chain<DieHardState> {
    [ ChainElement(DieHardState(0, 0), "fill3"),
      ChainElement(DieHardState(0, 3), "pour3to5"),
      ChainElement(DieHardState(3, 0), "fill3"),
      ChainElement(DieHardState(3, 3), "pour3to5"),
      ChainElement(DieHardState(5, 1), "empty5"),
      ChainElement(DieHardState(0, 1), "pour3to5"),
      ChainElement(DieHardState(1, 0), "fill3"),
      ChainElement(DieHardState(1, 3), "pour3to5") ]
  }

  /** Four gallons in the 5-gallon jug are reachable, whichever `fill5` the model has. */
  lemma FourGallonsReachable(fill5: DieHardState -> DieHardState)
    ensures IsChain(ModelWith(fill5), [StartBothJugsEmpty()], Answer(), DieHardState(4, 0))
    ensures Reachable(ModelWith(fill5), [StartBothJugsEmpty()], DieHardState(4, 0))
  {
    var m := ModelWith(fill5);
    var chain := Answer();
    var end := DieHardState(4, 0);
    assert m.steps[0].methodName == "fill3" && m.steps[3].methodName == "empty5" && m.steps[4].methodName == "pour3to5";
    forall k | 0 <= k < |chain|
      ensures IsStep(m, chain[k].state, chain[k].methodName, HopTarget(chain, k, end))
    {
      var i := if chain[k].methodName == "fill3" then 0 else if chain[k].methodName == "empty5" then 3 else 4;
      assert HopTarget(chain, k, end) in m.steps[i].generator(chain[k].state);
    }
    assert IsChain(m, [StartBothJugsEmpty()], chain, end);
  }

  /**
   * Solving the corrected model fails, as the puzzle expects: the end state
   * holds 4 gallons in the 5-gallon jug (the other safety property cannot
   * be the one broken), and its chain replays from two empty jugs.
   */
  method SolveDieHard() returns (r: Result<DieHardState>)
    ensures r.Failure? && r.endState.jug5 == 4
    ensures r.Failure? ==> IsChain(DieHardModel(), [StartBothJugsEmpty()], r.chain, r.endState)
  {
    var m := DieHardModel();
    UniverseIsInBounds();
    StepsKeepBounds(Fill5);
    r := SolveModel(m, Universe());
    FourGallonsReachable(Fill5);
    ViolationIsFourGallons(Fill5, DieHardState(4, 0));
    if r.Failure? {
      assert Reachable(m, m.init, r.endState);
      ViolationIsFourGallons(Fill5, r.endState);
    }
  }

  /** A reachable state breaks a safety property exactly when the 5-gallon jug holds 4 gallons. */
  lemma ViolationIsFourGallons(fill5: DieHardState -> DieHardState, s: DieHardState)
    requires KeepsBounds(fill5)
    requires Reachable(ModelWith(fill5), [StartBothJugsEmpty()], s)
    ensures SafetyViolated(s, ModelWith(fill5).safeties) <==> s.jug5 == 4
  {
    ReachableInBounds(fill5, s);
    var safeties := ModelWith(fill5).safeties;
    assert !safeties[0].property(s) <==> s.jug5 == 4;
    assert safeties[1].property(s);
  }

  /** As written, `fill5` never leaves the 5-gallon jug full: from empty jugs it yields 3 gallons, not 5. */
  lemma Fill5AsWrittenFallsShort(s: DieHardState)
    ensures Fill5AsWritten(s).jug5 != 5
    ensures Fill5AsWritten(StartBothJugsEmpty()) == DieHardState(3, 0) != Fill5(StartBothJugsEmpty())
  {
  }

  /** The slip does not change the verdict: the model as written also stays in bounds and also reaches 4 gallons. */
  lemma AsWrittenVerdictUnchanged(s: DieHardState)
    ensures Reachable(DieHardModelAsWritten(), [StartBothJugsEmpty()], DieHardState(4, 0))
    ensures Reachable(DieHardModelAsWritten(), [StartBothJugsEmpty()], s) ==> InBounds(s)
  {
    assert KeepsBounds(Fill5AsWritten);
    assert DieHardModelAsWritten() == ModelWith(Fill5AsWritten);
    FourGallonsReachable(Fill5AsWritten);
    if Reachable(ModelWith(Fill5AsWritten), [StartBothJugsEmpty()], s) {
      ReachableInBounds(Fill5AsWritten, s);
    }
  }
}
