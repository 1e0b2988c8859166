/**
 * Hofstadter's MU puzzle. Starting from "MI", four rewriting rules apply:
 * append 'U' after a final 'I', double everything after the 'M', replace
 * "III" by "U", and delete "UU". The puzzle asks whether "MU" can be
 * reached; it cannot, because the number of 'I's is never a multiple of
 * three. The model keeps strings shorter than eight letters.
 */
module Mu {
  import opened Framework

  datatype MuState = MuState(d: string)

  /** `mi`: the initial state. */
  function Mi(): MuState {
    MuState("MI")
  }

  /**
   * `appendU`: a string ending in 'I' gets a 'U' appended. Any other string
   * has no successor (on the empty string `MuState.last` throws).
   */
  function AppendU(s: MuState): StepOutput<MuState> {
    if |s.d| > 0 && s.d[|s.d| - 1] == 'I' then One(MuState(s.d + "U")) else Nothing
  }

  /**
   * `doubleAfterM`: appends the string after its first letter. On the empty
   * string `MuState.substring(1)` throws, and there is no successor.
   */
  function DoubleAfterM(s: MuState): StepOutput<MuState> {
    if |s.d| == 0 then Nothing else One(MuState(s.d + s.d[1..]))
  }

  /** `squashTripleI`: one successor per occurrence of "III", which becomes "U". */
  function SquashTripleI(s: MuState): set<MuState> {
    set i | 0 <= i <= |s.d| - 3 && s.d[i..i + 3] == "III" :: SquashTripleAt(s, i)
  }

  /** `squashDoubleU`: one successor per occurrence of "UU", which is deleted. */
  function SquashDoubleU(s: MuState): set<MuState> {
    set i | 0 <= i <= |s.d| - 2 && s.d[i..i + 2] == "UU" :: SquashDoubleAt(s, i)
  }

  /** `limitedLength`: the search keeps strings shorter than eight letters. */
  function LimitedLength(s: MuState): bool {
    |s.d| < 8
  }

  /**
   * `expectedLetters`: an 'M' first, then only 'I's and 'U's. The empty
   * string, on which `expectedLetters`'s `d[0]` throws, does not qualify.
   */
  function ExpectedLetters(s: MuState): bool {
    |s.d| > 0 && s.d[0] == 'M' && forall i :: 1 <= i < |s.d| ==> s.d[i] == 'I' || s.d[i] == 'U'
  }

  /** The loop of `expectedLetters`: the first letter, then each later one, stopping at the first stray letter. */
  method CheckExpectedLetters(s: MuState) returns (r: bool)
    ensures r == ExpectedLetters(s)
  {
    if |s.d| == 0 || s.d[0] != 'M' {
      return false;
    }
    for i := 1 to |s.d|
      invariant forall k :: 1 <= k < i ==> s.d[k] == 'I' || s.d[k] == 'U'
    {
      if s.d[i] != 'I' && s.d[i] != 'U' {
        return false;
      }
    }
    return true;
  }

  /** `noMu`. */
  function NoMu(s: MuState): bool {
    s != MuState("MU")
  }

  /** The model: the rules in the order `MuModel` declares them, both safety properties, the length bound. */
  function MuModel(): Model<MuState> {
    Model(
      [Mi()],
      [ Step(AppendU, "appendU"),
        Step(DoubleAfterM, "doubleAfterM"),
        Step(s => Many(SquashTripleI(s)), "squashTripleI"),
        Step(s => Many(SquashDoubleU(s)), "squashDoubleU") ],
      [SafetySpec(ExpectedLetters), SafetySpec(NoMu)],
      [BoundarySpec(LimitedLength)])
  }

  // ---------------------------------------------------------------------------
  // Counting 'I's
  // ---------------------------------------------------------------------------

  /** The number of 'I's in a string. */
  function ICount(d: string): nat {
    if d == [] then 0 else ICount(d[..|d| - 1]) + (if d[|d| - 1] == 'I' then 1 else 0)
  }

  lemma {:induction false} ICountAppend(a: string, b: string)
    ensures ICount(a + b) == ICount(a) + ICount(b)
    decreases |b|
  {
    if b != [] {
      var n := |b| - 1;
      assert (a + b)[..|a + b| - 1] == a + b[..n];
      assert (a + b)[|a + b| - 1] == b[n];
      ICountAppend(a, b[..n]);
    } else {
      assert a + b == a;
    }
  }

  /** The count of 'I's a state must never reach a multiple of three with. */
  predicate Invariant(s: MuState) {
    ExpectedLetters(s) && ICount(s.d) % 3 != 0
  }

  // ---------------------------------------------------------------------------
  // What each rule does
  // ---------------------------------------------------------------------------

  /** `appendU` fires exactly after a final 'I', grows the string by one letter and keeps the 'I's. */
  lemma AppendUEffect(s: MuState)
    ensures AppendU(s).One? <==> |s.d| > 0 && s.d[|s.d| - 1] == 'I'
    ensures AppendU(s).One? ==>
      var t := AppendU(s).state;
      && |t.d| == |s.d| + 1 && t.d[..|s.d|] == s.d && t.d[|s.d|] == 'U'
      && ICount(t.d) == ICount(s.d)
      && (ExpectedLetters(s) ==> ExpectedLetters(t))
  {
    if AppendU(s).One? {
      ICountAppend(s.d, "U");
      assert ICount("U") == 0 by { assert "U"[..0] == ""; }
    }
  }

  /** `doubleAfterM` keeps the first letter and doubles the 'I's after it. */
  lemma DoubleAfterMEffect(s: MuState)
    ensures DoubleAfterM(s).One? <==> |s.d| > 0
    ensures DoubleAfterM(s).One? ==>
      var t := DoubleAfterM(s).state;
      && |t.d| == 2 * |s.d| - 1 && t.d[..|s.d|] == s.d && t.d[|s.d|..] == s.d[1..]
      && (ExpectedLetters(s) ==> ExpectedLetters(t) && ICount(t.d) == 2 * ICount(s.d))
  {
    if |s.d| > 0 && ExpectedLetters(s) {
      DoubleKeepsLetters(s.d);
      DoubleCountsTwice(s.d);
    }
  }

  /** After a leading 'M', doubling the rest doubles the count of 'I's. */
  lemma DoubleCountsTwice(d: string)
    requires |d| > 0 && d[0] == 'M'
    ensures ICount(d + d[1..]) == 2 * ICount(d)
  {
    ICountAppend(d, d[1..]);
    assert d == [d[0]] + d[1..];
    ICountAppend([d[0]], d[1..]);
    assert ICount([d[0]]) == 0 by {
      assert [d[0]][..0] == [];
    }
  }

  /** Doubling after the first letter brings in no letter other than 'I' and 'U'. */
  lemma DoubleKeepsLetters(d: string)
    requires |d| > 0 && forall i :: 1 <= i < |d| ==> d[i] == 'I' || d[i] == 'U'
    ensures forall i :: 1 <= i < |d + d[1..]| ==> (d + d[1..])[i] == 'I' || (d + d[1..])[i] == 'U'
  {
    var e := d + d[1..];
    forall i | 1 <= i < |e|
      ensures e[i] == 'I' || e[i] == 'U'
    {
      if i >= |d| {
        assert e[i] == d[i - |d| + 1];
      }
    }
  }

  /** Replacing "III" by "U" at `i`. */
  function SquashTripleAt(s: MuState, i: nat): MuState
    requires i + 3 <= |s.d|
  {
    MuState(s.d[..i] + "U" + s.d[i + 3..])
  }

  /**
   * The successors of `squashTripleI` are exactly the replacements at the
   * occurrences of "III"; each is two letters shorter and has three fewer
   * 'I's, and one of a well-formed string is well formed.
   */
  lemma SquashTripleIEffect(s: MuState, t: MuState)
    ensures t in SquashTripleI(s) <==>
      exists i: nat :: i + 3 <= |s.d| && s.d[i..i + 3] == "III" && t == SquashTripleAt(s, i)
    ensures t in SquashTripleI(s) ==>
      && |t.d| == |s.d| - 2 && ICount(t.d) + 3 == ICount(s.d)
      && (ExpectedLetters(s) ==> ExpectedLetters(t))
  {
    forall i: nat | i + 3 <= |s.d| && s.d[i..i + 3] == "III" {
      SquashTripleAtEffect(s, i);
    }
  }

  lemma SquashTripleAtEffect(s: MuState, i: nat)
    requires i + 3 <= |s.d| && s.d[i..i + 3] == "III"
    ensures var t := SquashTripleAt(s, i);
      && |t.d| == |s.d| - 2 && ICount(t.d) + 3 == ICount(s.d)
      && (ExpectedLetters(s) ==> ExpectedLetters(t))
  {
    var pre, post := s.d[..i], s.d[i + 3..];
    var t := SquashTripleAt(s, i);
    assert s.d == pre + "III" + post;
    ICountAppend(pre + "III", post);
    ICountAppend(pre, "III");
    ICountAppend(pre + "U", post);
    ICountAppend(pre, "U");
    assert ICount("III") == 3 by {
      assert "III"[..2] == "II" && "II"[..1] == "I" && "I"[..0] == "";
    }
    assert ICount("U") == 0 by { assert "U"[..0] == ""; }
    if ExpectedLetters(s) {
      assert s.d[i] == s.d[i..i + 3][0] == 'I';
      forall k | 1 <= k < |t.d|
        ensures t.d[k] == 'I' || t.d[k] == 'U'
      {
        if k > i {
          assert t.d[k] == s.d[k + 2];
        } else if k < i {
          assert t.d[k] == s.d[k];
        }
      }
      assert t.d[0] == s.d[0];
    }
  }

  /** Deleting "UU" at `i`. */
  function SquashDoubleAt(s: MuState, i: nat): MuState
    requires i + 2 <= |s.d|
  {
    MuState(s.d[..i] + s.d[i + 2..])
  }

  /**
   * The successors of `squashDoubleU` are exactly the deletions of an
   * occurrence of "UU"; each is two letters shorter with as many 'I's, and
   * one of a well-formed string is well formed.
   */
  lemma SquashDoubleUEffect(s: MuState, t: MuState)
    ensures t in SquashDoubleU(s) <==>
      exists i: nat :: i + 2 <= |s.d| && s.d[i..i + 2] == "UU" && t == SquashDoubleAt(s, i)
    ensures t in SquashDoubleU(s) ==>
      && |t.d| == |s.d| - 2 && ICount(t.d) == ICount(s.d)
      && (ExpectedLetters(s) ==> ExpectedLetters(t))
  {
    forall i: nat | i + 2 <= |s.d| && s.d[i..i + 2] == "UU" {
      SquashDoubleAtEffect(s, i);
    }
  }

  lemma SquashDoubleAtEffect(s: MuState, i: nat)
    requires i + 2 <= |s.d| && s.d[i..i + 2] == "UU"
    ensures var t := SquashDoubleAt(s, i);
      && |t.d| == |s.d| - 2 && ICount(t.d) == ICount(s.d)
      && (ExpectedLetters(s) ==> ExpectedLetters(t))
  {
    var pre, post := s.d[..i], s.d[i + 2..];
    var t := SquashDoubleAt(s, i);
    assert s.d == pre + "UU" + post;
    ICountAppend(pre + "UU", post);
    ICountAppend(pre, "UU");
    ICountAppend(pre, post);
    assert ICount("UU") == 0 by { assert "UU"[..1] == "U" && "U"[..0] == ""; }
    if ExpectedLetters(s) {
      assert s.d[i] == s.d[i..i + 2][0] == 'U';
      forall k | 1 <= k < |t.d|
        ensures t.d[k] == 'I' || t.d[k] == 'U'
      {
        if k >= i {
          assert t.d[k] == s.d[k + 2];
        } else {
          assert t.d[k] == s.d[k];
        }
      }
      assert t.d[0] == s.d[0];
    }
  }

  /** Every rule keeps `expectedLetters` and keeps the count of 'I's off the multiples of three. */
  lemma StepsKeepInvariant(s: MuState, i: nat, t: MuState)
    requires Invariant(s)
    requires i < |MuModel().steps| && t in MuModel().steps[i].generator(s)
    ensures Invariant(t)
  {
    StepsKeepLetters(s, i, t);
    var c := ICount(s.d);
    if i == 0 {
      AppendUEffect(s);
    } else if i == 1 {
      DoubleAfterMEffect(s);
      assert c % 3 == 1 || c % 3 == 2;
      assert (2 * c) % 3 != 0;
    } else if i == 2 {
      SquashTripleIEffect(s, t);
      assert (ICount(t.d) + 3) % 3 == ICount(t.d) % 3;
    } else {
      SquashDoubleUEffect(s, t);
    }
  }

  /** Every rule keeps `expectedLetters`. */
  lemma StepsKeepLetters(s: MuState, i: nat, t: MuState)
    requires ExpectedLetters(s)
    requires i < |MuModel().steps| && t in MuModel().steps[i].generator(s)
    ensures ExpectedLetters(t)
  {
    if i == 0 {
      AppendUEffect(s);
    } else if i == 1 {
      DoubleAfterMEffect(s);
    } else if i == 2 {
      SquashTripleIEffect(s, t);
    } else {
      SquashDoubleUEffect(s, t);
    }
  }

  // ---------------------------------------------------------------------------
  // The finite state space
  // ---------------------------------------------------------------------------

  /** Every string of `n` letters drawn from 'I' and 'U'. */
  ghost function Tails(n: nat): set<string> {
    if n == 0 then {""}
    else (set t | t in Tails(n - 1) :: t + "I") + (set t | t in Tails(n - 1) :: t + "U")
  }

  lemma {:induction false} TailsShape(n: nat, t: string)
    requires t in Tails(n)
    ensures |t| == n && forall k :: 0 <= k < |t| ==> t[k] == 'I' || t[k] == 'U'
  {
    if n > 0 {
      var u :| u in Tails(n - 1) && (t == u + "I" || t == u + "U");
      TailsShape(n - 1, u);
    }
  }

  lemma {:induction false} InTails(t: string)
    requires forall k :: 0 <= k < |t| ==> t[k] == 'I' || t[k] == 'U'
    ensures t in Tails(|t|)
  {
    if t != [] {
      var u := t[..|t| - 1];
      InTails(u);
      if t[|t| - 1] == 'I' {
        assert t == u + "I";
      } else {
        assert t == u + "U";
      }
    }
  }

  /** The well-formed strings the search can keep: an 'M' and fewer than seven 'I's and 'U's. */
  ghost function Universe(): set<MuState> {
    set n, t | 0 <= n < 7 && t in Tails(n) :: MuState("M" + t)
  }

  lemma UniverseIsBounded(s: MuState)
    ensures s in Universe() <==> ExpectedLetters(s) && LimitedLength(s)
  {
    if s in Universe() {
      var n, t :| 0 <= n < 7 && t in Tails(n) && s == MuState("M" + t);
      TailsShape(n, t);
      assert forall k :: 1 <= k < |s.d| ==> s.d[k] == t[k - 1];
    }
    if ExpectedLetters(s) && LimitedLength(s) {
      var t := s.d[1..];
      assert forall k :: 0 <= k < |t| ==> t[k] == s.d[k + 1];
      InTails(t);
      assert s.d == "M" + t;
    }
  }

  /** The universe, restricted to states with a count of 'I's off the multiples of three. */
  ghost function InvariantUniverse(): set<MuState> {
    set s | s in Universe() && Invariant(s)
  }

  lemma UniverseClosed()
    ensures Closed(MuModel(), Universe())
  {
    var m := MuModel();
    forall s, i, t | s in Universe() && 0 <= i < |m.steps| && t in m.steps[i].generator(s)
                     && WithinBoundaries(m.boundaries, t)
      ensures t in Universe()
    {
      StepStaysInUniverse(s, i, t);
    }
  }

  lemma InvariantUniverseClosed()
    ensures Closed(MuModel(), InvariantUniverse())
  {
    var m := MuModel();
    forall s, i, t | s in InvariantUniverse() && 0 <= i < |m.steps| && t in m.steps[i].generator(s)
                     && WithinBoundaries(m.boundaries, t)
      ensures t in InvariantUniverse()
    {
      StepStaysInUniverse(s, i, t);
    }
  }

  lemma StepStaysInUniverse(s: MuState, i: nat, t: MuState)
    requires s in Universe()
    requires i < |MuModel().steps| && t in MuModel().steps[i].generator(s)
    requires WithinBoundaries(MuModel().boundaries, t)
    ensures t in Universe()
    ensures s in InvariantUniverse() ==> t in InvariantUniverse()
  {
    UniverseIsBounded(s);
    assert MuModel().boundaries[0].property(t);
    StepsKeepLetters(s, i, t);
    UniverseIsBounded(t);
    if s in InvariantUniverse() {
      StepsKeepInvariant(s, i, t);
    }
  }

  /**
   * Every state reachable from "MI" is well formed, shorter than eight
   * letters, and has a count of 'I's that is not a multiple of three; so
   * "MU", with no 'I' at all, is never reached.
   */
  lemma ReachableKeepsInvariant(s: MuState)
    requires Reachable(MuModel(), [Mi()], s)
    ensures Invariant(s) && LimitedLength(s)
    ensures s != MuState("MU")
  {
    MiInInvariantUniverse();
    InvariantUniverseClosed();
    ClosedHoldsReachable(MuModel(), [Mi()], InvariantUniverse());
    UniverseIsBounded(s);
  }

  /** "MI" counts one 'I' and "MU" none; so "MI" keeps the invariant and "MU" breaks it. */
  lemma MiInInvariantUniverse()
    ensures Mi() in InvariantUniverse()
    ensures !Invariant(MuState("MU"))
  {
    UniverseIsBounded(Mi());
    assert ICount("MI") == 1 by { assert "MI"[..1] == "M" && "M"[..0] == ""; }
    assert ICount("MU") == 0 by { assert "MU"[..1] == "M" && "M"[..0] == ""; }
  }

  /** The test `succeeds`: solving the model from "MI" finds no violation. */
  method SolveMu() returns (r: Result<MuState>)
    ensures r.Success?
  {
    var m := MuModel();
    UniverseClosed();
    UniverseIsBounded(Mi());
    forall s | Reachable(m, m.init, s)
      ensures !SafetyViolated(s, m.safeties)
    {
      ReachableKeepsInvariant(s);
      assert m.safeties[0].property(s) && m.safeties[1].property(s);
    }
    r := SolveModel(m, Universe());
  }

  // ---------------------------------------------------------------------------
  // The tests' reachability facts
  // ---------------------------------------------------------------------------

  /** The test `reachesMiu`: `appendU` takes "MI" to "MIU". */
  lemma MiuReachable()
    ensures Reachable(MuModel(), [Mi()], MuState("MIU"))
  {
    var m := MuModel();
    InitReachable(m, [Mi()], Mi());
    assert Mi().d[1] == 'I' && Mi().d + "U" == "MIU";
    assert MuState("MIU") in m.steps[0].generator(Mi());
    ReachableStep(m, [Mi()], Mi(), 0, MuState("MIU"));
  }

  /** The test `reachesMiuiuFromMiu`: `doubleAfterM` takes "MIU" to "MIUIU". */
  lemma MiuiuFromMiu()
    ensures Reachable(MuModel(), [MuState("MIU")], MuState("MIUIU"))
  {
    var m, s, t := MuModel(), MuState("MIU"), MuState("MIUIU");
    InitReachable(m, [s], s);
    assert s.d + s.d[1..] == t.d;
    assert t in m.steps[1].generator(s);
    ReachableStep(m, [s], s, 1, t);
  }

  lemma SquashesMuiiiu()
    ensures MuState("MUUU") in SquashTripleI(MuState("MUIIIU"))
  {
    var s := MuState("MUIIIU");
    assert s.d[2..5] == "III";
    assert s.d[..2] + "U" + s.d[5..] == "MUUU";
    assert SquashTripleAt(s, 2) == MuState("MUUU");
  }

  lemma SquashesMuuu()
    ensures MuState("MU") in SquashDoubleU(MuState("MUUU"))
  {
    var s := MuState("MUUU");
    assert s.d[1..3] == "UU";
    assert s.d[..1] + s.d[3..] == "MU";
    assert SquashDoubleAt(s, 1) == MuState("MU");
  }

  /** The test `reachesMuuuFromMuiiiu`: `squashTripleI` takes "MUIIIU" to "MUUU". */
  lemma MuuuFromMuiiiu()
    ensures Reachable(MuModel(), [MuState("MUIIIU")], MuState("MUUU"))
  {
    var m, s, t := MuModel(), MuState("MUIIIU"), MuState("MUUU");
    SquashesMuiiiu();
    assert t in m.steps[2].generator(s);
    InitReachable(m, [s], s);
    ReachableStep(m, [s], s, 2, t);
  }

  /** The test `reachesMuFromMuuu`: `squashDoubleU` takes "MUUU" to "MU". */
  lemma MuFromMuuu()
    ensures Reachable(MuModel(), [MuState("MUUU")], MuState("MU"))
  {
    var m, s, t := MuModel(), MuState("MUUU"), MuState("MU");
    SquashesMuuu();
    assert t in m.steps[3].generator(s);
    InitReachable(m, [s], s);
    ReachableStep(m, [s], s, 3, t);
  }

  /** The test `failsFromMuuu`: from "MUUU" the search meets "MU" and fails. */
  method SolveMuFromMuuu() returns (r: Result<MuState>)
    ensures r.Failure?
  {
    var m, s := MuModel(), MuState("MUUU");
    MuFromMuuu();
    MuBreaksNoMu();
    UniverseClosed();
    UniverseIsBounded(s);
    r := SolveFrom(m, [s], Universe());
  }

  lemma MuBreaksNoMu()
    ensures SafetyViolated(MuState("MU"), MuModel().safeties)
  {
    assert !MuModel().safeties[1].property(MuState("MU"));
  }
}
