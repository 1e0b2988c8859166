/**
 * The successor-emission language step functions are written in: a
 * `collecting` body emits states, one at a time or a set at a time, into a
 * receiver, and `collecting` returns the set of everything emitted. The
 * guarded form `assuming(cond) collecting body` runs the body only when the
 * condition holds. A body is modelled by the sequence of its emissions.
 */
module Lang {

  /** One emission of a body: `emit(s)` or `emit(ss)`. */
  datatype Emission<S> = EmitOne(state: S) | EmitSet(states: set<S>)

  /** The states one emission adds. */
  function Produced<S>(e: Emission<S>): set<S> {
    match e
    case EmitOne(s) => {s}
    case EmitSet(ss) => ss
  }

  /** Everything a body emits, taken emission by emission. */
  function Emitted<S>(body: seq<Emission<S>>): set<S> {
    if |body| == 0 then {} else Emitted(body[..|body| - 1]) + Produced(body[|body| - 1])
  }

  /** A state is collected exactly when some emission of the body produces it. */
  lemma {:induction false} EmittedExactly<S>(body: seq<Emission<S>>, s: S)
    ensures s in Emitted(body) <==> exists i :: 0 <= i < |body| && s in Produced(body[i])
  {
    if |body| > 0 {
      var front := body[..|body| - 1];
      EmittedExactly(front, s);
      if s in Emitted(front) {
        var i :| 0 <= i < |front| && s in Produced(front[i]);
        assert body[i] == front[i];
      }
      if exists i :: 0 <= i < |body| && s in Produced(body[i]) {
        var i :| 0 <= i < |body| && s in Produced(body[i]);
        if i < |front| {
          assert front[i] == body[i];
        }
      }
    }
  }

  /** Collecting two bodies one after the other is the union of their results. */
  lemma {:induction false} EmittedAppend<S>(first: seq<Emission<S>>, second: seq<Emission<S>>)
    ensures Emitted(first + second) == Emitted(first) + Emitted(second)
    decreases |second|
  {
    if |second| > 0 {
      var front := second[..|second| - 1];
      assert (first + second)[..|first + second| - 1] == first + front;
      assert (first + second)[|first + second| - 1] == second[|second| - 1];
      EmittedAppend(first, front);
    } else {
      assert first + second == first;
    }
  }

  /** Emitting a state that was already emitted changes nothing. */
  lemma DuplicateEmissionCollapses<S>(body: seq<Emission<S>>, s: S)
    requires s in Emitted(body)
    ensures Emitted(body + [EmitOne(s)]) == Emitted(body)
  {
    assert (body + [EmitOne(s)])[..|body|] == body;
  }

  /** The receiver a `collecting` body emits into. */
  class StateReceiver<S(==)> {
    var stateSet: set<S>

    constructor ()
      ensures stateSet == {}
    {
      stateSet := {};
    }

    /** `emit(s)`. */
    method Emit(s: S)
      modifies this
      ensures stateSet == old(stateSet) + {s}
    {
      stateSet := stateSet + {s};
    }

    /** `emit(ss)`: adds the elements of `ss` one by one, and nothing else. */
    method EmitAll(ss: set<S>)
      modifies this
      ensures stateSet == old(stateSet) + ss
    {
      var remaining := ss;
      while remaining != {}
        invariant remaining <= ss
        invariant stateSet == old(stateSet) + (ss - remaining)
        decreases |remaining|
      {
        var s :| s in remaining;
        Emit(s);
        remaining := remaining - {s};
      }
    }

    /** Runs a body against this receiver, emission by emission. */
    method Run(body: seq<Emission<S>>)
      modifies this
      ensures stateSet == old(stateSet) + Emitted(body)
    {
      for i := 0 to |body|
        invariant stateSet == old(stateSet) + Emitted(body[..i])
      {
        assert body[..i + 1][..i] == body[..i];
        match body[i]
        case EmitOne(s) => Emit(s);
        case EmitSet(ss) => EmitAll(ss);
      }
      assert body[..|body|] == body;
    }
  }

  /** `collecting { body }`: the set of states the body emits. */
  method Collecting<S(==)>(body: seq<Emission<S>>) returns (r: set<S>)
    ensures r == Emitted(body)
  {
    var receiver := new StateReceiver<S>();
    receiver.Run(body);
    r := receiver.stateSet;
  }

  /** The result of `assuming(cond)`: the condition, evaluated once. */
  datatype ConditionLhs = ConditionLhs(cond: bool) {

    /** `collecting` under a condition: the body runs only if it holds. */
    method Collecting<S(==)>(body: seq<Emission<S>>) returns (r: set<S>)
      ensures cond ==> r == Emitted(body)
      ensures !cond ==> r == {}
    {
      var receiver := new StateReceiver<S>();
      if cond {
        receiver.Run(body);
      }
      r := receiver.stateSet;
    }
  }

  /** `assuming(cond)`: evaluates the guard once, before any body runs. */
  function Assuming(cond: () -> bool): ConditionLhs {
    ConditionLhs(cond())
  }
}
