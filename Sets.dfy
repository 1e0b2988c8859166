/**
 * Set helpers of the library: the subset test, the non-empty power set
 * and the choice of one element.
 */
module Sets {

  /** Some element of a non-empty set (a choice the proofs make). */
  ghost function Any<T>(s: set<T>): (y: T)
    requires s != {}
    ensures y in s
  {
    var y :| y in s; y
  }

  /** Every element of `s` is `y` or an element of `s - {y}`. */
  lemma Split<T>(s: set<T>, y: T)
    ensures forall x :: x in s ==> x == y || x in s - {y}
  {
  }

  /** A subset is no larger than its superset. */
  lemma {:induction false} SubsetNoLarger<T>(a: set<T>, b: set<T>)
    requires a <= b
    ensures |a| <= |b|
    decreases |b|
  {
    if a != {} {
      var x := Any(a);
      SubsetNoLarger(a - {x}, b - {x});
    }
  }

  /** A subset as large as its superset is the whole superset. */
  lemma SubsetSameSize<T>(a: set<T>, b: set<T>)
    requires a <= b && |a| == |b|
    ensures a == b
  {
    if a != b {
      var x :| x in b && x !in a;
      SubsetNoLarger(a, b - {x});
    }
  }

  /** `a isSubsetOf b`: nothing of `a` is left once `b` is subtracted. */
  function IsSubsetOf<T>(a: set<T>, b: set<T>): (r: bool)
    ensures r <==> forall x :: x in a ==> x in b
  {
    var left := a - b;
    assert forall x :: x in a && x !in b ==> x in left;
    left == {}
  }

  /** The reference meaning of `subsets()`: every non-empty subset of `s`. */
  function NonEmptySubsets<T>(s: set<T>): set<set<T>>
  {
    set p: set<T> | p <= s && p != {}
  }

  /** Every subset of `ps` extended by `item`, next to the subsets themselves. */
  function WithAndWithout<T>(ps: set<set<T>>, item: set<T>): set<set<T>>
  {
    ps + set p | p in ps :: p + item
  }

  function Pow2(n: nat): nat
  {
    if n == 0 then 1 else 2 * Pow2(n - 1)
  }

  /**
   * `pick`: a one-element subset of a non-empty set. Which element is an
   * iteration-order detail of the host language, so any element will do.
   */
  method Pick<T>(s: set<T>) returns (item: set<T>)
    requires s != {}
    ensures |item| == 1 && item <= s
    ensures exists x :: x in s && item == {x}
  {
    var x :| x in s;
    item := {x};
  }

  /**
   * `subsets()`, by its own recursion: split off one element, take the
   * subsets of the rest, and add each of them with and without it.
   */
  method Subsets<T>(s: set<T>) returns (r: set<set<T>>)
    ensures r == NonEmptySubsets(s)
    decreases |s|
  {
    if |s| == 0 {
      SubsetsOfEmpty(s);
      return {};
    }
    if |s| == 1 {
      SubsetsOfSingleton(s);
      return {s};
    }
    var item := Pick(s);
    var e :| e in s && item == {e};
    var rest := s - item;
    assert |rest| == |s| - 1;
    var restSubsets := Subsets(rest);
    var result := AddWithAndWithout(restSubsets, item);
    assert result + {item} == NonEmptySubsets(s) by {
      SubsetsStep(s, e);
    }
    return result + {item};
  }

  /** The loop of `subsets()`: each subset of the rest, with and without `item`. */
  method AddWithAndWithout<T>(ps: set<set<T>>, item: set<T>) returns (result: set<set<T>>)
    ensures result == WithAndWithout(ps, item)
  {
    result := {};
    var todo := ps;
    while todo != {}
      invariant todo <= ps
      invariant result == WithAndWithout(ps - todo, item)
      decreases |todo|
    {
      var p :| p in todo;
      assert result + {p, p + item} == WithAndWithout(ps - (todo - {p}), item) by {
        WithAndWithoutAdd(ps - todo, p, item);
        assert ps - (todo - {p}) == (ps - todo) + {p};
      }
      result := result + {p, p + item};
      todo := todo - {p};
    }
    assert ps - todo == ps;
  }

  lemma WithAndWithoutAdd<T>(done: set<set<T>>, p: set<T>, item: set<T>)
    ensures WithAndWithout(done + {p}, item) == WithAndWithout(done, item) + {p, p + item}
  {
  }

  /** `subsets(∅) == ∅`. */
  lemma SubsetsOfEmpty<T>(s: set<T>)
    requires |s| == 0
    ensures NonEmptySubsets(s) == {}
  {
    assert s == {};
  }

  /** `subsets({x}) == {{x}}`. */
  lemma SubsetsOfSingleton<T>(s: set<T>)
    requires |s| == 1
    ensures NonEmptySubsets(s) == {s}
  {
    var x := Any(s);
    Split(s, x);
    assert |s - {x}| == 0;
    assert s == {x};
    forall p | p in NonEmptySubsets(s)
      ensures p == s
    {
      var y := Any(p);
      assert y == x;
      Split(p, x);
    }
  }

  /**
   * The recursive step of `subsets()`: the non-empty subsets of `s` are
   * those of `s - {e}`, each also extended by `e`, together with `{e}`.
   */
  lemma SubsetsStep<T>(s: set<T>, e: T)
    requires e in s
    ensures NonEmptySubsets(s) == WithAndWithout(NonEmptySubsets(s - {e}), {e}) + {{e}}
  {
    var rest := s - {e};
    var lhs := NonEmptySubsets(s);
    var rhs := WithAndWithout(NonEmptySubsets(rest), {e}) + {{e}};
    forall q | q in lhs
      ensures q in rhs
    {
      var smaller := q - {e};
      if e !in q {
        assert q <= rest;
        assert q in NonEmptySubsets(rest);
      } else if smaller == {} {
        Split(q, e);
        assert q == {e};
      } else {
        assert smaller in NonEmptySubsets(rest);
        assert q == smaller + {e};
      }
    }
  }

  /** Extending by an element no member holds keeps the members apart. */
  lemma {:induction false} ExtendedCount<T>(ps: set<set<T>>, e: T)
    requires forall p :: p in ps ==> e !in p
    ensures |set p | p in ps :: p + {e}| == |ps|
    decreases |ps|
  {
    if ps != {} {
      var q := Any(ps);
      var others := ps - {q};
      ExtendedCount(others, e);
      var image := set p | p in others :: p + {e};
      assert (set p | p in ps :: p + {e}) == image + {q + {e}};
    }
  }

  /**
   * The three parts of the recursive step are pairwise disjoint: only the
   * extended subsets and `{e}` hold `e`, and `{e}` extends no non-empty set.
   */
  lemma StepPartsDisjoint<T>(smaller: set<set<T>>, e: T)
    requires forall p :: p in smaller ==> e !in p && p != {}
    ensures |smaller + (set p | p in smaller :: p + {e}) + {{e}}|
         == |smaller| + |set p | p in smaller :: p + {e}| + 1
  {
    var extended := set p | p in smaller :: p + {e};
    assert smaller !! extended by {
      forall p | p in extended
        ensures p !in smaller
      {
        assert e in p;
      }
    }
    forall p | p in smaller
      ensures p + {e} != {e}
    {
      var y := Any(p);
      assert y in p + {e};
    }
    assert {e} !in smaller + extended;
  }

  /** `|subsets(s)| == 2^|s| - 1`. */
  lemma {:induction false} SubsetsCount<T>(s: set<T>)
    ensures |NonEmptySubsets(s)| == Pow2(|s|) - 1
    decreases |s|
  {
    if |s| == 0 {
      SubsetsOfEmpty(s);
    } else {
      var e := Any(s);
      var rest := s - {e};
      SubsetsStep(s, e);
      StepCount(rest, e);
      SubsetsCount(rest);
      assert |rest| == |s| - 1;
    }
  }

  /** The recursive step doubles the subsets of the rest and adds one. */
  lemma StepCount<T>(rest: set<T>, e: T)
    requires e !in rest
    ensures |WithAndWithout(NonEmptySubsets(rest), {e}) + {{e}}| == 2 * |NonEmptySubsets(rest)| + 1
  {
    var smaller := NonEmptySubsets(rest);
    SubsetsLack(rest, e);
    ExtendedCount(smaller, e);
    StepPartsDisjoint(smaller, e);
  }

  /** The non-empty subsets of a set lacking `e` all lack `e`. */
  lemma SubsetsLack<T>(rest: set<T>, e: T)
    requires e !in rest
    ensures forall p :: p in NonEmptySubsets(rest) ==> e !in p && p != {}
  {
  }

  /** The three expectations of the library's tests, for sets of size 2, 3 and 4. */
  lemma SubsetsCountExamples()
    ensures |NonEmptySubsets({1, 2})| == 3
    ensures |NonEmptySubsets({1, 2, 3})| == 7
    ensures |NonEmptySubsets({1, 2, 3, 4})| == 15
  {
    SubsetsCount({1, 2});
    SubsetsCount({1, 2, 3});
    SubsetsCount({1, 2, 3, 4});
  }
}
