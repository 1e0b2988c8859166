/** Least and greatest elements and sums of finite sets of integers. */
module IntSets {

  import opened Sets

  predicate IsGreatest(s: set<int>, m: int) {
    m in s && forall x :: x in s ==> x <= m
  }

  predicate IsLeast(s: set<int>, m: int) {
    m in s && forall x :: x in s ==> m <= x
  }

  lemma {:induction false} GreatestExists(s: set<int>)
    requires s != {}
    ensures exists m :: IsGreatest(s, m)
    decreases |s|
  {
    var y := Any(s);
    var rest := s - {y};
    Split(s, y);
    if rest == {} {
      assert IsGreatest(s, y);
    } else {
      GreatestExists(rest);
      var r :| IsGreatest(rest, r);
      assert IsGreatest(s, if r < y then y else r);
    }
  }

  lemma {:induction false} LeastExists(s: set<int>)
    requires s != {}
    ensures exists m :: IsLeast(s, m)
    decreases |s|
  {
    var y := Any(s);
    var rest := s - {y};
    Split(s, y);
    if rest == {} {
      assert IsLeast(s, y);
    } else {
      LeastExists(rest);
      var r :| IsLeast(rest, r);
      assert IsLeast(s, if y < r then y else r);
    }
  }

  /** The greatest element of a non-empty finite set of integers. */
  function Max(s: set<int>): (m: int)
    requires s != {}
    ensures m in s
    ensures forall x :: x in s ==> x <= m
  {
    GreatestExists(s);
    var m :| IsGreatest(s, m);
    m
  }

  /** The least element of a non-empty finite set of integers. */
  function Min(s: set<int>): (m: int)
    requires s != {}
    ensures m in s
    ensures forall x :: x in s ==> m <= x
  {
    LeastExists(s);
    var m :| IsLeast(s, m);
    m
  }

  /** The sum of a finite set of integers (Kotlin's `Set<Int>.sum()`). */
  function Sum(s: set<int>): int
    decreases |s|
  {
    if s == {} then 0 else Min(s) + Sum(s - {Min(s)})
  }

  /** The sum can be taken apart at any element, not only at the least one. */
  lemma {:induction false} SumRemove(s: set<int>, x: int)
    requires x in s
    ensures Sum(s) == x + Sum(s - {x})
    decreases |s|
  {
    var m := Min(s);
    if x != m {
      SumRemove(s - {m}, x);
      SumRemove(s - {x}, m);
      assert s - {m} - {x} == s - {x} - {m};
      assert Min(s - {x}) == m;
    }
  }

  /** A sum of positive integers is at least the number of summands. */
  lemma {:induction false} SumOfPositives(s: set<int>)
    requires forall x :: x in s ==> x > 0
    ensures Sum(s) >= |s|
    decreases |s|
  {
    if s != {} {
      SumOfPositives(s - {Min(s)});
    }
  }

  /** Adding a new element adds its value to the sum. */
  lemma SumAdd(s: set<int>, x: int)
    requires x !in s
    ensures Sum(s + {x}) == Sum(s) + x
  {
    SumRemove(s + {x}, x);
    assert (s + {x}) - {x} == s;
  }

  /** Adding a positive element adds at most its value: nothing when it is already there. */
  lemma SumAddAtMost(s: set<int>, x: int)
    requires x > 0
    ensures Sum(s + {x}) <= Sum(s) + x
  {
    if x in s {
      assert s + {x} == s;
    } else {
      SumAdd(s, x);
    }
  }

  /** Among sets of positive integers, a subset has no larger a sum. */
  lemma {:induction false} SumSubset(a: set<int>, b: set<int>)
    requires a <= b
    requires forall x :: x in b ==> x > 0
    ensures 0 <= Sum(a) <= Sum(b)
    decreases |a|
  {
    SumOfPositives(a);
    SumOfPositives(b);
    if a != {} {
      var x := Any(a);
      SumRemove(a, x);
      SumRemove(b, x);
      SumSubset(a - {x}, b - {x});
    }
  }
}
