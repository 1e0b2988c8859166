/**
 * The board of the eight queens puzzle: queens are placed row by row, and
 * a board is a solution when it holds eight queens no two of which attack
 * each other.
 */
module EightQueensBoard {
  import Sets

  const BoardSize: nat := 8

  /** `locations[i]` is the column of the queen in row `i`. */
  datatype EightQueensState = EightQueensState(locations: seq<int>) {

    /** `place`: a queen in the next row, in column `newCol`. */
    function Place(newCol: int): (r: EightQueensState)
      ensures |r.locations| == |locations| + 1
      ensures r.locations[..|locations|] == locations && r.locations[|locations|] == newCol
    {
      EightQueensState(locations + [newCol])
    }
  }

  /** `noQueensPlaced`. */
  function NoQueensPlaced(): EightQueensState {
    EightQueensState([])
  }

  function Abs(x: int): nat {
    if x < 0 then -x else x
  }

  /** `attacks`: the queens of rows `i` and `j` share a column or a diagonal. */
  predicate Attacks(s: EightQueensState, i: nat, j: nat)
    requires i < |s.locations| && j < |s.locations|
  {
    s.locations[i] == s.locations[j]
    || s.locations[i] - s.locations[j] == i - j
    || s.locations[i] - s.locations[j] == j - i
  }

  /** Two queens attack each other exactly when they share a column or a diagonal. */
  lemma AttacksMeaning(s: EightQueensState, i: nat, j: nat)
    requires i < |s.locations| && j < |s.locations|
    ensures Attacks(s, i, j) <==>
              (s.locations[i] == s.locations[j] || Abs(s.locations[i] - s.locations[j]) == Abs(i - j))
  {
  }

  /** Attacking is symmetric. */
  lemma AttacksSymmetric(s: EightQueensState, i: nat, j: nat)
    requires i < |s.locations| && j < |s.locations|
    ensures Attacks(s, i, j) == Attacks(s, j, i)
  {
  }

  /** Whether a queen in column `col` of the next row is safe from every earlier queen. */
  predicate NewQueenSafe(s: EightQueensState, col: int) {
    var n := |s.locations|;
    !(exists j :: 0 <= j < n && Attacks(s.Place(col), n, j))
  }

  /**
   * `placeQueen`: one successor per column of the next row that no earlier
   * queen attacks.
   */
  function PlaceQueen(s: EightQueensState): (r: set<EightQueensState>)
    ensures forall t :: t in r ==>
              && |t.locations| == |s.locations| + 1
              && t.locations[..|s.locations|] == s.locations
              && 0 <= t.locations[|s.locations|] < BoardSize
    ensures forall t :: t in r ==>
              forall j :: 0 <= j < |s.locations| ==> !Attacks(t, |s.locations|, j)
  {
    set col | 0 <= col < BoardSize && NewQueenSafe(s, col) :: s.Place(col)
  }

  /** Every column the earlier queens leave free is a successor. */
  lemma PlaceQueenOffers(s: EightQueensState, col: int)
    requires 0 <= col < BoardSize
    requires forall j :: 0 <= j < |s.locations| ==> !Attacks(s.Place(col), |s.locations|, j)
    ensures s.Place(col) in PlaceQueen(s)
  {
  }

  /** `isSolution`: eight queens, no two of which attack each other. */
  predicate IsSolution(s: EightQueensState) {
    |s.locations| == BoardSize && forall i, j :: 0 <= i < j < BoardSize ==> !Attacks(s, i, j)
  }

  /** The queen of row `i` attacks none of the rows `i + 1 .. upTo - 1`. */
  predicate RowClear(s: EightQueensState, i: nat, upTo: nat)
    requires i < |s.locations| && upTo <= |s.locations|
  {
    forall b :: i < b < upTo ==> !Attacks(s, i, b)
  }

  /** A full board is a solution exactly when every row is clear of the rows below it. */
  lemma SolutionByRows(s: EightQueensState)
    requires |s.locations| == BoardSize
    ensures IsSolution(s) <==> forall a :: 0 <= a < BoardSize ==> RowClear(s, a, BoardSize)
  {
    if IsSolution(s) {
      forall a | 0 <= a < BoardSize
        ensures RowClear(s, a, BoardSize)
      {
        forall b | a < b < BoardSize
          ensures !Attacks(s, a, b)
        {
        }
      }
    }
    if forall a :: 0 <= a < BoardSize ==> RowClear(s, a, BoardSize) {
      forall i, j | 0 <= i < j < BoardSize
        ensures !Attacks(s, i, j)
      {
        assert RowClear(s, i, BoardSize);
      }
    }
  }

  /**
   * The loops of `isSolution`: the board must hold eight queens, and each
   * pair of rows `i < j` is checked in turn, stopping at the first attack.
   */
  method CheckSolution(s: EightQueensState) returns (r: bool)
    ensures r == IsSolution(s)
  {
    if |s.locations| != BoardSize {
      return false;
    }
    SolutionByRows(s);
    var i := 0;
    while i < BoardSize
      invariant 0 <= i <= BoardSize
      invariant forall a :: 0 <= a < i ==> RowClear(s, a, BoardSize)
    {
      var j := i + 1;
      while j < BoardSize
        invariant i + 1 <= j <= BoardSize
        invariant RowClear(s, i, j)
      {
        if Attacks(s, i, j) {
          return false;
        }
        j := j + 1;
      }
      i := i + 1;
    }
    return true;
  }

  /** `noSolution`. */
  predicate NoSolution(s: EightQueensState) {
    !IsSolution(s)
  }

  /** No two queens attack each other. */
  ghost predicate Peaceful(s: EightQueensState) {
    forall i, j :: 0 <= i < j < |s.locations| ==> !Attacks(s, i, j)
  }

  /** Every queen stands on the board. */
  ghost predicate OnBoard(s: EightQueensState) {
    forall k :: 0 <= k < |s.locations| ==> 0 <= s.locations[k] < BoardSize
  }

  /** Placing a queen keeps the board peaceful and every queen on it. */
  lemma PlaceQueenKeepsPeace(s: EightQueensState, t: EightQueensState)
    requires Peaceful(s) && OnBoard(s)
    requires t in PlaceQueen(s)
    ensures Peaceful(t) && OnBoard(t)
  {
    var n := |s.locations|;
    forall i, j | 0 <= i < j < |t.locations|
      ensures !Attacks(t, i, j)
    {
      if j < n {
        assert t.locations[i] == s.locations[i] && t.locations[j] == s.locations[j];
        assert !Attacks(s, i, j);
      } else {
        assert !Attacks(t, n, i);
      }
    }
    forall k | 0 <= k < |t.locations|
      ensures 0 <= t.locations[k] < BoardSize
    {
      if k < n {
        assert t.locations[k] == s.locations[k];
      }
    }
  }

  /** The columns of the first `n` queens. */
  ghost function Columns(s: EightQueensState, n: nat): set<int>
    requires n <= |s.locations|
  {
    if n == 0 then {} else Columns(s, n - 1) + {s.locations[n - 1]}
  }

  /** A column among the first `n` queens' columns is the column of one of them. */
  lemma {:induction false} ColumnWitness(s: EightQueensState, n: nat, col: int) returns (k: nat)
    requires n <= |s.locations| && col in Columns(s, n)
    ensures k < n && s.locations[k] == col
  {
    if s.locations[n - 1] == col {
      k := n - 1;
    } else {
      k := ColumnWitness(s, n - 1, col);
    }
  }

  /** A column none of the first `n` queens stands in is not among their columns. */
  lemma {:induction false} NotInColumns(s: EightQueensState, n: nat, col: int)
    requires n <= |s.locations|
    requires forall k :: 0 <= k < n ==> s.locations[k] != col
    ensures col !in Columns(s, n)
  {
    if n > 0 {
      NotInColumns(s, n - 1, col);
    }
  }

  /** No two queens share a column. */
  ghost predicate DistinctColumns(s: EightQueensState) {
    forall i, j :: 0 <= i < j < |s.locations| ==> s.locations[i] != s.locations[j]
  }

  lemma PeacefulDistinct(s: EightQueensState)
    requires Peaceful(s)
    ensures DistinctColumns(s)
  {
    forall i, j | 0 <= i < j < |s.locations|
      ensures s.locations[i] != s.locations[j]
    {
      assert !Attacks(s, i, j);
    }
  }

  /** Queens in pairwise different columns occupy as many columns as there are queens. */
  lemma {:induction false} DistinctColumnsCount(s: EightQueensState, n: nat)
    requires n <= |s.locations| && DistinctColumns(s)
    ensures |Columns(s, n)| == n
  {
    if n == 0 {
      assert Columns(s, n) == {};
    } else {
      DistinctColumnsCount(s, n - 1);
      LastColumnNew(s, n);
    }
  }

  /** With distinct columns, the queen of row `n - 1` stands in a column the rows above leave free. */
  lemma LastColumnNew(s: EightQueensState, n: nat)
    requires 0 < n <= |s.locations| && DistinctColumns(s)
    ensures s.locations[n - 1] !in Columns(s, n - 1)
  {
    forall k | 0 <= k < n - 1
      ensures s.locations[k] != s.locations[n - 1]
    {
    }
    NotInColumns(s, n - 1, s.locations[n - 1]);
  }

  /** The columns `0 .. n - 1`. */
  ghost function ColumnRange(n: nat): set<int> {
    if n == 0 then {} else ColumnRange(n - 1) + {n - 1}
  }

  lemma {:induction false} ColumnRangeSize(n: nat)
    ensures |ColumnRange(n)| == n
    ensures forall col :: col in ColumnRange(n) <==> 0 <= col < n
  {
    if n > 0 {
      ColumnRangeSize(n - 1);
    }
  }

  /**
   * Eight peaceful queens fill every column, so no ninth queen can be
   * placed: the search never grows a board beyond eight rows.
   */
  lemma FullBoardHasNoSuccessor(s: EightQueensState)
    requires Peaceful(s) && OnBoard(s) && |s.locations| == BoardSize
    ensures PlaceQueen(s) == {}
  {
    PeacefulDistinct(s);
    FullBoardUsesEveryColumn(s);
    forall col | 0 <= col < BoardSize
      ensures !NewQueenSafe(s, col)
    {
      var k := ColumnWitness(s, BoardSize, col);
      assert Attacks(s.Place(col), BoardSize, k);
    }
  }

  /** Eight queens in pairwise different columns of the board use all eight columns. */
  lemma FullBoardUsesEveryColumn(s: EightQueensState)
    requires DistinctColumns(s) && OnBoard(s) && |s.locations| == BoardSize
    ensures forall col :: 0 <= col < BoardSize ==> col in Columns(s, BoardSize)
  {
    var used := Columns(s, BoardSize);
    DistinctColumnsCount(s, BoardSize);
    ColumnRangeSize(BoardSize);
    forall col | col in used
      ensures col in ColumnRange(BoardSize)
    {
      var k := ColumnWitness(s, BoardSize, col);
    }
    Sets.SubsetSameSize(used, ColumnRange(BoardSize));
  }


  /** A solution: the queen of row `i` stands in column `Solution()[i]`. */
  function Solution(): seq<int> {
    [0, 4, 7, 5, 2, 6, 1, 3]
  }

  /**
   * The pairs the loops of `isSolution` still have to check, starting at
   * row `i` against row `j`, in the loops' order.
   */
  predicate PairsClearFrom(s: EightQueensState, i: nat, j: nat)
    requires |s.locations| == BoardSize && j <= BoardSize + 1
    decreases BoardSize - i, BoardSize + 1 - j
  {
    if i >= BoardSize then true
    else if j >= BoardSize then PairsClearFrom(s, i + 1, i + 2)
    else !Attacks(s, i, j) && PairsClearFrom(s, i, j + 1)
  }

  /** The pairs left from `(i, j)` are clear exactly when the rest of row `i` and every later row are clear. */
  lemma {:induction false} PairsClearSound(s: EightQueensState, i: nat, j: nat)
    requires |s.locations| == BoardSize && j <= BoardSize + 1
    ensures PairsClearFrom(s, i, j) <==>
              && (i < BoardSize ==> forall b :: j <= b < BoardSize ==> !Attacks(s, i, b))
              && (forall a :: i < a < BoardSize ==> RowClear(s, a, BoardSize))
    decreases BoardSize - i, BoardSize + 1 - j
  {
    if i >= BoardSize {
    } else if j >= BoardSize {
      PairsClearSound(s, i + 1, i + 2);
      var next := i + 1;
      if next < BoardSize {
        assert RowClear(s, next, BoardSize) <==> forall b :: next + 1 <= b < BoardSize ==> !Attacks(s, next, b);
      }
      assert (forall a :: i < a < BoardSize ==> RowClear(s, a, BoardSize)) <==>
        (i + 1 < BoardSize ==> RowClear(s, i + 1, BoardSize)) && (forall a :: i + 1 < a < BoardSize ==> RowClear(s, a, BoardSize));
    } else {
      PairsClearSound(s, i, j + 1);
    }
  }

  lemma SolutionIsSolution()
    ensures IsSolution(EightQueensState(Solution()))
  {
    var s := EightQueensState(Solution());
    assert PairsClearFrom(s, 0, 1);
    PairsClearSound(s, 0, 1);
    SolutionByRows(s);
  }

  /** Queens whose columns all lie on the board stand on the board. */
  lemma OnBoardByElements(s: EightQueensState)
    requires forall col :: col in s.locations ==> 0 <= col < BoardSize
    ensures OnBoard(s)
  {
    forall k | 0 <= k < |s.locations|
      ensures 0 <= s.locations[k] < BoardSize
    {
      assert s.locations[k] in s.locations;
    }
  }

  /** A solution is a peaceful board. */
  lemma SolutionPeaceful(s: EightQueensState)
    requires IsSolution(s)
    ensures Peaceful(s)
  {
  }

  /** Each row of a peaceful board is a queen `placeQueen` offers after the rows above it. */
  lemma PrefixStep(xs: seq<int>, k: nat)
    requires Peaceful(EightQueensState(xs)) && OnBoard(EightQueensState(xs)) && k < |xs|
    ensures EightQueensState(xs[..k + 1]) in PlaceQueen(EightQueensState(xs[..k]))
  {
    var s := EightQueensState(xs[..k]);
    assert s.Place(xs[k]).locations == xs[..k + 1];
    forall j | 0 <= j < k
      ensures !Attacks(s.Place(xs[k]), k, j)
    {
      assert !Attacks(EightQueensState(xs), j, k);
    }
    PlaceQueenOffers(s, xs[k]);
  }
}
