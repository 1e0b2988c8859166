/**
 * The boards of at most eight rows that the eight queens search can meet:
 * a finite set that every step keeps the search inside.
 */
module EightQueensUniverse {
  import opened EightQueensBoard

  /** Every sequence of `n` columns on the board. */
  ghost function Boards(n: nat): set<seq<int>> {
    if n == 0 then {[]}
    else set xs, col | xs in Boards(n - 1) && 0 <= col < BoardSize :: xs + [col]
  }

  /** Every sequence of at most `n` columns on the board. */
  ghost function BoardsUpTo(n: nat): set<seq<int>> {
    if n == 0 then Boards(0) else BoardsUpTo(n - 1) + Boards(n)
  }

  /** A board on the board's columns followed by one more such column is a board one row longer. */
  lemma BoardsExtend(front: seq<int>, n: nat, col: int, xs: seq<int>)
    requires front in Boards(n) && 0 <= col < BoardSize && xs == front + [col]
    ensures xs in Boards(n + 1)
  {
  }

  lemma {:induction false} InBoards(s: EightQueensState)
    requires OnBoard(s)
    ensures s.locations in Boards(|s.locations|)
    decreases |s.locations|
  {
    if s.locations != [] {
      var front := EightQueensState(s.locations[..|s.locations| - 1]);
      OnBoardFront(s);
      InBoards(front);
      BoardsLast(s.locations, front.locations, |front.locations|);
    }
  }

  /** A board whose rows above the last form a board is a board. */
  lemma BoardsLast(xs: seq<int>, front: seq<int>, n: nat)
    requires |xs| == n + 1 && front == xs[..n] && front in Boards(n)
    requires 0 <= xs[n] < BoardSize
    ensures xs in Boards(n + 1)
  {
    assert xs == front + [xs[n]];
    BoardsExtend(front, n, xs[n], xs);
  }

  /** Dropping the last queen keeps the others on the board. */
  lemma OnBoardFront(s: EightQueensState)
    requires OnBoard(s) && |s.locations| > 0
    ensures OnBoard(EightQueensState(s.locations[..|s.locations| - 1]))
  {
    var front := EightQueensState(s.locations[..|s.locations| - 1]);
    forall k | 0 <= k < |front.locations|
      ensures 0 <= front.locations[k] < BoardSize
    {
      assert front.locations[k] == s.locations[k];
    }
  }

  lemma {:induction false} InBoardsUpTo(xs: seq<int>, n: nat, limit: nat)
    requires xs in Boards(n) && n <= limit
    ensures xs in BoardsUpTo(limit)
  {
    if n < limit {
      InBoardsUpTo(xs, n, limit - 1);
    }
  }

  /** The finite set of peaceful boards of at most eight rows: every state the search can meet. */
  ghost function Universe(): set<EightQueensState> {
    set xs | xs in BoardsUpTo(BoardSize) && Peaceful(EightQueensState(xs)) && OnBoard(EightQueensState(xs))
      :: EightQueensState(xs)
  }

  lemma InUniverse(s: EightQueensState)
    requires Peaceful(s) && OnBoard(s) && |s.locations| <= BoardSize
    ensures s in Universe()
  {
    InBoards(s);
    InBoardsUpTo(s.locations, |s.locations|, BoardSize);
  }

  lemma {:induction false} BoardsUpToBounded(xs: seq<int>, n: nat)
    requires xs in BoardsUpTo(n)
    ensures |xs| <= n
  {
    if n > 0 && xs !in Boards(n) {
      BoardsUpToBounded(xs, n - 1);
    } else if n > 0 {
      BoardsLength(xs, n);
    }
  }

  lemma {:induction false} BoardsLength(xs: seq<int>, n: nat)
    requires xs in Boards(n)
    ensures |xs| == n
    decreases n
  {
    if n > 0 {
      var front, col :| front in Boards(n - 1) && 0 <= col < BoardSize && xs == front + [col];
      BoardsLength(front, n - 1);
    }
  }
}
