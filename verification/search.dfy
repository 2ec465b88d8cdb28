/** The computer player: an exhaustive minimax search without pruning. Scores
    are fixed from player 1's side: +1 when player 1 wins, -1 when player 2
    wins, 0 for a draw. */
module Search {
  import opened Wrappers
  import opened BoardState

  /** The computer player; `player` is the mark it places on minimizing turns
      (2 unless the game is set up otherwise). */
  datatype AI = AI(player: Player)

  const DefaultAI: AI := AI(P2)

  /** What `minimax` returns: the score and the chosen move, `None` at a leaf. */
  datatype Eval = Eval(score: int, move: Option<Move>)

  /** The running best the maximizing loop starts from (`max_eval = -100`) and
      the minimizing loop starts from (`min_eval = 100`). */
  function Sentinel(maximizing: bool): int {
    if maximizing then -100 else 100
  }

  /** The mark placed on a turn: player 1 when maximizing, the AI's player when
      minimizing. */
  function Mover(ai: AI, maximizing: bool): Player {
    if maximizing then P1 else ai.player
  }

  /** `e` is strictly better than `best` for the side to move; the search only
      replaces its best move on such a strict improvement. */
  predicate Improves(maximizing: bool, e: int, best: int) {
    if maximizing then e > best else e < best
  }

  /** The leaf test of `minimax`: a winner, or a full counter. */
  predicate Terminal(b: Board) {
    GameState(b) != Empty || IsFull(b)
  }

  /** The score of the board reached by playing `m` on (a copy of) `b`. */
  function ChildScore(ai: AI, b: Board, maximizing: bool, m: Move): int
    requires Legal(b, m)
    decreases |GetEmptySquares(b)|, 0, 0
  {
    MarkEmptySquare(b, m.row, m.col, Mover(ai, maximizing));
    Minimax(ai, MarkSquare(b, m.row, m.col, Mover(ai, maximizing)), !maximizing).score
  }

  /** The recursive score of every candidate of `ms`, in order. */
  function Scores(ai: AI, b: Board, maximizing: bool, ms: seq<Move>): (s: seq<int>)
    requires forall n :: 0 <= n < |ms| ==> Legal(b, ms[n])
    ensures |s| == |ms|
    decreases |GetEmptySquares(b)|, 1, |ms|
  {
    if ms == [] then []
    else [ChildScore(ai, b, maximizing, ms[0])] + Scores(ai, b, maximizing, ms[1..])
  }

  /** The loop of `minimax` as a fold over the candidate moves `ms` and their
      scores, carrying the running best score and move; both are replaced only
      on a strict improvement (`eval > max_eval`, `eval < min_eval`). */
  function FoldBest(maximizing: bool, ms: seq<Move>, scores: seq<int>, best: int, bestMove: Option<Move>): Eval
    requires |scores| == |ms|
    decreases |ms|
  {
    if ms == [] then Eval(best, bestMove)
    else if Improves(maximizing, scores[0], best) then FoldBest(maximizing, ms[1..], scores[1..], scores[0], Some(ms[0]))
    else FoldBest(maximizing, ms[1..], scores[1..], best, bestMove)
  }

  /** `minimax(board, maximizing)`. A winner ends the search before fullness is
      looked at; a full board without a winner is a draw; otherwise every empty
      square is tried in row-major order from the sentinel bound. */
  function Minimax(ai: AI, b: Board, maximizing: bool): (r: Eval)
    ensures GameState(b) == P1 ==> r == Eval(1, None)
    ensures GameState(b) == P2 ==> r == Eval(-1, None)
    ensures GameState(b) == Empty && IsFull(b) ==> r == Eval(0, None)
    decreases |GetEmptySquares(b)|, 2, 0
  {
    var state := GameState(b);
    if state == P1 then Eval(1, None)
    else if state == P2 then Eval(-1, None)
    else if IsFull(b) then Eval(0, None)
    else
      var ms := GetEmptySquares(b);
      FoldBest(maximizing, ms, Scores(ai, b, maximizing, ms), Sentinel(maximizing), None)
  }

  // ---------------------------------------------------------------------------
  // What the search computes

  /** `scores[n]` is the first of `scores` to reach `score`: every earlier
      entry is strictly worse for the side to move. */
  ghost predicate FirstAt(maximizing: bool, scores: seq<int>, n: int, score: int) {
    && 0 <= n < |scores|
    && scores[n] == score
    && forall j :: 0 <= j < n ==> Improves(maximizing, score, scores[j])
  }

  /** The fold invariant: the result is at least as good as the starting bound
      and as every candidate; it keeps `bestMove` when no candidate strictly
      improves on `best`, and otherwise names the FIRST candidate that reaches
      the final score, every earlier candidate being strictly worse. */
  lemma {:induction false} FoldKeepsFirstBest(maximizing: bool, ms: seq<Move>, scores: seq<int>, best: int, bestMove: Option<Move>)
    requires |scores| == |ms|
    ensures var r := FoldBest(maximizing, ms, scores, best, bestMove);
      && !Improves(maximizing, best, r.score)
      && (forall n :: 0 <= n < |ms| ==> !Improves(maximizing, scores[n], r.score))
      && (r.score == best ==> r.move == bestMove)
      && (r.score != best ==>
            exists n :: 0 <= n < |ms| && r.move == Some(ms[n]) && FirstAt(maximizing, scores, n, r.score))
    decreases |ms|
  {
    if ms != [] {
      var e := scores[0];
      var r := FoldBest(maximizing, ms, scores, best, bestMove);
      var next := if Improves(maximizing, e, best) then e else best;
      var nextMove := if Improves(maximizing, e, best) then Some(ms[0]) else bestMove;
      FoldKeepsFirstBest(maximizing, ms[1..], scores[1..], next, nextMove);
      assert r == FoldBest(maximizing, ms[1..], scores[1..], next, nextMove);
      if r.score != next {
        var k :| 0 <= k < |ms| - 1 && r.move == Some(ms[1..][k]) && FirstAt(maximizing, scores[1..], k, r.score);
        assert r.move == Some(ms[k + 1]) && scores[k + 1] == r.score;
        forall j | 0 <= j < k + 1
          ensures Improves(maximizing, r.score, scores[j])
        {
          if j > 0 { assert scores[j] == scores[1..][j - 1]; }
        }
        assert FirstAt(maximizing, scores, k + 1, r.score);
      }
      forall n | 1 <= n < |ms|
        ensures !Improves(maximizing, scores[n], r.score)
      {
        assert scores[n] == scores[1..][n - 1];
      }
    }
  }

  /** Every candidate of a consistent board scores -1, 0 or 1. */
  lemma ScoresInRange(ai: AI, b: Board, maximizing: bool)
    requires Consistent(b)
    ensures var ms := GetEmptySquares(b);
      forall n :: 0 <= n < |ms| ==> -1 <= Scores(ai, b, maximizing, ms)[n] <= 1
    decreases |GetEmptySquares(b)|, 1
  {
    var ms := GetEmptySquares(b);
    forall n | 0 <= n < |ms|
      ensures -1 <= Scores(ai, b, maximizing, ms)[n] <= 1
    {
      var m, p := ms[n], Mover(ai, maximizing);
      ScoresAreChildScores(ai, b, maximizing, ms);
      MarkEmptySquare(b, m.row, m.col, p);
      MinimaxScoreRange(ai, MarkSquare(b, m.row, m.col, p), !maximizing);
    }
  }

  /** The n-th score is the score of the board after the n-th candidate. */
  lemma {:induction false} ScoresAreChildScores(ai: AI, b: Board, maximizing: bool, ms: seq<Move>)
    requires forall n :: 0 <= n < |ms| ==> Legal(b, ms[n])
    ensures forall n :: 0 <= n < |ms| ==> Scores(ai, b, maximizing, ms)[n] == ChildScore(ai, b, maximizing, ms[n])
    decreases |ms|
  {
    if ms != [] {
      ScoresAreChildScores(ai, b, maximizing, ms[1..]);
    }
  }

  /** A fold over at least one score in -1..1 ends in -1..1: the first
      candidate already beats the sentinel bound. */
  lemma FoldEscapesSentinel(maximizing: bool, ms: seq<Move>, scores: seq<int>)
    requires |scores| == |ms| > 0
    requires forall n :: 0 <= n < |scores| ==> -1 <= scores[n] <= 1
    ensures -1 <= FoldBest(maximizing, ms, scores, Sentinel(maximizing), None).score <= 1
  {
    var r := FoldBest(maximizing, ms, scores, Sentinel(maximizing), None);
    FoldKeepsFirstBest(maximizing, ms, scores, Sentinel(maximizing), None);
    assert Improves(maximizing, scores[0], Sentinel(maximizing));
    assert r.score != Sentinel(maximizing);
    var k :| 0 <= k < |ms| && r.move == Some(ms[k]) && FirstAt(maximizing, scores, k, r.score);
    assert scores[k] == r.score;
  }

  /** On a consistent board the score is always -1, 0 or 1: the sentinel never
      escapes, because a non-terminal board has at least one empty square and
      its score already beats the sentinel. */
  lemma {:induction false} MinimaxScoreRange(ai: AI, b: Board, maximizing: bool)
    requires Consistent(b)
    ensures -1 <= Minimax(ai, b, maximizing).score <= 1
    decreases |GetEmptySquares(b)|, 2
  {
    if !Terminal(b) {
      var ms := GetEmptySquares(b);
      var scores := Scores(ai, b, maximizing, ms);
      ScoresInRange(ai, b, maximizing);
      CountedBalance(b);
      assert Minimax(ai, b, maximizing) == FoldBest(maximizing, ms, scores, Sentinel(maximizing), None);
      FoldEscapesSentinel(maximizing, ms, scores);
    }
  }

  /** The n-th candidate of `ms` is the first whose child reaches `score`:
      every earlier candidate's child scores strictly worse for the side to
      move. */
  ghost predicate FirstReaching(ai: AI, b: Board, maximizing: bool, ms: seq<Move>, n: int, score: int)
    requires forall m :: 0 <= m < |ms| ==> Legal(b, ms[m])
  {
    && 0 <= n < |ms|
    && ChildScore(ai, b, maximizing, ms[n]) == score
    && forall j :: 0 <= j < n ==> Improves(maximizing, score, ChildScore(ai, b, maximizing, ms[j]))
  }

  /** Restates "the k-th score is the first to reach `score`" in terms of the
      children's scores. */
  lemma FirstBestAsChildScores(ai: AI, b: Board, maximizing: bool, ms: seq<Move>, k: nat, score: int)
    requires forall n :: 0 <= n < |ms| ==> Legal(b, ms[n])
    requires FirstAt(maximizing, Scores(ai, b, maximizing, ms), k, score)
    ensures FirstReaching(ai, b, maximizing, ms, k, score)
  {
    ScoresAreChildScores(ai, b, maximizing, ms);
  }

  /** On a board that is not finished, whatever its counter, the search returns
      a score that no empty square beats for the side to move. */
  lemma MinimaxIsBest(ai: AI, b: Board, maximizing: bool)
    requires !Terminal(b)
    ensures var r, ms := Minimax(ai, b, maximizing), GetEmptySquares(b);
      forall n :: 0 <= n < |ms| ==> !Improves(maximizing, ChildScore(ai, b, maximizing, ms[n]), r.score)
  {
    var ms := GetEmptySquares(b);
    var scores := Scores(ai, b, maximizing, ms);
    var r := Minimax(ai, b, maximizing);
    assert r == FoldBest(maximizing, ms, scores, Sentinel(maximizing), None);
    ScoresAreChildScores(ai, b, maximizing, ms);
    FoldKeepsFirstBest(maximizing, ms, scores, Sentinel(maximizing), None);
  }

  /** The fold side of the search: on a consistent board that is not
      finished, the move returned is some candidate whose score is the first
      to reach the returned score. */
  lemma MinimaxFoldFindsFirst(ai: AI, b: Board, maximizing: bool)
    requires Consistent(b) && !Terminal(b)
    ensures var r, ms := Minimax(ai, b, maximizing), GetEmptySquares(b);
      exists k :: 0 <= k < |ms| && r.move == Some(ms[k]) && FirstAt(maximizing, Scores(ai, b, maximizing, ms), k, r.score)
  {
    var ms := GetEmptySquares(b);
    var scores := Scores(ai, b, maximizing, ms);
    var r := Minimax(ai, b, maximizing);
    assert r == FoldBest(maximizing, ms, scores, Sentinel(maximizing), None);
    assert r.score != Sentinel(maximizing) by {
      MinimaxScoreRange(ai, b, maximizing);
    }
    FoldKeepsFirstBest(maximizing, ms, scores, Sentinel(maximizing), None);
  }

  /** ... and the move it returns is the first empty square in row-major order
      that reaches that score: every earlier square scores strictly worse. */
  lemma MinimaxPicksFirstBest(ai: AI, b: Board, maximizing: bool)
    requires Consistent(b) && !Terminal(b)
    ensures var r, ms := Minimax(ai, b, maximizing), GetEmptySquares(b);
      exists n :: 0 <= n < |ms| && r.move == Some(ms[n]) && FirstReaching(ai, b, maximizing, ms, n, r.score)
  {
    var ms := GetEmptySquares(b);
    var r := Minimax(ai, b, maximizing);
    MinimaxFoldFindsFirst(ai, b, maximizing);
    var k :| 0 <= k < |ms| && r.move == Some(ms[k]) && FirstAt(maximizing, Scores(ai, b, maximizing, ms), k, r.score);
    FirstBestAsChildScores(ai, b, maximizing, ms, k, r.score);
    assert 0 <= k < |ms| && r.move == Some(ms[k]) && FirstReaching(ai, b, maximizing, ms, k, r.score);
  }

  /** The score a win by `p` carries: +1 for player 1, -1 for player 2. */
  function WinScore(p: Player): int {
    if p == P1 then 1 else -1
  }

  /** Playing a move that completes a line for the mover scores as that win. */
  lemma WinningChildScore(ai: AI, b: Board, maximizing: bool, m: Move)
    requires Legal(b, m)
    requires GameState(MarkSquare(b, m.row, m.col, Mover(ai, maximizing))) == Mover(ai, maximizing)
    ensures ChildScore(ai, b, maximizing, m) == WinScore(Mover(ai, maximizing))
  {
    var child := MarkSquare(b, m.row, m.col, Mover(ai, maximizing));
    assert ChildScore(ai, b, maximizing, m) == Minimax(ai, child, !maximizing).score;
  }

  /** When the n-th empty square scores the best value the side to move can
      get (+1 for player 1, -1 for player 2), the search returns that value and
      a square that reaches it, at or before the n-th. */
  lemma BestPossibleFound(ai: AI, b: Board, maximizing: bool, n: nat)
    requires Consistent(b) && !Terminal(b)
    requires n < |GetEmptySquares(b)|
    requires maximizing || ai.player == P2
    requires ChildScore(ai, b, maximizing, GetEmptySquares(b)[n]) == WinScore(Mover(ai, maximizing))
    ensures var r, ms := Minimax(ai, b, maximizing), GetEmptySquares(b);
      r.score == WinScore(Mover(ai, maximizing)) &&
      exists k :: 0 <= k <= n && r.move == Some(ms[k]) && ChildScore(ai, b, maximizing, ms[k]) == r.score
  {
    var ms := GetEmptySquares(b);
    var r := Minimax(ai, b, maximizing);
    assert r.score == WinScore(Mover(ai, maximizing)) by {
      MinimaxScoreRange(ai, b, maximizing);
      MinimaxIsBest(ai, b, maximizing);
      assert !Improves(maximizing, ChildScore(ai, b, maximizing, ms[n]), r.score);
    }
    MinimaxPicksFirstBest(ai, b, maximizing);
    var k :| 0 <= k < |ms| && r.move == Some(ms[k]) && FirstReaching(ai, b, maximizing, ms, k, r.score);
    assert k <= n by {
      assert !Improves(maximizing, r.score, ChildScore(ai, b, maximizing, ms[n]));
    }
  }

  /** If the side to move can win at once by playing the n-th empty square, the
      search scores the board as that win and plays the first empty square in
      row-major order that scores as well, which is that square or an earlier one. */
  lemma ImmediateWinFound(ai: AI, b: Board, maximizing: bool, n: nat)
    requires Consistent(b) && !Terminal(b)
    requires n < |GetEmptySquares(b)|
    requires maximizing || ai.player == P2
    requires var m := GetEmptySquares(b)[n];
      GameState(MarkSquare(b, m.row, m.col, Mover(ai, maximizing))) == Mover(ai, maximizing)
    ensures var r, ms := Minimax(ai, b, maximizing), GetEmptySquares(b);
      r.score == WinScore(Mover(ai, maximizing)) &&
      exists k :: 0 <= k <= n && r.move == Some(ms[k]) && ChildScore(ai, b, maximizing, ms[k]) == r.score
  {
    WinningChildScore(ai, b, maximizing, GetEmptySquares(b)[n]);
    BestPossibleFound(ai, b, maximizing, n);
  }

  /** When the first empty square in row-major order already wins for the side
      to move, the search plays it: later squares can only tie. */
  lemma FirstSquareWinTaken(ai: AI, b: Board, maximizing: bool)
    requires Consistent(b) && !Terminal(b)
    requires maximizing || ai.player == P2
    requires |GetEmptySquares(b)| > 0
    requires var m := GetEmptySquares(b)[0];
      GameState(MarkSquare(b, m.row, m.col, Mover(ai, maximizing))) == Mover(ai, maximizing)
    ensures Minimax(ai, b, maximizing) == Eval(WinScore(Mover(ai, maximizing)), Some(GetEmptySquares(b)[0]))
  {
    var ms := GetEmptySquares(b);
    var r := Minimax(ai, b, maximizing);
    ImmediateWinFound(ai, b, maximizing, 0);
    var k :| 0 <= k <= 0 && r.move == Some(ms[k]) && ChildScore(ai, b, maximizing, ms[k]) == r.score;
    assert r.move == Some(ms[0]);
  }

  /** The position
        1 1 .
        2 2 .
        . . .
      with its counter at 4, described cell by cell. */
  predicate TopRowBoard(b: Board) {
    && b.marked == 4
    && b.squares[0] == P1 && b.squares[1] == P1 && b.squares[2] == Empty
    && b.squares[3] == P2 && b.squares[4] == P2 && b.squares[5] == Empty
    && b.squares[6] == Empty && b.squares[7] == Empty && b.squares[8] == Empty
  }

  /** The position counts its four marks. */
  lemma TopRowCounted(b: Board)
    requires TopRowBoard(b)
    ensures Consistent(b) && !IsFull(b)
  {
    MarkedCountOfGrid(b.squares);
  }

  /** Nobody has a line on it yet. */
  lemma TopRowNoWinner(b: Board)
    requires TopRowBoard(b)
    ensures GameState(b) == Empty
  {
    assert ColumnWinner(b, 0) == Empty;
    assert RowWinner(b, 0) == Empty;
  }

  /** Its first empty square in row-major order is (0, 2). */
  lemma TopRowFirstEmpty(b: Board)
    requires TopRowBoard(b)
    ensures |GetEmptySquares(b)| > 0 && GetEmptySquares(b)[0] == Move(0, 2)
  {
    FirstEmptySquare(b, 0, 2);
  }

  /** Marking (0, 2) for player 1 completes the top row. */
  lemma TopRowWin(b: Board)
    requires TopRowBoard(b)
    ensures GameState(MarkSquare(b, 0, 2, P1)) == P1
  {
    var child := MarkSquare(b, 0, 2, P1);
    assert At(child, 0, 0) == P1 && At(child, 0, 1) == P1 && At(child, 0, 2) == P1;
  }

  /** Player 1 to move on the position above completes the top row: the search
      scores +1 and plays (0, 2). */
  lemma TopRowCompleted(b: Board)
    requires TopRowBoard(b)
    ensures Minimax(DefaultAI, b, true) == Eval(1, Some(Move(0, 2)))
  {
    TopRowCounted(b);
    TopRowNoWinner(b);
    TopRowFirstEmpty(b);
    TopRowWin(b);
    FirstSquareWinTaken(DefaultAI, b, true);
  }

  /** The position
        1 2 1
        1 2 2
        2 1 1
      with its counter at 8 instead of 9, described cell by cell. */
  predicate MiscountedBoard(b: Board) {
    && b.marked == 8
    && b.squares[0] == P1 && b.squares[1] == P2 && b.squares[2] == P1
    && b.squares[3] == P1 && b.squares[4] == P2 && b.squares[5] == P2
    && b.squares[6] == P2 && b.squares[7] == P1 && b.squares[8] == P1
  }

  /** Every cell is marked, so there is no candidate and the board is not
      "full" either. */
  lemma MiscountedBoardMarked(b: Board)
    requires MiscountedBoard(b)
    ensures GetEmptySquares(b) == [] && !IsFull(b)
  {
    MarkedCountOfGrid(b.squares);
    EmptyPlusMarked(b);
  }

  /** Nobody has a line on it. */
  lemma MiscountedBoardNoWinner(b: Board)
    requires MiscountedBoard(b)
    ensures GameState(b) == Empty
  {
    assert ColumnWinner(b, 0) == Empty;
    assert RowWinner(b, 0) == Empty;
  }

  /** What the search does when the counter disagrees with the grid: on the
      position above the sentinel comes back with no move. The game never
      builds such a board (see `PlayedBoardsStayCounted`). */
  lemma MiscountedBoardLeaksSentinel(b: Board)
    requires MiscountedBoard(b)
    ensures Minimax(DefaultAI, b, true) == Eval(-100, None)
    ensures Minimax(DefaultAI, b, false) == Eval(100, None)
  {
    MiscountedBoardMarked(b);
    MiscountedBoardNoWinner(b);
  }
}
