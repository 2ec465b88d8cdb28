/** The turn logic of a game session, without drawing: whose turn it is, playing
    a cell, and deciding that the game is over. */
module Turns {
  import opened Wrappers
  import opened BoardState
  import opened Search

  /** A session: the live board, the computer player, the player to move (1 is
      X and moves first) and whether moves are still accepted. */
  datatype Game = Game(board: Board, ai: AI, player: Player, running: bool)

  /** The numeric code of a player in the source. */
  function Code(p: Player): int {
    if p == P1 then 1 else 2
  }

  function PlayerOfCode(v: int): (p: Player)
    requires v == 1 || v == 2
    ensures Code(p) == v
  {
    if v == 1 then P1 else P2
  }

  /** A new session: a fresh board, the default computer player, player 1 to
      move, accepting moves. */
  function NewGame(): (g: Game)
    ensures Consistent(g.board) && IsEmpty(g.board) && |GetEmptySquares(g.board)| == 9
    ensures g.player == P1 && g.ai.player == P2 && g.running
  {
    var g := Game(New(), DefaultAI, P1, true);
    CountedBalance(g.board);
    g
  }

  /** The player who is not `p`. */
  function Other(p: Player): Player {
    if p == P1 then P2 else P1
  }

  /** The next player computed as `player % 2 + 1` on the numeric codes: the
      turn goes to the other player and nothing else changes. */
  function SwitchPlayer(g: Game): (r: Game)
    ensures r.player != g.player && r.player == Other(g.player)
    ensures r.board == g.board && r.ai == g.ai && r.running == g.running
  {
    g.(player := PlayerOfCode(Code(g.player) % 2 + 1))
  }

  /** Marks (row, col) for the player to move, then hands the turn over. */
  function Play(g: Game, row: int, col: int): (r: Game)
    requires InRange(row, col)
    ensures At(r.board, row, col) == g.player
    ensures forall rr, cc {:trigger At(r.board, rr, cc)} {:trigger At(g.board, rr, cc)} ::
      InRange(rr, cc) && (rr != row || cc != col) ==> At(r.board, rr, cc) == At(g.board, rr, cc)
    ensures r.board.marked == g.board.marked + 1
    ensures r.player != g.player
    ensures r.ai == g.ai && r.running == g.running
  {
    SwitchPlayer(g.(board := MarkSquare(g.board, row, col, g.player)))
  }

  /** The game is over once somebody has a line or the counter reaches 9. */
  predicate IsOver(g: Game) {
    GameState(g.board) != Empty || IsFull(g.board)
  }

  /** On a consistent board "over" means: somebody has won, or no cell is free. */
  lemma IsOverMeansWonOrNoSquareLeft(g: Game)
    requires Consistent(g.board)
    ensures IsOver(g) <==> GameState(g.board) != Empty || GetEmptySquares(g.board) == []
  {
    FullnessMatchesCells(g.board);
  }

  /** The computer's turn relies on `minimax(board, False)` returning a move it
      can unpack and play: while the game is not over on a consistent board, the
      move is present, in range and on an empty cell, and the score is -1, 0
      or 1. */
  lemma AIMoveAvailable(g: Game)
    requires Consistent(g.board) && !IsOver(g)
    ensures var r := Minimax(g.ai, g.board, false);
      r.move.Some? && Legal(g.board, r.move.value) && -1 <= r.score <= 1
  {
    MinimaxScoreRange(g.ai, g.board, false);
    MinimaxPicksFirstBest(g.ai, g.board, false);
  }

  /** A sequence of clicks the session accepts from `g`: each one on an empty
      cell of the board at that moment, while nobody has won and cells remain. */
  predicate Accepted(g: Game, ms: seq<Move>)
    decreases |ms|
  {
    ms == [] ||
    (!IsOver(g) && Legal(g.board, ms[0]) && Accepted(Play(g, ms[0].row, ms[0].col), ms[1..]))
  }

  function PlayAll(g: Game, ms: seq<Move>): Game
    requires Accepted(g, ms)
    decreases |ms|
  {
    if ms == [] then g else PlayAll(Play(g, ms[0].row, ms[0].col), ms[1..])
  }

  /** One accepted click keeps the counter equal to the number of marks, adds
      one mark and hands the turn to the other player. */
  lemma PlayKeepsTurn(g: Game, m: Move)
    requires Consistent(g.board) && Legal(g.board, m)
    ensures Consistent(Play(g, m.row, m.col).board)
    ensures Play(g, m.row, m.col).board.marked == g.board.marked + 1
    ensures Play(g, m.row, m.col).player == Other(g.player)
  {
    MarkEmptySquare(g.board, m.row, m.col, g.player);
  }

  /** The player to move after n turns that started with `p`. */
  function ToMove(p: Player, n: nat): Player {
    if n % 2 == 0 then p else Other(p)
  }

  /** Handing the turn over once more shifts the parity by one. */
  lemma ToMoveStep(p: Player, n: nat)
    requires n > 0
    ensures ToMove(Other(p), n - 1) == ToMove(p, n)
  {
    if n % 2 == 0 {
      assert (n - 1) % 2 == 1;
    } else {
      assert (n - 1) % 2 == 0;
    }
  }

  /** Playing accepted moves keeps the counter equal to the number of marks and
      counts one mark per move. */
  lemma {:induction false} PlayAllKeepsCount(g: Game, ms: seq<Move>)
    requires Consistent(g.board) && Accepted(g, ms)
    ensures Consistent(PlayAll(g, ms).board)
    ensures PlayAll(g, ms).board.marked == g.board.marked + |ms|
    decreases |ms|
  {
    if ms != [] {
      var next := Play(g, ms[0].row, ms[0].col);
      PlayKeepsTurn(g, ms[0]);
      PlayAllKeepsCount(next, ms[1..]);
      assert PlayAll(g, ms) == PlayAll(next, ms[1..]);
    }
  }

  /** Playing accepted moves alternates the players: after n moves the first
      player is to move again exactly when n is even. */
  lemma {:induction false} PlayAllAlternates(g: Game, ms: seq<Move>)
    requires Accepted(g, ms)
    ensures PlayAll(g, ms).player == ToMove(g.player, |ms|)
    decreases |ms|
  {
    if ms != [] {
      var next := Play(g, ms[0].row, ms[0].col);
      assert next.player == Other(g.player);
      PlayAllAlternates(next, ms[1..]);
      assert PlayAll(g, ms) == PlayAll(next, ms[1..]);
      ToMoveStep(g.player, |ms|);
    }
  }

  /** From a session on a consistent empty board with player 1 to move (as
      `NewGame` builds), after n accepted moves player 1 is to move exactly when
      n is even, n marks are counted, and n plus the number of free cells is 9. */
  lemma FromEmptyBoardTurns(g: Game, ms: seq<Move>)
    requires Consistent(g.board) && IsEmpty(g.board) && g.player == P1
    requires Accepted(g, ms)
    ensures var h := PlayAll(g, ms);
      && Consistent(h.board)
      && h.board.marked == |ms|
      && |GetEmptySquares(h.board)| + |ms| == 9
      && (h.player == P1 <==> |ms| % 2 == 0)
  {
    PlayAllKeepsCount(g, ms);
    PlayAllAlternates(g, ms);
    CountedBalance(PlayAll(g, ms).board);
  }
}
