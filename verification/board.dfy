/** The 3x3 board of the game: a row-major grid of cells plus the counter of
    marks placed on it, with win detection and the list of free cells. */
module BoardState {

  /** The value of one cell. The source stores 0 (empty), 1 (player 1, drawn
      as X) and 2 (player 2, drawn as O) in a numeric matrix. */
  datatype Cell = Empty | P1 | P2

  /** A value that can be placed on the board. */
  type Player = c: Cell | c != Empty witness P1

  /** The nine cells, row-major: cell (row, col) is at index 3 * row + col. */
  type Grid = s: seq<Cell> | |s| == 9
    witness [Empty, Empty, Empty, Empty, Empty, Empty, Empty, Empty, Empty]

  /** `marked` is the counter the source keeps beside the grid; nothing in the
      type ties it to the grid, see `Consistent`. */
  datatype Board = Board(squares: Grid, marked: int)

  /** A (row, col) pair as the source's tuples hold it. */
  datatype Move = Move(row: int, col: int)

  predicate InRange(row: int, col: int) {
    0 <= row < 3 && 0 <= col < 3
  }

  /** Position of (row, col) in the row-major grid. */
  function Index(row: int, col: int): int {
    3 * row + col
  }

  /** The row and column of grid position `i`. */
  function CellOf(i: int): (m: Move)
    requires 0 <= i < 9
    ensures InRange(m.row, m.col) && Index(m.row, m.col) == i
  {
    var row := if i < 3 then 0 else if i < 6 then 1 else 2;
    Move(row, i - 3 * row)
  }

  function At(b: Board, row: int, col: int): Cell
    requires InRange(row, col)
  {
    b.squares[Index(row, col)]
  }

  /** A move that may be played on `b`: inside the grid and on an empty cell. */
  predicate Legal(b: Board, m: Move) {
    InRange(m.row, m.col) && At(b, m.row, m.col) == Empty
  }

  /** 1 for a marked cell, 0 for an empty one. */
  function Weight(c: Cell): nat {
    if c != Empty then 1 else 0
  }

  /** Number of non-empty cells of `s`. */
  function MarkedCount(s: seq<Cell>): nat
    decreases |s|
  {
    if s == [] then 0 else Weight(s[0]) + MarkedCount(s[1..])
  }

  /** The counter agrees with the grid. Every board the game builds has this
      property (see `PlayedBoardsStayCounted`). */
  predicate Consistent(b: Board) {
    b.marked == MarkedCount(b.squares)
  }

  /** Counting the suffix from `i` looks at cell `i`, then at the rest. */
  lemma MarkedCountStep(s: seq<Cell>, i: nat)
    requires i < |s|
    ensures MarkedCount(s[i..]) == Weight(s[i]) + MarkedCount(s[i + 1..])
  {
    assert s[i..][1..] == s[i + 1..];
  }

  /** The count of a grid, cell by cell. */
  lemma MarkedCountOfGrid(s: Grid)
    ensures MarkedCount(s) == Weight(s[0]) + Weight(s[1]) + Weight(s[2]) + Weight(s[3]) +
      Weight(s[4]) + Weight(s[5]) + Weight(s[6]) + Weight(s[7]) + Weight(s[8])
  {
    assert s[0..] == s;
    MarkedCountStep(s, 0);
    MarkedCountStep(s, 1);
    MarkedCountStep(s, 2);
    MarkedCountStep(s, 3);
    MarkedCountStep(s, 4);
    MarkedCountStep(s, 5);
    MarkedCountStep(s, 6);
    MarkedCountStep(s, 7);
    MarkedCountStep(s, 8);
    assert s[9..] == [];
  }

  /** A fresh board: every cell empty and nothing counted. */
  function New(): (b: Board)
    ensures forall row, col {:trigger At(b, row, col)} :: InRange(row, col) ==> At(b, row, col) == Empty
    ensures b.marked == 0
    ensures Consistent(b)
  {
    var b := Board(seq(9, _ => Empty), 0);
    assert forall i :: 0 <= i < 9 ==> b.squares[i] == Empty;
    MarkedCountZero(b.squares);
    b
  }

  // ---------------------------------------------------------------------------
  // Win detection

  /** The number of lines of the grid: three columns, three rows, two diagonals. */
  const LineCount := 8

  /** The `p`-th of the three values `x`, `y`, `z` (p in 0..2). */
  function Pick(p: nat, x: nat, y: nat, z: nat): nat {
    if p == 0 then x else if p == 1 then y else z
  }

  /** Grid position of the `p`-th cell (p in 0..2) of line `n`, with the lines
      numbered in the order `game_state` inspects them: columns 0-2, rows 0-2,
      the main diagonal, then the anti-diagonal read from the bottom-left
      corner (whose first cell names the winner). */
  function LineCell(n: nat, p: nat): (i: nat)
    requires n < LineCount && p < 3
    ensures i < 9
  {
    if n == 0 then Pick(p, 0, 3, 6)
    else if n == 1 then Pick(p, 1, 4, 7)
    else if n == 2 then Pick(p, 2, 5, 8)
    else if n == 3 then Pick(p, 0, 1, 2)
    else if n == 4 then Pick(p, 3, 4, 5)
    else if n == 5 then Pick(p, 6, 7, 8)
    else if n == 6 then Pick(p, 0, 4, 8)
    else Pick(p, 6, 4, 2)
  }

  /** Three equal non-empty values, as the chained comparison `a == b == c != 0`. */
  predicate Three(a: Cell, b: Cell, c: Cell) {
    a == b && b == c && c != Empty
  }

  /** All three cells of line `n` hold the same mark. */
  predicate Complete(b: Board, n: nat)
    requires n < LineCount
  {
    Three(b.squares[LineCell(n, 0)], b.squares[LineCell(n, 1)], b.squares[LineCell(n, 2)])
  }

  /** The player a complete line is credited to: its first cell. */
  function Owner(b: Board, n: nat): Cell
    requires n < LineCount
  {
    b.squares[LineCell(n, 0)]
  }

  /** The table-driven reading of the win test: the owner of the first
      complete line numbered `n` or later, or `Empty` when there is none. */
  function Scan(b: Board, n: nat): Cell
    requires n <= LineCount
    decreases LineCount - n
  {
    if n == LineCount then Empty
    else if Complete(b, n) then Owner(b, n)
    else Scan(b, n + 1)
  }

  /** Line `f` is complete and no line from `n` up to it is. */
  ghost predicate FirstCompleteAt(b: Board, n: int, f: int) {
    && 0 <= n <= f < LineCount
    && Complete(b, f)
    && forall m :: n <= m < f ==> !Complete(b, m)
  }

  /** `Scan` from `n` finds nothing exactly when no line from `n` on is
      complete, and otherwise returns the owner, a player, of the first
      complete one. */
  lemma {:induction false} ScanFindsFirst(b: Board, n: nat)
    requires n <= LineCount
    ensures Scan(b, n) == Empty <==> forall m :: n <= m < LineCount ==> !Complete(b, m)
    ensures Scan(b, n) != Empty ==> exists f :: FirstCompleteAt(b, n, f) && Scan(b, n) == Owner(b, f)
    decreases LineCount - n
  {
    if n < LineCount {
      ScanFindsFirst(b, n + 1);
      if Complete(b, n) {
        assert FirstCompleteAt(b, n, n);
      } else if Scan(b, n + 1) != Empty {
        var f :| FirstCompleteAt(b, n + 1, f) && Scan(b, n + 1) == Owner(b, f);
        assert FirstCompleteAt(b, n, f);
      }
    }
  }

  /** The first loop of `game_state`: the owner of the first column from `col`
      on whose three cells hold the same mark, or `Empty`. */
  function ColumnWinner(b: Board, col: nat): Cell
    requires col <= 3
    decreases 3 - col
  {
    if col == 3 then Empty
    else if Three(At(b, 0, col), At(b, 1, col), At(b, 2, col)) then At(b, 0, col)
    else ColumnWinner(b, col + 1)
  }

  /** The second loop of `game_state`: the same over the rows from `row` on. */
  function RowWinner(b: Board, row: nat): Cell
    requires row <= 3
    decreases 3 - row
  {
    if row == 3 then Empty
    else if Three(At(b, row, 0), At(b, row, 1), At(b, row, 2)) then At(b, row, 0)
    else RowWinner(b, row + 1)
  }

  /** The two diagonal tests of `game_state`: the main diagonal, then the
      anti-diagonal read from the bottom-left corner. */
  function DiagonalWinner(b: Board): Cell {
    if Three(At(b, 0, 0), At(b, 1, 1), At(b, 2, 2)) then At(b, 0, 0)
    else if Three(At(b, 2, 0), At(b, 1, 1), At(b, 0, 2)) then At(b, 2, 0)
    else Empty
  }

  /** The winner of `b` (1 or 2 in the source), or `Empty` (0) when no column,
      row or diagonal holds three equal marks. The lines are tried column by
      column, then row by row, then the two diagonals. */
  function GameState(b: Board): Cell {
    var column := ColumnWinner(b, 0);
    if column != Empty then column
    else
      var row := RowWinner(b, 0);
      if row != Empty then row
      else DiagonalWinner(b)
  }

  /** The column loop from `c` on agrees with the scan of the lines from `c`:
      a column it finds is what the scan finds, and when it finds none the
      scan goes on with the rows. */
  lemma {:induction false} ColumnWinnerScans(b: Board, c: nat)
    requires c <= 3
    ensures ColumnWinner(b, c) != Empty ==> ColumnWinner(b, c) == Scan(b, c)
    ensures ColumnWinner(b, c) == Empty ==> Scan(b, c) == Scan(b, 3)
    decreases 3 - c
  {
    if c < 3 {
      ColumnWinnerScans(b, c + 1);
    }
  }

  /** The row loop from `r` on agrees with the scan of the lines from `3 + r`. */
  lemma {:induction false} RowWinnerScans(b: Board, r: nat)
    requires r <= 3
    ensures RowWinner(b, r) != Empty ==> RowWinner(b, r) == Scan(b, 3 + r)
    ensures RowWinner(b, r) == Empty ==> Scan(b, 3 + r) == Scan(b, 6)
    decreases 3 - r
  {
    if r < 3 {
      RowWinnerScans(b, r + 1);
    }
  }

  /** The diagonal tests are the scan of the last two lines. */
  lemma DiagonalWinnerScans(b: Board)
    ensures DiagonalWinner(b) == Scan(b, 6)
  {
    assert Scan(b, 8) == Empty;
  }

  /** `game_state` is the table-driven scan of all eight lines. */
  lemma GameStateIsScan(b: Board)
    ensures GameState(b) == Scan(b, 0)
  {
    ColumnWinnerScans(b, 0);
    RowWinnerScans(b, 0);
    DiagonalWinnerScans(b);
  }

  /** `game_state` is `Empty` exactly when no line is complete, and otherwise
      returns the owner of the first complete line in the order above. */
  lemma GameStateIsFirstCompleteLine(b: Board)
    ensures GameState(b) == Empty <==> forall n :: 0 <= n < LineCount ==> !Complete(b, n)
    ensures GameState(b) != Empty ==> exists f :: FirstCompleteAt(b, 0, f) && GameState(b) == Owner(b, f)
  {
    GameStateIsScan(b);
    ScanFindsFirst(b, 0);
  }

  // ---------------------------------------------------------------------------
  // Marking and simple queries

  /** Writes `p` into cell (row, col) and counts one more mark. Like the source,
      it neither checks that the cell is empty nor refuses to count an
      overwrite. */
  function MarkSquare(b: Board, row: int, col: int, p: Player): (r: Board)
    requires InRange(row, col)
    ensures At(r, row, col) == p
    ensures forall rr, cc {:trigger At(r, rr, cc)} {:trigger At(b, rr, cc)} ::
      InRange(rr, cc) && (rr != row || cc != col) ==> At(r, rr, cc) == At(b, rr, cc)
    ensures r.marked == b.marked + 1
  {
    Board(b.squares[Index(row, col) := p], b.marked + 1)
  }

  predicate EmptySquare(b: Board, row: int, col: int)
    requires InRange(row, col)
  {
    At(b, row, col) == Empty
  }

  predicate IsFull(b: Board) {
    b.marked == 9
  }

  predicate IsEmpty(b: Board) {
    b.marked == 0
  }

  // ---------------------------------------------------------------------------
  // Listing the empty cells

  /** The empty cells from (row, col) onwards, in the order of the source's two
      nested loops: columns within a row, then the following rows. */
  function EmptyFrom(b: Board, row: nat, col: nat): seq<Move>
    requires row <= 3 && col <= 3
    decreases 3 - row, 3 - col
  {
    if row == 3 then []
    else if col == 3 then EmptyFrom(b, row + 1, 0)
    else (if EmptySquare(b, row, col) then [Move(row, col)] else []) + EmptyFrom(b, row, col + 1)
  }

  /** Every move of `ms` is legal on `b` and at or after position `start`. */
  ghost predicate OnlyEmptyFrom(b: Board, ms: seq<Move>, start: int) {
    forall n :: 0 <= n < |ms| ==> Legal(b, ms[n]) && start <= Index(ms[n].row, ms[n].col)
  }

  /** Every empty cell of `b` at or after position `start` is listed in `ms`. */
  ghost predicate AllEmptyFrom(b: Board, ms: seq<Move>, start: int) {
    forall row, col {:trigger EmptySquare(b, row, col)} ::
      InRange(row, col) && start <= Index(row, col) && EmptySquare(b, row, col) ==> Move(row, col) in ms
  }

  /** The moves of `ms` are in strictly increasing row-major position, so none
      appears twice. */
  ghost predicate RowMajor(ms: seq<Move>) {
    forall n, m :: 0 <= n < m < |ms| ==> Index(ms[n].row, ms[n].col) < Index(ms[m].row, ms[m].col)
  }

  /** The nested loops collect from (row, col) on only empty cells at or after
      that position. */
  lemma {:induction false} EmptyFromOnlyEmpty(b: Board, row: nat, col: nat)
    requires row <= 3 && col <= 3
    ensures OnlyEmptyFrom(b, EmptyFrom(b, row, col), Index(row, col))
    decreases 3 - row, 3 - col
  {
    if row < 3 {
      if col == 3 {
        EmptyFromOnlyEmpty(b, row + 1, 0);
      } else {
        EmptyFromOnlyEmpty(b, row, col + 1);
        var rest := EmptyFrom(b, row, col + 1);
        if EmptySquare(b, row, col) {
          var r := [Move(row, col)] + rest;
          assert r == EmptyFrom(b, row, col);
          assert forall n :: 0 < n < |r| ==> r[n] == rest[n - 1];
        }
      }
    }
  }

  /** The nested loops collect from (row, col) on every empty cell at or after
      that position. */
  lemma {:induction false} EmptyFromAllEmpty(b: Board, row: nat, col: nat)
    requires row <= 3 && col <= 3
    ensures AllEmptyFrom(b, EmptyFrom(b, row, col), Index(row, col))
    decreases 3 - row, 3 - col
  {
    if row < 3 {
      if col == 3 {
        EmptyFromAllEmpty(b, row + 1, 0);
      } else {
        EmptyFromAllEmpty(b, row, col + 1);
        var rest := EmptyFrom(b, row, col + 1);
        var r := EmptyFrom(b, row, col);
        assert r == (if EmptySquare(b, row, col) then [Move(row, col)] else []) + rest;
        forall rr, cc | InRange(rr, cc) && Index(row, col) <= Index(rr, cc) && EmptySquare(b, rr, cc)
          ensures Move(rr, cc) in r
        {
          if rr == row && cc == col {
            assert r[0] == Move(rr, cc);
          } else {
            assert Index(row, col + 1) <= Index(rr, cc);
            assert Move(rr, cc) in rest;
          }
        }
      }
    }
  }

  /** A move placed before a row-major list whose positions all exceed its own
      keeps the list row-major. */
  lemma ConsRowMajor(x: Move, ms: seq<Move>)
    requires RowMajor(ms)
    requires forall n :: 0 <= n < |ms| ==> Index(x.row, x.col) < Index(ms[n].row, ms[n].col)
    ensures RowMajor([x] + ms)
  {
    var r := [x] + ms;
    forall n, m | 0 <= n < m < |r|
      ensures Index(r[n].row, r[n].col) < Index(r[m].row, r[m].col)
    {
      assert r[m] == ms[m - 1];
      if n > 0 {
        assert r[n] == ms[n - 1];
      }
    }
  }

  /** Every move the loops collect from (row, col) on lies at or after that
      position. */
  lemma EmptyFromAfter(b: Board, row: nat, col: nat)
    requires row <= 3 && col <= 3
    ensures forall n :: 0 <= n < |EmptyFrom(b, row, col)| ==>
      Index(row, col) <= Index(EmptyFrom(b, row, col)[n].row, EmptyFrom(b, row, col)[n].col)
  {
    EmptyFromOnlyEmpty(b, row, col);
  }

  /** One step of the inner loop on an empty cell keeps the collected moves
      row-major. */
  lemma EmptyFromRowMajorStep(b: Board, row: nat, col: nat)
    requires row < 3 && col < 3 && EmptySquare(b, row, col)
    requires RowMajor(EmptyFrom(b, row, col + 1))
    ensures RowMajor(EmptyFrom(b, row, col))
  {
    var rest := EmptyFrom(b, row, col + 1);
    EmptyFromAfter(b, row, col + 1);
    ConsRowMajor(Move(row, col), rest);
    assert EmptyFrom(b, row, col) == [Move(row, col)] + rest;
  }

  /** Passing the end of a row keeps the collected moves row-major. */
  lemma EmptyFromRowMajorNextRow(b: Board, row: nat)
    requires row < 3
    requires RowMajor(EmptyFrom(b, row + 1, 0))
    ensures RowMajor(EmptyFrom(b, row, 3))
  {
    assert EmptyFrom(b, row, 3) == EmptyFrom(b, row + 1, 0);
  }

  /** Skipping an occupied cell keeps the collected moves row-major. */
  lemma EmptyFromRowMajorSkip(b: Board, row: nat, col: nat)
    requires row < 3 && col < 3 && !EmptySquare(b, row, col)
    requires RowMajor(EmptyFrom(b, row, col + 1))
    ensures RowMajor(EmptyFrom(b, row, col))
  {
    assert EmptyFrom(b, row, col) == [] + EmptyFrom(b, row, col + 1) == EmptyFrom(b, row, col + 1);
  }

  /** The nested loops collect in strictly increasing position. */
  lemma {:induction false} EmptyFromRowMajor(b: Board, row: nat, col: nat)
    requires row <= 3 && col <= 3
    ensures RowMajor(EmptyFrom(b, row, col))
    decreases 3 - row, 3 - col
  {
    if row < 3 && col == 3 {
      EmptyFromRowMajor(b, row + 1, 0);
      EmptyFromRowMajorNextRow(b, row);
    } else if row < 3 && EmptySquare(b, row, col) {
      EmptyFromRowMajor(b, row, col + 1);
      EmptyFromRowMajorStep(b, row, col);
    } else if row < 3 {
      EmptyFromRowMajor(b, row, col + 1);
      EmptyFromRowMajorSkip(b, row, col);
    }
  }

  /** The head of a row-major list has the smallest position. */
  lemma RowMajorHead(ms: seq<Move>, i: nat)
    requires RowMajor(ms) && i < |ms|
    ensures Index(ms[0].row, ms[0].col) <= Index(ms[i].row, ms[i].col)
  {
    if i > 0 {
      assert Index(ms[0].row, ms[0].col) < Index(ms[i].row, ms[i].col);
    }
  }

  /** The empty cells, each once, in row-major order: a move is listed exactly
      when its cell is empty. */
  function GetEmptySquares(b: Board): (r: seq<Move>)
    ensures OnlyEmptyFrom(b, r, 0)
    ensures AllEmptyFrom(b, r, 0)
    ensures RowMajor(r)
  {
    EmptyFromOnlyEmpty(b, 0, 0);
    EmptyFromAllEmpty(b, 0, 0);
    EmptyFromRowMajor(b, 0, 0);
    EmptyFrom(b, 0, 0)
  }

  /** An empty square with every earlier cell marked heads the list of empty
      squares. */
  lemma FirstEmptySquare(b: Board, row: int, col: int)
    requires InRange(row, col) && EmptySquare(b, row, col)
    requires forall i :: 0 <= i < Index(row, col) ==> b.squares[i] != Empty
    ensures |GetEmptySquares(b)| > 0 && GetEmptySquares(b)[0] == Move(row, col)
  {
    var ms := GetEmptySquares(b);
    assert Move(row, col) in ms;
    var i :| 0 <= i < |ms| && ms[i] == Move(row, col);
    RowMajorHead(ms, i);
    assert Legal(b, ms[0]);
  }

  /** Membership in `GetEmptySquares` is emptiness of the cell. */
  lemma ListedIffEmpty(b: Board, row: int, col: int)
    requires InRange(row, col)
    ensures Move(row, col) in GetEmptySquares(b) <==> EmptySquare(b, row, col)
  {
  }

  // ---------------------------------------------------------------------------
  // Counting lemmas

  lemma {:induction false} MarkedCountZero(s: seq<Cell>)
    ensures MarkedCount(s) == 0 <==> forall i :: 0 <= i < |s| ==> s[i] == Empty
    decreases |s|
  {
    if s != [] {
      MarkedCountZero(s[1..]);
      assert forall i :: 1 <= i < |s| ==> s[i] == s[1..][i - 1];
    }
  }

  lemma {:induction false} MarkedCountUpdate(s: seq<Cell>, i: nat, x: Cell)
    requires i < |s|
    ensures MarkedCount(s[i := x]) ==
      MarkedCount(s) - (if s[i] != Empty then 1 else 0) + (if x != Empty then 1 else 0)
    decreases |s|
  {
    if i == 0 {
      assert s[i := x][1..] == s[1..];
    } else {
      MarkedCountUpdate(s[1..], i - 1, x);
      assert s[i := x][1..] == s[1..][i - 1 := x];
    }
  }

  lemma {:induction false} EmptyFromCount(b: Board, row: nat, col: nat)
    requires row <= 3 && col <= 3 && (row == 3 ==> col == 0)
    ensures |EmptyFrom(b, row, col)| + MarkedCount(b.squares[Index(row, col)..]) == 9 - Index(row, col)
    decreases 3 - row, 3 - col
  {
    if row == 3 {
      assert b.squares[Index(row, col)..] == [];
    } else if col == 3 {
      EmptyFromCount(b, row + 1, 0);
    } else {
      var k := Index(row, col);
      EmptyFromCount(b, row, col + 1);
      var s := b.squares[k..];
      assert s[1..] == b.squares[k + 1..];
      assert s[0] == At(b, row, col);
      assert MarkedCount(s) == (if EmptySquare(b, row, col) then 0 else 1) + MarkedCount(s[1..]);
    }
  }

  /** The free cells and the marked cells together make up the grid. */
  lemma EmptyPlusMarked(b: Board)
    ensures |GetEmptySquares(b)| + MarkedCount(b.squares) == 9
  {
    EmptyFromCount(b, 0, 0);
    assert b.squares[0..] == b.squares;
  }

  /** On a consistent board the counter and the list of free cells balance. */
  lemma CountedBalance(b: Board)
    requires Consistent(b)
    ensures |GetEmptySquares(b)| + b.marked == 9
    ensures 0 <= b.marked <= 9
  {
    EmptyPlusMarked(b);
  }

  /** On a consistent board the counter-based tests mean what their names say:
      full exactly when no cell is free, empty exactly when every cell is. */
  lemma FullnessMatchesCells(b: Board)
    requires Consistent(b)
    ensures IsFull(b) <==> GetEmptySquares(b) == []
    ensures IsEmpty(b) <==> forall row, col {:trigger EmptySquare(b, row, col)} :: InRange(row, col) ==> EmptySquare(b, row, col)
  {
    EmptyPlusMarked(b);
    MarkedCountZero(b.squares);
    if forall row, col {:trigger EmptySquare(b, row, col)} :: InRange(row, col) ==> EmptySquare(b, row, col) {
      forall i | 0 <= i < 9
        ensures b.squares[i] == Empty
      {
        assert EmptySquare(b, CellOf(i).row, CellOf(i).col);
      }
    }
  }

  /** Marking an empty cell fills exactly one more cell, so the list of free
      cells shrinks by one and a consistent board stays consistent. */
  lemma MarkEmptySquare(b: Board, row: int, col: int, p: Player)
    requires InRange(row, col) && EmptySquare(b, row, col)
    ensures MarkedCount(MarkSquare(b, row, col, p).squares) == MarkedCount(b.squares) + 1
    ensures |GetEmptySquares(MarkSquare(b, row, col, p))| == |GetEmptySquares(b)| - 1
    ensures Consistent(b) ==> Consistent(MarkSquare(b, row, col, p))
  {
    MarkedCountUpdate(b.squares, Index(row, col), p);
    EmptyPlusMarked(b);
    EmptyPlusMarked(MarkSquare(b, row, col, p));
  }

  /** What the unguarded source does on an occupied cell: the counter grows while
      the number of marked cells does not, so the board stops being consistent. */
  lemma MarkOccupiedSquare(b: Board, row: int, col: int, p: Player)
    requires InRange(row, col) && !EmptySquare(b, row, col) && Consistent(b)
    ensures !Consistent(MarkSquare(b, row, col, p))
    ensures |GetEmptySquares(MarkSquare(b, row, col, p))| == |GetEmptySquares(b)|
  {
    MarkedCountUpdate(b.squares, Index(row, col), p);
    EmptyPlusMarked(b);
    EmptyPlusMarked(MarkSquare(b, row, col, p));
  }

  // ---------------------------------------------------------------------------
  // Boards built by legal play

  /** One placement by one player. */
  datatype Placement = Placement(move: Move, player: Player)

  /** Every placement of `ps`, applied in turn from `b`, lands on an empty cell. */
  predicate Playable(b: Board, ps: seq<Placement>)
    decreases |ps|
  {
    ps == [] ||
    (Legal(b, ps[0].move) &&
     Playable(MarkSquare(b, ps[0].move.row, ps[0].move.col, ps[0].player), ps[1..]))
  }

  function PlaceAll(b: Board, ps: seq<Placement>): Board
    requires Playable(b, ps)
    decreases |ps|
  {
    if ps == [] then b
    else PlaceAll(MarkSquare(b, ps[0].move.row, ps[0].move.col, ps[0].player), ps[1..])
  }

  /** Marking only empty cells keeps the counter equal to the number of marked
      cells, and the counter rises by one per placement. */
  lemma {:induction false} PlayedBoardsStayCounted(b: Board, ps: seq<Placement>)
    requires Consistent(b) && Playable(b, ps)
    ensures Consistent(PlaceAll(b, ps))
    ensures PlaceAll(b, ps).marked == b.marked + |ps|
    decreases |ps|
  {
    if ps != [] {
      var m := ps[0].move;
      MarkEmptySquare(b, m.row, m.col, ps[0].player);
      PlayedBoardsStayCounted(MarkSquare(b, m.row, m.col, ps[0].player), ps[1..]);
    }
  }

  /** From a fresh board, any sequence of marks on empty cells leaves as many
      free cells as the counter says are missing: the two always add up to 9. */
  lemma FreshPlayBalance(ps: seq<Placement>)
    requires Playable(New(), ps)
    ensures |GetEmptySquares(PlaceAll(New(), ps))| + PlaceAll(New(), ps).marked == 9
    ensures PlaceAll(New(), ps).marked == |ps| <= 9
  {
    PlayedBoardsStayCounted(New(), ps);
    CountedBalance(PlaceAll(New(), ps));
  }
}
