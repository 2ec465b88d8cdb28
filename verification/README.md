# Tic-tac-toe with a minimax opponent, in Dafny

A model of the game logic of `tictactoe.py`, without pygame or the event loop:

- **`BoardState`** (class `Board`) models:
  - a row-major grid of nine cells (`Empty`, `P1`, `P2` for the source's 0, 1 and 2);
  - the counter `marked`, which the source keeps beside the grid;
  - win detection (`game_state`), marking, the fullness tests and the list of empty squares.
- **`Search`** (class `AI`) models `minimax`:
  - it is an exhaustive search with no pruning;
  - player 1 maximizes and the computer's player minimizes;
  - the running best starts from the ±100 sentinels and changes only on a strict improvement;
  - each candidate is tried on a copy of the board.
- **`Turns`** (class `Game`) models a session's turn logic: switching player, playing a cell, and the "game over" test.
- **`Wrappers`** holds `Option`, used for the move `minimax` returns (`None` at a leaf).

All values are immutable. A board handed to `Minimax` or `Play` cannot change, so the deep copy the source makes before each trial move is the ordinary value semantics of `MarkSquare`. The caller's board is unchanged by construction.

Most claims about the search assume `Consistent(b)`: the counter equals the number of marked cells. Every board the game builds satisfies it (`PlayedBoardsStayCounted`, `FromEmptyBoardTurns`). On a board that breaks it, the source's sentinel can escape (`MiscountedBoardLeaksSentinel`).

The lines of the grid are numbered in the order `game_state` tries them:

- columns 0-2;
- rows 0-2;
- the main diagonal;
- the anti-diagonal, read from the bottom-left corner.

`Scan` is a table-driven reference reading of the win test over that numbering. It is related to the loop-by-loop `GameState` by `GameStateIsScan`.

## Model

| member | source | states |
|---|---|---|
| `BoardState.New` | tictactoe.py:35-38 | a fresh board has every cell empty and a zero counter, and is consistent |
| `BoardState.ColumnWinnerScans` | tictactoe.py:43-52 | the column loop returns what the line scan returns from line `c`, and when it finds nothing the scan carries on with the rows |
| `BoardState.RowWinnerScans` | tictactoe.py:54-63 | the row loop returns what the line scan returns from line `3 + r`, and when it finds nothing the scan carries on with the diagonals |
| `BoardState.DiagonalWinnerScans` | tictactoe.py:65-85 | the two diagonal tests (main diagonal, then the anti-diagonal credited to its bottom-left cell), with 0 when neither holds, are the scan of the last two lines |
| `BoardState.ScanFindsFirst` | tictactoe.py:41-85 | the scan finds nothing exactly when no remaining line holds three equal marks; otherwise it returns the owner of the first such line |
| `BoardState.GameStateIsScan` | tictactoe.py:41-85 | `game_state` agrees on every board with the table-driven scan of the eight lines |
| `BoardState.GameStateIsFirstCompleteLine` | tictactoe.py:41-85 | `game_state` is 0 exactly when no column, row or diagonal holds three equal non-zero marks; otherwise it is the owner of the first such line, in the order columns, rows, main diagonal, anti-diagonal |
| `BoardState.MarkSquare` | tictactoe.py:88-90 | marking (row, col) sets that cell to the player, leaves every other cell unchanged and adds exactly one to the counter, whether or not the cell was empty |
| `BoardState.MarkEmptySquare` | tictactoe.py:88-90 | marking an empty cell adds one marked cell, removes one free cell, and keeps a consistent board consistent |
| `BoardState.MarkOccupiedSquare` | tictactoe.py:88-90 | marking an occupied cell (which the source does not refuse) leaves the free cells as they were but still bumps the counter, so the board stops being consistent |
| `BoardState.FullnessMatchesCells` | tictactoe.py:96-102 | on a consistent board, `isfull` (counter is 9) holds exactly when no cell is free, and `isempty` (counter is 0) holds exactly when every cell is empty |
| `BoardState.EmptyFromOnlyEmpty` | tictactoe.py:106-112 | the nested loops, from any position on, collect only in-range empty cells at or after that position |
| `BoardState.EmptyFromAllEmpty` | tictactoe.py:106-112 | the nested loops, from any position on, collect every empty cell at or after that position |
| `BoardState.EmptyFromRowMajor` | tictactoe.py:106-112 | the nested loops collect cells in strictly increasing row-major position, so no cell twice |
| `BoardState.GetEmptySquares` | tictactoe.py:105-112 | the result lists only empty cells, lists every empty cell, and is in strictly increasing row-major order |
| `BoardState.ListedIffEmpty` | tictactoe.py:93-112 | a cell is listed by `get_empty_squares` exactly when `empty_square` holds for it |
| `BoardState.FirstEmptySquare` | tictactoe.py:105-112 | an empty cell with every earlier cell marked heads the list of empty squares |
| `BoardState.MarkedCountUpdate` | tictactoe.py:89 | overwriting one cell changes the number of marked cells by the weight of the new value minus the weight of the old one |
| `BoardState.EmptyFromCount` | tictactoe.py:106-112 | from any position on, the cells collected plus the marked cells make up all the remaining cells |
| `BoardState.EmptyPlusMarked` | tictactoe.py:105-112 | the number of free cells plus the number of marked cells is 9 |
| `BoardState.CountedBalance` | tictactoe.py:88-112 | on a consistent board the length of `get_empty_squares()` plus the counter is 9, and the counter lies in 0..9 |
| `BoardState.PlayedBoardsStayCounted` | tictactoe.py:88-90 | marking only empty cells keeps the counter equal to the number of marked cells and raises it by one per mark |
| `BoardState.FreshPlayBalance` | tictactoe.py:35-112 | from a fresh board, after marks on empty cells only, the free cells plus the counter add up to 9 and the counter equals the number of marks |
| `Search.Minimax` | tictactoe.py:121-134 | a win for player 1 scores (1, None) and a win for player 2 scores (-1, None), whatever the counter; a full board without a winner scores (0, None) |
| `Search.Scores` | tictactoe.py:143-146 | one recursive score per candidate move |
| `Search.ScoresAreChildScores` | tictactoe.py:143-146 | the n-th score is the score of the board reached by playing the n-th candidate for the side to move |
| `Search.FoldKeepsFirstBest` | tictactoe.py:137-167 | the loop's result is no worse than its starting bound or any candidate; it keeps its starting move when nothing strictly improves; otherwise it returns a candidate whose score is the first to reach the final score |
| `Search.FoldEscapesSentinel` | tictactoe.py:137-167 | with at least one candidate and every candidate scoring in -1..1, the loop's result is in -1..1, so the ±100 sentinel is always replaced |
| `Search.ScoresInRange` | tictactoe.py:140-162 | on a consistent board every candidate scores -1, 0 or 1 |
| `Search.MinimaxScoreRange` | tictactoe.py:121-167 | on a consistent board the score is -1, 0 or 1 |
| `Search.MinimaxIsBest` | tictactoe.py:137-167 | on any unfinished board, whatever its counter, no empty square scores strictly better for the side to move than the returned score |
| `Search.MinimaxFoldFindsFirst` | tictactoe.py:137-167 | on a consistent unfinished board the move is present and is a candidate whose score is the first to reach the returned score |
| `Search.FirstBestAsChildScores` | tictactoe.py:143-165 | "first to reach the score" among the scores is "first to reach the score" among the children's searches |
| `Search.MinimaxPicksFirstBest` | tictactoe.py:137-167 | the move is the first empty square in row-major order whose child reaches the returned score; every earlier square scores strictly worse (ties keep the earliest square) |
| `Search.WinningChildScore` | tictactoe.py:123-146 | a move that completes a line for the mover scores +1 for player 1 and -1 for player 2 |
| `Search.BestPossibleFound` | tictactoe.py:137-167 | if some square already reaches the best value for the side to move, the search returns that value, with that square or an earlier one |
| `Search.ImmediateWinFound` | tictactoe.py:121-167 | if the side to move can win at once on the n-th empty square, the search scores that win and plays that square or an earlier one that scores as well |
| `Search.FirstSquareWinTaken` | tictactoe.py:121-167 | when the first empty square wins at once, the search plays it with the win's score |
| `Search.TopRowCompleted` | tictactoe.py:121-151 | with player 1 to move on `1 1 . / 2 2 . / . . .`, the search returns (1, (0, 2)) |
| `Search.MiscountedBoardLeaksSentinel` | tictactoe.py:133-167 | on a grid with every cell marked, no winner and a counter of 8, the search returns (-100, None) when maximizing and (100, None) when minimizing |
| `Turns.NewGame` | tictactoe.py:172-176 | a new session has an empty, consistent board with nine free cells, player 1 to move, the computer playing 2, and is running |
| `Turns.SwitchPlayer` | tictactoe.py:214-215 | `player % 2 + 1` hands the turn to the other player and changes nothing else |
| `Turns.Play` | tictactoe.py:217-220 | playing marks (row, col) for the player to move, leaves the other cells as they were, adds one to the counter and hands the turn over |
| `Turns.PlayKeepsTurn` | tictactoe.py:217-220 | playing an empty cell keeps the board consistent, adds one mark and hands the turn to the other player |
| `Turns.IsOverMeansWonOrNoSquareLeft` | tictactoe.py:222-223 | on a consistent board the game is over exactly when somebody has a line or no cell is free |
| `Turns.AIMoveAvailable` | tictactoe.py:264-271 | while the game is not over on a consistent board, `minimax(board, False)` returns a move to unpack, on an empty in-range cell, with score -1, 0 or 1 |
| `Turns.PlayAllKeepsCount` | tictactoe.py:246-254 | a run of accepted clicks keeps the board consistent and adds one mark per click |
| `Turns.PlayAllAlternates` | tictactoe.py:214-220 | after n accepted moves the player who started is to move again exactly when n is even |
| `Turns.FromEmptyBoardTurns` | tictactoe.py:170-223 | from a new session, after n accepted moves: n marks are counted, n plus the number of free cells is 9, and player 1 is to move exactly when n is even |

## Left out

- Drawing: window setup, `draw_lines`, `draw_X_O`, the colour and size constants, and the `show=True` branches of `game_state`. These only draw. The model's `GameState` is `game_state()` with `show` false.
- `main`: the event loop, the mapping from mouse pixels to cells, quitting, the `print` and `reset`. These are input and process control.
  - Clicks are modelled as a sequence of moves (`Accepted`, `PlayAll`), each on an empty cell while the game is not over.
  - The source tracks "not over" with its `running` flag, which it clears as soon as `isover()` holds after a play.
- numpy's float cells: the cells only ever hold exactly 0, 1 or 2, so they are a three-valued datatype.
- The `empty_squares` attribute set in `Board.__init__`: it is an unused alias of the grid.
- `mark_square` and `empty_square` on an out-of-range cell: numpy raises `IndexError` for an index outside -3..2 and reads -3..-1 from the far end (-1 is the last row or column). The only callers pass cells derived from a 600×600 window (tictactoe.py:248-251) or from the loops of `get_empty_squares` (tictactoe.py:107-109), so `MarkSquare`, `EmptySquare`, `At` and `Play` require an in-range cell.
- `mark_square` checks neither range nor occupancy: it overwrites the cell and counts one more mark (tictactoe.py:88-90). `MarkSquare` follows that, and `MarkOccupiedSquare` shows the result.
- `AI.player`: the source accepts any Python value here (tictactoe.py:117-118) but only ever builds `AI()` with the default of 2; the model lets it be either player. The claims that a win scores as the best possible value (`BestPossibleFound`, `ImmediateWinFound`, `FirstSquareWinTaken`) assume either a maximizing turn or a computer playing 2, the source's default.
- `Search.MinimaxScoreRange`, `Search.MinimaxPicksFirstBest`: these claims require a consistent board (counter equals marked cells). On other boards the source can return its sentinel, as `MiscountedBoardLeaksSentinel` shows.
- Facts about the whole game tree, such as the value of the empty board: they would make the verifier unfold the full tree of positions.
