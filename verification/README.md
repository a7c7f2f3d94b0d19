# Tic-tac-toe with alpha-beta search, in Dafny

This project models the game engine of a small tic-tac-toe application. A
human plays `X` against the computer, which plays `O`.

- **Board (`board.dfy`, module `Board`).** The engine keeps one board of
  nine cells. It answers four questions about it:
  - whether a mark has three in a row;
  - whether no blank cell is left;
  - whether the game is over;
  - which cells are still blank.

  It changes the board one cell at a time, placing a mark or clearing a cell.
- **Search (`search.dfy`, module `Search`).**
  - `AlphaBetaSearch`: the computer picks its move by a full-depth minimax
    search with alpha-beta pruning. It explores by placing a mark on the shared
    board, searching the result and clearing the mark again.
  - `BestMove`: tries every blank cell with a nine-ply search. It keeps the
    first cell with the highest score.

The board is a class `TicTacToe` over an `array<Cell>` of length 9:
- `MakeMove` and `UndoMove` update that array in place.
- The queries are functions that read it. Each is defined once, over the sequence
  of cells: `Wins`, `Full`, `GameOver` and `EmptyCells`.

The search is modelled twice:
- **On positions.** The functions `AlphaBeta`, `MaxLoop` and `MinLoop` follow the
  source branch for branch: the early `break` once `beta <= alpha`, the running
  maximum and minimum, and the narrowed window passed to later children.
  `BestMoveFrom` is the loop of `best_move`.
- **On the board object.** The methods `AlphaBetaSearch`, `MaxTurns`, `MinTurns`
  and `BestMove` are proved to return what those functions give for the board
  they started from. They also leave that board as it was.

The functions are in turn related to the following:
- plain minimax (`Minimax`);
- a statement of three in a row by rows, columns and diagonals (`ThreeInARow`);
- the bounds on scores (`IsScore`).

The infinities the source uses as starting values are the two extra values of
`ExtInt = NegInf | Fin(n) | PosInf`. They are sentinels only: every score the
search returns is `Fin(n)` with `-10 <= n <= 10` (`AlphaBetaScore`).

Terminal scores follow the code: `10 - depth` for a computer win and
`depth - 10` for a human win. Since `depth` counts down, a win found deeper in
the tree scores higher than an immediate one. The model follows the code here,
not the usual intent that faster wins score higher.

## Model

| member | source | states |
|---|---|---|
| Board.AnyOwnedIsSome | TicTacToe_https.py:19-22 | the loop over the winning lines answers true exactly when some line in the list has all three cells held by the player |
| Board.WinsIsThreeInARow | TicTacToe_https.py:13-22 | the table of eight index triples is exactly "a whole row, a whole column or one of the two diagonals", in both directions |
| Board.TicTacToe.IsWinner | TicTacToe_https.py:13-22 | `is_winner(p)` is true exactly when `p` has three in a row on the board |
| Board.FullIffNoMoves | TicTacToe_https.py:24-25 | a board with no blank cell is exactly one with no legal move, and a game that is not over always has a move |
| Board.TicTacToe.IsDraw | TicTacToe_https.py:24-25 | `is_draw()` is true exactly when the list of available moves is empty |
| Board.TicTacToe.IsGameOver | TicTacToe_https.py:27-28 | `is_game_over()` is true exactly when either mark has three in a row or no move is left |
| Board.EmptyCellsAreBlanks | TicTacToe_https.py:30-31 | the legal moves are exactly the indices of blank cells, strictly ascending (so each appears once), and each listed cell is blank |
| Board.EmptyCellIsBlank | TicTacToe_https.py:30-31 | the `k`-th legal move is a blank cell |
| Board.TicTacToe.AvailableMoves | TicTacToe_https.py:30-31 | `available_moves()` is strictly ascending and holds an index exactly when its cell is blank |
| Board.TicTacToe.MakeMove | TicTacToe_https.py:33-34 | `make_move(i, p)` sets cell `i` to `p` and changes no other cell |
| Board.TicTacToe.UndoMove | TicTacToe_https.py:36-37 | `undo_move(i)` blanks cell `i` and changes no other cell |
| Board.PlaceThenClear | TicTacToe_https.py:33-37 | placing a mark on a blank cell and clearing it again restores the board exactly; in between only that cell differs |
| Board.TicTacToe.constructor | TicTacToe_https.py:6-10 | a new game has nine blank cells |
| Board.PlaceKeepsOpponentLoss | TicTacToe_https.py:33-34 | placing one mark never completes a line for the other mark |
| Board.NoDoubleWinner | TicTacToe_https.py:27-28 | in any game played from the empty board with alternating marks, each move on a blank cell of a game not yet over, the two marks never both have three in a row |
| Search.AlphaBetaTerminal | TicTacToe_https.py:40-46 | the search scores `10 - depth` once the computer has three in a row, `depth - 10` when only the human has, and 0 when neither has and no move or no depth is left |
| Search.AlphaBetaScore | TicTacToe_https.py:40-69 | for every depth up to 20 and every window, the search returns a finite score in [-10, 10]: the infinite starting values never escape |
| Search.MaxLoopScore | TicTacToe_https.py:48-58 | the maximizing loop over at least one move returns a finite score in [-10, 10] |
| Search.MinLoopScore | TicTacToe_https.py:59-69 | the minimizing loop over at least one move returns a finite score in [-10, 10] |
| Search.AlphaBetaBracketed | TicTacToe_https.py:40-69 | fail-soft alpha-beta: a value below the window bounds the minimax value from above, one above it bounds it from below, and one inside it is the minimax value |
| Search.MaxLoopBracketed | TicTacToe_https.py:48-58 | the maximizing loop, cut-off included, never drops below its running maximum and brackets the maximum of that running maximum and the children's minimax values |
| Search.MaxLoopStep | TicTacToe_https.py:50-57 | one turn of the maximizing loop keeps the bracketing, whether it breaks or goes on |
| Search.MaxStep | TicTacToe_https.py:54-57 | the order facts behind one maximizing turn: raising the running maximum and `alpha` by the child's value, and breaking once `beta <= alpha`, keep the bracketing |
| Search.MinLoopBracketed | TicTacToe_https.py:59-69 | the minimizing loop, cut-off included, never rises above its running minimum and brackets the minimum of that running minimum and the children's minimax values |
| Search.MinLoopStep | TicTacToe_https.py:61-68 | one turn of the minimizing loop keeps the bracketing, whether it breaks or goes on |
| Search.MinStep | TicTacToe_https.py:65-68 | the order facts behind one minimizing turn, mirror image of `MaxStep` |
| Search.AlphaBetaIsMinimax | TicTacToe_https.py:40-69 | with the full window (`-inf`, `inf`) the pruned search returns exactly the plain minimax value |
| Search.MaxTurnStep | TicTacToe_https.py:54-57 | after searching move `i`, the maximizing loop either breaks, returning the raised maximum, or goes on from move `i + 1` with the raised `alpha` |
| Search.MinTurnStep | TicTacToe_https.py:65-68 | after searching move `i`, the minimizing loop either breaks, returning the lowered minimum, or goes on from move `i + 1` with the lowered `beta` |
| Search.AlphaBetaSearch | TicTacToe_https.py:40-69 | `alpha_beta_search` leaves the board as it found it and returns the value `AlphaBeta` gives for that board; with the lemmas above, this is the minimax value in [-10, 10] under the full window |
| Search.MaxTurns | TicTacToe_https.py:48-58 | the maximizing branch restores the board on every path, the `break` included, and returns what `MaxLoop` gives over the legal moves |
| Search.MaxTurn | TicTacToe_https.py:50-57 | one maximizing turn restores the board and advances the loop as `MaxTurnStep` says |
| Search.MinTurns | TicTacToe_https.py:59-69 | the minimizing branch restores the board on every path, the `break` included, and returns what `MinLoop` gives over the legal moves |
| Search.MinTurn | TicTacToe_https.py:61-68 | one minimizing turn restores the board and advances the loop as `MinTurnStep` says |
| Search.TryMove | TicTacToe_https.py:51-53 | make, search, undo: the board is back as it was and the result is the search value of the board with the mark placed |
| Search.BestMoveFromChoice | TicTacToe_https.py:74-81 | the `best_move` loop returns no move only on no input; otherwise a move scoring at least every move it saw, and strictly more than every earlier-listed one, since later equal scores do not replace it |
| Search.BestMoveChoice | TicTacToe_https.py:71-85 | `best_move` returns no move exactly on a full board. Otherwise it returns a blank cell whose score is its true minimax value, at least that of every blank cell and strictly more than that of every blank cell with a smaller index |
| Search.BestMove | TicTacToe_https.py:71-85 | `best_move` leaves the board as it found it and returns the move `BestMoveOf` gives for that board |

## Left out

- The Streamlit application (`main`, lines 88-125) is not part of this model.
  It is interface code over an external library: the page, buttons, session
  state and reset.
- Timing is not modelled (lines 2, 11, 72, 82-84): the clock reads, the
  printed thinking time and the `total_time` total. They are wall-clock input
  and output and do not affect the move.
- The unused `current_player` field (line 8) is not modelled.
- `float('inf')` and `float('-inf')` are modelled as the `PosInf` and `NegInf`
  values of `ExtInt`, not as floating-point numbers. Scores are Python
  integers, modelled as unbounded `int`.
- `depth` is a `nat`. The source only ever starts the search at depth 9 and
  stops recursing at depth 0, so it never sees a negative depth.
- `best_move` has no guard for a finished game, and the model adds none. On a
  board where someone has already won, it still tries every blank cell.
- Search.AlphaBetaScore: bounds the score for depths up to 20 only. A depth
  above 20 could give a terminal score outside [-10, 10]; the source only
  searches from depth 9.
- Search.MaxTurns, Search.MinTurns, Search.MaxTurn, Search.MinTurn,
  Search.TryMove: the source's single recursive function `alpha_beta_search` is
  split into these methods:
  - one per branch of the search;
  - one per turn of its loop;
  - one for the make-search-undo step.

  The model runs the same statements in the same order, but the code is not
  written as one method.
- No concrete game position is searched in the model. The results are stated
  for all boards.
