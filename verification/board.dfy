/**
 * The tic-tac-toe board: nine cells, the two fixed marks, the queries the
 * search relies on (winner, draw, game over, legal moves) and the in-place
 * placing and clearing of one mark.
 *
 * The queries are defined once, as functions over the sequence of cells; the
 * class `TicTacToe` holds the cells in an array that its methods update in
 * place and answers its queries through those functions.
 */
module Board {

  /** One square of the board: blank, `X` or `O`. */
  datatype Cell = Empty | X | O

  /** The human always plays `X`, the computer always plays `O`. */
  const Human: Cell := X
  const Ai: Cell := O

  /** A position: exactly nine cells; index `i` is row `i / 3`, column `i % 3`. */
  type Grid = s: seq<Cell> | |s| == 9
    witness [Empty, Empty, Empty, Empty, Empty, Empty, Empty, Empty, Empty]

  /** An index of a cell. */
  type Index = i: int | 0 <= i < 9

  /** The position a new game starts from. */
  const EmptyGrid: Grid := [Empty, Empty, Empty, Empty, Empty, Empty, Empty, Empty, Empty]

  // ---------------------------------------------------------------------------
  // Winner
  // ---------------------------------------------------------------------------

  /** Three cells that win when one mark holds all of them. */
  datatype Line = Line(a: Index, b: Index, c: Index)

  /** The eight winning lines, in the order the source tries them. */
  const WinLines: seq<Line> := [
    Line(0, 1, 2), Line(3, 4, 5), Line(6, 7, 8),   // rows
    Line(0, 3, 6), Line(1, 4, 7), Line(2, 5, 8),   // columns
    Line(0, 4, 8), Line(2, 4, 6)                   // diagonals
  ]

  /** Mark `p` occupies all three cells of `line`. */
  predicate Owns(g: Grid, line: Line, p: Cell) {
    g[line.a] == p && g[line.b] == p && g[line.c] == p
  }

  /**
   * The loop over the winning lines: true as soon as one of them is owned
   * by `p`, false when none is.
   */
  function AnyOwned(g: Grid, lines: seq<Line>, p: Cell): bool {
    if lines == [] then false
    else if Owns(g, lines[0], p) then true
    else AnyOwned(g, lines[1..], p)
  }

  /** The loop answers true exactly when some line in the list is owned by `p`. */
  lemma {:induction false} AnyOwnedIsSome(g: Grid, lines: seq<Line>, p: Cell)
    ensures AnyOwned(g, lines, p) <==> exists k :: 0 <= k < |lines| && Owns(g, lines[k], p)
  {
    if lines != [] && !Owns(g, lines[0], p) {
      AnyOwnedIsSome(g, lines[1..], p);
      if k :| 0 <= k < |lines| && Owns(g, lines[k], p) {
        assert Owns(g, lines[1..][k - 1], p);
      }
    }
  }

  /** `is_winner(p)`: some winning line is all `p`. */
  function Wins(g: Grid, p: Cell): bool {
    AnyOwned(g, WinLines, p)
  }

  /** The cell in row `r`, column `c`. */
  function At(g: Grid, r: nat, c: nat): Cell
    requires r < 3 && c < 3
  {
    g[3 * r + c]
  }

  ghost predicate RowFull(g: Grid, r: nat, p: Cell)
    requires r < 3
  {
    forall c: nat :: c < 3 ==> At(g, r, c) == p
  }

  ghost predicate ColumnFull(g: Grid, c: nat, p: Cell)
    requires c < 3
  {
    forall r: nat :: r < 3 ==> At(g, r, c) == p
  }

  /**
   * Three in a row, stated in rows and columns rather than by a table of
   * indices: a whole row, a whole column, or one of the two diagonals.
   */
  ghost predicate ThreeInARow(g: Grid, p: Cell) {
    || (exists r: nat :: r < 3 && RowFull(g, r, p))
    || (exists c: nat :: c < 3 && ColumnFull(g, c, p))
    || (forall r: nat, c: nat :: r < 3 && c < 3 && r == c ==> At(g, r, c) == p)
    || (forall r: nat, c: nat :: r < 3 && c < 3 && r + c == 2 ==> At(g, r, c) == p)
  }

  /** The table of eight lines is exactly "three in a row". */
  lemma WinsIsThreeInARow(g: Grid, p: Cell)
    ensures Wins(g, p) <==> ThreeInARow(g, p)
  {
    AnyOwnedIsSome(g, WinLines, p);
    if Wins(g, p) {
      var k :| 0 <= k < |WinLines| && Owns(g, WinLines[k], p);
      LineIsThreeInARow(g, p, k);
    }
    if ThreeInARow(g, p) {
      ThreeInARowIsLine(g, p);
    }
  }

  lemma LineIsThreeInARow(g: Grid, p: Cell, k: nat)
    requires k < |WinLines| && Owns(g, WinLines[k], p)
    ensures ThreeInARow(g, p)
  {
    if k < 3 {
      assert RowFull(g, k, p);
    } else if k < 6 {
      assert ColumnFull(g, k - 3, p);
    }
  }

  lemma ThreeInARowIsLine(g: Grid, p: Cell)
    requires ThreeInARow(g, p)
    ensures exists k :: 0 <= k < |WinLines| && Owns(g, WinLines[k], p)
  {
    if r: nat :| r < 3 && RowFull(g, r, p) {
      assert At(g, r, 0) == p && At(g, r, 1) == p && At(g, r, 2) == p;
      assert Owns(g, WinLines[r], p);
    } else if c: nat :| c < 3 && ColumnFull(g, c, p) {
      assert At(g, 0, c) == p && At(g, 1, c) == p && At(g, 2, c) == p;
      assert Owns(g, WinLines[3 + c], p);
    } else if forall r: nat, c: nat :: r < 3 && c < 3 && r == c ==> At(g, r, c) == p {
      assert At(g, 0, 0) == p && At(g, 1, 1) == p && At(g, 2, 2) == p;
      assert Owns(g, WinLines[6], p);
    } else {
      assert At(g, 0, 2) == p && At(g, 1, 1) == p && At(g, 2, 0) == p;
      assert Owns(g, WinLines[7], p);
    }
  }

  /**
   * Placing a mark never completes a line for the other mark: a line the
   * opponent owns afterwards avoids the changed cell, so it was owned before.
   */
  lemma PlaceKeepsOpponentLoss(g: Grid, i: Index, p: Cell, q: Cell)
    requires p != q && !Wins(g, q)
    ensures !Wins(g[i := p], q)
  {
    AnyOwnedIsSome(g, WinLines, q);
    AnyOwnedIsSome(g[i := p], WinLines, q);
  }

  // ---------------------------------------------------------------------------
  // Draw, game over, legal moves
  // ---------------------------------------------------------------------------

  /** `is_draw`: no blank cell is left, whether or not someone has won. */
  function Full(g: Grid): bool {
    Empty !in g
  }

  /** `is_game_over`: either mark has won, or the board is full. */
  function GameOver(g: Grid): bool {
    Wins(g, Human) || Wins(g, Ai) || Full(g)
  }

  predicate Ascending(s: seq<int>) {
    forall i, j :: 0 <= i < j < |s| ==> s[i] < s[j]
  }

  /** The blank cells with index `start` or more, in ascending order. */
  function EmptyCellsFrom(g: Grid, start: nat): seq<Index>
    requires start <= 9
    decreases 9 - start
  {
    if start == 9 then []
    else if g[start] == Empty then [start] + EmptyCellsFrom(g, start + 1)
    else EmptyCellsFrom(g, start + 1)
  }

  /** `available_moves`: the blank cells, scanned in order of index. */
  function EmptyCells(g: Grid): seq<Index> {
    EmptyCellsFrom(g, 0)
  }

  /** The blank cells from `start` on are listed in ascending order, none below `start`. */
  lemma {:induction false} EmptyCellsFromAscending(g: Grid, start: nat)
    requires start <= 9
    ensures forall k :: 0 <= k < |EmptyCellsFrom(g, start)| ==> start <= EmptyCellsFrom(g, start)[k]
    ensures Ascending(EmptyCellsFrom(g, start))
    decreases 9 - start
  {
    if start < 9 {
      EmptyCellsFromAscending(g, start + 1);
      var rest := EmptyCellsFrom(g, start + 1);
      if g[start] == Empty {
        var s := [start] + rest;
        assert EmptyCellsFrom(g, start) == s;
        assert forall k :: 1 <= k < |s| ==> s[k] == rest[k - 1];
      }
    }
  }

  /** A cell is listed from `start` on exactly when it is blank and at least `start`. */
  lemma {:induction false} EmptyCellsFromMembers(g: Grid, start: nat)
    requires start <= 9
    ensures forall i :: i in EmptyCellsFrom(g, start) <==> start <= i < 9 && g[i] == Empty
    decreases 9 - start
  {
    if start < 9 {
      EmptyCellsFromMembers(g, start + 1);
    }
  }

  /**
   * The legal moves are exactly the blank cells, each once, in ascending
   * order of index.
   */
  lemma EmptyCellsAreBlanks(g: Grid)
    ensures Ascending(EmptyCells(g))
    ensures forall i :: i in EmptyCells(g) <==> 0 <= i < 9 && g[i] == Empty
    ensures forall k :: 0 <= k < |EmptyCells(g)| ==> g[EmptyCells(g)[k]] == Empty
  {
    EmptyCellsFromAscending(g, 0);
    EmptyCellsFromMembers(g, 0);
    assert forall k :: 0 <= k < |EmptyCells(g)| ==> EmptyCells(g)[k] in EmptyCells(g);
  }

  /**
   * A board is a draw in the source's sense exactly when no move is left;
   * so a position that is not over always has a move.
   */
  lemma FullIffNoMoves(g: Grid)
    ensures Full(g) <==> EmptyCells(g) == []
    ensures !GameOver(g) ==> EmptyCells(g) != []
  {
    EmptyCellsAreBlanks(g);
    if !Full(g) {
      var i :| 0 <= i < 9 && g[i] == Empty;
      assert i in EmptyCells(g);
    }
  }

  /** The `k`-th legal move is a blank cell. */
  lemma EmptyCellIsBlank(g: Grid, k: nat)
    requires k < |EmptyCells(g)|
    ensures g[EmptyCells(g)[k]] == Empty
  {
    EmptyCellsAreBlanks(g);
    assert EmptyCells(g)[k] in EmptyCells(g);
  }

  /** Placing a mark on a blank cell and clearing it again gives back the board. */
  lemma PlaceThenClear(g: Grid, i: Index, p: Cell)
    requires g[i] == Empty
    ensures g[i := p][i := Empty] == g
    ensures forall j :: 0 <= j < 9 && j != i ==> g[i := p][j] == g[j]
  {
    assert forall j :: 0 <= j < 9 ==> g[i := p][i := Empty][j] == g[j];
  }

  // ---------------------------------------------------------------------------
  // Games played under the session's rules
  // ---------------------------------------------------------------------------

  /** The mark that makes move number `k` (from 0): the human starts. */
  function Mover(k: nat): Cell {
    if k % 2 == 0 then Human else Ai
  }

  /** The position after playing `moves` from the empty board, marks alternating. */
  function Replay(moves: seq<Index>): Grid
    decreases |moves|
  {
    if moves == [] then EmptyGrid
    else
      var n := |moves| - 1;
      Replay(moves[..n])[moves[n] := Mover(n)]
  }

  /** Every move goes to a blank cell of a position that is not yet over. */
  ghost predicate LegalGame(moves: seq<Index>) {
    forall k :: 0 <= k < |moves| ==>
      !GameOver(Replay(moves[..k])) && Replay(moves[..k])[moves[k]] == Empty
  }

  /** Move `k` of a legal game is made on a blank cell of a position that is not over. */
  lemma LegalMoveAt(moves: seq<Index>, k: nat)
    requires LegalGame(moves) && k < |moves|
    ensures !GameOver(Replay(moves[..k])) && Replay(moves[..k])[moves[k]] == Empty
  {
  }

  /** Nobody has won on the empty board. */
  lemma EmptyGridHasNoWinner(p: Cell)
    requires p != Empty
    ensures !Wins(EmptyGrid, p)
  {
    AnyOwnedIsSome(EmptyGrid, WinLines, p);
  }

  /** In a game played by the rules, the two marks never both have three in a row. */
  lemma NoDoubleWinner(moves: seq<Index>)
    requires LegalGame(moves)
    ensures !(Wins(Replay(moves), Human) && Wins(Replay(moves), Ai))
  {
    if moves == [] {
      EmptyGridHasNoWinner(Human);
    } else {
      var n := |moves| - 1;
      var before := Replay(moves[..n]);
      LegalMoveAt(moves, n);
      assert Replay(moves) == before[moves[n] := Mover(n)];
      if Mover(n) == Human {
        PlaceKeepsOpponentLoss(before, moves[n], Human, Ai);
      } else {
        PlaceKeepsOpponentLoss(before, moves[n], Ai, Human);
      }
    }
  }

  // ---------------------------------------------------------------------------
  // The board object
  // ---------------------------------------------------------------------------

  /**
   * The game object: the nine cells in an array that moves update in place,
   * and the two fixed marks.
   */
  class TicTacToe {
    var board: array<Cell>
    const human: Cell := Human
    const ai: Cell := Ai

    ghost predicate Valid()
      reads this
    {
      board.Length == 9
    }

    /** A new game: every cell blank. */
    constructor ()
      ensures Valid() && fresh(board)
      ensures board[..] == EmptyGrid
    {
      board := new Cell[9](_ => Empty);
    }

    /** `is_winner`: `player` has a whole row, column or diagonal. */
    function IsWinner(player: Cell): (r: bool)
      reads this, board
      requires Valid()
      ensures r <==> ThreeInARow(board[..], player)
    {
      WinsIsThreeInARow(board[..], player);
      Wins(board[..], player)
    }

    /** `is_draw`: true exactly when no move is left. */
    function IsDraw(): (r: bool)
      reads this, board
      requires Valid()
      ensures r <==> EmptyCells(board[..]) == []
    {
      FullIffNoMoves(board[..]);
      Full(board[..])
    }

    /** `is_game_over`: a mark has three in a row or no move is left. */
    function IsGameOver(): (r: bool)
      reads this, board
      requires Valid()
      ensures r <==> ThreeInARow(board[..], Human) || ThreeInARow(board[..], Ai) || EmptyCells(board[..]) == []
    {
      WinsIsThreeInARow(board[..], Human);
      WinsIsThreeInARow(board[..], Ai);
      FullIffNoMoves(board[..]);
      GameOver(board[..])
    }

    /** `available_moves`: the blank cells, each once, in ascending order. */
    function AvailableMoves(): (r: seq<Index>)
      reads this, board
      requires Valid()
      ensures Ascending(r)
      ensures forall i :: i in r <==> 0 <= i < 9 && board[i] == Empty
    {
      EmptyCellsAreBlanks(board[..]);
      EmptyCells(board[..])
    }

    /** Puts `player` on cell `move`; no other cell changes. */
    method MakeMove(move: nat, player: Cell)
      requires Valid() && move < 9
      modifies board
      ensures board[..] == old(board[..])[move := player]
    {
      board[move] := player;
    }

    /** Blanks cell `move`; no other cell changes. */
    method UndoMove(move: nat)
      requires Valid() && move < 9
      modifies board
      ensures board[..] == old(board[..])[move := Empty]
    {
      board[move] := Empty;
    }
  }
}
