/**
 * The computer's move selection: full-depth minimax with alpha-beta pruning
 * over the board, exploring by placing a mark, recursing and clearing the
 * mark again on the one shared board.
 *
 * `AlphaBeta` and `BestMoveOf` state, as functions on positions, what the
 * methods `AlphaBetaSearch` and `BestMove` compute on the board object.
 * `Minimax` is plain minimax without pruning; with the full window the
 * pruned search returns the same value (`AlphaBetaIsMinimax`).
 */
module Search {
  import opened Board

  datatype Option<T> = None | Some(value: T)

  /**
   * A score or a window bound: an integer, or one of the two infinities the
   * source uses as starting values for the running maximum and minimum and
   * for the initial window.
   */
  datatype ExtInt = NegInf | Fin(n: int) | PosInf

  predicate Le(x: ExtInt, y: ExtInt) {
    x.NegInf? || y.PosInf? || (x.Fin? && y.Fin? && x.n <= y.n)
  }

  predicate Lt(x: ExtInt, y: ExtInt) {
    !Le(y, x)
  }

  function Max(x: ExtInt, y: ExtInt): ExtInt {
    if Le(y, x) then x else y
  }

  function Min(x: ExtInt, y: ExtInt): ExtInt {
    if Le(x, y) then x else y
  }

  /** A real score: an integer in [-10, 10]. */
  predicate IsScore(e: ExtInt) {
    e.Fin? && -10 <= e.n <= 10
  }

  // ---------------------------------------------------------------------------
  // The pruned search, as functions
  // ---------------------------------------------------------------------------

  /**
   * The value `alpha_beta_search` returns for position `g` with `depth`
   * plies left, window (`alpha`, `beta`), the computer to move when
   * `maximizing`. Terminal scores are `10 - depth` for a computer win,
   * `depth - 10` for a human win and 0 for a full board or no depth left.
   */
  function AlphaBeta(g: Grid, depth: nat, alpha: ExtInt, beta: ExtInt, maximizing: bool): ExtInt
    decreases depth, 1, 0
  {
    if Wins(g, Ai) then Fin(10 - depth)
    else if Wins(g, Human) then Fin(depth - 10)
    else if Full(g) || depth == 0 then Fin(0)
    else if maximizing then MaxLoop(g, depth, alpha, beta, EmptyCells(g), NegInf)
    else MinLoop(g, depth, alpha, beta, EmptyCells(g), PosInf)
  }

  /**
   * The maximizing loop from the move `moves[0]` on, with running maximum
   * `best` and lower bound `alpha`: stops as soon as `beta <= alpha`.
   */
  function MaxLoop(g: Grid, depth: nat, alpha: ExtInt, beta: ExtInt, moves: seq<Index>, best: ExtInt): ExtInt
    requires depth >= 1
    decreases depth, 0, |moves|
  {
    if moves == [] then best
    else
      var e := AlphaBeta(g[moves[0] := Ai], depth - 1, alpha, beta, false);
      var best' := Max(best, e);
      var alpha' := Max(alpha, e);
      if Le(beta, alpha') then best'
      else MaxLoop(g, depth, alpha', beta, moves[1..], best')
  }

  /** The minimizing loop, the mirror image of `MaxLoop` with the human's mark. */
  function MinLoop(g: Grid, depth: nat, alpha: ExtInt, beta: ExtInt, moves: seq<Index>, best: ExtInt): ExtInt
    requires depth >= 1
    decreases depth, 0, |moves|
  {
    if moves == [] then best
    else
      var e := AlphaBeta(g[moves[0] := Human], depth - 1, alpha, beta, true);
      var best' := Min(best, e);
      var beta' := Min(beta, e);
      if Le(beta', alpha) then best'
      else MinLoop(g, depth, alpha, beta', moves[1..], best')
  }

  /** The maximizing loop, resumed at move `i`, returns `result`. */
  predicate MaxLoopRemaining(g: Grid, depth: nat, alpha: ExtInt, beta: ExtInt, moves: seq<Index>, i: nat, best: ExtInt, result: ExtInt)
    requires depth >= 1 && i <= |moves|
  {
    result == MaxLoop(g, depth, alpha, beta, moves[i..], best)
  }

  /** The minimizing loop, resumed at move `i`, returns `result`. */
  predicate MinLoopRemaining(g: Grid, depth: nat, alpha: ExtInt, beta: ExtInt, moves: seq<Index>, i: nat, best: ExtInt, result: ExtInt)
    requires depth >= 1 && i <= |moves|
  {
    result == MinLoop(g, depth, alpha, beta, moves[i..], best)
  }

  /** `e` is the value of the search after `player` takes cell `move`. */
  predicate Evaluated(g: Grid, move: Index, player: Cell, depth: nat, alpha: ExtInt, beta: ExtInt, maximizing: bool, e: ExtInt) {
    e == AlphaBeta(g[move := player], depth, alpha, beta, maximizing)
  }

  /**
   * One turn of the maximizing loop at move `i`, given the value `e` of that
   * move: either the window closes and the loop returns, or it goes on from
   * move `i + 1` with the raised bound and maximum.
   */
  lemma MaxTurnStep(g: Grid, depth: nat, alpha: ExtInt, beta: ExtInt, moves: seq<Index>, i: nat, best: ExtInt, result: ExtInt, player: Cell, e: ExtInt)
    requires depth >= 1 && i < |moves| && player == Ai
    requires MaxLoopRemaining(g, depth, alpha, beta, moves, i, best, result)
    requires Evaluated(g, moves[i], player, depth - 1, alpha, beta, false, e)
    ensures Le(beta, Max(alpha, e)) ==> result == Max(best, e)
    ensures !Le(beta, Max(alpha, e)) ==> MaxLoopRemaining(g, depth, Max(alpha, e), beta, moves, i + 1, Max(best, e), result)
  {
    assert moves[i..][0] == moves[i] && moves[i..][1..] == moves[i + 1..];
  }

  /** One turn of the minimizing loop at move `i`, the mirror image of `MaxTurnStep`. */
  lemma MinTurnStep(g: Grid, depth: nat, alpha: ExtInt, beta: ExtInt, moves: seq<Index>, i: nat, best: ExtInt, result: ExtInt, player: Cell, e: ExtInt)
    requires depth >= 1 && i < |moves| && player == Human
    requires MinLoopRemaining(g, depth, alpha, beta, moves, i, best, result)
    requires Evaluated(g, moves[i], player, depth - 1, alpha, beta, true, e)
    ensures Le(Min(beta, e), alpha) ==> result == Min(best, e)
    ensures !Le(Min(beta, e), alpha) ==> MinLoopRemaining(g, depth, alpha, Min(beta, e), moves, i + 1, Min(best, e), result)
  {
    assert moves[i..][0] == moves[i] && moves[i..][1..] == moves[i + 1..];
  }

  // ---------------------------------------------------------------------------
  // Plain minimax, the reference the pruned search is measured against
  // ---------------------------------------------------------------------------

  /** The game value with the same terminal scores and no pruning. */
  function Minimax(g: Grid, depth: nat, maximizing: bool): ExtInt
    decreases depth, 1, 0
  {
    if Wins(g, Ai) then Fin(10 - depth)
    else if Wins(g, Human) then Fin(depth - 10)
    else if Full(g) || depth == 0 then Fin(0)
    else if maximizing then MaxOver(g, depth, EmptyCells(g))
    else MinOver(g, depth, EmptyCells(g))
  }

  /** The largest minimax value over the computer's moves in `moves`. */
  function MaxOver(g: Grid, depth: nat, moves: seq<Index>): ExtInt
    requires depth >= 1
    decreases depth, 0, |moves|
  {
    if moves == [] then NegInf
    else Max(Minimax(g[moves[0] := Ai], depth - 1, false), MaxOver(g, depth, moves[1..]))
  }

  /** The smallest minimax value over the human's moves in `moves`. */
  function MinOver(g: Grid, depth: nat, moves: seq<Index>): ExtInt
    requires depth >= 1
    decreases depth, 0, |moves|
  {
    if moves == [] then PosInf
    else Min(Minimax(g[moves[0] := Human], depth - 1, true), MinOver(g, depth, moves[1..]))
  }

  // ---------------------------------------------------------------------------
  // Alpha-beta returns the minimax value
  // ---------------------------------------------------------------------------

  /**
   * Fail-soft alpha-beta: `v` is the value the pruned search returned for a
   * position whose true value is `m`. A result at or below the window only
   * bounds `m` from above, one at or above it only from below, and one
   * strictly inside it is exact.
   */
  predicate Bracketed(v: ExtInt, m: ExtInt, alpha: ExtInt, beta: ExtInt) {
    && (Le(v, alpha) ==> Le(m, v))
    && (Lt(alpha, v) && Lt(v, beta) ==> v == m)
    && (Le(beta, v) ==> Le(v, m))
  }

  lemma {:induction false} AlphaBetaBracketed(g: Grid, depth: nat, alpha: ExtInt, beta: ExtInt, maximizing: bool)
    requires Lt(alpha, beta)
    ensures Bracketed(AlphaBeta(g, depth, alpha, beta, maximizing), Minimax(g, depth, maximizing), alpha, beta)
    decreases depth, 1, 0
  {
    if Wins(g, Ai) || Wins(g, Human) || Full(g) || depth == 0 {
    } else if maximizing {
      MaxLoopBracketed(g, depth, alpha, beta, EmptyCells(g), NegInf);
    } else {
      MinLoopBracketed(g, depth, alpha, beta, EmptyCells(g), PosInf);
    }
  }

  lemma {:induction false} MaxLoopBracketed(g: Grid, depth: nat, alpha: ExtInt, beta: ExtInt, moves: seq<Index>, best: ExtInt)
    requires depth >= 1
    requires Lt(alpha, beta) && Le(best, alpha)
    ensures Le(best, MaxLoop(g, depth, alpha, beta, moves, best))
    ensures Bracketed(MaxLoop(g, depth, alpha, beta, moves, best), Max(best, MaxOver(g, depth, moves)), alpha, beta)
    decreases depth, 0, |moves|
  {
    if moves != [] {
      AlphaBetaBracketed(g[moves[0] := Ai], depth - 1, alpha, beta, false);
      if !Le(beta, Max(alpha, AlphaBeta(g[moves[0] := Ai], depth - 1, alpha, beta, false))) {
        MaxLoopBracketed(g, depth, Max(alpha, AlphaBeta(g[moves[0] := Ai], depth - 1, alpha, beta, false)), beta, moves[1..],
                         Max(best, AlphaBeta(g[moves[0] := Ai], depth - 1, alpha, beta, false)));
      }
      MaxLoopStep(g, depth, alpha, beta, moves, best);
    }
  }

  /** The induction step of `MaxLoopBracketed`: the first move, then the rest of the loop. */
  lemma MaxLoopStep(g: Grid, depth: nat, alpha: ExtInt, beta: ExtInt, moves: seq<Index>, best: ExtInt)
    requires depth >= 1 && moves != []
    requires Lt(alpha, beta) && Le(best, alpha)
    requires Bracketed(AlphaBeta(g[moves[0] := Ai], depth - 1, alpha, beta, false), Minimax(g[moves[0] := Ai], depth - 1, false), alpha, beta)
    requires !Le(beta, Max(alpha, AlphaBeta(g[moves[0] := Ai], depth - 1, alpha, beta, false))) ==>
      var e := AlphaBeta(g[moves[0] := Ai], depth - 1, alpha, beta, false);
      var r := MaxLoop(g, depth, Max(alpha, e), beta, moves[1..], Max(best, e));
      Le(Max(best, e), r) && Bracketed(r, Max(Max(best, e), MaxOver(g, depth, moves[1..])), Max(alpha, e), beta)
    ensures Le(best, MaxLoop(g, depth, alpha, beta, moves, best))
    ensures Bracketed(MaxLoop(g, depth, alpha, beta, moves, best), Max(best, MaxOver(g, depth, moves)), alpha, beta)
  {
    MaxStep(alpha, beta, best,
            AlphaBeta(g[moves[0] := Ai], depth - 1, alpha, beta, false),
            Minimax(g[moves[0] := Ai], depth - 1, false),
            MaxOver(g, depth, moves[1..]),
            MaxLoop(g, depth, Max(alpha, AlphaBeta(g[moves[0] := Ai], depth - 1, alpha, beta, false)), beta, moves[1..],
                    Max(best, AlphaBeta(g[moves[0] := Ai], depth - 1, alpha, beta, false))),
            MaxLoop(g, depth, alpha, beta, moves, best),
            MaxOver(g, depth, moves));
  }

  /**
   * One move of the maximizing loop, as order facts: the child searched
   * with value `e` (true value `mc`), the remaining moves with true value
   * `rest`; `v` is what the loop returns and `r` what the rest of the loop
   * returns when there is no cut-off.
   */
  lemma MaxStep(alpha: ExtInt, beta: ExtInt, best: ExtInt, e: ExtInt, mc: ExtInt, rest: ExtInt, r: ExtInt, v: ExtInt, m: ExtInt)
    requires Lt(alpha, beta) && Le(best, alpha)
    requires Bracketed(e, mc, alpha, beta)
    requires m == Max(mc, rest)
    requires Le(beta, Max(alpha, e)) ==> v == Max(best, e)
    requires !Le(beta, Max(alpha, e)) ==>
      v == r && Le(Max(best, e), r) && Bracketed(r, Max(Max(best, e), rest), Max(alpha, e), beta)
    ensures Le(best, v)
    ensures Bracketed(v, Max(best, m), alpha, beta)
  {
  }

  lemma {:induction false} MinLoopBracketed(g: Grid, depth: nat, alpha: ExtInt, beta: ExtInt, moves: seq<Index>, best: ExtInt)
    requires depth >= 1
    requires Lt(alpha, beta) && Le(beta, best)
    ensures Le(MinLoop(g, depth, alpha, beta, moves, best), best)
    ensures Bracketed(MinLoop(g, depth, alpha, beta, moves, best), Min(best, MinOver(g, depth, moves)), alpha, beta)
    decreases depth, 0, |moves|
  {
    if moves != [] {
      AlphaBetaBracketed(g[moves[0] := Human], depth - 1, alpha, beta, true);
      if !Le(Min(beta, AlphaBeta(g[moves[0] := Human], depth - 1, alpha, beta, true)), alpha) {
        MinLoopBracketed(g, depth, alpha, Min(beta, AlphaBeta(g[moves[0] := Human], depth - 1, alpha, beta, true)), moves[1..],
                         Min(best, AlphaBeta(g[moves[0] := Human], depth - 1, alpha, beta, true)));
      }
      MinLoopStep(g, depth, alpha, beta, moves, best);
    }
  }

  /** The induction step of `MinLoopBracketed`. */
  lemma MinLoopStep(g: Grid, depth: nat, alpha: ExtInt, beta: ExtInt, moves: seq<Index>, best: ExtInt)
    requires depth >= 1 && moves != []
    requires Lt(alpha, beta) && Le(beta, best)
    requires Bracketed(AlphaBeta(g[moves[0] := Human], depth - 1, alpha, beta, true), Minimax(g[moves[0] := Human], depth - 1, true), alpha, beta)
    requires !Le(Min(beta, AlphaBeta(g[moves[0] := Human], depth - 1, alpha, beta, true)), alpha) ==>
      var e := AlphaBeta(g[moves[0] := Human], depth - 1, alpha, beta, true);
      var r := MinLoop(g, depth, alpha, Min(beta, e), moves[1..], Min(best, e));
      Le(r, Min(best, e)) && Bracketed(r, Min(Min(best, e), MinOver(g, depth, moves[1..])), alpha, Min(beta, e))
    ensures Le(MinLoop(g, depth, alpha, beta, moves, best), best)
    ensures Bracketed(MinLoop(g, depth, alpha, beta, moves, best), Min(best, MinOver(g, depth, moves)), alpha, beta)
  {
    MinStep(alpha, beta, best,
            AlphaBeta(g[moves[0] := Human], depth - 1, alpha, beta, true),
            Minimax(g[moves[0] := Human], depth - 1, true),
            MinOver(g, depth, moves[1..]),
            MinLoop(g, depth, alpha, Min(beta, AlphaBeta(g[moves[0] := Human], depth - 1, alpha, beta, true)), moves[1..],
                    Min(best, AlphaBeta(g[moves[0] := Human], depth - 1, alpha, beta, true))),
            MinLoop(g, depth, alpha, beta, moves, best),
            MinOver(g, depth, moves));
  }

  /** One move of the minimizing loop, the mirror image of `MaxStep`. */
  lemma MinStep(alpha: ExtInt, beta: ExtInt, best: ExtInt, e: ExtInt, mc: ExtInt, rest: ExtInt, r: ExtInt, v: ExtInt, m: ExtInt)
    requires Lt(alpha, beta) && Le(beta, best)
    requires Bracketed(e, mc, alpha, beta)
    requires m == Min(mc, rest)
    requires Le(Min(beta, e), alpha) ==> v == Min(best, e)
    requires !Le(Min(beta, e), alpha) ==>
      v == r && Le(r, Min(best, e)) && Bracketed(r, Min(Min(best, e), rest), alpha, Min(beta, e))
    ensures Le(v, best)
    ensures Bracketed(v, Min(best, m), alpha, beta)
  {
  }

  /** With the full window the pruned search returns exactly the minimax value. */
  lemma AlphaBetaIsMinimax(g: Grid, depth: nat, maximizing: bool)
    ensures AlphaBeta(g, depth, NegInf, PosInf, maximizing) == Minimax(g, depth, maximizing)
  {
    AlphaBetaBracketed(g, depth, NegInf, PosInf, maximizing);
  }

  /**
   * The terminal scores, in the board's own terms: `10 - depth` once the
   * computer has three in a row, `depth - 10` when only the human has, and
   * 0 when neither has and no move or no depth is left.
   */
  lemma AlphaBetaTerminal(g: Grid, depth: nat, alpha: ExtInt, beta: ExtInt, maximizing: bool)
    ensures ThreeInARow(g, Ai) ==> AlphaBeta(g, depth, alpha, beta, maximizing) == Fin(10 - depth)
    ensures !ThreeInARow(g, Ai) && ThreeInARow(g, Human) ==> AlphaBeta(g, depth, alpha, beta, maximizing) == Fin(depth - 10)
    ensures !ThreeInARow(g, Ai) && !ThreeInARow(g, Human) && (EmptyCells(g) == [] || depth == 0) ==>
      AlphaBeta(g, depth, alpha, beta, maximizing) == Fin(0)
  {
    WinsIsThreeInARow(g, Ai);
    WinsIsThreeInARow(g, Human);
    FullIffNoMoves(g);
  }

  // ---------------------------------------------------------------------------
  // Scores stay finite and within [-10, 10]
  // ---------------------------------------------------------------------------

  /**
   * Within the depths the game uses, the search always returns a finite
   * score in [-10, 10]: the starting infinities of the running maximum and
   * minimum never escape, because a position that is not over has a move.
   */
  lemma {:induction false} AlphaBetaScore(g: Grid, depth: nat, alpha: ExtInt, beta: ExtInt, maximizing: bool)
    requires depth <= 20
    ensures IsScore(AlphaBeta(g, depth, alpha, beta, maximizing))
    decreases depth, 1, 0
  {
    if !(Wins(g, Ai) || Wins(g, Human) || Full(g) || depth == 0) {
      FullIffNoMoves(g);
      if maximizing {
        MaxLoopScore(g, depth, alpha, beta, EmptyCells(g), NegInf);
      } else {
        MinLoopScore(g, depth, alpha, beta, EmptyCells(g), PosInf);
      }
    }
  }

  lemma {:induction false} MaxLoopScore(g: Grid, depth: nat, alpha: ExtInt, beta: ExtInt, moves: seq<Index>, best: ExtInt)
    requires 1 <= depth <= 20
    requires best == NegInf || IsScore(best)
    ensures moves != [] || IsScore(best) ==> IsScore(MaxLoop(g, depth, alpha, beta, moves, best))
    decreases depth, 0, |moves|
  {
    if moves != [] {
      AlphaBetaScore(g[moves[0] := Ai], depth - 1, alpha, beta, false);
      MaxLoopScore(g, depth, Max(alpha, AlphaBeta(g[moves[0] := Ai], depth - 1, alpha, beta, false)), beta, moves[1..],
                   Max(best, AlphaBeta(g[moves[0] := Ai], depth - 1, alpha, beta, false)));
    }
  }

  lemma {:induction false} MinLoopScore(g: Grid, depth: nat, alpha: ExtInt, beta: ExtInt, moves: seq<Index>, best: ExtInt)
    requires 1 <= depth <= 20
    requires best == PosInf || IsScore(best)
    ensures moves != [] || IsScore(best) ==> IsScore(MinLoop(g, depth, alpha, beta, moves, best))
    decreases depth, 0, |moves|
  {
    if moves != [] {
      AlphaBetaScore(g[moves[0] := Human], depth - 1, alpha, beta, true);
      MinLoopScore(g, depth, alpha, Min(beta, AlphaBeta(g[moves[0] := Human], depth - 1, alpha, beta, true)), moves[1..],
                   Min(best, AlphaBeta(g[moves[0] := Human], depth - 1, alpha, beta, true)));
    }
  }

  // ---------------------------------------------------------------------------
  // The computer's choice of move
  // ---------------------------------------------------------------------------

  /**
   * The score `best_move` gives to placing the computer's mark on `m`: a
   * nine-ply search of the resulting position, the human to move, with the
   * full window.
   */
  function Score(g: Grid, m: Index): ExtInt {
    AlphaBeta(g[m := Ai], 9, NegInf, PosInf, false)
  }

  /**
   * The loop of `best_move` from `moves[0]` on, holding the best score so far
   * and the move that reached it: a move replaces the held one only when it
   * scores strictly more.
   */
  function BestMoveFrom(g: Grid, moves: seq<Index>, bestScore: ExtInt, move: Option<Index>): Option<Index>
    decreases |moves|
  {
    if moves == [] then move
    else if Lt(bestScore, Score(g, moves[0])) then BestMoveFrom(g, moves[1..], Score(g, moves[0]), Some(moves[0]))
    else BestMoveFrom(g, moves[1..], bestScore, move)
  }

  /** `best_move`: no move at all on a full board. */
  function BestMoveOf(g: Grid): Option<Index> {
    BestMoveFrom(g, EmptyCells(g), NegInf, None)
  }

  lemma {:induction false} BestMoveFromChoice(g: Grid, moves: seq<Index>, bestScore: ExtInt, move: Option<Index>)
    requires Ascending(moves)
    requires move.None? ==> bestScore == NegInf
    requires move.Some? ==> bestScore == Score(g, move.value) && forall k :: 0 <= k < |moves| ==> move.value < moves[k]
    ensures BestMoveFrom(g, moves, bestScore, move).None? <==> move.None? && moves == []
    ensures BestMoveFrom(g, moves, bestScore, move).Some? ==>
      var m := BestMoveFrom(g, moves, bestScore, move).value;
      && (BestMoveFrom(g, moves, bestScore, move) == move || m in moves)
      && (BestMoveFrom(g, moves, bestScore, move) != move ==> Lt(bestScore, Score(g, m)))
      && Le(bestScore, Score(g, m))
      && (forall k :: 0 <= k < |moves| ==> Le(Score(g, moves[k]), Score(g, m)))
      && (forall k :: 0 <= k < |moves| && moves[k] < m ==> Lt(Score(g, moves[k]), Score(g, m)))
    decreases |moves|
  {
    if moves != [] {
      AlphaBetaScore(g[moves[0] := Ai], 9, NegInf, PosInf, false);
      var s0 := Score(g, moves[0]);
      var rest := moves[1..];
      if Lt(bestScore, s0) {
        BestMoveFromChoice(g, rest, s0, Some(moves[0]));
        var r := BestMoveFrom(g, rest, s0, Some(moves[0]));
        assert BestMoveFrom(g, moves, bestScore, move) == r;
        var m := r.value;
        assert r != move ==> Lt(bestScore, Score(g, m));
        forall k | 0 <= k < |moves|
          ensures Le(Score(g, moves[k]), Score(g, m))
          ensures moves[k] < m ==> Lt(Score(g, moves[k]), Score(g, m))
        {
          if k > 0 {
            assert moves[k] == rest[k - 1];
          }
        }
      } else {
        BestMoveFromChoice(g, rest, bestScore, move);
        var r := BestMoveFrom(g, rest, bestScore, move);
        assert BestMoveFrom(g, moves, bestScore, move) == r;
        var m := r.value;
        forall k | 0 <= k < |moves|
          ensures Le(Score(g, moves[k]), Score(g, m))
          ensures moves[k] < m ==> Lt(Score(g, moves[k]), Score(g, m))
        {
          if k > 0 {
            assert moves[k] == rest[k - 1];
          }
        }
      }
    }
  }

  /** The true game value of the computer playing `m`: nine-ply minimax, no pruning. */
  function MoveValue(g: Grid, m: Index): ExtInt {
    Minimax(g[m := Ai], 9, false)
  }

  /**
   * `best_move` returns no move exactly on a full board; otherwise it
   * returns a blank cell whose true game value is the largest among the
   * blank cells, and of those the one with the smallest index (a later move
   * replaces the held one only on a strictly larger score).
   */
  lemma BestMoveChoice(g: Grid)
    ensures BestMoveOf(g).None? <==> Full(g)
    ensures BestMoveOf(g).Some? ==>
      var m := BestMoveOf(g).value;
      && g[m] == Empty
      && Score(g, m) == MoveValue(g, m)
      && (forall j: Index :: g[j] == Empty ==> Le(MoveValue(g, j), MoveValue(g, m)))
      && (forall j: Index :: j < m && g[j] == Empty ==> Lt(MoveValue(g, j), MoveValue(g, m)))
  {
    var moves := EmptyCells(g);
    EmptyCellsAreBlanks(g);
    FullIffNoMoves(g);
    BestMoveFromChoice(g, moves, NegInf, None);
    if BestMoveOf(g).Some? {
      var m := BestMoveOf(g).value;
      AlphaBetaIsMinimax(g[m := Ai], 9, false);
      forall j: Index | g[j] == Empty
        ensures Le(MoveValue(g, j), MoveValue(g, m))
        ensures j < m ==> Lt(MoveValue(g, j), MoveValue(g, m))
      {
        assert j in moves;
        var k :| 0 <= k < |moves| && moves[k] == j;
        AlphaBetaIsMinimax(g[j := Ai], 9, false);
      }
    }
  }

  // ---------------------------------------------------------------------------
  // The search on the board object
  // ---------------------------------------------------------------------------

  /**
   * `alpha_beta_search`: explores by placing a mark on the shared board,
   * searching the result and clearing the mark again. It leaves the board as
   * it found it and returns the value the specification `AlphaBeta` gives
   * for that board.
   */
  method AlphaBetaSearch(game: TicTacToe, depth: nat, alpha: ExtInt, beta: ExtInt, maximizing: bool) returns (v: ExtInt)
    requires game.Valid()
    modifies game.board
    ensures game.board[..] == old(game.board[..])
    ensures v == AlphaBeta(old(game.board[..]), depth, alpha, beta, maximizing)
    decreases depth, 3
  {
    if game.IsWinner(game.ai) {
      return Fin(10 - depth);
    }
    if game.IsWinner(game.human) {
      return Fin(depth - 10);
    }
    if game.IsDraw() || depth == 0 {
      return Fin(0);
    }
    if maximizing {
      v := MaxTurns(game, depth, alpha, beta);
    } else {
      v := MinTurns(game, depth, alpha, beta);
    }
  }

  /**
   * The maximizing branch of `alpha_beta_search`: the computer tries each
   * blank cell in turn, raising `alpha` as it goes, and stops once the
   * window closes.
   */
  method MaxTurns(game: TicTacToe, depth: nat, alpha: ExtInt, beta: ExtInt) returns (maxEval: ExtInt)
    requires game.Valid() && depth >= 1
    modifies game.board
    ensures game.board[..] == old(game.board[..])
    ensures maxEval == MaxLoop(old(game.board[..]), depth, alpha, beta, EmptyCells(old(game.board[..])), NegInf)
    decreases depth, 2
  {
    ghost var b: Grid := game.board[..];
    ghost var result := MaxLoop(b, depth, alpha, beta, EmptyCells(b), NegInf);
    var moves := game.AvailableMoves();
    var lo, i := alpha, 0;
    maxEval := NegInf;
    while i < |moves|
      invariant i <= |moves|
      invariant game.board[..] == b
      invariant MaxLoopRemaining(b, depth, lo, beta, moves, i, maxEval, result)
      decreases |moves| - i
    {
      EmptyCellIsBlank(b, i);
      var eval := MaxTurn(game, b, depth, lo, beta, moves, i, maxEval, result);
      maxEval := Max(maxEval, eval);
      lo := Max(lo, eval);
      if Le(beta, lo) {
        return;
      }
      i := i + 1;
    }
  }

  /** One turn of `MaxTurns`: the computer tries the `i`-th blank cell. */
  method MaxTurn(game: TicTacToe, ghost b: Grid, depth: nat, alpha: ExtInt, beta: ExtInt, moves: seq<Index>, i: nat, best: ExtInt, ghost result: ExtInt)
    returns (eval: ExtInt)
    requires game.Valid() && game.board[..] == b && depth >= 1
    requires i < |moves| && b[moves[i]] == Empty
    requires MaxLoopRemaining(b, depth, alpha, beta, moves, i, best, result)
    modifies game.board
    ensures game.board[..] == b
    ensures Le(beta, Max(alpha, eval)) ==> result == Max(best, eval)
    ensures !Le(beta, Max(alpha, eval)) ==> MaxLoopRemaining(b, depth, Max(alpha, eval), beta, moves, i + 1, Max(best, eval), result)
    decreases depth, 1
  {
    eval := TryMove(game, b, moves[i], game.ai, depth - 1, alpha, beta, false);
    MaxTurnStep(b, depth, alpha, beta, moves, i, best, result, game.ai, eval);
  }

  /**
   * The minimizing branch of `alpha_beta_search`: the human's replies, each
   * lowering `beta`, until the window closes.
   */
  method MinTurns(game: TicTacToe, depth: nat, alpha: ExtInt, beta: ExtInt) returns (minEval: ExtInt)
    requires game.Valid() && depth >= 1
    modifies game.board
    ensures game.board[..] == old(game.board[..])
    ensures minEval == MinLoop(old(game.board[..]), depth, alpha, beta, EmptyCells(old(game.board[..])), PosInf)
    decreases depth, 2
  {
    ghost var b: Grid := game.board[..];
    ghost var result := MinLoop(b, depth, alpha, beta, EmptyCells(b), PosInf);
    var moves := game.AvailableMoves();
    var hi, i := beta, 0;
    minEval := PosInf;
    while i < |moves|
      invariant i <= |moves|
      invariant game.board[..] == b
      invariant MinLoopRemaining(b, depth, alpha, hi, moves, i, minEval, result)
      decreases |moves| - i
    {
      EmptyCellIsBlank(b, i);
      var eval := MinTurn(game, b, depth, alpha, hi, moves, i, minEval, result);
      minEval := Min(minEval, eval);
      hi := Min(hi, eval);
      if Le(hi, alpha) {
        return;
      }
      i := i + 1;
    }
  }

  /** One turn of `MinTurns`: the human tries the `i`-th blank cell. */
  method MinTurn(game: TicTacToe, ghost b: Grid, depth: nat, alpha: ExtInt, beta: ExtInt, moves: seq<Index>, i: nat, best: ExtInt, ghost result: ExtInt)
    returns (eval: ExtInt)
    requires game.Valid() && game.board[..] == b && depth >= 1
    requires i < |moves| && b[moves[i]] == Empty
    requires MinLoopRemaining(b, depth, alpha, beta, moves, i, best, result)
    modifies game.board
    ensures game.board[..] == b
    ensures Le(Min(beta, eval), alpha) ==> result == Min(best, eval)
    ensures !Le(Min(beta, eval), alpha) ==> MinLoopRemaining(b, depth, alpha, Min(beta, eval), moves, i + 1, Min(best, eval), result)
    decreases depth, 1
  {
    eval := TryMove(game, b, moves[i], game.human, depth - 1, alpha, beta, true);
    MinTurnStep(b, depth, alpha, beta, moves, i, best, result, game.human, eval);
  }

  /** Places `player` on the blank cell `move`, searches, and clears the cell again. */
  method TryMove(game: TicTacToe, ghost b: Grid, move: Index, player: Cell, depth: nat, alpha: ExtInt, beta: ExtInt, maximizing: bool)
    returns (eval: ExtInt)
    requires game.Valid() && game.board[..] == b && b[move] == Empty
    modifies game.board
    ensures game.board[..] == b
    ensures Evaluated(b, move, player, depth, alpha, beta, maximizing, eval)
    decreases depth + 1, 0
  {
    game.MakeMove(move, player);
    eval := AlphaBetaSearch(game, depth, alpha, beta, maximizing);
    game.UndoMove(move);
    PlaceThenClear(b, move, player);
  }

  /**
   * `best_move`: searches every blank cell for the computer and returns the
   * first one with the highest score, or no move on a full board; the board
   * is left as it was.
   */
  method BestMove(game: TicTacToe) returns (move: Option<Index>)
    requires game.Valid()
    modifies game.board
    ensures game.board[..] == old(game.board[..])
    ensures move == BestMoveOf(old(game.board[..]))
  {
    ghost var b: Grid := game.board[..];
    var bestScore := NegInf;
    move := None;
    var moves := game.AvailableMoves();
    var i := 0;
    while i < |moves|
      invariant i <= |moves|
      invariant game.board[..] == b
      invariant BestMoveOf(b) == BestMoveFrom(b, moves[i..], bestScore, move)
      decreases |moves| - i
    {
      EmptyCellIsBlank(b, i);
      var score := TryMove(game, b, moves[i], game.ai, 9, NegInf, PosInf, false);
      assert game.ai == Ai;
      assert moves[i..][1..] == moves[i + 1..];
      if Lt(bestScore, score) {
        bestScore := score;
        move := Some(moves[i]);
      }
      i := i + 1;
    }
  }
}
