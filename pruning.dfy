/**
 * What alpha-beta pruning preserves. The search is fail-soft: its
 * result r and the plain minimax value v of the same tree satisfy
 *   r <= alpha      ==> v <= r
 *   alpha < r < beta ==> v == r
 *   beta <= r       ==> r <= v
 * so it is exact whenever v lies strictly inside the window, and always
 * exact with the full window (-Infinity, +Infinity) used at the root.
 */
module Pruning {
  import opened Pieces
  import opened Scores
  import opened ChessGame
  import opened Search

  predicate FailSoft(r: Score, v: Score, alpha: Score, beta: Score)
  {
    && (Le(r, alpha) ==> Le(v, r))
    && (Lt(alpha, r) && Lt(r, beta) ==> v == r)
    && (Le(beta, r) ==> Le(r, v))
  }

  /** What holds of a node's window and best score between two turns of
      the move loop, with `prefix` the plain minimax value of the moves
      scanned so far. The original window was (alpha, beta). */
  predicate LoopState(w: Window, isMax: bool, alpha: Score, beta: Score, prefix: Score)
  {
    if isMax then
      && w.beta == beta && w.alpha == Max(alpha, w.best) && Lt(w.best, beta)
      && Le(prefix, w.best) && (Lt(alpha, w.best) ==> prefix == w.best)
    else
      && w.alpha == alpha && w.beta == Min(beta, w.best) && Lt(alpha, w.best)
      && Le(w.best, prefix) && (Lt(w.best, beta) ==> prefix == w.best)
  }

  lemma PickAssoc(isMax: bool, x: Score, y: Score, z: Score)
    ensures Pick(isMax, x, Pick(isMax, y, z)) == Pick(isMax, Pick(isMax, x, y), z)
  {
    LeTotalOrder();
  }

  lemma {:induction false} AlphaBetaFailSoft(rules: Rules, h: History, depth: nat, alpha: Score, beta: Score, isMax: bool)
    requires Lt(alpha, beta)
    ensures FailSoft(AlphaBeta(rules, h, depth, alpha, beta, isMax), MinimaxValue(rules, h, depth, isMax), alpha, beta)
    decreases depth, 1, 0
  {
    LeTotalOrder();
    if depth > 0 {
      var moves := rules.legalMoves(h);
      var init := Initial(isMax);
      ScanFailSoft(rules, h, depth, moves, 0, Window(alpha, beta, init), isMax, alpha, beta, init);
      assert moves[0..] == moves;
      assert Pick(isMax, init, BestOf(rules, h, depth, moves, isMax)) == BestOf(rules, h, depth, moves, isMax);
    }
  }

  lemma {:induction false} ScanFailSoft(rules: Rules, h: History, depth: nat, moves: seq<Move>, i: nat,
                                        w: Window, isMax: bool, alpha: Score, beta: Score, prefix: Score)
    requires depth > 0 && i <= |moves|
    requires Lt(alpha, beta)
    requires LoopState(w, isMax, alpha, beta, prefix)
    ensures FailSoft(Scan(rules, h, depth, moves, i, w, isMax),
                     Pick(isMax, prefix, BestOf(rules, h, depth, moves[i..], isMax)), alpha, beta)
    decreases depth, 0, |moves| - i
  {
    LeTotalOrder();
    if i == |moves| {
      assert moves[i..] == [];
    } else {
      var child := h + [moves[i]];
      var s := AlphaBeta(rules, child, depth - 1, w.alpha, w.beta, !isMax);
      var v := MinimaxValue(rules, child, depth - 1, !isMax);
      var w' := Update(w, s, isMax);
      var rest := BestOf(rules, h, depth, moves[i + 1..], isMax);
      assert moves[i..][0] == moves[i] && moves[i..][1..] == moves[i + 1..];
      assert BestOf(rules, h, depth, moves[i..], isMax) == Pick(isMax, v, rest);
      PickAssoc(isMax, prefix, v, rest);
      AlphaBetaFailSoft(rules, child, depth - 1, w.alpha, w.beta, !isMax);
      if Cutoff(w') {
        assert Scan(rules, h, depth, moves, i, w, isMax) == w'.best;
        ChildCutoff(s, v, w, isMax, alpha, beta, prefix, rest);
      } else {
        ChildContinue(s, v, w, isMax, alpha, beta, prefix);
        ScanFailSoft(rules, h, depth, moves, i + 1, w', isMax, alpha, beta, Pick(isMax, prefix, v));
      }
    }
  }

  /** A child whose score ends the loop: the node's result is that score
      and it bounds the node's minimax value. */
  lemma ChildCutoff(s: Score, v: Score, w: Window, isMax: bool, alpha: Score, beta: Score, prefix: Score, rest: Score)
    requires Lt(alpha, beta) && Lt(w.alpha, w.beta)
    requires LoopState(w, isMax, alpha, beta, prefix)
    requires FailSoft(s, v, w.alpha, w.beta)
    requires Cutoff(Update(w, s, isMax))
    ensures FailSoft(Update(w, s, isMax).best, Pick(isMax, Pick(isMax, prefix, v), rest), alpha, beta)
  {
    LeTotalOrder();
  }

  /** A child whose score lets the loop go on: the loop state is kept with
      the child's minimax value added to the prefix. */
  lemma ChildContinue(s: Score, v: Score, w: Window, isMax: bool, alpha: Score, beta: Score, prefix: Score)
    requires Lt(alpha, beta) && Lt(w.alpha, w.beta)
    requires LoopState(w, isMax, alpha, beta, prefix)
    requires FailSoft(s, v, w.alpha, w.beta)
    requires !Cutoff(Update(w, s, isMax))
    ensures LoopState(Update(w, s, isMax), isMax, alpha, beta, Pick(isMax, prefix, v))
  {
    LeTotalOrder();
  }

  /** Pruning never changes a value that lies strictly inside the window. */
  lemma AlphaBetaExactInsideWindow(rules: Rules, h: History, depth: nat, alpha: Score, beta: Score, isMax: bool)
    requires Lt(alpha, MinimaxValue(rules, h, depth, isMax)) && Lt(MinimaxValue(rules, h, depth, isMax), beta)
    ensures AlphaBeta(rules, h, depth, alpha, beta, isMax) == MinimaxValue(rules, h, depth, isMax)
  {
    LeTotalOrder();
    AlphaBetaFailSoft(rules, h, depth, alpha, beta, isMax);
  }

  /** With the full window the search returns the plain minimax value. */
  lemma AlphaBetaFullWindow(rules: Rules, h: History, depth: nat, isMax: bool)
    ensures AlphaBeta(rules, h, depth, NegInf, PosInf, isMax) == MinimaxValue(rules, h, depth, isMax)
  {
    LeTotalOrder();
    AlphaBetaFailSoft(rules, h, depth, NegInf, PosInf, isMax);
  }
}
