/**
 * Depth-limited minimax with alpha-beta pruning (`minimax`). Scores are
 * from Black's side: a leaf is worth minus the board evaluation. The
 * search plays each legal move on the shared game, recurses with the
 * other player, takes the move back, updates its best score and its
 * window, and stops scanning siblings once beta <= alpha.
 *
 * AlphaBeta/Scan specify what the search computes; MinimaxValue/BestOf
 * are plain minimax over the same move tree, the reference it is proved
 * against; Trace/ScanTrace list the positions the search moves into.
 */
module Search {
  import opened Pieces
  import opened Scores
  import opened Evaluator
  import opened ChessGame

  /** The value of a position at depth 0. */
  function Leaf(rules: Rules, h: History): Score
  {
    Fin(-Evaluate(rules.boardAfter(h)))
  }

  /** The best score a node starts from: -Infinity when maximising. */
  function Initial(isMax: bool): Score
  {
    if isMax then NegInf else PosInf
  }

  /** `Math.max` for the maximising player, `Math.min` for the other. */
  function Pick(isMax: bool, x: Score, y: Score): Score
  {
    if isMax then Max(x, y) else Min(x, y)
  }

  /** A node's window and best score so far. */
  datatype Window = Window(alpha: Score, beta: Score, best: Score)

  /** The updates after one child's score: the best score, and alpha
      (maximising) or beta (minimising). */
  function Update(w: Window, score: Score, isMax: bool): Window
  {
    if isMax then Window(Max(w.alpha, score), w.beta, Max(w.best, score))
    else Window(w.alpha, Min(w.beta, score), Min(w.best, score))
  }

  /** The pruning test `beta <= alpha`. */
  predicate Cutoff(w: Window)
  {
    Le(w.beta, w.alpha)
  }

  /** The score `minimax(depth, game, alpha, beta, isMax)` returns at the
      position reached by history h. */
  function AlphaBeta(rules: Rules, h: History, depth: nat, alpha: Score, beta: Score, isMax: bool): Score
    decreases depth, 1, 0
  {
    if depth == 0 then Leaf(rules, h)
    else Scan(rules, h, depth, rules.legalMoves(h), 0, Window(alpha, beta, Initial(isMax)), isMax)
  }

  /** The move loop from the i-th move on, with window w. */
  function Scan(rules: Rules, h: History, depth: nat, moves: seq<Move>, i: nat, w: Window, isMax: bool): Score
    requires depth > 0 && i <= |moves|
    decreases depth, 0, |moves| - i
  {
    if i == |moves| then w.best
    else
      var w' := Update(w, AlphaBeta(rules, h + [moves[i]], depth - 1, w.alpha, w.beta, !isMax), isMax);
      if Cutoff(w') then w'.best else Scan(rules, h, depth, moves, i + 1, w', isMax)
  }

  /** The positions the search moves into, in the order it plays them. */
  function Trace(rules: Rules, h: History, depth: nat, alpha: Score, beta: Score, isMax: bool): seq<History>
    decreases depth, 1, 0
  {
    if depth == 0 then []
    else ScanTrace(rules, h, depth, rules.legalMoves(h), 0, Window(alpha, beta, Initial(isMax)), isMax)
  }

  function ScanTrace(rules: Rules, h: History, depth: nat, moves: seq<Move>, i: nat, w: Window, isMax: bool): seq<History>
    requires depth > 0 && i <= |moves|
    decreases depth, 0, |moves| - i
  {
    if i == |moves| then []
    else
      var child := h + [moves[i]];
      var w' := Update(w, AlphaBeta(rules, child, depth - 1, w.alpha, w.beta, !isMax), isMax);
      [child] + Trace(rules, child, depth - 1, w.alpha, w.beta, !isMax)
        + (if Cutoff(w') then [] else ScanTrace(rules, h, depth, moves, i + 1, w', isMax))
  }

  /** Plain minimax over the same tree: no window, every move scored. */
  function MinimaxValue(rules: Rules, h: History, depth: nat, isMax: bool): Score
    decreases depth, 1, 0
  {
    if depth == 0 then Leaf(rules, h)
    else BestOf(rules, h, depth, rules.legalMoves(h), isMax)
  }

  function BestOf(rules: Rules, h: History, depth: nat, moves: seq<Move>, isMax: bool): Score
    requires depth > 0
    decreases depth, 0, |moves|
  {
    if moves == [] then Initial(isMax)
    else Pick(isMax, MinimaxValue(rules, h + [moves[0]], depth - 1, !isMax), BestOf(rules, h, depth, moves[1..], isMax))
  }

  /** At depth 0 the search returns minus the evaluation of the board;
      deeper, with no legal move, it returns the initial -Infinity
      (maximising) or +Infinity (minimising). */
  lemma AlphaBetaBaseCases(rules: Rules, h: History, depth: nat, alpha: Score, beta: Score, isMax: bool)
    ensures depth == 0 ==> AlphaBeta(rules, h, depth, alpha, beta, isMax) == Fin(-Evaluate(rules.boardAfter(h)))
    ensures depth > 0 && rules.legalMoves(h) == [] ==>
              AlphaBeta(rules, h, depth, alpha, beta, isMax) == (if isMax then NegInf else PosInf)
  {
  }

  /** One turn of the move loop, unfolded: the score. */
  lemma ScanStep(rules: Rules, h: History, depth: nat, moves: seq<Move>, i: nat, w: Window, isMax: bool)
    requires depth > 0 && i < |moves|
    ensures var w' := Update(w, AlphaBeta(rules, h + [moves[i]], depth - 1, w.alpha, w.beta, !isMax), isMax);
            Scan(rules, h, depth, moves, i, w, isMax)
            == (if Cutoff(w') then w'.best else Scan(rules, h, depth, moves, i + 1, w', isMax))
  {
  }

  /** One turn of the move loop, unfolded: the positions played. */
  lemma ScanTraceStep(rules: Rules, h: History, depth: nat, moves: seq<Move>, i: nat, w: Window, isMax: bool)
    requires depth > 0 && i < |moves|
    ensures var child := h + [moves[i]];
            var w' := Update(w, AlphaBeta(rules, child, depth - 1, w.alpha, w.beta, !isMax), isMax);
            ScanTrace(rules, h, depth, moves, i, w, isMax)
            == [child] + Trace(rules, child, depth - 1, w.alpha, w.beta, !isMax)
               + (if Cutoff(w') then [] else ScanTrace(rules, h, depth, moves, i + 1, w', isMax))
  {
  }

  /** What the move loop of Minimax keeps between two turns: the rest
      of the loop, from the i-th move with window w, completes the node's
      score, and the positions it plays complete the node's positions,
      with `log` those played before the node and `applied` those played
      so far. */
  ghost predicate LoopInvariant(rules: Rules, h: History, depth: nat, alpha: Score, beta: Score, isMax: bool,
                                moves: seq<Move>, i: nat, w: Window, log: seq<History>, applied: seq<History>)
  {
    && depth > 0 && i <= |moves| && moves == rules.legalMoves(h)
    && Scan(rules, h, depth, moves, i, w, isMax) == AlphaBeta(rules, h, depth, alpha, beta, isMax)
    && applied + ScanTrace(rules, h, depth, moves, i, w, isMax) == log + Trace(rules, h, depth, alpha, beta, isMax)
  }

  /** The loop starts with the node's own window and best score. */
  lemma LoopEntry(rules: Rules, h: History, depth: nat, alpha: Score, beta: Score, isMax: bool, log: seq<History>)
    requires depth > 0
    ensures LoopInvariant(rules, h, depth, alpha, beta, isMax, rules.legalMoves(h), 0,
                          Window(alpha, beta, Initial(isMax)), log, log)
  {
  }

  /** Once every move is scanned, the best score is the node's score and
      the node's positions are all played. */
  lemma LoopExit(rules: Rules, h: History, depth: nat, alpha: Score, beta: Score, isMax: bool,
                 moves: seq<Move>, w: Window, log: seq<History>, applied: seq<History>)
    requires LoopInvariant(rules, h, depth, alpha, beta, isMax, moves, |moves|, w, log, applied)
    ensures w.best == AlphaBeta(rules, h, depth, alpha, beta, isMax)
    ensures applied == log + Trace(rules, h, depth, alpha, beta, isMax)
  {
    assert applied + [] == applied;
  }

  /** One turn of the move loop, given the score and the positions of the
      search below the turn's move, the window w' after it, and the log
      before (before) and after (applied) the turn: either the window
      closes and the node is complete, or the loop goes on. */
  lemma LoopTurn(rules: Rules, h: History, depth: nat, alpha: Score, beta: Score, isMax: bool,
                 moves: seq<Move>, i: nat, w: Window, log: seq<History>, before: seq<History>,
                 score: Score, below: seq<History>, w': Window, applied: seq<History>)
    requires LoopInvariant(rules, h, depth, alpha, beta, isMax, moves, i, w, log, before)
    requires i < |moves|
    requires score == AlphaBeta(rules, h + [moves[i]], depth - 1, w.alpha, w.beta, !isMax)
    requires below == Trace(rules, h + [moves[i]], depth - 1, w.alpha, w.beta, !isMax)
    requires w' == Update(w, score, isMax)
    requires applied == before + [h + [moves[i]]] + below
    ensures Le(w'.beta, w'.alpha) ==>
              w'.best == AlphaBeta(rules, h, depth, alpha, beta, isMax)
              && applied == log + Trace(rules, h, depth, alpha, beta, isMax)
    ensures !Le(w'.beta, w'.alpha) ==> LoopInvariant(rules, h, depth, alpha, beta, isMax, moves, i + 1, w', log, applied)
  {
    var rest := if Cutoff(w') then [] else ScanTrace(rules, h, depth, moves, i + 1, w', isMax);
    ScanStep(rules, h, depth, moves, i, w, isMax);
    ScanTraceStep(rules, h, depth, moves, i, w, isMax);
    Regroup(before, h + [moves[i]], below, rest, applied, ScanTrace(rules, h, depth, moves, i, w, isMax));
  }

  /** The log after a turn of the loop, regrouped. */
  lemma Regroup<T>(log: seq<T>, c: T, below: seq<T>, rest: seq<T>, applied: seq<T>, turn: seq<T>)
    requires applied == log + [c] + below
    requires turn == [c] + below + rest
    ensures log + turn == applied + rest
    ensures rest == [] ==> log + turn == applied
  {
  }

  /** `minimax`: plays, searches and takes back each legal move in turn. */
  method Minimax(depth: nat, game: Game, alpha: Score, beta: Score, isMaximizingPlayer: bool)
    returns (bestScore: Score)
    modifies game
    decreases depth, 1
    ensures game.history == old(game.history)
    ensures bestScore == AlphaBeta(game.rules, game.history, depth, alpha, beta, isMaximizingPlayer)
    ensures game.applied == old(game.applied) + Trace(game.rules, game.history, depth, alpha, beta, isMaximizingPlayer)
  {
    if depth == 0 {
      var score := EvaluateBoard(game.CurrentBoard());
      return Fin(-score);
    }
    var possibleMoves := game.Moves();
    bestScore := if isMaximizingPlayer then NegInf else PosInf;
    var a, b := alpha, beta;
    ghost var h, log := game.history, game.applied;
    LoopEntry(game.rules, h, depth, alpha, beta, isMaximizingPlayer, log);
    var i := 0;
    while i < |possibleMoves|
      invariant game.history == h
      invariant LoopInvariant(game.rules, h, depth, alpha, beta, isMaximizingPlayer, possibleMoves, i,
                              Window(a, b, bestScore), log, game.applied)
    {
      ghost var w, before := Window(a, b, bestScore), game.applied;
      var score := SearchBelow(depth, game, possibleMoves[i], a, b, isMaximizingPlayer);
      if isMaximizingPlayer {
        bestScore := Max(bestScore, score);
        a := Max(a, score);
      } else {
        bestScore := Min(bestScore, score);
        b := Min(b, score);
      }
      LoopTurn(game.rules, h, depth, alpha, beta, isMaximizingPlayer, possibleMoves, i, w, log, before,
               score, Trace(game.rules, h + [possibleMoves[i]], depth - 1, w.alpha, w.beta, !isMaximizingPlayer),
               Window(a, b, bestScore), game.applied);
      if Le(b, a) {
        break;
      }
      i := i + 1;
    }
    if i == |possibleMoves| {
      LoopExit(game.rules, h, depth, alpha, beta, isMaximizingPlayer, possibleMoves, Window(a, b, bestScore), log, game.applied);
    }
  }

  /** One turn of the loop of `minimax` up to its score: play the move,
      search the position it leads to with the other player one ply
      shallower, and take the move back. */
  method SearchBelow(depth: nat, game: Game, m: Move, alpha: Score, beta: Score, isMaximizingPlayer: bool)
    returns (score: Score)
    requires depth > 0 && m in game.Moves()
    modifies game
    decreases depth, 0
    ensures game.history == old(game.history)
    ensures score == AlphaBeta(game.rules, game.history + [m], depth - 1, alpha, beta, !isMaximizingPlayer)
    ensures game.applied == old(game.applied) + [game.history + [m]]
                            + Trace(game.rules, game.history + [m], depth - 1, alpha, beta, !isMaximizingPlayer)
  {
    var _ := game.Play(m);
    score := Minimax(depth - 1, game, alpha, beta, !isMaximizingPlayer);
    var _ := game.Undo();
  }
}
