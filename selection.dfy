/**
 * Root move selection (the loop of `makeAIMove`): every legal move is
 * played, scored by a full-window search of the opponent's minimising
 * reply at depth DepthLimit - 1, and taken back; the first move with the
 * greatest score is kept (ties go to the earliest). The best score starts
 * at -Infinity, so a move scoring -Infinity is never kept.
 */
module Selection {
  import opened Pieces
  import opened Scores
  import opened ChessGame
  import opened Search
  import opened Pruning

  /** `depthLimit`: plies searched from the root. */
  const DepthLimit: nat := 3

  /** The score the root loop gives move m at history h. */
  function RootScore(rules: Rules, h: History, m: Move): Score
  {
    AlphaBeta(rules, h + [m], DepthLimit - 1, NegInf, PosInf, false)
  }

  function RootScores(rules: Rules, h: History, moves: seq<Move>): (s: seq<Score>)
    ensures |s| == |moves|
    ensures forall k :: 0 <= k < |moves| ==> s[k] == RootScore(rules, h, moves[k])
  {
    seq(|moves|, k requires 0 <= k < |moves| => RootScore(rules, h, moves[k]))
  }

  /** The root loop from the i-th score on: the index of the move kept. */
  function Choose(scores: seq<Score>, i: nat, best: Option<nat>, bestScore: Score): (r: Option<nat>)
    requires i <= |scores|
    requires best.Some? ==> best.value < i
    ensures r.Some? ==> r.value < |scores|
    decreases |scores| - i
  {
    if i == |scores| then best
    else if Lt(bestScore, scores[i]) then Choose(scores, i + 1, Some(i), scores[i])
    else Choose(scores, i + 1, best, bestScore)
  }

  /** The index the root loop keeps, starting from no move and -Infinity. */
  function FirstBest(scores: seq<Score>): (r: Option<nat>)
    ensures r.Some? ==> r.value < |scores|
  {
    Choose(scores, 0, None, NegInf)
  }

  /** The move the root loop keeps at history h, if any. */
  function ChosenMove(rules: Rules, h: History): Option<Move>
  {
    var moves := rules.legalMoves(h);
    match FirstBest(RootScores(rules, h, moves))
    case None => None
    case Some(k) => Some(moves[k])
  }

  /** best is the first index among the first n scores whose score is
      strictly greater than all before it and at least all the others,
      and is absent exactly when all n scores are -Infinity. */
  predicate FirstStrictMax(scores: seq<Score>, n: nat, best: Option<nat>)
    requires n <= |scores|
  {
    match best
    case None => forall j :: 0 <= j < n ==> scores[j] == NegInf
    case Some(k) =>
      && k < n && scores[k] != NegInf
      && (forall j :: 0 <= j < k ==> Lt(scores[j], scores[k]))
      && (forall j :: 0 <= j < n ==> Le(scores[j], scores[k]))
  }

  /** What the root loop keeps between two turns, after i scores. */
  predicate Kept(scores: seq<Score>, i: nat, best: Option<nat>, bestScore: Score)
    requires i <= |scores|
  {
    && FirstStrictMax(scores, i, best)
    && bestScore == (if best.None? then NegInf else scores[best.value])
  }

  lemma {:induction false} ChooseKeeps(scores: seq<Score>, i: nat, best: Option<nat>, bestScore: Score)
    requires i <= |scores| && Kept(scores, i, best, bestScore)
    ensures FirstStrictMax(scores, |scores|, Choose(scores, i, best, bestScore))
    decreases |scores| - i
  {
    LeTotalOrder();
    if i < |scores| {
      if Lt(bestScore, scores[i]) {
        ChooseKeeps(scores, i + 1, Some(i), scores[i]);
      } else {
        ChooseKeeps(scores, i + 1, best, bestScore);
      }
    }
  }

  /** The root loop keeps the first move with the greatest score; it keeps
      none exactly when every score is -Infinity (in particular when there
      is no legal move). */
  lemma FirstBestIsFirstStrictMax(scores: seq<Score>)
    ensures FirstStrictMax(scores, |scores|, FirstBest(scores))
  {
    ChooseKeeps(scores, 0, None, NegInf);
  }

  /** A root move's score is the plain minimax value of the position it
      leads to, with the opponent to move and minimising. */
  lemma RootScoreIsMinimax(rules: Rules, h: History, m: Move)
    ensures RootScore(rules, h, m) == MinimaxValue(rules, h + [m], DepthLimit - 1, false)
  {
    AlphaBetaFullWindow(rules, h + [m], DepthLimit - 1, false);
  }

  /** The chosen move, stated with the unpruned minimax values of the
      positions the root moves lead to. */
  lemma ChosenMoveSpec(rules: Rules, h: History)
    ensures var moves := rules.legalMoves(h);
            ChosenMove(rules, h).None? <==>
              forall k :: 0 <= k < |moves| ==> MinimaxValue(rules, h + [moves[k]], DepthLimit - 1, false) == NegInf
    ensures var moves := rules.legalMoves(h);
            ChosenMove(rules, h).Some? ==>
              exists k :: 0 <= k < |moves| && ChosenMove(rules, h) == Some(moves[k])
                && (forall j :: 0 <= j < k ==>
                      Lt(MinimaxValue(rules, h + [moves[j]], DepthLimit - 1, false),
                         MinimaxValue(rules, h + [moves[k]], DepthLimit - 1, false)))
                && (forall j :: 0 <= j < |moves| ==>
                      Le(MinimaxValue(rules, h + [moves[j]], DepthLimit - 1, false),
                         MinimaxValue(rules, h + [moves[k]], DepthLimit - 1, false)))
  {
    var moves := rules.legalMoves(h);
    var scores := RootScores(rules, h, moves);
    FirstBestIsFirstStrictMax(scores);
    forall k | 0 <= k < |moves|
      ensures scores[k] == MinimaxValue(rules, h + [moves[k]], DepthLimit - 1, false)
    {
      RootScoreIsMinimax(rules, h, moves[k]);
    }
    match FirstBest(scores)
    case None =>
    case Some(k) =>
      assert ChosenMove(rules, h) == Some(moves[k]);
  }

  /** If every root move lets the opponent reach a position where the
      engine's side has no legal move, every root score is -Infinity and
      no move is kept, although a legal move exists. */
  lemma NoMoveKeptWhenEveryMoveLoses(m: Move)
    ensures var rules := Rules(h => if |h| < 2 then [m] else [], h => EmptyBoard());
            rules.legalMoves([]) == [m] && ChosenMove(rules, []) == None
  {
    var rules := Rules(h => if |h| < 2 then [m] else [], h => EmptyBoard());
    assert MinimaxValue(rules, [m, m], 1, true) == NegInf by {
      assert rules.legalMoves([m, m]) == [];
    }
    assert MinimaxValue(rules, [m], 2, false) == NegInf by {
      assert rules.legalMoves([m]) == [m];
      assert [m] + [m] == [m, m];
      assert BestOf(rules, [m], 2, [m][1..], false) == PosInf;
    }
    ChosenMoveSpec(rules, []);
    assert [] + [m] == [m];
  }

  /** The root loop of `makeAIMove`, up to the point where the kept move
      is played. */
  method SelectMove(game: Game) returns (bestMove: Option<Move>)
    modifies game
    ensures game.history == old(game.history)
    ensures bestMove == ChosenMove(game.rules, game.history)
  {
    bestMove := None;
    var bestScore := NegInf;
    var possibleMoves := game.Moves();
    ghost var h := game.history;
    ghost var scores := RootScores(game.rules, h, possibleMoves);
    ghost var bestIndex: Option<nat> := None;
    for i := 0 to |possibleMoves|
      invariant game.history == h && possibleMoves == game.Moves()
      invariant bestIndex.Some? ==> bestIndex.value < i
      invariant Choose(scores, i, bestIndex, bestScore) == FirstBest(scores)
      invariant bestMove == if bestIndex.None? then None else Some(possibleMoves[bestIndex.value])
    {
      var _ := game.Play(possibleMoves[i]);
      var score := Minimax(DepthLimit - 1, game, NegInf, PosInf, false);
      var _ := game.Undo();
      if Lt(bestScore, score) {
        bestScore := score;
        bestMove := Some(possibleMoves[i]);
        bestIndex := Some(i);
      }
    }
  }
}
