# Chess AI of module-2-chess-project-belen, modelled in Dafny

This project models the computer player of a browser chess game (`index.js`). The model covers four parts:

- **The evaluator.** This covers `weights`, `pst_w`, `pst_b`, `evaluateBoard`, `getPieceValue` and `getAbsoluteValue`.
  - A piece is worth its type weight plus a piece-square table entry.
  - White pieces count positively and Black pieces negatively.
  - Black's tables are White's tables with the row order reversed.
- **The search.** This is `minimax`: depth-limited minimax with alpha-beta pruning.
  - It plays each legal move on the shared game and recurses for the other player.
  - It then takes the move back and updates its best score and its window.
  - It stops scanning once `beta <= alpha`.
  - A leaf is worth minus the evaluation, so scores are from Black's side.
- **The root loop of `makeAIMove`.** Every legal move is scored by a full-window search of depth `depthLimit - 1` with the opponent minimising. The first move with the greatest score is kept (ties go to the earliest), and a move scoring -Infinity is never kept.
- **The captured-pieces record.** This is `capturedPieces` with `updateCapturedPieces`.

The rules engine (chess.js) is not modelled. It appears only as a contract.

- `ChessGame.Rules` gives the legal moves and the board as functions of the moves played so far.
- `ChessGame.Game` is the shared game object.
  - `Play` (`game.move`) pushes a legal move onto the history and refuses any other move.
  - `Undo` (`game.undo`) pops the last move.
  - A ghost log, `applied`, records every position the game is moved into.

`Search.Minimax` is proved against the functions `Search.AlphaBeta` and `Search.Scan`. These follow the loop turn by turn. `Search.Trace` lists the positions the loop plays.

Separately, `Search.MinimaxValue` is plain minimax over the same move tree, and `Pruning` proves that the search is fail-soft with respect to it:

- if the result r is at most alpha, the true value is at most r;
- if r is strictly inside the window, r is the true value;
- if r is at least beta, the true value is at least r.

It follows that the root's full-window searches return exact minimax values. `Selection.ChosenMoveSpec` therefore states which move the AI picks purely in terms of minimax values.

The model follows the code where it differs from the general description of such an engine:

- **No terminal test inside the search.**
  - A position at depth > 0 with no legal move is worth the initial best score: -Infinity when maximising, +Infinity when minimising.
  - It is not evaluated.
  - A draw by stalemate therefore counts as a loss or a win.
- **No extra evaluation terms.** There is no move ordering, no mobility term and no capture bonus.
- **The tables are indexed `[y][x]`.** `evaluateBoard` passes the row as `x` and the column as `y`. This has two consequences:
  - A table's row is selected by the board's file.
  - Reversing the rows for Black mirrors the files, not the ranks.

  The colour symmetry that actually holds is therefore "swap colours and mirror files negates the score" (`Evaluator.EvaluateColorSymmetry`). Swapping colours and mirroring ranks does not: a White pawn on row 6, column 3 is worth 10.5, while a Black pawn on the rank-mirrored square, row 1, column 3, is worth -10 (`Evaluator.RankMirrorBreaksSymmetry`).
- **No move is kept when every root score is -Infinity.** The root keeps a move only when its score is strictly greater than the best so far, which starts at -Infinity. So when every root move scores -Infinity, no move is kept and the AI does not move, even though a legal move exists (`Selection.NoMoveKeptWhenEveryMoveLoses`).

Scores are `Scores.Score`: `NegInf`, `Fin(real)` or `PosInf`. Board values are exact `real`s. Every table entry and weight is a multiple of 0.5, so the double-precision sums of the source are exact as well.

## Model

| member | source | states |
|---|---|---|
| Evaluator.Weight | index.js:26-33 | Each piece weight lies between 10 and 900, and only the king weighs 900. |
| Evaluator.WhiteTableWithinFive | index.js:41-102 | Every entry of every White piece-square table lies between -5 and 5. |
| Evaluator.Reverse | index.js:105-112 | `slice().reverse()` keeps the length and puts element n-1-k at position k. |
| Evaluator.BlackTableMirrorsWhite | index.js:105-112 | Each Black table is 8x8. Its row r is the White table's row 7-r, and its entries lie between -5 and 5. |
| Evaluator.AbsoluteValue | index.js:147-152 | A piece's absolute value is within 5 of its type weight, for either table. |
| Evaluator.PieceValue | index.js:136-144 | An empty square is worth 0. A White piece is worth between 5 and 905. A Black piece is worth between -905 and -5. |
| Evaluator.PieceValueLookup | index.js:136-152 | A White piece is worth weight + pst_w[type][y][x]. A Black piece is worth -(weight + pst_w[type][7-y][x]), the lookup in the reversed table. |
| Evaluator.EvaluateBoard | index.js:121-133 | The double loop over rows and columns returns the sum of the 64 square values (`Evaluate`). |
| Evaluator.EvaluateBounded | index.js:121-152 | Every board's score lies between -57920 and 57920, that is 64 times 905. |
| Evaluator.EmptyBoardScoresZero | index.js:121-140 | A board with no pieces scores 0. |
| Evaluator.MirrorFiles | index.js:121-133 | The mirrored board holds, at square (i, j), the colour-swapped piece from square (i, 7-j). |
| Evaluator.PieceValueMirror | index.js:136-152 | Swapping a piece's colour and moving it from column y to column 7-y negates its value. |
| Evaluator.EvaluateColorSymmetry | index.js:105-152 | Swapping all colours and mirroring the files negates the board's score. |
| Evaluator.RankMirrorBreaksSymmetry | index.js:105-152 | Swapping colours and mirroring ranks does not negate values: a White pawn at row 6, column 3 is worth 10.5, a Black pawn at row 1, column 3 is worth -10. |
| Scores.Max | index.js:172-173 | `Math.max` is at least both arguments and equals one of them, with -Infinity and +Infinity ordered as in JavaScript. |
| Scores.Min | index.js:176-177 | `Math.min` is at most both arguments and equals one of them. |
| ChessGame.Game.Play | index.js:166 | `game.move` plays exactly the legal moves. A legal move is pushed onto the history and logged. An illegal move changes nothing. |
| ChessGame.Game.Undo | index.js:168 | `game.undo` removes and returns the last move. On an empty history it changes nothing. The log is unchanged. |
| Search.Minimax | index.js:155-186 | On return the game is back at the history it started from. The score equals `AlphaBeta`, the move-by-move reading of the loop. The positions it played, in order, are exactly `Trace`. |
| Search.SearchBelow | index.js:166-168 | One turn of the loop plays the move, searches the position it leads to with the other player one ply shallower and the current window, and takes the move back. The history is restored, the score is `AlphaBeta` of that position, and the log grows by that position followed by its `Trace`. |
| Search.AlphaBetaBaseCases | index.js:157-162 | At depth 0 the search returns minus the evaluation of the board. Deeper, with no legal moves, it returns -Infinity when maximising and +Infinity when minimising. |
| Pruning.AlphaBetaFailSoft | index.js:155-186 | Whenever alpha < beta, the pruned score is fail-soft with respect to the plain minimax value of the same tree. |
| Pruning.ScanFailSoft | index.js:164-183 | From any loop state that the first i turns can reach, the rest of the loop returns a fail-soft bound on the minimax value of the moves scanned and the moves left. |
| Pruning.ChildCutoff | index.js:170-182 | When a child's score closes the window, the best score returned is a fail-soft bound for the whole node. |
| Pruning.ChildContinue | index.js:170-182 | When a child's score leaves the window open, the loop's invariant is kept with that child's minimax value included. |
| Pruning.AlphaBetaExactInsideWindow | index.js:155-186 | If the minimax value lies strictly between alpha and beta, the search returns exactly that value. |
| Pruning.AlphaBetaFullWindow | index.js:155-186 | With the window (-Infinity, +Infinity) the search returns the plain minimax value. |
| Exploration.SearchPlaysLegalLines | index.js:161-168 | Every position the search moves into extends the starting history by 1 to `depth` moves, and each of those moves is legal where it is played. |
| Exploration.CutoffSkipsSiblings | index.js:180-182 | Once the i-th move closes the window, the loop returns the updated best score. Every position played from then on lies under the i-th move, so no later sibling is searched. |
| Selection.FirstBestIsFirstStrictMax | index.js:190-208 | The kept index is the first one whose score is at least every score and greater than every earlier score. No index is kept exactly when every score is -Infinity. |
| Selection.ChooseKeeps | index.js:194-208 | From any state of the loop the first i turns can leave, the rest of the loop ends with the first strict maximum. |
| Selection.RootScoreIsMinimax | index.js:199 | A root move's score is the plain minimax value, at depth `depthLimit - 1`, of the position it leads to, with the opponent minimising. |
| Selection.ChosenMoveSpec | index.js:189-208 | There are two cases. (1) No move is chosen exactly when every legal move's minimax value is -Infinity. (2) Otherwise the chosen move is the first legal move whose minimax value is maximal. |
| Selection.NoMoveKeptWhenEveryMoveLoses | index.js:190-211 | With one legal move, whose only reply by the opponent leaves the engine's side without a legal move, every root score is -Infinity and no move is chosen, although a legal move exists. |
| Selection.SelectMove | index.js:189-208 | The root loop leaves the game's history as it found it and returns `ChosenMove`. |
| Captured.TakenByBothSides | index.js:241-246 | The two lists together hold one entry per capturing move. |
| Captured.CapturedPieces.constructor | index.js:14-17 | Both lists start empty. |
| Captured.CapturedPieces.UpdateCapturedPieces | index.js:241-246 | The lists are kept as the captures of the other side in order. A White capture is appended to `black` and a Black capture to `white`. A move without a capture changes neither list. |

## Left out

- The user interface is not modelled: the board widget, jQuery status and FEN/PGN display, square highlighting, drag-and-drop handlers, `updateCapturedDisplay` and `updateStatus`. These are I/O with no bearing on the AI's choice.
- `onSnapEnd` is defined twice in index.js (lines 323 and 328). It is UI code and is not modelled.
- `resetGame` is not modelled. Its effect on the record is the `Captured.CapturedPieces` constructor.
- The rules engine (chess.js) is not part of this model.
  - Legal-move generation, SAN move strings and FEN are left out.
  - `game.moves()`, `game.board()`, `game.move()` and `game.undo()` are represented by the `Rules` contract and the `Game` methods.
  - `Move` keeps its squares and promotion for identity, and the mover's colour and captured type that `updateCapturedPieces` reads. chess.js's `flags`, `piece` and `san` are left out.
  - `game.moves()` yields these records instead of SAN strings, and `game.move` takes a record instead of parsing one back.
- The `window.setTimeout` delay before `makeAIMove` is not modelled. It is a timer.
- Playing the kept move at the end of `makeAIMove` (index.js:211-216) is not modelled, nor is the board refresh that follows. The model stops at the kept move (`Selection.SelectMove`). Recording its capture is `Captured.CapturedPieces.UpdateCapturedPieces`.
- The model does not use floating point. Board values are exact reals, which agree with the source's doubles because every value involved is a multiple of 0.5 well within range.
- Search.Minimax: `depth` is a natural number. A negative depth, on which the source would never reach its base case, is not modelled.
- Selection.SelectMove: the depth limit is the constant 3, as in the source. Other depth limits are not modelled.
