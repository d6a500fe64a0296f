/**
 * The part of the rules engine (chess.js) that the AI relies on, as a
 * contract: the legal moves and the board are functions of the moves
 * played so far; `game.move` pushes a legal move onto that history and
 * `game.undo` pops the last one.
 */
module ChessGame {
  import opened Pieces

  /** The moves played so far, oldest first. */
  type History = seq<Move>

  /** The rules: the legal moves for the side to move, and the board,
      after a given history. Move legality itself is not modelled. */
  datatype Rules = Rules(legalMoves: History -> seq<Move>, boardAfter: History -> Board)

  /** A game in progress (the shared `game` object). */
  class Game {
    const rules: Rules
    var history: History
    /** Every history the game has been moved into, in order (a record
        of `game.move` calls kept for the specification only). */
    ghost var applied: seq<History>

    constructor (rules: Rules, history: History)
      ensures this.rules == rules && this.history == history && applied == []
    {
      this.rules := rules;
      this.history := history;
      applied := [];
    }

    /** `game.moves()`. */
    function Moves(): seq<Move>
      reads this
    {
      rules.legalMoves(history)
    }

    /** `game.board()`. */
    function CurrentBoard(): Board
      reads this
    {
      rules.boardAfter(history)
    }

    /** `game.move(m)`: a legal move is played, anything else is refused
        and leaves the game as it was. */
    method Play(m: Move) returns (played: bool)
      modifies this
      ensures played <==> m in old(Moves())
      ensures history == if played then old(history) + [m] else old(history)
      ensures applied == if played then old(applied) + [history] else old(applied)
    {
      played := m in Moves();
      if played {
        history := history + [m];
        applied := applied + [history];
      }
    }

    /** `game.undo()`: takes back the last move played, if there is one. */
    method Undo() returns (undone: Option<Move>)
      modifies this
      ensures old(history) == [] ==> history == [] && undone == None
      ensures old(history) != [] ==>
                && history == old(history)[..|old(history)| - 1]
                && undone == Some(old(history)[|old(history)| - 1])
      ensures applied == old(applied)
    {
      if history == [] {
        undone := None;
      } else {
        undone := Some(history[|history| - 1]);
        history := history[..|history| - 1];
      }
    }
  }
}
