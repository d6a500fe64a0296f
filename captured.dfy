/**
 * The captured-pieces record (`capturedPieces`, `updateCapturedPieces`):
 * two lists named for the colour of the pieces they hold. A capture by
 * White is appended to `black`, a capture by Black to `white`.
 */
module Captured {
  import opened Pieces

  /** The piece types taken by the mover's side in the given moves, in order. */
  function TakenBy(moves: seq<Move>, mover: Color): (r: seq<PieceType>)
    ensures |r| <= |moves|
  {
    if moves == [] then []
    else
      var last := moves[|moves| - 1];
      var earlier := TakenBy(moves[..|moves| - 1], mover);
      if last.captured.Some? && last.color == mover then earlier + [last.captured.value] else earlier
  }

  /** The number of capturing moves among the given moves. */
  function Captures(moves: seq<Move>): nat
  {
    if moves == [] then 0
    else Captures(moves[..|moves| - 1]) + (if moves[|moves| - 1].captured.Some? then 1 else 0)
  }

  /** Every capture is taken by exactly one side, so the two lists
      together hold one entry per capture. */
  lemma {:induction false} TakenByBothSides(moves: seq<Move>)
    ensures |TakenBy(moves, White)| + |TakenBy(moves, Black)| == Captures(moves)
  {
    if moves != [] {
      TakenByBothSides(moves[..|moves| - 1]);
    }
  }

  class CapturedPieces {
    /** White pieces taken (by Black). */
    var white: seq<PieceType>
    /** Black pieces taken (by White). */
    var black: seq<PieceType>
    /** The moves recorded so far, for the specification only. */
    ghost var recorded: seq<Move>

    /** Each list holds the captures of the other side, in order. */
    ghost predicate Valid()
      reads this
    {
      white == TakenBy(recorded, Black) && black == TakenBy(recorded, White)
    }

    constructor ()
      ensures Valid() && white == [] && black == [] && recorded == []
    {
      white, black, recorded := [], [], [];
    }

    /** `updateCapturedPieces(move)`. */
    method UpdateCapturedPieces(move: Move)
      requires Valid()
      modifies this
      ensures Valid() && recorded == old(recorded) + [move]
      ensures move.captured.None? ==> white == old(white) && black == old(black)
      ensures move.captured.Some? && move.color == White ==>
                black == old(black) + [move.captured.value] && white == old(white)
      ensures move.captured.Some? && move.color == Black ==>
                white == old(white) + [move.captured.value] && black == old(black)
    {
      recorded := recorded + [move];
      assert recorded[..|recorded| - 1] == old(recorded);
      if move.captured.Some? {
        if move.color == White {
          black := black + [move.captured.value];
        } else {
          white := white + [move.captured.value];
        }
      }
    }
  }
}
