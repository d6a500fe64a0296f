/**
 * Pieces, squares, boards and moves as the rules engine (chess.js) hands
 * them to the AI: `game.board()` is an 8x8 grid indexed [row][column]
 * whose cells are null or a piece {type, color}, and a move reports its
 * mover's colour and the type of the piece it captured, if any.
 */
module Pieces {

  datatype Color = White | Black

  datatype PieceType = Pawn | Knight | Bishop | Rook | Queen | King

  datatype Piece = Piece(kind: PieceType, color: Color)

  /** A board cell: `null` in the source, or a piece. */
  datatype Square = Empty | Occupied(piece: Piece)

  predicate IsGrid(b: seq<seq<Square>>)
  {
    |b| == 8 && forall i :: 0 <= i < 8 ==> |b[i]| == 8
  }

  /** The grid returned by `game.board()`: 8 rows of 8 cells. */
  type Board = b: seq<seq<Square>> | IsGrid(b)
    witness seq(8, i => seq(8, j => Empty))

  function EmptyBoard(): (b: Board)
    ensures forall i, j :: 0 <= i < 8 && 0 <= j < 8 ==> b[i][j] == Empty
  {
    seq(8, i => seq(8, j => Empty))
  }

  function Opponent(c: Color): (o: Color)
    ensures o != c
  {
    if c == White then Black else White
  }

  /** The same cell with the piece (if any) handed to the other side. */
  function SwapColor(sq: Square): (r: Square)
    ensures r.Empty? <==> sq.Empty?
    ensures r.Occupied? ==> r.piece.kind == sq.piece.kind && r.piece.color != sq.piece.color
  {
    match sq
    case Empty => Empty
    case Occupied(p) => Occupied(Piece(p.kind, Opponent(p.color)))
  }

  /** A move as chess.js reports it once played: squares in algebraic
      notation, the mover's colour, the captured piece type if any. */
  datatype Move = Move(from: string, to: string, color: Color,
                       captured: Option<PieceType>, promotion: Option<PieceType>)

  /** A field a move may lack (`move.captured`, `move.promotion`). */
  datatype Option<T> = None | Some(value: T)
}
