/**
 * The static board evaluator: material weights, piece-square tables and
 * the 64-square sum. Positive scores favour White, negative ones Black.
 *
 * The tables are looked up as `table[kind][y][x]` with x the board row
 * and y the board column, exactly as the engine calls them; the outer
 * index of a table therefore runs over columns.
 */
module Evaluator {
  import opened Pieces

  /** Material weight of each piece type. */
  function Weight(k: PieceType): (w: real)
    ensures 10.0 <= w <= 900.0
    ensures k == King <==> w == 900.0
  {
    match k
    case Pawn => 10.0
    case Knight => 30.0
    case Bishop => 30.0
    case Rook => 50.0
    case Queen => 90.0
    case King => 900.0
  }

  predicate IsTable(t: seq<seq<real>>)
  {
    |t| == 8 && forall r :: 0 <= r < 8 ==> |t[r]| == 8
  }

  /** Every entry of an 8x8 table lies in [lo, hi]. */
  predicate Within(t: seq<seq<real>>, lo: real, hi: real)
    requires IsTable(t)
  {
    forall r, c :: 0 <= r < 8 && 0 <= c < 8 ==> lo <= t[r][c] <= hi
  }

  predicate RowWithin(row: seq<real>, lo: real, hi: real)
    requires |row| == 8
  {
    && lo <= row[0] <= hi && lo <= row[1] <= hi && lo <= row[2] <= hi && lo <= row[3] <= hi
    && lo <= row[4] <= hi && lo <= row[5] <= hi && lo <= row[6] <= hi && lo <= row[7] <= hi
  }

  lemma RowWithinAll(row: seq<real>, lo: real, hi: real)
    requires |row| == 8 && RowWithin(row, lo, hi)
    ensures forall c :: 0 <= c < 8 ==> lo <= row[c] <= hi
  {
    forall c | 0 <= c < 8
      ensures lo <= row[c] <= hi
    {
      assert c == 0 || c == 1 || c == 2 || c == 3 || c == 4 || c == 5 || c == 6 || c == 7;
    }
  }

  function PawnTable(): (t: seq<seq<real>>)
    ensures IsTable(t)
  {
    [
      [0.0, 0.0, 0.0, 0.0, 0.0, 0.0, 0.0, 0.0],
      [5.0, 5.0, 5.0, 5.0, 5.0, 5.0, 5.0, 5.0],
      [1.0, 1.0, 2.0, 3.0, 3.0, 2.0, 1.0, 1.0],
      [0.5, 0.5, 1.0, 2.5, 2.5, 1.0, 0.5, 0.5],
      [0.0, 0.0, 0.0, 2.0, 2.0, 0.0, 0.0, 0.0],
      [0.5, -0.5, -1.0, 0.0, 0.0, -1.0, -0.5, 0.5],
      [0.5, 1.0, 1.0, -2.0, -2.0, 1.0, 1.0, 0.5],
      [0.0, 0.0, 0.0, 0.0, 0.0, 0.0, 0.0, 0.0]]
  }

  function KnightTable(): (t: seq<seq<real>>)
    ensures IsTable(t)
  {
    [
      [-5.0, -4.0, -3.0, -3.0, -3.0, -3.0, -4.0, -5.0],
      [-4.0, -2.0, 0.0, 0.0, 0.0, 0.0, -2.0, -4.0],
      [-3.0, 0.0, 1.0, 1.5, 1.5, 1.0, 0.0, -3.0],
      [-3.0, 0.5, 1.5, 2.0, 2.0, 1.5, 0.5, -3.0],
      [-3.0, 0.0, 1.5, 2.0, 2.0, 1.5, 0.0, -3.0],
      [-3.0, 0.5, 1.0, 1.5, 1.5, 1.0, 0.5, -3.0],
      [-4.0, -2.0, 0.0, 0.5, 0.5, 0.0, -2.0, -4.0],
      [-5.0, -4.0, -3.0, -3.0, -3.0, -3.0, -4.0, -5.0]]
  }

  function BishopTable(): (t: seq<seq<real>>)
    ensures IsTable(t)
  {
    [
      [-2.0, -1.0, -1.0, -1.0, -1.0, -1.0, -1.0, -2.0],
      [-1.0, 0.0, 0.0, 0.0, 0.0, 0.0, 0.0, -1.0],
      [-1.0, 0.0, 0.5, 1.0, 1.0, 0.5, 0.0, -1.0],
      [-1.0, 0.5, 0.5, 1.0, 1.0, 0.5, 0.5, -1.0],
      [-1.0, 0.0, 1.0, 1.0, 1.0, 1.0, 0.0, -1.0],
      [-1.0, 1.0, 1.0, 1.0, 1.0, 1.0, 1.0, -1.0],
      [-1.0, 0.5, 0.0, 0.0, 0.0, 0.0, 0.5, -1.0],
      [-2.0, -1.0, -1.0, -1.0, -1.0, -1.0, -1.0, -2.0]]
  }

  function RookTable(): (t: seq<seq<real>>)
    ensures IsTable(t)
  {
    [
      [0.0, 0.0, 0.0, 0.0, 0.0, 0.0, 0.0, 0.0],
      [0.5, 1.0, 1.0, 1.0, 1.0, 1.0, 1.0, 0.5],
      [-0.5, 0.0, 0.0, 0.0, 0.0, 0.0, 0.0, -0.5],
      [-0.5, 0.0, 0.0, 0.0, 0.0, 0.0, 0.0, -0.5],
      [-0.5, 0.0, 0.0, 0.0, 0.0, 0.0, 0.0, -0.5],
      [-0.5, 0.0, 0.0, 0.0, 0.0, 0.0, 0.0, -0.5],
      [-0.5, 0.0, 0.0, 0.0, 0.0, 0.0, 0.0, -0.5],
      [0.0, 0.0, 0.0, 0.5, 0.5, 0.0, 0.0, 0.0]]
  }

  function QueenTable(): (t: seq<seq<real>>)
    ensures IsTable(t)
  {
    [
      [-2.0, -1.0, -1.0, -0.5, -0.5, -1.0, -1.0, -2.0],
      [-1.0, 0.0, 0.0, 0.0, 0.0, 0.0, 0.0, -1.0],
      [-1.0, 0.0, 0.5, 0.5, 0.5, 0.5, 0.0, -1.0],
      [-0.5, 0.0, 0.5, 0.5, 0.5, 0.5, 0.0, -0.5],
      [0.0, 0.0, 0.5, 0.5, 0.5, 0.5, 0.0, -0.5],
      [-1.0, 0.5, 0.5, 0.5, 0.5, 0.5, 0.0, -1.0],
      [-1.0, 0.0, 0.5, 0.0, 0.0, 0.0, 0.0, -1.0],
      [-2.0, -1.0, -1.0, -0.5, -0.5, -1.0, -1.0, -2.0]]
  }

  function KingTable(): (t: seq<seq<real>>)
    ensures IsTable(t)
  {
    [
      [-3.0, -4.0, -4.0, -5.0, -5.0, -4.0, -4.0, -3.0],
      [-3.0, -4.0, -4.0, -5.0, -5.0, -4.0, -4.0, -3.0],
      [-3.0, -4.0, -4.0, -5.0, -5.0, -4.0, -4.0, -3.0],
      [-3.0, -4.0, -4.0, -5.0, -5.0, -4.0, -4.0, -3.0],
      [-2.0, -3.0, -3.0, -4.0, -4.0, -3.0, -3.0, -2.0],
      [-1.0, -2.0, -2.0, -2.0, -2.0, -2.0, -2.0, -1.0],
      [2.0, 2.0, 0.0, 0.0, 0.0, 0.0, 2.0, 2.0],
      [2.0, 3.0, 1.0, 0.0, 0.0, 1.0, 3.0, 2.0]]
  }

  /** The piece-square table used for White pieces (`pst_w`). */
  function WhiteTable(k: PieceType): (t: seq<seq<real>>)
    ensures IsTable(t)
  {
    match k
    case Pawn => PawnTable()
    case Knight => KnightTable()
    case Bishop => BishopTable()
    case Rook => RookTable()
    case Queen => QueenTable()
    case King => KingTable()
  }

  /** Each of the eight rows of an 8x8 table lies in [lo, hi]. */
  predicate RowsWithin(t: seq<seq<real>>, lo: real, hi: real)
    requires IsTable(t)
  {
    && RowWithin(t[0], lo, hi) && RowWithin(t[1], lo, hi) && RowWithin(t[2], lo, hi) && RowWithin(t[3], lo, hi)
    && RowWithin(t[4], lo, hi) && RowWithin(t[5], lo, hi) && RowWithin(t[6], lo, hi) && RowWithin(t[7], lo, hi)
  }

  lemma RowsWithinAll(t: seq<seq<real>>, lo: real, hi: real)
    requires IsTable(t) && RowsWithin(t, lo, hi)
    ensures Within(t, lo, hi)
  {
    forall r | 0 <= r < 8
      ensures forall c :: 0 <= c < 8 ==> lo <= t[r][c] <= hi
    {
      assert r == 0 || r == 1 || r == 2 || r == 3 || r == 4 || r == 5 || r == 6 || r == 7;
      RowWithinAll(t[r], lo, hi);
    }
  }

  lemma PawnTableWithinFive()
    ensures Within(PawnTable(), -5.0, 5.0)
  {
    assert RowsWithin(PawnTable(), -5.0, 5.0);
    RowsWithinAll(PawnTable(), -5.0, 5.0);
  }

  lemma KnightTableWithinFive()
    ensures Within(KnightTable(), -5.0, 5.0)
  {
    assert RowsWithin(KnightTable(), -5.0, 5.0);
    RowsWithinAll(KnightTable(), -5.0, 5.0);
  }

  lemma BishopTableWithinFive()
    ensures Within(BishopTable(), -5.0, 5.0)
  {
    assert RowsWithin(BishopTable(), -5.0, 5.0);
    RowsWithinAll(BishopTable(), -5.0, 5.0);
  }

  lemma RookTableWithinFive()
    ensures Within(RookTable(), -5.0, 5.0)
  {
    assert RowsWithin(RookTable(), -5.0, 5.0);
    RowsWithinAll(RookTable(), -5.0, 5.0);
  }

  lemma QueenTableWithinFive()
    ensures Within(QueenTable(), -5.0, 5.0)
  {
    assert RowsWithin(QueenTable(), -5.0, 5.0);
    RowsWithinAll(QueenTable(), -5.0, 5.0);
  }

  lemma KingTableWithinFive()
    ensures Within(KingTable(), -5.0, 5.0)
  {
    assert RowsWithin(KingTable(), -5.0, 5.0);
    RowsWithinAll(KingTable(), -5.0, 5.0);
  }


  /** Every White table entry is a positional nudge of at most 5 either way. */
  lemma WhiteTableWithinFive(k: PieceType)
    ensures Within(WhiteTable(k), -5.0, 5.0)
  {
    match k {
      case Pawn => PawnTableWithinFive();
      case Knight => KnightTableWithinFive();
      case Bishop => BishopTableWithinFive();
      case Rook => RookTableWithinFive();
      case Queen => QueenTableWithinFive();
      case King => KingTableWithinFive();
    }
  }

  /** The outer sequence of `s` in reverse order (`slice().reverse()`). */
  function Reverse<T>(s: seq<T>): (r: seq<T>)
    ensures |r| == |s|
    ensures forall k :: 0 <= k < |s| ==> r[k] == s[|s| - 1 - k]
  {
    if s == [] then [] else Reverse(s[1..]) + [s[0]]
  }

  /** The piece-square table used for Black pieces: White's with the
      outer index reversed. */
  function BlackTable(k: PieceType): seq<seq<real>>
  {
    Reverse(WhiteTable(k))
  }

  /** Black's table is White's read from the other end of the outer index,
      an 8x8 table with the same entries. */
  lemma BlackTableMirrorsWhite(k: PieceType)
    ensures IsTable(BlackTable(k))
    ensures forall r :: 0 <= r < 8 ==> BlackTable(k)[r] == WhiteTable(k)[7 - r]
    ensures Within(BlackTable(k), -5.0, 5.0)
  {
    WhiteTableWithinFive(k);
    ReversedTable(WhiteTable(k), -5.0, 5.0);
  }

  /** Reversing the rows of an 8x8 table keeps it 8x8 and keeps its bounds. */
  lemma ReversedTable(t: seq<seq<real>>, lo: real, hi: real)
    requires IsTable(t) && Within(t, lo, hi)
    ensures IsTable(Reverse(t)) && Within(Reverse(t), lo, hi)
    ensures forall r :: 0 <= r < 8 ==> Reverse(t)[r] == t[7 - r]
  {
  }

  lemma TableEntryWithinFive(k: PieceType, isWhite: bool, x: nat, y: nat)
    requires x < 8 && y < 8
    ensures IsTable(if isWhite then WhiteTable(k) else BlackTable(k))
    ensures -5.0 <= (if isWhite then WhiteTable(k) else BlackTable(k))[y][x] <= 5.0
  {
    BlackTableMirrorsWhite(k);
    WhiteTableWithinFive(k);
  }

  /** Weight plus table entry of a piece whose colour picks the table;
      the lookup is table[kind][y][x]. */
  function AbsoluteValue(p: Piece, isWhite: bool, x: nat, y: nat): (v: real)
    requires x < 8 && y < 8
    ensures Weight(p.kind) - 5.0 <= v <= Weight(p.kind) + 5.0
  {
    var table := if isWhite then WhiteTable(p.kind) else BlackTable(p.kind);
    TableEntryWithinFive(p.kind, isWhite, x, y);
    Weight(p.kind) + table[y][x]
  }

  /** Contribution of one cell: 0 when empty, the absolute value for a
      White piece and its negation for a Black piece. */
  function PieceValue(sq: Square, x: nat, y: nat): (v: real)
    requires x < 8 && y < 8
    ensures sq.Empty? ==> v == 0.0
    ensures sq.Occupied? && sq.piece.color == White ==> 5.0 <= v <= 905.0
    ensures sq.Occupied? && sq.piece.color == Black ==> -905.0 <= v <= -5.0
  {
    if sq.Empty? then 0.0
    else
      var abs := AbsoluteValue(sq.piece, sq.piece.color == White, x, y);
      if sq.piece.color == White then abs else -abs
  }

  /** The lookup the engine performs for cell (x, y), x the row and y the
      column: a White piece scores its weight plus White's entry [y][x]; a
      Black piece scores minus its weight plus White's entry [7 - y][x]. */
  lemma PieceValueLookup(p: Piece, x: nat, y: nat)
    requires x < 8 && y < 8
    ensures p.color == White ==> PieceValue(Occupied(p), x, y) == Weight(p.kind) + WhiteTable(p.kind)[y][x]
    ensures p.color == Black ==> PieceValue(Occupied(p), x, y) == -(Weight(p.kind) + WhiteTable(p.kind)[7 - y][x])
  {
    BlackTableMirrorsWhite(p.kind);
  }

  /** Sum of the first n cells of row i. */
  function RowSum(b: Board, i: nat, n: nat): real
    requires i < 8 && n <= 8
  {
    if n == 0 then 0.0 else RowSum(b, i, n - 1) + PieceValue(b[i][n - 1], i, n - 1)
  }

  /** Sum of the first m whole rows. */
  function RowsSum(b: Board, m: nat): real
    requires m <= 8
  {
    if m == 0 then 0.0 else RowsSum(b, m - 1) + RowSum(b, m - 1, 8)
  }

  /** The evaluation of a board: the sum of the 64 cell contributions. */
  function Evaluate(b: Board): real
  {
    RowsSum(b, 8)
  }

  /** `evaluateBoard`: two nested loops accumulating the cell values. */
  method EvaluateBoard(b: Board) returns (score: real)
    ensures score == Evaluate(b)
  {
    score := 0.0;
    for i := 0 to 8
      invariant score == RowsSum(b, i)
    {
      for j := 0 to 8
        invariant score == RowsSum(b, i) + RowSum(b, i, j)
      {
        score := score + PieceValue(b[i][j], i, j);
      }
    }
  }

  lemma {:induction false} RowSumBounded(b: Board, i: nat, n: nat)
    requires i < 8 && n <= 8
    ensures -905.0 * n as real <= RowSum(b, i, n) <= 905.0 * n as real
  {
    if n > 0 {
      RowSumBounded(b, i, n - 1);
    }
  }

  lemma {:induction false} RowsSumBounded(b: Board, m: nat)
    requires m <= 8
    ensures -7240.0 * m as real <= RowsSum(b, m) <= 7240.0 * m as real
  {
    if m > 0 {
      RowsSumBounded(b, m - 1);
      RowSumBounded(b, m - 1, 8);
    }
  }

  /** Every evaluation is finite and at most 64 * 905 in magnitude, so it
      never reaches the search's infinite bounds. */
  lemma EvaluateBounded(b: Board)
    ensures -57920.0 <= Evaluate(b) <= 57920.0
  {
    RowsSumBounded(b, 8);
  }

  lemma {:induction false} RowSumEmpty(b: Board, i: nat, n: nat)
    requires i < 8 && n <= 8
    requires forall j :: 0 <= j < 8 ==> b[i][j] == Empty
    ensures RowSum(b, i, n) == 0.0
  {
    if n > 0 {
      RowSumEmpty(b, i, n - 1);
    }
  }

  lemma {:induction false} RowsSumEmpty(b: Board, m: nat)
    requires m <= 8
    requires forall i, j :: 0 <= i < 8 && 0 <= j < 8 ==> b[i][j] == Empty
    ensures RowsSum(b, m) == 0.0
  {
    if m > 0 {
      RowsSumEmpty(b, m - 1);
      RowSumEmpty(b, m - 1, 8);
    }
  }

  /** The empty board evaluates to 0. */
  lemma EmptyBoardScoresZero()
    ensures Evaluate(EmptyBoard()) == 0.0
  {
    RowsSumEmpty(EmptyBoard(), 8);
  }

  /** Colours swapped and columns (files) mirrored: cell (i, j) of the
      result holds cell (i, 7 - j) of b with the other colour. */
  function MirrorFiles(b: Board): (m: Board)
    ensures forall i, j :: 0 <= i < 8 && 0 <= j < 8 ==> m[i][j] == SwapColor(b[i][7 - j])
  {
    var m := seq(8, i requires 0 <= i < 8 => seq(8, j requires 0 <= j < 8 => SwapColor(b[i][7 - j])));
    assert IsGrid(m);
    m
  }

  /** A cell keeps its value, negated, when its piece changes colour and
      moves to the mirrored column. */
  lemma PieceValueMirror(sq: Square, x: nat, y: nat)
    requires x < 8 && y < 8
    ensures PieceValue(SwapColor(sq), x, 7 - y) == -PieceValue(sq, x, y)
  {
    if sq.Occupied? {
      BlackTableMirrorsWhite(sq.piece.kind);
    }
  }

  /** The first n cells of a mirrored row are the last n cells of the
      original row, negated. */
  lemma {:induction false} RowSumMirrorPrefix(b: Board, i: nat, n: nat)
    requires i < 8 && n <= 8
    ensures RowSum(MirrorFiles(b), i, n) == -(RowSum(b, i, 8) - RowSum(b, i, 8 - n))
  {
    if n > 0 {
      RowSumMirrorPrefix(b, i, n - 1);
      PieceValueMirror(b[i][8 - n], i, 8 - n);
      assert RowSum(b, i, 8 - n + 1) == RowSum(b, i, 8 - n) + PieceValue(b[i][8 - n], i, 8 - n);
    }
  }

  lemma RowSumMirror(b: Board, i: nat)
    requires i < 8
    ensures RowSum(MirrorFiles(b), i, 8) == -RowSum(b, i, 8)
  {
    RowSumMirrorPrefix(b, i, 8);
  }

  lemma {:induction false} RowsSumMirror(b: Board, n: nat)
    requires n <= 8
    ensures RowsSum(MirrorFiles(b), n) == -RowsSum(b, n)
  {
    if n > 0 {
      RowsSumMirror(b, n - 1);
      RowSumMirror(b, n - 1);
    }
  }

  /** Colour symmetry of the evaluator as it indexes its tables: handing
      every piece to the other side and mirroring the columns negates
      the score. */
  lemma EvaluateColorSymmetry(b: Board)
    ensures Evaluate(MirrorFiles(b)) == -Evaluate(b)
  {
    RowsSumMirror(b, 8);
  }

  /** Mirroring ranks instead of files does not negate values: a White
      pawn on row 6, column 3 and a Black pawn on the rank-mirrored
      square, row 1, column 3, are not worth opposite amounts. */
  lemma RankMirrorBreaksSymmetry()
    ensures PieceValue(Occupied(Piece(Pawn, White)), 6, 3) == 10.5
    ensures PieceValue(Occupied(Piece(Pawn, Black)), 1, 3) == -10.0
    ensures PieceValue(SwapColor(Occupied(Piece(Pawn, White))), 7 - 6, 3)
            != -PieceValue(Occupied(Piece(Pawn, White)), 6, 3)
  {
    PieceValueLookup(Piece(Pawn, White), 6, 3);
    PieceValueLookup(Piece(Pawn, Black), 1, 3);
  }
}
