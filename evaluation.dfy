/** Static evaluation (ChessEngine::evaluate): the sum of fixed piece values
    over the board, negated when black is to move. */
module Evaluation {
  import opened EngineTypes
  import opened MakeUndo

  /** The pieceValue table, indexed by piece code. */
  const PIECE_VALUE: seq<int> :=
    [0, 100, 300, 300, 500, 900, 99999, -100, -300, -300, -500, -900, -99999]

  /** The largest value any square can contribute. */
  const SQUARE_BOUND: int := 99999
  /** No material sum (and no evaluation) exceeds this in magnitude. */
  const SCORE_BOUND: int := 64 * SQUARE_BOUND

  function Value(p: Piece): (v: int)
    ensures -SQUARE_BOUND <= v <= SQUARE_BOUND
  {
    PIECE_VALUE[p]
  }

  /** Each black piece is worth the negation of its white counterpart, and
      an empty square nothing. */
  lemma ValueColourSymmetry(p: Piece)
    requires IsWhite(p)
    ensures Value(p + 6) == -Value(p) && Value(EMPTY) == 0
  {
  }

  /** Sum of the values of squares (r, 0) .. (r, n-1). */
  function RowMaterial(g: Grid, r: int, n: nat): int
    requires 0 <= r < BOARD_SIZE && n <= BOARD_SIZE
  {
    if n == 0 then 0 else RowMaterial(g, r, n - 1) + Value(g[r][n - 1])
  }

  /** Sum of the values of rows 0 .. n-1. */
  function Material(g: Grid, n: nat): int
    requires n <= BOARD_SIZE
  {
    if n == 0 then 0 else Material(g, n - 1) + RowMaterial(g, n - 1, BOARD_SIZE)
  }

  function Evaluate(p: Position): int {
    var score := Material(p.squares, BOARD_SIZE);
    if p.whiteToMove then score else -score
  }

  /** Flipping the side to move negates the evaluation. */
  lemma EvaluateSideToMove(p: Position)
    ensures Evaluate(Position(p.squares, !p.whiteToMove)) == -Evaluate(p)
  {
  }

  lemma {:induction false} RowMaterialBound(g: Grid, r: int, n: nat)
    requires 0 <= r < BOARD_SIZE && n <= BOARD_SIZE
    ensures -(n * SQUARE_BOUND) <= RowMaterial(g, r, n) <= n * SQUARE_BOUND
  {
    if n > 0 {
      RowMaterialBound(g, r, n - 1);
    }
  }

  lemma {:induction false} MaterialBound(g: Grid, n: nat)
    requires n <= BOARD_SIZE
    ensures -(n * 8 * SQUARE_BOUND) <= Material(g, n) <= n * 8 * SQUARE_BOUND
  {
    if n > 0 {
      MaterialBound(g, n - 1);
      RowMaterialBound(g, n - 1, BOARD_SIZE);
    }
  }

  /** The evaluation is bounded by 64 kings' worth, far inside a 32-bit int. */
  lemma EvaluateBound(p: Position)
    ensures -SCORE_BOUND <= Evaluate(p) <= SCORE_BOUND
  {
    MaterialBound(p.squares, BOARD_SIZE);
  }

  lemma {:induction false} RowMaterialSet(g: Grid, r: int, c: int, x: Piece, n: nat)
    requires OnBoard(r, c) && n <= BOARD_SIZE
    ensures RowMaterial(Set(g, r, c, x), r, n)
            == if c < n then RowMaterial(g, r, n) - Value(g[r][c]) + Value(x) else RowMaterial(g, r, n)
  {
    if n > 0 {
      RowMaterialSet(g, r, c, x, n - 1);
    }
  }

  lemma {:induction false} RowMaterialOther(g: Grid, h: Grid, r: int, n: nat)
    requires 0 <= r < BOARD_SIZE && n <= BOARD_SIZE
    requires g[r] == h[r]
    ensures RowMaterial(g, r, n) == RowMaterial(h, r, n)
  {
    if n > 0 {
      RowMaterialOther(g, h, r, n - 1);
    }
  }

  lemma {:induction false} MaterialSetPartial(g: Grid, r: int, c: int, x: Piece, n: nat)
    requires OnBoard(r, c) && n <= BOARD_SIZE
    ensures Material(Set(g, r, c, x), n)
            == if r < n then Material(g, n) - Value(g[r][c]) + Value(x) else Material(g, n)
  {
    if n > 0 {
      MaterialSetPartial(g, r, c, x, n - 1);
      if n - 1 == r {
        RowMaterialSet(g, r, c, x, BOARD_SIZE);
      } else {
        RowMaterialOther(Set(g, r, c, x), g, n - 1, BOARD_SIZE);
      }
    }
  }

  /** The material sum depends on each square only through the piece on it:
      replacing one piece changes it by the difference of the two values. */
  lemma MaterialSet(g: Grid, r: int, c: int, x: Piece)
    requires OnBoard(r, c)
    ensures Material(Set(g, r, c, x), BOARD_SIZE) == Material(g, BOARD_SIZE) - Value(g[r][c]) + Value(x)
  {
    MaterialSetPartial(g, r, c, x, BOARD_SIZE);
  }

  /** Making a move changes the material only by the captured piece and,
      for a promotion, by the queen replacing the pawn; a quiet move of a
      piece leaves it unchanged, wherever the piece goes. */
  lemma MaterialAfterMove(p: Position, m: Move)
    requires InBounds(m) && (m.fromRow, m.fromCol) != (m.toRow, m.toCol)
    ensures var moving := p.squares[m.fromRow][m.fromCol];
            Material(ApplyMove(p, m).squares, BOARD_SIZE)
            == Material(p.squares, BOARD_SIZE) - Value(p.squares[m.toRow][m.toCol])
               + Value(Placed(moving, m.toRow)) - Value(moving)
  {
    var moving := p.squares[m.fromRow][m.fromCol];
    var g1 := Set(p.squares, m.fromRow, m.fromCol, EMPTY);
    var g2 := Set(g1, m.toRow, m.toCol, Placed(moving, m.toRow));
    MaterialSet(p.squares, m.fromRow, m.fromCol, EMPTY);
    MaterialSet(g1, m.toRow, m.toCol, Placed(moving, m.toRow));
    GridExtensionality(ApplyMove(p, m).squares, g2);
  }

  /** The piece of the other colour, EMPTY for EMPTY. */
  function Opposite(p: Piece): (q: Piece)
    ensures Value(q) == -Value(p)
  {
    if p == EMPTY then EMPTY else if IsWhite(p) then p + 6 else p - 6
  }

  /** The board seen from the other side: rows reversed, colours swapped. */
  function Mirror(g: Grid): (h: Grid)
    ensures forall r, c :: OnBoard(r, c) ==> h[r][c] == Opposite(g[7 - r][c])
  {
    seq(8, r requires 0 <= r < 8 => seq(8, c requires 0 <= c < 8 => Opposite(g[7 - r][c])))
  }

  lemma {:induction false} MirrorRow(g: Grid, r: int, n: nat)
    requires 0 <= r < BOARD_SIZE && n <= BOARD_SIZE
    ensures RowMaterial(Mirror(g), r, n) == -RowMaterial(g, 7 - r, n)
  {
    if n > 0 {
      MirrorRow(g, r, n - 1);
    }
  }

  /** Mirroring the board negates its material. */
  lemma MirrorMaterial(g: Grid)
    ensures Material(Mirror(g), BOARD_SIZE) == -Material(g, BOARD_SIZE)
  {
    var h := Mirror(g);
    forall r | 0 <= r < BOARD_SIZE
      ensures RowMaterial(h, r, BOARD_SIZE) == -RowMaterial(g, 7 - r, BOARD_SIZE)
    {
      MirrorRow(g, r, BOARD_SIZE);
    }
    MaterialByRows(h);
    MaterialByRows(g);
  }

  /** The material sum written out row by row. */
  lemma MaterialByRows(g: Grid)
    ensures Material(g, BOARD_SIZE)
            == RowMaterial(g, 0, 8) + RowMaterial(g, 1, 8) + RowMaterial(g, 2, 8) + RowMaterial(g, 3, 8)
               + RowMaterial(g, 4, 8) + RowMaterial(g, 5, 8) + RowMaterial(g, 6, 8) + RowMaterial(g, 7, 8)
  {
    assert Material(g, 1) == RowMaterial(g, 0, 8);
    assert Material(g, 2) == Material(g, 1) + RowMaterial(g, 1, 8);
    assert Material(g, 3) == Material(g, 2) + RowMaterial(g, 2, 8);
    assert Material(g, 4) == Material(g, 3) + RowMaterial(g, 3, 8);
    assert Material(g, 5) == Material(g, 4) + RowMaterial(g, 4, 8);
    assert Material(g, 6) == Material(g, 5) + RowMaterial(g, 5, 8);
    assert Material(g, 7) == Material(g, 6) + RowMaterial(g, 6, 8);
  }

  /** Swapping the colours of every piece, reflecting the rows, and giving
      the move to the other side leaves the evaluation unchanged, because it
      is measured from the side to move. */
  lemma MirrorEvaluate(p: Position)
    ensures Evaluate(Position(Mirror(p.squares), !p.whiteToMove)) == Evaluate(p)
  {
    MirrorMaterial(p.squares);
  }

  /** A colour-symmetric board has no material advantage. */
  lemma SymmetricBoardScoresZero(p: Position)
    requires Mirror(p.squares) == p.squares
    ensures Evaluate(p) == 0
  {
    MirrorMaterial(p.squares);
  }
}
