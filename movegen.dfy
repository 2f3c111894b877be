/** Pseudo-legal move generation (ChessEngine::generateMoves): single pawn
    pushes, diagonal pawn captures and knight jumps. Rooks, bishops, queens
    and kings are never moved. */
module MoveGen {
  import opened EngineTypes

  /** The knightOffsets table, in the generator's order. */
  const KNIGHT_OFFSETS: seq<(int, int)> :=
    [(-2, -1), (-2, 1), (2, -1), (2, 1), (-1, -2), (-1, 2), (1, -2), (1, 2)]

  /** The piece belongs to the side to move. */
  predicate SideToMove(p: Position, piece: Piece) {
    piece != EMPTY && IsWhite(piece) == p.whiteToMove
  }

  function WhitePawnMoves(p: Position, r: int, c: int): (ms: seq<Move>)
    requires OnBoard(r, c)
    ensures forall m :: m in ms ==> InBounds(m)
  {
    (if r + 1 < BOARD_SIZE && p.squares[r + 1][c] == EMPTY then [NewMove(r, c, r + 1, c)] else [])
    + (if r + 1 < BOARD_SIZE && c + 1 < BOARD_SIZE && p.squares[r + 1][c + 1] >= BP
       then [NewMove(r, c, r + 1, c + 1)] else [])
    + (if r + 1 < BOARD_SIZE && c - 1 >= 0 && p.squares[r + 1][c - 1] >= BP
       then [NewMove(r, c, r + 1, c - 1)] else [])
  }

  function BlackPawnMoves(p: Position, r: int, c: int): (ms: seq<Move>)
    requires OnBoard(r, c)
    ensures forall m :: m in ms ==> InBounds(m)
  {
    (if r - 1 >= 0 && p.squares[r - 1][c] == EMPTY then [NewMove(r, c, r - 1, c)] else [])
    + (if r - 1 >= 0 && c + 1 < BOARD_SIZE
          && p.squares[r - 1][c + 1] <= WK && p.squares[r - 1][c + 1] != EMPTY
       then [NewMove(r, c, r - 1, c + 1)] else [])
    + (if r - 1 >= 0 && c - 1 >= 0
          && p.squares[r - 1][c - 1] <= WK && p.squares[r - 1][c - 1] != EMPTY
       then [NewMove(r, c, r - 1, c - 1)] else [])
  }

  /** The jump by one offset, if it lands on the board on an empty or enemy square. */
  function KnightJump(p: Position, r: int, c: int, isWhitePiece: bool, offset: (int, int)): (ms: seq<Move>)
    requires OnBoard(r, c)
    ensures forall m :: m in ms ==> InBounds(m)
  {
    var rr := r + offset.0;
    var cc := c + offset.1;
    if rr >= 0 && rr < BOARD_SIZE && cc >= 0 && cc < BOARD_SIZE then
      var target := p.squares[rr][cc];
      if isWhitePiece then
        if target == EMPTY || (target >= BP && target <= BK) then [NewMove(r, c, rr, cc)] else []
      else
        if target == EMPTY || (target >= WP && target <= WK) then [NewMove(r, c, rr, cc)] else []
    else []
  }

  /** The jumps by the first k offsets. */
  function KnightMoves(p: Position, r: int, c: int, isWhitePiece: bool, k: nat): (ms: seq<Move>)
    requires OnBoard(r, c) && k <= |KNIGHT_OFFSETS|
    ensures forall m :: m in ms ==> InBounds(m)
  {
    if k == 0 then []
    else KnightMoves(p, r, c, isWhitePiece, k - 1) + KnightJump(p, r, c, isWhitePiece, KNIGHT_OFFSETS[k - 1])
  }

  /** The moves of the piece on square (r, c): the body of the generator's inner loop. */
  function SquareMoves(p: Position, r: int, c: int): (ms: seq<Move>)
    requires OnBoard(r, c)
    ensures forall m :: m in ms ==> InBounds(m)
  {
    var piece := p.squares[r][c];
    if piece == EMPTY then []
    else
      var isWhitePiece := piece >= WP && piece <= WK;
      if (p.whiteToMove && !isWhitePiece) || (!p.whiteToMove && isWhitePiece) then []
      else if piece == WP then WhitePawnMoves(p, r, c)
      else if piece == BP then BlackPawnMoves(p, r, c)
      else if piece == WN || piece == BN then KnightMoves(p, r, c, isWhitePiece, |KNIGHT_OFFSETS|)
      else []
  }

  /** The moves from squares (r, 0) .. (r, n-1). */
  function RowMoves(p: Position, r: int, n: nat): (ms: seq<Move>)
    requires 0 <= r < BOARD_SIZE && n <= BOARD_SIZE
    ensures forall m :: m in ms ==> InBounds(m)
  {
    if n == 0 then [] else RowMoves(p, r, n - 1) + SquareMoves(p, r, n - 1)
  }

  /** The moves from rows 0 .. n-1, in the generator's order. */
  function GridMoves(p: Position, n: nat): (ms: seq<Move>)
    requires n <= BOARD_SIZE
    ensures forall m :: m in ms ==> InBounds(m)
  {
    if n == 0 then [] else GridMoves(p, n - 1) + RowMoves(p, n - 1, BOARD_SIZE)
  }

  /** generateMoves: every square in row-major order. */
  function GenerateMoves(p: Position): (ms: seq<Move>)
    ensures forall m :: m in ms ==> InBounds(m)
    ensures forall i :: 0 <= i < |ms| ==> InBounds(ms[i])
  {
    GridMoves(p, BOARD_SIZE)
  }

  /** Reference definition of a generated move, independent of the loops:
      a white pawn steps to an empty (r+1, c) or captures a black piece on
      (r+1, c+-1); a black pawn mirrors this with r-1; a knight jumps by one
      of the eight offsets onto an empty or enemy square. */
  ghost predicate PseudoLegal(p: Position, m: Move) {
    && InBounds(m)
    && m.promotion == EMPTY
    && var piece := p.squares[m.fromRow][m.fromCol];
       var target := p.squares[m.toRow][m.toCol];
       var dr := m.toRow - m.fromRow;
       var dc := m.toCol - m.fromCol;
       && SideToMove(p, piece)
       && (|| (piece == WP && dr == 1 && ((dc == 0 && target == EMPTY) || ((dc == 1 || dc == -1) && IsBlack(target))))
           || (piece == BP && dr == -1 && ((dc == 0 && target == EMPTY) || ((dc == 1 || dc == -1) && IsWhite(target))))
           || ((piece == WN || piece == BN) && (dr, dc) in KNIGHT_OFFSETS
               && (target == EMPTY || IsWhite(target) != IsWhite(piece))))
  }

  /** What a knight on (r, c) may land on: an empty square or an enemy piece. */
  ghost predicate KnightTarget(p: Position, r: int, c: int, isWhitePiece: bool, m: Move) {
    && m.fromRow == r && m.fromCol == c && m.promotion == EMPTY
    && OnBoard(m.toRow, m.toCol)
    && var target := p.squares[m.toRow][m.toCol];
       target == EMPTY || (if isWhitePiece then IsBlack(target) else IsWhite(target))
  }

  lemma KnightJumpIff(p: Position, r: int, c: int, isWhitePiece: bool, offset: (int, int), m: Move)
    requires OnBoard(r, c)
    ensures m in KnightJump(p, r, c, isWhitePiece, offset) <==>
      KnightTarget(p, r, c, isWhitePiece, m) && (m.toRow - r, m.toCol - c) == offset
  {
  }

  lemma {:induction false} KnightMovesIff(p: Position, r: int, c: int, isWhitePiece: bool, k: nat, m: Move)
    requires OnBoard(r, c) && k <= |KNIGHT_OFFSETS|
    ensures m in KnightMoves(p, r, c, isWhitePiece, k) <==>
      KnightTarget(p, r, c, isWhitePiece, m) && (m.toRow - r, m.toCol - c) in KNIGHT_OFFSETS[..k]
  {
    if k > 0 {
      KnightMovesIff(p, r, c, isWhitePiece, k - 1, m);
      KnightJumpIff(p, r, c, isWhitePiece, KNIGHT_OFFSETS[k - 1], m);
      assert KNIGHT_OFFSETS[..k] == KNIGHT_OFFSETS[..k - 1] + [KNIGHT_OFFSETS[k - 1]];
    }
  }

  lemma WhitePawnMovesIff(p: Position, r: int, c: int, m: Move)
    requires OnBoard(r, c)
    ensures m in WhitePawnMoves(p, r, c) <==>
      && m.fromRow == r && m.fromCol == c && m.promotion == EMPTY && m.toRow == r + 1
      && OnBoard(m.toRow, m.toCol)
      && ((m.toCol == c && p.squares[m.toRow][m.toCol] == EMPTY)
          || ((m.toCol == c + 1 || m.toCol == c - 1) && IsBlack(p.squares[m.toRow][m.toCol])))
  {
  }

  lemma BlackPawnMovesIff(p: Position, r: int, c: int, m: Move)
    requires OnBoard(r, c)
    ensures m in BlackPawnMoves(p, r, c) <==>
      && m.fromRow == r && m.fromCol == c && m.promotion == EMPTY && m.toRow == r - 1
      && OnBoard(m.toRow, m.toCol)
      && ((m.toCol == c && p.squares[m.toRow][m.toCol] == EMPTY)
          || ((m.toCol == c + 1 || m.toCol == c - 1) && IsWhite(p.squares[m.toRow][m.toCol])))
  {
  }

  lemma SquareMovesIff(p: Position, r: int, c: int, m: Move)
    requires OnBoard(r, c)
    ensures m in SquareMoves(p, r, c) <==> PseudoLegal(p, m) && m.fromRow == r && m.fromCol == c
  {
    var piece := p.squares[r][c];
    if piece == EMPTY || IsWhite(piece) != p.whiteToMove {
      IdleSquare(p, r, c, m);
    } else if piece == WP {
      WhitePawnSquare(p, r, c, m);
    } else if piece == BP {
      BlackPawnSquare(p, r, c, m);
    } else if piece == WN || piece == BN {
      KnightSquare(p, r, c, m);
    } else {
      IdleSquare(p, r, c, m);
    }
  }

  /** An empty square, an enemy piece, and a rook, bishop, queen or king
      of the side to move contribute nothing. */
  lemma IdleSquare(p: Position, r: int, c: int, m: Move)
    requires OnBoard(r, c)
    requires !SideToMove(p, p.squares[r][c]) || p.squares[r][c] !in {WP, BP, WN, BN}
    ensures SquareMoves(p, r, c) == []
    ensures !(PseudoLegal(p, m) && m.fromRow == r && m.fromCol == c)
  {
  }

  lemma WhitePawnSquare(p: Position, r: int, c: int, m: Move)
    requires OnBoard(r, c) && p.squares[r][c] == WP && p.whiteToMove
    ensures m in SquareMoves(p, r, c) <==> PseudoLegal(p, m) && m.fromRow == r && m.fromCol == c
  {
    WhitePawnMovesIff(p, r, c, m);
  }

  lemma BlackPawnSquare(p: Position, r: int, c: int, m: Move)
    requires OnBoard(r, c) && p.squares[r][c] == BP && !p.whiteToMove
    ensures m in SquareMoves(p, r, c) <==> PseudoLegal(p, m) && m.fromRow == r && m.fromCol == c
  {
    BlackPawnMovesIff(p, r, c, m);
  }

  lemma KnightSquare(p: Position, r: int, c: int, m: Move)
    requires OnBoard(r, c) && p.squares[r][c] in {WN, BN} && IsWhite(p.squares[r][c]) == p.whiteToMove
    ensures m in SquareMoves(p, r, c) <==> PseudoLegal(p, m) && m.fromRow == r && m.fromCol == c
  {
    var isWhitePiece := IsWhite(p.squares[r][c]);
    assert SquareMoves(p, r, c) == KnightMoves(p, r, c, isWhitePiece, |KNIGHT_OFFSETS|);
    KnightMovesIff(p, r, c, isWhitePiece, |KNIGHT_OFFSETS|, m);
    WholePrefix(KNIGHT_OFFSETS);
    KnightPseudoLegal(p, r, c, m);
  }

  /** From a knight's square, the pseudo-legal moves are its jumps onto an
      empty or enemy square. */
  lemma KnightPseudoLegal(p: Position, r: int, c: int, m: Move)
    requires OnBoard(r, c) && p.squares[r][c] in {WN, BN} && IsWhite(p.squares[r][c]) == p.whiteToMove
    ensures PseudoLegal(p, m) && m.fromRow == r && m.fromCol == c
            <==> KnightTarget(p, r, c, IsWhite(p.squares[r][c]), m) && (m.toRow - r, m.toCol - c) in KNIGHT_OFFSETS
  {
  }

  lemma WholePrefix(s: seq<(int, int)>)
    ensures s[..|s|] == s
  {
  }

  lemma {:induction false} RowMovesIff(p: Position, r: int, n: nat, m: Move)
    requires 0 <= r < BOARD_SIZE && n <= BOARD_SIZE
    ensures m in RowMoves(p, r, n) <==> PseudoLegal(p, m) && m.fromRow == r && m.fromCol < n
  {
    if n > 0 {
      RowMovesIff(p, r, n - 1, m);
      SquareMovesIff(p, r, n - 1, m);
      InAppend(m, RowMoves(p, r, n - 1), SquareMoves(p, r, n - 1), RowMoves(p, r, n));
    }
  }

  lemma InAppend(m: Move, a: seq<Move>, b: seq<Move>, all: seq<Move>)
    requires all == a + b
    ensures m in all <==> m in a || m in b
  {
  }

  lemma {:induction false} GridMovesIff(p: Position, n: nat, m: Move)
    requires n <= BOARD_SIZE
    ensures m in GridMoves(p, n) <==> PseudoLegal(p, m) && m.fromRow < n
  {
    if n > 0 {
      GridMovesIff(p, n - 1, m);
      RowMovesIff(p, n - 1, BOARD_SIZE, m);
      InAppend(m, GridMoves(p, n - 1), RowMoves(p, n - 1, BOARD_SIZE), GridMoves(p, n));
    }
  }

  /** The generator produces exactly the pseudo-legal moves. */
  lemma GeneratedIffPseudoLegal(p: Position, m: Move)
    ensures m in GenerateMoves(p) <==> PseudoLegal(p, m)
  {
    GridMovesIff(p, BOARD_SIZE, m);
  }

  /** Shape of every generated move: it starts on a pawn or knight of the
      side to move, lands on the board on a square without a friendly piece,
      and carries no promotion; rooks, bishops, queens and kings never move. */
  lemma GeneratedMoveShape(p: Position, m: Move)
    requires m in GenerateMoves(p)
    ensures InBounds(m) && m.promotion == EMPTY
    ensures SideToMove(p, p.squares[m.fromRow][m.fromCol])
    ensures p.squares[m.fromRow][m.fromCol] in {WP, BP, WN, BN}
    ensures var target := p.squares[m.toRow][m.toCol];
            target == EMPTY || IsWhite(target) != p.whiteToMove
  {
    GeneratedIffPseudoLegal(p, m);
  }
}
