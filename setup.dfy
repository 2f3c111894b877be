/** The standard starting position (ChessEngine::initBoard) and what the
    rest of the model says about it. */
module Setup {
  import opened EngineTypes
  import opened MoveGen
  import opened Evaluation

  /** The white piece initBoard puts on column c of row 0. */
  function BackRankPiece(c: int): (p: Piece)
    requires 0 <= c < BOARD_SIZE
    ensures IsWhite(p) && p != WP
  {
    if c == 0 || c == 7 then WR
    else if c == 1 || c == 6 then WN
    else if c == 2 || c == 5 then WB
    else if c == 3 then WQ
    else WK
  }

  /** The piece on (r, c) after initBoard: white pieces on rows 0 and 1,
      black pieces on rows 6 and 7, the rest empty. */
  function InitialPiece(r: int, c: int): (p: Piece)
    requires OnBoard(r, c)
    ensures (r == 0 || r == 1) <==> IsWhite(p)
    ensures (r == 6 || r == 7) <==> IsBlack(p)
    ensures (2 <= r <= 5) <==> p == EMPTY
  {
    if r == 1 then WP
    else if r == 6 then BP
    else if r == 0 then BackRankPiece(c)
    else if r == 7 then BackRankPiece(c) + 6
    else EMPTY
  }

  function InitialGrid(): (g: Grid)
    ensures forall r, c :: OnBoard(r, c) ==> g[r][c] == InitialPiece(r, c)
  {
    seq(8, r requires 0 <= r < 8 => seq(8, c requires 0 <= c < 8 => InitialPiece(r, c)))
  }

  function InitialPosition(): (p: Position)
    ensures p.whiteToMove
    ensures forall r, c :: OnBoard(r, c) ==> p.squares[r][c] == InitialPiece(r, c)
  {
    Position(InitialGrid(), true)
  }

  /** Black's setup is white's reflected across the middle of the board. */
  lemma InitialGridSymmetric()
    ensures Mirror(InitialGrid()) == InitialGrid()
  {
    var g := InitialGrid();
    forall r, c | OnBoard(r, c)
      ensures Mirror(g)[r][c] == g[r][c]
    {
    }
    GridExtensionality(Mirror(g), g);
  }

  /** The starting position evaluates to 0: material is level. */
  lemma InitialEvaluationZero()
    ensures Evaluate(InitialPosition()) == 0
  {
    InitialGridSymmetric();
    SymmetricBoardScoresZero(InitialPosition());
  }

  /** p holds the starting position (stated square by square, so that
      proofs about p do not unfold the whole grid at once). */
  ghost predicate IsInitial(p: Position) {
    p.whiteToMove && forall r, c :: OnBoard(r, c) ==> p.squares[r][c] == InitialPiece(r, c)
  }

  /** The knight on (0, 1) reaches (2, 0) and (2, 2); its jump to (1, 3)
      is blocked by a white pawn and the others leave the board. */
  lemma InitialKnightMoves(p: Position)
    requires IsInitial(p)
    ensures SquareMoves(p, 0, 1) == [NewMove(0, 1, 2, 0), NewMove(0, 1, 2, 2)]
    ensures SquareMoves(p, 0, 6) == [NewMove(0, 6, 2, 5), NewMove(0, 6, 2, 7)]
  {
    assert p.squares[0][1] == WN && p.squares[0][6] == WN;
    assert p.squares[2][0] == EMPTY && p.squares[2][2] == EMPTY && p.squares[1][3] == WP;
    assert p.squares[2][5] == EMPTY && p.squares[2][7] == EMPTY && p.squares[1][4] == WP;
    assert KnightMoves(p, 0, 1, true, 0) == [];
    assert KnightMoves(p, 0, 1, true, 1) == [];
    assert KnightMoves(p, 0, 1, true, 2) == [];
    assert KnightMoves(p, 0, 1, true, 4) == [NewMove(0, 1, 2, 0), NewMove(0, 1, 2, 2)];
    assert KnightMoves(p, 0, 1, true, 6) == KnightMoves(p, 0, 1, true, 4);
    assert KnightMoves(p, 0, 1, true, 8) == KnightMoves(p, 0, 1, true, 6);
    assert KnightMoves(p, 0, 6, true, 0) == [];
    assert KnightMoves(p, 0, 6, true, 1) == [];
    assert KnightMoves(p, 0, 6, true, 2) == [];
    assert KnightMoves(p, 0, 6, true, 4) == [NewMove(0, 6, 2, 5), NewMove(0, 6, 2, 7)];
    assert KnightMoves(p, 0, 6, true, 6) == KnightMoves(p, 0, 6, true, 4);
    assert KnightMoves(p, 0, 6, true, 8) == KnightMoves(p, 0, 6, true, 6);
  }

  /** The two knights of row 0 each have two jumps; the rooks, bishops,
      queen and king have none. */
  lemma InitialBackRankMoves(p: Position)
    requires IsInitial(p)
    ensures RowMoves(p, 0, BOARD_SIZE)
            == [NewMove(0, 1, 2, 0), NewMove(0, 1, 2, 2), NewMove(0, 6, 2, 5), NewMove(0, 6, 2, 7)]
  {
    InitialKnightMoves(p);
    assert forall c :: 0 <= c < 8 && c != 1 && c != 6 ==> SquareMoves(p, 0, c) == [];
    assert RowMoves(p, 0, 1) == [];
    assert RowMoves(p, 0, 2) == [NewMove(0, 1, 2, 0), NewMove(0, 1, 2, 2)];
    assert RowMoves(p, 0, 3) == RowMoves(p, 0, 2);
    assert RowMoves(p, 0, 4) == RowMoves(p, 0, 2);
    assert RowMoves(p, 0, 5) == RowMoves(p, 0, 2);
    assert RowMoves(p, 0, 6) == RowMoves(p, 0, 2);
    assert RowMoves(p, 0, 7) == [NewMove(0, 1, 2, 0), NewMove(0, 1, 2, 2), NewMove(0, 6, 2, 5), NewMove(0, 6, 2, 7)];
  }

  /** Each pawn of row 1 steps forward; nothing can be captured yet. */
  lemma InitialPawnMoves(p: Position, c: int)
    requires IsInitial(p)
    requires 0 <= c < BOARD_SIZE
    ensures SquareMoves(p, 1, c) == [NewMove(1, c, 2, c)]
  {
    assert p.squares[2][c] == EMPTY;
    assert c + 1 < BOARD_SIZE ==> p.squares[2][c + 1] == EMPTY;
    assert c - 1 >= 0 ==> p.squares[2][c - 1] == EMPTY;
  }

  lemma {:induction false} InitialPawnRow(p: Position, n: nat)
    requires IsInitial(p)
    requires n <= BOARD_SIZE
    ensures RowMoves(p, 1, n) == seq(n, c => NewMove(1, c, 2, c))
  {
    if n > 0 {
      InitialPawnRow(p, n - 1);
      InitialPawnMoves(p, n - 1);
    }
  }

  /** Rows 2 .. 7 hold no white piece, so white has nothing to move there. */
  lemma {:induction false} InitialQuietRow(p: Position, r: int, n: nat)
    requires IsInitial(p)
    requires 2 <= r < BOARD_SIZE && n <= BOARD_SIZE
    ensures RowMoves(p, r, n) == []
  {
    if n > 0 {
      InitialQuietRow(p, r, n - 1);
    }
  }

  lemma {:induction false} InitialQuietRows(p: Position, n: nat)
    requires IsInitial(p)
    requires 2 <= n <= BOARD_SIZE
    ensures GridMoves(p, n) == GridMoves(p, 2)
  {
    if n > 2 {
      InitialQuietRows(p, n - 1);
      InitialQuietRow(p, n - 1, BOARD_SIZE);
    }
  }

  lemma InitialMovesOf(p: Position)
    requires IsInitial(p)
    ensures GenerateMoves(p)
            == [NewMove(0, 1, 2, 0), NewMove(0, 1, 2, 2), NewMove(0, 6, 2, 5), NewMove(0, 6, 2, 7),
                NewMove(1, 0, 2, 0), NewMove(1, 1, 2, 1), NewMove(1, 2, 2, 2), NewMove(1, 3, 2, 3),
                NewMove(1, 4, 2, 4), NewMove(1, 5, 2, 5), NewMove(1, 6, 2, 6), NewMove(1, 7, 2, 7)]
  {
    InitialBackRankMoves(p);
    InitialPawnRow(p, BOARD_SIZE);
    InitialQuietRows(p, BOARD_SIZE);
    TwoActiveRows(p, RowMoves(p, 0, BOARD_SIZE), RowMoves(p, 1, BOARD_SIZE));
    PawnPushes();
  }

  /** When rows 2 .. 7 contribute nothing, the moves are those of row 0
      followed by those of row 1. */
  lemma TwoActiveRows(p: Position, first: seq<Move>, second: seq<Move>)
    requires GridMoves(p, BOARD_SIZE) == GridMoves(p, 2)
    requires first == RowMoves(p, 0, BOARD_SIZE) && second == RowMoves(p, 1, BOARD_SIZE)
    ensures GenerateMoves(p) == first + second
  {
    assert GridMoves(p, 1) == first;
  }

  lemma PawnPushes()
    ensures [NewMove(0, 1, 2, 0), NewMove(0, 1, 2, 2), NewMove(0, 6, 2, 5), NewMove(0, 6, 2, 7)]
            + seq(8, c => NewMove(1, c, 2, c))
            == [NewMove(0, 1, 2, 0), NewMove(0, 1, 2, 2), NewMove(0, 6, 2, 5), NewMove(0, 6, 2, 7),
                NewMove(1, 0, 2, 0), NewMove(1, 1, 2, 1), NewMove(1, 2, 2, 2), NewMove(1, 3, 2, 3),
                NewMove(1, 4, 2, 4), NewMove(1, 5, 2, 5), NewMove(1, 6, 2, 6), NewMove(1, 7, 2, 7)]
  {
  }

  /** From the starting position white has exactly twelve moves: four
      knight jumps, then eight single pawn pushes, in generator order. */
  lemma InitialMoves()
    ensures GenerateMoves(InitialPosition())
            == [NewMove(0, 1, 2, 0), NewMove(0, 1, 2, 2), NewMove(0, 6, 2, 5), NewMove(0, 6, 2, 7),
                NewMove(1, 0, 2, 0), NewMove(1, 1, 2, 1), NewMove(1, 2, 2, 2), NewMove(1, 3, 2, 3),
                NewMove(1, 4, 2, 4), NewMove(1, 5, 2, 5), NewMove(1, 6, 2, 6), NewMove(1, 7, 2, 7)]
    ensures |GenerateMoves(InitialPosition())| == 12
  {
    InitialMovesOf(InitialPosition());
  }
}
