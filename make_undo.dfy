/** Applying and reverting a move (ChessEngine::makeMove / undoMove) on a
    board value. A pawn reaching the last row is always made a queen; the
    undo moves back whatever stands on the destination, so after a
    promotion the origin receives the queen, not the pawn. */
module MakeUndo {
  import opened EngineTypes

  /** The piece makeMove leaves on the destination. */
  function Placed(moving: Piece, toRow: int): (q: Piece)
    ensures q == moving || (moving == WP && q == WQ) || (moving == BP && q == BQ)
  {
    if moving == WP && toRow == 7 then WQ
    else if moving == BP && toRow == 0 then BQ
    else moving
  }

  /** makeMove: empty the origin, put the moving piece on the destination,
      queen a pawn on the last row, flip the side to move. */
  function ApplyMove(p: Position, m: Move): (q: Position)
    requires InBounds(m)
    ensures q.whiteToMove == !p.whiteToMove
    ensures
      var moving := p.squares[m.fromRow][m.fromCol];
      && q.squares[m.toRow][m.toCol] == Placed(moving, m.toRow)
      && ((m.fromRow, m.fromCol) != (m.toRow, m.toCol) ==> q.squares[m.fromRow][m.fromCol] == EMPTY)
      && forall r, c :: OnBoard(r, c) && (r, c) != (m.fromRow, m.fromCol) && (r, c) != (m.toRow, m.toCol)
           ==> q.squares[r][c] == p.squares[r][c]
  {
    var moving := p.squares[m.fromRow][m.fromCol];
    var g1 := Set(p.squares, m.fromRow, m.fromCol, EMPTY);
    var g2 := Set(g1, m.toRow, m.toCol, moving);
    var g3 := if moving == WP && m.toRow == 7 then Set(g2, m.toRow, m.toCol, WQ) else g2;
    var g4 := if moving == BP && m.toRow == 0 then Set(g3, m.toRow, m.toCol, BQ) else g3;
    Position(g4, !p.whiteToMove)
  }

  /** undoMove: the piece on the destination goes back to the origin, the
      captured piece goes back to the destination, the side flips back. */
  function RevertMove(p: Position, m: Move, captured: Piece): (q: Position)
    requires InBounds(m)
    ensures q.whiteToMove == !p.whiteToMove
    ensures q.squares[m.fromRow][m.fromCol] == p.squares[m.toRow][m.toCol]
    ensures (m.fromRow, m.fromCol) != (m.toRow, m.toCol) ==> q.squares[m.toRow][m.toCol] == captured
    ensures forall r, c :: OnBoard(r, c) && (r, c) != (m.fromRow, m.fromCol) && (r, c) != (m.toRow, m.toCol)
              ==> q.squares[r][c] == p.squares[r][c]
  {
    var moving := p.squares[m.toRow][m.toCol];
    var g1 := Set(p.squares, m.toRow, m.toCol, captured);
    var g2 := Set(g1, m.fromRow, m.fromCol, moving);
    Position(g2, !p.whiteToMove)
  }

  /** The move promotes: a white pawn reaches row 7 or a black pawn row 0. */
  predicate IsPromotion(p: Position, m: Move)
    requires InBounds(m)
  {
    var moving := p.squares[m.fromRow][m.fromCol];
    (moving == WP && m.toRow == 7) || (moving == BP && m.toRow == 0)
  }

  /** Make followed by undo with the captured piece restores the position
      exactly, except that a promoting pawn comes back as its queen. */
  lemma MakeUndoRoundTrip(p: Position, m: Move)
    requires InBounds(m)
    ensures var captured := p.squares[m.toRow][m.toCol];
            var back := RevertMove(ApplyMove(p, m), m, captured);
            if IsPromotion(p, m) then
              back == Position(Set(p.squares, m.fromRow, m.fromCol, Placed(p.squares[m.fromRow][m.fromCol], m.toRow)), p.whiteToMove)
            else back == p
  {
    var captured := p.squares[m.toRow][m.toCol];
    var back := RevertMove(ApplyMove(p, m), m, captured);
    var moving := p.squares[m.fromRow][m.fromCol];
    var expected := if IsPromotion(p, m) then Set(p.squares, m.fromRow, m.fromCol, Placed(moving, m.toRow)) else p.squares;
    GridExtensionality(back.squares, expected);
  }

  /** Square-wise "equal, or the pawn there has been replaced by its queen". */
  predicate SameOrQueened(before: Piece, after: Piece) {
    after == before || (before == WP && after == WQ) || (before == BP && after == BQ)
  }

  /** Square (r, c) of after is that of before, or its pawn's queen. */
  ghost predicate SquareQueened(after: Position, before: Position, r: int, c: int)
    requires OnBoard(r, c)
  {
    SameOrQueened(before.squares[r][c], after.squares[r][c])
  }

  /** The board after a search differs from the one before only by pawns
      that have become queens; the side to move is the same. */
  ghost predicate Queened(after: Position, before: Position) {
    && after.whiteToMove == before.whiteToMove
    && forall r, c :: OnBoard(r, c) ==> SquareQueened(after, before, r, c)
  }

  lemma QueenedTransitive(a: Position, b: Position, c: Position)
    requires Queened(b, a) && Queened(c, b)
    ensures Queened(c, a)
  {
    forall r, k | OnBoard(r, k)
      ensures SquareQueened(c, a, r, k)
    {
      assert SquareQueened(b, a, r, k) && SquareQueened(c, b, r, k);
    }
  }

  /** One make / explore / undo step: whatever the exploration of the child
      did (only queening pawns), undoing leaves the parent's board queened. */
  lemma MakeExploreUndo(p: Position, m: Move, explored: Position)
    requires InBounds(m)
    requires Queened(explored, ApplyMove(p, m))
    ensures Queened(RevertMove(explored, m, p.squares[m.toRow][m.toCol]), p)
  {
    var back := RevertMove(explored, m, p.squares[m.toRow][m.toCol]);
    forall r, c | OnBoard(r, c)
      ensures SquareQueened(back, p, r, c)
    {
      assert SquareQueened(explored, ApplyMove(p, m), r, c);
      if (r, c) == (m.fromRow, m.fromCol) {
        assert SquareQueened(explored, ApplyMove(p, m), m.toRow, m.toCol);
        assert back.squares[r][c] == explored.squares[m.toRow][m.toCol];
      }
    }
  }

  /** A board without pawns cannot be queened: it is unchanged. */
  lemma QueenedWithoutPawns(after: Position, before: Position)
    requires Queened(after, before)
    requires forall r, c :: OnBoard(r, c) ==> before.squares[r][c] != WP && before.squares[r][c] != BP
    ensures after == before
  {
    forall r, c | OnBoard(r, c)
      ensures after.squares[r][c] == before.squares[r][c]
    {
      assert SquareQueened(after, before, r, c);
    }
    GridExtensionality(after.squares, before.squares);
  }
}
