/** The engine's shared types and constants: the piece encoding, the board,
    moves and the transposition-table records (the header Engine.h). */
module EngineTypes {

  const BOARD_SIZE: int := 8
  const MATE_SCORE: int := 100000
  /** std::numeric_limits<int>::max() for a 32-bit int. */
  const INFINITY_SCORE: int := 2147483647

  /** A piece code: the enum runs from EMPTY = 0 to BK = 12. */
  type Piece = x: int | 0 <= x <= 12

  const EMPTY: Piece := 0
  const WP: Piece := 1
  const WN: Piece := 2
  const WB: Piece := 3
  const WR: Piece := 4
  const WQ: Piece := 5
  const WK: Piece := 6
  const BP: Piece := 7
  const BN: Piece := 8
  const BB: Piece := 9
  const BR: Piece := 10
  const BQ: Piece := 11
  const BK: Piece := 12

  /** The colour test the move generator uses. */
  predicate IsWhite(p: Piece) { p >= WP && p <= WK }

  predicate IsBlack(p: Piece) { p >= BP && p <= BK }

  /** Every code is empty, white or black, exactly one of them, and every
      code indexes the third dimension (14 entries) of the Zobrist table. */
  lemma PieceClasses(p: Piece)
    ensures p == EMPTY || IsWhite(p) || IsBlack(p)
    ensures !(IsWhite(p) && IsBlack(p)) && !(p == EMPTY && (IsWhite(p) || IsBlack(p)))
    ensures IsWhite(p) <==> 1 <= p <= 6
    ensures IsBlack(p) <==> 7 <= p <= 12
    ensures 0 <= p < 14
  {
  }

  predicate OnBoard(r: int, c: int) { 0 <= r < BOARD_SIZE && 0 <= c < BOARD_SIZE }

  /** The squares of a board, indexed [row][column]. */
  type Grid = g: seq<seq<Piece>> | |g| == 8 && forall r :: 0 <= r < 8 ==> |g[r]| == 8
    witness seq(8, _ => seq(8, _ => 0))

  /** The value of a Board: its squares and the side to move. */
  datatype Position = Position(squares: Grid, whiteToMove: bool)

  function EmptyGrid(): (g: Grid)
    ensures forall r, c :: OnBoard(r, c) ==> g[r][c] == EMPTY
  {
    seq(8, _ => seq(8, _ => EMPTY))
  }

  /** The grid with square (r, c) replaced by x. */
  function Set(g: Grid, r: int, c: int, x: Piece): (h: Grid)
    requires OnBoard(r, c)
    ensures h[r][c] == x
    ensures forall i, j :: OnBoard(i, j) && (i, j) != (r, c) ==> h[i][j] == g[i][j]
  {
    var row: seq<Piece> := g[r][c := x];
    g[r := row]
  }

  /** Two grids that agree on every square are equal. */
  lemma GridExtensionality(g: Grid, h: Grid)
    requires forall r, c :: OnBoard(r, c) ==> g[r][c] == h[r][c]
    ensures g == h
  {
    forall r | 0 <= r < 8
      ensures g[r] == h[r]
    {
      assert forall c :: 0 <= c < 8 ==> g[r][c] == h[r][c] by {
        forall c | 0 <= c < 8 ensures g[r][c] == h[r][c] { assert OnBoard(r, c); }
      }
    }
  }

  datatype Move = Move(fromRow: int, fromCol: int, toRow: int, toCol: int, promotion: Piece)

  /** The four-argument Move constructor: the promotion defaults to EMPTY. */
  function NewMove(fr: int, fc: int, tr: int, tc: int): (m: Move)
    ensures m.fromRow == fr && m.fromCol == fc && m.toRow == tr && m.toCol == tc
    ensures m.promotion == EMPTY
  {
    Move(fr, fc, tr, tc, EMPTY)
  }

  /** Both squares of the move are on the board. */
  predicate InBounds(m: Move) { OnBoard(m.fromRow, m.fromCol) && OnBoard(m.toRow, m.toCol) }

  datatype TTKey = TTKey(positionKey: bv64, depth: int)

  /** flag: 0 exact, -1 lower bound, 1 upper bound. */
  datatype TTEntry = TTEntry(score: int, flag: int, depth: int)

  /** The transposition table's key comparison. */
  predicate KeyEqual(a: TTKey, b: TTKey) {
    a.positionKey == b.positionKey && a.depth == b.depth
  }

  /** The comparison is exactly equality of keys, so a map keyed by TTKey
      behaves as the table does; in particular it is an equivalence. */
  lemma KeyEqualIsEquality(a: TTKey, b: TTKey, c: TTKey)
    ensures KeyEqual(a, b) <==> a == b
    ensures KeyEqual(a, a)
    ensures KeyEqual(a, b) ==> KeyEqual(b, a)
    ensures KeyEqual(a, b) && KeyEqual(b, c) ==> KeyEqual(a, c)
  {
  }

  /** Mate scores lie strictly inside the root search window. */
  lemma ScoreConstants()
    ensures -INFINITY_SCORE < -MATE_SCORE < 0 < MATE_SCORE < INFINITY_SCORE
  {
  }

  /** The board: an 8x8 array of pieces, written in place, and the side to move. */
  class Board {
    const squares: array2<Piece>
    var whiteToMove: bool

    ghost predicate Valid() {
      squares.Length0 == BOARD_SIZE && squares.Length1 == BOARD_SIZE
    }

    /** The board's current value. */
    ghost function Model(): (p: Position)
      requires Valid()
      reads this, squares
      ensures p.whiteToMove == whiteToMove
      ensures forall r, c :: OnBoard(r, c) ==> p.squares[r][c] == squares[r, c]
    {
      Position(seq(8, r requires 0 <= r < 8 reads squares =>
                        seq(8, c requires 0 <= c < 8 reads squares => squares[r, c])),
               whiteToMove)
    }

    /** Board(): every square EMPTY, white to move. */
    constructor()
      ensures Valid() && fresh(squares)
      ensures forall r, c :: OnBoard(r, c) ==> squares[r, c] == EMPTY
      ensures Model() == Position(EmptyGrid(), true)
    {
      var a := new Piece[BOARD_SIZE, BOARD_SIZE];
      var r := 0;
      while r < BOARD_SIZE
        invariant 0 <= r <= BOARD_SIZE
        invariant forall i, j :: 0 <= i < r && 0 <= j < BOARD_SIZE ==> a[i, j] == EMPTY
      {
        var c := 0;
        while c < BOARD_SIZE
          invariant 0 <= c <= BOARD_SIZE
          invariant forall i, j :: 0 <= i < r && 0 <= j < BOARD_SIZE ==> a[i, j] == EMPTY
          invariant forall j :: 0 <= j < c ==> a[r, j] == EMPTY
        {
          a[r, c] := EMPTY;
          c := c + 1;
        }
        r := r + 1;
      }
      squares := a;
      whiteToMove := true;
      new;
      GridExtensionality(Model().squares, EmptyGrid());
    }
  }
}
