/** Position hashing (ChessEngine::computeZobristHash): the XOR of one table
    entry per occupied square, complemented when black is to move. */
module Zobrist {
  import opened EngineTypes

  /** The 8 x 8 x 14 table of 64-bit keys, indexed [row][column][piece]. */
  type ZobristTable = t: seq<seq<seq<bv64>>> |
    && |t| == 8
    && (forall r :: 0 <= r < 8 ==> |t[r]| == 8)
    && (forall r, c :: 0 <= r < 8 && 0 <= c < 8 ==> |t[r][c]| == 14)
    witness seq(8, _ => seq(8, _ => seq(14, _ => 0)))

  /** What square (r, c) holding p contributes: nothing when it is empty. */
  function SquareKey(z: ZobristTable, r: int, c: int, p: Piece): bv64
    requires OnBoard(r, c)
  {
    if p != EMPTY then z[r][c][p] else 0
  }

  /** XOR of the keys of squares (r, 0) .. (r, n-1). */
  function RowFold(z: ZobristTable, g: Grid, r: int, n: nat): bv64
    requires 0 <= r < BOARD_SIZE && n <= BOARD_SIZE
  {
    if n == 0 then 0 else RowFold(z, g, r, n - 1) ^ SquareKey(z, r, n - 1, g[r][n - 1])
  }

  /** XOR of the keys of rows 0 .. n-1. */
  function GridFold(z: ZobristTable, g: Grid, n: nat): bv64
    requires n <= BOARD_SIZE
  {
    if n == 0 then 0 else GridFold(z, g, n - 1) ^ RowFold(z, g, n - 1, BOARD_SIZE)
  }

  function Hash(z: ZobristTable, p: Position): bv64 {
    var h := GridFold(z, p.squares, BOARD_SIZE);
    if !p.whiteToMove then !h else h
  }

  /** Positions that differ only in the side to move have complementary,
      hence distinct, hashes. */
  lemma HashSideToMove(z: ZobristTable, g: Grid)
    ensures Hash(z, Position(g, false)) == !Hash(z, Position(g, true))
    ensures Hash(z, Position(g, false)) != Hash(z, Position(g, true))
  {
  }

  lemma {:induction false} EmptyRowFold(z: ZobristTable, r: int, n: nat)
    requires 0 <= r < BOARD_SIZE && n <= BOARD_SIZE
    ensures RowFold(z, EmptyGrid(), r, n) == 0
  {
    if n > 0 {
      EmptyRowFold(z, r, n - 1);
    }
  }

  lemma {:induction false} EmptyGridFold(z: ZobristTable, n: nat)
    requires n <= BOARD_SIZE
    ensures GridFold(z, EmptyGrid(), n) == 0
  {
    if n > 0 {
      EmptyGridFold(z, n - 1);
      EmptyRowFold(z, n - 1, BOARD_SIZE);
    }
  }

  /** The empty board with white to move hashes to 0. */
  lemma EmptyBoardHash(z: ZobristTable)
    ensures Hash(z, Position(EmptyGrid(), true)) == 0
  {
    EmptyGridFold(z, BOARD_SIZE);
  }

  /** The hash accumulated by the scan up to square (r, c), exclusive:
      rows 0 .. r-1 and columns 0 .. c-1 of row r. */
  function Scanned(z: ZobristTable, g: Grid, r: int, c: nat): bv64
    requires 0 <= r < BOARD_SIZE && c <= BOARD_SIZE
  {
    GridFold(z, g, r) ^ RowFold(z, g, r, c)
  }

  lemma XorZero(a: bv64)
    ensures a ^ 0 == a
  {
  }

  /** A row starts where the rows before it left off. */
  lemma ScannedRowStart(z: ZobristTable, g: Grid, r: int)
    requires 0 <= r < BOARD_SIZE
    ensures Scanned(z, g, r, 0) == GridFold(z, g, r)
  {
    XorZero(GridFold(z, g, r));
  }

  /** A finished row is folded into the rows before it. */
  lemma ScannedRowEnd(z: ZobristTable, g: Grid, r: int)
    requires 0 <= r < BOARD_SIZE
    ensures Scanned(z, g, r, BOARD_SIZE) == GridFold(z, g, r + 1)
  {
  }

  /** Scanning one more square XORs in its key when it is occupied. */
  lemma ScannedStep(z: ZobristTable, g: Grid, r: int, c: nat)
    requires 0 <= r < BOARD_SIZE && c < BOARD_SIZE
    ensures g[r][c] == EMPTY ==> Scanned(z, g, r, c + 1) == Scanned(z, g, r, c)
    ensures g[r][c] != EMPTY ==> Scanned(z, g, r, c + 1) == Scanned(z, g, r, c) ^ z[r][c][g[r][c]]
  {
    if g[r][c] == EMPTY {
      ScannedEmpty(z, g, r, c);
    } else {
      ScannedOccupied(z, g, r, c);
    }
  }

  lemma ScannedEmpty(z: ZobristTable, g: Grid, r: int, c: nat)
    requires 0 <= r < BOARD_SIZE && c < BOARD_SIZE && g[r][c] == EMPTY
    ensures Scanned(z, g, r, c + 1) == Scanned(z, g, r, c)
  {
    ScannedXor(z, g, r, c);
    XorRegroup(GridFold(z, g, r), RowFold(z, g, r, c), 0);
  }

  lemma ScannedOccupied(z: ZobristTable, g: Grid, r: int, c: nat)
    requires 0 <= r < BOARD_SIZE && c < BOARD_SIZE && g[r][c] != EMPTY
    ensures Scanned(z, g, r, c + 1) == Scanned(z, g, r, c) ^ z[r][c][g[r][c]]
  {
    ScannedXor(z, g, r, c);
    XorRegroup(GridFold(z, g, r), RowFold(z, g, r, c), z[r][c][g[r][c]]);
  }

  lemma XorRegroup(a: bv64, b: bv64, k: bv64)
    ensures a ^ (b ^ k) == (a ^ b) ^ k
    ensures a ^ (b ^ 0) == a ^ b
  {
  }

  /** Scanning one more square XORs in its SquareKey. */
  lemma ScannedXor(z: ZobristTable, g: Grid, r: int, c: nat)
    requires 0 <= r < BOARD_SIZE && c < BOARD_SIZE
    ensures Scanned(z, g, r, c + 1) == GridFold(z, g, r) ^ (RowFold(z, g, r, c) ^ SquareKey(z, r, c, g[r][c]))
  {
  }
}
