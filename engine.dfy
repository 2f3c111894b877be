/** The engine object (class ChessEngine): its transposition table, which
    persists across searches, and its Zobrist keys. Every method works on a
    Board in place, as the source does, and is proved to compute what the
    functions of the other modules specify. */
module Engine {
  import opened EngineTypes
  import MoveGen
  import opened MakeUndo
  import Evaluation
  import opened Zobrist
  import Search
  import RootSearch
  import opened Setup

  class ChessEngine {
    /** The transposition table (tTable). */
    var tTable: Search.Table
    /** The Zobrist keys (zobristTable), fixed once the engine exists. */
    const zobristTable: ZobristTable

    /** The table only ever holds what the search stores. */
    ghost predicate Valid()
      reads this
    {
      Search.TableOK(tTable)
    }

    /** ChessEngine(): the keys come from the caller instead of a seeded
        random generator; the table starts empty. */
    constructor(keys: ZobristTable)
      ensures Valid() && zobristTable == keys && tTable == map[]
    {
      zobristTable := keys;
      tTable := map[];
    }

    /** computeZobristHash: XOR the key of every occupied square, then
        complement when black is to move. */
    method ComputeZobristHash(board: Board) returns (h: bv64)
      requires board.Valid()
      ensures h == Hash(zobristTable, board.Model())
    {
      ghost var g := board.Model().squares;
      h := 0;
      for r := 0 to BOARD_SIZE
        invariant h == GridFold(zobristTable, g, r)
      {
        ScannedRowStart(zobristTable, g, r);
        for c := 0 to BOARD_SIZE
          invariant h == Scanned(zobristTable, g, r, c)
        {
          var p := board.squares[r, c];
          ScannedStep(zobristTable, g, r, c);
          if p != EMPTY {
            h := h ^ zobristTable[r][c][p];
          }
        }
        ScannedRowEnd(zobristTable, g, r);
      }
      if !board.whiteToMove {
        h := !h;
      }
    }

    /** initBoard: clear the board, then set up the standard position with
        white to move. */
    method InitBoard(board: Board)
      requires board.Valid()
      modifies board, board.squares
      ensures board.Model() == InitialPosition()
    {
      ClearSquares(board);
      PlacePawns(board);
      PlaceBackRanks(board);
      board.whiteToMove := true;
      GridExtensionality(board.Model().squares, InitialPosition().squares);
    }

    /** The first step of initBoard: every square EMPTY. */
    method ClearSquares(board: Board)
      requires board.Valid()
      modifies board.squares
      ensures forall i, j :: OnBoard(i, j) ==> board.squares[i, j] == EMPTY
    {
      for r := 0 to BOARD_SIZE
        invariant forall i, j :: 0 <= i < r && 0 <= j < BOARD_SIZE ==> board.squares[i, j] == EMPTY
      {
        for c := 0 to BOARD_SIZE
          invariant forall i, j :: 0 <= i < r && 0 <= j < BOARD_SIZE ==> board.squares[i, j] == EMPTY
          invariant forall j :: 0 <= j < c ==> board.squares[r, j] == EMPTY
        {
          board.squares[r, c] := EMPTY;
        }
      }
    }

    /** The second step of initBoard: white pawns on row 1, black pawns on row 6. */
    method PlacePawns(board: Board)
      requires board.Valid()
      requires forall i, j :: OnBoard(i, j) ==> board.squares[i, j] == EMPTY
      modifies board.squares
      ensures forall i, j :: OnBoard(i, j) ==>
                board.squares[i, j] == if i == 1 then WP else if i == 6 then BP else EMPTY
    {
      for c := 0 to BOARD_SIZE
        invariant forall i, j :: OnBoard(i, j) ==>
                    board.squares[i, j] == if i == 1 && j < c then WP else if i == 6 && j < c then BP else EMPTY
      {
        board.squares[1, c] := WP;
        board.squares[6, c] := BP;
      }
    }

    /** The last step of initBoard: the pieces behind the pawns, in the
        order rooks, knights, bishops, queen, king. */
    method PlaceBackRanks(board: Board)
      requires board.Valid()
      requires forall i, j :: OnBoard(i, j) ==>
                 board.squares[i, j] == if i == 1 then WP else if i == 6 then BP else EMPTY
      modifies board.squares
      ensures forall i, j :: OnBoard(i, j) ==> board.squares[i, j] == InitialPiece(i, j)
    {
      PlaceRooks(board);
      PlaceKnights(board);
      PlaceBishops(board);
      PlaceQueens(board);
      PlaceKings(board);
    }

    /** Rooks on columns 0 and 7. */
    method PlaceRooks(board: Board)
      requires board.Valid()
      modifies board.squares
      ensures forall i, j :: OnBoard(i, j) ==>
                board.squares[i, j] == if i == 0 && (j == 0 || j == 7) then WR
                                       else if i == 7 && (j == 0 || j == 7) then BR
                                       else old(board.squares[i, j])
    {
      board.squares[0, 0] := WR; board.squares[0, 7] := WR;
      board.squares[7, 0] := BR; board.squares[7, 7] := BR;
    }

    /** Knights on columns 1 and 6. */
    method PlaceKnights(board: Board)
      requires board.Valid()
      modifies board.squares
      ensures forall i, j :: OnBoard(i, j) ==>
                board.squares[i, j] == if i == 0 && (j == 1 || j == 6) then WN
                                       else if i == 7 && (j == 1 || j == 6) then BN
                                       else old(board.squares[i, j])
    {
      board.squares[0, 1] := WN; board.squares[0, 6] := WN;
      board.squares[7, 1] := BN; board.squares[7, 6] := BN;
    }

    /** Bishops on columns 2 and 5. */
    method PlaceBishops(board: Board)
      requires board.Valid()
      modifies board.squares
      ensures forall i, j :: OnBoard(i, j) ==>
                board.squares[i, j] == if i == 0 && (j == 2 || j == 5) then WB
                                       else if i == 7 && (j == 2 || j == 5) then BB
                                       else old(board.squares[i, j])
    {
      board.squares[0, 2] := WB; board.squares[0, 5] := WB;
      board.squares[7, 2] := BB; board.squares[7, 5] := BB;
    }

    /** Queens on column 3. */
    method PlaceQueens(board: Board)
      requires board.Valid()
      modifies board.squares
      ensures forall i, j :: OnBoard(i, j) ==>
                board.squares[i, j] == if i == 0 && (j == 3) then WQ
                                       else if i == 7 && (j == 3) then BQ
                                       else old(board.squares[i, j])
    {
      board.squares[0, 3] := WQ;
      board.squares[7, 3] := BQ;
    }

    /** Kings on column 4. */
    method PlaceKings(board: Board)
      requires board.Valid()
      modifies board.squares
      ensures forall i, j :: OnBoard(i, j) ==>
                board.squares[i, j] == if i == 0 && (j == 4) then WK
                                       else if i == 7 && (j == 4) then BK
                                       else old(board.squares[i, j])
    {
      board.squares[0, 4] := WK;
      board.squares[7, 4] := BK;
    }

    /** generateMoves: scan the board row by row; for each piece of the
        side to move, add the single pawn push, the diagonal pawn captures,
        or the knight jumps. */
    method GenerateMoves(board: Board) returns (moves: seq<Move>)
      requires board.Valid()
      ensures moves == MoveGen.GenerateMoves(board.Model())
    {
      ghost var p := board.Model();
      moves := [];
      for r := 0 to BOARD_SIZE
        invariant moves == MoveGen.GridMoves(p, r)
      {
        moves := AddRowMoves(board, r, moves);
      }
    }

    /** One pass of generateMoves' outer loop: the squares of row r, left to right. */
    method AddRowMoves(board: Board, r: int, before: seq<Move>) returns (moves: seq<Move>)
      requires board.Valid() && 0 <= r < BOARD_SIZE
      ensures moves == before + MoveGen.RowMoves(board.Model(), r, BOARD_SIZE)
    {
      ghost var p := board.Model();
      moves := before;
      for c := 0 to BOARD_SIZE
        invariant moves == before + MoveGen.RowMoves(p, r, c)
      {
        moves := AddSquareMoves(board, r, c, moves);
        SeqAppendAssoc(before, MoveGen.RowMoves(p, r, c), MoveGen.SquareMoves(p, r, c), moves, MoveGen.RowMoves(p, r, c + 1));
      }
    }

    lemma SeqAppendAssoc(a: seq<Move>, b: seq<Move>, c: seq<Move>, all: seq<Move>, tail: seq<Move>)
      requires all == (a + b) + c && tail == b + c
      ensures all == a + tail
    {
    }

    /** The body of generateMoves' inner loop: append the moves of the
        piece on (r, c), if it belongs to the side to move. */
    method AddSquareMoves(board: Board, r: int, c: int, before: seq<Move>) returns (moves: seq<Move>)
      requires board.Valid() && OnBoard(r, c)
      ensures moves == before + MoveGen.SquareMoves(board.Model(), r, c)
    {
      moves := before;
      var piece := board.squares[r, c];
      if piece == EMPTY {
        return;
      }
      var isWhitePiece := piece >= WP && piece <= WK;
      if (board.whiteToMove && !isWhitePiece) || (!board.whiteToMove && isWhitePiece) {
        return;
      }
      if piece == WP {
        moves := AddWhitePawnMoves(board, r, c, before);
      } else if piece == BP {
        moves := AddBlackPawnMoves(board, r, c, before);
      } else if piece == WN || piece == BN {
        moves := AddKnightMoves(board, r, c, isWhitePiece, before);
      }
    }

    /** A white pawn: the push to (r+1, c) and the captures on (r+1, c+-1). */
    method AddWhitePawnMoves(board: Board, r: int, c: int, before: seq<Move>) returns (moves: seq<Move>)
      requires board.Valid() && OnBoard(r, c)
      ensures moves == before + MoveGen.WhitePawnMoves(board.Model(), r, c)
    {
      moves := before;
      if r + 1 < BOARD_SIZE && board.squares[r + 1, c] == EMPTY {
        moves := moves + [NewMove(r, c, r + 1, c)];
      }
      if r + 1 < BOARD_SIZE && c + 1 < BOARD_SIZE {
        if board.squares[r + 1, c + 1] >= BP {
          moves := moves + [NewMove(r, c, r + 1, c + 1)];
        }
      }
      if r + 1 < BOARD_SIZE && c - 1 >= 0 {
        if board.squares[r + 1, c - 1] >= BP {
          moves := moves + [NewMove(r, c, r + 1, c - 1)];
        }
      }
    }

    /** A black pawn: the push to (r-1, c) and the captures on (r-1, c+-1). */
    method AddBlackPawnMoves(board: Board, r: int, c: int, before: seq<Move>) returns (moves: seq<Move>)
      requires board.Valid() && OnBoard(r, c)
      ensures moves == before + MoveGen.BlackPawnMoves(board.Model(), r, c)
    {
      moves := before;
      if r - 1 >= 0 && board.squares[r - 1, c] == EMPTY {
        moves := moves + [NewMove(r, c, r - 1, c)];
      }
      if r - 1 >= 0 && c + 1 < BOARD_SIZE {
        if board.squares[r - 1, c + 1] <= WK && board.squares[r - 1, c + 1] != EMPTY {
          moves := moves + [NewMove(r, c, r - 1, c + 1)];
        }
      }
      if r - 1 >= 0 && c - 1 >= 0 {
        if board.squares[r - 1, c - 1] <= WK && board.squares[r - 1, c - 1] != EMPTY {
          moves := moves + [NewMove(r, c, r - 1, c - 1)];
        }
      }
    }

    /** A knight: each of the eight offsets that lands on the board on an
        empty or enemy square. */
    method AddKnightMoves(board: Board, r: int, c: int, isWhitePiece: bool, before: seq<Move>)
      returns (moves: seq<Move>)
      requires board.Valid() && OnBoard(r, c)
      ensures moves == before + MoveGen.KnightMoves(board.Model(), r, c, isWhitePiece, |MoveGen.KNIGHT_OFFSETS|)
    {
      ghost var p := board.Model();
      moves := before;
      for k := 0 to |MoveGen.KNIGHT_OFFSETS|
        invariant moves == before + MoveGen.KnightMoves(p, r, c, isWhitePiece, k)
      {
        moves := AddKnightJump(board, r, c, isWhitePiece, MoveGen.KNIGHT_OFFSETS[k], moves);
        SeqAppendAssoc(before, MoveGen.KnightMoves(p, r, c, isWhitePiece, k),
                       MoveGen.KnightJump(p, r, c, isWhitePiece, MoveGen.KNIGHT_OFFSETS[k]), moves,
                       MoveGen.KnightMoves(p, r, c, isWhitePiece, k + 1));
      }
    }

    /** One offset of the knight loop: the jump, if it lands on the board on
        an empty or enemy square. */
    method AddKnightJump(board: Board, r: int, c: int, isWhitePiece: bool, offset: (int, int), before: seq<Move>)
      returns (moves: seq<Move>)
      requires board.Valid() && OnBoard(r, c)
      ensures moves == before + MoveGen.KnightJump(board.Model(), r, c, isWhitePiece, offset)
    {
      moves := before;
      var rr := r + offset.0;
      var cc := c + offset.1;
      if rr >= 0 && rr < BOARD_SIZE && cc >= 0 && cc < BOARD_SIZE {
        var target := board.squares[rr, cc];
        if isWhitePiece {
          if target == EMPTY || (target >= BP && target <= BK) {
            moves := moves + [NewMove(r, c, rr, cc)];
          }
        } else {
          if target == EMPTY || (target >= WP && target <= WK) {
            moves := moves + [NewMove(r, c, rr, cc)];
          }
        }
      }
    }

    /** makeMove: the moving piece leaves its square for the destination,
        a pawn reaching the last row becomes a queen, the side flips. */
    method MakeMove(board: Board, move: Move)
      requires board.Valid() && InBounds(move)
      modifies board, board.squares
      ensures board.Model() == ApplyMove(old(board.Model()), move)
    {
      ghost var before := board.Model();
      var movingPiece := board.squares[move.fromRow, move.fromCol];
      board.squares[move.fromRow, move.fromCol] := EMPTY;
      board.squares[move.toRow, move.toCol] := movingPiece;
      if movingPiece == WP && move.toRow == 7 {
        board.squares[move.toRow, move.toCol] := WQ;
      }
      if movingPiece == BP && move.toRow == 0 {
        board.squares[move.toRow, move.toCol] := BQ;
      }
      board.whiteToMove := !board.whiteToMove;
      ghost var expected := ApplyMove(before, move).squares;
      forall r, c | OnBoard(r, c)
        ensures board.squares[r, c] == expected[r][c]
      {
        if (r, c) == (move.toRow, move.toCol) {
        } else if (r, c) == (move.fromRow, move.fromCol) {
        } else {
          assert board.squares[r, c] == before.squares[r][c];
        }
      }
      GridExtensionality(board.Model().squares, expected);
    }

    /** undoMove: the piece on the destination goes back to the origin and
        the captured piece to the destination; the side flips back. */
    method UndoMove(board: Board, move: Move, captured: Piece)
      requires board.Valid() && InBounds(move)
      modifies board, board.squares
      ensures board.Model() == RevertMove(old(board.Model()), move, captured)
    {
      ghost var before := board.Model();
      var movingPiece := board.squares[move.toRow, move.toCol];
      board.squares[move.toRow, move.toCol] := captured;
      board.squares[move.fromRow, move.fromCol] := movingPiece;
      board.whiteToMove := !board.whiteToMove;
      GridExtensionality(board.Model().squares, RevertMove(before, move, captured).squares);
    }

    /** evaluate: the sum of the piece values, from the side to move's view. */
    method Evaluate(board: Board) returns (v: int)
      requires board.Valid()
      ensures v == Evaluation.Evaluate(board.Model())
    {
      ghost var g := board.Model().squares;
      var score := 0;
      for r := 0 to BOARD_SIZE
        invariant score == Evaluation.Material(g, r)
      {
        for c := 0 to BOARD_SIZE
          invariant score == Evaluation.Material(g, r) + Evaluation.RowMaterial(g, r, c)
        {
          score := score + Evaluation.PIECE_VALUE[board.squares[r, c]];
        }
      }
      v := if board.whiteToMove then score else -score;
    }

    /** alphaBeta: depth 0 evaluates; otherwise probe the table, search the
        moves with alpha-beta cutoffs, and store the result under the
        position's key. */
    method AlphaBeta(board: Board, alpha: int, beta: int, depth: int, maximizingPlayer: bool)
      returns (value: int)
      requires board.Valid() && Valid() && depth >= 0
      modifies this, board, board.squares
      ensures Valid()
      ensures Search.SearchResult(value, board.Model(), tTable)
              == Search.AlphaBeta(zobristTable, old(board.Model()), old(tTable), alpha, beta, depth, maximizingPlayer)
      decreases depth, 4
    {
      if depth == 0 {
        value := Evaluate(board);
        return;
      }
      var hash := ComputeZobristHash(board);
      var ttKey := TTKey(hash, depth);
      var cutoff, score, a, b := ProbeTable(ttKey, depth, alpha, beta);
      if cutoff {
        return score;
      }
      var moves := GenerateMoves(board);
      if |moves| == 0 {
        return if maximizingPlayer then -MATE_SCORE else MATE_SCORE;
      }
      value := SearchAndStore(board, moves, ttKey, alpha, beta, a, b, depth, maximizingPlayer);
    }

    /** The probe at the head of alphaBeta: an exact entry, or a bound that
        closes the narrowed window, ends the search with its score. */
    method ProbeTable(ttKey: TTKey, depth: int, alpha: int, beta: int)
      returns (cutoff: bool, score: int, a: int, b: int)
      ensures (if cutoff then Search.Cutoff(score) else Search.Window(a, b))
              == Search.Probe(tTable, ttKey, depth, alpha, beta)
    {
      cutoff, score, a, b := false, 0, alpha, beta;
      if ttKey in tTable {
        var entry := tTable[ttKey];
        if entry.depth >= depth {
          if entry.flag == 0 {
            return true, entry.score, a, b;
          } else if entry.flag == -1 {
            a := Search.Max(a, entry.score);
          } else if entry.flag == 1 {
            b := Search.Min(b, entry.score);
          }
          if a >= b {
            return true, entry.score, a, b;
          }
        }
      }
    }

    /** The rest of alphaBeta at a node with moves, once the probe left the
        window (a, b): the move loop, then the store under the node's key. */
    method SearchAndStore(board: Board, moves: seq<Move>, ttKey: TTKey, alpha: int, beta: int, a: int, b: int,
                          depth: int, maximizingPlayer: bool)
      returns (value: int)
      requires board.Valid() && Valid() && depth >= 1
      requires moves == MoveGen.GenerateMoves(board.Model()) && moves != []
      requires ttKey == Search.KeyOf(zobristTable, board.Model(), depth)
      requires Search.Probe(tTable, ttKey, depth, alpha, beta) == Search.Window(a, b)
      modifies this, board, board.squares
      ensures Valid()
      ensures Search.SearchResult(value, board.Model(), tTable)
              == Search.AlphaBeta(zobristTable, old(board.Model()), old(tTable), alpha, beta, depth, maximizingPlayer)
      decreases depth, 3
    {
      Search.AlphaBetaSearched(zobristTable, board.Model(), tTable, alpha, beta, depth, maximizingPlayer, a, b);
      Search.AlphaBetaTable(zobristTable, board.Model(), tTable, alpha, beta, depth, maximizingPlayer);
      var bestValue, a', b' := SearchMoves(board, moves, a, b, depth, maximizingPlayer);
      var flag := if bestValue <= a' then 1 else if bestValue >= b' then -1 else 0;
      tTable := tTable[ttKey := TTEntry(bestValue, flag, depth)];
      value := bestValue;
    }

    /** The move loop of alphaBeta: explore each move in turn, fold its
        value into bestValue and the window, and stop once the window
        closes. Returns bestValue and the final window. */
    method SearchMoves(board: Board, moves: seq<Move>, alpha: int, beta: int, depth: int, maximizingPlayer: bool)
      returns (bestValue: int, a: int, b: int)
      requires board.Valid() && Valid() && depth >= 1 && Search.MovesInBounds(moves)
      modifies this, board, board.squares
      ensures Valid()
      ensures Search.Node(bestValue, a, b, board.Model(), tTable)
              == Search.SearchMoves(zobristTable, moves, 0, old(board.Model()), old(tTable), alpha, beta, depth,
                                    maximizingPlayer, Search.WorstValue(maximizingPlayer))
      decreases depth, 2
    {
      a, b := alpha, beta;
      bestValue := if maximizingPlayer then -INFINITY_SCORE else INFINITY_SCORE;
      var i := 0;
      while i < |moves|
        invariant 0 <= i <= |moves|
        invariant Valid()
        invariant Search.SearchMoves(zobristTable, moves, i, board.Model(), tTable, a, b, depth,
                                     maximizingPlayer, bestValue)
                  == Search.SearchMoves(zobristTable, moves, 0, old(board.Model()), old(tTable), alpha, beta, depth,
                                    maximizingPlayer, Search.WorstValue(maximizingPlayer))
        decreases |moves| - i
      {
        var cutoff;
        bestValue, a, b, cutoff := FoldMove(board, moves, i, a, b, depth, maximizingPlayer, bestValue);
        if cutoff {
          return;
        }
        i := i + 1;
      }
    }

    /** One turn of the move loop: explore moves[i], fold its value into
        bestValue and the window, and report whether the window closed. */
    method FoldMove(board: Board, moves: seq<Move>, i: int, alpha: int, beta: int, depth: int,
                    maximizingPlayer: bool, best: int)
      returns (bestValue: int, a: int, b: int, cutoff: bool)
      requires board.Valid() && Valid() && depth >= 1 && Search.MovesInBounds(moves) && 0 <= i < |moves|
      modifies this, board, board.squares
      ensures Valid()
      ensures Search.SearchMoves(zobristTable, moves, i, old(board.Model()), old(tTable), alpha, beta, depth,
                                 maximizingPlayer, best)
              == if cutoff then Search.Node(bestValue, a, b, board.Model(), tTable)
                 else Search.SearchMoves(zobristTable, moves, i + 1, board.Model(), tTable, a, b, depth,
                                         maximizingPlayer, bestValue)
      ensures cutoff <==> if maximizingPlayer then a >= beta else b <= alpha
      decreases depth, 1
    {
      var v := ExploreMove(board, moves[i], alpha, beta, depth, maximizingPlayer);
      a, b := alpha, beta;
      if maximizingPlayer {
        bestValue := Search.Max(best, v);
        a := Search.Max(alpha, bestValue);
        cutoff := a >= beta;
      } else {
        bestValue := Search.Min(best, v);
        b := Search.Min(beta, bestValue);
        cutoff := b <= alpha;
      }
    }

    /** One turn of the move loop: make the move, search one ply shallower
        with the roles swapped, and undo the move with the piece that stood
        on the destination. */
    method ExploreMove(board: Board, m: Move, alpha: int, beta: int, depth: int, maximizingPlayer: bool)
      returns (v: int)
      requires board.Valid() && Valid() && depth >= 1 && InBounds(m)
      modifies this, board, board.squares
      ensures Valid()
      ensures Search.SearchResult(v, board.Model(), tTable)
              == Search.Explore(zobristTable, old(board.Model()), old(tTable), m, alpha, beta, depth, maximizingPlayer)
      decreases depth, 0
    {
      ghost var pos, tt := board.Model(), tTable;
      var captured := board.squares[m.toRow, m.toCol];
      MakeMove(board, m);
      v := AlphaBeta(board, alpha, beta, depth - 1, !maximizingPlayer);
      ghost var child := Search.SearchResult(v, board.Model(), tTable);
      UndoMove(board, m, captured);
      Search.ExploreOf(zobristTable, pos, tt, m, alpha, beta, depth, maximizingPlayer, child);
    }

    /** findBestMove: iterative deepening from 1 to depth over the moves
        generated once at the start; the last iteration's choice is returned. */
    method FindBestMove(board: Board, depth: int) returns (bestMove: Move)
      requires board.Valid() && Valid()
      modifies this, board, board.squares
      ensures Valid()
      ensures RootSearch.RootResult(bestMove, board.Model(), tTable)
              == RootSearch.FindBestMove(zobristTable, old(board.Model()), old(tTable), depth)
    {
      bestMove := NewMove(0, 0, 0, 0);
      var moves := GenerateMoves(board);
      if |moves| == 0 {
        return;
      }
      ghost var step := RootSearch.Step(zobristTable, moves);
      ghost var goal := RootSearch.Loop(step, 1, depth, RootSearch.RootResult(bestMove, board.Model(), tTable));
      var bestScore := -INFINITY_SCORE;
      var d := 1;
      while d <= depth
        invariant d >= 1 && Valid()
        invariant RootSearch.Loop(step, d, depth, RootSearch.RootResult(bestMove, board.Model(), tTable)) == goal
        decreases depth - d
      {
        ghost var r := RootSearch.RootResult(bestMove, board.Model(), tTable);
        assert step(r, d) == RootSearch.Iteration(zobristTable, moves, r.pos, r.tt, d);
        var localBestScore, localBestMove := RootIteration(board, moves, d);
        bestScore := localBestScore;
        bestMove := localBestMove;
        d := d + 1;
      }
    }

    /** One iteration of findBestMove at depth d: every root move is made,
        searched by alphaBeta at depth d - 1 with the full window and
        maximizingPlayer set to the side not to move after it, and undone;
        a move replaces the choice only with a strictly higher score. */
    method RootIteration(board: Board, moves: seq<Move>, d: int) returns (localBestScore: int, localBestMove: Move)
      requires board.Valid() && Valid() && d >= 1 && 0 < |moves| && Search.MovesInBounds(moves)
      modifies this, board, board.squares
      ensures Valid()
      ensures RootSearch.RootResult(localBestMove, board.Model(), tTable)
              == RootSearch.Iteration(zobristTable, moves, old(board.Model()), old(tTable), d)
      ensures localBestScore
              == RootSearch.Pick(moves, RootSearch.RootPass(zobristTable, moves, 0, old(board.Model()), old(tTable), d, []).scores).0
    {
      localBestScore := -INFINITY_SCORE;
      localBestMove := moves[0];
      ghost var scores: seq<int> := [];
      var i := 0;
      while i < |moves|
        invariant 0 <= i <= |moves| && |scores| == i
        invariant Valid()
        invariant RootSearch.RootPass(zobristTable, moves, i, board.Model(), tTable, d, scores)
                  == RootSearch.RootPass(zobristTable, moves, 0, old(board.Model()), old(tTable), d, [])
        invariant (localBestScore, localBestMove) == RootSearch.Pick(moves, scores)
        decreases |moves| - i
      {
        var m := moves[i];
        var score := SearchRootMove(board, m, d);
        if score > localBestScore {
          localBestScore := score;
          localBestMove := m;
        }
        RootSearch.PickStep(moves, scores, score);
        scores := scores + [score];
        i := i + 1;
      }
    }

    /** The body of findBestMove's root loop: make the move, search the
        reply at depth d - 1 with the full window, maximizingPlayer being
        the negation of the side to move after the move, and undo it. */
    method SearchRootMove(board: Board, m: Move, d: int) returns (score: int)
      requires board.Valid() && Valid() && d >= 1 && InBounds(m)
      modifies this, board, board.squares
      ensures Valid()
      ensures Search.SearchResult(score, board.Model(), tTable)
              == RootSearch.RootMove(zobristTable, old(board.Model()), old(tTable), m, d)
    {
      ghost var pos, tt := board.Model(), tTable;
      var captured := board.squares[m.toRow, m.toCol];
      MakeMove(board, m);
      score := AlphaBeta(board, -INFINITY_SCORE, INFINITY_SCORE, d - 1, !board.whiteToMove);
      ghost var child := Search.SearchResult(score, board.Model(), tTable);
      UndoMove(board, m, captured);
      RootSearch.RootMoveOf(zobristTable, pos, tt, m, d, child);
    }
  }
}
