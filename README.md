# A small alpha-beta chess engine, modelled in Dafny

The engine keeps an 8x8 board of piece codes and a side to move. Its
`ChessEngine` class does the following:

- sets up the standard starting position;
- generates pseudo-legal moves, and only some of them: single pawn pushes,
  diagonal pawn captures and knight jumps;
- makes and undoes a move in place, and always promotes a pawn to a queen;
- evaluates a position by a material sum, seen from the side to move;
- hashes a position with a Zobrist table of 64-bit keys, XORing the keys
  together;
- searches with alpha-beta pruning over a transposition table that
  outlives each call;
- drives the search from the root by iterative deepening.

The model has two layers.

- **Pure functions** say what each operation computes on values:
  - `EngineTypes` holds the piece codes, `Position`, `Move`, `TTKey`,
    `TTEntry` and the constants;
  - `MoveGen` generates moves, `MakeUndo` makes and undoes them,
    `Evaluation` evaluates and `Zobrist` hashes;
  - `Search` models `alphaBeta` and `RootSearch` models `findBestMove`;
  - `Setup` models `initBoard`.
  The search functions take the board and the table and return both as
  they are afterwards, because the source's search changes both.
- **The engine object.** `Engine.ChessEngine` is a class with the
  transposition table as a `map` field and the Zobrist keys as a constant
  field. Its methods work in place on a `Board`: a class over an
  `array2<Piece>` plus `whiteToMove`. Each method is proved to compute
  exactly what the matching function specifies.

The properties proved about those functions are these:

- the generator returns exactly the pseudo-legal pawn and knight moves;
- from the starting position it returns exactly twelve moves;
- make followed by undo restores the position, except that a promoted pawn
  comes back as a queen;
- the hash complements under a change of side to move;
- the evaluation is a colour-symmetric material sum;
- the table only ever holds entries whose depth equals their key's depth,
  with flag 1 or -1, and a maximizing node always stores flag 1;
- every `alphaBeta` call made from the root has
  `maximizingPlayer == !whiteToMove`;
- `findBestMove` returns the first move of highest score in its last
  iteration, and it leaves the board changed only by pawns that became
  queens.

## Model

| member | source | states |
|---|---|---|
| EngineTypes.PieceClasses | Engine.h:18-32 | every code is EMPTY, white (1..6) or black (7..12), exactly one of them, and is below 14, so it indexes the key table's third dimension |
| EngineTypes.NewMove | Engine.h:56-57 | the four-argument Move constructor keeps the four coordinates and sets promotion to EMPTY |
| EngineTypes.KeyEqual | Engine.h:84-88 | TTKeyEqual: two keys are equal when both the position key and the depth agree |
| EngineTypes.KeyEqualIsEquality | Engine.h:84-88 | TTKeyEqual holds iff both fields are equal, so it is equality of keys: reflexive, symmetric and transitive |
| EngineTypes.ScoreConstants | Engine.h:14-15 | -INFINITY_SCORE < -MATE_SCORE < 0 < MATE_SCORE < INFINITY_SCORE, so mate scores lie strictly inside the root window |
| EngineTypes.Board.constructor | Engine.h:39-47 | Board(): all 64 squares EMPTY and white to move; the board's value is the empty position |
| EngineTypes.Board.Model | Engine.h:35-37 | the value of a board: square (r, c) of the position is squares[r][c], and the side to move is whiteToMove |
| Engine.ChessEngine.constructor | src/Engine.cpp:8-10 | the engine starts with an empty table and the given keys |
| Engine.ChessEngine.ComputeZobristHash | src/Engine.cpp:25-40 | the nested loop returns Hash: the XOR of the keys of the occupied squares, complemented when black is to move |
| Zobrist.Hash | src/Engine.cpp:25-40 | the hash of a position: the XOR over rows and columns of the key of each occupied square for its piece, complemented when black is to move |
| Zobrist.HashSideToMove | src/Engine.cpp:35-38 | two boards that differ only in the side to move have complementary, hence distinct, hashes |
| Zobrist.EmptyBoardHash | src/Engine.cpp:26-39 | the empty board with white to move hashes to 0 |
| Zobrist.EmptyGridFold | src/Engine.cpp:27-34 | the XOR over rows 0 .. n-1 of an empty grid is 0 |
| Zobrist.ScannedStep | src/Engine.cpp:29-32 | one more square of the scan XORs in its key when it is occupied and changes nothing when it is empty |
| Zobrist.ScannedRowStart | src/Engine.cpp:27-28 | a row of the scan starts from the XOR of the rows before it |
| Zobrist.ScannedRowEnd | src/Engine.cpp:27-34 | a finished row of the scan is folded into the rows before it |
| Engine.ChessEngine.InitBoard | src/Engine.cpp:43-78 | initBoard leaves exactly the starting position, with white to move |
| Engine.ChessEngine.ClearSquares | src/Engine.cpp:44-49 | every square becomes EMPTY |
| Engine.ChessEngine.PlacePawns | src/Engine.cpp:51-55 | rows 1 and 6 become white and black pawns; every other square stays EMPTY |
| Engine.ChessEngine.PlaceBackRanks | src/Engine.cpp:57-75 | rows 0 and 7 receive their pieces, so the whole board is the starting position |
| Engine.ChessEngine.PlaceRooks | src/Engine.cpp:57-59 | rooks on columns 0 and 7 of rows 0 and 7; no other square changes |
| Engine.ChessEngine.PlaceKnights | src/Engine.cpp:61-63 | knights on columns 1 and 6 of rows 0 and 7; no other square changes |
| Engine.ChessEngine.PlaceBishops | src/Engine.cpp:65-67 | bishops on columns 2 and 5 of rows 0 and 7; no other square changes |
| Engine.ChessEngine.PlaceQueens | src/Engine.cpp:69-71 | queens on column 3 of rows 0 and 7; no other square changes |
| Engine.ChessEngine.PlaceKings | src/Engine.cpp:73-75 | kings on column 4 of rows 0 and 7; no other square changes |
| Setup.BackRankPiece | src/Engine.cpp:57-75 | each back-rank piece is white and not a pawn |
| Setup.InitialPiece | src/Engine.cpp:43-78 | rows 0 and 1 hold exactly the white pieces, rows 6 and 7 exactly the black ones, and rows 2 .. 5 are empty |
| Setup.InitialPosition | src/Engine.cpp:43-78 | white is to move and every square holds InitialPiece |
| Setup.InitialGridSymmetric | src/Engine.cpp:51-75 | black's setup is white's, reflected across the middle of the board with colours swapped |
| Setup.InitialEvaluationZero | src/Engine.cpp:216-225 | the starting position evaluates to 0 |
| Setup.InitialKnightMoves | src/Engine.cpp:142-161 | each white knight of the starting position has exactly its two forward jumps |
| Setup.InitialBackRankMoves | src/Engine.cpp:94-164 | row 0 yields only the four knight jumps; rooks, bishops, queen and king yield none |
| Setup.InitialPawnMoves | src/Engine.cpp:107-123 | each white pawn of the starting position has exactly its single push |
| Setup.InitialPawnRow | src/Engine.cpp:107-123 | row 1 yields the eight pawn pushes, left to right |
| Setup.InitialQuietRow | src/Engine.cpp:97-104 | rows 2 .. 7 of the starting position yield no white move |
| Setup.InitialQuietRows | src/Engine.cpp:94-104 | rows 2 .. 7 do not extend the list of moves |
| Setup.InitialMovesOf | src/Engine.cpp:94-167 | a board holding the starting position has the twelve moves in generator order |
| Setup.TwoActiveRows | src/Engine.cpp:94-167 | when rows 2 .. 7 contribute nothing, the moves are those of row 0 followed by those of row 1 |
| Setup.InitialMoves | src/Engine.cpp:81-170 | from the starting position white has exactly 12 moves: four knight jumps, then the eight pawn pushes |
| Engine.ChessEngine.GenerateMoves | src/Engine.cpp:81-170 | the row-by-row scan returns exactly the generator's list of moves |
| Engine.ChessEngine.AddRowMoves | src/Engine.cpp:95-166 | one pass of the outer loop appends the moves of row r, left to right |
| Engine.ChessEngine.AddSquareMoves | src/Engine.cpp:96-165 | one pass of the inner loop appends the moves of the piece on (r, c) when it belongs to the side to move; otherwise it appends nothing |
| Engine.ChessEngine.AddWhitePawnMoves | src/Engine.cpp:107-123 | appends a white pawn's push and captures |
| Engine.ChessEngine.AddBlackPawnMoves | src/Engine.cpp:125-140 | appends a black pawn's push and captures |
| Engine.ChessEngine.AddKnightMoves | src/Engine.cpp:144-160 | the offset loop appends the knight's jumps in offset order |
| Engine.ChessEngine.AddKnightJump | src/Engine.cpp:145-159 | one offset appends the jump exactly when it lands on the board on an empty or enemy square |
| MoveGen.WhitePawnMoves | src/Engine.cpp:107-123 | every white pawn move has both squares on the board |
| MoveGen.BlackPawnMoves | src/Engine.cpp:125-140 | every black pawn move has both squares on the board |
| MoveGen.KnightJump | src/Engine.cpp:145-159 | every knight jump has both squares on the board |
| MoveGen.KnightMoves | src/Engine.cpp:89-160 | the jumps by the first k entries of KNIGHT_OFFSETS, the eight knightOffsets pairs in the source's order, concatenated; every one has both squares on the board |
| MoveGen.SquareMoves | src/Engine.cpp:96-165 | every move from one square has both squares on the board |
| MoveGen.RowMoves | src/Engine.cpp:95-166 | every move from one row has both squares on the board |
| MoveGen.GridMoves | src/Engine.cpp:94-167 | every move from the first n rows has both squares on the board |
| MoveGen.GenerateMoves | src/Engine.cpp:81-170 | every generated move has both squares on the board |
| MoveGen.KnightJumpIff | src/Engine.cpp:145-159 | a jump by one offset is generated iff it lands on the board on an empty or enemy square |
| MoveGen.KnightMovesIff | src/Engine.cpp:144-160 | m is among the first k jumps iff it starts on the knight, lands on the board on an empty or enemy square, differs by one of the first k offsets, and has no promotion |
| MoveGen.WhitePawnMovesIff | src/Engine.cpp:107-123 | a white pawn's moves are exactly the push to an empty (r+1, c) and the captures of a black piece on (r+1, c+-1) |
| MoveGen.BlackPawnMovesIff | src/Engine.cpp:125-140 | a black pawn's moves are exactly the push to an empty (r-1, c) and the captures of a white piece on (r-1, c+-1) |
| MoveGen.SquareMovesIff | src/Engine.cpp:96-165 | the moves from (r, c) are exactly the pseudo-legal moves starting there |
| MoveGen.IdleSquare | src/Engine.cpp:97-104 | an empty square, an enemy piece, or a friendly rook, bishop, queen or king yields no move, and no pseudo-legal move starts there |
| MoveGen.WhitePawnSquare | src/Engine.cpp:107-123 | on a white pawn of the side to move, the generated moves are exactly the pseudo-legal ones |
| MoveGen.BlackPawnSquare | src/Engine.cpp:125-140 | on a black pawn of the side to move, the generated moves are exactly the pseudo-legal ones |
| MoveGen.KnightSquare | src/Engine.cpp:142-161 | on a knight of the side to move, the generated moves are exactly the pseudo-legal ones |
| MoveGen.KnightPseudoLegal | src/Engine.cpp:142-161 | from a knight, the pseudo-legal moves are its jumps by one of the eight offsets onto an empty or enemy square |
| MoveGen.RowMovesIff | src/Engine.cpp:95-166 | the moves from row r up to column n are exactly the pseudo-legal moves starting there |
| MoveGen.GridMovesIff | src/Engine.cpp:94-167 | the moves from the first n rows are exactly the pseudo-legal moves starting there |
| MoveGen.GeneratedIffPseudoLegal | src/Engine.cpp:81-170 | a move is generated iff it is pseudo-legal: a pawn push or capture, or a knight jump, by the side to move |
| MoveGen.GeneratedMoveShape | src/Engine.cpp:94-104 | a generated move has both squares on the board and no promotion; it starts on a pawn or knight of the side to move and never lands on a friendly piece |
| MoveGen.SideToMove | src/Engine.cpp:97-104 | the PseudoLegal reference's test that a piece belongs to the side to move: not EMPTY, with its colour the side to move; GeneratedMoveShape and IdleSquare prove that the generator's own skip tests agree with it |
| MakeUndo.Placed | src/Engine.cpp:178-184 | the piece left on the destination is the moving piece, or a queen of the same colour in place of a pawn |
| MakeUndo.ApplyMove | src/Engine.cpp:173-187 | makeMove: the origin becomes EMPTY, the destination gets the moving piece (WQ/BQ for a pawn reaching the last row), the side to move flips, and every other square is unchanged |
| MakeUndo.RevertMove | src/Engine.cpp:190-195 | undoMove: the origin gets what stands on the destination, the destination gets the captured piece, the side flips, and every other square is unchanged |
| MakeUndo.MakeUndoRoundTrip | src/Engine.cpp:190-195 | undo after make with the destination's old piece restores the position, except that after a promotion the origin holds the queen, not the pawn |
| MakeUndo.MakeExploreUndo | src/Engine.cpp:296-300 | if the search below a move only queened pawns, undoing the move leaves the parent's board changed only by queened pawns |
| MakeUndo.QueenedTransitive | src/Engine.cpp:296-300 | changes made only by queening pawns compose |
| MakeUndo.QueenedWithoutPawns | src/Engine.cpp:179-184 | a board without pawns that has only had pawns queened is unchanged |
| Engine.ChessEngine.MakeMove | src/Engine.cpp:173-187 | the board in place becomes ApplyMove of the board before |
| Engine.ChessEngine.UndoMove | src/Engine.cpp:190-195 | the board in place becomes RevertMove of the board before |
| Evaluation.Value | src/Engine.cpp:200-214 | the piece's entry of PIECE_VALUE, the pieceValue table (0, 100, 300, 300, 500, 900, 99999 for EMPTY and the white pieces, negated for black); no piece is worth more than a king in magnitude |
| Evaluation.ValueColourSymmetry | src/Engine.cpp:200-214 | each black piece is worth the negation of its white counterpart, and an empty square is worth 0 |
| Evaluation.EvaluateSideToMove | src/Engine.cpp:225 | flipping the side to move negates the evaluation |
| Evaluation.RowMaterial | src/Engine.cpp:218-220 | the sum of the values of the first n squares of row r |
| Evaluation.Material | src/Engine.cpp:217-221 | the sum of the values of the first n rows |
| Evaluation.Evaluate | src/Engine.cpp:198-226 | evaluate: the material sum over the whole board, negated when black is to move |
| Evaluation.EvaluateBound | src/Engine.cpp:216-225 | the evaluation lies within 64 kings' worth, far inside a 32-bit int |
| Evaluation.MaterialBound | src/Engine.cpp:216-221 | the sum over rows 0 .. n-1 lies within n * 8 kings' worth |
| Evaluation.MaterialSet | src/Engine.cpp:216-221 | the material sum depends on a square only through its piece: replacing one piece changes it by the difference of the two values |
| Evaluation.MaterialAfterMove | src/Engine.cpp:173-187 | making a move changes the material only by the captured piece and by a pawn's promotion |
| Evaluation.Opposite | src/Engine.cpp:200-214 | the same piece in the other colour is worth the negated value |
| Evaluation.MirrorMaterial | src/Engine.cpp:216-221 | mirroring the board negates its material |
| Evaluation.MirrorEvaluate | src/Engine.cpp:198-226 | mirroring the board and giving the move to the other side leaves the evaluation unchanged |
| Evaluation.SymmetricBoardScoresZero | src/Engine.cpp:198-226 | a colour-symmetric board evaluates to 0 |
| Engine.ChessEngine.Evaluate | src/Engine.cpp:198-226 | the nested loop returns Evaluate: the material sum, negated when black is to move |
| Search.Max | src/Engine.cpp:281 | std::max: an upper bound of both arguments that is one of them |
| Search.Min | src/Engine.cpp:282 | std::min: a lower bound of both arguments that is one of them |
| Search.Probe | src/Engine.cpp:272-285 | the probe cuts off exactly when the entry is deep enough and is exact, or is a bound that closes the window; otherwise it only narrows the window |
| Search.StoreFlag | src/Engine.cpp:321-327 | the stored flag is 1 iff best <= alpha, -1 iff alpha < best and beta <= best, and 0 iff best lies strictly inside the window |
| Search.KeyOf | src/Engine.cpp:273-274 | the table key of a node: the position's hash paired with the remaining depth |
| Search.AlphaBeta | src/Engine.cpp:267-270 | at depth 0 the result is the evaluation, and the board and table are unchanged |
| Search.AlphaBetaSearched | src/Engine.cpp:294-330 | at a node with moves that the probe did not cut off, the result is the move loop's, stored under the node's key with the literal flag rule |
| Search.ExploreOf | src/Engine.cpp:296-300 | one turn of the move loop is the child's search, with the board handed back by undoMove |
| Search.Explore | src/Engine.cpp:296-300 | one turn of the move loop: make the move, search the child one ply shallower with maximizingPlayer negated, and undo with the piece that stood on the destination, handing on the child's table |
| Search.SearchMovesWindow | src/Engine.cpp:302-314 | after the move loop, best <= alpha at a maximizing node and beta <= best at a minimizing one, because the window has been moved to best |
| Search.SearchMoves | src/Engine.cpp:294-315 | the move loop from move i: each child value is folded into bestValue and then into alpha (maximizing) or beta (minimizing), and the loop stops after the move that closes the window or after the last move |
| Search.StoredFlag | src/Engine.cpp:321-327 | the flag stored after the loop is 1 or -1, and always 1 at a maximizing node: exact scores are never stored |
| Search.ProbeSearchTable | src/Engine.cpp:279-284 | for a table the search filled, an entry's depth equals its key's depth, so the depth test always passes, and a cutoff returns a bounded stored score |
| Search.AlphaBetaTable | src/Engine.cpp:266-331 | the search keeps every entry's depth equal to its key's depth, with flag 1 or -1 and a bounded score; it never deletes a key and returns a bounded value |
| Search.SearchedTable | src/Engine.cpp:294-330 | the same for a node that runs its move loop and stores the result |
| Search.ExploreTable | src/Engine.cpp:296-300 | the same for one turn of the move loop |
| Search.SearchMovesTable | src/Engine.cpp:296-315 | the same for the move loop; its best value is bounded once a move has been searched |
| Search.AlphaBetaStores | src/Engine.cpp:317-328 | a call leaves the table as it was, or stores its value under its key and depth with flag 1 or -1, and flag 1 at a maximizing node |
| Search.NoMovesIsMate | src/Engine.cpp:287-292 | a node without moves that the probe does not cut off returns -MATE_SCORE when maximizing and MATE_SCORE otherwise, and changes nothing |
| Search.AlphaBetaQueened | src/Engine.cpp:296-300 | the search hands back the board with the same side to move, changed only by pawns turned into queens |
| Search.ExploreQueened | src/Engine.cpp:296-300 | the same for one make / search / undo turn |
| Search.SearchMovesQueened | src/Engine.cpp:296-315 | the same for the whole move loop |
| Search.AlphaBetaRestores | src/Engine.cpp:296-300 | on a board without pawns, the search restores the board exactly |
| Search.AlphaBetaAgrees | src/Engine.cpp:299 | a call whose maximizingPlayer is the negation of whiteToMove makes only calls for which the same holds |
| Search.ExploreSide | src/Engine.cpp:297-300 | a make / search / undo turn hands the board back with the same side to move |
| Search.SearchMovesAgree | src/Engine.cpp:296-315 | every child call of the move loop, and every call below it, agrees in the same way |
| Engine.ChessEngine.AlphaBeta | src/Engine.cpp:266-331 | the recursive method on the shared board and table returns, and leaves behind, exactly what Search.AlphaBeta specifies, and keeps the table well formed |
| Engine.ChessEngine.ProbeTable | src/Engine.cpp:273-285 | the table probe reports a cutoff with the stored score, or the narrowed window, as Search.Probe specifies |
| Engine.ChessEngine.SearchAndStore | src/Engine.cpp:294-330 | the move loop followed by the store gives what Search.AlphaBeta specifies at a node with moves |
| Engine.ChessEngine.SearchMoves | src/Engine.cpp:294-315 | the loop with its break returns the best value and final window, and leaves the board and table, as Search.SearchMoves specifies |
| Engine.ChessEngine.FoldMove | src/Engine.cpp:296-314 | one turn of the loop folds the child's value into the best value and the window, and reports a cutoff exactly when the updated window has closed (alpha >= beta at a maximizing node, beta <= alpha at a minimizing one) |
| Engine.ChessEngine.ExploreMove | src/Engine.cpp:297-300 | make, search one ply shallower with the role flipped, and undo, as Search.Explore specifies |
| RootSearch.RootPass | src/Engine.cpp:245-255 | one iteration produces one score per move |
| RootSearch.RootMoveOf | src/Engine.cpp:246-249 | one root turn is the reply search with the full window, with the board handed back by undoMove |
| RootSearch.RootMove | src/Engine.cpp:246-249 | one root turn: make the move, search the reply at depth d - 1 with the full window and maximizingPlayer set to the negation of the side to move after the move, and undo |
| RootSearch.Pick | src/Engine.cpp:242-255 | the iteration's choice is one of the moves |
| RootSearch.PickStep | src/Engine.cpp:251-254 | a score replaces the current choice only when it is strictly higher |
| RootSearch.PickFirstMaximum | src/Engine.cpp:242-255 | when every score is above -INFINITY_SCORE, the choice is the move at the first maximum of the scores, with that score |
| RootSearch.LastScores | src/Engine.cpp:241-257 | the last iteration has one score per generated move |
| RootSearch.LoopEndsWithLast | src/Engine.cpp:241-260 | the deepening loop ends with its last iteration, at d = depth |
| RootSearch.LoopInvariant | src/Engine.cpp:241-260 | a property that every iteration keeps holds after the deepening loop and before its last iteration |
| RootSearch.RootChildIsExplore | src/Engine.cpp:248 | a root turn is the search's move-loop turn with maximizingPlayer set to the negation of the side to move at the root |
| RootSearch.RootPassTable | src/Engine.cpp:245-255 | one iteration keeps the table well formed and gives every move a bounded score |
| RootSearch.RootPassQueened | src/Engine.cpp:245-255 | one iteration changes the board only by queening pawns |
| RootSearch.IterationTable | src/Engine.cpp:241-258 | each iteration keeps the table well formed |
| RootSearch.Iteration | src/Engine.cpp:242-257 | one pass of the depth loop: score every move in order by RootMove, threading board and table, and choose by Pick |
| RootSearch.IterationQueened | src/Engine.cpp:241-258 | each iteration changes the board only by queening pawns |
| RootSearch.IterationFirstMaximum | src/Engine.cpp:242-257 | each iteration chooses the move at the first maximum of its scores |
| RootSearch.StepTable | src/Engine.cpp:241-260 | every step of the deepening loop keeps the table well formed |
| RootSearch.StepQueened | src/Engine.cpp:241-260 | every step of the deepening loop changes the board only by queening pawns |
| RootSearch.FindBestMoveNothingToSearch | src/Engine.cpp:232-239 | with no generated moves, or a depth below 1, the result is Move(0, 0, 0, 0), and the board and table are untouched |
| RootSearch.FindBestMove | src/Engine.cpp:229-263 | findBestMove: generate the moves once; with none return Move(0, 0, 0, 0); otherwise run Iteration for d = 1 .. depth and return the last choice |
| RootSearch.FindBestMoveIsFirstMaximum | src/Engine.cpp:229-263 | with depth >= 1 and at least one move, the result is a generated, pseudo-legal move: the first one of highest score in the last iteration |
| RootSearch.FindBestMoveBoard | src/Engine.cpp:229-263 | findBestMove keeps the table well formed and the side to move; the board changes only by queened pawns, and a board without pawns is restored exactly |
| RootSearch.RootCallsAgree | src/Engine.cpp:248 | every alphaBeta call made from the root, and every call below it, has maximizingPlayer == !whiteToMove |
| Engine.ChessEngine.FindBestMove | src/Engine.cpp:229-263 | the method returns, and leaves the board and table as, RootSearch.FindBestMove specifies |
| Engine.ChessEngine.RootIteration | src/Engine.cpp:242-257 | one pass of the depth loop chooses, and leaves the board and table as, RootSearch.Iteration specifies, with the best score of that pass |
| Engine.ChessEngine.SearchRootMove | src/Engine.cpp:246-249 | make, search the reply with the full window and maximizingPlayer = !whiteToMove after the move, and undo, as RootSearch.RootMove specifies |

## Left out

- `initZobristTable` (src/Engine.cpp:13-22) is left out. It fills the key table from a seeded `std::mt19937_64`, which is library code. The engine's constructor takes the 8x8x14 table of keys as an argument instead, and every property holds for any table.
- `TTKeyHash` (Engine.h:74-81) is left out. It only chooses the `std::unordered_map` bucket and does not affect any result. The table is a Dafny `map`, which is exact because `TTKeyEqual` is equality of keys (`EngineTypes.KeyEqualIsEquality`).
- `quiescenceSearch` (Engine.h:116) has no definition, so it is not modelled.
- Time control is left out: the unimplemented time cutoff (src/Engine.cpp:259) and the clock include.
- src/Main.cpp is not part of this model, because it is console output only.
- src/Engine.h is not part of this model, because it is the header of a different version with no bodies.
- `int` is modelled as unbounded. `EvaluateBound`, `AlphaBetaTable` and `RootPassTable` prove that all scores stay within 64 kings' worth, so the sums in `evaluate` cannot overflow. The search itself only compares and copies scores. `INFINITY_SCORE` is the 32-bit `INT_MAX`.
- `uint64_t` hashing is exact `bv64` arithmetic.
- Some inline blocks of the source are separate methods with their own contracts: `ClearSquares`, `PlacePawns`, `PlaceBackRanks`, the `Place*` helpers, `AddRowMoves`, `AddSquareMoves`, the pawn and knight helpers, `ProbeTable`, `SearchAndStore`, `SearchMoves`, `FoldMove`, `ExploreMove`, `RootIteration` and `SearchRootMove`. The order of the statements and the values they compute are the source's.
- The deepening loop of `findBestMove` is specified by a generic counted loop (`RootSearch.Loop`) over a step function (`RootSearch.Step`), not by a function written for this loop alone.
- `bestScore` in `findBestMove` is assigned and never read, so no contract mentions it. `RootIteration` does state the best score of each pass.
- `std::vector<Move>` is a `seq<Move>`. The board arrives by reference as a `Board` object that is distinct from the engine.
- RootSearch.FindBestMoveBoard: it states exact restoration of the board only for boards without pawns. This is a sufficient condition for "no promotion is explored". In general it proves that the board changes only by pawns that became queens.
- Engine.ChessEngine.AlphaBeta and the other search methods also require `Valid()`. This is a ghost invariant: the table holds only what the search stores. Every method that writes the table preserves it, and the constructor establishes it.
