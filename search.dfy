/** The search (ChessEngine::alphaBeta and ChessEngine::findBestMove) as
    functions. The engine searches on one board that it changes and
    changes back, and it fills a transposition table that outlives the
    call; so each function here takes the board value and the table and
    returns both as they are afterwards, together with the result. */
module Search {
  import opened EngineTypes
  import opened MoveGen
  import opened MakeUndo
  import opened Evaluation
  import opened Zobrist

  /** The transposition table: TTKeyEqual is equality of keys, so a map. */
  type Table = map<TTKey, TTEntry>

  /** std::max on int. */
  function Max(a: int, b: int): (m: int)
    ensures m >= a && m >= b && (m == a || m == b)
  {
    if a < b then b else a
  }

  /** std::min on int. */
  function Min(a: int, b: int): (m: int)
    ensures m <= a && m <= b && (m == a || m == b)
  {
    if b < a then b else a
  }

  /** The outcome of the table probe: return a stored score at once, or go
      on searching within a (possibly narrowed) window. */
  datatype ProbeResult = Cutoff(score: int) | Window(alpha: int, beta: int)

  /** The probe at the head of alphaBeta (src/Engine.cpp:273-285). */
  function Probe(tt: Table, key: TTKey, depth: int, alpha: int, beta: int): (r: ProbeResult)
    ensures r.Cutoff? ==> key in tt && tt[key].depth >= depth && r.score == tt[key].score
    ensures r.Cutoff? <==>
              key in tt && tt[key].depth >= depth
              && (tt[key].flag == 0
                  || (tt[key].flag == -1 && Max(alpha, tt[key].score) >= beta)
                  || (tt[key].flag == 1 && alpha >= Min(beta, tt[key].score))
                  || (tt[key].flag !in {-1, 0, 1} && alpha >= beta))
    ensures r.Window? ==> alpha <= r.alpha && r.beta <= beta
    ensures r.Window? && !(key in tt && tt[key].depth >= depth) ==> r == Window(alpha, beta)
  {
    if key in tt && tt[key].depth >= depth then
      var entry := tt[key];
      if entry.flag == 0 then Cutoff(entry.score)
      else
        var a := if entry.flag == -1 then Max(alpha, entry.score) else alpha;
        var b := if entry.flag == -1 then beta else if entry.flag == 1 then Min(beta, entry.score) else beta;
        if a >= b then Cutoff(entry.score) else Window(a, b)
    else Window(alpha, beta)
  }

  /** The flag stored for a node (src/Engine.cpp:321-327): 1 when the value
      did not rise above alpha, -1 when it reached beta, 0 otherwise. */
  function StoreFlag(best: int, alpha: int, beta: int): (f: int)
    ensures f in {-1, 0, 1}
    ensures f == 1 <==> best <= alpha
    ensures f == -1 <==> alpha < best && beta <= best
    ensures f == 0 <==> alpha < best < beta
  {
    if best <= alpha then 1 else if best >= beta then -1 else 0
  }

  /** What a call of alphaBeta returns and leaves behind. */
  datatype SearchResult = SearchResult(value: int, pos: Position, tt: Table)

  /** The state of the move loop of alphaBeta. */
  datatype Node = Node(best: int, alpha: int, beta: int, pos: Position, tt: Table)

  /** The value bestValue starts from. */
  function WorstValue(maximizing: bool): int {
    if maximizing then -INFINITY_SCORE else INFINITY_SCORE
  }

  /** The value of a node without moves: the side to move is taken to be mated. */
  function MateValue(maximizing: bool): int {
    if maximizing then -MATE_SCORE else MATE_SCORE
  }

  /** The key under which alphaBeta probes and stores. */
  function KeyOf(z: ZobristTable, pos: Position, depth: int): TTKey {
    TTKey(Hash(z, pos), depth)
  }

  predicate MovesInBounds(moves: seq<Move>) {
    forall i :: 0 <= i < |moves| ==> InBounds(moves[i])
  }

  /** alphaBeta(board, alpha, beta, depth, maximizingPlayer). */
  function AlphaBeta(z: ZobristTable, pos: Position, tt: Table, alpha: int, beta: int, depth: int, maximizing: bool)
    : (r: SearchResult)
    requires depth >= 0
    ensures depth == 0 ==> r == SearchResult(Evaluate(pos), pos, tt)
    decreases depth, 1
  {
    if depth == 0 then SearchResult(Evaluate(pos), pos, tt)
    else
      var key := KeyOf(z, pos, depth);
      match Probe(tt, key, depth, alpha, beta)
      case Cutoff(score) => SearchResult(score, pos, tt)
      case Window(a, b) =>
        var moves := GenerateMoves(pos);
        if |moves| == 0 then SearchResult(MateValue(maximizing), pos, tt)
        else
          var n := SearchMoves(z, moves, 0, pos, tt, a, b, depth, maximizing, WorstValue(maximizing));
          SearchResult(n.best, n.pos, n.tt[key := TTEntry(n.best, StoreFlag(n.best, n.alpha, n.beta), depth)])
  }

  /** alphaBeta at a node whose probe leaves the window (a, b) and which
      has moves: the move loop's result, stored under the node's key. */
  lemma AlphaBetaSearched(z: ZobristTable, pos: Position, tt: Table, alpha: int, beta: int, depth: int,
                          maximizing: bool, a: int, b: int)
    requires depth >= 1 && Probe(tt, KeyOf(z, pos, depth), depth, alpha, beta) == Window(a, b)
    requires GenerateMoves(pos) != []
    ensures var n := SearchMoves(z, GenerateMoves(pos), 0, pos, tt, a, b, depth, maximizing, WorstValue(maximizing));
            AlphaBeta(z, pos, tt, alpha, beta, depth, maximizing)
            == SearchResult(n.best, n.pos, n.tt[KeyOf(z, pos, depth) := TTEntry(n.best, StoreFlag(n.best, n.alpha, n.beta), depth)])
  {
  }

  /** One turn of the move loop: make the move, search the child one ply
      shallower with the roles swapped, and undo the move with the piece
      that stood on the destination. */
  function Explore(z: ZobristTable, pos: Position, tt: Table, m: Move,
                   alpha: int, beta: int, depth: int, maximizing: bool): (r: SearchResult)
    requires depth >= 1 && InBounds(m)
    decreases depth, 0, 0
  {
    var captured := pos.squares[m.toRow][m.toCol];
    var child := AlphaBeta(z, ApplyMove(pos, m), tt, alpha, beta, depth - 1, !maximizing);
    SearchResult(child.value, RevertMove(child.pos, m, captured), child.tt)
  }

  /** Explore in terms of the child's search result. */
  lemma ExploreOf(z: ZobristTable, pos: Position, tt: Table, m: Move,
                  alpha: int, beta: int, depth: int, maximizing: bool, child: SearchResult)
    requires depth >= 1 && InBounds(m)
    requires child == AlphaBeta(z, ApplyMove(pos, m), tt, alpha, beta, depth - 1, !maximizing)
    ensures Explore(z, pos, tt, m, alpha, beta, depth, maximizing)
            == SearchResult(child.value, RevertMove(child.pos, m, pos.squares[m.toRow][m.toCol]), child.tt)
  {
  }

  /** The move loop of alphaBeta from moves[i] on: explore each move, fold
      the child's value into the best value and the window, and stop once
      the window closes. */
  function SearchMoves(z: ZobristTable, moves: seq<Move>, i: nat, pos: Position, tt: Table,
                       alpha: int, beta: int, depth: int, maximizing: bool, best: int): (n: Node)
    requires depth >= 1 && i <= |moves| && MovesInBounds(moves)
    decreases depth, 0, |moves| - i
  {
    if i == |moves| then Node(best, alpha, beta, pos, tt)
    else
      var e := Explore(z, pos, tt, moves[i], alpha, beta, depth, maximizing);
      if maximizing then
        var b := Max(best, e.value);
        var a := Max(alpha, b);
        if a >= beta then Node(b, a, beta, e.pos, e.tt)
        else SearchMoves(z, moves, i + 1, e.pos, e.tt, a, beta, depth, maximizing, b)
      else
        var b := Min(best, e.value);
        var bt := Min(beta, b);
        if bt <= alpha then Node(b, alpha, bt, e.pos, e.tt)
        else SearchMoves(z, moves, i + 1, e.pos, e.tt, alpha, bt, depth, maximizing, b)
  }

  // ---------------------------------------------------------------------
  // The window and the stored flag

  /** After at least one move, a maximizing node's best value never
      exceeds its alpha, and a minimizing node's never falls below its beta. */
  lemma {:induction false} SearchMovesWindow(z: ZobristTable, moves: seq<Move>, i: nat, pos: Position, tt: Table,
                                             alpha: int, beta: int, depth: int, maximizing: bool, best: int)
    requires depth >= 1 && i < |moves| && MovesInBounds(moves)
    ensures var n := SearchMoves(z, moves, i, pos, tt, alpha, beta, depth, maximizing, best);
            (maximizing ==> n.best <= n.alpha) && (!maximizing ==> n.beta <= n.best)
    decreases |moves| - i
  {
    var e := Explore(z, pos, tt, moves[i], alpha, beta, depth, maximizing);
    if i + 1 < |moves| {
      if maximizing {
        var b := Max(best, e.value);
        var a := Max(alpha, b);
        if a < beta {
          SearchMovesWindow(z, moves, i + 1, e.pos, e.tt, a, beta, depth, maximizing, b);
        }
      } else {
        var b := Min(best, e.value);
        var bt := Min(beta, b);
        if bt > alpha {
          SearchMovesWindow(z, moves, i + 1, e.pos, e.tt, alpha, bt, depth, maximizing, b);
        }
      }
    }
  }

  /** A maximizing node always stores an upper bound (flag 1), a minimizing
      node an upper or a lower bound: the exact flag 0 is never stored. */
  lemma StoredFlag(z: ZobristTable, moves: seq<Move>, pos: Position, tt: Table,
                   alpha: int, beta: int, depth: int, maximizing: bool)
    requires depth >= 1 && 0 < |moves| && MovesInBounds(moves)
    ensures var n := SearchMoves(z, moves, 0, pos, tt, alpha, beta, depth, maximizing, WorstValue(maximizing));
            var f := StoreFlag(n.best, n.alpha, n.beta);
            (maximizing ==> f == 1) && (f == 1 || f == -1)
  {
    SearchMovesWindow(z, moves, 0, pos, tt, alpha, beta, depth, maximizing, WorstValue(maximizing));
  }

  // ---------------------------------------------------------------------
  // The table the search builds

  /** Every search value is within 64 kings' worth, far inside a 32-bit int. */
  predicate Bounded(v: int) {
    -SCORE_BOUND <= v <= SCORE_BOUND
  }

  /** A table as the search leaves it: each entry was stored at its key's
      depth, with flag 1 or -1 and a bounded score. */
  ghost predicate TableOK(tt: Table) {
    forall k :: k in tt ==>
      && tt[k].depth == k.depth
      && (tt[k].flag == 1 || tt[k].flag == -1)
      && Bounded(tt[k].score)
  }

  /** Probing a table the search built: the entry's depth always passes the
      depth test, the exact-flag return never happens, and any score the
      probe returns is bounded. */
  lemma ProbeSearchTable(tt: Table, key: TTKey, alpha: int, beta: int)
    requires TableOK(tt)
    ensures key in tt ==> tt[key].depth >= key.depth && tt[key].flag != 0
    ensures match Probe(tt, key, key.depth, alpha, beta)
            case Cutoff(s) => Bounded(s) && key in tt
                              && (Max(alpha, s) >= beta || alpha >= Min(beta, s))
            case Window(_, _) => true
  {
  }

  /** The search keeps the table well formed, never deletes a key, and
      returns a bounded value. */
  lemma {:induction false} AlphaBetaTable(z: ZobristTable, pos: Position, tt: Table,
                                          alpha: int, beta: int, depth: int, maximizing: bool)
    requires depth >= 0 && TableOK(tt)
    ensures var r := AlphaBeta(z, pos, tt, alpha, beta, depth, maximizing);
            TableOK(r.tt) && tt.Keys <= r.tt.Keys && Bounded(r.value)
    decreases depth, 2
  {
    if depth > 0 {
      match Probe(tt, KeyOf(z, pos, depth), depth, alpha, beta)
      case Cutoff(score) =>
      case Window(a, b) =>
        if GenerateMoves(pos) != [] {
          SearchedTable(z, pos, tt, alpha, beta, depth, maximizing, a, b);
        }
    } else {
      EvaluateBound(pos);
    }
  }

  /** The case of AlphaBetaTable where the move loop runs and its result is stored. */
  lemma {:induction false} SearchedTable(z: ZobristTable, pos: Position, tt: Table,
                                         alpha: int, beta: int, depth: int, maximizing: bool, a: int, b: int)
    requires depth >= 1 && TableOK(tt)
    requires Probe(tt, KeyOf(z, pos, depth), depth, alpha, beta) == Window(a, b)
    requires GenerateMoves(pos) != []
    ensures var r := AlphaBeta(z, pos, tt, alpha, beta, depth, maximizing);
            TableOK(r.tt) && tt.Keys <= r.tt.Keys && Bounded(r.value)
    decreases depth, 1
  {
    var moves := GenerateMoves(pos);
    AlphaBetaSearched(z, pos, tt, alpha, beta, depth, maximizing, a, b);
    SearchMovesTable(z, moves, 0, pos, tt, a, b, depth, maximizing, WorstValue(maximizing));
    StoredFlag(z, moves, pos, tt, a, b, depth, maximizing);
  }

  lemma {:induction false} ExploreTable(z: ZobristTable, pos: Position, tt: Table, m: Move,
                                        alpha: int, beta: int, depth: int, maximizing: bool)
    requires depth >= 1 && InBounds(m) && TableOK(tt)
    ensures var e := Explore(z, pos, tt, m, alpha, beta, depth, maximizing);
            TableOK(e.tt) && tt.Keys <= e.tt.Keys && Bounded(e.value)
    decreases depth, 0, 0
  {
    AlphaBetaTable(z, ApplyMove(pos, m), tt, alpha, beta, depth - 1, !maximizing);
  }

  lemma {:induction false} SearchMovesTable(z: ZobristTable, moves: seq<Move>, i: nat, pos: Position, tt: Table,
                                            alpha: int, beta: int, depth: int, maximizing: bool, best: int)
    requires depth >= 1 && i <= |moves| && MovesInBounds(moves) && TableOK(tt)
    requires Bounded(best) || best == WorstValue(maximizing)
    ensures var n := SearchMoves(z, moves, i, pos, tt, alpha, beta, depth, maximizing, best);
            && TableOK(n.tt) && tt.Keys <= n.tt.Keys
            && (Bounded(n.best) || (i == |moves| && n.best == best))
    decreases depth, 0, |moves| - i
  {
    if i < |moves| {
      var e := Explore(z, pos, tt, moves[i], alpha, beta, depth, maximizing);
      ExploreTable(z, pos, tt, moves[i], alpha, beta, depth, maximizing);
      if maximizing {
        var b := Max(best, e.value);
        var a := Max(alpha, b);
        if a < beta {
          SearchMovesTable(z, moves, i + 1, e.pos, e.tt, a, beta, depth, maximizing, b);
        }
      } else {
        var b := Min(best, e.value);
        var bt := Min(beta, b);
        if bt > alpha {
          SearchMovesTable(z, moves, i + 1, e.pos, e.tt, alpha, bt, depth, maximizing, b);
        }
      }
    }
  }

  /** A node that searched its moves stores its value under its own key and
      depth, with flag 1 at a maximizing node and 1 or -1 at a minimizing
      one; a leaf, a table cutoff or a node without moves leaves the table
      as it was. */
  lemma AlphaBetaStores(z: ZobristTable, pos: Position, tt: Table,
                        alpha: int, beta: int, depth: int, maximizing: bool)
    requires depth >= 0
    ensures var r := AlphaBeta(z, pos, tt, alpha, beta, depth, maximizing);
            var key := KeyOf(z, pos, depth);
            || r.tt == tt
            || (&& depth >= 1 && key in r.tt
                && r.tt[key].score == r.value && r.tt[key].depth == depth
                && (maximizing ==> r.tt[key].flag == 1)
                && (r.tt[key].flag == 1 || r.tt[key].flag == -1))
  {
    if depth > 0 {
      var key := KeyOf(z, pos, depth);
      match Probe(tt, key, depth, alpha, beta)
      case Cutoff(score) =>
      case Window(a, b) =>
        var moves := GenerateMoves(pos);
        if |moves| > 0 {
          StoredFlag(z, moves, pos, tt, a, b, depth, maximizing);
        }
    }
  }

  /** A node without moves that the table probe does not cut off has the
      mate value (the side to move is taken to be mated) and stores nothing. */
  lemma NoMovesIsMate(z: ZobristTable, pos: Position, tt: Table,
                      alpha: int, beta: int, depth: int, maximizing: bool)
    requires depth >= 1 && GenerateMoves(pos) == [] && Probe(tt, KeyOf(z, pos, depth), depth, alpha, beta).Window?
    ensures AlphaBeta(z, pos, tt, alpha, beta, depth, maximizing) == SearchResult(MateValue(maximizing), pos, tt)
    ensures maximizing ==> AlphaBeta(z, pos, tt, alpha, beta, depth, maximizing).value == -MATE_SCORE
    ensures !maximizing ==> AlphaBeta(z, pos, tt, alpha, beta, depth, maximizing).value == MATE_SCORE
  {
  }

  // ---------------------------------------------------------------------
  // The board the search leaves behind

  /** The search leaves the side to move as it was and changes the board
      only by turning pawns into queens (a promotion explored deep in the
      tree is not undone). */
  lemma {:induction false} AlphaBetaQueened(z: ZobristTable, pos: Position, tt: Table,
                                            alpha: int, beta: int, depth: int, maximizing: bool)
    requires depth >= 0
    ensures Queened(AlphaBeta(z, pos, tt, alpha, beta, depth, maximizing).pos, pos)
    decreases depth, 1
  {
    if depth > 0 {
      var key := KeyOf(z, pos, depth);
      match Probe(tt, key, depth, alpha, beta)
      case Cutoff(score) =>
      case Window(a, b) =>
        var moves := GenerateMoves(pos);
        if |moves| > 0 {
          SearchMovesQueened(z, moves, 0, pos, tt, a, b, depth, maximizing, WorstValue(maximizing));
        }
    }
  }

  lemma {:induction false} ExploreQueened(z: ZobristTable, pos: Position, tt: Table, m: Move,
                                          alpha: int, beta: int, depth: int, maximizing: bool)
    requires depth >= 1 && InBounds(m)
    ensures Queened(Explore(z, pos, tt, m, alpha, beta, depth, maximizing).pos, pos)
    decreases depth, 0, 0
  {
    var child := AlphaBeta(z, ApplyMove(pos, m), tt, alpha, beta, depth - 1, !maximizing);
    AlphaBetaQueened(z, ApplyMove(pos, m), tt, alpha, beta, depth - 1, !maximizing);
    MakeExploreUndo(pos, m, child.pos);
  }

  lemma {:induction false} SearchMovesQueened(z: ZobristTable, moves: seq<Move>, i: nat, pos: Position, tt: Table,
                                              alpha: int, beta: int, depth: int, maximizing: bool, best: int)
    requires depth >= 1 && i <= |moves| && MovesInBounds(moves)
    ensures Queened(SearchMoves(z, moves, i, pos, tt, alpha, beta, depth, maximizing, best).pos, pos)
    decreases depth, 0, |moves| - i
  {
    if i < |moves| {
      var e := Explore(z, pos, tt, moves[i], alpha, beta, depth, maximizing);
      ExploreQueened(z, pos, tt, moves[i], alpha, beta, depth, maximizing);
      if maximizing {
        var b := Max(best, e.value);
        var a := Max(alpha, b);
        if a < beta {
          SearchMovesQueened(z, moves, i + 1, e.pos, e.tt, a, beta, depth, maximizing, b);
          QueenedTransitive(pos, e.pos, SearchMoves(z, moves, i + 1, e.pos, e.tt, a, beta, depth, maximizing, b).pos);
        }
      } else {
        var b := Min(best, e.value);
        var bt := Min(beta, b);
        if bt > alpha {
          SearchMovesQueened(z, moves, i + 1, e.pos, e.tt, alpha, bt, depth, maximizing, b);
          QueenedTransitive(pos, e.pos, SearchMoves(z, moves, i + 1, e.pos, e.tt, alpha, bt, depth, maximizing, b).pos);
        }
      }
    }
  }

  /** No square holds a pawn. */
  ghost predicate PawnFree(p: Position) {
    forall r, c :: OnBoard(r, c) ==> p.squares[r][c] != WP && p.squares[r][c] != BP
  }

  /** Without pawns nothing is promoted, and the search restores the board. */
  lemma AlphaBetaRestores(z: ZobristTable, pos: Position, tt: Table,
                          alpha: int, beta: int, depth: int, maximizing: bool)
    requires depth >= 0 && PawnFree(pos)
    ensures AlphaBeta(z, pos, tt, alpha, beta, depth, maximizing).pos == pos
  {
    AlphaBetaQueened(z, pos, tt, alpha, beta, depth, maximizing);
    QueenedWithoutPawns(AlphaBeta(z, pos, tt, alpha, beta, depth, maximizing).pos, pos);
  }

  // ---------------------------------------------------------------------
  // The maximizing role follows the side to move

  /** This call of alphaBeta and every call below it have maximizingPlayer
      equal to the negation of the side to move on the board it is given. */
  ghost predicate AgreesBelow(z: ZobristTable, pos: Position, tt: Table,
                              alpha: int, beta: int, depth: int, maximizing: bool)
    requires depth >= 0
    decreases depth, 1
  {
    && maximizing == !pos.whiteToMove
    && (depth > 0 ==>
          match Probe(tt, KeyOf(z, pos, depth), depth, alpha, beta)
          case Cutoff(_) => true
          case Window(a, b) =>
            var moves := GenerateMoves(pos);
            |moves| > 0 ==> MovesAgreeBelow(z, moves, 0, pos, tt, a, b, depth, maximizing, WorstValue(maximizing)))
  }

  /** Every child call of the move loop from moves[i] on, and every call
      below them, agrees in the same way. */
  ghost predicate MovesAgreeBelow(z: ZobristTable, moves: seq<Move>, i: nat, pos: Position, tt: Table,
                                  alpha: int, beta: int, depth: int, maximizing: bool, best: int)
    requires depth >= 1 && i <= |moves| && MovesInBounds(moves)
    decreases depth, 0, |moves| - i
  {
    i < |moves| ==>
      && AgreesBelow(z, ApplyMove(pos, moves[i]), tt, alpha, beta, depth - 1, !maximizing)
      && var e := Explore(z, pos, tt, moves[i], alpha, beta, depth, maximizing);
         if maximizing then
           var b := Max(best, e.value);
           var a := Max(alpha, b);
           a < beta ==> MovesAgreeBelow(z, moves, i + 1, e.pos, e.tt, a, beta, depth, maximizing, b)
         else
           var b := Min(best, e.value);
           var bt := Min(beta, b);
           bt > alpha ==> MovesAgreeBelow(z, moves, i + 1, e.pos, e.tt, alpha, bt, depth, maximizing, b)
  }

  /** A call whose role agrees with the side to move makes only calls that
      agree: making a move flips the side to move as the role is flipped,
      and undoing the child's search restores the side to move. */
  lemma {:induction false} AlphaBetaAgrees(z: ZobristTable, pos: Position, tt: Table,
                                           alpha: int, beta: int, depth: int, maximizing: bool)
    requires depth >= 0 && maximizing == !pos.whiteToMove
    ensures AgreesBelow(z, pos, tt, alpha, beta, depth, maximizing)
    decreases depth, 1
  {
    if depth > 0 {
      match Probe(tt, KeyOf(z, pos, depth), depth, alpha, beta)
      case Cutoff(_) =>
      case Window(a, b) =>
        var moves := GenerateMoves(pos);
        if |moves| > 0 {
          SearchMovesAgree(z, moves, 0, pos, tt, a, b, depth, maximizing, WorstValue(maximizing));
        }
    }
  }

  /** Exploring a move hands the board back with the same side to move. */
  lemma ExploreSide(z: ZobristTable, pos: Position, tt: Table, m: Move,
                    alpha: int, beta: int, depth: int, maximizing: bool)
    requires depth >= 1 && InBounds(m)
    ensures Explore(z, pos, tt, m, alpha, beta, depth, maximizing).pos.whiteToMove == pos.whiteToMove
  {
    ExploreQueened(z, pos, tt, m, alpha, beta, depth, maximizing);
  }

  lemma {:induction false} SearchMovesAgree(z: ZobristTable, moves: seq<Move>, i: nat, pos: Position, tt: Table,
                                            alpha: int, beta: int, depth: int, maximizing: bool, best: int)
    requires depth >= 1 && i <= |moves| && MovesInBounds(moves) && maximizing == !pos.whiteToMove
    ensures MovesAgreeBelow(z, moves, i, pos, tt, alpha, beta, depth, maximizing, best)
    decreases depth, 0, |moves| - i, 1
  {
    if i < |moves| {
      AlphaBetaAgrees(z, ApplyMove(pos, moves[i]), tt, alpha, beta, depth - 1, !maximizing);
      NextMovesAgree(z, moves, i, pos, tt, alpha, beta, depth, maximizing, best);
    }
  }

  /** The tail of the move loop after moves[i] agrees. */
  lemma {:induction false} NextMovesAgree(z: ZobristTable, moves: seq<Move>, i: nat, pos: Position, tt: Table,
                                          alpha: int, beta: int, depth: int, maximizing: bool, best: int)
    requires depth >= 1 && i < |moves| && MovesInBounds(moves) && maximizing == !pos.whiteToMove
    ensures var e := Explore(z, pos, tt, moves[i], alpha, beta, depth, maximizing);
            if maximizing then
              var b := Max(best, e.value);
              var a := Max(alpha, b);
              a < beta ==> MovesAgreeBelow(z, moves, i + 1, e.pos, e.tt, a, beta, depth, maximizing, b)
            else
              var b := Min(best, e.value);
              var bt := Min(beta, b);
              bt > alpha ==> MovesAgreeBelow(z, moves, i + 1, e.pos, e.tt, alpha, bt, depth, maximizing, b)
    decreases depth, 0, |moves| - i, 0
  {
    var e := Explore(z, pos, tt, moves[i], alpha, beta, depth, maximizing);
    ExploreSide(z, pos, tt, moves[i], alpha, beta, depth, maximizing);
    if maximizing {
      var b := Max(best, e.value);
      var a := Max(alpha, b);
      if a < beta {
        SearchMovesAgree(z, moves, i + 1, e.pos, e.tt, a, beta, depth, maximizing, b);
      }
    } else {
      var b := Min(best, e.value);
      var bt := Min(beta, b);
      if bt > alpha {
        SearchMovesAgree(z, moves, i + 1, e.pos, e.tt, alpha, bt, depth, maximizing, b);
      }
    }
  }
}
