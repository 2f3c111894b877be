/** Iterative deepening at the root (ChessEngine::findBestMove): for each
    depth d = 1 .. depth, every root move is made, searched by alphaBeta at
    depth d - 1 with the full window, and undone; the move with the
    highest score (the first one on ties) is that iteration's choice, and
    the last iteration's choice is returned. */
module RootSearch {
  import opened EngineTypes
  import opened MoveGen
  import opened MakeUndo
  import opened Zobrist
  import opened Search

  /** The scores of one iteration, and the board and table after it. */
  datatype Pass = Pass(scores: seq<int>, pos: Position, tt: Table)

  /** What findBestMove returns and leaves behind. */
  datatype RootResult = RootResult(move: Move, pos: Position, tt: Table)

  /** The root loop of one iteration from moves[i] on, at alphaBeta depth
      d - 1; scores holds the scores of moves[0 .. i). The child is searched
      with maximizingPlayer set to the negation of the side to move after
      the move. */
  function RootPass(z: ZobristTable, moves: seq<Move>, i: nat, pos: Position, tt: Table, d: int, scores: seq<int>)
    : (p: Pass)
    requires d >= 1 && i <= |moves| && MovesInBounds(moves)
    ensures |p.scores| == |scores| + |moves| - i
    decreases |moves| - i
  {
    if i == |moves| then Pass(scores, pos, tt)
    else
      var e := RootMove(z, pos, tt, moves[i], d);
      RootPass(z, moves, i + 1, e.pos, e.tt, d, scores + [e.value])
  }

  /** One turn of the root loop: make m, search the reply at depth d - 1
      with the full window and maximizingPlayer set to the negation of the
      side to move after m, and undo m with the piece that stood on its
      destination. */
  function RootMove(z: ZobristTable, pos: Position, tt: Table, m: Move, d: int): SearchResult
    requires d >= 1 && InBounds(m)
  {
    var after := ApplyMove(pos, m);
    var child := AlphaBeta(z, after, tt, -INFINITY_SCORE, INFINITY_SCORE, d - 1, !after.whiteToMove);
    SearchResult(child.value, RevertMove(child.pos, m, pos.squares[m.toRow][m.toCol]), child.tt)
  }

  /** RootMove in terms of the reply's search result. */
  lemma RootMoveOf(z: ZobristTable, pos: Position, tt: Table, m: Move, d: int, child: SearchResult)
    requires d >= 1 && InBounds(m)
    requires child == AlphaBeta(z, ApplyMove(pos, m), tt, -INFINITY_SCORE, INFINITY_SCORE, d - 1, pos.whiteToMove)
    ensures RootMove(z, pos, tt, m, d)
            == SearchResult(child.value, RevertMove(child.pos, m, pos.squares[m.toRow][m.toCol]), child.tt)
  {
  }

  /** The choice among moves[0 .. |scores|): starting from -INFINITY_SCORE
      and moves[0], a move replaces the current choice only when its score
      is strictly higher. Yields the best score and the move. */
  function Pick(moves: seq<Move>, scores: seq<int>): (r: (int, Move))
    requires 0 < |moves| && |scores| <= |moves|
    ensures r.1 in moves
    decreases |scores|
  {
    if |scores| == 0 then (-INFINITY_SCORE, moves[0])
    else
      var prev := Pick(moves, scores[..|scores| - 1]);
      if scores[|scores| - 1] > prev.0 then (scores[|scores| - 1], moves[|scores| - 1]) else prev
  }

  /** One more score replaces the choice only when it is strictly higher. */
  lemma PickStep(moves: seq<Move>, scores: seq<int>, s: int)
    requires |scores| < |moves|
    ensures Pick(moves, scores + [s])
            == if s > Pick(moves, scores).0 then (s, moves[|scores|]) else Pick(moves, scores)
  {
    assert (scores + [s])[..|scores|] == scores;
  }

  /** k is the first position of a maximum of scores. */
  ghost predicate FirstMaximum(scores: seq<int>, k: int) {
    && 0 <= k < |scores|
    && (forall j :: 0 <= j < |scores| ==> scores[j] <= scores[k])
    && (forall j :: 0 <= j < k ==> scores[j] < scores[k])
  }

  /** When every score beats -INFINITY_SCORE, the choice is the move at the
      first maximum of the scores, with that score. */
  lemma {:induction false} PickFirstMaximum(moves: seq<Move>, scores: seq<int>)
    requires 0 < |scores| <= |moves|
    requires forall j :: 0 <= j < |scores| ==> scores[j] > -INFINITY_SCORE
    ensures exists k :: FirstMaximum(scores, k) && Pick(moves, scores) == (scores[k], moves[k])
    decreases |scores|
  {
    var n := |scores|;
    var prefix := scores[..n - 1];
    if n == 1 {
      assert prefix == [];
      assert Pick(moves, prefix) == (-INFINITY_SCORE, moves[0]);
      assert Pick(moves, scores) == (scores[0], moves[0]);
      assert FirstMaximum(scores, 0);
    } else {
      PickFirstMaximum(moves, prefix);
      var k :| FirstMaximum(prefix, k) && Pick(moves, prefix) == (prefix[k], moves[k]);
      if scores[n - 1] > prefix[k] {
        assert FirstMaximum(scores, n - 1);
      } else {
        assert FirstMaximum(scores, k);
      }
    }
  }

  /** One iteration of the deepening loop at depth d, from board pos and
      table tt: its choice and the board and table it leaves. */
  function Iteration(z: ZobristTable, moves: seq<Move>, pos: Position, tt: Table, d: int): (r: RootResult)
    requires 0 < |moves| && MovesInBounds(moves) && d >= 1
  {
    var pass := RootPass(z, moves, 0, pos, tt, d, []);
    RootResult(Pick(moves, pass.scores).1, pass.pos, pass.tt)
  }

  /** The iteration step of findBestMove's deepening loop: iteration k >= 1
      replaces the choice, the board and the table. */
  function Step(z: ZobristTable, moves: seq<Move>): (RootResult, int) -> RootResult
    requires 0 < |moves| && MovesInBounds(moves)
  {
    (x: RootResult, k: int) => if k >= 1 then Iteration(z, moves, x.pos, x.tt, k) else x
  }

  /** A counted loop (for d = d .. depth) over a step function, entered with r. */
  function Loop(step: (RootResult, int) -> RootResult, d: int, depth: int, r: RootResult): RootResult
    decreases depth - d
  {
    if d > depth then r else Loop(step, d + 1, depth, step(r, d))
  }

  /** What the last iteration (d = depth) of a non-empty Loop starts from. */
  function LastInput(step: (RootResult, int) -> RootResult, d: int, depth: int, r: RootResult): RootResult
    requires d <= depth
    decreases depth - d
  {
    if d == depth then r else LastInput(step, d + 1, depth, step(r, d))
  }

  /** findBestMove(board, depth): the moves are generated once, on the
      board as it is on entry; before the first iteration the choice is
      Move(0, 0, 0, 0). */
  function FindBestMove(z: ZobristTable, pos: Position, tt: Table, depth: int): (r: RootResult)
  {
    var moves := GenerateMoves(pos);
    if |moves| == 0 then RootResult(NewMove(0, 0, 0, 0), pos, tt)
    else Loop(Step(z, moves), 1, depth, RootResult(NewMove(0, 0, 0, 0), pos, tt))
  }

  /** The scores of the last iteration of findBestMove to depth >= 1. */
  function LastScores(z: ZobristTable, pos: Position, tt: Table, depth: int): (s: seq<int>)
    requires depth >= 1 && GenerateMoves(pos) != []
    ensures |s| == |GenerateMoves(pos)|
  {
    var moves := GenerateMoves(pos);
    var y := LastInput(Step(z, moves), 1, depth, RootResult(NewMove(0, 0, 0, 0), pos, tt));
    RootPass(z, moves, 0, y.pos, y.tt, depth, []).scores
  }

  /** A non-empty loop ends with its last iteration. */
  lemma {:induction false} LoopEndsWithLast(step: (RootResult, int) -> RootResult, d: int, depth: int, r: RootResult)
    requires d <= depth
    ensures Loop(step, d, depth, r) == step(LastInput(step, d, depth, r), depth)
    decreases depth - d
  {
    if d < depth {
      LoopEndsWithLast(step, d + 1, depth, step(r, d));
    }
  }

  /** A property every iteration keeps holds after the loop and before its
      last iteration. */
  lemma {:induction false} LoopInvariant(step: (RootResult, int) -> RootResult, inv: RootResult -> bool,
                                         d: int, depth: int, r: RootResult)
    requires inv(r)
    requires forall x, k :: inv(x) ==> inv(step(x, k))
    ensures inv(Loop(step, d, depth, r))
    ensures d <= depth ==> inv(LastInput(step, d, depth, r))
    decreases depth - d
  {
    if d <= depth {
      LoopInvariant(step, inv, d + 1, depth, step(r, d));
    }
  }

  /** The root's child search is the alphaBeta move loop's step, with the
      maximizing role given to the side not to move at the root. */
  lemma RootChildIsExplore(z: ZobristTable, pos: Position, tt: Table, m: Move, d: int)
    requires d >= 1 && InBounds(m)
    ensures RootMove(z, pos, tt, m, d) == Explore(z, pos, tt, m, -INFINITY_SCORE, INFINITY_SCORE, d, !pos.whiteToMove)
  {
  }

  /** One iteration keeps the table well formed and scores every move
      within bounds. */
  lemma {:induction false} RootPassTable(z: ZobristTable, moves: seq<Move>, i: nat, pos: Position, tt: Table,
                                         d: int, scores: seq<int>)
    requires d >= 1 && i <= |moves| && MovesInBounds(moves) && TableOK(tt)
    requires forall j :: 0 <= j < |scores| ==> Bounded(scores[j])
    ensures var p := RootPass(z, moves, i, pos, tt, d, scores);
            TableOK(p.tt) && forall j :: 0 <= j < |p.scores| ==> Bounded(p.scores[j])
    decreases |moves| - i
  {
    if i < |moves| {
      var m := moves[i];
      var e := Explore(z, pos, tt, m, -INFINITY_SCORE, INFINITY_SCORE, d, !pos.whiteToMove);
      RootChildIsExplore(z, pos, tt, m, d);
      ExploreTable(z, pos, tt, m, -INFINITY_SCORE, INFINITY_SCORE, d, !pos.whiteToMove);
      RootPassTable(z, moves, i + 1, e.pos, e.tt, d, scores + [e.value]);
    }
  }

  /** One iteration changes the board only by queening pawns. */
  lemma {:induction false} RootPassQueened(z: ZobristTable, moves: seq<Move>, i: nat, pos: Position, tt: Table,
                                           d: int, scores: seq<int>)
    requires d >= 1 && i <= |moves| && MovesInBounds(moves)
    ensures Queened(RootPass(z, moves, i, pos, tt, d, scores).pos, pos)
    decreases |moves| - i
  {
    if i < |moves| {
      var m := moves[i];
      var e := Explore(z, pos, tt, m, -INFINITY_SCORE, INFINITY_SCORE, d, !pos.whiteToMove);
      RootChildIsExplore(z, pos, tt, m, d);
      ExploreQueened(z, pos, tt, m, -INFINITY_SCORE, INFINITY_SCORE, d, !pos.whiteToMove);
      RootPassQueened(z, moves, i + 1, e.pos, e.tt, d, scores + [e.value]);
      QueenedTransitive(pos, e.pos, RootPass(z, moves, i + 1, e.pos, e.tt, d, scores + [e.value]).pos);
    } else {
      QueenedReflexive(pos);
    }
  }

  lemma QueenedReflexive(p: Position)
    ensures Queened(p, p)
  {
  }

  /** One iteration keeps the table well formed. */
  lemma IterationTable(z: ZobristTable, moves: seq<Move>, pos: Position, tt: Table, d: int)
    requires 0 < |moves| && MovesInBounds(moves) && d >= 1 && TableOK(tt)
    ensures TableOK(Iteration(z, moves, pos, tt, d).tt)
  {
    RootPassTable(z, moves, 0, pos, tt, d, []);
  }

  /** One iteration changes the board only by queening pawns. */
  lemma IterationQueened(z: ZobristTable, moves: seq<Move>, pos: Position, tt: Table, d: int)
    requires 0 < |moves| && MovesInBounds(moves) && d >= 1
    ensures Queened(Iteration(z, moves, pos, tt, d).pos, pos)
  {
    RootPassQueened(z, moves, 0, pos, tt, d, []);
  }

  /** One iteration chooses the move at the first maximum of its scores. */
  lemma IterationFirstMaximum(z: ZobristTable, moves: seq<Move>, pos: Position, tt: Table, d: int)
    requires 0 < |moves| && MovesInBounds(moves) && d >= 1 && TableOK(tt)
    ensures exists k :: FirstMaximum(RootPass(z, moves, 0, pos, tt, d, []).scores, k)
                        && Iteration(z, moves, pos, tt, d).move == moves[k]
  {
    var scores := RootPass(z, moves, 0, pos, tt, d, []).scores;
    RootPassTable(z, moves, 0, pos, tt, d, []);
    PickFirstMaximum(moves, scores);
  }

  /** Every iteration keeps the table well formed. */
  lemma StepTable(z: ZobristTable, moves: seq<Move>)
    requires 0 < |moves| && MovesInBounds(moves)
    ensures forall x: RootResult, k: int :: TableOK(x.tt) ==> TableOK(Step(z, moves)(x, k).tt)
  {
    forall x: RootResult, k: int | TableOK(x.tt)
      ensures TableOK(Step(z, moves)(x, k).tt)
    {
      if k >= 1 {
        IterationTable(z, moves, x.pos, x.tt, k);
      }
    }
  }

  /** Every iteration changes the board only by queening pawns. */
  lemma StepQueened(z: ZobristTable, moves: seq<Move>, p0: Position)
    requires 0 < |moves| && MovesInBounds(moves)
    ensures forall x: RootResult, k: int :: Queened(x.pos, p0) ==> Queened(Step(z, moves)(x, k).pos, p0)
  {
    forall x: RootResult, k: int | Queened(x.pos, p0)
      ensures Queened(Step(z, moves)(x, k).pos, p0)
    {
      if k >= 1 {
        IterationQueened(z, moves, x.pos, x.tt, k);
        QueenedTransitive(p0, x.pos, Step(z, moves)(x, k).pos);
      }
    }
  }

  /** With no moves, or a depth below 1, the result is Move(0, 0, 0, 0) and
      nothing is searched. */
  lemma FindBestMoveNothingToSearch(z: ZobristTable, pos: Position, tt: Table, depth: int)
    requires GenerateMoves(pos) == [] || depth < 1
    ensures FindBestMove(z, pos, tt, depth) == RootResult(NewMove(0, 0, 0, 0), pos, tt)
  {
  }

  /** Searching to depth >= 1 from a position with moves returns a
      generated (pseudo-legal) move, and it is the first move of highest
      score in the last iteration. */
  lemma FindBestMoveIsFirstMaximum(z: ZobristTable, pos: Position, tt: Table, depth: int)
    requires depth >= 1 && GenerateMoves(pos) != [] && TableOK(tt)
    ensures var moves := GenerateMoves(pos);
            var r := FindBestMove(z, pos, tt, depth);
            && r.move in moves && PseudoLegal(pos, r.move)
            && exists k :: FirstMaximum(LastScores(z, pos, tt, depth), k) && r.move == moves[k]
  {
    var moves := GenerateMoves(pos);
    var step := Step(z, moves);
    var r0 := RootResult(NewMove(0, 0, 0, 0), pos, tt);
    var y := LastInput(step, 1, depth, r0);
    LoopEndsWithLast(step, 1, depth, r0);
    StepTable(z, moves);
    LoopInvariant(step, (x: RootResult) => TableOK(x.tt), 1, depth, r0);
    assert step(y, depth) == Iteration(z, moves, y.pos, y.tt, depth);
    IterationFirstMaximum(z, moves, y.pos, y.tt, depth);
    GeneratedIffPseudoLegal(pos, FindBestMove(z, pos, tt, depth).move);
  }

  /** findBestMove keeps the table well formed and leaves the side to move
      as it was; the board differs only by pawns that became queens, so a
      board without pawns is restored exactly. */
  lemma FindBestMoveBoard(z: ZobristTable, pos: Position, tt: Table, depth: int)
    requires TableOK(tt)
    ensures var r := FindBestMove(z, pos, tt, depth);
            TableOK(r.tt) && Queened(r.pos, pos) && (PawnFree(pos) ==> r.pos == pos)
  {
    var moves := GenerateMoves(pos);
    QueenedReflexive(pos);
    if |moves| > 0 {
      var r0 := RootResult(NewMove(0, 0, 0, 0), pos, tt);
      StepTable(z, moves);
      LoopInvariant(Step(z, moves), (x: RootResult) => TableOK(x.tt), 1, depth, r0);
      StepQueened(z, moves, pos);
      LoopInvariant(Step(z, moves), (x: RootResult) => Queened(x.pos, pos), 1, depth, r0);
      var r := FindBestMove(z, pos, tt, depth);
      if PawnFree(pos) {
        QueenedWithoutPawns(r.pos, pos);
      }
    }
  }

  /** Every call of alphaBeta made from the root, and every call below it,
      has maximizingPlayer equal to the negation of the side to move. */
  lemma RootCallsAgree(z: ZobristTable, pos: Position, tt: Table, m: Move, d: int)
    requires d >= 1 && InBounds(m)
    ensures var after := ApplyMove(pos, m);
            AgreesBelow(z, after, tt, -INFINITY_SCORE, INFINITY_SCORE, d - 1, !after.whiteToMove)
  {
    var after := ApplyMove(pos, m);
    AlphaBetaAgrees(z, after, tt, -INFINITY_SCORE, INFINITY_SCORE, d - 1, !after.whiteToMove);
  }
}
