/** The older engine of `css/js/index.js`: no transposition table, the draw test
    before the win test in `negaMax`, and an `undoMove` that clears the cell in the
    board of the side to move BEFORE flipping the side back. That board belongs to
    the opponent of the side that moved, which never held the cell, so the undo
    leaves the boards as the move made them: every search fills the board for good.
    The primitives it shares with the newer copy are those of `Bitboard`. */
module LegacyEngine {
  import opened Bitboard
  import opened Scores
  import opened PositionKey
  import Engine

  /** `undoMove(index)` of the older copy: clear the cell in the board of the side to
      move, flip the side, then hash with the side restored. */
  function UndoMove(s: State, c: Cell): (r: State)
    ensures r.side == s.side.Flip()
    ensures Board(r, s.side) == Clear(Board(s, s.side), c)
    ensures Board(r, r.side) == Board(s, r.side)
  {
    var cleared := if s.side == O then s.(o := Clear(s.o, c)) else s.(x := Clear(s.x, c));
    HashKey(cleared.(side := s.side.Flip()), c)
  }

  /** `makeMove` then this `undoMove` on an empty cell restores the side but not the
      boards: the cell stays set in the mover's board and the other board is as it
      was. The key ends XORed with both constants of the cell. */
  lemma MakeUndoRoundTrip(s: State, c: Cell)
    requires IsEmpty(s, c)
    ensures UndoMove(MakeMove(s, c), c).side == s.side
    ensures Board(UndoMove(MakeMove(s, c), c), s.side) == Place(Board(s, s.side), c)
    ensures Holds(Board(UndoMove(MakeMove(s, c), c), s.side), c)
    ensures Board(UndoMove(MakeMove(s, c), c), s.side.Flip()) == Board(s, s.side.Flip())
    ensures UndoMove(MakeMove(s, c), c).key == Xor(s.key, Xor(Zobrist(c, O), Zobrist(c, X)))
    ensures UndoMove(MakeMove(s, c), c).key != s.key
  {
    var m := MakeMove(s, c);
    var r := UndoMove(m, c);
    EmptyInBothBoards(s, c);
    MoverBoardGainsBit(s, c);
    PlaceHolds(Board(s, s.side), c, c);
    ClearAbsent(Board(s, s.side.Flip()), c);
    MakeMoveKey(s, c);
    Engine.RoundTripKey(s.key, m.key, r.key, c, s.side);
    ZobristSidesDiffer(c);
    Engine.XorChanges(s.key, Xor(Zobrist(c, O), Zobrist(c, X)));
  }

  lemma ClearAbsent(b: bv9, c: Cell)
    requires !Holds(b, c)
    ensures Clear(b, c) == b
  {
  }

  /** Every cell held in a board of `a` is held in the same board of `b`. */
  ghost predicate Grows(a: State, b: State)
  {
    Cells(a.o) <= Cells(b.o) && Cells(a.x) <= Cells(b.x)
  }

  /** Every cell from c on is taken. */
  ghost predicate FilledFrom(s: State, c: int)
  {
    forall d: Cell | c <= d :: !IsEmpty(s, d)
  }

  /** The probes visit cells from c on in ascending order, each empty in `s`, the
      first being the lowest such empty cell. */
  ghost predicate ProbesEmpty(s: State, c: int, trace: seq<Probe>)
  {
    && Ascending(trace)
    && (forall k | 0 <= k < |trace| :: c <= trace[k].cell && IsEmpty(s, trace[k].cell))
    && (|trace| > 0 ==> forall d: Cell | c <= d < trace[0].cell :: !IsEmpty(s, d))
  }

  /** Some cell from c on is empty. */
  ghost predicate EmptyFrom(s: State, c: int)
  {
    exists d: Cell :: c <= d && IsEmpty(s, d)
  }

  /** What a `negaMax` call returns and leaves behind, with the probes of its loop. */
  datatype Search = Search(score: int, state: State, trace: seq<Probe>)

  /** What the `negaMax` loop leaves behind. */
  datatype Sweep = Sweep(best: Score, state: State, trace: seq<Probe>)

  /** `negaMax(depth)` of the older copy: a full board scores 0 before any line is
      looked at; then 10 - depth for an X line and depth - 10 for an O line;
      otherwise the loop runs, explores at least one cell, and leaves every cell
      taken. The side is always restored and no cell is ever emptied. */
  function NegaMax(s: State, depth: int): (r: Search)
    ensures r.state.side == s.side
    ensures Grows(s, r.state)
    ensures Disjoint(s) ==> Disjoint(r.state)
    ensures IsDraw(s) ==> r == Search(0, s, [])
    ensures !IsDraw(s) && IsWin(s) == 1 ==> r == Search(10 - depth, s, [])
    ensures !IsDraw(s) && IsWin(s) == -1 ==> r == Search(depth - 10, s, [])
    ensures !IsDraw(s) && IsWin(s) == 0 ==>
              && IsDraw(r.state)
              && ProbesEmpty(s, 0, r.trace)
              && |r.trace| > 0
              && MaxOf(Val(r.score), NegInf, r.trace)
    decreases Free(s), 1, 0
  {
    if IsDraw(s) then Search(0, s, [])
    else
      var w := IsWin(s);
      if w == 1 then Search(10 - depth, s, [])
      else if w == -1 then Search(depth - 10, s, [])
      else
        var sweep := Children(s, depth, 0, NegInf);
        SomeCellEmpty(s);
        FilledMeansDraw(sweep.state);
        Search(sweep.best.v, sweep.state, sweep.trace)
  }

  /** The draw test first: on a full board where X holds a diagonal the older copy
      scores 0, the newer one 10 - depth. */
  lemma DrawBeforeWin(depth: int, tt: Engine.Table)
    ensures var s := State(0x0CA, 0x135, O, 0);
            NegaMax(s, depth).score == 0 && Engine.NegaMax(s, depth, tt).score == 10 - depth
  {
    DrawDoesNotExcludeWin();
  }

  /** A board that is not full has an empty cell. */
  lemma SomeCellEmpty(s: State)
    requires !IsDraw(s)
    ensures EmptyFrom(s, 0)
  {
    IsDrawMeansNoEmptyCell(s);
  }

  lemma FilledMeansDraw(s: State)
    requires FilledFrom(s, 0)
    ensures IsDraw(s)
  {
    IsDrawMeansNoEmptyCell(s);
  }

  /** The `negaMax` loop from cell c on, with `bestScore` so far. A cell is explored
      when it is empty in the position the previous iterations left. */
  function Children(s: State, depth: int, c: nat, best: Score): (r: Sweep)
    requires c <= 9
    ensures r.state.side == s.side
    ensures Grows(s, r.state)
    ensures Disjoint(s) ==> Disjoint(r.state)
    ensures FilledFrom(r.state, c)
    ensures ProbesEmpty(s, c, r.trace)
    ensures |r.trace| > 0 <==> EmptyFrom(s, c)
    ensures MaxOf(r.best, best, r.trace)
    decreases Free(s), 0, 10 - c
  {
    if c == 9 then
      Sweep(best, s, [])
    else if !IsEmpty(s, c) then
      var r := Children(s, depth, c + 1, best);
      SkipTaken(s, c, r.state, r.trace);
      r
    else
      MakeMoveFillsCell(s, c);
      var child := NegaMax(MakeMove(s, c), depth + 1);
      var score := Negate(child.score);
      var next := UndoMove(child.state, c);
      UndoKeepsCell(s, c, child.state);
      var rest := Children(next, depth, c + 1, Max(best, score));
      MaxOfStep(rest.best, best, Probe(c, score), rest.trace);
      ExploreStep(s, c, next, rest.state, Probe(c, score), rest.trace);
      Sweep(rest.best, rest.state, [Probe(c, score)] + rest.trace)
  }

  /** The iterations of the older `negaMax` loop at depth `depth` from position s on,
      the last one leaving `last`, the one before them having probed cell `from`:
      the cells the loop passes over, after `from` and before the next probe or the
      end of the board, are taken in the position it reaches them in; the probed
      cell is empty there, the probe holds the negated score of `negaMax(depth + 1)`
      after the move, and the next iteration starts from the position that child
      search left with this `undoMove` applied. */
  ghost predicate Chain(depth: int, s: State, from: int, trace: seq<Probe>, last: State)
    decreases |trace|
  {
    if |trace| == 0 then s == last && TakenBetween(s, from, 9)
    else
      var p := trace[0];
      var child := NegaMax(MakeMove(s, p.cell), depth + 1);
      var next := UndoMove(child.state, p.cell);
      && TakenBetween(s, from, p.cell)
      && IsEmpty(s, p.cell)
      && p.score == Negate(child.score)
      && Chain(depth, next, p.cell, trace[1..], last)
  }

  /** Every cell strictly between a and b is taken. */
  ghost predicate TakenBetween(s: State, a: int, b: int)
    decreases b - a
  {
    a + 1 >= b || (0 <= a + 1 < 9 && !IsEmpty(s, a + 1) && TakenBetween(s, a + 1, b))
  }

  /** The older `negaMax` loop from cell c on runs the iterations `Chain` describes,
      ending where the loop ends. */
  lemma {:induction false} ChildrenChain(s: State, depth: int, c: nat, best: Score)
    requires c <= 9
    ensures var r := Children(s, depth, c, best);
            Chain(depth, s, c - 1, r.trace, r.state)
    decreases Free(s), 10 - c, 1
  {
    if c == 9 {
    } else if !IsEmpty(s, c) {
      ChildrenChain(s, depth, c + 1, best);
      var r := Children(s, depth, c + 1, best);
      ChainWiden(depth, s, c - 1, r.trace, r.state);
      ChildrenSkips(s, depth, c, best);
    } else {
      ExploreChain(s, depth, c, best);
      ChildrenExplores(s, depth, c, best);
    }
  }

  /** The iteration at an empty cell c: one probe for the child search, then the
      iterations from the position its undo left. */
  lemma {:induction false} ExploreChain(s: State, depth: int, c: Cell, best: Score)
    requires IsEmpty(s, c)
    ensures var child := NegaMax(MakeMove(s, c), depth + 1);
            var score := Negate(child.score);
            var rest := Children(UndoMove(child.state, c), depth, c + 1, Max(best, score));
            Chain(depth, s, c - 1, [Probe(c, score)] + rest.trace, rest.state) == true
    decreases Free(s), 10 - c, 0
  {
    var child := NegaMax(MakeMove(s, c), depth + 1);
    var next := UndoMove(child.state, c);
    var b := Max(best, Negate(child.score));
    NextShrinks(s, c, depth + 1);
    ChildrenChain(next, depth, c + 1, b);
    var rest := Children(next, depth, c + 1, b);
    ChainCons(depth, s, c, rest.trace, rest.state);
  }

  /** A taken cell is passed over. */
  lemma ChildrenSkips(s: State, depth: int, c: Cell, best: Score)
    requires !IsEmpty(s, c)
    ensures Children(s, depth, c, best) == Children(s, depth, c + 1, best)
  {
  }

  /** At an empty cell the loop records the child's negated score and goes on from
      the position the child search and the undo left. */
  lemma ChildrenExplores(s: State, depth: int, c: Cell, best: Score)
    requires IsEmpty(s, c)
    ensures var child := NegaMax(MakeMove(s, c), depth + 1);
            var score := Negate(child.score);
            var rest := Children(UndoMove(child.state, c), depth, c + 1, Max(best, score));
            Children(s, depth, c, best) == Sweep(rest.best, rest.state, [Probe(c, score)] + rest.trace)
  {
  }

  /** One more iteration in front: the probe at the empty cell c, then iterations
      that start where its child search and undo left the position. The recursive
      fact is compared with `true` so that a caller checks it as the one fact its own
      recursive call supplies, instead of unfolding it into the predicate's cases. */
  lemma ChainCons(depth: int, s: State, c: Cell, trace: seq<Probe>, last: State)
    requires IsEmpty(s, c)
    requires Chain(depth, UndoMove(NegaMax(MakeMove(s, c), depth + 1).state, c), c, trace, last) == true
    ensures var score := Negate(NegaMax(MakeMove(s, c), depth + 1).score);
            Chain(depth, s, c - 1, [Probe(c, score)] + trace, last)
  {
    var score := Negate(NegaMax(MakeMove(s, c), depth + 1).score);
    assert ([Probe(c, score)] + trace)[1..] == trace;
  }

  /** A taken cell right after `from` is one more cell the loop passes over. As in
      `ChainCons`, the recursive fact is compared with `true`. */
  lemma ChainWiden(depth: int, s: State, from: int, trace: seq<Probe>, last: State)
    requires 0 <= from + 1 < 9 && !IsEmpty(s, from + 1)
    requires Chain(depth, s, from + 1, trace, last) == true
    ensures Chain(depth, s, from, trace, last)
  {
  }

  /** The move, a search of any depth and the undo leave no more empty cells than
      there were. */
  lemma NextShrinks(s: State, c: Cell, depth: int)
    requires IsEmpty(s, c)
    ensures Free(UndoMove(NegaMax(MakeMove(s, c), depth).state, c)) <= Free(s)
  {
    MakeMoveFillsCell(s, c);
    UndoKeepsCell(s, c, NegaMax(MakeMove(s, c), depth).state);
  }

  /** A `negaMax` call that reaches its loop runs the iterations `Chain` describes. */
  lemma NegaMaxChain(s: State, depth: int)
    requires !IsDraw(s) && IsWin(s) == 0
    ensures var r := NegaMax(s, depth);
            Chain(depth, s, -1, r.trace, r.state)
  {
    ChildrenChain(s, depth, 0, NegInf);
  }

  /** After the child search and the undo, the cell is still taken, nothing the
      position held before the move is lost, the side is back, and the boards stay
      disjoint when they were. */
  lemma UndoKeepsCell(s: State, c: Cell, t: State)
    requires IsEmpty(s, c)
    requires t.side == s.side.Flip() && Grows(MakeMove(s, c), t)
    requires Disjoint(s) ==> Disjoint(t)
    ensures UndoMove(t, c).side == s.side
    ensures Grows(s, UndoMove(t, c))
    ensures !IsEmpty(UndoMove(t, c), c)
    ensures Free(UndoMove(t, c)) <= Free(s)
    ensures Disjoint(s) ==> Disjoint(UndoMove(t, c))
  {
    UndoGrows(s, c, t);
    GrowsShrinksFree(s, UndoMove(t, c));
    if Disjoint(s) {
      UndoKeepsApart(t, c);
    }
  }

  /** The undo clears the cell only in the board that never held it. */
  lemma UndoGrows(s: State, c: Cell, t: State)
    requires IsEmpty(s, c)
    requires t.side == s.side.Flip() && Grows(MakeMove(s, c), t)
    ensures Grows(s, UndoMove(t, c))
    ensures !IsEmpty(UndoMove(t, c), c)
  {
    var n := UndoMove(t, c);
    var m := MakeMove(s, c);
    EmptyInBothBoards(s, c);
    MoverGainsCell(s, c);
    ClearRemovesCell(Board(t, s.side.Flip()), c);
    if s.side == O {
      KeptAndCleared(s.o, m.o, t.o, n.o, s.x, m.x, t.x, n.x, c);
    } else {
      KeptAndCleared(s.x, m.x, t.x, n.x, s.o, m.o, t.o, n.o, c);
    }
    OccupiedCells(n);
  }

  /** The mover's board `a` grows to `a2` through `a1`, and the other board `b`
      grows to `b1`, from which the undo clears c, which `b` never held. */
  lemma KeptAndCleared(a: bv9, a1: bv9, a2: bv9, a3: bv9, b: bv9, b0: bv9, b1: bv9, b2: bv9, c: Cell)
    requires Cells(a1) == Cells(a) + {c} && Cells(a1) <= Cells(a2) && a3 == a2
    requires b0 == b && Cells(b0) <= Cells(b1) && Cells(b2) == Cells(b1) - {c} && !Holds(b, c)
    ensures Cells(a) <= Cells(a3) && c in Cells(a3)
    ensures Cells(b) <= Cells(b2)
  {
  }

  /** Clearing a cell never makes two apart boards overlap. */
  lemma UndoKeepsApart(t: State, c: Cell)
    requires Disjoint(t)
    ensures Disjoint(UndoMove(t, c))
  {
    if t.side == O {
      ClearKeepsApartLeft(t.o, t.x, c);
    } else {
      ClearKeepsApartRight(t.o, t.x, c);
    }
  }

  /** More taken cells never means more empty cells. */
  lemma GrowsShrinksFree(a: State, b: State)
    requires Grows(a, b)
    ensures Free(b) <= Free(a)
  {
    OccupiedCells(a);
    OccupiedCells(b);
    FreeShrinks(Occupied(a), Occupied(b));
  }

  /** A cell taken in `a` is taken in any position that grows from it. */
  lemma StaysTaken(a: State, b: State, d: Cell)
    requires Grows(a, b) && !IsEmpty(a, d)
    ensures !IsEmpty(b, d)
  {
    IsEmptyMeansNeitherBoard(a, d);
    IsEmptyMeansNeitherBoard(b, d);
  }

  /** A taken cell at c adds nothing to the loop from c + 1. */
  lemma SkipTaken(s: State, c: Cell, t: State, trace: seq<Probe>)
    requires !IsEmpty(s, c) && Grows(s, t)
    requires FilledFrom(t, c + 1) && ProbesEmpty(s, c + 1, trace)
    requires |trace| > 0 <==> EmptyFrom(s, c + 1)
    ensures FilledFrom(t, c) && ProbesEmpty(s, c, trace)
    ensures |trace| > 0 <==> EmptyFrom(s, c)
  {
    StaysTaken(s, t, c);
    if EmptyFrom(s, c) {
      var d: Cell :| c <= d && IsEmpty(s, d);
      assert c + 1 <= d;
    }
  }

  /** An explored empty cell at c, then the loop from c + 1 in the position the undo
      left, make the loop from c. */
  lemma ExploreStep(s: State, c: Cell, next: State, t: State, p: Probe, rest: seq<Probe>)
    requires IsEmpty(s, c) && p.cell == c
    requires Grows(s, next) && !IsEmpty(next, c) && Grows(next, t)
    requires FilledFrom(t, c + 1) && ProbesEmpty(next, c + 1, rest)
    ensures FilledFrom(t, c)
    ensures ProbesEmpty(s, c, [p] + rest)
    ensures EmptyFrom(s, c)
  {
    StaysTaken(next, t, c);
    var u := [p] + rest;
    forall k | 0 <= k < |u|
      ensures c <= u[k].cell && IsEmpty(s, u[k].cell)
    {
      if k > 0 {
        assert u[k] == rest[k - 1];
        EmptyBefore(s, next, u[k].cell);
      }
    }
    AscendingCons(p, rest);
  }

  /** A cell empty after growth was empty before. */
  lemma EmptyBefore(a: State, b: State, d: Cell)
    requires Grows(a, b) && IsEmpty(b, d)
    ensures IsEmpty(a, d)
  {
    if !IsEmpty(a, d) {
      StaysTaken(a, b, d);
    }
  }

  /** What `getBestMove` returns and leaves behind, with one probe per cell it tried. */
  datatype Choice = Choice(move: int, state: State, trace: seq<Probe>)

  /** `getBestMove()` of the older copy: -1 exactly when no cell is empty on entry;
      otherwise a cell empty on entry, the first probe with the greatest score. As
      every search fills the board, every cell is taken afterwards; the side is as
      on entry. */
  function GetBestMove(s: State): (r: Choice)
    ensures r.move == -1 <==> IsDraw(s)
    ensures r.move != -1 ==> 0 <= r.move < 9 && IsEmpty(s, r.move)
    ensures Selected(r.move, -1, NegInf, r.trace)
    ensures ProbesEmpty(s, 0, r.trace)
    ensures IsDraw(r.state) && r.state.side == s.side && Grows(s, r.state)
    ensures Disjoint(s) ==> Disjoint(r.state)
  {
    CandidatesSelected(s, 0, -1, NegInf);
    var r := Candidates(s, 0, -1, NegInf);
    SelectedFromStart(s, r.move, r.trace);
    CandidatesDisjoint(s, 0, -1, NegInf);
    FilledMeansDraw(r.state);
    r
  }

  /** Selection from (-1, -Infinity) over probes of empty cells, present exactly when
      some cell is empty, returns -1 exactly when no cell is empty. */
  lemma SelectedFromStart(s: State, move: int, trace: seq<Probe>)
    requires ProbesEmpty(s, 0, trace) && (|trace| > 0 <==> EmptyFrom(s, 0))
    requires Selected(move, -1, NegInf, trace)
    ensures move == -1 <==> IsDraw(s)
    ensures move != -1 ==> 0 <= move < 9 && IsEmpty(s, move)
  {
    IsDrawMeansNoEmptyCell(s);
    if |trace| > 0 {
      assert Beats(trace[0].score, NegInf);
      var k :| 0 <= k < |trace| && FirstBest(trace, k) && Beats(trace[k].score, NegInf)
               && move == trace[k].cell;
      assert IsEmpty(s, trace[k].cell);
    }
  }

  /** The older `getBestMove` loop from cell c on, started from (`bestMove`,
      `bestScore`), returns the cell of the first probe with the greatest score when
      some probe beats `bestScore`, and `bestMove` otherwise. */
  lemma CandidatesSelected(s: State, c: nat, bestMove: int, bestScore: Score)
    requires c <= 9
    ensures var r := Candidates(s, c, bestMove, bestScore);
            Selected(r.move, bestMove, bestScore, r.trace)
  {
    CandidatesPick(s, c, bestMove, bestScore);
    PickSelected(bestMove, bestScore, Candidates(s, c, bestMove, bestScore).trace);
  }

  /** The older `getBestMove` loop from cell c on returns the cell a `score >
      bestScore` scan over its own probes keeps. */
  lemma {:induction false} CandidatesPick(s: State, c: nat, bestMove: int, bestScore: Score)
    requires c <= 9
    ensures var r := Candidates(s, c, bestMove, bestScore);
            r.move == Pick(bestMove, bestScore, r.trace)
    decreases 10 - c, 1
  {
    if c == 9 {
    } else if !IsEmpty(s, c) {
      CandidatesPick(s, c + 1, bestMove, bestScore);
      CandidatesSkips(s, c, bestMove, bestScore);
    } else {
      if Beats(NegaMax(MakeMove(s, c), 0).score, bestScore) {
        PickReplaces(s, c, bestMove, bestScore);
      } else {
        PickKeeps(s, c, bestMove, bestScore);
      }
    }
  }

  /** `CandidatesPick` at an empty cell whose child's score beats the best so far. */
  lemma {:induction false} PickReplaces(s: State, c: Cell, bestMove: int, bestScore: Score)
    requires IsEmpty(s, c)
    requires Beats(NegaMax(MakeMove(s, c), 0).score, bestScore)
    ensures var r := Candidates(s, c, bestMove, bestScore);
            r.move == Pick(bestMove, bestScore, r.trace)
    decreases 10 - c, 0
  {
    var child := NegaMax(MakeMove(s, c), 0);
    var next := UndoMove(child.state, c);
    CandidatesPick(next, c + 1, c, Val(child.score));
    PickCons(bestMove, bestScore, Probe(c, child.score), Candidates(next, c + 1, c, Val(child.score)).trace);
    CandidatesReplaces(s, c, bestMove, bestScore);
  }

  /** `CandidatesPick` at an empty cell whose child's score does not beat the best
      so far. */
  lemma {:induction false} PickKeeps(s: State, c: Cell, bestMove: int, bestScore: Score)
    requires IsEmpty(s, c)
    requires !Beats(NegaMax(MakeMove(s, c), 0).score, bestScore)
    ensures var r := Candidates(s, c, bestMove, bestScore);
            r.move == Pick(bestMove, bestScore, r.trace)
    decreases 10 - c, 0
  {
    var child := NegaMax(MakeMove(s, c), 0);
    var next := UndoMove(child.state, c);
    CandidatesPick(next, c + 1, bestMove, bestScore);
    PickCons(bestMove, bestScore, Probe(c, child.score), Candidates(next, c + 1, bestMove, bestScore).trace);
    CandidatesKeeps(s, c, bestMove, bestScore);
  }

  /** The iterations of the older `getBestMove` loop from position s on, the last
      one leaving `last`, the one before them having probed cell `from`: as in
      `Chain`, except that each probe holds the score of `negaMax(0)` itself. */
  ghost predicate RootChain(s: State, from: int, trace: seq<Probe>, last: State)
    decreases |trace|
  {
    if |trace| == 0 then s == last && TakenBetween(s, from, 9)
    else
      var p := trace[0];
      var child := NegaMax(MakeMove(s, p.cell), 0);
      var next := UndoMove(child.state, p.cell);
      && TakenBetween(s, from, p.cell)
      && IsEmpty(s, p.cell)
      && p.score == child.score
      && RootChain(next, p.cell, trace[1..], last)
  }

  /** The `getBestMove` loop from cell c on runs the iterations `RootChain`
      describes, ending where the loop ends. */
  lemma {:induction false} CandidatesChain(s: State, c: nat, bestMove: int, bestScore: Score)
    requires c <= 9
    ensures var r := Candidates(s, c, bestMove, bestScore);
            RootChain(s, c - 1, r.trace, r.state)
    decreases 10 - c, 1
  {
    if c == 9 {
    } else if !IsEmpty(s, c) {
      CandidatesChain(s, c + 1, bestMove, bestScore);
      var r := Candidates(s, c + 1, bestMove, bestScore);
      RootChainWiden(s, c - 1, r.trace, r.state);
      CandidatesSkips(s, c, bestMove, bestScore);
    } else {
      var child := NegaMax(MakeMove(s, c), 0);
      var beats := Beats(child.score, bestScore);
      ExploreRootChain(s, c, if beats then c else bestMove, if beats then Val(child.score) else bestScore);
      CandidatesExplores(s, c, bestMove, bestScore);
    }
  }

  /** The `getBestMove` iteration at an empty cell c: one probe for the child search,
      then the iterations from the position its undo left, whichever best move and
      score the loop carries on with. */
  lemma {:induction false} ExploreRootChain(s: State, c: Cell, move: int, score: Score)
    requires IsEmpty(s, c)
    ensures var child := NegaMax(MakeMove(s, c), 0);
            var rest := Candidates(UndoMove(child.state, c), c + 1, move, score);
            RootChain(s, c - 1, [Probe(c, child.score)] + rest.trace, rest.state) == true
    decreases 10 - c, 0
  {
    var child := NegaMax(MakeMove(s, c), 0);
    var next := UndoMove(child.state, c);
    var rest := Candidates(next, c + 1, move, score);
    CandidatesChain(next, c + 1, move, score);
    assert RootChain(next, c, rest.trace, rest.state);
    RootChainCons(s, c, rest.trace, rest.state);
  }

  /** A taken cell is passed over by the `getBestMove` loop. */
  lemma CandidatesSkips(s: State, c: Cell, bestMove: int, bestScore: Score)
    requires !IsEmpty(s, c)
    ensures Candidates(s, c, bestMove, bestScore) == Candidates(s, c + 1, bestMove, bestScore)
  {
  }

  /** At an empty cell the `getBestMove` loop records the child's score, takes the
      cell when that score beats the best so far, and goes on from the position the
      child search and the undo left. */
  lemma CandidatesExplores(s: State, c: Cell, bestMove: int, bestScore: Score)
    requires IsEmpty(s, c)
    ensures var child := NegaMax(MakeMove(s, c), 0);
            var beats := Beats(child.score, bestScore);
            var rest := Candidates(UndoMove(child.state, c), c + 1, if beats then c else bestMove,
                                   if beats then Val(child.score) else bestScore);
            Candidates(s, c, bestMove, bestScore)
              == Choice(rest.move, rest.state, [Probe(c, child.score)] + rest.trace)
  {
  }

  /** `CandidatesExplores` when the child's score beats the best so far: the loop
      goes on with the cell and its score as the best. */
  lemma CandidatesReplaces(s: State, c: Cell, bestMove: int, bestScore: Score)
    requires IsEmpty(s, c)
    requires Beats(NegaMax(MakeMove(s, c), 0).score, bestScore)
    ensures var child := NegaMax(MakeMove(s, c), 0);
            var rest := Candidates(UndoMove(child.state, c), c + 1, c, Val(child.score));
            Candidates(s, c, bestMove, bestScore)
              == Choice(rest.move, rest.state, [Probe(c, child.score)] + rest.trace)
  {
    CandidatesExplores(s, c, bestMove, bestScore);
  }

  /** `CandidatesExplores` when the child's score does not beat the best so far: the
      loop goes on with the same best. */
  lemma CandidatesKeeps(s: State, c: Cell, bestMove: int, bestScore: Score)
    requires IsEmpty(s, c)
    requires !Beats(NegaMax(MakeMove(s, c), 0).score, bestScore)
    ensures var child := NegaMax(MakeMove(s, c), 0);
            var rest := Candidates(UndoMove(child.state, c), c + 1, bestMove, bestScore);
            Candidates(s, c, bestMove, bestScore)
              == Choice(rest.move, rest.state, [Probe(c, child.score)] + rest.trace)
  {
    CandidatesExplores(s, c, bestMove, bestScore);
  }

  /** One more `getBestMove` iteration in front: the probe at the empty cell c, then
      iterations that start where its child search and undo left the position. As
      in `ChainCons`, the recursive fact is compared with `true`. */
  lemma RootChainCons(s: State, c: Cell, trace: seq<Probe>, last: State)
    requires IsEmpty(s, c)
    requires RootChain(UndoMove(NegaMax(MakeMove(s, c), 0).state, c), c, trace, last) == true
    ensures RootChain(s, c - 1, [Probe(c, NegaMax(MakeMove(s, c), 0).score)] + trace, last)
  {
    var score := NegaMax(MakeMove(s, c), 0).score;
    assert ([Probe(c, score)] + trace)[1..] == trace;
  }

  /** A taken cell right after `from` is one more cell the `getBestMove` loop passes
      over. */
  lemma RootChainWiden(s: State, from: int, trace: seq<Probe>, last: State)
    requires 0 <= from + 1 < 9 && !IsEmpty(s, from + 1)
    requires RootChain(s, from + 1, trace, last) == true
    ensures RootChain(s, from, trace, last)
  {
  }

  /** `getBestMove()` runs the iterations `RootChain` describes from the position it
      is called on. */
  lemma GetBestMoveChain(s: State)
    ensures var r := GetBestMove(s);
            RootChain(s, -1, r.trace, r.state)
  {
    CandidatesChain(s, 0, -1, NegInf);
  }

  /** The `getBestMove` loop from cell c on, with `bestMove` and `bestScore` so far. */
  function Candidates(s: State, c: nat, bestMove: int, bestScore: Score): (r: Choice)
    requires c <= 9
    ensures r.state.side == s.side
    ensures Grows(s, r.state)
    ensures FilledFrom(r.state, c)
    ensures ProbesEmpty(s, c, r.trace)
    ensures |r.trace| > 0 <==> EmptyFrom(s, c)
    decreases 9 - c
  {
    if c == 9 then
      Choice(bestMove, s, [])
    else if !IsEmpty(s, c) then
      var r := Candidates(s, c + 1, bestMove, bestScore);
      SkipTaken(s, c, r.state, r.trace);
      r
    else
      MakeMoveFillsCell(s, c);
      var child := NegaMax(MakeMove(s, c), 0);
      var score := child.score;
      var next := UndoMove(child.state, c);
      UndoKeepsCell(s, c, child.state);
      var beats := Beats(score, bestScore);
      var rest := Candidates(next, c + 1, if beats then c else bestMove,
                             if beats then Val(score) else bestScore);
      ExploreStep(s, c, next, rest.state, Probe(c, score), rest.trace);
      Choice(rest.move, rest.state, [Probe(c, score)] + rest.trace)
  }

  /** The `getBestMove` loop keeps the boards disjoint when they are. */
  lemma CandidatesDisjoint(s: State, c: nat, bestMove: int, bestScore: Score)
    requires c <= 9
    ensures Disjoint(s) ==> Disjoint(Candidates(s, c, bestMove, bestScore).state)
  {
    CandidatesChain(s, c, bestMove, bestScore);
    var r := Candidates(s, c, bestMove, bestScore);
    RootChainDisjoint(s, c - 1, r.trace, r.state);
  }

  /** The iterations `RootChain` describes keep the boards disjoint when they are. */
  lemma {:induction false} RootChainDisjoint(s: State, from: int, trace: seq<Probe>, last: State)
    requires RootChain(s, from, trace, last)
    ensures Disjoint(s) ==> Disjoint(last)
    decreases |trace|
  {
    if |trace| > 0 {
      var c := trace[0].cell;
      NextDisjoint(s, c, 0);
      RootChainDisjoint(UndoMove(NegaMax(MakeMove(s, c), 0).state, c), c, trace[1..], last);
    }
  }

  /** The move, a search of any depth and the undo keep the boards disjoint when
      they were. */
  lemma NextDisjoint(s: State, c: Cell, depth: int)
    requires IsEmpty(s, c)
    ensures Disjoint(s) ==> Disjoint(UndoMove(NegaMax(MakeMove(s, c), depth).state, c))
  {
    if Disjoint(s) {
      MoveKeepsDisjoint(s, c);
      UndoKeepsApart(NegaMax(MakeMove(s, c), depth).state, c);
    }
  }

  /** The game of the older copy: the position and `winner`; there is no table. */
  datatype Game = Game(state: State, winner: int)

  /** `newGame()`: X to move on empty boards, key 0, no winner. */
  function NewGame(): (g: Game)
    ensures Engine.WellFormed(Current(g))
    ensures Free(g.state) == 9 && g.state.side == X && g.winner == 0
  {
    var g := Engine.NewGame();
    Game(g.state, g.winner)
  }

  /** The click handler of the older copy: nothing on a full board, nothing once there
      is a winner, nothing on a taken cell; otherwise the side to move takes the
      cell and `winner` is recomputed. */
  function Click(g: Game, c: Cell): (r: Game)
    ensures IsDraw(g.state) || g.winner != 0 || !IsEmpty(g.state, c) ==> r == g
    ensures Current(r) == Engine.Click(Current(g), c)
  {
    var r := if IsDraw(g.state) then g
      else if g.winner != 0 then g
      else if IsEmpty(g.state, c) then
        var s := MakeMove(g.state, c);
        Game(s, IsWin(s))
      else g;
    FullBoardHasNoEmptyCell(g.state, c);
    r
  }

  lemma FullBoardHasNoEmptyCell(s: State, c: Cell)
    ensures IsDraw(s) ==> !IsEmpty(s, c)
  {
    IsDrawMeansNoEmptyCell(s);
  }

  /** The same game seen by the newer copy, with an empty table. */
  function Current(g: Game): Engine.Game
  {
    Engine.Game(g.state, g.winner, map[])
  }

  /** Clicks keep a game of the older copy well formed in the sense of the newer one. */
  lemma ClickKeepsWellFormed(g: Game, c: Cell)
    requires Engine.WellFormed(Current(g))
    ensures Engine.WellFormed(Current(Click(g, c)))
  {
    Engine.ClickKeepsWellFormed(Current(g), c);
  }
}
