/** The engine of `js/index.js`: `undoMove`, the memoised `negaMax`, `getBestMove`,
    `newGame` and the click handler. The module-level variables (the boards, the
    side, the key and the transposition table) are threaded through as values.

    `undoMove` flips the side back before it hashes, so it XORs the constant of the
    restored side while `makeMove` XORed the constant of the other one: a make/undo
    pair restores the boards and the side but moves the key by the XOR of the two
    constants of the cell. The search therefore reads and writes the table under
    keys that drift from the keys of the positions it describes. */
module Engine {
  import opened Bitboard
  import opened Scores
  import opened PositionKey

  /** The property name a `positionKey` becomes when it indexes the table object;
      distinct keys give distinct names. Wrapping the key keeps table lookups apart
      from the bit-vector reasoning about keys, which the solver would otherwise
      mix into every map fact. */
  datatype Prop = Prop(key: bv32)

  /** `transpositionTable`: score stored per position key. */
  type Table = map<Prop, int>

  /** `undoMove(index)`: flip the side back, clear the cell in the board of the side
      now to move, then hash with that side. */
  function UndoMove(s: State, c: Cell): (r: State)
    ensures r.side == s.side.Flip()
    ensures r.side == O ==> r.o == Clear(s.o, c) && r.x == s.x
    ensures r.side == X ==> r.x == Clear(s.x, c) && r.o == s.o
  {
    var side := s.side.Flip();
    var cleared := if side == O then s.(o := Clear(s.o, c)) else s.(x := Clear(s.x, c));
    HashKey(cleared.(side := side), c)
  }

  /** The key moves by the constant of the cell and the side restored. */
  lemma UndoMoveKey(s: State, c: Cell)
    ensures UndoMove(s, c).key == Xor(s.key, Zobrist(c, s.side.Flip()))
  {
  }

  /** Undoing a move on an empty cell from any position with the boards and side
      that move produced gives back the boards and side from before the move. */
  lemma UndoAfterMove(s: State, c: Cell, t: State)
    requires IsEmpty(s, c)
    requires SameBoards(t, MakeMove(s, c))
    ensures SameBoards(UndoMove(t, c), s)
  {
    EmptyInBothBoards(s, c);
    if s.side == O {
      ClearPlaced(s.o, t.o, c);
    } else {
      ClearPlaced(s.x, t.x, c);
    }
  }

  lemma ClearPlaced(a: bv9, b: bv9, c: Cell)
    requires !Holds(a, c) && b == Place(a, c)
    ensures Clear(b, c) == a
  {
  }

  /** `makeMove` then `undoMove` on an empty cell restores the boards and the side,
      but not the key: it ends XORed with both constants of the cell, which differ. */
  lemma MakeUndoRoundTrip(s: State, c: Cell)
    requires IsEmpty(s, c)
    ensures SameBoards(UndoMove(MakeMove(s, c), c), s)
    ensures UndoMove(MakeMove(s, c), c).key == Xor(s.key, Xor(Zobrist(c, O), Zobrist(c, X)))
    ensures UndoMove(MakeMove(s, c), c).key != s.key
  {
    var m := MakeMove(s, c);
    UndoAfterMove(s, c, m);
    MakeMoveKey(s, c);
    UndoMoveKey(m, c);
    RoundTripKey(s.key, m.key, UndoMove(m, c).key, c, s.side);
    ZobristSidesDiffer(c);
    XorChanges(s.key, Xor(Zobrist(c, O), Zobrist(c, X)));
  }

  lemma RoundTripKey(k: bv32, k': bv32, k'': bv32, c: Cell, p: Side)
    requires k' == Xor(k, Zobrist(c, p.Flip())) && k'' == Xor(k', Zobrist(c, p.Flip().Flip()))
    ensures k'' == Xor(k, Xor(Zobrist(c, O), Zobrist(c, X)))
  {
    if p == O {
      XorSwap(k, Zobrist(c, X), Zobrist(c, O));
    } else {
      XorAssociative(k, Zobrist(c, O), Zobrist(c, X));
    }
  }

  lemma XorSwap(k: bv32, a: bv32, b: bv32)
    ensures Xor(Xor(k, a), b) == Xor(k, Xor(b, a))
  {
    XorAssociative(k, a, b);
    XorCommutative(a, b);
  }

  lemma XorChanges(k: bv32, d: bv32)
    requires d != 0
    ensures Xor(k, d) != k
  {
  }

  /** Every stored score lies in [-10, 10]. */
  ghost predicate Bounded(tt: Table)
  {
    forall k | k in tt :: -10 <= tt[k] <= 10
  }

  ghost predicate InRange(best: Score)
  {
    best.Val? ==> -10 <= best.v <= 10
  }

  /** A search entered at a depth no larger than the number of moves already made
      from an empty board, with a table of scores in range. */
  ghost predicate Within(depth: int, s: State, tt: Table)
  {
    0 <= depth && depth + Free(s) <= 9 && Bounded(tt)
  }

  /** What a `negaMax` call returns and leaves behind, with the probes of its loop
      (none when it returns before the loop). */
  datatype Search = Search(score: int, state: State, table: Table, trace: seq<Probe>)

  /** What the `negaMax` loop leaves behind: the best score, the position, the table,
      and one probe per cell explored, with the negated child score. */
  datatype Sweep = Sweep(best: Score, state: State, table: Table, trace: seq<Probe>)

  /** The loop explored every empty cell of `s` in ascending order, at least one, the
      score is the greatest negated child score, and it is stored under the key the
      loop left behind. */
  ghost predicate Explored(s: State, r: Search)
  {
    && Covers(s, 0, r.trace)
    && |r.trace| > 0
    && MaxOf(Val(r.score), NegInf, r.trace)
    && Prop(r.state.key) in r.table
    && r.table[Prop(r.state.key)] == r.score
  }

  /** The position and the table one loop iteration starts from. */
  datatype Visit = Visit(state: State, table: Table)

  /** The iterations of a `negaMax` loop at depth `depth` from visit v on, the last one
      leaving `last`: each probed cell is empty where its iteration starts, the probe
      holds the negated score of `negaMax(depth + 1)` after the move, run with the
      table as that iteration found it, and the next iteration starts from the
      position that child search left, with the move undone, and the table it left. */
  ghost predicate Chain(depth: int, v: Visit, trace: seq<Probe>, last: Visit)
    decreases |trace|
  {
    if |trace| == 0 then v == last
    else
      var p := trace[0];
      var child := NegaMax(MakeMove(v.state, p.cell), depth + 1, v.table);
      var next := Visit(UndoMove(child.state, p.cell), child.table);
      && IsEmpty(v.state, p.cell)
      && p.score == Negate(child.score)
      && Chain(depth, next, trace[1..], last)
  }

  /** The loop ran from (s, tt) through the iterations its probes record, and the
      store after it wrote the score into the table the last iteration left. */
  ghost predicate Swept(depth: int, s: State, tt: Table, r: Search)
  {
    exists t :: Chain(depth, Visit(s, tt), r.trace, Visit(r.state, t))
                && r.table == t[Prop(r.state.key) := r.score]
  }

  /** `negaMax(depth)`. A win returns 10 - depth for X and depth - 10 for O; a key in
      the table returns the stored score; a full board returns 0; otherwise the loop
      runs. */
  function NegaMax(s: State, depth: int, tt: Table): (r: Search)
    ensures SameBoards(r.state, s)
    ensures tt.Keys <= r.table.Keys
    ensures IsWin(s) == 1 ==> r == Search(10 - depth, s, tt, [])
    ensures IsWin(s) == -1 ==> r == Search(depth - 10, s, tt, [])
    ensures IsWin(s) == 0 && Prop(s.key) in tt ==> r == Search(tt[Prop(s.key)], s, tt, [])
    ensures IsWin(s) == 0 && Prop(s.key) !in tt && IsDraw(s) ==> r == Search(0, s, tt, [])
    ensures IsWin(s) == 0 && Prop(s.key) !in tt && !IsDraw(s) ==> Explored(s, r)
    ensures Within(depth, s, tt) ==> -10 <= r.score <= 10 && Bounded(r.table)
    decreases Free(s), 2, 0

  {
    var w := IsWin(s);
    if w != 0 then
      Search(if w == 1 then 10 - depth else depth - 10, s, tt, [])
    else if Prop(s.key) in tt then
      Search(tt[Prop(s.key)], s, tt, [])
    else if IsDraw(s) then
      Search(0, s, tt, [])
    else
      SearchLoop(s, depth, tt)
  }

  /** The loop of `negaMax` and the store after it: `transpositionTable[positionKey] =
      bestScore`, under the key as the loop left it. Only reached on a board with an
      empty cell. */
  function SearchLoop(s: State, depth: int, tt: Table): (r: Search)
    requires !IsDraw(s)
    ensures SameBoards(r.state, s)
    ensures tt.Keys <= r.table.Keys
    ensures Explored(s, r)
    ensures Within(depth, s, tt) ==> -10 <= r.score <= 10 && Bounded(r.table)
    decreases Free(s), 1, 0

  {
    var sweep := Children(s, depth, tt, 0, NegInf);
    SomeCellExplored(s, sweep.trace);
    var best := sweep.best.v;
    StoreKeepsBounded(sweep.table, Prop(sweep.state.key), best);
    Search(best, sweep.state, sweep.table[Prop(sweep.state.key) := best], sweep.trace)
  }

  lemma StoreKeepsBounded(tt: Table, k: Prop, v: int)
    ensures Bounded(tt) && -10 <= v <= 10 ==> Bounded(tt[k := v])
  {
  }

  /** A position that is not full has an empty cell, which a covering trace explores. */
  lemma SomeCellExplored(s: State, trace: seq<Probe>)
    requires !IsDraw(s) && Covers(s, 0, trace)
    ensures |trace| > 0
  {
    IsDrawMeansNoEmptyCell(s);
    var d: Cell :| IsEmpty(s, d);
    assert Probed(trace, d);
  }

  /** The `negaMax` loop from cell c on, with `bestScore` so far. */
  function Children(s: State, depth: int, tt: Table, c: nat, best: Score): (r: Sweep)
    requires c <= 9
    ensures SameBoards(r.state, s)
    ensures tt.Keys <= r.table.Keys
    ensures Covers(s, c, r.trace)
    ensures MaxOf(r.best, best, r.trace)
    ensures Within(depth, s, tt) && InRange(best) ==> Bounded(r.table) && InRange(r.best)
    decreases Free(s), 0, 10 - c
  {
    if c == 9 then
      Sweep(best, s, tt, [])
    else if !IsEmpty(s, c) then
      var r := Children(s, depth, tt, c + 1, best);
      CoversSkip(s, c, r.trace);
      r
    else
      MakeMoveFillsCell(s, c);
      ChildWithin(s, c, depth, tt);
      var child := NegaMax(MakeMove(s, c), depth + 1, tt);
      UndoAfterMove(s, c, child.state);
      var score := Negate(child.score);
      var next := UndoMove(child.state, c);
      NextWithin(next, s, depth, tt, child.table);
      MaxInRange(best, score);
      var rest := Children(next, depth, child.table, c + 1, Max(best, score));
      var r := Sweep(rest.best, rest.state, rest.table, [Probe(c, score)] + rest.trace);
      MaxOfStep(rest.best, best, Probe(c, score), rest.trace);
      CoversSameBoards(next, s, c + 1, rest.trace);
      CoversStep(s, c, Probe(c, score), rest.trace);
      r
  }

  /** A `negaMax` call that reaches its loop runs the iterations `Chain` describes
      and stores its score into the table the last one left. */
  lemma NegaMaxSwept(s: State, depth: int, tt: Table)
    requires IsWin(s) == 0 && Prop(s.key) !in tt && !IsDraw(s)
    ensures Swept(depth, s, tt, NegaMax(s, depth, tt))
  {
    SearchLoopSwept(s, depth, tt);
  }

  /** The loop and the store of `negaMax`, as `Swept` describes them. */
  lemma SearchLoopSwept(s: State, depth: int, tt: Table)
    requires !IsDraw(s)
    ensures Swept(depth, s, tt, SearchLoop(s, depth, tt))
  {
    ChildrenChain(s, depth, tt, 0, NegInf);
    var sweep := Children(s, depth, tt, 0, NegInf);
    var r := SearchLoop(s, depth, tt);
    assert Chain(depth, Visit(s, tt), r.trace, Visit(r.state, sweep.table))
           && r.table == sweep.table[Prop(r.state.key) := r.score];
  }

  /** The `negaMax` loop from cell c on runs the iterations `Chain` describes, ending
      where the loop ends. */
  lemma {:induction false} ChildrenChain(s: State, depth: int, tt: Table, c: nat, best: Score)
    requires c <= 9
    ensures var r := Children(s, depth, tt, c, best);
            Chain(depth, Visit(s, tt), r.trace, Visit(r.state, r.table))
    decreases Free(s), 10 - c, 1
  {
    if c == 9 {
    } else if !IsEmpty(s, c) {
      ChildrenChain(s, depth, tt, c + 1, best);
      ChildrenSkips(s, depth, tt, c, best);
    } else {
      ExploreChain(s, depth, tt, c, best);
      ChildrenExplores(s, depth, tt, c, best);
    }
  }

  /** The iteration at an empty cell c: one probe for the child search, then the
      iterations from the position its undo left and the table it left. */
  lemma {:induction false} ExploreChain(s: State, depth: int, tt: Table, c: Cell, best: Score)
    requires IsEmpty(s, c)
    ensures var child := NegaMax(MakeMove(s, c), depth + 1, tt);
            var score := Negate(child.score);
            var rest := Children(UndoMove(child.state, c), depth, child.table, c + 1, Max(best, score));
            Chain(depth, Visit(s, tt), [Probe(c, score)] + rest.trace, Visit(rest.state, rest.table)) == true
    decreases Free(s), 10 - c, 0
  {
    var child := NegaMax(MakeMove(s, c), depth + 1, tt);
    var next := UndoMove(child.state, c);
    var b := Max(best, Negate(child.score));
    NextSameFree(s, c, depth + 1, tt);
    ChildrenChain(next, depth, child.table, c + 1, b);
    var rest := Children(next, depth, child.table, c + 1, b);
    ChainCons(depth, s, tt, c, rest.trace, Visit(rest.state, rest.table));
  }

  /** The move, a search of any depth and the undo leave the same cells taken, and so
      as many empty cells, as there were. */
  lemma NextSameFree(s: State, c: Cell, depth: int, tt: Table)
    requires IsEmpty(s, c)
    ensures Occupied(UndoMove(NegaMax(MakeMove(s, c), depth, tt).state, c)) == Occupied(s)
    ensures Free(UndoMove(NegaMax(MakeMove(s, c), depth, tt).state, c)) == Free(s)
  {
    var t := NegaMax(MakeMove(s, c), depth, tt).state;
    UndoAfterMove(s, c, t);
    assert Occupied(UndoMove(t, c)) == Occupied(s);
  }

  /** A taken cell is passed over. */
  lemma ChildrenSkips(s: State, depth: int, tt: Table, c: Cell, best: Score)
    requires !IsEmpty(s, c)
    ensures Children(s, depth, tt, c, best) == Children(s, depth, tt, c + 1, best)
  {
  }

  /** At an empty cell the loop records the child's negated score and goes on from
      the position the child search and the undo left, with the table the child
      search left. */
  lemma ChildrenExplores(s: State, depth: int, tt: Table, c: Cell, best: Score)
    requires IsEmpty(s, c)
    ensures var child := NegaMax(MakeMove(s, c), depth + 1, tt);
            var score := Negate(child.score);
            var rest := Children(UndoMove(child.state, c), depth, child.table, c + 1, Max(best, score));
            Children(s, depth, tt, c, best)
              == Sweep(rest.best, rest.state, rest.table, [Probe(c, score)] + rest.trace)
  {
  }

  /** One more iteration in front: the probe at the empty cell c, then iterations
      that start where its child search and undo left the position and the table.
      The recursive facts are compared with `true` so that a caller checks each as
      the one fact its own recursive call supplies, instead of unfolding it into the
      predicate's cases. */
  lemma ChainCons(depth: int, s: State, tt: Table, c: Cell, trace: seq<Probe>, last: Visit)
    requires IsEmpty(s, c)
    requires var child := NegaMax(MakeMove(s, c), depth + 1, tt);
             Chain(depth, Visit(UndoMove(child.state, c), child.table), trace, last) == true
    ensures var score := Negate(NegaMax(MakeMove(s, c), depth + 1, tt).score);
            Chain(depth, Visit(s, tt), [Probe(c, score)] + trace, last)
  {
    var score := Negate(NegaMax(MakeMove(s, c), depth + 1, tt).score);
    assert ([Probe(c, score)] + trace)[1..] == trace;
  }

  /** What `getBestMove` returns and leaves behind, with one probe per cell it tried,
      holding the score `negaMax(0)` returned for that cell. */
  datatype Choice = Choice(move: int, state: State, table: Table, trace: seq<Probe>)

  /** `getBestMove()`: -1 when no cell is empty; otherwise an empty cell whose
      `negaMax(0)` score, after moving there, is the greatest, the lowest such cell
      since only a strictly greater score replaces the best. The boards and the side
      are as on entry, and scores in the table stay in range. */
  function GetBestMove(s: State, tt: Table): (r: Choice)
    ensures SameBoards(r.state, s)
    ensures tt.Keys <= r.table.Keys
    ensures Covers(s, 0, r.trace)
    ensures Selected(r.move, -1, NegInf, r.trace)
    ensures r.move == -1 <==> IsDraw(s)
    ensures r.move != -1 ==> 0 <= r.move < 9 && IsEmpty(s, r.move)
    ensures Bounded(tt) ==> Bounded(r.table)
  {
    CandidatesSelected(s, tt, 0, -1, NegInf);
    var r := Candidates(s, tt, 0, -1, NegInf);
    SelectedFromStart(s, r.move, r.trace);
    r
  }

  /** Selection from (-1, -Infinity) over a covering trace returns -1 exactly when
      there is no empty cell, and an empty cell otherwise. */
  lemma SelectedFromStart(s: State, move: int, trace: seq<Probe>)
    requires Covers(s, 0, trace) && Selected(move, -1, NegInf, trace)
    ensures move == -1 <==> IsDraw(s)
    ensures move != -1 ==> 0 <= move < 9 && IsEmpty(s, move)
  {
    IsDrawMeansNoEmptyCell(s);
    if |trace| > 0 {
      assert Beats(trace[0].score, NegInf);
      var k :| 0 <= k < |trace| && FirstBest(trace, k) && Beats(trace[k].score, NegInf)
               && move == trace[k].cell;
      assert IsEmpty(s, trace[k].cell);
    } else {
      forall c: Cell
        ensures !IsEmpty(s, c)
      {
        assert !Probed(trace, c);
      }
    }
  }

  /** The `getBestMove` loop from cell c on, with `bestMove` and `bestScore` so far. */
  function Candidates(s: State, tt: Table, c: nat, bestMove: int, bestScore: Score): (r: Choice)
    requires c <= 9
    ensures SameBoards(r.state, s)
    ensures tt.Keys <= r.table.Keys
    ensures Covers(s, c, r.trace)
    ensures Bounded(tt) ==> Bounded(r.table)
    decreases 9 - c
  {
    if c == 9 then
      Choice(bestMove, s, tt, [])
    else if !IsEmpty(s, c) then
      var r := Candidates(s, tt, c + 1, bestMove, bestScore);
      CoversSkip(s, c, r.trace);
      r
    else
      var m := MakeMove(s, c);
      FreeAtMostNine(m);
      var child := NegaMax(m, 0, tt);
      UndoAfterMove(s, c, child.state);
      var score := child.score;
      var next := UndoMove(child.state, c);
      var beats := Beats(score, bestScore);
      var rest := Candidates(next, child.table, c + 1, if beats then c else bestMove,
                             if beats then Val(score) else bestScore);
      var r := Choice(rest.move, rest.state, rest.table, [Probe(c, score)] + rest.trace);
      CoversSameBoards(next, s, c + 1, rest.trace);
      CoversStep(s, c, Probe(c, score), rest.trace);
      r
  }

  /** The `getBestMove` loop from cell c on, started from (`bestMove`, `bestScore`),
      returns the cell of the first probe with the greatest score when some probe
      beats `bestScore`, and `bestMove` otherwise. */
  lemma CandidatesSelected(s: State, tt: Table, c: nat, bestMove: int, bestScore: Score)
    requires c <= 9
    ensures var r := Candidates(s, tt, c, bestMove, bestScore);
            Selected(r.move, bestMove, bestScore, r.trace)
  {
    CandidatesPick(s, tt, c, bestMove, bestScore);
    PickSelected(bestMove, bestScore, Candidates(s, tt, c, bestMove, bestScore).trace);
  }

  /** The `getBestMove` loop from cell c on returns the cell a `score > bestScore`
      scan over its own probes keeps. */
  lemma {:induction false} CandidatesPick(s: State, tt: Table, c: nat, bestMove: int, bestScore: Score)
    requires c <= 9
    ensures var r := Candidates(s, tt, c, bestMove, bestScore);
            r.move == Pick(bestMove, bestScore, r.trace)
    decreases 10 - c, 1
  {
    if c == 9 {
    } else if !IsEmpty(s, c) {
      CandidatesPick(s, tt, c + 1, bestMove, bestScore);
      CandidatesSkips(s, tt, c, bestMove, bestScore);
    } else {
      if Beats(NegaMax(MakeMove(s, c), 0, tt).score, bestScore) {
        PickReplaces(s, tt, c, bestMove, bestScore);
      } else {
        PickKeeps(s, tt, c, bestMove, bestScore);
      }
    }
  }

  /** `CandidatesPick` at an empty cell whose child's score beats the best so far. */
  lemma {:induction false} PickReplaces(s: State, tt: Table, c: Cell, bestMove: int, bestScore: Score)
    requires IsEmpty(s, c)
    requires Beats(NegaMax(MakeMove(s, c), 0, tt).score, bestScore)
    ensures var r := Candidates(s, tt, c, bestMove, bestScore);
            r.move == Pick(bestMove, bestScore, r.trace)
    decreases 10 - c, 0
  {
    var child := NegaMax(MakeMove(s, c), 0, tt);
    var next := UndoMove(child.state, c);
    CandidatesPick(next, child.table, c + 1, c, Val(child.score));
    PickCons(bestMove, bestScore, Probe(c, child.score),
             Candidates(next, child.table, c + 1, c, Val(child.score)).trace);
    CandidatesReplaces(s, tt, c, bestMove, bestScore);
  }

  /** `CandidatesPick` at an empty cell whose child's score does not beat the best
      so far. */
  lemma {:induction false} PickKeeps(s: State, tt: Table, c: Cell, bestMove: int, bestScore: Score)
    requires IsEmpty(s, c)
    requires !Beats(NegaMax(MakeMove(s, c), 0, tt).score, bestScore)
    ensures var r := Candidates(s, tt, c, bestMove, bestScore);
            r.move == Pick(bestMove, bestScore, r.trace)
    decreases 10 - c, 0
  {
    var child := NegaMax(MakeMove(s, c), 0, tt);
    var next := UndoMove(child.state, c);
    CandidatesPick(next, child.table, c + 1, bestMove, bestScore);
    PickCons(bestMove, bestScore, Probe(c, child.score),
             Candidates(next, child.table, c + 1, bestMove, bestScore).trace);
    CandidatesKeeps(s, tt, c, bestMove, bestScore);
  }

  /** The iterations of the `getBestMove` loop from visit v on, the last one leaving
      `last`: as in `Chain`, except that each probe holds the score of `negaMax(0)`
      itself. */
  ghost predicate RootChain(v: Visit, trace: seq<Probe>, last: Visit)
    decreases |trace|
  {
    if |trace| == 0 then v == last
    else
      var p := trace[0];
      var child := NegaMax(MakeMove(v.state, p.cell), 0, v.table);
      var next := Visit(UndoMove(child.state, p.cell), child.table);
      && IsEmpty(v.state, p.cell)
      && p.score == child.score
      && RootChain(next, trace[1..], last)
  }

  /** `getBestMove()` runs the iterations `RootChain` describes from the position and
      the table it is called with. */
  lemma GetBestMoveChain(s: State, tt: Table)
    ensures var r := GetBestMove(s, tt);
            RootChain(Visit(s, tt), r.trace, Visit(r.state, r.table))
  {
    CandidatesChain(s, tt, 0, -1, NegInf);
  }

  /** The `getBestMove` loop from cell c on runs the iterations `RootChain`
      describes, ending where the loop ends. */
  lemma {:induction false} CandidatesChain(s: State, tt: Table, c: nat, bestMove: int, bestScore: Score)
    requires c <= 9
    ensures var r := Candidates(s, tt, c, bestMove, bestScore);
            RootChain(Visit(s, tt), r.trace, Visit(r.state, r.table))
    decreases 10 - c, 1
  {
    if c == 9 {
    } else if !IsEmpty(s, c) {
      CandidatesChain(s, tt, c + 1, bestMove, bestScore);
      CandidatesSkips(s, tt, c, bestMove, bestScore);
    } else {
      var child := NegaMax(MakeMove(s, c), 0, tt);
      var beats := Beats(child.score, bestScore);
      ExploreRootChain(s, tt, c, if beats then c else bestMove, if beats then Val(child.score) else bestScore);
      CandidatesExplores(s, tt, c, bestMove, bestScore);
    }
  }

  /** The `getBestMove` iteration at an empty cell c: one probe for the child search,
      then the iterations from the position its undo left and the table it left,
      whichever best move and score the loop carries on with. */
  lemma {:induction false} ExploreRootChain(s: State, tt: Table, c: Cell, move: int, score: Score)
    requires IsEmpty(s, c)
    ensures var child := NegaMax(MakeMove(s, c), 0, tt);
            var rest := Candidates(UndoMove(child.state, c), child.table, c + 1, move, score);
            RootChain(Visit(s, tt), [Probe(c, child.score)] + rest.trace, Visit(rest.state, rest.table)) == true
    decreases 10 - c, 0
  {
    var child := NegaMax(MakeMove(s, c), 0, tt);
    var next := UndoMove(child.state, c);
    CandidatesChain(next, child.table, c + 1, move, score);
    var rest := Candidates(next, child.table, c + 1, move, score);
    RootChainCons(s, tt, c, rest.trace, Visit(rest.state, rest.table));
  }

  /** A taken cell is passed over by the `getBestMove` loop. */
  lemma CandidatesSkips(s: State, tt: Table, c: Cell, bestMove: int, bestScore: Score)
    requires !IsEmpty(s, c)
    ensures Candidates(s, tt, c, bestMove, bestScore) == Candidates(s, tt, c + 1, bestMove, bestScore)
  {
  }

  /** At an empty cell the `getBestMove` loop records the child's score, takes the
      cell when that score beats the best so far, and goes on from the position the
      child search and the undo left, with the table the child search left. */
  lemma CandidatesExplores(s: State, tt: Table, c: Cell, bestMove: int, bestScore: Score)
    requires IsEmpty(s, c)
    ensures var child := NegaMax(MakeMove(s, c), 0, tt);
            var beats := Beats(child.score, bestScore);
            var rest := Candidates(UndoMove(child.state, c), child.table, c + 1,
                                   if beats then c else bestMove,
                                   if beats then Val(child.score) else bestScore);
            Candidates(s, tt, c, bestMove, bestScore)
              == Choice(rest.move, rest.state, rest.table, [Probe(c, child.score)] + rest.trace)
  {
  }

  /** `CandidatesExplores` when the child's score beats the best so far: the loop
      goes on with the cell and its score as the best. */
  lemma CandidatesReplaces(s: State, tt: Table, c: Cell, bestMove: int, bestScore: Score)
    requires IsEmpty(s, c)
    requires Beats(NegaMax(MakeMove(s, c), 0, tt).score, bestScore)
    ensures var child := NegaMax(MakeMove(s, c), 0, tt);
            var rest := Candidates(UndoMove(child.state, c), child.table, c + 1, c, Val(child.score));
            Candidates(s, tt, c, bestMove, bestScore)
              == Choice(rest.move, rest.state, rest.table, [Probe(c, child.score)] + rest.trace)
  {
    CandidatesExplores(s, tt, c, bestMove, bestScore);
  }

  /** `CandidatesExplores` when the child's score does not beat the best so far: the
      loop goes on with the same best. */
  lemma CandidatesKeeps(s: State, tt: Table, c: Cell, bestMove: int, bestScore: Score)
    requires IsEmpty(s, c)
    requires !Beats(NegaMax(MakeMove(s, c), 0, tt).score, bestScore)
    ensures var child := NegaMax(MakeMove(s, c), 0, tt);
            var rest := Candidates(UndoMove(child.state, c), child.table, c + 1, bestMove, bestScore);
            Candidates(s, tt, c, bestMove, bestScore)
              == Choice(rest.move, rest.state, rest.table, [Probe(c, child.score)] + rest.trace)
  {
    CandidatesExplores(s, tt, c, bestMove, bestScore);
  }

  /** One more `getBestMove` iteration in front: the probe at the empty cell c, then
      iterations that start where its child search and undo left the position and
      the table. As in `ChainCons`, the recursive fact is compared with `true`. */
  lemma RootChainCons(s: State, tt: Table, c: Cell, trace: seq<Probe>, last: Visit)
    requires IsEmpty(s, c)
    requires var child := NegaMax(MakeMove(s, c), 0, tt);
             RootChain(Visit(UndoMove(child.state, c), child.table), trace, last) == true
    ensures var score := NegaMax(MakeMove(s, c), 0, tt).score;
            RootChain(Visit(s, tt), [Probe(c, score)] + trace, last)
  {
    var score := NegaMax(MakeMove(s, c), 0, tt).score;
    assert ([Probe(c, score)] + trace)[1..] == trace;
  }

  /** A move on an empty cell is one move deeper and leaves one empty cell fewer. */
  lemma ChildWithin(s: State, c: Cell, depth: int, tt: Table)
    requires IsEmpty(s, c)
    ensures Within(depth, s, tt) ==> Within(depth + 1, MakeMove(s, c), tt)
  {
    MakeMoveFillsCell(s, c);
  }

  /** The position after the undo has the empty cells of the one before the move. */
  lemma NextWithin(next: State, s: State, depth: int, tt: Table, tt': Table)
    requires SameBoards(next, s)
    ensures Within(depth, s, tt) && Bounded(tt') ==> Within(depth, next, tt')
  {
    assert Occupied(next) == Occupied(s);
  }

  lemma MaxInRange(best: Score, score: int)
    ensures InRange(best) && -10 <= score <= 10 ==> InRange(Max(best, score))
  {
  }

  /** An explored empty cell followed by a covering of the cells above it covers
      from that cell on. */
  lemma CoversStep(s: State, c: Cell, p: Probe, rest: seq<Probe>)
    requires p.cell == c && IsEmpty(s, c)
    requires Covers(s, c + 1, rest)
    ensures Covers(s, c, [p] + rest)
  {
    var t := [p] + rest;
    forall k | 0 <= k < |t|
      ensures c <= t[k].cell && IsEmpty(s, t[k].cell)
    {
      if k > 0 {
        assert t[k] == rest[k - 1];
      }
    }
    AscendingCons(p, rest);
    forall d: Cell | c <= d && IsEmpty(s, d)
      ensures Probed(t, d)
    {
      if d == c {
        assert t[0].cell == d;
      } else {
        assert Probed(rest, d);
        var k :| 0 <= k < |rest| && rest[k].cell == d;
        assert t[k + 1].cell == d;
      }
    }
  }

  /** An occupied cell adds nothing to cover. */
  lemma CoversSkip(s: State, c: Cell, trace: seq<Probe>)
    requires !IsEmpty(s, c) && Covers(s, c + 1, trace)
    ensures Covers(s, c, trace)
  {
  }

  /** Covering depends on the boards only, not on the key or the side. */
  lemma CoversSameBoards(a: State, b: State, c: int, trace: seq<Probe>)
    requires SameBoards(a, b) && Covers(a, c, trace)
    ensures Covers(b, c, trace)
  {
    forall d: Cell
      ensures IsEmpty(a, d) == IsEmpty(b, d)
    {
      assert Occupied(a) == Occupied(b);
    }
  }

  /** The module-level game: the position, `winner` and the transposition table. */
  datatype Game = Game(state: State, winner: int, table: Table)

  /** A game reachable by clicks from `newGame`: disjoint boards, the key of the
      occupancy, X moved as often as O or once more, `winner` is what `isWin` says,
      and at most one side holds a line. */
  ghost predicate WellFormed(g: Game)
  {
    && Disjoint(g.state)
    && g.state.key == KeyOf(g.state)
    && Balanced(g.state)
    && g.winner == IsWin(g.state)
    && !(HasLine(g.state.o) && HasLine(g.state.x))
  }

  /** `newGame()`: X to move on empty boards, key 0, no winner, empty table. */
  function NewGame(): (g: Game)
    ensures WellFormed(g)
    ensures Free(g.state) == 9 && g.state.side == X && g.winner == 0 && g.table == map[]
  {
    StartIsWellFormed();
    StartIsEmpty();
    Game(Start, 0, map[])
  }

  /** The start position has nine empty cells and no line. */
  lemma StartIsEmpty()
    ensures Free(Start) == 9
    ensures !HasLine(Start.o) && !HasLine(Start.x) && IsWin(Start) == 0
  {
    NineEmptyCells();
    NoLineOnEmptyBoard();
  }

  lemma NineEmptyCells()
    ensures |EmptyCells(0)| == 9
  {
    assert EmptyCells(0) == {0, 1, 2, 3, 4, 5, 6, 7, 8};
  }

  lemma NoLineOnEmptyBoard()
    ensures !HasLine(0)
  {
    forall j | 0 <= j < |LineMasks|
      ensures !Completes(0, LineMasks[j])
    {
    }
  }

  /** The click handler on cell c: nothing once there is a winner or when the cell is
      taken; otherwise the side to move takes the cell and `winner` is recomputed.
      The table is left alone. */
  function Click(g: Game, c: Cell): (r: Game)
    ensures g.winner != 0 || !IsEmpty(g.state, c) ==> r == g
    ensures g.winner == 0 && IsEmpty(g.state, c) ==>
              && r.state.side == g.state.side.Flip()
              && Cells(Board(r.state, g.state.side)) == Cells(Board(g.state, g.state.side)) + {c}
              && Board(r.state, g.state.side.Flip()) == Board(g.state, g.state.side.Flip())
              && Free(r.state) == Free(g.state) - 1
              && (r.winner != 0 <==> HasLine(r.state.o) || HasLine(r.state.x))
              && r.table == g.table
  {
    if g.winner != 0 then g
    else if IsEmpty(g.state, c) then
      MakeMoveFillsCell(g.state, c);
      var s := MakeMove(g.state, c);
      Game(s, IsWin(s), g.table)
    else g
  }

  /** Clicks keep a game well formed. */
  lemma ClickKeepsWellFormed(g: Game, c: Cell)
    requires WellFormed(g)
    ensures WellFormed(Click(g, c))
  {
    if g.winner == 0 && IsEmpty(g.state, c) {
      var s := MakeMove(g.state, c);
      MakeMoveFillsCell(g.state, c);
      MakeMoveKeepsKeyOf(g.state, c);
      MakeMoveKeepsBalanced(g.state, c);
      OnlyMoverCanWin(g.state, c);
    }
  }

  /** From a position without lines, a move can only give a line to the side that
      moved. */
  lemma OnlyMoverCanWin(s: State, c: Cell)
    requires !HasLine(s.o) && !HasLine(s.x)
    ensures !HasLine(Board(MakeMove(s, c), s.side.Flip()))
  {
  }

  /** A click on a full board changes nothing: every cell is taken. */
  lemma ClickOnFullBoard(g: Game, c: Cell)
    requires IsDraw(g.state)
    ensures Click(g, c) == g
  {
    IsDrawMeansNoEmptyCell(g.state);
  }

  /** Every game reached from `newGame` by clicks is well formed. */
  lemma {:induction false} ClicksKeepWellFormed(g: Game, cells: seq<Cell>)
    requires WellFormed(g)
    ensures WellFormed(Clicks(g, cells))
    decreases |cells|
  {
    if |cells| > 0 {
      ClickKeepsWellFormed(g, cells[0]);
      ClicksKeepWellFormed(Click(g, cells[0]), cells[1..]);
    }
  }

  /** A sequence of clicks. */
  function Clicks(g: Game, cells: seq<Cell>): Game
    decreases |cells|
  {
    if |cells| == 0 then g else Clicks(Click(g, cells[0]), cells[1..])
  }
}
