/** Search scores and the record of what a search loop explored. `-Infinity` only
    ever appears as the starting value of a loop's best score, so it is a sentinel
    constructor rather than a number. */
module Scores {
  import opened Bitboard

  /** A loop's best score so far: `-Infinity` or a number. */
  datatype Score = NegInf | Val(v: int)

  /** `Math.max(bestScore, score)` */
  function Max(best: Score, score: int): (r: Score)
    ensures r.Val? && r.v >= score
    ensures best.Val? ==> r.v >= best.v
    ensures r == best || r == Val(score)
  {
    match best
    case NegInf => Val(score)
    case Val(b) => if b >= score then best else Val(score)
  }

  /** `-score`, the child's score as the parent sees it. It is a named function
      rather than `-score` written out so that a search's recursive call, which
      takes it as an argument, is the same term wherever a proof mentions it. */
  function Negate(score: int): (r: int)
    ensures r + score == 0
  {
    -score
  }

  /** `score > bestScore` */
  predicate Beats(score: int, best: Score)
  {
    best.NegInf? || score > best.v
  }

  /** One iteration of a search loop: the cell it moved on and the score it saw. */
  datatype Probe = Probe(cell: Cell, score: int)

  /** The probes visit cells in strictly ascending order: each cell is below the
      next one. Stated step by step rather than for every pair, so that the solver
      unfolds it only as far as a proof needs; `AscendingPairs` gives every pair. */
  ghost predicate Ascending(trace: seq<Probe>)
    decreases |trace|
  {
    |trace| <= 1 || (trace[0].cell < trace[1].cell && Ascending(trace[1..]))
  }

  /** In an ascending trace every earlier probe has a lower cell than every later one. */
  lemma {:induction false} AscendingPairs(trace: seq<Probe>)
    requires Ascending(trace)
    ensures forall j, k | 0 <= j < k < |trace| :: trace[j].cell < trace[k].cell
    decreases |trace|
  {
    if |trace| > 1 {
      var rest := trace[1..];
      AscendingPairs(rest);
      forall j, k | 0 <= j < k < |trace|
        ensures trace[j].cell < trace[k].cell
      {
        assert trace[k] == rest[k - 1];
        if j > 0 {
          assert trace[j] == rest[j - 1];
        } else if k > 1 {
          assert rest[0].cell < rest[k - 1].cell;
        }
      }
    }
  }

  /** A probe below every cell of an ascending trace keeps it ascending in front. */
  lemma AscendingCons(p: Probe, rest: seq<Probe>)
    requires Ascending(rest) && (|rest| > 0 ==> p.cell < rest[0].cell)
    ensures Ascending([p] + rest)
  {
    assert ([p] + rest)[1..] == rest;
  }

  /** Some probe of the trace is at cell d. */
  ghost predicate Probed(trace: seq<Probe>, d: int)
  {
    exists k | 0 <= k < |trace| :: trace[k].cell == d
  }

  /** The probes are exactly the empty cells of `s` from cell c on, in ascending order.
      The last conjunct fires only where a proof asks whether a cell was probed: on
      every emptiness fact about `s` instead, it would chase the probes of nested
      loops down the whole board. */
  ghost predicate Covers(s: State, c: int, trace: seq<Probe>)
  {
    && Ascending(trace)
    && (forall k | 0 <= k < |trace| :: c <= trace[k].cell && IsEmpty(s, trace[k].cell))
    && (forall d: Cell {:trigger Probed(trace, d)} | c <= d && IsEmpty(s, d) :: Probed(trace, d))
  }

  /** `r` is the maximum of `init` and the probe scores. */
  ghost predicate MaxOf(r: Score, init: Score, trace: seq<Probe>)
  {
    && (|trace| > 0 ==> r.Val?)
    && (forall k | 0 <= k < |trace| :: r.Val? && r.v >= trace[k].score)
    && (init.Val? ==> r.Val? && r.v >= init.v)
    && (r == init || exists k | 0 <= k < |trace| :: r == Val(trace[k].score))
  }

  /** Probe k has the greatest score, and no earlier probe has it: the probe a loop
      keeps when it replaces its best only on `score > bestScore`. */
  ghost predicate FirstBest(trace: seq<Probe>, k: int)
  {
    && 0 <= k < |trace|
    && (forall j | 0 <= j < k :: trace[j].score < trace[k].score)
    && (forall j | k < j < |trace| :: trace[j].score <= trace[k].score)
  }

  /** What a `getBestMove` loop that starts from (bestMove, bestScore) returns: the
      best so far when no probe beats it, otherwise the cell of the first probe with
      the greatest score. */
  ghost predicate Selected(move: int, bestMove: int, bestScore: Score, trace: seq<Probe>)
  {
    || (move == bestMove && forall k | 0 <= k < |trace| :: !Beats(trace[k].score, bestScore))
    || (exists k | 0 <= k < |trace| ::
          FirstBest(trace, k) && Beats(trace[k].score, bestScore) && move == trace[k].cell)
  }

  /** The cell a `getBestMove` loop that starts from (bestMove, bestScore) holds after
      the probes of the trace, replacing its best on `score > bestScore` only. */
  function Pick(bestMove: int, bestScore: Score, trace: seq<Probe>): (r: int)
    ensures r == bestMove || exists k | 0 <= k < |trace| :: r == trace[k].cell
    ensures (forall k | 0 <= k < |trace| :: !Beats(trace[k].score, bestScore)) ==> r == bestMove
    decreases |trace|
  {
    if |trace| == 0 then bestMove
    else if Beats(trace[0].score, bestScore) then Pick(trace[0].cell, Val(trace[0].score), trace[1..])
    else Pick(bestMove, bestScore, trace[1..])
  }

  /** One probe in front of the rest is compared first. */
  lemma PickCons(bestMove: int, bestScore: Score, p: Probe, rest: seq<Probe>)
    ensures Pick(bestMove, bestScore, [p] + rest)
              == if Beats(p.score, bestScore) then Pick(p.cell, Val(p.score), rest)
                 else Pick(bestMove, bestScore, rest)
  {
    assert ([p] + rest)[1..] == rest;
  }

  /** The scan keeps the first probe with the greatest score when one beats the
      starting score, and the starting cell otherwise. */
  lemma {:induction false} PickSelected(bestMove: int, bestScore: Score, trace: seq<Probe>)
    ensures Selected(Pick(bestMove, bestScore, trace), bestMove, bestScore, trace)
    decreases |trace|
  {
    if |trace| > 0 {
      var p, rest := trace[0], trace[1..];
      assert trace == [p] + rest;
      if Beats(p.score, bestScore) {
        PickSelected(p.cell, Val(p.score), rest);
        SelectedAfterReplace(Pick(p.cell, Val(p.score), rest), bestMove, bestScore, p, rest);
      } else {
        PickSelected(bestMove, bestScore, rest);
        SelectedAfterKeep(Pick(bestMove, bestScore, rest), bestMove, bestScore, p, rest);
      }
    }
  }

  /** The probe beat the best so far and became it. */
  lemma SelectedAfterReplace(move: int, bestMove: int, bestScore: Score, p: Probe, rest: seq<Probe>)
    requires Beats(p.score, bestScore) && Selected(move, p.cell, Val(p.score), rest)
    ensures Selected(move, bestMove, bestScore, [p] + rest)
  {
    var t := [p] + rest;
    if move == p.cell && forall k | 0 <= k < |rest| :: !Beats(rest[k].score, Val(p.score)) {
      forall j | 0 < j < |t|
        ensures t[j].score <= t[0].score
      {
        assert t[j] == rest[j - 1];
      }
      SelectedAt(move, bestMove, bestScore, t, 0);
    } else {
      var k :| 0 <= k < |rest| && FirstBest(rest, k) && Beats(rest[k].score, Val(p.score))
               && move == rest[k].cell;
      SelectedShifted(move, bestMove, bestScore, p, rest, k);
    }
  }

  /** A first best probe that beats the starting score is the one selected. */
  lemma SelectedAt(move: int, bestMove: int, bestScore: Score, t: seq<Probe>, k: int)
    requires FirstBest(t, k) && Beats(t[k].score, bestScore) && move == t[k].cell
    ensures Selected(move, bestMove, bestScore, t)
  {
  }

  /** The first best probe of the rest, when it beats both the new probe and the
      starting score, is the one selected from the whole trace. */
  lemma SelectedShifted(move: int, bestMove: int, bestScore: Score, p: Probe, rest: seq<Probe>, k: int)
    requires 0 <= k < |rest| && FirstBest(rest, k) && move == rest[k].cell
    requires Beats(rest[k].score, bestScore) && p.score < rest[k].score
    ensures Selected(move, bestMove, bestScore, [p] + rest)
  {
    var t := [p] + rest;
    ShiftedFirstBest(p, rest, k);
    assert t[k + 1] == rest[k];
    SelectedAt(move, bestMove, bestScore, t, k + 1);
  }

  /** A first best probe of the rest that beats the new probe is a first best probe
      of the whole trace. */
  lemma ShiftedFirstBest(p: Probe, rest: seq<Probe>, k: int)
    requires 0 <= k < |rest| && FirstBest(rest, k) && p.score < rest[k].score
    ensures FirstBest([p] + rest, k + 1)
  {
    var t := [p] + rest;
    forall j | 0 <= j < k + 1
      ensures t[j].score < t[k + 1].score
    {
      if j > 0 {
        assert t[j] == rest[j - 1];
      }
    }
    forall j | k + 1 < j < |t|
      ensures t[j].score <= t[k + 1].score
    {
      assert t[j] == rest[j - 1];
    }
  }

  /** The probe did not beat the best so far, which stayed. */
  lemma SelectedAfterKeep(move: int, bestMove: int, bestScore: Score, p: Probe, rest: seq<Probe>)
    requires !Beats(p.score, bestScore) && Selected(move, bestMove, bestScore, rest)
    ensures Selected(move, bestMove, bestScore, [p] + rest)
  {
    var t := [p] + rest;
    if move == bestMove && forall k | 0 <= k < |rest| :: !Beats(rest[k].score, bestScore) {
      forall k | 0 <= k < |t|
        ensures !Beats(t[k].score, bestScore)
      {
        if k > 0 {
          assert t[k] == rest[k - 1];
        }
      }
    } else {
      var k :| 0 <= k < |rest| && FirstBest(rest, k) && Beats(rest[k].score, bestScore)
               && move == rest[k].cell;
      SelectedShifted(move, bestMove, bestScore, p, rest, k);
    }
  }

  /** One `Math.max` step, continued by the maximum over the rest. */
  lemma MaxOfStep(r: Score, best: Score, p: Probe, rest: seq<Probe>)
    requires MaxOf(r, Max(best, p.score), rest)
    ensures MaxOf(r, best, [p] + rest)
  {
    var t := [p] + rest;
    var m := Max(best, p.score);
    forall k | 0 <= k < |t|
      ensures r.Val? && r.v >= t[k].score
    {
      if k > 0 {
        assert t[k] == rest[k - 1];
      }
    }
    if r != m {
      var k :| 0 <= k < |rest| && r == Val(rest[k].score);
      assert t[k + 1] == rest[k];
    } else if r != best {
      assert r == Val(t[0].score);
    }
  }
}
