/**
  What the hill-climbing step chooses: the candidate moves (one queen to a
  new `x`, its `y` kept), the first-minimum selection rule, and the trace of
  steps a run goes through.
*/
module Search {
  import opened Queens

  datatype Option<T> = None | Some(value: T)

  /** Queen `queenIndex` goes to `newPos`. */
  datatype Move = Move(queenIndex: nat, newPos: Loc)

  /** The locations with queen `i` moved to `x == r`, its `y` kept. */
  function Moved(s: seq<Loc>, i: nat, r: int): seq<Loc>
    requires i < |s|
  {
    s[i := Loc(r, s[i].y)]
  }

  /** A move keeps every `y`, so it keeps the queens in distinct columns. */
  lemma MovedKeepsColumns(s: seq<Loc>, i: nat, r: int)
    requires i < |s|
    ensures DistinctColumns(Moved(s, i, r)) <==> DistinctColumns(s)
  {
    assert forall k :: 0 <= k < |s| ==> Moved(s, i, r)[k].y == s[k].y;
  }

  /** The attacking-pair count after that move. */
  function Score(s: seq<Loc>, i: nat, r: int): nat
    requires i < |s|
  {
    PairCount(Moved(s, i, r))
  }

  /** The moves the search tries: any queen, any other `x` on the board. */
  predicate IsCandidate(s: seq<Loc>, i: nat, r: int)
  {
    i < |s| && 0 <= r < Size && r != s[i].x
  }

  /** The order the search visits candidates in: by queen, then by new `x`. */
  predicate Precedes(i1: nat, r1: int, i2: nat, r2: int)
  {
    i1 < i2 || (i1 == i2 && r1 < r2)
  }

  /** The move a candidate `(i, r)` stands for. */
  function MoveOf(s: seq<Loc>, i: nat, r: int): Move
    requires i < |s|
  {
    Move(i, Loc(r, s[i].y))
  }

  /**
    The selection rule: no move when no candidate scores below `current`;
    otherwise a candidate that scores below `current`, scores no more than
    any candidate, and scores strictly less than every earlier candidate
    (so it is the first to reach the minimum).
  */
  ghost predicate IsBestMove(s: seq<Loc>, current: int, m: Option<Move>)
  {
    match m
    case None =>
      forall i: nat, r: int :: IsCandidate(s, i, r) ==> current <= Score(s, i, r)
    case Some(mv) =>
      IsCandidate(s, mv.queenIndex, mv.newPos.x) &&
      mv == MoveOf(s, mv.queenIndex, mv.newPos.x) &&
      Score(s, mv.queenIndex, mv.newPos.x) < current &&
      (forall i: nat, r: int :: IsCandidate(s, i, r) ==>
        Score(s, mv.queenIndex, mv.newPos.x) <= Score(s, i, r)) &&
      (forall i: nat, r: int :: IsCandidate(s, i, r) && Precedes(i, r, mv.queenIndex, mv.newPos.x) ==>
        Score(s, mv.queenIndex, mv.newPos.x) < Score(s, i, r))
  }

  /** The rule yields a move exactly when some candidate scores below `current`. */
  lemma MoveExactlyWhenImproving(s: seq<Loc>, current: int, m: Option<Move>)
    requires IsBestMove(s, current, m)
    ensures m.Some? <==> exists i: nat, r: int :: IsCandidate(s, i, r) && Score(s, i, r) < current
  {
  }

  /** The selection rule determines the move: at most one satisfies it. */
  lemma BestMoveUnique(s: seq<Loc>, current: int, m1: Option<Move>, m2: Option<Move>)
    requires IsBestMove(s, current, m1) && IsBestMove(s, current, m2)
    ensures m1 == m2
  {
    if m1.Some? && m2.Some? {
      var a, b := m1.value, m2.value;
      var sa, sb := Score(s, a.queenIndex, a.newPos.x), Score(s, b.queenIndex, b.newPos.x);
      assert Precedes(a.queenIndex, a.newPos.x, b.queenIndex, b.newPos.x) ==> sb < sa;
      assert Precedes(b.queenIndex, b.newPos.x, a.queenIndex, a.newPos.x) ==> sa < sb;
    }
  }

  /**
    The selection rule restricted to the candidates before position `(qi, nr)`
    in visiting order: what the search has established part-way through.
  */
  ghost predicate BestSoFar(s: seq<Loc>, current: int, m: Option<Move>, best: int, qi: nat, nr: int)
  {
    best <= current &&
    (m.None? ==> best == current) &&
    (m.Some? ==>
      IsCandidate(s, m.value.queenIndex, m.value.newPos.x) &&
      m.value == MoveOf(s, m.value.queenIndex, m.value.newPos.x) &&
      Precedes(m.value.queenIndex, m.value.newPos.x, qi, nr) &&
      best == Score(s, m.value.queenIndex, m.value.newPos.x) && best < current &&
      (forall i: nat, r: int :: IsCandidate(s, i, r) && Precedes(i, r, m.value.queenIndex, m.value.newPos.x) ==>
        best < Score(s, i, r))) &&
    (forall i: nat, r: int :: IsCandidate(s, i, r) && Precedes(i, r, qi, nr) ==> best <= Score(s, i, r))
  }

  /** Nothing is examined before the first candidate. */
  lemma BestSoFarStart(s: seq<Loc>, current: int)
    ensures BestSoFar(s, current, None, current, 0, 0)
  {
  }

  /** Having looked past every new `x` of queen `qi` is having reached queen `qi + 1`. */
  lemma BestSoFarNextQueen(s: seq<Loc>, current: int, m: Option<Move>, best: int, qi: nat)
    requires BestSoFar(s, current, m, best, qi, Size)
    ensures BestSoFar(s, current, m, best, qi + 1, 0)
  {
  }

  /** Visiting `(qi, nr)` extends the established prefix by one position. */
  lemma BestSoFarStep(s: seq<Loc>, current: int, m: Option<Move>, best: int, qi: nat, nr: int)
    requires BestSoFar(s, current, m, best, qi, nr)
    requires IsCandidate(s, qi, nr)
    ensures Score(s, qi, nr) < best ==>
      BestSoFar(s, current, Some(MoveOf(s, qi, nr)), Score(s, qi, nr), qi, nr + 1)
    ensures Score(s, qi, nr) >= best ==> BestSoFar(s, current, m, best, qi, nr + 1)
  {
  }

  /** A position that is no candidate is passed over without changing anything. */
  lemma BestSoFarSkip(s: seq<Loc>, current: int, m: Option<Move>, best: int, qi: nat, nr: int)
    requires BestSoFar(s, current, m, best, qi, nr)
    requires !IsCandidate(s, qi, nr)
    ensures BestSoFar(s, current, m, best, qi, nr + 1)
  {
  }

  /** Once every queen has been visited the selection rule holds. */
  lemma BestSoFarComplete(s: seq<Loc>, current: int, m: Option<Move>, best: int)
    requires BestSoFar(s, current, m, best, |s|, 0)
    ensures IsBestMove(s, current, m)
    ensures m.None? ==> best == current
    ensures m.Some? ==> best == Score(s, m.value.queenIndex, m.value.newPos.x) < current
  {
  }

  /**
    One iteration of the hill-climbing loop: the locations it started from
    and the locations it left.
  */
  datatype Step =
    | Improve(move: Move, from: seq<Loc>, to: seq<Loc>)
    | Restart(from: seq<Loc>, to: seq<Loc>)

  /**
    What one iteration does: from eight queens that still attack, apply the
    selected move when there is one, and otherwise go to some fresh
    placement because no move lowers the count.
  */
  ghost predicate IsClimbStep(st: Step)
  {
    |st.from| == QueenCount && AllOnBoard(st.from) && 0 < PairCount(st.from) &&
    match st
    case Improve(mv, from, to) =>
      IsBestMove(from, PairCount(from), Some(mv)) && to == Moved(from, mv.queenIndex, mv.newPos.x)
    case Restart(from, to) =>
      IsBestMove(from, PairCount(from), None) &&
      |to| == QueenCount && AllOnBoard(to) && DistinctCells(to)
  }

  /** Each iteration starts where the previous one ended. */
  predicate Chained(trace: seq<Step>)
  {
    forall k :: 0 <= k < |trace| - 1 ==> trace[k].to == trace[k + 1].from
  }

  /** A run of iterations: each one a climbing step, each starting where the last ended. */
  ghost predicate ValidTrace(trace: seq<Step>)
  {
    Chained(trace) && forall k :: 0 <= k < |trace| ==> IsClimbStep(trace[k])
  }

  /** The iterations of `trace`, taken in order, lead from `from` to `to`. */
  ghost predicate Leads(from: seq<Loc>, trace: seq<Step>, to: seq<Loc>)
    decreases |trace|
  {
    if trace == [] then from == to
    else
      var last := trace[|trace| - 1];
      Leads(from, trace[..|trace| - 1], last.from) && IsClimbStep(last) && last.to == to
  }

  lemma LeadsExtend(from: seq<Loc>, trace: seq<Step>, st: Step)
    requires Leads(from, trace, st.from) && IsClimbStep(st)
    ensures Leads(from, trace + [st], st.to)
  {
    assert (trace + [st])[..|trace|] == trace;
  }

  /** A trace that leads somewhere is a valid run that starts at `from` and ends at `to`. */
  lemma {:induction false} LeadsValid(from: seq<Loc>, trace: seq<Step>, to: seq<Loc>)
    requires Leads(from, trace, to)
    ensures ValidTrace(trace)
    ensures trace == [] ==> from == to
    ensures trace != [] ==> trace[0].from == from && trace[|trace| - 1].to == to
    decreases |trace|
  {
    if trace != [] {
      var init := trace[..|trace| - 1];
      LeadsValid(from, init, trace[|trace| - 1].from);
      assert forall k :: 0 <= k < |init| ==> init[k] == trace[k];
    }
  }

  /** An applied move lowers the count and changes one queen's `x` only. */
  lemma ImproveLowers(st: Step)
    requires IsClimbStep(st) && st.Improve?
    ensures PairCount(st.to) < PairCount(st.from)
    ensures |st.to| == |st.from|
    ensures forall k :: 0 <= k < |st.to| ==> st.to[k].y == st.from[k].y
    ensures forall k :: 0 <= k < |st.to| && k != st.move.queenIndex ==> st.to[k] == st.from[k]
    ensures st.to[st.move.queenIndex].x != st.from[st.move.queenIndex].x
  {
  }

  /**
    A run of consecutive applied moves lowers the count by at least its
    length.
  */
  lemma {:induction false} ImprovingRunDescends(trace: seq<Step>, a: nat, b: nat)
    requires Chained(trace)
    requires a < b <= |trace|
    requires forall k :: a <= k < b ==> IsClimbStep(trace[k]) && trace[k].Improve?
    ensures PairCount(trace[b - 1].to) + (b - a) <= PairCount(trace[a].from)
    decreases b - a
  {
    ImproveLowers(trace[b - 1]);
    if b > a + 1 {
      ImprovingRunDescends(trace, a, b - 1);
      assert trace[b - 2].to == trace[b - 1].from;
    }
  }

  /** Between two restarts at most 28 moves are applied. */
  lemma ImprovingRunBound(trace: seq<Step>, a: nat, b: nat)
    requires Chained(trace)
    requires a < b <= |trace|
    requires forall k :: a <= k < b ==> IsClimbStep(trace[k]) && trace[k].Improve?
    ensures b - a <= 28
  {
    ImprovingRunDescends(trace, a, b);
    MaxPairs(trace[a].from);
  }
}
