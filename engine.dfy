/**
  The eight-queens engine: an 8 x 8 board of 0/1 marks and the list of queen
  locations, a random placer, the attacking-pair counter, and the two
  solvers (random re-placement and hill climbing with random restarts).
  Random draws are nondeterministic choices; every contract below holds for
  every choice.
*/
module Engine {
  import opened Queens
  import opened Search

  /** Placements tried by the random solver before it gives up. */
  const MaxAttempts := 1000

  /** Iterations of the hill-climbing loop, shared by all restarts of one run. */
  const MaxIterations := 1000

  /** What the random solver returns; `attackingQueens` only on failure. */
  datatype RandomResult = RandomResult(
    success: bool, attempts: nat, board: array2<int>, locations: seq<Loc>, attackingQueens: Option<nat>)

  /** What the hill climber returns. */
  datatype ClimbResult = ClimbResult(
    success: bool, iterations: nat, board: array2<int>, locations: seq<Loc>, attackingQueens: nat)

  ghost predicate IsBoard(b: array2<int>)
    reads b
  {
    b.Length0 == Size && b.Length1 == Size &&
    forall i, j :: 0 <= i < Size && 0 <= j < Size ==> b[i, j] == 0 || b[i, j] == 1
  }

  /** `b` marks with 1 exactly the cells listed in `s`, and holds 0 elsewhere. */
  ghost predicate MarksExactly(b: array2<int>, s: seq<Loc>)
    reads b
    requires IsBoard(b)
  {
    forall i, j :: 0 <= i < Size && 0 <= j < Size ==> (b[i, j] == 1 <==> Loc(i, j) in s)
  }

  /** Two boards with the same marks. */
  ghost predicate SameCells(a: array2<int>, b: array2<int>)
    reads a, b
  {
    a.Length0 == b.Length0 && a.Length1 == b.Length1 &&
    forall i, j :: 0 <= i < a.Length0 && 0 <= j < a.Length1 ==> a[i, j] == b[i, j]
  }

  /** A complete placement as the random placer produces it. */
  ghost predicate IsPlacement(b: array2<int>, s: seq<Loc>)
    reads b
  {
    IsBoard(b) && |s| == QueenCount && AllOnBoard(s) && DistinctCells(s) && MarksExactly(b, s)
  }

  /**
    The mark at `(i, j)` once the trials of queens `0 .. k - 1` have run on a
    board whose cell held `init`: the trials of a queen leave its column
    marked only at its own `x`, so the last of those queens with `y == j`
    decides; a column none of them sits in keeps `init`.
  */
  function ScannedMark(s: seq<Loc>, k: nat, i: int, j: int, init: int): int
    requires k <= |s|
    decreases k
  {
    if k == 0 then init
    else if s[k - 1].y == j then (if i == s[k - 1].x then 1 else 0)
    else ScannedMark(s, k - 1, i, j, init)
  }

  /** A column that no scanned queen sits in keeps its marks. */
  lemma {:induction false} ScannedMarkUntouched(s: seq<Loc>, k: nat, i: int, j: int, init: int)
    requires k <= |s|
    requires forall t :: 0 <= t < k ==> s[t].y != j
    ensures ScannedMark(s, k, i, j, init) == init
    decreases k
  {
    if k > 0 {
      ScannedMarkUntouched(s, k - 1, i, j, init);
    }
  }

  /**
    In a column with scanned queens, only the `x` of the last of them is
    marked.
  */
  lemma {:induction false} ScannedMarkLast(s: seq<Loc>, k: nat, q: nat, i: int, j: int, init: int)
    requires q < k <= |s| && s[q].y == j
    requires forall t :: q < t < k ==> s[t].y != j
    ensures ScannedMark(s, k, i, j, init) == if i == s[q].x then 1 else 0
    decreases k
  {
    if k - 1 > q {
      ScannedMarkLast(s, k - 1, q, i, j, init);
    }
  }

  /**
    When no two queens share a `y` and a 0/1 cell is marked exactly when a
    queen is listed there, the scan leaves that cell as it was.
  */
  lemma ScannedMarkKeeps(s: seq<Loc>, i: int, j: int, init: int)
    requires DistinctColumns(s)
    requires init == 0 || init == 1
    requires init == 1 <==> Loc(i, j) in s
    ensures ScannedMark(s, |s|, i, j, init) == init
  {
    if q :| 0 <= q < |s| && s[q].y == j {
      ScannedMarkLast(s, |s|, q, i, j, init);
      assert Loc(i, j) in s <==> i == s[q].x;
    } else {
      ScannedMarkUntouched(s, |s|, i, j, init);
    }
  }

  class EightQueens {
    var board: array2<int>
    var queensLocations: seq<Loc>

    /**
      What every operation keeps: an 8 x 8 board of 0/1 marks and locations
      on the board.  That the marks agree with the locations is NOT kept by
      hill climbing in general; see Consistent.
    */
    ghost predicate Valid()
      reads this, board
    {
      IsBoard(board) && AllOnBoard(queensLocations)
    }

    /** The board marks exactly the listed cells. */
    ghost predicate Consistent()
      reads this, board
      requires Valid()
    {
      MarksExactly(board, queensLocations)
    }

    /** The board agrees with the locations whenever no two queens share a `y`. */
    ghost predicate ConsistentIfColumnsDistinct()
      reads this, board
      requires Valid()
    {
      DistinctColumns(queensLocations) ==> Consistent()
    }

    /** A fresh all-zero 8 x 8 board. */
    static method MakeBoard() returns (b: array2<int>)
      ensures fresh(b) && IsBoard(b)
      ensures forall i, j :: 0 <= i < Size && 0 <= j < Size ==> b[i, j] == 0
    {
      b := new int[Size, Size]((i, j) => 0);
    }

    constructor ()
      ensures Valid() && Consistent() && fresh(board) && queensLocations == []
      ensures forall i, j :: 0 <= i < Size && 0 <= j < Size ==> board[i, j] == 0
    {
      var b := MakeBoard();
      board := b;
      queensLocations := [];
    }

    /** Clears the board (a fresh array) and the location list. */
    method ResetBoard()
      modifies this
      ensures Valid() && Consistent() && fresh(board) && queensLocations == []
      ensures forall i, j :: 0 <= i < Size && 0 <= j < Size ==> board[i, j] == 0
    {
      var b := MakeBoard();
      board := b;
      queensLocations := [];
    }

    /**
      Puts eight queens on eight distinct cells.  Each cell is drawn at
      random until an unmarked one comes up; here that draw is a choice of
      any unmarked cell.
    */
    method PlaceQueens() returns (locations: seq<Loc>)
      modifies this
      ensures Valid() && fresh(board)
      ensures locations == queensLocations
      ensures IsPlacement(board, locations)
    {
      ResetBoard();
      locations := [];
      var i := 0;
      while i < QueenCount
        invariant Valid() && fresh(board) && queensLocations == []
        invariant |locations| == i <= QueenCount
        invariant AllOnBoard(locations) && DistinctCells(locations)
        invariant MarksExactly(board, locations)
      {
        FreeCellExists(locations, Size);
        ghost var k :| 0 <= k < Size && Loc(k, 0) !in locations;
        assert board[k, 0] != 1;
        var indexX: int, indexY: int :| 0 <= indexX < Size && 0 <= indexY < Size && board[indexX, indexY] != 1;
        board[indexX, indexY] := 1;
        locations := locations + [Loc(indexX, indexY)];
        i := i + 1;
      }
      queensLocations := locations;
    }

    /** Counts the unordered attacking pairs of the current locations. */
    method CalculateAttackingQueens() returns (attackingPairs: nat)
      ensures attackingPairs == PairCount(queensLocations)
      ensures attackingPairs == |AttackPairs(queensLocations, |queensLocations|)|
    {
      var s := queensLocations;
      attackingPairs := 0;
      for i := 0 to |s|
        invariant attackingPairs + PairCount(s[i..]) == PairCount(s)
      {
        ghost var before := attackingPairs;
        PairCountSuffix(s, i);
        for j := i + 1 to |s|
          invariant attackingPairs == before + Hits(s[i], s[i + 1..j])
        {
          HitsSliceStep(s[i], s, i + 1, j);
          if Attacking(s[i], s[j]) {
            attackingPairs := attackingPairs + 1;
          }
        }
        assert s[i + 1..|s|] == s[i + 1..];
      }
      assert s[|s|..] == [];
      PairCountCountsPairs(s);
    }

    /** A copy of the board that shares no storage with it. */
    method GetBoardState() returns (copy: array2<int>)
      requires Valid()
      ensures fresh(copy) && IsBoard(copy) && SameCells(copy, board)
    {
      var src := board;
      copy := new int[Size, Size]((i, j) reads src =>
        if 0 <= i < src.Length0 && 0 <= j < src.Length1 then src[i, j] else 0);
    }

    method GetQueensLocations() returns (locations: seq<Loc>)
      ensures locations == queensLocations
    {
      locations := queensLocations;
    }

    /** Solved means no two queens attack each other. */
    method IsSolved() returns (solved: bool)
      ensures solved <==> PairCount(queensLocations) == 0
      ensures solved <==> forall i, j :: 0 <= i < j < |queensLocations| ==>
        !Attacking(queensLocations[i], queensLocations[j])
    {
      var n := CalculateAttackingQueens();
      solved := n == 0;
      NoAttackingPair(queensLocations);
    }

    /** Re-places all queens until a placement is solved or 1000 attempts are used. */
    method GenerateRandomSolution() returns (r: RandomResult)
      modifies this
      ensures Valid() && fresh(board) && fresh(r.board) && r.board != board
      ensures IsPlacement(board, queensLocations) && r.locations == queensLocations
      ensures IsBoard(r.board) && SameCells(r.board, board)
      ensures r.success ==>
        1 <= r.attempts <= MaxAttempts && PairCount(r.locations) == 0 && r.attackingQueens == None
      ensures !r.success ==>
        r.attempts == MaxAttempts && PairCount(r.locations) > 0 &&
        r.attackingQueens == Some(PairCount(r.locations))
    {
      var attempts := 0;
      while attempts < MaxAttempts
        invariant 0 <= attempts <= MaxAttempts
        invariant attempts > 0 ==>
          Valid() && fresh(board) && IsPlacement(board, queensLocations) &&
          PairCount(queensLocations) > 0
      {
        var placed := PlaceQueens();
        var solved := IsSolved();
        if solved {
          var b := GetBoardState();
          var locations := GetQueensLocations();
          return RandomResult(true, attempts + 1, b, locations, None);
        }
        attempts := attempts + 1;
      }
      var b := GetBoardState();
      var locations := GetQueensLocations();
      var attacks := CalculateAttackingQueens();
      r := RandomResult(false, MaxAttempts, b, locations, Some(attacks));
    }

    /**
      Scores queen `queenIndex` at `x == newRow` (its `y` kept) by moving it
      there, counting, and moving it back.  The locations come back exactly.
      The board comes back only when the target cell held 0: the move back
      clears the target cell whatever it held, so a queen already marked
      there loses its mark.
    */
    method TrialMove(queenIndex: nat, originalPos: Loc, newRow: int) returns (attacks: nat)
      requires Valid() && queenIndex < |queensLocations| && originalPos == queensLocations[queenIndex]
      requires 0 <= newRow < Size
      modifies this, board
      ensures Valid() && board == old(board) && queensLocations == old(queensLocations)
      ensures attacks == Score(queensLocations, queenIndex, newRow)
      ensures board[originalPos.x, originalPos.y] == 1
      ensures newRow != originalPos.x ==> board[newRow, originalPos.y] == 0
      ensures forall i, j ::
        (0 <= i < Size && 0 <= j < Size &&
         (i, j) != (originalPos.x, originalPos.y) && (i, j) != (newRow, originalPos.y)) ==>
        board[i, j] == old(board[i, j])
      ensures newRow != originalPos.x ==>
        ((forall i, j :: 0 <= i < Size && 0 <= j < Size ==> board[i, j] == old(board[i, j])) <==>
         old(board[newRow, originalPos.y]) == 0 && old(board[originalPos.x, originalPos.y]) == 1)
      ensures newRow != originalPos.x && old(Consistent()) ==>
        (Consistent() <==> Loc(newRow, originalPos.y) !in queensLocations)
    {
      board[originalPos.x, originalPos.y] := 0;
      board[newRow, originalPos.y] := 1;
      queensLocations := queensLocations[queenIndex := Loc(newRow, originalPos.y)];
      attacks := CalculateAttackingQueens();
      board[newRow, originalPos.y] := 0;
      board[originalPos.x, originalPos.y] := 1;
      queensLocations := queensLocations[queenIndex := originalPos];
      assert queensLocations == old(queensLocations);
      if newRow != originalPos.x {
        ghost var t, o := (newRow, originalPos.y), (originalPos.x, originalPos.y);
        if old(board[t.0, t.1]) == 0 && old(board[o.0, o.1]) == 1 {
          assert forall i, j :: 0 <= i < Size && 0 <= j < Size ==> board[i, j] == old(board[i, j]);
        }
        if old(Consistent()) {
          if Loc(newRow, originalPos.y) in queensLocations {
            assert board[newRow, originalPos.y] == 0;
          } else {
            assert old(board[t.0, t.1]) == 0 && old(board[o.0, o.1]) == 1;
          }
        }
      }
    }

    /**
      The inner loop of the search: tries queen `queenIndex` at every other
      `x` in order, carrying the best move found so far.  The locations are
      left as they were.  The queen's column ends marked only at its own
      `x`, whatever it held before; the other columns are untouched.
    */
    method ScanQueen(currentAttacks: nat, queenIndex: nat, move0: Option<Move>, attacks0: nat)
      returns (bestMove: Option<Move>, bestAttacks: nat)
      requires Valid() && queenIndex < |queensLocations|
      requires BestSoFar(queensLocations, currentAttacks, move0, attacks0, queenIndex, 0)
      modifies this, board
      ensures Valid() && board == old(board) && queensLocations == old(queensLocations)
      ensures BestSoFar(queensLocations, currentAttacks, bestMove, bestAttacks, queenIndex, Size)
      ensures forall i, j :: 0 <= i < Size && 0 <= j < Size ==>
        board[i, j] == if j == queensLocations[queenIndex].y then (if i == queensLocations[queenIndex].x then 1 else 0)
                       else old(board[i, j])
      ensures old(Consistent()) && DistinctColumns(queensLocations) ==> Consistent()
    {
      ghost var s := queensLocations;
      bestMove, bestAttacks := move0, attacks0;
      var originalPos := queensLocations[queenIndex];
      for newRow := 0 to Size
        invariant Valid() && board == old(board) && queensLocations == s
        invariant BestSoFar(s, currentAttacks, bestMove, bestAttacks, queenIndex, newRow)
        invariant forall i, j :: 0 <= i < Size && 0 <= j < Size && j != originalPos.y ==>
          board[i, j] == old(board[i, j])
        invariant forall i :: 0 <= i < newRow && i != originalPos.x ==> board[i, originalPos.y] == 0
        invariant newRow > 1 || (newRow == 1 && originalPos.x != 0) ==> board[originalPos.x, originalPos.y] == 1
      {
        if newRow == originalPos.x {
          BestSoFarSkip(s, currentAttacks, bestMove, bestAttacks, queenIndex, newRow);
          continue;
        }
        var attacks := TrialMove(queenIndex, originalPos, newRow);
        BestSoFarStep(s, currentAttacks, bestMove, bestAttacks, queenIndex, newRow);
        if attacks < bestAttacks {
          bestAttacks := attacks;
          bestMove := Some(Move(queenIndex, Loc(newRow, originalPos.y)));
        }
      }
      if old(Consistent()) && DistinctColumns(s) {
        forall i, j | 0 <= i < Size && 0 <= j < Size
          ensures board[i, j] == 1 <==> Loc(i, j) in s
        {
          if j == originalPos.y && i != originalPos.x {
            ColumnOwner(s, queenIndex, i);
          }
        }
      }
    }

    /**
      Tries every candidate move in order and returns the first one with the
      lowest count, provided that count is below `currentAttacks`.  The
      locations are left as they were; the board ends as ScannedMark says,
      which is the board it started with when that agreed with the
      locations and no two queens share a `y`.
    */
    method FindBestMove(currentAttacks: nat) returns (bestMove: Option<Move>, bestAttacks: nat)
      requires Valid()
      modifies this, board
      ensures Valid() && board == old(board) && queensLocations == old(queensLocations)
      ensures IsBestMove(queensLocations, currentAttacks, bestMove)
      ensures bestMove.None? ==> bestAttacks == currentAttacks
      ensures bestMove.Some? ==>
        bestAttacks == Score(queensLocations, bestMove.value.queenIndex, bestMove.value.newPos.x) < currentAttacks
      ensures forall i, j :: 0 <= i < Size && 0 <= j < Size ==>
        board[i, j] == ScannedMark(queensLocations, |queensLocations|, i, j, old(board[i, j]))
      ensures old(Consistent()) && DistinctColumns(queensLocations) ==>
        Consistent() && forall i, j :: 0 <= i < Size && 0 <= j < Size ==> board[i, j] == old(board[i, j])
    {
      ghost var s := queensLocations;
      bestMove := None;
      bestAttacks := currentAttacks;
      BestSoFarStart(s, currentAttacks);
      for queenIndex := 0 to |queensLocations|
        invariant Valid() && board == old(board) && queensLocations == s
        invariant BestSoFar(s, currentAttacks, bestMove, bestAttacks, queenIndex, 0)
        invariant forall i, j :: 0 <= i < Size && 0 <= j < Size ==>
          board[i, j] == ScannedMark(s, queenIndex, i, j, old(board[i, j]))
      {
        bestMove, bestAttacks := ScanQueen(currentAttacks, queenIndex, bestMove, bestAttacks);
        BestSoFarNextQueen(s, currentAttacks, bestMove, bestAttacks, queenIndex);
      }
      BestSoFarComplete(s, currentAttacks, bestMove, bestAttacks);
      if old(Consistent()) && DistinctColumns(s) {
        forall i, j | 0 <= i < Size && 0 <= j < Size
          ensures board[i, j] == old(board[i, j])
        {
          ScannedMarkKeeps(s, i, j, old(board[i, j]));
        }
        assert MarksExactly(board, s) by {
          forall i, j | 0 <= i < Size && 0 <= j < Size
            ensures board[i, j] == 1 <==> Loc(i, j) in s
          {
            assert old(board[i, j] == 1 <==> Loc(i, j) in s);
          }
        }
      }
    }

    /** Moves a queen for good: clears its old cell, marks the new one. */
    method ApplyMove(move: Move)
      requires Valid() && move.queenIndex < |queensLocations| && OnBoard(move.newPos)
      modifies this, board
      ensures Valid() && board == old(board)
      ensures queensLocations == old(queensLocations)[move.queenIndex := move.newPos]
      ensures board[move.newPos.x, move.newPos.y] == 1
      ensures forall i, j :: 0 <= i < Size && 0 <= j < Size && Loc(i, j) != move.newPos ==>
        board[i, j] == if Loc(i, j) == old(queensLocations)[move.queenIndex] then 0 else old(board[i, j])
      ensures old(Consistent()) && DistinctCells(old(queensLocations)) && move.newPos !in old(queensLocations) ==>
        Consistent() && DistinctCells(queensLocations)
    {
      ghost var before := queensLocations;
      ghost var wasTidy := Consistent() && DistinctCells(before) && move.newPos !in before;
      var oldPos := queensLocations[move.queenIndex];
      board[oldPos.x, oldPos.y] := 0;
      board[move.newPos.x, move.newPos.y] := 1;
      queensLocations := queensLocations[move.queenIndex := move.newPos];
      if wasTidy {
        forall i, j | 0 <= i < Size && 0 <= j < Size
          ensures board[i, j] == 1 <==> Loc(i, j) in queensLocations
        {
          var c := Loc(i, j);
          if c == move.newPos {
            assert queensLocations[move.queenIndex] == c;
          } else if c == oldPos {
            assert forall t :: 0 <= t < |before| && t != move.queenIndex ==> before[t] != c;
          } else {
            assert forall t :: 0 <= t < |before| ==> (before[t] == c <==> queensLocations[t] == c);
          }
        }
      }
    }

    /**
      One iteration of the hill-climbing loop: apply the best move when it
      lowers the count, and otherwise re-place all queens.
    */
    method ClimbStep(currentAttacks: nat) returns (newAttacks: nat, ghost step: Step)
      requires Valid() && |queensLocations| == QueenCount
      requires 0 < currentAttacks == PairCount(queensLocations)
      modifies this, board
      ensures Valid() && (board == old(board) || fresh(board))
      ensures step.from == old(queensLocations) && step.to == queensLocations && IsClimbStep(step)
      ensures newAttacks == PairCount(queensLocations) <= 28 && |queensLocations| == QueenCount
      ensures step.Restart? ==> IsPlacement(board, queensLocations)
      ensures step.Improve? ==> board == old(board) && forall i, j :: 0 <= i < Size && 0 <= j < Size ==>
        board[i, j] ==
          if Loc(i, j) == step.move.newPos then 1
          else if Loc(i, j) == old(queensLocations)[step.move.queenIndex] then 0
          else ScannedMark(old(queensLocations), QueenCount, i, j, old(board[i, j]))
      ensures old(ConsistentIfColumnsDistinct()) ==> ConsistentIfColumnsDistinct()
    {
      ghost var s := queensLocations;
      var bestMove, bestAttacks := FindBestMove(currentAttacks);
      if bestMove.Some? {
        var mv := bestMove.value;
        ghost var wasTidy := Consistent() && DistinctColumns(s);
        if wasTidy {
          ColumnOwner(s, mv.queenIndex, mv.newPos.x);
        }
        ApplyMove(mv);
        assert queensLocations == Moved(s, mv.queenIndex, mv.newPos.x);
        MovedKeepsColumns(s, mv.queenIndex, mv.newPos.x);
        newAttacks := bestAttacks;
        step := Improve(mv, s, queensLocations);
      } else {
        var placed := PlaceQueens();
        newAttacks := CalculateAttackingQueens();
        step := Restart(s, queensLocations);
      }
      MaxPairs(queensLocations);
    }

    /**
      Hill climbing: while some pair attacks and the budget lasts, apply the
      best single-queen move if it lowers the count, and otherwise re-place
      all queens.  One budget of 1000 iterations covers every restart.

      `initial` is the first placement; `trace` records each iteration with
      the locations before and after it.
    */
    method SolveWithHillClimbing() returns (r: ClimbResult, ghost initial: seq<Loc>, ghost trace: seq<Step>)
      modifies this
      ensures Valid() && fresh(board) && fresh(r.board) && r.board != board
      ensures IsBoard(r.board) && SameCells(r.board, board)
      ensures r.locations == queensLocations && |r.locations| == QueenCount
      ensures r.attackingQueens == PairCount(r.locations)
      ensures r.success <==> r.attackingQueens == 0
      ensures r.iterations <= MaxIterations
      ensures r.success || r.iterations == MaxIterations
      ensures |initial| == QueenCount && AllOnBoard(initial) && DistinctCells(initial)
      ensures r.iterations == 0 <==> PairCount(initial) == 0
      ensures |trace| == r.iterations && Leads(initial, trace, r.locations)
      ensures ConsistentIfColumnsDistinct()
    {
      var placed := PlaceQueens();
      initial := placed;
      var currentAttacks := CalculateAttackingQueens();
      var iterations := 0;
      trace := [];
      while currentAttacks > 0 && iterations < MaxIterations
        invariant Valid() && fresh(board) && |queensLocations| == QueenCount
        invariant currentAttacks == PairCount(queensLocations)
        invariant 0 <= iterations <= MaxIterations
        invariant |trace| == iterations && Leads(initial, trace, queensLocations)
        invariant iterations > 0 ==> PairCount(initial) > 0
        invariant ConsistentIfColumnsDistinct()
        decreases MaxIterations - iterations
      {
        var attacks, step := ClimbStep(currentAttacks);
        LeadsExtend(initial, trace, step);
        trace := trace + [step];
        currentAttacks := attacks;
        iterations := iterations + 1;
      }
      var b := GetBoardState();
      var locations := GetQueensLocations();
      r := ClimbResult(currentAttacks == 0, iterations, b, locations, currentAttacks);
    }
  }
}
