/** Queen coordinates and the attacking-pair count that scores a placement. */
module Queens {

  /** Side length of the board. */
  const Size := 8

  /** Number of queens in a placement. */
  const QueenCount := 8

  /** A queen's cell: `x` is the first grid index, `y` the second. */
  datatype Loc = Loc(x: int, y: int)

  function Abs(n: int): nat
  {
    if n < 0 then -n else n
  }

  predicate OnBoard(q: Loc)
  {
    0 <= q.x < Size && 0 <= q.y < Size
  }

  predicate AllOnBoard(s: seq<Loc>)
  {
    forall k :: 0 <= k < |s| ==> OnBoard(s[k])
  }

  /** No two entries name the same cell (they may still share x or y). */
  predicate DistinctCells(s: seq<Loc>)
  {
    forall i, j :: 0 <= i < j < |s| ==> s[i] != s[j]
  }

  /** No two entries share `y`. */
  predicate DistinctColumns(s: seq<Loc>)
  {
    forall i, j :: 0 <= i < j < |s| ==> s[i].y != s[j].y
  }

  /** With distinct `y`s, another `x` in queen `i`'s column is an empty cell. */
  lemma ColumnOwner(s: seq<Loc>, i: nat, r: int)
    requires DistinctColumns(s) && i < |s| && r != s[i].x
    ensures Loc(r, s[i].y) !in s
  {
  }

  /**
    Two queens attack each other when they share `x`, share `y`, or have
    equal absolute differences in `x` and `y`.  The postcondition states the
    same relation as "on one line": a common `x`, a common `y`, a common
    falling diagonal (`x - y`) or a common rising diagonal (`x + y`).
  */
  predicate Attacking(q1: Loc, q2: Loc)
    ensures Attacking(q1, q2) <==>
      q1.x == q2.x || q1.y == q2.y ||
      q1.x - q1.y == q2.x - q2.y || q1.x + q1.y == q2.x + q2.y
  {
    if q1.x == q2.x then true
    else if q1.y == q2.y then true
    else if Abs(q1.x - q2.x) == Abs(q1.y - q2.y) then true
    else false
  }

  lemma AttackingSymmetric(q1: Loc, q2: Loc)
    ensures Attacking(q1, q2) == Attacking(q2, q1)
  {
  }

  lemma AttackingReflexive(q: Loc)
    ensures Attacking(q, q)
  {
  }

  /** The number of entries of `u` that the queen `q` attacks. */
  function Hits(q: Loc, u: seq<Loc>): (n: nat)
    ensures n <= |u|
  {
    if u == [] then 0
    else (if Attacking(q, u[0]) then 1 else 0) + Hits(q, u[1..])
  }

  /**
    The number of unordered attacking pairs: each entry is paired with every
    entry after it, so index pairs `i < j` are each looked at once, and there
    are at most n(n-1)/2 of them.
  */
  function PairCount(s: seq<Loc>): nat
  {
    if s == [] then 0 else Hits(s[0], s[1..]) + PairCount(s[1..])
  }

  /** At most one attacking pair per unordered index pair: n(n-1)/2. */
  lemma {:induction false} PairCountBound(s: seq<Loc>)
    ensures 2 * PairCount(s) <= |s| * (|s| - 1)
    decreases |s|
  {
    if s != [] {
      var n := |s|;
      PairCountBound(s[1..]);
      assert (n - 1) * (n - 2) + 2 * (n - 1) == n * (n - 1);
    }
  }

  /** Peeling the entry at `i` off the suffix that starts there. */
  lemma PairCountSuffix(s: seq<Loc>, i: nat)
    requires i < |s|
    ensures PairCount(s[i..]) == Hits(s[i], s[i + 1..]) + PairCount(s[i + 1..])
  {
    assert s[i..][1..] == s[i + 1..];
  }

  /** The attacking index pairs `(i, j)`, `i < j`, among the first `m` entries. */
  ghost function AttackPairs(s: seq<Loc>, m: nat): set<(int, int)>
    requires m <= |s|
  {
    set i, j | 0 <= i < j < m && Attacking(s[i], s[j]) :: (i, j)
  }

  /** The attacking pairs `(i, c)` with `i < k`. */
  ghost function PairsWith(s: seq<Loc>, k: nat, c: nat): set<(int, int)>
    requires k <= c < |s|
  {
    set i | 0 <= i < k && Attacking(s[i], s[c]) :: (i, c)
  }

  lemma {:induction false} PairsWithCount(s: seq<Loc>, k: nat, c: nat)
    requires k <= c < |s|
    ensures |PairsWith(s, k, c)| == Hits(s[c], s[..k])
    decreases k
  {
    if k == 0 {
      assert PairsWith(s, 0, c) == {};
    } else {
      PairsWithCount(s, k - 1, c);
      HitsSliceStep(s[c], s, 0, k - 1);
      assert s[0..k] == s[..k] && s[0..k - 1] == s[..k - 1];
      if Attacking(s[k - 1], s[c]) {
        assert PairsWith(s, k, c) == PairsWith(s, k - 1, c) + {(k - 1, c)};
      } else {
        assert PairsWith(s, k, c) == PairsWith(s, k - 1, c);
      }
    }
  }

  /** Adding an entry at the end adds the pairs it forms with the earlier ones. */
  lemma {:induction false} PairCountSnoc(t: seq<Loc>, z: Loc)
    ensures PairCount(t + [z]) == PairCount(t) + Hits(z, t)
    decreases |t|
  {
    if t == [] {
      assert [z][1..] == [];
    } else {
      assert (t + [z])[1..] == t[1..] + [z];
      HitsAppend(t[0], t[1..], [z]);
      assert [z][1..] == [];
      PairCountSnoc(t[1..], z);
    }
  }

  /**
    The count is the number of index pairs `i < j` whose queens attack each
    other: every such pair counted once.
  */
  lemma {:induction false} PairCountIsPairs(s: seq<Loc>, m: nat)
    requires m <= |s|
    ensures PairCount(s[..m]) == |AttackPairs(s, m)|
    decreases m
  {
    if m == 0 {
      assert AttackPairs(s, 0) == {};
    } else {
      var k := m - 1;
      PairCountIsPairs(s, k);
      assert s[..m] == s[..k] + [s[k]];
      PairCountSnoc(s[..k], s[k]);
      PairsWithCount(s, k, k);
      AttackPairsStep(s, m);
    }
  }

  /** Over the whole list: the count is the number of attacking index pairs. */
  lemma PairCountCountsPairs(s: seq<Loc>)
    ensures PairCount(s) == |AttackPairs(s, |s|)|
  {
    PairCountIsPairs(s, |s|);
    assert s[..|s|] == s;
  }

  /** The pairs among `m` entries: those among the first `m - 1`, and those ending at `m - 1`. */
  lemma AttackPairsStep(s: seq<Loc>, m: nat)
    requires 0 < m <= |s|
    ensures AttackPairs(s, m) == AttackPairs(s, m - 1) + PairsWith(s, m - 1, m - 1)
    ensures AttackPairs(s, m - 1) * PairsWith(s, m - 1, m - 1) == {}
  {
    var k := m - 1;
    forall p | p in AttackPairs(s, m)
      ensures p in AttackPairs(s, k) + PairsWith(s, k, k)
    {
      var i, j :| 0 <= i < j < m && Attacking(s[i], s[j]) && p == (i, j);
      if j < k {
        assert p in AttackPairs(s, k);
      } else {
        assert p in PairsWith(s, k, k);
      }
    }
  }

  /** `s` with the entry at index `k` taken out. */
  function Without(s: seq<Loc>, k: nat): seq<Loc>
    requires k < |s|
  {
    s[..k] + s[k + 1..]
  }

  lemma {:induction false} HitsAppend(q: Loc, u: seq<Loc>, v: seq<Loc>)
    ensures Hits(q, u + v) == Hits(q, u) + Hits(q, v)
    decreases |u|
  {
    if u == [] {
      assert u + v == v;
    } else {
      assert (u + v)[1..] == u[1..] + v;
      HitsAppend(q, u[1..], v);
    }
  }

  /** Widening the slice `s[a..b]` by one entry adds one exactly when `q` attacks it. */
  lemma HitsSliceStep(q: Loc, s: seq<Loc>, a: nat, b: nat)
    requires a <= b < |s|
    ensures Hits(q, s[a..b + 1]) == Hits(q, s[a..b]) + (if Attacking(q, s[b]) then 1 else 0)
  {
    assert s[a..b + 1] == s[a..b] + [s[b]];
    HitsAppend(q, s[a..b], [s[b]]);
    assert [s[b]][1..] == [];
  }

  lemma HitsWithout(q: Loc, u: seq<Loc>, k: nat)
    requires k < |u|
    ensures Hits(q, u) == (if Attacking(q, u[k]) then 1 else 0) + Hits(q, Without(u, k))
  {
    var rest := u[k + 1..];
    assert u == u[..k] + ([u[k]] + rest);
    assert ([u[k]] + rest)[1..] == rest;
    HitsAppend(q, u[..k], [u[k]] + rest);
    HitsAppend(q, u[..k], rest);
  }

  lemma MultisetWithout(s: seq<Loc>, k: nat)
    requires k < |s|
    ensures multiset(Without(s, k)) == multiset(s) - multiset{s[k]}
  {
    assert s == s[..k] + [s[k]] + s[k + 1..];
  }

  /** The number of entries a queen attacks depends only on their multiset. */
  lemma {:induction false} HitsPermutation(q: Loc, u: seq<Loc>, v: seq<Loc>)
    requires multiset(u) == multiset(v)
    ensures Hits(q, u) == Hits(q, v)
    decreases |u|
  {
    if u == [] {
      assert |v| == |multiset(v)| == 0;
    } else {
      assert u[0] in multiset(v);
      var k :| 0 <= k < |v| && v[k] == u[0];
      HitsWithout(q, v, k);
      MultisetWithout(v, k);
      MultisetWithout(u, 0);
      assert Without(u, 0) == u[1..];
      HitsPermutation(q, u[1..], Without(v, k));
    }
  }

  /** Any entry can be singled out: its hits on the others plus the rest's pairs. */
  lemma {:induction false} PairCountWithout(s: seq<Loc>, k: nat)
    requires k < |s|
    ensures PairCount(s) == Hits(s[k], Without(s, k)) + PairCount(Without(s, k))
    decreases k
  {
    if k == 0 {
      assert Without(s, 0) == s[1..];
    } else {
      var t := s[1..];
      var w := Without(t, k - 1);
      assert Without(s, k) == [s[0]] + w;
      assert ([s[0]] + w)[1..] == w;
      assert t[k - 1] == s[k];
      PairCountWithout(t, k - 1);
      HitsWithout(s[0], t, k - 1);
      AttackingSymmetric(s[0], s[k]);
    }
  }

  /** Reordering the locations never changes the count. */
  lemma {:induction false} PairCountPermutation(s: seq<Loc>, t: seq<Loc>)
    requires multiset(s) == multiset(t)
    ensures PairCount(s) == PairCount(t)
    decreases |s|
  {
    if s == [] {
      assert |t| == |multiset(t)| == 0;
    } else {
      assert s[0] in multiset(t);
      var k :| 0 <= k < |t| && t[k] == s[0];
      var w := Without(t, k);
      PairCountWithout(t, k);
      MultisetWithout(t, k);
      MultisetWithout(s, 0);
      assert Without(s, 0) == s[1..];
      HitsPermutation(s[0], s[1..], w);
      PairCountPermutation(s[1..], w);
    }
  }

  lemma {:induction false} HitsZero(q: Loc, u: seq<Loc>)
    ensures Hits(q, u) == 0 <==> forall j :: 0 <= j < |u| ==> !Attacking(q, u[j])
    decreases |u|
  {
    if u != [] {
      HitsZero(q, u[1..]);
      assert forall j :: 1 <= j < |u| ==> u[1..][j - 1] == u[j];
    }
  }

  /** The count is zero exactly when no two listed queens attack each other. */
  lemma {:induction false} NoAttackingPair(s: seq<Loc>)
    ensures PairCount(s) == 0 <==>
      forall i, j :: 0 <= i < j < |s| ==> !Attacking(s[i], s[j])
    decreases |s|
  {
    if s != [] {
      var t := s[1..];
      HitsZero(s[0], t);
      NoAttackingPair(t);
      assert forall j :: 1 <= j < |s| ==> t[j - 1] == s[j];
      if PairCount(s) == 0 {
        forall i, j | 0 <= i < j < |s|
          ensures !Attacking(s[i], s[j])
        {
          if i > 0 {
            assert !Attacking(t[i - 1], t[j - 1]);
          } else {
            assert !Attacking(s[0], t[j - 1]);
          }
        }
      } else {
        if Hits(s[0], t) > 0 {
          var j :| 0 <= j < |t| && Attacking(s[0], t[j]);
          assert Attacking(s[0], s[j + 1]);
        } else {
          var i, j :| 0 <= i < j < |t| && Attacking(t[i], t[j]);
          assert Attacking(s[i + 1], s[j + 1]);
        }
      }
    }
  }

  /** For a full placement of eight queens the count is at most 28. */
  lemma MaxPairs(s: seq<Loc>)
    requires |s| == QueenCount
    ensures PairCount(s) <= 28
  {
    PairCountBound(s);
  }

  lemma {:induction false} HitsAll(q: Loc, u: seq<Loc>)
    requires forall j :: 0 <= j < |u| ==> u[j].x == q.x
    ensures Hits(q, u) == |u|
    decreases |u|
  {
    if u != [] {
      HitsAll(q, u[1..]);
    }
  }

  /**
    Queens sharing one `x` attack pairwise: every one of the n(n-1)/2 pairs
    counts, so the bound of PairCountBound is reached.
  */
  lemma {:induction false} SharedRowCountsEveryPair(s: seq<Loc>)
    requires forall k :: 0 <= k < |s| ==> s[k].x == s[0].x
    ensures 2 * PairCount(s) == |s| * (|s| - 1)
    decreases |s|
  {
    if s != [] {
      var n := |s|;
      var rest := s[1..];
      HitsAll(s[0], rest);
      if n > 1 {
        SharedRowCountsEveryPair(rest);
      }
      assert 2 * PairCount(rest) == (n - 1) * (n - 2);
      assert PairCount(s) == (n - 1) + PairCount(rest);
      assert (n - 1) * (n - 2) + 2 * (n - 1) == n * (n - 1);
    }
  }

  /** Three queens on one row are three pairs, not one. */
  lemma ThreeInARow(a: Loc, b: Loc, c: Loc)
    requires a.x == b.x == c.x
    ensures PairCount([a, b, c]) == 3
  {
    SharedRowCountsEveryPair([a, b, c]);
  }

  lemma SmallExamples()
    ensures PairCount([Loc(0, 0), Loc(0, 5)]) == 1
    ensures PairCount([Loc(0, 0), Loc(3, 3)]) == 1
    ensures PairCount([Loc(0, 0), Loc(1, 3)]) == 0
  {
    assert [Loc(0, 5)][1..] == [];
    assert [Loc(3, 3)][1..] == [];
    assert [Loc(1, 3)][1..] == [];
  }

  /** One queen per x at y = 0, 4, 7, 5, 2, 6, 1, 3 is a solution. */
  lemma ClassicSolution()
    ensures PairCount([Loc(0, 0), Loc(1, 4), Loc(2, 7), Loc(3, 5),
                       Loc(4, 2), Loc(5, 6), Loc(6, 1), Loc(7, 3)]) == 0
  {
    var s := [Loc(0, 0), Loc(1, 4), Loc(2, 7), Loc(3, 5),
              Loc(4, 2), Loc(5, 6), Loc(6, 1), Loc(7, 3)];
    NoAttackingPair(s);
  }

  /**
    Fewer than `n` locations cannot cover all of (0, 0), ..., (n - 1, 0);
    this is why an empty cell always exists while queens are being placed.
  */
  lemma {:induction false} FreeCellExists(s: seq<Loc>, n: nat)
    requires |s| < n
    ensures exists k :: 0 <= k < n && Loc(k, 0) !in s
    decreases n
  {
    if Loc(n - 1, 0) !in s {
      assert 0 <= n - 1 < n;
    } else {
      var j :| 0 <= j < |s| && s[j] == Loc(n - 1, 0);
      var w := Without(s, j);
      FreeCellExists(w, n - 1);
      var k :| 0 <= k < n - 1 && Loc(k, 0) !in w;
      assert s == s[..j] + [s[j]] + s[j + 1..];
      assert Loc(k, 0) !in s;
    }
  }
}
