/**
  The Manhattan-distance heuristic (puzzle.ts `manhattanDistance`, lines
  71-88): for every non-blank cell of the board, the taxicab distance to the
  goal cells holding the same tile.
 */
module Heuristic {
  import opened Board

  function Abs(x: int): nat {
    if x < 0 then -x else x
  }

  /** Taxicab distance between cells `a` and `b` of the grid. */
  function Dist(a: nat, b: nat): nat {
    Abs(Row(a) - Row(b)) + Abs(Col(a) - Col(b))
  }

  lemma DistAtMost4(a: nat, b: nat)
    requires a < 9 && b < 9
    ensures Dist(a, b) <= 4
  {
  }

  lemma DistCells(i: nat, j: nat, x: nat, y: nat)
    requires i < 3 && j < 3 && x < 3 && y < 3
    ensures Dist(3 * i + j, 3 * x + y) == Abs(i - x) + Abs(j - y)
  {
    assert Row(3 * i + j) == i && Col(3 * i + j) == j;
    assert Row(3 * x + y) == x && Col(3 * x + y) == y;
  }

  /** Distances from cell `k` to those of the first `m` goal cells that hold `v`. */
  function GoalSum(v: int, k: nat, goal: State, m: nat): nat
    requires m <= 9
  {
    if m == 0 then 0
    else GoalSum(v, k, goal, m - 1) + (if goal[m - 1] == v then Dist(k, m - 1) else 0)
  }

  /** What the tile on cell `k` of `s` adds to the heuristic; the blank adds nothing. */
  function CellCost(s: State, goal: State, k: nat): nat
    requires k < 9
  {
    if s[k] == 0 then 0 else GoalSum(s[k], k, goal, 9)
  }

  /** The costs of the first `n` cells of `s`, in row-major order. */
  function CellsSum(s: State, goal: State, n: nat): nat
    requires n <= 9
  {
    if n == 0 then 0 else CellsSum(s, goal, n - 1) + CellCost(s, goal, n - 1)
  }

  /** The value `manhattanDistance(s, goal)` computes. */
  function Manhattan(s: State, goal: State): nat {
    CellsSum(s, goal, 9)
  }

  /** Sums the distances with the four nested scans of the source. */
  method ManhattanDistance(state: State, goal: State) returns (distance: int)
    ensures distance == Manhattan(state, goal)
  {
    distance := 0;
    for i := 0 to 3
      invariant distance == CellsSum(state, goal, 3 * i)
    {
      for j := 0 to 3
        invariant distance == CellsSum(state, goal, 3 * i + j)
      {
        var value := state[3 * i + j];
        if value != 0 {
          for x := 0 to 3
            invariant distance == CellsSum(state, goal, 3 * i + j) + GoalSum(value, 3 * i + j, goal, 3 * x)
          {
            for y := 0 to 3
              invariant distance == CellsSum(state, goal, 3 * i + j) + GoalSum(value, 3 * i + j, goal, 3 * x + y)
            {
              if goal[3 * x + y] == value {
                DistCells(i, j, x, y);
                distance := distance + Abs(i - x) + Abs(j - y);
              }
            }
          }
        }
      }
    }
  }

  // ---------------------------------------------------------------------
  // The heuristic as a sum over tiles

  /** The distance of tile `t` from its goal cell. */
  function TileDist(s: State, goal: State, t: int): nat {
    Dist(IndexOf(s, t), IndexOf(goal, t))
  }

  /** The distances of tiles 1..n from their goal cells. */
  function TileSum(s: State, goal: State, n: nat): nat {
    if n == 0 then 0 else TileSum(s, goal, n - 1) + TileDist(s, goal, n)
  }

  /** Sum of `f` over the elements of `a`. */
  function SumOver(f: int -> nat, a: seq<int>): nat {
    if a == [] then 0 else SumOver(f, a[..|a| - 1]) + f(a[|a| - 1])
  }

  lemma {:induction false} SumConcat(f: int -> nat, a: seq<int>, b: seq<int>)
    ensures SumOver(f, a + b) == SumOver(f, a) + SumOver(f, b)
    decreases |b|
  {
    if b == [] {
      assert a + b == a;
    } else {
      assert (a + b)[..|a + b| - 1] == a + b[..|b| - 1];
      SumConcat(f, a, b[..|b| - 1]);
    }
  }

  /** A sum over a sequence does not depend on the order of its elements. */
  lemma {:induction false} SumPerm(f: int -> nat, a: seq<int>, b: seq<int>)
    requires multiset(a) == multiset(b)
    ensures SumOver(f, a) == SumOver(f, b)
    decreases |a|
  {
    if a != [] {
      var x := a[|a| - 1];
      var a' := a[..|a| - 1];
      assert a == a' + [x];
      assert x in multiset(b);
      var i := IndexOf(b, x);
      var b' := b[..i] + b[i + 1..];
      assert b == b[..i] + [x] + b[i + 1..];
      assert multiset(b) == multiset(b') + multiset{x};
      assert multiset(a) == multiset(a') + multiset{x};
      assert multiset(a') == multiset(a) - multiset{x};
      assert multiset(b') == multiset(b) - multiset{x};
      SumPerm(f, a', b');
      SumConcat(f, b[..i] + [x], b[i + 1..]);
      SumConcat(f, b[..i], [x]);
      SumConcat(f, b[..i], b[i + 1..]);
      assert SumOver(f, [x]) == f(x) by {
        assert [x][..0] == [];
      }
    }
  }

  /** On a valid goal, tile `v` is counted once, from the one goal cell holding it. */
  lemma {:induction false} GoalSumOnce(v: int, k: nat, goal: State, m: nat, p: nat)
    requires m <= 9 && p < 9 && goal[p] == v
    requires forall q :: 0 <= q < 9 && goal[q] == v ==> q == p
    ensures GoalSum(v, k, goal, m) == if p < m then Dist(k, p) else 0
  {
    if m > 0 {
      GoalSumOnce(v, k, goal, m - 1, p);
    }
  }

  /** A tile missing from the goal costs nothing. */
  lemma {:induction false} GoalSumAbsent(v: int, k: nat, goal: State, m: nat)
    requires m <= 9 && v !in goal
    ensures GoalSum(v, k, goal, m) == 0
  {
    if m > 0 {
      GoalSumAbsent(v, k, goal, m - 1);
    }
  }

  /** Against a valid goal, a cell costs the distance of its tile to that tile's goal cell. */
  lemma CellCostValid(s: State, goal: State, k: nat)
    requires k < 9 && forall q :: 0 <= q < 9 ==> IndexOf(goal, goal[q]) == q
    ensures CellCost(s, goal, k) ==
      if s[k] == 0 || s[k] !in goal then 0 else Dist(k, IndexOf(goal, s[k]))
  {
    if s[k] != 0 {
      if s[k] in goal {
        GoalSumOnce(s[k], k, goal, 9, IndexOf(goal, s[k]));
      } else {
        GoalSumAbsent(s[k], k, goal, 9);
      }
    }
  }

  /** The cost of a tile as a function of its label, for boards `s` and `goal`. */
  function TileCost(s: State, goal: State): int -> nat {
    t => if t == 0 || t !in goal then 0 else TileDist(s, goal, t)
  }

  lemma {:induction false} CellsSumAsSumOver(s: State, goal: State, n: nat)
    requires n <= 9
    requires forall q :: 0 <= q < 9 ==> IndexOf(s, s[q]) == q
    requires forall q :: 0 <= q < 9 ==> IndexOf(goal, goal[q]) == q
    ensures CellsSum(s, goal, n) == SumOver(TileCost(s, goal), s[..n])
  {
    if n > 0 {
      CellsSumAsSumOver(s, goal, n - 1);
      assert s[..n][..n - 1] == s[..n - 1];
      CellCostValid(s, goal, n - 1);
    }
  }

  lemma CellsSumAsTiles(s: State, goal: State)
    requires forall q :: 0 <= q < 9 ==> IndexOf(s, s[q]) == q
    requires forall q :: 0 <= q < 9 ==> IndexOf(goal, goal[q]) == q
    ensures Manhattan(s, goal) == SumOver(TileCost(s, goal), s)
  {
    CellsSumAsSumOver(s, goal, 9);
    assert s[..9] == s;
  }

  /** Sum of `f` over the labels 0..n-1. */
  function SumRange(f: int -> nat, n: nat): nat {
    if n == 0 then 0 else SumRange(f, n - 1) + f(n - 1)
  }

  lemma {:induction false} SumOverTiles(f: int -> nat, n: nat)
    requires n <= 9
    ensures SumOver(f, Tiles[..n]) == SumRange(f, n)
  {
    if n > 0 {
      assert Tiles[n - 1] == n - 1;
      assert Tiles[..n][..n - 1] == Tiles[..n - 1];
      SumOverTiles(f, n - 1);
    }
  }

  lemma {:induction false} TileSumAsSumRange(s: State, goal: State, n: nat)
    requires n < 9 && forall t :: 1 <= t <= 8 ==> IndexOf(goal, t) < 9
    ensures SumRange(TileCost(s, goal), n + 1) == TileSum(s, goal, n)
  {
    if n > 0 {
      TileSumAsSumRange(s, goal, n - 1);
    }
  }

  /** A tile that lies on both boards is at most 4 steps from its goal cell. */
  lemma TileDistsAtMost4(s: State, goal: State)
    requires forall t :: 1 <= t <= 8 ==> IndexOf(s, t) < 9 && IndexOf(goal, t) < 9
    ensures forall t :: 1 <= t <= 8 ==> TileDist(s, goal, t) <= 4
  {
    forall t | 1 <= t <= 8 ensures TileDist(s, goal, t) <= 4 {
      DistAtMost4(IndexOf(s, t), IndexOf(goal, t));
    }
  }

  /** Summing over the cells of a valid board is summing over the labels 0-8. */
  lemma SumOverBoard(f: int -> nat, s: State)
    requires Valid(s)
    ensures SumOver(f, s) == SumRange(f, 9)
  {
    SumPerm(f, s, Tiles);
    assert Tiles[..9] == Tiles;
    SumOverTiles(f, 9);
  }

  /** For valid boards the heuristic sums, over the labels 0-8, the cost of each tile. */
  lemma ManhattanAsRange(s: State, goal: State)
    requires Valid(s) && Valid(goal)
    ensures Manhattan(s, goal) == SumRange(TileCost(s, goal), 9)
  {
    ValidIndexOf(s);
    ValidIndexOf(goal);
    CellsSumAsTiles(s, goal);
    SumOverBoard(TileCost(s, goal), s);
  }

  /**
    For valid boards the heuristic is the sum, over the tiles 1-8, of the
    row and column distance of each tile from its goal cell; the blank is
    never counted, and no tile adds more than 4.
   */
  lemma ManhattanTiles(s: State, goal: State)
    requires Valid(s) && Valid(goal)
    ensures Manhattan(s, goal) == TileSum(s, goal, 8)
    ensures forall t :: 1 <= t <= 8 ==> TileDist(s, goal, t) <= 4
  {
    ManhattanAsRange(s, goal);
    ValidIndexOf(s);
    ValidIndexOf(goal);
    TileSumAsSumRange(s, goal, 8);
    TileDistsAtMost4(s, goal);
  }

  lemma {:induction false} TileSumSelf(s: State, n: nat)
    ensures TileSum(s, s, n) == 0
  {
    if n > 0 {
      TileSumSelf(s, n - 1);
    }
  }

  /** A valid board is at distance 0 from itself. */
  lemma ManhattanSelf(s: State)
    requires Valid(s)
    ensures Manhattan(s, s) == 0
  {
    ManhattanTiles(s, s);
    TileSumSelf(s, 8);
  }

  // ---------------------------------------------------------------------
  // The bound of 24

  /** The distance of cell `k` from the centre cell 4: 1 for the edge cells, 2 for the corners. */
  function CenterDist(k: nat): nat {
    if k == 4 then 0 else if k == 1 || k == 3 || k == 5 || k == 7 then 1 else 2
  }

  lemma CenterDistIsDist(k: nat)
    requires k < 9
    ensures CenterDist(k) == Dist(k, 4)
  {
  }

  /** Going from `a` to `b` by way of the centre is never shorter. */
  lemma DistViaCenter(a: nat, b: nat)
    requires a < 9 && b < 9
    ensures Dist(a, b) <= CenterDist(a) + CenterDist(b)
  {
    CenterDistIsDist(a);
    CenterDistIsDist(b);
  }

  /** The centre distances of the first `n` cells. */
  function CenterSum(n: nat): nat {
    if n == 0 then 0 else CenterSum(n - 1) + CenterDist(n - 1)
  }

  /** Four corners 2 away, four edge cells 1 away, and the centre itself. */
  lemma CenterTotal()
    ensures CenterSum(9) == 12
  {
  }

  /** The centre distance of the cell of `s` holding a label. */
  function CenterOf(s: State): int -> nat {
    v => CenterDist(IndexOf(s, v))
  }

  lemma {:induction false} CenterSumOver(s: State, n: nat)
    requires n <= 9 && forall q :: 0 <= q < 9 ==> IndexOf(s, s[q]) == q
    ensures SumOver(CenterOf(s), s[..n]) == CenterSum(n)
  {
    if n > 0 {
      CenterSumOver(s, n - 1);
      assert s[..n][..n - 1] == s[..n - 1];
    }
  }

  lemma CenterSumCells(s: State)
    requires forall q :: 0 <= q < 9 ==> IndexOf(s, s[q]) == q
    ensures SumOver(CenterOf(s), s) == 12
  {
    CenterSumOver(s, 9);
    assert s[..9] == s;
    CenterTotal();
  }

  /** On a valid board the labels 0-8 sit at centre distances adding up to 12. */
  lemma BoardCenterSum(s: State)
    requires Valid(s)
    ensures SumRange(CenterOf(s), 9) == 12
  {
    ValidIndexOf(s);
    CenterSumCells(s);
    SumOverBoard(CenterOf(s), s);
  }

  lemma {:induction false} TileSumViaCenter(s: State, goal: State, n: nat)
    requires n <= 8 && forall t :: 1 <= t <= 8 ==> IndexOf(s, t) < 9 && IndexOf(goal, t) < 9
    ensures TileSum(s, goal, n) + CenterOf(s)(0) + CenterOf(goal)(0)
         <= SumRange(CenterOf(s), n + 1) + SumRange(CenterOf(goal), n + 1)
  {
    if n > 0 {
      TileSumViaCenter(s, goal, n - 1);
      DistViaCenter(IndexOf(s, n), IndexOf(goal, n));
    }
  }

  /**
    For valid boards the heuristic is at most 24: each tile's distance is
    at most its two cells' distances from the centre, and the cells of one
    board are 12 away from the centre in total.
   */
  lemma ManhattanBound(s: State, goal: State)
    requires Valid(s) && Valid(goal)
    ensures Manhattan(s, goal) <= 24
  {
    ManhattanTiles(s, goal);
    ValidIndexOf(s);
    ValidIndexOf(goal);
    TileSumViaCenter(s, goal, 8);
    BoardCenterSum(s);
    BoardCenterSum(goal);
  }

  // ---------------------------------------------------------------------
  // Admissibility

  lemma DistAdjacent(k: nat, n: nat, q: nat)
    requires k < 9 && n < 9 && q < 9 && Adjacent(k, n)
    ensures Dist(n, q) <= Dist(k, q) + 1 && Dist(k, q) <= Dist(n, q) + 1
  {
  }

  lemma {:induction false} TileSumOneChanged(s: State, t: State, goal: State, n: nat, v: int)
    requires forall u :: 1 <= u <= n && u != v ==> TileDist(t, goal, u) == TileDist(s, goal, u)
    ensures TileSum(t, goal, n) + (if 1 <= v <= n then TileDist(s, goal, v) else 0)
         == TileSum(s, goal, n) + (if 1 <= v <= n then TileDist(t, goal, v) else 0)
  {
    if n > 0 {
      TileSumOneChanged(s, t, goal, n - 1, v);
    }
  }

  /**
    Sliding the tile on cell `n` into the blank on the adjacent cell `k`
    moves one tile by one step, so the tile sum changes by at most one.
   */
  lemma SlideTileSum(s: State, t: State, goal: State, k: nat, n: nat)
    requires k < 9 && n < 9 && Adjacent(k, n) && t == Swap(s, k, n) && s[k] == 0
    requires forall q :: 0 <= q < 9 ==> IndexOf(s, s[q]) == q
    requires forall q :: 0 <= q < 9 ==> IndexOf(t, t[q]) == q
    requires 1 <= s[n] <= 8 && IndexOf(goal, s[n]) < 9
    requires forall u :: 1 <= u <= 8 ==> IndexOf(s, u) < 9
    ensures TileSum(s, goal, 8) <= TileSum(t, goal, 8) + 1
    ensures TileSum(t, goal, 8) <= TileSum(s, goal, 8) + 1
  {
    var v := s[n];
    forall u | 1 <= u <= 8 && u != v ensures TileDist(t, goal, u) == TileDist(s, goal, u) {
      var p := IndexOf(s, u);
      assert p != k && p != n;
      assert t[p] == u;
    }
    TileSumOneChanged(s, t, goal, 8, v);
    assert IndexOf(s, v) == n;
    assert t[k] == v;
    assert IndexOf(t, v) == k;
    DistAdjacent(k, n, IndexOf(goal, v));
  }

  /** One slide changes the distance to a valid goal by at most one. */
  lemma ManhattanStep(s: State, m: Move, goal: State)
    requires Valid(s) && Valid(goal)
    requires Step(s, m).Ok? && Step(s, m).value.Some?
    ensures Manhattan(s, goal) <= Manhattan(Step(s, m).value.value, goal) + 1
    ensures Manhattan(Step(s, m).value.value, goal) <= Manhattan(s, goal) + 1
  {
    var t := Step(s, m).value.value;
    var k := BlankIndex(s);
    var n := Neighbor(k, m);
    assert t == Swap(s, k, n);
    StepInverse(s, m);
    ValidOneBlank(s);
    ValidCells(s);
    ValidIndexOf(s);
    ValidIndexOf(t);
    ValidIndexOf(goal);
    NeighborInverse(k, m);
    SlideTileSum(s, t, goal, k, n);
    ManhattanTiles(s, goal);
    ManhattanTiles(t, goal);
  }

  /**
    The heuristic never overestimates: a valid board is at least
    `Manhattan(s, goal)` legal moves away from a valid goal.
   */
  lemma {:induction false} Admissible(s: State, goal: State, ms: seq<Move>)
    requires Valid(s) && Valid(goal) && Run(s, ms) == Some(goal)
    ensures Manhattan(s, goal) <= |ms|
    decreases ms
  {
    if ms == [] {
      ManhattanSelf(s);
    } else {
      var t := Step(s, ms[0]).value.value;
      StepInverse(s, ms[0]);
      ManhattanStep(s, ms[0], goal);
      Admissible(t, goal, ms[1..]);
    }
  }
}
