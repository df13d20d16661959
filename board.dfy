/**
  Boards of the 8-puzzle and the moves that slide the blank
  (puzzle.ts lines 1-56).

  A board is a 3x3 grid of tile labels, 0 being the blank.  It is kept as a
  sequence of 9 cells in row-major order, so that cell (i, j) of the grid is
  `s[3 * i + j]`; the same sequence serves as the canonical key of a board.
 */
module Board {

  datatype Option<T> = None | Some(value: T)

  /** The only failure of the board layer: a board without a blank. */
  datatype Error = MissingBlank

  datatype Result<T> = Ok(value: T) | Err(error: Error)

  /** The direction in which the blank moves. */
  datatype Move = Up | Down | Left | Right

  type State = s: seq<int> | |s| == 9 witness [0, 1, 2, 3, 4, 5, 6, 7, 8]

  const Tiles: seq<int> := [0, 1, 2, 3, 4, 5, 6, 7, 8]

  /** A well-formed board: one blank and each of the tiles 1-8 exactly once. */
  predicate Valid(s: State) {
    multiset(s) == multiset(Tiles)
  }

  /** The first index of `v` in `s` at or after `i`, or `|s|` when there is none. */
  function IndexFrom(s: seq<int>, v: int, i: nat): (k: nat)
    requires i <= |s|
    ensures i <= k <= |s|
    ensures k < |s| ==> s[k] == v
    ensures forall q :: i <= q < k ==> s[q] != v
    decreases |s| - i
  {
    if i == |s| then i
    else if s[i] == v then i
    else IndexFrom(s, v, i + 1)
  }

  /** The first index of `v` in `s`, or `|s|` when `v` does not occur. */
  function IndexOf(s: seq<int>, v: int): (k: nat)
    ensures k <= |s|
    ensures k < |s| ==> s[k] == v
    ensures forall q :: 0 <= q < k ==> s[q] != v
    ensures k < |s| <==> v in s
  {
    IndexFrom(s, v, 0)
  }

  /** The cell of the blank, the first 0 in row-major order (9 if none). */
  function BlankIndex(s: State): nat {
    IndexOf(s, 0)
  }

  /** A value that occurs at two cells occurs at least twice in the multiset of the board. */
  lemma TwiceInMultiset(s: seq<int>, a: nat, b: nat)
    requires a < b < |s| && s[a] == s[b]
    ensures multiset(s)[s[a]] >= 2
  {
    var v := s[a];
    var s1, s2, s3 := s[..a], s[a + 1..b], s[b + 1..];
    assert s == s1 + [v] + s2 + [v] + s3;
    calc {
      multiset(s)[v];
      (multiset(s1) + multiset{v} + multiset(s2) + multiset{v} + multiset(s3))[v];
      >= 2;
    }
  }

  /** The labels 0..n-1 each occur once in the first `n` entries of `Tiles`. */
  lemma {:induction false} TilesPrefixOnce(n: nat)
    requires n <= 9
    ensures forall v :: multiset(Tiles[..n])[v] == if 0 <= v < n then 1 else 0
  {
    if n > 0 {
      TilesPrefixOnce(n - 1);
      assert Tiles[..n] == Tiles[..n - 1] + [n - 1];
    }
  }

  /** The labels 0-8 each occur once in `Tiles`, and nothing else does. */
  lemma TilesOnce()
    ensures forall v :: multiset(Tiles)[v] == if 0 <= v <= 8 then 1 else 0
  {
    TilesPrefixOnce(9);
    assert Tiles[..9] == Tiles;
  }

  lemma ValidCells(s: State)
    requires Valid(s)
    ensures forall k :: 0 <= k < 9 ==> 0 <= s[k] <= 8
    ensures forall v :: 0 <= v <= 8 ==> v in s
    ensures forall a, b :: 0 <= a < b < 9 ==> s[a] != s[b]
  {
    TilesOnce();
    forall k | 0 <= k < 9 ensures 0 <= s[k] <= 8 {
      assert s[k] in multiset(s);
    }
    forall v | 0 <= v <= 8 ensures v in s {
      assert v in multiset(s);
    }
    forall a, b | 0 <= a < b < 9 ensures s[a] != s[b] {
      if s[a] == s[b] {
        TwiceInMultiset(s, a, b);
      }
    }
  }

  /** A valid board has its blank at exactly one cell. */
  lemma ValidOneBlank(s: State)
    requires Valid(s)
    ensures BlankIndex(s) < 9
    ensures forall q :: 0 <= q < 9 && s[q] == 0 ==> q == BlankIndex(s)
  {
    ValidCells(s);
  }

  /** On a valid board every cell holds the first occurrence of its value. */
  lemma ValidIndexOf(s: State)
    requires Valid(s)
    ensures forall k :: 0 <= k < 9 ==> IndexOf(s, s[k]) == k
    ensures forall v :: 0 <= v <= 8 ==> IndexOf(s, v) < 9
  {
    ValidCells(s);
  }

  /** Two boards are equal when every cell matches (puzzle.ts `statesEqual`). */
  function StatesEqual(a: State, b: State): (r: bool)
    ensures r <==> a == b
  {
    forall k | 0 <= k < 9 :: a[k] == b[k]
  }

  /** A fresh, independent copy of a board that may be written in place. */
  method CloneState(s: State) returns (grid: array<int>)
    ensures fresh(grid) && grid.Length == 9 && grid[..] == s
  {
    grid := new int[9](k requires 0 <= k < 9 => s[k]);
  }

  /** Locates the blank by scanning the grid row by row. */
  method FindEmpty(s: State) returns (r: Result<(nat, nat)>)
    ensures r.Err? <==> 0 !in s
    ensures r.Ok? ==> r.value.0 < 3 && r.value.1 < 3 && s[3 * r.value.0 + r.value.1] == 0
    ensures r.Ok? ==> forall q :: 0 <= q < 3 * r.value.0 + r.value.1 ==> s[q] != 0
  {
    for i := 0 to 3
      invariant forall q :: 0 <= q < 3 * i ==> s[q] != 0
    {
      for j := 0 to 3
        invariant forall q :: 0 <= q < 3 * i + j ==> s[q] != 0
      {
        if s[3 * i + j] == 0 {
          return Ok((i, j));
        }
      }
    }
    return Err(MissingBlank);
  }

  /** The row of cell `k` (row-major order, three cells per row). */
  function Row(k: nat): nat {
    if k < 3 then 0 else if k < 6 then 1 else 2
  }

  /** The column of cell `k`. */
  function Col(k: nat): nat {
    k - 3 * Row(k)
  }

  /** The blank at cell `k` cannot move in direction `m` without leaving the grid. */
  predicate AtEdge(k: nat, m: Move) {
    match m
    case Up => Row(k) == 0
    case Down => Row(k) == 2
    case Left => Col(k) == 0
    case Right => Col(k) == 2
  }

  /** The cell next to `k` in direction `m`. */
  function Neighbor(k: nat, m: Move): (n: nat)
    requires k < 9 && !AtEdge(k, m)
    ensures n < 9
  {
    match m
    case Up => k - 3
    case Down => k + 3
    case Left => k - 1
    case Right => k + 1
  }

  /**
    Cell `n` is the cell next to cell `k` in direction `m`: one row up or
    down in the same column, or one column left or right in the same row.
   */
  predicate Toward(k: nat, n: nat, m: Move) {
    match m
    case Up => Row(n) + 1 == Row(k) && Col(n) == Col(k)
    case Down => Row(n) == Row(k) + 1 && Col(n) == Col(k)
    case Left => Row(n) == Row(k) && Col(n) + 1 == Col(k)
    case Right => Row(n) == Row(k) && Col(n) == Col(k) + 1
  }

  /** Cells `a` and `b` share a side of the grid. */
  predicate Adjacent(a: nat, b: nat) {
    (Row(a) == Row(b) && (Col(a) == Col(b) + 1 || Col(b) == Col(a) + 1)) ||
    (Col(a) == Col(b) && (Row(a) == Row(b) + 1 || Row(b) == Row(a) + 1))
  }

  function Swap(s: State, a: nat, b: nat): State
    requires a < 9 && b < 9
  {
    s[a := s[b]][b := s[a]]
  }

  /** The move opposite to `m`. */
  function Inverse(m: Move): Move {
    match m
    case Up => Down
    case Down => Up
    case Left => Right
    case Right => Left
  }

  /**
    The board after sliding the blank of `s` in direction `m`: no board at
    the edge of the grid, and an error when `s` has no blank at all.
   */
  function Step(s: State, m: Move): (r: Result<Option<State>>)
    ensures r.Err? <==> 0 !in s
    ensures r.Ok? && r.value.Some? ==> multiset(r.value.value) == multiset(s)
  {
    var k := BlankIndex(s);
    if k == 9 then Err(MissingBlank)
    else if AtEdge(k, m) then Ok(None)
    else
      var n := Neighbor(k, m);
      assert s == s[k := s[k]];
      Ok(Some(Swap(s, k, n)))
  }

  /** Slides the blank on a copy of the board (puzzle.ts `moveTile`). */
  method MoveTile(s: State, m: Move) returns (r: Result<Option<State>>)
    ensures r == Step(s, m)
    ensures r.Err? <==> 0 !in s
  {
    var e := FindEmpty(s);
    if e.Err? {
      return Err(e.error);
    }
    var (i, j) := e.value;
    assert BlankIndex(s) == 3 * i + j;
    var grid := CloneState(s);
    match m {
      case Up =>
        if i == 0 { return Ok(None); }
        grid[3 * i + j], grid[3 * (i - 1) + j] := grid[3 * (i - 1) + j], grid[3 * i + j];
      case Down =>
        if i == 2 { return Ok(None); }
        grid[3 * i + j], grid[3 * (i + 1) + j] := grid[3 * (i + 1) + j], grid[3 * i + j];
      case Left =>
        if j == 0 { return Ok(None); }
        grid[3 * i + j], grid[3 * i + j - 1] := grid[3 * i + j - 1], grid[3 * i + j];
      case Right =>
        if j == 2 { return Ok(None); }
        grid[3 * i + j], grid[3 * i + j + 1] := grid[3 * i + j + 1], grid[3 * i + j];
    }
    var t: State := grid[..];
    assert t == Swap(s, BlankIndex(s), Neighbor(BlankIndex(s), m));
    r := Ok(Some(t));
  }

  /**
    A slide is blocked exactly when the blank is on the edge in the move's
    direction; otherwise the blank trades places with the cell next to it in
    that direction (Up: the row above, Down: the row below, Left: the column
    to the left, Right: the column to the right) and every other cell keeps
    its value.
   */
  lemma StepSlides(s: State, m: Move)
    ensures Step(s, m) == Ok(None) <==> 0 in s && AtEdge(BlankIndex(s), m)
    ensures Step(s, m).Ok? && Step(s, m).value.Some? ==>
      var k := BlankIndex(s);
      exists n :: 0 <= n < 9 && Toward(k, n, m) && Step(s, m).value.value == s[k := s[n]][n := 0]
  {
    var k := BlankIndex(s);
    if k < 9 && !AtEdge(k, m) {
      var n := Neighbor(k, m);
      assert Toward(k, n, m);
      assert s[k] == 0;
    }
  }

  /** The opposite move from the neighbour leads back to the cell. */
  lemma NeighborInverse(k: nat, m: Move)
    requires k < 9 && !AtEdge(k, m)
    ensures Adjacent(k, Neighbor(k, m))
    ensures !AtEdge(Neighbor(k, m), Inverse(m)) && Neighbor(Neighbor(k, m), Inverse(m)) == k
  {
  }

  /** After a slide on a board with one blank, the blank sits where the tile was. */
  lemma BlankAfterSwap(s: State, k: nat, n: nat)
    requires k < 9 && n < 9 && k != n && s[k] == 0
    requires forall q :: 0 <= q < 9 && s[q] == 0 ==> q == k
    ensures BlankIndex(Swap(s, k, n)) == n
  {
    var t := Swap(s, k, n);
    assert t[n] == 0;
    forall q | 0 <= q < n ensures t[q] != 0 {
      assert t[q] == s[q] || q == k;
    }
  }

  /** Sliding back undoes a slide on a board whose blank is its only 0. */
  lemma StepUndo(s: State, m: Move)
    requires BlankIndex(s) < 9
    requires forall q :: 0 <= q < 9 && s[q] == 0 ==> q == BlankIndex(s)
    requires Step(s, m).Ok? && Step(s, m).value.Some?
    ensures Step(Step(s, m).value.value, Inverse(m)) == Ok(Some(s))
  {
    var t := Step(s, m).value.value;
    var k := BlankIndex(s);
    var n := Neighbor(k, m);
    assert t == Swap(s, k, n);
    assert Swap(t, n, k) == s;
    assert Step(t, Inverse(m)) == Ok(Some(Swap(t, n, k))) by {
      NeighborInverse(k, m);
      BlankAfterSwap(s, k, n);
    }
  }

  /**
    Sliding the blank keeps a valid board valid, and sliding it back the
    opposite way restores the original board.
   */
  lemma StepInverse(s: State, m: Move)
    requires Valid(s)
    requires Step(s, m).Ok? && Step(s, m).value.Some?
    ensures Valid(Step(s, m).value.value)
    ensures Step(Step(s, m).value.value, Inverse(m)) == Ok(Some(s))
  {
    ValidOneBlank(s);
    StepUndo(s, m);
  }

  /** The board one legal move away, if the move is legal. */
  function Next(s: State, m: Move): (r: Option<State>)
    ensures r.Some? <==> Step(s, m).Ok? && Step(s, m).value.Some?
    ensures r.Some? ==> Step(s, m) == Ok(Some(r.value))
  {
    match Step(s, m)
    case Ok(Some(t)) => Some(t)
    case _ => None
  }

  lemma NextOfStep(s: State, m: Move, t: State)
    requires Step(s, m) == Ok(Some(t))
    ensures Next(s, m) == Some(t)
  {
  }

  /**
    The board reached from `s` by the moves `ms` when every one of them is
    legal, and no board when one of them is blocked or `s` has no blank.
   */
  function Run(s: State, ms: seq<Move>): Option<State>
    decreases ms
  {
    if ms == [] then Some(s)
    else match Step(s, ms[0])
      case Ok(Some(t)) => Run(t, ms[1..])
      case _ => None
  }

  /** Following a path and then one more move is one more step from where the path ends. */
  lemma {:induction false} RunSnoc(s: State, ms: seq<Move>, m: Move)
    ensures Run(s, ms + [m]) == if Run(s, ms).Some? then Next(Run(s, ms).value, m) else None
    decreases ms
  {
    if ms != [] {
      assert (ms + [m])[1..] == ms[1..] + [m];
      match Step(s, ms[0])
      case Ok(Some(t)) => RunSnoc(t, ms[1..], m);
      case _ =>
    }
  }

  /** A legal path keeps the tiles of the board it starts from. */
  lemma {:induction false} RunKeepsTiles(s: State, ms: seq<Move>)
    requires Run(s, ms).Some?
    ensures multiset(Run(s, ms).value) == multiset(s)
    decreases ms
  {
    if ms != [] {
      RunKeepsTiles(Step(s, ms[0]).value.value, ms[1..]);
    }
  }
}
