/**
  Greedy best-first search (puzzle.ts `greedy`, lines 119-156).

  Nodes live in an arena, as in the breadth-first search, and the open list
  is a sequence of arena indices. Each round sorts the open list by the
  nodes' costs with a stable sort (`Array.prototype.sort`, which is stable)
  and shifts its first element off; the sorted order is kept, as the source
  sorts the array in place. A node's cost is the Manhattan distance from its
  board to the goal.
 */
module Greedy {
  import opened Board
  import opened Search
  import opened Heuristic
  import Replay

  // ---------------------------------------------------------------------
  // Sorting the open list

  /** The cost of the node at arena index `i` (0 for an index outside the arena). */
  function CostOf(nodes: seq<Node>, i: nat): int {
    if i < |nodes| then nodes[i].cost else 0
  }

  /** `ys` is ordered by cost, cheapest first. */
  predicate SortedByCost(nodes: seq<Node>, ys: seq<nat>) {
    forall i, j :: 0 <= i < j < |ys| ==> CostOf(nodes, ys[i]) <= CostOf(nodes, ys[j])
  }

  /** Puts `x` in front of the first element of `ys` that costs at least as much. */
  function Insert(nodes: seq<Node>, x: nat, ys: seq<nat>): (r: seq<nat>)
    ensures multiset(r) == multiset(ys) + multiset{x}
  {
    if ys == [] then [x]
    else if CostOf(nodes, x) <= CostOf(nodes, ys[0]) then [x] + ys
    else
      assert ys == [ys[0]] + ys[1..];
      [ys[0]] + Insert(nodes, x, ys[1..])
  }

  /**
    `open.sort((a, b) => a.cost - b.cost)`: a stable sort by cost, written
    as an insertion sort. Each element goes in front of the later elements
    of equal cost, so elements of equal cost keep their relative order.
   */
  function SortByCost(nodes: seq<Node>, xs: seq<nat>): (r: seq<nat>)
    ensures multiset(r) == multiset(xs)
  {
    if xs == [] then []
    else
      assert xs == [xs[0]] + xs[1..];
      Insert(nodes, xs[0], SortByCost(nodes, xs[1..]))
  }

  /** An element no dearer than any of a sorted sequence can go in front of it. */
  lemma ConsSorted(nodes: seq<Node>, a: nat, t: seq<nat>)
    requires SortedByCost(nodes, t)
    requires forall e :: e in t ==> CostOf(nodes, a) <= CostOf(nodes, e)
    ensures SortedByCost(nodes, [a] + t)
  {
    var r := [a] + t;
    forall i, j | 0 <= i < j < |r| ensures CostOf(nodes, r[i]) <= CostOf(nodes, r[j]) {
      assert r[j] == t[j - 1];
      if i > 0 {
        assert r[i] == t[i - 1];
      }
    }
  }

  lemma {:induction false} InsertSorted(nodes: seq<Node>, x: nat, ys: seq<nat>)
    requires SortedByCost(nodes, ys)
    ensures SortedByCost(nodes, Insert(nodes, x, ys))
    decreases ys
  {
    if ys == [] {
    } else if CostOf(nodes, x) <= CostOf(nodes, ys[0]) {
      forall e | e in ys ensures CostOf(nodes, x) <= CostOf(nodes, e) {
        var q :| 0 <= q < |ys| && ys[q] == e;
        if q > 0 {
          assert CostOf(nodes, ys[0]) <= CostOf(nodes, ys[q]);
        }
      }
      ConsSorted(nodes, x, ys);
    } else {
      var rest := Insert(nodes, x, ys[1..]);
      InsertSorted(nodes, x, ys[1..]);
      forall e | e in rest ensures CostOf(nodes, ys[0]) <= CostOf(nodes, e) {
        assert e in multiset(rest);
        assert e == x || e in ys[1..];
      }
      ConsSorted(nodes, ys[0], rest);
    }
  }

  /** The sort orders the open list by cost. */
  lemma {:induction false} SortSorted(nodes: seq<Node>, xs: seq<nat>)
    ensures SortedByCost(nodes, SortByCost(nodes, xs))
    decreases xs
  {
    if xs != [] {
      SortSorted(nodes, xs[1..]);
      InsertSorted(nodes, xs[0], SortByCost(nodes, xs[1..]));
    }
  }

  /** The position in `xs` of its first element of least cost. */
  function FirstMin(nodes: seq<Node>, xs: seq<nat>): (p: nat)
    requires xs != []
    ensures p < |xs|
    ensures forall q :: 0 <= q < |xs| ==> CostOf(nodes, xs[p]) <= CostOf(nodes, xs[q])
    ensures forall q :: 0 <= q < p ==> CostOf(nodes, xs[q]) > CostOf(nodes, xs[p])
    decreases xs
  {
    if |xs| == 1 then 0
    else
      var p := FirstMin(nodes, xs[1..]);
      if CostOf(nodes, xs[0]) <= CostOf(nodes, xs[1 + p]) then 0 else 1 + p
  }

  /**
    After the sort, the node `shift` takes costs no more than any open node,
    and is the first open node of least cost in the list's order: the sort
    is stable.
   */
  lemma {:induction false} SortHead(nodes: seq<Node>, xs: seq<nat>)
    requires xs != []
    ensures SortByCost(nodes, xs)[0] == xs[FirstMin(nodes, xs)]
    ensures forall q :: 0 <= q < |xs| ==> CostOf(nodes, SortByCost(nodes, xs)[0]) <= CostOf(nodes, xs[q])
    decreases xs
  {
    if |xs| > 1 {
      SortHead(nodes, xs[1..]);
      assert xs[1..][FirstMin(nodes, xs[1..])] == xs[1 + FirstMin(nodes, xs[1..])];
    }
  }

  // ---------------------------------------------------------------------
  // The loop invariants of the search

  /** Every node carries the Manhattan distance from its board to the goal as its cost. */
  predicate Costed(nodes: seq<Node>, goal: State) {
    forall i :: 0 <= i < |nodes| ==> nodes[i].cost == Manhattan(nodes[i].state, goal)
  }

  /** The open list holds distinct arena indices. */
  ghost predicate OpenList(nodes: seq<Node>, open: seq<nat>) {
    (forall p :: 0 <= p < |open| ==> open[p] < |nodes|) &&
    (forall i :: multiset(open)[i] <= 1)
  }

  /** The open list holds distinct arena indices, and every node not on it has been expanded and is not the goal. */
  ghost predicate Searching(nodes: seq<Node>, index: map<State, nat>, start: State, goal: State, open: seq<nat>) {
    Tree(nodes, start) && Indexed(nodes, index) && Costed(nodes, goal) && OpenList(nodes, open) &&
    (forall i :: 0 <= i < |nodes| && i !in open ==> Expanded(nodes, index, i) && nodes[i].state != goal)
  }

  /** The search while node `h`, just shifted off the open list, has been tried with the first `k` moves. */
  ghost predicate Expanding(nodes: seq<Node>, index: map<State, nat>, start: State, goal: State, open: seq<nat>, h: nat, k: nat) {
    Tree(nodes, start) && Indexed(nodes, index) && Costed(nodes, goal) &&
    h < |nodes| && h !in open && nodes[h].state != goal && k <= 4 && OpenList(nodes, open) &&
    (forall i :: 0 <= i < |nodes| && i != h && i !in open ==> Expanded(nodes, index, i) && nodes[i].state != goal) &&
    (forall k' :: 0 <= k' < k ==> Next(nodes[h].state, Moves[k']).Some? ==> Next(nodes[h].state, Moves[k']).value in index)
  }

  lemma SearchBegins(start: State, goal: State)
    ensures Searching([Node(start, None, None, 0, Manhattan(start, goal))], map[start := 0], start, goal, [0])
  {
  }

  /** Sorting the open list reorders it and changes nothing else the search relies on. */
  lemma SortKeepsSearching(nodes: seq<Node>, index: map<State, nat>, start: State, goal: State, open: seq<nat>)
    requires Searching(nodes, index, start, goal, open)
    ensures Searching(nodes, index, start, goal, SortByCost(nodes, open))
    ensures |SortByCost(nodes, open)| == |open|
  {
    var sorted := SortByCost(nodes, open);
    assert |sorted| == |multiset(sorted)|;
    forall p | 0 <= p < |sorted| ensures sorted[p] < |nodes| {
      assert sorted[p] in multiset(open);
    }
    forall i | 0 <= i < |nodes| && i !in sorted ensures i !in open {
      assert i !in multiset(open);
    }
  }

  /** Shifting node `h`, the front of the sorted open list, off the list starts the expansion of `h`. */
  lemma ExpandBegins(nodes: seq<Node>, index: map<State, nat>, start: State, goal: State, open: seq<nat>)
    requires Searching(nodes, index, start, goal, open) && open != [] && nodes[open[0]].state != goal
    ensures Expanding(nodes, index, start, goal, open[1..], open[0], 0)
  {
    var h, rest := open[0], open[1..];
    assert open == [h] + rest;
    forall i | 0 <= i < |nodes| && i != h && i !in rest ensures i !in open {
    }
    assert multiset(open)[h] == 1 + multiset(rest)[h];
    forall i ensures multiset(rest)[i] <= 1 {
      assert multiset(open)[i] >= multiset(rest)[i];
    }
  }

  /** A move that is blocked, or leads to a board already visited, adds nothing. */
  lemma ExpandSkips(nodes: seq<Node>, index: map<State, nat>, start: State, goal: State, open: seq<nat>, h: nat, k: nat)
    requires Expanding(nodes, index, start, goal, open, h, k) && k < 4
    requires Next(nodes[h].state, Moves[k]).Some? ==> Next(nodes[h].state, Moves[k]).value in index
    ensures Expanding(nodes, index, start, goal, open, h, k + 1)
  {
  }

  /** Appending a node for a new board keeps every expanded node expanded. */
  lemma ExpandedPush(nodes: seq<Node>, index: map<State, nat>, n: Node, i: nat, nodes': seq<Node>, index': map<State, nat>)
    requires i < |nodes| && Expanded(nodes, index, i)
    requires nodes' == nodes + [n] && index' == index[n.state := |nodes|]
    ensures Expanded(nodes', index', i)
  {
    assert nodes'[i] == nodes[i];
  }

  /** A move to a board not yet visited appends a child of node `h`, with its cost, to the arena and the open list. */
  lemma ExpandPushes(nodes: seq<Node>, index: map<State, nat>, start: State, goal: State, open: seq<nat>, h: nat, k: nat, n: Node)
    requires Expanding(nodes, index, start, goal, open, h, k) && k < 4
    requires Next(nodes[h].state, Moves[k]) == Some(n.state) && n.state !in index
    requires n == Node(n.state, Some(h), Some(Moves[k]), nodes[h].depth + 1, Manhattan(n.state, goal))
    ensures Expanding(nodes + [n], index[n.state := |nodes|], start, goal, open + [|nodes|], h, k + 1)
    ensures multiset(n.state) == multiset(start)
    ensures index[n.state := |nodes|].Keys == index.Keys + {n.state}
  {
    var nodes', index', open' := nodes + [n], index[n.state := |nodes|], open + [|nodes|];
    ArenaPush(nodes, index, start, h, Moves[k], n);
    OpenPush(nodes, open, n);
    ClosedPush(nodes, index, goal, open, h, n);
  }

  /** Appending a node to the arena and its index to the open list keeps the open list's indices distinct and in the arena. */
  lemma OpenPush(nodes: seq<Node>, open: seq<nat>, n: Node)
    requires OpenList(nodes, open)
    ensures OpenList(nodes + [n], open + [|nodes|])
  {
    assert |nodes| !in open;
    assert |nodes| !in multiset(open);
  }

  /** Appending a node to the arena and to the open list keeps every closed node expanded. */
  lemma ClosedPush(nodes: seq<Node>, index: map<State, nat>, goal: State, open: seq<nat>, h: nat, n: Node)
    requires Indexed(nodes, index) && n.state !in index
    requires forall i :: 0 <= i < |nodes| && i != h && i !in open ==> Expanded(nodes, index, i) && nodes[i].state != goal
    ensures forall i :: 0 <= i < |nodes| + 1 && i != h && i !in open + [|nodes|] ==>
      Expanded(nodes + [n], index[n.state := |nodes|], i) && (nodes + [n])[i].state != goal
  {
    var nodes', index', open' := nodes + [n], index[n.state := |nodes|], open + [|nodes|];
    forall i | 0 <= i < |nodes'| && i != h && i !in open' ensures Expanded(nodes', index', i) && nodes'[i].state != goal {
      assert i != |nodes| && i !in open;
      ExpandedPush(nodes, index, n, i, nodes', index');
    }
  }

  lemma ExpandEnds(nodes: seq<Node>, index: map<State, nat>, start: State, goal: State, open: seq<nat>, h: nat)
    requires Expanding(nodes, index, start, goal, open, h, 4)
    ensures Searching(nodes, index, start, goal, open)
  {
    forall m ensures Next(nodes[h].state, m).Some? ==> Next(nodes[h].state, m).value in index {
      MovesComplete(m);
    }
  }

  /** Once the open list is empty, no board outside the arena is reachable, so the goal is not reachable. */
  lemma Exhausted(nodes: seq<Node>, index: map<State, nat>, start: State, goal: State)
    requires Searching(nodes, index, start, goal, [])
    ensures forall ms :: Run(start, ms) != Some(goal)
  {
    forall i | 0 <= i < |nodes| ensures Expanded(nodes, index, i) {
      assert i !in [];
    }
    forall ms ensures Run(start, ms) != Some(goal) {
      ReachAll(nodes, index, start, ms);
    }
  }

  /** The arena indices `a` up to `b - 1`, in increasing order. */
  function Span(a: nat, b: nat): (r: seq<nat>)
    ensures |r| == if a <= b then b - a else 0
    ensures forall i :: 0 <= i < |r| ==> r[i] == a + i
    decreases b
  {
    if b <= a then [] else Span(a, b - 1) + [b - 1]
  }

  /**
    What the loop over the moves of node `h` has done once the first `k`
    have been tried: the new nodes and boards are the children of those
    moves, their indices follow the old open list in the order they were
    created, and the visited set has only grown, within the finite set of
    boards.
   */
  ghost predicate Tracked(nodes: seq<Node>, open: seq<nat>, visited: set<State>, start: State, h: nat, k: nat,
                    nodes': seq<Node>, open': seq<nat>, visited': set<State>) {
    h < |nodes| <= |nodes'| && k <= 4 &&
    Tried(nodes, visited, h, k, nodes', visited') && nodes'[h] == nodes[h] &&
    visited <= visited' <= Universe(start) && (visited' == visited ==> open' == open) &&
    open' == open + Span(|nodes|, |nodes'|)
  }

  lemma TrackedPushes(nodes: seq<Node>, open: seq<nat>, visited: set<State>, start: State, h: nat, k: nat,
                      nodes': seq<Node>, open': seq<nat>, visited': set<State>, n: Node)
    requires Tracked(nodes, open, visited, start, h, k, nodes', open', visited') && k < 4
    requires Next(nodes[h].state, Moves[k]) == Some(n.state) && n.state !in visited' && n.state in Universe(start)
    requires n == Node(n.state, Some(h), Some(Moves[k]), nodes[h].depth + 1, n.cost)
    ensures Tracked(nodes, open, visited, start, h, k + 1, nodes' + [n], open' + [|nodes'|], visited' + {n.state})
  {
    TriedPushes(nodes, visited, h, k, nodes', visited', n);
    assert Span(|nodes|, |nodes'| + 1) == Span(|nodes|, |nodes'|) + [|nodes'|];
  }

  /** The loop over the moves of node `h`, once the first `k` have been tried: the search invariant for node `h`, and what the loop has done. */
  ghost predicate Trying(nodes: seq<Node>, open: seq<nat>, visited: set<State>, start: State, goal: State, h: nat, k: nat,
                         nodes': seq<Node>, open': seq<nat>, visited': set<State>, index': map<State, nat>) {
    Expanding(nodes', index', start, goal, open', h, k) && visited' == index'.Keys &&
    Tracked(nodes, open, visited, start, h, k, nodes', open', visited')
  }

  /** A move that is blocked, or reaches a board already visited, changes nothing. */
  lemma TryingSkips(nodes: seq<Node>, open: seq<nat>, visited: set<State>, start: State, goal: State, h: nat, k: nat,
                    nodes': seq<Node>, open': seq<nat>, visited': set<State>, index': map<State, nat>)
    requires Trying(nodes, open, visited, start, goal, h, k, nodes', open', visited', index') && k < 4
    requires Next(nodes[h].state, Moves[k]).Some? ==> Next(nodes[h].state, Moves[k]).value in visited'
    ensures Trying(nodes, open, visited, start, goal, h, k + 1, nodes', open', visited', index')
  {
    ExpandSkips(nodes', index', start, goal, open', h, k);
    TriedSkips(nodes, visited, h, k, nodes', visited');
  }

  /** A move that reaches board `t`, not visited yet, marks it visited and appends its node to the arena and the open list. */
  lemma TryingPushes(nodes: seq<Node>, open: seq<nat>, visited: set<State>, start: State, goal: State, h: nat, k: nat,
                     nodes': seq<Node>, open': seq<nat>, visited': set<State>, index': map<State, nat>, t: State)
    requires Trying(nodes, open, visited, start, goal, h, k, nodes', open', visited', index') && k < 4
    requires Next(nodes[h].state, Moves[k]) == Some(t) && t !in visited'
    ensures Trying(nodes, open, visited, start, goal, h, k + 1,
                   nodes' + [Node(t, Some(h), Some(Moves[k]), nodes[h].depth + 1, Manhattan(t, goal))],
                   open' + [|nodes'|], visited' + {t}, index'[t := |nodes'|])
  {
    var child := Node(t, Some(h), Some(Moves[k]), nodes[h].depth + 1, Manhattan(t, goal));
    ExpandPushes(nodes', index', start, goal, open', h, k, child);
    InUniverse(start, t);
    TrackedPushes(nodes, open, visited, start, h, k, nodes', open', visited', child);
  }

  // ---------------------------------------------------------------------
  // The search

  /**
    The `for` loop of `greedy`: tries the four moves on node `h`, in order,
    and for each that leads to a board not yet visited marks the board
    visited and appends a child node, costed by `manhattanDistance`, to the
    arena and to the back of the open list. The error `moveTile` raises for
    a board without a blank is passed on.
   */
  method ExpandNode(nodes: seq<Node>, open: seq<nat>, visited: set<State>, ghost index: map<State, nat>,
                    start: State, goal: State, h: nat)
    returns (err: Option<Error>, nodes': seq<Node>, open': seq<nat>, visited': set<State>, ghost index': map<State, nat>)
    requires Expanding(nodes, index, start, goal, open, h, 0)
    requires visited == index.Keys && visited <= Universe(start)
    ensures err.Some? <==> 0 !in start
    ensures err.None? ==> Searching(nodes', index', start, goal, open')
    ensures err.None? ==> visited' == index'.Keys && visited <= visited' <= Universe(start)
    ensures err.None? && visited' == visited ==> open' == open
    ensures err.None? ==> Extends(nodes, nodes', h, Children(nodes[h].state, visited, Moves))
    ensures err.None? ==> visited' == visited + Boards(Children(nodes[h].state, visited, Moves))
    ensures err.None? ==> open' == open + Span(|nodes|, |nodes'|)
  {
    TreeTiles(nodes, start, h);
    TriedBegins(nodes, visited, h);
    var node := nodes[h];
    assert 0 in start <==> 0 in multiset(node.state);
    nodes', open', visited', index' := nodes, open, visited, index;
    for k := 0 to 4
      invariant Trying(nodes, open, visited, start, goal, h, k, nodes', open', visited', index')
      invariant k > 0 ==> 0 in start
    {
      var next := MoveTile(node.state, Moves[k]);
      match next {
        case Err(e) =>
          return Some(e), nodes', open', visited', index';
        case Ok(None) =>
          TryingSkips(nodes, open, visited, start, goal, h, k, nodes', open', visited', index');
        case Ok(Some(t)) =>
          NextOfStep(node.state, Moves[k], t);
          if t !in visited' {
            var cost := ManhattanDistance(t, goal);
            var child := Node(t, Some(h), Some(Moves[k]), node.depth + 1, cost);
            TryingPushes(nodes, open, visited, start, goal, h, k, nodes', open', visited', index', t);
            visited' := visited' + {t};
            index' := index'[t := |nodes'|];
            var last: nat := |nodes'|;
            open' := open' + [last];
            nodes' := nodes' + [child];
          } else {
            TryingSkips(nodes, open, visited, start, goal, h, k, nodes', open', visited', index');
          }
      }
    }
    ExpandEnds(nodes', index', start, goal, open', h);
    TriedEnds(nodes, visited, h, nodes', visited');
    err := None;
  }

  /**
    Searches greedily from `start` for `goal`, always expanding next the
    open node whose board is closest to the goal by Manhattan distance, and
    returns the moves that lead there, `None` when the open list runs
    empty, or the error `moveTile` raises when the boards have no blank.
    `tree` is the arena of every node the search created.
   */
  method Greedy(start: State, goal: State) returns (r: Result<Option<seq<Move>>>, ghost tree: seq<Node>)
    ensures r.Err? <==> start != goal && 0 !in start
    ensures start == goal ==> r == Ok(Some([]))
    ensures r.Ok? && r.value.Some? ==> Run(start, r.value.value) == Some(goal)
    ensures r.Ok? && r.value.Some? ==> Replay.Apply(start, r.value.value) == Ok(goal)
    ensures r.Ok? ==> (r.value.None? <==> forall ms :: Run(start, ms) != Some(goal))
    ensures Tree(tree, start) && Costed(tree, goal)
    ensures forall i, j :: 0 <= i < j < |tree| ==> tree[i].state != tree[j].state
  {
    var rootCost := ManhattanDistance(start, goal);
    var nodes := [Node(start, None, None, 0, rootCost)];
    var open: seq<nat> := [0];
    var visited: set<State> := {start};
    ghost var index: map<State, nat> := map[start := 0];
    InUniverse(start, start);
    SearchBegins(start, goal);
    while open != []
      invariant Searching(nodes, index, start, goal, open) && visited == index.Keys
      invariant visited <= Universe(start)
      invariant 0 in open || 0 in start
      invariant start == goal ==> |nodes| == 1
      decreases Universe(start) - visited, |open|
    {
      ghost var unsorted := open;
      SortKeepsSearching(nodes, index, start, goal, open);
      SortHead(nodes, open);
      open := SortByCost(nodes, open);
      var h := open[0];
      // the node taken is the first open node of least cost, in the list's order
      assert h == unsorted[FirstMin(nodes, unsorted)];
      assert forall q :: 0 <= q < |unsorted| ==> CostOf(nodes, open[0]) <= CostOf(nodes, unsorted[q]);
      if StatesEqual(nodes[h].state, goal) {
        var path := ReconstructPath(nodes, h);
        FoundPath(nodes, index, start, goal, h);
        IndexedDistinct(nodes, index);
        return Ok(Some(path)), nodes;
      }
      ExpandBegins(nodes, index, start, goal, open);
      open := open[1..];
      var err, nodes', open', visited';
      ghost var index';
      err, nodes', open', visited', index' := ExpandNode(nodes, open, visited, index, start, goal, h);
      if err.Some? {
        IndexedDistinct(nodes, index);
        return Err(err.value), nodes;
      }
      if visited' != visited {
        UnvisitedShrinks(start, visited, visited');
      }
      nodes, open, visited, index := nodes', open', visited', index';
    }
    Exhausted(nodes, index, start, goal);
    IndexedDistinct(nodes, index);
    return Ok(None), nodes;
  }
}
