/**
  Breadth-first search (puzzle.ts `bfs`, lines 93-114).

  Every node the search creates is appended to the arena and to the back of
  the queue at the same time, and `queue.shift()` takes the front, so the
  queue is always the suffix of the arena from index `head`; taking the
  front node is advancing `head`. The visited set holds the boards
  themselves, which is what the source's `JSON.stringify` keys stand for.
 */
module Bfs {
  import opened Board
  import opened Search
  import Replay

  /** Node depths never decrease along the arena, so the queue is ordered by depth. */
  predicate Layered(nodes: seq<Node>) {
    forall i, j :: 0 <= i < j < |nodes| ==> nodes[i].depth <= nodes[j].depth
  }

  /** The successor of node `i` by move `m`, if any, is in the arena at most one level below node `i`. */
  predicate SuccessorWithin(nodes: seq<Node>, index: map<State, nat>, i: nat, m: Move)
    requires i < |nodes|
  {
    Next(nodes[i].state, m).Some? ==>
      var t := Next(nodes[i].state, m).value;
      t in index && index[t] < |nodes| && nodes[index[t]].depth <= nodes[i].depth + 1
  }

  /** Node `i` has been expanded: all its successors are in the arena, at most one level below. */
  predicate ExpandedWithin(nodes: seq<Node>, index: map<State, nat>, i: nat)
    requires i < |nodes|
  {
    forall m :: SuccessorWithin(nodes, index, i, m)
  }

  /**
    A node shallower than the front of the queue (any node, once the queue
    is empty) has been expanded.
   */
  lemma ShallowExpanded(nodes: seq<Node>, index: map<State, nat>, head: nat, j: nat, m: Move)
    requires Layered(nodes) && head <= |nodes| && j < |nodes|
    requires forall i :: 0 <= i < head ==> ExpandedWithin(nodes, index, i)
    requires head == |nodes| || nodes[j].depth < nodes[head].depth
    ensures SuccessorWithin(nodes, index, j, m)
  {
    assert j < head;
    assert ExpandedWithin(nodes, index, j);
  }

  /**
    While the nodes before `head` are expanded and the queue is ordered by
    depth, any board reachable in no more moves than the depth of the front
    of the queue (any reachable board at all, once the queue is empty) is in
    the arena at a depth no greater than the number of moves.
   */
  lemma {:induction false} ReachWithin(nodes: seq<Node>, index: map<State, nat>, start: State, head: nat, ms: seq<Move>)
    requires Tree(nodes, start) && Indexed(nodes, index) && Layered(nodes) && head <= |nodes|
    requires forall i :: 0 <= i < head ==> ExpandedWithin(nodes, index, i)
    requires head == |nodes| || |ms| <= nodes[head].depth
    ensures Run(start, ms).Some? ==>
      Run(start, ms).value in index && nodes[index[Run(start, ms).value]].depth <= |ms|
    decreases |ms|
  {
    if ms != [] {
      var pre, m := ms[..|ms| - 1], ms[|ms| - 1];
      assert ms == pre + [m];
      RunSnoc(start, pre, m);
      ReachWithin(nodes, index, start, head, pre);
      var y := Run(start, pre);
      if y.Some? {
        var j := index[y.value];
        assert nodes[j].depth <= |pre| < |ms|;
        ShallowExpanded(nodes, index, head, j, m);
      }
    }
  }

  /** The board of a node taken from the front of the queue is reached by no path shorter than its depth. */
  lemma FoundShortest(nodes: seq<Node>, index: map<State, nat>, start: State, h: nat, ms: seq<Move>)
    requires Tree(nodes, start) && Indexed(nodes, index) && Layered(nodes) && h < |nodes|
    requires forall i :: 0 <= i < h ==> ExpandedWithin(nodes, index, i)
    requires Run(start, ms) == Some(nodes[h].state)
    ensures nodes[h].depth <= |ms|
  {
    if |ms| < nodes[h].depth {
      ReachWithin(nodes, index, start, h, ms);
    }
  }

  /** Once the queue is empty, no board outside the arena is reachable. */
  lemma NotFound(nodes: seq<Node>, index: map<State, nat>, start: State, goal: State, ms: seq<Move>)
    requires Tree(nodes, start) && Indexed(nodes, index) && Layered(nodes)
    requires forall i :: 0 <= i < |nodes| ==> ExpandedWithin(nodes, index, i)
    requires forall i :: 0 <= i < |nodes| ==> nodes[i].state != goal
    ensures Run(start, ms) != Some(goal)
  {
    ReachWithin(nodes, index, start, |nodes|, ms);
  }

  /** Appending a node for a new board keeps what was known about the successors of node `i`. */
  lemma SuccessorWithinPush(nodes: seq<Node>, index: map<State, nat>, n: Node, i: nat, m: Move)
    requires Indexed(nodes, index) && n.state !in index && i < |nodes|
    requires SuccessorWithin(nodes, index, i, m)
    ensures SuccessorWithin(nodes + [n], index[n.state := |nodes|], i, m)
  {
  }

  // ---------------------------------------------------------------------
  // The loop invariants of the search

  /** The search at the top of its main loop, once `head` nodes have left the queue. */
  predicate Searching(nodes: seq<Node>, index: map<State, nat>, start: State, goal: State, head: nat) {
    Tree(nodes, start) && Indexed(nodes, index) && Layered(nodes) && head <= |nodes| &&
    (head < |nodes| ==> nodes[|nodes| - 1].depth <= nodes[head].depth + 1) &&
    (forall i :: 0 <= i < head ==> ExpandedWithin(nodes, index, i)) &&
    (forall i :: 0 <= i < head ==> nodes[i].state != goal)
  }

  /** The search while node `h`, just taken from the queue, has been tried with the first `k` moves. */
  predicate Expanding(nodes: seq<Node>, index: map<State, nat>, start: State, goal: State, h: nat, k: nat) {
    Tree(nodes, start) && Indexed(nodes, index) && Layered(nodes) && h < |nodes| && k <= 4 &&
    (forall i :: 0 <= i < |nodes| ==> nodes[i].depth <= nodes[h].depth + 1) &&
    (forall i :: 0 <= i < h ==> ExpandedWithin(nodes, index, i)) &&
    (forall k' :: 0 <= k' < k ==> SuccessorWithin(nodes, index, h, Moves[k'])) &&
    (forall i :: 0 <= i <= h ==> nodes[i].state != goal)
  }

  lemma SearchBegins(start: State, goal: State)
    ensures Searching([Node(start, None, None, 0, 0)], map[start := 0], start, goal, 0)
  {
  }

  lemma ExpandBegins(nodes: seq<Node>, index: map<State, nat>, start: State, goal: State, h: nat)
    requires Searching(nodes, index, start, goal, h) && h < |nodes| && nodes[h].state != goal
    ensures Expanding(nodes, index, start, goal, h, 0)
  {
  }

  /** A move that is blocked, or leads to a board already visited, adds nothing. */
  lemma ExpandSkips(nodes: seq<Node>, index: map<State, nat>, start: State, goal: State, h: nat, k: nat)
    requires Expanding(nodes, index, start, goal, h, k) && k < 4
    requires Next(nodes[h].state, Moves[k]).Some? ==> Next(nodes[h].state, Moves[k]).value in index
    ensures Expanding(nodes, index, start, goal, h, k + 1)
  {
    assert SuccessorWithin(nodes, index, h, Moves[k]);
  }

  /** Appending a child of node `h` for a new board keeps the arena a layered, indexed search tree. */
  lemma ChildPush(nodes: seq<Node>, index: map<State, nat>, start: State, h: nat, m: Move, n: Node)
    requires Tree(nodes, start) && Indexed(nodes, index) && Layered(nodes) && h < |nodes|
    requires forall i :: 0 <= i < |nodes| ==> nodes[i].depth <= nodes[h].depth + 1
    requires Next(nodes[h].state, m) == Some(n.state) && n.state !in index
    requires n == Node(n.state, Some(h), Some(m), nodes[h].depth + 1, 0)
    ensures Tree(nodes + [n], start) && Indexed(nodes + [n], index[n.state := |nodes|])
    ensures Layered(nodes + [n])
    ensures forall i :: 0 <= i < |nodes| + 1 ==> (nodes + [n])[i].depth <= nodes[h].depth + 1
    ensures multiset(n.state) == multiset(start)
    ensures index[n.state := |nodes|].Keys == index.Keys + {n.state}
  {
    ArenaPush(nodes, index, start, h, m, n);
  }

  /** A move to a board not yet visited appends a child of node `h` one level deeper. */
  lemma ExpandPushes(nodes: seq<Node>, index: map<State, nat>, start: State, goal: State, h: nat, k: nat, n: Node)
    requires Expanding(nodes, index, start, goal, h, k) && k < 4
    requires Next(nodes[h].state, Moves[k]) == Some(n.state) && n.state !in index
    requires n == Node(n.state, Some(h), Some(Moves[k]), nodes[h].depth + 1, 0)
    ensures Expanding(nodes + [n], index[n.state := |nodes|], start, goal, h, k + 1)
    ensures multiset(n.state) == multiset(start)
    ensures index[n.state := |nodes|].Keys == index.Keys + {n.state}
  {
    ChildPush(nodes, index, start, h, Moves[k], n);
    ExpandedPush(nodes, index, n, h, nodes + [n], index[n.state := |nodes|]);
    TriedPush(nodes, index, n, h, k, nodes + [n], index[n.state := |nodes|]);
  }

  /** Appending a node for a new board keeps the nodes before `h` expanded. */
  lemma ExpandedPush(nodes: seq<Node>, index: map<State, nat>, n: Node, h: nat, nodes': seq<Node>, index': map<State, nat>)
    requires Indexed(nodes, index) && n.state !in index && h <= |nodes|
    requires nodes' == nodes + [n] && index' == index[n.state := |nodes|]
    requires forall i :: 0 <= i < h ==> ExpandedWithin(nodes, index, i)
    ensures forall i :: 0 <= i < h ==> ExpandedWithin(nodes', index', i)
  {
    forall i, m | 0 <= i < h ensures SuccessorWithin(nodes', index', i, m) {
      assert ExpandedWithin(nodes, index, i);
      SuccessorWithinPush(nodes, index, n, i, m);
    }
  }

  /** Appending the successor of node `h` by move `k` completes the first `k + 1` moves of node `h`. */
  lemma TriedPush(nodes: seq<Node>, index: map<State, nat>, n: Node, h: nat, k: nat, nodes': seq<Node>, index': map<State, nat>)
    requires Indexed(nodes, index) && n.state !in index && h < |nodes| && k < 4
    requires nodes' == nodes + [n] && index' == index[n.state := |nodes|]
    requires forall k' :: 0 <= k' < k ==> SuccessorWithin(nodes, index, h, Moves[k'])
    requires Next(nodes[h].state, Moves[k]) == Some(n.state) && n.depth == nodes[h].depth + 1
    ensures forall k' :: 0 <= k' < k + 1 ==> SuccessorWithin(nodes', index', h, Moves[k'])
  {
    forall k' | 0 <= k' < k ensures SuccessorWithin(nodes', index', h, Moves[k']) {
      SuccessorWithinPush(nodes, index, n, h, Moves[k']);
    }
  }

  lemma ExpandEnds(nodes: seq<Node>, index: map<State, nat>, start: State, goal: State, h: nat)
    requires Expanding(nodes, index, start, goal, h, 4)
    ensures Searching(nodes, index, start, goal, h + 1)
  {
    forall m ensures SuccessorWithin(nodes, index, h, m) {
      MovesComplete(m);
    }
  }

  /** The nodes from index `from` on carry cost 0: breadth-first search does not use costs. */
  predicate Uncosted(nodes: seq<Node>, from: nat) {
    forall i :: from <= i < |nodes| ==> nodes[i].cost == 0
  }

  lemma UncostedPush(nodes: seq<Node>, from: nat, n: Node)
    requires Uncosted(nodes, from) && n.cost == 0
    ensures Uncosted(nodes + [n], from)
  {
  }

  /**
    The loop over the moves of node `h`, once the first `k` have been tried:
    the search invariant for node `h`, the new nodes and boards are the
    children of those moves, and the visited set has only grown, within the
    finite set of boards.
   */
  ghost predicate Trying(nodes: seq<Node>, visited: set<State>, start: State, goal: State, h: nat, k: nat,
                         nodes': seq<Node>, visited': set<State>, index': map<State, nat>) {
    h < |nodes| && k <= 4 && Expanding(nodes', index', start, goal, h, k) && visited' == index'.Keys &&
    Tried(nodes, visited, h, k, nodes', visited') && nodes'[h] == nodes[h] &&
    visited <= visited' <= Universe(start) && (visited' == visited ==> nodes' == nodes) &&
    Uncosted(nodes', |nodes|)
  }

  /** A move that is blocked, or reaches a board already visited, changes nothing. */
  lemma TryingSkips(nodes: seq<Node>, visited: set<State>, start: State, goal: State, h: nat, k: nat,
                    nodes': seq<Node>, visited': set<State>, index': map<State, nat>)
    requires Trying(nodes, visited, start, goal, h, k, nodes', visited', index') && k < 4
    requires Next(nodes[h].state, Moves[k]).Some? ==> Next(nodes[h].state, Moves[k]).value in visited'
    ensures Trying(nodes, visited, start, goal, h, k + 1, nodes', visited', index')
  {
    ExpandSkips(nodes', index', start, goal, h, k);
    TriedSkips(nodes, visited, h, k, nodes', visited');
  }

  /** A move that reaches board `t`, not visited yet, marks it visited and appends its node. */
  lemma TryingPushes(nodes: seq<Node>, visited: set<State>, start: State, goal: State, h: nat, k: nat,
                     nodes': seq<Node>, visited': set<State>, index': map<State, nat>, t: State)
    requires Trying(nodes, visited, start, goal, h, k, nodes', visited', index') && k < 4
    requires Next(nodes[h].state, Moves[k]) == Some(t) && t !in visited'
    ensures Trying(nodes, visited, start, goal, h, k + 1,
                   nodes' + [Node(t, Some(h), Some(Moves[k]), nodes[h].depth + 1, 0)],
                   visited' + {t}, index'[t := |nodes'|])
  {
    var child := Node(t, Some(h), Some(Moves[k]), nodes[h].depth + 1, 0);
    ExpandPushes(nodes', index', start, goal, h, k, child);
    TriedPushes(nodes, visited, h, k, nodes', visited', child);
    UncostedPush(nodes', |nodes|, child);
    InUniverse(start, t);
  }

  // ---------------------------------------------------------------------
  // The search

  /**
    The `for` loop of `bfs`: tries the four moves on node `h`, in order, and
    for each that leads to a board not yet visited marks the board visited
    and appends a child node to the arena (and so to the queue). The error
    `moveTile` raises for a board without a blank is passed on.
   */
  method ExpandNode(nodes: seq<Node>, visited: set<State>, ghost index: map<State, nat>, start: State, goal: State, h: nat)
    returns (err: Option<Error>, nodes': seq<Node>, visited': set<State>, ghost index': map<State, nat>)
    requires Searching(nodes, index, start, goal, h) && h < |nodes| && nodes[h].state != goal
    requires visited == index.Keys && visited <= Universe(start)
    ensures err.Some? <==> 0 !in start
    ensures err.None? ==> Searching(nodes', index', start, goal, h + 1)
    ensures err.None? ==> visited' == index'.Keys && visited <= visited' <= Universe(start)
    ensures err.None? && visited' == visited ==> nodes' == nodes
    ensures err.None? ==> Extends(nodes, nodes', h, Children(nodes[h].state, visited, Moves))
    ensures err.None? ==> visited' == visited + Boards(Children(nodes[h].state, visited, Moves))
    ensures err.None? ==> Uncosted(nodes', |nodes|)
  {
    ExpandBegins(nodes, index, start, goal, h);
    TreeTiles(nodes, start, h);
    TriedBegins(nodes, visited, h);
    var node := nodes[h];
    assert 0 in start <==> 0 in multiset(node.state);
    nodes', visited', index' := nodes, visited, index;
    for k := 0 to 4
      invariant Trying(nodes, visited, start, goal, h, k, nodes', visited', index')
      invariant k > 0 ==> 0 in start
    {
      var next := MoveTile(node.state, Moves[k]);
      match next {
        case Err(e) =>
          return Some(e), nodes', visited', index';
        case Ok(None) =>
          TryingSkips(nodes, visited, start, goal, h, k, nodes', visited', index');
        case Ok(Some(t)) =>
          NextOfStep(node.state, Moves[k], t);
          if t !in visited' {
            var child := Node(t, Some(h), Some(Moves[k]), node.depth + 1, 0);
            TryingPushes(nodes, visited, start, goal, h, k, nodes', visited', index', t);
            visited' := visited' + {t};
            index' := index'[t := |nodes'|];
            nodes' := nodes' + [child];
          } else {
            TryingSkips(nodes, visited, start, goal, h, k, nodes', visited', index');
          }
      }
    }
    ExpandEnds(nodes', index', start, goal, h);
    TriedEnds(nodes, visited, h, nodes', visited');
    err := None;
  }

  /**
    Searches breadth-first from `start` for `goal` and returns the moves
    that lead there, `None` when the queue runs empty, or the error
    `moveTile` raises when the boards have no blank. `tree` is the arena of
    every node the search created.
   */
  method Bfs(start: State, goal: State) returns (r: Result<Option<seq<Move>>>, ghost tree: seq<Node>)
    ensures r.Err? <==> start != goal && 0 !in start
    ensures start == goal ==> r == Ok(Some([]))
    ensures r.Ok? && r.value.Some? ==> Run(start, r.value.value) == Some(goal)
    ensures r.Ok? && r.value.Some? ==> Replay.Apply(start, r.value.value) == Ok(goal)
    ensures r.Ok? && r.value.Some? ==>
      forall ms :: Run(start, ms) == Some(goal) ==> |r.value.value| <= |ms|
    ensures r.Ok? ==> (r.value.None? <==> forall ms :: Run(start, ms) != Some(goal))
    ensures Tree(tree, start) && Layered(tree)
    ensures forall i, j :: 0 <= i < j < |tree| ==> tree[i].state != tree[j].state
  {
    var nodes := [Node(start, None, None, 0, 0)];
    var visited: set<State> := {start};
    ghost var index: map<State, nat> := map[start := 0];
    var head := 0;
    InUniverse(start, start);
    SearchBegins(start, goal);
    while head < |nodes|
      invariant Searching(nodes, index, start, goal, head) && visited == index.Keys
      invariant head > 0 ==> 0 in start
      invariant visited <= Universe(start)
      decreases Universe(start) - visited, |nodes| - head
    {
      var h := head;
      var node := nodes[h];
      head := head + 1;
      if StatesEqual(node.state, goal) {
        var path := ReconstructPath(nodes, h);
        PathReaches(nodes, start, h);
        Replay.RunApply(start, path);
        forall ms | Run(start, ms) == Some(goal) ensures |path| <= |ms| {
          FoundShortest(nodes, index, start, h, ms);
        }
        IndexedDistinct(nodes, index);
        return Ok(Some(path)), nodes;
      }
      var err, nodes', visited';
      ghost var index';
      err, nodes', visited', index' := ExpandNode(nodes, visited, index, start, goal, h);
      if err.Some? {
        IndexedDistinct(nodes, index);
        return Err(err.value), nodes;
      }
      if visited' != visited {
        UnvisitedShrinks(start, visited, visited');
      }
      nodes, visited, index := nodes', visited', index';
    }
    forall ms ensures Run(start, ms) != Some(goal) {
      NotFound(nodes, index, start, goal, ms);
    }
    IndexedDistinct(nodes, index);
    return Ok(None), nodes;
  }
}
