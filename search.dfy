/**
  What the two searches of puzzle.ts share: the search node, the parent
  chain that `reconstructPath` walks back (lines 58-66), the search tree the
  nodes form, the children an expansion creates, and the finite set of boards
  that bounds every search.

  The source links nodes by object reference; here the nodes live in an
  arena `seq<Node>` in the order they were created, and a parent is the
  index of the parent node in that arena.
 */
module Search {
  import opened Board
  import Replay

  /** A search node (puzzle.ts `Node`, lines 4-10); `parent` is an arena index. */
  datatype Node = Node(state: State, parent: Option<nat>, move: Option<Move>, depth: nat, cost: int)

  /** The order in which both searches try the moves. */
  const Moves: seq<Move> := [Up, Down, Left, Right]

  lemma MovesComplete(m: Move)
    ensures exists k :: 0 <= k < 4 && Moves[k] == m
  {
    match m
    case Up => assert Moves[0] == m;
    case Down => assert Moves[1] == m;
    case Left => assert Moves[2] == m;
    case Right => assert Moves[3] == m;
  }

  // ---------------------------------------------------------------------
  // The parent chain

  /** Every parent was created before its child, so parent chains end. */
  predicate Linked(nodes: seq<Node>) {
    forall i :: 0 <= i < |nodes| && nodes[i].parent.Some? ==> nodes[i].parent.value < i
  }

  /** The moves along the parent chain of node `i`, root first, as `reconstructPath` collects them. */
  function PathTo(nodes: seq<Node>, i: nat): seq<Move>
    requires Linked(nodes) && i < |nodes|
    decreases i
  {
    match nodes[i].move
    case None => []
    case Some(m) =>
      match nodes[i].parent
      case None => [m]
      case Some(p) => PathTo(nodes, p) + [m]
  }

  /** Walks from node `i` up its parent chain, prepending each move (puzzle.ts `reconstructPath`). */
  method ReconstructPath(nodes: seq<Node>, i: nat) returns (path: seq<Move>)
    requires Linked(nodes) && i < |nodes|
    ensures path == PathTo(nodes, i)
  {
    path := [];
    var current: Option<nat> := Some(i);
    while current.Some? && nodes[current.value].move.Some?
      invariant current.Some? ==> current.value < |nodes|
      invariant PathTo(nodes, i) == (if current.Some? then PathTo(nodes, current.value) else []) + path
      decreases if current.Some? then current.value + 1 else 0
    {
      var c := current.value;
      path := [nodes[c].move.value] + path;
      current := nodes[c].parent;
    }
  }

  // ---------------------------------------------------------------------
  // The search tree

  /** Node `i` is one legal move from its parent, one level deeper. */
  predicate ChildOf(nodes: seq<Node>, i: nat)
    requires Linked(nodes) && i < |nodes|
  {
    nodes[i].parent.Some? && nodes[i].move.Some? &&
    var p := nodes[i].parent.value;
    nodes[i].depth == nodes[p].depth + 1 &&
    Next(nodes[p].state, nodes[i].move.value) == Some(nodes[i].state)
  }

  /**
    The arena is a search tree rooted at `start`: node 0 is the root, with
    no parent, no move and depth 0, and every other node is a child of an
    earlier node.
   */
  predicate Tree(nodes: seq<Node>, start: State) {
    Linked(nodes) &&
    |nodes| > 0 && nodes[0].state == start && nodes[0].parent.None? &&
    nodes[0].move.None? && nodes[0].depth == 0 &&
    forall i :: 0 < i < |nodes| ==> ChildOf(nodes, i)
  }

  /**
    The path `reconstructPath` returns for a node leads from the start to
    that node's board by legal moves, and is as long as the node is deep.
   */
  lemma {:induction false} PathReaches(nodes: seq<Node>, start: State, i: nat)
    requires Tree(nodes, start) && i < |nodes|
    ensures Run(start, PathTo(nodes, i)) == Some(nodes[i].state)
    ensures |PathTo(nodes, i)| == nodes[i].depth
    decreases i
  {
    if i > 0 {
      assert ChildOf(nodes, i);
      var p := nodes[i].parent.value;
      var m := nodes[i].move.value;
      PathReaches(nodes, start, p);
      assert PathTo(nodes, i) == PathTo(nodes, p) + [m];
      RunSnoc(start, PathTo(nodes, p), m);
    }
  }

  /** Every board of the tree holds the tiles of the start board. */
  lemma TreeTiles(nodes: seq<Node>, start: State, i: nat)
    requires Tree(nodes, start) && i < |nodes|
    ensures multiset(nodes[i].state) == multiset(start)
  {
    PathReaches(nodes, start, i);
    RunKeepsTiles(start, PathTo(nodes, i));
  }

  /** Adding a child of node `p` reached by move `m` keeps the arena a search tree. */
  lemma TreePush(nodes: seq<Node>, start: State, p: nat, m: Move, t: State, c: int)
    requires Tree(nodes, start) && p < |nodes| && Next(nodes[p].state, m) == Some(t)
    ensures Tree(nodes + [Node(t, Some(p), Some(m), nodes[p].depth + 1, c)], start)
  {
    var nodes' := nodes + [Node(t, Some(p), Some(m), nodes[p].depth + 1, c)];
    forall i | 0 < i < |nodes'| ensures ChildOf(nodes', i) {
      if i < |nodes| {
        assert ChildOf(nodes, i);
      }
    }
  }

  // ---------------------------------------------------------------------
  // The visited set

  /**
    `index` maps each visited board to the one node that holds it: the
    visited boards are exactly the boards of the arena, and no board is in
    the arena twice.
   */
  predicate Indexed(nodes: seq<Node>, index: map<State, nat>) {
    (forall v :: v in index ==> index[v] < |nodes| && nodes[index[v]].state == v) &&
    (forall i :: 0 <= i < |nodes| ==> nodes[i].state in index && index[nodes[i].state] == i)
  }

  /** No board is held by two nodes. */
  lemma IndexedDistinct(nodes: seq<Node>, index: map<State, nat>)
    requires Indexed(nodes, index)
    ensures forall i, j :: 0 <= i < j < |nodes| ==> nodes[i].state != nodes[j].state
  {
  }

  /** Appending a node for a board not yet visited keeps the index exact. */
  lemma IndexedPush(nodes: seq<Node>, index: map<State, nat>, n: Node)
    requires Indexed(nodes, index) && n.state !in index
    ensures Indexed(nodes + [n], index[n.state := |nodes|])
  {
  }

  /**
    Appending a child of node `p` for a board not yet visited keeps the
    arena an indexed search tree whose boards hold the start's tiles.
   */
  lemma ArenaPush(nodes: seq<Node>, index: map<State, nat>, start: State, p: nat, m: Move, n: Node)
    requires Tree(nodes, start) && Indexed(nodes, index) && p < |nodes|
    requires Next(nodes[p].state, m) == Some(n.state) && n.state !in index
    requires n == Node(n.state, Some(p), Some(m), nodes[p].depth + 1, n.cost)
    ensures Tree(nodes + [n], start) && Indexed(nodes + [n], index[n.state := |nodes|])
    ensures multiset(n.state) == multiset(start)
    ensures index[n.state := |nodes|].Keys == index.Keys + {n.state}
  {
    TreePush(nodes, start, p, m, n.state, n.cost);
    TreeTiles(nodes + [n], start, |nodes|);
    IndexedPush(nodes, index, n);
  }

  /** All the successors of node `i` have been visited. */
  predicate Expanded(nodes: seq<Node>, index: map<State, nat>, i: nat)
    requires i < |nodes|
  {
    forall m :: Next(nodes[i].state, m).Some? ==> Next(nodes[i].state, m).value in index
  }

  /**
    Once every node of the arena is expanded, every board reachable from
    the start by legal moves has been visited.
   */
  lemma {:induction false} ReachAll(nodes: seq<Node>, index: map<State, nat>, start: State, ms: seq<Move>)
    requires Indexed(nodes, index) && start in index
    requires forall i :: 0 <= i < |nodes| ==> Expanded(nodes, index, i)
    ensures Run(start, ms).Some? ==> Run(start, ms).value in index
    decreases |ms|
  {
    if ms != [] {
      var pre, m := ms[..|ms| - 1], ms[|ms| - 1];
      assert ms == pre + [m];
      RunSnoc(start, pre, m);
      ReachAll(nodes, index, start, pre);
      if Run(start, pre).Some? {
        assert Expanded(nodes, index, index[Run(start, pre).value]);
      }
    }
  }

  /**
    The path `reconstructPath` returns for a node holding the goal leads
    from the start to the goal by legal moves, replays to the goal, and is
    empty when the start is the goal.
   */
  lemma FoundPath(nodes: seq<Node>, index: map<State, nat>, start: State, goal: State, h: nat)
    requires Tree(nodes, start) && Indexed(nodes, index) && h < |nodes| && nodes[h].state == goal
    ensures Run(start, PathTo(nodes, h)) == Some(goal)
    ensures Replay.Apply(start, PathTo(nodes, h)) == Ok(goal)
    ensures start == goal ==> PathTo(nodes, h) == []
  {
    PathReaches(nodes, start, h);
    Replay.RunApply(start, PathTo(nodes, h));
  }

  // ---------------------------------------------------------------------
  // Expanding a node

  /** The boards of `kids`. */
  function Boards(kids: seq<(State, Move)>): set<State> {
    set i | 0 <= i < |kids| :: kids[i].0
  }

  /**
    The children the loop over the moves `ms` creates for a node whose board
    is `s`, when the boards in `visited` have been visited: each board one
    legal move away that is not visited yet, with the move that reaches it,
    in the order of `ms`. A board created for an earlier move counts as
    visited.
   */
  function Children(s: State, visited: set<State>, ms: seq<Move>): seq<(State, Move)>
    decreases |ms|
  {
    if ms == [] then []
    else
      var kids := Children(s, visited, ms[..|ms| - 1]);
      var m := ms[|ms| - 1];
      match Next(s, m)
      case None => kids
      case Some(t) => if t in visited + Boards(kids) then kids else kids + [(t, m)]
  }

  /**
    The children are the boards one legal move away that were not visited,
    each once: every child is reached from `s` by its move and was not
    visited, no board is a child twice, and every board one of the moves
    reaches was visited or is a child.
   */
  lemma {:induction false} ChildrenSpec(s: State, visited: set<State>, ms: seq<Move>)
    ensures forall i :: 0 <= i < |Children(s, visited, ms)| ==>
      var (t, m) := Children(s, visited, ms)[i];
      m in ms && Next(s, m) == Some(t) && t !in visited
    ensures forall i, j :: 0 <= i < j < |Children(s, visited, ms)| ==>
      Children(s, visited, ms)[i].0 != Children(s, visited, ms)[j].0
    ensures forall m :: m in ms && Next(s, m).Some? ==>
      Next(s, m).value in visited + Boards(Children(s, visited, ms))
    decreases |ms|
  {
    if ms != [] {
      var pre := ms[..|ms| - 1];
      ChildrenSpec(s, visited, pre);
      assert ms == pre + [ms[|ms| - 1]];
      var kids := Children(s, visited, pre);
      var m := ms[|ms| - 1];
      if Next(s, m).Some? && Next(s, m).value !in visited + Boards(kids) {
        BoardsPush(kids, Next(s, m).value, m);
      }
    }
  }

  /** The last move adds at most one child, at the end. */
  lemma ChildrenLast(s: State, visited: set<State>, ms: seq<Move>)
    requires ms != []
    ensures var kids, m := Children(s, visited, ms[..|ms| - 1]), ms[|ms| - 1];
      Children(s, visited, ms) == kids || Children(s, visited, ms) == kids + [(Next(s, m).value, m)]
  {
  }

  /** The children come in the order of their moves in `ms`: Up, Down, Left, Right when `ms` is `Moves`. */
  lemma {:induction false} ChildrenOrder(s: State, visited: set<State>, ms: seq<Move>)
    ensures forall i, j :: 0 <= i < j < |Children(s, visited, ms)| ==>
      exists p, q :: 0 <= p < q < |ms| && ms[p] == Children(s, visited, ms)[i].1 && ms[q] == Children(s, visited, ms)[j].1
    decreases |ms|
  {
    if ms != [] {
      var pre := ms[..|ms| - 1];
      ChildrenOrder(s, visited, pre);
      ChildrenSpec(s, visited, pre);
      var kids := Children(s, visited, pre);
      var kids' := Children(s, visited, ms);
      ChildrenLast(s, visited, ms);
      forall i, j | 0 <= i < j < |kids'|
        ensures exists p, q :: 0 <= p < q < |ms| && ms[p] == kids'[i].1 && ms[q] == kids'[j].1
      {
        assert kids'[i] == kids[i];
        if j < |kids| {
          assert kids'[j] == kids[j];
          var p, q :| 0 <= p < q < |pre| && pre[p] == kids[i].1 && pre[q] == kids[j].1;
          assert ms[p] == pre[p] && ms[q] == pre[q];
        } else {
          assert kids'[j].1 == ms[|ms| - 1];
          assert kids[i].1 in pre;
          var p :| 0 <= p < |pre| && pre[p] == kids[i].1;
          assert ms[p] == pre[p];
        }
      }
      assert kids' == Children(s, visited, ms);
    } else {
      assert Children(s, visited, ms) == [];
    }
  }

  lemma BoardsPush(kids: seq<(State, Move)>, t: State, m: Move)
    ensures Boards(kids + [(t, m)]) == Boards(kids) + {t}
  {
    var kids' := kids + [(t, m)];
    assert kids'[|kids|].0 == t;
    forall u | u in Boards(kids) ensures u in Boards(kids') {
      var i :| 0 <= i < |kids| && kids[i].0 == u;
      assert kids'[i].0 == u;
    }
  }

  /** Trying one more move: it adds a child exactly when it reaches a board not visited yet. */
  lemma ChildrenStep(s: State, visited: set<State>, k: nat)
    requires k < |Moves|
    ensures Children(s, visited, Moves[..k + 1]) ==
      var kids := Children(s, visited, Moves[..k]);
      match Next(s, Moves[k])
      case None => kids
      case Some(t) => if t in visited + Boards(kids) then kids else kids + [(t, Moves[k])]
  {
    assert Moves[..k + 1][..k] == Moves[..k];
  }

  /** `nodes'` is `nodes` followed by one child of node `h` for each of `kids`, in order, one level below node `h`. */
  predicate Extends(nodes: seq<Node>, nodes': seq<Node>, h: nat, kids: seq<(State, Move)>)
    requires h < |nodes|
  {
    |nodes'| == |nodes| + |kids| && nodes'[..|nodes|] == nodes &&
    forall i :: 0 <= i < |kids| ==>
      nodes'[|nodes| + i].state == kids[i].0 && nodes'[|nodes| + i].parent == Some(h) &&
      nodes'[|nodes| + i].move == Some(kids[i].1) && nodes'[|nodes| + i].depth == nodes[h].depth + 1
  }

  lemma ExtendsPush(nodes: seq<Node>, nodes': seq<Node>, h: nat, kids: seq<(State, Move)>, t: State, m: Move, n: Node)
    requires h < |nodes| && Extends(nodes, nodes', h, kids)
    requires n == Node(t, Some(h), Some(m), nodes[h].depth + 1, n.cost)
    ensures Extends(nodes, nodes' + [n], h, kids + [(t, m)])
  {
    var nodes'', kids' := nodes' + [n], kids + [(t, m)];
    assert nodes''[..|nodes|] == nodes'[..|nodes|];
    forall i | 0 <= i < |kids'|
      ensures nodes''[|nodes| + i].state == kids'[i].0 && nodes''[|nodes| + i].parent == Some(h)
      ensures nodes''[|nodes| + i].move == Some(kids'[i].1) && nodes''[|nodes| + i].depth == nodes[h].depth + 1
    {
      if i < |kids| {
        assert nodes''[|nodes| + i] == nodes'[|nodes| + i] && kids'[i] == kids[i];
      } else {
        assert nodes''[|nodes| + i] == n && kids'[i] == (t, m);
      }
    }
  }

  /**
    After the first `k` moves have been tried on node `h`, the arena is the
    old arena followed by the children of those moves, and the visited set
    has grown by exactly their boards.
   */
  predicate Tried(nodes: seq<Node>, visited: set<State>, h: nat, k: nat, nodes': seq<Node>, visited': set<State>)
    requires h < |nodes| && k <= |Moves|
  {
    var kids := Children(nodes[h].state, visited, Moves[..k]);
    Extends(nodes, nodes', h, kids) && visited' == visited + Boards(kids)
  }

  lemma TriedBegins(nodes: seq<Node>, visited: set<State>, h: nat)
    requires h < |nodes|
    ensures Tried(nodes, visited, h, 0, nodes, visited)
  {
    assert nodes[..|nodes|] == nodes;
  }

  /** A move that is blocked, or reaches a board already visited, adds no child. */
  lemma TriedSkips(nodes: seq<Node>, visited: set<State>, h: nat, k: nat, nodes': seq<Node>, visited': set<State>)
    requires h < |nodes| && k < |Moves| && Tried(nodes, visited, h, k, nodes', visited')
    requires Next(nodes[h].state, Moves[k]).Some? ==> Next(nodes[h].state, Moves[k]).value in visited'
    ensures Tried(nodes, visited, h, k + 1, nodes', visited')
  {
    ChildrenStep(nodes[h].state, visited, k);
  }

  /** A move that reaches a board not visited yet appends its child and marks the board visited. */
  lemma TriedPushes(nodes: seq<Node>, visited: set<State>, h: nat, k: nat, nodes': seq<Node>, visited': set<State>, n: Node)
    requires h < |nodes| && k < |Moves| && Tried(nodes, visited, h, k, nodes', visited')
    requires Next(nodes[h].state, Moves[k]) == Some(n.state) && n.state !in visited'
    requires n == Node(n.state, Some(h), Some(Moves[k]), nodes[h].depth + 1, n.cost)
    ensures Tried(nodes, visited, h, k + 1, nodes' + [n], visited' + {n.state})
  {
    var kids := Children(nodes[h].state, visited, Moves[..k]);
    ChildrenStep(nodes[h].state, visited, k);
    BoardsPush(kids, n.state, Moves[k]);
    ExtendsPush(nodes, nodes', h, kids, n.state, Moves[k], n);
  }

  /** Once all four moves are tried, the arena has grown by the children of the node. */
  lemma TriedEnds(nodes: seq<Node>, visited: set<State>, h: nat, nodes': seq<Node>, visited': set<State>)
    requires h < |nodes| && Tried(nodes, visited, h, |Moves|, nodes', visited')
    ensures Extends(nodes, nodes', h, Children(nodes[h].state, visited, Moves))
    ensures visited' == visited + Boards(Children(nodes[h].state, visited, Moves))
  {
    assert Moves[..|Moves|] == Moves;
  }

  // ---------------------------------------------------------------------
  // The finite set of boards

  /** The sequences of `W`, each extended by `v`. */
  ghost function Appended(W: set<seq<int>>, v: int): set<seq<int>> {
    set w | w in W :: w + [v]
  }

  /** The sequences of `W`, each extended by each of `vals`. */
  ghost function ExtendAll(W: set<seq<int>>, vals: seq<int>): set<seq<int>> {
    if vals == [] then {} else Appended(W, vals[0]) + ExtendAll(W, vals[1..])
  }

  lemma {:induction false} InExtendAll(W: set<seq<int>>, vals: seq<int>, w: seq<int>, v: int)
    requires w in W && v in vals
    ensures w + [v] in ExtendAll(W, vals)
    decreases vals
  {
    if v != vals[0] {
      InExtendAll(W, vals[1..], w, v);
    }
  }

  /** The sequences of length `n` over the values of `vals`. */
  ghost function Words(vals: seq<int>, n: nat): set<seq<int>> {
    if n == 0 then {[]} else ExtendAll(Words(vals, n - 1), vals)
  }

  lemma {:induction false} InWords(vals: seq<int>, w: seq<int>)
    requires forall i :: 0 <= i < |w| ==> w[i] in vals
    ensures w in Words(vals, |w|)
    decreases |w|
  {
    if |w| > 0 {
      var pre := w[..|w| - 1];
      InWords(vals, pre);
      assert w == pre + [w[|w| - 1]];
      InExtendAll(Words(vals, |pre|), vals, pre, w[|w| - 1]);
    }
  }

  /** The boards made of the values of `start`: a finite set holding every board a search visits. */
  ghost function Universe(start: State): set<State> {
    set w: State | w in Words(start, 9)
  }

  /** Visiting more boards of the finite set leaves fewer unvisited. */
  lemma UnvisitedShrinks(start: State, visited: set<State>, visited': set<State>)
    requires visited <= visited' <= Universe(start) && visited' != visited
    ensures Universe(start) - visited' < Universe(start) - visited
  {
    var t :| t in visited' && t !in visited;
    assert t in Universe(start) - visited;
  }

  lemma InUniverse(start: State, t: State)
    requires multiset(t) == multiset(start)
    ensures t in Universe(start)
  {
    forall i | 0 <= i < 9 ensures t[i] in start {
      assert t[i] in multiset(t);
    }
    InWords(start, t);
  }
}
