/** The search engine on values: a snapshot `Engine` of every node's scores, link and wall flag
    together with `openSet`, `closedSet`, `path`, `startNode`, `endNode` and `isRunning`
    (AStarVisualization.kt:19-24). `StepSpec` (:122-155), `StartSpec` (:109-120) and `WallEdit`
    (:48-56) map the snapshot before an operation to the snapshot after it. `PathFrom` (:82-89)
    maps a snapshot and a node to the node list `reconstructPath` collects. `IsReset` (:64-80) is a
    predicate on one snapshot: the state `reset` leaves. The class in module AStar is proved to
    follow these definitions. */
module Search {
  import opened Seqs
  import opened Grid

  /** `heuristic(a, b)` as a function of the coordinates of `a` and `b`, supplied by the caller;
      it only has to be non-negative. */
  type Heuristic = f: (int, int, int, int) -> real | forall x1: int, y1: int, x2: int, y2: int :: f(x1, y1, x2, y2) >= 0.0
    witness (x1: int, y1: int, x2: int, y2: int) => 0.0

  /** The mutable part of one `Node`. */
  datatype Cell = Cell(g: nat, h: real, f: real, cameFrom: Node?, isWall: bool)

  /** A node as constructed or reset. */
  const Blank: Cell := Cell(0, 0.0, 0.0, null, false)

  datatype Engine = Engine(
    cells: map<Node, Cell>,
    openSet: seq<Node>,
    closedSet: seq<Node>,
    path: seq<Node>,
    startNode: Node?,
    endNode: Node?,
    isRunning: bool)

  ghost function CellOf(n: Node): Cell
    reads n
  {
    Cell(n.gScore, n.hScore, n.fScore, n.cameFrom, n.isWall)
  }

  // ---------------------------------------------------------------------------------------------
  // The invariant

  /** The snapshot has a cell for exactly the grid's nodes. */
  ghost predicate CoversGrid(grid: seq<seq<Node>>, e: Engine) {
    GridShape(grid) &&
    (forall n :: n in e.cells ==> InGrid(grid, n)) &&
    (forall i, j :: 0 <= i < N && 0 <= j < N ==> grid[i][j] in e.cells)
  }

  /** Every node the engine refers to is a grid node, and every grid node has a cell. */
  ghost predicate WellFormed(grid: seq<seq<Node>>, e: Engine) {
    CoversGrid(grid, e) &&
    (forall n :: n in e.openSet ==> n in e.cells) &&
    (forall n :: n in e.closedSet ==> n in e.cells) &&
    (e.startNode != null ==> e.startNode in e.cells) &&
    (e.endNode != null ==> e.endNode in e.cells)
  }

  /** `n` is the start node, or its predecessor is an expanded node next to it whose cost is one less. */
  ghost predicate Linked(e: Engine, n: Node)
    requires n in e.cells
  {
    n == e.startNode ||
    (var p := e.cells[n].cameFrom;
     p != null && p in e.closedSet && p in e.cells && Adjacent(p, n) && e.cells[n].g == e.cells[p].g + 1)
  }

  /** The predecessor links of the current run: they lead from every open or closed node, through
      closed nodes whose cost drops by one at each link, to the start node (cost 0, no predecessor). */
  ghost predicate Chained(e: Engine) {
    (forall n :: n in e.openSet ==> n in e.cells) &&
    (forall n :: n in e.closedSet ==> n in e.cells) &&
    (e.startNode != null ==>
      e.startNode in e.cells && e.cells[e.startNode].cameFrom == null && e.cells[e.startNode].g == 0) &&
    (forall n :: n in e.openSet ==> Linked(e, n)) &&
    (forall n :: n in e.closedSet ==> Linked(e, n))
  }

  /** Neither list repeats a node, and no node is both open and closed. */
  ghost predicate ListsApart(e: Engine) {
    NoDup(e.openSet) && NoDup(e.closedSet) && (forall n :: n in e.openSet ==> n !in e.closedSet)
  }

  /** Neither the start node nor the end node is a wall. */
  ghost predicate EndsClear(e: Engine)
    requires e.startNode != null ==> e.startNode in e.cells
    requires e.endNode != null ==> e.endNode in e.cells
  {
    (e.startNode != null ==> !e.cells[e.startNode].isWall) &&
    (e.endNode != null ==> !e.cells[e.endNode].isWall)
  }

  /** While a run is on, both end points are set, the start node has been expanded (or is the only
      open node, just before the first step), and no wall is open or closed. */
  ghost predicate RunOk(e: Engine)
    requires forall n :: n in e.openSet ==> n in e.cells
    requires forall n :: n in e.closedSet ==> n in e.cells
  {
    e.isRunning ==>
      e.startNode != null && e.endNode != null &&
      (e.startNode in e.closedSet || (e.openSet == [e.startNode] && e.closedSet == [])) &&
      (forall n :: n in e.openSet ==> !e.cells[n].isWall) &&
      (forall n :: n in e.closedSet ==> !e.cells[n].isWall)
  }

  /** What holds in every state the engine reaches. */
  ghost predicate Consistent(grid: seq<seq<Node>>, e: Engine) {
    WellFormed(grid, e) && Chained(e) && ListsApart(e) && EndsClear(e) && RunOk(e)
  }

  // ---------------------------------------------------------------------------------------------
  // reconstructPath

  /** `reconstructPath(n)`: `n`, its predecessor, that one's predecessor, ... up to the node without one. */
  ghost function PathFrom(e: Engine, n: Node): (p: seq<Node>)
    requires Chained(e) && (n in e.openSet || n in e.closedSet)
    ensures |p| == e.cells[n].g + 1 && p[0] == n
    decreases e.cells[n].g
  {
    var from := e.cells[n].cameFrom;
    if from == null then [n] else [n] + PathFrom(e, from)
  }

  /** The path runs from `n` to the start node along predecessor links between adjacent cells, one
      cost unit per link, and every node on it after `n` has been expanded. */
  lemma {:induction false} PathShape(e: Engine, n: Node)
    requires Chained(e) && (n in e.openSet || n in e.closedSet)
    ensures var p := PathFrom(e, n);
      |p| == e.cells[n].g + 1 && p[0] == n && p[|p| - 1] == e.startNode &&
      (forall i :: 0 <= i < |p| ==> p[i] in e.cells && e.cells[p[i]].g == |p| - 1 - i) &&
      (forall i :: 0 < i < |p| ==> p[i] in e.closedSet) &&
      (forall i :: 0 <= i < |p| - 1 ==> e.cells[p[i]].cameFrom == p[i + 1] && Adjacent(p[i + 1], p[i])) &&
      e.cells[p[|p| - 1]].cameFrom == null
    decreases e.cells[n].g
  {
    var from := e.cells[n].cameFrom;
    if from != null {
      PathShape(e, from);
      var q := PathFrom(e, from);
      assert PathFrom(e, n) == [n] + q;
    }
  }

  /** One link of the walk `reconstructPath` makes: the predecessor of an open or closed node is
      absent or an expanded node of smaller cost, and the path goes on from it. */
  lemma PathLink(e: Engine, n: Node)
    requires Chained(e) && (n in e.openSet || n in e.closedSet)
    ensures var from := e.cells[n].cameFrom;
      (from == null ==> PathFrom(e, n) == [n]) &&
      (from != null ==> from in e.closedSet && e.cells[from].g < e.cells[n].g && PathFrom(e, n) == [n] + PathFrom(e, from))
  {
    assert Linked(e, n);
  }

  /** No node occurs twice on a reconstructed path. */
  lemma PathNoDup(e: Engine, n: Node)
    requires Chained(e) && (n in e.openSet || n in e.closedSet)
    ensures NoDup(PathFrom(e, n))
  {
    PathShape(e, n);
    var p := PathFrom(e, n);
    forall i, j | 0 <= i < j < |p| ensures p[i] != p[j] {
      assert e.cells[p[i]].g != e.cells[p[j]].g;
    }
  }

  // ---------------------------------------------------------------------------------------------
  // step

  ghost function FScoresOf(e: Engine): (fs: seq<real>)
    requires forall n :: n in e.openSet ==> n in e.cells
    ensures |fs| == |e.openSet| && forall i :: 0 <= i < |fs| ==> fs[i] == e.cells[e.openSet[i]].f
  {
    seq(|e.openSet|, i requires 0 <= i < |e.openSet| => e.cells[e.openSet[i]].f)
  }

  /** Position in `openSet` of the node `minByOrNull { it.fScore }` returns: it has the least
      `fScore`, and every node before it has a strictly greater one. */
  ghost function SelectedIndex(e: Engine): (k: nat)
    requires (forall n :: n in e.openSet ==> n in e.cells) && e.openSet != []
    ensures k < |e.openSet|
    ensures forall j :: 0 <= j < |e.openSet| ==> e.cells[e.openSet[k]].f <= e.cells[e.openSet[j]].f
    ensures forall j :: 0 <= j < k ==> e.cells[e.openSet[k]].f < e.cells[e.openSet[j]].f
  {
    var k := FirstMinIndex(FScoresOf(e));
    assert IsFirstMin(FScoresOf(e), k);
    k
  }

  /** `openSet.remove` and `closedSet.add` at :132-133: `current` leaves `openSet` and is appended to `closedSet`. */
  ghost function Closing(e: Engine, c: Node): (r: Engine)
    ensures r.cells == e.cells && r.path == e.path && r.isRunning == e.isRunning
    ensures r.startNode == e.startNode && r.endNode == e.endNode
    ensures r.closedSet == e.closedSet + [c]
    ensures c in e.openSet ==> |r.openSet| == |e.openSet| - 1
  {
    e.(openSet := RemoveFirst(e.openSet, c), closedSet := e.closedSet + [c])
  }

  /** The loop body at :137-142 updates neighbour `n` of `c`: `n` is neither closed nor a wall, and
      going through `c` is strictly cheaper or `n` is not yet open. */
  ghost predicate Relaxes(e: Engine, c: Node, n: Node)
    requires n in e.cells && c in e.cells
  {
    n !in e.closedSet && !e.cells[n].isWall && (e.cells[c].g + 1 < e.cells[n].g || n !in e.openSet)
  }

  /** The cell of `n` after the update at :143-146. */
  ghost function Relaxed(h: Heuristic, e: Engine, c: Node, n: Node): (r: Cell)
    requires n in e.cells && c in e.cells && e.endNode != null
  {
    var g := e.cells[c].g + 1;
    var hv := h(n.x, n.y, e.endNode.x, e.endNode.y);
    e.cells[n].(g := g, h := hv, f := g as real + hv, cameFrom := c)
  }

  /** Neighbour `n` is new to the search: not closed, not a wall and not yet open. */
  ghost predicate IsNew(e: Engine, n: Node)
    requires n in e.cells
  {
    n !in e.closedSet && !e.cells[n].isWall && n !in e.openSet
  }

  /** One iteration of the neighbour loop (:137-151). */
  ghost function RelaxOne(h: Heuristic, e: Engine, c: Node, n: Node): (r: Engine)
    requires n in e.cells && c in e.cells && e.endNode != null
    ensures r.openSet == e.openSet + if IsNew(e, n) then [n] else []
    ensures r.cells.Keys == e.cells.Keys
    ensures r.closedSet == e.closedSet && r.path == e.path && r.isRunning == e.isRunning
    ensures r.startNode == e.startNode && r.endNode == e.endNode
  {
    if Relaxes(e, c, n) then
      e.(cells := e.cells[n := Relaxed(h, e, c, n)],
         openSet := if n in e.openSet then e.openSet else e.openSet + [n])
    else e
  }

  /** The neighbour loop (:136-152): the neighbours of `c` in list order. */
  ghost function RelaxAll(h: Heuristic, e: Engine, c: Node, ns: seq<Node>): (r: Engine)
    requires c in e.cells && e.endNode != null && forall n :: n in ns ==> n in e.cells
    ensures r.cells.Keys == e.cells.Keys
    ensures r.closedSet == e.closedSet && r.path == e.path && r.isRunning == e.isRunning
    ensures r.startNode == e.startNode && r.endNode == e.endNode
    decreases ns
  {
    if ns == [] then e else RelaxAll(h, RelaxOne(h, e, c, ns[0]), c, ns[1..])
  }

  /** `step` (:122-155). */
  ghost function StepSpec(grid: seq<seq<Node>>, h: Heuristic, e: Engine): (r: Engine)
    requires Consistent(grid, e)
    ensures r.cells.Keys == e.cells.Keys && r.startNode == e.startNode && r.endNode == e.endNode
    ensures e.openSet == [] || !e.isRunning ==> r == e
  {
    if e.openSet == [] || !e.isRunning then e
    else
      var c := e.openSet[SelectedIndex(e)];
      if c == e.endNode then e.(path := PathFrom(e, c), isRunning := false)
      else RelaxAll(h, Closing(e, c), c, FindNeighbors(grid, c))
  }

  /** The neighbours a relaxation loop appends to `openSet`: those neither closed, nor walls, nor open. */
  ghost function Fresh(e: Engine, ns: seq<Node>): (r: seq<Node>)
    requires forall n :: n in ns ==> n in e.cells
  {
    if ns == [] then [] else (if IsNew(e, ns[0]) then [ns[0]] else []) + Fresh(e, ns[1..])
  }

  /** The appended nodes are exactly the listed neighbours that are neither closed, nor walls, nor open. */
  lemma {:induction false} FreshMembers(e: Engine, ns: seq<Node>)
    requires forall n :: n in ns ==> n in e.cells
    ensures forall n :: n in Fresh(e, ns) <==> n in ns && IsNew(e, n)
  {
    if ns != [] {
      FreshMembers(e, ns[1..]);
      assert forall n :: n in ns <==> n == ns[0] || n in ns[1..];
    }
  }

  lemma {:induction false} FreshAgree(e1: Engine, e2: Engine, ns: seq<Node>)
    requires forall n :: n in ns ==> n in e1.cells && n in e2.cells
    requires forall n :: n in ns ==>
      (n in e1.closedSet <==> n in e2.closedSet) && (n in e1.openSet <==> n in e2.openSet) &&
      e1.cells[n].isWall == e2.cells[n].isWall
    ensures Fresh(e1, ns) == Fresh(e2, ns)
  {
    if ns != [] {
      FreshAgree(e1, e2, ns[1..]);
    }
  }

  /** Relaxing `n` leaves the inputs of every other neighbour's decision as they were. */
  lemma RelaxOneAgree(h: Heuristic, e: Engine, c: Node, n: Node, m: Node)
    requires n in e.cells && c in e.cells && m in e.cells && e.endNode != null && n != c && n != m
    ensures var e2 := RelaxOne(h, e, c, n);
      e2.cells[m] == e.cells[m] && e2.cells[c] == e.cells[c] && (m in e2.openSet <==> m in e.openSet) &&
      Relaxes(e2, c, m) == Relaxes(e, c, m) && Relaxed(h, e2, c, m) == Relaxed(h, e, c, m)
  {
  }

  /** The relaxation loop appends the new neighbours to `openSet` in list order. */
  lemma {:induction false} RelaxAllOpen(h: Heuristic, e: Engine, c: Node, ns: seq<Node>)
    requires c in e.cells && e.endNode != null && forall n :: n in ns ==> n in e.cells
    requires NoDup(ns) && c !in ns
    ensures RelaxAll(h, e, c, ns).openSet == e.openSet + Fresh(e, ns)
    decreases ns
  {
    if ns != [] {
      var n, rest := ns[0], ns[1..];
      var e2 := RelaxOne(h, e, c, n);
      TailNoDup(ns);
      RelaxAllOpen(h, e2, c, rest);
      forall m | m in rest
        ensures (m in e2.closedSet <==> m in e.closedSet) && (m in e2.openSet <==> m in e.openSet)
        ensures e2.cells[m].isWall == e.cells[m].isWall
      {
        RelaxOneAgree(h, e, c, n, m);
      }
      FreshAgree(e2, e, rest);
      var added := if IsNew(e, n) then [n] else [];
      assert Fresh(e, ns) == added + Fresh(e, rest);
      assert e.openSet + added + Fresh(e, rest) == e.openSet + (added + Fresh(e, rest));
    }
  }

  /** The relaxation loop in closed form: each listed neighbour that `Relaxes` gets its `Relaxed` cell,
      and every other cell is untouched. */
  lemma {:induction false} RelaxAllCells(h: Heuristic, e: Engine, c: Node, ns: seq<Node>)
    requires c in e.cells && e.endNode != null && forall n :: n in ns ==> n in e.cells
    requires NoDup(ns) && c !in ns
    ensures forall m :: m in e.cells ==>
      RelaxAll(h, e, c, ns).cells[m] == if m in ns && Relaxes(e, c, m) then Relaxed(h, e, c, m) else e.cells[m]
    decreases ns
  {
    if ns != [] {
      var n, rest := ns[0], ns[1..];
      var e2 := RelaxOne(h, e, c, n);
      TailNoDup(ns);
      RelaxAllCells(h, e2, c, rest);
      var r := RelaxAll(h, e2, c, rest);
      assert RelaxAll(h, e, c, ns) == r;
      forall m | m in e.cells
        ensures r.cells[m] == if m in ns && Relaxes(e, c, m) then Relaxed(h, e, c, m) else e.cells[m]
      {
        if m != n {
          RelaxOneAgree(h, e, c, n, m);
        }
      }
    }
  }

  // ---------------------------------------------------------------------------------------------
  // The invariant is preserved by step

  lemma ClosingConsistent(grid: seq<seq<Node>>, e: Engine, c: Node)
    requires Consistent(grid, e) && e.isRunning && c in e.openSet
    ensures var r := Closing(e, c);
      Consistent(grid, r) && c in r.closedSet && r.startNode in r.closedSet
  {
    var r := Closing(e, c);
    RemoveFirstMembers(e.openSet, c);
    assert forall n :: n in r.openSet <==> n in e.openSet && n != c;
    assert forall n :: n in r.closedSet <==> n in e.closedSet || n == c;
    assert WellFormed(grid, r);
    assert ListsApart(r) by {
      forall i, j | 0 <= i < j < |r.closedSet| ensures r.closedSet[i] != r.closedSet[j] {
        if j == |e.closedSet| {
          assert r.closedSet[i] == e.closedSet[i];
        } else {
          assert r.closedSet[i] == e.closedSet[i] && r.closedSet[j] == e.closedSet[j];
        }
      }
    }
    assert Chained(r) by {
      forall n | n in r.openSet ensures Linked(r, n) {
        assert Linked(e, n);
      }
      forall n | n in r.closedSet ensures Linked(r, n) {
        assert Linked(e, n);
      }
    }
    assert RunOk(r) by {
      if e.startNode !in e.closedSet {
        assert c == e.startNode;
      }
    }
  }

  lemma RelaxOneConsistent(grid: seq<seq<Node>>, h: Heuristic, e: Engine, c: Node, n: Node)
    requires Consistent(grid, e) && e.isRunning && c in e.closedSet && e.startNode in e.closedSet
    requires n in e.cells && Adjacent(c, n)
    ensures Consistent(grid, RelaxOne(h, e, c, n))
  {
    if Relaxes(e, c, n) {
      var r := RelaxOne(h, e, c, n);
      assert n != c && n != e.startNode;
      assert forall m :: m in r.openSet <==> m in e.openSet || m == n;
      assert NoDup(r.openSet) by {
        if n !in e.openSet {
          forall i, j | 0 <= i < j < |r.openSet| ensures r.openSet[i] != r.openSet[j] {
            if j == |e.openSet| {
              assert r.openSet[i] == e.openSet[i];
            } else {
              assert r.openSet[i] == e.openSet[i] && r.openSet[j] == e.openSet[j];
            }
          }
        }
      }
      forall m | m in r.openSet || m in r.closedSet ensures Linked(r, m) {
        if m != n {
          assert Linked(e, m);
        }
      }
    }
  }

  lemma {:induction false} RelaxAllConsistent(grid: seq<seq<Node>>, h: Heuristic, e: Engine, c: Node, ns: seq<Node>)
    requires Consistent(grid, e) && e.isRunning && c in e.closedSet && e.startNode in e.closedSet
    requires forall n :: n in ns ==> n in e.cells && Adjacent(c, n)
    ensures Consistent(grid, RelaxAll(h, e, c, ns))
    decreases ns
  {
    if ns != [] {
      RelaxOneConsistent(grid, h, e, c, ns[0]);
      RelaxAllConsistent(grid, h, RelaxOne(h, e, c, ns[0]), c, ns[1..]);
    }
  }

  /** `step` keeps the invariant. */
  lemma StepConsistent(grid: seq<seq<Node>>, h: Heuristic, e: Engine)
    requires Consistent(grid, e)
    ensures Consistent(grid, StepSpec(grid, h, e))
  {
    if e.openSet != [] && e.isRunning {
      var c := e.openSet[SelectedIndex(e)];
      if c != e.endNode {
        ClosingConsistent(grid, e, c);
        RelaxAllConsistent(grid, h, Closing(e, c), c, FindNeighbors(grid, c));
      }
    }
  }

  /** Stepping when the frontier is empty or no run is on changes nothing. */
  lemma StepIdle(grid: seq<seq<Node>>, h: Heuristic, e: Engine)
    requires Consistent(grid, e) && (e.openSet == [] || !e.isRunning)
    ensures StepSpec(grid, h, e) == e
  {
  }

  /** When the selected node is the end node, `step` only rebuilds `path` (from the end node back to
      the start node, through adjacent non-wall cells, one cost unit per link, no node twice) and
      stops the run; stepping again then changes nothing. */
  lemma StepReachesGoal(grid: seq<seq<Node>>, h: Heuristic, e: Engine)
    requires Consistent(grid, e) && e.isRunning && e.openSet != []
    requires e.openSet[SelectedIndex(e)] == e.endNode
    ensures var r := StepSpec(grid, h, e);
      var p := r.path;
      !r.isRunning && r.openSet == e.openSet && r.closedSet == e.closedSet && r.cells == e.cells &&
      r.startNode == e.startNode && r.endNode == e.endNode &&
      |p| == e.cells[e.endNode].g + 1 && p[0] == e.endNode && p[|p| - 1] == e.startNode &&
      (forall i :: 0 <= i < |p| ==> p[i] in e.cells && !e.cells[p[i]].isWall) &&
      (forall i :: 0 <= i < |p| - 1 ==> e.cells[p[i]].cameFrom == p[i + 1] && Adjacent(p[i + 1], p[i])) &&
      e.cells[p[|p| - 1]].cameFrom == null && NoDup(p) &&
      StepSpec(grid, h, r) == r
  {
    var c := e.openSet[SelectedIndex(e)];
    PathShape(e, c);
    PathNoDup(e, c);
    StepConsistent(grid, h, e);
  }

  /** The two branches of `StepSpec` taken when a run is on and the frontier is not empty. */
  lemma StepUnfold(grid: seq<seq<Node>>, h: Heuristic, e: Engine)
    requires Consistent(grid, e) && e.isRunning && e.openSet != []
    ensures var c := e.openSet[SelectedIndex(e)];
      StepSpec(grid, h, e) ==
        if c == e.endNode then e.(path := PathFrom(e, c), isRunning := false)
        else RelaxAll(h, Closing(e, c), c, FindNeighbors(grid, c))
  {
  }

  /** What expanding the selected node needs: it is a grid node with a cell, so are its neighbours,
      and the end node is set. */
  lemma ExpandReady(grid: seq<seq<Node>>, e: Engine)
    requires Consistent(grid, e) && e.isRunning && e.openSet != []
    ensures var c := e.openSet[SelectedIndex(e)];
      InGrid(grid, c) && c in e.cells && e.endNode != null &&
      forall n :: n in FindNeighbors(grid, c) ==> n in e.cells
  {
    var c := e.openSet[SelectedIndex(e)];
    forall n | n in FindNeighbors(grid, c) ensures n in e.cells {
      NeighborsComplete(grid, c, n.x, n.y);
    }
  }

  /** When the selected node `c` is not the end node, `step` moves `c` from `openSet` to `closedSet`;
      among `c`'s neighbours, exactly those that are not closed, not walls, and either new or reached
      more cheaply through `c` get cost `g(c) + 1`, a fresh heuristic value, `f = g + h` and predecessor
      `c`; the new ones are appended to `openSet` in neighbour order; no other cell changes, and the
      lists stay duplicate-free and disjoint. */
  lemma StepExpands(grid: seq<seq<Node>>, h: Heuristic, e: Engine)
    requires Consistent(grid, e) && e.isRunning && e.openSet != []
    requires e.openSet[SelectedIndex(e)] != e.endNode
    ensures var c := e.openSet[SelectedIndex(e)];
      var ns := FindNeighbors(grid, c);
      var r := StepSpec(grid, h, e);
      r.closedSet == e.closedSet + [c] &&
      r.openSet == RemoveFirst(e.openSet, c) + Fresh(e, ns) &&
      r.path == e.path && r.isRunning && r.startNode == e.startNode && r.endNode == e.endNode &&
      r.cells.Keys == e.cells.Keys &&
      (forall n :: n in e.cells ==>
        r.cells[n] == if n in ns && Relaxes(e, c, n) then Relaxed(h, e, c, n) else e.cells[n]) &&
      ListsApart(r)
  {
    var c := e.openSet[SelectedIndex(e)];
    var ns := FindNeighbors(grid, c);
    var e1 := Closing(e, c);
    ClosingConsistent(grid, e, c);
    NeighborsOrdered(grid, c);
    RelaxAllOpen(h, e1, c, ns);
    RelaxAllCells(h, e1, c, ns);
    ClosingAgree(h, e, c, ns);
    StepConsistent(grid, h, e);
    assert StepSpec(grid, h, e) == RelaxAll(h, e1, c, ns);
  }

  /** Closing `c` does not change how any other node is relaxed. */
  lemma ClosingAgree(h: Heuristic, e: Engine, c: Node, ns: seq<Node>)
    requires c in e.cells && e.endNode != null && forall n :: n in ns ==> n in e.cells
    requires NoDup(e.openSet) && c !in ns
    ensures Fresh(Closing(e, c), ns) == Fresh(e, ns)
    ensures forall n :: n in ns ==>
      Relaxes(Closing(e, c), c, n) == Relaxes(e, c, n) && Relaxed(h, Closing(e, c), c, n) == Relaxed(h, e, c, n)
  {
    var e1 := Closing(e, c);
    RemoveFirstMembers(e.openSet, c);
    forall n | n in ns
      ensures (n in e1.closedSet <==> n in e.closedSet) && (n in e1.openSet <==> n in e.openSet)
    {
    }
    FreshAgree(e1, e, ns);
  }

  // ---------------------------------------------------------------------------------------------
  // startAlgorithm

  /** :112-117: the lists are cleared, `openSet` holds just the start node, and the run is on.
      The cells are left as they were. */
  ghost function Started(e: Engine): (r: Engine)
    requires e.startNode != null
    ensures r.cells == e.cells && r.startNode == e.startNode && r.endNode == e.endNode
    ensures r.isRunning && |r.openSet| == 1 && r.openSet[0] == e.startNode && r.closedSet == [] && r.path == []
  {
    e.(openSet := [e.startNode], closedSet := [], path := [], isRunning := true)
  }

  lemma StartedConsistent(grid: seq<seq<Node>>, e: Engine)
    requires Consistent(grid, e) && e.startNode != null && e.endNode != null
    ensures Consistent(grid, Started(e))
  {
  }

  /** `startAlgorithm` (:109-120): nothing if an end point is unset, else set up the run and step once. */
  ghost function StartSpec(grid: seq<seq<Node>>, h: Heuristic, e: Engine): (r: Engine)
    requires Consistent(grid, e)
    ensures r.cells.Keys == e.cells.Keys && r.startNode == e.startNode && r.endNode == e.endNode
    ensures e.startNode == null || e.endNode == null ==> r == e
  {
    if e.startNode == null || e.endNode == null then e
    else
      StartedConsistent(grid, e);
      StepSpec(grid, h, Started(e))
  }

  /** `startAlgorithm` keeps the invariant. */
  lemma StartConsistent(grid: seq<seq<Node>>, h: Heuristic, e: Engine)
    requires Consistent(grid, e)
    ensures Consistent(grid, StartSpec(grid, h, e))
  {
    if e.startNode != null && e.endNode != null {
      StartedConsistent(grid, e);
      StepConsistent(grid, h, Started(e));
    }
  }

  /** With distinct end points, a start expands the start node: it is the only closed node, the open
      nodes are exactly its non-wall neighbours, each at cost 1 with the start node as predecessor,
      and every other cell keeps whatever it held before, stale values of an earlier run included. */
  lemma StartExpandsStart(grid: seq<seq<Node>>, h: Heuristic, e: Engine)
    requires Consistent(grid, e) && e.startNode != null && e.endNode != null && e.startNode != e.endNode
    ensures var s := e.startNode;
      var ns := FindNeighbors(grid, s);
      var r := StartSpec(grid, h, e);
      r.isRunning && r.path == [] && r.closedSet == [s] && NoDup(r.openSet) &&
      (forall n :: n in r.openSet <==> n in ns && !e.cells[n].isWall) &&
      (forall n :: n in r.openSet ==> n in r.cells && r.cells[n].g == 1 && r.cells[n].cameFrom == s) &&
      (forall n :: n in e.cells && n !in r.openSet ==> n in r.cells && r.cells[n] == e.cells[n])
  {
    var s := e.startNode;
    StartUnfold(grid, h, e);
    var e1 := Closing(Started(e), s);
    var ns := FindNeighbors(grid, s);
    NeighborsOrdered(grid, s);
    SetupExpands(h, e1, s, ns);
  }

  /** Expanding `s` when it is the only closed node and nothing is open: exactly the non-wall
      neighbours are opened, each at cost `g(s) + 1` with predecessor `s`; no other cell changes. */
  lemma SetupExpands(h: Heuristic, e: Engine, s: Node, ns: seq<Node>)
    requires s in e.cells && e.endNode != null && forall n :: n in ns ==> n in e.cells
    requires NoDup(ns) && s !in ns && e.openSet == [] && e.closedSet == [s]
    ensures var r := RelaxAll(h, e, s, ns);
      NoDup(r.openSet) &&
      (forall n :: n in r.openSet <==> n in ns && !e.cells[n].isWall) &&
      (forall n :: n in r.openSet ==> n in r.cells && r.cells[n].g == e.cells[s].g + 1 && r.cells[n].cameFrom == s) &&
      (forall n :: n in e.cells && n !in r.openSet ==> n in r.cells && r.cells[n] == e.cells[n])
  {
    var r := RelaxAll(h, e, s, ns);
    SetupOpen(h, e, s, ns);
    SetupCells(h, e, s, ns);
    forall n | n in r.openSet ensures n in r.cells && r.cells[n].g == e.cells[s].g + 1 && r.cells[n].cameFrom == s {
      SetupOpened(h, e, s, ns, n);
    }
    forall n | n in e.cells && n !in r.openSet ensures n in r.cells && r.cells[n] == e.cells[n] {
      assert !(n in ns && !e.cells[n].isWall);
    }
  }

  /** From the set-up state, an opened node is a relaxed neighbour. */
  lemma SetupOpened(h: Heuristic, e: Engine, s: Node, ns: seq<Node>, n: Node)
    requires s in e.cells && e.endNode != null && forall n :: n in ns ==> n in e.cells
    requires NoDup(ns) && s !in ns && e.openSet == [] && e.closedSet == [s]
    requires n in RelaxAll(h, e, s, ns).openSet
    ensures n in ns && n in RelaxAll(h, e, s, ns).cells && RelaxAll(h, e, s, ns).cells[n] == Relaxed(h, e, s, n)
  {
    SetupOpen(h, e, s, ns);
    SetupCells(h, e, s, ns);
  }

  /** The appended neighbours of a duplicate-free neighbour list are duplicate-free. */
  lemma {:induction false} FreshNoDup(e: Engine, ns: seq<Node>)
    requires NoDup(ns) && forall n :: n in ns ==> n in e.cells
    ensures NoDup(Fresh(e, ns))
  {
    if ns != [] {
      TailNoDup(ns);
      FreshNoDup(e, ns[1..]);
      FreshMembers(e, ns[1..]);
      if IsNew(e, ns[0]) {
        ConsNoDup(ns[0], Fresh(e, ns[1..]));
      }
    }
  }

  /** From the set-up state, the opened neighbours are exactly those that are not walls. */
  lemma SetupOpen(h: Heuristic, e: Engine, s: Node, ns: seq<Node>)
    requires s in e.cells && e.endNode != null && forall n :: n in ns ==> n in e.cells
    requires NoDup(ns) && s !in ns && e.openSet == [] && e.closedSet == [s]
    ensures var r := RelaxAll(h, e, s, ns);
      NoDup(r.openSet) && forall n :: n in r.openSet <==> n in ns && !e.cells[n].isWall
  {
    RelaxAllOpen(h, e, s, ns);
    assert RelaxAll(h, e, s, ns).openSet == Fresh(e, ns);
    FreshNoDup(e, ns);
    FreshMembers(e, ns);
  }

  /** From the set-up state, exactly the non-wall neighbours get their relaxed cells. */
  lemma SetupCells(h: Heuristic, e: Engine, s: Node, ns: seq<Node>)
    requires s in e.cells && e.endNode != null && forall n :: n in ns ==> n in e.cells
    requires NoDup(ns) && s !in ns && e.openSet == [] && e.closedSet == [s]
    ensures forall m :: m in e.cells ==>
      RelaxAll(h, e, s, ns).cells[m] == if m in ns && !e.cells[m].isWall then Relaxed(h, e, s, m) else e.cells[m]
  {
    RelaxAllCells(h, e, s, ns);
    forall m | m in ns ensures Relaxes(e, s, m) <==> !e.cells[m].isWall {
      assert m != s;
    }
  }

  /** With distinct end points, a start is the expansion of the start node from the set-up state,
      in which the start node is the only closed node and nothing is open. */
  lemma StartUnfold(grid: seq<seq<Node>>, h: Heuristic, e: Engine)
    requires Consistent(grid, e) && e.startNode != null && e.endNode != null && e.startNode != e.endNode
    ensures var s := e.startNode;
      var e1 := Closing(Started(e), s);
      e1.openSet == [] && e1.closedSet == [s] && e1.cells == e.cells && e1.startNode == s &&
      e1.isRunning && e1.endNode != null && s in e1.cells && InGrid(grid, s) &&
      (forall n :: n in FindNeighbors(grid, s) ==> n in e1.cells) &&
      StartSpec(grid, h, e) == RelaxAll(h, e1, s, FindNeighbors(grid, s))
  {
    var s := e.startNode;
    var e0 := Started(e);
    StartedConsistent(grid, e);
    assert e0.openSet[SelectedIndex(e0)] == s;
    ExpandReady(grid, e0);
    ClosingConsistent(grid, e0, s);
  }

  /** When the start node is the end node, a start finds it at once: the path is that single node. */
  lemma StartAtGoal(grid: seq<seq<Node>>, h: Heuristic, e: Engine)
    requires Consistent(grid, e) && e.startNode != null && e.startNode == e.endNode
    ensures var r := StartSpec(grid, h, e);
      r.path == [e.startNode] && !r.isRunning && r.openSet == [e.startNode] && r.closedSet == [] &&
      r.cells == e.cells
  {
    var e0 := Started(e);
    StartedConsistent(grid, e);
    assert e0.openSet[SelectedIndex(e0)] == e.startNode;
  }

  // ---------------------------------------------------------------------------------------------
  // The wall edit in mouseDragged

  /** :48-56, for the cell `(x, y)` under the pointer: while no run is on, a cell other than the start
      and end nodes becomes a wall, or stops being one when Ctrl is held. */
  ghost function WallEdit(grid: seq<seq<Node>>, e: Engine, x: int, y: int, controlDown: bool): (r: Engine)
    requires WellFormed(grid, e) && 0 <= x < N && 0 <= y < N
    ensures r.cells.Keys == e.cells.Keys
    ensures r.openSet == e.openSet && r.closedSet == e.closedSet && r.path == e.path
    ensures r.startNode == e.startNode && r.endNode == e.endNode && r.isRunning == e.isRunning
    ensures forall n :: n in e.cells && n != grid[x][y] ==> r.cells[n] == e.cells[n]
    ensures e.isRunning || grid[x][y] == e.startNode || grid[x][y] == e.endNode ==> r == e
    ensures !e.isRunning && grid[x][y] != e.startNode && grid[x][y] != e.endNode ==>
      r.cells[grid[x][y]] == e.cells[grid[x][y]].(isWall := !controlDown)
  {
    var it := grid[x][y];
    if e.isRunning || it == e.startNode || it == e.endNode then e
    else e.(cells := e.cells[it := e.cells[it].(isWall := !controlDown)])
  }

  /** A wall edit keeps the invariant. */
  lemma WallEditConsistent(grid: seq<seq<Node>>, e: Engine, x: int, y: int, controlDown: bool)
    requires Consistent(grid, e) && 0 <= x < N && 0 <= y < N
    ensures Consistent(grid, WallEdit(grid, e, x, y, controlDown))
  {
    var r := WallEdit(grid, e, x, y, controlDown);
    forall n | n in r.openSet ensures Linked(r, n) {
      assert Linked(e, n);
    }
    forall n | n in r.closedSet ensures Linked(r, n) {
      assert Linked(e, n);
    }
  }

  // ---------------------------------------------------------------------------------------------
  // reset

  /** The state `reset` (:64-80) leaves, and the one the constructor builds: empty lists, no run,
      end points at the two opposite corners, every cell blank. */
  ghost predicate IsReset(grid: seq<seq<Node>>, e: Engine)
    requires GridShape(grid)
    ensures IsReset(grid, e) ==>
      e.startNode != e.endNode && e.startNode != null && e.endNode != null &&
      e.startNode.x == 0 && e.startNode.y == 0 && e.endNode.x == N - 1 && e.endNode.y == N - 1
  {
    (forall n :: n in e.cells ==> e.cells[n] == Blank) &&
    e.openSet == [] && e.closedSet == [] && e.path == [] &&
    e.startNode == grid[0][0] && e.endNode == grid[N - 1][N - 1] && !e.isRunning
  }

  /** A reset state satisfies the invariant, and its end points differ. */
  lemma ResetConsistent(grid: seq<seq<Node>>, e: Engine)
    requires CoversGrid(grid, e) && IsReset(grid, e)
    ensures Consistent(grid, e) && e.startNode != e.endNode
  {
    assert e.startNode in e.cells && e.endNode in e.cells;
  }
}
