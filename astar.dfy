/** The engine object itself (AStarVisualization.kt:10-155): the grid, the two lists, the path,
    the end points and the running flag, and the operations that update them in place.
    `Step`, `StartAlgorithm`, `MouseDragged`, `Expand`, `RelaxNeighbors` and `RelaxNeighbor` are
    proved to leave the snapshot `State()` that the matching definition of module Search computes
    from the snapshot before it. `ReconstructPath` is proved to leave `path` equal to `PathFrom` of
    the old snapshot; `ReachGoal` sets `path` so and clears `isRunning`, and changes nothing else.
    The constructor and `Reset` are proved to leave a state satisfying `IsReset`, whatever the state
    was before. The constructor and `Reset` establish the invariant `Valid()`; `Step`,
    `StartAlgorithm` and `MouseDragged` keep it. */
module AStar {
  import opened Seqs
  import opened Grid
  import opened Search

  /** The scores of a list of nodes, in list order. */
  function FScores(ns: seq<Node>): (fs: seq<real>)
    reads set n | n in ns
    ensures |fs| == |ns| && forall i :: 0 <= i < |ns| ==> fs[i] == ns[i].fScore
  {
    if ns == [] then [] else [ns[0].fScore] + FScores(ns[1..])
  }

  class AStarVisualization {
    /** The distance estimate `heuristic` (:91-93), as a function of the two nodes' coordinates. */
    const heuristic: Heuristic
    /** `grid` (:14-18): written once, its nodes then updated in place. */
    const grid: seq<seq<Node>>
    /** The nodes of `grid`. */
    ghost const Nodes: set<Node>

    var openSet: seq<Node>
    var closedSet: seq<Node>
    var startNode: Node?
    var endNode: Node?
    var path: seq<Node>
    var isRunning: bool

    /** The nodes' mutable fields as a value. */
    ghost function Cells(): map<Node, Cell>
      reads Nodes
    {
      map n | n in Nodes :: CellOf(n)
    }

    /** The engine as a value. */
    ghost function State(): Engine
      reads this, Nodes
    {
      Engine(Cells(), openSet, closedSet, path, startNode, endNode, isRunning)
    }

    /** The grid has the shape `Node` coordinates promise and `Nodes` holds exactly its nodes. */
    ghost predicate Shaped() {
      GridShape(grid) &&
      (forall n :: n in Nodes ==> InGrid(grid, n)) &&
      (forall i, j :: 0 <= i < N && 0 <= j < N ==> grid[i][j] in Nodes)
    }

    ghost predicate Valid()
      reads this, Nodes
    {
      Shaped() && Consistent(grid, State())
    }

    /** The initialisers at :14-24: a fresh N by N grid of blank nodes, empty lists, end points at
        the two opposite corners, no run. */
    constructor (h: Heuristic)
      ensures heuristic == h && fresh(Nodes)
      ensures Valid() && IsReset(grid, State())
    {
      var rows: seq<seq<Node>> := [];
      ghost var ns: set<Node> := {};
      var i := 0;
      while i < N
        invariant 0 <= i <= N && |rows| == i
        invariant forall a :: 0 <= a < i ==> |rows[a]| == N
        invariant forall a, b :: 0 <= a < i && 0 <= b < N ==>
          rows[a][b].x == a && rows[a][b].y == b && rows[a][b] in ns
        invariant forall n :: n in ns ==> 0 <= n.x < i && 0 <= n.y < N && rows[n.x][n.y] == n
        invariant forall n :: n in ns ==> fresh(n) && CellOf(n) == Blank
      {
        var row: seq<Node> := [];
        var j := 0;
        while j < N
          invariant 0 <= j <= N && |row| == j
          invariant forall b :: 0 <= b < j ==> row[b].x == i && row[b].y == b && row[b] in ns
          invariant forall n :: n in ns ==>
            (0 <= n.x < i && 0 <= n.y < N && rows[n.x][n.y] == n) || (n.x == i && 0 <= n.y < j && row[n.y] == n)
          invariant forall a, b :: 0 <= a < i && 0 <= b < N ==> rows[a][b] in ns
          invariant forall n :: n in ns ==> fresh(n) && CellOf(n) == Blank
        {
          var node := new Node(i, j);
          row := row + [node];
          ns := ns + {node};
          j := j + 1;
        }
        rows := rows + [row];
        i := i + 1;
      }
      heuristic := h;
      grid := rows;
      Nodes := ns;
      openSet := [];
      closedSet := [];
      startNode := rows[0][0];
      endNode := rows[N - 1][N - 1];
      path := [];
      isRunning := false;
      new;
      ResetConsistent(grid, State());
    }

    /** `reset` (:64-80): empty the lists, reset every node, put the end points back at the corners
        and stop the run. */
    method Reset()
      requires Shaped()
      modifies this, Nodes
      ensures Valid() && IsReset(grid, State())
    {
      openSet := [];
      closedSet := [];
      path := [];
      for i := 0 to N
        invariant openSet == [] && closedSet == [] && path == []
        invariant forall a, b :: 0 <= a < i && 0 <= b < N ==> CellOf(grid[a][b]) == Blank
      {
        for j := 0 to N
          invariant openSet == [] && closedSet == [] && path == []
          invariant forall a, b :: (0 <= a < i && 0 <= b < N) || (a == i && 0 <= b < j) ==>
            CellOf(grid[a][b]) == Blank
        {
          grid[i][j].Reset();
        }
      }
      startNode := grid[0][0];
      endNode := grid[N - 1][N - 1];
      isRunning := false;
      assert CoversGrid(grid, State());
      ResetConsistent(grid, State());
    }

    /** `reconstructPath` (:82-89): follow the predecessor links from `current` into `path`. */
    method ReconstructPath(current: Node)
      requires Chained(State()) && (current in openSet || current in closedSet)
      modifies this`path
      ensures path == PathFrom(old(State()), current)
    {
      ghost var s := State();
      ghost var p := PathFrom(s, current);
      PathShape(s, current);
      var nodes: seq<Node> := [];
      var node: Node? := current;
      while node != null
        invariant |nodes| <= |p| && nodes == p[..|nodes|]
        invariant node == if |nodes| < |p| then p[|nodes|] else null
        decreases |p| - |nodes|
      {
        assert s.cells[node] == CellOf(node);
        var from := node.cameFrom;
        assert p[..|nodes| + 1] == nodes + [node];
        nodes := nodes + [node];
        node := from;
      }
      path := nodes;
    }

    /** `step` (:122-155): expand the first open node of least `fScore`, or rebuild the path and stop
        when that node is the end node; nothing when the frontier is empty or no run is on. */
    method Step()
      requires Valid()
      modifies this, Nodes
      ensures Valid() && State() == StepSpec(grid, heuristic, old(State()))
    {
      ghost var s := State();
      if openSet != [] && isRunning {
        assert FScores(openSet) == FScoresOf(s);
        var k := FirstMinIndex(FScores(openSet));
        assert k == SelectedIndex(s);
        var currentNode := openSet[k];
        StepUnfold(grid, heuristic, s);
        if currentNode == endNode {
          ReachGoal(currentNode);
          StepConsistent(grid, heuristic, s);
          return;
        }
        ExpandReady(grid, s);
        Expand(currentNode);
      }
      StepConsistent(grid, heuristic, s);
    }

    /** The goal branch of `step` (:126-131): rebuild the path from `currentNode` and stop the run. */
    method ReachGoal(currentNode: Node)
      requires Chained(State()) && currentNode in openSet
      modifies this`path, this`isRunning
      ensures State() == old(State()).(path := PathFrom(old(State()), currentNode), isRunning := false)
    {
      ReconstructPath(currentNode);
      isRunning := false;
    }

    /** The expanding half of `step` (:133-152): move `currentNode` from `openSet` to `closedSet`, then
        relax its neighbours. */
    method Expand(currentNode: Node)
      requires GridShape(grid) && InGrid(grid, currentNode) && endNode != null
      requires forall i, j :: 0 <= i < N && 0 <= j < N ==> grid[i][j] in Nodes
      modifies this`openSet, this`closedSet, Nodes
      ensures State() == RelaxAll(heuristic, Closing(old(State()), currentNode), currentNode, FindNeighbors(grid, currentNode))
    {
      ghost var s := State();
      openSet := RemoveFirst(openSet, currentNode);
      closedSet := closedSet + [currentNode];
      assert Cells() == s.cells;
      assert State() == Closing(s, currentNode);
      var neighbors := FindNeighbors(grid, currentNode);
      NeighborsOrdered(grid, currentNode);
      assert forall n :: n in neighbors ==> grid[n.x][n.y] == n;
      RelaxNeighbors(currentNode, neighbors);
    }

    /** The neighbour loop of `step` (:136-152), over the neighbours of `currentNode` in list order. */
    method RelaxNeighbors(currentNode: Node, neighbors: seq<Node>)
      requires currentNode in Nodes && endNode != null
      requires forall n :: n in neighbors ==> n in Nodes && n != currentNode
      modifies this`openSet, Nodes
      ensures State() == RelaxAll(heuristic, old(State()), currentNode, neighbors)
    {
      for i := 0 to |neighbors|
        invariant RelaxAll(heuristic, State(), currentNode, neighbors[i..]) == RelaxAll(heuristic, old(State()), currentNode, neighbors)
      {
        RelaxNeighbor(currentNode, neighbors[i]);
        assert neighbors[i..] == [neighbors[i]] + neighbors[i + 1..];
      }
      assert neighbors[|neighbors|..] == [];
    }

    /** One pass of the neighbour loop of `step` (:137-151): update `neighbor` of `currentNode` when it is
        neither closed nor a wall and going through `currentNode` is cheaper or it is not yet open,
        and append it to `openSet` when it is not there yet. */
    method RelaxNeighbor(currentNode: Node, neighbor: Node)
      requires currentNode in Nodes && neighbor in Nodes && neighbor != currentNode && endNode != null
      modifies this`openSet, neighbor
      ensures State() == RelaxOne(heuristic, old(State()), currentNode, neighbor)
    {
      ghost var s := State();
      if neighbor !in closedSet && !neighbor.isWall {
        var tentativeGScore := currentNode.gScore + 1;
        var betterPath := tentativeGScore < neighbor.gScore;
        if betterPath || neighbor !in openSet {
          neighbor.gScore := tentativeGScore;
          neighbor.hScore := heuristic(neighbor.x, neighbor.y, endNode.x, endNode.y);
          neighbor.fScore := neighbor.gScore as real + neighbor.hScore;
          neighbor.cameFrom := currentNode;
          if neighbor !in openSet {
            openSet := openSet + [neighbor];
          }
        }
      }
      ghost var r := RelaxOne(heuristic, s, currentNode, neighbor);
      assert State().cells == r.cells by {
        forall n | n in Nodes ensures CellOf(n) == r.cells[n] {
        }
      }
    }

    /** `startAlgorithm` (:109-120). */
    method StartAlgorithm()
      requires Valid()
      modifies this, Nodes
      ensures Valid() && State() == StartSpec(grid, heuristic, old(State()))
    {
      if startNode == null || endNode == null {
        return;
      }
      openSet := [];
      closedSet := [];
      path := [];
      openSet := openSet + [startNode];
      isRunning := true;
      assert State() == Started(old(State()));
      StartedConsistent(grid, old(State()));
      Step();
    }

    /** The wall edit of `mouseDragged` (:48-56) on the cell `(x, y)` under the pointer. */
    method MouseDragged(x: int, y: int, controlDown: bool)
      requires Valid() && 0 <= x < N && 0 <= y < N
      modifies grid[x][y]
      ensures Valid() && State() == WallEdit(grid, old(State()), x, y, controlDown)
    {
      ghost var s := State();
      if !isRunning {
        var it := grid[x][y];
        if it != startNode && it != endNode {
          it.isWall := !controlDown;
        }
      }
      ghost var r := WallEdit(grid, s, x, y, controlDown);
      assert State().cells == r.cells by {
        forall n | n in Nodes ensures CellOf(n) == r.cells[n] {
        }
      }
      WallEditConsistent(grid, old(State()), x, y, controlDown);
    }
  }
}
