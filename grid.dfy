/** The fixed square grid of cells: the `Node` objects (AStarVisualization.kt:220-234),
    the shape of `grid` (:11, :14-18) and the four-way neighbourhood (:95-107). */
module Grid {

  /** `gridSize`: the grid is N by N. */
  const N: int := 15

  /** A cell. `x` and `y` never change; the search and the wall edits update the other fields in place.
      `gScore` is only ever 0 or a predecessor's `gScore + 1`, so it is a natural number. */
  class Node {
    const x: int
    const y: int
    var gScore: nat
    var hScore: real
    var fScore: real
    var cameFrom: Node?
    var isWall: bool

    constructor (x: int, y: int)
      ensures this.x == x && this.y == y
      ensures gScore == 0 && hScore == 0.0 && fScore == 0.0 && cameFrom == null && !isWall
    {
      this.x := x;
      this.y := y;
      gScore := 0;
      hScore := 0.0;
      fScore := 0.0;
      cameFrom := null;
      isWall := false;
    }

    /** Back to the freshly constructed values. */
    method Reset()
      modifies this
      ensures gScore == 0 && hScore == 0.0 && fScore == 0.0 && cameFrom == null && !isWall
    {
      gScore := 0;
      hScore := 0.0;
      fScore := 0.0;
      cameFrom := null;
      isWall := false;
    }
  }

  /** `grid[i][j]` is the node with coordinates `(i, j)`. */
  ghost predicate GridShape(grid: seq<seq<Node>>) {
    |grid| == N &&
    (forall i :: 0 <= i < N ==> |grid[i]| == N) &&
    (forall i, j :: 0 <= i < N && 0 <= j < N ==> grid[i][j].x == i && grid[i][j].y == j)
  }

  /** `n` is the node the grid holds at `n`'s own coordinates. */
  ghost predicate InGrid(grid: seq<seq<Node>>, n: Node) {
    0 <= n.x < |grid| && 0 <= n.y < |grid[n.x]| && grid[n.x][n.y] == n
  }

  /** `m` shares an edge with `n`: one coordinate differs by exactly one, the other is equal. */
  predicate Adjacent(n: Node, m: Node) {
    (m.x == n.x && (m.y == n.y - 1 || m.y == n.y + 1)) ||
    (m.y == n.y && (m.x == n.x - 1 || m.x == n.x + 1))
  }

  /** Rank of the side `m` lies on, seen from `n`: left (x - 1), right (x + 1), up (y - 1), down (y + 1). */
  function Side(n: Node, m: Node): int {
    if m.x == n.x - 1 then 0
    else if m.x == n.x + 1 then 1
    else if m.y == n.y - 1 then 2
    else 3
  }

  /** `findNeighbors`: the in-bounds edge neighbours of `node`, listed left, right, up, down. */
  function FindNeighbors(grid: seq<seq<Node>>, node: Node): (r: seq<Node>)
    requires GridShape(grid) && InGrid(grid, node)
    ensures |r| <= 4
    ensures forall m :: m in r ==> InGrid(grid, m) && Adjacent(node, m)
  {
    var x, y := node.x, node.y;
    (if x > 0 then [grid[x - 1][y]] else []) +
    (if x < N - 1 then [grid[x + 1][y]] else []) +
    (if y > 0 then [grid[x][y - 1]] else []) +
    (if y < N - 1 then [grid[x][y + 1]] else [])
  }

  /** Every grid cell that shares an edge with `node` is among its neighbours. */
  lemma NeighborsComplete(grid: seq<seq<Node>>, node: Node, i: int, j: int)
    requires GridShape(grid) && InGrid(grid, node) && 0 <= i < N && 0 <= j < N
    requires Adjacent(node, grid[i][j])
    ensures grid[i][j] in FindNeighbors(grid, node)
  {
    var x, y := node.x, node.y;
    var r := FindNeighbors(grid, node);
    var a := if x > 0 then [grid[x - 1][y]] else [];
    var b := if x < N - 1 then [grid[x + 1][y]] else [];
    var c := if y > 0 then [grid[x][y - 1]] else [];
    var d := if y < N - 1 then [grid[x][y + 1]] else [];
    assert r == a + b + c + d;
    if i == x - 1 { assert grid[i][j] in a; }
    else if i == x + 1 { assert grid[i][j] in b; }
    else if j == y - 1 { assert grid[i][j] in c; }
    else { assert grid[i][j] in d; }
  }

  /** The neighbours come in the order left, right, up, down, so none occurs twice, and `node`
      itself is not among them. */
  lemma NeighborsOrdered(grid: seq<seq<Node>>, node: Node)
    requires GridShape(grid) && InGrid(grid, node)
    ensures var r := FindNeighbors(grid, node);
      (forall i, j :: 0 <= i < j < |r| ==> Side(node, r[i]) < Side(node, r[j])) &&
      node !in r && forall i, j :: 0 <= i < j < |r| ==> r[i] != r[j]
  {
  }
}
