# Incremental A* on a 15 by 15 grid

This project is a Dafny model of the search engine inside `AStarVisualization` (a Kotlin Swing program). The model covers:

- the grid of `Node`s, each with its scores, predecessor link and wall flag;
- the two lists `openSet` and `closedSet`;
- `path`, `startNode`, `endNode` and `isRunning`;
- the operations `reset`, `reconstructPath`, `findNeighbors`, `startAlgorithm`, `step`, and the wall edit in the mouse-drag handler.

The model has four modules:

- `Seqs`: the two Kotlin list operations the engine relies on. `MutableList.remove` drops the first occurrence. `minByOrNull` picks the first element of least key.
- `Grid`: the `Node` class, the shape of `grid`, and `findNeighbors`.
- `Search`: the engine on values. A snapshot `Engine` records:
  - every node's mutable fields, as a map of `Cell`s;
  - the lists;
  - the end points;
  - the running flag.

  `StepSpec`, `StartSpec` and `WallEdit` map the snapshot before an operation to the snapshot after it. `PathFrom` maps a snapshot and a node to the node list `reconstructPath` collects. `IsReset` is a predicate on one snapshot: the state `reset` leaves. The lemmas state what each operation does. They also prove that the invariant `Consistent` is kept. The invariant says:
  - every open or closed node other than the start node has a closed, adjacent predecessor whose cost is one less;
  - the start node has cost 0 and no predecessor;
  - the lists hold no duplicates and are disjoint;
  - the end points are not walls;
  - during a run, both end points are set and no wall is open or closed.
- `AStar`: the class `AStarVisualization`. Its fields are those of the source and its methods update them in place:
  - `Reset` and `ReconstructPath` use loops;
  - `Step` visits the neighbours in a `for` loop that updates the `Node` objects.

  `Step`, `StartAlgorithm`, `MouseDragged`, `Expand`, `RelaxNeighbors` and `RelaxNeighbor` are proved to leave the snapshot `State()` that the matching `Search` function computes from the old snapshot. `ReconstructPath` is proved to leave `path` equal to `PathFrom` of the old snapshot. `ReachGoal` sets `path` that way, clears `isRunning`, and changes nothing else. The constructor and `Reset` are proved to leave a state satisfying `IsReset`, whatever the state was before. The constructor and `Reset` establish the invariant `Valid()`; `Step`, `StartAlgorithm` and `MouseDragged` keep it. The helper methods of `step` need only the parts of it they use.

The model follows a few behaviours of the code that an idealised A* would not have:

- **Tie-break.** The node selected is the first node of `openSet`, in list order, whose `fScore` is least. That is the `minByOrNull` rule.
- **No exhausted state.** When `openSet` empties without reaching the goal, `isRunning` stays true. `step` then does nothing, and wall edits are refused. Another start does not help, because `startAlgorithm` sets `isRunning` again (`Search.StartExpandsStart`). Only `reset` makes wall edits possible again, and `reset` also clears every wall.
- **Start with a wall.** `startAlgorithm` checks the end points only for `null`, not for walls. In a `Consistent` state the end points are never walls, because the wall edit skips them.
- **Start node scores.** The set-up in `startAlgorithm` resets no node and does not set the start node's scores. Its first step relaxes the start node's non-wall neighbours. Every other node keeps its scores and links, which in a second run are stale. `Search.StartExpandsStart` states this.
- **Stale scores are harmless.** A stale `gScore` of 0 on an undiscovered node cannot block its discovery, because a node absent from `openSet` is always relaxed.
- **No cycles.** The predecessor links cannot form a cycle. Cost drops by one along each link, so `reconstructPath` always ends, and the path never repeats a node (`Search.PathNoDup`).
- **Start equals end.** When the start node is the end node, the first step finds it. The path is that single node (`Search.StartAtGoal`).

The distance estimate `heuristic` is a parameter of the class: any non-negative function of the two nodes' coordinates. `gScore` is a natural number. In the source it is a `Double`, but it only ever holds 0 or a predecessor's `gScore + 1`. `hScore` and `fScore` are `real`.

## Model

| member | source | states |
|---|---|---|
| Seqs.RemoveFirst | src/main/kotlin/AStarVisualization.kt:132 | `remove`: a list without the node is returned unchanged; otherwise the list becomes one element shorter |
| Search.PathFrom | src/main/kotlin/AStarVisualization.kt:82-89 | the list `reconstructPath` collects starts with the given node and has one element per cost unit plus one |
| Search.Closing | src/main/kotlin/AStarVisualization.kt:132-133 | the selected node is appended to `closedSet`, and `openSet` loses one element when it held the node; the nodes, `path`, the end points and the flag are unchanged |
| Search.RelaxAll | src/main/kotlin/AStarVisualization.kt:136-152 | the neighbour loop changes neither `closedSet`, `path`, the end points, the flag nor the set of nodes |
| Search.StepSpec | src/main/kotlin/AStarVisualization.kt:122-155 | `step` keeps the set of nodes and the end points, and changes nothing when `openSet` is empty or no run is on |
| Search.Started | src/main/kotlin/AStarVisualization.kt:112-117 | the set-up of a start: `openSet` is exactly the start node, `closedSet` and `path` are empty and the run is on; nodes and end points are unchanged |
| Search.StartSpec | src/main/kotlin/AStarVisualization.kt:109-120 | `startAlgorithm` keeps the set of nodes and the end points, and changes nothing when an end point is null |
| Search.IsReset | src/main/kotlin/AStarVisualization.kt:64-80 | in a reset state the start and end nodes are set, distinct, and at `(0, 0)` and `(14, 14)` |
| Seqs.RemoveFirstMembers | src/main/kotlin/AStarVisualization.kt:132 | removing a node from a duplicate-free list keeps it duplicate-free and removes exactly that node from its members |
| Seqs.RemoveFirstAt | src/main/kotlin/AStarVisualization.kt:132 | on a duplicate-free list, `remove` of the element at index k cuts the list at k |
| Seqs.FirstMinIndex | src/main/kotlin/AStarVisualization.kt:124 | the `minByOrNull` scan returns an index whose key is least, with every earlier key strictly greater |
| AStar.FScores | src/main/kotlin/AStarVisualization.kt:124 | the keys `minByOrNull` compares: the `fScore` of each open node, in list order |
| Seqs.FirstMinUnique | src/main/kotlin/AStarVisualization.kt:124 | that index is unique, so the selection is deterministic |
| Grid.Node.constructor | src/main/kotlin/AStarVisualization.kt:220-225 | a new node has the given coordinates, zero scores, no predecessor and no wall |
| Grid.Node.Reset | src/main/kotlin/AStarVisualization.kt:227-233 | `reset` puts the scores back to zero, clears the predecessor and the wall flag |
| Grid.FindNeighbors | src/main/kotlin/AStarVisualization.kt:95-107 | at most four neighbours, each a grid node that shares an edge with the input node |
| Grid.NeighborsComplete | src/main/kotlin/AStarVisualization.kt:95-107 | every grid node sharing an edge with the input node is returned |
| Grid.NeighborsOrdered | src/main/kotlin/AStarVisualization.kt:95-107 | the neighbours come in the order left, right, up, down, none twice, and never include the input node |
| Search.PathShape | src/main/kotlin/AStarVisualization.kt:82-89 | the path starts at the given node and ends at the start node, where `cameFrom` is null; each element's successor is its `cameFrom`, one cost unit less and adjacent; all elements after the first are closed |
| Search.PathLink | src/main/kotlin/AStarVisualization.kt:84-88 | a walk step follows `cameFrom` to a closed node of strictly smaller cost, or stops at null; the cost `g` is the measure by which `PathFrom`, and so the walk, terminates |
| Search.PathNoDup | src/main/kotlin/AStarVisualization.kt:82-89 | a reconstructed path never repeats a node |
| Search.SelectedIndex | src/main/kotlin/AStarVisualization.kt:124 | the selected open node has the least `fScore`, and every open node before it has a strictly greater one |
| Search.RelaxOne | src/main/kotlin/AStarVisualization.kt:137-151 | one neighbour pass appends the neighbour to `openSet` exactly when it is neither closed, nor a wall, nor open; it changes neither `closedSet`, `path`, the end points nor the flag |
| Search.FreshMembers | src/main/kotlin/AStarVisualization.kt:148-150 | the nodes the neighbour loop appends are exactly the neighbours that are neither closed, nor walls, nor already open |
| Search.RelaxAllOpen | src/main/kotlin/AStarVisualization.kt:136-152 | the neighbour loop appends the new neighbours to `openSet` in neighbour order |
| Search.RelaxAllCells | src/main/kotlin/AStarVisualization.kt:136-152 | after the neighbour loop, a neighbour that is neither closed nor a wall, and is new or cheaper through `current`, has cost `g(current) + 1`, a fresh `h`, `f = g + h` and predecessor `current`; every other node is unchanged |
| Search.ClosingConsistent | src/main/kotlin/AStarVisualization.kt:132-133 | moving the selected node from `openSet` to `closedSet` keeps the invariant and closes the start node |
| Search.RelaxOneConsistent | src/main/kotlin/AStarVisualization.kt:137-151 | one neighbour pass keeps the invariant |
| Search.RelaxAllConsistent | src/main/kotlin/AStarVisualization.kt:136-152 | the neighbour loop keeps the invariant |
| Search.StepConsistent | src/main/kotlin/AStarVisualization.kt:122-155 | `step` keeps the invariant |
| Search.StepIdle | src/main/kotlin/AStarVisualization.kt:123 | `step` changes nothing when `openSet` is empty or no run is on |
| Search.StepReachesGoal | src/main/kotlin/AStarVisualization.kt:124-130 | when the selected node is the end node, `step` leaves the lists and the nodes unchanged and stops the run. It sets `path` to a duplicate-free chain of adjacent non-wall nodes from the end node back to the start node, of length `g(end) + 1`. A further step changes nothing |
| Search.StepExpands | src/main/kotlin/AStarVisualization.kt:132-152 | otherwise the selected node leaves `openSet` and is appended to `closedSet`, and the new neighbours are appended to `openSet`. Exactly the relaxable neighbours get new scores and predecessor; no other node changes. The lists stay duplicate-free and disjoint |
| Search.ClosingAgree | src/main/kotlin/AStarVisualization.kt:132-142 | closing the selected node does not change which of its neighbours are new or relaxed, nor their new cells |
| Search.StartedConsistent | src/main/kotlin/AStarVisualization.kt:112-117 | clearing the lists, opening only the start node and starting the run keeps the invariant |
| Search.StartConsistent | src/main/kotlin/AStarVisualization.kt:109-120 | `startAlgorithm` keeps the invariant |
| Search.StartExpandsStart | src/main/kotlin/AStarVisualization.kt:109-120 | with distinct end points, a start closes exactly the start node. The open nodes are exactly its non-wall neighbours, each at cost 1 with the start node as predecessor. Every other node keeps its earlier, possibly stale, values |
| Search.StartAtGoal | src/main/kotlin/AStarVisualization.kt:109-130 | when the start node is the end node, a start yields the one-node path, stops the run and leaves the nodes unchanged |
| Search.WallEdit | src/main/kotlin/AStarVisualization.kt:48-56 | nothing changes while a run is on or on the start or end node; otherwise exactly the targeted node's wall flag becomes `!controlDown` and nothing else changes |
| Search.WallEditConsistent | src/main/kotlin/AStarVisualization.kt:48-56 | a wall edit keeps the invariant |
| Search.ResetConsistent | src/main/kotlin/AStarVisualization.kt:64-80 | a reset state satisfies the invariant and its end points differ |
| AStar.AStarVisualization.constructor | src/main/kotlin/AStarVisualization.kt:14-24 | builds a grid whose node at `[i][j]` has coordinates `(i, j)`; the state is a reset state and `Valid()` holds |
| AStar.AStarVisualization.Reset | src/main/kotlin/AStarVisualization.kt:64-80 | every node is blank; the lists and `path` are empty; start and end are at `(0, 0)` and `(14, 14)`; no run is on |
| AStar.AStarVisualization.ReconstructPath | src/main/kotlin/AStarVisualization.kt:82-89 | the `while` loop leaves in `path` exactly the chain `PathFrom` describes, and changes nothing else |
| AStar.AStarVisualization.Step | src/main/kotlin/AStarVisualization.kt:122-155 | the new state is `StepSpec` of the old one, and `Valid()` is kept |
| AStar.AStarVisualization.ReachGoal | src/main/kotlin/AStarVisualization.kt:125-130 | rebuilds `path` from the selected node and clears `isRunning`; nothing else changes |
| AStar.AStarVisualization.Expand | src/main/kotlin/AStarVisualization.kt:132-152 | moves the selected node to `closedSet`, then runs the neighbour loop over `findNeighbors` |
| AStar.AStarVisualization.RelaxNeighbors | src/main/kotlin/AStarVisualization.kt:136-152 | the `for` loop over the neighbours has the effect of `RelaxAll` |
| AStar.AStarVisualization.RelaxNeighbor | src/main/kotlin/AStarVisualization.kt:137-151 | one loop pass updates the neighbour's node and `openSet` as `RelaxOne` says |
| AStar.AStarVisualization.StartAlgorithm | src/main/kotlin/AStarVisualization.kt:109-120 | the new state is `StartSpec` of the old one: nothing when an end point is null, else clear the lists, open the start node, start the run and step once |
| AStar.AStarVisualization.MouseDragged | src/main/kotlin/AStarVisualization.kt:48-56 | the wall edit on cell `(x, y)` follows `WallEdit` and keeps `Valid()` |

## Left out

- The Swing user interface is not modelled: the window, the buttons and their listeners, `GridPanel.paintComponent`, `main`, and the `repaint()` calls, which have no effect on the engine.
- Pixel-to-cell conversion and the `println` logging in the drag handler are not modelled. `MouseDragged` takes a cell `(x, y)` that is already in bounds. Pixel positions that map outside `0..14` are not modelled.
- The concrete `sqrt`/`pow` heuristic and floating-point arithmetic are not modelled. The heuristic is any non-negative function of the coordinates, and scores are exact `real`s. `gScore` is an exact natural number rather than a `Double`.
- Threading is not modelled. The Swing event-dispatch thread plays no part; the engine is sequential.
- Optimality of the path and termination of a whole run (repeated `step` calls) are not stated. The model states what one `step` or start does and the invariant it keeps.
- AStar.AStarVisualization.ReconstructPath: it collects the nodes in a local list and assigns `path` once. The source clears `path` and appends to it in the loop. Nothing can observe the intermediate values, so only the final `path` is modelled.
- AStar.AStarVisualization.Step: the body of `step` is split over the helper methods `ReachGoal`, `Expand`, `RelaxNeighbors` and `RelaxNeighbor`. Their statements are those of the source, in the same order.
