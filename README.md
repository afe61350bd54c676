# RandomTree: RRT and RRT* path planning on an occupancy grid

The system grows a random tree over an N×N occupancy grid. The tree is
Rapidly-exploring Random Tree (RRT) or its optimising variant RRT*. It grows
from a start cell the user picks until a node lands next to the end cell
block the user picks. The path from that node back to the root is then the
planned route.

This project models the planner core in three parts:

- **Tree store** (`Source/Utils/Tree.cpp`, module `TreeStore`, class
  `TreeStore.Tree`)
  - a map from grid coordinate to node;
  - each node records its parent, its children in insertion order and the
    distance from its parent;
  - `createNode`, `addEdge`, `removeEdge`, `getNodeFromCell`,
    `getNumChildren`, as methods on the map;
  - the path-to-root walk and the distance-to-root sum, as functions over the
    parent links;
  - the shape the planner keeps:
    - a single root;
    - parent/child links that agree;
    - acyclicity, witnessed by a ghost rank that drops towards the root.
- **Occupancy grid** (`Source/Simulation/RandomTreeUtils.cpp`, module
  `Occupancy`, class `Occupancy.Grid`)
  - the flat `cellCurr` array indexed by `i + j * N`, plus a ghost map view
    of it;
  - the cell-state predicates and the single-cell setters;
  - the square-block writers for clearing and for marking the end block;
  - the highlight pass. It only recolours, so it is modelled by the set of
    cells it recolours.
- **Planner** (`Source/Simulation/RandomTree.cpp`, modules `PlannerSpec` and
  `Planner`, class `Planner.RandomTree`)
  - the random sample, drawn until it is not an obstacle;
  - the nearest-node scan in map order;
  - the steer step, truncated to `int`;
  - the segment check that stops at the first obstacle or end cell;
  - node creation and connection;
  - `placeNodeRRT`;
  - `placeNodeRRTStar`:
    - the neighbourhood scan;
    - the cheapest-route choice;
    - the early connection when the goal is seen;
    - the rewiring loop;
  - the goal test over the 3×3 neighbourhood;
  - the pre-existing-path check;
  - start/end selection and the S/E confirmation keys;
  - one simulation step, including the recorded path.

Every operation that writes state is a `method`:

- each method's `ensures` gives the entire new state in terms of the old one;
- the invariants behind those states are proved as lemmas.

The main results:

- **The tree stays a tree.** Creating a leaf and every RRT* rewire keep a
  single root, agreeing links and acyclicity:
  - `TreeStore.AddLeafShape`, `TreeStore.RewireRanked`;
  - preserved by `Planner.RandomTree.Valid` across every method.
- **Rewiring never makes a route longer.**
  - A rewire strictly lowers the moved node's distance to the root, and the
    distance of everything below it.
  - It leaves every other node's distance unchanged.
  - Lemmas: `TreeStore.RewireLowersCost`, `TreeStore.CheaperBelow`,
    `TreeStore.RewireNoWorse`.
  - After RRT*'s rewiring loop, no node is further from the root than before.
  - Every kept neighbour is at most as far from the root as its route through
    the new node (`Planner.RandomTree.StarNoWorse`).
- **RRT* attaches the new node to the cheapest eligible neighbour.**
  - The neighbour is the first minimum in map order of the route cost
    (`Planner.RandomTree.ScanCandidates`, `Planner.RandomTree.StarLeaf`).
  - The early-exit case connects to the first neighbour in map order at which
    the goal was seen (`Planner.RandomTree.ScanConnects`).
- **The nearest node is the first minimum in map order** of the distance to
  the sample, below the `INT_MAX` sentinel (`Planner.RandomTree.GetNearestNode`).
- **The recorded path starts at the goal node and ends at the start cell**
  (`Planner.RandomTree.SimulationStep` through `PathKept`).
- **The segment check** reports `Blocked` exactly when an obstacle comes
  before any end cell, skipping the nearest node itself
  (`PlannerSpec.VerdictBlocked`, `PlannerSpec.VerdictClear`).

## Model

| member | source | states |
|---|---|---|
| Geometry.LexFirst | Source/Simulation/RandomTree.cpp:82 | the next key a `std::map` iterator visits is the lexicographically least remaining key |
| Geometry.PrecedesStep | Source/Simulation/RandomTree.cpp:82 | visiting the least remaining key keeps every visited key below every unvisited one |
| Geometry.MapOrderSorted | Source/Simulation/RandomTree.cpp:254 | the keys of the tree's map are visited in strictly increasing `std::pair` order |
| Geometry.MapOrderStep | Source/Simulation/RandomTree.cpp:254 | a map traversal is its least key followed by the traversal of the other keys |
| Geometry.PopFirst | Source/Simulation/RandomTree.cpp:254 | one iterator step yields the least key and leaves exactly the other keys, in order |
| Geometry.RasterInGrid | Source/Simulation/RandomTree.cpp:111-112 | every cell `connectTwoCells` outputs between two grid cells is a grid cell |
| Geometry.Trunc | Source/Simulation/RandomTree.cpp:162-163 | float-to-int assignment truncates toward zero: for `x >= 0` the result is the floor of `x`, and for `x < 0` the ceiling, so it is within one of the value on the zero side |
| Geometry.Interpolate | Source/Simulation/RandomTree.cpp:162-163 | a truncated point a fraction of the way between two coordinates lies between them |
| Geometry.Steer | Source/Simulation/RandomTree.cpp:156-164 | the candidate is the sample when it lies within `step`; otherwise each coordinate is `(1 - t) * near + t * sample` at `t = step / d`, truncated toward zero; it always lies in the box spanned by the nearest node and the sample |
| Geometry.SteerInGrid | Source/Simulation/RandomTree.cpp:156-164 | the steered candidate of two grid cells is a grid cell |
| TreeStore.Without | Source/Utils/Tree.cpp:75-76 | the erase-remove idiom drops exactly the occurrences of the removed child |
| TreeStore.WithoutAppend | Source/Utils/Tree.cpp:75-76 | erase-remove keeps the relative order of the other children |
| TreeStore.WithoutAbsent | Source/Utils/Tree.cpp:75-76 | erasing an absent child leaves the list unchanged |
| TreeStore.WithoutMultiset | Source/Utils/Tree.cpp:75-76 | every other child keeps its multiplicity; the removed one has none left |
| TreeStore.Tree.constructor | Source/Utils/Tree.cpp:4-6 | a new tree has no root and no nodes |
| TreeStore.Tree.GetNumChildren | Source/Utils/Tree.cpp:12-17 | true exactly for a non-null node with at least one child (the `bool` return type turns the count into a flag) |
| TreeStore.Tree.GetNodeFromCell | Source/Utils/Tree.cpp:19-26 | null exactly when no node sits at the cell, otherwise that cell's node |
| TreeStore.Tree.CreateNode | Source/Utils/Tree.cpp:28-46 | succeeds exactly when the cell is new and then adds a parentless, childless node with distance 0; the first node ever created becomes the root and the root never changes afterwards |
| TreeStore.Tree.AddEdge | Source/Utils/Tree.cpp:51-63 | fails exactly on a null end; otherwise appends the child to the parent's children, sets the child's parent and distance, and changes no other node |
| TreeStore.Tree.CreateLeaf | Source/Simulation/RandomTree.cpp:181-189 | `createNode` followed by `addEdge` from the parent: a new cell becomes a leaf under the parent; an existing cell changes nothing |
| TreeStore.Tree.RemoveEdge | Source/Utils/Tree.cpp:68-81 | fails exactly on a null end; otherwise drops the child from the parent's children only, leaving the child's own parent link as it was |
| TreeStore.Tree.Reroute | Source/Simulation/RandomTree.cpp:334-337 | `removeEdge` from the old parent, then `addEdge` from the new one: the node moves under the new parent and changes no key |
| TreeStore.PathToRoot | Include/Utils/Tree.h:32 | the path `getPath` returns starts at the given node and follows parent links |
| TreeStore.PathOfRoot | Include/Utils/Tree.h:32 | the root's path is itself alone, and its distance to the root is 0 |
| TreeStore.DistanceToRootNonNeg | Source/Simulation/RandomTree.cpp:319 | the distance to the root is never negative |
| TreeStore.DistanceToRootAlongPath | Source/Simulation/RandomTree.cpp:319 | every node on a node's path to the root is at most as far from the root as the node |
| TreeStore.SamePathSameWalk | Source/Simulation/RandomTree.cpp:329 | two trees that agree on the parents along a path give the same path and the same distance to the root |
| TreeStore.AddLeafAt | Source/Simulation/RandomTree.cpp:181-189 | adding a leaf creates the node with the parent and distance given and appends it to exactly that parent's children |
| TreeStore.AddLeafKeepsRank | Source/Simulation/RandomTree.cpp:181-189 | a new leaf keeps the tree acyclic |
| TreeStore.AddLeafKeepsRoot | Source/Simulation/RandomTree.cpp:181-189 | a new leaf keeps the root the only parentless node |
| TreeStore.AddLeafKeepsChildren | Source/Simulation/RandomTree.cpp:181-189 | a new leaf keeps the children lists and the parent links in agreement |
| TreeStore.AddLeafKeepsPointUp | Source/Simulation/RandomTree.cpp:181-189 | a new leaf keeps every listed child's parent equal to the node listing it |
| TreeStore.AddLeafKeepsListed | Source/Simulation/RandomTree.cpp:181-189 | a new leaf keeps every node listed among its parent's children |
| TreeStore.AddLeafWalks | Source/Simulation/RandomTree.cpp:288-290 | a new leaf changes no old node's path or distance to the root; its own distance is its parent's plus the edge, and its own path is its parent's with itself in front |
| TreeStore.AddLeafShape | Source/Simulation/RandomTree.cpp:181-189 | a new leaf keeps the full tree shape: single root, agreeing links, acyclicity |
| TreeStore.AddLeafGrows | Source/Simulation/RandomTree.cpp:181-189 | a new leaf adds exactly one key, and its distance to the root is the route through its parent |
| TreeStore.ReparentAt | Source/Simulation/RandomTree.cpp:334-337 | a rewire moves the node from its old parent's children to the end of the new parent's children and records the new distance |
| TreeStore.ReparentKeepsRank | Source/Simulation/RandomTree.cpp:332-337 | moving a node under a parent that is not below it keeps the tree acyclic |
| TreeStore.ReparentKeepsRoot | Source/Simulation/RandomTree.cpp:334-337 | a rewire keeps the root the only parentless node |
| TreeStore.ReparentKeepsChildren | Source/Simulation/RandomTree.cpp:334-337 | a rewire keeps the children lists and the parent links in agreement |
| TreeStore.ReparentWalks | Source/Simulation/RandomTree.cpp:319-337 | a rewire leaves every node not below the moved one at the same distance, and puts the moved node at the new parent's distance plus the bridge |
| TreeStore.RewireLowersCost | Source/Simulation/RandomTree.cpp:332 | when the new route is strictly cheaper, the new parent is not below the moved node, and the moved node's distance strictly drops |
| TreeStore.CheaperBelow | Source/Simulation/RandomTree.cpp:332-337 | after a cheaper rewire, no node's distance grows, and every node below the moved one gets strictly closer |
| TreeStore.RewireNoWorse | Source/Simulation/RandomTree.cpp:317-339 | one rewire by the source's rule never lengthens any node's route to the root, and shortens everything below the moved node |
| TreeStore.RewireShape | Source/Simulation/RandomTree.cpp:332-337 | a rewire by the source's rule keeps the full tree shape |
| TreeStore.RewireEnds | Source/Simulation/RandomTree.cpp:319-337 | a rewire by the source's rule leaves the new parent's distance as it was and sets the moved node's to the new route |
| TreeStore.RewireCosts | Source/Simulation/RandomTree.cpp:317-339 | a rewire by the source's rule reroutes exactly the moved node's subtree and lowers its costs |
| TreeStore.RewireRanked | Source/Simulation/RandomTree.cpp:317-339 | a rewire by the source's rule yields a tree of the same shape with the reroute costs above |
| TreeStore.RootNotRewired | Source/Simulation/RandomTree.cpp:332-335 | the root is never rewired, so `removeEdge` is never handed its null parent |
| TreeStore.RootOnlyShape | Source/Simulation/RandomTree.cpp:461-471 | the one-node tree created from the start cell has the tree shape |
| TreeStore.PathEndsAtRoot | Source/Simulation/RandomTree.cpp:519 | every node's path ends at the root |
| Occupancy.IsNodeState | Source/Simulation/RandomTreeUtils.cpp:14-16 | `>= NODE` holds exactly for node, connection, start and end cells |
| Occupancy.ClearBlockEffect | Source/Simulation/RandomTreeUtils.cpp:37-51 | the block clear frees each node-like cell of the square and leaves free cells, obstacles and the rest of the grid alone |
| Occupancy.MarkEndEffect | Source/Simulation/RandomTreeUtils.cpp:91-108 | the end block marks exactly the free cells of the square as end cells, so no cell of the square stays free |
| Occupancy.RewrittenIdempotent | Source/Simulation/RandomTreeUtils.cpp:37-51 | clearing or marking the same block twice is the same as once |
| Occupancy.MarkConnectionEffect | Source/Simulation/RandomTree.cpp:199-200 | the connection stream turns the free cells of the segment into connection cells and changes nothing else |
| Occupancy.MarkConnectionStep | Source/Simulation/RandomTree.cpp:199-200 | the stream processes the segment one cell at a time, in order |
| Occupancy.Idx | Source/Simulation/RandomTreeUtils.cpp:3-5 | a grid cell's flat index lies inside the array |
| Occupancy.IdxInRange | Source/Simulation/RandomTreeUtils.cpp:3-5 | `i + j * N` of a grid cell lies in `[0, N*N)` |
| Occupancy.Grid.constructor | Source/Simulation/RandomTree.cpp:8-15 | the zeroed array leaves every cell free, with start and end at the origin |
| Occupancy.Grid.GetIdx | Source/Simulation/RandomTreeUtils.cpp:3-5 | a grid cell's index is in range |
| Occupancy.Grid.IdxInjective | Source/Simulation/RandomTreeUtils.cpp:3-5 | distinct grid cells have distinct indices |
| Occupancy.Grid.At | Source/Simulation/RandomTreeUtils.cpp:8 | reading the array at a cell's index gives that cell's state |
| Occupancy.Grid.IsCellFree | Source/Simulation/RandomTreeUtils.cpp:7-9 | true exactly for a free cell |
| Occupancy.Grid.IsCellObstacle | Include/Simulation/RandomTree.h:76 | true exactly for an obstacle |
| Occupancy.Grid.IsCellEndCell | Include/Simulation/RandomTree.h:77 | true exactly for an end cell |
| Occupancy.Grid.IsCellNode | Source/Simulation/RandomTreeUtils.cpp:14-16 | true exactly for a cell that is neither free nor an obstacle |
| Occupancy.Grid.SetCellAsFree | Source/Simulation/RandomTreeUtils.cpp:26-31 | that one cell becomes free and no other changes |
| Occupancy.Grid.SetCellAsObstacle | Source/Simulation/RandomTreeUtils.cpp:53-58 | that one cell becomes an obstacle and no other changes |
| Occupancy.Grid.SetCellAsNode | Source/Simulation/RandomTreeUtils.cpp:60-65 | that one cell becomes a node and no other changes |
| Occupancy.Grid.SetCellAsNodeConnection | Source/Simulation/RandomTreeUtils.cpp:67-72 | that one cell becomes a connection cell and no other changes |
| Occupancy.Grid.SetCellAsNodeConnectionStream | Include/Simulation/RandomTree.h:89 | the grid becomes the connection marking of the segment |
| Occupancy.Grid.DrawNode | Source/Simulation/RandomTree.cpp:197-200 | the new node's cell becomes a node, then the segment to it is marked; the node stays a node |
| Occupancy.Grid.SetCellAsStartCell | Source/Simulation/RandomTreeUtils.cpp:76-86 | records the start coordinate, marks that one cell as start, and keeps the end coordinate |
| Occupancy.Grid.RewriteBlock | Source/Simulation/RandomTreeUtils.cpp:37-51 | the nested square loop leaves the grid as the block rewrite of the old grid |
| Occupancy.Grid.SetCellBlockAsFree | Source/Simulation/RandomTreeUtils.cpp:37-51 | as written, with no bounds guard: when the square lies on the grid it frees exactly the square's node-like cells |
| Occupancy.Grid.SetCellBlockAsFreeClipped | Source/Simulation/RandomTreeUtils.cpp:37-51 | the guarded block clear: for any centre, it frees exactly the node-like cells of the square that lie on the grid |
| Occupancy.Grid.SetCellAsEndCell | Source/Simulation/RandomTreeUtils.cpp:91-108 | as written, with no bounds guard: when the end square lies on the grid it records the end coordinate, marks the square's free cells and keeps the start coordinate |
| Occupancy.Grid.SetCellAsEndCellClipped | Source/Simulation/RandomTreeUtils.cpp:91-108 | for any end on the grid: records the end coordinate, marks exactly the free on-grid cells of the end square and keeps the start coordinate |
| Occupancy.Grid.HighlightCell | Source/Simulation/RandomTreeUtils.cpp:114-134 | the guarded highlight recolours exactly the free on-grid cells of the square, whose width is set by the state, and changes no cell state |
| Occupancy.Grid.HighlightCellAsWritten | Source/Simulation/RandomTreeUtils.cpp:114-134 | as written, with no bounds guard: modelled only for a square that lies on the grid, where it recolours exactly its free cells; off the grid the source's `i + j*N` wraps onto the adjacent row or leaves the array past the bottom or top |
| Occupancy.Grid.DeHighlightCell | Source/Simulation/RandomTreeUtils.cpp:136-140 | restores the colour of exactly the free on-grid cells of the end-width square |
| Occupancy.FirstEndClearLeavesGrid | Source/Simulation/RandomTree.cpp:442 | at N = 800 the first end selection clears a 16-wide square around (0, 0), which reaches (-16, -16), off the grid |
| Occupancy.FirstDeHighlightLeavesGrid | Source/Simulation/RandomTree.cpp:420 | at N = 800 the first start selection de-highlights a 24-wide square around (0, 0), whose corner (-24, -24) has a negative flat index |
| Occupancy.EndClearLeavesGridFrom50 | Source/Simulation/RandomTree.cpp:442 | for every N of at least 50, the first end selection's square leaves the grid |
| PlannerSpec.SegmentVerdict | Source/Simulation/RandomTree.cpp:115-138 | a goal verdict names a cell of the segment, other than the nearest node, that is an end cell |
| PlannerSpec.VerdictClear | Source/Simulation/RandomTree.cpp:115-138 | the segment is clear exactly when no cell other than the nearest node is an obstacle or an end cell |
| PlannerSpec.VerdictFirstStop | Source/Simulation/RandomTree.cpp:115-138 | the verdict is decided by the first stopping cell: blocked at an obstacle, goal at an end cell |
| PlannerSpec.VerdictBlocked | Source/Simulation/RandomTree.cpp:115-138 | the segment is blocked exactly when an obstacle other than the nearest node comes before every end cell |
| PlannerSpec.FirstStop | Source/Simulation/RandomTree.cpp:115-138 | when some cell stops the check, there is a first such cell |
| PlannerSpec.FirstMinUnique | Source/Simulation/RandomTree.cpp:82-91 | a strict-`<` scan has exactly one result |
| PlannerSpec.FirstMinExtend | Source/Simulation/RandomTree.cpp:82-91 | visiting a larger key replaces the minimum exactly when its cost is strictly lower |
| PlannerSpec.FirstMinNone | Source/Simulation/RandomTree.cpp:76 | before any key is visited, the scan has no minimum and stands at the sentinel |
| Planner.RandomTree.constructor | Source/Simulation/RandomTree.cpp:6-44 | a planner starts with an all-free grid, an empty tree, no nodes added, no path, and no selection made |
| Planner.RandomTree.GetRandomCell | Source/Simulation/RandomTree.cpp:53-70 | the sample is the first drawn cell that is not an obstacle; there is none exactly when every draw is an obstacle |
| Planner.RandomTree.GetNearestNode | Source/Simulation/RandomTree.cpp:75-94 | the result is the least key, in map order, among those at minimum distance from the sample strictly below `INT_MAX`; none when there is no such key |
| Planner.RandomTree.IsNodeValid | Source/Simulation/RandomTree.cpp:100-139 | valid exactly when the segment is not blocked; at the first end cell it rewrites the new node to that cell and sets `pathFound` |
| Planner.RandomTree.ComputeNewNodeAndValidate | Source/Simulation/RandomTree.cpp:141-175 | the nearest node, the steered candidate and the segment check between them, with the candidate rewritten at an end cell; fails when the tree has no nearest node |
| Planner.RandomTree.InsertLeaf | Source/Simulation/RandomTree.cpp:181-189 | creates and attaches a new node under the nearest node exactly when the cell is not yet a node, keeping the tree shape |
| Planner.RandomTree.GraftRanked | Source/Simulation/RandomTree.cpp:181-189 | the node is created and hung under the parent exactly when its cell is new; otherwise the tree and ranks are as before; in both cases the path flag, the node counter and the grid are untouched |
| Planner.RandomTree.IsGoalReached | Source/Simulation/RandomTree.cpp:351-369 | true exactly when some on-grid cell of the 3×3 neighbourhood is an end cell |
| Planner.RandomTree.ConnectNewNode | Source/Simulation/RandomTree.cpp:193-202 | sets `pathFound` when the goal was reached, marks the node and its connection, and counts the node |
| Planner.RandomTree.CreateAndConnectNewNode | Source/Simulation/RandomTree.cpp:177-214 | succeeds exactly when the cell is new: leaf added, goal recorded, cells marked, counter incremented; on failure nothing changes |
| Planner.RandomTree.ConnectToNearest | Source/Simulation/RandomTree.cpp:228-233 | connects the placed node under the nearest node of the sample, computed afresh |
| Planner.RandomTree.PlaceNodeRRT | Source/Simulation/RandomTree.cpp:221-234 | one RRT extension: on success the new node is a leaf under the nearest node and marked on the grid; on failure tree, grid and counter are unchanged |
| Planner.RandomTree.ScanFoldStep | Source/Simulation/RandomTree.cpp:254-303 | one scan step: an ineligible key is skipped; a key at which the goal is seen ends the scan; any other key is kept, and becomes the minimum when strictly cheaper |
| Planner.RandomTree.ScanFoldConnect | Source/Simulation/RandomTree.cpp:273-281 | a scan that connects does so at the first key at which the goal is seen |
| Planner.RandomTree.ScanFoldCandidates | Source/Simulation/RandomTree.cpp:285-300 | a scan that does not connect keeps exactly the eligible keys, in map order, and the first cheapest of them |
| Planner.RandomTree.ScanConnects | Source/Simulation/RandomTree.cpp:273-281 | the early connection is to the least key at which the goal is seen, at the rewritten node |
| Planner.RandomTree.ScanCandidates | Source/Simulation/RandomTree.cpp:254-303 | otherwise the neighbours are exactly the keys within the neighbourhood whose segment is not blocked, and the chosen one is the first cheapest route |
| Planner.RandomTree.ScanTargets | Source/Simulation/RandomTree.cpp:254-303 | every node the scan returns is in the tree and on the grid |
| Planner.RandomTree.ScanKey | Source/Simulation/RandomTree.cpp:255-302 | the loop body advances the scan by one key |
| Planner.RandomTree.ScanNeighbourhood | Source/Simulation/RandomTree.cpp:254-303 | the loop computes the scan over the whole map and sets `pathFound` exactly when it connects |
| Planner.RandomTree.RewiredByNone | Source/Simulation/RandomTree.cpp:318 | visiting no neighbour rewires nothing |
| Planner.RandomTree.RewireSkip | Source/Simulation/RandomTree.cpp:332 | a neighbour whose new route is no cheaper is left in place |
| Planner.RandomTree.RewiredByMoved | Source/Simulation/RandomTree.cpp:332-337 | a rerouted neighbour moves under the new node without lengthening any route |
| Planner.RandomTree.RewiredByStep | Source/Simulation/RandomTree.cpp:318-338 | the rewiring effect composes neighbour by neighbour |
| Planner.RandomTree.MoveUnder | Source/Simulation/RandomTree.cpp:334-337 | the node moves under the new node and the tree keeps its shape |
| Planner.RandomTree.RerouteRanked | Source/Simulation/RandomTree.cpp:334-337 | removing the old edge and adding the new one always succeed and leave the tree equal to the node re-parented under the new node, with the grid, the path flag and the counter untouched |
| Planner.RandomTree.RewireOne | Source/Simulation/RandomTree.cpp:319-338 | a neighbour is rerouted exactly when the route through the new node is strictly shorter |
| Planner.RandomTree.Rewire | Source/Simulation/RandomTree.cpp:317-339 | after the loop no node is further from the root, the new node keeps its distance, each neighbour is no further than its route through the new node, and only neighbours changed parent |
| Planner.RandomTree.StarLeaf | Source/Simulation/RandomTree.cpp:310-311 | after rewiring, the new node still hangs from the cheapest neighbour, at that neighbour's route cost |
| Planner.RandomTree.StarNoWorse | Source/Simulation/RandomTree.cpp:305-339 | RRT* never lengthens an existing node's route to the root, and leaves each neighbour no further than its route through the new node |
| Planner.RandomTree.AddAndRewire | Source/Simulation/RandomTree.cpp:310-339 | the new node is attached under the cheapest neighbour, then the rewiring loop runs; a duplicate cell changes nothing |
| Planner.RandomTree.ConnectScan | Source/Simulation/RandomTree.cpp:273-339 | the connection step for each scan outcome, failing when no neighbour was kept |
| Planner.RandomTree.ConnectStar | Source/Simulation/RandomTree.cpp:247-339 | the scan followed by its connection step |
| Planner.RandomTree.PlaceNodeRRTStar | Source/Simulation/RandomTree.cpp:238-342 | one RRT* extension: no node on a blocked candidate or an empty tree; otherwise the scan's early connection or the cheapest attachment plus rewiring |
| Planner.RandomTree.IsPathAlreadyExist | Source/Simulation/RandomTree.cpp:373-383 | true exactly when some node is next to an end cell, and then the result is the least such node in map order |
| Planner.RandomTree.PressStartKey | Source/Visualization/Grid/Grid.cpp:444-450 | the S key confirms the start cell |
| Planner.RandomTree.PressEndKey | Source/Visualization/Grid/Grid.cpp:451-452 | the E key confirms the end cell |
| Planner.RandomTree.SelectStart | Source/Simulation/RandomTree.cpp:410-431 | clicking a free cell frees the old start cell and makes the clicked cell the start; clicking any other cell changes nothing |
| Planner.RandomTree.SelectEnd | Source/Simulation/RandomTree.cpp:434-456 | for any click on the grid: clicking a free cell clears the old end block and marks a new one around the clicked cell, both restricted to the grid; clicking any other cell changes nothing |
| Planner.RandomTree.Confirm | Source/Simulation/RandomTree.cpp:461-471 | once both cells are confirmed, the planner is ready and the tree is the start cell alone as root |
| Planner.RandomTree.SetStartAndEndCells | Source/Simulation/RandomTree.cpp:404-473 | for any click on the grid, per call: start selection, then end selection, then readiness exactly when both are confirmed; the click is consumed; nothing changes once ready |
| Planner.RandomTree.Grow | Source/Simulation/RandomTree.cpp:495-506 | draws a sample and runs the configured extension; when every draw is an obstacle nothing is added; a success adds exactly one new node and counts it |
| Planner.RandomTree.SimulationStep | Source/Simulation/RandomTree.cpp:475-532 | does nothing before both cells are confirmed; reuses an existing goal node without growing; otherwise grows once; once a path is found, `path` runs from the goal node to the start cell |
| Planner.RandomTree.StepReady | Source/Simulation/RandomTree.cpp:486-524 | the ready branch: the existing-path check, else growth, then the path update |
| Planner.RandomTree.ReachedStep | Source/Simulation/RandomTree.cpp:492-493 | an existing goal node sets `pathFound` and records its path without touching tree or grid |
| Planner.RandomTree.GrowStep | Source/Simulation/RandomTree.cpp:495-522 | growth followed by the path update |
| Planner.RandomTree.RecordPath | Source/Simulation/RandomTree.cpp:509-522 | once a path is found, `path` is the walk from the goal node to the root, which is the start cell |
| Planner.FirstEndClickAtOriginLeavesGrid | Source/Simulation/RandomTree.cpp:414-451 | after the first start selection the default start (0, 0) is free, so an end click there is accepted; at N = 800 its end square of half-width 16 reaches (-16, -16), whose flat index is negative |

## Left out

- Rendering: colours, alpha values, OpenGL buffers and console output.
  - `setCellColorFromState` and `genCellColor` only compute colours, so they
    are not modelled.
- `restartRenderLoop` is only declared. The reset it presumably performs
  (`readyToStart` cleared, as the comment at
  Source/Simulation/RandomTree.cpp:484-485 says) is not modelled, so the model
  covers a single planning episode: no transition clears `readyToStart`,
  `endCellSet` or `pathFound`, and a re-confirmation on a non-empty tree,
  where `createNode(start)` fails, is out of scope.
  - The highlight operations are modelled by the set of cells they recolour.
  - `highlightPath` and `deHighlightPath` are only declared and only recolour;
    they are not modelled.
- Randomness. `getRandomAmount` is replaced by a finite sequence of draws
  passed in.
  - The source retries forever until it draws a non-obstacle cell.
  - The model reports "no sample" when every draw is an obstacle, and the step
    then changes nothing.
  - `setRandomObstacles` is not modelled.
- Floating point. Distances, `t = step / d` and route costs use exact real
  arithmetic, not single precision.
  - `INT_MAX` as a float is its rounded value 2^31.
  - Truncation to `int` is modelled exactly.
- `getDistanceBetweenCells` and `connectTwoCells` are used but their bodies
  are not part of this model. They are parameters with contracts:
  - the distance is non-negative, symmetric and zero on one cell;
  - the rasterised segment contains its first end cell, as the comment at
    Source/Simulation/RandomTree.cpp:107-109 says, and stays in the segment's
    bounding box.
- `getDistanceToRoot` and `getPath` are used but their bodies are not part of
  this model.
  - They are functions that walk the parent links and sum the edge distances.
  - The path of a cell that is not a node is empty. That happens in the source
    when `pathFound` is set and the step placed no node. `newNode` is then
    not uninitialised: the `std::pair` declared at
    Source/Simulation/RandomTree.cpp:489 starts as (0, 0), and every placement
    overwrites it with the steered candidate at line 169 before `isNodeValid`
    runs. So `getPath` is handed the rejected candidate, or (0, 0) when no
    sample was drawn, which is not a node.
- The ghost rank is not state of the source. It is the proof witness that the
  parent links are acyclic.
- `setCellAsNodeConnectionStream` is only declared. It is modelled as
  marking, in order, every free cell the rasteriser outputs as a connection
  cell.
- `addEdge`'s distance: `createAndConnectNewNode` and the rewiring loop call
  `addEdge` with two arguments.
  - `Tree.cpp` defines the function with an `int` distance and no default, so
    the stored value is unspecified.
  - The model stores the truncated Euclidean distance.
  - No planner decision reads that field: distances to the root are computed
    from cell coordinates.
  - `Tree.h` declares a `float` distance and a `node_t` without `children`.
    The model follows `Tree.cpp`.
- Uninitialised reads.
  - `getNearestNode` on a map with no key below the sentinel returns
    uninitialised coordinates. The model reports "no nearest node" and the step
    fails.
  - `placeNodeRRTStar` with no kept neighbour dereferences an uninitialised
    `minCostNeighborNode`. The model fails the step.
- Memory: `createNode` for a cell that already exists leaks the node it
  allocated. The destructors free memory only. Neither is modelled.
- `STEP_MODE`, `stepMode` and the delay loop are not modelled. The build flags
  `RAPID_RANDOM_TREE` / `RAPID_RANDOM_TREE_STAR` become the planner's `mode`
  field.
- `setObstacleCells` is not modelled, nor the `setCellAsObstacleStream`
  brush and `clearNodeConnectionStream` it relies on. Their bodies are not
  part of this model: obstacles enter through `Grid.SetCellAsObstacle`.
- `mouseAction` and the cursor. The clicked cell is a parameter and must lie
  on the grid, because `mouseAction` maps the cursor to a grid cell. The
  mouse flag is a parameter and the consumed flag a result.
- SelectEnd and SetStartAndEndCells accept every click on the grid. On a
  free cell they clear the old end block, mark the new one and highlight
  with the guarded forms (`SetCellBlockAsFreeClipped`,
  `SetCellAsEndCellClipped`, `HighlightCell`), as in the Findings below. So
  near the edge they state the intended on-grid effect, not what the
  unguarded loops do off the grid.
- Occupancy.Grid.SetCellAsEndCell: requires the end square on the grid,
  because `setCellAsEndCell` loops over the square with no bounds guard.
  Because `getIdx` is `i + j*N`, a square that overhangs only the left or
  right edge lands on cells of the adjacent row. One that overhangs the
  bottom or top row reads or writes outside `cellCurr`. The obstacle border
  of width `borderWidth` = 0.03N (Source/Simulation/RandomTree.cpp:19) is
  wider than `endCellWidth` = 0.02N, but it does not keep every free cell
  away from the edge: the first start selection frees the default start
  (0, 0), whatever it held (third row of the Findings).
- PlaceNodeRRT: states the flag `pathFound` only as monotone. Its exact value
  is stated by `ComputeNewNodeAndValidate` and `CreateAndConnectNewNode`.
- Grow: states the new tree by its keys only. The exact map is stated by
  `PlaceNodeRRT` and `PlaceNodeRRTStar`.

## Findings

| source | as written | input that shows it | evidently intended | confidence | as-written member | corrected member |
|---|---|---|---|---|---|---|
| Source/Simulation/RandomTree.cpp:442 | `setCellBlockAsFree(endX, endY, endCellWidth)` clears the old end block with no bounds guard, and the old end is the constructor's (0, 0) on the first end selection | N = 800, first end click: the square of half-width 16 around (0, 0) includes (-16, -16), whose index `i + j*N` is negative | clear only the cells of the square that lie on the grid | not executed | Occupancy.FirstEndClearLeavesGrid | Occupancy.Grid.SetCellBlockAsFreeClipped |
| Source/Simulation/RandomTree.cpp:420 | `deHighlightCell(startX, startY)` runs `highlightCell`'s square loop, with no bounds guard, around the constructor's (0, 0) on the first start selection | N = 800, first start click: the square of half-width 24 around (0, 0) includes (-24, -24), read through `isCellFree` at a negative index | test only the cells of the square that lie on the grid | not executed | Occupancy.Grid.HighlightCellAsWritten | Occupancy.Grid.HighlightCell |
| Source/Simulation/RandomTree.cpp:451 | `setCellAsEndCell(cellX, cellY)` marks the end square with no bounds guard; the click only has to land on a free cell, and the first start selection has freed the default start (0, 0) at line 417 | N = 800, first start click anywhere but (0, 0), then an end click on (0, 0): the square of half-width 16 includes (-16, -16), whose index `i + j*N` is -12816 | mark only the cells of the square that lie on the grid | not executed | Planner.FirstEndClickAtOriginLeavesGrid | Occupancy.Grid.SetCellAsEndCellClipped |
