/** The planner of `Source/Simulation/RandomTree.cpp`: one RRT or RRT* step
    per call of `SimulationStep`, over the occupancy grid and the tree store,
    gated by the start/end selection of `SetStartAndEndCells`. */
module Planner {
  import opened Wrappers
  import opened Geometry
  import opened TreeStore
  import opened Occupancy
  import opened PlannerSpec

  /** `RAPID_RANDOM_TREE` or `RAPID_RANDOM_TREE_STAR`, chosen when the planner
      is built. */
  datatype Mode = RRT | RRTStar

  /** What the neighbourhood scan of `placeNodeRRTStar` ends with: a node to
      connect the (possibly snapped) new node to at once, because a path has
      been found; or the valid neighbours in map order and the one offering
      the cheapest route, if any. */
  datatype Scan = ConnectTo(q: Cell, at: Cell) | Candidates(ns: seq<Cell>, best: Option<Cell>)

  /** Every key of the map is a cell of the `n` by `n` grid. */
  ghost predicate KeysInGrid(mp: map<Cell, NodeRec>, n: int) {
    forall c :: c in mp ==> InGrid(c, n)
  }

  /** `RandomTreeClass`: the grid and the tree it inherits from, held here as
      two objects, and the planner's own fields. */
  class RandomTree {
    const grid: Grid
    const tree: Tree
    /** `step` and `neighborhood`. */
    const step: nat
    const neighborhood: int
    /** `getDistanceBetweenCells` and `connectTwoCells`. */
    const dist: Distance
    const connect: Raster
    const mode: Mode
    var numNodesAdded: int
    var pathFound: bool
    var path: seq<Cell>
    /** The session flags. */
    var readyToStart: bool
    var startCellSet: bool
    var endCellSet: bool
    /** Acyclicity witness of the tree: a parent has a smaller rank. */
    ghost var rank: map<Cell, nat>

    ghost function Start(): Cell
      reads grid`startX, grid`startY
    {
      (grid.startX, grid.startY)
    }

    ghost function End(): Cell
      reads grid`endX, grid`endY
    {
      (grid.endX, grid.endY)
    }

    /** The tree store is well formed: acyclic, one root, children lists in
        agreement with the parent links. */
    ghost predicate TreeOk()
      reads tree, this`rank
    {
      tree.Valid() && TreeShape(tree.mp, tree.root, rank)
    }

    /** Every node of the tree sits on a cell of the grid. */
    ghost predicate NodesInGrid()
      reads tree
    {
      KeysInGrid(tree.mp, grid.n)
    }

    /** The start and end cells lie on the grid, the planner is ready only
        once both are set, and the tree is rooted at the start cell exactly
        when it is ready. */
    ghost predicate SelectionOk()
      reads this`readyToStart, this`startCellSet, this`endCellSet, tree
      reads grid`startX, grid`startY, grid`endX, grid`endY
    {
      InGrid(Start(), grid.n) && InGrid(End(), grid.n) &&
      (readyToStart ==> startCellSet && endCellSet) &&
      tree.root == (if readyToStart then Some(Start()) else None)
    }

    ghost predicate Valid()
      reads this`rank, this`readyToStart, this`startCellSet, this`endCellSet, grid, grid.cells, tree
    {
      grid.Valid() && TreeOk() && NodesInGrid() && SelectionOk()
    }

    /** The constructor: an all-free `n` by `n` grid, an empty tree, no node
        added, no path, no selection confirmed. */
    constructor (step: nat, neighborhood: int, n: nat, dist: Distance, connect: Raster, mode: Mode)
      requires 1 <= n
      ensures Valid() && fresh(grid) && fresh(grid.cells) && fresh(tree)
      ensures grid.n == n && this.step == step && this.neighborhood == neighborhood
      ensures this.dist == dist && this.connect == connect && this.mode == mode
      ensures forall q :: q in grid.view ==> grid.view[q] == Free
      ensures tree.mp == map[] && numNodesAdded == 0 && !pathFound && path == []
      ensures !readyToStart && !startCellSet && !endCellSet
    {
      grid := new Grid(n);
      tree := new Tree();
      this.step := step;
      this.neighborhood := neighborhood;
      this.dist := dist;
      this.connect := connect;
      this.mode := mode;
      numNodesAdded := 0;
      pathFound := false;
      path := [];
      readyToStart := false;
      startCellSet := false;
      endCellSet := false;
      rank := map[];
    }

    /** `getRandomCell` with the random draws passed in: the first draw that
        is not an obstacle. The source redraws forever; here a sequence of
        draws that are all obstacles yields `None`. */
    method GetRandomCell(draws: seq<Cell>) returns (r: Option<Cell>)
      requires grid.Valid() && forall k :: 0 <= k < |draws| ==> InGrid(draws[k], grid.n)
      ensures r.None? <==> forall k :: 0 <= k < |draws| ==> grid.IsCellObstacle(draws[k].0, draws[k].1)
      ensures r.Some? ==> InGrid(r.value, grid.n) && !grid.IsCellObstacle(r.value.0, r.value.1)
      ensures r.Some? ==> exists k :: 0 <= k < |draws| && draws[k] == r.value &&
                            forall m :: 0 <= m < k ==> grid.IsCellObstacle(draws[m].0, draws[m].1)
    {
      var k := 0;
      while k < |draws|
        invariant 0 <= k <= |draws|
        invariant forall m :: 0 <= m < k ==> grid.IsCellObstacle(draws[m].0, draws[m].1)
      {
        if !grid.IsCellObstacle(draws[k].0, draws[k].1) {
          return Some(draws[k]);
        }
        k := k + 1;
      }
      return None;
    }

    /** `getNearestNode`: a scan over the keys in map order keeping the
        strictly smaller distance, starting from `INT_MAX`. */
    method GetNearestNode(rNode: Cell) returns (res: Option<Cell>)
      ensures IsFirstMin(tree.mp.Keys, DistanceFrom(dist, rNode), IntMaxAsFloat, res)
    {
      var minDistance := IntMaxAsFloat;
      res := None;
      var rest := tree.mp.Keys;
      ghost var seen: set<Cell> := {};
      while rest != {}
        invariant seen + rest == tree.mp.Keys && seen !! rest
        invariant Precedes(seen, rest)
        invariant IsFirstMin(seen, DistanceFrom(dist, rNode), IntMaxAsFloat, res)
        invariant minDistance == MinSoFar(DistanceFrom(dist, rNode), IntMaxAsFloat, res)
        decreases |rest|
      {
        var k := LexFirst(rest);
        var d := dist(rNode, k);
        PrecedesStep(seen, rest, k);
        FirstMinExtend(seen, k, DistanceFrom(dist, rNode), IntMaxAsFloat, res);
        if d < minDistance {
          minDistance := d;
          res := Some(k);
        }
        seen := seen + {k};
        rest := rest - {k};
      }
    }

    /** What the segment walk of `isNodeValid` from `nearestNode` to `newNode`
        decides on the grid `v`. */
    ghost function CheckSegment(v: map<Cell, CellState>, nearestNode: Cell, newNode: Cell): Verdict
      requires forall q :: q in v <==> InGrid(q, grid.n)
      requires InGrid(nearestNode, grid.n) && InGrid(newNode, grid.n)
    {
      RasterInGrid(connect, nearestNode, newNode, grid.n);
      SegmentVerdict(connect(nearestNode, newNode), nearestNode, v)
    }

    /** The node `isNodeValid` leaves in its in-out parameter: the end cell
        the segment reaches first, or the candidate itself. */
    ghost function Snap(v: map<Cell, CellState>, nearestNode: Cell, newNode: Cell): (c: Cell)
      requires forall q :: q in v <==> InGrid(q, grid.n)
      requires InGrid(nearestNode, grid.n) && InGrid(newNode, grid.n)
      ensures InGrid(c, grid.n)
    {
      var verdict := CheckSegment(v, nearestNode, newNode);
      if verdict.Goal? then verdict.at else newNode
    }

    /** `isNodeValid`: walks the rasterised segment from the nearest node to
        the candidate, as `SegmentVerdict` decides; on reaching an end cell
        it records that a path was found and snaps the candidate to it. */
    method IsNodeValid(nearestNode: Cell, newNode: Cell) returns (ok: bool, snapped: Cell)
      requires grid.Valid() && InGrid(nearestNode, grid.n) && InGrid(newNode, grid.n)
      modifies this`pathFound
      ensures InGrid(snapped, grid.n)
      ensures ok == !CheckSegment(grid.view, nearestNode, newNode).Blocked?
      ensures snapped == Snap(grid.view, nearestNode, newNode)
      ensures pathFound == (old(pathFound) || CheckSegment(grid.view, nearestNode, newNode).Goal?)
    {
      var points := connect(nearestNode, newNode);
      RasterInGrid(connect, nearestNode, newNode, grid.n);
      ghost var v := grid.view;
      var k := 0;
      while k < |points|
        invariant 0 <= k <= |points| && grid.view == v && pathFound == old(pathFound)
        invariant SegmentVerdict(points, nearestNode, v) == SegmentVerdict(points[k..], nearestNode, v)
      {
        var p := points[k];
        assert points[k..][1..] == points[k + 1..];
        if p != nearestNode {
          if grid.IsCellObstacle(p.0, p.1) {
            return false, newNode;
          }
          if grid.IsCellEndCell(p.0, p.1) {
            pathFound := true;
            return true, p;
          }
        }
        k := k + 1;
      }
      return true, newNode;
    }

    /** The candidate of `computeNewNodeAndValidate`: the steer rule applied
        to the nearest node and the sample. */
    function Candidate(nearestNode: Cell, rNode: Cell): Cell {
      Steer(nearestNode, rNode, dist(rNode, nearestNode), step)
    }

    /** `computeNewNodeAndValidate`: the nearest node, the steered candidate,
        and the segment check between them. When the tree offers no nearest
        node (the source reads uninitialised coordinates then) the step
        fails. */
    method ComputeNewNodeAndValidate(rNode: Cell) returns (ok: bool, newNode: Cell, ghost nearest: Option<Cell>)
      requires grid.Valid() && NodesInGrid() && InGrid(rNode, grid.n)
      modifies this`pathFound
      ensures IsFirstMin(tree.mp.Keys, DistanceFrom(dist, rNode), IntMaxAsFloat, nearest)
      ensures InGrid(newNode, grid.n)
      ensures nearest.None? ==> !ok && newNode == rNode && pathFound == old(pathFound)
      ensures nearest.Some? ==>
        InGrid(Candidate(nearest.value, rNode), grid.n) &&
        ok == !CheckSegment(grid.view, nearest.value, Candidate(nearest.value, rNode)).Blocked? &&
        newNode == Snap(grid.view, nearest.value, Candidate(nearest.value, rNode)) &&
        pathFound == (old(pathFound) || CheckSegment(grid.view, nearest.value, Candidate(nearest.value, rNode)).Goal?)
    {
      var near := GetNearestNode(rNode);
      nearest := near;
      if near.None? {
        return false, rNode, nearest;
      }
      var nearCell := near.value;
      var d := dist(rNode, nearCell);
      var candidate := Steer(nearCell, rNode, d, step);
      SteerInGrid(nearCell, rNode, d, step, grid.n);
      ok, newNode := IsNodeValid(nearCell, candidate);
    }

    /** The tree part of `createAndConnectNewNode`, with the edge distance
        truncated to `int` as the `addEdge` parameter does: the tree keeps
        its shape and grows by the new leaf, whose rank is one below its
        parent. */
    method InsertLeaf(nearestNode: Cell, newNode: Cell) returns (created: bool)
      requires Valid() && nearestNode in tree.mp && InGrid(newNode, grid.n)
      modifies tree, this`rank
      ensures Valid() && tree.root == old(tree.root)
      ensures created <==> newNode !in old(tree.mp)
      ensures !created ==> tree.mp == old(tree.mp) && rank == old(rank)
      ensures created ==> tree.mp == AddLeaf(old(tree.mp), nearestNode, newNode, Trunc(dist(nearestNode, newNode)))
      ensures created ==> rank == LeafRank(old(rank), nearestNode, newNode)
      ensures created ==> tree.mp.Keys == old(tree.mp).Keys + {newNode}
      ensures unchanged(this`pathFound, this`numNodesAdded, grid`view)
    {
      var d := Trunc(dist(nearestNode, newNode));
      if newNode !in tree.mp {
        AddLeafShape(tree.mp, rank, tree.root, nearestNode, newNode, d);
        AddLeafAt(tree.mp, nearestNode, newNode, d);
      }
      created := GraftRanked(nearestNode, newNode, d, LeafRank(rank, nearestNode, newNode));
    }

    /** The tree half of `createAndConnectNewNode`: `createNode` then
        `addEdge` through `Tree.CreateLeaf`, with the new rank. */
    method GraftRanked(p: Cell, c: Cell, d: int, ghost r: map<Cell, nat>) returns (created: bool)
      requires Valid() && p in tree.mp
      requires c !in tree.mp ==> TreeShape(AddLeaf(tree.mp, p, c, d), tree.root, r)
      requires c !in tree.mp ==> KeysInGrid(AddLeaf(tree.mp, p, c, d), grid.n)
      modifies tree, this`rank
      ensures Valid() && tree.root == old(tree.root)
      ensures created <==> c !in old(tree.mp)
      ensures !created ==> tree.mp == old(tree.mp) && rank == old(rank)
      ensures created ==> tree.mp == AddLeaf(old(tree.mp), p, c, d) && rank == r
      ensures unchanged(this`pathFound, this`numNodesAdded, grid`view)
    {
      created := tree.CreateLeaf(p, c, d);
      if created {
        rank := r;
      }
      TreeKeepsValid();
    }

    /** `isGoalReached`: the in-grid cells of the 3x3 square around `dNode`
        are visited row by row, off-grid offsets skipped, until an end cell
        is met. */
    method IsGoalReached(dNode: Cell) returns (b: bool)
      requires grid.Valid()
      ensures b <==> EndNear(grid.view, dNode)
    {
      ghost var v := grid.view;
      var i, j := dNode.0, dNode.1;
      var r := -1;
      while r <= 1
        invariant -1 <= r <= 2
        invariant forall q :: q in v && InSquare(q, dNode, 1) && Before(q, dNode, r, -1) ==> v[q] != EndCell
      {
        var c := -1;
        while c <= 1
          invariant -1 <= c <= 2
          invariant forall q :: q in v && InSquare(q, dNode, 1) && Before(q, dNode, r, c) ==> v[q] != EndCell
        {
          if 0 <= i + r < grid.n && 0 <= j + c < grid.n && grid.IsCellEndCell(i + r, j + c) {
            assert InSquare((i + r, j + c), dNode, 1) && v[(i + r, j + c)] == EndCell;
            return true;
          }
          c := c + 1;
        }
        r := r + 1;
      }
      return false;
    }

    /** Drawing on the grid keeps the planner well formed when the grid
        stays well formed and nothing else that `Valid` reads changes. */
    twostate lemma KeepsValid()
      requires old(Valid()) && grid.Valid()
      requires unchanged(tree, this`rank, this`readyToStart, this`startCellSet, this`endCellSet)
      requires unchanged(grid`startX, grid`startY, grid`endX, grid`endY)
      ensures Valid()
    {
    }

    /** A step that changes none of what `Valid` reads keeps the planner
        well formed. */
    twostate lemma FlagKeepsValid()
      requires old(Valid())
      requires unchanged(grid, grid.cells, tree, this`rank, this`readyToStart, this`startCellSet, this`endCellSet)
      ensures Valid()
    {
    }

    /** A change of the tree alone that keeps it well formed, rooted where it
        was and on the grid keeps the planner well formed. */
    twostate lemma TreeKeepsValid()
      requires old(Valid()) && tree.Valid() && TreeShape(tree.mp, tree.root, rank)
      requires tree.root == old(tree.root) && KeysInGrid(tree.mp, grid.n)
      requires unchanged(grid, grid.cells, this`readyToStart, this`startCellSet, this`endCellSet)
      ensures Valid()
    {
    }

    /** The part of `createAndConnectNewNode` after the tree has grown: the
        goal test runs on the grid as it was, then the node's cell is set to
        `NODE`, the free cells of its connection segment to
        `NODE_CONNECTION`, and the counter advances. */
    method ConnectNewNode(nearestNode: Cell, newNode: Cell)
      requires Valid() && InGrid(nearestNode, grid.n) && InGrid(newNode, grid.n)
      modifies grid`view, grid.cells, this`pathFound, this`numNodesAdded
      ensures Valid()
      ensures pathFound == (old(pathFound) || EndNear(old(grid.view), newNode))
      ensures grid.view == MarkConnection(old(grid.view)[newNode := Node], connect(nearestNode, newNode))
      ensures grid.view[newNode] == Node
      ensures numNodesAdded == old(numNodesAdded) + 1
    {
      var goal := IsGoalReached(newNode);
      ghost var v0 := grid.view;
      if goal {
        pathFound := true;
      }
      assert grid.view == v0;
      var points := connect(nearestNode, newNode);
      RasterInGrid(connect, nearestNode, newNode, grid.n);
      grid.DrawNode(newNode, points);
      KeepsValid();
      numNodesAdded := numNodesAdded + 1;
    }

    /** `createAndConnectNewNode`: a fresh node is hung under the nearest
        node, the goal test runs before the cell is marked, then the node's
        cell and its connection segment are written and the counter
        advances; a coordinate already in the tree changes nothing. */
    method CreateAndConnectNewNode(nearestNode: Cell, newNode: Cell) returns (ok: bool)
      requires Valid() && nearestNode in tree.mp && InGrid(newNode, grid.n)
      modifies tree, grid`view, grid.cells, this`rank, this`pathFound, this`numNodesAdded
      ensures Valid()
      ensures ok <==> newNode !in old(tree.mp)
      ensures !ok ==> (tree.mp == old(tree.mp) && rank == old(rank) && grid.view == old(grid.view) &&
                       pathFound == old(pathFound) && numNodesAdded == old(numNodesAdded))
      ensures ok ==> tree.mp == AddLeaf(old(tree.mp), nearestNode, newNode, Trunc(dist(nearestNode, newNode)))
      ensures ok ==> rank == LeafRank(old(rank), nearestNode, newNode)
      ensures ok ==> tree.mp.Keys == old(tree.mp).Keys + {newNode}
      ensures ok ==> numNodesAdded == old(numNodesAdded) + 1
      ensures ok ==> pathFound == (old(pathFound) || EndNear(old(grid.view), newNode))
      ensures ok ==> grid.view == MarkConnection(old(grid.view)[newNode := Node], connect(nearestNode, newNode))
      ensures ok ==> grid.view[newNode] == Node
    {
      ghost var v0 := grid.view;
      ok := InsertLeaf(nearestNode, newNode);
      assert grid.view == v0;
      if !ok {
        return;
      }
      ConnectNewNode(nearestNode, newNode);
    }

    /** The second half of `placeNodeRRT`: the nearest node is looked up
        again and the new node hung under it. */
    method ConnectToNearest(rNode: Cell, newNode: Cell) returns (ok: bool, ghost nearest: Option<Cell>)
      requires Valid() && InGrid(newNode, grid.n)
      modifies tree, grid`view, grid.cells, this`rank, this`pathFound, this`numNodesAdded
      ensures Valid()
      ensures IsFirstMin(old(tree.mp).Keys, DistanceFrom(dist, rNode), IntMaxAsFloat, nearest)
      ensures ok ==> nearest.Some? && newNode !in old(tree.mp) && numNodesAdded == old(numNodesAdded) + 1
      ensures ok ==> tree.mp == AddLeaf(old(tree.mp), nearest.value, newNode, Trunc(dist(nearest.value, newNode)))
      ensures ok ==> grid.view[newNode] == Node
      ensures !ok ==> tree.mp == old(tree.mp) && numNodesAdded == old(numNodesAdded) && grid.view == old(grid.view)
      ensures old(pathFound) ==> pathFound
    {
      var near := GetNearestNode(rNode);
      nearest := near;
      if near.None? {
        return false, nearest;
      }
      ok := CreateAndConnectNewNode(near.value, newNode);
    }

    /** `placeNodeRRT`: the candidate is computed and validated, the nearest
        node looked up again (the tree has not changed, so it is the same
        node) and the candidate hung under it. */
    method PlaceNodeRRT(rNode: Cell) returns (ok: bool, newNode: Cell, ghost nearest: Option<Cell>)
      requires Valid() && InGrid(rNode, grid.n)
      modifies tree, grid`view, grid.cells, this`rank, this`pathFound, this`numNodesAdded
      ensures Valid()
      ensures IsFirstMin(old(tree.mp).Keys, DistanceFrom(dist, rNode), IntMaxAsFloat, nearest)
      ensures ok ==> nearest.Some? && newNode !in old(tree.mp) && numNodesAdded == old(numNodesAdded) + 1
      ensures ok ==> tree.mp == AddLeaf(old(tree.mp), nearest.value, newNode, Trunc(dist(nearest.value, newNode)))
      ensures ok ==> grid.view[newNode] == Node
      ensures !ok ==> tree.mp == old(tree.mp) && numNodesAdded == old(numNodesAdded) && grid.view == old(grid.view)
      ensures old(pathFound) ==> pathFound
    {
      var valid;
      valid, newNode, nearest := ComputeNewNodeAndValidate(rNode);
      if !valid {
        return false, newNode, nearest;
      }
      ghost var again;
      ok, again := ConnectToNearest(rNode, newNode);
      FirstMinUnique(old(tree.mp).Keys, DistanceFrom(dist, rNode), IntMaxAsFloat, nearest, again);
    }

    // -------------------------------------------------------------------
    // RRT*: the neighbourhood scan and the rewiring of `placeNodeRRTStar`.
    // -------------------------------------------------------------------

    /** The cost of reaching `to` through the node `via`: the cost of `via`
        from the root plus the step between them. */
    function RouteCost(mp: map<Cell, NodeRec>, ghost rk: map<Cell, nat>, via: Cell, to: Cell): real
      requires RankOk(mp, rk) && via in mp
    {
      DistanceToRoot(mp, dist, via, rk) + dist(to, via)
    }

    /** `RouteCost` into `to` as a total function of the node. */
    ghost function RouteCostTo(mp: map<Cell, NodeRec>, rk: map<Cell, nat>, to: Cell): Cell -> real {
      k => if RankOk(mp, rk) && k in mp then RouteCost(mp, rk, k, to) else 0.0
    }

    /** A node the scan of `placeNodeRRTStar` keeps: within `neighborhood`
        of the new node, and the segment from it to the new node passes
        `isNodeValid`. */
    ghost predicate Eligible(v: map<Cell, CellState>, newNode: Cell, q: Cell)
      requires forall c :: c in v <==> InGrid(c, grid.n)
      requires InGrid(q, grid.n) && InGrid(newNode, grid.n)
    {
      dist(newNode, q) <= neighborhood as real && !CheckSegment(v, q, newNode).Blocked?
    }

    /** A node at which the scan stops and connects the new node: eligible,
        and a path has been found (before the scan, or by this segment). */
    ghost predicate Connects(v: map<Cell, CellState>, pf0: bool, newNode: Cell, q: Cell)
      requires forall c :: c in v <==> InGrid(c, grid.n)
      requires InGrid(q, grid.n) && InGrid(newNode, grid.n)
    {
      Eligible(v, newNode, q) && (pf0 || CheckSegment(v, q, newNode).Goal?)
    }

    /** What the scan needs: a view of the whole grid, a ranked tree on the
        grid, and a new node on the grid. */
    ghost predicate ScanReady(v: map<Cell, CellState>, mp: map<Cell, NodeRec>, rk: map<Cell, nat>,
                              newNode: Cell) {
      (forall c :: c in v <==> InGrid(c, grid.n)) &&
      RankOk(mp, rk) && KeysInGrid(mp, grid.n) && InGrid(newNode, grid.n)
    }

    /** The scan of `placeNodeRRTStar` over the keys `ks` in map order, with
        the neighbours `ns` kept so far and the running minimum `best` of
        cost `minCost`: ineligible keys are skipped; at a key that connects
        the scan ends; otherwise the key is kept and replaces the minimum
        when its route is strictly cheaper. */
    ghost function ScanFold(v: map<Cell, CellState>, mp: map<Cell, NodeRec>, rk: map<Cell, nat>,
                            pf0: bool, newNode: Cell, ks: seq<Cell>,
                            ns: seq<Cell>, best: Option<Cell>, minCost: real): Scan
      requires ScanReady(v, mp, rk, newNode)
      requires forall k :: 0 <= k < |ks| ==> ks[k] in mp
      decreases |ks|
    {
      if ks == [] then Candidates(ns, best)
      else
        var q := ks[0];
        if !Eligible(v, newNode, q) then
          ScanFold(v, mp, rk, pf0, newNode, ks[1..], ns, best, minCost)
        else if Connects(v, pf0, newNode, q) then
          ConnectTo(q, Snap(v, q, newNode))
        else if RouteCost(mp, rk, q, newNode) < minCost then
          ScanFold(v, mp, rk, pf0, newNode, ks[1..], ns + [q], Some(q), RouteCost(mp, rk, q, newNode))
        else
          ScanFold(v, mp, rk, pf0, newNode, ks[1..], ns + [q], best, minCost)
    }

    /** One key of the scan, case by case. */
    lemma ScanFoldStep(v: map<Cell, CellState>, mp: map<Cell, NodeRec>, rk: map<Cell, nat>,
                       pf0: bool, newNode: Cell, q: Cell, ks: seq<Cell>,
                       ns: seq<Cell>, best: Option<Cell>, minCost: real)
      requires ScanReady(v, mp, rk, newNode)
      requires q in mp && forall k :: 0 <= k < |ks| ==> ks[k] in mp
      ensures !Eligible(v, newNode, q) ==>
        ScanFold(v, mp, rk, pf0, newNode, [q] + ks, ns, best, minCost) ==
        ScanFold(v, mp, rk, pf0, newNode, ks, ns, best, minCost)
      ensures Connects(v, pf0, newNode, q) ==>
        ScanFold(v, mp, rk, pf0, newNode, [q] + ks, ns, best, minCost) == ConnectTo(q, Snap(v, q, newNode))
      ensures Eligible(v, newNode, q) && !Connects(v, pf0, newNode, q) ==>
        ScanFold(v, mp, rk, pf0, newNode, [q] + ks, ns, best, minCost) ==
        if RouteCost(mp, rk, q, newNode) < minCost
        then ScanFold(v, mp, rk, pf0, newNode, ks, ns + [q], Some(q), RouteCost(mp, rk, q, newNode))
        else ScanFold(v, mp, rk, pf0, newNode, ks, ns + [q], best, minCost)
    {
      assert ([q] + ks)[1..] == ks;
    }

    /** `r` is what the scan over all keys of `mp` in map order yields. */
    ghost predicate ScanOf(v: map<Cell, CellState>, mp: map<Cell, NodeRec>, rk: map<Cell, nat>,
                           pf0: bool, newNode: Cell, r: Scan)
      requires ScanReady(v, mp, rk, newNode)
    {
      r == ScanFold(v, mp, rk, pf0, newNode, MapOrder(mp.Keys), [], None, IntMaxAsFloat)
    }

    /** A scan that connects stops at a key that connects, with every key
        before it not connecting, and snaps the new node as `isNodeValid`
        does on that segment. */
    lemma {:induction false} ScanFoldConnect(v: map<Cell, CellState>, mp: map<Cell, NodeRec>,
                                             rk: map<Cell, nat>, pf0: bool, newNode: Cell,
                                             ks: seq<Cell>, ns: seq<Cell>, best: Option<Cell>,
                                             minCost: real) returns (i: nat)
      requires ScanReady(v, mp, rk, newNode)
      requires forall k :: 0 <= k < |ks| ==> ks[k] in mp
      requires ScanFold(v, mp, rk, pf0, newNode, ks, ns, best, minCost).ConnectTo?
      ensures i < |ks| && ks[i] == ScanFold(v, mp, rk, pf0, newNode, ks, ns, best, minCost).q
      ensures Connects(v, pf0, newNode, ks[i])
      ensures ScanFold(v, mp, rk, pf0, newNode, ks, ns, best, minCost).at == Snap(v, ks[i], newNode)
      ensures forall j :: 0 <= j < i ==> !Connects(v, pf0, newNode, ks[j])
      decreases |ks|
    {
      var q := ks[0];
      if Connects(v, pf0, newNode, q) {
        return 0;
      }
      var ns', best', minCost' := ns, best, minCost;
      if Eligible(v, newNode, q) {
        ns' := ns + [q];
        if RouteCost(mp, rk, q, newNode) < minCost {
          best', minCost' := Some(q), RouteCost(mp, rk, q, newNode);
        }
      }
      var i' := ScanFoldConnect(v, mp, rk, pf0, newNode, ks[1..], ns', best', minCost');
      i := i' + 1;
    }

    /** A scan that ends without connecting met no key that connects; the
        neighbours it kept are, in map order, the kept ones so far followed
        by the eligible keys; the selection is the first minimum of their
        route costs below `INT_MAX`. */
    lemma {:induction false} ScanFoldCandidates(v: map<Cell, CellState>, mp: map<Cell, NodeRec>,
                                                rk: map<Cell, nat>, pf0: bool, newNode: Cell,
                                                ks: seq<Cell>, ns: seq<Cell>, best: Option<Cell>,
                                                minCost: real)
      requires ScanReady(v, mp, rk, newNode)
      requires forall k :: 0 <= k < |ks| ==> ks[k] in mp
      requires LexSorted(ks) && LexSorted(ns)
      requires forall a, b :: a in ns && b in ks ==> LexLess(a, b)
      requires IsFirstMin(Elems(ns), RouteCostTo(mp, rk, newNode), IntMaxAsFloat, best)
      requires minCost == MinSoFar(RouteCostTo(mp, rk, newNode), IntMaxAsFloat, best)
      requires ScanFold(v, mp, rk, pf0, newNode, ks, ns, best, minCost).Candidates?
      ensures forall k :: k in ks ==> !Connects(v, pf0, newNode, k)
      ensures LexSorted(ScanFold(v, mp, rk, pf0, newNode, ks, ns, best, minCost).ns)
      ensures forall x :: x in ScanFold(v, mp, rk, pf0, newNode, ks, ns, best, minCost).ns <==>
        x in ns || (x in ks && Eligible(v, newNode, x))
      ensures IsFirstMin(Elems(ScanFold(v, mp, rk, pf0, newNode, ks, ns, best, minCost).ns),
                         RouteCostTo(mp, rk, newNode), IntMaxAsFloat,
                         ScanFold(v, mp, rk, pf0, newNode, ks, ns, best, minCost).best)
      decreases |ks|
    {
      if ks == [] {
        return;
      }
      var q := ks[0];
      assert forall k :: 1 <= k < |ks| ==> ks[k] == ks[1..][k - 1];
      if !Eligible(v, newNode, q) {
        ScanFoldCandidates(v, mp, rk, pf0, newNode, ks[1..], ns, best, minCost);
        return;
      }
      var cost := RouteCostTo(mp, rk, newNode);
      assert cost(q) == RouteCost(mp, rk, q, newNode);
      FirstMinExtend(Elems(ns), q, cost, IntMaxAsFloat, best);
      assert Elems(ns + [q]) == Elems(ns) + {q};
      var best' := if RouteCost(mp, rk, q, newNode) < minCost then Some(q) else best;
      var minCost' := if RouteCost(mp, rk, q, newNode) < minCost then RouteCost(mp, rk, q, newNode) else minCost;
      assert LexSorted(ns + [q]);
      ScanFoldCandidates(v, mp, rk, pf0, newNode, ks[1..], ns + [q], best', minCost');
    }

    /** When the scan connects, it does so at the first key in map order that
        connects, with the new node snapped as on that segment. */
    lemma ScanConnects(v: map<Cell, CellState>, mp: map<Cell, NodeRec>, rk: map<Cell, nat>,
                       pf0: bool, newNode: Cell, r: Scan)
      requires ScanReady(v, mp, rk, newNode) && ScanOf(v, mp, rk, pf0, newNode, r) && r.ConnectTo?
      ensures r.q in mp && InGrid(r.q, grid.n)
      ensures Connects(v, pf0, newNode, r.q) && r.at == Snap(v, r.q, newNode)
      ensures forall k :: k in mp && LexLess(k, r.q) ==> !Connects(v, pf0, newNode, k)
    {
      var ks := MapOrder(mp.Keys);
      MapOrderSorted(mp.Keys);
      var i := ScanFoldConnect(v, mp, rk, pf0, newNode, ks, [], None, IntMaxAsFloat);
      forall k | k in mp && LexLess(k, r.q)
        ensures !Connects(v, pf0, newNode, k)
      {
        var j := SortedBefore(ks, i, k);
      }
    }

    /** When the scan does not connect, no key connects; the neighbours are
        exactly the eligible keys in map order, and the selected parent is
        their first minimum of route cost below `INT_MAX` (none when no
        neighbour was kept). */
    lemma ScanCandidates(v: map<Cell, CellState>, mp: map<Cell, NodeRec>, rk: map<Cell, nat>,
                         pf0: bool, newNode: Cell, r: Scan)
      requires ScanReady(v, mp, rk, newNode) && ScanOf(v, mp, rk, pf0, newNode, r) && r.Candidates?
      ensures forall k :: k in mp ==> !Connects(v, pf0, newNode, k)
      ensures LexSorted(r.ns) && forall x :: x in r.ns <==> x in mp && Eligible(v, newNode, x)
      ensures IsFirstMin(Elems(r.ns), RouteCostTo(mp, rk, newNode), IntMaxAsFloat, r.best)
    {
      var ks := MapOrder(mp.Keys);
      MapOrderSorted(mp.Keys);
      FirstMinNone(RouteCostTo(mp, rk, newNode), IntMaxAsFloat);
      assert Elems([]) == {};
      ScanFoldCandidates(v, mp, rk, pf0, newNode, ks, [], None, IntMaxAsFloat);
    }

    /** The nodes the scan yields are nodes of the tree: the one it connects
        at, or the kept neighbours and the cheapest of them. */
    lemma ScanTargets(v: map<Cell, CellState>, mp: map<Cell, NodeRec>, rk: map<Cell, nat>,
                      pf0: bool, newNode: Cell, r: Scan)
      requires ScanReady(v, mp, rk, newNode) && ScanOf(v, mp, rk, pf0, newNode, r)
      ensures r.ConnectTo? ==> r.q in mp && InGrid(r.at, grid.n)
      ensures r.Candidates? ==> (forall k :: 0 <= k < |r.ns| ==> r.ns[k] in mp) &&
                                (r.best.Some? ==> r.best.value in mp)
    {
      if r.ConnectTo? {
        ScanConnects(v, mp, rk, pf0, newNode, r);
      } else {
        ScanCandidates(v, mp, rk, pf0, newNode, r);
        assert forall k :: 0 <= k < |r.ns| ==> r.ns[k] in r.ns;
      }
    }

    /** One key of the scan loop of `placeNodeRRTStar`: the distance test
        against `neighborhood` and `isNodeValid` on the segment from the key to
        the new node; a valid key either stops the scan (a path has been
        found) or is kept, replacing the running minimum when its route is
        strictly cheaper. */
    method ScanKey(ghost v: map<Cell, CellState>, ghost mp: map<Cell, NodeRec>, ghost rk: map<Cell, nat>,
                   newNode: Cell, q: Cell, ghost ks: seq<Cell>,
                   ns: seq<Cell>, best: Option<Cell>, minCost: real)
      returns (stop: bool, snapped: Cell, ns': seq<Cell>, best': Option<Cell>, minCost': real)
      requires grid.Valid() && grid.view == v && tree.mp == mp && rank == rk
      requires ScanReady(v, mp, rk, newNode) && q in mp
      requires forall k :: 0 <= k < |ks| ==> ks[k] in mp
      modifies this`pathFound
      ensures pathFound == (old(pathFound) || stop)
      ensures stop ==>
        ScanFold(v, mp, rk, old(pathFound), newNode, [q] + ks, ns, best, minCost) == ConnectTo(q, snapped)
      ensures !stop ==>
        ScanFold(v, mp, rk, old(pathFound), newNode, [q] + ks, ns, best, minCost) ==
        ScanFold(v, mp, rk, old(pathFound), newNode, ks, ns', best', minCost')
    {
      ghost var pf0 := pathFound;
      ScanFoldStep(v, mp, rk, pf0, newNode, q, ks, ns, best, minCost);
      stop, snapped, ns', best', minCost' := false, newNode, ns, best, minCost;
      var d := dist(newNode, q);
      if d <= neighborhood as real {
        var valid;
        valid, snapped := IsNodeValid(q, newNode);
        if valid {
          stop := pathFound;
          if !stop {
            ns' := ns + [q];
            d := DistanceToRoot(tree.mp, dist, q, rank) + dist(newNode, q);
            if d < minCost {
              minCost' := d;
              best' := Some(q);
            }
          }
        }
      }
    }

    /** The scan loop of `placeNodeRRTStar`: the keys in map order, those
        within `neighborhood` checked by `isNodeValid`; at the first valid one
        once a path is found the scan stops, otherwise valid neighbours are
        kept and the strictly cheapest route remembered. */
    method ScanNeighbourhood(newNode: Cell) returns (r: Scan)
      requires grid.Valid() && ScanReady(grid.view, tree.mp, rank, newNode)
      modifies this`pathFound
      ensures ScanOf(grid.view, tree.mp, rank, old(pathFound), newNode, r)
      ensures pathFound == (old(pathFound) || r.ConnectTo?)
    {
      ghost var v, mp, rk, pf0 := grid.view, tree.mp, rank, pathFound;
      ghost var r0 := ScanFold(v, mp, rk, pf0, newNode, MapOrder(mp.Keys), [], None, IntMaxAsFloat);
      var ns: seq<Cell> := [];
      var best: Option<Cell> := None;
      var minCost := IntMaxAsFloat;
      var rest := tree.mp.Keys;
      while rest != {}
        invariant rest <= mp.Keys && pathFound == pf0 && tree.mp == mp && rank == rk && grid.view == v
        invariant ScanFold(v, mp, rk, pf0, newNode, MapOrder(rest), ns, best, minCost) == r0
        decreases |rest|
      {
        var q;
        q, rest := PopFirst(rest);
        ghost var ks := MapOrder(rest);
        var stop, snapped;
        stop, snapped, ns, best, minCost := ScanKey(v, mp, rk, newNode, q, ks, ns, best, minCost);
        if stop {
          return ConnectTo(q, snapped);
        }
      }
      return Candidates(ns, best);
    }

    /** `m` (ranked by `r`) is `mp` (ranked by `rk`) after the rewiring loop
        has visited the neighbours `ns[..k]`: the same nodes, no node dearer
        to reach from the root, `newNode` exactly as dear, every visited
        neighbour no dearer than the route through `newNode`, and the only
        parent links changed are visited neighbours moved under `newNode`. */
    ghost predicate RewiredBy(mp: map<Cell, NodeRec>, rk: map<Cell, nat>, m: map<Cell, NodeRec>,
                              r: map<Cell, nat>, newNode: Cell, ns: seq<Cell>, k: nat) {
      RankOk(mp, rk) && RankOk(m, r) && m.Keys == mp.Keys && newNode in mp && k <= |ns| &&
      (forall x :: x in mp ==> DistanceToRoot(m, dist, x, r) <= DistanceToRoot(mp, dist, x, rk)) &&
      DistanceToRoot(m, dist, newNode, r) == DistanceToRoot(mp, dist, newNode, rk) &&
      (forall j :: 0 <= j < k && ns[j] in m ==>
         DistanceToRoot(m, dist, ns[j], r) <= RouteCost(m, r, newNode, ns[j])) &&
      (forall x :: x in m ==> m[x].parent == mp[x].parent || (x in ns[..k] && m[x].parent == Some(newNode)))
    }

    /** Visiting no neighbour changes nothing. */
    lemma RewiredByNone(mp: map<Cell, NodeRec>, rk: map<Cell, nat>, newNode: Cell, ns: seq<Cell>)
      requires RankOk(mp, rk) && newNode in mp
      ensures RewiredBy(mp, rk, mp, rk, newNode, ns, 0)
    {
    }

    /** A neighbour whose route through `newNode` is not strictly cheaper
        is left where it is. */
    lemma RewireSkip(mp: map<Cell, NodeRec>, rk: map<Cell, nat>, newNode: Cell, nb: Cell)
      requires RankOk(mp, rk) && newNode in mp && nb in mp
      requires !(RouteCost(mp, rk, newNode, nb) < DistanceToRoot(mp, dist, nb, rk))
      ensures RewiredBy(mp, rk, mp, rk, newNode, [nb], 1)
    {
    }

    /** A re-parenting of `nb` under `newNode` is one step of `RewiredBy`. */
    lemma RewiredByMoved(mp: map<Cell, NodeRec>, rk: map<Cell, nat>, m: map<Cell, NodeRec>, r: map<Cell, nat>,
                         newNode: Cell, nb: Cell)
      requires Rerouted(mp, rk, m, r, dist, nb, newNode)
      ensures RewiredBy(mp, rk, m, r, newNode, [nb], 1)
    {
      assert [nb][..1][0] == nb;
    }

    /** The steps of the rewiring loop compose. */
    lemma RewiredByStep(mp: map<Cell, NodeRec>, rk: map<Cell, nat>, m1: map<Cell, NodeRec>, r1: map<Cell, nat>,
                        m2: map<Cell, NodeRec>, r2: map<Cell, nat>, newNode: Cell, ns: seq<Cell>, k: nat)
      requires RewiredBy(mp, rk, m1, r1, newNode, ns, k) && k < |ns|
      requires RewiredBy(m1, r1, m2, r2, newNode, [ns[k]], 1)
      ensures RewiredBy(mp, rk, m2, r2, newNode, ns, k + 1)
    {
      assert ns[..k + 1] == ns[..k] + [ns[k]];
      forall j | 0 <= j < k + 1 && ns[j] in m2
        ensures DistanceToRoot(m2, dist, ns[j], r2) <= RouteCost(m2, r2, newNode, ns[j])
      {
        if j < k {
          assert DistanceToRoot(m1, dist, ns[j], r1) <= RouteCost(m1, r1, newNode, ns[j]);
        } else {
          assert [ns[k]][0] == ns[j];
        }
      }
    }

    /** The rerouting branch of the rewiring loop: `removeEdge(nb->parent,
        nb)` then `addEdge(newNode, nb)`, each of which the source asserts
        succeeds. */
    method MoveUnder(newNode: Cell, nb: Cell, d: int)
      requires Valid() && newNode in tree.mp && nb in tree.mp
      requires RouteCost(tree.mp, rank, newNode, nb) < DistanceToRoot(tree.mp, dist, nb, rank)
      modifies tree, this`rank
      ensures Valid() && tree.root == old(tree.root)
      ensures old(tree.mp)[nb].parent.Some? && old(tree.mp)[nb].parent.value in old(tree.mp)
      ensures tree.mp == Reparent(old(tree.mp), nb, newNode, d)
      ensures RewiredBy(old(tree.mp), old(rank), tree.mp, rank, newNode, [nb], 1)
      ensures unchanged(this`pathFound, this`numNodesAdded, grid`view)
    {
      ghost var m0, r0 := tree.mp, rank;
      ghost var r := RewireRanked(m0, r0, tree.root, dist, nb, newNode, d);
      RerouteRanked(nb, newNode, d, r);
      RewiredByMoved(m0, r0, tree.mp, rank, newNode, nb);
    }

    /** The tree half of the rerouting: `removeEdge` then `addEdge` through
        `Tree.Reroute`, with the new rank. */
    method RerouteRanked(nb: Cell, newNode: Cell, d: int, ghost r: map<Cell, nat>)
      requires Valid() && nb in tree.mp && newNode in tree.mp
      requires tree.mp[nb].parent.Some? && tree.mp[nb].parent.value in tree.mp
      requires TreeShape(Reparent(tree.mp, nb, newNode, d), tree.root, r)
      modifies tree, this`rank
      ensures Valid() && tree.root == old(tree.root) && rank == r
      ensures tree.mp == Reparent(old(tree.mp), nb, newNode, d)
      ensures unchanged(this`pathFound, this`numNodesAdded, grid`view)
    {
      var ok := tree.Reroute(nb, newNode, d);
      if !ok {
        assert false;
      }
      rank := r;
      TreeKeepsValid();
    }

    /** One step of the rewiring loop of `placeNodeRRTStar`: `nb` is moved
        under `newNode`, with the truncated step as the edge's distance,
        exactly when the route through `newNode` is strictly cheaper than
        its own. */
    method RewireOne(newNode: Cell, nb: Cell) returns (rewired: bool)
      requires Valid() && newNode in tree.mp && nb in tree.mp
      modifies tree, this`rank
      ensures Valid() && tree.root == old(tree.root)
      ensures rewired <==>
        RouteCost(old(tree.mp), old(rank), newNode, nb) < DistanceToRoot(old(tree.mp), dist, nb, old(rank))
      ensures rewired ==>
        old(tree.mp)[nb].parent.Some? && old(tree.mp)[nb].parent.value in old(tree.mp) &&
        tree.mp == Reparent(old(tree.mp), nb, newNode, Trunc(dist(newNode, nb)))
      ensures !rewired ==> tree.mp == old(tree.mp) && rank == old(rank)
      ensures RewiredBy(old(tree.mp), old(rank), tree.mp, rank, newNode, [nb], 1)
      ensures unchanged(this`pathFound, this`numNodesAdded, grid`view)
    {
      var dToNNode := DistanceToRoot(tree.mp, dist, nb, rank);
      var dNewBridge := dist(newNode, nb);
      var dNewRoute := DistanceToRoot(tree.mp, dist, newNode, rank) + dNewBridge;
      if !(dNewRoute < dToNNode) {
        RewireSkip(tree.mp, rank, newNode, nb);
        return false;
      }
      MoveUnder(newNode, nb, Trunc(dNewBridge));
      rewired := true;
    }

    /** The rewiring loop of `placeNodeRRTStar` over the kept neighbours in
        order. */
    method Rewire(newNode: Cell, ns: seq<Cell>)
      requires Valid() && newNode in tree.mp && forall k :: 0 <= k < |ns| ==> ns[k] in tree.mp
      modifies tree, this`rank
      ensures Valid() && tree.root == old(tree.root) && tree.mp.Keys == old(tree.mp).Keys
      ensures RewiredBy(old(tree.mp), old(rank), tree.mp, rank, newNode, ns, |ns|)
      ensures unchanged(this`pathFound, this`numNodesAdded, grid`view)
    {
      ghost var m0, r0 := tree.mp, rank;
      RewiredByNone(m0, r0, newNode, ns);
      var k := 0;
      while k < |ns|
        invariant Valid() && tree.root == old(tree.root) && tree.mp.Keys == m0.Keys
        invariant RewiredBy(m0, r0, tree.mp, rank, newNode, ns, k)
        invariant unchanged(this`pathFound, this`numNodesAdded, grid`view)
      {
        ghost var m1, r1 := tree.mp, rank;
        var _ := RewireOne(newNode, ns[k]);
        RewiredByStep(m0, r0, m1, r1, tree.mp, rank, newNode, ns, k);
        k := k + 1;
      }
    }

    /** After the new node is hung under `best` and the rewiring loop has
        visited all of `ns`, the new node still hangs under `best` and costs
        the route through it ... */
    lemma StarLeaf(mp: map<Cell, NodeRec>, rk: map<Cell, nat>, best: Cell, newNode: Cell, d: int,
                   ns: seq<Cell>, m: map<Cell, NodeRec>, r: map<Cell, nat>)
      requires RankOk(mp, rk) && best in mp && newNode !in mp
      requires forall k :: 0 <= k < |ns| ==> ns[k] in mp
      requires RewiredBy(AddLeaf(mp, best, newNode, d), LeafRank(rk, best, newNode), m, r, newNode, ns, |ns|)
      ensures newNode in m && m[newNode].parent == Some(best)
      ensures DistanceToRoot(m, dist, newNode, r) == RouteCost(mp, rk, best, newNode)
    {
      var m', r' := AddLeaf(mp, best, newNode, d), LeafRank(rk, best, newNode);
      AddLeafAt(mp, best, newNode, d);
      assert newNode !in ns[..|ns|];
      AddLeafGrows(mp, rk, dist, best, newNode, d);
      assert DistanceToRoot(m', dist, newNode, r') == dist(best, newNode) + DistanceToRoot(mp, dist, best, rk);
    }

    /** ... no node of the tree before the insertion has become dearer, and
        every kept neighbour is no dearer than the route through the new
        node. */
    lemma StarNoWorse(mp: map<Cell, NodeRec>, rk: map<Cell, nat>, best: Cell, newNode: Cell, d: int,
                      ns: seq<Cell>, m: map<Cell, NodeRec>, r: map<Cell, nat>)
      requires RankOk(mp, rk) && best in mp && newNode !in mp
      requires forall k :: 0 <= k < |ns| ==> ns[k] in mp
      requires RewiredBy(AddLeaf(mp, best, newNode, d), LeafRank(rk, best, newNode), m, r, newNode, ns, |ns|)
      ensures forall x :: x in mp ==> x in m && DistanceToRoot(m, dist, x, r) <= DistanceToRoot(mp, dist, x, rk)
      ensures forall j :: 0 <= j < |ns| ==> ns[j] in m && DistanceToRoot(m, dist, ns[j], r) <= RouteCost(m, r, newNode, ns[j])
    {
      AddLeafGrows(mp, rk, dist, best, newNode, d);
    }

    /** The end of `placeNodeRRTStar` when the scan kept a cheapest
        neighbour `best`: `createAndConnectNewNode(best, newNode)`, then the
        rewiring loop over the kept neighbours `ns`. */
    method AddAndRewire(best: Cell, newNode: Cell, ns: seq<Cell>) returns (ok: bool)
      requires Valid() && best in tree.mp && InGrid(newNode, grid.n)
      requires forall k :: 0 <= k < |ns| ==> ns[k] in tree.mp
      modifies tree, grid`view, grid.cells, this`rank, this`pathFound, this`numNodesAdded
      ensures Valid()
      ensures ok <==> newNode !in old(tree.mp)
      ensures !ok ==> (tree.mp == old(tree.mp) && rank == old(rank) && grid.view == old(grid.view) &&
                       pathFound == old(pathFound) && numNodesAdded == old(numNodesAdded))
      ensures ok ==> numNodesAdded == old(numNodesAdded) + 1
      ensures ok ==> pathFound == (old(pathFound) || EndNear(old(grid.view), newNode))
      ensures ok ==> grid.view == MarkConnection(old(grid.view)[newNode := Node], connect(best, newNode))
      ensures ok ==> grid.view[newNode] == Node && tree.mp.Keys == old(tree.mp).Keys + {newNode}
      ensures ok ==> RewiredBy(AddLeaf(old(tree.mp), best, newNode, Trunc(dist(best, newNode))),
                               LeafRank(old(rank), best, newNode), tree.mp, rank, newNode, ns, |ns|)
    {
      ok := CreateAndConnectNewNode(best, newNode);
      if !ok {
        return;
      }
      Rewire(newNode, ns);
    }

    /** What the connection step of `placeNodeRRTStar` does to the tree
        `m0` (ranked by `r0`) and the counter `n0` for the scan result
        `scan`, giving `m`, `r` and `n`: at a node where a path was found the
        (snapped) node is hung under it; otherwise it is hung under the
        cheapest neighbour and the neighbours are rewired; it fails, changing
        nothing, when the node is already in the tree or no neighbour was
        kept. `placed` is the node as the in-out parameter leaves it. */
    ghost predicate StarPlaced(m0: map<Cell, NodeRec>, r0: map<Cell, nat>, n0: int, newNode: Cell, scan: Scan,
                               ok: bool, placed: Cell, m: map<Cell, NodeRec>, r: map<Cell, nat>, n: int) {
      RankOk(m0, r0) &&
      (scan.ConnectTo? ==>
         placed == scan.at && scan.q in m0 && (ok <==> scan.at !in m0) &&
         (ok ==> m == AddLeaf(m0, scan.q, scan.at, Trunc(dist(scan.q, scan.at))))) &&
      (scan.Candidates? ==>
         placed == newNode && (ok <==> scan.best.Some? && newNode !in m0) &&
         (ok ==> scan.best.value in m0 && (forall k :: 0 <= k < |scan.ns| ==> scan.ns[k] in m0) &&
                 RewiredBy(AddLeaf(m0, scan.best.value, newNode, Trunc(dist(scan.best.value, newNode))),
                           LeafRank(r0, scan.best.value, newNode), m, r, newNode, scan.ns, |scan.ns|))) &&
      (ok ==> m.Keys == m0.Keys + {placed} && placed !in m0 && n == n0 + 1) &&
      (!ok ==> m == m0 && r == r0 && n == n0)
    }

    /** The connection step of `placeNodeRRTStar` for a given scan result:
        at the node where a path was found, or to the cheapest neighbour
        followed by the rewiring loop. With no neighbour kept the source
        reads an uninitialised pointer; here the step fails. */
    method ConnectScan(newNode: Cell, scan: Scan) returns (ok: bool, placed: Cell)
      requires Valid() && InGrid(newNode, grid.n)
      requires scan.ConnectTo? ==> scan.q in tree.mp && InGrid(scan.at, grid.n)
      requires scan.Candidates? ==> (forall k :: 0 <= k < |scan.ns| ==> scan.ns[k] in tree.mp) &&
                                    (scan.best.Some? ==> scan.best.value in tree.mp)
      modifies tree, grid`view, grid.cells, this`rank, this`pathFound, this`numNodesAdded
      ensures Valid()
      ensures old(pathFound) ==> pathFound
      ensures StarPlaced(old(tree.mp), old(rank), old(numNodesAdded), newNode, scan, ok, placed,
                         tree.mp, rank, numNodesAdded)
      ensures ok ==> grid.view[placed] == Node
      ensures !ok ==> grid.view == old(grid.view)
    {
      if scan.ConnectTo? {
        placed := scan.at;
        ok := CreateAndConnectNewNode(scan.q, placed);
        return;
      }
      placed := newNode;
      if scan.best.None? {
        return false, placed;
      }
      ok := AddAndRewire(scan.best.value, newNode, scan.ns);
    }

    /** `placeNodeRRTStar` after the candidate has been validated: the
        neighbourhood scan, then `ConnectScan` on its result. */
    method ConnectStar(newNode: Cell) returns (ok: bool, placed: Cell, ghost r: Scan)
      requires Valid() && InGrid(newNode, grid.n)
      modifies tree, grid`view, grid.cells, this`rank, this`pathFound, this`numNodesAdded
      ensures Valid()
      ensures ScanReady(old(grid.view), old(tree.mp), old(rank), newNode)
      ensures ScanOf(old(grid.view), old(tree.mp), old(rank), old(pathFound), newNode, r)
      ensures old(pathFound) ==> pathFound
      ensures StarPlaced(old(tree.mp), old(rank), old(numNodesAdded), newNode, r, ok, placed,
                         tree.mp, rank, numNodesAdded)
      ensures ok ==> grid.view[placed] == Node
      ensures !ok ==> grid.view == old(grid.view)
    {
      ghost var v0, m0, r0, pf0, n0 := grid.view, tree.mp, rank, pathFound, numNodesAdded;
      var scan := ScanNeighbourhood(newNode);
      assert grid.view == v0 && tree.mp == m0 && rank == r0 && numNodesAdded == n0;
      FlagKeepsValid();
      r := scan;
      ScanTargets(v0, m0, r0, pf0, newNode, scan);
      ok, placed := ConnectScan(newNode, scan);
    }

    /** `placeNodeRRTStar`: the candidate is computed and validated as in
        RRT, then connected to its neighbourhood by `ConnectStar`. `cand` is
        the validated candidate and `pf` the path flag after validation, on
        which the scan starts. */
    method PlaceNodeRRTStar(rNode: Cell) returns (ok: bool, newNode: Cell, ghost nearest: Option<Cell>,
                                                 ghost cand: Cell, ghost pf: bool, ghost r: Scan)
      requires Valid() && InGrid(rNode, grid.n)
      modifies tree, grid`view, grid.cells, this`rank, this`pathFound, this`numNodesAdded
      ensures Valid()
      ensures IsFirstMin(old(tree.mp).Keys, DistanceFrom(dist, rNode), IntMaxAsFloat, nearest)
      ensures nearest.None? ==> !ok
      ensures nearest.Some? ==> InGrid(Candidate(nearest.value, rNode), grid.n)
      ensures nearest.Some? && CheckSegment(old(grid.view), nearest.value, Candidate(nearest.value, rNode)).Blocked? ==> !ok
      ensures nearest.Some? && !CheckSegment(old(grid.view), nearest.value, Candidate(nearest.value, rNode)).Blocked? ==>
        cand == Snap(old(grid.view), nearest.value, Candidate(nearest.value, rNode)) &&
        pf == (old(pathFound) || CheckSegment(old(grid.view), nearest.value, Candidate(nearest.value, rNode)).Goal?) &&
        ScanReady(old(grid.view), old(tree.mp), old(rank), cand) &&
        ScanOf(old(grid.view), old(tree.mp), old(rank), pf, cand, r) &&
        StarPlaced(old(tree.mp), old(rank), old(numNodesAdded), cand, r, ok, newNode, tree.mp, rank, numNodesAdded)
      ensures ok ==> grid.view[newNode] == Node
      ensures !ok ==> tree.mp == old(tree.mp) && grid.view == old(grid.view) && numNodesAdded == old(numNodesAdded)
      ensures old(pathFound) ==> pathFound
    {
      ghost var v0, m0, r0, n0 := grid.view, tree.mp, rank, numNodesAdded;
      var valid;
      valid, newNode, nearest := ComputeNewNodeAndValidate(rNode);
      assert grid.view == v0 && tree.mp == m0 && rank == r0 && numNodesAdded == n0;
      FlagKeepsValid();
      cand, pf, r := newNode, pathFound, Candidates([], None);
      if !valid {
        return false, newNode, nearest, cand, pf, r;
      }
      ok, newNode, r := ConnectStar(newNode);
    }

    // -------------------------------------------------------------------
    // The episode: the goal check, the start/end selection and one step.
    // -------------------------------------------------------------------

    /** `isPathAlreadyExist`: the keys in map order, stopping at the first
        one whose 3x3 neighbourhood holds an end cell. The in-out parameter
        is left untouched by the source when no key qualifies; here it is
        then `(0, 0)`. */
    method IsPathAlreadyExist() returns (found: bool, lastNode: Cell)
      requires grid.Valid()
      ensures found <==> exists k :: k in tree.mp && EndNear(grid.view, k)
      ensures found ==> lastNode in tree.mp && EndNear(grid.view, lastNode)
      ensures found ==> forall k :: k in tree.mp && LexLess(k, lastNode) ==> !EndNear(grid.view, k)
    {
      ghost var v := grid.view;
      var rest := tree.mp.Keys;
      ghost var seen: set<Cell> := {};
      lastNode := (0, 0);
      while rest != {}
        invariant rest <= tree.mp.Keys && seen == tree.mp.Keys - rest
        invariant Precedes(seen, rest)
        invariant forall k :: k in seen ==> !EndNear(v, k)
        decreases |rest|
      {
        var k := LexFirst(rest);
        var goal := IsGoalReached(k);
        if goal {
          forall p | p in tree.mp && LexLess(p, k)
            ensures !EndNear(v, p)
          {
            assert p !in rest;
          }
          return true, k;
        }
        PrecedesStep(seen, rest, k);
        seen := seen + {k};
        rest := rest - {k};
      }
      found := false;
    }

    /** Key `S`: the start selection is confirmed. */
    method PressStartKey()
      requires Valid()
      modifies this`startCellSet
      ensures Valid() && startCellSet
    {
      startCellSet := true;
    }

    /** Key `E`: the end selection is confirmed. */
    method PressEndKey()
      requires Valid()
      modifies this`endCellSet
      ensures Valid() && endCellSet
    {
      endCellSet := true;
    }

    /** Changes to the grid, its recorded start and end among them, keep
        the planner well formed while the planner is not ready and the grid
        stays well formed with both cells on it. */
    twostate lemma SelectionKeepsValid()
      requires old(Valid()) && !readyToStart && grid.Valid()
      requires InGrid(Start(), grid.n) && InGrid(End(), grid.n)
      requires unchanged(tree, this`rank, this`readyToStart, this`startCellSet, this`endCellSet)
      ensures Valid()
    {
    }

    /** The start branch of `setStartAndEndCells` for a click on `cell`: on
        a free cell the previous start is freed and un-highlighted, the
        start reset to the origin, then recorded at `cell`, marked and
        highlighted; on any other cell nothing changes. */
    method SelectStart(cell: Cell)
      requires Valid() && !readyToStart && InGrid(cell, grid.n)
      modifies grid, grid.cells
      ensures Valid() && End() == old(End())
      ensures old(grid.view)[cell] == Free ==>
        Start() == cell && grid.view == old(grid.view)[old(Start()) := Free][cell := StartCell]
      ensures old(grid.view)[cell] != Free ==> Start() == old(Start()) && grid.view == old(grid.view)
    {
      if grid.IsCellFree(cell.0, cell.1) {
        ghost var e0 := End();
        grid.SetCellAsFree(grid.startX, grid.startY);
        var _ := grid.DeHighlightCell(grid.startX, grid.startY);
        grid.startX, grid.startY := 0, 0;
        assert End() == e0;
        grid.SetCellAsStartCell(cell.0, cell.1);
        var _ := grid.HighlightCell(grid.startX, grid.startY, StartCell);
        assert End() == e0 && Start() == cell;
        SelectionKeepsValid();
      }
    }

    /** The end branch of `setStartAndEndCells` for a click on `cell`: on a
        free cell the square around the previous end is cleared and
        un-highlighted, the end reset to the origin, then recorded at `cell`
        with its square marked and highlighted; on any other cell nothing
        changes. The clear and the marking skip the part of the square off the
        grid (see `SetCellBlockAsFreeClipped` and `SetCellAsEndCellClipped`). */
    method SelectEnd(cell: Cell)
      requires Valid() && !readyToStart && InGrid(cell, grid.n)
      modifies grid, grid.cells
      ensures Valid() && Start() == old(Start())
      ensures old(grid.view)[cell] == Free ==>
        End() == cell &&
        grid.view == Rewritten(Rewritten(old(grid.view), old(End()), grid.endCellWidth, ClearNodeLike),
                               cell, grid.endCellWidth, MarkEnd)
      ensures old(grid.view)[cell] != Free ==> End() == old(End()) && grid.view == old(grid.view)
    {
      if grid.IsCellFree(cell.0, cell.1) {
        ghost var s0 := Start();
        grid.SetCellBlockAsFreeClipped(grid.endX, grid.endY, grid.endCellWidth);
        var _ := grid.DeHighlightCell(grid.endX, grid.endY);
        grid.endX, grid.endY := 0, 0;
        assert Start() == s0;
        grid.SetCellAsEndCellClipped(cell.0, cell.1);
        var _ := grid.HighlightCell(grid.endX, grid.endY, EndCell);
        assert Start() == s0 && End() == cell;
        SelectionKeepsValid();
      }
    }

    /** The last part of `setStartAndEndCells`: with both selections
        confirmed the planner becomes ready and the start cell becomes the
        tree's root and only node. */
    method Confirm()
      requires Valid() && !readyToStart && startCellSet && endCellSet
      modifies tree, this`readyToStart, this`rank
      ensures Valid() && readyToStart
      ensures tree.mp == map[Start() := FreshNode(Start())] && tree.root == Some(Start())
    {
      readyToStart := true;
      var _ := tree.CreateNode((grid.startX, grid.startY));
      rank := map[Start() := 0];
      RootOnlyShape(Start());
    }

    /** `setStartAndEndCells` with the mouse flag passed in and returned and
        the clicked cell given; a click is consumed by the start branch
        while the start is not confirmed, by the end branch once it is and
        the end is not; once both are confirmed the planner becomes ready. */
    method SetStartAndEndCells(clicked: bool, cell: Cell) returns (clickedAfter: bool)
      requires Valid() && InGrid(cell, grid.n)
      modifies grid, grid.cells, tree, this`readyToStart, this`rank
      ensures Valid()
      ensures old(readyToStart) ==>
        readyToStart && clickedAfter == clicked && tree.mp == old(tree.mp) && grid.view == old(grid.view) &&
        Start() == old(Start()) && End() == old(End())
      ensures !old(readyToStart) ==>
        clickedAfter == (clicked && startCellSet && endCellSet) &&
        readyToStart == (startCellSet && endCellSet)
      ensures !old(readyToStart) && clicked && !startCellSet && old(grid.view)[cell] == Free ==>
        Start() == cell && End() == old(End()) && grid.view == old(grid.view)[old(Start()) := Free][cell := StartCell]
      ensures !old(readyToStart) && clicked && startCellSet && !endCellSet && old(grid.view)[cell] == Free ==>
        End() == cell && Start() == old(Start()) &&
        grid.view == Rewritten(Rewritten(old(grid.view), old(End()), grid.endCellWidth, ClearNodeLike),
                               cell, grid.endCellWidth, MarkEnd)
      ensures !(clicked && !(startCellSet && endCellSet) && old(grid.view)[cell] == Free) ==>
        Start() == old(Start()) && End() == old(End()) && grid.view == old(grid.view)
      ensures readyToStart && !old(readyToStart) ==>
        tree.mp == map[Start() := FreshNode(Start())] && tree.root == Some(Start())
    {
      clickedAfter := clicked;
      if readyToStart {
        return;
      }
      if !startCellSet && clickedAfter {
        clickedAfter := false;
        SelectStart(cell);
      }
      if startCellSet && !endCellSet && clickedAfter {
        clickedAfter := false;
        SelectEnd(cell);
      }
      if startCellSet && endCellSet {
        Confirm();
      }
    }

    /** Steps 1 and 2 of `simulationStep`: a sample from the draws and one
        placement by the algorithm the planner was built for. A placement
        adds exactly the returned node, marked on the grid; a failed one,
        or a run of draws that are all obstacles, changes nothing. */
    method Grow(draws: seq<Cell>) returns (ok: bool, newNode: Cell)
      requires Valid() && forall k :: 0 <= k < |draws| ==> InGrid(draws[k], grid.n)
      modifies tree, grid`view, grid.cells, this`rank, this`pathFound, this`numNodesAdded
      ensures Valid()
      ensures (forall k :: 0 <= k < |draws| ==> old(grid.IsCellObstacle(draws[k].0, draws[k].1))) ==> !ok
      ensures ok ==> newNode !in old(tree.mp) && tree.mp.Keys == old(tree.mp).Keys + {newNode} &&
                     numNodesAdded == old(numNodesAdded) + 1 && grid.view[newNode] == Node
      ensures !ok ==> tree.mp == old(tree.mp) && grid.view == old(grid.view) && numNodesAdded == old(numNodesAdded)
      ensures Grown(old(tree.mp), old(grid.view), old(numNodesAdded), newNode)
      ensures old(pathFound) ==> pathFound
    {
      var rNode := GetRandomCell(draws);
      if rNode.None? {
        return false, (0, 0);
      }
      if mode == RRT {
        ghost var nearest;
        ok, newNode, nearest := PlaceNodeRRT(rNode.value);
        if ok {
          AddLeafAt(old(tree.mp), nearest.value, newNode, Trunc(dist(nearest.value, newNode)));
        }
      } else {
        ghost var nearest, cand, pf, r;
        ok, newNode, nearest, cand, pf, r := PlaceNodeRRTStar(rNode.value);
      }
    }

    /** What one step of a ready planner leaves behind, against the tree
        `m0`, grid `v0`, counter `n0`, flag `pf0` and path `path0` it started
        from: at most the node `newNode` added, and counted and marked when
        it is; a path, once found, kept found; and the path recomputed from
        `newNode` up to the start cell whenever a path exists. */
    ghost predicate Stepped(m0: map<Cell, NodeRec>, v0: map<Cell, CellState>, n0: int, pf0: bool,
                            path0: seq<Cell>, newNode: Cell)
      reads this`numNodesAdded, this`pathFound, this`path, this`rank, tree, grid`view, grid`startX, grid`startY
    {
      Grown(m0, v0, n0, newNode) && PathKept(pf0, path0, newNode)
    }

    /** The tree part of `Stepped`. */
    ghost predicate Grown(m0: map<Cell, NodeRec>, v0: map<Cell, CellState>, n0: int, newNode: Cell)
      reads this`numNodesAdded, tree, grid`view
    {
      (tree.mp.Keys == m0.Keys || tree.mp.Keys == m0.Keys + {newNode}) &&
      (numNodesAdded == n0 ==> tree.mp == m0 && grid.view == v0) &&
      (numNodesAdded != n0 ==>
         numNodesAdded == n0 + 1 && newNode !in m0 && newNode in grid.view && grid.view[newNode] == Node)
    }

    /** The path part of `Stepped`. */
    ghost predicate PathKept(pf0: bool, path0: seq<Cell>, newNode: Cell)
      reads this`pathFound, this`path, this`rank, tree, grid`startX, grid`startY
    {
      (pf0 ==> pathFound) &&
      (!pathFound ==> path == path0) &&
      (pathFound && newNode in tree.mp ==>
         RankOk(tree.mp, rank) && path == PathToRoot(tree.mp, newNode, rank) &&
         path[0] == newNode && path[|path| - 1] == Start()) &&
      (pathFound && newNode !in tree.mp ==> path == [])
    }

    /** `simulationStep` with the random draws passed in; nothing happens
        before the planner is ready. A tree node already next to the end
        cell means a path exists: the first such node in map order is
        reported and the tree is left as it is. Otherwise the tree grows by
        one step. */
    method SimulationStep(draws: seq<Cell>) returns (newNode: Cell)
      requires Valid() && forall k :: 0 <= k < |draws| ==> InGrid(draws[k], grid.n)
      modifies tree, grid`view, grid.cells, this`rank, this`pathFound, this`numNodesAdded, this`path
      ensures Valid() && readyToStart == old(readyToStart)
      ensures !readyToStart ==>
        tree.mp == old(tree.mp) && grid.view == old(grid.view) && numNodesAdded == old(numNodesAdded) &&
        pathFound == old(pathFound) && path == old(path)
      ensures readyToStart ==>
        Stepped(old(tree.mp), old(grid.view), old(numNodesAdded), old(pathFound), old(path), newNode)
      ensures readyToStart && (exists k :: k in old(tree.mp) && EndNear(old(grid.view), k)) ==>
        pathFound && tree.mp == old(tree.mp) && grid.view == old(grid.view) && numNodesAdded == old(numNodesAdded) &&
        newNode in tree.mp && EndNear(grid.view, newNode) &&
        forall k :: k in tree.mp && LexLess(k, newNode) ==> !EndNear(grid.view, k)
    {
      newNode := (0, 0);
      if readyToStart {
        newNode := StepReady(draws);
      }
    }

    /** The body of `simulationStep` once the planner is ready. */
    method StepReady(draws: seq<Cell>) returns (newNode: Cell)
      requires Valid() && readyToStart && forall k :: 0 <= k < |draws| ==> InGrid(draws[k], grid.n)
      modifies tree, grid`view, grid.cells, this`rank, this`pathFound, this`numNodesAdded, this`path
      ensures Valid() && readyToStart
      ensures Stepped(old(tree.mp), old(grid.view), old(numNodesAdded), old(pathFound), old(path), newNode)
      ensures (exists k :: k in old(tree.mp) && EndNear(old(grid.view), k)) ==>
        pathFound && tree.mp == old(tree.mp) && grid.view == old(grid.view) && numNodesAdded == old(numNodesAdded) &&
        newNode in tree.mp && EndNear(grid.view, newNode) &&
        forall k :: k in tree.mp && LexLess(k, newNode) ==> !EndNear(grid.view, k)
    {
      ghost var v0, m0, r0, n0 := grid.view, tree.mp, rank, numNodesAdded;
      var found;
      found, newNode := IsPathAlreadyExist();
      assert grid.view == v0 && tree.mp == m0 && rank == r0 && numNodesAdded == n0;
      FlagKeepsValid();
      if found {
        ReachedStep(newNode);
      } else {
        newNode := GrowStep(draws);
      }
    }

    /** A path already exists through `last`: the flag is raised and the path
        recomputed, the tree and grid left as they are. */
    method ReachedStep(last: Cell)
      requires Valid() && readyToStart && last in tree.mp
      modifies this`pathFound, this`path
      ensures Valid() && pathFound
      ensures Stepped(old(tree.mp), old(grid.view), old(numNodesAdded), old(pathFound), old(path), last)
    {
      pathFound := true;
      FlagKeepsValid();
      RecordPath(last);
    }

    /** No path yet: the tree grows by one step, and the path is recomputed
        if the new node reached the end. */
    method GrowStep(draws: seq<Cell>) returns (newNode: Cell)
      requires Valid() && readyToStart && forall k :: 0 <= k < |draws| ==> InGrid(draws[k], grid.n)
      modifies tree, grid`view, grid.cells, this`rank, this`pathFound, this`numNodesAdded, this`path
      ensures Valid() && readyToStart
      ensures Stepped(old(tree.mp), old(grid.view), old(numNodesAdded), old(pathFound), old(path), newNode)
    {
      var placed;
      placed, newNode := Grow(draws);
      if pathFound {
        RecordPath(newNode);
      }
    }

    /** Step 3 of `simulationStep`: the path from the last node reached up
        to the start cell. `getPath` is used but not shown; for a cell that
        is not a node the path here is empty. */
    method RecordPath(last: Cell)
      requires Valid() && readyToStart && pathFound
      modifies this`path
      ensures Valid()
      ensures PathKept(true, old(path), last)
    {
      if last in tree.mp {
        path := PathToRoot(tree.mp, last, rank);
        PathEndsAtRoot(tree.mp, tree.root, last, rank);
      } else {
        path := [];
      }
    }
  }

  /** After the first start selection the default start `(0, 0)` is free
      again, because `SelectStart` frees the old start whatever it held, so
      an end click there passes the free-cell test; on the 800-by-800 grid
      the end square around `(0, 0)` then has half-width 16 and reaches
      `(-16, -16)`, whose flat index lies before the array. */
  lemma FirstEndClickAtOriginLeavesGrid(g: Grid, v: map<Cell, CellState>, cell: Cell)
    requires g.n == 800 && cell != (0, 0)
    ensures v[(0, 0) := Free][cell := StartCell][(0, 0)] == Free
    ensures g.endCellWidth == 16 && !SquareInGrid((0, 0), g.endCellWidth, g.n)
    ensures InSquare((-16, -16), (0, 0), g.endCellWidth) && Idx(-16, -16, g.n) < 0
  {
  }
}
