/** Specification-level definitions for the planner of
    `Source/Simulation/RandomTree.cpp`: what a segment check decides, what the
    goal test looks for, and which key a strict-`<` running-minimum scan over
    the tree's map selects. */
module PlannerSpec {
  import opened Wrappers
  import opened Geometry
  import opened Occupancy

  /** The outcome of `isNodeValid` on a rasterised segment: an obstacle came
      first, nothing stopped the scan, or an end cell came first. */
  datatype Verdict = Blocked | Clear | Goal(at: Cell)

  /** A point that ends the scan of `isNodeValid`: not the nearest node itself,
      and an obstacle or an end cell. */
  predicate Stops(p: Cell, near: Cell, v: map<Cell, CellState>)
    requires p in v
  {
    p != near && (v[p] == Obstacle || v[p] == EndCell)
  }

  /** The scan of `isNodeValid`: points equal to the nearest node are skipped;
      the first obstacle rejects, the first end cell is snapped to. */
  function SegmentVerdict(points: seq<Cell>, near: Cell, v: map<Cell, CellState>): (r: Verdict)
    requires forall k :: 0 <= k < |points| ==> points[k] in v
    ensures r.Goal? ==> r.at in points && r.at != near && r.at in v && v[r.at] == EndCell
  {
    if points == [] then Clear
    else if points[0] == near then SegmentVerdict(points[1..], near, v)
    else if v[points[0]] == Obstacle then Blocked
    else if v[points[0]] == EndCell then Goal(points[0])
    else SegmentVerdict(points[1..], near, v)
  }

  /** The segment is clear exactly when no point stops the scan. */
  lemma {:induction false} VerdictClear(points: seq<Cell>, near: Cell, v: map<Cell, CellState>)
    requires forall k :: 0 <= k < |points| ==> points[k] in v
    ensures SegmentVerdict(points, near, v) == Clear <==>
      forall k :: 0 <= k < |points| ==> !Stops(points[k], near, v)
  {
    if points != [] {
      VerdictClear(points[1..], near, v);
      assert forall k :: 1 <= k < |points| ==> points[k] == points[1..][k - 1];
    }
  }

  /** Otherwise the first point that stops the scan decides: an obstacle
      rejects, an end cell is the snapped-to goal. */
  lemma {:induction false} VerdictFirstStop(points: seq<Cell>, near: Cell, v: map<Cell, CellState>, k: nat)
    requires forall m :: 0 <= m < |points| ==> points[m] in v
    requires k < |points| && Stops(points[k], near, v)
    requires forall m :: 0 <= m < k ==> !Stops(points[m], near, v)
    ensures SegmentVerdict(points, near, v) ==
      if v[points[k]] == Obstacle then Blocked else Goal(points[k])
  {
    if k > 0 {
      assert !Stops(points[0], near, v);
      assert forall m :: 0 <= m < k - 1 ==> points[1..][m] == points[m + 1];
      VerdictFirstStop(points[1..], near, v, k - 1);
    }
  }

  /** The segment is rejected exactly when an obstacle (other than the
      nearest node) comes before every end cell. */
  lemma VerdictBlocked(points: seq<Cell>, near: Cell, v: map<Cell, CellState>)
    requires forall k :: 0 <= k < |points| ==> points[k] in v
    ensures SegmentVerdict(points, near, v) == Blocked <==>
      exists k :: 0 <= k < |points| && points[k] != near && v[points[k]] == Obstacle &&
        forall m :: 0 <= m < k ==> !Stops(points[m], near, v)
  {
    if SegmentVerdict(points, near, v) == Blocked {
      VerdictClear(points, near, v);
      var k := FirstStop(points, near, v);
      VerdictFirstStop(points, near, v, k);
    }
    if exists k :: 0 <= k < |points| && points[k] != near && v[points[k]] == Obstacle &&
        forall m :: 0 <= m < k ==> !Stops(points[m], near, v) {
      var k :| 0 <= k < |points| && points[k] != near && v[points[k]] == Obstacle &&
        forall m :: 0 <= m < k ==> !Stops(points[m], near, v);
      VerdictFirstStop(points, near, v, k);
    }
  }

  /** The index of the first point that stops the scan, when there is one. */
  lemma FirstStop(points: seq<Cell>, near: Cell, v: map<Cell, CellState>) returns (k: nat)
    requires forall m :: 0 <= m < |points| ==> points[m] in v
    requires exists m :: 0 <= m < |points| && Stops(points[m], near, v)
    ensures k < |points| && Stops(points[k], near, v)
    ensures forall m :: 0 <= m < k ==> !Stops(points[m], near, v)
  {
    k := 0;
    while !Stops(points[k], near, v)
      invariant k < |points|
      invariant forall m :: 0 <= m < k ==> !Stops(points[m], near, v)
      invariant exists m :: k <= m < |points| && Stops(points[m], near, v)
      decreases |points| - k
    {
      k := k + 1;
    }
  }

  /** `isGoalReached`'s test: an end cell among the in-grid cells of the 3x3
      square around `d` (the map holds only in-grid cells). */
  ghost predicate EndNear(v: map<Cell, CellState>, d: Cell) {
    exists q :: q in v && InSquare(q, d, 1) && v[q] == EndCell
  }

  /** The key a strict-`<` running-minimum scan in map order leaves selected
      when it starts from `bound`: `None` when no key costs less than `bound`;
      otherwise a key of least cost, below `bound`, and cheaper than every key
      that comes before it in map order (so the first minimum wins). */
  ghost predicate IsFirstMin(keys: set<Cell>, cost: Cell -> real, bound: real, res: Option<Cell>) {
    match res
    case None => forall k :: k in keys ==> bound <= cost(k)
    case Some(m) =>
      m in keys && cost(m) < bound &&
      (forall k :: k in keys ==> cost(m) <= cost(k)) &&
      (forall k :: k in keys && LexLess(k, m) ==> cost(m) < cost(k))
  }

  /** The running minimum of the scan. */
  function MinSoFar(cost: Cell -> real, bound: real, res: Option<Cell>): real {
    if res.None? then bound else cost(res.value)
  }

  /** The first minimum is unique: the scan's result is determined by the
      keys and their costs. */
  lemma FirstMinUnique(keys: set<Cell>, cost: Cell -> real, bound: real, r1: Option<Cell>, r2: Option<Cell>)
    requires IsFirstMin(keys, cost, bound, r1) && IsFirstMin(keys, cost, bound, r2)
    ensures r1 == r2
  {
  }

  /** One step of the scan: a key that comes after every key seen so far
      replaces the selection exactly when it is strictly cheaper than the
      running minimum. */
  lemma FirstMinExtend(keys: set<Cell>, k: Cell, cost: Cell -> real, bound: real, res: Option<Cell>)
    requires IsFirstMin(keys, cost, bound, res)
    requires forall p :: p in keys ==> LexLess(p, k)
    ensures IsFirstMin(keys + {k}, cost, bound,
                       if cost(k) < MinSoFar(cost, bound, res) then Some(k) else res)
  {
    if res.Some? && !(cost(k) < MinSoFar(cost, bound, res)) {
      assert LexLess(res.value, k);
    }
  }

  /** The scan over no keys selects nothing. */
  lemma FirstMinNone(cost: Cell -> real, bound: real)
    ensures IsFirstMin({}, cost, bound, None)
  {
  }

  /** The cells a sequence holds. */
  function Elems(s: seq<Cell>): set<Cell> {
    set x | x in s
  }

  /** The distance from a sample to each key, the cost `getNearestNode`
      minimises. */
  function DistanceFrom(dist: (Cell, Cell) -> real, r: Cell): Cell -> real {
    k => dist(r, k)
  }
}
