/** The occupancy grid of `Source/Simulation/RandomTreeUtils.cpp`: an N*N
    array of cell states, stored flat at index `i + j*N`, written by
    single-cell setters and by guarded square-block setters. */
module Occupancy {
  import opened Geometry

  /** `cellState`, in declaration order. */
  datatype CellState = Free | Obstacle | Node | NodeConnection | StartCell | EndCell

  /** The enumerator value of a state. */
  function Ord(s: CellState): nat {
    match s
    case Free => 0
    case Obstacle => 1
    case Node => 2
    case NodeConnection => 3
    case StartCell => 4
    case EndCell => 5
  }

  /** `isCellNode`'s test `>= NODE`: by the declaration order, exactly the
      tree, connection, start and end states are node-like. */
  function IsNodeState(s: CellState): (b: bool)
    ensures b <==> s == Node || s == NodeConnection || s == StartCell || s == EndCell
    ensures !b <==> s == Free || s == Obstacle
  {
    Ord(s) >= Ord(Node)
  }

  /** `q` lies in the square of half-width `w` centred on `ctr`. */
  predicate InSquare(q: Cell, ctr: Cell, w: int) {
    ctr.0 - w <= q.0 <= ctr.0 + w && ctr.1 - w <= q.1 <= ctr.1 + w
  }

  /** Every cell of the square of half-width `w` around `ctr` is on the grid,
      which the unguarded block loops need. */
  predicate SquareInGrid(ctr: Cell, w: int, n: int) {
    w < 0 || (0 <= ctr.0 - w && ctr.0 + w < n && 0 <= ctr.1 - w && ctr.1 + w < n)
  }

  /** Row-major visiting order of the block loops: the offset of `q` from
      `ctr` comes before the offset `(r, c)`. */
  predicate Before(q: Cell, ctr: Cell, r: int, c: int) {
    q.0 - ctr.0 < r || (q.0 - ctr.0 == r && q.1 - ctr.1 < c)
  }

  /** The cells of the `n` by `n` grid. */
  ghost function GridCells(n: int): (s: set<Cell>)
    ensures forall q :: q in s <==> InGrid(q, n)
  {
    set a, b | 0 <= a < n && 0 <= b < n :: (a, b)
  }

  /** The two overwrite policies of the block setters. */
  datatype Policy =
    | ClearNodeLike   // `setCellBlockAsFree`: node-like cells become free
    | MarkEnd         // `setCellAsEndCell`: free cells become end cells

  function Guard(p: Policy, s: CellState): bool {
    match p
    case ClearNodeLike => IsNodeState(s)
    case MarkEnd => s == Free
  }

  function Target(p: Policy): CellState {
    match p
    case ClearNodeLike => Free
    case MarkEnd => EndCell
  }

  /** The state of cell `q`, first `s`, once the square cells visited before
      offset `(r, c)` have been rewritten under policy `p`. */
  function Visited(s: CellState, q: Cell, ctr: Cell, w: int, p: Policy, r: int, c: int): CellState {
    if InSquare(q, ctr, w) && Before(q, ctr, r, c) && Guard(p, s) then Target(p) else s
  }

  /** Visiting offset `(r, c)` changes the state of its own cell only,
      which had not been visited before. */
  lemma VisitedStep(s: CellState, q: Cell, ctr: Cell, w: int, p: Policy, r: int, c: int)
    requires -w <= r <= w && -w <= c <= w
    ensures q != (ctr.0 + r, ctr.1 + c) ==> Visited(s, q, ctr, w, p, r, c + 1) == Visited(s, q, ctr, w, p, r, c)
    ensures q == (ctr.0 + r, ctr.1 + c) ==>
      Visited(s, q, ctr, w, p, r, c) == s &&
      Visited(s, q, ctr, w, p, r, c + 1) == (if Guard(p, s) then Target(p) else s)
  {
  }

  /** The grid after applying policy `p` to the whole square. */
  function Rewritten(v: map<Cell, CellState>, ctr: Cell, w: int, p: Policy): (v': map<Cell, CellState>)
    ensures v'.Keys == v.Keys
  {
    map q | q in v :: if InSquare(q, ctr, w) && Guard(p, v[q]) then Target(p) else v[q]
  }

  /** The block clear as a state map: only node-like cells of the square become
      free; obstacles, free cells and everything outside stay. */
  lemma ClearBlockEffect(v: map<Cell, CellState>, ctr: Cell, w: int, q: Cell)
    requires q in v
    ensures Rewritten(v, ctr, w, ClearNodeLike)[q] ==
      (if InSquare(q, ctr, w) && v[q] != Free && v[q] != Obstacle then Free else v[q])
    ensures v[q] == Obstacle ==> Rewritten(v, ctr, w, ClearNodeLike)[q] == Obstacle
  {
  }

  /** The end block as a state map: only free cells of the square become end
      cells. */
  lemma MarkEndEffect(v: map<Cell, CellState>, ctr: Cell, w: int, q: Cell)
    requires q in v
    ensures Rewritten(v, ctr, w, MarkEnd)[q] == (if InSquare(q, ctr, w) && v[q] == Free then EndCell else v[q])
    ensures InSquare(q, ctr, w) ==> Rewritten(v, ctr, w, MarkEnd)[q] != Free
  {
  }

  /** Applying a policy twice is applying it once: its target state never
      satisfies its own guard. */
  lemma RewrittenIdempotent(v: map<Cell, CellState>, ctr: Cell, w: int, p: Policy)
    ensures Rewritten(Rewritten(v, ctr, w, p), ctr, w, p) == Rewritten(v, ctr, w, p)
  {
    var v1 := Rewritten(v, ctr, w, p);
    assert !Guard(p, Target(p));
    forall q | q in v1
      ensures Rewritten(v1, ctr, w, p)[q] == v1[q]
    {
    }
  }

  /** The effect taken for `setCellAsNodeConnectionStream`, whose body is not
      part of this model: the free cells on the segment become connection
      cells; every other cell, the new node's own cell included, keeps its
      state. */
  function MarkConnection(v: map<Cell, CellState>, points: seq<Cell>): (v': map<Cell, CellState>)
    ensures v'.Keys == v.Keys
  {
    map q | q in v :: if q in points && v[q] == Free then NodeConnection else v[q]
  }

  /** Marking a segment leaves every non-free cell alone and leaves no free
      cell on the segment. */
  lemma MarkConnectionEffect(v: map<Cell, CellState>, points: seq<Cell>, q: Cell)
    requires q in v
    ensures v[q] != Free ==> MarkConnection(v, points)[q] == v[q]
    ensures q in points ==> MarkConnection(v, points)[q] != Free
    ensures q !in points ==> MarkConnection(v, points)[q] == v[q]
  {
  }

  /** Marking one more point of the segment: it changes only when it is still
      free, so marking in order point by point gives the whole-segment map. */
  lemma MarkConnectionStep(v: map<Cell, CellState>, points: seq<Cell>, k: nat)
    requires k < |points| && points[k] in v
    ensures MarkConnection(v, points[..k + 1]) ==
      (var m := MarkConnection(v, points[..k]);
       if m[points[k]] == Free then m[points[k] := NodeConnection] else m)
  {
    var m := MarkConnection(v, points[..k]);
    var m' := MarkConnection(v, points[..k + 1]);
    assert points[..k + 1] == points[..k] + [points[k]];
    var r := if m[points[k]] == Free then m[points[k] := NodeConnection] else m;
    forall q | q in v
      ensures m'[q] == r[q]
    {
    }
    assert m'.Keys == r.Keys;
  }

  /** `getIdx` for an `n`-wide grid. */
  function Idx(i: int, j: int, n: int): (k: int)
    ensures 0 <= i < n && 0 <= j < n ==> 0 <= k < n * n
  {
    if 0 <= i < n && 0 <= j < n then IdxInRange(i, j, n); i + j * n else i + j * n
  }

  lemma IdxInRange(i: int, j: int, n: int)
    requires 0 <= i < n && 0 <= j < n
    ensures 0 <= i + j * n < n * n
  {
    assert j * n <= (n - 1) * n;
  }

  /** The array `s` holds, for every cell of the grid, the state `s0` gave it
      rewritten under policy `p` if the loops visited it before `(r, c)`. */
  ghost predicate VisitedUpTo(s: seq<CellState>, s0: seq<CellState>, n: nat, ctr: Cell, w: int, p: Policy,
                              r: int, c: int) {
    |s| == n * n && |s0| == n * n &&
    forall a, b :: 0 <= a < n && 0 <= b < n ==>
      s[Idx(a, b, n)] == Visited(s0[Idx(a, b, n)], (a, b), ctr, w, p, r, c)
  }

  /** The loop body on the array: the cell at offset `(r, c)` is rewritten
      when it is on the grid and passes the guard. */
  function VisitOne(s: seq<CellState>, n: nat, ctr: Cell, p: Policy, r: int, c: int): seq<CellState>
    requires |s| == n * n
  {
    var q0 := (ctr.0 + r, ctr.1 + c);
    if InGrid(q0, n) && Guard(p, s[Idx(q0.0, q0.1, n)]) then s[Idx(q0.0, q0.1, n) := Target(p)] else s
  }

  lemma VisitOneStep(s: seq<CellState>, s0: seq<CellState>, n: nat, ctr: Cell, w: int, p: Policy,
                     r: int, c: int)
    requires -w <= r <= w && -w <= c <= w
    requires VisitedUpTo(s, s0, n, ctr, w, p, r, c)
    ensures VisitedUpTo(VisitOne(s, n, ctr, p, r, c), s0, n, ctr, w, p, r, c + 1)
  {
    var s2 := VisitOne(s, n, ctr, p, r, c);
    var q0 := (ctr.0 + r, ctr.1 + c);
    forall a, b | 0 <= a < n && 0 <= b < n
      ensures s2[Idx(a, b, n)] == Visited(s0[Idx(a, b, n)], (a, b), ctr, w, p, r, c + 1)
    {
      var k := Idx(a, b, n);
      VisitedStep(s0[k], (a, b), ctr, w, p, r, c);
      if (a, b) != q0 && InGrid(q0, n) && k == Idx(q0.0, q0.1, n) {
        IdxInjectiveAux(a, b, q0.0, q0.1, n);
      }
    }
  }

  lemma VisitRow(s: seq<CellState>, s0: seq<CellState>, n: nat, ctr: Cell, w: int, p: Policy, r: int)
    requires VisitedUpTo(s, s0, n, ctr, w, p, r, w + 1)
    ensures VisitedUpTo(s, s0, n, ctr, w, p, r + 1, -w)
  {
    forall a, b | 0 <= a < n && 0 <= b < n
      ensures s[Idx(a, b, n)] == Visited(s0[Idx(a, b, n)], (a, b), ctr, w, p, r + 1, -w)
    {
      assert Visited(s0[Idx(a, b, n)], (a, b), ctr, w, p, r, w + 1)
          == Visited(s0[Idx(a, b, n)], (a, b), ctr, w, p, r + 1, -w);
    }
  }

  lemma {:induction false} IdxInjectiveAux(a: int, b: int, x: int, y: int, n: int)
    requires 0 <= a < n && 0 <= x < n && 0 <= b && 0 <= y
    requires a + b * n == x + y * n
    ensures a == x && b == y
  {
    if b != y {
      if b > y {
        assert (b - y) * n == b * n - y * n;
        MulGrows(b - y, n);
      } else {
        assert (y - b) * n == y * n - b * n;
        MulGrows(y - b, n);
      }
    }
  }

  lemma MulGrows(k: int, n: int)
    requires 1 <= k && 0 <= n
    ensures k * n >= n
  {
  }

  class Grid {
    /** `N`: the grid is `n` by `n`. */
    const n: nat
    /** `0.02 * N`, `0.01 * N` and `0.03 * N` truncated toward zero. */
    const endCellWidth: int := (2 * n) / 100
    const otherCellHighlightWidth: int := n / 100
    const endCellHighlightWidth: int := (3 * n) / 100
    /** `cellCurr`. */
    const cells: array<CellState>
    /** The recorded start and end cells. */
    var startX: int
    var startY: int
    var endX: int
    var endY: int
    /** The grid as a map from every coordinate to its state. */
    ghost var view: map<Cell, CellState>

    /** The array holds one state per cell. */
    ghost predicate Sized()
      reads this
    {
      cells.Length == n * n
    }

    /** The map view has exactly the cells of the grid as keys and agrees
        with the array at each of them. */
    ghost predicate Valid()
      reads this, cells
    {
      Sized() &&
      (forall q :: q in view <==> InGrid(q, n)) &&
      forall a, b :: 0 <= a < n && 0 <= b < n ==> view[(a, b)] == cells[Idx(a, b, n)]
    }

    /** `calloc` leaves every cell `FREE` (0); start and end default to the
        origin. */
    constructor (n: nat)
      ensures Valid() && this.n == n && fresh(cells)
      ensures forall q :: q in view ==> view[q] == Free
      ensures startX == 0 && startY == 0 && endX == 0 && endY == 0
    {
      this.n := n;
      cells := new CellState[n * n](_ => Free);
      startX, startY, endX, endY := 0, 0, 0, 0;
      view := map q | q in GridCells(n) :: Free;
      new;
      forall a, b | 0 <= a < n && 0 <= b < n
        ensures view[(a, b)] == cells[Idx(a, b, n)]
      {
        IdxInRange(a, b, n);
      }
    }

    /** `getIdx`: the flat index of `(i, j)`, inside the array for every
        cell of the grid. */
    function GetIdx(i: int, j: int): (k: int)
      ensures 0 <= i < n && 0 <= j < n ==> 0 <= k < n * n
    {
      Idx(i, j, n)
    }

    /** Distinct cells of the grid have distinct indices. */
    lemma IdxInjective(a: Cell, b: Cell)
      requires InGrid(a, n) && InGrid(b, n)
      requires GetIdx(a.0, a.1) == GetIdx(b.0, b.1)
      ensures a == b
    {
      IdxInjectiveAux(a.0, a.1, b.0, b.1, n);
    }

    /** The state stored for `(i, j)`. */
    function At(i: int, j: int): (s: CellState)
      reads this, cells
      requires Valid() && InGrid((i, j), n)
      ensures s == view[(i, j)]
    {
      cells[GetIdx(i, j)]
    }

    /** `isCellFree`. */
    function IsCellFree(i: int, j: int): (b: bool)
      reads this, cells
      requires Valid() && InGrid((i, j), n)
      ensures b <==> view[(i, j)] == Free
    {
      At(i, j) == Free
    }

    /** `isCellObstacle` (declared, not shown): an equality test on the state. */
    function IsCellObstacle(i: int, j: int): (b: bool)
      reads this, cells
      requires Valid() && InGrid((i, j), n)
      ensures b <==> view[(i, j)] == Obstacle
    {
      At(i, j) == Obstacle
    }

    /** `isCellEndCell` (declared, not shown): an equality test on the state. */
    function IsCellEndCell(i: int, j: int): (b: bool)
      reads this, cells
      requires Valid() && InGrid((i, j), n)
      ensures b <==> view[(i, j)] == EndCell
    {
      At(i, j) == EndCell
    }

    /** `isCellNode`: the cell holds a tree node, a connection, the start or
        an end cell. */
    function IsCellNode(i: int, j: int): (b: bool)
      reads this, cells
      requires Valid() && InGrid((i, j), n)
      ensures b <==> view[(i, j)] !in {Free, Obstacle}
    {
      IsNodeState(At(i, j))
    }

    /** One array write: exactly the state of `(i, j)` changes. */
    method SetState(i: int, j: int, s: CellState)
      requires Valid() && InGrid((i, j), n)
      modifies this`view, cells
      ensures Valid() && view == old(view)[(i, j) := s]
    {
      cells[GetIdx(i, j)] := s;
      view := view[(i, j) := s];
      forall a, b | 0 <= a < n && 0 <= b < n
        ensures view[(a, b)] == cells[Idx(a, b, n)]
      {
        if (a, b) != (i, j) && GetIdx(a, b) == GetIdx(i, j) {
          IdxInjective((a, b), (i, j));
        }
      }
    }

    /** `setCellAsFree`. */
    method SetCellAsFree(i: int, j: int)
      requires Valid() && InGrid((i, j), n)
      modifies this`view, cells
      ensures Valid() && view == old(view)[(i, j) := Free]
    {
      SetState(i, j, Free);
    }

    /** `setCellAsObstacle`. */
    method SetCellAsObstacle(i: int, j: int)
      requires Valid() && InGrid((i, j), n)
      modifies this`view, cells
      ensures Valid() && view == old(view)[(i, j) := Obstacle]
    {
      SetState(i, j, Obstacle);
    }

    /** `setCellAsNode`. */
    method SetCellAsNode(i: int, j: int)
      requires Valid() && InGrid((i, j), n)
      modifies this`view, cells
      ensures Valid() && view == old(view)[(i, j) := Node]
    {
      SetState(i, j, Node);
    }

    /** `setCellAsNodeConnection`. */
    method SetCellAsNodeConnection(i: int, j: int)
      requires Valid() && InGrid((i, j), n)
      modifies this`view, cells
      ensures Valid() && view == old(view)[(i, j) := NodeConnection]
    {
      SetState(i, j, NodeConnection);
    }

    /** `setCellAsNodeConnectionStream` (declared, not shown), taken as the
        segment walk that marks each free cell as a connection cell. */
    method SetCellAsNodeConnectionStream(points: seq<Cell>)
      requires Valid() && forall k :: 0 <= k < |points| ==> InGrid(points[k], n)
      modifies this`view, cells
      ensures Valid() && view == MarkConnection(old(view), points)
    {
      ghost var v0 := view;
      var k := 0;
      while k < |points|
        invariant 0 <= k <= |points|
        invariant Valid() && view == MarkConnection(v0, points[..k])
      {
        var p := points[k];
        MarkConnectionStep(v0, points, k);
        if IsCellFree(p.0, p.1) {
          SetCellAsNodeConnection(p.0, p.1);
        }
        k := k + 1;
      }
      assert points[..k] == points;
    }

    /** `setCellAsNode` on a new node's cell followed by
        `setCellAsNodeConnectionStream` on its connection segment: the node's
        cell becomes `NODE` and every free cell of the segment
        `NODE_CONNECTION`. */
    method DrawNode(node: Cell, points: seq<Cell>)
      requires Valid() && InGrid(node, n) && forall k :: 0 <= k < |points| ==> InGrid(points[k], n)
      modifies this`view, cells
      ensures Valid() && view == MarkConnection(old(view)[node := Node], points)
      ensures view[node] == Node
    {
      ghost var v0 := view;
      SetCellAsNode(node.0, node.1);
      SetCellAsNodeConnectionStream(points);
      MarkConnectionEffect(v0[node := Node], points, node);
    }

    /** `setCellAsStartCell`: records the start and marks that one cell. */
    method SetCellAsStartCell(i: int, j: int)
      requires Valid() && InGrid((i, j), n)
      modifies this, cells
      ensures Valid() && startX == i && startY == j
      ensures endX == old(endX) && endY == old(endY)
      ensures view == old(view)[(i, j) := StartCell]
    {
      startX, startY := i, j;
      SetState(i, j, StartCell);
    }

    /** One array write, the map view left behind. */
    method WriteCell(i: int, j: int, s: CellState)
      requires Sized() && InGrid((i, j), n)
      modifies cells
      ensures cells[..] == old(cells[..])[GetIdx(i, j) := s]
    {
      cells[GetIdx(i, j)] := s;
    }

    /** One iteration of the block loops: the cell at offset `(r, c)` from
        `(i, j)` is rewritten when it is on the grid and passes the guard. */
    method VisitCell(i: int, j: int, p: Policy, r: int, c: int)
      requires Sized()
      modifies cells
      ensures cells[..] == VisitOne(old(cells[..]), n, (i, j), p, r, c)
    {
      if InGrid((i + r, j + c), n) && Guard(p, cells[GetIdx(i + r, j + c)]) {
        WriteCell(i + r, j + c, Target(p));
      }
    }

    /** One row `r` of the block loops. */
    method RewriteRowOf(i: int, j: int, w: int, p: Policy, r: int, ghost s0: seq<CellState>)
      requires Sized() && -w <= r <= w
      requires VisitedUpTo(cells[..], s0, n, (i, j), w, p, r, -w)
      modifies cells
      ensures VisitedUpTo(cells[..], s0, n, (i, j), w, p, r + 1, -w)
    {
      var c := -w;
      while c <= w
        invariant -w <= c <= w + 1
        invariant VisitedUpTo(cells[..], s0, n, (i, j), w, p, r, c)
      {
        VisitOneStep(cells[..], s0, n, (i, j), w, p, r, c);
        VisitCell(i, j, p, r, c);
        c := c + 1;
      }
      VisitRow(cells[..], s0, n, (i, j), w, p, r);
    }

    /** Once every row is visited, the array holds the rewritten square. */
    lemma VisitedAll(i: int, j: int, w: int, p: Policy, r: int, s0: seq<CellState>, v0: map<Cell, CellState>)
      requires Sized() && (w < 0 || r == w + 1)
      requires VisitedUpTo(cells[..], s0, n, (i, j), w, p, r, -w)
      requires forall q :: q in v0 <==> InGrid(q, n)
      requires forall a, b :: InGrid((a, b), n) ==> v0[(a, b)] == s0[Idx(a, b, n)]
      ensures forall a, b :: InGrid((a, b), n) ==>
        Rewritten(v0, (i, j), w, p)[(a, b)] == cells[Idx(a, b, n)]
    {
      forall a, b | InGrid((a, b), n)
        ensures Rewritten(v0, (i, j), w, p)[(a, b)] == cells[Idx(a, b, n)]
      {
        assert cells[..][Idx(a, b, n)] == Visited(s0[Idx(a, b, n)], (a, b), (i, j), w, p, r, -w);
      }
    }

    /** The nested block loop shared by the two block setters: every offset
        `(r, c)` of the square, row by row, rewritten when its state passes
        the policy's guard. Offsets off the grid are skipped. */
    method RewriteBlock(i: int, j: int, w: int, p: Policy)
      requires Valid()
      modifies this`view, cells
      ensures Valid() && view == Rewritten(old(view), (i, j), w, p)
    {
      ghost var s0 := cells[..];
      ghost var v0 := view;
      var r := -w;
      while r <= w
        invariant w < 0 || -w <= r <= w + 1
        invariant VisitedUpTo(cells[..], s0, n, (i, j), w, p, r, -w)
      {
        RewriteRowOf(i, j, w, p, r, s0);
        r := r + 1;
      }
      VisitedAll(i, j, w, p, r, s0, v0);
      view := Rewritten(v0, (i, j), w, p);
    }

    /** `setCellBlockAsFree` as written: the loops carry no bounds guard, so
        the whole square must lie on the grid. On such a square the guard
        of the clipped clear never skips a cell, so this is that clear. */
    method SetCellBlockAsFree(i: int, j: int, width: int)
      requires Valid() && SquareInGrid((i, j), width, n)
      modifies this`view, cells
      ensures Valid() && view == Rewritten(old(view), (i, j), width, ClearNodeLike)
    {
      SetCellBlockAsFreeClipped(i, j, width);
    }

    /** `setCellBlockAsFree` with the off-grid part of the square skipped:
        the same clear on every cell of the grid, for any centre. */
    method SetCellBlockAsFreeClipped(i: int, j: int, width: int)
      requires Valid()
      modifies this`view, cells
      ensures Valid() && view == Rewritten(old(view), (i, j), width, ClearNodeLike)
    {
      RewriteBlock(i, j, width, ClearNodeLike);
    }

    /** `setCellAsEndCell` as written: records the end, then turns the free
        cells of the `endCellWidth` square into end cells. The loops carry no
        bounds guard, so the whole square must lie on the grid; there the
        guard of the clipped marking never skips a cell. */
    method SetCellAsEndCell(i: int, j: int)
      requires Valid() && SquareInGrid((i, j), endCellWidth, n)
      modifies this, cells
      ensures Valid() && endX == i && endY == j
      ensures startX == old(startX) && startY == old(startY)
      ensures view == Rewritten(old(view), (i, j), endCellWidth, MarkEnd)
    {
      SetCellAsEndCellClipped(i, j);
    }

    /** `setCellAsEndCell` with the off-grid part of the square skipped:
        records the end and turns the free on-grid cells of the square into
        end cells, for any centre on the grid. */
    method SetCellAsEndCellClipped(i: int, j: int)
      requires Valid()
      modifies this, cells
      ensures Valid() && endX == i && endY == j
      ensures startX == old(startX) && startY == old(startY)
      ensures view == Rewritten(old(view), (i, j), endCellWidth, MarkEnd)
    {
      endX, endY := i, j;
      RewriteBlock(i, j, endCellWidth, MarkEnd);
    }

    /** The half-width `highlightCell` uses for a state. */
    function HighlightWidth(state: CellState): int {
      if state == StartCell || state == Node then otherCellHighlightWidth else endCellHighlightWidth
    }

    /** `highlightCell`: only recolours, so it changes no state (it has no
        `modifies`); the result is the set of cells it recolours, the free
        cells of the square on the grid. */
    method HighlightCell(i: int, j: int, state: CellState) returns (recoloured: set<Cell>)
      requires Valid()
      ensures forall q :: q in recoloured <==>
        InGrid(q, n) && InSquare(q, (i, j), HighlightWidth(state)) && view[q] == Free
    {
      var w := HighlightWidth(state);
      recoloured := {};
      var r := -w;
      while r <= w
        invariant w < 0 || -w <= r <= w + 1
        invariant forall q :: q in recoloured <==>
          InGrid(q, n) && InSquare(q, (i, j), w) && Before(q, (i, j), r, -w) && view[q] == Free
      {
        var c := -w;
        while c <= w
          invariant -w <= c <= w + 1
          invariant forall q :: q in recoloured <==>
            InGrid(q, n) && InSquare(q, (i, j), w) && Before(q, (i, j), r, c) && view[q] == Free
        {
          if InGrid((i + r, j + c), n) && IsCellFree(i + r, j + c) {
            recoloured := recoloured + {(i + r, j + c)};
          }
          c := c + 1;
        }
        r := r + 1;
      }
    }

    /** `highlightCell` as written: the loops test every cell of the
        square, on the grid or not, so they are safe only when the whole
        square lies on the grid. Under that condition it recolours the free
        cells of the square. */
    method HighlightCellAsWritten(i: int, j: int, state: CellState) returns (recoloured: set<Cell>)
      requires Valid() && SquareInGrid((i, j), HighlightWidth(state), n)
      ensures forall q :: q in recoloured <==>
        InSquare(q, (i, j), HighlightWidth(state)) && InGrid(q, n) && view[q] == Free
    {
      var w := HighlightWidth(state);
      recoloured := {};
      var r := -w;
      while r <= w
        invariant w < 0 || -w <= r <= w + 1
        invariant forall q :: q in recoloured <==>
          InSquare(q, (i, j), w) && InGrid(q, n) && Before(q, (i, j), r, -w) && view[q] == Free
      {
        var c := -w;
        while c <= w
          invariant -w <= c <= w + 1
          invariant forall q :: q in recoloured <==>
            InSquare(q, (i, j), w) && InGrid(q, n) && Before(q, (i, j), r, c) && view[q] == Free
        {
          if IsCellFree(i + r, j + c) {
            recoloured := recoloured + {(i + r, j + c)};
          }
          c := c + 1;
        }
        r := r + 1;
      }
    }

    /** `deHighlightCell`: a highlight in the free colour over the end
        highlight width. */
    method DeHighlightCell(i: int, j: int) returns (recoloured: set<Cell>)
      requires Valid()
      ensures forall q :: q in recoloured <==>
        InGrid(q, n) && InSquare(q, (i, j), endCellHighlightWidth) && view[q] == Free
    {
      recoloured := HighlightCell(i, j, Free);
    }
  }

  /** The first end-cell selection clears the square around the default end
      `(0, 0)`; on the 800-by-800 grid its half-width is 16, so the square
      reaches outside the grid and the unguarded clear reads before the array. */
  lemma FirstEndClearLeavesGrid()
    ensures (2 * 800) / 100 == 16
    ensures !SquareInGrid((0, 0), (2 * 800) / 100, 800)
    ensures InSquare((-16, -16), (0, 0), (2 * 800) / 100) && !InGrid((-16, -16), 800)
  {
  }

  /** The first start selection un-highlights the default start `(0, 0)`:
      on the 800-by-800 grid the free-colour square has half-width 24, so it
      reaches outside the grid, and its corner's flat index is negative. */
  lemma FirstDeHighlightLeavesGrid(g: Grid)
    requires g.n == 800
    ensures g.HighlightWidth(Free) == 24
    ensures !SquareInGrid((0, 0), g.HighlightWidth(Free), g.n)
    ensures InSquare((-24, -24), (0, 0), g.HighlightWidth(Free)) && Idx(-24, -24, g.n) < 0
  {
  }

  /** For every grid size from 50 up, the default end's square leaves the
      grid. */
  lemma EndClearLeavesGridFrom50(n: nat)
    requires n >= 50
    ensures !SquareInGrid((0, 0), (2 * n) / 100, n)
  {
  }
}
