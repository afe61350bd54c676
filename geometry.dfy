/** Grid coordinates, the ordering `std::map` iterates them in, and the two
    geometric helpers of the planner whose bodies are not part of this model
    (the Euclidean distance and the line rasteriser), given as contracts. */
module Geometry {

  /** A cell coordinate `(i, j)`: column, row. */
  type Cell = (int, int)

  /** `static_cast<float>(INT_MAX)`: the running-minimum sentinel of the
      nearest-node and minimum-cost scans. `INT_MAX` is 2^31 - 1, which single
      precision rounds up to 2^31. */
  const IntMaxAsFloat: real := 2147483648.0

  predicate InGrid(c: Cell, n: int) {
    0 <= c.0 < n && 0 <= c.1 < n
  }

  /** The order of `std::pair<int, int>`, hence of iteration over the tree's map. */
  predicate LexLess(a: Cell, b: Cell) {
    a.0 < b.0 || (a.0 == b.0 && a.1 < b.1)
  }

  predicate LexLe(a: Cell, b: Cell) {
    a == b || LexLess(a, b)
  }

  predicate IsLexFirst(m: Cell, s: set<Cell>) {
    m in s && forall x :: x in s ==> LexLe(m, x)
  }

  lemma {:induction false} LexFirstExists(s: set<Cell>)
    requires s != {}
    ensures exists m :: IsLexFirst(m, s)
    decreases |s|
  {
    var x :| x in s;
    if s != {x} {
      var rest := s - {x};
      LexFirstExists(rest);
      var m :| IsLexFirst(m, rest);
      if LexLess(x, m) {
        forall y | y in s ensures LexLe(x, y) {
          if y != x { assert LexLe(m, y); }
        }
        assert IsLexFirst(x, s);
      } else {
        assert IsLexFirst(m, s);
      }
    } else {
      assert IsLexFirst(x, s);
    }
  }

  /** The next key a `std::map` iterator visits among the keys not yet visited. */
  method LexFirst(s: set<Cell>) returns (m: Cell)
    requires s != {}
    ensures IsLexFirst(m, s)
  {
    LexFirstExists(s);
    m :| IsLexFirst(m, s);
  }

  /** Every key of `seen` comes before every key of `rest`: the state of an
      in-order traversal of a `std::map` that has visited `seen`. */
  predicate Precedes(seen: set<Cell>, rest: set<Cell>) {
    forall a, b :: a in seen && b in rest ==> LexLess(a, b)
  }

  /** Visiting the first remaining key keeps the traversal in order, and
      every key visited so far comes before it. */
  lemma PrecedesStep(seen: set<Cell>, rest: set<Cell>, k: Cell)
    requires Precedes(seen, rest) && IsLexFirst(k, rest)
    ensures Precedes(seen + {k}, rest - {k})
    ensures forall p :: p in seen ==> LexLess(p, k)
  {
  }

  predicate LexSorted(s: seq<Cell>) {
    forall i, j :: 0 <= i < j < |s| ==> LexLess(s[i], s[j])
  }

  /** In a sorted sequence, a cell that comes before the one at index `i`
      sits at an index below `i`. */
  lemma SortedBefore(s: seq<Cell>, i: nat, k: Cell) returns (j: nat)
    requires LexSorted(s) && i < |s| && k in s && LexLess(k, s[i])
    ensures j < i && s[j] == k
  {
    j :| j < |s| && s[j] == k;
  }

  /** The first key of a non-empty set in map order. */
  ghost function TheLexFirst(s: set<Cell>): (m: Cell)
    requires s != {}
    ensures IsLexFirst(m, s)
  {
    LexFirstExists(s);
    var m :| IsLexFirst(m, s); m
  }

  /** A set has only one first key. */
  lemma LexFirstUnique(m1: Cell, m2: Cell, s: set<Cell>)
    requires IsLexFirst(m1, s) && IsLexFirst(m2, s)
    ensures m1 == m2
  {
  }

  /** The keys of a set in the order a `std::map` iterator visits them. */
  ghost function MapOrder(s: set<Cell>): (r: seq<Cell>)
    ensures |r| == |s|
    ensures forall x :: x in r <==> x in s
    decreases |s|
  {
    if s == {} then []
    else
      var m := TheLexFirst(s);
      [m] + MapOrder(s - {m})
  }

  /** A cell before every element of a sorted sequence keeps it sorted
      when put in front. */
  lemma SortedCons(m: Cell, t: seq<Cell>)
    requires LexSorted(t) && forall x :: x in t ==> LexLess(m, x)
    ensures LexSorted([m] + t)
  {
    forall i, j | 0 <= i < j < |[m] + t| ensures LexLess(([m] + t)[i], ([m] + t)[j]) {
      assert ([m] + t)[j] == t[j - 1];
      if i > 0 {
        assert ([m] + t)[i] == t[i - 1];
      }
    }
  }

  /** A traversal in map order visits the keys in increasing order. */
  lemma {:induction false} MapOrderSorted(s: set<Cell>)
    ensures LexSorted(MapOrder(s))
    decreases |s|
  {
    if s != {} {
      var m := TheLexFirst(s);
      MapOrderSorted(s - {m});
      SortedCons(m, MapOrder(s - {m}));
    }
  }

  /** A traversal in map order starts with the first key and continues with
      the traversal of the others. */
  lemma MapOrderStep(s: set<Cell>, k: Cell)
    requires IsLexFirst(k, s)
    ensures MapOrder(s) == [k] + MapOrder(s - {k})
  {
    LexFirstUnique(k, TheLexFirst(s), s);
  }

  /** One step of an in-order traversal: the first remaining key and the
      keys after it. */
  method PopFirst(s: set<Cell>) returns (m: Cell, rest: set<Cell>)
    requires s != {}
    ensures m in s && rest == s - {m}
    ensures MapOrder(s) == [m] + MapOrder(rest)
  {
    m := LexFirst(s);
    MapOrderStep(s, m);
    rest := s - {m};
  }

  /** `getDistanceBetweenCells` is used but not shown: any function that is
      non-negative, symmetric and zero between a cell and itself. */
  ghost predicate IsDistance(dist: (Cell, Cell) -> real) {
    (forall a, b :: 0.0 <= dist(a, b) && dist(a, b) == dist(b, a)) &&
    (forall a :: dist(a, a) == 0.0)
  }

  /** A distance function. */
  type Distance = f: (Cell, Cell) -> real | IsDistance(f) witness (a: Cell, b: Cell) => 0.0

  function Min(x: int, y: int): int { if x <= y then x else y }
  function Max(x: int, y: int): int { if x <= y then y else x }

  /** `p` lies in the axis-aligned bounding box of `a` and `b`. */
  predicate InBox(p: Cell, a: Cell, b: Cell) {
    Min(a.0, b.0) <= p.0 <= Max(a.0, b.0) && Min(a.1, b.1) <= p.1 <= Max(a.1, b.1)
  }

  /** `connectTwoCells` is used but not shown: it outputs its first end cell
      and rounds every sample of the segment to a cell of the segment's
      bounding box. */
  ghost predicate IsRaster(connect: (Cell, Cell) -> seq<Cell>) {
    forall a, b ::
      a in connect(a, b) &&
      (forall k :: 0 <= k < |connect(a, b)| ==> InBox(connect(a, b)[k], a, b))
  }

  /** A segment rasteriser. */
  type Raster = f: (Cell, Cell) -> seq<Cell> | IsRaster(f) witness (a: Cell, b: Cell) => [a]

  lemma InBoxInGrid(p: Cell, a: Cell, b: Cell, n: int)
    requires InBox(p, a, b) && InGrid(a, n) && InGrid(b, n)
    ensures InGrid(p, n)
  {
  }

  /** Every point of a rasterised segment between two in-grid cells is an
      in-grid cell. */
  lemma RasterInGrid(connect: (Cell, Cell) -> seq<Cell>, a: Cell, b: Cell, n: int)
    requires IsRaster(connect) && InGrid(a, n) && InGrid(b, n)
    ensures forall k :: 0 <= k < |connect(a, b)| ==> InGrid(connect(a, b)[k], n)
  {
    forall k | 0 <= k < |connect(a, b)|
      ensures InGrid(connect(a, b)[k], n)
    {
      InBoxInGrid(connect(a, b)[k], a, b, n);
    }
  }

  /** Float-to-int conversion in C++: truncation toward zero. */
  function Trunc(x: real): (r: int)
    ensures 0.0 <= x ==> r as real <= x < r as real + 1.0
    ensures x < 0.0 ==> r as real - 1.0 < x <= r as real
    ensures 0.0 <= x ==> 0 <= r
    ensures (r as real - x) * (r as real - x) < 1.0
  {
    if x >= 0.0 then x.Floor else -((-x).Floor)
  }

  /** Truncation toward zero keeps a value between two integers between them. */
  lemma {:induction false} TruncBetween(x: real, lo: int, hi: int)
    requires lo as real <= x <= hi as real
    ensures lo <= Trunc(x) <= hi
  {
    if x >= 0.0 {
      assert x.Floor as real <= x;
    } else {
      assert (-x).Floor as real <= -x;
      assert -x < (-x).Floor as real + 1.0;
    }
  }

  lemma MulNonNeg(x: real, y: real)
    requires 0.0 <= x && 0.0 <= y
    ensures 0.0 <= x * y
  {
  }

  /** A convex combination of two integers lies between them. */
  lemma {:induction false} ConvexBetween(a: int, b: int, t: real)
    requires 0.0 <= t <= 1.0
    ensures Min(a, b) as real <= (1.0 - t) * a as real + t * b as real <= Max(a, b) as real
  {
    var x := (1.0 - t) * a as real + t * b as real;
    var lo, hi := Min(a, b) as real, Max(a, b) as real;
    MulNonNeg(t, hi - lo);
    MulNonNeg(1.0 - t, hi - lo);
    if a <= b {
      assert x == lo + t * (hi - lo);
      assert x == hi - (1.0 - t) * (hi - lo);
    } else {
      assert x == hi - t * (hi - lo);
      assert x == lo + (1.0 - t) * (hi - lo);
    }
  }

  /** One coordinate of the point a fraction `t` of the way from `a` to `b`,
      as the source computes it: `(1 - t) * a + t * b`. */
  function Lerp(a: int, b: int, t: real): real {
    (1.0 - t) * a as real + t * b as real
  }

  /** The same coordinate truncated to `int`, as the assignment to an `int`
      variable does. */
  function Interpolate(a: int, b: int, t: real): (r: int)
    requires 0.0 <= t <= 1.0
    ensures Min(a, b) <= r <= Max(a, b)
  {
    var x := Lerp(a, b, t);
    ConvexBetween(a, b, t);
    TruncBetween(x, Min(a, b), Max(a, b));
    Trunc(x)
  }

  lemma StepFraction(step: int, d: real)
    requires 0 <= step && step as real < d
    ensures 0.0 <= step as real / d < 1.0
  {
  }

  /** The candidate of the extend step: the sample itself when it lies within
      `step` of the nearest node (so `d` is never a divisor there), otherwise
      the point `step / d` of the way from the nearest node to the sample,
      each coordinate truncated as the assignment to `int` does. Computed in
      exact real arithmetic, not single precision. */
  function Steer(near: Cell, sample: Cell, d: real, step: int): (c: Cell)
    requires 0.0 <= d && 0 <= step
    ensures d <= step as real ==> c == sample
    ensures step as real < d ==>
      var t := step as real / d;
      c == (Trunc(Lerp(near.0, sample.0, t)), Trunc(Lerp(near.1, sample.1, t)))
    ensures InBox(c, near, sample)
  {
    if d <= step as real then sample
    else
      StepFraction(step, d);
      var t := step as real / d;
      (Interpolate(near.0, sample.0, t), Interpolate(near.1, sample.1, t))
  }

  /** A candidate built from two in-grid cells is itself in the grid. */
  lemma SteerInGrid(near: Cell, sample: Cell, d: real, step: int, n: int)
    requires 0.0 <= d && 0 <= step && InGrid(near, n) && InGrid(sample, n)
    ensures InGrid(Steer(near, sample, d, step), n)
  {
    InBoxInGrid(Steer(near, sample, d, step), near, sample, n);
  }
}
