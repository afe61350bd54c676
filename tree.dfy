/** The tree store of `Source/Utils/Tree.cpp`: every node lives in a map keyed
    by its unique grid coordinate, and a node pointer is modelled by the key it
    is stored under. */
module TreeStore {
  import opened Wrappers
  import opened Geometry

  /** `node_t` with the fields `Tree.cpp` uses: its coordinate, its parent,
      its children in insertion order and its distance from the parent. */
  datatype NodeRec = NodeRec(pos: Cell, parent: Option<Cell>, children: seq<Cell>,
                             distanceFromParent: int)

  /** A `node_t*`: `None` is `NULL`, `Some(c)` the node stored under key `c`. */
  type NodeRef = Option<Cell>

  /** The node `createNode` allocates: no parent, no children, distance 0. */
  function FreshNode(c: Cell): NodeRec {
    NodeRec(c, None, [], 0)
  }

  /** What the erase-remove idiom of `removeEdge` leaves of `s`: every
      occurrence of `x` dropped, the other elements in their order. */
  function Without(s: seq<Cell>, x: Cell): (r: seq<Cell>)
    ensures forall y :: y in r <==> y in s && y != x
    ensures |r| <= |s|
  {
    if s == [] then [] else (if s[0] == x then [] else [s[0]]) + Without(s[1..], x)
  }

  /** Dropping `x` distributes over concatenation, so the relative order of
      the remaining children is kept. */
  lemma {:induction false} WithoutAppend(a: seq<Cell>, b: seq<Cell>, x: Cell)
    ensures Without(a + b, x) == Without(a, x) + Without(b, x)
  {
    if a != [] {
      assert (a + b)[1..] == a[1..] + b;
      WithoutAppend(a[1..], b, x);
    } else {
      assert a + b == b;
    }
  }

  /** Nothing to drop: the list is unchanged. */
  lemma {:induction false} WithoutAbsent(s: seq<Cell>, x: Cell)
    requires x !in s
    ensures Without(s, x) == s
  {
    if s != [] {
      WithoutAbsent(s[1..], x);
    }
  }

  /** Exactly the occurrences of `x` are dropped, every other element keeps
      its multiplicity. */
  lemma {:induction false} WithoutMultiset(s: seq<Cell>, x: Cell)
    ensures multiset(Without(s, x)) == multiset(s)[x := 0]
  {
    if s != [] {
      WithoutMultiset(s[1..], x);
      assert s == [s[0]] + s[1..];
    }
  }

  /** The map after `addEdge(source, dest, dist)`: `dest` appended to the
      children of `source`, then `source` recorded as the parent of `dest`. */
  function AddEdgeMap(mp: map<Cell, NodeRec>, s: Cell, d: Cell, dist: int): map<Cell, NodeRec>
    requires s in mp && d in mp
  {
    var m1 := mp[s := mp[s].(children := mp[s].children + [d])];
    m1[d := m1[d].(parent := Some(s), distanceFromParent := dist)]
  }

  /** The map after `removeEdge(source, dest)`: `dest` dropped from the
      children of `source`; `dest` itself is left as it was. */
  function RemoveEdgeMap(mp: map<Cell, NodeRec>, s: Cell, d: Cell): map<Cell, NodeRec>
    requires s in mp
  {
    mp[s := mp[s].(children := Without(mp[s].children, d))]
  }

  class Tree {
    /** `mp`: every node under its coordinate. */
    var mp: map<Cell, NodeRec>
    /** `root`: the first node ever created, `None` while `root == NULL`. */
    var root: NodeRef

    ghost predicate Valid()
      reads this
    {
      (root.None? <==> mp == map[]) &&
      (root.Some? ==> root.value in mp) &&
      (forall c :: c in mp ==> mp[c].pos == c)
    }

    constructor ()
      ensures Valid() && mp == map[] && root == None
    {
      mp := map[];
      root := None;
    }

    /** `getNumChildren`: declared `bool`, so a node yields whether it has a
        child at all; `NULL` yields `0`, i.e. false. */
    function GetNumChildren(source: NodeRef): (r: bool)
      reads this
      requires source.Some? ==> source.value in mp
      ensures r <==> source.Some? && mp[source.value].children != []
    {
      if source.None? then false else |mp[source.value].children| != 0
    }

    /** `getNodeFromCell`: `NULL` exactly when `(i, j)` is not a key,
        otherwise the node stored under it. */
    function GetNodeFromCell(i: int, j: int): (r: NodeRef)
      reads this
      ensures r.None? <==> (i, j) !in mp
      ensures r.Some? ==> r.value in mp && mp[r.value] == mp[(i, j)]
    {
      if (i, j) in mp then Some((i, j)) else None
    }

    /** `createNode`: the root is taken while unset (before the duplicate
        test, as in the source); a coordinate already in the map is refused
        without touching it. */
    method CreateNode(cellPos: Cell) returns (created: bool)
      requires Valid()
      modifies this
      ensures Valid()
      ensures created <==> cellPos !in old(mp)
      ensures created ==> mp == old(mp)[cellPos := FreshNode(cellPos)]
      ensures created ==> mp.Keys == old(mp).Keys + {cellPos}
      ensures !created ==> mp == old(mp)
      ensures root == if old(root).None? then Some(cellPos) else old(root)
    {
      if root.None? {
        root := Some(cellPos);
      }
      if cellPos !in mp {
        mp := mp[cellPos := FreshNode(cellPos)];
        created := true;
      } else {
        created := false;
      }
    }

    /** `addEdge`: fails on a `NULL` end and changes nothing; otherwise
        `dest` becomes the last child of `source`, and `source` and `dist`
        become the parent and the distance of `dest`. */
    method AddEdge(source: NodeRef, dest: NodeRef, dist: int) returns (ok: bool)
      requires Valid()
      requires source.Some? ==> source.value in mp
      requires dest.Some? ==> dest.value in mp
      modifies this
      ensures Valid() && root == old(root)
      ensures ok <==> source.Some? && dest.Some?
      ensures !ok ==> mp == old(mp)
      ensures ok ==> mp == AddEdgeMap(old(mp), source.value, dest.value, dist)
      ensures ok ==> mp.Keys == old(mp).Keys
      ensures ok ==> mp[source.value].children == old(mp)[source.value].children + [dest.value]
      ensures ok ==> mp[dest.value].parent == source && mp[dest.value].distanceFromParent == dist
      ensures ok ==> forall c :: c in mp && c != source.value && c != dest.value ==> mp[c] == old(mp)[c]
    {
      if source.None? || dest.None? {
        return false;
      }
      var s, d := source.value, dest.value;
      mp := mp[s := mp[s].(children := mp[s].children + [d])];
      mp := mp[d := mp[d].(parent := Some(s), distanceFromParent := dist)];
      ok := true;
    }

    /** `createNode` followed by `addEdge` from a node already present, the
        pair of calls `createAndConnectNewNode` makes: a fresh coordinate
        becomes the last child of `p` (both lookups succeed, so the
        source's `assert(false)` branch is dead); a present one changes
        nothing. */
    method CreateLeaf(p: Cell, n: Cell, d: int) returns (created: bool)
      requires Valid() && p in mp
      modifies this
      ensures Valid() && root == old(root)
      ensures created <==> n !in old(mp)
      ensures created ==> mp == AddLeaf(old(mp), p, n, d)
      ensures !created ==> mp == old(mp)
    {
      created := CreateNode(n);
      if !created {
        return;
      }
      var source := GetNodeFromCell(p.0, p.1);
      var dest := GetNodeFromCell(n.0, n.1);
      var added := AddEdge(source, dest, d);
      if !added {
        assert false;
      }
    }

    /** `removeEdge`: fails on a `NULL` end; otherwise drops every
        occurrence of `dest` from the children of `source` and leaves the
        parent of `dest` as it was (the caller reconnects it next). */
    method RemoveEdge(source: NodeRef, dest: NodeRef) returns (ok: bool)
      requires Valid()
      requires source.Some? ==> source.value in mp
      requires dest.Some? ==> dest.value in mp
      modifies this
      ensures Valid() && root == old(root)
      ensures ok <==> source.Some? && dest.Some?
      ensures !ok ==> mp == old(mp)
      ensures ok ==> mp == RemoveEdgeMap(old(mp), source.value, dest.value)
      ensures ok ==> mp.Keys == old(mp).Keys
      ensures ok ==> mp[dest.value].parent == old(mp)[dest.value].parent
      ensures ok ==> forall c :: c in mp && c != source.value ==> mp[c] == old(mp)[c]
    {
      if source.None? || dest.None? {
        return false;
      }
      var s, d := source.value, dest.value;
      mp := mp[s := mp[s].(children := Without(mp[s].children, d))];
      ok := true;
    }

    /** `removeEdge(q->parent, q)` followed by `addEdge(c, q)`, the pair of
        calls a rewiring makes: a node without a parent (which the caller
        treats as impossible) fails and changes nothing; otherwise `q` leaves
        the children of its parent and becomes the last child of `c`. */
    method Reroute(q: Cell, c: Cell, d: int) returns (ok: bool)
      requires Valid() && q in mp && c in mp
      requires mp[q].parent.Some? ==> mp[q].parent.value in mp
      modifies this
      ensures Valid() && root == old(root) && mp.Keys == old(mp).Keys
      ensures ok <==> old(mp)[q].parent.Some?
      ensures ok ==> mp == Reparent(old(mp), q, c, d)
      ensures !ok ==> mp == old(mp)
    {
      var removed := RemoveEdge(mp[q].parent, Some(q));
      if !removed {
        return false;
      }
      ok := AddEdge(Some(c), Some(q), d);
      if !ok {
        assert false;
      }
    }
  }

  // ---------------------------------------------------------------------
  // The tree shape the planner keeps, and the two walks to the root
  // (`getDistanceToRoot` and `getPath`, used but not shown).
  // ---------------------------------------------------------------------

  /** A ghost witness that parent links never cycle: every parent is a node
      of strictly smaller rank. */
  ghost predicate RankOk(mp: map<Cell, NodeRec>, rank: map<Cell, nat>) {
    rank.Keys == mp.Keys &&
    forall c {:trigger mp[c].parent.value} :: c in mp && mp[c].parent.Some? ==>
      mp[c].parent.value in mp && rank[mp[c].parent.value] < rank[c]
  }

  /** Exactly one node has no parent: the root. */
  ghost predicate SingleRoot(mp: map<Cell, NodeRec>, root: NodeRef) {
    (root.Some? ==> root.value in mp) &&
    forall c :: c in mp ==> (mp[c].parent.None? <==> root == Some(c))
  }

  /** Every listed child names its lister as its parent. */
  ghost predicate ChildrenPointUp(mp: map<Cell, NodeRec>) {
    forall k, x {:trigger x in mp[k].children} :: k in mp && x in mp[k].children ==> x in mp && mp[x].parent == Some(k)
  }

  /** Every node with a parent is listed among that parent's children. */
  ghost predicate ParentsListChild(mp: map<Cell, NodeRec>) {
    forall x {:trigger mp[x].parent.value} :: x in mp && mp[x].parent.Some? ==>
      mp[x].parent.value in mp && x in mp[mp[x].parent.value].children
  }

  /** The children lists and the parent links describe the same edges. */
  ghost predicate ChildrenMatch(mp: map<Cell, NodeRec>) {
    ChildrenPointUp(mp) && ParentsListChild(mp)
  }

  /** The tree is acyclic (witnessed by `rank`), has one root and its children
      lists agree with the parent links. */
  ghost predicate TreeShape(mp: map<Cell, NodeRec>, root: NodeRef, rank: map<Cell, nat>) {
    RankOk(mp, rank) && SingleRoot(mp, root) && ChildrenMatch(mp)
  }

  /** `getDistanceToRoot`: the distances between consecutive nodes summed
      along the parent links up to the root. */
  function DistanceToRoot(mp: map<Cell, NodeRec>, dist: (Cell, Cell) -> real, c: Cell,
                          ghost rank: map<Cell, nat>): real
    requires RankOk(mp, rank) && c in mp
    decreases rank[c]
  {
    match mp[c].parent
    case None => 0.0
    case Some(p) => dist(p, c) + DistanceToRoot(mp, dist, p, rank)
  }

  /** `path` runs from a node up through parent links to a node without a
      parent. */
  ghost predicate LinksUp(mp: map<Cell, NodeRec>, path: seq<Cell>) {
    |path| >= 1 &&
    (forall k :: 0 <= k < |path| ==> path[k] in mp) &&
    (forall k :: 0 <= k < |path| - 1 ==> mp[path[k]].parent == Some(path[k + 1])) &&
    mp[path[|path| - 1]].parent.None?
  }

  /** `getPath`: the coordinates from `c` up through the parent links to the
      node without a parent. */
  function PathToRoot(mp: map<Cell, NodeRec>, c: Cell, ghost rank: map<Cell, nat>): (path: seq<Cell>)
    requires RankOk(mp, rank) && c in mp
    ensures |path| >= 1 && path[0] == c
    ensures LinksUp(mp, path)
    decreases rank[c]
  {
    match mp[c].parent
    case None => [c]
    case Some(p) => [c] + PathToRoot(mp, p, rank)
  }

  /** A node without a parent (the root) is its own whole path, at cost
      zero. */
  lemma PathOfRoot(mp: map<Cell, NodeRec>, dist: (Cell, Cell) -> real, c: Cell, rank: map<Cell, nat>)
    requires RankOk(mp, rank) && c in mp && mp[c].parent.None?
    ensures PathToRoot(mp, c, rank) == [c]
    ensures DistanceToRoot(mp, dist, c, rank) == 0.0
  {
  }

  /** With a distance function the cost to the root is never negative. */
  lemma {:induction false} DistanceToRootNonNeg(mp: map<Cell, NodeRec>, dist: (Cell, Cell) -> real,
                                                c: Cell, rank: map<Cell, nat>)
    requires RankOk(mp, rank) && c in mp && IsDistance(dist)
    ensures 0.0 <= DistanceToRoot(mp, dist, c, rank)
    decreases rank[c]
  {
    if mp[c].parent.Some? {
      DistanceToRootNonNeg(mp, dist, mp[c].parent.value, rank);
    }
  }

  /** The cost to the root only grows going down a path: an ancestor `q` of
      `x` is never more expensive than `x`. */
  lemma {:induction false} DistanceToRootAlongPath(mp: map<Cell, NodeRec>, dist: (Cell, Cell) -> real,
                                                   x: Cell, q: Cell, rank: map<Cell, nat>)
    requires RankOk(mp, rank) && x in mp && IsDistance(dist)
    requires q in PathToRoot(mp, x, rank)
    ensures DistanceToRoot(mp, dist, q, rank) <= DistanceToRoot(mp, dist, x, rank)
    decreases rank[x]
  {
    if x != q {
      var p := mp[x].parent.value;
      DistanceToRootAlongPath(mp, dist, p, q, rank);
    }
  }

  /** Two trees that agree on the parent of every node of the path from `x`
      give `x` the same path and the same cost; in particular neither depends
      on which rank witness is used. */
  lemma {:induction false} SamePathSameWalk(mp1: map<Cell, NodeRec>, rank1: map<Cell, nat>,
                                            mp2: map<Cell, NodeRec>, rank2: map<Cell, nat>,
                                            dist: (Cell, Cell) -> real, x: Cell)
    requires RankOk(mp1, rank1) && RankOk(mp2, rank2) && x in mp1
    requires forall y :: y in PathToRoot(mp1, x, rank1) ==> y in mp2 && mp2[y].parent == mp1[y].parent
    ensures PathToRoot(mp2, x, rank2) == PathToRoot(mp1, x, rank1)
    ensures DistanceToRoot(mp2, dist, x, rank2) == DistanceToRoot(mp1, dist, x, rank1)
    decreases rank1[x]
  {
    if mp1[x].parent.Some? {
      var p := mp1[x].parent.value;
      assert PathToRoot(mp1, x, rank1) == [x] + PathToRoot(mp1, p, rank1);
      SamePathSameWalk(mp1, rank1, mp2, rank2, dist, p);
    }
  }

  // ---------------------------------------------------------------------
  // Inserting a leaf (`createNode` followed by `addEdge`).
  // ---------------------------------------------------------------------

  /** The map after `createNode(n)` and `addEdge(p, n, d)`. */
  function AddLeaf(mp: map<Cell, NodeRec>, p: Cell, n: Cell, d: int): map<Cell, NodeRec>
    requires p in mp
  {
    AddEdgeMap(mp[n := FreshNode(n)], p, n, d)
  }

  /** The leaf sits one rank below its parent. */
  function LeafRank(rank: map<Cell, nat>, p: Cell, n: Cell): map<Cell, nat>
    requires p in rank
  {
    rank[n := rank[p] + 1]
  }

  /** `m` is `mp` with a new node `n` hanging under `p` as the last child of
      `p`; nothing else differs. */
  ghost predicate LeafAdded(mp: map<Cell, NodeRec>, m: map<Cell, NodeRec>, p: Cell, n: Cell) {
    p in mp && n !in mp && m.Keys == mp.Keys + {n} &&
    m[n].parent == Some(p) && m[n].children == [] &&
    m[p].children == mp[p].children + [n] &&
    (forall y :: y in mp ==> m[y].parent == mp[y].parent) &&
    (forall y :: y in mp && y != p ==> m[y].children == mp[y].children)
  }

  lemma AddLeafAt(mp: map<Cell, NodeRec>, p: Cell, n: Cell, d: int)
    requires p in mp && n !in mp
    ensures LeafAdded(mp, AddLeaf(mp, p, n, d), p, n)
    ensures AddLeaf(mp, p, n, d)[n] == NodeRec(n, Some(p), [], d)
  {
  }

  /** Inserting a fresh leaf keeps the parent links acyclic. */
  lemma AddLeafKeepsRank(mp: map<Cell, NodeRec>, m: map<Cell, NodeRec>, rank: map<Cell, nat>,
                         p: Cell, n: Cell)
    requires RankOk(mp, rank) && LeafAdded(mp, m, p, n)
    ensures RankOk(m, LeafRank(rank, p, n))
  {
  }

  /** Inserting a fresh leaf leaves the root the only node without a parent. */
  lemma AddLeafKeepsRoot(mp: map<Cell, NodeRec>, m: map<Cell, NodeRec>, root: NodeRef,
                         p: Cell, n: Cell)
    requires SingleRoot(mp, root) && LeafAdded(mp, m, p, n)
    ensures SingleRoot(m, root)
  {
  }

  /** Inserting a fresh leaf keeps children lists and parent links in
      agreement. */
  lemma AddLeafKeepsChildren(mp: map<Cell, NodeRec>, m: map<Cell, NodeRec>, p: Cell, n: Cell)
    requires ChildrenMatch(mp) && LeafAdded(mp, m, p, n)
    ensures ChildrenMatch(m)
  {
    AddLeafKeepsPointUp(mp, m, p, n);
    AddLeafKeepsListed(mp, m, p, n);
  }

  lemma AddLeafKeepsPointUp(mp: map<Cell, NodeRec>, m: map<Cell, NodeRec>, p: Cell, n: Cell)
    requires ChildrenPointUp(mp) && LeafAdded(mp, m, p, n)
    ensures ChildrenPointUp(m)
  {
    forall k, x | k in m && x in m[k].children
      ensures x in m && m[x].parent == Some(k)
    {
      if k == p && x != n {
        assert x in mp[k].children;
      }
    }
  }

  lemma AddLeafKeepsListed(mp: map<Cell, NodeRec>, m: map<Cell, NodeRec>, p: Cell, n: Cell)
    requires ParentsListChild(mp) && LeafAdded(mp, m, p, n)
    ensures ParentsListChild(m)
  {
    forall x | x in m && m[x].parent.Some?
      ensures m[x].parent.value in m && x in m[m[x].parent.value].children
    {
      if x != n {
        var k := mp[x].parent.value;
        assert x in mp[k].children;
      }
    }
  }

  /** Inserting a leaf leaves the path and cost of every existing node as
      they were, and costs the leaf its parent's cost plus the edge. */
  lemma AddLeafWalks(mp: map<Cell, NodeRec>, m: map<Cell, NodeRec>, rank: map<Cell, nat>,
                     dist: (Cell, Cell) -> real, p: Cell, n: Cell)
    requires RankOk(mp, rank) && LeafAdded(mp, m, p, n) && RankOk(m, LeafRank(rank, p, n))
    ensures forall x :: x in mp ==>
      PathToRoot(m, x, LeafRank(rank, p, n)) == PathToRoot(mp, x, rank) &&
      DistanceToRoot(m, dist, x, LeafRank(rank, p, n)) == DistanceToRoot(mp, dist, x, rank)
    ensures DistanceToRoot(m, dist, n, LeafRank(rank, p, n)) == dist(p, n) + DistanceToRoot(mp, dist, p, rank)
    ensures PathToRoot(m, n, LeafRank(rank, p, n)) == [n] + PathToRoot(mp, p, rank)
  {
    var r := LeafRank(rank, p, n);
    forall x | x in mp
      ensures PathToRoot(m, x, r) == PathToRoot(mp, x, rank)
      ensures DistanceToRoot(m, dist, x, r) == DistanceToRoot(mp, dist, x, rank)
    {
      SamePathSameWalk(mp, rank, m, r, dist, x);
    }
  }

  // ---------------------------------------------------------------------
  // Re-parenting a node (`removeEdge` from the old parent, `addEdge` from
  // the new one), the rewiring step of RRT*.
  // ---------------------------------------------------------------------

  /** The map after `removeEdge(q->parent, q)` and `addEdge(c, q, d)`. */
  function Reparent(mp: map<Cell, NodeRec>, q: Cell, c: Cell, d: int): map<Cell, NodeRec>
    requires q in mp && c in mp && mp[q].parent.Some? && mp[q].parent.value in mp
  {
    AddEdgeMap(RemoveEdgeMap(mp, mp[q].parent.value, q), c, q, d)
  }

  /** `m` is `mp` with `q` moved from under its parent `op` to the end of the
      children of `c`; nothing else differs. */
  ghost predicate Moved(mp: map<Cell, NodeRec>, m: map<Cell, NodeRec>, q: Cell, op: Cell, c: Cell) {
    q in mp && op in mp && c in mp && q != c && q != op &&
    mp[q].parent == Some(op) && m.Keys == mp.Keys &&
    m[q].parent == Some(c) && m[q].children == mp[q].children &&
    m[c].children == (if c == op then Without(mp[c].children, q) else mp[c].children) + [q] &&
    (op != c ==> m[op].children == Without(mp[op].children, q)) &&
    (forall y :: y in mp && y != q ==> m[y].parent == mp[y].parent) &&
    (forall y :: y in mp && y != c && y != op ==> m[y].children == mp[y].children)
  }

  lemma ReparentAt(mp: map<Cell, NodeRec>, rank: map<Cell, nat>, q: Cell, c: Cell, d: int)
    requires RankOk(mp, rank) && q in mp && c in mp && mp[q].parent.Some? && q != c
    ensures Moved(mp, Reparent(mp, q, c, d), q, mp[q].parent.value, c)
    ensures Reparent(mp, q, c, d)[q].distanceFromParent == d
  {
    assert mp[q].parent.value != q;
  }

  /** The rank witness after re-parenting `q` under `c`: the whole subtree of
      `q` is shifted below `c`. */
  ghost function ShiftRank(mp: map<Cell, NodeRec>, rank: map<Cell, nat>, q: Cell, c: Cell): map<Cell, nat>
    requires RankOk(mp, rank) && c in mp
  {
    map y | y in rank :: if q in PathToRoot(mp, y, rank) then rank[y] + rank[c] + 1 else rank[y]
  }

  /** Re-parenting `q` under a node `c` that does not descend from `q` keeps
      the parent links acyclic: the subtree of `q` moves below `c`. */
  lemma ReparentKeepsRank(mp: map<Cell, NodeRec>, m: map<Cell, NodeRec>, rank: map<Cell, nat>,
                          q: Cell, op: Cell, c: Cell)
    requires RankOk(mp, rank) && Moved(mp, m, q, op, c)
    requires q !in PathToRoot(mp, c, rank)
    ensures RankOk(m, ShiftRank(mp, rank, q, c))
  {
    var r := ShiftRank(mp, rank, q, c);
    forall y | y in m && m[y].parent.Some?
      ensures m[y].parent.value in m && r[m[y].parent.value] < r[y]
    {
      if y == q {
        assert PathToRoot(mp, q, rank)[0] == q;
        assert r[q] == rank[q] + rank[c] + 1;
        assert r[c] == rank[c];
      } else {
        var p := mp[y].parent.value;
        assert PathToRoot(mp, y, rank) == [y] + PathToRoot(mp, p, rank);
        assert (q in PathToRoot(mp, y, rank)) == (q in PathToRoot(mp, p, rank));
      }
    }
  }

  /** Re-parenting a node that has a parent leaves the root the only node
      without one. */
  lemma ReparentKeepsRoot(mp: map<Cell, NodeRec>, m: map<Cell, NodeRec>, root: NodeRef,
                          q: Cell, op: Cell, c: Cell)
    requires SingleRoot(mp, root) && Moved(mp, m, q, op, c)
    ensures SingleRoot(m, root)
  {
  }

  /** Re-parenting keeps the children lists in agreement with the parent
      links: `q` leaves the old parent's list and joins that of `c`. */
  lemma ReparentKeepsChildren(mp: map<Cell, NodeRec>, m: map<Cell, NodeRec>, q: Cell, op: Cell, c: Cell)
    requires ChildrenMatch(mp) && Moved(mp, m, q, op, c)
    ensures ChildrenMatch(m)
  {
    forall k, x | k in m && x in m[k].children
      ensures x in m && m[x].parent == Some(k)
    {
      if k == c && x == q {
      } else if k == c || k == op {
        assert x in mp[k].children && x != q;
      } else {
        assert x in mp[k].children;
      }
    }
    forall x | x in m && m[x].parent.Some?
      ensures m[x].parent.value in m && x in m[m[x].parent.value].children
    {
      if x != q {
        var k := mp[x].parent.value;
        assert x in mp[k].children;
      }
    }
  }

  /** Re-parenting `q` under `c` leaves every node off the subtree of `q`
      with its path and cost, and costs `q` the cost of `c` plus the edge. */
  lemma ReparentWalks(mp: map<Cell, NodeRec>, m: map<Cell, NodeRec>, rank: map<Cell, nat>,
                      dist: (Cell, Cell) -> real, q: Cell, op: Cell, c: Cell)
    requires RankOk(mp, rank) && Moved(mp, m, q, op, c)
    requires q !in PathToRoot(mp, c, rank)
    requires RankOk(m, ShiftRank(mp, rank, q, c))
    ensures forall x :: x in mp && q !in PathToRoot(mp, x, rank) ==>
      DistanceToRoot(m, dist, x, ShiftRank(mp, rank, q, c)) == DistanceToRoot(mp, dist, x, rank)
    ensures DistanceToRoot(m, dist, c, ShiftRank(mp, rank, q, c)) == DistanceToRoot(mp, dist, c, rank)
    ensures DistanceToRoot(m, dist, q, ShiftRank(mp, rank, q, c)) == dist(c, q) + DistanceToRoot(mp, dist, c, rank)
  {
    var r := ShiftRank(mp, rank, q, c);
    forall x | x in mp && q !in PathToRoot(mp, x, rank)
      ensures DistanceToRoot(m, dist, x, r) == DistanceToRoot(mp, dist, x, rank)
    {
      SamePathSameWalk(mp, rank, m, r, dist, x);
    }
    SamePathSameWalk(mp, rank, m, r, dist, c);
  }

  /** The RRT* rewiring rule is sound: when the route through `c` is strictly
      cheaper than the current cost of `q`, then `c` is not below `q` (so no
      cycle is formed) and the re-parented `q` costs strictly less. */
  lemma RewireLowersCost(mp: map<Cell, NodeRec>, m: map<Cell, NodeRec>, rank: map<Cell, nat>,
                         dist: (Cell, Cell) -> real, q: Cell, op: Cell, c: Cell)
    requires RankOk(mp, rank) && IsDistance(dist) && Moved(mp, m, q, op, c)
    requires DistanceToRoot(mp, dist, c, rank) + dist(c, q) < DistanceToRoot(mp, dist, q, rank)
    ensures q !in PathToRoot(mp, c, rank)
    ensures RankOk(m, ShiftRank(mp, rank, q, c))
    ensures DistanceToRoot(m, dist, q, ShiftRank(mp, rank, q, c)) < DistanceToRoot(mp, dist, q, rank)
  {
    if q in PathToRoot(mp, c, rank) {
      DistanceToRootAlongPath(mp, dist, c, q, rank);
      assert false;
    }
    ReparentKeepsRank(mp, m, rank, q, op, c);
    ReparentWalks(mp, m, rank, dist, q, op, c);
  }

  /** If a tree differs from another only in the parent of `q`, every node
      off the subtree of `q` costs the same in both, and `q` is cheaper in the
      second, then no node is more expensive in the second and every node of
      the subtree of `q` is strictly cheaper. */
  lemma {:induction false} CheaperBelow(mp: map<Cell, NodeRec>, rank: map<Cell, nat>,
                                        m: map<Cell, NodeRec>, r: map<Cell, nat>,
                                        dist: (Cell, Cell) -> real, q: Cell, x: Cell)
    requires RankOk(mp, rank) && RankOk(m, r) && q in mp && x in mp && m.Keys == mp.Keys
    requires forall y :: y in mp && y != q ==> m[y].parent == mp[y].parent
    requires forall y :: y in mp && q !in PathToRoot(mp, y, rank) ==>
      DistanceToRoot(m, dist, y, r) == DistanceToRoot(mp, dist, y, rank)
    requires DistanceToRoot(m, dist, q, r) < DistanceToRoot(mp, dist, q, rank)
    ensures DistanceToRoot(m, dist, x, r) <= DistanceToRoot(mp, dist, x, rank)
    ensures q in PathToRoot(mp, x, rank) ==> DistanceToRoot(m, dist, x, r) < DistanceToRoot(mp, dist, x, rank)
    decreases rank[x]
  {
    if q in PathToRoot(mp, x, rank) && x != q {
      var p := mp[x].parent.value;
      assert PathToRoot(mp, x, rank) == [x] + PathToRoot(mp, p, rank);
      assert m[x].parent == Some(p);
      CheaperBelow(mp, rank, m, r, dist, q, p);
    }
  }

  /** A rewiring never makes any node more expensive, and makes every node
      of the moved subtree strictly cheaper (for any rank witness `r` of the
      rewired tree). */
  lemma RewireNoWorse(mp: map<Cell, NodeRec>, m: map<Cell, NodeRec>, rank: map<Cell, nat>,
                      r: map<Cell, nat>, dist: (Cell, Cell) -> real, q: Cell, op: Cell, c: Cell)
    requires RankOk(mp, rank) && IsDistance(dist) && Moved(mp, m, q, op, c) && RankOk(m, r)
    requires DistanceToRoot(mp, dist, c, rank) + dist(c, q) < DistanceToRoot(mp, dist, q, rank)
    ensures forall x :: x in mp ==> DistanceToRoot(m, dist, x, r) <= DistanceToRoot(mp, dist, x, rank)
    ensures forall x :: x in mp && q in PathToRoot(mp, x, rank) ==>
      DistanceToRoot(m, dist, x, r) < DistanceToRoot(mp, dist, x, rank)
  {
    if q in PathToRoot(mp, c, rank) {
      DistanceToRootAlongPath(mp, dist, c, q, rank);
      assert false;
    }
    forall y | y in mp && q !in PathToRoot(mp, y, rank)
      ensures DistanceToRoot(m, dist, y, r) == DistanceToRoot(mp, dist, y, rank)
    {
      SamePathSameWalk(mp, rank, m, r, dist, y);
    }
    SamePathSameWalk(mp, rank, m, r, dist, c);
    forall x | x in mp
      ensures DistanceToRoot(m, dist, x, r) <= DistanceToRoot(mp, dist, x, rank)
      ensures q in PathToRoot(mp, x, rank) ==> DistanceToRoot(m, dist, x, r) < DistanceToRoot(mp, dist, x, rank)
    {
      CheaperBelow(mp, rank, m, r, dist, q, x);
    }
  }

  /** `m` (ranked by `r`) is `mp` (ranked by `rank`) with `q` re-parented
      under `c`: no node dearer to reach from the root, `c` exactly as dear,
      and `q` as dear as `c` plus the step between them. */
  ghost predicate Rerouted(mp: map<Cell, NodeRec>, rank: map<Cell, nat>, m: map<Cell, NodeRec>,
                           r: map<Cell, nat>, dist: (Cell, Cell) -> real, q: Cell, c: Cell) {
    RankOk(mp, rank) && RankOk(m, r) && q in mp && c in mp && mp[q].parent.Some? &&
    Moved(mp, m, q, mp[q].parent.value, c) &&
    (forall x :: x in mp ==> DistanceToRoot(m, dist, x, r) <= DistanceToRoot(mp, dist, x, rank)) &&
    DistanceToRoot(m, dist, c, r) == DistanceToRoot(mp, dist, c, rank) &&
    DistanceToRoot(m, dist, q, r) == dist(c, q) + DistanceToRoot(mp, dist, c, rank)
  }

  /** The rewiring rule of RRT*: when the route to `q` through `c` is
      strictly cheaper than its own, `q` has a parent and re-parenting it
      under `c` keeps the tree well shaped. */
  lemma RewireShape(mp: map<Cell, NodeRec>, rank: map<Cell, nat>, root: NodeRef,
                    dist: (Cell, Cell) -> real, q: Cell, c: Cell, d: int)
    requires TreeShape(mp, root, rank) && IsDistance(dist) && q in mp && c in mp
    requires DistanceToRoot(mp, dist, c, rank) + dist(c, q) < DistanceToRoot(mp, dist, q, rank)
    ensures mp[q].parent.Some? && mp[q].parent.value in mp && q != c
    ensures TreeShape(Reparent(mp, q, c, d), root, ShiftRank(mp, rank, q, c))
  {
    DistanceToRootNonNeg(mp, dist, c, rank);
    var m := Reparent(mp, q, c, d);
    var op := mp[q].parent.value;
    ReparentAt(mp, rank, q, c, d);
    RewireLowersCost(mp, m, rank, dist, q, op, c);
    ReparentKeepsRoot(mp, m, root, q, op, c);
    ReparentKeepsChildren(mp, m, q, op, c);
  }

  /** ... it moves `q` under `c`, leaves `c` as dear as before and makes
      `q` as dear as `c` plus the step between them ... */
  lemma RewireEnds(mp: map<Cell, NodeRec>, rank: map<Cell, nat>,
                   dist: (Cell, Cell) -> real, q: Cell, c: Cell, d: int)
    requires RankOk(mp, rank) && IsDistance(dist) && q in mp && c in mp
    requires DistanceToRoot(mp, dist, c, rank) + dist(c, q) < DistanceToRoot(mp, dist, q, rank)
    ensures mp[q].parent.Some? && q != c
    ensures Moved(mp, Reparent(mp, q, c, d), q, mp[q].parent.value, c)
    ensures RankOk(Reparent(mp, q, c, d), ShiftRank(mp, rank, q, c))
    ensures DistanceToRoot(Reparent(mp, q, c, d), dist, c, ShiftRank(mp, rank, q, c)) == DistanceToRoot(mp, dist, c, rank)
    ensures DistanceToRoot(Reparent(mp, q, c, d), dist, q, ShiftRank(mp, rank, q, c)) == dist(c, q) + DistanceToRoot(mp, dist, c, rank)
  {
    DistanceToRootNonNeg(mp, dist, c, rank);
    assert 0.0 <= dist(c, q);
    assert mp[q].parent.Some?;
    var m := Reparent(mp, q, c, d);
    var op := mp[q].parent.value;
    assert q != c;
    ReparentAt(mp, rank, q, c, d);
    RewireLowersCost(mp, m, rank, dist, q, op, c);
    ReparentWalks(mp, m, rank, dist, q, op, c);
  }

  /** ... and the re-parenting is `Rerouted`: on top of that it raises no
      cost. */
  lemma RewireCosts(mp: map<Cell, NodeRec>, rank: map<Cell, nat>,
                    dist: (Cell, Cell) -> real, q: Cell, c: Cell, d: int)
    requires RankOk(mp, rank) && IsDistance(dist) && q in mp && c in mp
    requires DistanceToRoot(mp, dist, c, rank) + dist(c, q) < DistanceToRoot(mp, dist, q, rank)
    ensures mp[q].parent.Some? && mp[q].parent.value in mp
    ensures Rerouted(mp, rank, Reparent(mp, q, c, d), ShiftRank(mp, rank, q, c), dist, q, c)
  {
    RewireEnds(mp, rank, dist, q, c, d);
    RewireNoWorse(mp, Reparent(mp, q, c, d), rank, ShiftRank(mp, rank, q, c), dist, q, mp[q].parent.value, c);
  }

  /** The rewiring rule with its rank witness: re-parenting `q` under `c`
      when the route through `c` is strictly cheaper keeps the tree well
      shaped (ranked by `r`) and is `Rerouted`. */
  lemma RewireRanked(mp: map<Cell, NodeRec>, rank: map<Cell, nat>, root: NodeRef,
                     dist: (Cell, Cell) -> real, q: Cell, c: Cell, d: int) returns (r: map<Cell, nat>)
    requires TreeShape(mp, root, rank) && IsDistance(dist) && q in mp && c in mp
    requires DistanceToRoot(mp, dist, c, rank) + dist(c, q) < DistanceToRoot(mp, dist, q, rank)
    ensures mp[q].parent.Some? && mp[q].parent.value in mp && q != c
    ensures TreeShape(Reparent(mp, q, c, d), root, r)
    ensures Rerouted(mp, rank, Reparent(mp, q, c, d), r, dist, q, c)
  {
    RewireShape(mp, rank, root, dist, q, c, d);
    RewireCosts(mp, rank, dist, q, c, d);
    r := ShiftRank(mp, rank, q, c);
  }

  /** The tree holding only the node that `createNode` made the root is
      well shaped. */
  lemma RootOnlyShape(c: Cell)
    ensures TreeShape(map[c := FreshNode(c)], Some(c), map[c := 0])
  {
  }

  /** The path produced by `getPath` ends at the root of the tree. */
  lemma PathEndsAtRoot(mp: map<Cell, NodeRec>, root: NodeRef, c: Cell, rank: map<Cell, nat>)
    requires RankOk(mp, rank) && SingleRoot(mp, root) && c in mp
    ensures root.Some? && PathToRoot(mp, c, rank)[|PathToRoot(mp, c, rank)| - 1] == root.value
  {
    var path := PathToRoot(mp, c, rank);
    assert mp[path[|path| - 1]].parent.None?;
  }

  /** The root is never re-parented by the rewiring rule: its cost is zero
      and no route to it is cheaper. */
  lemma RootNotRewired(mp: map<Cell, NodeRec>, rank: map<Cell, nat>, dist: (Cell, Cell) -> real,
                       q: Cell, c: Cell)
    requires RankOk(mp, rank) && IsDistance(dist) && q in mp && c in mp && mp[q].parent.None?
    ensures !(DistanceToRoot(mp, dist, c, rank) + dist(c, q) < DistanceToRoot(mp, dist, q, rank))
  {
    DistanceToRootNonNeg(mp, dist, c, rank);
  }

  /** `m` (ranked by `r`) is `mp` (ranked by `rank`) grown by the leaf `n`
      under `p`: every old node keeps its path and cost, and the leaf's cost
      is that of `p` plus the edge. */
  ghost predicate LeafGrown(mp: map<Cell, NodeRec>, rank: map<Cell, nat>, m: map<Cell, NodeRec>,
                            r: map<Cell, nat>, dist: (Cell, Cell) -> real, p: Cell, n: Cell) {
    LeafAdded(mp, m, p, n) && RankOk(mp, rank) && RankOk(m, r) && p in rank &&
    r == LeafRank(rank, p, n) &&
    (forall x {:trigger PathToRoot(m, x, r)} {:trigger DistanceToRoot(m, dist, x, r)} :: x in mp ==>
      PathToRoot(m, x, r) == PathToRoot(mp, x, rank) &&
      DistanceToRoot(m, dist, x, r) == DistanceToRoot(mp, dist, x, rank)) &&
    DistanceToRoot(m, dist, n, r) == dist(p, n) + DistanceToRoot(mp, dist, p, rank) &&
    PathToRoot(m, n, r) == [n] + PathToRoot(mp, p, rank)
  }

  /** `createNode` followed by `addEdge` from a present parent keeps the tree
      well shaped. */
  lemma AddLeafShape(mp: map<Cell, NodeRec>, rank: map<Cell, nat>, root: NodeRef,
                     p: Cell, n: Cell, d: int)
    requires TreeShape(mp, root, rank) && p in mp && n !in mp
    ensures TreeShape(AddLeaf(mp, p, n, d), root, LeafRank(rank, p, n))
    ensures AddLeaf(mp, p, n, d)[n].distanceFromParent == d
  {
    var m := AddLeaf(mp, p, n, d);
    AddLeafAt(mp, p, n, d);
    AddLeafKeepsRank(mp, m, rank, p, n);
    AddLeafKeepsRoot(mp, m, root, p, n);
    AddLeafKeepsChildren(mp, m, p, n);
  }

  /** ... and grows it by exactly that leaf. */
  lemma AddLeafGrows(mp: map<Cell, NodeRec>, rank: map<Cell, nat>,
                     dist: (Cell, Cell) -> real, p: Cell, n: Cell, d: int)
    requires RankOk(mp, rank) && p in mp && n !in mp
    ensures LeafGrown(mp, rank, AddLeaf(mp, p, n, d), LeafRank(rank, p, n), dist, p, n)
  {
    var m := AddLeaf(mp, p, n, d);
    AddLeafAt(mp, p, n, d);
    AddLeafKeepsRank(mp, m, rank, p, n);
    AddLeafWalks(mp, m, rank, dist, p, n);
  }
}
