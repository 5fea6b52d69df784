/** Garden plot regions (day 12): the union-find over flattened cell indices
    `y * width + x` whose sets carry a perimeter counter and lists of unit
    boundary edges that move with the set on every union. */
module GardenFences {
  import opened Wrappers
  import opened GardenForest

  // ---------------------------------------------------------------------------
  // Geometry
  // ---------------------------------------------------------------------------

  datatype Point = Point(x: nat, y: nat)

  datatype EdgeType = Top | Bottom | Left | Right

  /** A boundary segment between two lattice corners; `start == end` is the
      removed sentinel. */
  datatype Edge = Edge(start: Point, end: Point, typ: EdgeType)

  /** `Edge::empty`. */
  const EmptyEdge: Edge := Edge(Point(0, 0), Point(0, 0), Top)

  predicate IsEmpty(e: Edge) {
    e.start == e.end
  }

  predicate Horizontal(t: EdgeType) {
    t == Top || t == Bottom
  }

  /** A non-empty axis-parallel segment running in the positive direction of
      the axis its orientation prescribes. */
  predicate Straight(e: Edge) {
    if Horizontal(e.typ) then e.start.y == e.end.y && e.start.x < e.end.x
    else e.start.x == e.end.x && e.start.y < e.end.y
  }

  lemma {:induction false} StraightNotEmpty(e: Edge)
    requires Straight(e)
    ensures !IsEmpty(e) && Len(e) > 0
  {
  }

  /** Length of a segment along its axis (0 for the sentinel). */
  function Len(e: Edge): int {
    (e.end.x - e.start.x) + (e.end.y - e.start.y)
  }

  function TotalLen(s: seq<Edge>): int {
    if |s| == 0 then 0 else TotalLen(s[..|s| - 1]) + Len(s[|s| - 1])
  }

  /** The four neighbour offsets, in the order the scanner visits them. */
  const Directions: seq<(int, int)> := [(-1, 0), (1, 0), (0, -1), (0, 1)]

  /** The unit edge `add_edge` records for side `(dx, dy)` of cell `(x, y)`:
      the cell's left, right, top or bottom border. */
  function UnitEdge(x: nat, y: nat, dx: int, dy: int): (e: Edge)
    requires (dx, dy) in Directions
    ensures Straight(e) && Len(e) == 1
    ensures dx == -1 ==> e == Edge(Point(x, y), Point(x, y + 1), Left)
    ensures dx == 1 ==> e == Edge(Point(x + 1, y), Point(x + 1, y + 1), Right)
    ensures dy == -1 ==> e == Edge(Point(x, y), Point(x + 1, y), Top)
    ensures dy == 1 ==> e == Edge(Point(x, y + 1), Point(x + 1, y + 1), Bottom)
  {
    if dx == -1 then Edge(Point(x, y), Point(x, y + 1), Left)
    else if dx == 1 then Edge(Point(x + 1, y), Point(x + 1, y + 1), Right)
    else if dy == -1 then Edge(Point(x, y), Point(x + 1, y), Top)
    else Edge(Point(x, y + 1), Point(x + 1, y + 1), Bottom)
  }

  // ---------------------------------------------------------------------------
  // Totals over the per-cell payload
  // ---------------------------------------------------------------------------

  function Sum(s: seq<nat>): nat {
    SumTo(s, |s|)
  }

  /** The sum of the first `n` entries. */
  function SumTo(s: seq<nat>, n: nat): nat
    requires n <= |s|
  {
    if n == 0 then 0 else SumTo(s, n - 1) + s[n - 1]
  }

  lemma {:induction false} SumToUpdate(s: seq<nat>, i: nat, v: nat, n: nat)
    requires i < |s| && n <= |s|
    ensures SumTo(s[i := v], n) + (if i < n then s[i] else 0) == SumTo(s, n) + (if i < n then v else 0)
  {
    if n > 0 {
      SumToUpdate(s, i, v, n - 1);
    }
  }

  lemma {:induction false} SumUpdate(s: seq<nat>, i: nat, v: nat)
    requires i < |s|
    ensures Sum(s[i := v]) + s[i] == Sum(s) + v
  {
    SumToUpdate(s, i, v, |s|);
  }

  /** The edges a list entry holds (none when the key is absent). */
  function Held(o: Option<seq<Edge>>): seq<Edge> {
    if o.Some? then o.value else []
  }

  function Contents(o: Option<seq<Edge>>): multiset<Edge> {
    if o.Some? then multiset(o.value) else multiset{}
  }

  /** All edges held by the per-cell edge lists. */
  function EdgeBag(lists: seq<Option<seq<Edge>>>): multiset<Edge> {
    if |lists| == 0 then multiset{}
    else EdgeBag(lists[..|lists| - 1]) + Contents(lists[|lists| - 1])
  }

  lemma {:induction false} EdgeBagUpdate(lists: seq<Option<seq<Edge>>>, i: nat, o: Option<seq<Edge>>)
    requires i < |lists|
    ensures EdgeBag(lists[i := o]) + Contents(lists[i]) == EdgeBag(lists) + Contents(o)
    decreases |lists|
  {
    var n := |lists| - 1;
    var t := lists[i := o];
    if i == n {
      assert t[..n] == lists[..n];
    } else {
      assert t[..n] == lists[..n][i := o];
      EdgeBagUpdate(lists[..n], i, o);
      MultisetShift(EdgeBag(t[..n]), EdgeBag(lists[..n]), Contents(lists[i]), Contents(o), Contents(lists[n]));
    }
  }

  lemma {:induction false} MultisetShift<T>(a: multiset<T>, b: multiset<T>, x: multiset<T>, y: multiset<T>, l: multiset<T>)
    requires a + x == b + y
    ensures (a + l) + x == (b + l) + y
  {
    assert forall t :: ((a + l) + x)[t] == (a + x)[t] + l[t];
    assert forall t :: ((b + l) + y)[t] == (b + y)[t] + l[t];
  }

  lemma {:induction false} MultisetCancel<T>(x: multiset<T>, y: multiset<T>, z: multiset<T>)
    requires x + z == y + z
    ensures x == y
  {
    assert forall t :: x[t] == (x + z)[t] - z[t];
    assert forall t :: y[t] == (y + z)[t] - z[t];
  }

  /** The edges held by the cells whose class (entry of `rs`) lies in `keys`. */
  function BagWhere(lists: seq<Option<seq<Edge>>>, rs: seq<nat>, keys: set<nat>): multiset<Edge>
    requires |rs| == |lists|
  {
    if |lists| == 0 then multiset{}
    else
      var n := |lists| - 1;
      BagWhere(lists[..n], rs[..n], keys) + (if rs[n] in keys then Contents(lists[n]) else multiset{})
  }

  lemma {:induction false} BagWhereUpdateIn(lists: seq<Option<seq<Edge>>>, rs: seq<nat>, keys: set<nat>, i: nat, o: Option<seq<Edge>>)
    requires |rs| == |lists| && i < |lists| && rs[i] in keys
    ensures BagWhere(lists[i := o], rs, keys) + Contents(lists[i]) == BagWhere(lists, rs, keys) + Contents(o)
    decreases |lists|
  {
    var n := |lists| - 1;
    var t := lists[i := o];
    if i == n {
      assert t[..n] == lists[..n];
    } else {
      assert t[..n] == lists[..n][i := o];
      BagWhereUpdateIn(lists[..n], rs[..n], keys, i, o);
      MultisetShift(BagWhere(t[..n], rs[..n], keys), BagWhere(lists[..n], rs[..n], keys),
        Contents(lists[i]), Contents(o), if rs[n] in keys then Contents(lists[n]) else multiset{});
    }
  }

  lemma {:induction false} BagWhereUpdateOut(lists: seq<Option<seq<Edge>>>, rs: seq<nat>, keys: set<nat>, i: nat, o: Option<seq<Edge>>)
    requires |rs| == |lists| && i < |lists| && rs[i] !in keys
    ensures BagWhere(lists[i := o], rs, keys) == BagWhere(lists, rs, keys)
    decreases |lists|
  {
    var n := |lists| - 1;
    var t := lists[i := o];
    if i == n {
      assert t[..n] == lists[..n];
    } else {
      assert t[..n] == lists[..n][i := o];
      BagWhereUpdateOut(lists[..n], rs[..n], keys, i, o);
    }
  }

  /** Only membership of each class in `keys` matters. */
  lemma {:induction false} BagWhereRelabel(lists: seq<Option<seq<Edge>>>, rs: seq<nat>, keys: set<nat>, rs': seq<nat>, keys': set<nat>)
    requires |rs| == |lists| && |rs'| == |lists|
    requires forall c :: 0 <= c < |lists| ==> (rs[c] in keys <==> rs'[c] in keys')
    ensures BagWhere(lists, rs, keys) == BagWhere(lists, rs', keys')
    decreases |lists|
  {
    if |lists| > 0 {
      var n := |lists| - 1;
      BagWhereRelabel(lists[..n], rs[..n], keys, rs'[..n], keys');
    }
  }

  /** Selecting two disjoint key sets selects the sum of their bags. */
  lemma {:induction false} BagWhereSplit(lists: seq<Option<seq<Edge>>>, rs: seq<nat>, k1: set<nat>, k2: set<nat>)
    requires |rs| == |lists| && k1 !! k2
    ensures BagWhere(lists, rs, k1 + k2) == BagWhere(lists, rs, k1) + BagWhere(lists, rs, k2)
    decreases |lists|
  {
    if |lists| > 0 {
      var n := |lists| - 1;
      BagWhereSplit(lists[..n], rs[..n], k1, k2);
    }
  }

  /** With every class selected, the selection is the whole bag. */
  lemma {:induction false} BagWhereAll(lists: seq<Option<seq<Edge>>>, rs: seq<nat>, keys: set<nat>)
    requires |rs| == |lists| && forall c :: 0 <= c < |rs| ==> rs[c] in keys
    ensures BagWhere(lists, rs, keys) == EdgeBag(lists)
    decreases |lists|
  {
    if |lists| > 0 {
      var n := |lists| - 1;
      BagWhereAll(lists[..n], rs[..n], keys);
    }
  }

  /** The perimeter held by the cells whose class (entry of `rs`) lies in
      `keys`. */
  function SumWhere(p: seq<nat>, rs: seq<nat>, keys: set<nat>): nat
    requires |rs| == |p|
  {
    if |p| == 0 then 0
    else
      var n := |p| - 1;
      SumWhere(p[..n], rs[..n], keys) + (if rs[n] in keys then p[n] else 0)
  }

  lemma {:induction false} SumWhereUpdate(p: seq<nat>, rs: seq<nat>, keys: set<nat>, i: nat, v: nat)
    requires |rs| == |p| && i < |p|
    ensures SumWhere(p[i := v], rs, keys) + (if rs[i] in keys then p[i] else 0)
         == SumWhere(p, rs, keys) + (if rs[i] in keys then v else 0)
    decreases |p|
  {
    var n := |p| - 1;
    var t := p[i := v];
    if i == n {
      assert t[..n] == p[..n];
    } else {
      assert t[..n] == p[..n][i := v];
      SumWhereUpdate(p[..n], rs[..n], keys, i, v);
    }
  }

  lemma {:induction false} SumWhereRelabel(p: seq<nat>, rs: seq<nat>, keys: set<nat>, rs': seq<nat>, keys': set<nat>)
    requires |rs| == |p| && |rs'| == |p|
    requires forall c :: 0 <= c < |p| ==> (rs[c] in keys <==> rs'[c] in keys')
    ensures SumWhere(p, rs, keys) == SumWhere(p, rs', keys')
    decreases |p|
  {
    if |p| > 0 {
      var n := |p| - 1;
      SumWhereRelabel(p[..n], rs[..n], keys, rs'[..n], keys');
    }
  }

  /** When `k` is its own class and every other member of the class holds
      nothing, the class holds just `p[k]`. */
  lemma {:induction false} SumWhereSingle(p: seq<nat>, rs: seq<nat>, k: nat)
    requires |rs| == |p| && (k < |p| ==> rs[k] == k)
    requires forall c :: 0 <= c < |p| && c != k && rs[c] == k ==> p[c] == 0
    ensures SumWhere(p, rs, {k}) == if k < |p| then p[k] else 0
    decreases |p|
  {
    if |p| > 0 {
      var n := |p| - 1;
      SumWhereSingle(p[..n], rs[..n], k);
    }
  }

  /** The same for edge lists: only `k` itself may hold a list in its class. */
  lemma {:induction false} BagWhereSingle(lists: seq<Option<seq<Edge>>>, rs: seq<nat>, k: nat)
    requires |rs| == |lists| && (k < |lists| ==> rs[k] == k)
    requires forall c :: 0 <= c < |lists| && c != k && rs[c] == k ==> lists[c] == None
    ensures BagWhere(lists, rs, {k}) == if k < |lists| then Contents(lists[k]) else multiset{}
    decreases |lists|
  {
    if |lists| > 0 {
      var n := |lists| - 1;
      BagWhereSingle(lists[..n], rs[..n], k);
    }
  }

  // ---------------------------------------------------------------------------
  // The union-find with its payload
  // ---------------------------------------------------------------------------

  /** `UnionFind`, with `parents` and `rank` kept together as a `Forest`;
      `edges[i] == None` models "no entry for key i" in the source's map. */
  datatype UnionFind = UnionFind(
    width: nat,
    height: nat,
    perimeter: seq<nat>,
    edges: seq<Option<seq<Edge>>>,
    forest: Forest)
  {
    function Size(): nat {
      forest.Size()
    }

    /** One entry per cell, only roots hold a non-zero perimeter, and every
        edge list is non-empty and made of straight segments. */
    predicate Valid() {
      && forest.Valid()
      && forest.Size() == width * height
      && |perimeter| == forest.Size()
      && |edges| == forest.Size()
      && (forall i :: 0 <= i < |perimeter| && forest.parents[i] != i ==> perimeter[i] == 0)
      && (forall i :: 0 <= i < |edges| && edges[i].Some? ==> WellFormedList(edges[i].value))
    }
  }

  predicate WellFormedList(v: seq<Edge>) {
    |v| > 0 && forall e :: e in v ==> Straight(e)
  }

  /** `UnionFind::new`: every cell its own singleton set, with rank 0,
      perimeter 0 and no edge list. */
  function New(width: nat, height: nat): (uf: UnionFind)
    ensures uf.Valid() && uf.width == width && uf.height == height
    ensures uf.Size() == width * height
    ensures forall i :: 0 <= i < uf.Size() ==>
      uf.forest.parents[i] == i && uf.forest.rank[i] == 0 && uf.perimeter[i] == 0 && uf.edges[i] == None
  {
    UnionFind(width, height, seq(width * height, _ => 0), seq(width * height, _ => None), Singletons(width * height))
  }

  /** The flattened index of cell `(x, y)`. */
  function CellIndex(width: nat, height: nat, x: nat, y: nat): (i: nat)
    requires x < width && y < height
    ensures i < width * height
  {
    CellIndexBound(width, height, x, y);
    y * width + x
  }

  lemma {:induction false} CellIndexBound(width: nat, height: nat, x: nat, y: nat)
    requires x < width && y < height
    ensures y * width + x < width * height
  {
    assert y * width <= (height - 1) * width by {
      MulMono(y, height - 1, width);
    }
    assert (height - 1) * width + width == height * width;
  }

  lemma {:induction false} MulMono(a: nat, b: nat, c: nat)
    requires a <= b
    ensures a * c <= b * c
  {
  }

  /** The root of set `idx` in `uf`, without compression. */
  function RootOf(uf: UnionFind, idx: nat): nat
    requires uf.Valid() && idx < uf.Size()
  {
    Root(uf.forest, idx)
  }

  /** `find_by_idx` lifted to the whole structure: only the parent links
      change, and every cell keeps its root. */
  function Locate(uf: UnionFind, idx: nat): (res: (UnionFind, nat))
    requires uf.Valid() && idx < uf.Size()
    ensures res.0.Valid() && res.0 == uf.(forest := res.0.forest)
    ensures res.0.forest.rank == uf.forest.rank
    ensures SameRoots(uf.forest, res.0.forest)
    ensures res.1 == RootOf(uf, idx) && res.0.forest.parents[res.1] == res.1
    ensures res.0.forest.parents[idx] == res.1
  {
    var (g, r) := FindByIdx(uf.forest, idx);
    forall k | 0 <= k < uf.Size() ensures g.parents[k] == k <==> uf.forest.parents[k] == k {
      FindKeepsRoots(uf.forest, idx, k);
    }
    (uf.(forest := g), r)
  }

  /** `find`: the root of the set of cell `(x, y)`. */
  function Find(uf: UnionFind, x: nat, y: nat): (res: (UnionFind, nat))
    requires uf.Valid() && x < uf.width && y < uf.height
    ensures res.0.Valid() && res.0 == uf.(forest := res.0.forest)
    ensures SameRoots(uf.forest, res.0.forest) && res.0.forest.rank == uf.forest.rank
    ensures res.1 == RootOf(uf, CellIndex(uf.width, uf.height, x, y))
    ensures res.1 < uf.Size() && res.0.forest.parents[res.1] == res.1
  {
    Locate(uf, CellIndex(uf.width, uf.height, x, y))
  }

  // --- union with payload migration -----------------------------------------

  /** Adds the subsumed root's perimeter to the survivor's and zeroes it. */
  function Absorb(p: seq<nat>, child: nat, parent: nat): (r: seq<nat>)
    requires child < |p| && parent < |p| && child != parent
    ensures |r| == |p| && Sum(r) == Sum(p)
    ensures r[parent] == p[parent] + p[child] && r[child] == 0
    ensures forall k :: 0 <= k < |p| && k != child && k != parent ==> r[k] == p[k]
  {
    var p1 := p[parent := p[parent] + p[child]];
    SumUpdate(p, parent, p[parent] + p[child]);
    SumUpdate(p1, child, 0);
    p1[child := 0]
  }

  /** Moves the edge list of `child` (if any) onto `parent`, appending it to
      the list already there. */
  function MoveEdges(lists: seq<Option<seq<Edge>>>, child: nat, parent: nat): (r: seq<Option<seq<Edge>>>)
    requires child < |lists| && parent < |lists| && child != parent
    ensures |r| == |lists| && r[child] == None
    ensures lists[child].None? ==> r == lists
    ensures lists[child].Some? ==> r[parent] == Some(Held(lists[parent]) + lists[child].value)
    ensures forall k :: 0 <= k < |lists| && k != child && k != parent ==> r[k] == lists[k]
  {
    if lists[child].None? then lists
    else lists[child := None][parent := Some(Held(lists[parent]) + lists[child].value)]
  }

  /** Moving a list between two cells of one class leaves every class's
      edges where they were. */
  lemma {:induction false} MoveEdgesWithin(lists: seq<Option<seq<Edge>>>, rs: seq<nat>, keys: set<nat>, child: nat, parent: nat)
    requires |rs| == |lists| && child < |lists| && parent < |lists| && child != parent
    requires rs[child] in keys <==> rs[parent] in keys
    ensures BagWhere(MoveEdges(lists, child, parent), rs, keys) == BagWhere(lists, rs, keys)
  {
    if lists[child].Some? {
      var removed := lists[child := None];
      var merged := Some(Held(lists[parent]) + lists[child].value);
      assert MoveEdges(lists, child, parent) == removed[parent := merged];
      if rs[child] in keys {
        MoveInside(lists, rs, keys, child, parent);
      } else {
        BagWhereUpdateOut(lists, rs, keys, child, None);
        BagWhereUpdateOut(removed, rs, keys, parent, merged);
      }
    }
  }

  lemma {:induction false} MoveInside(lists: seq<Option<seq<Edge>>>, rs: seq<nat>, keys: set<nat>, child: nat, parent: nat)
    requires |rs| == |lists| && child < |lists| && parent < |lists| && child != parent
    requires rs[child] in keys && rs[parent] in keys && lists[child].Some?
    ensures BagWhere(lists[child := None][parent := Some(Held(lists[parent]) + lists[child].value)], rs, keys)
         == BagWhere(lists, rs, keys)
  {
    var v := lists[child].value;
    var removed := lists[child := None];
    var merged := Some(Held(lists[parent]) + v);
    BagWhereUpdateIn(lists, rs, keys, child, None);
    BagWhereUpdateIn(removed, rs, keys, parent, merged);
    assert removed[parent] == lists[parent];
    var a := BagWhere(removed, rs, keys);
    var b := BagWhere(removed[parent := merged], rs, keys);
    var old_p := Contents(lists[parent]);
    assert Contents(merged) == old_p + multiset(v);
    assert a + multiset(v) == BagWhere(lists, rs, keys);
    assert b + old_p == a + old_p + multiset(v);
    MultisetCancel(b, a + multiset(v), old_p);
  }

  lemma {:induction false} MoveEdgesBag(lists: seq<Option<seq<Edge>>>, child: nat, parent: nat)
    requires child < |lists| && parent < |lists| && child != parent
    ensures EdgeBag(MoveEdges(lists, child, parent)) == EdgeBag(lists)
  {
    var rs := seq(|lists|, _ => 0);
    MoveEdgesWithin(lists, rs, {0}, child, parent);
    BagWhereAll(lists, rs, {0});
    BagWhereAll(MoveEdges(lists, child, parent), rs, {0});
  }

  /** `union`: joins the sets of `idx1` and `idx2` by the rank rule, moving
      the subsumed root's perimeter and edge list onto the survivor; when both
      already share a root only path compression happens. */
  function Union(uf: UnionFind, idx1: nat, idx2: nat): (r: UnionFind)
    requires uf.Valid() && idx1 < uf.Size() && idx2 < uf.Size()
    ensures r.Valid() && r.width == uf.width && r.height == uf.height
    ensures RootOf(r, idx1) == RootOf(r, idx2)
    ensures RootOf(r, idx1) == RootOf(uf, idx1) || RootOf(r, idx1) == RootOf(uf, idx2)
    ensures MergedRoots(uf.forest, r.forest, RootOf(uf, idx1), RootOf(uf, idx2), RootOf(r, idx1))
    ensures Sum(r.perimeter) == Sum(uf.perimeter)
    ensures EdgeBag(r.edges) == EdgeBag(uf.edges)
    ensures RootOf(uf, idx1) == RootOf(uf, idx2) ==>
      r == uf.(forest := r.forest) && SameRoots(uf.forest, r.forest) && r.forest.rank == uf.forest.rank
  {
    var (u1, root1) := Locate(uf, idx1);
    var (u2, root2) := Locate(u1, idx2);
    SameRootsTrans(uf.forest, u1.forest, u2.forest);
    assert root2 == RootOf(uf, idx2);
    if root1 == root2 then
      SameIsMerged(uf.forest, u2.forest, root1);
      u2
    else
      var r := Join(u2, root1, root2);
      JoinConserves(u2, root1, root2);
      SameThenMerged(uf.forest, u2.forest, r.forest, root1, root2, RootOf(r, root1));
      assert RootOf(r, idx1) == RootOf(r, root1);
      assert RootOf(r, idx2) == RootOf(r, root2);
      r
  }

  /** The joining half of `union`, on two distinct roots: the rank rule
      picks the subsumed root, whose perimeter and edge list move onto the
      survivor. */
  function Join(u: UnionFind, root1: nat, root2: nat): (r: UnionFind)
    requires u.Valid() && root1 < u.Size() && root2 < u.Size() && root1 != root2
    requires u.forest.parents[root1] == root1 && u.forest.parents[root2] == root2
    ensures r.Valid() && r.width == u.width && r.height == u.height
    ensures var (g, child, parent) := Link(u.forest, root1, root2);
      && r.forest == g
      && r.perimeter == Absorb(u.perimeter, child, parent)
      && r.edges == MoveEdges(u.edges, child, parent)
  {
    var (g, child, parent) := Link(u.forest, root1, root2);
    MovedListsWellFormed(u.edges, child, parent);
    AbsorbAtRoots(u.perimeter, u.forest.parents, child, parent);
    UnionFind(u.width, u.height, Absorb(u.perimeter, child, parent), MoveEdges(u.edges, child, parent), g)
  }

  /** A join merges exactly the two classes under one of the two roots and
      conserves the total perimeter and the bag of edges. */
  lemma {:induction false} JoinConserves(u: UnionFind, root1: nat, root2: nat)
    requires u.Valid() && root1 < u.Size() && root2 < u.Size() && root1 != root2
    requires u.forest.parents[root1] == root1 && u.forest.parents[root2] == root2
    ensures var r := Join(u, root1, root2);
      && MergedRoots(u.forest, r.forest, root1, root2, RootOf(r, root1))
      && RootOf(r, root1) == RootOf(r, root2)
      && (RootOf(r, root1) == root1 || RootOf(r, root1) == root2)
      && Sum(r.perimeter) == Sum(u.perimeter)
      && EdgeBag(r.edges) == EdgeBag(u.edges)
  {
    var (g, child, parent) := Link(u.forest, root1, root2);
    LinkRoots(u.forest, root1, root2);
    MoveEdgesBag(u.edges, child, parent);
    assert Root(u.forest, root1) == root1 && Root(u.forest, root2) == root2;
    assert Root(g, root1) == parent && Root(g, root2) == parent;
  }

  /** Absorbing one cell's perimeter into another of the same selection
      keeps the selection's total. */
  lemma {:induction false} AbsorbWithin(p: seq<nat>, rs: seq<nat>, keys: set<nat>, child: nat, parent: nat)
    requires |rs| == |p| && child < |p| && parent < |p| && child != parent
    requires rs[child] in keys <==> rs[parent] in keys
    ensures SumWhere(Absorb(p, child, parent), rs, keys) == SumWhere(p, rs, keys)
  {
    var p1 := p[parent := p[parent] + p[child]];
    SumWhereUpdate(p, rs, keys, parent, p[parent] + p[child]);
    SumWhereUpdate(p1, rs, keys, child, 0);
    assert p1[child] == p[child];
  }

  /** A union moves perimeter and edges only between the two roots it joins,
      so a selection of classes that takes both roots or neither keeps its
      totals. */
  lemma {:induction false} UnionWithin(uf: UnionFind, idx1: nat, idx2: nat, rs: seq<nat>, keys: set<nat>)
    requires uf.Valid() && idx1 < uf.Size() && idx2 < uf.Size() && |rs| == uf.Size()
    requires rs[RootOf(uf, idx1)] in keys <==> rs[RootOf(uf, idx2)] in keys
    ensures var r := Union(uf, idx1, idx2);
      && SumWhere(r.perimeter, rs, keys) == SumWhere(uf.perimeter, rs, keys)
      && BagWhere(r.edges, rs, keys) == BagWhere(uf.edges, rs, keys)
  {
    var (u1, root1) := Locate(uf, idx1);
    var (u2, root2) := Locate(u1, idx2);
    SameRootsTrans(uf.forest, u1.forest, u2.forest);
    assert root2 == RootOf(uf, idx2);
    if root1 != root2 {
      var (g, child, parent) := Link(u2.forest, root1, root2);
      AbsorbWithin(uf.perimeter, rs, keys, child, parent);
      MoveEdgesWithin(uf.edges, rs, keys, child, parent);
    }
  }

  lemma {:induction false} MovedListsWellFormed(lists: seq<Option<seq<Edge>>>, child: nat, parent: nat)
    requires child < |lists| && parent < |lists| && child != parent
    requires forall i :: 0 <= i < |lists| && lists[i].Some? ==> WellFormedList(lists[i].value)
    ensures var r := MoveEdges(lists, child, parent);
      forall i :: 0 <= i < |r| && r[i].Some? ==> WellFormedList(r[i].value)
  {
    if lists[child].Some? {
      var merged := Held(lists[parent]) + lists[child].value;
      assert forall e :: e in merged ==> e in Held(lists[parent]) || e in lists[child].value;
    }
  }

  lemma {:induction false} AbsorbAtRoots(p: seq<nat>, parents: seq<nat>, child: nat, parent: nat)
    requires |parents| == |p| && child < |p| && parent < |p| && child != parent
    requires parents[parent] == parent
    requires forall i :: 0 <= i < |p| && parents[i] != i ==> p[i] == 0
    ensures var r := Absorb(p, child, parent);
      forall i :: 0 <= i < |p| && parents[child := parent][i] != i ==> r[i] == 0
  {
  }

  // --- payload recording -----------------------------------------------------

  /** `increase_perimeter`: one more boundary side for the set of cell
      `(x, y)`, credited to its root. */
  function IncreasePerimeter(uf: UnionFind, x: nat, y: nat): (r: UnionFind)
    requires uf.Valid() && x < uf.width && y < uf.height
    ensures r.Valid() && r.width == uf.width && r.height == uf.height
    ensures r.edges == uf.edges && SameRoots(uf.forest, r.forest)
    ensures r.forest.rank == uf.forest.rank
    ensures var root := RootOf(uf, CellIndex(uf.width, uf.height, x, y));
      r.perimeter == uf.perimeter[root := uf.perimeter[root] + 1]
    ensures Sum(r.perimeter) == Sum(uf.perimeter) + 1
  {
    var (u, root) := Find(uf, x, y);
    var p := uf.perimeter[root := uf.perimeter[root] + 1];
    SumUpdate(uf.perimeter, root, uf.perimeter[root] + 1);
    ValidWithPerimeter(u, p);
    u.(perimeter := p)
  }

  /** `add_edge`: files the unit edge of side `(dx, dy)` of cell `(x, y)`
      under the cell's own index, not under its root. */
  function AddEdge(uf: UnionFind, x: nat, y: nat, dx: int, dy: int): (r: UnionFind)
    requires uf.Valid() && x < uf.width && y < uf.height && (dx, dy) in Directions
    ensures r.Valid() && r == uf.(edges := r.edges)
    ensures var idx := CellIndex(uf.width, uf.height, x, y);
      && r.edges == uf.edges[idx := Some(Held(uf.edges[idx]) + [UnitEdge(x, y, dx, dy)])]
      && EdgeBag(r.edges) == EdgeBag(uf.edges) + multiset{UnitEdge(x, y, dx, dy)}
  {
    var idx := CellIndex(uf.width, uf.height, x, y);
    var e := UnitEdge(x, y, dx, dy);
    var lists := uf.edges[idx := Some(Held(uf.edges[idx]) + [e])];
    AppendWellFormed(uf.edges, idx, e);
    AppendBag(uf.edges, idx, e);
    ValidWithEdges(uf, lists);
    uf.(edges := lists)
  }

  predicate ListsWellFormed(lists: seq<Option<seq<Edge>>>) {
    forall i :: 0 <= i < |lists| && lists[i].Some? ==> WellFormedList(lists[i].value)
  }

  lemma {:induction false} ValidWithEdges(uf: UnionFind, lists: seq<Option<seq<Edge>>>)
    requires uf.Valid() && |lists| == uf.Size() && ListsWellFormed(lists)
    ensures uf.(edges := lists).Valid()
  {
  }

  lemma {:induction false} AppendWellFormed(lists: seq<Option<seq<Edge>>>, idx: nat, e: Edge)
    requires idx < |lists| && ListsWellFormed(lists) && Straight(e)
    ensures ListsWellFormed(lists[idx := Some(Held(lists[idx]) + [e])])
  {
    var v := Held(lists[idx]) + [e];
    assert forall f :: f in v ==> f == e || f in Held(lists[idx]);
  }

  lemma {:induction false} ValidWithPerimeter(uf: UnionFind, p: seq<nat>)
    requires uf.Valid() && |p| == uf.Size()
    requires forall i :: 0 <= i < |p| && uf.forest.parents[i] != i ==> p[i] == 0
    ensures uf.(perimeter := p).Valid()
  {
  }

  lemma {:induction false} AppendBag(lists: seq<Option<seq<Edge>>>, idx: nat, e: Edge)
    requires idx < |lists|
    ensures EdgeBag(lists[idx := Some(Held(lists[idx]) + [e])]) == EdgeBag(lists) + multiset{e}
  {
    var entry := Some(Held(lists[idx]) + [e]);
    EdgeBagUpdate(lists, idx, entry);
    var b := EdgeBag(lists[idx := entry]);
    var c := Contents(lists[idx]);
    assert Contents(entry) == c + multiset{e};
    assert b + c == (EdgeBag(lists) + multiset{e}) + c;
    MultisetCancel(b, EdgeBag(lists) + multiset{e}, c);
  }

  /** Appending one edge to a cell's list adds it to that cell's class. */
  lemma {:induction false} AppendBagWhere(lists: seq<Option<seq<Edge>>>, rs: seq<nat>, keys: set<nat>, idx: nat, e: Edge)
    requires |rs| == |lists| && idx < |lists|
    ensures BagWhere(lists[idx := Some(Held(lists[idx]) + [e])], rs, keys)
         == BagWhere(lists, rs, keys) + (if rs[idx] in keys then multiset{e} else multiset{})
  {
    var entry := Some(Held(lists[idx]) + [e]);
    if rs[idx] in keys {
      BagWhereUpdateIn(lists, rs, keys, idx, entry);
      var b := BagWhere(lists[idx := entry], rs, keys);
      var c := Contents(lists[idx]);
      assert Contents(entry) == c + multiset{e};
      assert b + c == (BagWhere(lists, rs, keys) + multiset{e}) + c;
      MultisetCancel(b, BagWhere(lists, rs, keys) + multiset{e}, c);
    } else {
      BagWhereUpdateOut(lists, rs, keys, idx, entry);
    }
  }

  // --- check -----------------------------------------------------------------

  /** Every parent is a root: the forest is at most one level deep. */
  predicate Flat(f: Forest)
    requires f.Valid()
  {
    forall k :: 0 <= k < f.Size() ==> f.parents[f.parents[k]] == f.parents[k]
  }

  /** `check` panics at `idx`: a non-root holding edges whose parent holds
      no list yet. */
  predicate Orphaned(u: UnionFind, idx: nat)
    requires u.Valid() && idx < u.Size()
  {
    var p := u.forest.parents[idx];
    p != idx && u.edges[idx].Some? && u.edges[p].None?
  }

  /** One step of `check`'s second pass: the edge list of non-root `idx`,
      if any, is appended to its parent's list, which must exist. */
  function Rehome(u: UnionFind, idx: nat): (r: Option<UnionFind>)
    requires u.Valid() && idx < u.Size()
    ensures r.None? <==> Orphaned(u, idx)
    ensures r.Some? ==> r.value.Valid() && r.value == u.(edges := r.value.edges)
    ensures r.Some? && u.forest.parents[idx] != idx ==>
      r.value.edges == MoveEdges(u.edges, idx, u.forest.parents[idx])
    ensures r.Some? && u.forest.parents[idx] == idx ==> r.value == u
  {
    var p := u.forest.parents[idx];
    if p == idx || u.edges[idx].None? then
      Some(u)
    else if u.edges[p].None? then
      None
    else
      MovedListsWellFormed(u.edges, idx, p);
      ValidWithEdges(u, MoveEdges(u.edges, idx, p));
      Some(u.(edges := MoveEdges(u.edges, idx, p)))
  }

  /** `check`'s second pass over the indices below `n`, on a flat forest. */
  function RehomeAll(u: UnionFind, n: nat): (r: Option<UnionFind>)
    requires u.Valid() && Flat(u.forest) && n <= u.Size()
    ensures r.None? <==> exists k :: 0 <= k < n && Orphaned(u, k)
    ensures r.Some? ==> r.value.Valid() && r.value == u.(edges := r.value.edges)
    ensures r.Some? ==> forall k :: 0 <= k < n && u.forest.parents[k] != k ==> r.value.edges[k] == None
    ensures r.Some? ==> forall k :: n <= k < u.Size() ==> r.value.edges[k] == u.edges[k] || u.forest.parents[k] == k
    ensures r.Some? ==> forall k :: 0 <= k < u.Size() && u.forest.parents[k] == k ==>
      (r.value.edges[k].Some? <==> u.edges[k].Some?)
    ensures r.Some? ==> forall keys :: BagWhere(r.value.edges, u.forest.parents, keys) == BagWhere(u.edges, u.forest.parents, keys)
  {
    if n == 0 then Some(u)
    else
      var prev := RehomeAll(u, n - 1);
      if prev.None? then None
      else
        var v := prev.value;
        var idx := n - 1;
        var p := u.forest.parents[idx];
        assert v.forest == u.forest;
        assert Orphaned(v, idx) <==> Orphaned(u, idx) by {
          if p != idx {
            assert v.edges[idx] == u.edges[idx];
            assert u.forest.parents[p] == p;
          }
        }
        RehomeKeepsClasses(v, idx);
        Rehome(v, idx)
  }

  /** A rehoming step moves a list within its class. */
  lemma {:induction false} RehomeKeepsClasses(v: UnionFind, idx: nat)
    requires v.Valid() && Flat(v.forest) && idx < v.Size()
    ensures Rehome(v, idx).Some? ==> forall keys ::
      BagWhere(Rehome(v, idx).value.edges, v.forest.parents, keys) == BagWhere(v.edges, v.forest.parents, keys)
  {
    var p := v.forest.parents[idx];
    if Rehome(v, idx).Some? && p != idx {
      forall keys ensures BagWhere(MoveEdges(v.edges, idx, p), v.forest.parents, keys) == BagWhere(v.edges, v.forest.parents, keys) {
        MoveEdgesWithin(v.edges, v.forest.parents, keys, idx, p);
      }
    }
  }

  /** `check`'s first pass: a `find_by_idx` on every cell in turn. */
  function FlattenForest(uf: UnionFind): (u: UnionFind)
    requires uf.Valid()
    ensures u.Valid() && u == uf.(forest := u.forest) && Flat(u.forest)
    ensures u.forest.rank == uf.forest.rank && SameRoots(uf.forest, u.forest)
    ensures forall k :: 0 <= k < uf.Size() ==> u.forest.parents[k] == RootOf(uf, k)
  {
    var f := FindAll(uf.forest, uf.Size());
    FindAllFlat(uf.forest);
    forall i | 0 <= i < uf.Size() ensures f.parents[i] == i <==> uf.forest.parents[i] == i {
      RootIsRoot(uf.forest, i);
    }
    uf.(forest := f)
  }

  /** `check`: flattens the forest, then moves every non-root's edge list
      onto its root; `None` where the source panics. */
  function Check(uf: UnionFind): (r: Option<UnionFind>)
    requires uf.Valid()
    ensures r.Some? ==> r.value.Valid() && r.value == uf.(forest := r.value.forest, edges := r.value.edges)
  {
    RehomeAll(FlattenForest(uf), uf.Size())
  }

  /** `check` panics exactly when some non-root holds edges while its root
      holds none. */
  lemma {:induction false} CheckFails(uf: UnionFind)
    requires uf.Valid()
    ensures Check(uf).None? <==>
      exists k :: 0 <= k < uf.Size() && RootOf(uf, k) != k && uf.edges[k].Some? && uf.edges[RootOf(uf, k)].None?
  {
    var u := FlattenForest(uf);
    assert forall k :: 0 <= k < uf.Size() ==>
      (Orphaned(u, k) <==> RootOf(uf, k) != k && uf.edges[k].Some? && uf.edges[RootOf(uf, k)].None?);
  }

  /** After `check` every cell's parent is its root, and the sets are the
      ones before. */
  lemma {:induction false} CheckFlattens(uf: UnionFind)
    requires uf.Valid() && Check(uf).Some?
    ensures var c := Check(uf).value;
      && c.forest.rank == uf.forest.rank && SameRoots(uf.forest, c.forest)
      && forall k :: 0 <= k < c.Size() ==> c.forest.parents[k] == RootOf(uf, k)
  {
  }

  /** After `check` only roots hold edge lists, and every set holds exactly
      the edges its cells held before. */
  lemma {:induction false} CheckGathersEdges(uf: UnionFind)
    requires uf.Valid() && Check(uf).Some?
    ensures var c := Check(uf).value;
      && (forall k :: 0 <= k < c.Size() && c.edges[k].Some? ==> c.forest.parents[k] == k)
      && (forall keys :: BagWhere(c.edges, c.forest.parents, keys) == BagWhere(uf.edges, c.forest.parents, keys))
  {
    var u := FlattenForest(uf);
    assert Check(uf) == RehomeAll(u, u.Size());
  }
}
