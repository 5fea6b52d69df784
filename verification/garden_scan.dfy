/** The scan shared by both parts of day 12: every cell, in raster order,
    looks at its four neighbours; an equal neighbour is joined to the cell's
    region, anything else (a different plot or the outside) is a side of the
    region's fence and is recorded on the union-find. */
module GardenScan {
  import opened Wrappers
  import opened GardenForest
  import opened GardenFences

  type Grid = seq<seq<char>>

  /** What the scan needs of the garden: at least one row, and no row shorter
      than the first, whose length is the width (longer rows are read only up
      to the width). */
  predicate Fits(grid: Grid) {
    |grid| >= 1 && forall y :: 0 <= y < |grid| ==> |grid[y]| >= |grid[0]|
  }

  function Width(grid: Grid): nat
    requires |grid| >= 1
  {
    |grid[0]|
  }

  /** One visit of the scan: side `d` (an index into `Directions`) of cell
      `(x, y)`. */
  datatype Side = Side(x: nat, y: nat, d: nat)

  predicate SideIn(grid: Grid, s: Side)
    requires |grid| >= 1
  {
    s.x < Width(grid) && s.y < |grid| && s.d < 4
  }

  predicate SidesIn(grid: Grid, sides: seq<Side>)
    requires |grid| >= 1
  {
    forall i :: 0 <= i < |sides| ==> SideIn(grid, sides[i])
  }

  /** The visits of row `y`: cells left to right, each with its four
      directions in the order of `Directions`. */
  function RowSides(y: nat, w: nat): (r: seq<Side>)
    ensures |r| == 4 * w
    ensures forall s :: s in r <==> s.y == y && s.x < w && s.d < 4
  {
    if w == 0 then []
    else RowSides(y, w - 1) + [Side(w - 1, y, 0), Side(w - 1, y, 1), Side(w - 1, y, 2), Side(w - 1, y, 3)]
  }

  /** Every visit of the scan, rows top to bottom. */
  function AllSides(w: nat, h: nat): (r: seq<Side>)
    ensures forall s :: s in r <==> s.y < h && s.x < w && s.d < 4
  {
    if h == 0 then [] else AllSides(w, h - 1) + RowSides(h - 1, w)
  }

  function Dx(s: Side): int
    requires s.d < 4
  {
    Directions[s.d].0
  }

  function Dy(s: Side): int
    requires s.d < 4
  {
    Directions[s.d].1
  }

  /** The neighbour the visit looks at lies inside the garden. */
  predicate HasNeighbour(grid: Grid, s: Side)
    requires |grid| >= 1 && SideIn(grid, s)
  {
    0 <= s.x + Dx(s) < Width(grid) && 0 <= s.y + Dy(s) < |grid|
  }

  /** The visit crosses a fence: its neighbour is outside the garden or
      holds a different plant. */
  predicate IsBoundary(grid: Grid, s: Side)
    requires Fits(grid) && SideIn(grid, s)
  {
    !HasNeighbour(grid, s) || grid[s.y][s.x] != grid[s.y + Dy(s)][s.x + Dx(s)]
  }

  function Cell(grid: Grid, s: Side): (c: nat)
    requires |grid| >= 1 && SideIn(grid, s)
    ensures c < Width(grid) * |grid|
  {
    CellIndex(Width(grid), |grid|, s.x, s.y)
  }

  function Neighbour(grid: Grid, s: Side): (c: nat)
    requires |grid| >= 1 && SideIn(grid, s) && HasNeighbour(grid, s)
    ensures c < Width(grid) * |grid|
  {
    CellIndex(Width(grid), |grid|, (s.x + Dx(s)) as nat, (s.y + Dy(s)) as nat)
  }

  /** The unit fence segment of a boundary visit. */
  function Fence(s: Side): Edge
    requires s.d < 4
  {
    UnitEdge(s.x, s.y, Dx(s), Dy(s))
  }

  /** What a boundary visit records: a perimeter count (part 1) or a unit
      edge (part 2). */
  datatype Mode = Perimeters | Fences

  /** One visit of the scan. */
  function Step(grid: Grid, uf: UnionFind, s: Side, mode: Mode): (r: UnionFind)
    requires Fits(grid) && SideIn(grid, s)
    requires uf.Valid() && uf.width == Width(grid) && uf.height == |grid|
    ensures r.Valid() && r.width == uf.width && r.height == uf.height
  {
    if !IsBoundary(grid, s) then Union(uf, Cell(grid, s), Neighbour(grid, s))
    else if mode == Perimeters then IncreasePerimeter(uf, s.x, s.y)
    else AddEdge(uf, s.x, s.y, Dx(s), Dy(s))
  }

  /** The union-find after the visits `sides`, starting from singletons. */
  function Scan(grid: Grid, sides: seq<Side>, mode: Mode): (uf: UnionFind)
    requires Fits(grid) && SidesIn(grid, sides)
    ensures uf.Valid() && uf.width == Width(grid) && uf.height == |grid|
  {
    if |sides| == 0 then New(Width(grid), |grid|)
    else
      var n := |sides| - 1;
      assert SidesIn(grid, sides[..n]);
      Step(grid, Scan(grid, sides[..n], mode), sides[n], mode)
  }

  // ---------------------------------------------------------------------------
  // Plants by cell index
  // ---------------------------------------------------------------------------

  /** The plants in raster order, so that cell `(x, y)` sits at `y * w + x`. */
  function Plants(grid: Grid, w: nat): (ps: seq<char>)
    requires forall y :: 0 <= y < |grid| ==> |grid[y]| >= w
    ensures |ps| == |grid| * w
  {
    if |grid| == 0 then []
    else Plants(grid[..|grid| - 1], w) + grid[|grid| - 1][..w]
  }

  lemma {:induction false} PlantAt(grid: Grid, w: nat, x: nat, y: nat)
    requires forall r :: 0 <= r < |grid| ==> |grid[r]| >= w
    requires x < w && y < |grid|
    ensures y * w + x < |Plants(grid, w)| && Plants(grid, w)[y * w + x] == grid[y][x]
    decreases |grid|
  {
    var h := |grid|;
    var init := grid[..h - 1];
    assert |Plants(init, w)| == (h - 1) * w;
    if y < h - 1 {
      PlantAt(init, w, x, y);
      MulMono(y + 1, h - 1, w);
    } else {
      assert y * w == (h - 1) * w;
    }
  }

  /** The plant of the visited cell and of its neighbour, by cell index. */
  lemma {:induction false} PlantsOfSide(grid: Grid, s: Side)
    requires Fits(grid) && SideIn(grid, s)
    ensures Plants(grid, Width(grid))[Cell(grid, s)] == grid[s.y][s.x]
    ensures HasNeighbour(grid, s) ==>
      Plants(grid, Width(grid))[Neighbour(grid, s)] == grid[s.y + Dy(s)][s.x + Dx(s)]
  {
    PlantAt(grid, Width(grid), s.x, s.y);
    if HasNeighbour(grid, s) {
      PlantAt(grid, Width(grid), (s.x + Dx(s)) as nat, (s.y + Dy(s)) as nat);
    }
  }

  // ---------------------------------------------------------------------------
  // What the scan keeps
  // ---------------------------------------------------------------------------

  /** Every region holds a single kind of plant. */
  predicate Homogeneous(grid: Grid, f: Forest)
    requires Fits(grid) && f.Valid() && f.Size() == Width(grid) * |grid|
  {
    forall c :: 0 <= c < f.Size() ==> Plants(grid, Width(grid))[Root(f, c)] == Plants(grid, Width(grid))[c]
  }

  /** Every visit in `done` that saw an equal neighbour put it in the cell's
      region. */
  predicate Joined(grid: Grid, f: Forest, done: seq<Side>)
    requires Fits(grid) && SidesIn(grid, done) && f.Valid() && f.Size() == Width(grid) * |grid|
  {
    forall i :: 0 <= i < |done| && !IsBoundary(grid, done[i]) ==>
      Root(f, Cell(grid, done[i])) == Root(f, Neighbour(grid, done[i]))
  }

  /** The unit fences of the boundary visits in `sides` whose cell's class
      (entry of `rs`) lies in `keys`. */
  function SideBag(grid: Grid, rs: seq<nat>, sides: seq<Side>, keys: set<nat>): multiset<Edge>
    requires Fits(grid) && SidesIn(grid, sides) && |rs| == Width(grid) * |grid|
  {
    if |sides| == 0 then multiset{}
    else
      var n := |sides| - 1;
      var s := sides[n];
      assert SidesIn(grid, sides[..n]);
      SideBag(grid, rs, sides[..n], keys)
        + (if IsBoundary(grid, s) && rs[Cell(grid, s)] in keys then multiset{Fence(s)} else multiset{})
  }

  lemma {:induction false} SideBagRelabel(grid: Grid, rs: seq<nat>, sides: seq<Side>, keys: set<nat>, rs': seq<nat>, keys': set<nat>)
    requires Fits(grid) && SidesIn(grid, sides) && |rs| == Width(grid) * |grid| && |rs'| == |rs|
    requires forall c :: 0 <= c < |rs| ==> (rs[c] in keys <==> rs'[c] in keys')
    ensures SideBag(grid, rs, sides, keys) == SideBag(grid, rs', sides, keys')
    decreases |sides|
  {
    if |sides| > 0 {
      var n := |sides| - 1;
      assert SidesIn(grid, sides[..n]);
      SideBagRelabel(grid, rs, sides[..n], keys, rs', keys');
    }
  }

  /** Every selection of classes of `rs` holds as much of `p` as it has
      boundary visits in `done`. */
  ghost predicate Tallied(grid: Grid, p: seq<nat>, rs: seq<nat>, done: seq<Side>)
    requires Fits(grid) && SidesIn(grid, done) && |rs| == Width(grid) * |grid| && |p| == |rs|
  {
    forall keys :: SumWhere(p, rs, keys) == |SideBag(grid, rs, done, keys)|
  }

  /** Every selection of classes of `rs` holds exactly the unit fences of
      its boundary visits in `done`. */
  ghost predicate Gathered(grid: Grid, lists: seq<Option<seq<Edge>>>, rs: seq<nat>, done: seq<Side>)
    requires Fits(grid) && SidesIn(grid, done) && |rs| == Width(grid) * |grid| && |lists| == |rs|
  {
    forall keys :: BagWhere(lists, rs, keys) == SideBag(grid, rs, done, keys)
  }

  /** Part 1: every region holds as much perimeter as it has boundary
      visits so far. */
  ghost predicate Counted(grid: Grid, uf: UnionFind, done: seq<Side>)
    requires Fits(grid) && SidesIn(grid, done) && uf.Valid() && uf.Size() == Width(grid) * |grid|
  {
    Tallied(grid, uf.perimeter, Roots(uf.forest), done)
  }

  /** Part 2: every region holds exactly the unit fences of its boundary
      visits so far. */
  ghost predicate Filed(grid: Grid, uf: UnionFind, done: seq<Side>)
    requires Fits(grid) && SidesIn(grid, done) && uf.Valid() && uf.Size() == Width(grid) * |grid|
  {
    Gathered(grid, uf.edges, Roots(uf.forest), done)
  }

  /** The selection that, before a merge of `a` and `b` into `m`, picks the
      cells that `keys` picks after it. */
  function Unmerged(keys: set<nat>, a: nat, b: nat, m: nat): set<nat> {
    if m in keys then keys + {a, b} else keys - {a, b}
  }

  lemma {:induction false} UnmergedPicks(f: Forest, g: Forest, a: nat, b: nat, m: nat, keys: set<nat>)
    requires f.Valid() && g.Valid() && MergedRoots(f, g, a, b, m) && (m == a || m == b)
    ensures forall c :: 0 <= c < f.Size() ==> (Roots(g)[c] in keys <==> Roots(f)[c] in Unmerged(keys, a, b, m))
  {
  }

  // --- one visit -------------------------------------------------------------

  /** Appending a visit adds its fence to the selection that picks its cell,
      when the visit is a boundary one. */
  lemma {:induction false} SideBagSnoc(grid: Grid, rs: seq<nat>, done: seq<Side>, s: Side, keys: set<nat>)
    requires Fits(grid) && SidesIn(grid, done) && SideIn(grid, s) && |rs| == Width(grid) * |grid|
    ensures SidesIn(grid, done + [s])
    ensures SideBag(grid, rs, done + [s], keys) == SideBag(grid, rs, done, keys)
      + (if IsBoundary(grid, s) && rs[Cell(grid, s)] in keys then multiset{Fence(s)} else multiset{})
  {
    var after := done + [s];
    assert after[..|done|] == done;
  }

  /** One selection through a join: relabel to the classes before it, where
      the union keeps both totals. */
  lemma {:induction false} JoinKeys(grid: Grid, uf: UnionFind, done: seq<Side>, s: Side, keys: set<nat>)
    requires Fits(grid) && SidesIn(grid, done) && SideIn(grid, s) && !IsBoundary(grid, s)
    requires uf.Valid() && uf.width == Width(grid) && uf.height == |grid|
    ensures var r := Union(uf, Cell(grid, s), Neighbour(grid, s));
      var keys' := Unmerged(keys, RootOf(uf, Cell(grid, s)), RootOf(uf, Neighbour(grid, s)), RootOf(r, Cell(grid, s)));
      && SumWhere(r.perimeter, Roots(r.forest), keys) == SumWhere(uf.perimeter, Roots(uf.forest), keys')
      && BagWhere(r.edges, Roots(r.forest), keys) == BagWhere(uf.edges, Roots(uf.forest), keys')
      && SidesIn(grid, done + [s])
      && SideBag(grid, Roots(r.forest), done + [s], keys) == SideBag(grid, Roots(uf.forest), done, keys')
  {
    var c, nb := Cell(grid, s), Neighbour(grid, s);
    var r := Union(uf, c, nb);
    var a, b, m := RootOf(uf, c), RootOf(uf, nb), RootOf(r, c);
    var rs, rs2 := Roots(uf.forest), Roots(r.forest);
    var keys' := Unmerged(keys, a, b, m);
    UnmergedPicks(uf.forest, r.forest, a, b, m, keys);
    SumWhereRelabel(r.perimeter, rs2, keys, rs, keys');
    BagWhereRelabel(r.edges, rs2, keys, rs, keys');
    assert rs[a] == a && rs[b] == b;
    UnionWithin(uf, c, nb, rs, keys');
    SideBagSnoc(grid, rs2, done, s, keys);
    SideBagRelabel(grid, rs2, done, keys, rs, keys');
  }

  /** A join visit merges the two regions and records nothing. */
  lemma {:induction false} JoinCounts(grid: Grid, uf: UnionFind, done: seq<Side>, s: Side)
    requires Fits(grid) && SidesIn(grid, done) && SideIn(grid, s) && !IsBoundary(grid, s)
    requires uf.Valid() && uf.width == Width(grid) && uf.height == |grid|
    requires Counted(grid, uf, done)
    ensures SidesIn(grid, done + [s]) && Counted(grid, Union(uf, Cell(grid, s), Neighbour(grid, s)), done + [s])
  {
    var r := Union(uf, Cell(grid, s), Neighbour(grid, s));
    SideBagSnoc(grid, Roots(r.forest), done, s, {});
    forall keys ensures SumWhere(r.perimeter, Roots(r.forest), keys) == |SideBag(grid, Roots(r.forest), done + [s], keys)| {
      JoinKeys(grid, uf, done, s, keys);
    }
  }

  lemma {:induction false} JoinFiles(grid: Grid, uf: UnionFind, done: seq<Side>, s: Side)
    requires Fits(grid) && SidesIn(grid, done) && SideIn(grid, s) && !IsBoundary(grid, s)
    requires uf.Valid() && uf.width == Width(grid) && uf.height == |grid|
    requires Filed(grid, uf, done)
    ensures SidesIn(grid, done + [s]) && Filed(grid, Union(uf, Cell(grid, s), Neighbour(grid, s)), done + [s])
  {
    var r := Union(uf, Cell(grid, s), Neighbour(grid, s));
    SideBagSnoc(grid, Roots(r.forest), done, s, {});
    forall keys ensures BagWhere(r.edges, Roots(r.forest), keys) == SideBag(grid, Roots(r.forest), done + [s], keys) {
      JoinKeys(grid, uf, done, s, keys);
    }
  }

  /** One selection through a part-1 boundary visit. */
  lemma {:induction false} CountKey(grid: Grid, rs: seq<nat>, p: seq<nat>, done: seq<Side>, s: Side, root: nat, keys: set<nat>)
    requires Fits(grid) && SidesIn(grid, done) && SideIn(grid, s) && IsBoundary(grid, s)
    requires |rs| == Width(grid) * |grid| && |p| == |rs| && root < |p| && rs[root] == rs[Cell(grid, s)]
    requires SumWhere(p, rs, keys) == |SideBag(grid, rs, done, keys)|
    ensures SidesIn(grid, done + [s])
    ensures SumWhere(p[root := p[root] + 1], rs, keys) == |SideBag(grid, rs, done + [s], keys)|
  {
    SumWhereUpdate(p, rs, keys, root, p[root] + 1);
    SideBagSnoc(grid, rs, done, s, keys);
  }

  lemma {:induction false} CountAll(grid: Grid, rs: seq<nat>, p: seq<nat>, done: seq<Side>, s: Side, root: nat)
    requires Fits(grid) && SidesIn(grid, done) && SideIn(grid, s) && IsBoundary(grid, s)
    requires |rs| == Width(grid) * |grid| && |p| == |rs| && root < |p| && rs[root] == rs[Cell(grid, s)]
    requires Tallied(grid, p, rs, done)
    ensures SidesIn(grid, done + [s]) && Tallied(grid, p[root := p[root] + 1], rs, done + [s])
  {
    SideBagSnoc(grid, rs, done, s, {});
    forall keys ensures SumWhere(p[root := p[root] + 1], rs, keys) == |SideBag(grid, rs, done + [s], keys)| {
      CountKey(grid, rs, p, done, s, root, keys);
    }
  }

  /** A boundary visit of part 1 adds one to its region's perimeter. */
  lemma {:induction false} CountVisit(grid: Grid, uf: UnionFind, done: seq<Side>, s: Side)
    requires Fits(grid) && SidesIn(grid, done) && SideIn(grid, s) && IsBoundary(grid, s)
    requires uf.Valid() && uf.width == Width(grid) && uf.height == |grid|
    requires Counted(grid, uf, done)
    ensures SidesIn(grid, done + [s]) && Counted(grid, IncreasePerimeter(uf, s.x, s.y), done + [s])
  {
    var r := IncreasePerimeter(uf, s.x, s.y);
    var root := RootOf(uf, Cell(grid, s));
    CountMoved(grid, uf, r, done, s, root);
  }

  lemma {:induction false} CountMoved(grid: Grid, uf: UnionFind, r: UnionFind, done: seq<Side>, s: Side, root: nat)
    requires Fits(grid) && SidesIn(grid, done) && SideIn(grid, s) && IsBoundary(grid, s)
    requires uf.Valid() && uf.Size() == Width(grid) * |grid| && r.Valid() && SameRoots(uf.forest, r.forest)
    requires root == RootOf(uf, Cell(grid, s)) && r.perimeter == uf.perimeter[root := uf.perimeter[root] + 1]
    requires Counted(grid, uf, done)
    ensures SidesIn(grid, done + [s]) && Counted(grid, r, done + [s])
  {
    SameRootsRoots(uf.forest, r.forest);
    var rs := Roots(uf.forest);
    assert rs[Cell(grid, s)] == root;
    assert rs[root] == root by { assert uf.forest.parents[root] == root; }
    CountAll(grid, rs, uf.perimeter, done, s, root);
  }


  /** A boundary visit of part 2 files its unit fence with the cell. */
  lemma {:induction false} FenceVisit(grid: Grid, uf: UnionFind, done: seq<Side>, s: Side)
    requires Fits(grid) && SidesIn(grid, done) && SideIn(grid, s) && IsBoundary(grid, s)
    requires uf.Valid() && uf.width == Width(grid) && uf.height == |grid|
    requires Filed(grid, uf, done)
    ensures SidesIn(grid, done + [s]) && Filed(grid, AddEdge(uf, s.x, s.y, Dx(s), Dy(s)), done + [s])
  {
    var r := AddEdge(uf, s.x, s.y, Dx(s), Dy(s));
    var rs := Roots(uf.forest);
    var c := Cell(grid, s);
    SideBagSnoc(grid, rs, done, s, {});
    forall keys ensures BagWhere(r.edges, rs, keys) == SideBag(grid, rs, done + [s], keys) {
      AppendBagWhere(uf.edges, rs, keys, c, Fence(s));
      SideBagSnoc(grid, rs, done, s, keys);
    }
  }

  lemma {:induction false} HomogeneousMerge(grid: Grid, f: Forest, g: Forest, a: nat, b: nat, m: nat)
    requires Fits(grid) && f.Valid() && g.Valid() && f.Size() == Width(grid) * |grid|
    requires MergedRoots(f, g, a, b, m) && (m == a || m == b) && a < f.Size() && b < f.Size()
    requires Plants(grid, Width(grid))[a] == Plants(grid, Width(grid))[b]
    requires Homogeneous(grid, f)
    ensures Homogeneous(grid, g)
  {
  }

  lemma {:induction false} JoinedMerge(grid: Grid, f: Forest, g: Forest, a: nat, b: nat, m: nat, done: seq<Side>)
    requires Fits(grid) && SidesIn(grid, done) && f.Valid() && g.Valid() && f.Size() == Width(grid) * |grid|
    requires MergedRoots(f, g, a, b, m) && Joined(grid, f, done)
    ensures Joined(grid, g, done)
  {
    forall i | 0 <= i < |done| && !IsBoundary(grid, done[i])
      ensures Root(g, Cell(grid, done[i])) == Root(g, Neighbour(grid, done[i]))
    {
      assert Root(f, Cell(grid, done[i])) == Root(f, Neighbour(grid, done[i]));
    }
  }

  lemma {:induction false} JoinedSame(grid: Grid, f: Forest, g: Forest, done: seq<Side>)
    requires Fits(grid) && SidesIn(grid, done) && f.Valid() && g.Valid() && f.Size() == Width(grid) * |grid|
    requires SameRoots(f, g) && Joined(grid, f, done)
    ensures Joined(grid, g, done) && (Homogeneous(grid, f) ==> Homogeneous(grid, g))
  {
    forall i | 0 <= i < |done| && !IsBoundary(grid, done[i])
      ensures Root(g, Cell(grid, done[i])) == Root(g, Neighbour(grid, done[i]))
    {
      assert Root(f, Cell(grid, done[i])) == Root(f, Neighbour(grid, done[i]));
    }
  }

  lemma {:induction false} JoinedSnoc(grid: Grid, g: Forest, done: seq<Side>, s: Side)
    requires Fits(grid) && SidesIn(grid, done) && SideIn(grid, s) && g.Valid() && g.Size() == Width(grid) * |grid|
    requires Joined(grid, g, done)
    requires !IsBoundary(grid, s) ==> Root(g, Cell(grid, s)) == Root(g, Neighbour(grid, s))
    ensures SidesIn(grid, done + [s]) && Joined(grid, g, done + [s])
  {
    var after := done + [s];
    forall i | 0 <= i < |after| && !IsBoundary(grid, after[i])
      ensures Root(g, Cell(grid, after[i])) == Root(g, Neighbour(grid, after[i]))
    {
      if i < |done| {
        assert after[i] == done[i];
      }
    }
  }

  /** Any visit keeps regions single-plant and joins what it must. */
  lemma {:induction false} ClassesVisit(grid: Grid, uf: UnionFind, done: seq<Side>, s: Side, mode: Mode)
    requires Fits(grid) && SidesIn(grid, done) && SideIn(grid, s)
    requires uf.Valid() && uf.width == Width(grid) && uf.height == |grid|
    requires Homogeneous(grid, uf.forest) && Joined(grid, uf.forest, done)
    ensures SidesIn(grid, done + [s])
    ensures var r := Step(grid, uf, s, mode);
      Homogeneous(grid, r.forest) && Joined(grid, r.forest, done + [s])
  {
    if IsBoundary(grid, s) {
      var r := if mode == Perimeters then IncreasePerimeter(uf, s.x, s.y) else AddEdge(uf, s.x, s.y, Dx(s), Dy(s));
      assert SameRoots(uf.forest, r.forest);
      JoinedSame(grid, uf.forest, r.forest, done);
      JoinedSnoc(grid, r.forest, done, s);
    } else {
      ClassesJoin(grid, uf, done, s);
    }
  }

  lemma {:induction false} ClassesJoin(grid: Grid, uf: UnionFind, done: seq<Side>, s: Side)
    requires Fits(grid) && SidesIn(grid, done) && SideIn(grid, s) && !IsBoundary(grid, s)
    requires uf.Valid() && uf.width == Width(grid) && uf.height == |grid|
    requires Homogeneous(grid, uf.forest) && Joined(grid, uf.forest, done)
    ensures SidesIn(grid, done + [s])
    ensures var r := Union(uf, Cell(grid, s), Neighbour(grid, s));
      Homogeneous(grid, r.forest) && Joined(grid, r.forest, done + [s])
  {
    var c, nb := Cell(grid, s), Neighbour(grid, s);
    var r := Union(uf, c, nb);
    ClassesMerged(grid, uf.forest, r.forest, done, s, Root(uf.forest, c), Root(uf.forest, nb), Root(r.forest, c));
  }

  lemma {:induction false} ClassesMerged(grid: Grid, f: Forest, g: Forest, done: seq<Side>, s: Side, a: nat, b: nat, m: nat)
    requires Fits(grid) && SidesIn(grid, done) && SideIn(grid, s) && !IsBoundary(grid, s)
    requires f.Valid() && g.Valid() && f.Size() == Width(grid) * |grid|
    requires a == Root(f, Cell(grid, s)) && b == Root(f, Neighbour(grid, s)) && (m == a || m == b)
    requires MergedRoots(f, g, a, b, m) && Root(g, Cell(grid, s)) == Root(g, Neighbour(grid, s))
    requires Homogeneous(grid, f) && Joined(grid, f, done)
    ensures SidesIn(grid, done + [s])
    ensures Homogeneous(grid, g) && Joined(grid, g, done + [s])
  {
    PlantsOfSide(grid, s);
    HomogeneousMerge(grid, f, g, a, b, m);
    JoinedMerge(grid, f, g, a, b, m, done);
    JoinedSnoc(grid, g, done, s);
  }


  lemma {:induction false} CountsStep(grid: Grid, uf: UnionFind, done: seq<Side>, s: Side)
    requires Fits(grid) && SidesIn(grid, done) && SideIn(grid, s)
    requires uf.Valid() && uf.width == Width(grid) && uf.height == |grid|
    requires Counted(grid, uf, done) && EdgeBag(uf.edges) == multiset{}
    ensures SidesIn(grid, done + [s])
    ensures var r := Step(grid, uf, s, Perimeters);
      Counted(grid, r, done + [s]) && EdgeBag(r.edges) == multiset{}
  {
    if IsBoundary(grid, s) {
      CountVisit(grid, uf, done, s);
    } else {
      JoinCounts(grid, uf, done, s);
    }
  }

  lemma {:induction false} FilesStep(grid: Grid, uf: UnionFind, done: seq<Side>, s: Side)
    requires Fits(grid) && SidesIn(grid, done) && SideIn(grid, s)
    requires uf.Valid() && uf.width == Width(grid) && uf.height == |grid|
    requires Filed(grid, uf, done)
    ensures SidesIn(grid, done + [s]) && Filed(grid, Step(grid, uf, s, Fences), done + [s])
  {
    if IsBoundary(grid, s) {
      FenceVisit(grid, uf, done, s);
    } else {
      JoinFiles(grid, uf, done, s);
    }
  }

  // --- the whole scan --------------------------------------------------------

  /** After any prefix of the scan, regions are single-plant and every
      visited equal pair shares a region. */
  lemma {:induction false} ScanClasses(grid: Grid, sides: seq<Side>, mode: Mode)
    requires Fits(grid) && SidesIn(grid, sides)
    ensures var uf := Scan(grid, sides, mode);
      Homogeneous(grid, uf.forest) && Joined(grid, uf.forest, sides)
    decreases |sides|
  {
    if |sides| > 0 {
      var n := |sides| - 1;
      var prefix, s := sides[..n], sides[n];
      assert SidesIn(grid, prefix);
      assert prefix + [s] == sides;
      ScanClasses(grid, prefix, mode);
      var prev := Scan(grid, prefix, mode);
      assert Scan(grid, sides, mode) == Step(grid, prev, s, mode);
      ClassesVisit(grid, prev, prefix, s, mode);
    }
  }

  /** Part 1's scan leaves on every region a perimeter equal to its number
      of boundary visits, and files no edges. */
  lemma {:induction false} ScanCounts(grid: Grid, sides: seq<Side>)
    requires Fits(grid) && SidesIn(grid, sides)
    ensures var uf := Scan(grid, sides, Perimeters);
      Counted(grid, uf, sides) && EdgeBag(uf.edges) == multiset{}
    decreases |sides|
  {
    if |sides| == 0 {
      CountsStart(grid);
    } else {
      var n := |sides| - 1;
      var prefix, s := sides[..n], sides[n];
      assert SidesIn(grid, prefix);
      assert prefix + [s] == sides;
      ScanCounts(grid, prefix);
      var prev := Scan(grid, prefix, Perimeters);
      assert Scan(grid, sides, Perimeters) == Step(grid, prev, s, Perimeters);
      CountsStep(grid, prev, prefix, s);
    }
  }

  /** Part 2's scan leaves every region holding exactly the unit fences of
      its boundary visits. */
  lemma {:induction false} ScanFiles(grid: Grid, sides: seq<Side>)
    requires Fits(grid) && SidesIn(grid, sides)
    ensures Filed(grid, Scan(grid, sides, Fences), sides)
    decreases |sides|
  {
    if |sides| == 0 {
      FilesStart(grid);
    } else {
      var n := |sides| - 1;
      var prefix, s := sides[..n], sides[n];
      assert SidesIn(grid, prefix);
      assert prefix + [s] == sides;
      ScanFiles(grid, prefix);
      var prev := Scan(grid, prefix, Fences);
      assert Scan(grid, sides, Fences) == Step(grid, prev, s, Fences);
      FilesStep(grid, prev, prefix, s);
    }
  }

  lemma {:induction false} CountsStart(grid: Grid)
    requires Fits(grid)
    ensures var uf := New(Width(grid), |grid|);
      Counted(grid, uf, []) && EdgeBag(uf.edges) == multiset{}
  {
    var uf := New(Width(grid), |grid|);
    forall keys ensures SumWhere(uf.perimeter, Roots(uf.forest), keys) == 0 {
      SumWhereZero(uf.perimeter, Roots(uf.forest), keys);
    }
    EdgeBagNone(uf.edges);
  }

  lemma {:induction false} FilesStart(grid: Grid)
    requires Fits(grid)
    ensures Filed(grid, New(Width(grid), |grid|), [])
  {
    var uf := New(Width(grid), |grid|);
    forall keys ensures BagWhere(uf.edges, Roots(uf.forest), keys) == multiset{} {
      BagWhereNone(uf.edges, Roots(uf.forest), keys);
    }
  }

  lemma {:induction false} SumWhereZero(p: seq<nat>, rs: seq<nat>, keys: set<nat>)
    requires |rs| == |p| && forall c :: 0 <= c < |p| ==> p[c] == 0
    ensures SumWhere(p, rs, keys) == 0
    decreases |p|
  {
    if |p| > 0 {
      SumWhereZero(p[..|p| - 1], rs[..|p| - 1], keys);
    }
  }

  lemma {:induction false} BagWhereNone(lists: seq<Option<seq<Edge>>>, rs: seq<nat>, keys: set<nat>)
    requires |rs| == |lists| && forall c :: 0 <= c < |lists| ==> lists[c] == None
    ensures BagWhere(lists, rs, keys) == multiset{}
    decreases |lists|
  {
    if |lists| > 0 {
      BagWhereNone(lists[..|lists| - 1], rs[..|lists| - 1], keys);
    }
  }

  lemma {:induction false} EdgeBagNone(lists: seq<Option<seq<Edge>>>)
    requires forall c :: 0 <= c < |lists| ==> lists[c] == None
    ensures EdgeBag(lists) == multiset{}
    decreases |lists|
  {
    if |lists| > 0 {
      EdgeBagNone(lists[..|lists| - 1]);
    }
  }

  // --- both parts build the same regions --------------------------------------

  /** Unions on two structures with the same roots and ranks make the same
      choice, so the results again agree on roots and ranks. */
  lemma {:induction false} UnionAgrees(a: UnionFind, b: UnionFind, idx1: nat, idx2: nat)
    requires a.Valid() && b.Valid() && idx1 < a.Size() && idx2 < a.Size()
    requires SameRoots(a.forest, b.forest) && a.forest.rank == b.forest.rank
    ensures SameRoots(Union(a, idx1, idx2).forest, Union(b, idx1, idx2).forest)
    ensures Union(a, idx1, idx2).forest.rank == Union(b, idx1, idx2).forest.rank
  {
    var (a1, r1) := Locate(a, idx1);
    var (a2, r2) := Locate(a1, idx2);
    var (b1, s1) := Locate(b, idx1);
    var (b2, s2) := Locate(b1, idx2);
    SameRootsTrans(a.forest, a1.forest, a2.forest);
    SameRootsTrans(b.forest, b1.forest, b2.forest);
    assert r2 == RootOf(a, idx2) && s2 == RootOf(b, idx2);
    if r1 != r2 {
      JoinAgrees(a2, b2, r1, r2);
    }
  }

  lemma {:induction false} JoinAgrees(a: UnionFind, b: UnionFind, root1: nat, root2: nat)
    requires a.Valid() && b.Valid() && a.Size() == b.Size() && root1 < a.Size() && root2 < a.Size() && root1 != root2
    requires a.forest.parents[root1] == root1 && a.forest.parents[root2] == root2
    requires b.forest.parents[root1] == root1 && b.forest.parents[root2] == root2
    requires SameRoots(a.forest, b.forest) && a.forest.rank == b.forest.rank
    ensures SameRoots(Join(a, root1, root2).forest, Join(b, root1, root2).forest)
    ensures Join(a, root1, root2).forest.rank == Join(b, root1, root2).forest.rank
  {
    var (g, _, parent) := Link(a.forest, root1, root2);
    var (h, _, parent') := Link(b.forest, root1, root2);
    LinkRoots(a.forest, root1, root2);
    LinkRoots(b.forest, root1, root2);
    assert parent == parent';
    assert SameRoots(g, h);
  }

  /** The two modes differ only in what a boundary visit records. */
  lemma {:induction false} StepAgrees(grid: Grid, a: UnionFind, b: UnionFind, s: Side)
    requires Fits(grid) && SideIn(grid, s)
    requires a.Valid() && a.width == Width(grid) && a.height == |grid|
    requires b.Valid() && b.width == Width(grid) && b.height == |grid|
    requires SameRoots(a.forest, b.forest) && a.forest.rank == b.forest.rank
    ensures var (a', b') := (Step(grid, a, s, Perimeters), Step(grid, b, s, Fences));
      SameRoots(a'.forest, b'.forest) && a'.forest.rank == b'.forest.rank
  {
    if IsBoundary(grid, s) {
      var a' := IncreasePerimeter(a, s.x, s.y);
      SameRootsTrans(a'.forest, a.forest, b.forest);
    } else {
      UnionAgrees(a, b, Cell(grid, s), Neighbour(grid, s));
    }
  }

  /** Part 1's and part 2's scans end with the same regions. */
  lemma {:induction false} ScanAgrees(grid: Grid, sides: seq<Side>)
    requires Fits(grid) && SidesIn(grid, sides)
    ensures var (a, b) := (Scan(grid, sides, Perimeters), Scan(grid, sides, Fences));
      SameRoots(a.forest, b.forest) && a.forest.rank == b.forest.rank
    decreases |sides|
  {
    if |sides| > 0 {
      var n := |sides| - 1;
      var prefix, s := sides[..n], sides[n];
      assert SidesIn(grid, prefix);
      ScanAgrees(grid, prefix);
      StepAgrees(grid, Scan(grid, prefix, Perimeters), Scan(grid, prefix, Fences), s);
    }
  }
}
