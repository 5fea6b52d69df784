/** Day 12 end to end: parse the garden, scan it, flatten the union-find with
    `check`, and price every region, by perimeter (part 1) or by number of
    straight sides (part 2). */
module GardenPrice {
  import opened Wrappers
  import TextLines
  import opened GardenForest
  import opened GardenFences
  import opened GardenScan
  import opened GardenSides

  // ---------------------------------------------------------------------------
  // Parsing
  // ---------------------------------------------------------------------------

  /** `many1(one_of("A..Z"))`: a non-empty row of upper-case plants. */
  predicate PlantRow(row: string) {
    |row| >= 1 && forall i :: 0 <= i < |row| ==> 'A' <= row[i] <= 'Z'
  }

  predicate PlantRows(rows: seq<string>) {
    forall y :: 0 <= y < |rows| ==> PlantRow(rows[y])
  }

  /** `parse_input` followed by the check that nothing is left over: the
      whole text must be plant rows separated by single newlines. A trailing
      newline, an empty line or any other character makes the source panic,
      modelled as `None`. */
  function ParseGarden(input: string): (r: Option<Grid>)
    ensures r.Some? ==> |r.value| >= 1 && PlantRows(r.value) && TextLines.Join(r.value, '\n') == input
  {
    var rows := TextLines.Split(input, '\n');
    TextLines.JoinSplit(input, '\n');
    if PlantRows(rows) then Some(rows) else None
  }

  /** Every garden written out row by row parses back to itself. */
  lemma {:induction false} ParseGardenJoin(grid: Grid)
    requires |grid| >= 1 && PlantRows(grid)
    ensures ParseGarden(TextLines.Join(grid, '\n')) == Some(grid)
  {
    forall y | 0 <= y < |grid| ensures '\n' !in grid[y] {
      assert PlantRow(grid[y]);
    }
    TextLines.SplitJoin(grid, '\n');
  }

  /** Every visit of a garden that fits the scan. */
  function Visits(grid: Grid): (v: seq<Side>)
    requires Fits(grid)
    ensures SidesIn(grid, v)
    ensures forall s :: s in v <==> SideIn(grid, s)
  {
    var v := AllSides(Width(grid), |grid|);
    assert forall i :: 0 <= i < |v| ==> v[i] in v;
    v
  }

  // ---------------------------------------------------------------------------
  // Areas
  // ---------------------------------------------------------------------------

  /** `uf.parents.iter().filter(|&&p| p == k).count()`: the cells whose
      parent is `k`. */
  function Area(parents: seq<nat>, k: nat): (a: nat)
    ensures a <= |parents|
  {
    if |parents| == 0 then 0
    else
      var n := |parents| - 1;
      Area(parents[..n], k) + (if parents[n] == k then 1 else 0)
  }

  /** A region's price: its area times a count of its fences or sides. */
  function Price(area: nat, count: nat): nat {
    if area == 0 then 0 else Price(area - 1, count) + count
  }

  /** `Price` is the product, written as repeated addition so that sums of
      prices stay linear. */
  lemma {:induction false} PriceIsProduct(area: nat, count: nat)
    ensures Price(area, count) == area * count
    decreases area
  {
    if area > 0 {
      PriceIsProduct(area - 1, count);
    }
  }

  /** The areas of the labels below `n`, added up. */
  function AreaTotal(parents: seq<nat>, n: nat): nat {
    if n == 0 then 0 else AreaTotal(parents, n - 1) + Area(parents, n - 1)
  }

  lemma {:induction false} AreaTotalSnoc(parents: seq<nat>, v: nat, n: nat)
    ensures AreaTotal(parents + [v], n) == AreaTotal(parents, n) + (if v < n then 1 else 0)
    decreases n
  {
    if n > 0 {
      AreaTotalSnoc(parents, v, n - 1);
      assert (parents + [v])[..|parents|] == parents;
    }
  }

  /** When every label is below `n`, the areas of the labels below `n`
      partition the cells. */
  lemma {:induction false} AreasCover(parents: seq<nat>, n: nat)
    requires forall j :: 0 <= j < |parents| ==> parents[j] < n
    ensures AreaTotal(parents, n) == |parents|
    decreases |parents|
  {
    if |parents| == 0 {
      AreaTotalEmpty(n);
    } else {
      var m := |parents| - 1;
      AreasCover(parents[..m], n);
      AreaTotalSnoc(parents[..m], parents[m], n);
      assert parents[..m] + [parents[m]] == parents;
    }
  }

  lemma {:induction false} AreaTotalEmpty(n: nat)
    ensures AreaTotal([], n) == 0
    decreases n
  {
    if n > 0 {
      AreaTotalEmpty(n - 1);
    }
  }

  /** A label no cell carries has no area. */
  lemma {:induction false} AreaAbsent(parents: seq<nat>, k: nat)
    requires forall j :: 0 <= j < |parents| ==> parents[j] != k
    ensures Area(parents, k) == 0
    decreases |parents|
  {
    if |parents| > 0 {
      AreaAbsent(parents[..|parents| - 1], k);
    }
  }

  // ---------------------------------------------------------------------------
  // Regions
  // ---------------------------------------------------------------------------

  /** The region label of every cell: the root the scan's union-find gives
      it. Every label is a cell that labels itself. */
  function Regions(grid: Grid): (rs: seq<nat>)
    requires Fits(grid)
    ensures |rs| == Width(grid) * |grid|
    ensures forall c :: 0 <= c < |rs| ==> rs[c] < |rs| && rs[rs[c]] == rs[c]
  {
    var f := Scan(grid, Visits(grid), Perimeters).forest;
    forall c | 0 <= c < f.Size() ensures Root(f, Root(f, c)) == Root(f, c) {
      RootIsRoot(f, Root(f, c));
    }
    Roots(f)
  }

  /** A region holds one kind of plant. */
  lemma {:induction false} RegionsHomogeneous(grid: Grid)
    requires Fits(grid)
    ensures var rs := Regions(grid);
      forall c :: 0 <= c < |rs| ==> Plants(grid, Width(grid))[rs[c]] == Plants(grid, Width(grid))[c]
  {
    ScanClasses(grid, Visits(grid), Perimeters);
  }

  /** Two cells the scan saw as equal neighbours share a region. */
  lemma {:induction false} RegionsJoined(grid: Grid)
    requires Fits(grid)
    ensures forall s :: SideIn(grid, s) && !IsBoundary(grid, s) ==>
      Regions(grid)[Cell(grid, s)] == Regions(grid)[Neighbour(grid, s)]
  {
    var v := Visits(grid);
    var f := Scan(grid, v, Perimeters).forest;
    ScanClasses(grid, v, Perimeters);
    JoinedEverywhere(grid, f, v);
  }

  lemma {:induction false} JoinedEverywhere(grid: Grid, f: Forest, v: seq<Side>)
    requires Fits(grid) && SidesIn(grid, v) && f.Valid() && f.Size() == Width(grid) * |grid|
    requires forall s :: SideIn(grid, s) ==> s in v
    requires Joined(grid, f, v)
    ensures forall s :: SideIn(grid, s) && !IsBoundary(grid, s) ==>
      Roots(f)[Cell(grid, s)] == Roots(f)[Neighbour(grid, s)]
  {
    forall s | SideIn(grid, s) && !IsBoundary(grid, s)
      ensures Root(f, Cell(grid, s)) == Root(f, Neighbour(grid, s))
    {
      var i :| 0 <= i < |v| && v[i] == s;
    }
  }

  /** The regions' areas add up to the whole garden. */
  lemma {:induction false} RegionsCover(grid: Grid)
    requires Fits(grid)
    ensures AreaTotal(Regions(grid), Width(grid) * |grid|) == Width(grid) * |grid|
  {
    var rs := Regions(grid);
    var n := Width(grid) * |grid|;
    assert |rs| == n;
    assert forall j :: 0 <= j < |rs| ==> rs[j] < n;
    AreasCover(rs, n);
  }

  /** The unit fences of region `k`: one per boundary visit of its cells. */
  function RegionFences(grid: Grid, k: nat): multiset<Edge>
    requires Fits(grid)
  {
    SideBag(grid, Regions(grid), Visits(grid), {k})
  }

  /** The reference price of part 1 for labelling `rs` after the visits
      `done`: every label's area times the number of its fences, over the
      labels below `n`. */
  function FencePrice(grid: Grid, rs: seq<nat>, done: seq<Side>, n: nat): nat
    requires Fits(grid) && SidesIn(grid, done) && |rs| == Width(grid) * |grid|
  {
    if n == 0 then 0
    else FencePrice(grid, rs, done, n - 1) + Price(Area(rs, n - 1), |SideBag(grid, rs, done, {n - 1})|)
  }

  /** The garden's price by area and perimeter. */
  function RegionPrice(grid: Grid): nat
    requires Fits(grid)
  {
    FencePrice(grid, Regions(grid), Visits(grid), Width(grid) * |grid|)
  }

  // ---------------------------------------------------------------------------
  // Part 1
  // ---------------------------------------------------------------------------

  /** The sum in `process_part1`: for every index with a positive perimeter,
      its area times its perimeter. */
  function PerimeterCost(p: seq<nat>, parents: seq<nat>, n: nat): nat
    requires |p| == |parents| && n <= |p|
  {
    if n == 0 then 0
    else PerimeterCost(p, parents, n - 1) + (if p[n - 1] > 0 then Price(Area(parents, n - 1), p[n - 1]) else 0)
  }

  /** Part 1 on a parsed garden: scan, `check`, sum. */
  function PerimeterPrice(grid: Grid): Option<nat>
    requires Fits(grid)
  {
    match Check(Scan(grid, Visits(grid), Perimeters))
    case None => None
    case Some(c) => Some(PerimeterCost(c.perimeter, c.forest.parents, c.Size()))
  }

  /** `process_part1`: `None` where the source panics (a malformed garden or
      a row shorter than the first). */
  function Part1(input: string): (r: Option<nat>)
  {
    match ParseGarden(input)
    case None => None
    case Some(grid) => if Fits(grid) then PerimeterPrice(grid) else None
  }

  /** Part 1 answers exactly for well-formed gardens, and its answer is the
      sum over regions of area times number of fences. */
  lemma {:induction false} Part1Price(input: string)
    ensures Part1(input).Some? <==> ParseGarden(input).Some? && Fits(ParseGarden(input).value)
    ensures Part1(input).Some? ==>
      var grid := ParseGarden(input).value;
      Part1(input).value == RegionPrice(grid)
  {
    if ParseGarden(input).Some? && Fits(ParseGarden(input).value) {
      PerimeterPriceIsRegionPrice(ParseGarden(input).value);
    }
  }

  lemma {:induction false} PerimeterPriceIsRegionPrice(grid: Grid)
    requires Fits(grid)
    ensures PerimeterPrice(grid) == Some(RegionPrice(grid))
  {
    PerimetersChecked(grid);
    var c := Check(Scan(grid, Visits(grid), Perimeters)).value;
    CostIsPrice(grid, c.perimeter, c.forest.parents, Visits(grid), c.Size());
  }

  /** Part 1's `check` never panics, and leaves every cell pointing at its
      region with the region's perimeter counted on it. */
  lemma {:induction false} PerimetersChecked(grid: Grid)
    requires Fits(grid)
    ensures var uf := Scan(grid, Visits(grid), Perimeters);
      && Check(uf).Some?
      && Check(uf).value.forest.parents == Regions(grid)
      && Priced(grid, Check(uf).value.perimeter, Regions(grid), Visits(grid))
  {
    var uf := Scan(grid, Visits(grid), Perimeters);
    ScanCounts(grid, Visits(grid));
    NoEdgesNone(uf.edges);
    CheckFails(uf);
    var c := Check(uf).value;
    CheckFlattens(uf);
    assert c.forest.parents == Regions(grid);
    assert c.perimeter == uf.perimeter;
  }

  /** Part 1's scan files no edges, so every entry is absent. */
  lemma {:induction false} NoEdgesNone(lists: seq<Option<seq<Edge>>>)
    requires ListsWellFormed(lists) && EdgeBag(lists) == multiset{}
    ensures forall k :: 0 <= k < |lists| ==> lists[k] == None
    decreases |lists|
  {
    if |lists| > 0 {
      var n := |lists| - 1;
      assert EdgeBag(lists) == EdgeBag(lists[..n]) + Contents(lists[n]);
      NoEdgesNone(lists[..n]);
    }
  }

  /** What part 1 knows at the end of the scan: `rs` labels every cell by
      a representative of its class, only representatives hold perimeter,
      and every selection of classes holds as much perimeter as it has
      boundary visits in `done`. */
  ghost predicate Priced(grid: Grid, p: seq<nat>, rs: seq<nat>, done: seq<Side>) {
    && Fits(grid) && SidesIn(grid, done) && |rs| == Width(grid) * |grid| && |p| == |rs|
    && (forall c :: 0 <= c < |rs| ==> rs[c] < |rs| && rs[rs[c]] == rs[c])
    && (forall c :: 0 <= c < |rs| && rs[c] != c ==> p[c] == 0)
    && Tallied(grid, p, rs, done)
  }

  /** Term by term, the perimeter sum is the reference price. */
  lemma {:induction false} CostIsPrice(grid: Grid, p: seq<nat>, rs: seq<nat>, done: seq<Side>, n: nat)
    requires Priced(grid, p, rs, done) && n <= |p|
    ensures PerimeterCost(p, rs, n) == FencePrice(grid, rs, done, n)
    decreases n
  {
    if n > 0 {
      CostIsPrice(grid, p, rs, done, n - 1);
      CostStep(grid, p, rs, done, n);
    }
  }

  lemma {:induction false} CostStep(grid: Grid, p: seq<nat>, rs: seq<nat>, done: seq<Side>, n: nat)
    requires Priced(grid, p, rs, done) && 0 < n <= |p|
    requires PerimeterCost(p, rs, n - 1) == FencePrice(grid, rs, done, n - 1)
    ensures PerimeterCost(p, rs, n) == FencePrice(grid, rs, done, n)
  {
    PriceTerm(grid, p, rs, done, n - 1);
  }

  lemma {:induction false} PriceTerm(grid: Grid, p: seq<nat>, rs: seq<nat>, done: seq<Side>, k: nat)
    requires Priced(grid, p, rs, done) && k < |p|
    ensures (if p[k] > 0 then Price(Area(rs, k), p[k]) else 0) == Price(Area(rs, k), |SideBag(grid, rs, done, {k})|)
  {
    assert SumWhere(p, rs, {k}) == |SideBag(grid, rs, done, {k})|;
    if rs[k] == k {
      SumWhereSingle(p, rs, k);
      PriceIsProduct(Area(rs, k), 0);
    } else {
      AreaAbsent(rs, k);
    }
  }

  // ---------------------------------------------------------------------------
  // Part 2
  // ---------------------------------------------------------------------------

  /** The sum in `process_part2`: for every edge list after `union_edges`,
      the area of its key times the number of merged sides. */
  function SidesCost(lists: seq<Option<seq<Edge>>>, parents: seq<nat>, n: nat): nat
    requires ListsWellFormed(lists) && |parents| == |lists| && n <= |lists|
  {
    if n == 0 then 0
    else
      SidesCost(lists, parents, n - 1)
        + (if lists[n - 1].Some? then Price(Area(parents, n - 1), |UnionEdges(lists[n - 1].value)|) else 0)
  }

  /** The union-find part 2 prices, when `check` does not panic. */
  function Fenced(grid: Grid): (r: Option<UnionFind>)
    requires Fits(grid)
    ensures r.Some? ==> r.value.Valid() && r.value.Size() == Width(grid) * |grid|
  {
    Check(Scan(grid, Visits(grid), Fences))
  }

  /** `process_part2`: `None` where the source panics (a malformed garden, a
      short row, or `check` finding a non-root's edges with no list at its
      root). The `assert!(!v.is_empty())` always holds: merged lists are
      never empty. */
  function Part2(input: string): (r: Option<nat>)
    ensures r.Some? <==>
      ParseGarden(input).Some? && Fits(ParseGarden(input).value) && Fenced(ParseGarden(input).value).Some?
  {
    match ParseGarden(input)
    case None => None
    case Some(grid) =>
      if !Fits(grid) then None
      else
        match Fenced(grid)
        case None => None
        case Some(c) => Some(SidesCost(c.edges, c.forest.parents, c.Size()))
  }

  /** Edge lists, one per label, such that the list of label `k` holds
      exactly the unit fences of region `k` in some order, and is absent
      only when there are none. */
  ghost predicate FenceLists(grid: Grid, ls: seq<Option<seq<Edge>>>)
    requires Fits(grid)
  {
    && |ls| == Width(grid) * |grid| && ListsWellFormed(ls)
    && forall k :: 0 <= k < |ls| ==> Contents(ls[k]) == RegionFences(grid, k)
  }

  /** The reference price of part 2: over the region labels `k` below `n`,
      the area of region `k` times the number of sides `union_edges` makes
      of its fence list `ls[k]`; a region without fences costs nothing. */
  function SidePrice(rs: seq<nat>, ls: seq<Option<seq<Edge>>>, n: nat): nat
    requires |ls| == |rs| && n <= |ls|
  {
    if n == 0 then 0
    else
      var k := n - 1;
      SidePrice(rs, ls, k)
        + (if rs[k] == k && ls[k].Some? && WellFormedList(ls[k].value)
           then Price(Area(rs, k), |UnionEdges(ls[k].value)|) else 0)
  }

  /** Part 2's answer is the sum over regions of the region's area times the
      number of sides its fences merge into. */
  lemma {:induction false} Part2Price(input: string)
    ensures Part2(input).Some? ==>
      var grid := ParseGarden(input).value;
      exists ls :: FenceLists(grid, ls) && Part2(input).value == SidePrice(Regions(grid), ls, |ls|)
  {
    if Part2(input).Some? {
      var grid := ParseGarden(input).value;
      var c := Fenced(grid).value;
      assert Part2(input).value == SidesCost(c.edges, c.forest.parents, c.Size());
      FencedPrice(grid);
    }
  }

  /** The same on a parsed garden whose `check` does not panic. */
  lemma {:induction false} FencedPrice(grid: Grid)
    requires Fits(grid) && Fenced(grid).Some?
    ensures var c := Fenced(grid).value;
      exists ls :: FenceLists(grid, ls) && SidesCost(c.edges, c.forest.parents, c.Size()) == SidePrice(Regions(grid), ls, |ls|)
  {
    var c := Fenced(grid).value;
    FencedRegions(grid);
    assert FenceLists(grid, c.edges);
    SidesCostIsSidePrice(c.edges, Regions(grid), c.Size());
  }

  /** Term by term, part 2's sum over edge lists is the reference price when
      only region labels hold lists. */
  lemma {:induction false} SidesCostIsSidePrice(lists: seq<Option<seq<Edge>>>, rs: seq<nat>, n: nat)
    requires ListsWellFormed(lists) && |rs| == |lists| && n <= |lists|
    requires forall k :: 0 <= k < |lists| && lists[k].Some? ==> rs[k] == k
    ensures SidesCost(lists, rs, n) == SidePrice(rs, lists, n)
    decreases n
  {
    if n > 0 {
      SidesCostIsSidePrice(lists, rs, n - 1);
      SideTerm(lists, rs, n);
    }
  }

  lemma {:induction false} SideTerm(lists: seq<Option<seq<Edge>>>, rs: seq<nat>, n: nat)
    requires ListsWellFormed(lists) && |rs| == |lists| && 0 < n <= |lists|
    requires lists[n - 1].Some? ==> rs[n - 1] == n - 1
    requires SidesCost(lists, rs, n - 1) == SidePrice(rs, lists, n - 1)
    ensures SidesCost(lists, rs, n) == SidePrice(rs, lists, n)
  {
    if lists[n - 1].Some? {
      assert WellFormedList(lists[n - 1].value);
    }
  }

  /** After part 2's `check`, the parents are the regions, only region
      labels hold lists, and the list of region `k` holds exactly its unit
      fences. */
  lemma {:induction false} FencedRegions(grid: Grid)
    requires Fits(grid) && Fenced(grid).Some?
    ensures var c := Fenced(grid).value;
      && c.forest.parents == Regions(grid)
      && (forall k :: 0 <= k < c.Size() && c.edges[k].Some? ==> Regions(grid)[k] == k)
      && (forall k :: 0 <= k < c.Size() ==> Contents(c.edges[k]) == RegionFences(grid, k))
  {
    var v := Visits(grid);
    var uf := Scan(grid, v, Fences);
    var c := Fenced(grid).value;
    var rs := Regions(grid);
    ScanAgrees(grid, v);
    SameRootsRoots(Scan(grid, v, Perimeters).forest, uf.forest);
    CheckFlattens(uf);
    assert c.forest.parents == rs;
    CheckGathersEdges(uf);
    ScanFiles(grid, v);
    forall k | 0 <= k < c.Size() ensures Contents(c.edges[k]) == RegionFences(grid, k) {
      assert BagWhere(uf.edges, rs, {k}) == RegionFences(grid, k);
      assert BagWhere(c.edges, rs, {k}) == BagWhere(uf.edges, rs, {k});
      if rs[k] == k {
        BagWhereSingle(c.edges, rs, k);
      } else {
        BagWhereAbsent(c.edges, rs, k);
      }
    }
  }

  lemma {:induction false} BagWhereAbsent(lists: seq<Option<seq<Edge>>>, rs: seq<nat>, k: nat)
    requires |rs| == |lists| && forall c :: 0 <= c < |rs| ==> rs[c] != k
    requires k < |lists| ==> lists[k] == None
    ensures BagWhere(lists, rs, {k}) == Contents(if k < |lists| then lists[k] else None)
    decreases |lists|
  {
    if |lists| > 0 {
      var n := |lists| - 1;
      BagWhereAbsent(lists[..n], rs[..n], k);
    }
  }

  /** A list holding just the unit fences of one region merges into
      straight sides that no other side prolongs and that together are as
      long as the region's fence. */
  lemma {:induction false} RegionSides(grid: Grid, k: nat, v: seq<Edge>)
    requires Fits(grid) && WellFormedList(v) && multiset(v) == RegionFences(grid, k)
    ensures var r := UnionEdges(v);
      && |r| >= 1 && (forall e :: e in r ==> Straight(e))
      && TotalLen(r) == |RegionFences(grid, k)|
      && forall a, b :: a in r && b in r ==> !(b.start == a.end && b.typ == a.typ)
  {
    UnionEdgesMaximal(v);
    FencesUnit(grid, Regions(grid), Visits(grid), {k});
    forall e | e in v ensures Len(e) == 1 {
      assert e in multiset(v);
    }
    TotalLenUnits(v);
    assert |multiset(v)| == |v|;
  }

  /** Every unit fence has length one. */
  lemma {:induction false} FencesUnit(grid: Grid, rs: seq<nat>, sides: seq<Side>, keys: set<nat>)
    requires Fits(grid) && SidesIn(grid, sides) && |rs| == Width(grid) * |grid|
    ensures forall e :: e in SideBag(grid, rs, sides, keys) ==> Len(e) == 1
    decreases |sides|
  {
    if |sides| > 0 {
      var n := |sides| - 1;
      assert SidesIn(grid, sides[..n]);
      FencesUnit(grid, rs, sides[..n], keys);
    }
  }

  lemma {:induction false} TotalLenUnits(v: seq<Edge>)
    requires forall e :: e in v ==> Len(e) == 1
    ensures TotalLen(v) == |v|
    decreases |v|
  {
    if |v| > 0 {
      var n := |v| - 1;
      assert v[n] in v;
      assert forall e :: e in v[..n] ==> e in v;
      TotalLenUnits(v[..n]);
    }
  }
}
