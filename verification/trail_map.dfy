/** Day 10: a topographic map of heights 0 to 9. A hiking trail climbs from
    a 0 to a 9 one height at a time, moving up, down, left or right. A
    trailhead's score is the number of 9s its trails reach (part 1); its
    rating is the number of trails (part 2). Both parts run the same depth
    first search with an explicit stack from every 0. */
module TrailMap {
  import opened Wrappers
  import opened TextLines

  /** Rows of heights; `g[y][x]` is column `x` of row `y`. */
  type Map = seq<seq<nat>>

  /** An entry of the search stack: a cell and the height it was pushed at. */
  datatype Pos = Pos(x: nat, y: nat, h: nat)

  /** Every row as wide as the first, which is the width the search uses. */
  predicate Rectangular(g: Map) {
    forall y :: 0 <= y < |g| ==> |g[y]| == |g[0]|
  }

  predicate On(g: Map, p: Pos) {
    p.y < |g| && p.x < |g[p.y]|
  }

  /** The entry's height is the map's height at its cell. */
  predicate Level(g: Map, p: Pos)
    requires On(g, p)
  {
    g[p.y][p.x] == p.h
  }

  /** Cells one step apart, horizontally or vertically. */
  predicate Adjacent(x: nat, y: nat, x': nat, y': nat) {
    (y == y' && (x' == x + 1 || x == x' + 1)) || (x == x' && (y' == y + 1 || y == y' + 1))
  }

  // ---------------------------------------------------------------------------
  // One step of the search
  // ---------------------------------------------------------------------------

  /** An entry the search may push after popping `p`: a neighbouring cell
      on the map, exactly one higher. */
  predicate Climb(g: Map, p: Pos, q: Pos) {
    On(g, q) && q.h == p.h + 1 && Level(g, q) && Adjacent(p.x, p.y, q.x, q.y)
  }

  /** The entries pushed after popping `p`, in the source's order: left,
      right, up, down, each when it is on the map and exactly one higher. */
  function Next(g: Map, p: Pos): (r: seq<Pos>)
    requires Rectangular(g) && On(g, p)
    ensures |r| <= 4
    ensures forall i :: 0 <= i < |r| ==> Climb(g, p, r[i])
  {
    var w := |g[0]|;
    var up := p.h + 1;
    (if p.x > 0 && g[p.y][p.x - 1] == up then [Pos(p.x - 1, p.y, up)] else [])
    + (if p.x < w - 1 && g[p.y][p.x + 1] == up then [Pos(p.x + 1, p.y, up)] else [])
    + (if p.y > 0 && g[p.y - 1][p.x] == up then [Pos(p.x, p.y - 1, up)] else [])
    + (if p.y < |g| - 1 && g[p.y + 1][p.x] == up then [Pos(p.x, p.y + 1, up)] else [])
  }

  /** Every possible climb is pushed. */
  lemma {:induction false} NextComplete(g: Map, p: Pos, q: Pos)
    requires Rectangular(g) && On(g, p) && Climb(g, p, q)
    ensures q in Next(g, p)
  {
  }

  /** Stack entries on the map, with heights from `low` to 9. */
  predicate Entries(g: Map, ps: seq<Pos>, low: nat) {
    low <= 9 && forall i :: 0 <= i < |ps| ==> On(g, ps[i]) && low <= ps[i].h <= 9
  }

  // ---------------------------------------------------------------------------
  // What the search finds
  // ---------------------------------------------------------------------------

  /** The search tree below `p`: an entry of height 9 counts once, and an
      entry that is expanded counts `inner` times on top of its subtrees.
      With `inner == 0` this is the number of trails from `p`; with
      `inner == 1` it is the number of entries the search pops. */
  function Tree(g: Map, p: Pos, inner: nat): nat
    requires Rectangular(g) && On(g, p) && p.h <= 9
    decreases 9 - p.h, 0
  {
    if p.h == 9 then 1 else inner + TreeFrom(g, Next(g, p), p.h + 1, inner)
  }

  /** `Tree` added up over a stack. `low` only bounds the recursion. */
  function TreeFrom(g: Map, ps: seq<Pos>, low: nat, inner: nat): nat
    requires Rectangular(g) && Entries(g, ps, low)
    decreases 9 - low, 1, |ps|
  {
    if |ps| == 0 then 0
    else TreeFrom(g, ps[..|ps| - 1], low, inner) + Tree(g, ps[|ps| - 1], inner)
  }

  /** The rating of a start: the number of trails that climb from it to 9. */
  function Trails(g: Map, p: Pos): nat
    requires Rectangular(g) && On(g, p) && p.h <= 9
  {
    Tree(g, p, 0)
  }

  /** The cells of height 9 the search reaches from `p`. */
  function Peaks(g: Map, p: Pos): set<(nat, nat)>
    requires Rectangular(g) && On(g, p) && p.h <= 9
    decreases 9 - p.h, 0
  {
    if p.h == 9 then {(p.x, p.y)} else PeaksFrom(g, Next(g, p), p.h + 1)
  }

  function PeaksFrom(g: Map, ps: seq<Pos>, low: nat): set<(nat, nat)>
    requires Rectangular(g) && Entries(g, ps, low)
    decreases 9 - low, 1, |ps|
  {
    if |ps| == 0 then {}
    else PeaksFrom(g, ps[..|ps| - 1], low) + Peaks(g, ps[|ps| - 1])
  }

  /** The bound `low` does not change the sum. */
  lemma {:induction false} TreeLow(g: Map, ps: seq<Pos>, low: nat, inner: nat)
    requires Rectangular(g) && Entries(g, ps, low)
    ensures Entries(g, ps, 0) && TreeFrom(g, ps, low, inner) == TreeFrom(g, ps, 0, inner)
    decreases |ps|
  {
    if |ps| > 0 {
      TreeLow(g, ps[..|ps| - 1], low, inner);
    }
  }

  lemma {:induction false} PeaksLow(g: Map, ps: seq<Pos>, low: nat)
    requires Rectangular(g) && Entries(g, ps, low)
    ensures Entries(g, ps, 0) && PeaksFrom(g, ps, low) == PeaksFrom(g, ps, 0)
    decreases |ps|
  {
    if |ps| > 0 {
      PeaksLow(g, ps[..|ps| - 1], low);
    }
  }

  /** A stack's sum is the sum of its two parts. */
  lemma {:induction false} TreeAppend(g: Map, a: seq<Pos>, b: seq<Pos>, inner: nat)
    requires Rectangular(g) && Entries(g, a, 0) && Entries(g, b, 0)
    ensures Entries(g, a + b, 0)
    ensures TreeFrom(g, a + b, 0, inner) == TreeFrom(g, a, 0, inner) + TreeFrom(g, b, 0, inner)
    decreases |b|
  {
    if |b| == 0 {
      assert a + b == a;
    } else {
      var n := |b| - 1;
      assert (a + b)[..|a + b| - 1] == a + b[..n];
      assert (a + b)[|a + b| - 1] == b[n];
      TreeAppend(g, a, b[..n], inner);
    }
  }

  lemma {:induction false} PeaksAppend(g: Map, a: seq<Pos>, b: seq<Pos>)
    requires Rectangular(g) && Entries(g, a, 0) && Entries(g, b, 0)
    ensures Entries(g, a + b, 0)
    ensures PeaksFrom(g, a + b, 0) == PeaksFrom(g, a, 0) + PeaksFrom(g, b, 0)
    decreases |b|
  {
    if |b| == 0 {
      assert a + b == a;
    } else {
      var n := |b| - 1;
      assert (a + b)[..|a + b| - 1] == a + b[..n];
      assert (a + b)[|a + b| - 1] == b[n];
      PeaksAppend(g, a, b[..n]);
    }
  }

  /** Popping `p` and pushing its next entries keeps the rest of the search
      tree: the trails and the 9s below the stack are unchanged, and (with
      `inner == 1`) one entry fewer is left to pop. */
  lemma {:induction false} Expand(g: Map, rest: seq<Pos>, p: Pos, inner: nat)
    requires Rectangular(g) && Entries(g, rest, 0) && On(g, p) && p.h < 9
    ensures Entries(g, rest + Next(g, p), 0)
    ensures TreeFrom(g, rest + Next(g, p), 0, inner) + inner == TreeFrom(g, rest + [p], 0, inner)
    ensures PeaksFrom(g, rest + Next(g, p), 0) == PeaksFrom(g, rest + [p], 0)
  {
    var next := Next(g, p);
    TreeLow(g, next, p.h + 1, inner);
    PeaksLow(g, next, p.h + 1);
    TreeAppend(g, rest, next, inner);
    PeaksAppend(g, rest, next);
    assert (rest + [p])[..|rest|] == rest;
  }

  /** Pushed entries carry their cell's height, so the whole stack does. */
  lemma {:induction false} ExpandLevel(g: Map, rest: seq<Pos>, p: Pos)
    requires Rectangular(g) && Entries(g, rest, 0) && On(g, p)
    requires forall i :: 0 <= i < |rest| ==> Level(g, rest[i])
    ensures forall i :: 0 <= i < |rest + Next(g, p)| ==> On(g, (rest + Next(g, p))[i]) && Level(g, (rest + Next(g, p))[i])
  {
  }

  // ---------------------------------------------------------------------------
  // The searches of process_part1 and process_part2
  // ---------------------------------------------------------------------------

  /** The four pushes that follow popping an entry below 9. */
  method PushClimbs(g: Map, p: Pos, stack: seq<Pos>) returns (s: seq<Pos>)
    requires Rectangular(g) && On(g, p)
    ensures s == stack + Next(g, p)
  {
    var width := |g[0]|;
    var height := |g|;
    var up := p.h + 1;
    s := stack;
    if p.x > 0 && g[p.y][p.x - 1] == up {
      s := s + [Pos(p.x - 1, p.y, up)];
    }
    if p.x < width - 1 && g[p.y][p.x + 1] == up {
      s := s + [Pos(p.x + 1, p.y, up)];
    }
    if p.y > 0 && g[p.y - 1][p.x] == up {
      s := s + [Pos(p.x, p.y - 1, up)];
    }
    if p.y < height - 1 && g[p.y + 1][p.x] == up {
      s := s + [Pos(p.x, p.y + 1, up)];
    }
  }

  /** The search of `process_part2` from one 0: the number of trails. */
  method Rating(g: Map, x: nat, y: nat) returns (rating: nat)
    requires Rectangular(g) && y < |g| && x < |g[y]| && g[y][x] == 0
    ensures rating == Trails(g, Pos(x, y, 0))
  {
    var start := Pos(x, y, 0);
    var stack := [start];
    rating := 0;
    assert [start][..0] == [];
    while |stack| > 0
      invariant Entries(g, stack, 0)
      invariant forall i :: 0 <= i < |stack| ==> Level(g, stack[i])
      invariant rating + TreeFrom(g, stack, 0, 0) == Trails(g, start)
      decreases TreeFrom(g, stack, 0, 1)
    {
      var p := stack[|stack| - 1];
      var rest := stack[..|stack| - 1];
      assert stack == rest + [p];
      stack := rest;
      if p.h == 9 {
        rating := rating + 1;
        continue;
      }
      stack := PushClimbs(g, p, stack);
      Expand(g, rest, p, 0);
      Expand(g, rest, p, 1);
      ExpandLevel(g, rest, p);
    }
  }

  /** The search of `process_part1` from one 0: the set `trailhead` ends up
      holding exactly the 9s reached, and the score is its size. */
  method Score(g: Map, x: nat, y: nat) returns (score: nat)
    requires Rectangular(g) && y < |g| && x < |g[y]| && g[y][x] == 0
    ensures score == |Peaks(g, Pos(x, y, 0))|
  {
    var start := Pos(x, y, 0);
    var stack := [start];
    var trailhead: set<(nat, nat)> := {};
    assert [start][..0] == [];
    while |stack| > 0
      invariant Entries(g, stack, 0)
      invariant forall i :: 0 <= i < |stack| ==> Level(g, stack[i])
      invariant trailhead + PeaksFrom(g, stack, 0) == Peaks(g, start)
      decreases TreeFrom(g, stack, 0, 1)
    {
      var p := stack[|stack| - 1];
      var rest := stack[..|stack| - 1];
      assert stack == rest + [p];
      stack := rest;
      if p.h == 9 {
        trailhead := trailhead + {(p.x, p.y)};
        continue;
      }
      stack := PushClimbs(g, p, stack);
      Expand(g, rest, p, 1);
      ExpandLevel(g, rest, p);
    }
    score := |trailhead|;
  }

  /** The 9s the search reaches are at most as many as the trails to them. */
  lemma {:induction false} ScoreAtMostRating(g: Map, p: Pos)
    requires Rectangular(g) && On(g, p) && p.h <= 9
    ensures |Peaks(g, p)| <= Trails(g, p)
    decreases 9 - p.h, 0
  {
    if p.h < 9 {
      PeaksFromBound(g, Next(g, p), p.h + 1);
    }
  }

  lemma {:induction false} PeaksFromBound(g: Map, ps: seq<Pos>, low: nat)
    requires Rectangular(g) && Entries(g, ps, low)
    ensures |PeaksFrom(g, ps, low)| <= TreeFrom(g, ps, low, 0)
    decreases 9 - low, 1, |ps|
  {
    if |ps| > 0 {
      var n := |ps| - 1;
      PeaksFromBound(g, ps[..n], low);
      ScoreAtMostRating(g, ps[n]);
    }
  }

  // ---------------------------------------------------------------------------
  // Hiking trails
  // ---------------------------------------------------------------------------

  /** Cell `i` of `t` is on the map at height `base + i`. */
  predicate HeightAt(g: Map, t: seq<(nat, nat)>, i: nat, base: nat)
    requires i < |t|
  {
    t[i].1 < |g| && t[i].0 < |g[t[i].1]| && g[t[i].1][t[i].0] == base + i
  }

  /** Cell `i` of `t` neighbours cell `i - 1`. */
  predicate StepAt(t: seq<(nat, nat)>, i: nat)
    requires 0 < i < |t|
  {
    Adjacent(t[i - 1].0, t[i - 1].1, t[i].0, t[i].1)
  }

  /** A hiking trail from `p`: a walk over neighbouring cells that starts at
      `p`'s cell and climbs one height at a time from `p.h` to 9. */
  ghost predicate Hike(g: Map, p: Pos, t: seq<(nat, nat)>) {
    p.h <= 9 && |t| + p.h == 10 && t[0] == (p.x, p.y)
    && (forall i :: 0 <= i < |t| ==> HeightAt(g, t, i, p.h))
    && (forall i :: 0 < i < |t| ==> StepAt(t, i))
  }

  /** A 9 reached from a stack comes from one of its entries. */
  lemma {:induction false} PeaksFromMember(g: Map, ps: seq<Pos>, low: nat, q: (nat, nat)) returns (i: nat)
    requires Rectangular(g) && Entries(g, ps, low) && q in PeaksFrom(g, ps, low)
    ensures i < |ps| && q in Peaks(g, ps[i])
    decreases |ps|
  {
    var n := |ps| - 1;
    if q in Peaks(g, ps[n]) {
      i := n;
    } else {
      i := PeaksFromMember(g, ps[..n], low, q);
    }
  }

  /** Every entry's 9s are reached from the stack. */
  lemma {:induction false} PeaksFromHas(g: Map, ps: seq<Pos>, low: nat, i: nat)
    requires Rectangular(g) && Entries(g, ps, low) && i < |ps|
    ensures Peaks(g, ps[i]) <= PeaksFrom(g, ps, low)
    decreases |ps|
  {
    var n := |ps| - 1;
    if i < n {
      PeaksFromHas(g, ps[..n], low, i);
    }
  }

  /** Prepending a step to a trail from the next cell. */
  lemma {:induction false} HikeCons(g: Map, p: Pos, n: Pos, rest: seq<(nat, nat)>)
    requires On(g, p) && Level(g, p) && Climb(g, p, n) && Hike(g, n, rest)
    ensures Hike(g, p, [(p.x, p.y)] + rest)
  {
    var t := [(p.x, p.y)] + rest;
    forall k | 0 <= k < |t|
      ensures HeightAt(g, t, k, p.h)
    {
      if k > 0 {
        assert t[k] == rest[k - 1] && HeightAt(g, rest, k - 1, n.h);
      }
    }
    forall k | 0 < k < |t|
      ensures StepAt(t, k)
    {
      if k > 1 {
        assert StepAt(rest, k - 1);
      }
    }
  }

  /** Dropping the first cell of a trail from below 9. */
  lemma {:induction false} HikeTail(g: Map, p: Pos, t: seq<(nat, nat)>) returns (n: Pos)
    requires Rectangular(g) && On(g, p) && p.h < 9 && Hike(g, p, t)
    ensures n in Next(g, p) && Hike(g, n, t[1..]) && (n.x, n.y) == t[1]
  {
    assert HeightAt(g, t, 1, p.h) && StepAt(t, 1);
    n := Pos(t[1].0, t[1].1, p.h + 1);
    NextComplete(g, p, n);
    var rest := t[1..];
    forall k | 0 <= k < |rest|
      ensures HeightAt(g, rest, k, n.h)
    {
      assert HeightAt(g, t, k + 1, p.h);
    }
    forall k | 0 < k < |rest|
      ensures StepAt(rest, k)
    {
      assert StepAt(t, k + 1);
    }
  }

  lemma {:induction false} PeakHike(g: Map, p: Pos, q: (nat, nat)) returns (t: seq<(nat, nat)>)
    requires Rectangular(g) && On(g, p) && p.h <= 9 && Level(g, p) && q in Peaks(g, p)
    ensures Hike(g, p, t) && t[|t| - 1] == q
    decreases 9 - p.h
  {
    if p.h == 9 {
      t := [(p.x, p.y)];
      assert HeightAt(g, t, 0, p.h);
    } else {
      var next := Next(g, p);
      var i := PeaksFromMember(g, next, p.h + 1, q);
      var rest := PeakHike(g, next[i], q);
      HikeCons(g, p, next[i], rest);
      t := [(p.x, p.y)] + rest;
    }
  }

  lemma {:induction false} HikePeak(g: Map, p: Pos, t: seq<(nat, nat)>)
    requires Rectangular(g) && On(g, p) && p.h <= 9 && Hike(g, p, t)
    ensures t[|t| - 1] in Peaks(g, p)
    decreases 9 - p.h
  {
    if p.h < 9 {
      var n := HikeTail(g, p, t);
      var next := Next(g, p);
      var i :| 0 <= i < |next| && next[i] == n;
      HikePeak(g, n, t[1..]);
      PeaksFromHas(g, next, p.h + 1, i);
    }
  }

  /** The 9s the search reaches from a start are exactly the ends of the
      hiking trails from it, so they are cells of height 9. */
  lemma {:induction false} PeaksAreTrailEnds(g: Map, p: Pos)
    requires Rectangular(g) && On(g, p) && p.h <= 9 && Level(g, p)
    ensures forall q :: q in Peaks(g, p) <==> exists t :: Hike(g, p, t) && t[|t| - 1] == q
    ensures forall q :: q in Peaks(g, p) ==> q.1 < |g| && q.0 < |g[q.1]| && g[q.1][q.0] == 9
  {
    forall q
      ensures q in Peaks(g, p) <==> exists t :: Hike(g, p, t) && t[|t| - 1] == q
      ensures q in Peaks(g, p) ==> q.1 < |g| && q.0 < |g[q.1]| && g[q.1][q.0] == 9
    {
      if q in Peaks(g, p) {
        var t := PeakHike(g, p, q);
        assert HeightAt(g, t, |t| - 1, p.h);
      }
      if exists t :: Hike(g, p, t) && t[|t| - 1] == q {
        var t :| Hike(g, p, t) && t[|t| - 1] == q;
        HikePeak(g, p, t);
      }
    }
  }

  /** The cell of a stack entry. */
  function CellOf(p: Pos): (nat, nat) {
    (p.x, p.y)
  }

  /** No two entries share a cell. */
  predicate DistinctCells(ps: seq<Pos>) {
    forall i, j :: 0 <= i < j < |ps| ==> CellOf(ps[i]) != CellOf(ps[j])
  }

  /** The four neighbours the search tries are four different cells. */
  lemma {:induction false} NextDistinct(g: Map, p: Pos)
    requires Rectangular(g) && On(g, p)
    ensures DistinctCells(Next(g, p))
  {
  }

  /** `c` put in front of every walk of `ts`. */
  function Prepend(c: (nat, nat), ts: set<seq<(nat, nat)>>): set<seq<(nat, nat)>> {
    set t | t in ts :: [c] + t
  }

  lemma {:induction false} PrependSize(c: (nat, nat), ts: set<seq<(nat, nat)>>)
    ensures |Prepend(c, ts)| == |ts|
    decreases |ts|
  {
    if ts != {} {
      var x :| x in ts;
      PrependSize(c, ts - {x});
      assert Prepend(c, ts) == Prepend(c, ts - {x}) + {[c] + x};
      assert forall u :: u in ts - {x} ==> ([c] + u)[1..] == u;
    }
  }

  /** The trails from `p`, built the way the search walks them. */
  ghost function Hikes(g: Map, p: Pos): set<seq<(nat, nat)>>
    requires Rectangular(g) && On(g, p) && p.h <= 9
    decreases 9 - p.h, 0
  {
    if p.h == 9 then {[(p.x, p.y)]} else Prepend((p.x, p.y), HikesFrom(g, Next(g, p), p.h + 1))
  }

  ghost function HikesFrom(g: Map, ps: seq<Pos>, low: nat): set<seq<(nat, nat)>>
    requires Rectangular(g) && Entries(g, ps, low)
    decreases 9 - low, 1, |ps|
  {
    if |ps| == 0 then {}
    else HikesFrom(g, ps[..|ps| - 1], low) + Hikes(g, ps[|ps| - 1])
  }

  lemma {:induction false} HikesStart(g: Map, p: Pos, t: seq<(nat, nat)>)
    requires Rectangular(g) && On(g, p) && p.h <= 9 && t in Hikes(g, p)
    ensures |t| >= 1 && t[0] == CellOf(p)
  {
  }

  lemma {:induction false} HikesFromMember(g: Map, ps: seq<Pos>, low: nat, t: seq<(nat, nat)>) returns (i: nat)
    requires Rectangular(g) && Entries(g, ps, low) && t in HikesFrom(g, ps, low)
    ensures i < |ps| && t in Hikes(g, ps[i])
    decreases |ps|
  {
    var n := |ps| - 1;
    if t in Hikes(g, ps[n]) {
      i := n;
    } else {
      i := HikesFromMember(g, ps[..n], low, t);
    }
  }

  lemma {:induction false} HikesFromHas(g: Map, ps: seq<Pos>, low: nat, i: nat)
    requires Rectangular(g) && Entries(g, ps, low) && i < |ps|
    ensures Hikes(g, ps[i]) <= HikesFrom(g, ps, low)
    decreases |ps|
  {
    var n := |ps| - 1;
    if i < n {
      HikesFromHas(g, ps[..n], low, i);
    }
  }

  lemma {:induction false} HikesSound(g: Map, p: Pos, t: seq<(nat, nat)>)
    requires Rectangular(g) && On(g, p) && p.h <= 9 && Level(g, p) && t in Hikes(g, p)
    ensures Hike(g, p, t)
    decreases 9 - p.h
  {
    if p.h == 9 {
      assert HeightAt(g, t, 0, p.h);
    } else {
      var next := Next(g, p);
      var u :| u in HikesFrom(g, next, p.h + 1) && t == [(p.x, p.y)] + u;
      var i := HikesFromMember(g, next, p.h + 1, u);
      HikesSound(g, next[i], u);
      HikeCons(g, p, next[i], u);
    }
  }

  lemma {:induction false} HikesComplete(g: Map, p: Pos, t: seq<(nat, nat)>)
    requires Rectangular(g) && On(g, p) && p.h <= 9 && Hike(g, p, t)
    ensures t in Hikes(g, p)
    decreases 9 - p.h
  {
    if p.h == 9 {
      assert t == [t[0]];
    } else {
      var next := Next(g, p);
      var n := HikeTail(g, p, t);
      var i :| 0 <= i < |next| && next[i] == n;
      HikesComplete(g, n, t[1..]);
      HikesFromHas(g, next, p.h + 1, i);
      assert t == [(p.x, p.y)] + t[1..];
    }
  }

  lemma {:induction false} HikesCount(g: Map, p: Pos)
    requires Rectangular(g) && On(g, p) && p.h <= 9
    ensures |Hikes(g, p)| == Trails(g, p)
    decreases 9 - p.h, 0
  {
    if p.h < 9 {
      var next := Next(g, p);
      NextDistinct(g, p);
      HikesFromCount(g, next, p.h + 1);
      PrependSize((p.x, p.y), HikesFrom(g, next, p.h + 1));
    }
  }

  lemma {:induction false} HikesFromCount(g: Map, ps: seq<Pos>, low: nat)
    requires Rectangular(g) && Entries(g, ps, low) && DistinctCells(ps)
    ensures |HikesFrom(g, ps, low)| == TreeFrom(g, ps, low, 0)
    decreases 9 - low, 1, |ps|
  {
    if |ps| > 0 {
      var n := |ps| - 1;
      var a := HikesFrom(g, ps[..n], low);
      var b := Hikes(g, ps[n]);
      HikesFromCount(g, ps[..n], low);
      HikesCount(g, ps[n]);
      forall t | t in a
        ensures t !in b
      {
        var i := HikesFromMember(g, ps[..n], low, t);
        HikesStart(g, ps[i], t);
        if t in b {
          HikesStart(g, ps[n], t);
        }
      }
      assert a * b == {};
    }
  }

  /** The rating of a start is the number of distinct hiking trails from it. */
  lemma {:induction false} RatingCountsTrails(g: Map, p: Pos)
    requires Rectangular(g) && On(g, p) && p.h <= 9 && Level(g, p)
    ensures forall t :: t in Hikes(g, p) <==> Hike(g, p, t)
    ensures Trails(g, p) == |Hikes(g, p)|
  {
    forall t
      ensures t in Hikes(g, p) <==> Hike(g, p, t)
    {
      if t in Hikes(g, p) {
        HikesSound(g, p, t);
      }
      if Hike(g, p, t) {
        HikesComplete(g, p, t);
      }
    }
    HikesCount(g, p);
  }

  // ---------------------------------------------------------------------------
  // The sums over all trailheads
  // ---------------------------------------------------------------------------

  /** Reading order: row by row, left to right within a row. */
  predicate Before(p: Pos, q: Pos) {
    p.y < q.y || (p.y == q.y && p.x < q.x)
  }

  /** The 0s among the first `n` cells of row `y`, left to right. */
  function ZerosIn(g: Map, y: nat, n: nat): (r: seq<Pos>)
    requires y < |g| && n <= |g[y]|
    ensures forall i :: 0 <= i < |r| ==> On(g, r[i]) && r[i].y == y && r[i].x < n && r[i].h == 0 && Level(g, r[i])
    ensures forall x: nat :: x < n && g[y][x] == 0 ==> Pos(x, y, 0) in r
    ensures forall i, j :: 0 <= i < j < |r| ==> r[i].x < r[j].x
  {
    if n == 0 then [] else ZerosIn(g, y, n - 1) + (if g[y][n - 1] == 0 then [Pos(n - 1, y, 0)] else [])
  }

  /** The 0s of the first `rows` rows, in reading order: the starts the
      source's `flat_map` and `filter` hand to the search. */
  function Starts(g: Map, rows: nat): (r: seq<Pos>)
    requires rows <= |g|
    ensures forall i :: 0 <= i < |r| ==> On(g, r[i]) && r[i].y < rows && r[i].h == 0 && Level(g, r[i])
    ensures forall x: nat, y: nat :: y < rows && x < |g[y]| && g[y][x] == 0 ==> Pos(x, y, 0) in r
    ensures forall i, j :: 0 <= i < j < |r| ==> Before(r[i], r[j])
  {
    if rows == 0 then [] else Starts(g, rows - 1) + ZerosIn(g, rows - 1, |g[rows - 1]|)
  }

  /** Every 0 of the map, once each, in reading order. */
  function Trailheads(g: Map): seq<Pos> {
    Starts(g, |g|)
  }

  /** Starts of searches: cells of height 0, pushed at height 0. */
  predicate Starting(g: Map, starts: seq<Pos>) {
    forall i :: 0 <= i < |starts| ==> On(g, starts[i]) && starts[i].h == 0 && Level(g, starts[i])
  }

  /** The scores of `starts` added up. */
  ghost function ScoreSum(g: Map, starts: seq<Pos>): nat
    requires Rectangular(g) && Entries(g, starts, 0)
  {
    if |starts| == 0 then 0
    else ScoreSum(g, starts[..|starts| - 1]) + |Peaks(g, starts[|starts| - 1])|
  }

  /** The ratings of `starts` added up. */
  ghost function RatingSum(g: Map, starts: seq<Pos>): nat
    requires Rectangular(g) && Entries(g, starts, 0)
  {
    if |starts| == 0 then 0
    else RatingSum(g, starts[..|starts| - 1]) + Trails(g, starts[|starts| - 1])
  }

  /** The search of `process_part1` from each start, summed. */
  method Scores(g: Map, starts: seq<Pos>) returns (sum: nat)
    requires Rectangular(g) && Starting(g, starts)
    ensures sum == ScoreSum(g, starts)
  {
    sum := 0;
    for i := 0 to |starts|
      invariant sum == ScoreSum(g, starts[..i])
    {
      assert starts[..i + 1][..i] == starts[..i];
      var score := Score(g, starts[i].x, starts[i].y);
      sum := sum + score;
    }
    assert starts[..|starts|] == starts;
  }

  /** `process_part1` on a parsed map: the sum of the scores of all
      trailheads; `None` for a map without rows, where `map[0]` panics. */
  method Part1(g: Map) returns (r: Option<nat>)
    requires Rectangular(g)
    ensures r.None? <==> |g| == 0
    ensures r.Some? ==> r.value == ScoreSum(g, Trailheads(g))
  {
    if |g| == 0 {
      return None;
    }
    var sum := Scores(g, Trailheads(g));
    return Some(sum);
  }

  /** The search of `process_part2` from each start, summed. */
  method Ratings(g: Map, starts: seq<Pos>) returns (sum: nat)
    requires Rectangular(g) && Starting(g, starts)
    ensures sum == RatingSum(g, starts)
  {
    sum := 0;
    for i := 0 to |starts|
      invariant sum == RatingSum(g, starts[..i])
    {
      assert starts[..i + 1][..i] == starts[..i];
      var rating := Rating(g, starts[i].x, starts[i].y);
      sum := sum + rating;
    }
    assert starts[..|starts|] == starts;
  }

  /** `process_part2` on a parsed map: the sum of the ratings. */
  method Part2(g: Map) returns (r: Option<nat>)
    requires Rectangular(g)
    ensures r.None? <==> |g| == 0
    ensures r.Some? ==> r.value == RatingSum(g, Trailheads(g))
  {
    if |g| == 0 {
      return None;
    }
    var sum := Ratings(g, Trailheads(g));
    return Some(sum);
  }

  /** Part 1's answer never exceeds part 2's. */
  lemma {:induction false} ScoreSumAtMostRatingSum(g: Map, starts: seq<Pos>)
    requires Rectangular(g) && Entries(g, starts, 0)
    ensures ScoreSum(g, starts) <= RatingSum(g, starts)
    decreases |starts|
  {
    if |starts| > 0 {
      var n := |starts| - 1;
      ScoreSumAtMostRatingSum(g, starts[..n]);
      ScoreAtMostRating(g, starts[n]);
    }
  }

  // ---------------------------------------------------------------------------
  // parse_input
  // ---------------------------------------------------------------------------

  /** One line of heights; `None` where `to_digit(10)` fails and the
      source's `expect` panics. */
  function ParseRow(line: string): (r: Option<seq<nat>>)
    ensures r.Some? <==> forall i :: 0 <= i < |line| ==> Digit(line[i]).Some?
    ensures r.Some? ==> |r.value| == |line| && forall i :: 0 <= i < |line| ==> r.value[i] == Digit(line[i]).value
  {
    if |line| == 0 then Some([])
    else
      match (ParseRow(line[..|line| - 1]), Digit(line[|line| - 1]))
      case (Some(row), Some(d)) => Some(row + [d])
      case _ => None
  }

  function ParseRows(lines: seq<string>): (r: Option<Map>)
    ensures r.Some? <==> forall k :: 0 <= k < |lines| ==> ParseRow(lines[k]).Some?
    ensures r.Some? ==> |r.value| == |lines| && forall k :: 0 <= k < |lines| ==> ParseRow(lines[k]) == Some(r.value[k])
  {
    if |lines| == 0 then Some([])
    else
      match (ParseRows(lines[..|lines| - 1]), ParseRow(lines[|lines| - 1]))
      case (Some(rows), Some(row)) => Some(rows + [row])
      case _ => None
  }

  /** `parse_input`: one row per line of the text. */
  function ParseInput(input: string): Option<Map> {
    ParseRows(Lines(input))
  }

  /** A row written out in digits. */
  function ShowRow(row: seq<nat>): (s: string)
    requires forall i :: 0 <= i < |row| ==> row[i] <= 9
    ensures |s| == |row| && forall i :: 0 <= i < |s| ==> '0' <= s[i] <= '9'
  {
    seq(|row|, i requires 0 <= i < |row| => ('0' as int + row[i]) as char)
  }

  function ShowRows(g: Map): (r: seq<string>)
    requires forall y, x :: 0 <= y < |g| && 0 <= x < |g[y]| ==> g[y][x] <= 9
    ensures |r| == |g| && forall y :: 0 <= y < |g| ==> r[y] == ShowRow(g[y])
  {
    seq(|g|, y requires 0 <= y < |g| => ShowRow(g[y]))
  }

  /** A map of heights 0 to 9 written out one row per line reads back as
      the same map. */
  lemma {:induction false} ParseShow(g: Map)
    requires |g| >= 1 && forall y, x :: 0 <= y < |g| && 0 <= x < |g[y]| ==> g[y][x] <= 9
    ensures ParseInput(Join(ShowRows(g), '\n') + "\n") == Some(g)
  {
    var lines := ShowRows(g);
    forall k | 0 <= k < |lines|
      ensures '\n' !in lines[k] && ParseRow(lines[k]) == Some(g[k])
    {
      var row := ParseRow(lines[k]).value;
      assert row == g[k];
    }
    LinesJoin(lines);
    assert ParseRows(lines).value == g;
  }
}
