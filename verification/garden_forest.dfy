/** The parent/rank half of the day-12 union-find: a forest over the indices
    `0 .. n-1`, joined by union by rank and flattened by path compression. */
module GardenForest {

  datatype Forest = Forest(parents: seq<nat>, rank: seq<nat>)
  {
    function Size(): nat {
      |parents|
    }

    /** Every parent is an index, and ranks strictly increase towards the
        root, so every walk up the forest ends. */
    predicate Valid() {
      && |rank| == |parents|
      && (forall i :: 0 <= i < |parents| ==> parents[i] < |parents|)
      && (forall i :: 0 <= i < |parents| && parents[i] != i ==> rank[i] < rank[parents[i]])
    }
  }

  /** The forest `UnionFind::new` starts from: every index its own root. */
  function Singletons(n: nat): (f: Forest)
    ensures f.Valid() && f.Size() == n
    ensures forall i :: 0 <= i < n ==> f.parents[i] == i && f.rank[i] == 0
  {
    Forest(seq(n, i => i), seq(n, _ => 0))
  }

  /** Largest entry, the bound of the rank-based termination measure. */
  function MaxOf(s: seq<nat>): (m: nat)
    ensures forall i :: 0 <= i < |s| ==> s[i] <= m
  {
    if |s| == 0 then 0
    else
      var m := MaxOf(s[..|s| - 1]);
      if s[|s| - 1] > m then s[|s| - 1] else m
  }

  /** The root an index reaches by following parents, without compression. */
  function Root(f: Forest, i: nat): (r: nat)
    requires f.Valid() && i < f.Size()
    ensures r < f.Size() && f.parents[r] == r
    ensures f.rank[i] <= f.rank[r]
    ensures r != i ==> f.rank[i] < f.rank[r]
    decreases MaxOf(f.rank) - f.rank[i]
  {
    if f.parents[i] == i then i else Root(f, f.parents[i])
  }

  /** Two forests over the same indices in which every index reaches the same
      root. */
  predicate SameRoots(f: Forest, g: Forest)
    requires f.Valid() && g.Valid()
  {
    f.Size() == g.Size() && forall k :: 0 <= k < f.Size() ==> Root(f, k) == Root(g, k)
  }

  lemma {:induction false} SameRootsTrans(f: Forest, g: Forest, h: Forest)
    requires f.Valid() && g.Valid() && h.Valid()
    requires SameRoots(f, g) && SameRoots(g, h)
    ensures SameRoots(f, h)
  {
  }

  /** Roots depend on the parent links only, never on the ranks. */
  lemma {:induction false} RootFollowsParents(f: Forest, g: Forest, k: nat)
    requires f.Valid() && g.Valid() && f.parents == g.parents && k < f.Size()
    ensures Root(f, k) == Root(g, k)
    decreases MaxOf(f.rank) - f.rank[k]
  {
    if f.parents[k] != k {
      RootFollowsParents(f, g, f.parents[k]);
    }
  }

  lemma {:induction false} SameParentsSameRoots(f: Forest, g: Forest)
    requires f.Valid() && g.Valid() && f.parents == g.parents
    ensures SameRoots(f, g)
  {
    forall k | 0 <= k < f.Size() ensures Root(f, k) == Root(g, k) {
      RootFollowsParents(f, g, k);
    }
  }

  lemma {:induction false} RootIsRoot(f: Forest, k: nat)
    requires f.Valid() && k < f.Size()
    ensures Root(f, k) == k <==> f.parents[k] == k
  {
  }

  /** The root of every index, as one sequence. */
  function Roots(f: Forest): (rs: seq<nat>)
    requires f.Valid()
    ensures |rs| == f.Size()
    ensures forall k :: 0 <= k < f.Size() ==> rs[k] == Root(f, k)
  {
    seq(f.Size(), k requires 0 <= k < f.Size() && f.Valid() => Root(f, k))
  }

  lemma {:induction false} SameRootsRoots(f: Forest, g: Forest)
    requires f.Valid() && g.Valid() && SameRoots(f, g)
    ensures Roots(f) == Roots(g)
  {
  }

  /** `g` is `f` with the classes rooted at `a` and `b` joined under `s`. */
  predicate MergedRoots(f: Forest, g: Forest, a: nat, b: nat, s: nat)
    requires f.Valid() && g.Valid()
  {
    f.Size() == g.Size() &&
    forall k :: 0 <= k < f.Size() ==>
      Root(g, k) == if Root(f, k) == a || Root(f, k) == b then s else Root(f, k)
  }

  lemma {:induction false} SameThenMerged(f: Forest, g: Forest, h: Forest, a: nat, b: nat, s: nat)
    requires f.Valid() && g.Valid() && h.Valid()
    requires SameRoots(f, g) && MergedRoots(g, h, a, b, s)
    ensures MergedRoots(f, h, a, b, s)
  {
    forall k | 0 <= k < f.Size()
      ensures Root(h, k) == if Root(f, k) == a || Root(f, k) == b then s else Root(f, k)
    {
      assert Root(g, k) == Root(f, k);
    }
  }

  /** Keeping every root is the degenerate merge of a class with itself. */
  lemma {:induction false} SameIsMerged(f: Forest, g: Forest, a: nat)
    requires f.Valid() && g.Valid() && SameRoots(f, g)
    ensures MergedRoots(f, g, a, a, a)
  {
    forall k | 0 <= k < f.Size()
      ensures Root(g, k) == if Root(f, k) == a || Root(f, k) == a then a else Root(f, k)
    {
      assert Root(g, k) == Root(f, k);
    }
  }

  // --- path compression ------------------------------------------------------

  /** Pointing one index straight at its root. */
  function Compress(f: Forest, idx: nat): (g: Forest)
    requires f.Valid() && idx < f.Size()
    ensures g.Valid() && g.rank == f.rank && g.parents == f.parents[idx := Root(f, idx)]
    ensures SameRoots(f, g)
  {
    var g := f.(parents := f.parents[idx := Root(f, idx)]);
    forall k | 0 <= k < f.Size() ensures Root(g, k) == Root(f, k) {
      CompressRoot(f, g, idx, k);
    }
    g
  }

  lemma {:induction false} CompressRoot(f: Forest, g: Forest, idx: nat, k: nat)
    requires f.Valid() && g.Valid() && idx < f.Size() && k < f.Size()
    requires g == f.(parents := f.parents[idx := Root(f, idx)])
    ensures Root(g, k) == Root(f, k)
    decreases MaxOf(f.rank) - f.rank[k]
  {
    if f.parents[k] == k {
    } else if k == idx {
      assert g.parents[Root(f, idx)] == Root(f, idx);
    } else {
      CompressRoot(f, g, idx, f.parents[k]);
    }
  }

  /** `find_by_idx`: the root of `idx`, pointing every index on the way
      straight at it. */
  function FindByIdx(f: Forest, idx: nat): (res: (Forest, nat))
    requires f.Valid() && idx < f.Size()
    ensures res.0.Valid() && res.0.rank == f.rank && res.0.Size() == f.Size()
    ensures res.1 == Root(f, idx) && res.0.parents[res.1] == res.1
    ensures res.0.parents[idx] == res.1
    ensures SameRoots(f, res.0)
    ensures forall k :: 0 <= k < f.Size() ==>
      res.0.parents[k] == f.parents[k] || res.0.parents[k] == Root(f, k)
    decreases MaxOf(f.rank) - f.rank[idx]
  {
    if f.parents[idx] == idx then (f, idx)
    else
      var (f1, r) := FindByIdx(f, f.parents[idx]);
      var f2 := Compress(f1, idx);
      SameRootsTrans(f, f1, f2);
      (f2, r)
  }

  /** `check`'s first pass: `find_by_idx` on every index below `n` in turn,
      after which each of them points straight at its root. */
  function FindAll(f: Forest, n: nat): (g: Forest)
    requires f.Valid() && n <= f.Size()
    ensures g.Valid() && g.Size() == f.Size() && g.rank == f.rank && SameRoots(f, g)
    ensures forall k :: 0 <= k < n ==> g.parents[k] == Root(f, k)
  {
    if n == 0 then f
    else
      var g := FindAll(f, n - 1);
      var (h, _) := FindByIdx(g, n - 1);
      SameRootsTrans(f, g, h);
      forall k | 0 <= k < n ensures h.parents[k] == Root(f, k) {
        assert Root(g, k) == Root(f, k);
      }
      h
  }

  /** After `FindAll` over every index the forest is one level deep: the
      parent of every index is a root, which is what `check` asserts. */
  lemma {:induction false} FindAllFlat(f: Forest)
    requires f.Valid()
    ensures var g := FindAll(f, f.Size());
      forall i :: 0 <= i < g.Size() ==> g.parents[g.parents[i]] == g.parents[i]
  {
    var g := FindAll(f, f.Size());
    forall i | 0 <= i < g.Size() ensures g.parents[g.parents[i]] == g.parents[i] {
      RootIsRoot(g, g.parents[i]);
    }
  }

  /** A compressing find turns no root into a non-root and no non-root into a
      root. */
  lemma {:induction false} FindKeepsRoots(f: Forest, idx: nat, k: nat)
    requires f.Valid() && idx < f.Size() && k < f.Size()
    ensures FindByIdx(f, idx).0.parents[k] == k <==> f.parents[k] == k
  {
    var g := FindByIdx(f, idx).0;
    RootIsRoot(f, k);
    RootIsRoot(g, k);
  }

  // --- union by rank ---------------------------------------------------------

  /** Joins two distinct roots by the rank rule: the lower rank goes under
      the higher; on a tie the larger index goes under the smaller, whose rank
      grows by one. Returns the new forest, the subsumed root and the survivor. */
  function Link(f: Forest, root1: nat, root2: nat): (res: (Forest, nat, nat))
    requires f.Valid() && root1 < f.Size() && root2 < f.Size() && root1 != root2
    requires f.parents[root1] == root1 && f.parents[root2] == root2
    ensures var (g, child, parent) := res;
      && g.Valid() && g.Size() == f.Size()
      && {child, parent} == {root1, root2}
      && g.parents == f.parents[child := parent]
    ensures f.rank[root1] < f.rank[root2] ==>
      res.1 == root1 && res.2 == root2 && res.0.rank == f.rank
    ensures f.rank[root1] > f.rank[root2] ==>
      res.1 == root2 && res.2 == root1 && res.0.rank == f.rank
    ensures f.rank[root1] == f.rank[root2] ==>
      var min := if root1 < root2 then root1 else root2;
      var max := if root1 < root2 then root2 else root1;
      res.1 == max && res.2 == min && res.0.rank == f.rank[min := f.rank[min] + 1]
  {
    if f.rank[root1] < f.rank[root2] then
      (Forest(f.parents[root1 := root2], f.rank), root1, root2)
    else if f.rank[root1] > f.rank[root2] then
      (Forest(f.parents[root2 := root1], f.rank), root2, root1)
    else
      var min := if root1 < root2 then root1 else root2;
      var max := if root1 < root2 then root2 else root1;
      var bumped := f.rank[min := f.rank[min] + 1];
      assert Forest(f.parents, bumped).Valid();
      (Forest(f.parents[max := min], bumped), max, min)
  }

  /** After a link every index whose root was one of the two joined roots
      reaches the survivor; every other index keeps its root. */
  lemma {:induction false} LinkRoots(f: Forest, root1: nat, root2: nat)
    requires f.Valid() && root1 < f.Size() && root2 < f.Size() && root1 != root2
    requires f.parents[root1] == root1 && f.parents[root2] == root2
    ensures var (g, _, parent) := Link(f, root1, root2);
      MergedRoots(f, g, root1, root2, parent)
  {
    var (g, child, parent) := Link(f, root1, root2);
    var f' := Forest(f.parents, g.rank);
    assert f'.Valid();
    forall k | 0 <= k < f.Size()
      ensures Root(g, k) == if Root(f, k) == root1 || Root(f, k) == root2 then parent else Root(f, k)
    {
      RootFollowsParents(f, f', k);
      AttachRoot(f', g, child, parent, k);
    }
  }

  lemma {:induction false} AttachRoot(f: Forest, g: Forest, child: nat, parent: nat, k: nat)
    requires f.Valid() && g.Valid() && child < f.Size() && parent < f.Size() && child != parent
    requires f.parents[child] == child && f.parents[parent] == parent
    requires g.parents == f.parents[child := parent] && k < f.Size()
    ensures Root(g, k) == if Root(f, k) == child then parent else Root(f, k)
    decreases MaxOf(f.rank) - f.rank[k]
  {
    if f.parents[k] == k {
      if k == child {
        assert g.parents[parent] == parent;
      }
    } else {
      AttachRoot(f, g, child, parent, f.parents[k]);
    }
  }
}
