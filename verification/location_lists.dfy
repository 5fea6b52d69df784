/** Day 1: two columns of location ids. Part 1 pairs the columns after
    sorting each and adds up the distances; part 2 weighs every id of the
    left column by how often it occurs in the right one. */
module LocationLists {

  /** `parse_input`'s second half: the line pairs split into the left and
      the right column, each in line order. */
  function Unzip(lines: seq<(nat, nat)>): (r: (seq<nat>, seq<nat>))
    ensures |r.0| == |lines| && |r.1| == |lines|
    ensures forall i :: 0 <= i < |lines| ==> r.0[i] == lines[i].0 && r.1[i] == lines[i].1
  {
    if |lines| == 0 then ([], [])
    else
      var (f, s) := Unzip(lines[..|lines| - 1]);
      (f + [lines[|lines| - 1].0], s + [lines[|lines| - 1].1])
  }

  // ---------------------------------------------------------------------------
  // Sorting
  // ---------------------------------------------------------------------------

  predicate Sorted(s: seq<nat>) {
    forall i, j :: 0 <= i < j < |s| ==> s[i] <= s[j]
  }

  function Insert(x: nat, s: seq<nat>): (r: seq<nat>)
    requires Sorted(s)
    ensures Sorted(r) && multiset(r) == multiset(s) + multiset{x} && |r| == |s| + 1
  {
    if |s| == 0 then [x]
    else if x <= s[0] then [x] + s
    else
      var t := Insert(x, s[1..]);
      InsertBehind(x, s, t);
      [s[0]] + t
  }

  /** Inserting behind the first element keeps a sorted sequence sorted. */
  lemma {:induction false} InsertBehind(x: nat, s: seq<nat>, t: seq<nat>)
    requires Sorted(s) && |s| > 0 && s[0] < x
    requires Sorted(t) && multiset(t) == multiset(s[1..]) + multiset{x}
    ensures Sorted([s[0]] + t) && multiset([s[0]] + t) == multiset(s) + multiset{x}
  {
    assert s == [s[0]] + s[1..];
    forall k | 0 <= k < |t| ensures s[0] <= t[k] {
      assert t[k] in multiset(t);
      if t[k] != x {
        assert t[k] in s;
        FirstIsLeast(s, t[k]);
      }
    }
  }

  /** `Vec::sort`: the ascending permutation. */
  function Sort(s: seq<nat>): (r: seq<nat>)
    ensures Sorted(r) && multiset(r) == multiset(s) && |r| == |s|
  {
    if |s| == 0 then []
    else
      var n := |s| - 1;
      assert s == s[..n] + [s[n]];
      Insert(s[n], Sort(s[..n]))
  }

  /** Two sorted sequences with the same elements are equal. */
  lemma {:induction false} SortedUnique(a: seq<nat>, b: seq<nat>)
    requires Sorted(a) && Sorted(b) && multiset(a) == multiset(b)
    ensures a == b
    decreases |a|
  {
    assert |a| == |multiset(a)| == |multiset(b)| == |b|;
    if |a| > 0 {
      SameFirst(a, b);
      Uncons(a);
      Uncons(b);
      SortedUnique(a[1..], b[1..]);
      SameTail(a, b);
    }
  }

  lemma {:induction false} SameFirst(a: seq<nat>, b: seq<nat>)
    requires Sorted(a) && Sorted(b) && multiset(a) == multiset(b) && |a| > 0 && |b| > 0
    ensures a[0] == b[0]
  {
    assert a[0] in multiset(b) && b[0] in multiset(a);
    FirstIsLeast(b, a[0]);
    FirstIsLeast(a, b[0]);
  }

  lemma {:induction false} SameTail(a: seq<nat>, b: seq<nat>)
    requires |a| > 0 && |b| > 0 && a[0] == b[0] && a[1..] == b[1..]
    ensures a == b
  {
    assert a == [a[0]] + a[1..] && b == [b[0]] + b[1..];
  }

  lemma {:induction false} FirstIsLeast(a: seq<nat>, x: nat)
    requires Sorted(a) && x in a
    ensures a[0] <= x
  {
  }

  lemma {:induction false} Uncons(a: seq<nat>)
    requires |a| > 0 && Sorted(a)
    ensures multiset(a[1..]) == multiset(a) - multiset{a[0]} && Sorted(a[1..])
  {
    assert a == [a[0]] + a[1..];
  }

  /** Sorting forgets the original order. */
  lemma {:induction false} SortCanonical(a: seq<nat>, b: seq<nat>)
    requires multiset(a) == multiset(b)
    ensures Sort(a) == Sort(b)
  {
    SortedUnique(Sort(a), Sort(b));
  }

  // ---------------------------------------------------------------------------
  // Part 1
  // ---------------------------------------------------------------------------

  /** `u32::abs_diff`. */
  function Distance(a: nat, b: nat): (d: nat)
    ensures d == 0 <==> a == b
    ensures a + d == b || b + d == a
  {
    if a < b then b - a else a - b
  }

  /** `zip` then `map(abs_diff)` then `sum`: pairs beyond the shorter
      sequence are dropped. */
  function DistanceSum(a: seq<nat>, b: seq<nat>): nat {
    if |a| == 0 || |b| == 0 then 0 else Distance(a[0], b[0]) + DistanceSum(a[1..], b[1..])
  }

  /** Equal-length sequences are zero apart exactly when they are equal. */
  lemma {:induction false} DistanceSumZero(a: seq<nat>, b: seq<nat>)
    requires |a| == |b|
    ensures DistanceSum(a, b) == 0 <==> a == b
    decreases |a|
  {
    if |a| > 0 {
      DistanceSumZero(a[1..], b[1..]);
      if a[0] == b[0] && a[1..] == b[1..] {
        assert a == [a[0]] + a[1..] && b == [b[0]] + b[1..];
      }
    }
  }

  /** `process_part1`. */
  function Part1(lines: seq<(nat, nat)>): nat {
    var (first, second) := Unzip(lines);
    DistanceSum(Sort(first), Sort(second))
  }

  /** Part 1 depends only on which ids each column holds, not on their
      order. */
  lemma {:induction false} Part1Permutation(l1: seq<(nat, nat)>, l2: seq<(nat, nat)>)
    requires multiset(Unzip(l1).0) == multiset(Unzip(l2).0)
    requires multiset(Unzip(l1).1) == multiset(Unzip(l2).1)
    ensures Part1(l1) == Part1(l2)
  {
    SortCanonical(Unzip(l1).0, Unzip(l2).0);
    SortCanonical(Unzip(l1).1, Unzip(l2).1);
  }

  /** Part 1 is zero exactly when both columns hold the same ids. */
  lemma {:induction false} Part1Zero(lines: seq<(nat, nat)>)
    ensures Part1(lines) == 0 <==> multiset(Unzip(lines).0) == multiset(Unzip(lines).1)
  {
    var (first, second) := Unzip(lines);
    DistanceSumZero(Sort(first), Sort(second));
    if multiset(first) == multiset(second) {
      SortCanonical(first, second);
    }
  }

  // ---------------------------------------------------------------------------
  // Part 2
  // ---------------------------------------------------------------------------

  /** The sum in `process_part2`: every id of `first` times its count in
      `second` (`counts()`, a map modelled as a multiset); ids absent from
      `second` add nothing. */
  function Similarity(first: seq<nat>, second: seq<nat>): nat {
    if |first| == 0 then 0
    else
      var n := |first| - 1;
      Similarity(first[..n], second) + first[n] * multiset(second)[first[n]]
  }

  function Part2(lines: seq<(nat, nat)>): nat {
    var (first, second) := Unzip(lines);
    Similarity(first, second)
  }

  /** The ids of `s` equal to `x`, added up. */
  function SumOf(s: seq<nat>, x: nat): nat {
    if |s| == 0 then 0
    else SumOf(s[..|s| - 1], x) + (if s[|s| - 1] == x then x else 0)
  }

  lemma {:induction false} SumOfCount(s: seq<nat>, x: nat)
    ensures SumOf(s, x) == x * multiset(s)[x]
    decreases |s|
  {
    if |s| > 0 {
      var n := |s| - 1;
      SumOfCount(s[..n], x);
      assert s == s[..n] + [s[n]];
    }
  }

  /** Similarity is symmetric: each equal pair, one id from each side,
      counts its id once either way. */
  lemma {:induction false} SimilaritySymmetric(a: seq<nat>, b: seq<nat>)
    ensures Similarity(a, b) == Similarity(b, a)
    decreases |a|
  {
    if |a| == 0 {
      SimilarityEmpty(b);
    } else {
      var n := |a| - 1;
      var x := a[n];
      SimilaritySymmetric(a[..n], b);
      SimilaritySnoc(b, a[..n], x);
      assert a[..n] + [x] == a;
      SumOfCount(b, x);
    }
  }

  lemma {:induction false} SimilarityEmpty(b: seq<nat>)
    ensures Similarity(b, []) == 0
    decreases |b|
  {
    if |b| > 0 {
      SimilarityEmpty(b[..|b| - 1]);
    }
  }

  /** One more id `x` on the right adds `x` for every equal id on the left. */
  lemma {:induction false} SimilaritySnoc(b: seq<nat>, a: seq<nat>, x: nat)
    ensures Similarity(b, a + [x]) == Similarity(b, a) + SumOf(b, x)
  {
    SimilarityBump(b, a, a + [x], x);
  }

  lemma {:induction false} SimilarityBump(b: seq<nat>, a: seq<nat>, c: seq<nat>, x: nat)
    requires multiset(c) == multiset(a) + multiset{x}
    ensures Similarity(b, c) == Similarity(b, a) + SumOf(b, x)
    decreases |b|
  {
    if |b| > 0 {
      var n := |b| - 1;
      SimilarityBump(b[..n], a, c, x);
      var y := b[n];
      CountProduct(y, x, multiset(a)[y], multiset(c)[y]);
    }
  }

  lemma {:induction false} CountProduct(y: nat, x: nat, m: nat, m': nat)
    requires m' == m + (if y == x then 1 else 0)
    ensures y * m' == y * m + (if y == x then x else 0)
  {
  }

  /** Part 2 depends only on which ids each column holds. */
  lemma {:induction false} SimilarityPermutation(a: seq<nat>, a': seq<nat>, b: seq<nat>)
    requires multiset(a) == multiset(a')
    ensures Similarity(a, b) == Similarity(a', b)
  {
    SimilaritySymmetric(a, b);
    SimilaritySymmetric(a', b);
    SimilarityRight(b, a, a');
  }

  lemma {:induction false} SimilarityRight(b: seq<nat>, a: seq<nat>, a': seq<nat>)
    requires multiset(a) == multiset(a')
    ensures Similarity(b, a) == Similarity(b, a')
    decreases |b|
  {
    if |b| > 0 {
      SimilarityRight(b[..|b| - 1], a, a');
    }
  }
}
