/** Day 11: a line of numbered stones changes at every blink. A 0 becomes a
    1, a number with an even count of decimal digits splits into its two
    halves, and any other number is multiplied by 2024. Part 1 expands the
    list itself; part 2 keeps a count per stone number. */
module Stones {
  import opened Decimal

  // ---------------------------------------------------------------------------
  // Decimal digits and the rules
  // ---------------------------------------------------------------------------

  /** `rules`: what one stone becomes at a blink. */
  function Rules(n: nat): (r: seq<nat>)
    ensures 1 <= |r| <= 2
  {
    if n == 0 then [1]
    else
      var d := NumDigits(n);
      if d % 2 == 0 then
        var p := Pow10(d / 2);
        [n / p, n % p]
      else [n * 2024]
  }

  lemma {:induction false} RulesZero()
    ensures Rules(0) == [1]
  {
  }

  /** A stone with an even number of digits splits into its left half,
      which has half the digits, and its right half below `10^(d/2)`,
      which put back together give the stone. */
  lemma {:induction false} RulesSplit(n: nat)
    requires n >= 1 && NumDigits(n) % 2 == 0
    ensures var d := NumDigits(n); var r := Rules(n);
      |r| == 2 && r[0] * Pow10(d / 2) + r[1] == n && r[1] < Pow10(d / 2)
      && r[0] >= 1 && NumDigits(r[0]) == d / 2
  {
    var d := NumDigits(n);
    var h := d / 2;
    var p := Pow10(h);
    var left := n / p;
    DivMod(n, p);
    Pow10Add(h, h);
    Pow10Add(h - 1, h);
    assert Pow10(h - 1) * p <= n < Pow10(h) * p;
    LeftHalf(n, p, Pow10(h - 1), Pow10(h));
    DigitsBetween(left, h);
  }

  /** A stone with an odd number of digits is multiplied by 2024. */
  lemma {:induction false} RulesOdd(n: nat)
    requires n >= 1 && NumDigits(n) % 2 == 1
    ensures Rules(n) == [2024 * n]
  {
  }

  // ---------------------------------------------------------------------------
  // Part 1: the expanded list
  // ---------------------------------------------------------------------------

  /** One blink over the whole list, `flat_map(rules)`. */
  function Expand(stones: seq<nat>): seq<nat> {
    if |stones| == 0 then []
    else
      var n := |stones| - 1;
      Expand(stones[..n]) + Rules(stones[n])
  }

  function ExpandN(stones: seq<nat>, blinks: nat): seq<nat>
    decreases blinks
  {
    if blinks == 0 then stones else ExpandN(Expand(stones), blinks - 1)
  }

  function Part1(stones: seq<nat>): nat {
    |ExpandN(stones, 25)|
  }

  // ---------------------------------------------------------------------------
  // Weighted sums over lists and count maps
  // ---------------------------------------------------------------------------

  /** What a sum adds up per stone: one, the stones it becomes, or how many
      of those are `s`. */
  type Weight = nat -> nat

  function One(k: nat): nat {
    1
  }

  function Width(k: nat): nat {
    |Rules(k)|
  }

  function OccOf(s: nat): Weight {
    (k: nat) => multiset(Rules(k))[s]
  }

  /** The weight of one stone `k`, named so that statements about it do not
      depend on the heap a lambda is applied in. */
  function Weigh(w: Weight, k: nat): nat {
    w(k)
  }

  function SumList(stones: seq<nat>, w: Weight): nat {
    if |stones| == 0 then 0
    else
      var n := |stones| - 1;
      SumList(stones[..n], w) + Weigh(w, stones[n])
  }

  /** After a blink there are as many stones, and as many `s`, as the
      weights of the stones before it say. */
  lemma {:induction false} ExpandSum(stones: seq<nat>, s: nat)
    ensures |Expand(stones)| == SumList(stones, Width)
    ensures multiset(Expand(stones))[s] == SumList(stones, OccOf(s))
    decreases |stones|
  {
    if |stones| > 0 {
      ExpandSum(stones[..|stones| - 1], s);
    }
  }

  lemma {:induction false} SumListOnes(stones: seq<nat>)
    ensures SumList(stones, One) == |stones|
    decreases |stones|
  {
    if |stones| > 0 {
      SumListOnes(stones[..|stones| - 1]);
    }
  }

  lemma {:induction false} MinExists(keys: set<nat>)
    requires keys != {}
    ensures exists k :: k in keys && forall j :: j in keys ==> k <= j
  {
    var k :| k in keys;
    if !forall j :: j in keys ==> k <= j {
      var j :| j in keys && j < k;
      MinBelow(keys, j);
    }
  }

  lemma {:induction false} MinBelow(keys: set<nat>, j: nat)
    requires j in keys
    ensures exists k :: k in keys && forall i :: i in keys ==> k <= i
    decreases j
  {
    if !forall i :: i in keys ==> j <= i {
      var i :| i in keys && i < j;
      MinBelow(keys, i);
    }
  }

  /** The smallest stone number in a count map: the order the map is
      drained in (the source's order is the hash map's and does not
      matter). */
  function MinKey(m: map<nat, nat>): (k: nat)
    requires |m| > 0
    ensures k in m && forall j :: j in m ==> k <= j
    ensures |m - {k}| == |m| - 1
  {
    assert m.Keys != {} by {
      var x :| x in m;
    }
    MinExists(m.Keys);
    var k :| k in m && forall j :: j in m ==> k <= j;
    MapRemove(m, k);
    k
  }

  lemma {:induction false} MapRemove(m: map<nat, nat>, k: nat)
    requires k in m
    ensures |m - {k}| == |m| - 1
  {
    assert (m - {k}).Keys == m.Keys - {k};
  }

  /** `a` copies of `b` added up: a product the sums below never need to
      multiply out. */
  function Times(a: nat, b: nat): nat
    decreases a
  {
    if a == 0 then 0 else Times(a - 1, b) + b
  }

  lemma {:induction false} TimesRight(a: nat, b: nat)
    ensures Times(a, b + 1) == Times(a, b) + a
    ensures Times(a, 0) == 0
    decreases a
  {
    if a > 0 {
      TimesRight(a - 1, b);
    }
  }

  lemma {:induction false} TimesAdd(c: nat, v: nat, k: nat)
    ensures Times(c + v, k) == Times(c, k) + Times(v, k)
    decreases c
  {
    if c > 0 {
      TimesAdd(c - 1, v, k);
    }
  }

  lemma {:induction false} TimesOne(v: nat)
    ensures Times(v, 1) == v
    decreases v
  {
    if v > 0 {
      TimesOne(v - 1);
    }
  }

  lemma {:induction false} TimesMono(a: nat, b: nat, c: nat)
    requires b <= c
    ensures Times(a, b) <= Times(a, c)
    decreases a
  {
    if a > 0 {
      TimesMono(a - 1, b, c);
    }
  }

  /** Some key of a non-empty count map. */
  ghost function AnyKey(m: map<nat, nat>): (k: nat)
    requires |m| > 0
    ensures k in m && |m - {k}| == |m| - 1
  {
    assert m.Keys != {} by {
      var x :| x in m;
    }
    var k :| k in m.Keys;
    MapRemove(m, k);
    k
  }

  /** `Σ m[k] · w(k)` over the keys of a count map. */
  ghost function SumMap(m: map<nat, nat>, w: Weight): nat
    decreases |m|
  {
    if |m| == 0 then 0
    else
      var k := AnyKey(m);
      Times(m[k], Weigh(w, k)) + SumMap(m - {k}, w)
  }

  /** The sum does not depend on which key goes first. */
  lemma {:induction false} SumMapAt(m: map<nat, nat>, x: nat, w: Weight)
    requires x in m
    ensures SumMap(m, w) == Times(m[x], Weigh(w, x)) + SumMap(m - {x}, w)
    decreases |m|
  {
    var k := AnyKey(m);
    if k != x {
      var mk := m - {k};
      var mx := m - {x};
      MapRemove(m, x);
      SumMapAt(mk, x, w);
      SumMapAt(mx, k, w);
      RemoveBoth(m, k, x);
    }
  }

  lemma {:induction false} RemoveAbsent(m: map<nat, nat>, x: nat)
    requires x !in m
    ensures m - {x} == m
  {
    assert (m - {x}).Keys == m.Keys;
  }

  lemma {:induction false} RemoveBoth(m: map<nat, nat>, a: nat, b: nat)
    ensures m - {a} - {b} == m - {b} - {a}
  {
    assert (m - {a} - {b}).Keys == (m - {b} - {a}).Keys;
  }

  lemma {:induction false} UpdateRemove(m: map<nat, nat>, x: nat, v: nat)
    ensures m[x := v] - {x} == m - {x}
  {
  }

  /** How many stones of number `x` a count map holds. */
  function Mult(m: map<nat, nat>, x: nat): nat {
    if x in m then m[x] else 0
  }

  /** A count map stands for a list when it counts each of its numbers. */
  ghost predicate Counts(m: map<nat, nat>, stones: seq<nat>) {
    forall x :: Mult(m, x) == multiset(stones)[x]
  }

  lemma {:induction false} SumMapZero(m: map<nat, nat>, w: Weight)
    requires forall x :: x in m ==> m[x] == 0
    ensures SumMap(m, w) == 0
    decreases |m|
  {
    if |m| > 0 {
      SumMapZero(m - {AnyKey(m)}, w);
    }
  }

  /** The weighted sum over a count map is the one over the list it
      stands for. */
  lemma {:induction false} CountsSum(m: map<nat, nat>, stones: seq<nat>, w: Weight)
    requires Counts(m, stones)
    ensures SumMap(m, w) == SumList(stones, w)
    decreases |stones|
  {
    if |stones| == 0 {
      forall x | x in m ensures m[x] == 0 {
        assert Mult(m, x) == 0;
      }
      SumMapZero(m, w);
    } else {
      var n := |stones| - 1;
      var x := stones[n];
      assert stones == stones[..n] + [x];
      assert Mult(m, x) >= 1;
      CountsDrop(m, stones);
      CountsSum(m[x := m[x] - 1], stones[..n], w);
      SumMapTake(m, x, w);
    }
  }

  /** Taking one stone `x` off a count map takes its weight off the sum. */
  lemma {:induction false} SumMapTake(m: map<nat, nat>, x: nat, w: Weight)
    requires x in m && m[x] >= 1
    ensures SumMap(m, w) == SumMap(m[x := m[x] - 1], w) + Weigh(w, x)
  {
    var m0 := m[x := m[x] - 1];
    var c, k := m[x] - 1, Weigh(w, x);
    var rest := SumMap(m - {x}, w);
    SumMapAt(m, x, w);
    assert SumMap(m, w) == Times(c + 1, k) + rest;
    SumMapAt(m0, x, w);
    UpdateRemove(m, x, c);
    assert SumMap(m0, w) == Times(c, k) + rest;
  }

  /** Taking the last stone off the list takes one off its count. */
  lemma {:induction false} CountsDrop(m: map<nat, nat>, stones: seq<nat>)
    requires Counts(m, stones) && |stones| > 0
    ensures var n := |stones| - 1; var x := stones[n];
      x in m && m[x] >= 1 && Counts(m[x := m[x] - 1], stones[..n])
  {
    var n := |stones| - 1;
    var x := stones[n];
    assert stones == stones[..n] + [x];
    assert Mult(m, x) >= 1;
    var m0 := m[x := m[x] - 1];
    forall y ensures Mult(m0, y) == multiset(stones[..n])[y] {
      assert Mult(m, y) == multiset(stones)[y];
    }
  }

  // ---------------------------------------------------------------------------
  // Part 2: the count map
  // ---------------------------------------------------------------------------

  /** Adds `v` to the count of each stone of `out`: the
      `entry().and_modify().or_insert()` of `blink`. */
  function AddAll(acc: map<nat, nat>, out: seq<nat>, v: nat): map<nat, nat> {
    if |out| == 0 then acc
    else
      var n := |out| - 1;
      Bump(AddAll(acc, out[..n], v), out[n], v)
  }

  /** Adds `v` to the count of `x`, inserting it when absent. */
  function Bump(a: map<nat, nat>, x: nat, v: nat): (b: map<nat, nat>)
    ensures x in b && b[x] == Mult(a, x) + v
    ensures forall y :: y != x ==> Mult(b, y) == Mult(a, y)
  {
    a[x := Mult(a, x) + v]
  }

  /** Each stone `s` gains `v` for each time it occurs in `out`. */
  lemma {:induction false} AddAllMult(acc: map<nat, nat>, out: seq<nat>, v: nat, s: nat)
    ensures Mult(AddAll(acc, out, v), s) == Mult(acc, s) + Times(v, multiset(out)[s])
    decreases |out|
  {
    TimesRight(v, 0);
    if |out| > 0 {
      var n := |out| - 1;
      AddAllMult(acc, out[..n], v, s);
      assert out == out[..n] + [out[n]];
      assert multiset(out) == multiset(out[..n]) + multiset{out[n]};
      if out[n] == s {
        TimesRight(v, multiset(out[..n])[s]);
      }
    }
  }


  /** Drains `m` in increasing key order into `acc`. */
  function Drain(m: map<nat, nat>, acc: map<nat, nat>): map<nat, nat>
    decreases |m|
  {
    if |m| == 0 then acc
    else
      var k := MinKey(m);
      Drain(m - {k}, AddAll(acc, Rules(k), m[k]))
  }

  lemma {:induction false} DrainMult(m: map<nat, nat>, acc: map<nat, nat>, s: nat)
    ensures Mult(Drain(m, acc), s) == Mult(acc, s) + SumMap(m, OccOf(s))
    decreases |m|
  {
    if |m| > 0 {
      var k := MinKey(m);
      DrainMult(m - {k}, AddAll(acc, Rules(k), m[k]), s);
      AddAllMult(acc, Rules(k), m[k], s);
      SumMapAt(m, k, OccOf(s));
    }
  }

  /** `blink`: each stone number's count moves to the numbers it becomes. */
  function Blink(m: map<nat, nat>): map<nat, nat> {
    Drain(m, map[])
  }

  /** A blink of the count map stands for a blink of the list. */
  lemma {:induction false} BlinkCounts(m: map<nat, nat>, stones: seq<nat>)
    requires Counts(m, stones)
    ensures Counts(Blink(m), Expand(stones))
  {
    forall s ensures Mult(Blink(m), s) == multiset(Expand(stones))[s] {
      DrainMult(m, map[], s);
      CountsSum(m, stones, OccOf(s));
      ExpandSum(stones, s);
    }
  }

  function BlinkN(m: map<nat, nat>, blinks: nat): map<nat, nat>
    decreases blinks
  {
    if blinks == 0 then m else BlinkN(Blink(m), blinks - 1)
  }

  /** `stones.into_values().sum()`, drained in increasing key order: the
      order-free sum of the counts. */
  function Total(m: map<nat, nat>): (t: nat)
    ensures t == SumMap(m, One)
    decreases |m|
  {
    if |m| == 0 then 0
    else
      var k := MinKey(m);
      SumMapAt(m, k, One);
      TimesOne(m[k]);
      m[k] + Total(m - {k})
  }

  lemma {:induction false} BlinkNCounts(m: map<nat, nat>, stones: seq<nat>, blinks: nat)
    requires Counts(m, stones)
    ensures Counts(BlinkN(m, blinks), ExpandN(stones, blinks))
    decreases blinks
  {
    if blinks > 0 {
      BlinkCounts(m, stones);
      BlinkNCounts(Blink(m), Expand(stones), blinks - 1);
    }
  }

  /** A count map's total is the length of the list it stands for. */
  lemma {:induction false} CountsTotal(m: map<nat, nat>, stones: seq<nat>)
    requires Counts(m, stones)
    ensures Total(m) == |stones|
  {
    CountsSum(m, stones, One);
    SumListOnes(stones);
  }

  /** After the same number of blinks, the count map's total is the length
      of the expanded list. */
  lemma {:induction false} BlinkNTotal(m: map<nat, nat>, stones: seq<nat>, blinks: nat)
    requires Counts(m, stones)
    ensures Total(BlinkN(m, blinks)) == |ExpandN(stones, blinks)|
  {
    BlinkNCounts(m, stones, blinks);
    CountsTotal(BlinkN(m, blinks), ExpandN(stones, blinks));
  }

  /** A blink never lowers the number of stones. */
  lemma {:induction false} BlinkGrows(m: map<nat, nat>)
    ensures Total(Blink(m)) >= Total(m)
    ensures Total(Blink(m)) == SumMap(m, Width)
  {
    var sum := BlinkTotal(m, map[]);
    SumMapWider(m);
  }

  lemma {:induction false} BlinkTotal(m: map<nat, nat>, acc: map<nat, nat>) returns (t: nat)
    ensures t == Total(Drain(m, acc)) && t == Total(acc) + SumMap(m, Width)
    decreases |m|
  {
    if |m| == 0 {
      t := Total(acc);
    } else {
      var k := MinKey(m);
      var acc' := AddAll(acc, Rules(k), m[k]);
      AddAllSum(acc, Rules(k), m[k]);
      SumMapAt(m, k, Width);
      t := BlinkTotal(m - {k}, acc');
    }
  }

  /** Adding `v` to the counts of the stones of `out` adds `v` for each of
      them to the unit sum. */
  lemma {:induction false} AddAllSum(acc: map<nat, nat>, out: seq<nat>, v: nat)
    ensures SumMap(AddAll(acc, out, v), One) == SumMap(acc, One) + Times(v, |out|)
    decreases |out|
  {
    TimesRight(v, 0);
    if |out| > 0 {
      var n := |out| - 1;
      AddAllSum(acc, out[..n], v);
      AddAllStep(acc, out, v);
      TimesRight(v, n);
    }
  }

  lemma {:induction false} AddAllStep(acc: map<nat, nat>, out: seq<nat>, v: nat)
    requires |out| > 0
    ensures SumMap(AddAll(acc, out, v), One) == SumMap(AddAll(acc, out[..|out| - 1], v), One) + v
  {
    var n := |out| - 1;
    SumMapBump(AddAll(acc, out[..n], v), out[n], v, One);
    TimesOne(v);
  }

  /** Adding `v` stones `x` adds `v` times the weight of `x`. */
  lemma {:induction false} SumMapBump(a: map<nat, nat>, x: nat, v: nat, w: Weight)
    ensures SumMap(Bump(a, x, v), w) == SumMap(a, w) + Times(v, Weigh(w, x))
  {
    var c := Mult(a, x);
    var u := c + v;
    BumpIs(a, x, v, u);
    SumMapUpdate(a, x, u, w);
    TimesSplit(u, c, v, Weigh(w, x));
    SumMapShare(a, x, w);
  }

  lemma {:induction false} TimesSplit(u: nat, c: nat, v: nat, k: nat)
    requires u == c + v
    ensures Times(u, k) == Times(c, k) + Times(v, k)
  {
    TimesAdd(c, v, k);
  }

  lemma {:induction false} BumpIs(a: map<nat, nat>, x: nat, v: nat, u: nat)
    requires u == Mult(a, x) + v
    ensures Bump(a, x, v) == a[x := u]
  {
  }

  /** The sum is the share of `x`, zero when it is absent, and the rest. */
  lemma {:induction false} SumMapShare(a: map<nat, nat>, x: nat, w: Weight)
    ensures SumMap(a, w) == Times(Mult(a, x), Weigh(w, x)) + SumMap(a - {x}, w)
  {
    if x in a {
      SumMapAt(a, x, w);
    } else {
      RemoveAbsent(a, x);
    }
  }

  /** Setting the count of `x` to `u` sets its share of the sum. */
  lemma {:induction false} SumMapUpdate(a: map<nat, nat>, x: nat, u: nat, w: Weight)
    ensures SumMap(a[x := u], w) == Times(u, Weigh(w, x)) + SumMap(a - {x}, w)
  {
    SumMapAt(a[x := u], x, w);
    UpdateRemove(a, x, u);
  }

  lemma {:induction false} SumMapWider(m: map<nat, nat>)
    ensures SumMap(m, One) <= SumMap(m, Width)
    decreases |m|
  {
    if |m| > 0 {
      var k := AnyKey(m);
      SumMapWider(m - {k});
      TimesMono(m[k], 1, Width(k));
    }
  }

  /** The count map part 2 starts from, counting repeated stones. */
  function Init(stones: seq<nat>): (m: map<nat, nat>)
    ensures Counts(m, stones)
    ensures forall x :: x in m ==> m[x] > 0
  {
    if |stones| == 0 then map[]
    else
      var n := |stones| - 1;
      var m := Init(stones[..n]);
      var x := stones[n];
      assert stones == stones[..n] + [x];
      m[x := Mult(m, x) + 1]
  }

  function Part2(stones: seq<nat>): nat {
    Total(BlinkN(Init(stones), 75))
  }

  /** Part 2 counts the stones part 1 would list after 75 blinks. */
  lemma {:induction false} Part2Expands(stones: seq<nat>)
    ensures Part2(stones) == |ExpandN(stones, 75)|
  {
    BlinkNTotal(Init(stones), stones, 75);
  }

  /** The map as the source builds it, `(n, 1)` pairs collected into a hash
      map: a repeated stone keeps the count 1. */
  function InitAsWritten(stones: seq<nat>): (m: map<nat, nat>)
    ensures forall x :: x in m <==> x in stones
    ensures forall x :: x in m ==> m[x] == 1
  {
    if |stones| == 0 then map[]
    else
      var n := |stones| - 1;
      assert stones == stones[..n] + [stones[n]];
      InitAsWritten(stones[..n])[stones[n] := 1]
  }

  /** Two stones numbered 0 count as one. */
  lemma {:induction false} InitAsWrittenLoses()
    ensures Total(InitAsWritten([0, 0])) == 1 && Total(Init([0, 0])) == 2
  {
    var w := InitAsWritten([0, 0]);
    assert w == map[0 := 1];
    SumMapAt(w, 0, One);
    assert w - {0} == map[];
    var m := Init([0, 0]);
    assert [0, 0][..1] == [0] && [0][..0] == [];
    assert Init([0]) == map[0 := 1];
    assert m == map[0 := 2];
    SumMapAt(m, 0, One);
    assert m - {0} == map[];
  }

  /** Without repeated stones the source's map is the counting one. */
  lemma {:induction false} InitAsWrittenDistinct(stones: seq<nat>)
    requires forall i, j :: 0 <= i < j < |stones| ==> stones[i] != stones[j]
    ensures InitAsWritten(stones) == Init(stones)
  {
    var a := InitAsWritten(stones);
    var b := Init(stones);
    forall x | x in stones ensures multiset(stones)[x] == 1 {
      Once(stones, x);
    }
    forall x ensures x in a <==> x in b {
      assert Mult(b, x) == multiset(stones)[x];
      assert x in stones <==> x in multiset(stones);
    }
    forall x | x in a ensures a[x] == b[x] {
      assert Mult(b, x) == multiset(stones)[x];
    }
  }

  lemma {:induction false} Once(stones: seq<nat>, x: nat)
    requires forall i, j :: 0 <= i < j < |stones| ==> stones[i] != stones[j]
    requires x in stones
    ensures multiset(stones)[x] == 1
    decreases |stones|
  {
    var n := |stones| - 1;
    assert stones == stones[..n] + [stones[n]];
    if stones[n] == x {
      assert x !in stones[..n];
    } else {
      Once(stones[..n], x);
    }
  }
}
