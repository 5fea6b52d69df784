/** Day 13: a claw machine has button A moving the claw by `(u, v)`, button
    B by `(w, z)`, and a prize at `(c, d)`. Pressing A costs 3 tokens and B
    costs 1; the answer adds up the cost of winning every prize that can be
    won. The presses come from Cramer's rule. */
module ClawMachine {
  import opened Wrappers

  datatype Machine = Machine(a: (int, int), b: (int, int), prize: (int, int))

  /** Pressing A `a` times and B `b` times puts the claw on the prize. */
  ghost predicate Solves(m: Machine, a: int, b: int) {
    m.a.0 * a + m.b.0 * b == m.prize.0 && m.a.1 * a + m.b.1 * b == m.prize.1
  }

  /** Outcome of the arithmetic in `tokens`. */
  datatype Presses = Panic | NoPrize | Press(a: int, b: int)

  /** Cramer's rule as `tokens` computes it: a remainder by zero panics.
      The remainders only decide divisibility and the quotients are exact,
      so the truncating operators of the source agree with these. */
  function Solve(m: Machine): (r: Presses)
    ensures r == Panic <==>
      (m.a.0 * m.b.1 - m.a.1 * m.b.0 == 0
       || ((m.b.1 * m.prize.0 - m.b.0 * m.prize.1) % (m.a.0 * m.b.1 - m.a.1 * m.b.0) == 0 && m.b.0 == 0))
  {
    var (u, v) := m.a;
    var (w, z) := m.b;
    var (c, d) := m.prize;
    var zcwd := z * c - w * d;
    var uzvw := u * z - v * w;
    if uzvw == 0 then Panic
    else if zcwd % uzvw != 0 then NoPrize
    else
      var a := zcwd / uzvw;
      var cua := c - u * a;
      if w == 0 then Panic
      else if cua % w != 0 then NoPrize
      else Press(a, cua / w)
  }

  /** Presses found by `Solve` win the prize. */
  lemma {:induction false} SolveSound(m: Machine)
    requires Solve(m).Press?
    ensures Solves(m, Solve(m).a, Solve(m).b)
  {
    var (u, v) := m.a;
    var (w, z) := m.b;
    var (c, d) := m.prize;
    var a := Solve(m).a;
    var b := Solve(m).b;
    var det := u * z - v * w;
    assert det * a == z * c - w * d;
    assert w * b == c - u * a;
    Substitute(u, v, w, z, c, d, a, b);
    CancelFactor(w, v * a + z * b, d);
  }

  /** `v·a + z·b = d` follows from the two equations `tokens` solves,
      scaled by `w`. */
  lemma {:induction false} Substitute(u: int, v: int, w: int, z: int, c: int, d: int, a: int, b: int)
    requires (u * z - v * w) * a == z * c - w * d && w * b == c - u * a
    ensures w * (v * a + z * b) == w * d
  {
    calc {
      w * (v * a + z * b);
      == v * (w * a) + z * (w * b);
      == v * (w * a) + z * (c - u * a);
      == z * c - (u * z - v * w) * a;
      == z * c - (z * c - w * d);
      == w * d;
    }
  }

  lemma {:induction false} CancelFactor(w: int, x: int, y: int)
    requires w != 0 && w * x == w * y
    ensures x == y
  {
    if x < y {
      MulStrict(w, x, y);
    } else if x > y {
      MulStrict(w, y, x);
    }
  }

  lemma {:induction false} MulStrict(w: int, x: int, y: int)
    requires w != 0 && x < y
    ensures w * x != w * y
  {
    assert w * y - w * x == w * (y - x);
  }

  /** Whenever the prize can be won and `Solve` does not panic, it finds
      the presses. */
  lemma {:induction false} SolveComplete(m: Machine, a: int, b: int)
    requires Solves(m, a, b) && Solve(m) != Panic
    ensures Solve(m) == Press(a, b)
  {
    var (u, v) := m.a;
    var (w, z) := m.b;
    var (c, d) := m.prize;
    var det := u * z - v * w;
    var zcwd := z * c - w * d;
    Eliminate(u, v, w, z, a, b);
    assert zcwd == det * a;
    ExactDiv(zcwd, det, a);
    var cua := c - u * a;
    assert cua == w * b;
    assert w != 0;
    ExactDiv(cua, w, b);
    assert Solve(m) == Press(zcwd / det, cua / w);
  }

  /** Eliminating B's presses from the two equations of a machine. */
  lemma {:induction false} Eliminate(u: int, v: int, w: int, z: int, a: int, b: int)
    ensures z * (u * a + w * b) - w * (v * a + z * b) == (u * z - v * w) * a
  {
    calc {
      z * (u * a + w * b) - w * (v * a + z * b);
      == z * (u * a) + z * (w * b) - w * (v * a) - w * (z * b);
      == (u * z - v * w) * a;
    }
  }

  lemma {:induction false} ExactDiv(n: int, p: int, q: int)
    requires p != 0 && n == p * q
    ensures n % p == 0 && n / p == q
  {
    var r := n % p;
    var k := n / p;
    assert p * k + r == n;
    assert p * (q - k) == r;
    if q != k {
      MulStrictBound(p, q - k);
    }
  }

  /** A non-zero multiple of `p` is at least `|p|` in size. */
  lemma {:induction false} MulStrictBound(p: int, k: int)
    requires p != 0 && k != 0
    ensures p * k >= (if p < 0 then -p else p) || p * k <= -(if p < 0 then -p else p)
  {
    if k > 0 {
      assert p * k == p * (k - 1) + p;
      if p > 0 { assert p * (k - 1) >= 0; } else { assert p * (k - 1) <= 0; }
    } else {
      assert p * k == p * (k + 1) - p;
      if p > 0 { assert p * (k + 1) <= 0; } else { assert p * (k + 1) >= 0; }
    }
  }

  /** With independent buttons the winning presses are unique, so they are
      also the cheapest. */
  lemma {:induction false} SolutionUnique(m: Machine, a: int, b: int, a': int, b': int)
    requires m.a.0 * m.b.1 - m.a.1 * m.b.0 != 0
    requires Solves(m, a, b) && Solves(m, a', b')
    ensures a == a' && b == b'
  {
    var (u, v) := m.a;
    var (w, z) := m.b;
    var da := a - a';
    var db := b - b';
    assert u * da + w * db == 0;
    assert v * da + z * db == 0;
    assert (u * z - v * w) * da == z * (u * da + w * db) - w * (v * da + z * db);
    CancelFactor(u * z - v * w, da, 0);
    assert w * db == 0 && z * db == 0;
    if db != 0 {
      // w and z cannot both be zero when the determinant is not.
      if w != 0 { CancelFactor(w, db, 0); } else { CancelFactor(z, db, 0); }
    }
  }

  /** `tokens`: `3a + b` for a winnable prize, 0 otherwise. */
  function Tokens(m: Machine): (r: Option<int>)
    ensures r.None? <==> Solve(m) == Panic
    ensures Solve(m).Press? ==> r == Some(3 * Solve(m).a + Solve(m).b)
    ensures Solve(m) == NoPrize ==> r == Some(0)
  {
    match Solve(m)
    case Panic => None
    case NoPrize => Some(0)
    case Press(a, b) => Some(a * 3 + b)
  }

  /** The prize of part 2, ten trillion further on both axes. */
  const Offset: int := 10_000_000_000_000

  /** `tokens2`, written out as the source does. */
  function Tokens2(m: Machine): Option<int> {
    var (u, v) := m.a;
    var (w, z) := m.b;
    var (c, d) := (m.prize.0 + Offset, m.prize.1 + Offset);
    var zcwd := z * c - w * d;
    var uzvw := u * z - v * w;
    if uzvw == 0 then None
    else if zcwd % uzvw != 0 then Some(0)
    else
      var a := zcwd / uzvw;
      var cua := c - u * a;
      if w == 0 then None
      else if cua % w != 0 then Some(0)
      else Some(a * 3 + cua / w)
  }

  /** `tokens2` is `tokens` on the moved prize. */
  lemma {:induction false} Tokens2Shift(m: Machine)
    ensures Tokens2(m) == Tokens(m.(prize := (m.prize.0 + Offset, m.prize.1 + Offset)))
  {
  }

  /** The sum over all machines; `None` when one of them panics. */
  function SumTokens(machines: seq<Machine>, part2: bool): Option<int> {
    if |machines| == 0 then Some(0)
    else
      var n := |machines| - 1;
      Add(SumTokens(machines[..n], part2), if part2 then Tokens2(machines[n]) else Tokens(machines[n]))
  }

  /** Adds one machine's tokens to the running sum; a panic in either ends
      the program. */
  function Add(total: Option<int>, x: Option<int>): (r: Option<int>)
    ensures r.Some? <==> total.Some? && x.Some?
    ensures r.Some? ==> r.value == total.value + x.value
  {
    match (total, x)
    case (Some(s), Some(v)) => Some(s + v)
    case _ => None
  }

  // ---------------------------------------------------------------------------
  // Negative presses
  // ---------------------------------------------------------------------------

  /** A machine whose only solution presses A minus once: A moves (2, 1),
      B moves (1, 2) and the prize is at (0, 3). */
  const Backwards := Machine((2, 1), (1, 2), (0, 3))

  /** `tokens` accepts it and reports a cost of -1. */
  lemma {:induction false} TokensNegative()
    ensures Solve(Backwards) == Press(-1, 2) && Tokens(Backwards) == Some(-1)
  {
  }

  /** The cost with press counts that cannot be negative: a solution with
      a negative count wins nothing. */
  function Cost(m: Machine): (r: Option<int>)
    ensures r.None? <==> Solve(m) == Panic
    ensures r.Some? ==> r.value >= 0
  {
    match Solve(m)
    case Panic => None
    case NoPrize => Some(0)
    case Press(a, b) => if a >= 0 && b >= 0 then Some(3 * a + b) else Some(0)
  }

  /** A positive cost pays for presses that win the prize, and every prize
      won with non-negative presses is paid for. */
  lemma {:induction false} CostSpec(m: Machine)
    requires Solve(m) != Panic
    ensures Cost(m).value > 0 ==> exists a: nat, b: nat :: Solves(m, a, b) && Cost(m).value == 3 * a + b
    ensures forall a: nat, b: nat :: Solves(m, a, b) ==> Cost(m) == Some(3 * a + b)
  {
    if Cost(m).value > 0 {
      SolveSound(m);
      var a: nat := Solve(m).a;
      var b: nat := Solve(m).b;
      assert Solves(m, a, b);
    }
    forall a: nat, b: nat | Solves(m, a, b) ensures Cost(m) == Some(3 * a + b) {
      SolveComplete(m, a, b);
    }
  }

  /** The sum of the corrected costs, moving the prizes in part 2. */
  function SumCost(machines: seq<Machine>, part2: bool): (r: Option<int>)
    ensures r.Some? ==> r.value >= 0
  {
    if |machines| == 0 then Some(0)
    else
      var n := |machines| - 1;
      Add(SumCost(machines[..n], part2), Cost(Moved(machines[n], part2)))
  }

  /** The machine whose prize a part plays for. */
  function Moved(m: Machine, part2: bool): Machine {
    if part2 then m.(prize := (m.prize.0 + Offset, m.prize.1 + Offset)) else m
  }

  /** The presses the machine's prize needs, if any, are not negative. */
  predicate NonNegative(m: Machine, part2: bool) {
    var s := Solve(Moved(m, part2));
    s.Press? ==> s.a >= 0 && s.b >= 0
  }

  lemma {:induction false} MachineAgrees(m: Machine, part2: bool)
    ensures var t := if part2 then Tokens2(m) else Tokens(m);
      (Cost(Moved(m, part2)).None? <==> t.None?)
      && (NonNegative(m, part2) ==> Cost(Moved(m, part2)) == t)
  {
    Tokens2Shift(m);
  }

  /** The corrected sum panics exactly where the source's does. */
  lemma {:induction false} SumCostPanics(machines: seq<Machine>, part2: bool)
    ensures SumCost(machines, part2).None? <==> SumTokens(machines, part2).None?
    decreases |machines|
  {
    if |machines| > 0 {
      var n := |machines| - 1;
      var m := machines[n];
      SumCostPanics(machines[..n], part2);
      MachineAgrees(m, part2);
      var c1, s1 := Cost(Moved(m, part2)), if part2 then Tokens2(m) else Tokens(m);
      assert SumCost(machines, part2) == Add(SumCost(machines[..n], part2), c1);
      assert SumTokens(machines, part2) == Add(SumTokens(machines[..n], part2), s1);
    }
  }

  /** With no machine needing negative presses, the corrected sum agrees
      with the source's. */
  lemma {:induction false} SumCostEqual(machines: seq<Machine>, part2: bool)
    requires forall k :: 0 <= k < |machines| ==> NonNegative(machines[k], part2)
    ensures SumCost(machines, part2) == SumTokens(machines, part2)
    decreases |machines|
  {
    if |machines| > 0 {
      var n := |machines| - 1;
      var m := machines[n];
      assert forall k :: 0 <= k < n ==> machines[..n][k] == machines[k];
      SumCostEqual(machines[..n], part2);
      assert NonNegative(m, part2);
      MachineAgrees(m, part2);
      var c1, s1 := Cost(Moved(m, part2)), if part2 then Tokens2(m) else Tokens(m);
      assert SumCost(machines, part2) == Add(SumCost(machines[..n], part2), c1);
      assert SumTokens(machines, part2) == Add(SumTokens(machines[..n], part2), s1);
    }
  }
}
