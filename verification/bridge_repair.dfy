/** Day 7: each equation has a test value and a list of numbers. An
    equation counts when some choice of operators, applied left to right
    between the numbers, gives the test value: `+` and `*` in part 1, and
    also digit concatenation `||` in part 2. */
module BridgeRepair {
  import opened Wrappers
  import opened Decimal

  /** An equation: `lhs: rhs[0] rhs[1] ...`. */
  datatype Equation = Equation(lhs: nat, rhs: seq<nat>)

  datatype Op = Add | Mul | Cat

  // ---------------------------------------------------------------------------
  // Concatenation
  // ---------------------------------------------------------------------------

  /** `concatenate`: the digits of `a` followed by those of `b`; `ilog10`
      panics on `b == 0`. */
  function Concatenate(a: nat, b: nat): (r: Option<nat>)
    ensures r.Some? <==> b != 0
  {
    if b == 0 then None else Some(a * Pow10(NumDigits(b)) + b)
  }

  /** Cutting the last `NumDigits(b)` digits off a concatenation gives
      back `a` and `b`. */
  lemma {:induction false} ConcatenateSplit(a: nat, b: nat)
    requires b != 0
    ensures var p := Pow10(NumDigits(b));
      Concatenate(a, b).value / p == a && Concatenate(a, b).value % p == b
  {
    DivModUnique(a, b, Pow10(NumDigits(b)));
  }

  /** Written out in decimal, a concatenation is the digits of `a`
      followed by the digits of `b`. */
  lemma {:induction false} ConcatenateDigits(a: nat, b: nat)
    requires a >= 1 && b >= 1
    ensures ToDigits(Concatenate(a, b).value) == ToDigits(a) + ToDigits(b)
    decreases b
  {
    var c := Concatenate(a, b).value;
    if b < 10 {
      DivTen(a, b);
      assert c == 10 * a + b;
    } else {
      var d := NumDigits(b);
      var p' := Pow10(d - 1);
      var q := a * p' + b / 10;
      assert d - 1 == NumDigits(b / 10);
      assert c == 10 * q + b % 10 by {
        assert a * Pow10(d) == 10 * (a * p');
      }
      DivTen(q, b % 10);
      ConcatenateDigits(a, b / 10);
      assert Concatenate(a, b / 10).value == q;
    }
  }

  lemma {:induction false} ConcatenateExample()
    ensures Concatenate(1234, 5678) == Some(12345678)
  {
    assert NumDigits(5678) == 4;
  }

  // ---------------------------------------------------------------------------
  // The searches
  // ---------------------------------------------------------------------------

  /** `evaluate`: tries `+` then `*` on the next number. */
  function Evaluate(target: nat, current: nat, tail: seq<nat>): bool
    decreases |tail|
  {
    if |tail| == 0 then target == current
    else
      var next := tail[0];
      Evaluate(target, current + next, tail[1..]) || Evaluate(target, current * next, tail[1..])
  }

  /** `evaluate2`: computes the concatenation before trying `+`, `*` and
      `||`, so a 0 reached in the tail panics (`None`). */
  function Evaluate2(target: nat, current: nat, tail: seq<nat>): Option<bool>
    decreases |tail|
  {
    if |tail| == 0 then Some(target == current)
    else
      var next := tail[0];
      match Concatenate(current, next)
      case None => None
      case Some(conc) =>
        match Evaluate2(target, current + next, tail[1..])
        case None => None
        case Some(true) => Some(true)
        case Some(false) =>
          match Evaluate2(target, current * next, tail[1..])
          case None => None
          case Some(true) => Some(true)
          case Some(false) => Evaluate2(target, conc, tail[1..])
  }

  /** `evaluate2` panics exactly when the tail holds a 0: the first branch
      always reaches every position. */
  lemma {:induction false} Evaluate2Panics(target: nat, current: nat, tail: seq<nat>)
    ensures Evaluate2(target, current, tail).None? <==> 0 in tail
    decreases |tail|
  {
    if |tail| > 0 {
      assert tail == [tail[0]] + tail[1..];
      Evaluate2Panics(target, current + tail[0], tail[1..]);
      if tail[0] != 0 && 0 !in tail[1..] {
        Evaluate2Panics(target, current * tail[0], tail[1..]);
        Evaluate2Panics(target, Concatenate(current, tail[0]).value, tail[1..]);
      }
    }
  }

  // ---------------------------------------------------------------------------
  // Operator choices
  // ---------------------------------------------------------------------------

  function Apply(op: Op, a: nat, b: nat): Option<nat> {
    match op
    case Add => Some(a + b)
    case Mul => Some(a * b)
    case Cat => Concatenate(a, b)
  }

  /** The value of the numbers combined left to right with `ops`. */
  function Fold(current: nat, ops: seq<Op>, tail: seq<nat>): Option<nat>
    requires |ops| == |tail|
    decreases |tail|
  {
    if |tail| == 0 then Some(current)
    else
      match Apply(ops[0], current, tail[0])
      case None => None
      case Some(v) => Fold(v, ops[1..], tail[1..])
  }

  predicate PlusTimes(ops: seq<Op>) {
    forall i :: 0 <= i < |ops| ==> ops[i] != Cat
  }

  /** Some choice of `+` and `*` reaches the target. */
  ghost predicate Solvable(target: nat, current: nat, tail: seq<nat>) {
    exists ops: seq<Op> :: |ops| == |tail| && PlusTimes(ops) && Fold(current, ops, tail) == Some(target)
  }

  /** Some choice of `+`, `*` and `||` reaches the target. */
  ghost predicate Solvable2(target: nat, current: nat, tail: seq<nat>) {
    exists ops: seq<Op> :: |ops| == |tail| && Fold(current, ops, tail) == Some(target)
  }

  /** `evaluate` succeeds exactly when some choice of `+` and `*` reaches
      the target. */
  lemma {:induction false} EvaluateSpec(target: nat, current: nat, tail: seq<nat>)
    ensures Evaluate(target, current, tail) <==> Solvable(target, current, tail)
    decreases |tail|
  {
    if |tail| == 0 {
      assert Fold(current, [], tail) == Some(current);
      assert PlusTimes([]);
    } else {
      var next := tail[0];
      EvaluateSpec(target, current + next, tail[1..]);
      EvaluateSpec(target, current * next, tail[1..]);
      if Evaluate(target, current, tail) {
        var op := if Evaluate(target, current + next, tail[1..]) then Add else Mul;
        var v := Apply(op, current, next).value;
        var ops' :| |ops'| == |tail| - 1 && PlusTimes(ops') && Fold(v, ops', tail[1..]) == Some(target);
        var ops := [op] + ops';
        assert ops[1..] == ops';
        assert Fold(current, ops, tail) == Some(target);
      }
      if Solvable(target, current, tail) {
        var ops :| |ops| == |tail| && PlusTimes(ops) && Fold(current, ops, tail) == Some(target);
        assert PlusTimes(ops[1..]);
      }
    }
  }

  /** A choice of all three operators reaches the target exactly when
      one reaches it after the first operator is applied. */
  lemma {:induction false} Solvable2Step(target: nat, current: nat, tail: seq<nat>)
    requires |tail| > 0 && tail[0] != 0
    ensures var next := tail[0];
      Solvable2(target, current, tail) <==>
        Solvable2(target, current + next, tail[1..]) || Solvable2(target, current * next, tail[1..])
        || Solvable2(target, Concatenate(current, next).value, tail[1..])
  {
    var next := tail[0];
    if Solvable2(target, current, tail) {
      var ops :| |ops| == |tail| && Fold(current, ops, tail) == Some(target);
      assert Fold(Apply(ops[0], current, next).value, ops[1..], tail[1..]) == Some(target);
    }
    forall op: Op | Solvable2(target, Apply(op, current, next).value, tail[1..])
      ensures Solvable2(target, current, tail)
    {
      var v := Apply(op, current, next).value;
      var ops' :| |ops'| == |tail| - 1 && Fold(v, ops', tail[1..]) == Some(target);
      var ops := [op] + ops';
      assert ops[1..] == ops';
      assert Fold(current, ops, tail) == Some(target);
    }
    assert Apply(Add, current, next).value == current + next;
    assert Apply(Mul, current, next).value == current * next;
    assert Apply(Cat, current, next).value == Concatenate(current, next).value;
  }

  /** `evaluate2`, when it does not panic, succeeds exactly when some
      choice of `+`, `*` and `||` reaches the target. */
  lemma {:induction false} Evaluate2Spec(target: nat, current: nat, tail: seq<nat>)
    requires 0 !in tail
    ensures Evaluate2(target, current, tail) == Some(Solvable2(target, current, tail))
    decreases |tail|
  {
    if |tail| == 0 {
      assert Fold(current, [], tail) == Some(current);
    } else {
      var next := tail[0];
      assert tail == [next] + tail[1..];
      Evaluate2Spec(target, current + next, tail[1..]);
      Evaluate2Spec(target, current * next, tail[1..]);
      Evaluate2Spec(target, Concatenate(current, next).value, tail[1..]);
      Solvable2Step(target, current, tail);
    }
  }

  /** Every `+`/`*` choice is also a choice for part 2. */
  lemma {:induction false} EvaluateImplies2(target: nat, current: nat, tail: seq<nat>)
    requires 0 !in tail && Evaluate(target, current, tail)
    ensures Evaluate2(target, current, tail) == Some(true)
  {
    EvaluateSpec(target, current, tail);
    Evaluate2Spec(target, current, tail);
  }

  // ---------------------------------------------------------------------------
  // The totals
  // ---------------------------------------------------------------------------

  /** The parser gives every equation at least one number on the right. */
  predicate WellFormed(equations: seq<Equation>) {
    forall e :: 0 <= e < |equations| ==> |equations[e].rhs| >= 1
  }

  function Calibrated(e: Equation): bool
    requires |e.rhs| >= 1
  {
    Evaluate(e.lhs, e.rhs[0], e.rhs[1..])
  }

  /** `process_part1`: the test values of the equations `+` and `*` can
      solve. */
  function Part1(equations: seq<Equation>): nat
    requires WellFormed(equations)
  {
    if |equations| == 0 then 0
    else
      var n := |equations| - 1;
      var e := equations[n];
      Part1(equations[..n]) + if Calibrated(e) then e.lhs else 0
  }

  /** `process_part2`: the same with concatenation; `None` when a number
      0 makes `evaluate2` panic. */
  function Part2(equations: seq<Equation>): Option<nat>
    requires WellFormed(equations)
  {
    if |equations| == 0 then Some(0)
    else
      var n := |equations| - 1;
      var e := equations[n];
      match (Part2(equations[..n]), Evaluate2(e.lhs, e.rhs[0], e.rhs[1..]))
      case (Some(total), Some(ok)) => Some(total + if ok then e.lhs else 0)
      case _ => None
  }

  /** Part 1 adds the test values of the equations some `+`/`*` choice
      solves, and part 2 panics exactly when a number after the first is
      0. */
  lemma {:induction false} PartsSpec(equations: seq<Equation>)
    requires WellFormed(equations)
    ensures Part2(equations).Some? <==> forall e :: 0 <= e < |equations| ==> 0 !in equations[e].rhs[1..]
    ensures Part2(equations).Some? ==> Part1(equations) <= Part2(equations).value
    decreases |equations|
  {
    if |equations| > 0 {
      var n := |equations| - 1;
      var e := equations[n];
      PartsSpec(equations[..n]);
      Evaluate2Panics(e.lhs, e.rhs[0], e.rhs[1..]);
      assert forall k :: 0 <= k < n ==> equations[..n][k] == equations[k];
      if 0 !in e.rhs[1..] && Calibrated(e) {
        EvaluateImplies2(e.lhs, e.rhs[0], e.rhs[1..]);
      }
    }
  }

  /** Part 1 in terms of the operator choices. */
  ghost function SolvableSum(equations: seq<Equation>): nat
    requires WellFormed(equations)
  {
    if |equations| == 0 then 0
    else
      var n := |equations| - 1;
      var e := equations[n];
      SolvableSum(equations[..n]) + if Solvable(e.lhs, e.rhs[0], e.rhs[1..]) then e.lhs else 0
  }

  lemma {:induction false} Part1Spec(equations: seq<Equation>)
    requires WellFormed(equations)
    ensures Part1(equations) == SolvableSum(equations)
    decreases |equations|
  {
    if |equations| > 0 {
      var n := |equations| - 1;
      var e := equations[n];
      Part1Spec(equations[..n]);
      EvaluateSpec(e.lhs, e.rhs[0], e.rhs[1..]);
    }
  }

  /** Part 2 in terms of the operator choices. */
  ghost function Solvable2Sum(equations: seq<Equation>): nat
    requires WellFormed(equations)
  {
    if |equations| == 0 then 0
    else
      var n := |equations| - 1;
      var e := equations[n];
      Solvable2Sum(equations[..n]) + if Solvable2(e.lhs, e.rhs[0], e.rhs[1..]) then e.lhs else 0
  }

  /** When part 2 does not panic, it adds the test values of exactly the
      equations some choice of `+`, `*` and `||` solves. */
  lemma {:induction false} Part2Spec(equations: seq<Equation>)
    requires WellFormed(equations)
    ensures Part2(equations).Some? ==> Part2(equations).value == Solvable2Sum(equations)
    decreases |equations|
  {
    if |equations| > 0 && Part2(equations).Some? {
      var n := |equations| - 1;
      var e := equations[n];
      Part2Spec(equations[..n]);
      Evaluate2Panics(e.lhs, e.rhs[0], e.rhs[1..]);
      Evaluate2Spec(e.lhs, e.rhs[0], e.rhs[1..]);
    }
  }
}
