/** Decimal digit counts and powers of ten, shared by the stone rules and
    the concatenation operator. */
module Decimal {

  function Pow10(k: nat): (r: nat)
    ensures r >= 1
  {
    if k == 0 then 1 else 10 * Pow10(k - 1)
  }

  /** `ilog10(n) + 1`: the number of decimal digits of a positive `n`. */
  function NumDigits(n: nat): (d: nat)
    requires n >= 1
    ensures d >= 1 && Pow10(d - 1) <= n < Pow10(d)
  {
    if n < 10 then 1 else 1 + NumDigits(n / 10)
  }

  /** Only the numbers from `10^(d-1)` below `10^d` have `d` digits. */
  lemma {:induction false} DigitsBetween(n: nat, d: nat)
    requires d >= 1 && Pow10(d - 1) <= n < Pow10(d)
    ensures NumDigits(n) == d
  {
    var e := NumDigits(n);
    if e < d { Pow10Mono(e, d - 1); }
    if e > d { Pow10Mono(d, e - 1); }
  }

  lemma {:induction false} Pow10Mono(a: nat, b: nat)
    requires a <= b
    ensures Pow10(a) <= Pow10(b)
    decreases b
  {
    if a < b { Pow10Mono(a, b - 1); }
  }

  lemma {:induction false} Pow10Add(a: nat, b: nat)
    ensures Pow10(a + b) == Pow10(a) * Pow10(b)
    decreases a
  {
    if a > 0 { Pow10Add(a - 1, b); }
  }

  /** The decimal digits of a positive number, most significant first. */
  function ToDigits(n: nat): (r: seq<nat>)
    requires n >= 1
    ensures |r| == NumDigits(n) && r[0] >= 1
    ensures forall i :: 0 <= i < |r| ==> r[i] < 10
  {
    if n < 10 then [n] else ToDigits(n / 10) + [n % 10]
  }

  lemma {:induction false} DivTen(q: nat, r: nat)
    requires r < 10
    ensures (10 * q + r) / 10 == q && (10 * q + r) % 10 == r
  {
  }

  lemma {:induction false} MulSucc(a: nat, b: nat)
    ensures a * (b + 1) == a * b + a
    ensures (a + 1) * b == a * b + b
  {
  }

  lemma {:induction false} DivMod(n: nat, p: nat)
    requires p >= 1
    ensures (n / p) * p + n % p == n && n % p < p
  {
  }

  lemma {:induction false} MulMono(a: nat, b: nat, p: nat)
    requires a <= b
    ensures a * p <= b * p
  {
  }

  lemma {:induction false} LeftHalf(n: nat, p: nat, lo: nat, hi: nat)
    requires p >= 1 && lo * p <= n < hi * p
    ensures lo <= n / p < hi
  {
    var q := n / p;
    DivMod(n, p);
    MulSucc(q, p);
    if q < lo {
      MulMono(q + 1, lo, p);
    }
    if q >= hi {
      MulMono(hi, q, p);
    }
  }

  /** Division recovers `a` and `b` from `a * p + b` when `b < p`. */
  lemma {:induction false} DivModUnique(a: nat, b: nat, p: nat)
    requires b < p
    ensures (a * p + b) / p == a && (a * p + b) % p == b
  {
    MulSucc(a, p);
    LeftHalf(a * p + b, p, a, a + 1);
    DivMod(a * p + b, p);
  }
}
