/** Day 14: robots move in straight lines on a `width × height` floor that
    wraps around at the edges. Part 1 counts the robots in each quadrant
    after 100 seconds and multiplies the counts; part 2 is the first second,
    from 100 on, that is 13 modulo 101 and 79 modulo 103, at which it walks
    the robots and draws them. */
module RestroomRobots {
  import opened Wrappers
  import opened Decimal

  datatype Robot = Robot(pos: (nat, nat), vel: (int, int))

  // ---------------------------------------------------------------------------
  // Arithmetic
  // ---------------------------------------------------------------------------

  /** Rust's `%` on signed integers: the remainder takes the dividend's
      sign. */
  function Rem(a: int, b: int): int
    requires b > 0
  {
    if a >= 0 then a % b else -((-a) % b)
  }

  /** `as u32` on a 32-bit signed value: a negative value wraps around. */
  function U32(x: int): nat {
    x % 0x1_0000_0000
  }

  /** `n % w` is `r` whenever `n = k·w + r` with `0 <= r < w`. */
  lemma {:induction false} DivModInt(n: int, w: int, k: int, r: int)
    requires w > 0 && 0 <= r < w && n == k * w + r
    ensures n / w == k && n % w == r
  {
    var q := n / w;
    var s := n % w;
    assert (q - k) * w == r - s;
    if q - k >= 1 {
      MulAtLeast(q - k, w);
    } else if q - k <= -1 {
      MulAtLeast(k - q, w);
    }
  }

  lemma {:induction false} MulAtLeast(d: int, w: int)
    requires d >= 1 && w > 0
    ensures d * w >= w
  {
    assert d * w == (d - 1) * w + w;
  }

  /** Adding a multiple of `w` does not change the remainder. */
  lemma {:induction false} ModShift(x: int, q: int, w: int)
    requires w > 0
    ensures (x + q * w) % w == x % w
  {
    DivModInt(x + q * w, w, x / w + q, x % w);
  }

  // ---------------------------------------------------------------------------
  // Walking
  // ---------------------------------------------------------------------------

  /** `walk`: the velocity is first made non-negative modulo the floor
      size, then the robot moves `steps` times; a floor of size 0 makes the
      `%` panic. */
  function Walk(r: Robot, width: nat, height: nat, steps: nat): Option<Robot> {
    if width == 0 || height == 0 then None
    else
      var vx := Rem(r.vel.0 + width, width);
      var vy := Rem(r.vel.1 + height, height);
      var px := U32(Rem(r.pos.0 + vx * steps, width));
      var py := U32(Rem(r.pos.1 + vy * steps, height));
      Some(r.(pos := (px, py)))
  }

  /** The robot starts on a floor whose sizes fit in `u32`, and no
      velocity is below minus the floor size, as in the puzzle input. */
  predicate Sane(r: Robot, width: nat, height: nat) {
    width <= 0x1_0000_0000 && height <= 0x1_0000_0000
    && r.pos.0 < width && r.pos.1 < height && r.vel.0 >= -(width as int) && r.vel.1 >= -(height as int)
  }

  /** One coordinate of `walk`: the true position modulo the floor size. */
  lemma {:induction false} WalkAxis(p: nat, v: int, w: nat, steps: nat)
    requires 0 < w <= 0x1_0000_0000 && p < w && v >= -(w as int)
    ensures var nv := Rem(v + w, w);
      0 <= nv < w && U32(Rem(p + nv * steps, w)) == (p + v * steps) % w
  {
    var nv := (v + w) % w;
    var k := (v + w) / w;
    assert Rem(v + w, w) == nv;
    assert nv * steps >= 0;
    var x := (p + nv * steps) % w;
    assert Rem(p + nv * steps, w) == x;
    assert U32(x) == x;
    assert p + nv * steps == (p + v * steps) + ((1 - k) * steps) * w by {
      assert nv == v + w - k * w;
      assert nv * steps == v * steps + ((1 - k) * steps) * w;
    }
    ModShift(p + v * steps, (1 - k) * steps, w);
  }

  /** Where a robot stands after `steps` steps on an endless plane, folded
      back onto the floor. */
  function Landing(r: Robot, width: nat, height: nat, steps: nat): (nat, nat)
    requires width > 0 && height > 0
  {
    ((r.pos.0 + r.vel.0 * steps) % width, (r.pos.1 + r.vel.1 * steps) % height)
  }

  /** A walk moves the robot `steps` times by its velocity, wrapping
      around the floor, and keeps it on the floor. */

  lemma {:induction false} WalkSpec(r: Robot, width: nat, height: nat, steps: nat)
    requires Sane(r, width, height)
    ensures var t := Walk(r, width, height, steps);
      t.Some? && t.value.vel == r.vel
      && t.value.pos == Landing(r, width, height, steps)
      && Sane(t.value, width, height)
  {
    WalkAxis(r.pos.0, r.vel.0, width, steps);
    WalkAxis(r.pos.1, r.vel.1, height, steps);
  }

  lemma {:induction false} ModCompose(p: int, v: int, w: int, n: nat, m: nat)
    requires w > 0
    ensures ((p + v * n) % w + v * m) % w == (p + v * (n + m)) % w
  {
    var x := p + v * n;
    assert x % w + v * m == (p + v * (n + m)) + (-(x / w)) * w by {
      assert x == (x / w) * w + x % w;
      assert v * (n + m) == v * n + v * m;
    }
    ModShift(p + v * (n + m), -(x / w), w);
  }

  /** Walking `n` steps and then `m` steps is walking `n + m` steps. */
  lemma {:induction false} WalkTwice(r: Robot, width: nat, height: nat, n: nat, m: nat)
    requires Sane(r, width, height)
    ensures Walk(r, width, height, n).Some?
    ensures Walk(Walk(r, width, height, n).value, width, height, m) == Walk(r, width, height, n + m)
  {
    var t := Walk(r, width, height, n).value;
    WalkSpec(r, width, height, n);
    WalkSpec(t, width, height, m);
    WalkSpec(r, width, height, n + m);
    ModCompose(r.pos.0, r.vel.0, width, n, m);
    ModCompose(r.pos.1, r.vel.1, height, n, m);
    assert Landing(t, width, height, m) == Landing(r, width, height, n + m);
  }

  // ---------------------------------------------------------------------------
  // Quadrants and the safety factor
  // ---------------------------------------------------------------------------

  /** `quadrant`: 0 on a centre line, then 1 top left, 2 top right,
      3 bottom left and 4 bottom right; a robot off the floor fails the
      assertion. */
  function Quadrant(x: nat, y: nat, width: nat, height: nat): (q: Option<nat>)
    ensures q.Some? <==> x < width && y < height
    ensures q.Some? ==> q.value <= 4
    ensures q.Some? ==> (q.value == 0 <==> x == width / 2 || y == height / 2)
  {
    if !(x < width && y < height) then None
    else
      var xc := width / 2;
      var yc := height / 2;
      if x == xc || y == yc then Some(0)
      else if x < xc && y < yc then Some(1)
      else if x > xc && y < yc then Some(2)
      else if x < xc then Some(3)
      else Some(4)
  }

  /** The quadrant on the other side of the vertical centre line. */
  function MirrorQuadrant(q: nat): nat {
    match q
    case 1 => 2
    case 2 => 1
    case 3 => 4
    case 4 => 3
    case _ => q
  }

  /** On a floor of odd width, mirroring a robot across the vertical
      centre line swaps left and right quadrants. */
  lemma {:induction false} QuadrantMirror(x: nat, y: nat, width: nat, height: nat)
    requires x < width && y < height && width % 2 == 1
    ensures Quadrant(width - 1 - x, y, width, height) == Some(MirrorQuadrant(Quadrant(x, y, width, height).value))
  {
  }

  /** The `quadrants` array after counting the robots of `qs`. */
  function Tally(qs: seq<nat>): (t: seq<nat>)
    requires forall i :: 0 <= i < |qs| ==> qs[i] <= 4
    ensures |t| == 5
  {
    if |qs| == 0 then [0, 0, 0, 0, 0]
    else
      var n := |qs| - 1;
      var t := Tally(qs[..n]);
      t[qs[n] := t[qs[n]] + 1]
  }

  /** Each entry counts the robots in its quadrant. */
  lemma {:induction false} TallyCounts(qs: seq<nat>)
    requires forall i :: 0 <= i < |qs| ==> qs[i] <= 4
    ensures forall k :: 0 <= k < 5 ==> Tally(qs)[k] == multiset(qs)[k]
    decreases |qs|
  {
    if |qs| > 0 {
      var n := |qs| - 1;
      TallyCounts(qs[..n]);
      assert qs == qs[..n] + [qs[n]];
    }
  }

  /** The product of the counts in quadrants 1 to 4. */
  function SafetyFactor(qs: seq<nat>): nat
    requires forall i :: 0 <= i < |qs| ==> qs[i] <= 4
  {
    var t := Tally(qs);
    t[1] * t[2] * t[3] * t[4]
  }

  lemma {:induction false} SafetyFactorSpec(qs: seq<nat>)
    requires forall i :: 0 <= i < |qs| ==> qs[i] <= 4
    ensures SafetyFactor(qs) == multiset(qs)[1] * multiset(qs)[2] * multiset(qs)[3] * multiset(qs)[4]
  {
    TallyCounts(qs);
  }

  /** The quadrant of every robot after `steps` steps, as part 1 computes
      them; `None` when a walk or a quadrant panics. */
  function Quadrants(robots: seq<Robot>, width: nat, height: nat, steps: nat): (r: Option<seq<nat>>)
    ensures r.Some? ==> |r.value| == |robots| && forall i :: 0 <= i < |r.value| ==> r.value[i] <= 4
  {
    if |robots| == 0 then Some([])
    else
      var n := |robots| - 1;
      match Quadrants(robots[..n], width, height, steps)
      case None => None
      case Some(qs) =>
        match Walk(robots[n], width, height, steps)
        case None => None
        case Some(t) =>
          match Quadrant(t.pos.0, t.pos.1, width, height)
          case None => None
          case Some(q) => Some(qs + [q])
  }

  /** Robots that start sane never make part 1 panic, and each lands in
      the quadrant of its wrapped-around position. */
  lemma {:induction false} QuadrantsSpec(robots: seq<Robot>, width: nat, height: nat, steps: nat)
    requires forall i :: 0 <= i < |robots| ==> Sane(robots[i], width, height)
    ensures Quadrants(robots, width, height, steps).Some?
    ensures forall i :: 0 <= i < |robots| ==>
      var r := robots[i];
      Quadrants(robots, width, height, steps).value[i]
        == Quadrant(Landing(r, width, height, steps).0, Landing(r, width, height, steps).1, width, height).value
    decreases |robots|
  {
    if |robots| > 0 {
      var n := |robots| - 1;
      QuadrantsSpec(robots[..n], width, height, steps);
      LandsIn(robots[n], width, height, steps);
      var qs := Quadrants(robots[..n], width, height, steps).value;
      var t := Walk(robots[n], width, height, steps).value;
      var q := Quadrant(t.pos.0, t.pos.1, width, height).value;
      assert Quadrants(robots, width, height, steps) == Some(qs + [q]);
      forall i | 0 <= i < n ensures robots[..n][i] == robots[i] {
      }
    }
  }

  lemma {:induction false} LandsIn(r: Robot, width: nat, height: nat, steps: nat)
    requires Sane(r, width, height)
    ensures var t := Walk(r, width, height, steps);
      t.Some? && Quadrant(t.value.pos.0, t.value.pos.1, width, height)
        == Quadrant(Landing(r, width, height, steps).0, Landing(r, width, height, steps).1, width, height)
      && Quadrant(t.value.pos.0, t.value.pos.1, width, height).Some?
  {
    WalkSpec(r, width, height, steps);
  }

  function Part1(robots: seq<Robot>, width: nat, height: nat): Option<nat> {
    match Quadrants(robots, width, height, 100)
    case None => None
    case Some(qs) => Some(SafetyFactor(qs))
  }

  // ---------------------------------------------------------------------------
  // Part 2
  // ---------------------------------------------------------------------------

  predicate EggTime(n: int) {
    n % 101 == 13 && n % 103 == 79
  }

  /** The search loop of part 2: the first `n` in `[100, 20000)` that is 13
      modulo 101 and 79 modulo 103, or 0 when there is none. */
  method ChristmasEgg() returns (egg: nat)
    ensures egg == 0 || (100 <= egg < 20000 && EggTime(egg))
    ensures forall m :: 100 <= m < 20000 && EggTime(m) ==> egg != 0 && egg <= m
  {
    egg := 0;
    var n := 100;
    while n < 20000
      invariant 100 <= n <= 20000
      invariant forall m :: 100 <= m < n ==> !EggTime(m)
    {
      if n % 101 == 13 && n % 103 == 79 {
        egg := n;
        return;
      }
      n := n + 1;
    }
  }

  /** Every time that is 13 modulo 101 and 79 modulo 103 is 7083 modulo
      `101 · 103`. */
  lemma {:induction false} EggResidue(m: int)
    requires EggTime(m)
    ensures m % 10403 == 7083
  {
    var d := m - 7083;
    var a := m / 101 - 70;
    var b := m / 103 - 68;
    assert d == 101 * a && d == 103 * b;
    // 101 · 51 - 103 · 50 = 1.
    assert d == 10403 * (51 * b - 50 * a) by {
      assert d == d * 5151 - d * 5150;
      assert d * 5151 == (103 * b) * (101 * 51);
      assert d * 5150 == (101 * a) * (103 * 50);
    }
    DivModInt(m, 10403, 51 * b - 50 * a + 0, 7083);
  }

  /** Every robot walked `steps` steps; `None` when the floor has size 0
      and some robot walks. */
  function WalkAll(robots: seq<Robot>, width: nat, height: nat, steps: nat): (r: Option<seq<Robot>>)
    ensures r.None? <==> |robots| > 0 && (width == 0 || height == 0)
    ensures r.Some? ==> |r.value| == |robots|
    ensures r.Some? ==> forall i :: 0 <= i < |robots| ==> Walk(robots[i], width, height, steps) == Some(r.value[i])
  {
    if |robots| > 0 && (width == 0 || height == 0) then None
    else Some(seq(|robots|, i requires 0 <= i < |robots| => Walk(robots[i], width, height, steps).value))
  }

  /** The robots as part 2 leaves them: `7083 - 1` steps, then one more. */
  function Part2Robots(robots: seq<Robot>, width: nat, height: nat): (r: Option<seq<Robot>>)
    ensures r.None? <==> |robots| > 0 && (width == 0 || height == 0)
    ensures r.Some? ==> |r.value| == |robots|
    ensures r.Some? && (forall i :: 0 <= i < |robots| ==> Sane(robots[i], width, height)) ==>
      forall i :: 0 <= i < |robots| ==>
        r.value[i].pos == Landing(robots[i], width, height, 7083) && Sane(r.value[i], width, height)
  {
    match WalkAll(robots, width, height, 7082)
    case None => None
    case Some(moved) =>
      var r := WalkAll(moved, width, height, 1);
      if r.Some? && forall i :: 0 <= i < |robots| ==> Sane(robots[i], width, height) then
        forall i | 0 <= i < |robots|
          ensures r.value[i].pos == Landing(robots[i], width, height, 7083) && Sane(r.value[i], width, height)
        {
          WalkTwice(robots[i], width, height, 7082, 1);
          WalkSpec(robots[i], width, height, 7083);
        }
        r
      else r
  }

  /** `print_robots`' own panics: a robot whose cell index `y·width + x`
      falls outside the `width × height` picture fails the assertion, and
      `chunks(0)` panics on a floor of width 0. */
  predicate Prints(robots: seq<Robot>, width: nat, height: nat) {
    width > 0 && forall i :: 0 <= i < |robots| ==> robots[i].pos.1 * width + robots[i].pos.0 < width * height
  }

  /** Part 2 runs to the end: the walks and the picture do not panic. */
  predicate Part2Answers(robots: seq<Robot>, width: nat, height: nat) {
    Part2Robots(robots, width, height).Some? && Prints(Part2Robots(robots, width, height).value, width, height)
  }

  /** `process_part2` on the parsed floor and robots: the egg time 7083,
      after walking every robot there and drawing the picture once; `None`
      where the walks or the drawing panic. The drawing itself is output
      only. */
  method Part2(robots: seq<Robot>, width: nat, height: nat) returns (r: Option<nat>)
    ensures r.Some? <==> Part2Answers(robots, width, height)
    ensures r.Some? ==> r.value == 7083
  {
    var egg := ChristmasEgg();
    assert EggTime(7083);
    assert egg != 0;
    EggResidue(egg);
    DivModInt(egg, 10403, 0, egg);
    var moved := WalkAll(robots, width, height, egg - 1);
    if moved.None? {
      return None;
    }
    var stepped := WalkAll(moved.value, width, height, 1);
    if stepped.None? || !Prints(stepped.value, width, height) {
      return None;
    }
    return Some(egg);
  }

  /** Part 2 panics on a floor of width 0, and on a floor of height 0 with
      a robot on it; robots that start sane on a non-empty floor always let
      it answer. */
  lemma {:induction false} Part2Panics(robots: seq<Robot>, width: nat, height: nat)
    ensures width == 0 ==> !Part2Answers(robots, width, height)
    ensures |robots| > 0 && height == 0 ==> !Part2Answers(robots, width, height)
    ensures width > 0 && height > 0 && (forall i :: 0 <= i < |robots| ==> Sane(robots[i], width, height)) ==>
      Part2Answers(robots, width, height)
  {
    if width > 0 && height > 0 && forall i :: 0 <= i < |robots| ==> Sane(robots[i], width, height) {
      var ts := Part2Robots(robots, width, height).value;
      forall i | 0 <= i < |ts| ensures ts[i].pos.1 * width + ts[i].pos.0 < width * height {
        CellBelow(ts[i].pos.0, ts[i].pos.1, width, height);
      }
    }
  }

  /** A cell of the floor has an index below the floor's size. */
  lemma {:induction false} CellBelow(x: nat, y: nat, width: nat, height: nat)
    requires x < width && y < height
    ensures y * width + x < width * height
  {
    var d := height - (y + 1);
    assert (y + 1) * width == y * width + width;
    assert height * width == (y + 1) * width + d * width;
    assert d * width >= 0;
  }

  // ---------------------------------------------------------------------------
  // parse_i32
  // ---------------------------------------------------------------------------

  predicate IsDigit(c: char) {
    '0' <= c <= '9'
  }

  /** How many digits start `s`: what `digit1` takes. */
  function DigitRun(s: seq<char>): (k: nat)
    ensures k <= |s| && forall i :: 0 <= i < k ==> IsDigit(s[i])
    ensures k < |s| ==> !IsDigit(s[k])
  {
    if |s| == 0 || !IsDigit(s[0]) then 0 else 1 + DigitRun(s[1..])
  }

  function DigitValue(c: char): (d: nat)
    requires IsDigit(c)
    ensures d < 10
  {
    c as int - '0' as int
  }

  /** The value of a run of decimal digits. */
  function Value(s: seq<char>): nat
    requires forall i :: 0 <= i < |s| ==> IsDigit(s[i])
  {
    if |s| == 0 then 0
    else
      var n := |s| - 1;
      10 * Value(s[..n]) + DigitValue(s[n])
  }

  /** `parse_i32`: an optional '-', then at least one digit; the value and
      the rest of the input. Overflow of `i32` is not modelled. */
  function ParseI32(s: seq<char>): (r: Option<(int, seq<char>)>)
    ensures r.Some? ==> |r.value.1| < |s|
  {
    var neg := |s| > 0 && s[0] == '-';
    var t := if neg then s[1..] else s;
    var k := DigitRun(t);
    if k == 0 then None
    else
      var v: int := Value(t[..k]);
      Some((if neg then -v else v, t[k..]))
  }

  /** The decimal text of a number without leading zeros. */
  function Text(n: nat): (s: seq<char>)
    ensures |s| >= 1 && forall i :: 0 <= i < |s| ==> IsDigit(s[i])
  {
    if n < 10 then ['0' + n as char]
    else Text(n / 10) + ['0' + (n % 10) as char]
  }

  /** How the input writes an `i32`. */
  function Show(n: int): seq<char> {
    if n < 0 then ['-'] + Text(-n) else Text(n)
  }

  lemma {:induction false} ValueText(n: nat)
    ensures Value(Text(n)) == n
    decreases n
  {
    if n >= 10 {
      var s := Text(n);
      ValueText(n / 10);
      assert s[..|s| - 1] == Text(n / 10);
    }
  }

  lemma {:induction false} DigitRunPrefix(a: seq<char>, rest: seq<char>)
    requires forall i :: 0 <= i < |a| ==> IsDigit(a[i])
    requires |rest| == 0 || !IsDigit(rest[0])
    ensures DigitRun(a + rest) == |a|
    decreases |a|
  {
    if |a| > 0 {
      assert (a + rest)[1..] == a[1..] + rest;
      DigitRunPrefix(a[1..], rest);
    }
  }

  /** Reading back a written number gives the number and the rest of the
      input, provided no digit follows it. */
  lemma {:induction false} ParseShow(n: int, rest: seq<char>)
    requires |rest| == 0 || !IsDigit(rest[0])
    ensures ParseI32(Show(n) + rest) == Some((n, rest))
  {
    if n < 0 {
      var text := Text(-n);
      assert Show(n) == ['-'] + text;
      ValueText(-n);
      ParseNegative(text, rest);
    } else {
      var text := Text(n);
      assert Show(n) == text;
      ValueText(n);
      ParseDigits(text, rest);
    }
  }

  lemma {:induction false} ParseDigits(text: seq<char>, rest: seq<char>)
    requires |text| >= 1 && forall i :: 0 <= i < |text| ==> IsDigit(text[i])
    requires |rest| == 0 || !IsDigit(rest[0])
    ensures ParseI32(text + rest) == Some((Value(text) as int, rest))
  {
    var t := text + rest;
    DigitRunPrefix(text, rest);
    assert t[0] == text[0];
    assert t[..|text|] == text && t[|text|..] == rest;
  }

  lemma {:induction false} ParseNegative(text: seq<char>, rest: seq<char>)
    requires |text| >= 1 && forall i :: 0 <= i < |text| ==> IsDigit(text[i])
    requires |rest| == 0 || !IsDigit(rest[0])
    ensures ParseI32(['-'] + text + rest) == Some((-(Value(text) as int), rest))
  {
    var t := text + rest;
    var s := ['-'] + text + rest;
    assert s[1..] == t;
    DigitRunPrefix(text, rest);
    assert t[..|text|] == text && t[|text|..] == rest;
  }
}
