/** Day 8: antennas on a map, each tuned to the frequency its character
    names. Two antennas of one frequency make antinodes: in part 1 the two
    points that are as far beyond either antenna as the antennas are apart,
    in part 2 every grid point on their line at a whole multiple of their
    offset. The answers count the distinct antinodes on the map. */
module Antennas {
  import opened Wrappers
  import opened TextLines

  /** A cell `(x, y)`: column `x` of line `y`. */
  type Point = (nat, nat)

  /** The positions of the antennas of each frequency. */
  type Frequencies = map<char, seq<Point>>

  /** Line `p.1` holds an antenna of frequency `c` at column `p.0`. */
  predicate HasAntenna(rows: seq<string>, p: Point, c: char) {
    c != '.' && p.1 < |rows| && p.0 < |rows[p.1]| && rows[p.1][p.0] == c
  }

  /** Reading order: by line, then by column. */
  predicate Before(p: Point, q: Point) {
    p.1 < q.1 || (p.1 == q.1 && p.0 < q.0)
  }

  predicate Increasing(s: seq<Point>) {
    forall i, j :: 0 <= i < j < |s| ==> Before(s[i], s[j])
  }

  // ---------------------------------------------------------------------------
  // parse_input
  // ---------------------------------------------------------------------------

  /** One cell of the scan: a character other than `.` joins the list of
      its frequency, which it starts when it is the first. */
  function AddCell(m: Frequencies, c: char, p: Point): Frequencies {
    if c == '.' then m
    else if c in m then m[c := m[c] + [p]]
    else m[c := [p]]
  }

  /** The scan of the first `n` characters of line `y`. */
  function AddRow(m: Frequencies, row: string, y: nat, n: nat): Frequencies
    requires n <= |row|
  {
    if n == 0 then m else AddCell(AddRow(m, row, y, n - 1), row[n - 1], (n - 1, y))
  }

  /** The scan of the first `k` lines. */
  function AddRows(rows: seq<string>, k: nat): Frequencies
    requires k <= |rows|
  {
    if k == 0 then map[] else AddRow(AddRows(rows, k - 1), rows[k - 1], k - 1, |rows[k - 1]|)
  }

  /** `parse_input`: every line of the input, every column of each line. */
  function ParseInput(input: string): Frequencies {
    var rows := Lines(input);
    AddRows(rows, |rows|)
  }

  /** `m` lists, for each frequency and in reading order, exactly the
      antennas of `rows` that come before the cell `at`. */
  ghost predicate Collected(m: Frequencies, rows: seq<string>, at: Point) {
    (forall c :: c in m ==> |m[c]| >= 1 && Increasing(m[c]))
    && (forall c, i :: c in m && 0 <= i < |m[c]| ==> HasAntenna(rows, m[c][i], c) && Before(m[c][i], at))
    && (forall c, p :: HasAntenna(rows, p, c) && Before(p, at) ==> c in m && p in m[c])
  }

  lemma {:induction false} AddCellCollects(m: Frequencies, rows: seq<string>, x: nat, y: nat)
    requires y < |rows| && x < |rows[y]| && Collected(m, rows, (x, y))
    ensures Collected(AddCell(m, rows[y][x], (x, y)), rows, (x + 1, y))
  {
    var c := rows[y][x];
    var m' := AddCell(m, c, (x, y));
    forall d, p | HasAntenna(rows, p, d) && Before(p, (x + 1, y))
      ensures d in m' && p in m'[d]
    {
      if p != (x, y) {
        assert Before(p, (x, y));
      }
    }
  }

  lemma {:induction false} AddRowCollects(m: Frequencies, rows: seq<string>, y: nat, n: nat)
    requires y < |rows| && n <= |rows[y]| && Collected(m, rows, (0, y))
    ensures Collected(AddRow(m, rows[y], y, n), rows, (n, y))
  {
    if n > 0 {
      AddRowCollects(m, rows, y, n - 1);
      AddCellCollects(AddRow(m, rows[y], y, n - 1), rows, n - 1, y);
    }
  }

  /** The end of a line is the start of the next: no antenna lies beyond
      the line's last character. */
  lemma {:induction false} RowEnd(m: Frequencies, rows: seq<string>, y: nat)
    requires y < |rows| && Collected(m, rows, (|rows[y]|, y))
    ensures Collected(m, rows, (0, y + 1))
  {
    forall c, p | HasAntenna(rows, p, c) && Before(p, (0, y + 1))
      ensures c in m && p in m[c]
    {
      assert Before(p, (|rows[y]|, y));
    }
  }

  lemma {:induction false} AddRowsCollects(rows: seq<string>, k: nat)
    requires k <= |rows|
    ensures Collected(AddRows(rows, k), rows, (0, k))
  {
    if k > 0 {
      AddRowsCollects(rows, k - 1);
      AddRowCollects(AddRows(rows, k - 1), rows, k - 1, |rows[k - 1]|);
      RowEnd(AddRow(AddRows(rows, k - 1), rows[k - 1], k - 1, |rows[k - 1]|), rows, k - 1);
    }
  }

  /** `parse_input` maps each frequency on the map to the positions of its
      antennas, in reading order, each once; and `.` is not a frequency. */
  lemma {:induction false} ParseSpec(input: string)
    ensures var m := ParseInput(input);
      && (forall c :: c in m ==> |m[c]| >= 1 && Increasing(m[c]))
      && (forall c, i :: c in m && 0 <= i < |m[c]| ==> HasAntenna(Lines(input), m[c][i], c))
      && (forall c, p :: HasAntenna(Lines(input), p, c) ==> c in m && p in m[c])
  {
    var rows := Lines(input);
    AddRowsCollects(rows, |rows|);
    var m := ParseInput(input);
    forall c, p | HasAntenna(rows, p, c)
      ensures c in m && p in m[c]
    {
      assert Before(p, (0, |rows|));
    }
  }

  /** An increasing list holds each position once. */
  lemma {:induction false} IncreasingDistinct(s: seq<Point>, i: int, j: int)
    requires Increasing(s) && 0 <= i < |s| && 0 <= j < |s| && i != j
    ensures s[i] != s[j]
  {
    if i < j { assert Before(s[i], s[j]); } else { assert Before(s[j], s[i]); }
  }

  // ---------------------------------------------------------------------------
  // Part 1: one antinode beyond each antenna of a pair
  // ---------------------------------------------------------------------------

  /** `checked_sub` on unsigned values. */
  function Sub(a: nat, b: nat): (r: Option<nat>)
    ensures r.Some? <==> b <= a
    ensures r.Some? ==> r.value + b == a
  {
    if b <= a then Some(a - b) else None
  }

  /** `abs_diff`. */
  function Diff(a: nat, b: nat): (r: nat)
    ensures r == a - b || r == b - a
  {
    if a < b then b - a else a - b
  }

  /** `q` is `a - (b - a)`: as far beyond `a` as `b` is on its other side. */
  predicate Mirror(a: Point, b: Point, q: Point) {
    q.0 + b.0 == 2 * a.0 && q.1 + b.1 == 2 * a.1
  }

  /** The pair `(a, b)` with the left antenna first. */
  function Leftmost(p: Point, r: Point): (ab: (Point, Point))
    ensures ab.0.0 <= ab.1.0
    ensures ab == (p, r) || ab == (r, p)
  {
    if p.0 > r.0 then (r, p) else (p, r)
  }

  /** The two candidate antinodes of a pair as part 1 computes them: the
      one left of the left antenna, and the one right of the right antenna,
      each absent when a coordinate would fall below zero. */
  function PairAntinodes(p: Point, r: Point): seq<Option<Point>> {
    var (a, b) := Leftmost(p, r);
    var dx := Diff(a.0, b.0);
    var dy := Diff(a.1, b.1);
    var left :=
      match Sub(a.0, dx)
      case None => None
      case Some(lx) =>
        if a.1 < b.1 then
          match Sub(a.1, dy)
          case None => None
          case Some(ly) => Some((lx, ly))
        else Some((lx, a.1 + dy));
    var rx := b.0 + dx;
    var right :=
      if a.1 < b.1 then Some((rx, b.1 + dy))
      else
        match Sub(b.1, dy)
        case None => None
        case Some(ry) => Some((rx, ry));
    [left, right]
  }

  /** The candidates of a pair are exactly the points mirroring one
      antenna in the other, whichever antenna comes first. */
  lemma {:induction false} PairAntinodesSpec(p: Point, r: Point, q: Point)
    ensures Some(q) in PairAntinodes(p, r) <==> Mirror(p, r, q) || Mirror(r, p, q)
  {
    var (a, b) := Leftmost(p, r);
    var s := PairAntinodes(p, r);
    assert s[0] == Some(q) ==> Mirror(a, b, q);
    assert s[1] == Some(q) ==> Mirror(b, a, q);
    if Mirror(a, b, q) {
      assert s[0] == Some(q);
    }
    if Mirror(b, a, q) {
      assert s[1] == Some(q);
    }
  }

  /** `flatten`: the values that are present. */
  function Flatten(os: seq<Option<Point>>): (r: set<Point>)
    ensures forall q :: q in r <==> Some(q) in os
  {
    if |os| == 0 then {}
    else
      assert os == [os[0]] + os[1..];
      (if os[0].Some? then {os[0].value} else {}) + Flatten(os[1..])
  }

  /** The antinodes of the pairs `(v[i], v[n])` for `i < k`. */
  function WithLast(v: seq<Point>, n: nat, k: nat): set<Point>
    requires k <= n < |v|
  {
    if k == 0 then {}
    else WithLast(v, n, k - 1) + Flatten(PairAntinodes(v[k - 1], v[n]))
  }

  /** The antinodes of all pairs among the first `n` antennas: the
      two-element combinations, each taken once. */
  function GroupAntinodes(v: seq<Point>, n: nat): set<Point>
    requires n <= |v|
  {
    if n == 0 then {} else GroupAntinodes(v, n - 1) + WithLast(v, n - 1, n - 1)
  }

  /** `q` mirrors one of `a` and `b` in the other. */
  predicate EitherMirror(a: Point, b: Point, q: Point) {
    Mirror(a, b, q) || Mirror(b, a, q)
  }

  lemma {:induction false} PairSet(p: Point, r: Point, q: Point)
    ensures q in Flatten(PairAntinodes(p, r)) <==> EitherMirror(p, r, q)
  {
    PairAntinodesSpec(p, r, q);
  }

  lemma {:induction false} WithLastSpec(v: seq<Point>, n: nat, k: nat, q: Point)
    requires k <= n < |v|
    ensures q in WithLast(v, n, k) <==> exists i :: 0 <= i < k && EitherMirror(v[i], v[n], q)
  {
    if k > 0 {
      WithLastSpec(v, n, k - 1, q);
      PairSet(v[k - 1], v[n], q);
      assert WithLast(v, n, k) == WithLast(v, n, k - 1) + Flatten(PairAntinodes(v[k - 1], v[n]));
      if q in WithLast(v, n, k - 1) {
        var i :| 0 <= i < k - 1 && EitherMirror(v[i], v[n], q);
        assert 0 <= i < k && EitherMirror(v[i], v[n], q);
      } else if EitherMirror(v[k - 1], v[n], q) {
        assert 0 <= k - 1 < k;
      } else {
        forall i | 0 <= i < k
          ensures !EitherMirror(v[i], v[n], q)
        {
          if i < k - 1 {
            assert 0 <= i < k - 1;
          }
        }
      }
    }
  }

  /** A point is an antinode of the group exactly when it mirrors one of
      its antennas in another. */
  lemma {:induction false} GroupAntinodesSpec(v: seq<Point>, n: nat, q: Point)
    requires n <= |v|
    ensures q in GroupAntinodes(v, n) <==>
      exists i, j :: 0 <= i < n && 0 <= j < n && i != j && Mirror(v[i], v[j], q)
  {
    if q in GroupAntinodes(v, n) {
      GroupSound(v, n, q);
    }
    if exists i, j :: 0 <= i < n && 0 <= j < n && i != j && Mirror(v[i], v[j], q) {
      GroupComplete(v, n, q);
    }
  }

  lemma {:induction false} GroupSound(v: seq<Point>, n: nat, q: Point)
    requires n <= |v| && q in GroupAntinodes(v, n)
    ensures exists i, j :: 0 <= i < n && 0 <= j < n && i != j && Mirror(v[i], v[j], q)
  {
    var m := n - 1;
    if q in GroupAntinodes(v, m) {
      GroupSound(v, m, q);
      var i, j :| 0 <= i < m && 0 <= j < m && i != j && Mirror(v[i], v[j], q);
      assert 0 <= i < n && 0 <= j < n;
    } else {
      WithLastSpec(v, m, m, q);
      var i :| 0 <= i < m && EitherMirror(v[i], v[m], q);
      if Mirror(v[i], v[m], q) {
        assert 0 <= i < n && 0 <= m < n && i != m && Mirror(v[i], v[m], q);
      } else {
        assert 0 <= m < n && 0 <= i < n && m != i && Mirror(v[m], v[i], q);
      }
    }
  }

  lemma {:induction false} GroupComplete(v: seq<Point>, n: nat, q: Point)
    requires n <= |v|
    requires exists i, j :: 0 <= i < n && 0 <= j < n && i != j && Mirror(v[i], v[j], q)
    ensures q in GroupAntinodes(v, n)
  {
    var m := n - 1;
    var i, j :| 0 <= i < n && 0 <= j < n && i != j && Mirror(v[i], v[j], q);
    if i < m && j < m {
      GroupComplete(v, m, q);
    } else {
      WithLastSpec(v, m, m, q);
      if i == m {
        assert EitherMirror(v[j], v[m], q);
      } else {
        assert EitherMirror(v[i], v[m], q);
      }
    }
  }

  /** The antinodes of every frequency, before the map bounds apply. */
  function AllAntinodes(m: Frequencies): set<Point> {
    set c, q | c in m && q in GroupAntinodes(m[c], |m[c]|) :: q
  }

  /** A part-1 antinode of the map: as far beyond one antenna as another
      antenna of its frequency is on the other side. */
  ghost predicate Antinode(rows: seq<string>, q: Point) {
    exists a, b, c :: HasAntenna(rows, a, c) && HasAntenna(rows, b, c) && a != b && Mirror(a, b, q)
  }

  lemma {:induction false} AllAntinodesSpec(input: string, q: Point)
    ensures q in AllAntinodes(ParseInput(input)) <==> Antinode(Lines(input), q)
  {
    var rows := Lines(input);
    var m := ParseInput(input);
    ParseSpec(input);
    if q in AllAntinodes(m) {
      var c :| c in m && q in GroupAntinodes(m[c], |m[c]|);
      GroupAntinodesSpec(m[c], |m[c]|, q);
      var i, j :| 0 <= i < |m[c]| && 0 <= j < |m[c]| && i != j && Mirror(m[c][i], m[c][j], q);
      IncreasingDistinct(m[c], i, j);
      assert HasAntenna(rows, m[c][i], c) && HasAntenna(rows, m[c][j], c);
    }
    if Antinode(rows, q) {
      var a, b, c :| HasAntenna(rows, a, c) && HasAntenna(rows, b, c) && a != b && Mirror(a, b, q);
      var i :| 0 <= i < |m[c]| && m[c][i] == a;
      var j :| 0 <= j < |m[c]| && m[c][j] == b;
      GroupAntinodesSpec(m[c], |m[c]|, q);
    }
  }

  /** `q` lies on a `width` by `height` map. */
  predicate OnMap(q: Point, width: nat, height: nat) {
    q.0 < width && q.1 < height
  }

  /** The cells of a `width` by `height` map. */
  ghost function Grid(width: nat, height: nat): set<Point> {
    set x: nat, y: nat | x < width && y < height :: (x, y)
  }

  /** `process_part1`: the width is the first line's, the height the number
      of lines; `None` when there is no first line. */
  function Part1(input: string): Option<nat> {
    var rows := Lines(input);
    if |rows| == 0 then None
    else
      var width := |rows[0]|;
      var height := |rows|;
      Some(|set q | q in AllAntinodes(ParseInput(input)) && q.0 < width && q.1 < height|)
  }

  /** Part 1 counts the antinodes that lie on the map, each once. */
  lemma {:induction false} Part1Spec(input: string)
    ensures Part1(input).None? <==> |input| == 0
    ensures Part1(input).Some? ==>
      var rows := Lines(input);
      Part1(input).value == |set q | q in Grid(|rows[0]|, |rows|) && Antinode(rows, q)|
  {
    var rows := Lines(input);
    if |rows| > 0 {
      var width := |rows[0]|;
      var height := |rows|;
      var found := set q | q in AllAntinodes(ParseInput(input)) && q.0 < width && q.1 < height;
      var spec := set q | q in Grid(width, height) && Antinode(rows, q);
      forall q: Point
        ensures q in found <==> q in spec
      {
        AllAntinodesSpec(input, q);
        if q.0 < width && q.1 < height {
          assert q == (q.0, q.1);
          assert q in Grid(width, height);
        }
      }
      assert found == spec;
    }
  }

  // ---------------------------------------------------------------------------
  // Part 2: every point of the pair's line
  // ---------------------------------------------------------------------------

  /** `(start..).step_by(step).take_while(|v| v < limit)`. */
  function Upward(start: nat, step: nat, limit: nat): (r: seq<nat>)
    requires step > 0
    ensures forall k :: 0 <= k < |r| ==> r[k] == start + k * step
    decreases limit - start
  {
    if start < limit then [start] + Upward(start + step, step, limit) else []
  }

  /** The walk up reaches exactly the steps that stay below the limit. */
  lemma {:induction false} UpwardLength(start: nat, step: nat, limit: nat, k: nat)
    requires step > 0
    ensures k < |Upward(start, step, limit)| <==> start + k * step < limit
    decreases limit - start
  {
    if start < limit && k > 0 {
      UpwardLength(start + step, step, limit, k - 1);
      assert start + step + (k - 1) * step == start + k * step;
    }
  }

  /** `(0..).map_while(|m| start.checked_sub(m * step))`. */
  function Downward(start: nat, step: nat): (r: seq<nat>)
    requires step > 0
    ensures forall k :: 0 <= k < |r| ==> r[k] + k * step == start
    decreases start
  {
    [start] + (if step <= start then Downward(start - step, step) else [])
  }

  /** The walk down reaches exactly the steps that stay at or above zero. */
  lemma {:induction false} DownwardLength(start: nat, step: nat, k: nat)
    requires step > 0
    ensures k < |Downward(start, step)| <==> k * step <= start
    decreases start
  {
    if k > 0 {
      if step <= start {
        DownwardLength(start - step, step, k - 1);
        assert (k - 1) * step + step == k * step;
      } else {
        assert k * step >= step;
      }
    }
  }

  /** `zip`: pairs up the two walks, as long as the shorter one. */
  function Zip(xs: seq<nat>, ys: seq<nat>): (r: seq<Point>)
    ensures |r| == if |xs| < |ys| then |xs| else |ys|
    ensures forall k :: 0 <= k < |r| ==> r[k] == (xs[k], ys[k])
  {
    if |xs| == 0 || |ys| == 0 then []
    else [(xs[0], ys[0])] + Zip(xs[1..], ys[1..])
  }

  /** `map(|x| (x, y))`. */
  function OnRow(xs: seq<nat>, y: nat): (r: seq<Point>)
    ensures |r| == |xs| && forall k :: 0 <= k < |r| ==> r[k] == (xs[k], y)
  {
    seq(|xs|, k requires 0 <= k < |xs| => (xs[k], y))
  }

  /** `map(|y| (x, y))`. */
  function OnColumn(x: nat, ys: seq<nat>): (r: seq<Point>)
    ensures |r| == |ys| && forall k :: 0 <= k < |r| ==> r[k] == (x, ys[k])
  {
    seq(|ys|, k requires 0 <= k < |ys| => (x, ys[k]))
  }

  /** The points a pair's line walk visits, for the left antenna `a` and
      the right antenna `b`. With `vertical` a pair in one column walks its
      column as the `dx == 0` branch describes; without it the pair panics
      where `x_a % dx` divides by zero, which comes first in the source. A
      pair in one cell panics either way, in `step_by(0)`. */
  function Walk(a: Point, b: Point, width: nat, height: nat, vertical: bool): (r: Option<seq<Point>>)
    requires a.0 <= b.0
    ensures r.None? <==> a.0 == b.0 && (!vertical || a.1 == b.1)
  {
    var dx := Diff(a.0, b.0);
    var dy := Diff(a.1, b.1);
    if dx == 0 then
      if !vertical || dy == 0 then None
      else
        var startY := (if a.1 < b.1 then a.1 else b.1) % dy;
        Some(OnColumn(a.0, Upward(startY, dy, height)))
    else if a.1 < b.1 then
      Some(Zip(Upward(b.0, dx, width), Upward(b.1, dy, height))
           + Zip(Downward(a.0, dx), Downward(a.1, dy)))
    else if a.1 == b.1 then
      Some(OnRow(Upward(a.0 % dx, dx, width), a.1))
    else
      Some(Zip(Upward(b.0, dx, width), Downward(b.1, dy))
           + Zip(Downward(a.0, dx), Upward(a.1, dy, height)))
  }

  /** The walk of one combination, its left antenna first. */
  function PairLine(p: Point, r: Point, width: nat, height: nat, vertical: bool): Option<seq<Point>> {
    var (a, b) := Leftmost(p, r);
    Walk(a, b, width, height, vertical)
  }

  /** `t` strides of `d` from `s`. */
  function Offset(s: int, d: int, t: int): int {
    s + t * d
  }

  /** The point `t` offsets along the line from `a` through `b`. */
  function Along(a: Point, b: Point, t: int): (int, int) {
    (Offset(a.0, b.0 - a.0, t), Offset(a.1, b.1 - a.1, t))
  }

  /** `q` is a whole multiple of the pair's offset away from `a`. */
  ghost predicate OnLine(a: Point, b: Point, q: Point) {
    exists t: int :: Along(a, b, t) == (q.0 as int, q.1 as int)
  }

  /** One coordinate of a walk: up from `start` or, when `up` is false,
      down from it. */
  function Walk1(start: nat, step: nat, up: bool, limit: nat): seq<nat>
    requires step > 0
  {
    if up then Upward(start, step, limit) else Downward(start, step)
  }

  /** The `k`-th value of that walk, whether or not the walk reaches it. */
  function Stride(start: nat, step: nat, up: bool, k: nat): int {
    if up then start + k * step else start - k * step
  }

  /** A walk that starts on the map stops at the first value off it. */
  lemma {:induction false} Walk1Spec(start: nat, step: nat, up: bool, limit: nat, k: nat)
    requires step > 0 && start < limit
    ensures k < |Walk1(start, step, up, limit)| <==> 0 <= Stride(start, step, up, k) < limit
    ensures k < |Walk1(start, step, up, limit)| ==> Walk1(start, step, up, limit)[k] == Stride(start, step, up, k)
  {
    if up {
      UpwardLength(start, step, limit, k);
    } else {
      DownwardLength(start, step, k);
    }
  }

  /** Zipping two walks from `s` visits the points `k` strides away for
      every `k` that keeps both coordinates on the map. */
  lemma {:induction false} RaySpec(s: Point, dx: nat, dy: nat, upx: bool, upy: bool, width: nat, height: nat, q: Point)
    requires dx > 0 && dy > 0 && s.0 < width && s.1 < height
    ensures q in Zip(Walk1(s.0, dx, upx, width), Walk1(s.1, dy, upy, height)) <==>
      OnMap(q, width, height) && exists k: nat :: Stride(s.0, dx, upx, k) == q.0 && Stride(s.1, dy, upy, k) == q.1
  {
    var xs := Walk1(s.0, dx, upx, width);
    var ys := Walk1(s.1, dy, upy, height);
    var z := Zip(xs, ys);
    if q in z {
      var k :| 0 <= k < |z| && z[k] == q;
      Walk1Spec(s.0, dx, upx, width, k);
      Walk1Spec(s.1, dy, upy, height, k);
    }
    if OnMap(q, width, height) && exists k: nat :: Stride(s.0, dx, upx, k) == q.0 && Stride(s.1, dy, upy, k) == q.1 {
      var k: nat :| Stride(s.0, dx, upx, k) == q.0 && Stride(s.1, dy, upy, k) == q.1;
      Walk1Spec(s.0, dx, upx, width, k);
      Walk1Spec(s.1, dy, upy, height, k);
      assert z[k] == q;
    }
  }

  /** `k` strides from `b` away from `a` is `k + 1` offsets along the line. */
  lemma {:induction false} BeyondB(a: Point, b: Point, k: nat)
    requires a.0 < b.0 && a.1 != b.1
    ensures Along(a, b, k + 1) == (Stride(b.0, b.0 - a.0, true, k), Stride(b.1, Diff(a.1, b.1), a.1 < b.1, k))
  {
    var dx, dy := b.0 - a.0, Diff(a.1, b.1);
    assert (k + 1) * dx == k * dx + dx;
    if a.1 < b.1 {
      assert (k + 1) * dy == k * dy + dy;
    } else {
      assert (k + 1) * (b.1 - a.1) == -(k * dy) - dy;
    }
  }

  /** `k` strides from `a` away from `b` is `-k` offsets along the line. */
  lemma {:induction false} BeyondA(a: Point, b: Point, k: nat)
    requires a.0 < b.0 && a.1 != b.1
    ensures Along(a, b, 0 - k) == (Stride(a.0, b.0 - a.0, false, k), Stride(a.1, Diff(a.1, b.1), !(a.1 < b.1), k))
  {
    var dx, dy := b.0 - a.0, Diff(a.1, b.1);
    assert (0 - k) * dx == -(k * dx);
    if a.1 < b.1 {
      assert (0 - k) * dy == -(k * dy);
    } else {
      assert (0 - k) * (b.1 - a.1) == k * dy;
    }
  }

  /** The line through `a` and `b`, for `b` right of `a` and on another
      line, is the ray from `b` away from `a` and the ray from `a` away
      from `b`. */
  lemma {:induction false} LineRays(a: Point, b: Point, q: Point)
    requires a.0 < b.0 && a.1 != b.1
    ensures var dx, dy, up := b.0 - a.0, Diff(a.1, b.1), a.1 < b.1;
      OnLine(a, b, q) <==>
        (exists k: nat :: Stride(b.0, dx, true, k) == q.0 && Stride(b.1, dy, up, k) == q.1)
        || (exists k: nat :: Stride(a.0, dx, false, k) == q.0 && Stride(a.1, dy, !up, k) == q.1)
  {
    var dx, dy, up := b.0 - a.0, Diff(a.1, b.1), a.1 < b.1;
    if OnLine(a, b, q) {
      var t :| Along(a, b, t) == (q.0 as int, q.1 as int);
      if t >= 1 {
        BeyondB(a, b, t - 1);
      } else {
        BeyondA(a, b, -t);
      }
    }
    if exists k: nat :: Stride(b.0, dx, true, k) == q.0 && Stride(b.1, dy, up, k) == q.1 {
      var k: nat :| Stride(b.0, dx, true, k) == q.0 && Stride(b.1, dy, up, k) == q.1;
      BeyondB(a, b, k);
    }
    if exists k: nat :: Stride(a.0, dx, false, k) == q.0 && Stride(a.1, dy, !up, k) == q.1 {
      var k: nat :| Stride(a.0, dx, false, k) == q.0 && Stride(a.1, dy, !up, k) == q.1;
      BeyondA(a, b, k);
    }
  }

  lemma {:induction false} Distribute(x: int, y: int, d: int)
    ensures (x - y) * d == x * d - y * d && (x + y) * d == x * d + y * d
  {
  }

  /** A negative number of strides lands below any remainder. */
  lemma {:induction false} BelowRemainder(k: int, d: nat, r: nat)
    requires r < d && k < 0
    ensures r + k * d < 0
  {
    Distribute(k + 1, 1, d);
    assert (k + 1) * d <= 0;
  }

  /** Walking up from the remainder `r` of `s` visits exactly the values
      below the limit that are whole strides of `d` away from `s`. */
  lemma {:induction false} ResidueWalk(s: nat, d: nat, r: nat, base: int, limit: nat, v: nat)
    requires r < d && s == base * d + r
    ensures v in Upward(r, d, limit) <==> v < limit && exists t: int :: Offset(s, d, t) == v
  {
    var u := Upward(r, d, limit);
    if v in u {
      var k :| 0 <= k < |u| && u[k] == v;
      UpwardLength(r, d, limit, k);
      Distribute(k, base, d);
      assert Offset(s, d, k - base) == v;
    }
    if v < limit && exists t: int :: Offset(s, d, t) == v {
      var t :| Offset(s, d, t) == v;
      var k := t + base;
      Distribute(t, base, d);
      assert v == r + k * d;
      if k < 0 {
        BelowRemainder(k, d, r);
      }
      UpwardLength(r, d, limit, k);
      assert u[k] == v;
    }
  }

  /** The walk from `s % d`, as the same-line and same-column branches
      start it. */
  lemma {:induction false} ResidueSpec(s: nat, d: nat, limit: nat, v: nat)
    requires d > 0
    ensures v in Upward(s % d, d, limit) <==> v < limit && exists t: int :: Offset(s, d, t) == v
  {
    ResidueWalk(s, d, s % d, s / d, limit, v);
  }

  /** The walk of a pair on different lines and columns. */
  lemma {:induction false} WalkCrossSpec(a: Point, b: Point, width: nat, height: nat, vertical: bool, q: Point)
    requires a.0 < b.0 && a.1 != b.1 && OnMap(a, width, height) && OnMap(b, width, height)
    ensures q in Walk(a, b, width, height, vertical).value <==> OnMap(q, width, height) && OnLine(a, b, q)
  {
    var dx, dy, up := b.0 - a.0, Diff(a.1, b.1), a.1 < b.1;
    var fromB := Zip(Walk1(b.0, dx, true, width), Walk1(b.1, dy, up, height));
    var fromA := Zip(Walk1(a.0, dx, false, width), Walk1(a.1, dy, !up, height));
    assert Walk(a, b, width, height, vertical).value == fromB + fromA;
    RaySpec(b, dx, dy, true, up, width, height, q);
    RaySpec(a, dx, dy, false, !up, width, height, q);
    LineRays(a, b, q);
  }

  /** The walk of a pair on one line: the whole line at the pair's
      spacing. */
  lemma {:induction false} WalkRowSpec(a: Point, b: Point, width: nat, height: nat, vertical: bool, q: Point)
    requires a.0 < b.0 && a.1 == b.1 && OnMap(a, width, height) && OnMap(b, width, height)
    ensures q in Walk(a, b, width, height, vertical).value <==> OnMap(q, width, height) && OnLine(a, b, q)
  {
    var dx := b.0 - a.0;
    var xs := Upward(a.0 % dx, dx, width);
    assert Walk(a, b, width, height, vertical).value == OnRow(xs, a.1);
    ResidueSpec(a.0, dx, width, q.0);
    RowHas(xs, a.1, q);
    if q.1 == a.1 && exists t: int :: Offset(a.0, dx, t) == q.0 {
      var t :| Offset(a.0, dx, t) == q.0;
      Still(a.1, t);
      assert Along(a, b, t) == (q.0 as int, q.1 as int);
    }
    if OnLine(a, b, q) {
      var t :| Along(a, b, t) == (q.0 as int, q.1 as int);
      Still(a.1, t);
    }
  }

  /** Counting strides from the other end of a segment. */
  lemma {:induction false} Flip(s: int, e: int, t: int)
    ensures Offset(e, s - e, 1 - t) == Offset(s, e - s, t)
  {
    Distribute(1, t, s - e);
    assert t * (s - e) == -(t * (e - s));
  }

  /** Whole strides of `b - a` from `a` are whole strides of their
      distance from the lower of the two. */
  lemma {:induction false} ColumnResidue(a: nat, b: nat, step: int, low: nat, d: nat, v: int)
    requires a != b && step == b - a && low == (if a < b then a else b) && d == Diff(a, b)
    ensures (exists t: int :: Offset(a, step, t) == v) <==> (exists t: int :: Offset(low, d, t) == v)
  {
    if a > b {
      if exists t: int :: Offset(a, step, t) == v {
        var t :| Offset(a, step, t) == v;
        Flip(a, b, t);
        assert Offset(low, d, 1 - t) == v;
      }
      if exists t: int :: Offset(low, d, t) == v {
        var t :| Offset(low, d, t) == v;
        Flip(b, a, t);
        assert Offset(a, step, 1 - t) == v;
      }
    }
  }

  /** The walk of a pair in one column, where the column branch runs: the
      whole column at the pair's spacing. */
  lemma {:induction false} WalkColumnSpec(a: Point, b: Point, width: nat, height: nat, q: Point)
    requires a.0 == b.0 && a.1 != b.1 && OnMap(a, width, height) && OnMap(b, width, height)
    ensures q in Walk(a, b, width, height, true).value <==> OnMap(q, width, height) && OnLine(a, b, q)
  {
    var dy := Diff(a.1, b.1);
    var low := if a.1 < b.1 then a.1 else b.1;
    var ys := Upward(low % dy, dy, height);
    assert Walk(a, b, width, height, true).value == OnColumn(a.0, ys);
    ResidueSpec(low, dy, height, q.1);
    ColumnResidue(a.1, b.1, b.1 - a.1, low, dy, q.1);
    ColumnHas(a.0, ys, q);
    var step := b.1 - a.1;
    if q.0 == a.0 && exists t: int :: Offset(a.1, step, t) == q.1 {
      var t :| Offset(a.1, step, t) == q.1;
      Still(a.0, t);
      assert Along(a, b, t) == (q.0 as int, q.1 as int);
    }
    if OnLine(a, b, q) {
      var t :| Along(a, b, t) == (q.0 as int, q.1 as int);
      Still(a.0, t);
    }
  }

  /** No stride at all stays put. */
  lemma {:induction false} Still(s: int, t: int)
    ensures Offset(s, 0, t) == s
  {
  }

  lemma {:induction false} ColumnHas(x: nat, ys: seq<nat>, q: Point)
    ensures q in OnColumn(x, ys) <==> q.0 == x && q.1 in ys
  {
    if q.0 == x && q.1 in ys {
      var k :| 0 <= k < |ys| && ys[k] == q.1;
      assert OnColumn(x, ys)[k] == q;
    }
  }

  lemma {:induction false} RowHas(xs: seq<nat>, y: nat, q: Point)
    ensures q in OnRow(xs, y) <==> q.0 in xs && q.1 == y
  {
    if q.0 in xs && q.1 == y {
      var k :| 0 <= k < |xs| && xs[k] == q.0;
      assert OnRow(xs, y)[k] == q;
    }
  }

  /** A pair's walk, where it does not panic, visits exactly the points of
      the map on the pair's line. */
  lemma {:induction false} WalkSpec(a: Point, b: Point, width: nat, height: nat, vertical: bool, q: Point)
    requires a.0 <= b.0 && a != b && OnMap(a, width, height) && OnMap(b, width, height)
    requires a.0 < b.0 || vertical
    ensures q in Walk(a, b, width, height, vertical).value <==> OnMap(q, width, height) && OnLine(a, b, q)
  {
    if a.0 == b.0 {
      WalkColumnSpec(a, b, width, height, q);
    } else if a.1 == b.1 {
      WalkRowSpec(a, b, width, height, vertical, q);
    } else {
      WalkCrossSpec(a, b, width, height, vertical, q);
    }
  }

  /** The line through `a` and `b` is the line through `b` and `a`. */
  lemma {:induction false} OnLineSymmetric(a: Point, b: Point, q: Point)
    ensures OnLine(a, b, q) <==> OnLine(b, a, q)
  {
    if OnLine(a, b, q) {
      var t :| Along(a, b, t) == (q.0 as int, q.1 as int);
      Flip(a.0, b.0, t);
      Flip(a.1, b.1, t);
      assert Along(b, a, 1 - t) == Along(a, b, t);
    }
    if OnLine(b, a, q) {
      var t :| Along(b, a, t) == (q.0 as int, q.1 as int);
      Flip(b.0, a.0, t);
      Flip(b.1, a.1, t);
      assert Along(a, b, 1 - t) == Along(b, a, t);
    }
  }

  /** The walk of one combination of two antennas of the map panics just
      when they share a column and the column branch is not reached, and
      otherwise visits the points of the map on their line. */
  lemma {:induction false} PairLineSpec(p: Point, r: Point, width: nat, height: nat, vertical: bool, q: Point)
    requires p != r && OnMap(p, width, height) && OnMap(r, width, height)
    ensures PairLine(p, r, width, height, vertical).None? <==> p.0 == r.0 && !vertical
    ensures PairLine(p, r, width, height, vertical).Some? ==>
      (q in PairLine(p, r, width, height, vertical).value <==> OnMap(q, width, height) && OnLine(p, r, q))
  {
    var (a, b) := Leftmost(p, r);
    if a.0 < b.0 || vertical {
      WalkSpec(a, b, width, height, vertical, q);
      OnLineSymmetric(p, r, q);
    }
  }

  /** The walk of one combination of antennas, as a value the grouping
      functions below take. */
  type Walker = (Point, Point) -> Option<seq<Point>>

  /** The line walk of part 2 on a `width` by `height` map. */
  function LineWalker(width: nat, height: nat, vertical: bool): Walker {
    (p: Point, r: Point) => PairLine(p, r, width, height, vertical)
  }

  /** A combination whose walk panics. */
  predicate Panics(v: seq<Point>, i: int, j: int, walk: Walker) {
    0 <= i < |v| && 0 <= j < |v| && walk(v[i], v[j]).None?
  }

  /** A combination whose walk visits `q`. */
  predicate Visits(v: seq<Point>, i: int, j: int, walk: Walker, q: Point) {
    0 <= i < |v| && 0 <= j < |v| && walk(v[i], v[j]).Some? && q in walk(v[i], v[j]).value
  }

  /** The points visited by the walks of the pairs `(v[i], v[n])` for
      `i < k`; `None` once one of them panics. */
  function WithLastLines(v: seq<Point>, n: nat, k: nat, walk: Walker): Option<set<Point>>
    requires k <= n < |v|
  {
    if k == 0 then Some({})
    else
      match (WithLastLines(v, n, k - 1, walk), walk(v[k - 1], v[n]))
      case (Some(s), Some(points)) => Some(s + set q | q in points)
      case _ => None
  }

  /** The points visited by the walks of all pairs among the first `n`
      antennas: the two-element combinations, each taken once. */
  function GroupLines(v: seq<Point>, n: nat, walk: Walker): Option<set<Point>>
    requires n <= |v|
  {
    if n == 0 then Some({})
    else
      match (GroupLines(v, n - 1, walk), WithLastLines(v, n - 1, n - 1, walk))
      case (Some(s), Some(t)) => Some(s + t)
      case _ => None
  }

  lemma {:induction false} WithLastLinesPanics(v: seq<Point>, n: nat, k: nat, walk: Walker)
    requires k <= n < |v|
    ensures WithLastLines(v, n, k, walk).None? <==> exists i :: 0 <= i < k && Panics(v, i, n, walk)
  {
    if k > 0 {
      WithLastLinesPanics(v, n, k - 1, walk);
      if WithLastLines(v, n, k - 1, walk).Some? && walk(v[k - 1], v[n]).None? {
        assert Panics(v, k - 1, n, walk);
      }
      if exists i :: 0 <= i < k && Panics(v, i, n, walk) {
        var i :| 0 <= i < k && Panics(v, i, n, walk);
        if i < k - 1 {
          assert 0 <= i < k - 1;
        }
      }
    }
  }

  lemma {:induction false} WithLastLinesVisits(v: seq<Point>, n: nat, k: nat, walk: Walker, q: Point)
    requires k <= n < |v| && WithLastLines(v, n, k, walk).Some?
    ensures q in WithLastLines(v, n, k, walk).value <==> exists i :: 0 <= i < k && Visits(v, i, n, walk, q)
  {
    if k > 0 {
      WithLastLinesVisits(v, n, k - 1, walk, q);
      var points := walk(v[k - 1], v[n]).value;
      if q in points {
        assert Visits(v, k - 1, n, walk, q);
      }
      if exists i :: 0 <= i < k && Visits(v, i, n, walk, q) {
        var i :| 0 <= i < k && Visits(v, i, n, walk, q);
        if i < k - 1 {
          assert 0 <= i < k - 1;
        }
      }
    }
  }

  /** The group panics just when one of its combinations does. */
  lemma {:induction false} GroupLinesPanics(v: seq<Point>, n: nat, walk: Walker)
    requires n <= |v|
    ensures GroupLines(v, n, walk).None? <==> exists i, j :: 0 <= i < j < n && Panics(v, i, j, walk)
  {
    if n > 0 {
      GroupLinesPanics(v, n - 1, walk);
      WithLastLinesPanics(v, n - 1, n - 1, walk);
      if exists i, j :: 0 <= i < j < n && Panics(v, i, j, walk) {
        var i, j :| 0 <= i < j < n && Panics(v, i, j, walk);
        if j < n - 1 {
          assert 0 <= i < j < n - 1;
        } else {
          assert 0 <= i < n - 1;
        }
      }
    }
  }

  /** Otherwise it visits what one of its combinations visits. */
  lemma {:induction false} GroupLinesVisits(v: seq<Point>, n: nat, walk: Walker, q: Point)
    requires n <= |v| && GroupLines(v, n, walk).Some?
    ensures q in GroupLines(v, n, walk).value <==> exists i, j :: 0 <= i < j < n && Visits(v, i, j, walk, q)
  {
    if n > 0 {
      GroupLinesVisits(v, n - 1, walk, q);
      WithLastLinesVisits(v, n - 1, n - 1, walk, q);
      if exists i, j :: 0 <= i < j < n && Visits(v, i, j, walk, q) {
        var i, j :| 0 <= i < j < n && Visits(v, i, j, walk, q);
        if j < n - 1 {
          assert 0 <= i < j < n - 1;
        } else {
          assert 0 <= i < n - 1;
        }
      }
      if q in WithLastLines(v, n - 1, n - 1, walk).value {
        var i :| 0 <= i < n - 1 && Visits(v, i, n - 1, walk, q);
        assert 0 <= i < n - 1 < n;
      }
    }
  }

  /** Two antennas of a pair panic the walk just when they share a column
      and the column branch is not reached. */
  lemma {:induction false} PairLinePanics(p: Point, r: Point, width: nat, height: nat, vertical: bool)
    requires p != r
    ensures PairLine(p, r, width, height, vertical).None? <==> p.0 == r.0 && !vertical
  {
  }

  /** The points visited for every frequency; `None` when a walk panics. */
  function AllLines(m: Frequencies, walk: Walker): Option<set<Point>> {
    if exists c :: c in m && GroupLines(m[c], |m[c]|, walk).None? then None
    else Some(set c, q | c in m && q in GroupLines(m[c], |m[c]|, walk).value :: q)
  }

  /** `process_part2` as written (`vertical` false) or with the column
      branch reachable (`vertical` true): the number of distinct points the
      walks visit. */
  function Resonance(input: string, vertical: bool): Option<nat> {
    var rows := Lines(input);
    if |rows| == 0 then None
    else
      match AllLines(ParseInput(input), LineWalker(|rows[0]|, |rows|, vertical))
      case None => None
      case Some(points) => Some(|points|)
  }

  /** `process_part2`. */
  function Part2(input: string): Option<nat> {
    Resonance(input, false)
  }

  /** `process_part2` with the `dx == 0` test before the remainder. */
  function Part2Fixed(input: string): Option<nat> {
    Resonance(input, true)
  }

  /** Two antennas of one frequency share a column. */
  ghost predicate ColumnPair(rows: seq<string>) {
    exists a, b, c :: HasAntenna(rows, a, c) && HasAntenna(rows, b, c) && a != b && a.0 == b.0
  }

  /** A part-2 antinode: a whole multiple of the offset between two
      antennas of one frequency away from one of them. */
  ghost predicate Resonant(rows: seq<string>, q: Point) {
    exists a, b, c :: HasAntenna(rows, a, c) && HasAntenna(rows, b, c) && a != b && OnLine(a, b, q)
  }

  /** Every line as long as the first. */
  predicate Rectangular(rows: seq<string>) {
    |rows| >= 1 && forall y :: 0 <= y < |rows| ==> |rows[y]| == |rows[0]|
  }

  /** An antenna's index in its frequency's list. */
  lemma {:induction false} IndexOf(input: string, p: Point, c: char) returns (i: nat)
    requires HasAntenna(Lines(input), p, c)
    ensures c in ParseInput(input) && i < |ParseInput(input)[c]| && ParseInput(input)[c][i] == p
  {
    ParseSpec(input);
    var m := ParseInput(input);
    i :| 0 <= i < |m[c]| && m[c][i] == p;
  }

  /** The walks panic just when two antennas of one frequency share a
      column and the column branch is not reached. */
  lemma {:induction false} AllLinesPanics(input: string, width: nat, height: nat, vertical: bool)
    ensures AllLines(ParseInput(input), LineWalker(width, height, vertical)).None? <==>
      !vertical && ColumnPair(Lines(input))
  {
    var rows := Lines(input);
    var m := ParseInput(input);
    var walk := LineWalker(width, height, vertical);
    ParseSpec(input);
    if AllLines(m, walk).None? {
      var c :| c in m && GroupLines(m[c], |m[c]|, walk).None?;
      var v := m[c];
      GroupLinesPanics(v, |v|, walk);
      var i, j :| 0 <= i < j < |v| && Panics(v, i, j, walk);
      IncreasingDistinct(v, i, j);
      PairLinePanics(v[i], v[j], width, height, vertical);
      assert HasAntenna(rows, v[i], c) && HasAntenna(rows, v[j], c);
    }
    if !vertical && ColumnPair(rows) {
      var a, b, c :| HasAntenna(rows, a, c) && HasAntenna(rows, b, c) && a != b && a.0 == b.0;
      var i := IndexOf(input, a, c);
      var j := IndexOf(input, b, c);
      var v := m[c];
      PairLinePanics(a, b, width, height, vertical);
      PairLinePanics(b, a, width, height, vertical);
      GroupLinesPanics(v, |v|, walk);
      if i < j {
        assert Panics(v, i, j, walk);
      } else {
        assert Panics(v, j, i, walk);
      }
    }
  }

  /** On a rectangular map every antenna lies inside the first line's
      width. */
  lemma {:induction false} AntennaOnMap(rows: seq<string>, p: Point, c: char)
    requires Rectangular(rows) && HasAntenna(rows, p, c)
    ensures OnMap(p, |rows[0]|, |rows|)
  {
  }

  /** Where no walk panics, the walks of a rectangular map visit exactly
      its part-2 antinodes. */
  lemma {:induction false} AllLinesVisits(input: string, vertical: bool, q: Point)
    requires Rectangular(Lines(input))
    requires AllLines(ParseInput(input), LineWalker(|Lines(input)[0]|, |Lines(input)|, vertical)).Some?
    ensures var rows := Lines(input);
      q in AllLines(ParseInput(input), LineWalker(|rows[0]|, |rows|, vertical)).value <==>
      OnMap(q, |rows[0]|, |rows|) && Resonant(rows, q)
  {
    var rows := Lines(input);
    if q in AllLines(ParseInput(input), LineWalker(|rows[0]|, |rows|, vertical)).value {
      VisitedResonant(input, vertical, q);
    }
    if OnMap(q, |rows[0]|, |rows|) && Resonant(rows, q) {
      ResonantVisited(input, vertical, q);
    }
  }

  lemma {:induction false} VisitedResonant(input: string, vertical: bool, q: Point)
    requires Rectangular(Lines(input))
    requires AllLines(ParseInput(input), LineWalker(|Lines(input)[0]|, |Lines(input)|, vertical)).Some?
    requires q in AllLines(ParseInput(input), LineWalker(|Lines(input)[0]|, |Lines(input)|, vertical)).value
    ensures OnMap(q, |Lines(input)[0]|, |Lines(input)|) && Resonant(Lines(input), q)
  {
    var rows := Lines(input);
    var width, height := |rows[0]|, |rows|;
    var m := ParseInput(input);
    var walk := LineWalker(width, height, vertical);
    ParseSpec(input);
    var c :| c in m && q in GroupLines(m[c], |m[c]|, walk).value;
    var v := m[c];
    GroupLinesVisits(v, |v|, walk, q);
    var i, j :| 0 <= i < j < |v| && Visits(v, i, j, walk, q);
    IncreasingDistinct(v, i, j);
    AntennaOnMap(rows, v[i], c);
    AntennaOnMap(rows, v[j], c);
    PairLineSpec(v[i], v[j], width, height, vertical, q);
    assert HasAntenna(rows, v[i], c) && HasAntenna(rows, v[j], c);
  }

  lemma {:induction false} ResonantVisited(input: string, vertical: bool, q: Point)
    requires Rectangular(Lines(input))
    requires AllLines(ParseInput(input), LineWalker(|Lines(input)[0]|, |Lines(input)|, vertical)).Some?
    requires OnMap(q, |Lines(input)[0]|, |Lines(input)|) && Resonant(Lines(input), q)
    ensures q in AllLines(ParseInput(input), LineWalker(|Lines(input)[0]|, |Lines(input)|, vertical)).value
  {
    var rows := Lines(input);
    var width, height := |rows[0]|, |rows|;
    var m := ParseInput(input);
    var walk := LineWalker(width, height, vertical);
    var a, b, c :| HasAntenna(rows, a, c) && HasAntenna(rows, b, c) && a != b && OnLine(a, b, q);
    var i := IndexOf(input, a, c);
    var j := IndexOf(input, b, c);
    AntennaOnMap(rows, a, c);
    AntennaOnMap(rows, b, c);
    assert GroupLines(m[c], |m[c]|, walk).Some?;
    GroupVisits(m[c], i, j, width, height, vertical, q);
  }

  /** A point of the map on the line of two antennas of a group is visited
      by the group's walks, where none of them panics. */
  lemma {:induction false} GroupVisits(v: seq<Point>, i: nat, j: nat, width: nat, height: nat, vertical: bool, q: Point)
    requires i < |v| && j < |v| && v[i] != v[j]
    requires OnMap(v[i], width, height) && OnMap(v[j], width, height) && OnMap(q, width, height)
    requires OnLine(v[i], v[j], q)
    requires GroupLines(v, |v|, LineWalker(width, height, vertical)).Some?
    ensures q in GroupLines(v, |v|, LineWalker(width, height, vertical)).value
  {
    var walk := LineWalker(width, height, vertical);
    GroupLinesPanics(v, |v|, walk);
    GroupLinesVisits(v, |v|, walk, q);
    var lo, hi := if i < j then i else j, if i < j then j else i;
    OnLineSymmetric(v[i], v[j], q);
    assert OnLine(v[lo], v[hi], q);
    assert !Panics(v, lo, hi, walk);
    PairLineSpec(v[lo], v[hi], width, height, vertical, q);
    assert Visits(v, lo, hi, walk, q);
  }

  /** Part 2 as written panics on an empty input and whenever two antennas
      of one frequency share a column; on a rectangular map it otherwise
      counts the part-2 antinodes, each once. */
  lemma {:induction false} Part2Spec(input: string)
    ensures Part2(input).None? <==> |input| == 0 || ColumnPair(Lines(input))
    ensures Part2(input).Some? && Rectangular(Lines(input)) ==>
      var rows := Lines(input);
      Part2(input).value == |set q | q in Grid(|rows[0]|, |rows|) && Resonant(rows, q)|
  {
    ResonanceSpec(input, false);
  }

  /** With the column branch reachable part 2 fails only on an empty
      input, and counts the part-2 antinodes of a rectangular map. */
  lemma {:induction false} Part2FixedSpec(input: string)
    ensures Part2Fixed(input).None? <==> |input| == 0
    ensures Part2Fixed(input).Some? && Rectangular(Lines(input)) ==>
      var rows := Lines(input);
      Part2Fixed(input).value == |set q | q in Grid(|rows[0]|, |rows|) && Resonant(rows, q)|
  {
    ResonanceSpec(input, true);
  }

  lemma {:induction false} ResonanceSpec(input: string, vertical: bool)
    ensures Resonance(input, vertical).None? <==> |input| == 0 || (!vertical && ColumnPair(Lines(input)))
    ensures Resonance(input, vertical).Some? && Rectangular(Lines(input)) ==>
      var rows := Lines(input);
      Resonance(input, vertical).value == |set q | q in Grid(|rows[0]|, |rows|) && Resonant(rows, q)|
  {
    var rows := Lines(input);
    if |rows| > 0 {
      var width, height := |rows[0]|, |rows|;
      var walk := LineWalker(width, height, vertical);
      AllLinesPanics(input, width, height, vertical);
      if AllLines(ParseInput(input), walk).Some? && Rectangular(rows) {
        var found := AllLines(ParseInput(input), walk).value;
        var spec := set q | q in Grid(width, height) && Resonant(rows, q);
        forall q: Point
          ensures q in found <==> q in spec
        {
          AllLinesVisits(input, vertical, q);
          if OnMap(q, width, height) {
            assert q == (q.0, q.1);
            assert q in Grid(width, height);
          }
        }
        assert found == spec;
      }
    } else {
      ParseSpec(input);
    }
  }

  /** Two antennas of one frequency in one column: the map `a` over `a`. */
  const Stacked: string := "a\na\n"

  /** The source's part 2 panics on it, where the column branch would
      count both antennas. */
  lemma {:induction false} StackedPanics()
    ensures Part2(Stacked) == None
    ensures Part2Fixed(Stacked) == Some(2)
  {
    StackedLines();
    StackedInput(Stacked);
  }

  lemma {:induction false} StackedInput(input: string)
    requires Lines(input) == ["a", "a"]
    ensures Part2(input) == None
    ensures Part2Fixed(input) == Some(2)
  {
    var rows := Lines(input);
    StackedResonant(rows);
    assert |input| != 0;
    Part2Spec(input);
    Part2FixedSpec(input);
    assert |rows[0]| == 1 && |rows| == 2;
    var spec := set q | q in Grid(|rows[0]|, |rows|) && Resonant(rows, q);
    assert spec == {(0, 0), (0, 1)};
    assert |spec| == 2;
  }

  lemma {:induction false} StackedLines()
    ensures Lines(Stacked) == ["a", "a"]
  {
    LinesJoin(["a", "a"]);
    assert Join(["a", "a"], '\n') + "\n" == Stacked;
  }

  lemma {:induction false} StackedResonant(rows: seq<string>)
    requires rows == ["a", "a"]
    ensures ColumnPair(rows) && Rectangular(rows)
    ensures (set q | q in Grid(1, 2) && Resonant(rows, q)) == {(0, 0), (0, 1)}
  {
    var a, b := (0, 0), (0, 1);
    StackedAntennas(rows);
    PairOnLine(a, b);
    assert Resonant(rows, a) && Resonant(rows, b);
    GridOneByTwo();
  }

  lemma {:induction false} StackedAntennas(rows: seq<string>)
    requires rows == ["a", "a"]
    ensures HasAntenna(rows, (0, 0), 'a') && HasAntenna(rows, (0, 1), 'a') && Rectangular(rows)
  {
  }

  /** Both antennas of a pair lie on the pair's line. */
  lemma {:induction false} PairOnLine(a: Point, b: Point)
    ensures OnLine(a, b, a) && OnLine(a, b, b)
  {
    assert Along(a, b, 0) == (a.0 as int, a.1 as int);
    assert Along(a, b, 1) == (b.0 as int, b.1 as int);
  }

  lemma {:induction false} GridOneByTwo()
    ensures Grid(1, 2) == {(0, 0), (0, 1)}
  {
    assert (0, 0) in Grid(1, 2) && (0, 1) in Grid(1, 2);
  }
}
