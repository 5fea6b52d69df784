/** The grid, moves and sums both halves of day 15 share: positions and
    the `usize` arithmetic of `next_pos`, reading and writing cells, the GPS
    sum, and the move list. */
module WarehouseGrid {
  import opened Wrappers

  datatype Move = Up | Down | Left | Right

  /** Rows of cells; `g[y][x]` is column `x` of row `y`. */
  type Grid<T> = seq<seq<T>>

  // ---------------------------------------------------------------------------
  // Cells and positions
  // ---------------------------------------------------------------------------

  predicate InGrid<T>(g: Grid<T>, x: int, y: int) {
    0 <= y < |g| && 0 <= x < |g[y]|
  }

  /** `contents[y][x]`; `None` where the indexing panics. */
  function Get<T>(g: Grid<T>, x: int, y: int): (r: Option<T>)
    ensures r.Some? <==> InGrid(g, x, y)
    ensures r.Some? ==> r.value == g[y][x]
  {
    if InGrid(g, x, y) then Some(g[y][x]) else None
  }

  /** `contents[y][x] = v`. */
  function Set<T>(g: Grid<T>, x: int, y: int, v: T): (r: Grid<T>)
    requires InGrid(g, x, y)
    ensures SameShape(r, g)
    ensures r[y][x] == v
    ensures forall y', x' :: InGrid(g, x', y') && (x', y') != (x, y) ==> r[y'][x'] == g[y'][x']
  {
    g[y := g[y][x := v]]
  }

  /** Two grids with the same number of rows and the same row lengths. */
  predicate SameShape<T, U>(a: Grid<T>, b: Grid<U>) {
    |a| == |b| && forall y :: 0 <= y < |a| ==> |a[y]| == |b[y]|
  }

  /** The cell `i` steps from `(x, y)` in the direction of `m`. */
  function Offset(x: int, y: int, m: Move, i: int): (int, int) {
    match m
    case Up => (x, y - i)
    case Down => (x, y + i)
    case Left => (x - i, y)
    case Right => (x + i, y)
  }

  /** `next_pos`: the neighbour in the direction of the move; `None` where a
      `usize` coordinate would go below zero. */
  function NextPos(x: nat, y: nat, m: Move): (r: Option<(nat, nat)>)
    ensures r.Some? <==> Offset(x, y, m, 1).0 >= 0 && Offset(x, y, m, 1).1 >= 0
    ensures r.Some? ==> r.value == Offset(x, y, m, 1)
  {
    match m
    case Up => if y == 0 then None else Some((x, y - 1))
    case Down => Some((x, y + 1))
    case Left => if x == 0 then None else Some((x - 1, y))
    case Right => Some((x + 1, y))
  }

  /** Room left in the direction of `m` before the edge the bounds checks
      of `move_box` use: the number of rows, and the width of row 0. */
  function Room<T>(g: Grid<T>, x: nat, y: nat, m: Move): int
    requires |g| > 0
  {
    match m
    case Up => y
    case Down => |g| - y
    case Left => x
    case Right => |g[0]| - x
  }

  /** The asserts at the top of `move_box`: the row exists and the column
      is inside the width of row 0. */
  predicate Checked<T>(g: Grid<T>, x: int, y: int) {
    0 <= y < |g| && 0 <= x < |g[0]|
  }

  lemma {:induction false} OffsetNext(x: nat, y: nat, m: Move, nx: nat, ny: nat, i: int)
    requires NextPos(x, y, m) == Some((nx, ny))
    ensures Offset(nx, ny, m, i) == Offset(x, y, m, i + 1)
  {
  }

  /** Setting a cell back to the value it had undoes setting it. */
  lemma {:induction false} SetRestore<T>(g: Grid<T>, x: int, y: int, v: T)
    requires InGrid(g, x, y)
    ensures Set(Set(g, x, y, v), x, y, g[y][x]) == g
  {
    assert Set(Set(g, x, y, v), x, y, g[y][x])[y] == g[y];
  }

  lemma {:induction false} SetSwap<T>(g: Grid<T>, x: int, y: int, v: T, x': int, y': int, v': T)
    requires InGrid(g, x, y) && InGrid(g, x', y') && (x, y) != (x', y')
    ensures Set(Set(g, x, y, v), x', y', v') == Set(Set(g, x', y', v'), x, y, v)
  {
    var a, b := Set(Set(g, x, y, v), x', y', v'), Set(Set(g, x', y', v'), x, y, v);
    assert |a| == |b|;
    forall r | 0 <= r < |a|
      ensures a[r] == b[r]
    {
    }
  }

  /** The cells holding `v`, counted row by row. */
  function Count<T(==)>(g: Grid<T>, v: T): nat {
    if |g| == 0 then 0 else Count(g[..|g| - 1], v) + multiset(g[|g| - 1])[v]
  }

  /** GPS coordinate of a cell. */
  function Gps(x: nat, y: nat): nat {
    100 * y + x
  }

  function RowGps<T(==)>(row: seq<T>, y: nat, v: T): nat {
    if |row| == 0 then 0
    else RowGps(row[..|row| - 1], y, v) + if row[|row| - 1] == v then Gps(|row| - 1, y) else 0
  }

  /** `sum`: the GPS coordinates of the cells holding `v`. */
  function GpsSum<T(==)>(g: Grid<T>, v: T): nat {
    if |g| == 0 then 0 else GpsSum(g[..|g| - 1], v) + RowGps(g[|g| - 1], |g| - 1, v)
  }

  lemma {:induction false} RowGpsSet<T>(row: seq<T>, y: nat, v: T, x: nat, s: T)
    requires x < |row|
    ensures RowGps(row[x := s], y, v) + (if row[x] == v then Gps(x, y) else 0)
      == RowGps(row, y, v) + (if s == v then Gps(x, y) else 0)
    decreases |row|
  {
    var n := |row| - 1;
    if x < n {
      assert row[x := s][..n] == row[..n][x := s];
      RowGpsSet(row[..n], y, v, x, s);
    } else {
      assert row[x := s][..n] == row[..n];
    }
  }

  /** Changing one cell moves the sum by that cell's GPS coordinate. */
  lemma {:induction false} GpsSumSet<T>(g: Grid<T>, x: nat, y: nat, v: T, s: T)
    requires InGrid(g, x, y)
    ensures GpsSum(Set(g, x, y, s), v) + (if g[y][x] == v then Gps(x, y) else 0)
      == GpsSum(g, v) + (if s == v then Gps(x, y) else 0)
    decreases |g|
  {
    var n := |g| - 1;
    var h := Set(g, x, y, s);
    if y < n {
      assert h[..n] == Set(g[..n], x, y, s);
      GpsSumSet(g[..n], x, y, v, s);
    } else {
      assert h[..n] == g[..n];
      RowGpsSet(g[n], n, v, x, s);
    }
  }

  lemma {:induction false} CountSet<T>(g: Grid<T>, x: nat, y: nat, v: T, s: T)
    requires InGrid(g, x, y)
    ensures Count(Set(g, x, y, s), v) + (if g[y][x] == v then 1 else 0)
      == Count(g, v) + (if s == v then 1 else 0)
    decreases |g|
  {
    var n := |g| - 1;
    var h := Set(g, x, y, s);
    if y < n {
      assert h[..n] == Set(g[..n], x, y, s);
      CountSet(g[..n], x, y, v, s);
    } else {
      assert h[..n] == g[..n];
      MultisetUpdate(g[y], x, s);
    }
  }

  lemma {:induction false} MultisetUpdate<T>(row: seq<T>, x: nat, s: T)
    requires x < |row|
    ensures multiset(row[x := s]) == multiset(row) - multiset{row[x]} + multiset{s}
  {
    assert row == row[..x] + [row[x]] + row[x + 1..];
    assert row[x := s] == row[..x] + [s] + row[x + 1..];
  }

  // ---------------------------------------------------------------------------
  // Reading the input
  // ---------------------------------------------------------------------------

  /** A robot standing on a grid. */
  datatype State<T> = State(grid: Grid<T>, x: nat, y: nat)

  /** A row of text read cell by cell with `f`; `None` on the first
      character `f` refuses, where the parser panics. */
  function RowOf<T>(row: string, f: char -> Option<T>): (r: Option<seq<T>>)
    ensures r.Some? ==> |r.value| == |row|
    ensures r.Some? ==> forall x :: 0 <= x < |row| ==> f(row[x]) == Some(r.value[x])
    ensures r.None? ==> exists x :: 0 <= x < |row| && f(row[x]).None?
  {
    if |row| == 0 then Some([])
    else
      match (RowOf(row[..|row| - 1], f), f(row[|row| - 1]))
      case (Some(r), Some(s)) => Some(r + [s])
      case _ => None
  }

  function GridOf<T>(rows: seq<string>, f: char -> Option<T>): (r: Option<Grid<T>>)
    ensures r.Some? ==> SameShape(r.value, rows)
    ensures r.Some? ==> forall y, x :: 0 <= y < |rows| && 0 <= x < |rows[y]| ==> f(rows[y][x]) == Some(r.value[y][x])
    ensures r.None? ==> exists y, x :: 0 <= y < |rows| && 0 <= x < |rows[y]| && f(rows[y][x]).None?
  {
    if |rows| == 0 then Some([])
    else
      match (GridOf(rows[..|rows| - 1], f), RowOf(rows[|rows| - 1], f))
      case (Some(g), Some(r)) => Some(g + [r])
      case _ => None
  }

  /** The last `@` of a row. */
  function LastAt(row: string): (r: Option<nat>)
    ensures r.Some? ==> r.value < |row| && row[r.value] == '@'
    ensures forall x :: 0 <= x < |row| && row[x] == '@' ==> r.Some? && x <= r.value
  {
    if |row| == 0 then None
    else if row[|row| - 1] == '@' then Some(|row| - 1)
    else LastAt(row[..|row| - 1])
  }

  /** Where `robot.replace` last put the robot: the last `@` in reading
      order. */
  function RobotAt(rows: seq<string>): (r: Option<(nat, nat)>)
    ensures r.Some? ==> r.value.1 < |rows| && r.value.0 < |rows[r.value.1]| && rows[r.value.1][r.value.0] == '@'
    ensures forall y, x :: 0 <= y < |rows| && 0 <= x < |rows[y]| && rows[y][x] == '@' ==>
      r.Some? && (y < r.value.1 || (y == r.value.1 && x <= r.value.0))
  {
    if |rows| == 0 then None
    else
      var y := |rows| - 1;
      match LastAt(rows[y])
      case Some(x) => Some((x, y))
      case None =>
        assert forall y', x' :: 0 <= y' < y && 0 <= x' < |rows[y']| ==> rows[..y][y'][x'] == rows[y'][x'];
        RobotAt(rows[..y])
  }

  /** `RobotMove::from`. */
  function MoveOf(c: char): Option<Move> {
    match c
    case '^' => Some(Up)
    case 'v' => Some(Down)
    case '<' => Some(Left)
    case '>' => Some(Right)
    case _ => None
  }

  function MoveChar(m: Move): char {
    match m
    case Up => '^'
    case Down => 'v'
    case Left => '<'
    case Right => '>'
  }

  /** `parse_moves`: newlines skipped, every other character a move; `None`
      on anything else. */
  function ParseMoves(s: string): Option<seq<Move>> {
    if |s| == 0 then Some([])
    else
      match ParseMoves(s[..|s| - 1])
      case None => None
      case Some(ms) =>
        var c := s[|s| - 1];
        if c == '\n' then Some(ms)
        else
          match MoveOf(c)
          case None => None
          case Some(m) => Some(ms + [m])
  }

  /** `s` without its newlines. */
  function DropNewlines(s: string): string {
    if |s| == 0 then []
    else DropNewlines(s[..|s| - 1]) + if s[|s| - 1] == '\n' then [] else [s[|s| - 1]]
  }

  function Render(ms: seq<Move>): (r: string)
    ensures |r| == |ms|
    ensures forall i :: 0 <= i < |ms| ==> r[i] == MoveChar(ms[i])
  {
    if |ms| == 0 then [] else Render(ms[..|ms| - 1]) + [MoveChar(ms[|ms| - 1])]
  }

  predicate MoveText(c: char) {
    c == '\n' || c == '^' || c == 'v' || c == '<' || c == '>'
  }

  /** Parsing fails exactly on a character that is neither a move nor a
      newline; otherwise writing the moves back gives the text without its
      newlines. */
  lemma {:induction false} ParseMovesRender(s: string)
    ensures ParseMoves(s).Some? <==> forall i :: 0 <= i < |s| ==> MoveText(s[i])
    ensures ParseMoves(s).Some? ==> Render(ParseMoves(s).value) == DropNewlines(s)
    decreases |s|
  {
    if |s| > 0 {
      var n := |s| - 1;
      ParseMovesRender(s[..n]);
      assert forall i :: 0 <= i < n ==> s[..n][i] == s[i];
    }
  }

}
