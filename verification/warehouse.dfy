/** Day 15, part 1: a robot walks a warehouse, pushing rows of boxes ahead
    of it unless the row ends at a wall. The answer adds up the GPS
    coordinates `100 * y + x` of the boxes after the last move. */
module Warehouse {
  import opened Wrappers
  import opened WarehouseGrid

  datatype Space = Empty | Box | Wall


  // ---------------------------------------------------------------------------
  // move_box
  // ---------------------------------------------------------------------------

  /** `Warehouse::move_box`: push the box at `(x, y)` one cell on, after
      pushing whatever box is in the way. Returns whether it moved and the
      resulting grid; `None` where an assert, an index or a `usize`
      subtraction panics. */
  function MoveBox(g: Grid<Space>, x: nat, y: nat, m: Move): (r: Option<(bool, Grid<Space>)>)
    ensures r.Some? ==> SameShape(r.value.1, g)
    decreases if Checked(g, x, y) then Room(g, x, y, m) else 0
  {
    if !Checked(g, x, y) || !InGrid(g, x, y) || g[y][x] != Box then None
    else
      match NextPos(x, y, m)
      case None => None
      case Some((nx, ny)) =>
        match Get(g, nx, ny)
        case None => None
        case Some(next) =>
          match next
          case Empty => Some((true, Set(Set(g, nx, ny, Box), x, y, Empty)))
          case Wall => Some((false, g))
          case Box =>
            match MoveBox(g, nx, ny, m)
            case None => None
            case Some((moved, g')) =>
              if moved then Some((true, Set(Set(g', nx, ny, Box), x, y, Empty)))
              else Some((false, g'))
  }

  /** The cell `i` steps on holds a box and passes `move_box`'s checks. */
  predicate BoxAt(g: Grid<Space>, x: nat, y: nat, m: Move, i: int) {
    var (px, py) := Offset(x, y, m, i);
    Checked(g, px, py) && InGrid(g, px, py) && g[py][px] == Box
  }

  /** From `(x, y)` on, `k` boxes in a row, then a cell that is on the grid
      and holds no box. */
  predicate Run(g: Grid<Space>, x: nat, y: nat, m: Move, k: nat) {
    var (ex, ey) := Offset(x, y, m, k);
    && k >= 1
    && (forall i :: 0 <= i < k ==> BoxAt(g, x, y, m, i))
    && InGrid(g, ex, ey) && g[ey][ex] != Box
  }

  /** The grid after a run of boxes from `(x, y)` to the empty cell `(ex,
      ey)` moves on by one: the first box's cell empties and the empty cell
      fills. */
  function Shift(g: Grid<Space>, x: nat, y: nat, ex: nat, ey: nat): Grid<Space>
    requires InGrid(g, x, y) && InGrid(g, ex, ey)
  {
    Set(Set(g, ex, ey, Box), x, y, Empty)
  }

  /** One more box at the front of a shifted run: pushing it onto the
      cell the run vacated gives the longer run's shift. */
  lemma {:induction false} ShiftCons(g: Grid<Space>, x: nat, y: nat, nx: nat, ny: nat, ex: nat, ey: nat)
    requires InGrid(g, x, y) && InGrid(g, nx, ny) && InGrid(g, ex, ey)
    requires g[ny][nx] == Box && (ex, ey) != (nx, ny) && (ex, ey) != (x, y) && (x, y) != (nx, ny)
    ensures Set(Set(Shift(g, nx, ny, ex, ey), nx, ny, Box), x, y, Empty) == Shift(g, x, y, ex, ey)
  {
    var h := Set(g, ex, ey, Box);
    assert h[ny][nx] == Box;
    SetRestore(h, nx, ny, Empty);
  }

  /** `move_box` when the next cell holds no box. */
  lemma {:induction false} MoveBoxLast(g: Grid<Space>, x: nat, y: nat, m: Move, nx: nat, ny: nat)
    requires Checked(g, x, y) && InGrid(g, x, y) && g[y][x] == Box
    requires NextPos(x, y, m) == Some((nx, ny)) && InGrid(g, nx, ny) && g[ny][nx] != Box
    ensures MoveBox(g, x, y, m) ==
      if g[ny][nx] == Empty then Some((true, Shift(g, x, y, nx, ny))) else Some((false, g))
  {
  }

  /** `move_box` when the next cell holds a box: the outcome of pushing
      that box first. */
  lemma {:induction false} MoveBoxPushed(g: Grid<Space>, x: nat, y: nat, m: Move, nx: nat, ny: nat)
    requires Checked(g, x, y) && InGrid(g, x, y) && g[y][x] == Box
    requires NextPos(x, y, m) == Some((nx, ny)) && InGrid(g, nx, ny) && g[ny][nx] == Box
    requires MoveBox(g, nx, ny, m).Some?
    ensures var (moved, h) := MoveBox(g, nx, ny, m).value;
      MoveBox(g, x, y, m) ==
        if moved then Some((true, Set(Set(h, nx, ny, Box), x, y, Empty))) else Some((false, h))
  {
  }

  /** A run of more than one box continues from its second box. */
  lemma {:induction false} RunTail(g: Grid<Space>, x: nat, y: nat, m: Move, k: nat, nx: nat, ny: nat)
    requires Run(g, x, y, m, k) && k > 1 && NextPos(x, y, m) == Some((nx, ny))
    ensures Run(g, nx, ny, m, k - 1)
  {
    forall i | 0 <= i < k - 1
      ensures BoxAt(g, nx, ny, m, i)
    {
      OffsetNext(x, y, m, nx, ny, i);
      assert BoxAt(g, x, y, m, i + 1);
    }
    OffsetNext(x, y, m, nx, ny, k - 1);
  }

  /** A run that ends on an empty cell is shifted on by one; one that ends
      at a wall leaves the grid alone. */
  lemma {:induction false} MoveBoxRun(g: Grid<Space>, x: nat, y: nat, m: Move, k: nat)
    requires Run(g, x, y, m, k)
    ensures var (ex, ey) := Offset(x, y, m, k);
      ex >= 0 && ey >= 0 && InGrid(g, x, y) &&
      MoveBox(g, x, y, m) ==
        if g[ey][ex] == Empty then Some((true, Shift(g, x, y, ex, ey))) else Some((false, g))
    decreases k
  {
    assert BoxAt(g, x, y, m, 0);
    assert Offset(x, y, m, 0) == (x, y);
    var (ex, ey) := Offset(x, y, m, k);
    var n := Offset(x, y, m, 1);
    if k == 1 {
      assert NextPos(x, y, m) == Some((ex, ey));
      MoveBoxLast(g, x, y, m, ex, ey);
    } else {
      assert BoxAt(g, x, y, m, 1);
      var nx, ny: nat := n.0, n.1;
      assert NextPos(x, y, m) == Some((nx, ny));
      RunTail(g, x, y, m, k, nx, ny);
      OffsetNext(x, y, m, nx, ny, k - 1);
      MoveBoxRun(g, nx, ny, m, k - 1);
      MoveBoxPushed(g, x, y, m, nx, ny);
      if g[ey][ex] == Empty {
        ShiftCons(g, x, y, nx, ny, ex, ey);
      }
    }
  }

  /** Every call that does not panic walks such a run. */
  lemma {:induction false} MoveBoxHasRun(g: Grid<Space>, x: nat, y: nat, m: Move) returns (k: nat)
    requires MoveBox(g, x, y, m).Some?
    ensures Run(g, x, y, m, k)
    decreases if Checked(g, x, y) then Room(g, x, y, m) else 0
  {
    assert Offset(x, y, m, 0) == (x, y);
    var (nx, ny) := NextPos(x, y, m).value;
    if g[ny][nx] == Box {
      var k' := MoveBoxHasRun(g, nx, ny, m);
      k := k' + 1;
      forall i | 0 <= i < k
        ensures BoxAt(g, x, y, m, i)
      {
        if i > 0 {
          OffsetNext(x, y, m, nx, ny, i - 1);
          assert BoxAt(g, nx, ny, m, i - 1);
        }
      }
      OffsetNext(x, y, m, nx, ny, k');
    } else {
      k := 1;
    }
  }

  /** `move_box` fails exactly when the run of boxes ends at a wall, and
      then changes nothing; otherwise the first box's cell empties, the
      cell after the run takes a box, and every other cell is unchanged. */
  lemma {:induction false} MoveBoxSpec(g: Grid<Space>, x: nat, y: nat, m: Move)
    requires MoveBox(g, x, y, m).Some?
    ensures var (moved, g') := MoveBox(g, x, y, m).value;
      exists k: nat :: Run(g, x, y, m, k) &&
        var (ex, ey) := Offset(x, y, m, k);
        ex >= 0 && ey >= 0 && (moved <==> g[ey][ex] == Empty) &&
        g' == if moved then Shift(g, x, y, ex, ey) else g
  {
    var k := MoveBoxHasRun(g, x, y, m);
    MoveBoxRun(g, x, y, m, k);
  }

  // ---------------------------------------------------------------------------
  // Counting and GPS sums
  // ---------------------------------------------------------------------------

  /** A successful push keeps every box and wall count and moves the GPS
      sum by the distance the run's first box was carried. */
  lemma {:induction false} ShiftTotals(g: Grid<Space>, x: nat, y: nat, ex: nat, ey: nat)
    requires InGrid(g, x, y) && InGrid(g, ex, ey) && (x, y) != (ex, ey)
    requires g[y][x] == Box && g[ey][ex] == Empty
    ensures Count(Shift(g, x, y, ex, ey), Box) == Count(g, Box)
    ensures Count(Shift(g, x, y, ex, ey), Wall) == Count(g, Wall)
    ensures GpsSum(Shift(g, x, y, ex, ey), Box) + Gps(x, y) == GpsSum(g, Box) + Gps(ex, ey)
  {
    var h := Set(g, ex, ey, Box);
    CountSet(g, ex, ey, Box, Box);
    CountSet(h, x, y, Box, Empty);
    CountSet(g, ex, ey, Wall, Box);
    CountSet(h, x, y, Wall, Empty);
    GpsSumSet(g, ex, ey, Box, Box);
    GpsSumSet(h, x, y, Box, Empty);
  }

  // ---------------------------------------------------------------------------
  // The robot
  // ---------------------------------------------------------------------------

  
  /** One iteration of `move_robot`'s loop. */
  function RobotStep(s: State<Space>, m: Move): Option<State<Space>> {
    match NextPos(s.x, s.y, m)
    case None => None
    case Some((nx, ny)) =>
      match Get(s.grid, nx, ny)
      case None => None
      case Some(next) =>
        match next
        case Empty => Some(State(s.grid, nx, ny))
        case Wall => Some(s)
        case Box =>
          match MoveBox(s.grid, nx, ny, m)
          case None => None
          case Some((moved, g')) => if moved then Some(State(g', nx, ny)) else Some(State(g', s.x, s.y))
  }

  /** `move_robot`: the moves in order; `None` once one panics. */
  function RunMoves(s: State<Space>, moves: seq<Move>): Option<State<Space>>
    decreases |moves|
  {
    if |moves| == 0 then Some(s)
    else
      match RobotStep(s, moves[0])
      case None => None
      case Some(t) => RunMoves(t, moves[1..])
  }

  /** The robot stands on an empty cell of the grid. */
  predicate RobotOnEmpty(s: State<Space>) {
    InGrid(s.grid, s.x, s.y) && s.grid[s.y][s.x] == Empty
  }

  /** One move: a wall in the way keeps everything; an empty cell takes the
      robot and leaves the grid; a box moves the robot exactly when the push
      succeeds. The robot's cell stays empty, and boxes and walls are never
      created or destroyed. */
  lemma {:induction false} RobotStepSpec(s: State<Space>, m: Move)
    requires RobotOnEmpty(s) && RobotStep(s, m).Some?
    ensures var t := RobotStep(s, m).value;
      var (nx, ny) := Offset(s.x, s.y, m, 1);
      && RobotOnEmpty(t) && SameShape(t.grid, s.grid)
      && nx >= 0 && ny >= 0 && InGrid(s.grid, nx, ny)
      && (s.grid[ny][nx] == Wall ==> t == s)
      && (s.grid[ny][nx] == Empty ==> t == State(s.grid, nx, ny))
      && (s.grid[ny][nx] == Box ==>
            (t.x, t.y) == (if MoveBox(s.grid, nx, ny, m).value.0 then (nx, ny) else (s.x, s.y)))
      && Count(t.grid, Box) == Count(s.grid, Box)
      && Count(t.grid, Wall) == Count(s.grid, Wall)
  {
    var (nx, ny) := NextPos(s.x, s.y, m).value;
    if s.grid[ny][nx] == Box {
      MoveBoxSpec(s.grid, nx, ny, m);
      var k := MoveBoxHasRun(s.grid, nx, ny, m);
      MoveBoxRun(s.grid, nx, ny, m, k);
      var (ex, ey) := Offset(nx, ny, m, k);
      if s.grid[ey][ex] == Empty {
        ShiftTotals(s.grid, nx, ny, ex, ey);
        assert (ex, ey) != (s.x, s.y) by {
          OffsetNext(s.x, s.y, m, nx, ny, k);
        }
      }
    }
  }

  /** The invariants of one move hold after any number of them. */
  lemma {:induction false} RunMovesKeeps(s: State<Space>, moves: seq<Move>)
    requires RobotOnEmpty(s) && RunMoves(s, moves).Some?
    ensures var t := RunMoves(s, moves).value;
      RobotOnEmpty(t) && SameShape(t.grid, s.grid)
      && Count(t.grid, Box) == Count(s.grid, Box) && Count(t.grid, Wall) == Count(s.grid, Wall)
    decreases |moves|
  {
    if |moves| > 0 {
      RobotStepSpec(s, moves[0]);
      RunMovesKeeps(RobotStep(s, moves[0]).value, moves[1..]);
    }
  }

  // ---------------------------------------------------------------------------
  // Reading the input
  // ---------------------------------------------------------------------------

  /** The per-character step of `parse_warehouse`; the robot's `@` is stored
      as an empty cell. */
  function SpaceOf(c: char): Option<Space> {
    match c
    case '.' => Some(Empty)
    case 'O' => Some(Box)
    case '#' => Some(Wall)
    case '@' => Some(Empty)
    case _ => None
  }

  /** `parse_warehouse` after nom has split the rows: `None` when a
      character is not a warehouse cell or no `@` is present. */
  function ParseWarehouse(rows: seq<string>): (r: Option<State<Space>>)
    ensures r.Some? ==> RobotOnEmpty(r.value)
  {
    match (GridOf(rows, SpaceOf), RobotAt(rows))
    case (Some(g), Some((x, y))) => Some(State(g, x, y))
    case _ => None
  }

  // ---------------------------------------------------------------------------
  // Part 1
  // ---------------------------------------------------------------------------

  /** `process_part1` from the grid rows and the move text. */
  function Part1(rows: seq<string>, moves: string): Option<nat> {
    match (ParseWarehouse(rows), ParseMoves(moves))
    case (Some(s), Some(ms)) =>
      (match RunMoves(s, ms)
       case Some(t) => Some(GpsSum(t.grid, Box))
       case None => None)
    case _ => None
  }

  /** Moving never creates or destroys a box or a wall. */
  lemma {:induction false} Part1Keeps(rows: seq<string>, moves: string)
    requires ParseWarehouse(rows).Some? && ParseMoves(moves).Some?
    requires RunMoves(ParseWarehouse(rows).value, ParseMoves(moves).value).Some?
    ensures var s := ParseWarehouse(rows).value;
      var t := RunMoves(s, ParseMoves(moves).value).value;
      Part1(rows, moves) == Some(GpsSum(t.grid, Box)) && RobotOnEmpty(t)
      && Count(t.grid, Box) == Count(s.grid, Box) && Count(t.grid, Wall) == Count(s.grid, Wall)
  {
    RunMovesKeeps(ParseWarehouse(rows).value, ParseMoves(moves).value);
  }
}
