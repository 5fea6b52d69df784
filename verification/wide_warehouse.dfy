/** Day 15, part 2: the same walk in a warehouse twice as wide, where every
    box covers two cells `[]`. A push is first tried as a dry run that only
    reports whether every box in the way can move; only then is it made. */
module WideWarehouse {
  import opened Wrappers
  import opened WarehouseGrid

  datatype Tile = Empty | LeftBox | RightBox | Wall

  predicate IsBox(t: Tile) {
    t == LeftBox || t == RightBox
  }

  // ---------------------------------------------------------------------------
  // move_box and move_other_box
  // ---------------------------------------------------------------------------

  /** `contents[ny][nx] = contents[y][x]; contents[y][x] = Empty`, skipped
      on a dry run. */
  function Carry(g: Grid<Tile>, x: nat, y: nat, nx: nat, ny: nat, dry: bool): (r: Grid<Tile>)
    requires InGrid(g, x, y) && InGrid(g, nx, ny)
    ensures SameShape(r, g)
  {
    if dry then g else Set(Set(g, nx, ny, g[y][x]), x, y, Empty)
  }

  /** `Warehouse2::move_box` on the half box at `(x, y)`: the other half is
      moved first, and a sideways push ends there; an upward or downward
      push then moves this half too. A half pushed from its own side (`[`
      to the left, `]` to the right) makes the source recurse without end,
      which the model reports as `None`, as it does every panic. */
  function WideBox(g: Grid<Tile>, x: nat, y: nat, m: Move, dry: bool): (r: Option<(bool, Grid<Tile>)>)
    ensures r.Some? ==> SameShape(r.value.1, g)
    decreases if Checked(g, x, y) then Room(g, x, y, m) else 0, 2
  {
    if !Checked(g, x, y) || !InGrid(g, x, y) then None
    else if g[y][x] == LeftBox then
      if m == Left then None
      else
        match OtherBox(g, x + 1, y, m, dry)
        case None => None
        case Some((ok, h)) =>
          if !ok then Some((false, h))
          else if m == Right then
            Some((true, if dry then h else Set(Set(h, x + 1, y, LeftBox), x, y, Empty)))
          else
            assert Room(h, x, y, m) == Room(g, x, y, m) by { assert |h[0]| == |g[0]|; }
            Advance(h, x, y, m, dry)
    else if g[y][x] == RightBox then
      if m == Right || x == 0 then None
      else
        match OtherBox(g, x - 1, y, m, dry)
        case None => None
        case Some((ok, h)) =>
          if !ok then Some((false, h))
          else if m == Left then
            Some((true, if dry then h else Set(Set(h, x - 1, y, RightBox), x, y, Empty)))
          else
            assert Room(h, x, y, m) == Room(g, x, y, m) by { assert |h[0]| == |g[0]|; }
            Advance(h, x, y, m, dry)
    else None
  }

  /** `Warehouse2::move_other_box`: the asserts that `(x, y)` is a box half
      inside the grid, then the push of that half alone. */
  function OtherBox(g: Grid<Tile>, x: nat, y: nat, m: Move, dry: bool): (r: Option<(bool, Grid<Tile>)>)
    ensures r.Some? ==> SameShape(r.value.1, g) && InGrid(g, x, y)
    decreases if Checked(g, x, y) then Room(g, x, y, m) else 0, 1
  {
    if !Checked(g, x, y) || !InGrid(g, x, y) || !IsBox(g[y][x]) then None
    else Advance(g, x, y, m, dry)
  }

  /** The tail both functions share: move the half at `(x, y)` into the
      next cell, pushing the box there first if there is one. */
  function Advance(g: Grid<Tile>, x: nat, y: nat, m: Move, dry: bool): (r: Option<(bool, Grid<Tile>)>)
    requires Checked(g, x, y) && InGrid(g, x, y)
    ensures r.Some? ==> SameShape(r.value.1, g)
    decreases Room(g, x, y, m), 0
  {
    match NextPos(x, y, m)
    case None => None
    case Some((nx, ny)) =>
      match Get(g, nx, ny)
      case None => None
      case Some(next) =>
        if next == Empty then Some((true, Carry(g, x, y, nx, ny, dry)))
        else if next == Wall then Some((false, g))
        else
          match WideBox(g, nx, ny, m, dry)
          case None => None
          case Some((ok, h)) =>
            if ok then Some((true, Carry(h, x, y, nx, ny, dry))) else Some((false, h))
  }

  /** A dry run never writes the grid. */
  lemma {:induction false} DryWideBox(g: Grid<Tile>, x: nat, y: nat, m: Move)
    requires WideBox(g, x, y, m, true).Some?
    ensures WideBox(g, x, y, m, true).value.1 == g
    decreases if Checked(g, x, y) then Room(g, x, y, m) else 0, 2
  {
    var ox := if g[y][x] == LeftBox then x + 1 else x - 1;
    DryOtherBox(g, ox, y, m);
    var (ok, h) := OtherBox(g, ox, y, m, true).value;
    if ok && m != Left && m != Right {
      assert Room(h, x, y, m) == Room(g, x, y, m);
      DryAdvance(g, x, y, m);
    }
  }

  lemma {:induction false} DryOtherBox(g: Grid<Tile>, x: nat, y: nat, m: Move)
    requires OtherBox(g, x, y, m, true).Some?
    ensures OtherBox(g, x, y, m, true).value.1 == g
    decreases if Checked(g, x, y) then Room(g, x, y, m) else 0, 1
  {
    DryAdvance(g, x, y, m);
  }

  lemma {:induction false} DryAdvance(g: Grid<Tile>, x: nat, y: nat, m: Move)
    requires Checked(g, x, y) && InGrid(g, x, y)
    requires Advance(g, x, y, m, true).Some?
    ensures Advance(g, x, y, m, true).value.1 == g
    decreases Room(g, x, y, m), 0
  {
    var (nx, ny) := NextPos(x, y, m).value;
    if IsBox(g[ny][nx]) {
      DryWideBox(g, nx, ny, m);
    }
  }

  // ---------------------------------------------------------------------------
  // What a real push changes
  // ---------------------------------------------------------------------------

  /** Cell `(x', y')` lies strictly behind `(x, y)` for a push in direction
      `m`: in a later row for `Up`, an earlier one for `Down`, and for a
      sideways push in another row or further back in the same one. */
  ghost predicate Behind(m: Move, x: nat, y: nat, x': nat, y': nat) {
    match m
    case Up => y' > y
    case Down => y' < y
    case Left => y' != y || x' > x
    case Right => y' != y || x' < x
  }

  /** `h` has the shape of `g` and agrees with it on every cell behind
      `(x, y)`. */
  ghost predicate Kept(g: Grid<Tile>, h: Grid<Tile>, m: Move, x: nat, y: nat) {
    SameShape(h, g) &&
    forall y', x' :: InGrid(g, x', y') && Behind(m, x, y, x', y') ==> h[y'][x'] == g[y'][x']
  }

  /** `h` holds exactly as many tiles of each kind as `g`. */
  ghost predicate Conserves(g: Grid<Tile>, h: Grid<Tile>) {
    forall t: Tile :: Count(h, t) == Count(g, t)
  }

  /** `(x2, y2)` is `(x, y)` or lies ahead of it, so whatever is behind
      `(x, y)` is behind `(x2, y2)` too. */
  ghost predicate NotBehind(m: Move, x: nat, y: nat, x2: nat, y2: nat) {
    match m
    case Up => y2 <= y
    case Down => y2 >= y
    case Left => y2 == y && x2 <= x
    case Right => y2 == y && x2 >= x
  }

  lemma {:induction false} KeptStep(g: Grid<Tile>, h: Grid<Tile>, k: Grid<Tile>, m: Move, x: nat, y: nat, x2: nat, y2: nat)
    requires Kept(g, h, m, x2, y2) && Kept(h, k, m, x, y) && NotBehind(m, x, y, x2, y2)
    ensures Kept(g, k, m, x, y)
  {
    forall y', x' | InGrid(g, x', y') && Behind(m, x, y, x', y')
      ensures k[y'][x'] == g[y'][x']
    {
      assert Behind(m, x2, y2, x', y');
    }
  }

  /** Moving a tile into an empty cell and emptying its old cell keeps
      every count and every cell behind the old one. */
  lemma {:induction false} SwapEmpty(g: Grid<Tile>, m: Move, x: nat, y: nat, nx: nat, ny: nat)
    requires InGrid(g, x, y) && InGrid(g, nx, ny) && (x, y) != (nx, ny)
    requires g[ny][nx] == Empty && !Behind(m, x, y, nx, ny)
    ensures var h := Set(Set(g, nx, ny, g[y][x]), x, y, Empty);
      Kept(g, h, m, x, y) && Conserves(g, h) && h[y][x] == Empty
  {
    var v := g[y][x];
    var g1 := Set(g, nx, ny, v);
    forall t: Tile ensures Count(Set(g1, x, y, Empty), t) == Count(g, t) {
      CountSet(g, nx, ny, t, v);
      CountSet(g1, x, y, t, Empty);
    }
  }

  /** A real push keeps every cell behind its start and every tile count;
      when it succeeds it leaves its start cell empty. */
  lemma {:induction false} PushWideBox(g: Grid<Tile>, x: nat, y: nat, m: Move)
    requires WideBox(g, x, y, m, false).Some?
    ensures var (ok, h) := WideBox(g, x, y, m, false).value;
      Kept(g, h, m, x, y) && Conserves(g, h) && (ok ==> InGrid(g, x, y) && h[y][x] == Empty)
    decreases if Checked(g, x, y) then Room(g, x, y, m) else 0, 2
  {
    var ox := if g[y][x] == LeftBox then x + 1 else x - 1;
    PushOtherBox(g, ox, y, m);
    var (ok, h) := OtherBox(g, ox, y, m, false).value;
    if ok {
      assert Behind(m, ox, y, x, y) <==> m == Left || m == Right;
      if m == Left || m == Right {
        assert h[y][x] == g[y][x];
        SwapEmpty(h, m, x, y, ox, y);
        KeptStep(g, h, WideBox(g, x, y, m, false).value.1, m, x, y, ox, y);
      } else {
        assert Room(h, x, y, m) == Room(g, x, y, m);
        PushAdvance(h, x, y, m);
        KeptStep(g, h, WideBox(g, x, y, m, false).value.1, m, x, y, ox, y);
      }
    } else {
      KeptStep(g, h, h, m, x, y, ox, y);
    }
  }

  lemma {:induction false} PushOtherBox(g: Grid<Tile>, x: nat, y: nat, m: Move)
    requires OtherBox(g, x, y, m, false).Some?
    ensures var (ok, h) := OtherBox(g, x, y, m, false).value;
      Kept(g, h, m, x, y) && Conserves(g, h) && (ok ==> h[y][x] == Empty)
    decreases if Checked(g, x, y) then Room(g, x, y, m) else 0, 1
  {
    PushAdvance(g, x, y, m);
  }

  lemma {:induction false} PushAdvance(g: Grid<Tile>, x: nat, y: nat, m: Move)
    requires Checked(g, x, y) && InGrid(g, x, y)
    requires Advance(g, x, y, m, false).Some?
    ensures var (ok, h) := Advance(g, x, y, m, false).value;
      Kept(g, h, m, x, y) && Conserves(g, h) && (ok ==> h[y][x] == Empty)
    decreases Room(g, x, y, m), 0
  {
    var (nx, ny) := NextPos(x, y, m).value;
    assert !Behind(m, x, y, nx, ny) && NotBehind(m, x, y, nx, ny);
    if g[ny][nx] == Empty {
      SwapEmpty(g, m, x, y, nx, ny);
    } else if IsBox(g[ny][nx]) {
      PushWideBox(g, nx, ny, m);
      var (ok, h) := WideBox(g, nx, ny, m, false).value;
      if ok {
        SwapEmpty(h, m, x, y, nx, ny);
        KeptStep(g, h, Advance(g, x, y, m, false).value.1, m, x, y, nx, ny);
      } else {
        KeptStep(g, h, h, m, x, y, nx, ny);
      }
    }
  }

  // ---------------------------------------------------------------------------
  // The robot
  // ---------------------------------------------------------------------------

  /** One iteration of `Warehouse2::move_robot`: a box in the way is pushed
      for real only after a dry run says it can move. */
  function RobotStep(s: State<Tile>, m: Move): Option<State<Tile>> {
    match NextPos(s.x, s.y, m)
    case None => None
    case Some((nx, ny)) =>
      match Get(s.grid, nx, ny)
      case None => None
      case Some(next) =>
        if next == Empty then Some(State(s.grid, nx, ny))
        else if next == Wall then Some(s)
        else
          match WideBox(s.grid, nx, ny, m, true)
          case None => None
          case Some((ok, h)) =>
            if !ok then Some(State(h, s.x, s.y))
            else
              match WideBox(h, nx, ny, m, false)
              case None => None
              case Some((_, h')) => Some(State(h', nx, ny))
  }

  function RunMoves(s: State<Tile>, moves: seq<Move>): Option<State<Tile>>
    decreases |moves|
  {
    if |moves| == 0 then Some(s)
    else
      match RobotStep(s, moves[0])
      case None => None
      case Some(t) => RunMoves(t, moves[1..])
  }

  /** One move: a wall keeps everything, an empty cell takes the robot, and
      a box leaves grid and robot alone unless the dry run succeeds, in
      which case the robot steps on and the grid is the real run's. */
  lemma {:induction false} RobotStepSpec(s: State<Tile>, m: Move)
    requires RobotStep(s, m).Some?
    ensures var t := RobotStep(s, m).value;
      var (nx, ny) := Offset(s.x, s.y, m, 1);
      && nx >= 0 && ny >= 0 && InGrid(s.grid, nx, ny)
      && (s.grid[ny][nx] == Wall ==> t == s)
      && (s.grid[ny][nx] == Empty ==> t == State(s.grid, nx, ny))
      && (IsBox(s.grid[ny][nx]) ==>
            var dry := WideBox(s.grid, nx, ny, m, true).value.0;
            (!dry ==> t == s) &&
            (dry ==> WideBox(s.grid, nx, ny, m, false).Some? &&
                     t == State(WideBox(s.grid, nx, ny, m, false).value.1, nx, ny)))
  {
    var (nx, ny) := NextPos(s.x, s.y, m).value;
    if IsBox(s.grid[ny][nx]) {
      DryWideBox(s.grid, nx, ny, m);
    }
  }

  /** Walking keeps the grid's shape, and every tile count of the start
      grid survives any sequence of moves. */
  lemma {:induction false} RunMovesConserves(s: State<Tile>, moves: seq<Move>)
    requires RunMoves(s, moves).Some?
    ensures SameShape(RunMoves(s, moves).value.grid, s.grid)
    ensures Conserves(s.grid, RunMoves(s, moves).value.grid)
    decreases |moves|
  {
    if |moves| > 0 {
      var m := moves[0];
      var t := RobotStep(s, m).value;
      var (nx, ny) := NextPos(s.x, s.y, m).value;
      if IsBox(s.grid[ny][nx]) {
        DryWideBox(s.grid, nx, ny, m);
        if WideBox(s.grid, nx, ny, m, true).value.0 {
          PushWideBox(s.grid, nx, ny, m);
        }
      }
      assert SameShape(t.grid, s.grid) && Conserves(s.grid, t.grid);
      RunMovesConserves(t, moves[1..]);
    }
  }

  // ---------------------------------------------------------------------------
  // transform_input
  // ---------------------------------------------------------------------------

  /** A character `transform_input` copies unchanged. */
  predicate SingleChar(c: char) {
    c == '\n' || c == '^' || c == 'v' || c == '<' || c == '>'
  }

  /** A grid character: one that widens to two cells. */
  predicate GridChar(c: char) {
    c == '.' || c == '#' || c == '@' || c == 'O'
  }

  /** What `transform_input` writes for one character; `None` where it
      panics. */
  function Widen(c: char): (r: Option<string>)
    ensures r.Some? <==> GridChar(c) || SingleChar(c)
    ensures SingleChar(c) ==> r == Some([c])
    ensures GridChar(c) ==> |r.value| == 2
  {
    match c
    case '.' => Some("..")
    case '#' => Some("##")
    case '@' => Some("@.")
    case 'O' => Some("[]")
    case '\n' => Some("\n")
    case '^' => Some("^")
    case 'v' => Some("v")
    case '<' => Some("<")
    case '>' => Some(">")
    case _ => None
  }

  /** `transform_input`. */
  function Transform(s: string): Option<string> {
    if |s| == 0 then Some("")
    else
      match (Widen(s[0]), Transform(s[1..]))
      case (Some(w), Some(t)) => Some(w + t)
      case _ => None
  }

  /** Widening works character by character, so it can be applied to the
      grid rows and the moves separately. */
  lemma {:induction false} TransformConcat(a: string, b: string)
    ensures Transform(a + b).Some? <==> Transform(a).Some? && Transform(b).Some?
    ensures Transform(a + b).Some? ==> Transform(a + b).value == Transform(a).value + Transform(b).value
    decreases |a|
  {
    if |a| == 0 {
      assert a + b == b;
    } else {
      assert (a + b)[0] == a[0] && (a + b)[1..] == a[1..] + b;
      TransformConcat(a[1..], b);
      if Transform(a + b).Some? {
        var w := Widen(a[0]).value;
        assert w + (Transform(a[1..]).value + Transform(b).value)
          == (w + Transform(a[1..]).value) + Transform(b).value;
      }
    }
  }

  /** Reads widened text back: newlines and moves are kept, every other
      pair of characters names the cell it came from. */
  function Narrow(t: string): Option<string>
    decreases |t|
  {
    if |t| == 0 then Some("")
    else if SingleChar(t[0]) then
      match Narrow(t[1..])
      case Some(s) => Some([t[0]] + s)
      case None => None
    else if |t| < 2 then None
    else
      var c := if t[..2] == ".." then '.' else if t[..2] == "##" then '#'
        else if t[..2] == "@." then '@' else if t[..2] == "[]" then 'O' else ' ';
      if c == ' ' then None
      else
        match Narrow(t[2..])
        case Some(s) => Some([c] + s)
        case None => None
  }

  /** Widening loses nothing: the original text can be read back. */
  lemma {:induction false} NarrowTransform(s: string)
    requires Transform(s).Some?
    ensures Narrow(Transform(s).value) == Some(s)
    decreases |s|
  {
    if |s| > 0 {
      NarrowTransform(s[1..]);
      var w, t := Widen(s[0]).value, Transform(s[1..]).value;
      var u := w + t;
      if SingleChar(s[0]) {
        assert u[0] == s[0] && u[1..] == t;
      } else {
        assert u[..2] == w && u[2..] == t;
      }
      assert [s[0]] + s[1..] == s;
    }
  }

  /** A row of grid characters widens to twice its length, cell `i` to
      positions `2 * i` and `2 * i + 1`. */
  lemma {:induction false} TransformRow(r: string)
    requires forall i :: 0 <= i < |r| ==> GridChar(r[i])
    ensures Transform(r).Some?
    ensures |Transform(r).value| == 2 * |r|
    ensures forall i :: 0 <= i < |r| ==>
      Transform(r).value[2 * i] == Widen(r[i]).value[0] && Transform(r).value[2 * i + 1] == Widen(r[i]).value[1]
    decreases |r|
  {
    if |r| > 0 {
      TransformRow(r[1..]);
      var t := Transform(r[1..]).value;
      var u := Widen(r[0]).value + t;
      forall i | 0 < i < |r|
        ensures u[2 * i] == Widen(r[i]).value[0] && u[2 * i + 1] == Widen(r[i]).value[1]
      {
        assert r[1..][i - 1] == r[i];
        assert u[2 * i] == t[2 * (i - 1)];
      }
    }
  }

  // ---------------------------------------------------------------------------
  // Reading the wide warehouse
  // ---------------------------------------------------------------------------

  /** The per-character step of `parse_warehouse2`. */
  function TileOf(c: char): Option<Tile> {
    match c
    case '.' => Some(Empty)
    case '[' => Some(LeftBox)
    case ']' => Some(RightBox)
    case '#' => Some(Wall)
    case '@' => Some(Empty)
    case _ => None
  }

  /** Every half box sits next to its other half. */
  ghost predicate Paired(g: Grid<Tile>) {
    forall y, x :: InGrid(g, x, y) ==> HalvesAt(g[y], x)
  }

  /** The half box at `x`, if any, has its other half beside it. */
  predicate HalvesAt(row: seq<Tile>, x: nat)
    requires x < |row|
  {
    && (row[x] == LeftBox ==> x + 1 < |row| && row[x + 1] == RightBox)
    && (row[x] == RightBox ==> x >= 1 && row[x - 1] == LeftBox)
  }

  /** The rows `transform_input` makes from the narrow rows; `None` when a
      character cannot be widened. */
  function WideRows(rows: seq<string>): (r: Option<seq<string>>)
    ensures r.Some? ==> |r.value| == |rows|
    ensures r.Some? ==> forall y :: 0 <= y < |rows| ==> Transform(rows[y]) == Some(r.value[y])
  {
    if |rows| == 0 then Some([])
    else
      match (WideRows(rows[..|rows| - 1]), Transform(rows[|rows| - 1]))
      case (Some(ws), Some(w)) => Some(ws + [w])
      case _ => None
  }

  /** `parse_warehouse2` after nom has split the rows. */
  function ParseWarehouse(rows: seq<string>): (r: Option<State<Tile>>)
    ensures r.Some? ==> InGrid(r.value.grid, r.value.x, r.value.y)
    ensures r.Some? ==> r.value.grid[r.value.y][r.value.x] == Empty
  {
    match (GridOf(rows, TileOf), RobotAt(rows))
    case (Some(g), Some((x, y))) => Some(State(g, x, y))
    case _ => None
  }

  /** In widened text every `[` is followed by `]`, every `]` follows a
      `[`, and the robot stands at an even position. */
  predicate PairedText(t: string) {
    forall x :: 0 <= x < |t| ==> PairAt(t, x)
  }

  predicate PairAt(t: string, x: nat)
    requires x < |t|
  {
    && (t[x] == '[' ==> x + 1 < |t| && t[x + 1] == ']')
    && (t[x] == ']' ==> x >= 1 && t[x - 1] == '[')
    && (t[x] == '@' ==> x % 2 == 0)
  }

  lemma {:induction false} WideText(r: string)
    requires forall i :: 0 <= i < |r| ==> GridChar(r[i])
    ensures Transform(r).Some? && PairedText(Transform(r).value)
    decreases |r|
  {
    if |r| > 0 {
      WideText(r[1..]);
      var w, t := Widen(r[0]).value, Transform(r[1..]).value;
      var u := w + t;
      forall x | 0 <= x < |u|
        ensures PairAt(u, x)
      {
        if x >= 2 {
          assert u[x] == t[x - 2];
          assert PairAt(t, x - 2);
          if u[x] == '[' {
            assert u[x + 1] == t[x - 1];
          }
          assert u[x - 1] == if x == 2 then w[1] else t[x - 3];
        }
      }
    }
  }

  /** A row read from widened text pairs its box halves. */
  lemma {:induction false} RowPaired(t: string, tiles: seq<Tile>)
    requires PairedText(t) && |tiles| == |t|
    requires forall x :: 0 <= x < |t| ==> TileOf(t[x]) == Some(tiles[x])
    ensures forall x :: 0 <= x < |tiles| ==> HalvesAt(tiles, x)
  {
    forall x | 0 <= x < |tiles|
      ensures HalvesAt(tiles, x)
    {
      assert PairAt(t, x);
      assert TileOf(t[x]) == Some(tiles[x]);
      if x + 1 < |t| {
        assert TileOf(t[x + 1]) == Some(tiles[x + 1]);
      }
      if x >= 1 {
        assert TileOf(t[x - 1]) == Some(tiles[x - 1]);
      }
    }
  }

  lemma {:induction false} GridRow(ws: seq<string>, g: Grid<Tile>, y: nat)
    requires GridOf(ws, TileOf) == Some(g) && y < |ws|
    ensures |g[y]| == |ws[y]|
    ensures forall x :: 0 <= x < |ws[y]| ==> TileOf(ws[y][x]) == Some(g[y][x])
  {
  }

  /** A grid read from widened rows pairs its box halves. */
  lemma {:induction false} GridPaired(ws: seq<string>, g: Grid<Tile>)
    requires forall y :: 0 <= y < |ws| ==> PairedText(ws[y])
    requires GridOf(ws, TileOf) == Some(g)
    ensures Paired(g)
  {
    forall y | 0 <= y < |g|
      ensures forall x :: 0 <= x < |g[y]| ==> HalvesAt(g[y], x)
    {
      GridRow(ws, g, y);
      RowPaired(ws[y], g[y]);
    }
  }

  /** The warehouse part 2 starts from holds whole boxes only, and the
      robot stands on the left cell of what was its narrow cell. */
  lemma {:induction false} WideStart(rows: seq<string>)
    requires forall y, i :: 0 <= y < |rows| && 0 <= i < |rows[y]| ==> GridChar(rows[y][i])
    requires WideRows(rows).Some? && ParseWarehouse(WideRows(rows).value).Some?
    ensures var s := ParseWarehouse(WideRows(rows).value).value;
      Paired(s.grid) && s.x % 2 == 0
  {
    var ws := WideRows(rows).value;
    forall y | 0 <= y < |ws| ensures PairedText(ws[y]) {
      WideText(rows[y]);
    }
    GridPaired(ws, GridOf(ws, TileOf).value);
    var s := ParseWarehouse(ws).value;
    assert ws[s.y][s.x] == '@' && PairAt(ws[s.y], s.x);
  }

  // ---------------------------------------------------------------------------
  // Part 2
  // ---------------------------------------------------------------------------

  /** `process_part2` from the narrow grid rows and the move text: widen
      both, read the wide grid, walk, and add up the GPS coordinates of the
      left halves. */
  function Part2(rows: seq<string>, moves: string): Option<nat> {
    match (WideRows(rows), Transform(moves))
    case (Some(ws), Some(wm)) =>
      (match (ParseWarehouse(ws), ParseMoves(wm))
       case (Some(s), Some(ms)) =>
         (match RunMoves(s, ms)
          case Some(t) => Some(GpsSum(t.grid, LeftBox))
          case None => None)
       case _ => None)
    case _ => None
  }
}
