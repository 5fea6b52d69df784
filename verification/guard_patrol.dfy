/** Day 6: a guard walks through a lab. She keeps walking in the direction
    she faces; in front of an obstruction she turns right instead. Part 1
    counts the cells she visits before she walks off the lab; part 2 counts
    the cells where one new obstruction would trap her in a loop. */
module GuardPatrol {
  import opened Wrappers
  import opened TextLines
  import Decimal

  datatype Location = Path | Obstruction

  datatype Direction = Up | Down | Left | Right

  datatype Guard = Guard(x: nat, y: nat, dir: Direction)

  /** Rows of locations; `lab[y][x]` is column `x` of row `y`. */
  type Lab = seq<seq<Location>>

  /** At least one row and one column, every row as wide as the first, which
      is the width the walk uses. */
  predicate Rectangular(lab: Lab) {
    |lab| >= 1 && |lab[0]| >= 1 && forall y :: 0 <= y < |lab| ==> |lab[y]| == |lab[0]|
  }

  predicate OnLab(lab: Lab, x: nat, y: nat) {
    y < |lab| && x < |lab[y]|
  }

  // ---------------------------------------------------------------------------
  // Turning and stepping
  // ---------------------------------------------------------------------------

  /** `Guard::turn`. */
  function Turn(d: Direction): Direction {
    match d
    case Up => Right
    case Right => Down
    case Down => Left
    case Left => Up
  }

  /** The move a direction makes, with `y` growing downwards. */
  function Delta(d: Direction): (int, int) {
    match d
    case Up => (0, -1)
    case Down => (0, 1)
    case Left => (-1, 0)
    case Right => (1, 0)
  }

  /** A turn is a quarter turn clockwise, so four turns change nothing. */
  lemma {:induction false} TurnClockwise(d: Direction)
    ensures Delta(Turn(d)) == (-Delta(d).1, Delta(d).0)
    ensures Turn(d) != d && Turn(Turn(Turn(Turn(d)))) == d
  {
  }

  /** The cell the guard faces; `None` when she faces out of the lab, where
      the source's loop breaks. */
  function Ahead(lab: Lab, g: Guard): (r: Option<(nat, nat)>)
    requires Rectangular(lab) && OnLab(lab, g.x, g.y)
    ensures r.Some? <==>
      0 <= g.x + Delta(g.dir).0 < |lab[0]| && 0 <= g.y + Delta(g.dir).1 < |lab|
    ensures r.Some? ==> r.value.0 == g.x + Delta(g.dir).0 && r.value.1 == g.y + Delta(g.dir).1
  {
    var width := |lab[0]|;
    var height := |lab|;
    match g.dir
    case Up => if g.y > 0 then Some((g.x, g.y - 1)) else None
    case Down => if g.y < height - 1 then Some((g.x, g.y + 1)) else None
    case Left => if g.x > 0 then Some((g.x - 1, g.y)) else None
    case Right => if g.x < width - 1 then Some((g.x + 1, g.y)) else None
  }

  datatype Outcome = Leaves | At(guard: Guard)

  /** One pass of the loop body: leave the lab, step forward onto a path,
      or turn in place before an obstruction. */
  function Step(lab: Lab, g: Guard): (r: Outcome)
    requires Rectangular(lab) && OnLab(lab, g.x, g.y)
    ensures r.Leaves? <==> Ahead(lab, g).None?
    ensures r.At? ==> OnLab(lab, r.guard.x, r.guard.y)
    ensures r.At? ==>
      || (r.guard.dir == g.dir && r.guard.x == g.x + Delta(g.dir).0 && r.guard.y == g.y + Delta(g.dir).1
          && lab[r.guard.y][r.guard.x] == Path)
      || (r.guard == Guard(g.x, g.y, Turn(g.dir))
          && lab[g.y + Delta(g.dir).1][g.x + Delta(g.dir).0] == Obstruction)
  {
    match Ahead(lab, g)
    case None => Leaves
    case Some((x, y)) =>
      match lab[y][x]
      case Path => At(Guard(x, y, g.dir))
      case Obstruction => At(Guard(g.x, g.y, Turn(g.dir)))
  }

  /** The guard after `n` passes of the loop; `None` once she has left. */
  function After(lab: Lab, g: Guard, n: nat): (r: Option<Guard>)
    requires Rectangular(lab) && OnLab(lab, g.x, g.y)
    ensures r.Some? ==> OnLab(lab, r.value.x, r.value.y)
    decreases n
  {
    if n == 0 then Some(g)
    else
      match Step(lab, g)
      case Leaves => None
      case At(h) => After(lab, h, n - 1)
  }

  /** The guard never leaves the lab. */
  ghost predicate Forever(lab: Lab, g: Guard)
    requires Rectangular(lab) && OnLab(lab, g.x, g.y)
  {
    forall n: nat :: After(lab, g, n).Some?
  }

  /** Walking `a` steps and then `m` more is walking `a + m`. */
  lemma {:induction false} AfterAdd(lab: Lab, g: Guard, a: nat, m: nat)
    requires Rectangular(lab) && OnLab(lab, g.x, g.y) && After(lab, g, a).Some?
    ensures After(lab, g, a + m) == After(lab, After(lab, g, a).value, m)
    decreases a
  {
    if a > 0 {
      AfterAdd(lab, Step(lab, g).guard, a - 1, m);
    }
  }

  /** A guard still on the lab after `n` steps was on it before. */
  lemma {:induction false} AfterPrefix(lab: Lab, g: Guard, m: nat, n: nat)
    requires Rectangular(lab) && OnLab(lab, g.x, g.y) && m <= n && After(lab, g, n).Some?
    ensures After(lab, g, m).Some?
    decreases m
  {
    if m > 0 {
      AfterPrefix(lab, Step(lab, g).guard, m - 1, n - 1);
    }
  }

  /** A guard back in her own state after `p` steps walks for ever. */
  lemma {:induction false} Periodic(lab: Lab, s: Guard, p: nat, m: nat)
    requires Rectangular(lab) && OnLab(lab, s.x, s.y) && p >= 1 && After(lab, s, p) == Some(s)
    ensures After(lab, s, m).Some?
    decreases m
  {
    if m < p {
      AfterPrefix(lab, s, m, p);
    } else {
      AfterAdd(lab, s, p, m - p);
      Periodic(lab, s, p, m - p);
    }
  }

  /** A state met twice means the walk never ends. */
  lemma {:induction false} RepeatForever(lab: Lab, g: Guard, j: nat, k: nat)
    requires Rectangular(lab) && OnLab(lab, g.x, g.y) && j < k
    requires After(lab, g, j).Some? && After(lab, g, j) == After(lab, g, k)
    ensures Forever(lab, g)
  {
    var s := After(lab, g, j).value;
    AfterAdd(lab, g, j, k - j);
    forall n: nat
      ensures After(lab, g, n).Some?
    {
      if n <= k {
        AfterPrefix(lab, g, n, k);
      } else {
        AfterAdd(lab, g, j, n - j);
        Periodic(lab, s, k - j, n - j);
      }
    }
  }

  // ---------------------------------------------------------------------------
  // Loop detection (part 2)
  // ---------------------------------------------------------------------------

  const Directions: set<Direction> := {Up, Down, Left, Right}

  /** Every state a guard on the lab can be in. */
  ghost function States(lab: Lab): set<Guard>
    requires Rectangular(lab)
  {
    set x: nat, y: nat, d: Direction | y < |lab| && x < |lab[0]| && d in Directions :: Guard(x, y, d)
  }

  lemma {:induction false} StateIn(lab: Lab, g: Guard)
    requires Rectangular(lab) && OnLab(lab, g.x, g.y)
    ensures g in States(lab)
  {
    assert g.dir in Directions by {
      match g.dir
      case Up =>
      case Down =>
      case Left =>
      case Right =>
    }
    assert |lab[g.y]| == |lab[0]|;
    assert g == Guard(g.x, g.y, g.dir);
  }

  /** Remembering one more state leaves fewer states unseen. */
  lemma {:induction false} Shrinks(lab: Lab, g: Guard, seen: set<Guard>)
    requires Rectangular(lab) && OnLab(lab, g.x, g.y) && seen <= States(lab) && g !in seen
    ensures seen + {g} <= States(lab)
    ensures |States(lab) - (seen + {g})| < |States(lab) - seen|
  {
    StateIn(lab, g);
    assert States(lab) - (seen + {g}) < States(lab) - seen;
  }

  /** The `filter` closure of `process_part2`: walk, remembering every
      state, until the guard leaves (`false`) or is in a state she was in
      before (`true`). */
  function Loops(lab: Lab, g: Guard, seen: set<Guard>): bool
    requires Rectangular(lab) && OnLab(lab, g.x, g.y) && seen <= States(lab)
    decreases |States(lab) - seen|
  {
    if g in seen then true
    else
      match Step(lab, g)
      case Leaves => false
      case At(h) =>
        Shrinks(lab, g, seen);
        Loops(lab, h, seen + {g})
  }

  /** The states of the first `k` steps. */
  ghost function History(lab: Lab, g: Guard, k: nat): set<Guard>
    requires Rectangular(lab) && OnLab(lab, g.x, g.y)
  {
    set j | 0 <= j < k && After(lab, g, j).Some? :: After(lab, g, j).value
  }

  lemma {:induction false} HistoryNext(lab: Lab, g: Guard, k: nat)
    requires Rectangular(lab) && OnLab(lab, g.x, g.y) && After(lab, g, k).Some?
    ensures History(lab, g, k) <= States(lab)
    ensures History(lab, g, k + 1) == History(lab, g, k) + {After(lab, g, k).value}
  {
    forall s | s in History(lab, g, k)
      ensures s in States(lab)
    {
      StateIn(lab, s);
    }
  }

  /** Meeting a state of the history again means walking for ever. */
  lemma {:induction false} SeenForever(lab: Lab, g0: Guard, k: nat)
    requires Rectangular(lab) && OnLab(lab, g0.x, g0.y)
    requires After(lab, g0, k).Some? && After(lab, g0, k).value in History(lab, g0, k)
    ensures Forever(lab, g0)
  {
    var j :| 0 <= j < k && After(lab, g0, j).Some? && After(lab, g0, j).value == After(lab, g0, k).value;
    RepeatForever(lab, g0, j, k);
  }

  /** Walking on from the state of step `k`, having seen the states before
      it, detects a loop exactly when the walk from the start never ends. */
  lemma {:induction false} LoopsSpec(lab: Lab, g0: Guard, k: nat, g: Guard, seen: set<Guard>)
    requires Rectangular(lab) && OnLab(lab, g0.x, g0.y)
    requires After(lab, g0, k) == Some(g) && seen == History(lab, g0, k)
    ensures OnLab(lab, g.x, g.y) && seen <= States(lab)
    ensures Loops(lab, g, seen) <==> Forever(lab, g0)
    decreases |States(lab) - seen|
  {
    HistoryNext(lab, g0, k);
    if g in seen {
      SeenForever(lab, g0, k);
    } else {
      AfterAdd(lab, g0, k, 1);
      match Step(lab, g)
      case Leaves =>
      case At(h) =>
        Shrinks(lab, g, seen);
        LoopsSpec(lab, g0, k + 1, h, seen + {g});
    }
  }

  /** The detection from a fresh start. */
  lemma {:induction false} LoopsForever(lab: Lab, g: Guard)
    requires Rectangular(lab) && OnLab(lab, g.x, g.y)
    ensures Loops(lab, g, {}) <==> Forever(lab, g)
  {
    assert History(lab, g, 0) == {};
    LoopsSpec(lab, g, 0, g, {});
  }

  // ---------------------------------------------------------------------------
  // Part 1: the cells visited
  // ---------------------------------------------------------------------------

  /** The walk of `process_part1`, marking every cell the guard stands on.
      The source keeps no states; `seen` lets the model stop with `None`
      where the source's loop would never end. */
  function Patrol(lab: Lab, g: Guard, seen: set<Guard>, visited: set<(nat, nat)>): Option<set<(nat, nat)>>
    requires Rectangular(lab) && OnLab(lab, g.x, g.y) && seen <= States(lab)
    decreases |States(lab) - seen|
  {
    if g in seen then None
    else
      var marked := visited + {(g.x, g.y)};
      match Step(lab, g)
      case Leaves => Some(marked)
      case At(h) =>
        Shrinks(lab, g, seen);
        Patrol(lab, h, seen + {g}, marked)
  }

  /** The cells of the first `k` steps. */
  ghost function Walked(lab: Lab, g: Guard, k: nat): set<(nat, nat)>
    requires Rectangular(lab) && OnLab(lab, g.x, g.y)
  {
    set j | 0 <= j < k && After(lab, g, j).Some? :: (After(lab, g, j).value.x, After(lab, g, j).value.y)
  }

  lemma {:induction false} WalkedNext(lab: Lab, g: Guard, k: nat)
    requires Rectangular(lab) && OnLab(lab, g.x, g.y) && After(lab, g, k).Some?
    ensures Walked(lab, g, k + 1) == Walked(lab, g, k) + {(After(lab, g, k).value.x, After(lab, g, k).value.y)}
  {
  }

  /** Walking on from step `k`, having marked the cells before it: the
      walk ends exactly when the guard leaves, and then it has marked the
      cells of every step up to the last. */
  lemma {:induction false} PatrolSpec(lab: Lab, g0: Guard, k: nat, g: Guard, seen: set<Guard>, visited: set<(nat, nat)>)
    requires Rectangular(lab) && OnLab(lab, g0.x, g0.y)
    requires After(lab, g0, k) == Some(g) && seen == History(lab, g0, k) && visited == Walked(lab, g0, k)
    ensures OnLab(lab, g.x, g.y) && seen <= States(lab)
    ensures Patrol(lab, g, seen, visited).None? <==> Forever(lab, g0)
    ensures Patrol(lab, g, seen, visited).Some? ==> exists n: nat ::
      After(lab, g0, n).Some? && After(lab, g0, n + 1).None?
      && Patrol(lab, g, seen, visited).value == Walked(lab, g0, n + 1)
    decreases |States(lab) - seen|
  {
    HistoryNext(lab, g0, k);
    if g in seen {
      SeenForever(lab, g0, k);
    } else {
      AfterAdd(lab, g0, k, 1);
      WalkedNext(lab, g0, k);
      match Step(lab, g)
      case Leaves =>
        assert After(lab, g0, k).Some? && After(lab, g0, k + 1).None?;
      case At(h) =>
        Shrinks(lab, g, seen);
        PatrolSpec(lab, g0, k + 1, h, seen + {g}, visited + {(g.x, g.y)});
    }
  }

  /** `process_part1` on a parsed lab: the number of cells visited; `None`
      where the source's walk never ends. */
  function Part1(lab: Lab, g: Guard): Option<nat>
    requires Rectangular(lab) && OnLab(lab, g.x, g.y)
  {
    match Patrol(lab, g, {}, {})
    case None => None
    case Some(visited) => Some(|visited|)
  }

  /** The cells of a `w` by `h` lab. */
  ghost function Cells(w: nat, h: nat): set<(nat, nat)> {
    set x: nat, y: nat | x < w && y < h :: (x, y)
  }

  ghost function RowCells(w: nat, y: nat): set<(nat, nat)> {
    set x: nat | x < w :: (x, y)
  }

  lemma {:induction false} RowCellsSize(w: nat, y: nat)
    ensures |RowCells(w, y)| == w
    decreases w
  {
    if w > 0 {
      RowCellsSize(w - 1, y);
      assert RowCells(w, y) == RowCells(w - 1, y) + {(w - 1, y)};
    }
  }

  lemma {:induction false} CellsSize(w: nat, h: nat)
    ensures |Cells(w, h)| == w * h
    decreases h
  {
    if h > 0 {
      CellsSize(w, h - 1);
      RowCellsSize(w, h - 1);
      CellsLastRow(w, h);
      var above, row := Cells(w, h - 1), RowCells(w, h - 1);
      assert |above + row| == |above| + |row|;
      assert w * h == w * (h - 1) + w;
    }
  }

  lemma {:induction false} CellsLastRow(w: nat, h: nat)
    requires h > 0
    ensures Cells(w, h) == Cells(w, h - 1) + RowCells(w, h - 1)
    ensures Cells(w, h - 1) * RowCells(w, h - 1) == {}
  {
  }

  /** A guard who starts on a path only ever stands on paths. */
  lemma {:induction false} AfterOnPath(lab: Lab, g: Guard, n: nat)
    requires Rectangular(lab) && OnLab(lab, g.x, g.y) && lab[g.y][g.x] == Path
    ensures After(lab, g, n).Some? ==> lab[After(lab, g, n).value.y][After(lab, g, n).value.x] == Path
    decreases n
  {
    if n > 0 && Step(lab, g).At? {
      AfterOnPath(lab, Step(lab, g).guard, n - 1);
    }
  }

  /** The walked cells lie on the lab, and on paths when the start does. */
  lemma {:induction false} WalkedCells(lab: Lab, g: Guard, k: nat)
    requires Rectangular(lab) && OnLab(lab, g.x, g.y)
    ensures Walked(lab, g, k) <= Cells(|lab[0]|, |lab|)
    ensures lab[g.y][g.x] == Path ==> forall c :: c in Walked(lab, g, k) ==> lab[c.1][c.0] == Path
  {
    forall c | c in Walked(lab, g, k)
      ensures c in Cells(|lab[0]|, |lab|)
      ensures lab[g.y][g.x] == Path ==> lab[c.1][c.0] == Path
    {
      var j :| 0 <= j < k && After(lab, g, j).Some? && c == (After(lab, g, j).value.x, After(lab, g, j).value.y);
      if lab[g.y][g.x] == Path {
        AfterOnPath(lab, g, j);
      }
    }
  }

  /** Part 1 answers exactly when the guard leaves, and then counts the
      distinct cells of her walk: the start, at most every cell, and only
      paths. */
  lemma {:induction false} Part1Spec(lab: Lab, g: Guard)
    requires Rectangular(lab) && OnLab(lab, g.x, g.y)
    ensures Part1(lab, g).None? <==> Forever(lab, g)
    ensures Part1(lab, g).Some? ==> exists n: nat ::
      After(lab, g, n).Some? && After(lab, g, n + 1).None?
      && Part1(lab, g).value == |Walked(lab, g, n + 1)|
    ensures Part1(lab, g).Some? ==> 1 <= Part1(lab, g).value <= |lab[0]| * |lab|
  {
    assert History(lab, g, 0) == {} && Walked(lab, g, 0) == {};
    PatrolSpec(lab, g, 0, g, {}, {});
    if Part1(lab, g).Some? {
      var n: nat :| After(lab, g, n).Some? && After(lab, g, n + 1).None?
        && Patrol(lab, g, {}, {}).value == Walked(lab, g, n + 1);
      WalkedCells(lab, g, n + 1);
      CellsSize(|lab[0]|, |lab|);
      assert (g.x, g.y) in Walked(lab, g, n + 1);
      SubsetSize(Walked(lab, g, n + 1), Cells(|lab[0]|, |lab|));
    }
  }

  lemma {:induction false} SubsetSize<T>(a: set<T>, b: set<T>)
    requires a <= b
    ensures |a| <= |b|
  {
    assert b == a + (b - a);
  }

  // ---------------------------------------------------------------------------
  // Part 2: the obstructions that trap the guard
  // ---------------------------------------------------------------------------

  /** The lab with an obstruction put at `c`. */
  function Block(lab: Lab, c: (nat, nat)): (r: Lab)
    requires Rectangular(lab) && OnLab(lab, c.0, c.1)
    ensures Rectangular(r) && |r| == |lab| && |r[0]| == |lab[0]| && r[c.1][c.0] == Obstruction
    ensures forall x: nat, y: nat :: OnLab(lab, x, y) && (x, y) != c ==> r[y][x] == lab[y][x]
  {
    lab[c.1 := lab[c.1][c.0 := Obstruction]]
  }

  /** Reading order. */
  predicate Before(c: (nat, nat), d: (nat, nat)) {
    c.1 < d.1 || (c.1 == d.1 && c.0 < d.0)
  }

  /** The candidates among the first `n` cells of row `y`: paths other
      than the guard's start, left to right. */
  function CandidatesIn(lab: Lab, g: Guard, y: nat, n: nat): (r: seq<(nat, nat)>)
    requires Rectangular(lab) && y < |lab| && n <= |lab[0]|
    ensures forall i :: 0 <= i < |r| ==>
      r[i].1 == y && r[i].0 < n && OnLab(lab, r[i].0, y) && lab[y][r[i].0] == Path && r[i] != (g.x, g.y)
    ensures forall x: nat :: x < n && lab[y][x] == Path && (x, y) != (g.x, g.y) ==> (x, y) in r
    ensures forall i, j :: 0 <= i < j < |r| ==> r[i].0 < r[j].0
  {
    if n == 0 then []
    else
      var x := n - 1;
      CandidatesIn(lab, g, y, x) + (if lab[y][x] == Path && (x, y) != (g.x, g.y) then [(x, y)] else [])
  }

  /** The candidates of the first `rows` rows, in reading order: the cells
      `process_part2` tries. */
  function Candidates(lab: Lab, g: Guard, rows: nat): (r: seq<(nat, nat)>)
    requires Rectangular(lab) && rows <= |lab|
    ensures forall i :: 0 <= i < |r| ==>
      r[i].1 < rows && OnLab(lab, r[i].0, r[i].1) && lab[r[i].1][r[i].0] == Path && r[i] != (g.x, g.y)
    ensures forall x: nat, y: nat :: y < rows && x < |lab[0]| && lab[y][x] == Path && (x, y) != (g.x, g.y) ==> (x, y) in r
    ensures forall i, j :: 0 <= i < j < |r| ==> Before(r[i], r[j])
  {
    if rows == 0 then [] else Candidates(lab, g, rows - 1) + CandidatesIn(lab, g, rows - 1, |lab[0]|)
  }

  /** How many of `cs` trap the guard, as the `filter` and `count` of
      `process_part2` find it. */
  function CountLoops(lab: Lab, g: Guard, cs: seq<(nat, nat)>): nat
    requires Rectangular(lab) && OnLab(lab, g.x, g.y)
    requires forall i :: 0 <= i < |cs| ==> OnLab(lab, cs[i].0, cs[i].1)
  {
    if |cs| == 0 then 0
    else
      var c := cs[|cs| - 1];
      CountLoops(lab, g, cs[..|cs| - 1]) + (if Loops(Block(lab, c), g, {}) then 1 else 0)
  }

  /** `process_part2` on a parsed lab. */
  function Part2(lab: Lab, g: Guard): nat
    requires Rectangular(lab) && OnLab(lab, g.x, g.y)
  {
    CountLoops(lab, g, Candidates(lab, g, |lab|))
  }

  /** The cells of `cs` where an obstruction traps the guard. */
  ghost function TrappingIn(lab: Lab, g: Guard, cs: seq<(nat, nat)>): set<(nat, nat)>
    requires Rectangular(lab) && OnLab(lab, g.x, g.y)
    requires forall i :: 0 <= i < |cs| ==> OnLab(lab, cs[i].0, cs[i].1)
  {
    set i | 0 <= i < |cs| && Forever(Block(lab, cs[i]), g) :: cs[i]
  }

  lemma {:induction false} TrappingSnoc(lab: Lab, g: Guard, cs: seq<(nat, nat)>)
    requires Rectangular(lab) && OnLab(lab, g.x, g.y) && |cs| > 0
    requires forall i :: 0 <= i < |cs| ==> OnLab(lab, cs[i].0, cs[i].1)
    ensures var n := |cs| - 1;
      TrappingIn(lab, g, cs) == TrappingIn(lab, g, cs[..n]) + (if Forever(Block(lab, cs[n]), g) then {cs[n]} else {})
  {
    var n := |cs| - 1;
    assert forall i :: 0 <= i < n ==> cs[..n][i] == cs[i];
  }

  /** In reading order the last cell comes after all the others. */
  lemma {:induction false} TrappingFresh(lab: Lab, g: Guard, cs: seq<(nat, nat)>)
    requires Rectangular(lab) && OnLab(lab, g.x, g.y) && |cs| > 0
    requires forall i :: 0 <= i < |cs| ==> OnLab(lab, cs[i].0, cs[i].1)
    requires forall i, j :: 0 <= i < j < |cs| ==> Before(cs[i], cs[j])
    ensures cs[|cs| - 1] !in TrappingIn(lab, g, cs[..|cs| - 1])
  {
    var n := |cs| - 1;
    forall i | 0 <= i < n
      ensures cs[..n][i] != cs[n]
    {
      assert Before(cs[i], cs[n]);
    }
  }

  lemma {:induction false} CountLoopsSpec(lab: Lab, g: Guard, cs: seq<(nat, nat)>)
    requires Rectangular(lab) && OnLab(lab, g.x, g.y)
    requires forall i :: 0 <= i < |cs| ==> OnLab(lab, cs[i].0, cs[i].1)
    requires forall i, j :: 0 <= i < j < |cs| ==> Before(cs[i], cs[j])
    ensures CountLoops(lab, g, cs) == |TrappingIn(lab, g, cs)|
    decreases |cs|
  {
    if |cs| > 0 {
      var n := |cs| - 1;
      CountLoopsSpec(lab, g, cs[..n]);
      LoopsForever(Block(lab, cs[n]), g);
      TrappingSnoc(lab, g, cs);
      TrappingFresh(lab, g, cs);
    }
  }

  /** The cells where one new obstruction traps the guard for ever: paths
      other than her start. */
  ghost function Trapping(lab: Lab, g: Guard): set<(nat, nat)>
    requires Rectangular(lab) && OnLab(lab, g.x, g.y)
  {
    set x: nat, y: nat | y < |lab| && x < |lab[0]| && lab[y][x] == Path && (x, y) != (g.x, g.y)
      && Forever(Block(lab, (x, y)), g) :: (x, y)
  }

  /** Part 2 counts exactly the trapping cells. */
  lemma {:induction false} Part2Spec(lab: Lab, g: Guard)
    requires Rectangular(lab) && OnLab(lab, g.x, g.y)
    ensures Part2(lab, g) == |Trapping(lab, g)|
  {
    var cs := Candidates(lab, g, |lab|);
    CountLoopsSpec(lab, g, cs);
    assert TrappingIn(lab, g, cs) == Trapping(lab, g);
  }

  // ---------------------------------------------------------------------------
  // Location::parse and parse_guard
  // ---------------------------------------------------------------------------

  /** `Location::parse` on one character; `None` where `one_of` fails. The
      guard's `^` stands on a path. */
  function ParseLocation(c: char): (r: Option<Location>)
    ensures r.Some? <==> c == '.' || c == '#' || c == '^'
    ensures r == Some(Obstruction) <==> c == '#'
  {
    match c
    case '.' => Some(Path)
    case '^' => Some(Path)
    case '#' => Some(Obstruction)
    case _ => None
  }

  /** The character a location is drawn with. */
  function ShowLocation(l: Location): char {
    match l
    case Path => '.'
    case Obstruction => '#'
  }

  lemma {:induction false} ParseShowLocation(l: Location)
    ensures ParseLocation(ShowLocation(l)) == Some(l)
  {
  }

  /** `str::find` for one character: the first index that holds `c`. */
  function Find(s: string, c: char): (r: Option<nat>)
    ensures r.Some? <==> c in s
    ensures r.Some? ==> r.value < |s| && s[r.value] == c && forall k :: 0 <= k < r.value ==> s[k] != c
  {
    if |s| == 0 then None
    else if s[0] == c then Some(0)
    else
      assert s == [s[0]] + s[1..];
      match Find(s[1..], c)
      case None => None
      case Some(i) => Some(i + 1)
  }

  /** The first occurrence is the one `Find` reports. */
  lemma {:induction false} FindAt(s: string, c: char, i: nat)
    requires i < |s| && s[i] == c
    requires forall k :: 0 <= k < i ==> s[k] != c
    ensures Find(s, c) == Some(i)
  {
    assert c in s;
  }

  lemma {:induction false} CountAtMost(s: string, c: char)
    ensures multiset(s)[c] <= |s|
  {
    assert multiset(s)[c] <= |multiset(s)|;
  }

  /** `parse_guard`: the row of the first `^` is the number of newlines
      before it, and its column is `(byte_pos - y) % line_length`, where
      `line_length` is the position of the first newline. `None` where an
      `expect` panics, and where the first newline opens the text, which
      makes the remainder a division by zero. */
  function ParseGuard(input: string): Option<Guard> {
    match (Find(input, '^'), Find(input, '\n'))
    case (Some(bytePos), Some(lineLength)) =>
      var before := input[..bytePos];
      var y := multiset(before)['\n'];
      CountAtMost(before, '\n');
      if lineLength == 0 then None
      else Some(Guard((bytePos - y) % lineLength, y, Up))
    case _ => None
  }

  /** Lab rows of one width `w`, written out with newlines between them. */
  predicate LabRows(rows: seq<string>, w: nat) {
    forall i :: 0 <= i < |rows| ==> |rows[i]| == w && '\n' !in rows[i]
  }

  /** The guard in the first row. */
  lemma {:induction false} FirstRowGuard(rows: seq<string>, w: nat, x: nat)
    requires w >= 1 && |rows| >= 2 && LabRows(rows, w)
    requires x < w && rows[0][x] == '^'
    requires forall i: nat :: i < x ==> rows[0][i] != '^'
    ensures Find(Join(rows, '\n'), '^') == Some(x)
    ensures multiset(Join(rows, '\n')[..x])['\n'] == 0
  {
    var s := Join(rows, '\n');
    JoinHead(rows, '\n');
    assert s[..x] == rows[0][..x];
    assert forall k :: 0 <= k < x ==> s[k] == rows[0][k];
    assert s[x] == '^';
    assert '\n' !in s[..x];
    FindAt(s, '^', x);
  }

  /** The guard in a later row: `y` rows of `w + 1` characters precede it. */
  lemma {:induction false} LaterRowGuard(rows: seq<string>, w: nat, x: nat, y: nat)
    requires w >= 1 && LabRows(rows, w)
    requires 0 < y < |rows| && x < w && rows[y][x] == '^'
    requires forall j: nat, i: nat :: j < y && i < w ==> rows[j][i] != '^'
    requires forall i: nat :: i < x ==> rows[y][i] != '^'
    ensures Find(Join(rows, '\n'), '^') == Some(y * (w + 1) + x)
    ensures multiset(Join(rows, '\n')[..y * (w + 1) + x])['\n'] == y
  {
    LaterRowAvoids(rows, w, x, y);
    FindAt(Join(rows, '\n'), '^', y * (w + 1) + x);
    LaterRowCount(rows, w, x, y);
  }

  /** Nothing before column `x` of row `y` is a `^`, and that cell is. */
  lemma {:induction false} LaterRowAvoids(rows: seq<string>, w: nat, x: nat, y: nat)
    requires w >= 1 && LabRows(rows, w)
    requires 0 < y < |rows| && x < w && rows[y][x] == '^'
    requires forall j: nat, i: nat :: j < y && i < w ==> rows[j][i] != '^'
    requires forall i: nat :: i < x ==> rows[y][i] != '^'
    ensures y * (w + 1) + x < |Join(rows, '\n')| && Join(rows, '\n')[y * (w + 1) + x] == '^'
    ensures forall k :: 0 <= k < y * (w + 1) + x ==> Join(rows, '\n')[k] != '^'
  {
    var s := Join(rows, '\n');
    var pos := y * (w + 1) + x;
    var a := Join(rows[..y], '\n');
    var b := Join(rows[y..], '\n');
    RowSplit(rows, w, y);
    forall i | 0 <= i < y
      ensures '^' !in rows[..y][i]
    {
      assert forall k :: 0 <= k < w ==> rows[i][k] != '^';
    }
    JoinAvoids(rows[..y], '\n', '^');
    forall k | 0 <= k < pos
      ensures s[k] != '^'
    {
      if k < |a| {
        assert s[k] == a[k];
      } else if k > |a| {
        assert s[k] == b[k - |a| - 1] == rows[y][k - |a| - 1];
      }
    }
    assert s[pos] == b[x] == rows[y][x];
  }

  /** The text splits before row `y`, after `y` rows and their newlines. */
  lemma {:induction false} RowSplit(rows: seq<string>, w: nat, y: nat)
    requires w >= 1 && LabRows(rows, w) && 0 < y < |rows|
    ensures var a := Join(rows[..y], '\n');
      && Join(rows, '\n') == a + ['\n'] + Join(rows[y..], '\n')
      && |a| + 1 == y * (w + 1)
      && Join(rows[y..], '\n')[..w] == rows[y]
  {
    JoinAt(rows, '\n', y);
    JoinHead(rows[y..], '\n');
    JoinWidth(rows[..y], '\n', w);
    Decimal.MulSucc(y, w);
  }

  /** The newlines before the guard are the `y` that end earlier rows. */
  lemma {:induction false} LaterRowCount(rows: seq<string>, w: nat, x: nat, y: nat)
    requires w >= 1 && LabRows(rows, w) && 0 < y < |rows| && x < w
    ensures y * (w + 1) + x <= |Join(rows, '\n')|
      && multiset(Join(rows, '\n')[..y * (w + 1) + x])['\n'] == y
  {
    var s := Join(rows, '\n');
    var a := Join(rows[..y], '\n');
    RowSplit(rows, w, y);
    assert s[..y * (w + 1) + x] == a + ['\n'] + rows[y][..x];
    JoinCount(rows[..y], '\n');
    assert '\n' !in rows[y][..x];
  }

  /** The first `^` of rows of one width, read in reading order, is at
      column `x` of row `y`: then `parse_guard` finds the guard there,
      facing up. */
  lemma {:induction false} ParseGuardSpec(rows: seq<string>, w: nat, x: nat, y: nat)
    requires w >= 1 && |rows| >= 2 && LabRows(rows, w)
    requires y < |rows| && x < w && rows[y][x] == '^'
    requires forall j: nat, i: nat :: j < |rows| && i < w && Before((i, j), (x, y)) ==> rows[j][i] != '^'
    ensures ParseGuard(Join(rows, '\n')) == Some(Guard(x, y, Up))
  {
    var s := Join(rows, '\n');
    JoinHead(rows, '\n');
    assert forall k :: 0 <= k < w ==> s[k] == rows[0][k];
    FindAt(s, '\n', w);
    var pos := y * (w + 1) + x;
    GuardFound(rows, w, x, y);
    Column(w, x, y, pos);
    ParseGuardAt(s, pos, w, x, y);
  }

  /** The first `^` of the text sits `y` rows of `w + 1` characters in,
      after `y` newlines. */
  lemma {:induction false} GuardFound(rows: seq<string>, w: nat, x: nat, y: nat)
    requires w >= 1 && |rows| >= 2 && LabRows(rows, w)
    requires y < |rows| && x < w && rows[y][x] == '^'
    requires forall j: nat, i: nat :: j < |rows| && i < w && Before((i, j), (x, y)) ==> rows[j][i] != '^'
    ensures Find(Join(rows, '\n'), '^') == Some(y * (w + 1) + x)
    ensures multiset(Join(rows, '\n')[..y * (w + 1) + x])['\n'] == y
  {
    if y == 0 {
      forall i: nat | i < x
        ensures rows[0][i] != '^'
      {
        assert Before((i, 0), (x, y));
      }
      FirstRowGuard(rows, w, x);
    } else {
      forall j: nat, i: nat | j < y && i < w
        ensures rows[j][i] != '^'
      {
        assert Before((i, j), (x, y));
      }
      forall i: nat | i < x
        ensures rows[y][i] != '^'
      {
        assert Before((i, y), (x, y));
      }
      LaterRowGuard(rows, w, x, y);
    }
  }

  /** `parse_guard` once the two searches have been done. */
  lemma {:induction false} ParseGuardAt(s: string, pos: nat, w: nat, x: nat, y: nat)
    requires w >= 1 && Find(s, '^') == Some(pos) && Find(s, '\n') == Some(w)
    requires pos <= |s| && multiset(s[..pos])['\n'] == y && (pos - y) % w == x
    ensures ParseGuard(s) == Some(Guard(x, y, Up))
  {
  }

  /** Row `y` of width `w` starts `y` newlines later than `y * w`. */
  lemma {:induction false} Column(w: nat, x: nat, y: nat, pos: int)
    requires x < w && pos == y * (w + 1) + x
    ensures (pos - y) % w == x
  {
    Decimal.MulSucc(y, w);
    assert y * (w + 1) + x - y == y * w + x;
    Decimal.DivModUnique(y, x, w);
  }
}
