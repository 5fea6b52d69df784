/** Day 4: a word search. Part 1 counts every `XMAS` along a row, a column
    or a diagonal, read either way; part 2 counts the `A`s at the centre of
    two crossing `MAS`. */
module WordSearch {
  import opened Wrappers
  import opened TextLines

  /** Rows of characters; `g[y][x]` is column `x` of row `y`. */
  type Grid = seq<seq<char>>

  /** A position `(x, y)`: column, then row. Signed, because the diagonal
      walks of part 1 can step off the grid. */
  type Cell = (int, int)

  // ---------------------------------------------------------------------------
  // parse_input
  // ---------------------------------------------------------------------------

  /** `parse_input`: one row per line, the newlines dropped; a trailing
      newline leaves an empty last row. */
  method ParseInput(input: string) returns (table: Grid)
    ensures table == Split(input, '\n')
    ensures Join(table, '\n') == input
    ensures |table| == multiset(input)['\n'] + 1
  {
    table := [];
    var row: string := [];
    for i := 0 to |input|
      invariant table + [row] == Split(input[..i], '\n')
    {
      var c := input[i];
      assert input[..i + 1] == input[..i] + [c];
      SplitSnoc(input[..i], c, '\n');
      if c == '\n' {
        table := table + [row];
        row := [];
      } else {
        assert (table + [row])[..|table|] == table;
        row := row + [c];
      }
    }
    table := table + [row];
    assert input[..|input|] == input;
    JoinSplit(input, '\n');
    SplitCount(input, '\n');
  }

  // ---------------------------------------------------------------------------
  // Reading lines of cells
  // ---------------------------------------------------------------------------

  predicate InGrid(g: Grid, c: Cell) {
    0 <= c.1 < |g| && 0 <= c.0 < |g[c.1]|
  }

  /** The characters under a line of cells; `None` when a cell is off the
      grid, where the source's indexing panics. */
  function Read(g: Grid, line: seq<Cell>): (r: Option<string>)
    ensures r.Some? <==> forall i :: 0 <= i < |line| ==> InGrid(g, line[i])
    ensures r.Some? ==> |r.value| == |line|
    ensures r.Some? ==> forall i :: 0 <= i < |line| ==> r.value[i] == g[line[i].1][line[i].0]
  {
    if forall i :: 0 <= i < |line| ==> InGrid(g, line[i]) then
      Some(seq(|line|, i requires 0 <= i < |line| => g[line[i].1][line[i].0]))
    else
      None
  }

  /** The search string of part 1 before it is doubled: every line's
      characters followed by a space. */
  function Text(g: Grid, lines: seq<seq<Cell>>): (r: Option<string>)
    ensures r.Some? <==> forall k :: 0 <= k < |lines| ==> Read(g, lines[k]).Some?
    ensures r.Some? ==> r.value == [] || r.value[|r.value| - 1] == ' '
  {
    if |lines| == 0 then Some("")
    else
      match Read(g, lines[0])
      case None => None
      case Some(t) =>
        match Text(g, lines[1..])
        case None =>
          assert forall k :: 0 <= k < |lines| - 1 ==> lines[1..][k] == lines[k + 1];
          None
        case Some(u) =>
          assert forall k :: 0 < k < |lines| ==> lines[k] == lines[1..][k - 1];
          Some(t + " " + u)
  }

  // ---------------------------------------------------------------------------
  // The six families of lines
  // ---------------------------------------------------------------------------

  /** Left to right: each row, whole. */
  function RowLines(g: Grid): seq<seq<Cell>> {
    seq(|g|, y requires 0 <= y < |g| => seq(|g[y]|, x => (x, y)))
  }

  /** Downwards: one column per `x` below the width. */
  function ColumnLines(w: nat, h: nat): seq<seq<Cell>> {
    seq(w, x => seq(h, y => (x, y)))
  }

  /** Up and to the right from each cell of the left edge. */
  function RisingFromLeft(h: nat): seq<seq<Cell>> {
    seq(h, s requires 0 <= s < h => seq(s + 1, j => (j, s - j)))
  }

  /** Up and to the right from the bottom row, after its first cell; `y`
      counts down from `h - 1`. */
  function RisingFromBottom(w: nat, h: nat): seq<seq<Cell>> {
    seq(if w == 0 then 0 else w - 1, k requires 0 <= k < w - 1 =>
      var x0 := k + 1;
      seq(w - x0, i => (x0 + i, h - i - 1)))
  }

  /** Down and to the right from the top row, the start moving from the
      right end to the left. */
  function FallingFromTop(w: nat): seq<seq<Cell>> {
    seq(w, k requires 0 <= k < w =>
      var x0 := w - 1 - k;
      seq(w - x0, y => (x0 + y, y)))
  }

  /** Down and to the right from the left edge, below its first cell. */
  function FallingFromLeft(h: nat): seq<seq<Cell>> {
    seq(if h == 0 then 0 else h - 1, k requires 0 <= k < h - 1 =>
      var y0 := k + 1;
      seq(h - y0, x => (x, y0 + x)))
  }

  /** The lines of `process_part1` in the order it writes them, for the
      width of the first row and the number of rows. */
  function Lines(g: Grid): seq<seq<Cell>>
    requires |g| >= 1
  {
    var w, h := |g[0]|, |g|;
    RowLines(g) + ColumnLines(w, h) + RisingFromLeft(h) + RisingFromBottom(w, h)
      + FallingFromTop(w) + FallingFromLeft(h)
  }

  // ---------------------------------------------------------------------------
  // Counting
  // ---------------------------------------------------------------------------

  /** `s` read backwards. */
  function Reverse(s: string): (r: string)
    ensures |r| == |s|
    ensures forall i :: 0 <= i < |s| ==> r[i] == s[|s| - 1 - i]
  {
    if |s| == 0 then [] else [s[|s| - 1]] + Reverse(s[..|s| - 1])
  }

  predicate EndsWith(s: string, p: string) {
    |p| <= |s| && s[|s| - |p|..] == p
  }

  /** The number of positions where `pat` starts, overlapping or not. */
  function Occ(s: string, pat: string): nat
    decreases |s|
  {
    if |s| == 0 then 0 else (if StartsWith(s, pat) then 1 else 0) + Occ(s[1..], pat)
  }

  /** `str::matches(pat).count()`: matches found left to right, each search
      resuming after the previous match. */
  function Matches(s: string, pat: string): nat
    requires |pat| > 0
    decreases |s|
  {
    if |s| == 0 then 0
    else if StartsWith(s, pat) then 1 + Matches(s[|pat|..], pat)
    else Matches(s[1..], pat)
  }

  /** A text shorter than the pattern holds no occurrence. */
  lemma {:induction false} OccShort(s: string, pat: string)
    requires |s| < |pat|
    ensures Occ(s, pat) == 0
    decreases |s|
  {
    if |s| > 0 {
      OccShort(s[1..], pat);
    }
  }

  /** A text whose first character cannot start `XMAS` has the occurrences
      of its tail. */
  lemma {:induction false} OccSkip(s: string)
    requires |s| > 0 && s[0] != 'X'
    ensures Occ(s, "XMAS") == Occ(s[1..], "XMAS")
  {
  }

  /** `XMAS` cannot overlap itself, so greedy matching finds every
      occurrence. */
  lemma {:induction false} MatchesXmas(s: string)
    ensures Matches(s, "XMAS") == Occ(s, "XMAS")
    decreases |s|
  {
    if |s| > 0 {
      if StartsWith(s, "XMAS") {
        MatchesXmas(s[4..]);
        assert s[1..][0] == 'M' && s[1..][1..] == s[2..];
        OccSkip(s[1..]);
        assert s[2..][0] == 'A' && s[2..][1..] == s[3..];
        OccSkip(s[2..]);
        assert s[3..][0] == 'S' && s[3..][1..] == s[4..];
        OccSkip(s[3..]);
      } else {
        MatchesXmas(s[1..]);
      }
    }
  }

  /** Occurrences cannot cross a space the pattern does not hold. */
  lemma {:induction false} OccConcat(a: string, b: string, pat: string)
    requires ' ' !in pat
    requires a == [] || a[|a| - 1] == ' '
    ensures Occ(a + b, pat) == Occ(a, pat) + Occ(b, pat)
    decreases |a|
  {
    if a == [] {
      assert a + b == b;
    } else {
      assert (a + b)[1..] == a[1..] + b;
      OccConcat(a[1..], b, pat);
      if |pat| <= |a| {
        assert (a + b)[..|pat|] == a[..|pat|];
      } else {
        SpaceBlocks(a + b, pat, |a| - 1);
      }
    }
  }

  /** A pattern without spaces does not start at a text with a space in
      its first `|pat|` characters. */
  lemma {:induction false} SpaceBlocks(u: string, pat: string, i: nat)
    requires ' ' !in pat && i < |u| && u[i] == ' '
    requires i < |pat|
    ensures !StartsWith(u, pat)
  {
    assert pat[i] != ' ';
    assert |pat| <= |u| ==> u[..|pat|][i] == ' ';
  }

  /** One more character adds the occurrence ending there, if any. */
  lemma {:induction false} OccSnoc(s: string, c: char, pat: string)
    ensures Occ(s + [c], pat) == Occ(s, pat) + (if EndsWith(s + [c], pat) then 1 else 0)
    decreases |s|
  {
    var t := s + [c];
    if |s| == 0 {
      assert t == [c] && t[1..] == [];
      if |pat| <= 1 {
        assert t[|t| - |pat|..] == t[..|pat|];
      }
    } else if |t| < |pat| {
      OccShort(t, pat);
      OccShort(s, pat);
    } else {
      SnocTail(s, c);
      OccSnoc(s[1..], c, pat);
      if |pat| < |t| {
        SnocLonger(s, c, pat);
      } else {
        SnocExact(s, c, pat);
        OccShort(s, pat);
        OccShort(s[1..] + [c], pat);
      }
    }
  }

  lemma {:induction false} SnocTail(s: string, c: char)
    requires |s| > 0
    ensures (s + [c])[1..] == s[1..] + [c]
  {
  }

  /** A pattern shorter than the text starts it, and ends its tail, as it
      does before the extra character. */
  lemma {:induction false} SnocLonger(s: string, c: char, pat: string)
    requires |s| > 0 && |pat| <= |s|
    ensures StartsWith(s + [c], pat) == StartsWith(s, pat)
    ensures EndsWith(s[1..] + [c], pat) == EndsWith(s + [c], pat)
  {
    var t := s + [c];
    assert t[..|pat|] == s[..|pat|];
    assert (s[1..] + [c])[|s| - |pat|..] == t[|t| - |pat|..];
  }

  /** A pattern as long as the text ends it exactly when it starts it. */
  lemma {:induction false} SnocExact(s: string, c: char, pat: string)
    requires |pat| == |s| + 1
    ensures EndsWith(s + [c], pat) == StartsWith(s + [c], pat)
  {
    var t := s + [c];
    assert t[|t| - |pat|..] == t[..|pat|];
  }

  /** A reversed text holds the reversed pattern as often. */
  lemma {:induction false} OccReverse(s: string, pat: string)
    ensures Occ(Reverse(s), pat) == Occ(s, Reverse(pat))
    decreases |s|
  {
    if |s| > 0 {
      var n := |s| - 1;
      var p := s[..n];
      assert s == p + [s[n]];
      OccReverse(p, pat);
      OccSnoc(p, s[n], Reverse(pat));
      var r := Reverse(s);
      assert r[1..] == Reverse(p);
      if StartsWith(r, pat) {
        assert s[|s| - |pat|..] == Reverse(pat);
      }
      if EndsWith(s, Reverse(pat)) {
        assert r[..|pat|] == pat;
      }
    }
  }

  /** A space at the end adds nothing. */
  lemma {:induction false} OccSpace(t: string, pat: string)
    requires |pat| > 0 && ' ' !in pat
    ensures Occ(t + " ", pat) == Occ(t, pat)
  {
    OccSnoc(t, ' ', pat);
    var u := t + " ";
    assert pat[|pat| - 1] != ' ';
    assert |pat| <= |u| ==> u[|u| - |pat|..][|pat| - 1] == ' ';
  }

  /** Occurrences of `pat` along each line of cells, added up (a line off
      the grid counts nothing). */
  function LineOcc(g: Grid, lines: seq<seq<Cell>>, pat: string): nat {
    if |lines| == 0 then 0
    else
      (match Read(g, lines[0]) case Some(t) => Occ(t, pat) case None => 0)
        + LineOcc(g, lines[1..], pat)
  }

  /** The occurrences in the search string are those along the lines. */
  lemma {:induction false} TextOcc(g: Grid, lines: seq<seq<Cell>>, pat: string)
    requires |pat| > 0 && ' ' !in pat
    requires Text(g, lines).Some?
    ensures Occ(Text(g, lines).value, pat) == LineOcc(g, lines, pat)
    decreases |lines|
  {
    if |lines| > 0 {
      var t := Read(g, lines[0]).value;
      var u := Text(g, lines[1..]).value;
      TextOcc(g, lines[1..], pat);
      OccConcat(t + " ", u, pat);
      OccSpace(t, pat);
      assert t + " " + u == (t + " ") + u;
    }
  }

  // ---------------------------------------------------------------------------
  // Part 1
  // ---------------------------------------------------------------------------

  /** `process_part1` on a parsed grid: the lines' text followed by its
      reverse, searched for `XMAS`; `None` when a line leaves the grid. */
  function GridPart1(g: Grid): Option<nat>
    requires |g| >= 1
  {
    match Text(g, Lines(g))
    case None => None
    case Some(s) => Some(Matches(s + Reverse(s), "XMAS"))
  }

  /** `parse_input` always yields at least one row. */
  function Part1(input: string): Option<nat> {
    GridPart1(Split(input, '\n'))
  }

  /** Part 1 counts `XMAS` along every line forwards and backwards, unless
      some line leaves the grid. */
  lemma {:induction false} Part1Lines(g: Grid)
    requires |g| >= 1
    ensures GridPart1(g).Some? <==> forall k :: 0 <= k < |Lines(g)| ==> Read(g, Lines(g)[k]).Some?
    ensures GridPart1(g).Some? ==>
      GridPart1(g).value == LineOcc(g, Lines(g), "XMAS") + LineOcc(g, Lines(g), "SAMX")
  {
    var lines := Lines(g);
    if Text(g, lines).Some? {
      var s := Text(g, lines).value;
      MatchesXmas(s + Reverse(s));
      OccConcat(s, Reverse(s), "XMAS");
      OccReverse(s, "XMAS");
      assert Reverse("XMAS") == "SAMX";
      TextOcc(g, lines, "XMAS");
      TextOcc(g, lines, "SAMX");
    }
  }

  // ---------------------------------------------------------------------------
  // Square grids: every straight line, each once
  // ---------------------------------------------------------------------------

  predicate Square(g: Grid) {
    |g| >= 1 && forall y :: 0 <= y < |g| ==> |g[y]| == |g|
  }

  predicate Rectangular(g: Grid) {
    |g| >= 1 && forall y :: 0 <= y < |g| ==> |g[y]| == |g[0]|
  }

  predicate InSquare(n: nat, c: Cell) {
    0 <= c.0 < n && 0 <= c.1 < n
  }

  /** Row `y` of an `n` by `n` grid, left to right. */
  function SquareRows(n: nat): seq<seq<Cell>> {
    seq(n, y => seq(n, x => (x, y)))
  }

  /** The cells of an `n` by `n` grid whose coordinates add up to `s`, by
      increasing `x`. */
  function AntiDiagonal(n: nat, s: nat): seq<Cell>
    requires s < 2 * n - 1
  {
    var x0 := if s < n then 0 else s - n + 1;
    seq(if s < n then s + 1 else 2 * n - 1 - s, j => (x0 + j, s - x0 - j))
  }

  /** The cells of an `n` by `n` grid with `x - y == n - 1 - d`, by
      increasing `x`. */
  function Diagonal(n: nat, d: nat): seq<Cell>
    requires d < 2 * n - 1
  {
    var x0 := if d < n then n - 1 - d else 0;
    var y0 := if d < n then 0 else d - n + 1;
    seq(if d < n then d + 1 else 2 * n - 1 - d, j => (x0 + j, y0 + j))
  }

  function AntiDiagonals(n: nat): seq<seq<Cell>>
    requires n >= 1
  {
    seq(2 * n - 1, s requires 0 <= s < 2 * n - 1 => AntiDiagonal(n, s))
  }

  function Diagonals(n: nat): seq<seq<Cell>>
    requires n >= 1
  {
    seq(2 * n - 1, d requires 0 <= d < 2 * n - 1 => Diagonal(n, d))
  }

  /** Every row, column and diagonal of an `n` by `n` grid. */
  function SquareLines(n: nat): seq<seq<Cell>>
    requires n >= 1
  {
    SquareRows(n) + ColumnLines(n, n) + AntiDiagonals(n) + Diagonals(n)
  }

  /** Anti-diagonal `s` holds exactly the grid cells with `x + y == s`,
      consecutive along the direction up and to the right. */
  lemma {:induction false} AntiDiagonalCells(n: nat, s: nat)
    requires s < 2 * n - 1
    ensures var l := AntiDiagonal(n, s);
      |l| > 0 &&
      (forall j :: 0 <= j < |l| ==> InSquare(n, l[j]) && l[j].0 + l[j].1 == s && l[j].0 == l[0].0 + j) &&
      (forall c :: InSquare(n, c) && c.0 + c.1 == s ==> c in l)
  {
    var l := AntiDiagonal(n, s);
    forall c | InSquare(n, c) && c.0 + c.1 == s
      ensures c in l
    {
      assert l[c.0 - l[0].0] == c;
    }
  }

  /** Diagonal `d` holds exactly the grid cells with `x - y == n - 1 - d`,
      consecutive along the direction down and to the right. */
  lemma {:induction false} DiagonalCells(n: nat, d: nat)
    requires d < 2 * n - 1
    ensures var l := Diagonal(n, d);
      |l| > 0 &&
      (forall j :: 0 <= j < |l| ==>
         InSquare(n, l[j]) && l[j].0 - l[j].1 == n - 1 - d && l[j].0 == l[0].0 + j) &&
      (forall c :: InSquare(n, c) && c.0 - c.1 == n - 1 - d ==> c in l)
  {
    var l := Diagonal(n, d);
    forall c | InSquare(n, c) && c.0 - c.1 == n - 1 - d
      ensures c in l
    {
      assert l[c.0 - l[0].0] == c;
    }
  }

  lemma {:induction false} RisingIsAntiDiagonals(n: nat)
    requires n >= 1
    ensures RisingFromLeft(n) + RisingFromBottom(n, n) == AntiDiagonals(n)
  {
    var a, b := RisingFromLeft(n), RisingFromBottom(n, n);
    forall s | 0 <= s < 2 * n - 1
      ensures (a + b)[s] == AntiDiagonal(n, s)
    {
      if s < n {
        assert (a + b)[s] == a[s];
        RisingFromLeftLine(n, s);
      } else {
        assert (a + b)[s] == b[s - n];
        RisingFromBottomLine(n, s - n);
      }
    }
  }

  lemma {:induction false} RisingFromLeftLine(n: nat, s: nat)
    requires s < n
    ensures RisingFromLeft(n)[s] == AntiDiagonal(n, s)
  {
  }

  lemma {:induction false} RisingFromBottomLine(n: nat, k: nat)
    requires k < n - 1
    ensures RisingFromBottom(n, n)[k] == AntiDiagonal(n, n + k)
  {
    var l, r := RisingFromBottom(n, n)[k], AntiDiagonal(n, n + k);
    assert |l| == |r|;
    forall i | 0 <= i < |l|
      ensures l[i] == r[i]
    {
    }
  }

  lemma {:induction false} FallingIsDiagonals(n: nat)
    requires n >= 1
    ensures FallingFromTop(n) + FallingFromLeft(n) == Diagonals(n)
  {
    var a, b := FallingFromTop(n), FallingFromLeft(n);
    forall d | 0 <= d < 2 * n - 1
      ensures (a + b)[d] == Diagonal(n, d)
    {
      if d < n {
        assert (a + b)[d] == a[d];
      } else {
        assert (a + b)[d] == b[d - n];
      }
    }
  }

  /** On a square grid part 1 walks every row, column and diagonal once. */
  lemma {:induction false} SquareLinesAll(g: Grid)
    requires Square(g)
    ensures Lines(g) == SquareLines(|g|)
    ensures forall k :: 0 <= k < |Lines(g)| ==> Read(g, Lines(g)[k]).Some?
  {
    SquareLinesAre(g);
    SquareLinesInside(|g|);
  }

  lemma {:induction false} SquareLinesAre(g: Grid)
    requires Square(g)
    ensures Lines(g) == SquareLines(|g|)
  {
    var n := |g|;
    assert RowLines(g) == SquareRows(n);
    RisingIsAntiDiagonals(n);
    FallingIsDiagonals(n);
  }

  /** Every cell of every line of an `n` by `n` square lies inside it. */
  lemma {:induction false} SquareLinesInside(n: nat)
    requires n >= 1
    ensures forall k, i :: 0 <= k < |SquareLines(n)| && 0 <= i < |SquareLines(n)[k]| ==> InSquare(n, SquareLines(n)[k][i])
  {
    forall k | 0 <= k < |SquareLines(n)| {
      SquareLineInside(n, k);
    }
  }

  lemma {:induction false} RowInside(n: nat, y: nat)
    requires y < n
    ensures forall i :: 0 <= i < |SquareRows(n)[y]| ==> InSquare(n, SquareRows(n)[y][i])
  {
    var row := SquareRows(n)[y];
    assert forall i :: 0 <= i < |row| ==> row[i] == (i, y);
  }

  lemma {:induction false} ColumnInside(n: nat, x: nat)
    requires x < n
    ensures forall i :: 0 <= i < |ColumnLines(n, n)[x]| ==> InSquare(n, ColumnLines(n, n)[x][i])
  {
    var column := ColumnLines(n, n)[x];
    assert forall i :: 0 <= i < |column| ==> column[i] == (x, i);
  }

  lemma {:induction false} SquareLineInside(n: nat, k: nat)
    requires n >= 1 && k < |SquareLines(n)|
    ensures forall i :: 0 <= i < |SquareLines(n)[k]| ==> InSquare(n, SquareLines(n)[k][i])
  {
    var l := SquareLines(n);
    if k < n {
      assert l[k] == SquareRows(n)[k];
      RowInside(n, k);
    } else if k < 2 * n {
      assert l[k] == ColumnLines(n, n)[k - n];
      ColumnInside(n, k - n);
    } else if k < 4 * n - 1 {
      assert l[k] == AntiDiagonals(n)[k - 2 * n];
      AntiDiagonalCells(n, k - 2 * n);
    } else {
      assert l[k] == Diagonals(n)[k - 4 * n + 1];
      DiagonalCells(n, k - 4 * n + 1);
    }
  }

  /** Part 1 on a square grid: `XMAS` read both ways along every row,
      column and diagonal. */
  lemma {:induction false} Part1Square(g: Grid)
    requires Square(g)
    ensures GridPart1(g).Some?
    ensures GridPart1(g).value == LineOcc(g, SquareLines(|g|), "XMAS") + LineOcc(g, SquareLines(|g|), "SAMX")
  {
    var l := Lines(g);
    SquareLinesAll(g);
    assert Text(g, l).Some?;
    Part1Lines(g);
    assert GridPart1(g).Some?;
    var v := LineOcc(g, l, "XMAS") + LineOcc(g, l, "SAMX");
    assert GridPart1(g).value == v;
    assert l == SquareLines(|g|);
    assert v == LineOcc(g, SquareLines(|g|), "XMAS") + LineOcc(g, SquareLines(|g|), "SAMX");
  }

  /** A rectangular grid that is not square makes part 1 index past the
      grid: wider than tall, the first falling diagonal runs off the bottom;
      taller than wide, the last rising one runs off the right. */
  lemma {:induction false} Part1NotSquare(g: Grid)
    requires Rectangular(g) && |g[0]| != |g|
    ensures GridPart1(g) == None
  {
    var w, h := |g[0]|, |g|;
    var lines := Lines(g);
    if w > h {
      var k := |RowLines(g) + ColumnLines(w, h) + RisingFromLeft(h) + RisingFromBottom(w, h)| + w - 1;
      assert lines[k] == FallingFromTop(w)[w - 1];
      assert lines[k][h] == (h, h);
    } else {
      var k := |RowLines(g) + ColumnLines(w, h)| + h - 1;
      assert lines[k] == RisingFromLeft(h)[h - 1];
      assert lines[k][h - 1] == (h - 1, 0);
    }
    Part1Lines(g);
  }

  // ---------------------------------------------------------------------------
  // Part 2
  // ---------------------------------------------------------------------------

  /** `chars[y][x]`; `None` where it panics. */
  function At(g: Grid, x: int, y: int): (r: Option<char>)
    ensures r.Some? <==> InGrid(g, (x, y))
    ensures r.Some? ==> r.value == g[y][x]
  {
    if InGrid(g, (x, y)) then Some(g[y][x]) else None
  }

  /** One diagonal of the cross: `M` at one end and `S` at the other. The
      far end `b` is looked at only when `a` is `M` or `S`, as the source's
      `&&` and `||` evaluate. */
  function Stroke(a: Option<char>, b: Option<char>): Option<bool> {
    match a
    case None => None
    case Some(c) =>
      if c == 'M' || c == 'S' then
        match b
        case None => None
        case Some(d) => Some((c == 'M' && d == 'S') || (c == 'S' && d == 'M'))
      else Some(false)
  }

  /** Both filters of `process_part2` at `(x, y)`, evaluated in source
      order. */
  function Cross(g: Grid, x: int, y: int): Option<bool> {
    match At(g, x, y)
    case None => None
    case Some(c) =>
      if c != 'A' then Some(false)
      else
        match Stroke(At(g, x - 1, y - 1), At(g, x + 1, y + 1))
        case None => None
        case Some(first) =>
          if first then Stroke(At(g, x - 1, y + 1), At(g, x + 1, y - 1)) else Some(false)
  }

  /** Centres `(x, y)` with `1 <= y < m` that pass; `None` when a check
      panics. */
  function ColumnCount(g: Grid, x: int, m: int): Option<nat>
    decreases m
  {
    if m <= 1 then Some(0)
    else
      match ColumnCount(g, x, m - 1)
      case None => None
      case Some(k) =>
        match Cross(g, x, m - 1)
        case None => None
        case Some(b) => Some(k + if b then 1 else 0)
  }

  /** Centres with `1 <= x < mx` and `1 <= y < my` that pass. A panic
      anywhere aborts the whole count, so the order of the checks does not
      matter. */
  function CrossCount(g: Grid, mx: int, my: int): Option<nat>
    decreases mx
  {
    if mx <= 1 then Some(0)
    else
      match CrossCount(g, mx - 1, my)
      case None => None
      case Some(k) =>
        match ColumnCount(g, mx - 1, my)
        case None => None
        case Some(c) => Some(k + c)
  }

  /** `process_part2` on a parsed grid: centres strictly inside the first
      row's width and the grid's height. An empty first row makes
      `width - 1` underflow. */
  function GridPart2(g: Grid): Option<nat>
    requires |g| >= 1
  {
    if |g[0]| == 0 then None else CrossCount(g, |g[0]| - 1, |g| - 1)
  }

  function Part2(input: string): Option<nat> {
    GridPart2(Split(input, '\n'))
  }

  /** A diagonal through the centre `m` reads `MAS` one way or the other. */
  predicate Mas(a: char, m: char, b: char) {
    [a, m, b] == "MAS" || [a, m, b] == "SAM"
  }

  /** `(x, y)` is the centre of two crossing `MAS`. */
  predicate XMas(g: Grid, x: int, y: int)
    requires Rectangular(g) && 1 <= x < |g[0]| - 1 && 1 <= y < |g| - 1
  {
    Mas(g[y - 1][x - 1], g[y][x], g[y + 1][x + 1]) && Mas(g[y + 1][x - 1], g[y][x], g[y - 1][x + 1])
  }

  /** The inner cells of column `x` below row `my` that are centres. */
  function ColumnCentres(g: Grid, x: int, my: int): set<Cell>
    requires Rectangular(g) && 1 <= x < |g[0]| - 1 && my <= |g| - 1
  {
    set y | 1 <= y < my && XMas(g, x, y) :: (x, y)
  }

  /** The inner cells left of column `mx` and above row `my` that are
      centres. */
  function Centres(g: Grid, mx: int, my: int): set<Cell>
    requires Rectangular(g) && mx <= |g[0]| - 1 && my <= |g| - 1
  {
    set x, y | 1 <= x < mx && 1 <= y < my && XMas(g, x, y) :: (x, y)
  }

  /** On an inner cell of a rectangular grid nothing panics, and the two
      filters accept exactly the centres of a cross. */
  lemma {:induction false} CrossXMas(g: Grid, x: int, y: int)
    requires Rectangular(g) && 1 <= x < |g[0]| - 1 && 1 <= y < |g| - 1
    ensures Cross(g, x, y) == Some(XMas(g, x, y))
  {
    assert |g[y - 1]| == |g[y]| == |g[y + 1]| == |g[0]|;
  }

  /** The centres below row `m` are those below row `m - 1` and maybe the
      cell of row `m - 1`. */
  lemma {:induction false} ColumnCentresSnoc(g: Grid, x: int, m: int)
    requires Rectangular(g) && 1 <= x < |g[0]| - 1 && 1 < m <= |g| - 1
    ensures ColumnCentres(g, x, m) ==
      ColumnCentres(g, x, m - 1) + (if XMas(g, x, m - 1) then {(x, m - 1)} else {})
    ensures (x, m - 1) !in ColumnCentres(g, x, m - 1)
  {
  }

  lemma {:induction false} ColumnCountStep(g: Grid, x: int, m: int, k: nat, b: bool)
    requires m > 1 && ColumnCount(g, x, m - 1) == Some(k) && Cross(g, x, m - 1) == Some(b)
    ensures ColumnCount(g, x, m) == Some(k + if b then 1 else 0)
  {
  }

  lemma {:induction false} ColumnCountCentres(g: Grid, x: int, m: int)
    requires Rectangular(g) && 1 <= x < |g[0]| - 1 && m <= |g| - 1
    ensures ColumnCount(g, x, m) == Some(|ColumnCentres(g, x, m)|)
    decreases m
  {
    if m <= 1 {
      assert ColumnCentres(g, x, m) == {};
    } else {
      ColumnCountCentres(g, x, m - 1);
      CrossXMas(g, x, m - 1);
      ColumnCountStep(g, x, m, |ColumnCentres(g, x, m - 1)|, XMas(g, x, m - 1));
      ColumnCentresCard(g, x, m);
    }
  }

  lemma {:induction false} ColumnCentresCard(g: Grid, x: int, m: int)
    requires Rectangular(g) && 1 <= x < |g[0]| - 1 && 1 < m <= |g| - 1
    ensures |ColumnCentres(g, x, m)| == |ColumnCentres(g, x, m - 1)| + if XMas(g, x, m - 1) then 1 else 0
  {
    ColumnCentresSnoc(g, x, m);
  }

  /** The centres left of column `mx` are those left of `mx - 1` and the
      centres of column `mx - 1`. */
  lemma {:induction false} CentresSnoc(g: Grid, mx: int, my: int)
    requires Rectangular(g) && 1 < mx <= |g[0]| - 1 && my <= |g| - 1
    ensures Centres(g, mx, my) == Centres(g, mx - 1, my) + ColumnCentres(g, mx - 1, my)
    ensures Centres(g, mx - 1, my) !! ColumnCentres(g, mx - 1, my)
  {
  }

  lemma {:induction false} CentresCard(g: Grid, mx: int, my: int)
    requires Rectangular(g) && 1 < mx <= |g[0]| - 1 && my <= |g| - 1
    ensures |Centres(g, mx, my)| == |Centres(g, mx - 1, my)| + |ColumnCentres(g, mx - 1, my)|
  {
    CentresSnoc(g, mx, my);
  }

  lemma {:induction false} CrossCountStep(g: Grid, mx: int, my: int, k: nat, c: nat)
    requires mx > 1 && CrossCount(g, mx - 1, my) == Some(k) && ColumnCount(g, mx - 1, my) == Some(c)
    ensures CrossCount(g, mx, my) == Some(k + c)
  {
  }

  lemma {:induction false} CrossCountCentres(g: Grid, mx: int, my: int)
    requires Rectangular(g) && mx <= |g[0]| - 1 && my <= |g| - 1
    ensures CrossCount(g, mx, my) == Some(|Centres(g, mx, my)|)
    decreases mx
  {
    if mx <= 1 {
      assert Centres(g, mx, my) == {};
    } else {
      CrossCountCentres(g, mx - 1, my);
      ColumnCountCentres(g, mx - 1, my);
      CrossCountStep(g, mx, my, |Centres(g, mx - 1, my)|, |ColumnCentres(g, mx - 1, my)|);
      CentresCard(g, mx, my);
    }
  }

  /** Part 2 on a rectangular grid counts the centres of crossing `MAS`
      strictly inside it; only an empty first row panics. */
  lemma {:induction false} Part2Rectangular(g: Grid)
    requires Rectangular(g)
    ensures GridPart2(g) == if |g[0]| == 0 then None else Some(|Centres(g, |g[0]| - 1, |g| - 1)|)
  {
    if |g[0]| > 0 {
      CrossCountCentres(g, |g[0]| - 1, |g| - 1);
    }
  }
}
