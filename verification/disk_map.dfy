/** Day 9: a disk map of digits alternately gives the length of a file and
    of the free space after it. Part 1 fills free blocks one block at a time
    from the end of the disk; part 2 moves whole files, highest id first,
    into the first free span to their left that is long enough. */
module DiskMap {
  import opened Wrappers
  import opened TextLines

  datatype Block = Free | File(id: nat)

  /** A run of blocks: a file's or a free span's `start` and `len`. */
  datatype Span = Span(start: nat, len: nat)

  function End(e: Span): nat {
    e.start + e.len
  }

  // ---------------------------------------------------------------------------
  // parse_input
  // ---------------------------------------------------------------------------

  predicate Digits(s: string) {
    forall i :: 0 <= i < |s| ==> '0' <= s[i] <= '9'
  }

  /** The digits of `s` added up: the number of blocks they describe. */
  function Total(s: string): nat
    requires Digits(s)
  {
    if |s| == 0 then 0 else Total(s[..|s| - 1]) + Digit(s[|s| - 1]).value
  }

  /** The run the digit at position `i` describes: it starts after the
      blocks of all earlier digits. */
  function Extent(s: string, i: nat): Span
    requires Digits(s) && i < |s|
  {
    Span(Total(s[..i]), Digit(s[i]).value)
  }

  /** The disk, free spans and files `parse_input` builds before its last
      check; `None` where `to_digit` fails. */
  function Layout(s: string): (r: Option<(seq<Block>, seq<Span>, seq<Span>)>)
    ensures r.Some? <==> Digits(s)
    ensures r.Some? ==> var (disk, spaces, files) := r.value;
      && |disk| == Total(s)
      && |spaces| == |s| / 2 && |files| == (|s| + 1) / 2
      && (forall k :: 0 <= k < |files| ==> files[k] == Extent(s, 2 * k))
      && (forall k :: 0 <= k < |spaces| ==> spaces[k] == Extent(s, 2 * k + 1))
  {
    if |s| == 0 then Some(([], [], []))
    else
      var n := |s| - 1;
      match (Layout(s[..n]), Digit(s[n]))
      case (Some((disk, spaces, files)), Some(v)) =>
        assert forall i :: 0 <= i < n ==> s[..n][..i] == s[..i] && s[..n][i] == s[i];
        if n % 2 == 0 then Some((disk + seq(v, _ => File(n / 2)), spaces, files + [Span(|disk|, v)]))
        else Some((disk + seq(v, _ => Free), spaces + [Span(|disk|, v)], files))
      case _ => None
  }

  /** What the blocks of run `k` hold: `File(k)` for a file, else free. */
  function Owner(files: bool, k: nat): Block {
    if files then File(k) else Free
  }

  /** Every block of run `k` of `runs` holds `Owner(files, k)`. */
  ghost predicate Holds(disk: seq<Block>, runs: seq<Span>, files: bool) {
    forall k: nat, p: nat :: HoldsAt(disk, runs, files, k, p)
  }

  predicate HoldsAt(disk: seq<Block>, runs: seq<Span>, files: bool, k: nat, p: nat) {
    0 <= k < |runs| && runs[k].start <= p < End(runs[k]) ==> p < |disk| && disk[p] == Owner(files, k)
  }

  /** Adding blocks behind a disk, with or without a run over exactly
      those blocks. */
  lemma {:induction false} HoldsSnoc(disk: seq<Block>, runs: seq<Span>, files: bool, more: seq<Block>, last: bool)
    requires Holds(disk, runs, files)
    requires last ==> forall p :: 0 <= p < |more| ==> more[p] == Owner(files, |runs|)
    ensures Holds(disk + more, if last then runs + [Span(|disk|, |more|)] else runs, files)
  {
    var runs' := if last then runs + [Span(|disk|, |more|)] else runs;
    forall k: nat, p: nat | 0 <= k < |runs'| && runs'[k].start <= p < End(runs'[k])
      ensures HoldsAt(disk + more, runs', files, k, p)
    {
      if k < |runs| {
        assert runs'[k] == runs[k];
        assert HoldsAt(disk, runs, files, k, p);
      } else {
        assert runs'[k] == Span(|disk|, |more|);
        assert (disk + more)[p] == more[p - |disk|];
      }
    }
  }

  /** The blocks of the disk follow the map: every block of file `k`'s run
      holds `File(k)`... */
  lemma {:induction false} LayoutFiles(s: string)
    requires Digits(s)
    ensures Holds(Layout(s).value.0, Layout(s).value.2, true)
    decreases |s|
  {
    if |s| > 0 {
      var n := |s| - 1;
      LayoutFiles(s[..n]);
      var (disk, spaces, files) := Layout(s[..n]).value;
      var v := Digit(s[n]).value;
      if n % 2 == 0 {
        HoldsSnoc(disk, files, true, seq(v, _ => File(n / 2)), true);
      } else {
        HoldsSnoc(disk, files, true, seq(v, _ => Free), false);
      }
    }
  }

  /** ... and every block of a free run is free. */
  lemma {:induction false} LayoutFree(s: string)
    requires Digits(s)
    ensures Holds(Layout(s).value.0, Layout(s).value.1, false)
    decreases |s|
  {
    if |s| > 0 {
      var n := |s| - 1;
      LayoutFree(s[..n]);
      var (disk, spaces, files) := Layout(s[..n]).value;
      var v := Digit(s[n]).value;
      if n % 2 == 0 {
        HoldsSnoc(disk, spaces, false, seq(v, _ => File(n / 2)), false);
      } else {
        HoldsSnoc(disk, spaces, false, seq(v, _ => Free), true);
      }
    }
  }

  /** Adding one more digit's blocks. */
  lemma {:induction false} TotalNext(s: string, i: nat)
    requires Digits(s) && i < |s|
    ensures Total(s[..i + 1]) == Total(s[..i]) + Digit(s[i]).value
  {
    assert s[..i + 1][..i] == s[..i];
  }

  /** Earlier digits end no later than later ones start. */
  lemma {:induction false} TotalMono(s: string, i: nat, j: nat)
    requires Digits(s) && i <= j <= |s|
    ensures Total(s[..i]) <= Total(s[..j])
    decreases j - i
  {
    if i < j {
      TotalMono(s, i, j - 1);
      TotalNext(s, j - 1);
    }
  }

  /** Runs of different digits share no block. */
  lemma {:induction false} ExtentsApart(s: string, i: nat, j: nat)
    requires Digits(s) && i < |s| && j < |s| && i != j
    ensures Apart(Extent(s, i), Extent(s, j))
  {
    TotalNext(s, i);
    TotalNext(s, j);
    if i < j {
      TotalMono(s, i + 1, j);
    } else {
      TotalMono(s, j + 1, i);
    }
  }

  /** Every digit's run lies on the disk. */
  lemma {:induction false} ExtentEnd(s: string, i: nat)
    requires Digits(s) && i < |s|
    ensures End(Extent(s, i)) <= Total(s)
  {
    TotalNext(s, i);
    TotalMono(s, i + 1, |s|);
    assert s[..|s|] == s;
  }

  /** The free spans followed by the files are the runs of the digits at
      positions `CharOf(|spaces|, q)`. */
  lemma {:induction false} LayoutRuns(s: string)
    requires Digits(s)
    ensures var (disk, spaces, files) := Layout(s).value;
      forall q :: 0 <= q < |spaces + files| ==>
        CharOf(|spaces|, q) < |s| && (spaces + files)[q] == Extent(s, CharOf(|spaces|, q))
  {
    var (disk, spaces, files) := Layout(s).value;
    var xs := spaces + files;
    var m := |spaces|;
    forall q | 0 <= q < |xs|
      ensures CharOf(m, q) < |s| && xs[q] == Extent(s, CharOf(m, q))
    {
      if q < m {
        assert xs[q] == spaces[q];
      } else {
        assert xs[q] == files[q - m];
      }
    }
  }

  /** Runs of distinct digits, in any order, are pairwise apart and lie on
      the disk. */
  lemma {:induction false} ExtentsSeparate(s: string, xs: seq<Span>, m: nat)
    requires Digits(s)
    requires forall q :: 0 <= q < |xs| ==> CharOf(m, q) < |s| && xs[q] == Extent(s, CharOf(m, q))
    ensures Separate(xs) && Within(xs, Total(s))
  {
    forall q, r | 0 <= q < |xs| && 0 <= r < |xs| && q != r
      ensures Apart(xs[q], xs[r])
    {
      CharOfInjective(m, q, r);
      ExtentsApart(s, CharOf(m, q), CharOf(m, r));
    }
    forall q | 0 <= q < |xs| ensures End(xs[q]) <= Total(s) {
      ExtentEnd(s, CharOf(m, q));
    }
  }

  /** The free spans and files `parse_input` returns are pairwise apart and
      lie on the disk. */
  lemma {:induction false} LayoutSeparate(s: string)
    requires Digits(s)
    ensures var (disk, spaces, files) := Layout(s).value;
      Separate(spaces + files) && Within(spaces + files, |disk|)
  {
    LayoutRuns(s);
    var (disk, spaces, files) := Layout(s).value;
    ExtentsSeparate(s, spaces + files, |spaces|);
  }

  /** Free spans sit at odd positions and files at even ones, so distinct
      runs come from distinct digits. */
  lemma {:induction false} CharOfInjective(m: nat, q: nat, r: nat)
    requires q != r
    ensures CharOf(m, q) != CharOf(m, r)
  {
    if q < m && r >= m {
      assert CharOf(m, q) % 2 == 1 && CharOf(m, r) % 2 == 0;
    } else if r < m && q >= m {
      assert CharOf(m, r) % 2 == 1 && CharOf(m, q) % 2 == 0;
    }
  }

  /** The digit position of run `q` of the free spans (`m` of them)
      followed by the files. */
  function CharOf(m: nat, q: nat): nat {
    if q < m then 2 * q + 1 else 2 * (q - m)
  }

  /** `parse_input`: the layout, provided its last block belongs to a file. */
  function ParseInput(s: string): (r: Option<(seq<Block>, seq<Span>, seq<Span>)>)
    ensures r.Some? <==> Digits(s) && Total(s) > 0 && Layout(s).value.0[Total(s) - 1] != Free
    ensures r.Some? ==> r == Layout(s)
  {
    match Layout(s)
    case Some((disk, spaces, files)) =>
      if |disk| > 0 && disk[|disk| - 1] != Free then Some((disk, spaces, files)) else None
    case None => None
  }

  // ---------------------------------------------------------------------------
  // Part 1
  // ---------------------------------------------------------------------------

  /** `Vec::swap_remove`: the last block takes the place of block `i`. */
  function SwapRemove(d: seq<Block>, i: nat): (r: seq<Block>)
    requires i < |d|
    ensures |r| == |d| - 1
    ensures forall j :: 0 <= j < |r| && j != i ==> r[j] == d[j]
    ensures i < |r| ==> r[i] == d[|d| - 1]
  {
    d[i := d[|d| - 1]][..|d| - 1]
  }

  lemma {:induction false} SwapRemoveMultiset(d: seq<Block>, i: nat)
    requires i < |d|
    ensures multiset(SwapRemove(d, i)) + multiset{d[i]} == multiset(d)
  {
    var n := |d| - 1;
    if i < n {
      assert d == d[..i] + [d[i]] + d[i + 1..n] + [d[n]];
      assert SwapRemove(d, i) == d[..i] + [d[n]] + d[i + 1..n];
    } else {
      assert d == d[..n] + [d[n]];
    }
  }

  /** The loop of `process_part1` from position `i` on. */
  function Compact(d: seq<Block>, i: nat): (r: seq<Block>)
    requires i <= |d|
    ensures |r| <= |d|
    decreases |d| - i
  {
    if i == |d| then d
    else if d[i] == Free then Compact(SwapRemove(d, i), i)
    else Compact(d, i + 1)
  }

  /** The file blocks of a disk, free blocks left out. */
  function FileBlocks(d: seq<Block>): multiset<Block> {
    multiset(d)[Free := 0]
  }

  /** Compaction leaves no free block, keeps every file block, and leaves
      every file block that still fits where it was. */
  lemma {:induction false} CompactSpec(d: seq<Block>, i: nat)
    requires i <= |d| && forall j :: 0 <= j < i ==> d[j] != Free
    ensures Free !in Compact(d, i)
    ensures FileBlocks(Compact(d, i)) == FileBlocks(d)
    ensures forall j :: 0 <= j < |Compact(d, i)| && d[j] != Free ==> Compact(d, i)[j] == d[j]
    decreases |d| - i
  {
    if i == |d| {
      assert forall j :: 0 <= j < |d| ==> d[j] != Free;
    } else if d[i] == Free {
      var e := SwapRemove(d, i);
      SwapRemoveMultiset(d, i);
      CompactSpec(e, i);
    } else {
      CompactSpec(d, i + 1);
    }
  }

  /** The checksum of part 1: block id times position, added up; `None` for
      the panic on a free block. */
  function Checksum(d: seq<Block>): (r: Option<nat>)
    ensures r.Some? <==> Free !in d
  {
    if |d| == 0 then Some(0)
    else
      var n := |d| - 1;
      assert Free !in d <==> Free !in d[..n] && d[n] != Free by { assert d == d[..n] + [d[n]]; }
      match (Checksum(d[..n]), d[n])
      case (Some(c), File(id)) => Some(c + id * n)
      case _ => None
  }

  /** `process_part1`. */
  function Part1(s: string): Option<nat> {
    match ParseInput(s)
    case Some((disk, _, _)) => Checksum(Compact(disk, 0))
    case None => None
  }

  /** The panic for a free block after compaction cannot happen: part 1
      answers for every disk map `parse_input` accepts. */
  lemma {:induction false} Part1Answers(s: string)
    ensures Part1(s).Some? <==> ParseInput(s).Some?
  {
    if ParseInput(s).Some? {
      CompactSpec(ParseInput(s).value.0, 0);
    }
  }

  // ---------------------------------------------------------------------------
  // Part 2
  // ---------------------------------------------------------------------------

  /** A free span that can take file `f`: long enough and to its left. */
  predicate Fits(e: Span, f: Span) {
    e.len >= f.len && e.start < f.start
  }

  /** `Iterator::find` over the free spans. */
  function FirstFit(spaces: seq<Span>, f: Span): (r: Option<nat>)
    ensures r.Some? ==> r.value < |spaces| && Fits(spaces[r.value], f)
    ensures r.Some? ==> forall j :: 0 <= j < r.value ==> !Fits(spaces[j], f)
    ensures r.None? ==> forall j :: 0 <= j < |spaces| ==> !Fits(spaces[j], f)
  {
    if |spaces| == 0 then None
    else if Fits(spaces[0], f) then Some(0)
    else
      match FirstFit(spaces[1..], f)
      case Some(j) => Some(j + 1)
      case None => None
  }

  /** One iteration of the part-2 loop on file `k`: the file takes the front
      of the first span that fits, and the span keeps the rest. */
  function MoveFile(spaces: seq<Span>, files: seq<Span>, k: nat): (seq<Span>, seq<Span>)
    requires k < |files|
  {
    var f := files[k];
    match FirstFit(spaces, f)
    case None => (spaces, files)
    case Some(j) =>
      var e := spaces[j];
      (spaces[j := Span(e.start + f.len, e.len - f.len)], files[k := Span(e.start, f.len)])
  }

  /** The part-2 loop over files `k - 1` down to `0`. */
  function MoveFiles(spaces: seq<Span>, files: seq<Span>, k: nat): (r: (seq<Span>, seq<Span>))
    requires k <= |files|
    ensures |r.0| == |spaces| && |r.1| == |files|
    decreases k
  {
    if k == 0 then (spaces, files)
    else
      var (sp, fs) := MoveFile(spaces, files, k - 1);
      MoveFiles(sp, fs, k - 1)
  }

  /** Files only ever move left, keep their length, and files from `k` on
      are not touched. */
  lemma {:induction false} MoveFilesLeft(spaces: seq<Span>, files: seq<Span>, k: nat)
    requires k <= |files|
    ensures var fs := MoveFiles(spaces, files, k).1;
      forall i :: 0 <= i < |files| ==>
        && fs[i].len == files[i].len && fs[i].start <= files[i].start
        && (i >= k ==> fs[i] == files[i])
    decreases k
  {
    if k > 0 {
      var (sp, fs) := MoveFile(spaces, files, k - 1);
      MoveFilesLeft(sp, fs, k - 1);
    }
  }

  /** Two runs share no block. */
  predicate Apart(a: Span, b: Span) {
    End(a) <= b.start || End(b) <= a.start
  }

  /** No two runs of `xs` share a block. */
  ghost predicate Separate(xs: seq<Span>) {
    forall i, j :: 0 <= i < |xs| && 0 <= j < |xs| && i != j ==> Apart(xs[i], xs[j])
  }

  /** Every run of `xs` lies on a disk of `n` blocks. */
  ghost predicate Within(xs: seq<Span>, n: nat) {
    forall i :: 0 <= i < |xs| ==> End(xs[i]) <= n
  }

  predicate Inside(a: Span, b: Span) {
    b.start <= a.start && End(a) <= End(b)
  }

  /** Splitting one run of a separate list into two apart pieces keeps it
      separate. */
  lemma {:induction false} SplitRun(xs: seq<Span>, i: nat, k: nat, a: Span, b: Span)
    requires Separate(xs) && i < |xs| && k < |xs| && i != k
    requires Inside(a, xs[i]) && Inside(b, xs[i]) && Apart(a, b)
    ensures Separate(xs[i := a][k := b])
  {
    var ys := xs[i := a][k := b];
    forall p, q | 0 <= p < |ys| && 0 <= q < |ys| && p != q
      ensures Apart(ys[p], ys[q])
    {
      if p != i && p != k {
        assert Apart(xs[p], xs[i]);
      }
      if q != i && q != k {
        assert Apart(xs[q], xs[i]);
      }
    }
  }

  /** Moving a file keeps the free spans and files pairwise apart and on
      the disk. */
  lemma {:induction false} MoveFileSeparate(spaces: seq<Span>, files: seq<Span>, k: nat, n: nat)
    requires k < |files| && Separate(spaces + files) && Within(spaces + files, n)
    ensures var (sp, fs) := MoveFile(spaces, files, k);
      |sp| == |spaces| && |fs| == |files| && Separate(sp + fs) && Within(sp + fs, n)
  {
    var f := files[k];
    var xs := spaces + files;
    match FirstFit(spaces, f)
    case None =>
    case Some(j) =>
      var e := spaces[j];
      var a, b := Span(e.start + f.len, e.len - f.len), Span(e.start, f.len);
      assert xs[j] == e;
      SplitRun(xs, j, |spaces| + k, a, b);
      var (sp, fs) := MoveFile(spaces, files, k);
      assert sp + fs == xs[j := a][|spaces| + k := b];
      forall i | 0 <= i < |sp + fs| ensures End((sp + fs)[i]) <= n {
        assert End(xs[i]) <= n;
      }
  }

  lemma {:induction false} MoveFilesSeparate(spaces: seq<Span>, files: seq<Span>, k: nat, n: nat)
    requires k <= |files| && Separate(spaces + files) && Within(spaces + files, n)
    ensures var (sp, fs) := MoveFiles(spaces, files, k);
      Separate(sp + fs) && Within(sp + fs, n)
    decreases k
  {
    if k > 0 {
      MoveFileSeparate(spaces, files, k - 1, n);
      var (sp, fs) := MoveFile(spaces, files, k - 1);
      MoveFilesSeparate(sp, fs, k - 1, n);
    }
  }

  /** The positions `start`, ..., `start + len - 1` added up. */
  function RangeSum(e: Span): nat
    decreases e.len
  {
    if e.len == 0 then 0 else RangeSum(Span(e.start, e.len - 1)) + e.start + e.len - 1
  }

  /** The checksum of part 2: for each file, its id times the sum of the
      positions it covers. */
  function Checksum2(files: seq<Span>): nat {
    if |files| == 0 then 0
    else Checksum2(files[..|files| - 1]) + (|files| - 1) * RangeSum(files[|files| - 1])
  }

  /** Block id times position over the file blocks of a disk, free blocks
      counting nothing: the checksum both parts compute. */
  function PosSum(d: seq<Block>): nat {
    if |d| == 0 then 0
    else
      var n := |d| - 1;
      PosSum(d[..n]) + match d[n] case File(id) => id * n case Free => 0
  }

  /** On a disk without free blocks, part 1's checksum is the positional
      sum. */
  lemma {:induction false} ChecksumPosSum(d: seq<Block>)
    requires Free !in d
    ensures Checksum(d) == Some(PosSum(d))
    decreases |d|
  {
    if |d| > 0 {
      var n := |d| - 1;
      assert Free !in d[..n] by { assert forall b :: b in d[..n] ==> b in d; }
      ChecksumPosSum(d[..n]);
    }
  }

  /** Writing file `id` into a free block adds `id` times its position. */
  lemma {:induction false} PosSumSet(d: seq<Block>, p: nat, id: nat)
    requires p < |d| && d[p] == Free
    ensures PosSum(d[p := File(id)]) == PosSum(d) + id * p
    decreases |d|
  {
    var n := |d| - 1;
    var e := d[p := File(id)];
    if p < n {
      assert e[..n] == d[..n][p := File(id)];
      PosSumSet(d[..n], p, id);
    } else {
      assert e[..n] == d[..n];
    }
  }

  /** `d` with the blocks of run `e` given to file `id`. */
  function Paint(d: seq<Block>, e: Span, id: nat): (r: seq<Block>)
    requires End(e) <= |d|
    ensures |r| == |d|
    ensures forall p :: 0 <= p < |d| ==> r[p] == if e.start <= p < End(e) then File(id) else d[p]
  {
    seq(|d|, p requires 0 <= p < |d| => if e.start <= p < End(e) then File(id) else d[p])
  }

  lemma {:induction false} PaintLast(d: seq<Block>, e: Span, id: nat)
    requires End(e) <= |d| && e.len > 0
    ensures Paint(d, e, id) == Paint(d, Span(e.start, e.len - 1), id)[End(e) - 1 := File(id)]
    ensures Paint(d, Span(e.start, e.len - 1), id)[End(e) - 1] == d[End(e) - 1]
  {
  }

  /** A disk without files sums to nothing. */
  lemma {:induction false} PosSumFree(d: seq<Block>)
    requires forall p :: 0 <= p < |d| ==> d[p] == Free
    ensures PosSum(d) == 0
    decreases |d|
  {
    if |d| > 0 {
      PosSumFree(d[..|d| - 1]);
    }
  }

  /** The arithmetic of one painting step. */
  lemma {:induction false} Distribute(after: nat, before: nat, start: nat, id: nat, r: nat, q: nat)
    requires after == before + id * q && before == start + id * r
    ensures after == start + id * (r + q)
  {
  }

  /** Painting a free run adds `id` times the sum of its positions. */
  lemma {:induction false} PosSumPaint(d: seq<Block>, e: Span, id: nat)
    requires End(e) <= |d| && forall p :: e.start <= p < End(e) ==> d[p] == Free
    ensures PosSum(Paint(d, e, id)) == PosSum(d) + id * RangeSum(e)
    decreases e.len
  {
    if e.len == 0 {
      PaintNothing(d, e, id);
      assert RangeSum(e) == 0;
    } else {
      PosSumPaint(d, Span(e.start, e.len - 1), id);
      PaintStep(d, e, id);
    }
  }

  lemma {:induction false} PaintNothing(d: seq<Block>, e: Span, id: nat)
    requires End(e) <= |d| && e.len == 0
    ensures Paint(d, e, id) == d
  {
  }

  /** Painting one more block at the end of a run. */
  lemma {:induction false} PaintStep(d: seq<Block>, e: Span, id: nat)
    requires End(e) <= |d| && e.len > 0 && d[End(e) - 1] == Free
    requires PosSum(Paint(d, Span(e.start, e.len - 1), id)) == PosSum(d) + id * RangeSum(Span(e.start, e.len - 1))
    ensures PosSum(Paint(d, e, id)) == PosSum(d) + id * RangeSum(e)
  {
    var e' := Span(e.start, e.len - 1);
    var q := End(e) - 1;
    var before := Paint(d, e', id);
    PaintLast(d, e, id);
    PosSumSet(before, q, id);
    assert RangeSum(e) == RangeSum(e') + q;
    Distribute(PosSum(Paint(d, e, id)), PosSum(before), PosSum(d), id, RangeSum(e'), q);
  }

  /** Whose block `p` is when files are laid out as `files`: the last file
      covering it, `Free` if none does. */
  function OwnerAt(files: seq<Span>, p: nat): (r: Block)
    ensures r == Free <==> forall k :: 0 <= k < |files| ==> !(files[k].start <= p < End(files[k]))
    ensures r.File? ==> r.id < |files| && files[r.id].start <= p < End(files[r.id])
  {
    if |files| == 0 then Free
    else
      var k := |files| - 1;
      if files[k].start <= p < End(files[k]) then File(k) else OwnerAt(files[..k], p)
  }

  /** A disk of `n` blocks holding `files` where they are. */
  function Image(files: seq<Span>, n: nat): (r: seq<Block>)
    ensures |r| == n
  {
    seq(n, p requires 0 <= p < n => OwnerAt(files, p))
  }

  /** Part 2's checksum is the positional sum over the disk the moved files
      make, provided no two files share a block. */
  lemma {:induction false} Checksum2Image(files: seq<Span>, n: nat)
    requires Separate(files) && Within(files, n)
    ensures Checksum2(files) == PosSum(Image(files, n))
    decreases |files|
  {
    if |files| > 0 {
      var k := |files| - 1;
      var fs, f := files[..k], files[k];
      SeparatePart(files, 0, k);
      assert files[0..k] == fs;
      assert Within(files[0..k], n);
      Checksum2Image(fs, n);
      ImageSnoc(files, n);
      PosSumPaint(Image(fs, n), f, k);
      assert Checksum2(files) == Checksum2(fs) + k * RangeSum(f);
      assert PosSum(Image(files, n)) == PosSum(Paint(Image(fs, n), f, k));
    } else {
      PosSumFree(Image(files, n));
    }
  }

  /** The runs `xs[i..j]` of separate runs on a disk are separate and on
      the disk. */
  lemma {:induction false} SeparatePart(xs: seq<Span>, i: nat, j: nat)
    requires Separate(xs) && i <= j <= |xs|
    ensures Separate(xs[i..j])
    ensures forall n :: Within(xs, n) ==> Within(xs[i..j], n)
  {
    var ys := xs[i..j];
    forall p, q | 0 <= p < |ys| && 0 <= q < |ys| && p != q ensures Apart(ys[p], ys[q]) {
      assert ys[p] == xs[i + p] && ys[q] == xs[i + q];
    }
    forall n | Within(xs, n) ensures Within(ys, n) {
      forall p | 0 <= p < |ys| ensures End(ys[p]) <= n { assert ys[p] == xs[i + p]; }
    }
  }

  /** Adding the last file paints its run, which no earlier file covers. */
  lemma {:induction false} ImageSnoc(files: seq<Span>, n: nat)
    requires Separate(files) && Within(files, n) && |files| > 0
    ensures var k := |files| - 1;
      && End(files[k]) <= n
      && (forall p :: files[k].start <= p < End(files[k]) ==> Image(files[..k], n)[p] == Free)
      && Image(files, n) == Paint(Image(files[..k], n), files[k], k)
  {
    var k := |files| - 1;
    var fs, f := files[..k], files[k];
    forall p | f.start <= p < End(f) ensures Image(fs, n)[p] == Free {
      forall i | 0 <= i < |fs| ensures !(fs[i].start <= p < End(fs[i])) {
        assert Apart(files[i], files[k]);
      }
    }
  }

  /** What part 2 leaves: every file keeps its length, never moves right,
      stays on the disk, and shares no block with another file. */
  lemma {:induction false} Part2Files(s: string)
    requires ParseInput(s).Some?
    ensures var (disk, spaces, files) := ParseInput(s).value;
      var fs := MoveFiles(spaces, files, |files|).1;
      && |fs| == |files|
      && (forall k :: 0 <= k < |fs| ==> fs[k].len == files[k].len && fs[k].start <= files[k].start)
      && Separate(fs) && Within(fs, |disk|)
  {
    var (disk, spaces, files) := ParseInput(s).value;
    LayoutSeparate(s);
    MoveFilesLeft(spaces, files, |files|);
    MoveFilesSeparate(spaces, files, |files|, |disk|);
    var (sp, fs) := MoveFiles(spaces, files, |files|);
    SeparatePart(sp + fs, |sp|, |sp + fs|);
    assert (sp + fs)[|sp|..|sp + fs|] == fs;
  }

  /** Part 2 answers with the positional sum over the compacted disk, the
      same checksum part 1 computes. */
  lemma {:induction false} Part2Image(s: string)
    requires ParseInput(s).Some?
    ensures var (disk, spaces, files) := ParseInput(s).value;
      Part2(s) == Some(PosSum(Image(MoveFiles(spaces, files, |files|).1, |disk|)))
  {
    Part2Files(s);
    var (disk, spaces, files) := ParseInput(s).value;
    Checksum2Image(MoveFiles(spaces, files, |files|).1, |disk|);
  }

  /** `process_part2`. */
  function Part2(s: string): Option<nat> {
    match ParseInput(s)
    case Some((_, spaces, files)) => Some(Checksum2(MoveFiles(spaces, files, |files|).1))
    case None => None
  }
}
