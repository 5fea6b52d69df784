/** Day 2: reactor reports. A report is safe when its levels move in one
    direction by 1 to 3 at every step; part 2 also accepts a report that
    becomes safe once any single level is removed. */
module RedNosedReports {
  import opened Wrappers

  datatype Ordering = Less | Equal | Greater

  /** `Ord::cmp`. */
  function Cmp(a: nat, b: nat): (o: Ordering)
    ensures o == Less <==> a < b
    ensures o == Equal <==> a == b
  {
    if a < b then Less else if a == b then Equal else Greater
  }

  function AbsDiff(a: nat, b: nat): nat {
    if a < b then b - a else a - b
  }

  /** `(1u8..4).contains(&d)`. */
  predicate InRange(d: nat) {
    1 <= d < 4
  }

  // ---------------------------------------------------------------------------
  // The reference: what a safe report is
  // ---------------------------------------------------------------------------

  /** Every step rises by 1 to 3. */
  predicate Increasing(r: seq<nat>) {
    forall i :: 0 < i < |r| ==> r[i - 1] < r[i] <= r[i - 1] + 3
  }

  /** Every step falls by 1 to 3. */
  predicate Decreasing(r: seq<nat>) {
    forall i :: 0 < i < |r| ==> r[i] < r[i - 1] <= r[i] + 3
  }

  predicate Safe(r: seq<nat>) {
    |r| >= 2 && (Increasing(r) || Decreasing(r))
  }

  // ---------------------------------------------------------------------------
  // is_safe
  // ---------------------------------------------------------------------------

  /** The `for next in iter` loop: every further level must keep the step in
      range and the direction `cmp` of the first step. */
  function SafeRest(last: nat, rest: seq<nat>, cmp: Ordering): bool
    decreases |rest|
  {
    if |rest| == 0 then true
    else if !InRange(AbsDiff(last, rest[0])) || Cmp(last, rest[0]) != cmp then false
    else SafeRest(rest[0], rest[1..], cmp)
  }

  /** `IsSafe::is_safe`; `None` where the source panics, on a report with
      fewer than two levels. */
  function IsSafe(r: seq<nat>): (res: Option<bool>)
    ensures res.None? <==> |r| < 2
  {
    if |r| < 2 then None
    else if !InRange(AbsDiff(r[0], r[1])) then Some(false)
    else Some(SafeRest(r[1], r[2..], Cmp(r[0], r[1])))
  }

  /** Increasing and decreasing reports, one level at a time from the
      front. */
  lemma {:induction false} ConsSteps(x: nat, r: seq<nat>)
    requires |r| > 0
    ensures Increasing([x] + r) == (x < r[0] <= x + 3 && Increasing(r))
    ensures Decreasing([x] + r) == (r[0] < x <= r[0] + 3 && Decreasing(r))
  {
    var s := [x] + r;
    assert forall i :: 0 < i < |s| ==> s[i] == r[i - 1];
    if x < r[0] <= x + 3 && Increasing(r) {
      forall i | 0 < i < |s| ensures s[i - 1] < s[i] <= s[i - 1] + 3 {
        if i > 1 {
          assert s[i - 1] == r[i - 2];
        }
      }
    }
    if r[0] < x <= r[0] + 3 && Decreasing(r) {
      forall i | 0 < i < |s| ensures s[i] < s[i - 1] <= s[i] + 3 {
        if i > 1 {
          assert s[i - 1] == r[i - 2];
        }
      }
    }
    if Increasing(s) {
      assert s[0] < s[1] <= s[0] + 3;
      forall j | 0 < j < |r| ensures r[j - 1] < r[j] <= r[j - 1] + 3 {
        assert s[j] == r[j - 1] && s[j + 1] == r[j];
      }
    }
    if Decreasing(s) {
      assert s[1] < s[0] <= s[1] + 3;
      forall j | 0 < j < |r| ensures r[j] < r[j - 1] <= r[j] + 3 {
        assert s[j] == r[j - 1] && s[j + 1] == r[j];
      }
    }
  }

  lemma {:induction false} SafeRestSpec(last: nat, rest: seq<nat>, cmp: Ordering)
    requires cmp != Equal
    ensures SafeRest(last, rest, cmp) == if cmp == Less then Increasing([last] + rest) else Decreasing([last] + rest)
    decreases |rest|
  {
    if |rest| > 0 {
      SafeRestSpec(rest[0], rest[1..], cmp);
      assert [rest[0]] + rest[1..] == rest;
      ConsSteps(last, rest);
    }
  }

  /** `is_safe` decides `Safe` on every report it does not panic on. */
  lemma {:induction false} IsSafeCorrect(r: seq<nat>)
    ensures IsSafe(r) == if |r| < 2 then None else Some(Safe(r))
  {
    if |r| >= 2 {
      assert r == [r[0]] + r[1..];
      ConsSteps(r[0], r[1..]);
      if InRange(AbsDiff(r[0], r[1])) {
        SafeRestSpec(r[1], r[2..], Cmp(r[0], r[1]));
        assert [r[1]] + r[2..] == r[1..];
      }
    }
  }

  /** Two equal neighbours make a report unsafe. */
  lemma {:induction false} EqualNeighboursUnsafe(r: seq<nat>, i: nat)
    requires 0 < i < |r| && r[i - 1] == r[i]
    ensures !Safe(r)
  {
  }

  // ---------------------------------------------------------------------------
  // skip_any
  // ---------------------------------------------------------------------------

  /** The report without level `i`. */
  function Remove(r: seq<nat>, i: nat): (t: seq<nat>)
    requires i < |r|
    ensures |t| == |r| - 1
    ensures forall j :: 0 <= j < |t| ==> t[j] == if j < i then r[j] else r[j + 1]
  {
    r[..i] + r[i + 1..]
  }

  /** Removing level `i` leaves a safe report. */
  predicate SafeWithout(v: seq<nat>, i: nat)
    requires i < |v|
  {
    Safe(Remove(v, i))
  }

  /** `(i..v.len()).any(…)`: tries the removals in order, stopping at the
      first safe one, and panics (`None`) as soon as a removal leaves fewer
      than two levels. */
  function AnyFrom(v: seq<nat>, i: nat): Option<bool>
    requires i <= |v|
    decreases |v| - i
  {
    if i == |v| then Some(false)
    else
      match IsSafe(Remove(v, i))
      case None => None
      case Some(true) => Some(true)
      case Some(false) => AnyFrom(v, i + 1)
  }

  /** `SkipAny::skip_any`. */
  function SkipAny(v: seq<nat>): Option<bool> {
    AnyFrom(v, 0)
  }

  lemma {:induction false} AnyFromCorrect(v: seq<nat>, i: nat)
    requires |v| >= 3 && i <= |v|
    ensures AnyFrom(v, i) == Some(exists j :: i <= j < |v| && SafeWithout(v, j))
    decreases |v| - i
  {
    if i < |v| {
      IsSafeCorrect(Remove(v, i));
      AnyFromCorrect(v, i + 1);
      if !SafeWithout(v, i) {
        assert (exists j :: i <= j < |v| && SafeWithout(v, j)) ==
          (exists j :: i + 1 <= j < |v| && SafeWithout(v, j));
      }
    }
  }

  /** `skip_any` holds exactly when removing some single level leaves a safe
      report; on one or two levels it panics, an empty report is never
      tolerated. */
  lemma {:induction false} SkipAnyCorrect(v: seq<nat>)
    ensures |v| >= 3 ==> SkipAny(v) == Some(exists j :: 0 <= j < |v| && SafeWithout(v, j))
    ensures 1 <= |v| <= 2 ==> SkipAny(v) == None
    ensures |v| == 0 ==> SkipAny(v) == Some(false)
  {
    if |v| >= 3 {
      AnyFromCorrect(v, 0);
    }
  }

  // ---------------------------------------------------------------------------
  // The two parts
  // ---------------------------------------------------------------------------

  /** The part-2 filter: `is_safe() || skip_any()`, the second tried only
      when the first is false. */
  function Tolerated(r: seq<nat>): Option<bool> {
    match IsSafe(r)
    case None => None
    case Some(true) => Some(true)
    case Some(false) => SkipAny(r)
  }

  lemma {:induction false} ToleratedCorrect(r: seq<nat>)
    ensures Tolerated(r) ==
      if |r| < 2 then None
      else if Safe(r) then Some(true)
      else if |r| == 2 then None
      else Some(exists j :: 0 <= j < |r| && SafeWithout(r, j))
  {
    IsSafeCorrect(r);
    SkipAnyCorrect(r);
  }

  /** `filter(…).count()` with a filter that may panic; the count is taken
      from the last report backwards, which gives the same total and the
      same panics. */
  function CountWhere(reports: seq<seq<nat>>, tolerant: bool): Option<nat>
    decreases |reports|
  {
    if |reports| == 0 then Some(0)
    else
      var n := |reports| - 1;
      var verdict := if tolerant then Tolerated(reports[n]) else IsSafe(reports[n]);
      match verdict
      case None => None
      case Some(ok) =>
        match CountWhere(reports[..n], tolerant)
        case None => None
        case Some(c) => Some(c + if ok then 1 else 0)
  }

  /** `process_part1`: the number of safe reports. */
  function Part1(reports: seq<seq<nat>>): Option<nat> {
    CountWhere(reports, false)
  }

  /** `process_part2`: the number of reports safe up to one removal. */
  function Part2(reports: seq<seq<nat>>): Option<nat> {
    CountWhere(reports, true)
  }

  /** Part 1 answers whenever part 2 does, and every report part 1 counts,
      part 2 counts as well. */
  lemma {:induction false} Part1WithinPart2(reports: seq<seq<nat>>)
    ensures Part2(reports).Some? ==> Part1(reports).Some? && Part1(reports).value <= Part2(reports).value
    decreases |reports|
  {
    if |reports| > 0 {
      Part1WithinPart2(reports[..|reports| - 1]);
    }
  }

  /** Part 1 panics exactly when some report has fewer than two levels, and
      otherwise counts the safe reports. */
  lemma {:induction false} Part1Counts(reports: seq<seq<nat>>)
    ensures Part1(reports).None? <==> exists i :: 0 <= i < |reports| && |reports[i]| < 2
    ensures Part1(reports).Some? ==> Part1(reports).value == |set i | 0 <= i < |reports| && Safe(reports[i])|
  {
    Part1Fails(reports);
    Part1Total(reports);
  }

  lemma {:induction false} Part1Fails(reports: seq<seq<nat>>)
    ensures Part1(reports).None? <==> exists i :: 0 <= i < |reports| && |reports[i]| < 2
    decreases |reports|
  {
    if |reports| > 0 {
      var n := |reports| - 1;
      var front := reports[..n];
      Part1Fails(front);
      IsSafeCorrect(reports[n]);
      if exists i :: 0 <= i < |reports| && |reports[i]| < 2 {
        var i :| 0 <= i < |reports| && |reports[i]| < 2;
        if i < n {
          assert |front[i]| < 2;
        }
      }
      if exists i :: 0 <= i < n && |front[i]| < 2 {
        var i :| 0 <= i < n && |front[i]| < 2;
        assert |reports[i]| < 2;
      }
    }
  }

  lemma {:induction false} Part1Total(reports: seq<seq<nat>>)
    ensures Part1(reports).Some? ==> Part1(reports).value == |set i | 0 <= i < |reports| && Safe(reports[i])|
    decreases |reports|
  {
    if |reports| > 0 {
      var n := |reports| - 1;
      Part1Total(reports[..n]);
      IsSafeCorrect(reports[n]);
      SafeSetSnoc(reports);
    }
  }

  /** The safe reports among all are those among all but the last, and
      maybe the last. */
  lemma {:induction false} SafeSetSnoc(reports: seq<seq<nat>>)
    requires |reports| > 0
    ensures var n := |reports| - 1;
      |set i | 0 <= i < |reports| && Safe(reports[i])|
      == |set i | 0 <= i < n && Safe(reports[..n][i])| + (if Safe(reports[n]) then 1 else 0)
  {
    var n := |reports| - 1;
    var front := reports[..n];
    var before := set i | 0 <= i < n && Safe(front[i]);
    var all := set i | 0 <= i < |reports| && Safe(reports[i]);
    assert all == before + (if Safe(reports[n]) then {n} else {});
    assert n !in before;
  }

  /** Safe, or safe once some single level is removed. */
  predicate Dampened(r: seq<nat>) {
    Safe(r) || (|r| >= 3 && exists j :: 0 <= j < |r| && SafeWithout(r, j))
  }

  /** A report part 2 panics on: too short for `is_safe`, or an unsafe pair
      whose removals are too short. */
  predicate Jams(r: seq<nat>) {
    |r| < 2 || (|r| == 2 && !Safe(r))
  }

  /** Part 2 panics exactly when some report jams it. */
  lemma {:induction false} Part2Panics(reports: seq<seq<nat>>)
    ensures Part2(reports).None? <==> exists i :: 0 <= i < |reports| && Jams(reports[i])
    decreases |reports|
  {
    if |reports| > 0 {
      var n := |reports| - 1;
      var front := reports[..n];
      Part2Panics(front);
      ToleratedCorrect(reports[n]);
      if exists i :: 0 <= i < |reports| && Jams(reports[i]) {
        var i :| 0 <= i < |reports| && Jams(reports[i]);
        if i < n {
          assert front[i] == reports[i];
        }
      }
    }
  }

  lemma {:induction false} ToleratedDampened(r: seq<nat>)
    ensures Tolerated(r).Some? ==> Tolerated(r) == Some(Dampened(r))
  {
    ToleratedCorrect(r);
  }

  /** When part 2 answers, it counts the dampened reports. */
  lemma {:induction false} Part2Counts(reports: seq<seq<nat>>)
    ensures Part2(reports).Some? ==> Part2(reports).value == |set i | 0 <= i < |reports| && Dampened(reports[i])|
    decreases |reports|
  {
    if |reports| > 0 {
      var n := |reports| - 1;
      var front := reports[..n];
      Part2Counts(front);
      ToleratedDampened(reports[n]);
      DampenedSnoc(reports);
    }
  }

  lemma {:induction false} DampenedSnoc(reports: seq<seq<nat>>)
    requires |reports| > 0
    ensures var n := |reports| - 1;
      |set i | 0 <= i < |reports| && Dampened(reports[i])| ==
      |set i | 0 <= i < n && Dampened(reports[..n][i])| + (if Dampened(reports[n]) then 1 else 0)
  {
    var n := |reports| - 1;
    var before := set i | 0 <= i < n && Dampened(reports[..n][i]);
    var all := set i | 0 <= i < |reports| && Dampened(reports[i]);
    assert all == before + (if Dampened(reports[n]) then {n} else {});
    assert n !in before;
  }
}
