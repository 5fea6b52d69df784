/** Day 5: page-ordering rules `before|after` and updates (lists of pages).
    Part 1 adds up the middle pages of the updates already in order; part 2
    repairs the others by swapping pages until no rule is broken and adds
    up their middle pages. */
module PrintQueue {
  import opened Wrappers

  /** A rule `(before, after)`: `before` must be printed before `after`. */
  type Rule = (nat, nat)

  // ---------------------------------------------------------------------------
  // The rules map and is_correctly_ordered
  // ---------------------------------------------------------------------------

  /** The map both parts build: each `after` page to the `before` pages of
      its rules, in rule order. */
  function RuleMap(rules: seq<Rule>): map<nat, seq<nat>> {
    if |rules| == 0 then map[]
    else
      var n := |rules| - 1;
      var m := RuleMap(rules[..n]);
      var (before, after) := rules[n];
      m[after := (if after in m then m[after] else []) + [before]]
  }

  /** Page `b` is listed under `a` exactly when there is a rule `b|a`. */
  lemma {:induction false} RuleMapSpec(rules: seq<Rule>, a: nat, b: nat)
    ensures (a in RuleMap(rules) && b in RuleMap(rules)[a]) <==> (b, a) in rules
    decreases |rules|
  {
    if |rules| > 0 {
      var n := |rules| - 1;
      var m := RuleMap(rules[..n]);
      var r := rules[n];
      RuleMapSpec(rules[..n], a, b);
      assert (b, a) in rules <==> (b, a) in rules[..n] || r == (b, a) by {
        assert rules == rules[..n] + [r];
      }
      if r.1 == a {
        var l := (if a in m then m[a] else []) + [r.0];
        assert RuleMap(rules)[a] == l;
        assert b in l <==> (a in m && b in m[a]) || b == r.0;
      }
    }
  }

  /** The loop of `is_correctly_ordered`: `banned` holds the pages that an
      earlier page requires to come before it. */
  function OrderedFrom(pages: seq<nat>, m: map<nat, seq<nat>>, banned: seq<nat>): bool
    decreases |pages|
  {
    if |pages| == 0 then true
    else if pages[0] in banned then false
    else OrderedFrom(pages[1..], m, banned + (if pages[0] in m then m[pages[0]] else []))
  }

  function IsCorrectlyOrdered(pages: seq<nat>, m: map<nat, seq<nat>>): bool {
    OrderedFrom(pages, m, [])
  }

  /** No page comes after a page it must precede. */
  ghost predicate Follows(pages: seq<nat>, rules: seq<Rule>) {
    forall i, j :: 0 <= i < j < |pages| ==> (pages[j], pages[i]) !in rules
  }

  lemma {:induction false} OrderedFromSpec(pages: seq<nat>, rules: seq<Rule>, banned: seq<nat>)
    ensures OrderedFrom(pages, RuleMap(rules), banned)
      <==> (forall j :: 0 <= j < |pages| ==> pages[j] !in banned) && Follows(pages, rules)
    decreases |pages|
  {
    var m := RuleMap(rules);
    if |pages| > 0 && pages[0] !in banned {
      var p := pages[0];
      var banned' := banned + (if p in m then m[p] else []);
      var rest := pages[1..];
      OrderedFromSpec(rest, rules, banned');
      forall x ensures x in banned' <==> x in banned || (x, p) in rules {
        RuleMapSpec(rules, p, x);
      }
      if OrderedFrom(pages, m, banned) {
        forall i, j | 0 <= i < j < |pages| ensures (pages[j], pages[i]) !in rules {
          if i > 0 {
            assert rest[i - 1] == pages[i] && rest[j - 1] == pages[j];
          } else {
            assert rest[j - 1] == pages[j];
          }
        }
      }
      if (forall j :: 0 <= j < |pages| ==> pages[j] !in banned) && Follows(pages, rules) {
        forall j | 0 <= j < |rest| ensures rest[j] !in banned' {
          assert rest[j] == pages[j + 1];
        }
        forall i, j | 0 <= i < j < |rest| ensures (rest[j], rest[i]) !in rules {
          assert rest[i] == pages[i + 1] && rest[j] == pages[j + 1];
        }
      }
    }
  }

  /** `is_correctly_ordered` fails exactly when some page comes after a
      page that a rule says it must precede. */
  lemma {:induction false} OrderedSpec(pages: seq<nat>, rules: seq<Rule>)
    ensures IsCorrectlyOrdered(pages, RuleMap(rules)) <==> Follows(pages, rules)
  {
    OrderedFromSpec(pages, rules, []);
  }

  // ---------------------------------------------------------------------------
  // find_rule and the repair loop
  // ---------------------------------------------------------------------------

  /** `Iterator::find` for a page: its first position. */
  function IndexOf(pages: seq<nat>, x: nat): (r: Option<nat>)
    ensures r.Some? ==> r.value < |pages| && pages[r.value] == x && x !in pages[..r.value]
    ensures r.None? <==> x !in pages
  {
    if |pages| == 0 then None
    else if pages[0] == x then Some(0)
    else
      match IndexOf(pages[1..], x)
      case Some(i) =>
        assert pages[..i + 1] == [pages[0]] + pages[1..][..i];
        Some(i + 1)
      case None => None
  }

  /** `find_rule`: the positions of the first `before` and the first
      `after` when both occur and they break the rule. */
  function FindRule(rule: Rule, pages: seq<nat>): (r: Option<(nat, nat)>)
    ensures r.Some? <==> rule.0 in pages && rule.1 in pages && IndexOf(pages, rule.0).value > IndexOf(pages, rule.1).value
    ensures r.Some? ==> r.value == (IndexOf(pages, rule.0).value, IndexOf(pages, rule.1).value)
  {
    match (IndexOf(pages, rule.0), IndexOf(pages, rule.1))
    case (Some(bi), Some(ai)) => if bi > ai then Some((bi, ai)) else None
    case _ => None
  }

  function Swap(pages: seq<nat>, i: nat, j: nat): (r: seq<nat>)
    requires i < |pages| && j < |pages|
    ensures |r| == |pages| && multiset(r) == multiset(pages)
  {
    pages[i := pages[j]][j := pages[i]]
  }

  /** One pass of the repair loop over all rules in order: the pages after
      it, and whether any swap was made. */
  function Pass(pages: seq<nat>, rules: seq<Rule>): (r: (seq<nat>, bool))
    ensures |r.0| == |pages| && multiset(r.0) == multiset(pages)
    ensures !r.1 ==> r.0 == pages
  {
    if |rules| == 0 then (pages, false)
    else
      var n := |rules| - 1;
      var pass := Pass(pages, rules[..n]);
      match FindRule(rules[n], pass.0)
      case Some((bi, ai)) => (Swap(pass.0, bi, ai), true)
      case None => pass
  }

  /** No rule applies to `pages` any more: the loop's exit condition. */
  predicate Settled(pages: seq<nat>, rules: seq<Rule>) {
    forall k :: 0 <= k < |rules| ==> FindRule(rules[k], pages).None?
  }

  /** A pass without a swap is a fixed point: no rule applies any more. */
  lemma {:induction false} PassFixed(pages: seq<nat>, rules: seq<Rule>)
    requires !Pass(pages, rules).1
    ensures Settled(pages, rules)
    decreases |rules|
  {
    if |rules| > 0 {
      var n := |rules| - 1;
      var pass := Pass(pages, rules[..n]);
      assert FindRule(rules[n], pass.0).None? && !pass.1;
      PassFixed(pages, rules[..n]);
      forall k | 0 <= k < |rules| ensures FindRule(rules[k], pages).None? {
        if k < n {
          assert rules[..n][k] == rules[k];
        }
      }
    }
  }

  /** The `loop` of `process_part2`, given at most `fuel` passes; `None`
      when they run out. */
  function Repair(pages: seq<nat>, rules: seq<Rule>, fuel: nat): (r: Option<seq<nat>>)
    ensures r.Some? ==> |r.value| == |pages| && multiset(r.value) == multiset(pages)
    decreases fuel
  {
    if fuel == 0 then None
    else
      var pass := Pass(pages, rules);
      if pass.1 then Repair(pass.0, rules, fuel - 1) else Some(pass.0)
  }

  /** A repaired update holds the same pages, and no rule applies to it. */
  lemma {:induction false} RepairSpec(pages: seq<nat>, rules: seq<Rule>, fuel: nat)
    requires Repair(pages, rules, fuel).Some?
    ensures Settled(Repair(pages, rules, fuel).value, rules)
    decreases fuel
  {
    var pass := Pass(pages, rules);
    if pass.1 {
      assert Repair(pages, rules, fuel) == Repair(pass.0, rules, fuel - 1);
      RepairSpec(pass.0, rules, fuel - 1);
    } else {
      assert Repair(pages, rules, fuel) == Some(pages);
      PassFixed(pages, rules);
    }
  }

  predicate Distinct(pages: seq<nat>) {
    forall i, j :: 0 <= i < j < |pages| ==> pages[i] != pages[j]
  }

  /** In an update of distinct pages, a later page before an earlier one
      is a broken rule `find_rule` reports at their positions. */
  lemma {:induction false} FindRuleDistinct(pages: seq<nat>, i: nat, j: nat)
    requires Distinct(pages) && i < j < |pages|
    ensures FindRule((pages[j], pages[i]), pages) == Some((j, i))
  {
    assert IndexOf(pages, pages[j]).value == j;
    assert IndexOf(pages, pages[i]).value == i;
  }

  /** With no page repeated, an update no rule applies to is in order. */
  lemma {:induction false} FixedFollows(pages: seq<nat>, rules: seq<Rule>)
    requires Distinct(pages)
    requires Settled(pages, rules)
    ensures Follows(pages, rules)
  {
    forall i, j | 0 <= i < j < |pages| ensures (pages[j], pages[i]) !in rules {
      FindRuleDistinct(pages, i, j);
    }
  }

  /** A repaired update of distinct pages is correctly ordered. */
  lemma {:induction false} RepairOrdered(pages: seq<nat>, rules: seq<Rule>, fuel: nat)
    requires Distinct(pages) && Repair(pages, rules, fuel).Some?
    ensures IsCorrectlyOrdered(Repair(pages, rules, fuel).value, RuleMap(rules))
  {
    var r := Repair(pages, rules, fuel).value;
    RepairSpec(pages, rules, fuel);
    DistinctPermutation(pages, r);
    FixedFollows(r, rules);
    OrderedSpec(r, rules);
  }

  /** Two positions holding the same page put it in the multiset twice. */
  lemma {:induction false} CountTwice(r: seq<nat>, i: nat, j: nat)
    requires i < j < |r|
    ensures multiset(r)[r[i]] >= if r[i] == r[j] then 2 else 1
  {
    assert r == r[..i] + [r[i]] + r[i + 1..j] + [r[j]] + r[j + 1..];
  }

  /** A permutation of distinct pages has distinct pages. */
  lemma {:induction false} DistinctPermutation(pages: seq<nat>, r: seq<nat>)
    requires Distinct(pages) && multiset(r) == multiset(pages)
    ensures Distinct(r)
  {
    forall i, j | 0 <= i < j < |r| ensures r[i] != r[j] {
      CountTwice(r, i, j);
      DistinctOnce(pages, r[i]);
    }
  }

  lemma {:induction false} DistinctOnce(pages: seq<nat>, x: nat)
    requires Distinct(pages)
    ensures multiset(pages)[x] <= 1
    decreases |pages|
  {
    if |pages| > 0 {
      var n := |pages| - 1;
      DistinctOnce(pages[..n], x);
      assert pages == pages[..n] + [pages[n]];
      if pages[n] == x {
        assert x !in pages[..n];
      }
    }
  }

  // ---------------------------------------------------------------------------
  // The two parts
  // ---------------------------------------------------------------------------

  function Middle(pages: seq<nat>): nat
    requires |pages| >= 1
  {
    pages[|pages| / 2]
  }

  /** `process_part1` on parsed rules and updates (the parser makes every
      update non-empty). */
  function Part1(rules: seq<Rule>, updates: seq<seq<nat>>): nat
    requires forall u :: 0 <= u < |updates| ==> |updates[u]| >= 1
  {
    if |updates| == 0 then 0
    else
      var n := |updates| - 1;
      Part1(rules, updates[..n]) +
        if IsCorrectlyOrdered(updates[n], RuleMap(rules)) then Middle(updates[n]) else 0
  }

  /** `process_part2`, each repair given at most `fuel` passes. */
  function Part2(rules: seq<Rule>, updates: seq<seq<nat>>, fuel: nat): Option<nat>
    requires forall u :: 0 <= u < |updates| ==> |updates[u]| >= 1
  {
    if |updates| == 0 then Some(0)
    else
      var n := |updates| - 1;
      var u := updates[n];
      match Part2(rules, updates[..n], fuel)
      case None => None
      case Some(total) =>
        if IsCorrectlyOrdered(u, RuleMap(rules)) then Some(total)
        else
          match Repair(u, rules, fuel)
          case None => None
          case Some(r) =>
            Some(total + Middle(r))
  }

  /** Part 1 stated through the rules themselves rather than the map. */
  ghost function FollowSum(rules: seq<Rule>, updates: seq<seq<nat>>): nat
    requires forall u :: 0 <= u < |updates| ==> |updates[u]| >= 1
  {
    if |updates| == 0 then 0
    else
      var n := |updates| - 1;
      FollowSum(rules, updates[..n]) + if Follows(updates[n], rules) then Middle(updates[n]) else 0
  }

  /** Part 1 adds up the middle pages of exactly the updates that break no
      rule. */
  lemma {:induction false} Part1Follows(rules: seq<Rule>, updates: seq<seq<nat>>)
    requires forall u :: 0 <= u < |updates| ==> |updates[u]| >= 1
    ensures Part1(rules, updates) == FollowSum(rules, updates)
    decreases |updates|
  {
    if |updates| > 0 {
      var n := |updates| - 1;
      Part1Follows(rules, updates[..n]);
      OrderedSpec(updates[n], rules);
    }
  }

  /** Part 2 stated through the rules: the repaired middle pages of exactly
      the updates that break some rule. */
  ghost function RepairSum(rules: seq<Rule>, updates: seq<seq<nat>>, fuel: nat): Option<nat>
    requires forall u :: 0 <= u < |updates| ==> |updates[u]| >= 1
  {
    if |updates| == 0 then Some(0)
    else
      var n := |updates| - 1;
      var u := updates[n];
      var rest := RepairSum(rules, updates[..n], fuel);
      if rest.None? then None
      else if Follows(u, rules) then rest
      else if Repair(u, rules, fuel).None? then None
      else
        Some(rest.value + Middle(Repair(u, rules, fuel).value))
  }

  lemma {:induction false} Part2Follows(rules: seq<Rule>, updates: seq<seq<nat>>, fuel: nat)
    requires forall u :: 0 <= u < |updates| ==> |updates[u]| >= 1
    ensures Part2(rules, updates, fuel) == RepairSum(rules, updates, fuel)
    decreases |updates|
  {
    if |updates| > 0 {
      var n := |updates| - 1;
      Part2Follows(rules, updates[..n], fuel);
      OrderedSpec(updates[n], rules);
    }
  }
}
