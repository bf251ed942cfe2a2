/** Day 5: print-queue updates checked against page-ordering rules. Part 1 adds up the
    middle pages of the updates that already follow every rule; part 2 reorders the others by
    repeated swaps and adds up their middle pages. Pages are compared as exact strings. */
module Day05 {
  import opened GoLib

  /** `before|after`: when both pages are in an update, `before` must come first. */
  datatype PageRule = PageRule(before: string, after: string)

  /** The rule's meaning: one of its pages is missing, or some occurrence of `before` comes
      ahead of every occurrence of `after`. */
  predicate Followed(rule: PageRule, pages: seq<string>) {
    rule.before !in pages || rule.after !in pages ||
    exists p :: 0 <= p < |pages| && pages[p] == rule.before && rule.after !in pages[..p + 1]
  }

  /** Whether the rule is followed, with the first positions of its two pages (-1 when
      missing). */
  function IsRuleFollowed(rule: PageRule, pages: seq<string>): (r: (bool, int, int))
    ensures r.0 <==> Followed(rule, pages)
    ensures r.1 == Index(pages, rule.before) && r.2 == Index(pages, rule.after)
    ensures !r.0 ==> 0 <= r.1 < |pages| && 0 <= r.2 < |pages| && r.2 <= r.1
  {
    var beforeIndex := Index(pages, rule.before);
    var afterIndex := Index(pages, rule.after);
    FollowedByIndex(rule, pages);
    (beforeIndex == -1 || afterIndex == -1 || beforeIndex < afterIndex, beforeIndex, afterIndex)
  }

  /** The first positions decide the rule. */
  lemma FollowedByIndex(rule: PageRule, pages: seq<string>)
    ensures var b, a := Index(pages, rule.before), Index(pages, rule.after);
      Followed(rule, pages) <==> b == -1 || a == -1 || b < a
  {
    var b, a := Index(pages, rule.before), Index(pages, rule.after);
    if b >= 0 && a >= 0 {
      if b < a {
        assert rule.after !in pages[..b + 1] by {
          assert pages[..b + 1] == pages[..a][..b + 1];
        }
      }
      if p :| 0 <= p < |pages| && pages[p] == rule.before && rule.after !in pages[..p + 1] {
        assert forall q :: 0 <= q < b ==> pages[..b][q] == pages[q];
        assert forall q :: 0 <= q <= p ==> pages[..p + 1][q] == pages[q];
      }
    }
  }

  /** A rule line `before|after`; without a `|` the whole line is `before`. */
  function GetPageRule(ruleText: string): (rule: PageRule)
    ensures '|' !in ruleText ==> rule == PageRule(ruleText, "")
  {
    var (before, after, found) := Cut(ruleText, "|");
    assert !found ==> '|' !in ruleText by {
      if !found && '|' in ruleText {
        var j :| 0 <= j < |ruleText| && ruleText[j] == '|';
        assert OccursAt(ruleText, "|", j);
      }
    }
    PageRule(before, after)
  }

  /** Rule lines read back: `a|b` gives the rule with `a` before `b` when `a` holds no `|`. */
  lemma GetPageRuleRoundTrip(a: string, b: string)
    requires '|' !in a
    ensures GetPageRule(a + "|" + b) == PageRule(a, b)
  {
    var s := a + "|" + b;
    var (before, after, found) := Cut(s, "|");
    assert s[|a|..|a| + 1] == "|";
    assert OccursAt(s, "|", |a|);
    assert |before| <= |a|;
    assert forall q :: 0 <= q < |a| ==> s[q] == a[q] && s[q] != '|';
    assert s[|before|] == '|';
    assert before == s[..|a|] == a;
    assert after == s[|a| + 1..] == b;
  }

  /** Every rule is followed; rules are tried in order and the first broken one stops the
      check. */
  function IsUpdateInRightOrder(rules: seq<PageRule>, pages: seq<string>): (ok: bool)
    ensures ok <==> forall k :: 0 <= k < |rules| ==> Followed(rules[k], pages)
  {
    if rules == [] then true
    else
      var (isFollowed, _, _) := IsRuleFollowed(rules[0], pages);
      if !isFollowed then false
      else
        var rest := IsUpdateInRightOrder(rules[1..], pages);
        assert forall k :: 1 <= k < |rules| ==> rules[k] == rules[1..][k - 1];
        rest
  }

  /** With no rules every update is in order. */
  lemma NoRulesInOrder(pages: seq<string>)
    ensures IsUpdateInRightOrder([], pages)
  {
  }

  /** Pages match only as whole strings: `21` is not page `2`, so `21,1,2` breaks `2|1`. */
  lemma ExactPageMatch()
    ensures !IsUpdateInRightOrder([PageRule("2", "1")], ["21", "1", "2"])
  {
    var pages: seq<string> := ["21", "1", "2"];
    assert pages[0] != "2" && pages[1] != "2";
    assert Index(pages, "2") == 2;
    assert Index(pages, "1") == 1;
  }

  /** After the swap that repairs a broken rule about two different pages, that rule is
      followed. */
  lemma SwapRepairsRule(rule: PageRule, pages: seq<string>)
    requires rule.before != rule.after && !Followed(rule, pages)
    ensures var (_, i, j) := IsRuleFollowed(rule, pages);
      Followed(rule, pages[i := pages[j]][j := pages[i]])
  {
    var (_, i, j) := IsRuleFollowed(rule, pages);
    var swapped := pages[i := pages[j]][j := pages[i]];
    assert j < i;
    assert swapped[..j] == pages[..j];
    assert swapped[..j + 1] == pages[..j] + [rule.before];
    assert swapped[j] == rule.before;
  }

  /** The step of a pass for one rule: when the rule is broken (`IsRuleFollowed` decides it
      by these first positions) its two pages trade places, otherwise nothing changes. */
  function Apply(pages: seq<string>, rule: PageRule): (r: seq<string>)
    ensures |r| == |pages|
  {
    var b, a := Index(pages, rule.before), Index(pages, rule.after);
    if b == -1 || a == -1 || b < a then pages else pages[b := pages[a]][a := pages[b]]
  }

  /** The first `k` rules applied in order, each to the pages the earlier ones left. */
  function PassTo(pages: seq<string>, rules: seq<PageRule>, k: nat): (r: seq<string>)
    requires k <= |rules|
    ensures |r| == |pages|
  {
    if k == 0 then pages else Apply(PassTo(pages, rules, k - 1), rules[k - 1])
  }

  /** One pass over all the rules. */
  function Pass(pages: seq<string>, rules: seq<PageRule>): (r: seq<string>)
    ensures |r| == |pages|
  {
    PassTo(pages, rules, |rules|)
  }

  // The reordering loop on its own: a step repeated until a test holds, at most `fuel`
  // times.

  /** `n` steps one after the other. */
  function Repeat(step: seq<string> -> seq<string>, pages: seq<string>, n: nat): seq<string> {
    if n == 0 then pages else step(Repeat(step, pages, n - 1))
  }

  /** `for !done(pages) { pages = step(pages) }`, cut off after `fuel` rounds. */
  function Iterate(step: seq<string> -> seq<string>, done: seq<string> -> bool, pages: seq<string>,
                   fuel: nat): seq<string>
    decreases fuel
  {
    if fuel == 0 || done(pages) then pages else Iterate(step, done, step(pages), fuel - 1)
  }

  /** How many rounds that loop makes. */
  function Rounds(step: seq<string> -> seq<string>, done: seq<string> -> bool, pages: seq<string>,
                  fuel: nat): (n: nat)
    ensures n <= fuel
    decreases fuel
  {
    if fuel == 0 || done(pages) then 0 else 1 + Rounds(step, done, step(pages), fuel - 1)
  }

  /** `Repeat` read from the other end: the first step, then `n` more. */
  lemma {:induction false} RepeatFirst(step: seq<string> -> seq<string>, pages: seq<string>, n: nat)
    ensures Repeat(step, pages, n + 1) == Repeat(step, step(pages), n)
  {
    if n > 0 {
      RepeatFirst(step, pages, n - 1);
    }
  }

  /** The loop stops at the first round count at which the test holds, or at `fuel` when
      there is none. */
  lemma {:induction false} IterateMeaning(step: seq<string> -> seq<string>, done: seq<string> -> bool,
                                          pages: seq<string>, fuel: nat)
    ensures var k := Rounds(step, done, pages, fuel);
      Iterate(step, done, pages, fuel) == Repeat(step, pages, k) &&
      (done(Repeat(step, pages, k)) || k == fuel) &&
      forall j :: 0 <= j < k ==> !done(Repeat(step, pages, j))
    decreases fuel
  {
    if fuel > 0 && !done(pages) {
      var next := step(pages);
      IterateMeaning(step, done, next, fuel - 1);
      var k := Rounds(step, done, next, fuel - 1);
      RepeatFirst(step, pages, k);
      forall j | 0 <= j < k + 1 ensures !done(Repeat(step, pages, j)) {
        if j > 0 {
          RepeatFirst(step, pages, j - 1);
        }
      }
    }
  }

  /** Once the test holds more fuel changes nothing. */
  lemma {:induction false} IterateMoreFuel(step: seq<string> -> seq<string>, done: seq<string> -> bool,
                                           pages: seq<string>, fuel: nat, more: nat)
    requires done(Iterate(step, done, pages, fuel))
    ensures Iterate(step, done, pages, fuel + more) == Iterate(step, done, pages, fuel)
    decreases fuel
  {
    if fuel > 0 && !done(pages) {
      IterateMoreFuel(step, done, step(pages), fuel - 1, more);
    }
  }

  /** A pass, as a step. */
  function PassStep(rules: seq<PageRule>): seq<string> -> seq<string> {
    pages => Pass(pages, rules)
  }

  /** The order test, as a predicate on updates. */
  function InOrder(rules: seq<PageRule>): seq<string> -> bool {
    pages => IsUpdateInRightOrder(rules, pages)
  }

  /** `n` passes one after the other. */
  function Passes(pages: seq<string>, rules: seq<PageRule>, n: nat): seq<string> {
    Repeat(PassStep(rules), pages, n)
  }

  /** The outer loop of `ReorderUpdates` with at most `fuel` passes: passes are made while
      the update is out of order. */
  function Reorder(pages: seq<string>, rules: seq<PageRule>, fuel: nat): seq<string> {
    Iterate(PassStep(rules), InOrder(rules), pages, fuel)
  }

  /** How many passes `Reorder` makes. */
  function PassCount(pages: seq<string>, rules: seq<PageRule>, fuel: nat): nat {
    Rounds(PassStep(rules), InOrder(rules), pages, fuel)
  }

  /** One round of the reordering: an update in order (or no fuel left) is returned as it
      is, any other gets a pass and one unit less of fuel. */
  lemma ReorderStep(pages: seq<string>, rules: seq<PageRule>, fuel: nat)
    ensures fuel == 0 || IsUpdateInRightOrder(rules, pages) ==> Reorder(pages, rules, fuel) == pages
    ensures fuel > 0 && !IsUpdateInRightOrder(rules, pages) ==>
      Reorder(pages, rules, fuel) == Reorder(Pass(pages, rules), rules, fuel - 1)
  {
    assert InOrder(rules)(pages) == IsUpdateInRightOrder(rules, pages);
    assert PassStep(rules)(pages) == Pass(pages, rules);
  }

  /** The reordering stops at the first pass count `k` at which the update is in order, or
      at `fuel` when there is none: the result is `k` passes, no fewer passes put the update
      in order, and the update is in order after them unless `k` is the fuel. */
  lemma ReorderMeaning(pages: seq<string>, rules: seq<PageRule>, fuel: nat)
    ensures var k := PassCount(pages, rules, fuel);
      k <= fuel && Reorder(pages, rules, fuel) == Passes(pages, rules, k) &&
      (IsUpdateInRightOrder(rules, Passes(pages, rules, k)) || k == fuel) &&
      forall j :: 0 <= j < k ==> !IsUpdateInRightOrder(rules, Passes(pages, rules, j))
  {
    IterateMeaning(PassStep(rules), InOrder(rules), pages, fuel);
    var k := PassCount(pages, rules, fuel);
    assert InOrder(rules)(Passes(pages, rules, k)) == IsUpdateInRightOrder(rules, Passes(pages, rules, k));
    forall j | 0 <= j < k ensures !IsUpdateInRightOrder(rules, Passes(pages, rules, j)) {
      assert InOrder(rules)(Passes(pages, rules, j)) == IsUpdateInRightOrder(rules, Passes(pages, rules, j));
    }
  }

  /** A step that keeps the number of pages keeps it through the whole loop. */
  lemma {:induction false} IterateKeepsLength(step: seq<string> -> seq<string>, done: seq<string> -> bool,
                                              pages: seq<string>, fuel: nat)
    requires forall p :: |step(p)| == |p|
    ensures |Iterate(step, done, pages, fuel)| == |pages|
    decreases fuel
  {
    if fuel > 0 && !done(pages) {
      IterateKeepsLength(step, done, step(pages), fuel - 1);
    }
  }

  /** The reordering keeps the number of pages. */
  lemma ReorderKeepsLength(pages: seq<string>, rules: seq<PageRule>, fuel: nat)
    ensures |Reorder(pages, rules, fuel)| == |pages|
  {
    forall p ensures |PassStep(rules)(p)| == |p| {
      assert PassStep(rules)(p) == Pass(p, rules);
    }
    IterateKeepsLength(PassStep(rules), InOrder(rules), pages, fuel);
  }

  /** Once the update is in order more fuel changes nothing: the bound only cuts short
      rules that can never all be followed. */
  lemma ReorderMoreFuel(pages: seq<string>, rules: seq<PageRule>, fuel: nat, more: nat)
    requires IsUpdateInRightOrder(rules, Reorder(pages, rules, fuel))
    ensures Reorder(pages, rules, fuel + more) == Reorder(pages, rules, fuel)
  {
    assert InOrder(rules)(Reorder(pages, rules, fuel));
    IterateMoreFuel(PassStep(rules), InOrder(rules), pages, fuel, more);
  }

  /** Rule 1 before 2 on the update 2,3,1: one pass swaps the 2 and the 1. */
  lemma SwitchExample()
    ensures Reorder(["2", "3", "1"], [PageRule("1", "2")], 1) == ["1", "3", "2"]
    ensures IsUpdateInRightOrder([PageRule("1", "2")], ["1", "3", "2"])
  {
    var rules := [PageRule("1", "2")];
    var pages: seq<string> := ["2", "3", "1"];
    assert pages[0] == "2" && pages[1] != "2" && pages[1] != "1" && pages[2] == "1";
    assert Index(pages, "1") == 2 && Index(pages, "2") == 0;
    assert rules[..0] == [];
    assert Pass(pages, rules) == ["1", "3", "2"];
    var done: seq<string> := ["1", "3", "2"];
    assert done[0] == "1" && done[2] == "2" && done[1] != "1" && done[1] != "2";
    assert Index(done, "1") == 0 && Index(done, "2") == 2;
  }

  /** One pass over the rules: each rule that is broken at its turn has its two pages
      swapped. */
  method SwapPass(pages: array<string>, rules: seq<PageRule>)
    modifies pages
    ensures pages[..] == Pass(old(pages[..]), rules)
    ensures multiset(pages[..]) == multiset(old(pages[..]))
  {
    for k := 0 to |rules|
      invariant pages[..] == PassTo(old(pages[..]), rules, k)
      invariant multiset(pages[..]) == multiset(old(pages[..]))
    {
      var (isFollowed, i, j) := IsRuleFollowed(rules[k], pages[..]);
      if !isFollowed {
        ghost var before := pages[..];
        pages[i], pages[j] := pages[j], pages[i];
        assert pages[..] == before[i := before[j]][j := before[i]];
        SwapKeepsMultiset(before, i, j);
      }
    }
  }

  /** Exchanging two entries keeps the pages, counted with multiplicity. */
  lemma SwapKeepsMultiset(s: seq<string>, i: int, j: int)
    requires 0 <= i < |s| && 0 <= j < |s|
    ensures multiset(s[i := s[j]][j := s[i]]) == multiset(s)
  {
  }

  /** Passes over the rules until the update is in order, at most `fuel` of them; the
      result says whether the update ended in order. */
  method ReorderUpdates(pages: array<string>, rules: seq<PageRule>, fuel: nat) returns (ordered: bool)
    modifies pages
    ensures pages[..] == Reorder(old(pages[..]), rules, fuel)
    ensures ordered == IsUpdateInRightOrder(rules, pages[..])
    ensures multiset(pages[..]) == multiset(old(pages[..]))
  {
    var passes := 0;
    ghost var start := pages[..];
    assert fuel - passes == fuel;
    while passes < fuel && !IsUpdateInRightOrder(rules, pages[..])
      invariant passes <= fuel
      invariant Reorder(start, rules, fuel) == Reorder(pages[..], rules, fuel - passes)
      invariant multiset(pages[..]) == multiset(old(pages[..]))
      decreases fuel - passes
    {
      ghost var before := pages[..];
      SwapPass(pages, rules);
      ReorderStep(before, rules, fuel - passes);
      passes := passes + 1;
    }
    ordered := IsUpdateInRightOrder(rules, pages[..]);
  }

  /** The value of the middle page (0 when it is not a number). */
  function MiddleValue(pages: seq<string>): (v: int)
    requires |pages| >= 1
    ensures MinSigned(32) <= v <= MaxSigned(32)
  {
    var p := ParseInt(pages[|pages| / 2], 32);
    assert !p.ok ==> p.value == 0 || p.value == MaxSigned(32) || p.value == MinSigned(32);
    p.value
  }

  /** A middle page written in decimal, within 32 bits, is read back as its number. */
  lemma MiddleValueItoa(pages: seq<string>, n: int)
    requires |pages| >= 1 && pages[|pages| / 2] == Itoa(n)
    requires MinSigned(32) <= n <= MaxSigned(32)
    ensures MiddleValue(pages) == n
  {
    ParseIntItoa(n, 32);
  }

  /** Part 1's total: the middle pages of the updates already in order. */
  function SumOfCorrect(rules: seq<PageRule>, updates: seq<seq<string>>): int
    requires forall k :: 0 <= k < |updates| ==> |updates[k]| >= 1
  {
    if updates == [] then 0
    else
      var last := updates[|updates| - 1];
      SumOfCorrect(rules, updates[..|updates| - 1]) + (if IsUpdateInRightOrder(rules, last) then MiddleValue(last) else 0)
  }

  /** Part 2's total: the middle pages of `reordered[k]` for every update `k` that was not
      in order. */
  function SumOfReordered(rules: seq<PageRule>, updates: seq<seq<string>>, reordered: seq<seq<string>>): int
    requires |reordered| == |updates|
    requires forall k :: 0 <= k < |reordered| ==> |reordered[k]| >= 1
  {
    if updates == [] then 0
    else
      var n := |updates| - 1;
      SumOfReordered(rules, updates[..n], reordered[..n]) +
        (if IsUpdateInRightOrder(rules, updates[n]) then 0 else MiddleValue(reordered[n]))
  }

  /** `reordered[k]` is update `k` with its pages rearranged into an order that follows every
      rule; an update already in order stays as it is. */
  predicate Reorderings(rules: seq<PageRule>, updates: seq<seq<string>>, reordered: seq<seq<string>>) {
    |reordered| == |updates| &&
    forall k :: 0 <= k < |updates| ==>
      multiset(reordered[k]) == multiset(updates[k]) && IsUpdateInRightOrder(rules, reordered[k]) &&
      (IsUpdateInRightOrder(rules, updates[k]) ==> reordered[k] == updates[k])
  }

  /** The rules and the updates of the puzzle input: the two sections around the first
      blank line, one rule or one comma-separated update per line. */
  function ParseInput(input: string): (r: (seq<PageRule>, seq<seq<string>>))
    ensures forall k :: 0 <= k < |r.1| ==> |r.1[k]| >= 1
  {
    var (ruleSection, updateSection, _) := Cut(input, "\n\n");
    var ruleLines, updateLines := Split(ruleSection, '\n'), Split(updateSection, '\n');
    (seq(|ruleLines|, i requires 0 <= i < |ruleLines| => GetPageRule(ruleLines[i])),
     seq(|updateLines|, i requires 0 <= i < |updateLines| => Split(updateLines[i], ',')))
  }

  /** Every update after the reordering with at most `fuel` passes. */
  function ReorderAll(rules: seq<PageRule>, updates: seq<seq<string>>, fuel: nat): (r: seq<seq<string>>)
    ensures |r| == |updates|
    ensures forall k :: 0 <= k < |updates| ==> |r[k]| == |updates[k]|
  {
    assert forall k :: 0 <= k < |updates| ==> |Reorder(updates[k], rules, fuel)| == |updates[k]| by {
      forall k | 0 <= k < |updates| {
        ReorderKeepsLength(updates[k], rules, fuel);
      }
    }
    seq(|updates|, k requires 0 <= k < |updates| => Reorder(updates[k], rules, fuel))
  }

  /** Some update is still out of order after the reordering. */
  predicate Stuck(rules: seq<PageRule>, updates: seq<seq<string>>, fuel: nat) {
    exists k :: 0 <= k < |updates| && !IsUpdateInRightOrder(rules, Reorder(updates[k], rules, fuel))
  }

  /** Both parts. Each out-of-order update is reordered with at most `fuel` passes; when one
      does not come into order within them the result is `None` (the loop of the solver
      would keep going). */
  method FindSumOfMedians(input: string, fuel: nat) returns (result: Option<(int, int)>)
    ensures var (rules, updates) := ParseInput(input);
      (result.None? <==> Stuck(rules, updates, fuel)) &&
      (result.Some? ==>
         result.value.0 == SumOfCorrect(rules, updates) &&
         Reorderings(rules, updates, ReorderAll(rules, updates, fuel)) &&
         result.value.1 == SumOfReordered(rules, updates, ReorderAll(rules, updates, fuel)))
  {
    var (rules, updates) := ParseInput(input);
    result := SumMedians(rules, updates, fuel);
  }

  method SumMedians(rules: seq<PageRule>, updates: seq<seq<string>>, fuel: nat)
    returns (result: Option<(int, int)>)
    requires forall k :: 0 <= k < |updates| ==> |updates[k]| >= 1
    ensures result.None? <==> Stuck(rules, updates, fuel)
    ensures result.Some? ==>
              result.value.0 == SumOfCorrect(rules, updates) &&
              Reorderings(rules, updates, ReorderAll(rules, updates, fuel)) &&
              result.value.1 == SumOfReordered(rules, updates, ReorderAll(rules, updates, fuel))
  {
    var totalOfCorrect, totalOfReordered := 0, 0;
    ghost var all := ReorderAll(rules, updates, fuel);
    for n := 0 to |updates|
      invariant Reorderings(rules, updates[..n], all[..n])
      invariant totalOfCorrect == SumOfCorrect(rules, updates[..n])
      invariant totalOfReordered == SumOfReordered(rules, updates[..n], all[..n])
    {
      var isCorrect, pages := ReorderedUpdate(rules, updates[n], fuel);
      if pages.None? {
        return None;
      }
      var value := MiddleValue(pages.value);
      if isCorrect {
        totalOfCorrect := totalOfCorrect + value;
      } else {
        totalOfReordered := totalOfReordered + value;
      }
      MediansStep(rules, updates, fuel, n, pages.value);
    }
    assert updates[..|updates|] == updates && all[..|updates|] == all;
    AllReordered(rules, updates, fuel);
    return Some((totalOfCorrect, totalOfReordered));
  }

  /** One more update handled: the reorderings, and both totals, grow by that update. */
  lemma MediansStep(rules: seq<PageRule>, updates: seq<seq<string>>, fuel: nat, n: nat, pages: seq<string>)
    requires forall k :: 0 <= k < |updates| ==> |updates[k]| >= 1
    requires n < |updates| && pages == Reorder(updates[n], rules, fuel)
    requires multiset(pages) == multiset(updates[n]) && IsUpdateInRightOrder(rules, pages)
    requires IsUpdateInRightOrder(rules, updates[n]) ==> pages == updates[n]
    requires Reorderings(rules, updates[..n], ReorderAll(rules, updates, fuel)[..n])
    ensures Reorderings(rules, updates[..n + 1], ReorderAll(rules, updates, fuel)[..n + 1])
    ensures SumOfCorrect(rules, updates[..n + 1]) ==
      SumOfCorrect(rules, updates[..n]) + (if IsUpdateInRightOrder(rules, updates[n]) then MiddleValue(updates[n]) else 0)
    ensures SumOfReordered(rules, updates[..n + 1], ReorderAll(rules, updates, fuel)[..n + 1]) ==
      SumOfReordered(rules, updates[..n], ReorderAll(rules, updates, fuel)[..n]) +
      (if IsUpdateInRightOrder(rules, updates[n]) then 0 else MiddleValue(pages))
  {
    var all := ReorderAll(rules, updates, fuel);
    assert all[..n + 1] == all[..n] + [pages];
    ReorderingsStep(rules, updates, all[..n], n, pages);
    SumOfCorrectStep(rules, updates, n);
    SumOfReorderedStep(rules, updates, all[..n], n, pages);
  }

  /** Once every update has been reordered into order, no update is stuck. */
  lemma AllReordered(rules: seq<PageRule>, updates: seq<seq<string>>, fuel: nat)
    requires Reorderings(rules, updates, ReorderAll(rules, updates, fuel))
    ensures !Stuck(rules, updates, fuel)
  {
    var all := ReorderAll(rules, updates, fuel);
    forall k | 0 <= k < |updates| ensures IsUpdateInRightOrder(rules, Reorder(updates[k], rules, fuel)) {
      assert all[k] == Reorder(updates[k], rules, fuel);
    }
  }

  /** One update of the loop in `FindSumOfMedians`: whether it was in order, and its pages
      after reordering them in place when it was not (`None` when they do not come into
      order within `fuel` passes). */
  method ReorderedUpdate(rules: seq<PageRule>, update: seq<string>, fuel: nat)
    returns (isCorrect: bool, result: Option<seq<string>>)
    ensures isCorrect == IsUpdateInRightOrder(rules, update)
    ensures result.None? <==> !IsUpdateInRightOrder(rules, Reorder(update, rules, fuel))
    ensures result.Some? ==>
              result.value == Reorder(update, rules, fuel) &&
              multiset(result.value) == multiset(update) && |result.value| == |update| &&
              IsUpdateInRightOrder(rules, result.value) && (isCorrect ==> result.value == update)
  {
    var pages := new string[|update|](k requires 0 <= k < |update| => update[k]);
    assert pages[..] == update;
    isCorrect := IsUpdateInRightOrder(rules, pages[..]);
    if !isCorrect {
      var ordered := ReorderUpdates(pages, rules, fuel);
      if !ordered {
        return isCorrect, None;
      }
    }
    result := Some(pages[..]);
  }

  lemma ReorderingsStep(rules: seq<PageRule>, updates: seq<seq<string>>, reordered: seq<seq<string>>, n: nat, pages: seq<string>)
    requires n < |updates| && Reorderings(rules, updates[..n], reordered)
    requires multiset(pages) == multiset(updates[n]) && IsUpdateInRightOrder(rules, pages)
    requires IsUpdateInRightOrder(rules, updates[n]) ==> pages == updates[n]
    ensures Reorderings(rules, updates[..n + 1], reordered + [pages])
  {
    assert updates[..n + 1] == updates[..n] + [updates[n]];
  }

  lemma SumOfCorrectStep(rules: seq<PageRule>, updates: seq<seq<string>>, n: nat)
    requires n < |updates| && forall k :: 0 <= k < |updates| ==> |updates[k]| >= 1
    ensures SumOfCorrect(rules, updates[..n + 1]) ==
      SumOfCorrect(rules, updates[..n]) + (if IsUpdateInRightOrder(rules, updates[n]) then MiddleValue(updates[n]) else 0)
  {
    assert updates[..n + 1][..n] == updates[..n];
  }

  lemma SumOfReorderedStep(rules: seq<PageRule>, updates: seq<seq<string>>, reordered: seq<seq<string>>, n: nat, pages: seq<string>)
    requires n < |updates| && |reordered| == n && |pages| >= 1
    requires forall k :: 0 <= k < n ==> |reordered[k]| >= 1
    ensures SumOfReordered(rules, updates[..n + 1], reordered + [pages]) ==
      SumOfReordered(rules, updates[..n], reordered) + (if IsUpdateInRightOrder(rules, updates[n]) then 0 else MiddleValue(pages))
  {
    assert updates[..n + 1][..n] == updates[..n];
    assert (reordered + [pages])[..n] == reordered;
  }
}
