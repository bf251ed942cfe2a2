/** Day 19, "Linen Layout": a pattern of stripe colours is laid out from towels, each a
    non-empty string of colours that may be used any number of times; the number of ways
    to lay out a pattern is counted with a memo table shared by all patterns. */
module Day19 {
  import opened GoLib

  /** Every towel has at least one stripe; an empty towel would make the count recurse on
      the same pattern forever. */
  predicate NonEmptyTowels(towels: seq<string>) {
    forall i :: 0 <= i < |towels| ==> |towels[i]| > 0
  }

  /** The number of ways to lay out `pattern` as a sequence of towels, counting different
      towel orders separately; the empty pattern has exactly one layout. */
  function Arrangements(pattern: string, towels: seq<string>): nat
    requires NonEmptyTowels(towels)
    decreases |pattern|, 1, 0
  {
    if pattern == [] then 1 else SumOver(pattern, towels, |towels|)
  }

  /** The sum, over the first `n` towels that start `pattern`, of the number of layouts of
      what is left after that towel. */
  function SumOver(pattern: string, towels: seq<string>, n: nat): nat
    requires NonEmptyTowels(towels) && n <= |towels|
    decreases |pattern|, 0, n
  {
    if n == 0 then 0
    else SumOver(pattern, towels, n - 1) + Term(pattern, towels, n - 1)
  }

  /** What towel `i` contributes to the count of `pattern`. */
  function Term(pattern: string, towels: seq<string>, i: nat): nat
    requires NonEmptyTowels(towels) && i < |towels|
    decreases |pattern|, 0, 0
  {
    if HasPrefix(pattern, towels[i]) then Arrangements(pattern[|towels[i]|..], towels) else 0
  }

  /** The towels `ds` name, laid side by side. */
  function Concat(ds: seq<nat>, towels: seq<string>): string
    requires forall i :: 0 <= i < |ds| ==> ds[i] < |towels|
  {
    if ds == [] then [] else towels[ds[0]] + Concat(ds[1..], towels)
  }

  /** `ds` lists towels that, laid side by side, make up `pattern`. */
  ghost predicate IsLayout(ds: seq<nat>, towels: seq<string>, pattern: string) {
    (forall i :: 0 <= i < |ds| ==> ds[i] < |towels|) && Concat(ds, towels) == pattern
  }

  /** A positive sum has a towel that starts the pattern and leaves a layable rest. */
  lemma {:induction false} SumOverPositive(pattern: string, towels: seq<string>, n: nat)
    requires NonEmptyTowels(towels) && n <= |towels|
    requires SumOver(pattern, towels, n) > 0
    ensures exists i :: 0 <= i < n && Term(pattern, towels, i) > 0
  {
    if Term(pattern, towels, n - 1) == 0 {
      SumOverPositive(pattern, towels, n - 1);
    }
  }

  /** Every towel's contribution is part of the sum. */
  lemma {:induction false} SumOverAtLeast(pattern: string, towels: seq<string>, n: nat, i: nat)
    requires NonEmptyTowels(towels) && i < n <= |towels|
    ensures SumOver(pattern, towels, n) >= Term(pattern, towels, i)
  {
    if i < n - 1 {
      SumOverAtLeast(pattern, towels, n - 1, i);
    }
  }

  /** A pattern has a layout exactly when some sequence of towels makes it up. */
  lemma {:induction false} ArrangementsPositiveIff(pattern: string, towels: seq<string>)
    requires NonEmptyTowels(towels)
    ensures Arrangements(pattern, towels) > 0 <==> exists ds :: IsLayout(ds, towels, pattern)
    decreases |pattern|
  {
    if pattern == [] {
      assert IsLayout([], towels, pattern);
    } else {
      if Arrangements(pattern, towels) > 0 {
        SumOverPositive(pattern, towels, |towels|);
        var i :| 0 <= i < |towels| && Term(pattern, towels, i) > 0;
        var rest := pattern[|towels[i]|..];
        ArrangementsPositiveIff(rest, towels);
        var ds :| IsLayout(ds, towels, rest);
        assert ([i] + ds)[1..] == ds;
        assert pattern == towels[i] + rest;
        assert IsLayout([i] + ds, towels, pattern);
      }
      if exists ds :: IsLayout(ds, towels, pattern) {
        var ds :| IsLayout(ds, towels, pattern);
        var i := ds[0];
        var rest := Concat(ds[1..], towels);
        assert IsLayout(ds[1..], towels, rest);
        assert pattern == towels[i] + rest;
        assert HasPrefix(pattern, towels[i]) && pattern[|towels[i]|..] == rest;
        ArrangementsPositiveIff(rest, towels);
        SumOverAtLeast(pattern, towels, |towels|, i);
      }
    }
  }

  /** The empty pattern has one layout; with no towels nothing else has any; a towel
      equal to the whole pattern gives at least one. */
  lemma ArrangementsBasics(pattern: string, towels: seq<string>)
    requires NonEmptyTowels(towels)
    ensures pattern == [] ==> Arrangements(pattern, towels) == 1
    ensures towels == [] && pattern != [] ==> Arrangements(pattern, towels) == 0
    ensures pattern in towels ==> Arrangements(pattern, towels) >= 1
  {
    if pattern in towels && pattern != [] {
      var i :| 0 <= i < |towels| && towels[i] == pattern;
      assert pattern[|towels[i]|..] == [];
      SumOverAtLeast(pattern, towels, |towels|, i);
    }
  }

  // ----- The memo table ------------------------------------------------------------

  /** Every stored count is the true number of layouts of its pattern. */
  ghost predicate MemoSound(counts: map<string, int>, towels: seq<string>)
    requires NonEmptyTowels(towels)
  {
    forall p :: p in counts ==> counts[p] == Arrangements(p, towels)
  }

  /** The memo table shared by every count, from pattern to number of layouts. */
  class CountMap {
    var counts: map<string, int>

    /** A table that knows only that the empty pattern has one layout. */
    constructor ()
      ensures counts == map[[] := 1]
    {
      counts := map[[] := 1];
    }
  }

  /** Counts the layouts of `pattern`, answering from the table when the pattern is
      stored and otherwise summing over the towels that start it and storing the sum.
      As long as the table holds only true counts (and the empty pattern) the answer is
      the true count, and the table stays true and keeps what it had. */
  method CountPossibilities(pattern: string, towels: seq<string>, countMap: CountMap) returns (r: int)
    requires NonEmptyTowels(towels)
    requires [] in countMap.counts && MemoSound(countMap.counts, towels)
    modifies countMap
    ensures r == Arrangements(pattern, towels)
    ensures MemoSound(countMap.counts, towels) && pattern in countMap.counts
    ensures old(countMap.counts).Keys <= countMap.counts.Keys
    decreases |pattern|
  {
    if pattern in countMap.counts {
      return countMap.counts[pattern];
    }
    var total := 0;
    for i := 0 to |towels|
      invariant total == SumOver(pattern, towels, i)
      invariant MemoSound(countMap.counts, towels)
      invariant old(countMap.counts).Keys <= countMap.counts.Keys
    {
      var cut := CutPrefix(pattern, towels[i]);
      if cut.1 {
        assert cut.0 == pattern[|towels[i]|..];
        var count := CountPossibilities(cut.0, towels, countMap);
        total := total + count;
      }
    }
    countMap.counts := countMap.counts[pattern := total];
    return total;
  }

  // ----- Both parts ----------------------------------------------------------------

  /** How many of `patterns` have at least one layout. */
  function CountPossible(patterns: seq<string>, towels: seq<string>): nat
    requires NonEmptyTowels(towels)
  {
    if patterns == [] then 0
    else
      var last := if Arrangements(patterns[|patterns| - 1], towels) > 0 then 1 else 0;
      CountPossible(patterns[..|patterns| - 1], towels) + last
  }

  /** The number of layouts of all `patterns` together. */
  function TotalArrangements(patterns: seq<string>, towels: seq<string>): nat
    requires NonEmptyTowels(towels)
  {
    if patterns == [] then 0
    else TotalArrangements(patterns[..|patterns| - 1], towels) + Arrangements(patterns[|patterns| - 1], towels)
  }

  /** No more patterns are possible than there are patterns, or than there are layouts. */
  lemma {:induction false} CountPossibleBounds(patterns: seq<string>, towels: seq<string>)
    requires NonEmptyTowels(towels)
    ensures CountPossible(patterns, towels) <= |patterns|
    ensures CountPossible(patterns, towels) <= TotalArrangements(patterns, towels)
  {
    if patterns != [] {
      CountPossibleBounds(patterns[..|patterns| - 1], towels);
    }
  }

  /** Part 1 and part 2 together: the number of possible patterns and the total number
      of layouts, with one table shared by all patterns. */
  method SolveParts(patterns: seq<string>, towels: seq<string>) returns (possible: int, total: int)
    requires NonEmptyTowels(towels)
    ensures possible == CountPossible(patterns, towels)
    ensures total == TotalArrangements(patterns, towels)
  {
    possible := 0;
    total := 0;
    var countMap := new CountMap();
    for i := 0 to |patterns|
      invariant possible == CountPossible(patterns[..i], towels)
      invariant total == TotalArrangements(patterns[..i], towels)
      invariant [] in countMap.counts && MemoSound(countMap.counts, towels)
    {
      assert patterns[..i + 1][..i] == patterns[..i];
      var possibilities := CountPossibilities(patterns[i], towels, countMap);
      if possibilities > 0 {
        total := total + possibilities;
        possible := possible + 1;
      }
    }
    assert patterns[..|patterns|] == patterns;
  }

  // ----- Grouping towels -----------------------------------------------------------

  /** The towels of `towels` whose first stripe is `c`, in their original order. */
  function StartingWith(towels: seq<string>, c: char): (r: seq<string>)
    requires NonEmptyTowels(towels)
    ensures |r| <= |towels|
    ensures forall j :: 0 <= j < |r| ==> r[j] in towels && r[j][0] == c
  {
    if towels == [] then []
    else
      var last := if towels[|towels| - 1][0] == c then [towels[|towels| - 1]] else [];
      StartingWith(towels[..|towels| - 1], c) + last
  }

  /** The grouping built one towel at a time: the towel is appended to the group of its
      first stripe, which is created when missing. */
  function Grouped(towels: seq<string>): map<char, seq<string>>
    requires NonEmptyTowels(towels)
  {
    if towels == [] then map[]
    else
      var m := Grouped(towels[..|towels| - 1]);
      var t := towels[|towels| - 1];
      m[t[0] := (if t[0] in m then m[t[0]] else []) + [t]]
  }

  /** The grouping holds a key for exactly the first stripes that occur, and under each
      key every towel starting with it, in input order. */
  lemma {:induction false} GroupedByFirstStripe(towels: seq<string>, c: char)
    requires NonEmptyTowels(towels)
    ensures c in Grouped(towels) <==> StartingWith(towels, c) != []
    ensures c in Grouped(towels) ==> Grouped(towels)[c] == StartingWith(towels, c)
  {
    if towels != [] {
      GroupedByFirstStripe(towels[..|towels| - 1], c);
    }
  }

  /** A towel is in the group of its first stripe. */
  lemma {:induction false} TowelInItsGroup(towels: seq<string>, i: nat)
    requires NonEmptyTowels(towels) && i < |towels|
    ensures towels[i] in StartingWith(towels, towels[i][0])
  {
    var n := |towels| - 1;
    if i < n {
      TowelInItsGroup(towels[..n], i);
    }
  }

  /** Groups the towels by their first stripe, keeping input order within a group. */
  method GetTowelMap(towels: seq<string>) returns (towelMap: map<char, seq<string>>)
    requires NonEmptyTowels(towels)
    ensures towelMap == Grouped(towels)
  {
    towelMap := map[];
    for i := 0 to |towels|
      invariant towelMap == Grouped(towels[..i])
    {
      assert towels[..i + 1][..i] == towels[..i] && towels[..i + 1][i] == towels[i];
      assert NonEmptyTowels(towels[..i + 1]);
      var towel := towels[i];
      var values: seq<string>;
      if towel[0] !in towelMap {
        values := [towel];
        assert values == [] + [towel];
      } else {
        values := towelMap[towel[0]] + [towel];
      }
      towelMap := towelMap[towel[0] := values];
    }
    assert towels[..|towels|] == towels;
  }

  // ----- Examples ------------------------------------------------------------------

  /** A pattern that starts with the only towel but cannot be finished has no layout. */
  lemma UnfinishedExample()
    ensures Arrangements("rgbabc", ["rgb"]) == 0
  {
    assert "abc"[..3] != "rgb" by {
      assert "abc"[0] != "rgb"[0];
    }
    assert Term("abc", ["rgb"], 0) == 0;
    assert Arrangements("abc", ["rgb"]) == 0;
    assert "rgbabc"[3..] == "abc";
  }

  /** "brwrr" is laid out as b, r, wr, r or as br, wr, r. */
  lemma TwoLayoutsExample()
    ensures IsLayout([2, 0, 1, 0], ["r", "wr", "b", "g", "bwu", "rb", "gb", "br"], "brwrr")
    ensures IsLayout([7, 1, 0], ["r", "wr", "b", "g", "bwu", "rb", "gb", "br"], "brwrr")
  {
  }
}
