/** Day 1: two columns of location IDs. Part 1 pairs the columns after sorting each and
    adds up the distances; part 2 weighs every left ID by how often it occurs on the right. */
module Day01 {
  import opened GoLib
  import Sorting

  /** A line both of whose outer space-separated fields are 64-bit integers; on any other
      line the solver stops the program. */
  predicate LineParses(line: string) {
    var locs := Split(line, ' ');
    ParseInt(locs[0], 64).ok && ParseInt(locs[|locs| - 1], 64).ok
  }

  /** The first and the last space-separated field of a line, as integers. */
  function ParseInputLine(line: string): (r: (int, int))
    requires LineParses(line)
    ensures MinSigned(64) <= r.0 <= MaxSigned(64) && MinSigned(64) <= r.1 <= MaxSigned(64)
  {
    var locs := Split(line, ' ');
    (ParseInt(locs[0], 64).value, ParseInt(locs[|locs| - 1], 64).value)
  }

  function Spaces(n: nat): (s: string)
    ensures |s| == n && forall i :: 0 <= i < n ==> s[i] == ' '
  {
    seq(n, _ => ' ')
  }

  /** However many spaces separate the two numbers, the line reads back as the pair. */
  lemma ParseInputLineSpaces(a: int, b: int, gap: nat)
    requires MinSigned(64) <= a <= MaxSigned(64) && MinSigned(64) <= b <= MaxSigned(64)
    requires gap >= 1
    ensures LineParses(Itoa(a) + Spaces(gap) + Itoa(b))
    ensures ParseInputLine(Itoa(a) + Spaces(gap) + Itoa(b)) == (a, b)
  {
    var sa, sb, gapRest := Itoa(a), Itoa(b), Spaces(gap - 1);
    var line := sa + Spaces(gap) + sb;
    ItoaChars(a);
    ItoaChars(b);
    assert ' ' !in sa;
    assert ' ' !in sb;
    assert Spaces(gap) == [' '] + gapRest;
    var locs := Split(line, ' ');
    assert locs[0] == sa by {
      assert line == sa + [' '] + (gapRest + sb);
      SplitFirst(sa, ' ', gapRest + sb);
    }
    assert locs[|locs| - 1] == sb by {
      assert line == (sa + gapRest) + [' '] + sb;
      SplitLast(sa + gapRest, ' ', sb);
    }
    ParseIntItoa(a, 64);
    ParseIntItoa(b, 64);
  }

  /** Every line parses (the condition under which the solver does not stop). */
  predicate AllLinesParse(lines: seq<string>) {
    forall i :: 0 <= i < |lines| ==> LineParses(lines[i])
  }

  /** The left and the right column of the input lines. */
  function LeftColumn(lines: seq<string>): (xs: seq<int>)
    requires AllLinesParse(lines)
    ensures |xs| == |lines|
  {
    seq(|lines|, i requires 0 <= i < |lines| && LineParses(lines[i]) => ParseInputLine(lines[i]).0)
  }

  function RightColumn(lines: seq<string>): (ys: seq<int>)
    requires AllLinesParse(lines)
    ensures |ys| == |lines|
  {
    seq(|lines|, i requires 0 <= i < |lines| && LineParses(lines[i]) => ParseInputLine(lines[i]).1)
  }

  /** One entry in each list per input line, in line order. */
  method GetLocationLists(input: string) returns (firstList: seq<int>, secondList: seq<int>)
    requires AllLinesParse(Split(input, '\n'))
    ensures |firstList| == |secondList| == |Split(input, '\n')|
    ensures forall i :: 0 <= i < |firstList| ==>
      (firstList[i], secondList[i]) == ParseInputLine(Split(input, '\n')[i])
    ensures firstList == LeftColumn(Split(input, '\n'))
    ensures secondList == RightColumn(Split(input, '\n'))
  {
    var lines := Split(input, '\n');
    firstList, secondList := [], [];
    var i := 0;
    while i < |lines|
      invariant 0 <= i <= |lines|
      invariant |firstList| == |secondList| == i
      invariant forall k :: 0 <= k < i ==> (firstList[k], secondList[k]) == ParseInputLine(lines[k])
    {
      var (loc1, loc2) := ParseInputLine(lines[i]);
      firstList, secondList := firstList + [loc1], secondList + [loc2];
      i := i + 1;
    }
  }

  /** The distance between two locations. */
  function FindDistance(loc1: int, loc2: int): (d: int)
    ensures d == Abs(loc1 - loc2)
  {
    if loc1 > loc2 then loc1 - loc2 else loc2 - loc1
  }

  /** The distance is symmetric and vanishes exactly on equal locations. */
  lemma FindDistanceProperties(loc1: int, loc2: int)
    ensures FindDistance(loc1, loc2) == FindDistance(loc2, loc1) >= 0
    ensures FindDistance(loc1, loc2) == 0 <==> loc1 == loc2
  {
  }

  /** The sum of the distances of same-index pairs. */
  function SumDistances(xs: seq<int>, ys: seq<int>): (total: int)
    requires |xs| == |ys|
    ensures total >= 0
  {
    if xs == [] then 0
    else SumDistances(xs[..|xs| - 1], ys[..|ys| - 1]) + FindDistance(xs[|xs| - 1], ys[|ys| - 1])
  }

  /** Part 1 on the two columns: the lists are paired after sorting each. */
  function TotalDistance(xs: seq<int>, ys: seq<int>): int
    requires |xs| == |ys|
  {
    SumDistances(Sorting.Sort(xs), Sorting.Sort(ys))
  }

  /** Part 1 from the input text. The parsed columns are handed to `TotalDistanceOfLists`,
      which holds the sorting and the summing loop. */
  method TotalDistanceBetweenLocations(input: string) returns (totalDistance: int)
    requires AllLinesParse(Split(input, '\n'))
    ensures totalDistance == TotalDistance(LeftColumn(Split(input, '\n')), RightColumn(Split(input, '\n')))
  {
    var firstList, secondList := GetLocationLists(input);
    totalDistance := TotalDistanceOfLists(firstList, secondList);
  }

  /** Sort both lists, then add up the distances of same-index pairs. */
  method TotalDistanceOfLists(firstList: seq<int>, secondList: seq<int>) returns (totalDistance: int)
    requires |firstList| == |secondList|
    ensures totalDistance == TotalDistance(firstList, secondList)
  {
    var sorted1 := Sorting.Sort(firstList);
    var sorted2 := Sorting.Sort(secondList);
    totalDistance := 0;
    var i := 0;
    while i < |sorted1|
      invariant 0 <= i <= |sorted1|
      invariant totalDistance == SumDistances(sorted1[..i], sorted2[..i])
    {
      assert sorted1[..i + 1][..i] == sorted1[..i];
      assert sorted2[..i + 1][..i] == sorted2[..i];
      totalDistance := totalDistance + FindDistance(sorted1[i], sorted2[i]);
      i := i + 1;
    }
    assert sorted1[..i] == sorted1 && sorted2[..i] == sorted2;
  }

  /** Reordering either column does not change part 1. */
  lemma TotalDistancePermutation(xs: seq<int>, ys: seq<int>, xs': seq<int>, ys': seq<int>)
    requires |xs| == |ys| && |xs'| == |ys'|
    requires multiset(xs) == multiset(xs') && multiset(ys) == multiset(ys')
    ensures TotalDistance(xs, ys) == TotalDistance(xs', ys')
  {
    Sorting.SortPermutation(xs, xs');
    Sorting.SortPermutation(ys, ys');
  }

  /** A sum of distances vanishes exactly when the two lists are equal. */
  lemma {:induction false} SumDistancesZero(xs: seq<int>, ys: seq<int>)
    requires |xs| == |ys|
    ensures SumDistances(xs, ys) == 0 <==> xs == ys
  {
    if xs != [] {
      var n := |xs| - 1;
      SumDistancesZero(xs[..n], ys[..n]);
      assert xs == xs[..n] + [xs[n]] && ys == ys[..n] + [ys[n]];
    }
  }

  /** Part 1 is zero exactly when the two columns hold the same IDs with the same
      multiplicities. */
  lemma TotalDistanceZero(xs: seq<int>, ys: seq<int>)
    requires |xs| == |ys|
    ensures TotalDistance(xs, ys) == 0 <==> multiset(xs) == multiset(ys)
  {
    SumDistancesZero(Sorting.Sort(xs), Sorting.Sort(ys));
    if multiset(xs) == multiset(ys) {
      Sorting.SortPermutation(xs, ys);
    }
  }

  /** How many entries of `items` equal `element`. */
  method CountElements<T(==)>(items: seq<T>, element: T) returns (count: nat)
    ensures count == multiset(items)[element]
    ensures count <= |items|
    ensures count == 0 <==> element !in items
  {
    count := 0;
    var i := 0;
    while i < |items|
      invariant 0 <= i <= |items|
      invariant count == multiset(items[..i])[element]
    {
      assert items[..i + 1] == items[..i] + [items[i]];
      if items[i] == element {
        count := count + 1;
      }
      i := i + 1;
    }
    assert items[..i] == items;
  }

  /** Part 2 on the two columns: each left ID times its number of occurrences on the
      right. */
  function Similarity(xs: seq<int>, ys: seq<int>): int {
    if xs == [] then 0
    else Similarity(xs[..|xs| - 1], ys) + xs[|xs| - 1] * multiset(ys)[xs[|xs| - 1]]
  }

  /** Part 2 from the input text; the counting loop is `SimilarityOfLists`. */
  method SimilarityScoresBetweenLocations(input: string) returns (total: int)
    requires AllLinesParse(Split(input, '\n'))
    ensures total == Similarity(LeftColumn(Split(input, '\n')), RightColumn(Split(input, '\n')))
  {
    var firstList, secondList := GetLocationLists(input);
    total := SimilarityOfLists(firstList, secondList);
  }

  method SimilarityOfLists(firstList: seq<int>, secondList: seq<int>) returns (total: int)
    ensures total == Similarity(firstList, secondList)
  {
    total := 0;
    var i := 0;
    while i < |firstList|
      invariant 0 <= i <= |firstList|
      invariant total == Similarity(firstList[..i], secondList)
    {
      assert firstList[..i + 1][..i] == firstList[..i];
      var count := CountElements(secondList, firstList[i]);
      total := total + count * firstList[i];
      i := i + 1;
    }
    assert firstList[..i] == firstList;
  }

  lemma {:induction false} SimilarityAppend(xs: seq<int>, xs': seq<int>, ys: seq<int>)
    ensures Similarity(xs + xs', ys) == Similarity(xs, ys) + Similarity(xs', ys)
    decreases |xs'|
  {
    if xs' != [] {
      var n := |xs'| - 1;
      assert (xs + xs')[..|xs + xs'| - 1] == xs + xs'[..n];
      SimilarityAppend(xs, xs'[..n], ys);
    } else {
      assert xs + xs' == xs;
    }
  }

  /** Part 2 depends only on which IDs each column holds and how often, not on their
      order. */
  lemma {:induction false} SimilarityPermutation(xs: seq<int>, xs': seq<int>, ys: seq<int>, ys': seq<int>)
    requires multiset(xs) == multiset(xs') && multiset(ys) == multiset(ys')
    ensures Similarity(xs, ys) == Similarity(xs', ys')
    decreases |xs|
  {
    if xs == [] {
      assert |xs'| == |multiset(xs')| == 0;
      assert xs' == [];
    } else {
      var n := |xs| - 1;
      var x := xs[n];
      assert xs == xs[..n] + [x];
      assert x in multiset(xs');
      var j :| 0 <= j < |xs'| && xs'[j] == x;
      var rest := xs'[..j] + xs'[j + 1..];
      assert xs' == xs'[..j] + [x] + xs'[j + 1..];
      assert multiset(xs) == multiset(xs[..n]) + multiset{x};
      assert multiset(xs') == multiset(xs'[..j]) + multiset{x} + multiset(xs'[j + 1..]);
      assert multiset(rest) == multiset(xs'[..j]) + multiset(xs'[j + 1..]);
      assert multiset(xs[..n]) == multiset(xs) - multiset{x};
      assert multiset(rest) == multiset(xs') - multiset{x};
      SimilarityPermutation(xs[..n], rest, ys, ys');
      SimilarityAppend(xs'[..j] + [x], xs'[j + 1..], ys');
      SimilarityAppend(xs'[..j], [x], ys');
      SimilarityAppend(xs'[..j], xs'[j + 1..], ys');
      assert Similarity([x], ys') == x * multiset(ys')[x] by {
        assert [x][..0] == [];
      }
    }
  }
}
