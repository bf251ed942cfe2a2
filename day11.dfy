/** Day 11, "Plutonian Pebbles": stones change at every blink. A 0 becomes a 1, a stone
    with an even number of digits splits into its two halves, and any other stone is
    multiplied by 2024. The answer is how many stones there are after a number of blinks,
    counted through a cache keyed by stone and remaining blinks. */
module Day11 {
  import opened GoLib

  predicate IsInt64(x: int) {
    MinSigned(64) <= x <= MaxSigned(64)
  }

  predicate AllInt64(values: seq<int>) {
    forall k :: 0 <= k < |values| ==> IsInt64(values[k])
  }

  /** Go's int64 multiplication wraps around modulo 2^64. */
  function Wrap64(x: int): (r: int)
    ensures IsInt64(r)
    ensures IsInt64(x) ==> r == x
    ensures (r - x) % 0x1_0000_0000_0000_0000 == 0
  {
    (x + 0x8000_0000_0000_0000) % 0x1_0000_0000_0000_0000 - 0x8000_0000_0000_0000
  }

  /** `findNumDigits`: the length of `fmt.Sprint(num)`, counting a minus sign. */
  function FindNumDigits(num: int): (d: nat)
    ensures d >= 1
  {
    |Itoa(num)|
  }

  /** For a stone that is not negative, the digit count places it between powers of
      ten. */
  lemma NumDigitsBounds(num: nat)
    ensures var d := FindNumDigits(num);
      (d == 1 || Pow10(d - 1) <= num) && num < Pow10(d)
  {
    NatToStringLength(num, FindNumDigits(num));
  }

  lemma {:induction false} Pow10Monotone(m: nat, n: nat)
    requires m <= n
    ensures Pow10(m) <= Pow10(n)
  {
    if m < n {
      Pow10Monotone(m, n - 1);
    }
  }

  /** An int64 prints in at most 20 characters: 19 digits and a sign. */
  lemma NumDigitsInt64(value: int)
    requires IsInt64(value)
    ensures FindNumDigits(value) <= 20
  {
    var n: nat := Abs(value);
    var k := |NatToString(n)|;
    NatToStringLength(n, k);
    if k > 19 {
      Pow10Monotone(19, k - 1);
      Pow10Of19();
    }
  }

  lemma Pow10Of19()
    ensures Pow10(19) == 10_000_000_000_000_000_000
  {
    Pow10Add(10, 9);
    assert Pow10(10) == 10_000_000_000;
    assert Pow10(9) == 1_000_000_000;
  }

  /** `ApplyBlinkRule`: what one stone becomes after a blink. */
  function ApplyBlinkRule(value: int): (r: seq<int>)
    requires IsInt64(value)
    ensures |r| == 1 || |r| == 2
    ensures AllInt64(r)
  {
    if value == 0 then [1]
    else
      var numDigits := FindNumDigits(value);
      if numDigits % 2 == 1 then [Wrap64(value * 2024)]
      else
        var exp := Pow10(numDigits / 2);
        NumDigitsInt64(value);
        Pow10Monotone(numDigits / 2, 10);
        HalvesInRange(value, exp);
        [Quot(value, exp), Rem(value, exp)]
  }

  /** A 0 becomes a 1; a stone with an odd number of digits is multiplied by 2024, with
      int64 wrap-around; any other stone splits into two numbers from which it is
      rebuilt by shifting the first left by half its digit count. */
  lemma BlinkRule(value: int)
    requires IsInt64(value)
    ensures value == 0 ==> ApplyBlinkRule(value) == [1]
    ensures value != 0 && FindNumDigits(value) % 2 == 1 ==> ApplyBlinkRule(value) == [Wrap64(value * 2024)]
    ensures value != 0 && FindNumDigits(value) % 2 == 0 ==>
      var r := ApplyBlinkRule(value);
      |r| == 2 && Pow10(FindNumDigits(value) / 2) * r[0] + r[1] == value
  {
  }

  lemma DivAtMost(a: nat, b: int)
    requires b >= 1
    ensures a / b <= a
  {
    var q := a / b;
    assert q * b <= a;
    assert q <= q * b by {
      if q > 0 {
        assert q * b == q + q * (b - 1);
        assert q * (b - 1) >= 0;
      }
    }
  }

  /** Both halves of a split int64 are int64 again. */
  lemma HalvesInRange(value: int, exp: int)
    requires IsInt64(value) && 1 <= exp <= Pow10(10)
    ensures IsInt64(Quot(value, exp)) && IsInt64(Rem(value, exp))
    ensures exp * Quot(value, exp) + Rem(value, exp) == value
  {
    RemBounds(value, exp);
    assert Pow10(10) == 10_000_000_000;
    DivAtMost(Abs(value), exp);
  }

  /** A stone with an even number of digits, `2k` of them, splits into its first `k`
      digits, which carry no leading zero, and its last `k` digits. */
  lemma SplitHalves(value: nat)
    requires IsInt64(value) && value != 0 && FindNumDigits(value) % 2 == 0
    ensures var k := FindNumDigits(value) / 2;
      var r := ApplyBlinkRule(value);
      |r| == 2 && Pow10(k) * r[0] + r[1] == value &&
      0 <= r[1] < Pow10(k) &&
      Pow10(k - 1) <= r[0] < Pow10(k)
  {
    var d := FindNumDigits(value);
    var k := d / 2;
    var exp := Pow10(k);
    var r := ApplyBlinkRule(value);
    BlinkRule(value);
    NumDigitsBounds(value);
    assert r[1] == Rem(value, exp);
    RemBounds(value, exp);
    var q, rem := r[0], r[1];
    assert exp * q + rem == value;
    Pow10Add(k, k);
    Pow10Add(k - 1, k);
    assert Pow10(d - 1) == Pow10(k - 1) * exp;
    assert Pow10(d) == exp * exp;
    QuotientBounds(value, exp, q, rem, Pow10(k - 1));
  }

  /** If `exp * lo <= exp * q + rem < exp * exp` with `0 <= rem < exp`, then
      `lo <= q < exp`. */
  lemma QuotientBounds(value: nat, exp: nat, q: int, rem: int, lo: nat)
    requires 0 <= rem < exp && exp * q + rem == value
    requires lo * exp <= value < exp * exp
    ensures lo <= q < exp
  {
    if q < lo {
      MulByPredecessor(exp, lo);
      MulMonotone(exp, q, lo - 1);
    } else if q >= exp {
      MulMonotone(exp, exp, q);
    }
  }

  lemma MulMonotone(e: nat, a: int, b: int)
    requires a <= b
    ensures e * a <= e * b
  {
    assert e * b - e * a == e * (b - a);
  }

  lemma MulByPredecessor(e: int, l: int)
    ensures e * (l - 1) == l * e - e
  {
  }

  lemma RuleOfOne()
    ensures ApplyBlinkRule(0) == [1]
    ensures ApplyBlinkRule(1) == [2024]
  {
    assert FindNumDigits(1) == 1;
  }

  lemma RuleOfOddDigits()
    ensures ApplyBlinkRule(1036288) == [1036288 * 2024]
  {
    NatToStringLength(1036288, 7);
    assert FindNumDigits(1036288) == 7;
  }

  lemma RuleOf2024()
    ensures ApplyBlinkRule(2024) == [20, 24]
  {
    NatToStringLength(2024, 4);
    assert FindNumDigits(2024) == 4;
    assert Pow10(2) == 100;
  }

  lemma RuleOf28676032()
    ensures ApplyBlinkRule(28676032) == [2867, 6032]
  {
    NatToStringLength(28676032, 8);
    assert FindNumDigits(28676032) == 8;
    assert Pow10(4) == 10000;
  }

  // ---------------------------------------------------------------------------
  // The stones themselves and how many there are
  // ---------------------------------------------------------------------------

  /** One blink applied to a row of stones. */
  function Blink(values: seq<int>): (r: seq<int>)
    requires AllInt64(values)
    ensures AllInt64(r)
  {
    if values == [] then []
    else Blink(values[..|values| - 1]) + ApplyBlinkRule(values[|values| - 1])
  }

  /** The row of stones after `blinks` blinks. */
  function After(values: seq<int>, blinks: nat): (r: seq<int>)
    requires AllInt64(values)
    ensures AllInt64(r)
    decreases blinks
  {
    if blinks == 0 then values else After(Blink(values), blinks - 1)
  }

  /** How many stones one stone becomes: the recursion the cached search follows. */
  function CountAfter(value: int, blinks: nat): nat
    requires IsInt64(value)
    decreases blinks, 1
  {
    if blinks == 0 then 1 else CountAll(ApplyBlinkRule(value), blinks - 1)
  }

  /** How many stones a row becomes. */
  function CountAll(values: seq<int>, blinks: nat): nat
    requires AllInt64(values)
    decreases blinks, |values| + 2
  {
    if values == [] then 0
    else CountAll(values[..|values| - 1], blinks) + CountAfter(values[|values| - 1], blinks)
  }

  lemma {:induction false} BlinkAppend(a: seq<int>, b: seq<int>)
    requires AllInt64(a) && AllInt64(b)
    ensures AllInt64(a + b) && Blink(a + b) == Blink(a) + Blink(b)
    decreases |b|
  {
    AllInt64Append(a, b);
    if b == [] {
      assert a + b == a;
    } else {
      var init, last := b[..|b| - 1], b[|b| - 1];
      assert b == init + [last];
      AllInt64Append(init, [last]);
      AllInt64Append(a, init);
      assert a + b == (a + init) + [last];
      calc {
        Blink(a + b);
        Blink((a + init) + [last]);
        { BlinkSnoc(a + init, last); }
        Blink(a + init) + ApplyBlinkRule(last);
        { BlinkAppend(a, init); }
        Blink(a) + Blink(init) + ApplyBlinkRule(last);
        { BlinkSnoc(init, last); }
        Blink(a) + Blink(b);
      }
    }
  }

  lemma AllInt64Append(a: seq<int>, b: seq<int>)
    ensures AllInt64(a + b) <==> AllInt64(a) && AllInt64(b)
  {
    if AllInt64(a + b) {
      forall k | 0 <= k < |a|
        ensures IsInt64(a[k])
      {
        assert a[k] == (a + b)[k];
      }
      forall k | 0 <= k < |b|
        ensures IsInt64(b[k])
      {
        assert b[k] == (a + b)[|a| + k];
      }
    }
  }

  lemma BlinkSnoc(s: seq<int>, x: int)
    requires AllInt64(s) && IsInt64(x)
    ensures AllInt64(s + [x]) && Blink(s + [x]) == Blink(s) + ApplyBlinkRule(x)
  {
    AllInt64Append(s, [x]);
    assert (s + [x])[..|s|] == s;
  }

  lemma {:induction false} AfterAppend(a: seq<int>, b: seq<int>, blinks: nat)
    requires AllInt64(a) && AllInt64(b)
    ensures AllInt64(a + b) && After(a + b, blinks) == After(a, blinks) + After(b, blinks)
    decreases blinks
  {
    BlinkAppend(a, b);
    if blinks > 0 {
      AfterAppend(Blink(a), Blink(b), blinks - 1);
    }
  }

  /** The counting recursion counts exactly the stones that blinking produces. */
  lemma {:induction false} CountAfterIsLength(value: int, blinks: nat)
    requires IsInt64(value)
    ensures CountAfter(value, blinks) == |After([value], blinks)|
    decreases blinks, 1
  {
    if blinks > 0 {
      CountAllIsLength(ApplyBlinkRule(value), blinks - 1);
      assert [value][..0] == [];
      assert Blink([value]) == ApplyBlinkRule(value);
    }
  }

  lemma {:induction false} CountAllIsLength(values: seq<int>, blinks: nat)
    requires AllInt64(values)
    ensures CountAll(values, blinks) == |After(values, blinks)|
    decreases blinks, |values| + 2
  {
    if values == [] {
      EmptyStaysEmpty(blinks);
    } else {
      var init, last := values[..|values| - 1], values[|values| - 1];
      CountAllIsLength(init, blinks);
      CountAfterIsLength(last, blinks);
      assert values == init + [last];
      AfterAppend(init, [last], blinks);
    }
  }

  /** A stone never disappears: after any number of blinks it is at least one stone. */
  lemma {:induction false} CountAfterPositive(value: int, blinks: nat)
    requires IsInt64(value)
    ensures CountAfter(value, blinks) >= 1
    decreases blinks, 1
  {
    if blinks > 0 {
      CountAllAtLeast(ApplyBlinkRule(value), blinks - 1);
    }
  }

  /** So a row never shrinks: it becomes at least as many stones as it has. */
  lemma {:induction false} CountAllAtLeast(values: seq<int>, blinks: nat)
    requires AllInt64(values)
    ensures CountAll(values, blinks) >= |values|
    decreases blinks, |values| + 2
  {
    if values != [] {
      CountAllAtLeast(values[..|values| - 1], blinks);
      CountAfterPositive(values[|values| - 1], blinks);
    }
  }

  lemma {:induction false} EmptyStaysEmpty(blinks: nat)
    ensures After([], blinks) == []
  {
    if blinks > 0 {
      EmptyStaysEmpty(blinks - 1);
    }
  }

  /** The counts the tests give for single stones. */
  lemma CountExamples()
    ensures CountAfter(0, 0) == 1
    ensures CountAfter(2024, 1) == 2
    ensures CountAfter(2024, 2) == 4
  {
    RuleOf2024();
    RuleOfTwoDigits(20, 2, 0);
    RuleOfTwoDigits(24, 2, 4);
    assert CountAll([2, 0], 0) == 2 by {
      assert [2, 0][..1] == [2];
      assert [2][..0] == [];
    }
    assert CountAll([2, 4], 0) == 2 by {
      assert [2, 4][..1] == [2];
      assert [2][..0] == [];
    }
    assert [20, 24][..1] == [20];
    assert [20][..0] == [];
  }

  lemma RuleOfTwoDigits(value: int, hi: nat, lo: nat)
    requires 10 <= value < 100 && hi == value / 10 && lo == value % 10
    ensures ApplyBlinkRule(value) == [hi, lo]
  {
    NatToStringLength(value, 2);
    assert FindNumDigits(value) == 2;
  }

  // ---------------------------------------------------------------------------
  // The cached count
  // ---------------------------------------------------------------------------

  datatype BlinkInfo = BlinkInfo(value: int, blinks: int)

  /** The package-level `BlinkCache` and the two functions that fill it. */
  class BlinkCounter {
    var cache: map<BlinkInfo, int>

    /** Every cached score is the true count for its stone and remaining blinks. */
    ghost predicate Valid()
      reads this
    {
      forall key :: key in cache ==>
        IsInt64(key.value) && key.blinks >= 0 && cache[key] == CountAfter(key.value, key.blinks)
    }

    constructor()
      ensures Valid() && cache == map[]
    {
      cache := map[];
    }

    /** `GetCountAfterBlinks`. */
    method GetCountAfterBlinks(value: int, blinks: int) returns (score: int)
      requires Valid() && IsInt64(value) && blinks >= 0
      modifies this
      ensures Valid() && score == CountAfter(value, blinks)
      ensures old(cache).Keys <= cache.Keys
      decreases blinks, 1
    {
      if blinks == 0 {
        return 1;
      }
      score := GetTotalElementsAfterBlinks(ApplyBlinkRule(value), blinks - 1);
    }

    /** `GetTotalElementsAfterBlinks`: each stone's count is looked up, or computed and
        stored. */
    method GetTotalElementsAfterBlinks(values: seq<int>, blinks: int) returns (total: int)
      requires Valid() && AllInt64(values) && blinks >= 0
      modifies this
      ensures Valid() && total == CountAll(values, blinks)
      ensures old(cache).Keys <= cache.Keys
      decreases blinks, 2
    {
      total := 0;
      for i := 0 to |values|
        invariant Valid() && old(cache).Keys <= cache.Keys
        invariant total == CountAll(values[..i], blinks)
      {
        assert values[..i + 1][..i] == values[..i];
        var key := BlinkInfo(values[i], blinks);
        var score;
        if key in cache {
          score := cache[key];
        } else {
          score := GetCountAfterBlinks(values[i], blinks);
          cache := cache[key := score];
        }
        total := total + score;
      }
      assert values[..|values|] == values;
    }
  }

  // ---------------------------------------------------------------------------
  // Reading the stones
  // ---------------------------------------------------------------------------

  /** The stones `ReadInput` reads: each space-separated field through
      `strconv.ParseInt`, errors ignored. */
  function StonesOf(input: string): (r: seq<int>)
    ensures |r| == |Split(input, ' ')|
    ensures AllInt64(r)
  {
    var numTexts := Split(input, ' ');
    seq(|numTexts|, i requires 0 <= i < |numTexts| => ParseInt(numTexts[i], 64).value)
  }

  /** A field holding the decimal form of an int64 reads back as that number. */
  lemma StonesOfDecimal(input: string, i: nat, n: int)
    requires i < |Split(input, ' ')| && IsInt64(n) && Split(input, ' ')[i] == Itoa(n)
    ensures StonesOf(input)[i] == n
  {
    ParseIntItoa(n, 64);
  }

  /** `ReadInput`. */
  method ReadInput(input: string) returns (values: seq<int>)
    ensures values == StonesOf(input)
  {
    var numTexts := Split(input, ' ');
    values := [];
    for i := 0 to |numTexts|
      invariant values == StonesOf(input)[..i]
    {
      values := values + [ParseInt(numTexts[i], 64).value];
    }
  }
}
