/** Day 22, "Monkey Market": every buyer's secret number evolves by a 24-bit xor-shift
    generator; the last digit of each secret is a price, and the best sequence of four
    consecutive price changes is searched for. */
module Day22 {
  import opened GoLib

  /** How many new secrets each buyer generates. */
  const Rounds: int := 2000

  // ----- The generator -------------------------------------------------------------

  /** Go's `int`: a 64-bit two's-complement word. */
  type Word = bv64

  /** The next secret: xor with the value shifted left by 6 and keep the low 24 bits,
      xor with the value shifted right by 5, xor with the value shifted left by 11 and
      keep the low 24 bits. */
  function GenerateNextPseudoRandomNumber(num: Word): (r: Word)
    ensures r <= 0xFF_FFFF
  {
    var a := ((num << 6) ^ num) & 0xFF_FFFF;
    var b := (a >> 5) ^ a;
    ((b << 11) ^ b) & 0xFF_FFFF
  }

  /** Only the low 24 bits of a number decide its successor. */
  lemma GenerateDependsOnLowBits(num: Word)
    ensures GenerateNextPseudoRandomNumber(num) == GenerateNextPseudoRandomNumber(num & 0xFF_FFFF)
  {
  }

  /** The example chain: 123 is followed by 15887950, 16495136, 527345, 704524, 1553684,
      12683156, 11100544, 12249484, 7753432 and 5908254. */
  lemma GenerateExamples()
    ensures GenerateNextPseudoRandomNumber(123) == 15887950
    ensures GenerateNextPseudoRandomNumber(15887950) == 16495136
    ensures GenerateNextPseudoRandomNumber(16495136) == 527345
    ensures GenerateNextPseudoRandomNumber(527345) == 704524
    ensures GenerateNextPseudoRandomNumber(704524) == 1553684
    ensures GenerateNextPseudoRandomNumber(1553684) == 12683156
    ensures GenerateNextPseudoRandomNumber(12683156) == 11100544
    ensures GenerateNextPseudoRandomNumber(11100544) == 12249484
    ensures GenerateNextPseudoRandomNumber(12249484) == 7753432
    ensures GenerateNextPseudoRandomNumber(7753432) == 5908254
  {
  }

  /** The secret after `n` steps of the generator (`num` itself when `n` is not positive). */
  function NthSecret(num: Word, n: int): Word
    decreases n
  {
    if n <= 0 then num else GenerateNextPseudoRandomNumber(NthSecret(num, n - 1))
  }

  /** After at least one step the secret is a 24-bit number. */
  lemma NthSecretRange(num: Word, n: int)
    requires n >= 1
    ensures NthSecret(num, n) <= 0xFF_FFFF
  {
  }

  /** Taking `a` steps and then `b` more is taking `a + b` steps. */
  lemma {:induction false} NthSecretAdd(num: Word, a: nat, b: nat)
    ensures NthSecret(NthSecret(num, a), b) == NthSecret(num, a + b)
    decreases b
  {
    if b > 0 {
      NthSecretAdd(num, a, b - 1);
    }
  }

  method FindNthSecretNumber(num: Word, n: int) returns (secret: Word)
    ensures secret == NthSecret(num, n)
  {
    secret := num;
    var i := 0;
    while i < n
      invariant 0 <= i && (i <= n || i == 0)
      invariant secret == NthSecret(num, i)
    {
      secret := GenerateNextPseudoRandomNumber(secret);
      i := i + 1;
    }
  }

  /** The value of a word as Go's signed `int`. */
  function Value(w: Word): int {
    if w < 0x8000_0000_0000_0000 then w as int else w as int - 0x1_0000_0000_0000_0000
  }

  /** A word within the mask is a non-negative number below 2^24. */
  lemma SmallValue(w: Word)
    requires w <= 0xFF_FFFF
    ensures 0 <= Value(w) < 0x100_0000
  {
    assert w as bv24 as int == w as int;
  }

  /** The sum of the secrets each buyer has after `n` steps. */
  function SumOfSecrets(nums: seq<Word>, n: int): int {
    if nums == [] then 0
    else SumOfSecrets(nums[..|nums| - 1], n) + Value(NthSecret(nums[|nums| - 1], n))
  }

  /** Part 1: the sum of every buyer's 2000th secret. */
  method SolvePart1(nums: seq<Word>) returns (total: int)
    ensures total == SumOfSecrets(nums, Rounds)
  {
    total := 0;
    for i := 0 to |nums|
      invariant total == SumOfSecrets(nums[..i], Rounds)
    {
      assert nums[..i + 1][..i] == nums[..i];
      var secret := FindNthSecretNumber(nums[i], Rounds);
      total := total + Value(secret);
    }
    assert nums[..|nums|] == nums;
  }

  /** After at least one step every secret is below 2^24, so the sum is bounded by the
      number of buyers. */
  lemma {:induction false} SumOfSecretsBounds(nums: seq<Word>, n: int)
    requires n >= 1
    ensures 0 <= SumOfSecrets(nums, n) <= |nums| * 0xFF_FFFF
  {
    if nums != [] {
      SumOfSecretsBounds(nums[..|nums| - 1], n);
      NthSecretRange(nums[|nums| - 1], n);
      SmallValue(NthSecret(nums[|nums| - 1], n));
    }
  }

  // ----- Prices --------------------------------------------------------------------

  /** The price for a secret: its last digit, with Go's remainder (negative for a
      negative secret). */
  function Price(secret: Word): int {
    Rem(Value(secret), 10)
  }

  /** The price offered after `k` steps. */
  function PriceAt(num: Word, k: int): int {
    Price(NthSecret(num, k))
  }

  /** Prices are digits whenever the secret is not negative, which it never is after the
      first step. */
  lemma PriceIsDigit(num: Word, k: int)
    requires Value(num) >= 0 || k >= 1
    ensures 0 <= PriceAt(num, k) <= 9
  {
    if k >= 1 {
      NthSecretRange(num, k);
      SmallValue(NthSecret(num, k));
    }
    RemBounds(Value(NthSecret(num, k)), 10);
  }

  /** The prices after 0, 1, ..., n steps. */
  function Prices(num: Word, n: int): (prices: seq<int>)
    ensures |prices| == (if n > 0 then n else 0) + 1
    ensures forall k :: 0 <= k < |prices| ==> prices[k] == PriceAt(num, k)
  {
    seq(if n > 0 then n + 1 else 1, k => PriceAt(num, k))
  }

  /** Appending the price after step `i + 1` extends the prices after steps 0..i. */
  lemma PricesStep(prices: seq<int>, num: Word, i: nat, secret: Word)
    requires |prices| == i + 1 && forall k :: 0 <= k <= i ==> prices[k] == PriceAt(num, k)
    requires secret == NthSecret(num, i + 1)
    ensures var p := prices + [Price(secret)];
      |p| == i + 2 && forall k :: 0 <= k <= i + 1 ==> p[k] == PriceAt(num, k)
  {
  }

  /** The first n + 1 prices and the secret after n steps; for n == -1 the loop does not
      run and the one price of the starting secret is returned. A smaller n makes Go's
      `make` panic on a negative capacity. */
  method FindFirstNPricesAndNthSecret(num: Word, n: int) returns (prices: seq<int>, secret: Word)
    requires n >= -1
    ensures prices == Prices(num, n)
    ensures secret == NthSecret(num, n)
  {
    prices := [];
    secret := num;
    prices := prices + [Price(secret)];
    var i := 0;
    while i < n
      invariant 0 <= i && (i <= n || i == 0)
      invariant secret == NthSecret(num, i)
      invariant |prices| == i + 1 && forall k :: 0 <= k <= i ==> prices[k] == PriceAt(num, k)
    {
      secret := GenerateNextPseudoRandomNumber(secret);
      PricesStep(prices, num, i, secret);
      prices := prices + [Price(secret)];
      i := i + 1;
    }
  }

  // ----- Windows of changes --------------------------------------------------------

  /** Four consecutive price changes, the key a monkey sells on. */
  type Changes = c: seq<int> | |c| == 4 witness [0, 0, 0, 0]

  /** The four price changes leading up to index `i + 4` are `changes`. */
  predicate WindowMatches(prices: seq<int>, i: int, changes: Changes)
    requires 0 <= i && i + 4 < |prices|
  {
    forall j :: 0 <= j < 4 ==> prices[i + j + 1] - prices[i + j] == changes[j]
  }

  /** The price at the end of the first matching window starting at `i` or later, or -1. */
  function FirstPriceFrom(prices: seq<int>, changes: Changes, i: nat): int
    decreases |prices| - i
  {
    if i + 4 >= |prices| then -1
    else if WindowMatches(prices, i, changes) then prices[i + 4]
    else FirstPriceFrom(prices, changes, i + 1)
  }

  /** The price a monkey sells at for `changes`: -1 with fewer than five prices, otherwise
      the price ending the first window with those changes, or -1 when there is none. */
  function PriceWithChanges(prices: seq<int>, changes: Changes): int {
    if |prices| < 5 then -1 else FirstPriceFrom(prices, changes, 0)
  }

  /** `i` is the first window with the given changes. */
  ghost predicate FirstWindow(prices: seq<int>, changes: Changes, i: int) {
    0 <= i && i + 4 < |prices| && WindowMatches(prices, i, changes) &&
    forall k :: 0 <= k < i ==> !WindowMatches(prices, k, changes)
  }

  lemma {:induction false} FirstPriceFromMeaning(prices: seq<int>, changes: Changes, i: nat, w: int)
    requires i <= w && FirstWindow(prices, changes, w)
    ensures FirstPriceFrom(prices, changes, i) == prices[w + 4]
    decreases |prices| - i
  {
    if i < w {
      FirstPriceFromMeaning(prices, changes, i + 1, w);
    }
  }

  lemma {:induction false} FirstPriceFromNone(prices: seq<int>, changes: Changes, i: nat)
    requires forall k :: i <= k && k + 4 < |prices| ==> !WindowMatches(prices, k, changes)
    ensures FirstPriceFrom(prices, changes, i) == -1
    decreases |prices| - i
  {
    if i + 4 < |prices| {
      FirstPriceFromNone(prices, changes, i + 1);
    }
  }

  /** The price is the one ending the first matching window, and -1 exactly when no
      window matches (with prices that are never -1). */
  lemma PriceWithChangesMeaning(prices: seq<int>, changes: Changes)
    ensures forall w :: FirstWindow(prices, changes, w) ==> PriceWithChanges(prices, changes) == prices[w + 4]
    ensures (forall k :: 0 <= k && k + 4 < |prices| ==> !WindowMatches(prices, k, changes)) ==>
      PriceWithChanges(prices, changes) == -1
  {
    forall w | FirstWindow(prices, changes, w)
      ensures PriceWithChanges(prices, changes) == prices[w + 4]
    {
      FirstPriceFromMeaning(prices, changes, 0, w);
    }
    if forall k :: 0 <= k && k + 4 < |prices| ==> !WindowMatches(prices, k, changes) {
      FirstPriceFromNone(prices, changes, 0);
    }
  }

  /** Some window matches exactly when there is a first one. */
  lemma {:induction false} SomeWindowHasFirst(prices: seq<int>, changes: Changes, k: int)
    requires 0 <= k && k + 4 < |prices| && WindowMatches(prices, k, changes)
    ensures exists w :: FirstWindow(prices, changes, w)
    decreases k
  {
    if forall k' :: 0 <= k' < k ==> !WindowMatches(prices, k', changes) {
      assert FirstWindow(prices, changes, k);
    } else {
      var k' :| 0 <= k' < k && WindowMatches(prices, k', changes);
      SomeWindowHasFirst(prices, changes, k');
    }
  }

  method FindThePriceWithChanges(prices: seq<int>, changes: Changes) returns (r: int)
    ensures r == PriceWithChanges(prices, changes)
  {
    if |prices| < 5 {
      return -1;
    }
    var i := 0;
    while i < |prices| - 4
      invariant 0 <= i <= |prices| - 4
      invariant FirstPriceFrom(prices, changes, i) == PriceWithChanges(prices, changes)
    {
      var found := true;
      var j := 0;
      while j < 4
        invariant 0 <= j <= 4
        invariant forall j' :: 0 <= j' < j ==> prices[i + j' + 1] - prices[i + j'] == changes[j']
      {
        if prices[i + j + 1] - prices[i + j] != changes[j] {
          found := false;
          break;
        }
        j := j + 1;
      }
      assert found <==> WindowMatches(prices, i, changes);
      if found {
        return prices[i + 4];
      }
      i := i + 1;
    }
    return -1;
  }

  /** The test example: after 3 0 6 5 4 4 6 4 4 2 the changes -1 -1 0 2 first end at the
      price 6, and -1 -1 0 3 never occur. */
  lemma PriceExamples()
    ensures PriceWithChanges([3, 0, 6, 5, 4, 4, 6, 4, 4, 2], [-1, -1, 0, 2]) == 6
    ensures PriceWithChanges([3, 0, 6, 5, 4, 4, 6, 4, 4, 2], [-1, -1, 0, 3]) == -1
  {
    var prices := [3, 0, 6, 5, 4, 4, 6, 4, 4, 2];
    var found: Changes := [-1, -1, 0, 2];
    var missing: Changes := [-1, -1, 0, 3];
    assert !WindowMatches(prices, 0, found) by {
      assert prices[1] - prices[0] != found[0];
    }
    assert !WindowMatches(prices, 1, found) by {
      assert prices[2] - prices[1] != found[0];
    }
    assert WindowMatches(prices, 2, found);
    assert FirstPriceFrom(prices, found, 2) == 6;
    forall k | 0 <= k && k + 4 < |prices|
      ensures !WindowMatches(prices, k, missing)
    {
      assert prices[k + 4] - prices[k + 3] != missing[3] by {
        assert k == 0 || k == 1 || k == 2 || k == 3 || k == 4 || k == 5;
      }
    }
    FirstPriceFromNone(prices, missing, 0);
  }

  // ----- Totals over all buyers ----------------------------------------------------

  /** The bananas bought with `changes`: the sum of every buyer's price, skipping buyers
      for whom the changes never occur. */
  function TotalOf(pricesList: seq<seq<int>>, changes: Changes): int {
    if pricesList == [] then 0
    else
      var price := PriceWithChanges(pricesList[|pricesList| - 1], changes);
      TotalOf(pricesList[..|pricesList| - 1], changes) + (if price != -1 then price else 0)
  }

  /** With prices that are digits the total is between 0 and 9 per buyer. */
  lemma {:induction false} TotalOfBounds(pricesList: seq<seq<int>>, changes: Changes)
    requires forall b, k :: 0 <= b < |pricesList| && 0 <= k < |pricesList[b]| ==> 0 <= pricesList[b][k] <= 9
    ensures 0 <= TotalOf(pricesList, changes) <= 9 * |pricesList|
  {
    if pricesList != [] {
      var last := pricesList[|pricesList| - 1];
      TotalOfBounds(pricesList[..|pricesList| - 1], changes);
      if |last| >= 5 {
        FirstPriceFromInRange(last, changes, 0);
      }
    }
  }

  lemma {:induction false} FirstPriceFromInRange(prices: seq<int>, changes: Changes, i: nat)
    requires forall k :: 0 <= k < |prices| ==> 0 <= prices[k] <= 9
    ensures FirstPriceFrom(prices, changes, i) == -1 || 0 <= FirstPriceFrom(prices, changes, i) <= 9
    decreases |prices| - i
  {
    if i + 4 < |prices| && !WindowMatches(prices, i, changes) {
      FirstPriceFromInRange(prices, changes, i + 1);
    }
  }

  /** The total-of-prices function with its cache: a total, once computed for some
      changes, is stored and returned from then on. */
  class TotalOfPrices {
    const pricesList: seq<seq<int>>
    var cache: map<Changes, int>

    /** Every cached total is the recomputed total. */
    ghost predicate Valid()
      reads this
    {
      forall c :: c in cache ==> cache[c] == TotalOf(pricesList, c)
    }

    /** The function over `pricesList`, with an empty cache. */
    constructor (pricesList: seq<seq<int>>)
      ensures this.pricesList == pricesList && cache == map[] && Valid()
    {
      this.pricesList := pricesList;
      cache := map[];
    }

    /** The total for `changes`, from the cache or computed and then cached. */
    method Get(changes: Changes) returns (total: int)
      requires Valid()
      modifies this
      ensures Valid() && total == TotalOf(pricesList, changes)
      ensures changes in cache && old(cache).Keys <= cache.Keys
    {
      if changes in cache {
        return cache[changes];
      }
      total := 0;
      for b := 0 to |pricesList|
        invariant total == TotalOf(pricesList[..b], changes)
        invariant cache == old(cache)
      {
        assert pricesList[..b + 1][..b] == pricesList[..b];
        var priceFound := FindThePriceWithChanges(pricesList[b], changes);
        if priceFound != -1 {
          total := total + priceFound;
        }
      }
      assert pricesList[..|pricesList|] == pricesList;
      cache := cache[changes := total];
    }
  }

  // ----- Part 2 --------------------------------------------------------------------

  /** The four changes leading up to index `i + 4`. */
  function Window(prices: seq<int>, i: int): (c: Changes)
    requires 0 <= i && i + 4 < |prices|
    ensures WindowMatches(prices, i, c)
  {
    [prices[i + 1] - prices[i], prices[i + 2] - prices[i + 1],
     prices[i + 3] - prices[i + 2], prices[i + 4] - prices[i + 3]]
  }

  /** The changes of a window are determined by the prices. */
  lemma WindowUnique(prices: seq<int>, i: int, c: Changes)
    requires 0 <= i && i + 4 < |prices|
    requires WindowMatches(prices, i, c)
    ensures c == Window(prices, i)
  {
    var w := Window(prices, i);
    forall j | 0 <= j < 4
      ensures c[j] == w[j]
    {
      assert prices[i + j + 1] - prices[i + j] == c[j];
    }
  }

  /** Every buyer's prices for `Rounds` steps. */
  function PricesList(nums: seq<Word>): (r: seq<seq<int>>)
    ensures |r| == |nums| && forall b :: 0 <= b < |r| ==> r[b] == Prices(nums[b], Rounds)
  {
    seq(|nums|, b requires 0 <= b < |nums| => Prices(nums[b], Rounds))
  }

  /** Window `i` of buyer `b` comes before position (`l`, `n`) of the scan. */
  predicate Before(pricesList: seq<seq<int>>, b: int, i: int, l: int, n: int) {
    0 <= b < |pricesList| && 0 <= i && i + 4 < |pricesList[b]| && (b < l || (b == l && i < n))
  }

  /** `m` is at least the total of every window seen so far, and is 0 or one of them. */
  ghost predicate BestSoFar(pricesList: seq<seq<int>>, m: int, l: int, n: int) {
    m >= 0 &&
    (forall b, i :: Before(pricesList, b, i, l, n) ==> m >= TotalOf(pricesList, Window(pricesList[b], i))) &&
    (m == 0 || exists b, i :: Before(pricesList, b, i, l, n) && m == TotalOf(pricesList, Window(pricesList[b], i)))
  }

  /** Taking the larger of `m` and the total of window `n` of buyer `l` moves the scan on. */
  lemma BestStep(pricesList: seq<seq<int>>, m: int, l: int, n: int, total: int)
    requires BestSoFar(pricesList, m, l, n)
    requires 0 <= l < |pricesList| && 0 <= n && n + 4 < |pricesList[l]|
    requires total == TotalOf(pricesList, Window(pricesList[l], n))
    ensures BestSoFar(pricesList, if total > m then total else m, l, n + 1)
  {
    var m' := if total > m then total else m;
    forall b, i | Before(pricesList, b, i, l, n + 1)
      ensures m' >= TotalOf(pricesList, Window(pricesList[b], i))
    {
      if !(b == l && i == n) {
        assert Before(pricesList, b, i, l, n);
      }
    }
    if m' != 0 {
      if total > m {
        assert Before(pricesList, l, n, l, n + 1);
      } else {
        var b, i :| Before(pricesList, b, i, l, n) && m == TotalOf(pricesList, Window(pricesList[b], i));
        assert Before(pricesList, b, i, l, n + 1);
      }
    }
  }

  /** Once every window of buyer `l` is seen the scan moves to the next buyer. */
  lemma BestNextBuyer(pricesList: seq<seq<int>>, m: int, l: int, n: int)
    requires BestSoFar(pricesList, m, l, n)
    requires 0 <= l < |pricesList| && n + 4 >= |pricesList[l]|
    ensures BestSoFar(pricesList, m, l + 1, 0)
  {
    forall b, i | Before(pricesList, b, i, l + 1, 0)
      ensures m >= TotalOf(pricesList, Window(pricesList[b], i))
    {
      assert Before(pricesList, b, i, l, n);
    }
    if m != 0 {
      var b, i :| Before(pricesList, b, i, l, n) && m == TotalOf(pricesList, Window(pricesList[b], i));
      assert Before(pricesList, b, i, l + 1, 0);
    }
  }

  /** Once every buyer is seen, `m` is the best total of any window, or 0. */
  lemma BestDone(pricesList: seq<seq<int>>, m: int)
    requires BestSoFar(pricesList, m, |pricesList|, 0)
    ensures m >= 0
    ensures forall b, i :: 0 <= b < |pricesList| && 0 <= i && i + 4 < |pricesList[b]| ==>
      m >= TotalOf(pricesList, Window(pricesList[b], i))
    ensures m == 0 ||
      exists b, i :: 0 <= b < |pricesList| && 0 <= i && i + 4 < |pricesList[b]| &&
        m == TotalOf(pricesList, Window(pricesList[b], i))
  {
    forall b, i | 0 <= b < |pricesList| && 0 <= i && i + 4 < |pricesList[b]|
      ensures m >= TotalOf(pricesList, Window(pricesList[b], i))
    {
      assert Before(pricesList, b, i, |pricesList|, 0);
    }
  }

  /** Every buyer's prices for `Rounds` steps, buyer by buyer. */
  method ListPrices(nums: seq<Word>) returns (pricesList: seq<seq<int>>)
    ensures pricesList == PricesList(nums)
  {
    pricesList := [];
    for b := 0 to |nums|
      invariant |pricesList| == b && forall k :: 0 <= k < b ==> pricesList[k] == Prices(nums[k], Rounds)
    {
      var prices, _ := FindFirstNPricesAndNthSecret(nums[b], Rounds);
      pricesList := pricesList + [prices];
    }
  }

  /** Overwrites the four entries of `changes` with the changes of window `i`. */
  method FillChanges(changes: Changes, prices: seq<int>, i: int) returns (c: Changes)
    requires 0 <= i && i + 4 < |prices|
    ensures c == Window(prices, i)
  {
    c := changes;
    for j := 0 to 4
      invariant forall j' :: 0 <= j' < j ==> c[j'] == prices[i + j' + 1] - prices[i + j']
    {
      c := c[j := prices[i + j + 1] - prices[i + j]];
    }
    WindowUnique(prices, i, c);
  }

  /** The scan over the windows of buyer `l`: `m` is raised to every window's total. */
  method ScanBuyer(totals: TotalOfPrices, l: int, maxPrice: int, changes: Changes)
    returns (m: int, last: Changes)
    requires totals.Valid() && 0 <= l < |totals.pricesList|
    requires BestSoFar(totals.pricesList, maxPrice, l, 0)
    modifies totals
    ensures totals.Valid() && BestSoFar(totals.pricesList, m, l + 1, 0)
  {
    var prices := totals.pricesList[l];
    m, last := maxPrice, changes;
    var i := 0;
    while i < |prices| - 4
      invariant 0 <= i && (i <= |prices| - 4 || i == 0)
      invariant totals.Valid() && BestSoFar(totals.pricesList, m, l, i)
    {
      last := FillChanges(last, prices, i);
      var total := totals.Get(last);
      BestStep(totals.pricesList, m, l, i, total);
      if total > m {
        m := total;
      }
      i := i + 1;
    }
    BestNextBuyer(totals.pricesList, m, l, i);
  }

  /** Part 2: the largest total over the changes of every window any buyer shows, or 0. */
  method SolvePart2(nums: seq<Word>) returns (maxPrice: int)
    ensures maxPrice >= 0
    ensures forall b, i :: 0 <= b < |nums| && 0 <= i && i + 4 < |PricesList(nums)[b]| ==>
      maxPrice >= TotalOf(PricesList(nums), Window(PricesList(nums)[b], i))
    ensures maxPrice == 0 ||
      exists b, i :: 0 <= b < |nums| && 0 <= i && i + 4 < |PricesList(nums)[b]| &&
        maxPrice == TotalOf(PricesList(nums), Window(PricesList(nums)[b], i))
  {
    var pricesList := ListPrices(nums);
    maxPrice := 0;
    var priceWithChangesFn := new TotalOfPrices(pricesList);
    var changes: Changes := [0, 0, 0, 0];
    for l := 0 to |pricesList|
      invariant priceWithChangesFn.Valid() && priceWithChangesFn.pricesList == pricesList
      invariant BestSoFar(pricesList, maxPrice, l, 0)
    {
      maxPrice, changes := ScanBuyer(priceWithChangesFn, l, maxPrice, changes);
    }
    BestDone(pricesList, maxPrice);
  }
}
