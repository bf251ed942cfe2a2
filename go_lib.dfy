/** The parts of Go's standard library that the solvers rely on: truncating integer
    division, `strings.Split`, `strings.Cut`, `strings.HasPrefix`, `strings.CutPrefix`,
    `strconv.ParseInt` in base 10 and decimal formatting (`fmt.Sprint` / `%d`).
    Strings are sequences of characters; the puzzle inputs are ASCII, so one character
    stands for one byte and byte offsets coincide with character indices. */
module GoLib {

  /** A value that may be absent: a `nil` reference or a `(value, ok)` pair. */
  datatype Option<T> = None | Some(value: T)

  // ---------------------------------------------------------------------------
  // Integers
  // ---------------------------------------------------------------------------

  /** Absolute value. */
  function Abs(x: int): (r: nat)
    ensures r == x || r == -x
  {
    if x < 0 then -x else x
  }

  /** Go's `a / b`: the quotient truncated toward zero. */
  function Quot(a: int, b: int): int
    requires b != 0
  {
    if a >= 0 then (if b > 0 then a / b else -(a / -b))
    else (if b > 0 then -((-a) / b) else (-a) / (-b))
  }

  /** Go's `a % b`: the remainder that goes with the truncated quotient, so that
      `a == b * Quot(a, b) + Rem(a, b)`. */
  function Rem(a: int, b: int): int
    requires b != 0
  {
    a - b * Quot(a, b)
  }

  /** The remainder of truncated division is smaller than the divisor in magnitude and
      carries the sign of the dividend. */
  lemma RemBounds(a: int, b: int)
    requires b != 0
    ensures Abs(Rem(a, b)) < Abs(b)
    ensures a >= 0 ==> 0 <= Rem(a, b)
    ensures a <= 0 ==> Rem(a, b) <= 0
  {
    if a >= 0 {
      if b > 0 {
        assert Rem(a, b) == a % b;
      } else {
        assert Rem(a, b) == a % -b;
      }
    } else {
      if b > 0 {
        assert Rem(a, b) == -((-a) % b);
      } else {
        assert Rem(a, b) == -((-a) % -b);
      }
    }
  }

  /** Truncated and Euclidean division agree on whether `b` divides `a`, and on the
      quotient when it does. */
  lemma RemZeroIffDivides(a: int, b: int)
    requires b != 0
    ensures Rem(a, b) == 0 <==> a % b == 0
    ensures Rem(a, b) == 0 ==> Quot(a, b) == a / b && a == b * Quot(a, b)
  {
    RemBounds(a, b);
    if Rem(a, b) == 0 {
      DivExact(a, b, Quot(a, b));
    } else if a % b == 0 {
      var q := a / b;
      assert a == b * q;
      assert b * (q - Quot(a, b)) == Rem(a, b) by {
        assert b * (q - Quot(a, b)) == b * q - b * Quot(a, b);
      }
      MultipleBelowDivisor(b, q - Quot(a, b), Rem(a, b));
    }
  }

  /** If `b * q == a` then Euclidean division recovers `q` exactly. */
  lemma DivExact(a: int, b: int, q: int)
    requires b != 0 && a == b * q
    ensures a % b == 0 && a / b == q
  {
    var q', r' := a / b, a % b;
    assert a == b * q' + r' && 0 <= r' < Abs(b);
    assert b * (q - q') == r' by {
      assert b * (q - q') == b * q - b * q';
    }
    MultipleBelowDivisor(b, q - q', r');
  }

  /** A multiple of `b` smaller than `b` in magnitude is zero. */
  lemma MultipleBelowDivisor(b: int, k: int, r: int)
    requires b != 0 && b * k == r && Abs(r) < Abs(b)
    ensures k == 0 && r == 0
  {
    if k != 0 {
      MulAtLeast(Abs(b), Abs(k));
      assert Abs(b) * Abs(k) == Abs(r) by { AbsMul(b, k); }
    }
  }

  lemma MulAtLeast(x: nat, y: nat)
    requires y >= 1
    ensures x * y >= x
  {
    assert x * y == x + x * (y - 1);
  }

  lemma AbsMul(x: int, y: int)
    ensures Abs(x * y) == Abs(x) * Abs(y)
  {
    if x < 0 && y < 0 {
      assert x * y == (-x) * (-y);
    } else if x < 0 {
      assert x * y == -((-x) * y);
    } else if y < 0 {
      assert x * y == -(x * (-y));
    }
  }

  /** `10^n`. */
  function Pow10(n: nat): (r: nat)
    ensures r >= 1
  {
    if n == 0 then 1 else 10 * Pow10(n - 1)
  }

  lemma Pow10Add(m: nat, n: nat)
    ensures Pow10(m + n) == Pow10(m) * Pow10(n)
  {
    if m > 0 {
      Pow10Add(m - 1, n);
    }
  }

  // ---------------------------------------------------------------------------
  // Decimal digits and formatting
  // ---------------------------------------------------------------------------

  predicate IsDigit(c: char) {
    '0' <= c <= '9'
  }

  function DigitValue(c: char): (d: nat)
    requires IsDigit(c)
    ensures d < 10
  {
    (c as int) - ('0' as int)
  }

  function DigitChar(d: nat): (c: char)
    requires d < 10
    ensures IsDigit(c) && DigitValue(c) == d
  {
    (('0' as int) + d) as char
  }

  predicate AllDigits(s: string) {
    forall i :: 0 <= i < |s| ==> IsDigit(s[i])
  }

  /** The value of a string of decimal digits, read most significant digit first. */
  function DigitsValue(s: string): (v: nat)
    requires AllDigits(s)
    ensures v < Pow10(|s|)
  {
    if s == [] then 0 else DigitsValue(s[..|s| - 1]) * 10 + DigitValue(s[|s| - 1])
  }

  /** The canonical decimal digits of a natural number: no leading zero, "0" for zero. */
  function NatToString(n: nat): (s: string)
    ensures |s| >= 1 && AllDigits(s)
    ensures |s| > 1 ==> s[0] != '0'
  {
    if n < 10 then [DigitChar(n)] else NatToString(n / 10) + [DigitChar(n % 10)]
  }

  /** `fmt.Sprint(n)`, `strconv.Itoa(n)`, `%d`: decimal, with '-' for negatives. */
  function Itoa(n: int): (s: string)
    ensures |s| >= 1
  {
    if n < 0 then "-" + NatToString(-n) else NatToString(n)
  }

  /** Reading back the canonical digits of `n` gives `n`. */
  lemma {:induction false} DigitsValueOfNatToString(n: nat)
    ensures DigitsValue(NatToString(n)) == n
  {
    if n >= 10 {
      DigitsValueOfNatToString(n / 10);
      var s := NatToString(n);
      assert s[..|s| - 1] == NatToString(n / 10);
    }
  }

  /** Two naturals with the same canonical digits are equal. */
  lemma NatToStringInjective(m: nat, n: nat)
    requires NatToString(m) == NatToString(n)
    ensures m == n
  {
    DigitsValueOfNatToString(m);
    DigitsValueOfNatToString(n);
  }

  /** A number has exactly `k` decimal digits when it lies in `[10^(k-1), 10^k)`. */
  lemma {:induction false} NatToStringLength(n: nat, k: nat)
    requires k >= 1
    ensures |NatToString(n)| == k <==> (k == 1 || Pow10(k - 1) <= n) && n < Pow10(k)
  {
    if n >= 10 && k >= 2 {
      NatToStringLength(n / 10, k - 1);
    } else if n >= 10 && k == 1 {
      assert |NatToString(n)| >= 2;
    } else if n < 10 && k >= 2 {
      assert Pow10(k - 1) >= 10 by { Pow10Add(1, k - 2); }
    }
  }

  // ---------------------------------------------------------------------------
  // strconv.ParseInt(s, 10, bitSize)
  // ---------------------------------------------------------------------------

  /** What `strconv.ParseInt(s, 10, bitSize)` returns: the value and whether `err == nil`.
      On a syntax error the value is 0; when the number does not fit in `bitSize` bits it
      is clamped to the nearest end of the range and `ok` is false. */
  datatype Parsed = Parsed(value: int, ok: bool)

  /** The bit sizes the solvers pass to `strconv.ParseInt`. */
  predicate SupportedBitSize(bitSize: nat) {
    bitSize == 8 || bitSize == 32 || bitSize == 64
  }

  /** The largest and the smallest value of a `bitSize`-bit signed integer. */
  function MaxSigned(bitSize: nat): (m: int)
    requires SupportedBitSize(bitSize)
    ensures m >= 127
  {
    if bitSize == 8 then 0x7F else if bitSize == 32 then 0x7FFF_FFFF else 0x7FFF_FFFF_FFFF_FFFF
  }

  function MinSigned(bitSize: nat): (m: int)
    requires SupportedBitSize(bitSize)
    ensures m == -MaxSigned(bitSize) - 1
  {
    if bitSize == 8 then -0x80 else if bitSize == 32 then -0x8000_0000 else -0x8000_0000_0000_0000
  }

  function ParseInt(s: string, bitSize: nat): (p: Parsed)
    requires SupportedBitSize(bitSize)
    ensures p.ok ==> MinSigned(bitSize) <= p.value <= MaxSigned(bitSize)
  {
    var neg := |s| > 0 && s[0] == '-';
    var body := if |s| > 0 && (s[0] == '-' || s[0] == '+') then s[1..] else s;
    if body == [] || !AllDigits(body) then Parsed(0, false)
    else
      var v: int := if neg then 0 - DigitsValue(body) else DigitsValue(body);
      if v > MaxSigned(bitSize) then Parsed(MaxSigned(bitSize), false)
      else if v < MinSigned(bitSize) then Parsed(MinSigned(bitSize), false)
      else Parsed(v, true)
  }

  /** Parsing the decimal rendering of an in-range number gives the number back. */
  lemma ParseIntItoa(n: int, bitSize: nat)
    requires SupportedBitSize(bitSize)
    requires MinSigned(bitSize) <= n <= MaxSigned(bitSize)
    ensures ParseInt(Itoa(n), bitSize) == Parsed(n, true)
  {
    var s := Itoa(n);
    if n < 0 {
      var digits := NatToString(-n);
      assert s == "-" + digits;
      assert s[0] == '-' && s[1..] == digits;
      DigitsValueOfNatToString(-n);
      assert ParseInt(s, bitSize) == Parsed(0 - DigitsValue(digits), true);
    } else {
      assert s == NatToString(n);
      assert IsDigit(s[0]) && s[0] != '-' && s[0] != '+';
      DigitsValueOfNatToString(n);
      assert ParseInt(s, bitSize) == Parsed(DigitsValue(s), true);
    }
  }

  /** A single character, as `strconv.ParseInt(line[j:j+1], 10, 8)` reads it: a digit gives
      its value; any other character is a syntax error. */
  lemma ParseIntOneChar(c: char)
    ensures ParseInt([c], 8) == if IsDigit(c) then Parsed(DigitValue(c), true) else Parsed(0, false)
  {
    if IsDigit(c) {
      assert DigitsValue([c]) == DigitValue(c) by {
        assert [c][..0] == [];
      }
    }
  }

  // ---------------------------------------------------------------------------
  // strings
  // ---------------------------------------------------------------------------

  /** `slices.Index(s, x)`: the first position holding `x`, or -1 when there is none. */
  function Index<T(==)>(s: seq<T>, x: T): (k: int)
    ensures -1 <= k < |s|
    ensures k == -1 <==> x !in s
    ensures k >= 0 ==> s[k] == x && x !in s[..k]
  {
    if s == [] then -1
    else if s[0] == x then 0
    else
      var k := Index(s[1..], x);
      assert s[1..] == s[..|s|][1..];
      if k == -1 then -1
      else
        assert s[..k + 1] == [s[0]] + s[1..][..k];
        k + 1
  }

  /** `strings.HasPrefix(s, prefix)`. */
  predicate HasPrefix(s: string, prefix: string) {
    |prefix| <= |s| && s[..|prefix|] == prefix
  }

  /** Whether `sub` occurs in `s` starting at index `k`. */
  predicate OccursAt(s: string, sub: string, k: int) {
    0 <= k && k + |sub| <= |s| && s[k..k + |sub|] == sub
  }

  /** `strings.Index(s, sub)` for a non-empty `sub`, searching from `from`: the first index
      at which `sub` occurs, or -1. */
  function IndexFrom(s: string, sub: string, from: nat): (k: int)
    requires |sub| > 0 && from <= |s|
    ensures k == -1 || (from <= k && OccursAt(s, sub, k))
    ensures forall j :: from <= j && (k == -1 || j < k) ==> !OccursAt(s, sub, j)
    decreases |s| - from
  {
    if from + |sub| > |s| then -1
    else if s[from..from + |sub|] == sub then from
    else IndexFrom(s, sub, from + 1)
  }

  /** `strings.Cut(s, sep)`: the text before and after the first occurrence of `sep`, and
      whether it occurs; `(s, "", false)` when it does not. */
  function Cut(s: string, sep: string): (r: (string, string, bool))
    requires |sep| > 0
    ensures r.2 ==> s == r.0 + sep + r.1
    ensures r.2 ==> forall j :: 0 <= j < |r.0| ==> !OccursAt(s, sep, j)
    ensures !r.2 ==> r == (s, "", false) && forall j :: 0 <= j ==> !OccursAt(s, sep, j)
  {
    var k := IndexFrom(s, sep, 0);
    if k < 0 then (s, "", false)
    else
      assert s == s[..k] + s[k..k + |sep|] + s[k + |sep|..];
      (s[..k], s[k + |sep|..], true)
  }

  /** `strings.CutPrefix(s, prefix)`. */
  function CutPrefix(s: string, prefix: string): (r: (string, bool))
    ensures r.1 == HasPrefix(s, prefix)
    ensures r.1 ==> s == prefix + r.0
    ensures !r.1 ==> r.0 == s
  {
    if HasPrefix(s, prefix) then
      assert s == s[..|prefix|] + s[|prefix|..];
      (s[|prefix|..], true)
    else (s, false)
  }

  /** `strings.Split(s, string(sep))` for a one-character separator: the pieces between the
      separators, always at least one (`Split("", sep) == [""]`). */
  function Split(s: string, sep: char): (parts: seq<string>)
    ensures |parts| >= 1
  {
    SplitFrom(s, sep, "")
  }

  /** Splitting `s` when the piece in progress already holds `cur`. */
  function SplitFrom(s: string, sep: char, cur: string): (parts: seq<string>)
    ensures |parts| >= 1
  {
    if s == [] then [cur]
    else if s[0] == sep then [cur] + SplitFrom(s[1..], sep, "")
    else SplitFrom(s[1..], sep, cur + [s[0]])
  }

  /** `strings.Join(parts, string(sep))`. */
  function Join(parts: seq<string>, sep: char): string {
    if parts == [] then ""
    else if |parts| == 1 then parts[0]
    else parts[0] + [sep] + Join(parts[1..], sep)
  }

  lemma {:induction false} JoinSplitFrom(s: string, sep: char, cur: string)
    ensures Join(SplitFrom(s, sep, cur), sep) == cur + s
    decreases |s|
  {
    if s == [] {
    } else if s[0] == sep {
      JoinSplitFrom(s[1..], sep, "");
      assert s == [sep] + s[1..];
    } else {
      JoinSplitFrom(s[1..], sep, cur + [s[0]]);
      assert cur + s == cur + [s[0]] + s[1..];
    }
  }

  /** Splitting and joining again restores the text: the pieces cover the whole input. */
  lemma JoinSplit(s: string, sep: char)
    ensures Join(Split(s, sep), sep) == s
  {
    JoinSplitFrom(s, sep, "");
  }

  lemma {:induction false} SplitFromPieces(s: string, sep: char, cur: string)
    requires sep !in cur
    ensures forall i :: 0 <= i < |SplitFrom(s, sep, cur)| ==> sep !in SplitFrom(s, sep, cur)[i]
    decreases |s|
  {
    if s == [] {
    } else if s[0] == sep {
      SplitFromPieces(s[1..], sep, "");
    } else {
      SplitFromPieces(s[1..], sep, cur + [s[0]]);
    }
  }

  /** No piece contains the separator. */
  lemma SplitPieces(s: string, sep: char)
    ensures forall i :: 0 <= i < |Split(s, sep)| ==> sep !in Split(s, sep)[i]
  {
    SplitFromPieces(s, sep, "");
  }

  lemma {:induction false} SplitFromNoSeparator(s: string, sep: char, cur: string)
    requires sep !in s
    ensures SplitFrom(s, sep, cur) == [cur + s]
    decreases |s|
  {
    if s != [] {
      assert s[0] != sep by { assert s[0] in s; }
      SplitFromNoSeparator(s[1..], sep, cur + [s[0]]);
      assert cur + s == cur + [s[0]] + s[1..];
    } else {
      assert cur + s == cur;
    }
  }

  /** A text without the separator is a single piece. */
  lemma SplitNoSeparator(s: string, sep: char)
    requires sep !in s
    ensures Split(s, sep) == [s]
  {
    SplitFromNoSeparator(s, sep, "");
    assert "" + s == s;
  }

  lemma {:induction false} SplitFromCount(s: string, sep: char, cur: string)
    ensures |SplitFrom(s, sep, cur)| == multiset(s)[sep] + 1
    decreases |s|
  {
    if s != [] {
      assert s == [s[0]] + s[1..];
      assert multiset(s) == multiset{s[0]} + multiset(s[1..]);
      if s[0] == sep {
        SplitFromCount(s[1..], sep, "");
      } else {
        SplitFromCount(s[1..], sep, cur + [s[0]]);
      }
    }
  }

  /** The number of pieces is one more than the number of separators. */
  lemma SplitCount(s: string, sep: char)
    ensures |Split(s, sep)| == multiset(s)[sep] + 1
  {
    SplitFromCount(s, sep, "");
  }

  lemma {:induction false} SplitFromFirst(x: string, sep: char, y: string, cur: string)
    requires sep !in x
    ensures SplitFrom(x + [sep] + y, sep, cur) == [cur + x] + Split(y, sep)
    decreases |x|
  {
    var s := x + [sep] + y;
    if x == [] {
      assert s == [sep] + y;
      assert s[1..] == y;
      assert cur + x == cur;
    } else {
      assert x[0] != sep by { assert x[0] in x; }
      assert s[0] == x[0] && s[1..] == x[1..] + [sep] + y;
      SplitFromFirst(x[1..], sep, y, cur + [x[0]]);
      assert cur + [x[0]] + x[1..] == cur + x;
    }
  }

  /** A piece that ends at the first separator comes out first. */
  lemma SplitFirst(x: string, sep: char, y: string)
    requires sep !in x
    ensures Split(x + [sep] + y, sep) == [x] + Split(y, sep)
  {
    SplitFromFirst(x, sep, y, "");
    assert "" + x == x;
  }

  lemma {:induction false} SplitFromLast(x: string, sep: char, y: string, cur: string)
    requires sep !in y
    ensures SplitFrom(x + [sep] + y, sep, cur)[|SplitFrom(x + [sep] + y, sep, cur)| - 1] == y
    decreases |x|
  {
    var s := x + [sep] + y;
    if x == [] {
      assert s == [sep] + y;
      assert s[1..] == y;
      SplitFromNoSeparator(y, sep, "");
    } else {
      assert s[0] == x[0] && s[1..] == x[1..] + [sep] + y;
      if x[0] == sep {
        SplitFromLast(x[1..], sep, y, "");
      } else {
        SplitFromLast(x[1..], sep, y, cur + [x[0]]);
      }
    }
  }

  /** A piece that starts after the last separator comes out last. */
  lemma SplitLast(x: string, sep: char, y: string)
    requires sep !in y
    ensures Split(x + [sep] + y, sep)[|Split(x + [sep] + y, sep)| - 1] == y
  {
    SplitFromLast(x, sep, y, "");
  }

  /** The decimal rendering of a number uses only digits and a leading '-'. */
  lemma ItoaChars(n: int)
    ensures forall i :: 0 <= i < |Itoa(n)| ==> IsDigit(Itoa(n)[i]) || (i == 0 && Itoa(n)[i] == '-')
  {
  }
}
