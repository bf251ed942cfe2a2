/** Day 3: corrupted memory holding `mul(a,b)` instructions. Part 1 adds up the products of
    the well-formed instructions; part 2 switches counting off after `don't()` and on again
    after `do()`. */
module Day03 {
  import opened GoLib

  /** The longest prefix of `s` made of decimal digits. */
  function DigitRun(s: string): (d: string)
    ensures AllDigits(d) && HasPrefix(s, d)
    ensures |d| == |s| || !IsDigit(s[|d|])
  {
    if s == [] || !IsDigit(s[0]) then []
    else [s[0]] + DigitRun(s[1..])
  }

  /** A digit run that is followed by a non-digit is exactly the digits before it. */
  lemma {:induction false} DigitRunBefore(s: string, d: string, c: char)
    requires AllDigits(d) && !IsDigit(c) && HasPrefix(s, d + [c])
    ensures DigitRun(s) == d
  {
    if d == [] {
      assert s[0] == c;
    } else {
      assert s[0] == d[0];
      assert HasPrefix(s[1..], d[1..] + [c]) by {
        assert s[1..][..|d[1..] + [c]|] == s[..|d + [c]|][1..];
      }
      DigitRunBefore(s[1..], d[1..], c);
    }
  }

  /** The text of a well-formed instruction. */
  function MulCall(a: nat, b: nat): string {
    "mul(" + Itoa(a) + "," + Itoa(b) + ")"
  }

  /** One operand at the start of `s`, followed by `terminator`: the operand's value and
      the text after the terminator. The operand must be a canonical decimal (no sign, no
      space, no leading zero) below 1000. */
  function ParseOperand(s: string, terminator: char): Option<(nat, string)> {
    var d := DigitRun(s);
    if |d| == 0 || |d| == |s| || s[|d|] != terminator then None
    else
      var a := DigitsValue(d);
      if a >= 1000 || NatToString(a) != d then None else Some((a, s[|d| + 1..]))
  }

  lemma ParseOperandComplete(a: nat, terminator: char, rest: string)
    requires a < 1000 && !IsDigit(terminator)
    ensures ParseOperand(NatToString(a) + [terminator] + rest, terminator) == Some((a, rest))
  {
    var d, s := NatToString(a), NatToString(a) + [terminator] + rest;
    DigitRunBefore(s, d, terminator);
    assert s[|d|] == terminator && s[|d| + 1..] == rest;
    DigitsValueOfNatToString(a);
  }

  lemma ParseOperandSound(s: string, terminator: char)
    requires ParseOperand(s, terminator).Some?
    ensures var (a, rest) := ParseOperand(s, terminator).value;
      a < 1000 && s == NatToString(a) + [terminator] + rest
  {
    var d := DigitRun(s);
    assert s == s[..|d|] + [s[|d|]] + s[|d| + 1..];
  }

  /** The value of the instruction at the start of `text`, or 0 when there is none. */
  function GetMulValueIfStartsWith(text: string): (v: nat)
    ensures !HasPrefix(text, "mul(") ==> v == 0
  {
    if !HasPrefix(text, "mul(") then 0
    else match ParseOperand(text[4..], ',')
      case None => 0
      case Some((a, rest)) =>
        match ParseOperand(rest, ')')
        case None => 0
        case Some((b, _)) => a * b
  }

  /** Every well-formed instruction with operands below 1000 is recognised, and is worth
      the product of its operands. */
  lemma GetMulValueComplete(text: string, a: nat, b: nat)
    requires a < 1000 && b < 1000 && HasPrefix(text, MulCall(a, b))
    ensures GetMulValueIfStartsWith(text) == a * b
  {
    var sa, sb := NatToString(a), NatToString(b);
    var call := MulCall(a, b);
    assert call == "mul(" + sa + "," + sb + ")";
    var tail := text[|call|..];
    assert text == call + tail;
    assert HasPrefix(text, "mul(");
    var rest := sb + [')'] + tail;
    assert text[4..] == sa + [','] + rest;
    ParseOperandComplete(a, ',', rest);
    ParseOperandComplete(b, ')', tail);
  }

  /** Whatever is recognised is a well-formed instruction with operands below 1000, worth
      the product of its operands. */
  lemma GetMulValueSound(text: string)
    requires GetMulValueIfStartsWith(text) != 0
    ensures exists a: nat, b: nat ::
      (a < 1000 && b < 1000 && HasPrefix(text, MulCall(a, b)) && GetMulValueIfStartsWith(text) == a * b)
  {
    ParseOperandSound(text[4..], ',');
    var (a, rest) := ParseOperand(text[4..], ',').value;
    ParseOperandSound(rest, ')');
    var (b, tail) := ParseOperand(rest, ')').value;
    assert GetMulValueIfStartsWith(text) == a * b;
    assert text == "mul(" + text[4..];
    Glue("mul(", text[4..], NatToString(a), ',', rest, NatToString(b), ')', tail);
    assert HasPrefix(text, MulCall(a, b));
  }

  lemma Glue(m: string, u: string, x: string, c: char, r: string, y: string, d: char, t: string)
    requires u == x + [c] + r && r == y + [d] + t
    ensures m + u == (m + x + [c] + y + [d]) + t
    ensures HasPrefix(m + u, m + x + [c] + y + [d])
  {
    assert (m + u)[..|m + x + [c] + y + [d]|] == m + x + [c] + y + [d];
  }

  /** Part 1: the value of the instruction starting at every position, added up. */
  function SumOfSuffixes(text: string): (total: nat)
    ensures text == [] ==> total == 0
  {
    if text == [] then 0 else GetMulValueIfStartsWith(text) + SumOfSuffixes(text[1..])
  }

  method TotalMulValue(input: string) returns (total: nat)
    ensures total == SumOfSuffixes(input)
  {
    total := 0;
    var i := 0;
    while i < |input|
      invariant 0 <= i <= |input|
      invariant total + SumOfSuffixes(input[i..]) == SumOfSuffixes(input)
    {
      assert input[i..][1..] == input[i + 1..];
      total := total + GetMulValueIfStartsWith(input[i..]);
      i := i + 1;
    }
  }

  /** Part 2: the value of the text read from some position on, with counting switched on
      or off. `don't()` is checked before `do()`, and a position that starts either one
      adds nothing itself. */
  function EnabledSum(text: string, enabled: bool): (total: nat)
    ensures !enabled && text == [] ==> total == 0
  {
    if text == [] then 0
    else if HasPrefix(text, "don't()") then EnabledSum(text[1..], false)
    else if HasPrefix(text, "do()") then EnabledSum(text[1..], true)
    else if enabled then GetMulValueIfStartsWith(text) + EnabledSum(text[1..], enabled)
    else EnabledSum(text[1..], enabled)
  }

  method TotalMulValueWithEnabling(input: string) returns (total: nat)
    ensures total == EnabledSum(input, true)
  {
    total := 0;
    var enabled := true;
    var i := 0;
    while i < |input|
      invariant 0 <= i <= |input|
      invariant total + EnabledSum(input[i..], enabled) == EnabledSum(input, true)
    {
      var text := input[i..];
      assert text[1..] == input[i + 1..];
      if HasPrefix(text, "don't()") {
        enabled := false;
      } else if HasPrefix(text, "do()") {
        enabled := true;
      } else if enabled {
        total := total + GetMulValueIfStartsWith(text);
      }
      i := i + 1;
    }
  }

  /** Switching counting off can only lose instructions. */
  lemma {:induction false} EnabledSumAtMost(text: string, enabled: bool)
    ensures EnabledSum(text, enabled) <= SumOfSuffixes(text)
    decreases |text|
  {
    if text != [] {
      EnabledSumAtMost(text[1..], false);
      EnabledSumAtMost(text[1..], true);
    }
  }

  /** `sub` starts at no position of `text`. */
  predicate Absent(text: string, sub: string) {
    forall i :: 0 <= i <= |text| ==> !HasPrefix(text[i..], sub)
  }

  lemma AbsentTail(text: string, sub: string)
    requires text != [] && Absent(text, sub)
    ensures Absent(text[1..], sub) && !HasPrefix(text, sub)
  {
    assert text[0..] == text;
    forall i | 0 <= i <= |text[1..]| ensures !HasPrefix(text[1..][i..], sub) {
      assert text[1..][i..] == text[i + 1..];
    }
  }

  /** Without any `don't()`, part 2 agrees with part 1. */
  lemma {:induction false} EnabledSumWithoutDont(text: string)
    requires Absent(text, "don't()")
    ensures EnabledSum(text, true) == SumOfSuffixes(text)
    decreases |text|
  {
    if text != [] {
      AbsentTail(text, "don't()");
      EnabledSumWithoutDont(text[1..]);
    }
  }

  /** Once counting is off and no `do()` follows, nothing more is counted. */
  lemma {:induction false} DisabledStaysZero(text: string)
    requires Absent(text, "do()")
    ensures EnabledSum(text, false) == 0
    decreases |text|
  {
    if text != [] {
      AbsentTail(text, "do()");
      DisabledStaysZero(text[1..]);
    }
  }
}
