/** Day 7, "Bridge Repair": an equation `total: n0 n1 … nk` is valid when the operators
    placed between the numbers, evaluated strictly left to right, can produce `total`.
    The solver works backwards from the last number, undoing one operator at a time. */
module Day07 {
  import opened GoLib

  /** The three operators of the puzzle: `+`, `*` and digit concatenation `||`. */
  datatype Op = Add | Mul | Concat {

    /** Applying the operator forwards: `acc op num`. Concatenation appends the decimal
        digits of `num` to `acc`. */
    function Apply(acc: int, num: int): int {
      match this
      case Add => acc + num
      case Mul => acc * num
      case Concat => acc * Pow10(NumDigits(num)) + num
    }

    /** Undoing the operator: from `total == prev op num` recover `prev`, or report that
        no such `prev` exists. A concatenation can be undone only when `num > 0`: for
        other values the floating-point logarithm yields a power of ten of 0. */
    function Reverse(total: int, num: int): (r: (bool, int))
      requires this == Mul ==> num != 0
      ensures !r.0 ==> r.1 == 0
      ensures r.0 ==> Apply(r.1, num) == total
      ensures this == Add ==> r == (true, total - num)
      ensures this == Mul ==> (r.0 <==> total % num == 0)
      ensures this == Concat ==> (r.0 <==> num > 0 && Rem(total, Pow10(NumDigits(num))) == num)
    {
      match this
      case Add => (true, total - num)
      case Mul =>
        RemZeroIffDivides(total, num);
        if Rem(total, num) != 0 then (false, 0) else (true, Quot(total, num))
      case Concat =>
        if num <= 0 then (false, 0)
        else
          var power := Pow10(NumDigits(num));
          if Rem(total, power) != num then (false, 0) else (true, Quot(total, power))
    }

    /** The text of `repr op lastNum`. */
    function Repr(repr: string, lastNum: int): (s: string)
      ensures |s| > |repr| && s[..|repr|] == repr
    {
      match this
      case Add => repr + " + " + Itoa(lastNum)
      case Mul => repr + " * " + Itoa(lastNum)
      case Concat => repr + " || " + Itoa(lastNum)
    }
  }

  /** The number of decimal digits of a positive number (0 for the others). */
  function NumDigits(n: int): (d: nat)
    ensures n > 0 ==> d >= 1 && n < Pow10(d) && (d == 1 || Pow10(d - 1) <= n)
  {
    if n > 0 then
      NatToStringLength(n, |NatToString(n)|);
      |NatToString(n)|
    else 0
  }

  /** Euclidean division recovers quotient and remainder of `q * p + r`. */
  lemma DivModOf(q: int, p: int, r: int)
    requires p > 0 && 0 <= r < p
    ensures (q * p + r) / p == q && (q * p + r) % p == r
  {
    var t := q * p + r;
    var q', r' := t / p, t % p;
    assert p * (q - q') == r' - r by {
      assert p * (q - q') == p * q - p * q';
    }
    MultipleBelowDivisor(p, q - q', r' - r);
  }

  /** Undoing an operator applied to a non-negative value and a positive number gives
      the value back, whichever operator it is. */
  lemma ReverseOfApply(op: Op, prev: int, num: int)
    requires prev >= 0 && num > 0
    ensures op.Reverse(op.Apply(prev, num), num) == (true, prev)
  {
    match op
    case Add =>
    case Mul =>
      var t := prev * num;
      DivExact(t, num, prev);
      RemZeroIffDivides(t, num);
    case Concat =>
      var p := Pow10(NumDigits(num));
      var t := prev * p + num;
      DivModOf(prev, p, num);
      assert t >= 0;
      assert Quot(t, p) == prev;
  }

  /** The examples of the concatenation tests: 123 is 12 || 3, while 125 does not end
      in 10. */
  lemma ConcatReverseExamples()
    ensures Concat.Reverse(123, 3) == (true, 12)
    ensures !Concat.Reverse(125, 10).0
  {
    assert NumDigits(3) == 1;
    assert NumDigits(10) == 2 by {
      assert NatToString(10) == NatToString(1) + [DigitChar(0)];
    }
  }

  /** With `*` among the operators, every number but the first is non-zero. Any of them
      may become the divisor of `MulOp.Reverse`; Go divides by a zero only when its search
      reaches `*` for it, so this excludes more inputs than those that panic. */
  predicate MulSafe(nums: seq<int>, ops: seq<Op>) {
    Mul in ops ==> forall k :: 1 <= k < |nums| ==> nums[k] != 0
  }

  predicate Positive(nums: seq<int>) {
    forall k :: 0 <= k < |nums| ==> nums[k] > 0
  }

  /** Whether `total` can be produced from `nums` with operators from `ops`, and the
      text of the first such expression found. The operators are tried in the order of
      `ops` for the last number, each followed by the same search on the other numbers.
      With no numbers and no operators nothing is possible; with no numbers and some
      operator, Go reads the last number first and panics. */
  function IsTheTotalPossible(total: int, nums: seq<int>, ops: seq<Op>): (r: (bool, string))
    requires (|nums| >= 1 || ops == []) && MulSafe(nums, ops)
    ensures !r.0 ==> r.1 == ""
    ensures |nums| == 0 ==> !r.0
    ensures |nums| == 1 ==> (r.0 <==> total == nums[0])
    decreases |nums|, |ops| + 1
  {
    if |nums| == 0 then (false, "")
    else if |nums| == 1 then
      if total == nums[0] then (true, Itoa(nums[0])) else (false, "")
    else
      TryOps(total, nums, ops, 0)
  }

  /** The loop over `ops[i..]` in `IsTheTotalPossible`. */
  function TryOps(total: int, nums: seq<int>, ops: seq<Op>, i: nat): (r: (bool, string))
    requires |nums| >= 2 && MulSafe(nums, ops) && i <= |ops|
    ensures !r.0 ==> r.1 == ""
    decreases |nums|, |ops| - i
  {
    if i == |ops| then (false, "")
    else
      var last := nums[|nums| - 1];
      var (canReverse, prevTotal) := ops[i].Reverse(total, last);
      if !canReverse then TryOps(total, nums, ops, i + 1)
      else
        var (possible, repr) := IsTheTotalPossible(prevTotal, nums[..|nums| - 1], ops);
        if !possible then TryOps(total, nums, ops, i + 1)
        else (possible, ops[i].Repr(repr, last))
  }

  /** Left-to-right evaluation of `nums` with `choice[k]` between `nums[k]` and
      `nums[k + 1]`. */
  function Eval(nums: seq<int>, choice: seq<Op>): int
    requires |nums| >= 1 && |choice| == |nums| - 1
  {
    if |nums| == 1 then nums[0]
    else choice[|choice| - 1].Apply(Eval(nums[..|nums| - 1], choice[..|choice| - 1]), nums[|nums| - 1])
  }

  /** The text of that expression. */
  function Render(nums: seq<int>, choice: seq<Op>): string
    requires |nums| >= 1 && |choice| == |nums| - 1
  {
    if |nums| == 1 then Itoa(nums[0])
    else choice[|choice| - 1].Repr(Render(nums[..|nums| - 1], choice[..|choice| - 1]), nums[|nums| - 1])
  }

  predicate Chosen(choice: seq<Op>, ops: seq<Op>) {
    forall k :: 0 <= k < |choice| ==> choice[k] in ops
  }

  /** Some placement of operators from `ops` evaluates to `total`. */
  ghost predicate Solvable(total: int, nums: seq<int>, ops: seq<Op>)
    requires |nums| >= 1
  {
    exists choice: seq<Op> :: |choice| == |nums| - 1 && Chosen(choice, ops) && Eval(nums, choice) == total
  }

  /** A success of the backward search is witnessed by an operator placement that
      evaluates to `total`, and the returned text is that expression. */
  lemma {:induction false} PossibleSound(total: int, nums: seq<int>, ops: seq<Op>)
    requires |nums| >= 1 && MulSafe(nums, ops)
    ensures IsTheTotalPossible(total, nums, ops).0 ==>
      exists choice: seq<Op> :: |choice| == |nums| - 1 && Chosen(choice, ops) && Eval(nums, choice) == total
        && IsTheTotalPossible(total, nums, ops).1 == Render(nums, choice)
    decreases |nums|, |ops| + 1
  {
    if |nums| == 1 {
      var choice: seq<Op> := [];
      assert Eval(nums, choice) == nums[0] && Render(nums, choice) == Itoa(nums[0]);
    } else {
      TrySound(total, nums, ops, 0);
    }
  }

  lemma {:induction false} TrySound(total: int, nums: seq<int>, ops: seq<Op>, i: nat)
    requires |nums| >= 2 && MulSafe(nums, ops) && i <= |ops|
    ensures TryOps(total, nums, ops, i).0 ==>
      exists choice: seq<Op> :: |choice| == |nums| - 1 && Chosen(choice, ops) && Eval(nums, choice) == total
        && TryOps(total, nums, ops, i).1 == Render(nums, choice)
    decreases |nums|, |ops| - i
  {
    if i < |ops| {
      var last := nums[|nums| - 1];
      var prefix := nums[..|nums| - 1];
      var (canReverse, prevTotal) := ops[i].Reverse(total, last);
      if !canReverse {
        TrySound(total, nums, ops, i + 1);
      } else {
        PossibleSound(prevTotal, prefix, ops);
        var (possible, repr) := IsTheTotalPossible(prevTotal, prefix, ops);
        if !possible {
          TrySound(total, nums, ops, i + 1);
        } else {
          var c :| |c| == |prefix| - 1 && Chosen(c, ops) && Eval(prefix, c) == prevTotal && repr == Render(prefix, c);
          var choice := c + [ops[i]];
          assert choice[..|choice| - 1] == c;
          assert Eval(nums, choice) == ops[i].Apply(prevTotal, last);
          assert Render(nums, choice) == ops[i].Repr(repr, last);
          assert Chosen(choice, ops);
        }
      }
    }
  }

  /** Left-to-right evaluation of positive numbers stays positive. */
  lemma {:induction false} EvalPositive(nums: seq<int>, choice: seq<Op>)
    requires |nums| >= 1 && |choice| == |nums| - 1 && Positive(nums)
    ensures Eval(nums, choice) >= 1
  {
    if |nums| > 1 {
      var prefix := nums[..|nums| - 1];
      var acc := Eval(prefix, choice[..|choice| - 1]);
      EvalPositive(prefix, choice[..|choice| - 1]);
      var n := nums[|nums| - 1];
      match choice[|choice| - 1]
      case Add =>
      case Mul => MulAtLeast(acc, n);
      case Concat => MulAtLeast(acc, Pow10(NumDigits(n)));
    }
  }

  /** If operator `ops[j]` can be undone and the search on the other numbers succeeds,
      the loop from any `i <= j` succeeds. */
  lemma {:induction false} TryFinds(total: int, nums: seq<int>, ops: seq<Op>, i: nat, j: nat)
    requires |nums| >= 2 && MulSafe(nums, ops) && i <= j < |ops|
    requires ops[j].Reverse(total, nums[|nums| - 1]).0
    requires IsTheTotalPossible(ops[j].Reverse(total, nums[|nums| - 1]).1, nums[..|nums| - 1], ops).0
    ensures TryOps(total, nums, ops, i).0
    decreases j - i
  {
    if i < j {
      var (canReverse, prevTotal) := ops[i].Reverse(total, nums[|nums| - 1]);
      if canReverse && IsTheTotalPossible(prevTotal, nums[..|nums| - 1], ops).0 {
      } else {
        TryFinds(total, nums, ops, i + 1, j);
      }
    }
  }

  /** For positive numbers every operator placement that evaluates to `total` is found
      by the backward search. */
  lemma {:induction false} PossibleComplete(total: int, nums: seq<int>, ops: seq<Op>, choice: seq<Op>)
    requires |nums| >= 1 && Positive(nums)
    requires |choice| == |nums| - 1 && Chosen(choice, ops) && Eval(nums, choice) == total
    ensures IsTheTotalPossible(total, nums, ops).0
    decreases |nums|
  {
    if |nums| > 1 {
      var prefix := nums[..|nums| - 1];
      var c := choice[..|choice| - 1];
      var op := choice[|choice| - 1];
      var last := nums[|nums| - 1];
      var prev := Eval(prefix, c);
      EvalPositive(prefix, c);
      ReverseOfApply(op, prev, last);
      PossibleComplete(prev, prefix, ops, c);
      var j :| 0 <= j < |ops| && ops[j] == op;
      TryFinds(total, nums, ops, 0, j);
    }
  }

  /** For positive numbers the search succeeds exactly when some placement of the given
      operators evaluates to `total`. */
  lemma PossibleIff(total: int, nums: seq<int>, ops: seq<Op>)
    requires |nums| >= 1 && Positive(nums)
    ensures IsTheTotalPossible(total, nums, ops).0 <==> Solvable(total, nums, ops)
  {
    PossibleSound(total, nums, ops);
    if Solvable(total, nums, ops) {
      var choice :| |choice| == |nums| - 1 && Chosen(choice, ops) && Eval(nums, choice) == total;
      PossibleComplete(total, nums, ops, choice);
    }
  }

  /** Offering more operators never makes a valid equation invalid. */
  lemma MoreOpsStayPossible(total: int, nums: seq<int>, ops: seq<Op>, more: seq<Op>)
    requires |nums| >= 1 && Positive(nums)
    requires forall o :: o in ops ==> o in more
    requires IsTheTotalPossible(total, nums, ops).0
    ensures IsTheTotalPossible(total, nums, more).0
  {
    PossibleSound(total, nums, ops);
    var choice :| |choice| == |nums| - 1 && Chosen(choice, ops) && Eval(nums, choice) == total;
    PossibleComplete(total, nums, more, choice);
  }

  /** The first example equations: 190 is 10 * 19, and 83 cannot be made of 17 and 5. */
  lemma PossibleExamples()
    ensures IsTheTotalPossible(190, [10, 19], [Add, Mul]).0
    ensures !IsTheTotalPossible(83, [17, 5], [Add, Mul]).0
  {
    assert TryOps(190, [10, 19], [Add, Mul], 1).0 by {
      assert [10, 19][..1] == [10];
    }
    assert !TryOps(83, [17, 5], [Add, Mul], 0).0 by {
      assert [17, 5][..1] == [17];
    }
  }

  /** One line of the puzzle input. */
  datatype Equation = Equation(total: int, numbers: seq<int>)

  predicate Searchable(eqs: seq<Equation>, ops: seq<Op>) {
    forall k :: 0 <= k < |eqs| ==> |eqs[k].numbers| >= 1 && MulSafe(eqs[k].numbers, ops)
  }

  /** The sum of the totals of the equations the search declares valid. */
  function TotalOfValid(eqs: seq<Equation>, ops: seq<Op>): int
    requires Searchable(eqs, ops)
  {
    if eqs == [] then 0
    else
      var eq := eqs[|eqs| - 1];
      TotalOfValid(eqs[..|eqs| - 1], ops)
        + (if IsTheTotalPossible(eq.total, eq.numbers, ops).0 then eq.total else 0)
  }

  /** `FindTotalOfValidEquations`: adds up the totals of exactly the valid equations. */
  method FindTotalOfValidEquations(eqs: seq<Equation>, ops: seq<Op>) returns (result: int)
    requires Searchable(eqs, ops)
    ensures result == TotalOfValid(eqs, ops)
  {
    result := 0;
    for i := 0 to |eqs|
      invariant result == TotalOfValid(eqs[..i], ops)
    {
      assert eqs[..i + 1][..i] == eqs[..i];
      var (valid, _) := IsTheTotalPossible(eqs[i].total, eqs[i].numbers, ops);
      if valid {
        result := result + eqs[i].total;
      }
    }
    assert eqs[..|eqs|] == eqs;
  }

  /** With positive numbers and non-negative totals, offering more operators (as the
      second part does with `||`) never lowers the sum. */
  lemma {:induction false} MoreOpsLargerTotal(eqs: seq<Equation>, ops: seq<Op>, more: seq<Op>)
    requires forall k :: 0 <= k < |eqs| ==> |eqs[k].numbers| >= 1 && Positive(eqs[k].numbers)
    requires forall k :: 0 <= k < |eqs| ==> eqs[k].total >= 0
    requires forall o :: o in ops ==> o in more
    requires Searchable(eqs, ops) && Searchable(eqs, more)
    ensures TotalOfValid(eqs, ops) <= TotalOfValid(eqs, more)
  {
    if eqs != [] {
      var eq := eqs[|eqs| - 1];
      MoreOpsLargerTotal(eqs[..|eqs| - 1], ops, more);
      if IsTheTotalPossible(eq.total, eq.numbers, ops).0 {
        MoreOpsStayPossible(eq.total, eq.numbers, ops, more);
      }
    }
  }
}
