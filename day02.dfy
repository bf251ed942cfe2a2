/** Day 2: reports of levels, one per line. A report is safe when its levels change
    monotonically by 1 to 3 at each step; part 2 also accepts a report that becomes safe
    once a single level is removed. */
module Day02 {
  import opened GoLib

  /** The value of one space-separated field: a 32-bit integer, or 0 when it does not
      parse (the solver prints the error and keeps the zero). */
  function FieldValue(field: string): int {
    var p := ParseInt(field, 32);
    if p.ok then p.value else 0
  }

  /** The levels of a line, field by field. */
  function LineValues(line: string): (values: seq<int>)
    ensures |values| == |Split(line, ' ')| >= 1
  {
    FieldValues(Split(line, ' '))
  }

  function FieldValues(fields: seq<string>): (values: seq<int>)
    ensures |values| == |fields|
  {
    if fields == [] then [] else FieldValues(fields[..|fields| - 1]) + [FieldValue(fields[|fields| - 1])]
  }

  lemma {:induction false} FieldValuesAt(fields: seq<string>, i: nat)
    requires i < |fields|
    ensures FieldValues(fields)[i] == FieldValue(fields[i])
  {
    if i < |fields| - 1 {
      FieldValuesAt(fields[..|fields| - 1], i);
    }
  }

  /** Field `i` of a line becomes its 32-bit value, or 0 when it does not parse. */
  lemma LineValuesAt(line: string, i: nat)
    requires i < |Split(line, ' ')|
    ensures var p := ParseInt(Split(line, ' ')[i], 32);
      LineValues(line)[i] == if p.ok then p.value else 0
  {
    FieldValuesAt(Split(line, ' '), i);
  }

  /** Recording the value of field `i` extends the values read so far by one. */
  lemma FieldValuesStep(fields: seq<string>, values: seq<int>, i: nat)
    requires i < |fields| == |values|
    requires values[..i] == FieldValues(fields[..i]) && values[i] == FieldValue(fields[i])
    ensures values[..i + 1] == FieldValues(fields[..i + 1])
  {
    assert fields[..i + 1][..i] == fields[..i];
    assert values[..i + 1] == values[..i] + [values[i]];
  }

  method GetValuesFromLine(line: string) returns (values: seq<int>)
    ensures values == LineValues(line)
  {
    var nums := Split(line, ' ');
    values := seq(|nums|, _ => 0);
    var i := 0;
    while i < |nums|
      invariant 0 <= i <= |nums| && |values| == |nums|
      invariant values[..i] == FieldValues(nums[..i])
      invariant forall k :: i <= k < |nums| ==> values[k] == 0
    {
      var p := ParseInt(nums[i], 32);
      if p.ok {
        values := values[i := p.value];
      }
      FieldValuesStep(nums, values, i);
      i := i + 1;
    }
    assert nums[..i] == nums && values[..i] == values;
  }

  /** The differences between consecutive levels. */
  method GetChanges(values: seq<int>) returns (changes: seq<int>)
    requires |values| >= 1
    ensures |changes| == |values| - 1
    ensures forall i :: 0 <= i < |changes| ==> changes[i] == values[i + 1] - values[i]
  {
    changes := seq(|values| - 1, _ => 0);
    var i := 0;
    while i < |values| - 1
      invariant 0 <= i <= |values| - 1 && |changes| == |values| - 1
      invariant forall k :: 0 <= k < i ==> changes[k] == values[k + 1] - values[k]
    {
      changes := changes[i := values[i + 1] - values[i]];
      i := i + 1;
    }
  }

  function GetSign(value: int): (sign: int)
    ensures sign == 1 || sign == -1
    ensures sign == 1 <==> value > 0
  {
    if value > 0 then 1 else -1
  }

  /** Safe: every step rises by 1 to 3, or every step falls by 1 to 3. */
  predicate Safe(values: seq<int>) {
    (forall i :: 0 <= i < |values| - 1 ==> 1 <= values[i + 1] - values[i] <= 3) ||
    (forall i :: 0 <= i < |values| - 1 ==> -3 <= values[i + 1] - values[i] <= -1)
  }

  /** The loop follows the sign of the first change and fails on the first step that has
      the wrong direction or a size outside 1..3; a flat step is never safe. */
  method AreValuesSafe(values: seq<int>) returns (safe: bool)
    requires |values| >= 1
    ensures safe == Safe(values)
    ensures |values| <= 2 && safe ==> forall i :: 0 <= i < |values| - 1 ==> values[i + 1] != values[i]
  {
    var changes := GetChanges(values);
    if |changes| == 0 {
      return true;
    }
    var sign := GetSign(changes[0]);
    var i := 0;
    while i < |changes|
      invariant 0 <= i <= |changes|
      invariant forall k :: 0 <= k < i ==> 1 <= changes[k] * sign <= 3
    {
      var change := changes[i] * sign;
      if change <= 0 || change > 3 {
        assert changes[0] == values[1] - values[0] && changes[i] == values[i + 1] - values[i];
        return false;
      }
      i := i + 1;
    }
    if sign == 1 {
      assert forall k :: 0 <= k < |values| - 1 ==> 1 <= values[k + 1] - values[k] <= 3;
    } else {
      assert forall k :: 0 <= k < |values| - 1 ==> -3 <= values[k + 1] - values[k] <= -1;
    }
    return true;
  }

  /** A report of zero or one level is safe. */
  lemma ShortIsSafe(values: seq<int>)
    requires |values| <= 1
    ensures Safe(values)
  {
  }

  /** The report without the level at `index`; an index outside the report removes
      nothing. */
  function RemoveAt(values: seq<int>, index: int): seq<int> {
    if 0 <= index < |values| then values[..index] + values[index + 1..] else values
  }

  method GetRemovedList(values: seq<int>, index: int) returns (newValues: seq<int>)
    ensures newValues == RemoveAt(values, index)
    ensures 0 <= index < |values| ==> |newValues| == |values| - 1
    ensures forall k :: 0 <= k < |newValues| ==>
      newValues[k] == if 0 <= index <= k then values[k + 1] else values[k]
  {
    newValues := [];
    var i := 0;
    while i < |values|
      invariant 0 <= i <= |values|
      invariant newValues == RemoveAt(values[..i], index)
    {
      assert values[..i + 1] == values[..i] + [values[i]];
      if i != index {
        newValues := newValues + [values[i]];
      }
      i := i + 1;
    }
    assert values[..i] == values;
  }

  /** Safe, or safe after removing one level. */
  predicate SafeWithRemoval(values: seq<int>) {
    Safe(values) || exists i :: 0 <= i < |values| && Safe(RemoveAt(values, i))
  }

  /** Dropping the first level of a safe report leaves it safe, so for two or more levels
      part 2 is exactly "some single removal makes the report safe". */
  lemma SafeWithRemovalIff(values: seq<int>)
    requires |values| >= 1
    ensures SafeWithRemoval(values) <==> exists i :: 0 <= i < |values| && Safe(RemoveAt(values, i))
  {
    if Safe(values) {
      SafeWithoutFirst(values);
      assert RemoveAt(values, 0) == values[1..];
    }
  }

  /** A safe report stays safe without its first level. */
  lemma SafeWithoutFirst(values: seq<int>)
    requires |values| >= 1 && Safe(values)
    ensures Safe(values[1..])
  {
    var rest := values[1..];
    if forall i :: 0 <= i < |values| - 1 ==> 1 <= values[i + 1] - values[i] <= 3 {
      forall k | 0 <= k < |rest| - 1
        ensures 1 <= rest[k + 1] - rest[k] <= 3
      {
        assert rest[k + 1] - rest[k] == values[k + 2] - values[k + 1];
      }
    } else {
      forall k | 0 <= k < |rest| - 1
        ensures -3 <= rest[k + 1] - rest[k] <= -1
      {
        assert rest[k + 1] - rest[k] == values[k + 2] - values[k + 1];
      }
    }
  }

  /** The two ways of judging a line. */
  datatype Mode = Plain | WithRemoval

  predicate LineSafe(line: string, mode: Mode) {
    match mode
    case Plain => Safe(LineValues(line))
    case WithRemoval => SafeWithRemoval(LineValues(line))
  }

  method IsLineSafe(line: string) returns (safe: bool)
    ensures safe == LineSafe(line, Plain)
  {
    var values := GetValuesFromLine(line);
    safe := AreValuesSafe(values);
  }

  method IsLineSafeWithRemove(line: string) returns (safe: bool)
    ensures safe == LineSafe(line, WithRemoval)
  {
    var values := GetValuesFromLine(line);
    safe := AreValuesSafe(values);
    if safe {
      return;
    }
    var i := 0;
    while i < |values|
      invariant 0 <= i <= |values|
      invariant forall k :: 0 <= k < i ==> !Safe(RemoveAt(values, k))
    {
      var removedList := GetRemovedList(values, i);
      if |removedList| >= 1 {
        safe := AreValuesSafe(removedList);
      } else {
        ShortIsSafe(removedList);
        safe := true;
      }
      if safe {
        return;
      }
      i := i + 1;
    }
  }

  /** Part 2 never rejects a report that part 1 accepts. */
  lemma SafeImpliesSafeWithRemoval(line: string)
    ensures LineSafe(line, Plain) ==> LineSafe(line, WithRemoval)
  {
  }

  /** The number of lines that pass. */
  function CountSafe(lines: seq<string>, mode: Mode): (count: nat)
    ensures count <= |lines|
  {
    if lines == [] then 0
    else CountSafe(lines[..|lines| - 1], mode) + (if LineSafe(lines[|lines| - 1], mode) then 1 else 0)
  }

  method SafeReportCount(input: string, mode: Mode) returns (count: nat)
    ensures count == CountSafe(Split(input, '\n'), mode)
    ensures count <= |Split(input, '\n')|
  {
    var lines := Split(input, '\n');
    count := 0;
    var i := 0;
    while i < |lines|
      invariant 0 <= i <= |lines|
      invariant count == CountSafe(lines[..i], mode)
    {
      assert lines[..i + 1][..i] == lines[..i];
      var safe;
      match mode {
        case Plain => safe := IsLineSafe(lines[i]);
        case WithRemoval => safe := IsLineSafeWithRemove(lines[i]);
      }
      if safe {
        count := count + 1;
      }
      i := i + 1;
    }
    assert lines[..i] == lines;
  }

  /** Part 2 counts at least as many lines as part 1. */
  lemma {:induction false} CountSafeMonotone(lines: seq<string>)
    ensures CountSafe(lines, Plain) <= CountSafe(lines, WithRemoval)
  {
    if lines != [] {
      CountSafeMonotone(lines[..|lines| - 1]);
      SafeImpliesSafeWithRemoval(lines[|lines| - 1]);
    }
  }
}
