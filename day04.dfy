/** Day 4: a word search. Part 1 counts every occurrence of XMAS in any of the eight
    directions; part 2 counts the 3x3 squares whose two diagonals both read MAS (either way
    round). A grid is a sequence of equally long lines; `i` is the line (row) and `j` the
    position within it (column). */
module Day04 {
  import opened GoLib

  /** All lines as long as the first one. */
  predicate Rectangular(lines: seq<string>) {
    forall k :: 0 <= k < |lines| ==> |lines[k]| == |lines[0]|
  }

  /** Row `i`, column `j` lies inside a `width` by `height` grid. */
  predicate IsInBound(width: int, height: int, i: int, j: int) {
    i >= 0 && j >= 0 && i < height && j < width
  }

  /** Row `i`, column `j` is a letter of the grid. */
  predicate InGrid(lines: seq<string>, i: int, j: int) {
    0 <= i < |lines| && 0 <= j < |lines[i]|
  }

  /** A reading direction: `dx` moves along a line, `dy` from line to line. */
  datatype Direction = Direction(dx: int, dy: int)

  predicate Unit(d: Direction) {
    -1 <= d.dx <= 1 && -1 <= d.dy <= 1
  }

  /** `i + c * step` for a unit step, written out case by case. */
  function Pos(i: int, c: int, step: int): int
    requires -1 <= step <= 1
  {
    if step == 1 then i + c else if step == -1 then i - c else i
  }

  lemma PosIsProduct(i: int, c: int, step: int)
    requires -1 <= step <= 1
    ensures Pos(i, c, step) == i + c * step
  {
  }

  /** The letters between the first and the last lie between them. */
  lemma PosBetween(i: int, c: int, s: int, step: int)
    requires -1 <= step <= 1 && 0 <= c <= s
    ensures Pos(i, s, step) <= Pos(i, c, step) <= i || i <= Pos(i, c, step) <= Pos(i, s, step)
  {
  }

  /** `word` can be read from row `i`, column `j` in direction `d`: every letter lies in the
      grid and matches. */
  predicate WordAt(lines: seq<string>, d: Direction, word: string, i: int, j: int)
    requires Unit(d)
  {
    forall c :: 0 <= c < |word| ==>
      InGrid(lines, Pos(i, c, d.dy), Pos(j, c, d.dx)) && lines[Pos(i, c, d.dy)][Pos(j, c, d.dx)] == word[c]
  }

  /** In a rectangular grid the bound test on the grid's size is membership. */
  lemma InBoundIsInGrid(lines: seq<string>, i: int, j: int)
    requires Rectangular(lines) && |lines| > 0
    ensures IsInBound(|lines[0]|, |lines|, i, j) <==> InGrid(lines, i, j)
  {
  }

  /** The rule for a direction and a word, applied at row `i`, column `j`: it fails unless
      the first and the last letter lie in the grid, then compares letter by letter. */
  method CheckStartsWithUsingDirection(lines: seq<string>, d: Direction, word: string, i: int, j: int)
    returns (ok: bool)
    requires Rectangular(lines) && Unit(d) && |word| >= 1
    ensures ok == WordAt(lines, d, word, i, j)
  {
    if |lines| == 0 {
      assert !InGrid(lines, Pos(i, 0, d.dy), Pos(j, 0, d.dx));
      return false;
    }
    var width, height, s := |lines[0]|, |lines|, |word| - 1;
    var lastI, lastJ := Pos(i, s, d.dy), Pos(j, s, d.dx);
    InBoundIsInGrid(lines, i, j);
    InBoundIsInGrid(lines, lastI, lastJ);
    if !IsInBound(width, height, i, j) || !IsInBound(width, height, lastI, lastJ) {
      assert Pos(i, 0, d.dy) == i && Pos(j, 0, d.dx) == j;
      return false;
    }
    var c := 0;
    while c < |word|
      invariant 0 <= c <= |word|
      invariant forall k :: 0 <= k < c ==>
        (InGrid(lines, Pos(i, k, d.dy), Pos(j, k, d.dx)) && lines[Pos(i, k, d.dy)][Pos(j, k, d.dx)] == word[k])
    {
      var row, col := Pos(i, c, d.dy), Pos(j, c, d.dx);
      PosBetween(i, c, s, d.dy);
      PosBetween(j, c, s, d.dx);
      InBoundIsInGrid(lines, row, col);
      if word[c] != lines[row][col] {
        return false;
      }
      c := c + 1;
    }
    return true;
  }

  /** The eight directions part 1 reads in. */
  const Dirs: seq<Direction> := [Direction(1, 0), Direction(-1, 0), Direction(0, 1), Direction(0, -1),
                                 Direction(1, 1), Direction(1, -1), Direction(-1, 1), Direction(-1, -1)]

  /** Every occurrence of XMAS: its first letter's row and column and its direction's
      index in `Dirs`. */
  function Occurrences(lines: seq<string>): set<(int, int, int)> {
    set i, j, k | 0 <= i < |lines| && 0 <= j < |lines[i]| && 0 <= k < |Dirs| && WordAt(lines, Dirs[k], "XMAS", i, j)
      :: (i, j, k)
  }

  /** The occurrences whose (row, column, direction) comes before (`i`, `j`, `k`) in the
      order the grid is scanned. */
  function OccurrencesBefore(lines: seq<string>, i: int, j: int, k: int): set<(int, int, int)> {
    set t | t in Occurrences(lines) && (t.0 < i || (t.0 == i && (t.1 < j || (t.1 == j && t.2 < k))))
  }

  /** Part 1: the number of occurrences of XMAS, each counted once. */
  method XmasCount(input: string) returns (total: nat)
    requires Rectangular(Split(input, '\n'))
    ensures total == |Occurrences(Split(input, '\n'))|
  {
    var lines := Split(input, '\n');
    total := CountXmasInLines(lines);
  }

  method CountXmasInLines(lines: seq<string>) returns (total: nat)
    requires Rectangular(lines)
    ensures total == |Occurrences(lines)|
  {
    ghost var found: set<(int, int, int)> := {};
    total := 0;
    var i := 0;
    while i < |lines|
      invariant 0 <= i <= |lines|
      invariant found == OccurrencesBefore(lines, i, 0, 0) && total == |found|
    {
      var j := 0;
      while j < |lines[i]|
        invariant 0 <= j <= |lines[i]|
        invariant found == OccurrencesBefore(lines, i, j, 0) && total == |found|
      {
        found, total := CountAtCell(lines, i, j, found, total);
        j := j + 1;
      }
      RowDone(lines, i);
      i := i + 1;
    }
    GridDone(lines);
  }

  /** The inner loop of part 1: the eight rules tried at one cell, added to the count of
      the occurrences before it. */
  method CountAtCell(lines: seq<string>, i: int, j: int, ghost found0: set<(int, int, int)>, total0: nat)
    returns (ghost found: set<(int, int, int)>, total: nat)
    requires Rectangular(lines) && 0 <= i < |lines| && 0 <= j < |lines[i]|
    requires found0 == OccurrencesBefore(lines, i, j, 0) && total0 == |found0|
    ensures found == OccurrencesBefore(lines, i, j + 1, 0) && total == |found|
  {
    found, total := found0, total0;
    var k := 0;
    while k < |Dirs|
      invariant 0 <= k <= |Dirs|
      invariant found == OccurrencesBefore(lines, i, j, k) && total == |found|
    {
      var hit := CheckStartsWithUsingDirection(lines, Dirs[k], "XMAS", i, j);
      ScanStep(lines, i, j, k, hit);
      if hit {
        found := found + {(i, j, k)};
        total := total + 1;
      }
      k := k + 1;
    }
    CellDone(lines, i, j);
  }

  lemma CellDone(lines: seq<string>, i: int, j: int)
    ensures OccurrencesBefore(lines, i, j, |Dirs|) == OccurrencesBefore(lines, i, j + 1, 0)
  {
  }

  lemma RowDone(lines: seq<string>, i: int)
    requires 0 <= i < |lines|
    ensures OccurrencesBefore(lines, i, |lines[i]|, 0) == OccurrencesBefore(lines, i + 1, 0, 0)
  {
  }

  lemma GridDone(lines: seq<string>)
    ensures OccurrencesBefore(lines, |lines|, 0, 0) == Occurrences(lines)
  {
  }

  /** One step of the scan adds the current (row, column, direction) exactly when XMAS is
      read there. */
  lemma ScanStep(lines: seq<string>, i: int, j: int, k: int, hit: bool)
    requires 0 <= i < |lines| && 0 <= j < |lines[i]| && 0 <= k < |Dirs|
    requires hit == WordAt(lines, Dirs[k], "XMAS", i, j)
    ensures (i, j, k) !in OccurrencesBefore(lines, i, j, k)
    ensures OccurrencesBefore(lines, i, j, k + 1) ==
      OccurrencesBefore(lines, i, j, k) + (if hit then {(i, j, k)} else {})
  {
  }

  lemma PosReverse(i: int, c: int, s: int, step: int)
    requires -1 <= step <= 1
    ensures Pos(Pos(i, s, step), c, -step) == Pos(i, s - c, step)
  {
  }

  /** In a single line only the two horizontal directions can read a word of two or
      more letters. */
  lemma OneLineHorizontal(line: string, d: Direction, word: string, i: int, j: int)
    requires Unit(d) && |word| >= 2 && WordAt([line], d, word, i, j)
    ensures i == 0 && d.dy == 0
  {
    assert InGrid([line], Pos(i, 0, d.dy), Pos(j, 0, d.dx));
    assert InGrid([line], Pos(i, 1, d.dy), Pos(j, 1, d.dx));
  }

  /** The test's line "XMASAMX" holds XMAS twice: forwards from its first letter and
      backwards from its last. */
  lemma ForwardAndBackwardExample()
    ensures Occurrences(["XMASAMX"]) == {(0, 0, 0), (0, 6, 1)}
    ensures |Occurrences(["XMASAMX"])| == 2
  {
    var lines := ["XMASAMX"];
    var line := lines[0];
    assert WordAt(lines, Dirs[0], "XMAS", 0, 0) by {
      forall c | 0 <= c < 4 ensures InGrid(lines, Pos(0, c, 0), Pos(0, c, 1)) && line[Pos(0, c, 1)] == "XMAS"[c] {
      }
    }
    assert WordAt(lines, Dirs[1], "XMAS", 0, 6) by {
      forall c | 0 <= c < 4 ensures InGrid(lines, Pos(0, c, 0), Pos(6, c, -1)) && line[Pos(6, c, -1)] == "XMAS"[c] {
      }
    }
    forall t | t in Occurrences(lines) ensures t == (0, 0, 0) || t == (0, 6, 1) {
      var (i, j, k) := t;
      OneLineHorizontal(line, Dirs[k], "XMAS", i, j);
      assert InGrid(lines, i, Pos(j, 3, Dirs[k].dx)) && line[Pos(j, 3, Dirs[k].dx)] == 'S';
      assert 0 <= j < 7 && line[j] == 'X';
      if k == 0 {
        assert line[j + 3] == 'S' && j + 3 < 7;
        assert j == 0;
      } else {
        assert k == 1 && line[j - 3] == 'S' && j - 3 >= 0;
        assert j == 6;
      }
    }
  }

  /** Reading `word` forwards implies reading its reverse backwards from its last letter. */
  lemma WordAtReverseOneWay(lines: seq<string>, d: Direction, word: string, i: int, j: int)
    requires Unit(d) && |word| >= 1 && WordAt(lines, d, word, i, j)
    ensures var s := |word| - 1;
      WordAt(lines, Direction(-d.dx, -d.dy), Reverse(word), Pos(i, s, d.dy), Pos(j, s, d.dx))
  {
    var s := |word| - 1;
    var e := Direction(-d.dx, -d.dy);
    var rw := Reverse(word);
    var i', j' := Pos(i, s, d.dy), Pos(j, s, d.dx);
    forall c | 0 <= c < |rw|
      ensures InGrid(lines, Pos(i', c, e.dy), Pos(j', c, e.dx)) && lines[Pos(i', c, e.dy)][Pos(j', c, e.dx)] == rw[c]
    {
      var k := s - c;
      PosReverse(i, c, s, d.dy);
      PosReverse(j, c, s, d.dx);
      var y, x := Pos(i, k, d.dy), Pos(j, k, d.dx);
      assert InGrid(lines, y, x) && lines[y][x] == word[k];
      assert rw[c] == word[k];
    }
  }

  lemma ReverseReverse(s: string)
    ensures Reverse(Reverse(s)) == s
  {
    assert forall k :: 0 <= k < |s| ==> Reverse(Reverse(s))[k] == s[k];
  }

  /** A word read one way is its reverse read the other way from its last letter. */
  lemma WordAtReverse(lines: seq<string>, d: Direction, word: string, i: int, j: int)
    requires Unit(d) && |word| >= 1
    ensures var s := |word| - 1;
      WordAt(lines, d, word, i, j) <==>
      WordAt(lines, Direction(-d.dx, -d.dy), Reverse(word), Pos(i, s, d.dy), Pos(j, s, d.dx))
  {
    var s := |word| - 1;
    var e := Direction(-d.dx, -d.dy);
    var i', j' := Pos(i, s, d.dy), Pos(j, s, d.dx);
    if WordAt(lines, d, word, i, j) {
      WordAtReverseOneWay(lines, d, word, i, j);
    }
    if WordAt(lines, e, Reverse(word), i', j') {
      WordAtReverseOneWay(lines, e, Reverse(word), i', j');
      ReverseReverse(word);
      PosReverse(i, s, s, d.dy);
      PosReverse(j, s, s, d.dx);
      assert Direction(-e.dx, -e.dy) == d;
    }
  }

  function Reverse(s: string): (r: string)
    ensures |r| == |s| && forall k :: 0 <= k < |s| ==> r[k] == s[|s| - 1 - k]
  {
    if s == [] then [] else Reverse(s[1..]) + [s[0]]
  }

  /** The directions of the four corner rules of part 2, all reading MAS. */
  datatype MasCornerRules = MasCornerRules(topRight: Direction, topLeft: Direction,
                                           bottomRight: Direction, bottomLeft: Direction)

  const MasRules := MasCornerRules(Direction(-1, 1), Direction(1, 1), Direction(-1, -1), Direction(1, -1))

  /** The two diagonals of the 3x3 square whose top-left corner is row `i`, column `j`,
      read from the top. */
  function Diagonals(lines: seq<string>, i: int, j: int): (string, string)
    requires InGrid(lines, i, j) && InGrid(lines, i + 2, j + 2) && Rectangular(lines)
  {
    ([lines[i][j], lines[i + 1][j + 1], lines[i + 2][j + 2]],
     [lines[i][j + 2], lines[i + 1][j + 1], lines[i + 2][j]])
  }

  predicate IsMas(w: string) {
    w == "MAS" || w == "SAM"
  }

  /** An X-MAS: the square lies in the grid and both its diagonals read MAS one way or the
      other. */
  predicate XCross(lines: seq<string>, i: int, j: int) {
    Rectangular(lines) && InGrid(lines, i, j) && InGrid(lines, i + 2, j + 2) &&
    var (d1, d2) := Diagonals(lines, i, j);
    IsMas(d1) && IsMas(d2)
  }

  /** The cell test of part 2. The grid's width is read from its second line, so a
      one-line grid is not allowed. */
  method IsXmasCross(lines: seq<string>, i: int, j: int) returns (cross: bool)
    requires Rectangular(lines) && |lines| != 1
    ensures cross == XCross(lines, i, j)
  {
    if |lines| == 0 {
      return false;
    }
    var width, height := |lines[1]|, |lines|;
    InBoundIsInGrid(lines, i, j);
    InBoundIsInGrid(lines, i + 2, j + 2);
    if !IsInBound(width, height, i, j) || !IsInBound(width, height, i + 2, j + 2) {
      return false;
    }
    var topLeft := CheckStartsWithUsingDirection(lines, MasRules.topLeft, "MAS", i, j);
    var bottomRight := CheckStartsWithUsingDirection(lines, MasRules.bottomRight, "MAS", i + 2, j + 2);
    var topRight := CheckStartsWithUsingDirection(lines, MasRules.topRight, "MAS", i, j + 2);
    var bottomLeft := CheckStartsWithUsingDirection(lines, MasRules.bottomLeft, "MAS", i + 2, j);
    CornerRules(lines, i, j);
    cross := (topLeft || bottomRight) && (topRight || bottomLeft);
  }

  /** A three-letter word, letter by letter. */
  lemma WordAtThree(lines: seq<string>, d: Direction, word: string, i: int, j: int)
    requires Unit(d) && |word| == 3
    ensures WordAt(lines, d, word, i, j) <==>
      InGrid(lines, i, j) && lines[i][j] == word[0] &&
      InGrid(lines, i + d.dy, j + d.dx) && lines[i + d.dy][j + d.dx] == word[1] &&
      InGrid(lines, i + 2 * d.dy, j + 2 * d.dx) && lines[i + 2 * d.dy][j + 2 * d.dx] == word[2]
  {
    assert Pos(i, 0, d.dy) == i && Pos(j, 0, d.dx) == j;
    assert Pos(i, 1, d.dy) == i + d.dy && Pos(j, 1, d.dx) == j + d.dx;
    assert Pos(i, 2, d.dy) == i + 2 * d.dy && Pos(j, 2, d.dx) == j + 2 * d.dx;
  }

  /** What the four corner rules say about the square at row `i`, column `j`. */
  lemma CornerRules(lines: seq<string>, i: int, j: int)
    requires Rectangular(lines) && InGrid(lines, i, j) && InGrid(lines, i + 2, j + 2)
    ensures var (d1, d2) := Diagonals(lines, i, j);
      (WordAt(lines, MasRules.topLeft, "MAS", i, j) <==> d1 == "MAS") &&
      (WordAt(lines, MasRules.bottomRight, "MAS", i + 2, j + 2) <==> d1 == "SAM") &&
      (WordAt(lines, MasRules.topRight, "MAS", i, j + 2) <==> d2 == "MAS") &&
      (WordAt(lines, MasRules.bottomLeft, "MAS", i + 2, j) <==> d2 == "SAM")
  {
    WordAtThree(lines, MasRules.topLeft, "MAS", i, j);
    WordAtThree(lines, MasRules.bottomRight, "MAS", i + 2, j + 2);
    WordAtThree(lines, MasRules.topRight, "MAS", i, j + 2);
    WordAtThree(lines, MasRules.bottomLeft, "MAS", i + 2, j);
  }

  /** Every X-MAS, by the row and column of its square's top-left corner. */
  function Crosses(lines: seq<string>): set<(int, int)> {
    set i, j | 0 <= i < |lines| && 0 <= j < |lines[i]| && XCross(lines, i, j) :: (i, j)
  }

  /** Part 2: the number of X-MAS squares, each counted once. */
  method Count_X_mas_Cross(input: string) returns (total: nat)
    requires Rectangular(Split(input, '\n'))
    ensures total == |Crosses(Split(input, '\n'))|
  {
    var lines := Split(input, '\n');
    total := CountCrossesInLines(lines);
  }

  /** The X-MAS squares before row `i`, column `j` in scanning order. */
  function CrossesBefore(lines: seq<string>, i: int, j: int): set<(int, int)> {
    set t | t in Crosses(lines) && (t.0 < i || (t.0 == i && t.1 < j))
  }

  method CountCrossesInLines(lines: seq<string>) returns (total: nat)
    requires Rectangular(lines)
    ensures total == |Crosses(lines)|
  {
    ghost var found: set<(int, int)> := {};
    total := 0;
    var i := 0;
    while i < |lines| - 2
      invariant 0 <= i <= |lines|
      invariant found == CrossesBefore(lines, i, 0) && total == |found|
    {
      var j := 0;
      while j < |lines[i]| - 2
        invariant 0 <= j <= |lines[i]|
        invariant found == CrossesBefore(lines, i, j) && total == |found|
      {
        var cross := IsXmasCross(lines, i, j);
        CrossStep(lines, i, j, cross);
        if cross {
          found := found + {(i, j)};
          total := total + 1;
        }
        j := j + 1;
      }
      CrossRowDone(lines, i, j);
      i := i + 1;
    }
    CrossGridDone(lines, i);
  }

  lemma CrossStep(lines: seq<string>, i: int, j: int, cross: bool)
    requires 0 <= i < |lines| && 0 <= j < |lines[i]| && cross == XCross(lines, i, j)
    ensures (i, j) !in CrossesBefore(lines, i, j)
    ensures CrossesBefore(lines, i, j + 1) == CrossesBefore(lines, i, j) + (if cross then {(i, j)} else {})
  {
  }

  /** No square has its corner in the last two columns. */
  lemma CrossRowDone(lines: seq<string>, i: int, j: int)
    requires 0 <= i < |lines| && j >= |lines[i]| - 2 && Rectangular(lines)
    ensures CrossesBefore(lines, i, j) == CrossesBefore(lines, i + 1, 0)
  {
  }

  /** No square has its corner in the last two rows. */
  lemma CrossGridDone(lines: seq<string>, i: int)
    requires i >= |lines| - 2
    ensures CrossesBefore(lines, i, 0) == Crosses(lines)
  {
  }
}
