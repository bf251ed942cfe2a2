/** Day 8, "Resonant Collinearity": antennas of the same frequency create antinodes on the
    line through them. In the first part an antinode lies beyond each antenna at the
    antennas' own distance; in the second part every grid point on the line counts. */
module Day08 {
  import opened GoLib

  datatype Position = Position(x: int, y: int) {

    /** `pos + mul * slope`. */
    function AlongSlope(slope: Slope, mul: int): Position {
      Position(x + slope.dx * mul, y + slope.dy * mul)
    }

    predicate IsInBounds(size: Size) {
      0 <= x < size.width && 0 <= y < size.height
    }
  }

  datatype Slope = Slope(dx: int, dy: int)

  datatype Size = Size(width: int, height: int)

  function Neg(s: Slope): Slope {
    Slope(-s.dx, -s.dy)
  }

  /** The difference `pos1 - pos2`. */
  function FindSlope(pos1: Position, pos2: Position): Slope {
    Slope(pos1.x - pos2.x, pos1.y - pos2.y)
  }

  /** The slope is the step that leads from `pos2` to `pos1`, and it is zero exactly when
      the two positions coincide. */
  lemma SlopeLeadsBack(pos1: Position, pos2: Position)
    ensures pos2.AlongSlope(FindSlope(pos1, pos2), 1) == pos1
    ensures pos1.AlongSlope(FindSlope(pos1, pos2), -1) == pos2
    ensures FindSlope(pos1, pos2) == Slope(0, 0) <==> pos1 == pos2
  {
  }

  /** Moving `a` steps and then `b` steps along a slope is moving `a + b` steps. */
  lemma AlongSlopeAdd(p: Position, s: Slope, a: int, b: int)
    ensures p.AlongSlope(s, a).AlongSlope(s, b) == p.AlongSlope(s, a + b)
  {
    assert s.dx * a + s.dx * b == s.dx * (a + b);
    assert s.dy * a + s.dy * b == s.dy * (a + b);
  }

  /** Moving `m` steps backwards along a slope is moving `-m` steps forwards. */
  lemma AlongNegSlope(p: Position, s: Slope, m: int)
    ensures p.AlongSlope(Neg(s), m) == p.AlongSlope(s, -m)
  {
    assert (-s.dx) * m == s.dx * (-m);
    assert (-s.dy) * m == s.dy * (-m);
  }

  /** The two antinodes of a pair of antennas: one beyond `node1`, one beyond `node2`.
      Each lies on the line through the antennas, twice as far from the far antenna as
      from the near one. */
  function FindAntiNodeLocations(node1: Position, node2: Position, size: Size): (r: seq<Position>)
    ensures |r| == 2
    ensures r[0].x - node2.x == 2 * (r[0].x - node1.x) && r[0].y - node2.y == 2 * (r[0].y - node1.y)
    ensures r[1].x - node1.x == 2 * (r[1].x - node2.x) && r[1].y - node1.y == 2 * (r[1].y - node2.y)
    ensures node1 == node2 ==> r == [node1, node1]
  {
    var slope := FindSlope(node1, node2);
    [node1.AlongSlope(slope, 1), node2.AlongSlope(slope, -1)]
  }

  /** The antinode examples of the tests. */
  lemma AntiNodeExamples()
    ensures FindAntiNodeLocations(Position(1, 3), Position(1, 4), Size(100, 100)) == [Position(1, 2), Position(1, 5)]
    ensures FindAntiNodeLocations(Position(8, 1), Position(5, 2), Size(100, 100)) == [Position(11, 0), Position(2, 3)]
  {
    assert Position(1, 3).AlongSlope(Slope(0, -1), 1) == Position(1, 2);
    assert Position(1, 4).AlongSlope(Slope(0, -1), -1) == Position(1, 5);
    assert Position(8, 1).AlongSlope(Slope(3, -1), 1) == Position(11, 0);
    assert Position(5, 2).AlongSlope(Slope(3, -1), -1) == Position(2, 3);
  }

  // ---------------------------------------------------------------------------
  // All grid points on the line through two antennas
  // ---------------------------------------------------------------------------

  function Clamp(v: int): nat {
    if v < 0 then 0 else v
  }

  /** How many more steps along `s` can stay inside the grid, judged on one coordinate
      that `s` changes. */
  function Budget(p: Position, s: Slope, size: Size): nat {
    if s.dx > 0 then Clamp(size.width - p.x)
    else if s.dx < 0 then Clamp(p.x + 1)
    else if s.dy > 0 then Clamp(size.height - p.y)
    else Clamp(p.y + 1)
  }

  /** The points `p, p + s, p + 2s, …` up to the first one outside the grid. */
  function Ray(p: Position, s: Slope, size: Size): seq<Position>
    requires s != Slope(0, 0)
    decreases Budget(p, s, size)
  {
    if !p.IsInBounds(size) then [] else [p] + Ray(p.AlongSlope(s, 1), s, size)
  }

  /** One step of a ray that starts inside the grid. */
  lemma RayStep(p: Position, s: Slope, size: Size)
    requires s != Slope(0, 0) && p.IsInBounds(size)
    ensures Ray(p, s, size) == [p] + Ray(p.AlongSlope(s, 1), s, size)
    ensures Budget(p.AlongSlope(s, 1), s, size) < Budget(p, s, size)
  {
  }

  /** What `FindAllPointsAlongSlope` returns: the ray from `node1` away from `node2`,
      then the ray from `node2` away from `node1`. */
  function PointsAlongSlope(node1: Position, node2: Position, size: Size): seq<Position>
    requires node1 != node2
  {
    var slope := FindSlope(node1, node2);
    Ray(node1, slope, size) + Ray(node2, Neg(slope), size)
  }

  /** Every point of a ray is inside the grid and a whole number of steps from its
      start. */
  lemma {:induction false} RaySound(p: Position, s: Slope, size: Size, q: Position)
    requires s != Slope(0, 0)
    requires q in Ray(p, s, size)
    ensures q.IsInBounds(size) && exists k: nat :: q == p.AlongSlope(s, k)
    decreases Budget(p, s, size)
  {
    if q == p {
      assert p.AlongSlope(s, 0) == p;
    } else {
      var next := p.AlongSlope(s, 1);
      RaySound(next, s, size, q);
      var k: nat :| q == next.AlongSlope(s, k);
      AlongSlopeAdd(p, s, 1, k);
    }
  }

  /** Along one coordinate: a value that is in range at step 0 and at step `k >= 1` is
      in range at step 1. */
  lemma Between(v: int, d: int, k: int, bound: int)
    requires k >= 1 && 0 <= v < bound && 0 <= v + d * k < bound
    ensures 0 <= v + d < bound
  {
    assert d * k == d + d * (k - 1);
    if d >= 0 {
      assert d * (k - 1) >= 0;
    } else {
      assert d * (k - 1) <= 0;
    }
  }

  /** A ray from inside the grid contains every point of the half-line that is inside
      the grid: the grid is convex, so the ray cannot stop before reaching it. */
  lemma {:induction false} RayComplete(p: Position, s: Slope, size: Size, k: nat)
    requires s != Slope(0, 0)
    requires p.IsInBounds(size) && p.AlongSlope(s, k).IsInBounds(size)
    ensures p.AlongSlope(s, k) in Ray(p, s, size)
    decreases k
  {
    if k == 0 {
      assert p.AlongSlope(s, 0) == p;
    } else {
      var next := p.AlongSlope(s, 1);
      Between(p.x, s.dx, k, size.width);
      Between(p.y, s.dy, k, size.height);
      AlongSlopeAdd(p, s, 1, k - 1);
      RayComplete(next, s, size, k - 1);
    }
  }

  /** `k` steps back from `node2` is `k + 1` steps back from `node1`. */
  lemma Backwards(node1: Position, node2: Position, k: int)
    ensures node2.AlongSlope(Neg(FindSlope(node1, node2)), k) == node1.AlongSlope(FindSlope(node1, node2), -k - 1)
  {
    var s := FindSlope(node1, node2);
    assert (-s.dx) * k == s.dx * (-k - 1) + s.dx;
    assert (-s.dy) * k == s.dy * (-k - 1) + s.dy;
  }

  /** Every point found lies inside the grid on the line through the two antennas. */
  lemma FoundOnLine(node1: Position, node2: Position, size: Size, q: Position)
    requires node1 != node2
    requires q in PointsAlongSlope(node1, node2, size)
    ensures q.IsInBounds(size) && exists m: int :: q == node1.AlongSlope(FindSlope(node1, node2), m)
  {
    var s := FindSlope(node1, node2);
    SlopeLeadsBack(node1, node2);
    if q in Ray(node1, s, size) {
      RaySound(node1, s, size, q);
      var k: nat :| q == node1.AlongSlope(s, k);
    } else {
      RaySound(node2, Neg(s), size, q);
      var k: nat :| q == node2.AlongSlope(Neg(s), k);
      Backwards(node1, node2, k);
    }
  }

  /** Every grid point on the line through two antennas inside the grid is found. */
  lemma LineFound(node1: Position, node2: Position, size: Size, m: int)
    requires node1 != node2 && node1.IsInBounds(size) && node2.IsInBounds(size)
    requires node1.AlongSlope(FindSlope(node1, node2), m).IsInBounds(size)
    ensures node1.AlongSlope(FindSlope(node1, node2), m) in PointsAlongSlope(node1, node2, size)
  {
    var s := FindSlope(node1, node2);
    SlopeLeadsBack(node1, node2);
    if m >= 0 {
      RayComplete(node1, s, size, m);
    } else {
      var k: nat := -m - 1;
      Backwards(node1, node2, k);
      RayComplete(node2, Neg(s), size, k);
    }
  }

  /** For two distinct antennas inside the grid, the points found are exactly the grid
      points on the line through them: `node1 + m * (node1 - node2)` for any integer
      `m`. */
  lemma AlongLineIff(node1: Position, node2: Position, size: Size, q: Position)
    requires node1 != node2 && node1.IsInBounds(size) && node2.IsInBounds(size)
    ensures q in PointsAlongSlope(node1, node2, size) <==>
      q.IsInBounds(size) && exists m: int :: q == node1.AlongSlope(FindSlope(node1, node2), m)
  {
    if q in PointsAlongSlope(node1, node2, size) {
      FoundOnLine(node1, node2, size, q);
    }
    if q.IsInBounds(size) && exists m: int :: q == node1.AlongSlope(FindSlope(node1, node2), m) {
      var m: int :| q == node1.AlongSlope(FindSlope(node1, node2), m);
      LineFound(node1, node2, size, m);
    }
  }

  /** `FindAllPointsAlongSlope`: walks from `node1` in steps of the slope until it leaves
      the grid, then from `node2` in the opposite direction. It loops forever when the
      two nodes coincide inside the grid, hence the precondition. */
  method FindAllPointsAlongSlope(node1: Position, node2: Position, size: Size) returns (antiNodes: seq<Position>)
    requires node1 != node2
    ensures antiNodes == PointsAlongSlope(node1, node2, size)
  {
    var slope := FindSlope(node1, node2);
    SlopeLeadsBack(node1, node2);
    antiNodes := [];
    var i: nat := 0;
    ghost var cur := node1;
    AlongSlopeAdd(node1, slope, 0, 0);
    while true
      invariant cur == node1.AlongSlope(slope, i)
      invariant antiNodes + Ray(cur, slope, size) == Ray(node1, slope, size)
      decreases Budget(cur, slope, size)
    {
      var antiNode := node1.AlongSlope(slope, i);
      if !antiNode.IsInBounds(size) {
        break;
      }
      RayStep(antiNode, slope, size);
      antiNodes := antiNodes + [antiNode];
      AlongSlopeAdd(node1, slope, i, 1);
      cur := cur.AlongSlope(slope, 1);
      i := i + 1;
    }
    assert Ray(cur, slope, size) == [];
    ghost var first := antiNodes;
    assert first == Ray(node1, slope, size);
    i := 0;
    cur := node2;
    AlongSlopeAdd(node2, Neg(slope), 0, 0);
    while true
      invariant cur == node2.AlongSlope(Neg(slope), i)
      invariant antiNodes + Ray(cur, Neg(slope), size) == first + Ray(node2, Neg(slope), size)
      decreases Budget(cur, Neg(slope), size)
    {
      AlongNegSlope(node2, slope, i);
      var antiNode := node2.AlongSlope(slope, -(i as int));
      if !antiNode.IsInBounds(size) {
        break;
      }
      RayStep(antiNode, Neg(slope), size);
      antiNodes := antiNodes + [antiNode];
      AlongSlopeAdd(node2, Neg(slope), i, 1);
      cur := cur.AlongSlope(Neg(slope), 1);
      i := i + 1;
    }
    assert Ray(cur, Neg(slope), size) == [];
  }

  // ---------------------------------------------------------------------------
  // Pairs of antennas
  // ---------------------------------------------------------------------------

  /** The pairs `(elements[i], elements[j])` with `i < j`, for `i` from `from` on, in the
      order of the two nested loops of `FindAllPairs`. */
  function PairsFrom<T>(elements: seq<T>, from: nat): seq<(T, T)>
    decreases |elements| - from
  {
    if from + 1 >= |elements| then []
    else PairRow(elements, from) + PairsFrom(elements, from + 1)
  }

  /** The pairs whose first element is `elements[i]`. */
  function PairRow<T>(elements: seq<T>, i: nat): (row: seq<(T, T)>)
    requires i < |elements|
    ensures |row| == |elements| - i - 1
  {
    seq(|elements| - i - 1, k requires 0 <= k < |elements| - i - 1 => (elements[i], elements[i + 1 + k]))
  }

  function AllPairs<T>(elements: seq<T>): seq<(T, T)> {
    PairsFrom(elements, 0)
  }

  /** There are `n (n - 1) / 2` pairs. */
  lemma {:induction false} PairsFromCount<T>(elements: seq<T>, from: nat)
    requires from <= |elements|
    ensures 2 * |PairsFrom(elements, from)| == (|elements| - from) * (|elements| - from - 1)
    decreases |elements| - from
  {
    if from + 1 < |elements| {
      PairsFromCount(elements, from + 1);
      var m := |elements| - from;
      assert m * (m - 1) == 2 * (m - 1) + (m - 1) * (m - 2);
    }
  }

  lemma PairsCount<T>(elements: seq<T>)
    ensures |AllPairs(elements)| == |elements| * (|elements| - 1) / 2
  {
    PairsFromCount(elements, 0);
  }

  /** The pairs are exactly the elements at two increasing indices. */
  lemma {:induction false} PairsFromMembers<T>(elements: seq<T>, from: nat, a: T, b: T)
    ensures (a, b) in PairsFrom(elements, from) <==>
      exists i, j :: from <= i < j < |elements| && elements[i] == a && elements[j] == b
    decreases |elements| - from
  {
    if from + 1 < |elements| {
      PairsFromMembers(elements, from + 1, a, b);
      var row, rest := PairRow(elements, from), PairsFrom(elements, from + 1);
      assert PairsFrom(elements, from) == row + rest;
      if (a, b) in row {
        var k :| 0 <= k < |row| && row[k] == (a, b);
        assert from < from + 1 + k < |elements| && elements[from] == a && elements[from + 1 + k] == b;
      }
      if exists i, j :: from <= i < j < |elements| && elements[i] == a && elements[j] == b {
        var i, j :| from <= i < j < |elements| && elements[i] == a && elements[j] == b;
        if i == from {
          assert row[j - from - 1] == (a, b);
          assert (a, b) in row;
        } else {
          assert (a, b) in rest;
        }
      }
    }
  }

  lemma PairsMembers<T>(elements: seq<T>, a: T, b: T)
    ensures (a, b) in AllPairs(elements) <==>
      exists i, j :: 0 <= i < j < |elements| && elements[i] == a && elements[j] == b
  {
    PairsFromMembers(elements, 0, a, b);
  }

  /** `FindAllPairs`: every pair of two distinct indices, the smaller index first. */
  method FindAllPairs<T>(elements: seq<T>) returns (result: seq<(T, T)>)
    ensures result == AllPairs(elements)
  {
    result := [];
    if |elements| == 0 {
      return;
    }
    for i := 0 to |elements| - 1
      invariant result + PairsFrom(elements, i) == AllPairs(elements)
    {
      var before := result;
      for j := i + 1 to |elements|
        invariant result == before + PairRow(elements, i)[..j - i - 1]
      {
        assert PairRow(elements, i)[..j - i] == PairRow(elements, i)[..j - i - 1] + [(elements[i], elements[j])];
        result := result + [(elements[i], elements[j])];
      }
      assert PairRow(elements, i)[..|elements| - i - 1] == PairRow(elements, i);
    }
  }

  // ---------------------------------------------------------------------------
  // Reading the grid
  // ---------------------------------------------------------------------------

  /** The antenna positions by frequency, and the size of the grid. */
  datatype Grid = Grid(size: Size, nodes: map<char, seq<Position>>)

  /** The cells holding `c`, row by row and left to right. */
  function CellsWith(rows: seq<string>, c: char): seq<Position> {
    if rows == [] then []
    else CellsWith(rows[..|rows| - 1], c) + CellsInRow(rows[|rows| - 1], |rows| - 1, c, |rows[|rows| - 1]|)
  }

  /** The cells of the first `n` characters of row `y` holding `c`. */
  function CellsInRow(row: string, y: int, c: char, n: nat): seq<Position>
    requires n <= |row|
  {
    if n == 0 then []
    else CellsInRow(row, y, c, n - 1) + (if row[n - 1] == c then [Position(n - 1, y)] else [])
  }

  lemma {:induction false} CellsInRowMembers(row: string, y: int, c: char, n: nat, p: Position)
    requires n <= |row|
    ensures p in CellsInRow(row, y, c, n) <==> p.y == y && 0 <= p.x < n && row[p.x] == c
  {
    if n > 0 {
      CellsInRowMembers(row, y, c, n - 1, p);
    }
  }

  /** Exactly the cells holding `c` are listed. */
  lemma {:induction false} CellsWithMembers(rows: seq<string>, c: char, p: Position)
    ensures p in CellsWith(rows, c) <==> 0 <= p.y < |rows| && 0 <= p.x < |rows[p.y]| && rows[p.y][p.x] == c
  {
    if rows != [] {
      var n := |rows| - 1;
      CellsWithMembers(rows[..n], c, p);
      CellsInRowMembers(rows[n], n, c, |rows[n]|, p);
    }
  }

  predicate Distinct(s: seq<Position>) {
    forall i, j :: 0 <= i < j < |s| ==> s[i] != s[j]
  }

  lemma {:induction false} CellsInRowDistinct(row: string, y: int, c: char, n: nat)
    requires n <= |row|
    ensures Distinct(CellsInRow(row, y, c, n))
  {
    if n > 0 {
      CellsInRowDistinct(row, y, c, n - 1);
      CellsInRowMembers(row, y, c, n - 1, Position(n - 1, y));
    }
  }

  /** No cell is listed twice. */
  lemma {:induction false} CellsWithDistinct(rows: seq<string>, c: char)
    ensures Distinct(CellsWith(rows, c))
  {
    if rows != [] {
      var n := |rows| - 1;
      var earlier := CellsWith(rows[..n], c);
      var last := CellsInRow(rows[n], n, c, |rows[n]|);
      CellsWithDistinct(rows[..n], c);
      CellsInRowDistinct(rows[n], n, c, |rows[n]|);
      forall i, j | 0 <= i < |earlier| && 0 <= j < |last|
        ensures earlier[i] != last[j]
      {
        CellsWithMembers(rows[..n], c, earlier[i]);
        CellsInRowMembers(rows[n], n, c, |rows[n]|, last[j]);
      }
    }
  }

  /** `ReadInputGrid`: every character other than '.' is an antenna; its positions are
      listed under its frequency in reading order, and a frequency is present exactly
      when it occurs. The size comes from the first line and the number of lines. */
  method ReadInputGrid(input: string) returns (grid: Grid)
    ensures var lines := Split(input, '\n');
      grid.size == Size(|lines[0]|, |lines|) &&
      forall c :: Holds(grid.nodes, c, CellsWith(lines, c))
  {
    var nodePositions: map<char, seq<Position>> := map[];
    var lines := Split(input, '\n');
    for i := 0 to |lines|
      invariant forall c :: Holds(nodePositions, c, CellsWith(lines[..i], c))
    {
      assert lines[..i + 1] == lines[..i] + [lines[i]];
      nodePositions := ReadLine(nodePositions, lines[..i], lines[i]);
    }
    assert lines[..|lines|] == lines;
    grid := Grid(Size(|lines[0]|, |lines|), nodePositions);
  }

  /** `nodes` lists `cells` under frequency `c`, and has `c` exactly when it is an
      antenna frequency with at least one cell. */
  predicate Holds(nodes: map<char, seq<Position>>, c: char, cells: seq<Position>) {
    (c in nodes <==> c != '.' && cells != []) && (c in nodes ==> nodes[c] == cells)
  }

  /** Recording the character at column `j` of the line after `above` keeps every
      character's list equal to the cells holding it so far. */
  lemma RecordCell(before: map<char, seq<Position>>, after: map<char, seq<Position>>,
                   above: seq<string>, line: string, j: nat)
    requires j < |line|
    requires forall c :: Holds(before, c, CellsWith(above, c) + CellsInRow(line, |above|, c, j))
    requires line[j] == '.' ==> after == before
    requires line[j] != '.' ==> after == before[line[j] :=
      (if line[j] in before then before[line[j]] else []) + [Position(j, |above|)]]
    ensures forall c :: Holds(after, c, CellsWith(above, c) + CellsInRow(line, |above|, c, j + 1))
  {
    forall c
      ensures Holds(after, c, CellsWith(above, c) + CellsInRow(line, |above|, c, j + 1))
    {
      RecordCellFor(before, after, above, line, j, c);
    }
  }

  /** `RecordCell` for one character `c`. */
  lemma RecordCellFor(before: map<char, seq<Position>>, after: map<char, seq<Position>>,
                      above: seq<string>, line: string, j: nat, c: char)
    requires j < |line|
    requires Holds(before, c, CellsWith(above, c) + CellsInRow(line, |above|, c, j))
    requires line[j] == '.' ==> after == before
    requires line[j] != '.' ==> after == before[line[j] :=
      (if line[j] in before then before[line[j]] else []) + [Position(j, |above|)]]
    ensures Holds(after, c, CellsWith(above, c) + CellsInRow(line, |above|, c, j + 1))
  {
    var i := |above|;
    var cells := CellsWith(above, c) + CellsInRow(line, i, c, j);
    if c != line[j] {
      assert CellsInRow(line, i, c, j + 1) == CellsInRow(line, i, c, j);
    } else {
      assert CellsInRow(line, i, c, j + 1) == CellsInRow(line, i, c, j) + [Position(j, i)];
      assert CellsWith(above, c) + CellsInRow(line, i, c, j + 1) == cells + [Position(j, i)];
    }
  }

  /** The inner loop of `ReadInputGrid`: records the antennas of the line after `above`. */
  method ReadLine(nodes0: map<char, seq<Position>>, above: seq<string>, line: string)
    returns (nodes: map<char, seq<Position>>)
    requires forall c :: Holds(nodes0, c, CellsWith(above, c))
    ensures forall c :: Holds(nodes, c, CellsWith(above + [line], c))
  {
    nodes := nodes0;
    var i := |above|;
    for j := 0 to |line|
      invariant forall c :: Holds(nodes, c, CellsWith(above, c) + CellsInRow(line, i, c, j))
    {
      var ch := line[j];
      ghost var before := nodes;
      if ch != '.' {
        var positions := if ch in nodes then nodes[ch] else [];
        positions := positions + [Position(j, i)];
        nodes := nodes[ch := positions];
      }
      RecordCell(before, nodes, above, line, j);
    }
    assert (above + [line])[..|above|] == above;
  }

  // ---------------------------------------------------------------------------
  // Collecting antinodes
  // ---------------------------------------------------------------------------

  /** The two node finders the solution passes to `FindAllAntiNodes`. */
  datatype NodeFinder = AntiNodeLocations | AllPointsAlongSlope

  /** The points a finder reports for one pair of antennas. */
  function FoundNodes(f: NodeFinder, node1: Position, node2: Position, size: Size): seq<Position>
    requires f == AllPointsAlongSlope ==> node1 != node2
  {
    match f
    case AntiNodeLocations => FindAntiNodeLocations(node1, node2, size)
    case AllPointsAlongSlope => PointsAlongSlope(node1, node2, size)
  }

  /** The in-grid points of a list. */
  function InBoundsSet(s: seq<Position>, size: Size): set<Position> {
    set q | q in s && q.IsInBounds(size)
  }

  function Elements(s: seq<Position>): set<Position> {
    set q | q in s
  }

  predicate DistinctPairs(pairs: seq<(Position, Position)>) {
    forall k :: 0 <= k < |pairs| ==> pairs[k].0 != pairs[k].1
  }

  /** The in-grid points found for the given pairs of antennas. */
  function PairsNodes(pairs: seq<(Position, Position)>, f: NodeFinder, size: Size): set<Position>
    requires f == AllPointsAlongSlope ==> DistinctPairs(pairs)
  {
    if pairs == [] then {}
    else
      var p := pairs[|pairs| - 1];
      PairsNodes(pairs[..|pairs| - 1], f, size) + InBoundsSet(FoundNodes(f, p.0, p.1, size), size)
  }

  /** Pairs of a list without repeated elements join two different positions. */
  lemma PairsOfDistinct(elements: seq<Position>)
    requires Distinct(elements)
    ensures DistinctPairs(AllPairs(elements))
  {
    var pairs := AllPairs(elements);
    forall k | 0 <= k < |pairs|
      ensures pairs[k].0 != pairs[k].1
    {
      PairsMembers(elements, pairs[k].0, pairs[k].1);
    }
  }

  predicate Findable(grid: Grid, f: NodeFinder) {
    f == AllPointsAlongSlope ==> forall c :: c in grid.nodes ==> Distinct(grid.nodes[c])
  }

  /** The antinodes of all frequencies in `freqs`. */
  ghost function AntiNodesOf(grid: Grid, f: NodeFinder, freqs: set<char>): set<Position>
    requires freqs <= grid.nodes.Keys && Findable(grid, f)
  {
    set c, q | c in freqs && q in FrequencyNodes(grid, f, c) :: q
  }

  /** The antinodes created by the antennas of frequency `c`. */
  function FrequencyNodes(grid: Grid, f: NodeFinder, c: char): set<Position>
    requires c in grid.nodes && Findable(grid, f)
  {
    if f == AllPointsAlongSlope then PairsOfDistinct(grid.nodes[c]); PairsNodes(AllPairs(grid.nodes[c]), f, grid.size)
    else PairsNodes(AllPairs(grid.nodes[c]), f, grid.size)
  }

  /** `insertIfValid`: appends a node that is inside the grid and not yet listed. */
  function InsertIfValid(antiNodes: seq<Position>, node: Position, size: Size): (r: seq<Position>)
    requires Distinct(antiNodes)
    ensures Distinct(r)
    ensures Elements(r) == Elements(antiNodes) + (if node.IsInBounds(size) then {node} else {})
    ensures r == antiNodes || r == antiNodes + [node]
  {
    if node in antiNodes then antiNodes
    else if !node.IsInBounds(size) then antiNodes
    else antiNodes + [node]
  }

  /** `FindAllAntiNodes`: the distinct in-grid antinodes of every frequency. Go visits
      the frequencies in map order, which is unspecified; the model picks them in an
      arbitrary order too, and the result as a set is the same whatever the order. */
  method FindAllAntiNodes(grid: Grid, f: NodeFinder) returns (antiNodes: seq<Position>)
    requires Findable(grid, f)
    ensures Distinct(antiNodes)
    ensures forall k :: 0 <= k < |antiNodes| ==> antiNodes[k].IsInBounds(grid.size)
    ensures Elements(antiNodes) == AntiNodesOf(grid, f, grid.nodes.Keys)
  {
    antiNodes := [];
    var remaining := grid.nodes.Keys;
    while remaining != {}
      invariant remaining <= grid.nodes.Keys
      invariant Distinct(antiNodes)
      invariant Elements(antiNodes) == AntiNodesOf(grid, f, grid.nodes.Keys - remaining)
      decreases remaining
    {
      var c :| c in remaining;
      var nodes := grid.nodes[c];
      if f == AllPointsAlongSlope {
        PairsOfDistinct(nodes);
      }
      var combinations := FindAllPairs(nodes);
      antiNodes := InsertPairsNodes(antiNodes, combinations, f, grid.size);
      AntiNodesOfStep(grid, f, grid.nodes.Keys - remaining, c);
      remaining := remaining - {c};
      assert grid.nodes.Keys - remaining == (grid.nodes.Keys - (remaining + {c})) + {c};
    }
    InBoundsOf(grid, f, antiNodes);
  }

  /** The loop over the pairs of one frequency. */
  method InsertPairsNodes(antiNodes0: seq<Position>, combinations: seq<(Position, Position)>, f: NodeFinder, size: Size)
    returns (antiNodes: seq<Position>)
    requires Distinct(antiNodes0)
    requires f == AllPointsAlongSlope ==> DistinctPairs(combinations)
    ensures Distinct(antiNodes)
    ensures Elements(antiNodes) == Elements(antiNodes0) + PairsNodes(combinations, f, size)
  {
    antiNodes := antiNodes0;
    for k := 0 to |combinations|
      invariant Distinct(antiNodes)
      invariant Elements(antiNodes) == Elements(antiNodes0) + PairsNodes(combinations[..k], f, size)
    {
      assert combinations[..k + 1][..k] == combinations[..k];
      var pair := combinations[k];
      var foundAntiNodes := FindNodes(f, pair.0, pair.1, size);
      antiNodes := InsertAll(antiNodes, foundAntiNodes, size);
    }
    assert combinations[..|combinations|] == combinations;
  }

  /** The loop over the nodes found for one pair. */
  method InsertAll(antiNodes0: seq<Position>, found: seq<Position>, size: Size) returns (antiNodes: seq<Position>)
    requires Distinct(antiNodes0)
    ensures Distinct(antiNodes)
    ensures Elements(antiNodes) == Elements(antiNodes0) + InBoundsSet(found, size)
  {
    antiNodes := antiNodes0;
    for n := 0 to |found|
      invariant Distinct(antiNodes)
      invariant Elements(antiNodes) == Elements(antiNodes0) + InBoundsSet(found[..n], size)
    {
      assert InBoundsSet(found[..n + 1], size) == InBoundsSet(found[..n], size)
        + (if found[n].IsInBounds(size) then {found[n]} else {}) by {
        assert found[..n + 1] == found[..n] + [found[n]];
      }
      antiNodes := InsertIfValid(antiNodes, found[n], size);
    }
    assert found[..|found|] == found;
  }

  /** Calls the finder the solution passed in. */
  method FindNodes(f: NodeFinder, node1: Position, node2: Position, size: Size) returns (found: seq<Position>)
    requires f == AllPointsAlongSlope ==> node1 != node2
    ensures found == FoundNodes(f, node1, node2, size)
  {
    match f
    case AntiNodeLocations => found := FindAntiNodeLocations(node1, node2, size);
    case AllPointsAlongSlope => found := FindAllPointsAlongSlope(node1, node2, size);
  }

  /** Adding one frequency adds its antinodes. */
  lemma AntiNodesOfStep(grid: Grid, f: NodeFinder, done: set<char>, c: char)
    requires done <= grid.nodes.Keys && c in grid.nodes && Findable(grid, f)
    ensures AntiNodesOf(grid, f, done + {c}) == AntiNodesOf(grid, f, done) + FrequencyNodes(grid, f, c)
  {
  }

  /** Every collected antinode lies inside the grid. */
  lemma InBoundsOf(grid: Grid, f: NodeFinder, antiNodes: seq<Position>)
    requires Findable(grid, f)
    requires Elements(antiNodes) == AntiNodesOf(grid, f, grid.nodes.Keys)
    ensures forall k :: 0 <= k < |antiNodes| ==> antiNodes[k].IsInBounds(grid.size)
  {
    forall k | 0 <= k < |antiNodes|
      ensures antiNodes[k].IsInBounds(grid.size)
    {
      assert antiNodes[k] in Elements(antiNodes);
      var c :| c in grid.nodes && antiNodes[k] in FrequencyNodes(grid, f, c);
      var pairs := AllPairs(grid.nodes[c]);
      if f == AllPointsAlongSlope {
        PairsOfDistinct(grid.nodes[c]);
      }
      PairsNodesInBounds(pairs, f, grid.size, antiNodes[k]);
    }
  }

  lemma {:induction false} PairsNodesInBounds(pairs: seq<(Position, Position)>, f: NodeFinder, size: Size, q: Position)
    requires f == AllPointsAlongSlope ==> DistinctPairs(pairs)
    requires q in PairsNodes(pairs, f, size)
    ensures q.IsInBounds(size)
  {
    if q !in InBoundsSet(FoundNodes(f, pairs[|pairs| - 1].0, pairs[|pairs| - 1].1, size), size) {
      PairsNodesInBounds(pairs[..|pairs| - 1], f, size, q);
    }
  }
}
