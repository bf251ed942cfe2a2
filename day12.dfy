/** Day 12, "Garden Groups": a map of garden plots, each labelled with a plant. Plots of
    the same plant joined by up/down/left/right steps form a region. Part 1 prices each
    region at area times perimeter, part 2 at area times number of sides. */
module Day12 {
  import opened GoLib

  datatype Direction = Direction(dx: int, dy: int)

  const Up := Direction(0, -1)
  const Down := Direction(0, 1)
  const Right := Direction(1, 0)
  const Left := Direction(-1, 0)

  /** The order in which neighbours are tried. */
  const AllDirs: seq<Direction> := [Up, Right, Down, Left]

  function Opposite(dir: Direction): Direction {
    Direction(-dir.dx, -dir.dy)
  }

  predicate IsVertical(dir: Direction) {
    dir.dx == 0
  }

  /** The two directions along a fence that faces `dir`. */
  function FindPerpDirs(dir: Direction): (Direction, Direction) {
    if dir == Up || dir == Down then (Right, Left) else (Up, Down)
  }

  /** For each of the four directions, `FindPerpDirs` gives two opposite directions at
      right angles to it. */
  lemma PerpDirsArePerpendicular(dir: Direction)
    requires dir in AllDirs
    ensures var r := FindPerpDirs(dir);
      r.0 in AllDirs && r.1 == Opposite(r.0) && IsVertical(r.0) != IsVertical(dir)
  {
  }

  datatype Position = Position(x: int, y: int) {
    function MoveAlong(dir: Direction): Position {
      Position(x + dir.dx, y + dir.dy)
    }
  }

  /** A cell outside a region together with the direction in which it was reached. */
  datatype PosDir = PosDir(pos: Position, dir: Direction)

  /** One step up, down, left or right. */
  predicate Adjacent(p: Position, q: Position) {
    Abs(p.x - q.x) + Abs(p.y - q.y) == 1
  }

  predicate Distinct<T(==)>(s: seq<T>) {
    forall i, j :: 0 <= i < j < |s| ==> s[i] != s[j]
  }

  /** The four neighbours of `pos`, in the order of `AllDirs`. */
  function Neighbours(pos: Position): (r: seq<Position>)
    ensures |r| == |AllDirs| && forall i :: 0 <= i < |r| ==> r[i] == pos.MoveAlong(AllDirs[i])
  {
    [pos.MoveAlong(Up), pos.MoveAlong(Right), pos.MoveAlong(Down), pos.MoveAlong(Left)]
  }

  /** The neighbours are exactly the adjacent cells, each listed once. */
  lemma NeighboursAdjacent(pos: Position)
    ensures forall q :: q in Neighbours(pos) <==> Adjacent(pos, q)
    ensures Distinct(Neighbours(pos))
  {
  }

  /** The elements of `s` that `keep` accepts, in order. */
  function Filter(s: seq<Position>, keep: Position -> bool): (r: seq<Position>)
    ensures |r| <= |s|
  {
    if s == [] then []
    else Filter(s[..|s| - 1], keep) + (if keep(s[|s| - 1]) then [s[|s| - 1]] else [])
  }

  /** The kept elements are exactly the elements `keep` accepts. */
  lemma {:induction false} FilterMembers(s: seq<Position>, keep: Position -> bool)
    ensures forall q :: q in Filter(s, keep) <==> q in s && keep(q)
  {
    if s != [] {
      var init, last := s[..|s| - 1], s[|s| - 1];
      FilterMembers(init, keep);
      assert s == init + [last];
    }
  }

  lemma {:induction false} FilterDistinct(s: seq<Position>, keep: Position -> bool)
    requires Distinct(s)
    ensures Distinct(Filter(s, keep))
  {
    if s != [] {
      var init := s[..|s| - 1];
      FilterDistinct(init, keep);
      FilterMembers(init, keep);
      assert s[|s| - 1] !in init;
    }
  }

  lemma {:induction false} FilterAll(s: seq<Position>, keep: Position -> bool)
    requires forall i :: 0 <= i < |s| ==> keep(s[i])
    ensures Filter(s, keep) == s
  {
    if s != [] {
      FilterAll(s[..|s| - 1], keep);
      assert s == s[..|s| - 1] + [s[|s| - 1]];
    }
  }

  /** `FindAdjacentValidCells`: the neighbours of `pos` that `isValid` accepts. */
  method FindAdjacentValidCells(pos: Position, isValid: Position -> bool) returns (positions: seq<Position>)
    ensures positions == Filter(Neighbours(pos), isValid)
    ensures forall q :: q in positions <==> Adjacent(pos, q) && isValid(q)
    ensures Distinct(positions) && |positions| <= 4
  {
    positions := [];
    for i := 0 to |AllDirs|
      invariant positions == Filter(Neighbours(pos)[..i], isValid)
    {
      var nextPos := pos.MoveAlong(AllDirs[i]);
      assert Neighbours(pos)[..i + 1][..i] == Neighbours(pos)[..i];
      if isValid(nextPos) {
        positions := positions + [nextPos];
      }
    }
    assert Neighbours(pos)[..|AllDirs|] == Neighbours(pos);
    NeighboursAdjacent(pos);
    FilterMembers(Neighbours(pos), isValid);
    FilterDistinct(Neighbours(pos), isValid);
  }

  /** The four neighbours of `pos`, each with the direction that leads to it. */
  function Edges(pos: Position): (r: seq<PosDir>)
    ensures |r| == |AllDirs|
  {
    [PosDir(pos.MoveAlong(Up), Up), PosDir(pos.MoveAlong(Right), Right),
     PosDir(pos.MoveAlong(Down), Down), PosDir(pos.MoveAlong(Left), Left)]
  }

  /** Entry `i` of `Edges(pos)` steps along `AllDirs[i]`. */
  lemma EdgesAt(pos: Position)
    ensures forall i :: 0 <= i < |AllDirs| ==> Edges(pos)[i] == PosDir(pos.MoveAlong(AllDirs[i]), AllDirs[i])
  {
  }

  /** `FindAdjacentCells`. */
  method FindAdjacentCells(pos: Position) returns (positions: seq<PosDir>)
    ensures positions == Edges(pos)
    ensures forall e :: e in positions <==> e.dir in AllDirs && e.pos == pos.MoveAlong(e.dir)
  {
    positions := [];
    for i := 0 to |AllDirs|
      invariant positions == Edges(pos)[..i]
    {
      var nextPos := pos.MoveAlong(AllDirs[i]);
      positions := positions + [PosDir(nextPos, AllDirs[i])];
    }
  }

  // ---------------------------------------------------------------------------
  // Area and perimeter
  // ---------------------------------------------------------------------------

  function SetOf(region: seq<Position>): set<Position> {
    set q | q in region
  }

  lemma {:induction false} DistinctCard(region: seq<Position>)
    requires Distinct(region)
    ensures |SetOf(region)| == |region|
  {
    if region != [] {
      var init := region[..|region| - 1];
      DistinctCard(init);
      assert SetOf(region) == SetOf(init) + {region[|region| - 1]};
    }
  }

  /** `Area`: a region listed without repeats has as many cells as it has entries. */
  function Area(region: seq<Position>): (a: nat)
    ensures Distinct(region) ==> a == |SetOf(region)|
  {
    assert Distinct(region) ==> |region| == |SetOf(region)| by {
      if Distinct(region) {
        DistinctCard(region);
      }
    }
    |region|
  }

  /** How many of `cells` lie outside `region`. */
  function CountOutside(cells: seq<Position>, region: seq<Position>): (n: nat)
    ensures n <= |cells|
  {
    if cells == [] then 0
    else CountOutside(cells[..|cells| - 1], region) + (if cells[|cells| - 1] in region then 0 else 1)
  }

  /** The fence segments around `cells`: neighbours of a cell that lie outside `region`. */
  function PerimeterOver(region: seq<Position>, cells: seq<Position>): (n: nat)
    ensures n <= 4 * |cells|
  {
    if cells == [] then 0
    else PerimeterOver(region, cells[..|cells| - 1]) + CountOutside(Neighbours(cells[|cells| - 1]), region)
  }

  lemma {:induction false} CountOutsideAll(cells: seq<Position>, region: seq<Position>)
    requires forall q :: q in cells ==> q !in region
    ensures CountOutside(cells, region) == |cells|
  {
    if cells != [] {
      CountOutsideAll(cells[..|cells| - 1], region);
    }
  }

  function PerimeterOf(region: seq<Position>): nat {
    PerimeterOver(region, region)
  }

  /** `Perimeter`: one fence segment per (cell, neighbour) pair with the neighbour outside
      the region. */
  method Perimeter(region: seq<Position>) returns (total: int)
    ensures total == PerimeterOf(region)
    ensures 0 <= total <= 4 * |region|
  {
    total := 0;
    for i := 0 to |region|
      invariant total == PerimeterOver(region, region[..i])
    {
      var pos := region[i];
      var alwaysTrue := (q: Position) => true;
      var adjacent := FindAdjacentValidCells(pos, alwaysTrue);
      FilterAll(Neighbours(pos), alwaysTrue);
      var count := 0;
      for j := 0 to |adjacent|
        invariant count == CountOutside(adjacent[..j], region)
      {
        assert adjacent[..j + 1][..j] == adjacent[..j];
        if adjacent[j] !in region {
          count := count + 1;
        }
      }
      assert adjacent[..|adjacent|] == adjacent;
      assert region[..i + 1][..i] == region[..i];
      total := total + count;
    }
    assert region[..|region|] == region;
  }

  lemma SingleCellPerimeter(pos: Position)
    ensures PerimeterOf([pos]) == 4
  {
    assert [pos][..0] == [];
    CountOutsideAll(Neighbours(pos), [pos]);
  }

  // ---------------------------------------------------------------------------
  // Sides, as written
  // ---------------------------------------------------------------------------

  /** The entries of `edges` that lead out of `region`, in order. */
  function ExposedOf(edges: seq<PosDir>, region: seq<Position>): (r: seq<PosDir>)
    ensures |r| <= |edges|
  {
    if edges == [] then []
    else
      var last := edges[|edges| - 1];
      ExposedOf(edges[..|edges| - 1], region) + (if last.pos in region then [] else [last])
  }

  /** Every (outside cell, direction) pair met while walking `cells` in order. */
  function ExposedOver(region: seq<Position>, cells: seq<Position>): seq<PosDir> {
    if cells == [] then []
    else ExposedOver(region, cells[..|cells| - 1]) + ExposedAt(cells[|cells| - 1], region)
  }

  /** The pairs around `pos` that lead out of `region`, in the order of `AllDirs`. */
  function ExposedAt(pos: Position, region: seq<Position>): seq<PosDir> {
    ExposedOf(Edges(pos), region)
  }

  /** `seen` already holds a pair one step along the fence from `e`, either way. */
  predicate Joins(e: PosDir, seen: seq<PosDir>) {
    var perpDirs := FindPerpDirs(e.dir);
    PosDir(e.pos.MoveAlong(perpDirs.0), e.dir) in seen || PosDir(e.pos.MoveAlong(perpDirs.1), e.dir) in seen
  }

  /** The count `NumSides` keeps: each pair adds one unless, once appended, the list
      already holds a neighbour of it along the fence. */
  function CountAsWritten(posDirs: seq<PosDir>): (n: nat)
    ensures n <= |posDirs|
  {
    if posDirs == [] then 0
    else CountAsWritten(posDirs[..|posDirs| - 1]) + (if Joins(posDirs[|posDirs| - 1], posDirs) then 0 else 1)
  }

  function NumSidesAsWritten(region: seq<Position>): nat {
    CountAsWritten(ExposedOver(region, region))
  }

  /** `NumSides`, as written: the answer depends on the order of `region` (see
      `NumSidesDependsOnOrder`). */
  method NumSides(region: seq<Position>) returns (total: int)
    ensures total == NumSidesAsWritten(region)
    ensures 0 <= total <= PerimeterOf(region)
  {
    total := 0;
    var posDirs: seq<PosDir> := [];
    for i := 0 to |region|
      invariant posDirs == ExposedOver(region, region[..i])
      invariant total == CountAsWritten(posDirs)
    {
      posDirs, total := ScanAround(region, region[i], posDirs, total);
      ExposedOverSnoc(region, region, i);
    }
    assert region[..|region|] == region;
    NumSidesAtMostPerimeter(region);
  }

  /** The inner loop of `NumSides`: appends the pairs around `pos` that lead out of
      `region`, counting those with no neighbour along the fence listed yet. */
  method ScanAround(region: seq<Position>, pos: Position, posDirs0: seq<PosDir>, total0: int)
    returns (posDirs: seq<PosDir>, total: int)
    requires total0 == CountAsWritten(posDirs0)
    ensures posDirs == posDirs0 + ExposedAt(pos, region)
    ensures total == CountAsWritten(posDirs)
  {
    posDirs, total := posDirs0, total0;
    var adjacent := FindAdjacentCells(pos);
    for j := 0 to |adjacent|
      invariant posDirs == posDirs0 + ExposedOf(adjacent[..j], region)
      invariant total == CountAsWritten(posDirs)
    {
      var adjPos := adjacent[j];
      ExposedOfSnoc(adjacent, j, region);
      if adjPos.pos in region {
        assert ExposedOf(adjacent[..j], region) + [] == ExposedOf(adjacent[..j], region);
        continue;
      }
      Append3(posDirs0, ExposedOf(adjacent[..j], region), [adjPos]);
      CountAsWrittenSnoc(posDirs, adjPos);
      posDirs := posDirs + [adjPos];
      var perpDirs := FindPerpDirs(adjPos.dir);
      if PosDir(adjPos.pos.MoveAlong(perpDirs.0), adjPos.dir) in posDirs {
        continue;
      }
      if PosDir(adjPos.pos.MoveAlong(perpDirs.1), adjPos.dir) in posDirs {
        continue;
      }
      total := total + 1;
    }
    assert adjacent[..|adjacent|] == adjacent;
  }

  lemma ExposedOfSnoc(edges: seq<PosDir>, j: nat, region: seq<Position>)
    requires j < |edges|
    ensures ExposedOf(edges[..j + 1], region)
      == ExposedOf(edges[..j], region) + (if edges[j].pos in region then [] else [edges[j]])
  {
    assert edges[..j + 1][..j] == edges[..j];
  }

  lemma ExposedOverSnoc(region: seq<Position>, cells: seq<Position>, i: nat)
    requires i < |cells|
    ensures ExposedOver(region, cells[..i + 1]) == ExposedOver(region, cells[..i]) + ExposedAt(cells[i], region)
  {
    var prefix := cells[..i + 1];
    assert prefix[..|prefix| - 1] == cells[..i];
  }

  lemma CountAsWrittenSnoc(posDirs: seq<PosDir>, e: PosDir)
    ensures CountAsWritten(posDirs + [e]) == CountAsWritten(posDirs) + (if Joins(e, posDirs + [e]) then 0 else 1)
  {
    assert (posDirs + [e])[..|posDirs|] == posDirs;
  }

  lemma Append3<T>(a: seq<T>, b: seq<T>, c: seq<T>)
    ensures a + (b + c) == (a + b) + c
  {
  }

  lemma {:induction false} ExposedOfEdges(pos: Position, region: seq<Position>, k: nat)
    requires k <= |AllDirs|
    ensures |ExposedOf(Edges(pos)[..k], region)| == CountOutside(Neighbours(pos)[..k], region)
  {
    if k > 0 {
      ExposedOfEdges(pos, region, k - 1);
      assert Edges(pos)[..k][..k - 1] == Edges(pos)[..k - 1];
      assert Neighbours(pos)[..k][..k - 1] == Neighbours(pos)[..k - 1];
    }
  }

  /** Every pair `NumSides` lists is one fence segment counted by `Perimeter`. */
  lemma {:induction false} ExposedOverLength(region: seq<Position>, cells: seq<Position>)
    ensures |ExposedOver(region, cells)| == PerimeterOver(region, cells)
  {
    if cells != [] {
      var pos := cells[|cells| - 1];
      ExposedOverLength(region, cells[..|cells| - 1]);
      ExposedOfEdges(pos, region, |AllDirs|);
      assert Edges(pos)[..|AllDirs|] == Edges(pos);
      assert Neighbours(pos)[..|AllDirs|] == Neighbours(pos);
    }
  }

  /** `NumSides` counts some of the fence segments, never more than there are. */
  lemma NumSidesAtMostPerimeter(region: seq<Position>)
    ensures NumSidesAsWritten(region) <= PerimeterOf(region)
  {
    ExposedOverLength(region, region);
  }

  // ---------------------------------------------------------------------------
  // Sides, corrected
  // ---------------------------------------------------------------------------

  /** `cell` is in the region and its neighbour along `dir` is not: a fence segment. */
  predicate IsFence(cells: set<Position>, cell: Position, dir: Direction) {
    cell in cells && cell.MoveAlong(dir) !in cells
  }

  /** A fence segment whose neighbour along `FindPerpDirs(dir).0` carries no fence facing
      the same way: each straight side has exactly one such end. */
  predicate StartsSide(cells: set<Position>, cell: Position, dir: Direction) {
    IsFence(cells, cell, dir) && !IsFence(cells, cell.MoveAlong(FindPerpDirs(dir).0), dir)
  }

  /** How many of `dirs` start a side at `cell`. */
  function CountStarts(cells: set<Position>, dirs: seq<Direction>, cell: Position): (n: nat)
    ensures n <= |dirs|
  {
    if dirs == [] then 0
    else CountStarts(cells, dirs[..|dirs| - 1], cell) + (if StartsSide(cells, cell, dirs[|dirs| - 1]) then 1 else 0)
  }

  function SidesOver(cells: set<Position>, list: seq<Position>): (n: nat)
    ensures n <= 4 * |list|
  {
    if list == [] then 0
    else SidesOver(cells, list[..|list| - 1]) + CountStarts(cells, AllDirs, list[|list| - 1])
  }

  /** The number of sides of a region: the side starts summed over its cells. */
  function SidesOf(region: seq<Position>): nat {
    SidesOver(SetOf(region), region)
  }

  /** `NumSides`, corrected: a fence segment starts a new side exactly when the cell next
      to it, one step along `FindPerpDirs(dir).0`, has no fence facing the same way. The
      answer depends only on which cells the region holds. */
  method CountSides(region: seq<Position>) returns (total: int)
    ensures total == SidesOf(region)
    ensures 0 <= total <= PerimeterOf(region)
  {
    total := 0;
    for i := 0 to |region|
      invariant total == SidesOver(SetOf(region), region[..i])
    {
      var pos := region[i];
      var adjacent := FindAdjacentCells(pos);
      var count := 0;
      for j := 0 to |adjacent|
        invariant count == CountStarts(SetOf(region), AllDirs[..j], pos)
      {
        var adjPos := adjacent[j];
        assert AllDirs[..j + 1][..j] == AllDirs[..j];
        if adjPos.pos in region {
          continue;
        }
        var perpDirs := FindPerpDirs(adjPos.dir);
        var along := pos.MoveAlong(perpDirs.0);
        if along in region && along.MoveAlong(adjPos.dir) !in region {
          continue;
        }
        count := count + 1;
      }
      assert AllDirs[..|adjacent|] == AllDirs;
      assert region[..i + 1][..i] == region[..i];
      total := total + count;
    }
    assert region[..|region|] == region;
    SidesAtMostPerimeter(region);
  }

  lemma {:induction false} CountStartsAtMost(region: seq<Position>, pos: Position, k: nat)
    requires k <= |AllDirs|
    ensures CountStarts(SetOf(region), AllDirs[..k], pos) <= CountOutside(Neighbours(pos)[..k], region)
  {
    if k > 0 {
      CountStartsAtMost(region, pos, k - 1);
      assert AllDirs[..k][..k - 1] == AllDirs[..k - 1];
      assert Neighbours(pos)[..k][..k - 1] == Neighbours(pos)[..k - 1];
    }
  }

  lemma {:induction false} SidesOverAtMost(region: seq<Position>, cells: seq<Position>)
    ensures SidesOver(SetOf(region), cells) <= PerimeterOver(region, cells)
  {
    if cells != [] {
      var pos := cells[|cells| - 1];
      SidesOverAtMost(region, cells[..|cells| - 1]);
      CountStartsAtMost(region, pos, |AllDirs|);
      assert AllDirs[..|AllDirs|] == AllDirs;
      assert Neighbours(pos)[..|AllDirs|] == Neighbours(pos);
    }
  }

  /** Every side starts at a fence segment. */
  lemma SidesAtMostPerimeter(region: seq<Position>)
    ensures SidesOf(region) <= PerimeterOf(region)
  {
    SidesOverAtMost(region, region);
  }

  lemma {:induction false} SidesOverAppend(cells: set<Position>, u: seq<Position>, v: seq<Position>)
    ensures SidesOver(cells, u + v) == SidesOver(cells, u) + SidesOver(cells, v)
  {
    if v != [] {
      SidesOverAppend(cells, u, v[..|v| - 1]);
      assert (u + v)[..|u + v| - 1] == u + v[..|v| - 1];
    } else {
      assert u + v == u;
    }
  }

  lemma {:induction false} SidesOverPermutation(cells: set<Position>, a: seq<Position>, b: seq<Position>)
    requires multiset(a) == multiset(b)
    ensures SidesOver(cells, a) == SidesOver(cells, b)
    decreases |a|
  {
    if a == [] {
      assert |b| == |multiset(b)| == 0;
    } else {
      var init, x := a[..|a| - 1], a[|a| - 1];
      assert a == init + [x];
      assert x in multiset(b);
      var i :| 0 <= i < |b| && b[i] == x;
      var rest := b[..i] + b[i + 1..];
      assert b == b[..i] + [x] + b[i + 1..];
      MultisetRemove(init, x, b[..i], b[i + 1..]);
      SidesOverPermutation(cells, init, rest);
      SidesOverAppend(cells, b[..i] + [x], b[i + 1..]);
      SidesOverAppend(cells, b[..i], [x]);
      SidesOverAppend(cells, b[..i], b[i + 1..]);
      assert [x][..0] == [];
    }
  }

  lemma MultisetRemove(init: seq<Position>, x: Position, left: seq<Position>, right: seq<Position>)
    requires multiset(init + [x]) == multiset(left + [x] + right)
    ensures multiset(init) == multiset(left + right)
  {
    assert multiset(init + [x]) == multiset(init) + multiset{x};
    assert multiset(left + [x] + right) == multiset(left + right) + multiset{x};
    assert multiset(init) == multiset(init + [x]) - multiset{x};
    assert multiset(left + right) == multiset(left + [x] + right) - multiset{x};
  }

  /** The corrected count does not depend on the order in which a region is listed. */
  lemma SidesIgnoreOrder(a: seq<Position>, b: seq<Position>)
    requires multiset(a) == multiset(b)
    ensures SidesOf(a) == SidesOf(b)
  {
    assert SetOf(a) == SetOf(b) by {
      forall q
        ensures q in a <==> q in b
      {
        assert q in a <==> q in multiset(a);
        assert q in b <==> q in multiset(b);
      }
    }
    SidesOverPermutation(SetOf(a), a, b);
  }

  // ---------------------------------------------------------------------------
  // Examples
  // ---------------------------------------------------------------------------

  function Keep(e: PosDir, region: seq<Position>): seq<PosDir> {
    if e.pos in region then [] else [e]
  }

  lemma ExposedAtUnfold(pos: Position, region: seq<Position>)
    ensures ExposedAt(pos, region)
      == Keep(PosDir(pos.MoveAlong(Up), Up), region) + Keep(PosDir(pos.MoveAlong(Right), Right), region)
       + Keep(PosDir(pos.MoveAlong(Down), Down), region) + Keep(PosDir(pos.MoveAlong(Left), Left), region)
  {
    var edges := Edges(pos);
    assert edges[..0] == [];
    ExposedOfSnoc(edges, 0, region);
    ExposedOfSnoc(edges, 1, region);
    ExposedOfSnoc(edges, 2, region);
    ExposedOfSnoc(edges, 3, region);
    assert edges[..4] == edges;
  }

  lemma CountAsWrittenPrefix(posDirs: seq<PosDir>, k: nat)
    requires k < |posDirs|
    ensures CountAsWritten(posDirs[..k + 1])
      == CountAsWritten(posDirs[..k]) + (if Joins(posDirs[k], posDirs[..k + 1]) then 0 else 1)
  {
    assert posDirs[..k + 1][..k] == posDirs[..k];
  }

  /** The fence pairs of a region, cell by cell. */
  lemma {:induction false} ExposedOverCells(region: seq<Position>, cells: seq<Position>, k: nat)
    requires k <= |cells|
    ensures k == 0 ==> ExposedOver(region, cells[..k]) == []
    ensures k == 1 ==> ExposedOver(region, cells[..k]) == ExposedAt(cells[0], region)
    ensures k == 2 ==> ExposedOver(region, cells[..k]) == ExposedAt(cells[0], region) + ExposedAt(cells[1], region)
    ensures k == 3 ==>
      ExposedOver(region, cells[..k]) == ExposedAt(cells[0], region) + ExposedAt(cells[1], region) + ExposedAt(cells[2], region)
  {
    if k > 0 {
      ExposedOverCells(region, cells, k - 1);
      ExposedOverSnoc(region, cells, k - 1);
    }
  }

  function CountFalse(flags: seq<bool>): nat {
    multiset(flags)[false]
  }

  /** `CountAsWritten` adds one for each pair that does not join the pairs before it. */
  lemma {:induction false} CountAsWrittenByJoins(posDirs: seq<PosDir>, joined: seq<bool>, k: nat)
    requires k <= |posDirs| == |joined|
    requires forall i :: 0 <= i < k ==> Joins(posDirs[i], posDirs[..i + 1]) == joined[i]
    ensures CountAsWritten(posDirs[..k]) == CountFalse(joined[..k])
  {
    if k == 0 {
      assert posDirs[..0] == [] && joined[..0] == [];
    } else {
      CountAsWrittenByJoins(posDirs, joined, k - 1);
      assert Joins(posDirs[k - 1], posDirs[..k]) == joined[k - 1];
      CountAsWrittenStep(posDirs, joined, k);
    }
  }

  /** One more pair: both counts grow by one exactly when it does not join. */
  lemma CountAsWrittenStep(posDirs: seq<PosDir>, joined: seq<bool>, k: nat)
    requires 0 < k <= |posDirs| == |joined|
    requires Joins(posDirs[k - 1], posDirs[..k]) == joined[k - 1]
    requires CountAsWritten(posDirs[..k - 1]) == CountFalse(joined[..k - 1])
    ensures CountAsWritten(posDirs[..k]) == CountFalse(joined[..k])
  {
    var prev, flag := joined[..k - 1], joined[k - 1];
    CountAsWrittenPrefix(posDirs, k - 1);
    assert joined[..k] == prev + [flag];
    assert multiset(joined[..k]) == multiset(prev) + multiset{flag};
  }

  function StartsAt(cells: set<Position>, cell: Position, dir: Direction): nat {
    if StartsSide(cells, cell, dir) then 1 else 0
  }

  lemma CountStartsPrefix(cells: set<Position>, cell: Position, k: nat)
    requires k < |AllDirs|
    ensures CountStarts(cells, AllDirs[..k + 1], cell) == CountStarts(cells, AllDirs[..k], cell) + StartsAt(cells, cell, AllDirs[k])
  {
    assert AllDirs[..k + 1][..k] == AllDirs[..k];
  }

  lemma CountStartsUnfold(cells: set<Position>, cell: Position)
    ensures CountStarts(cells, AllDirs, cell)
      == StartsAt(cells, cell, Up) + StartsAt(cells, cell, Right) + StartsAt(cells, cell, Down) + StartsAt(cells, cell, Left)
  {
    assert AllDirs[..0] == [];
    CountStartsPrefix(cells, cell, 0);
    CountStartsPrefix(cells, cell, 1);
    CountStartsPrefix(cells, cell, 2);
    CountStartsPrefix(cells, cell, 3);
    assert AllDirs[..4] == AllDirs;
  }

  lemma {:induction false} SidesOverCells(cells: set<Position>, list: seq<Position>, k: nat)
    requires k <= |list|
    ensures k == 0 ==> SidesOver(cells, list[..k]) == 0
    ensures k == 1 ==> SidesOver(cells, list[..k]) == CountStarts(cells, AllDirs, list[0])
    ensures k == 2 ==> SidesOver(cells, list[..k]) == CountStarts(cells, AllDirs, list[0]) + CountStarts(cells, AllDirs, list[1])
    ensures k == 3 ==>
      SidesOver(cells, list[..k]) == CountStarts(cells, AllDirs, list[0]) + CountStarts(cells, AllDirs, list[1]) + CountStarts(cells, AllDirs, list[2])
  {
    if k > 0 {
      SidesOverCells(cells, list, k - 1);
      assert list[..k][..k - 1] == list[..k - 1];
    }
  }

  // Each example is placed at an arbitrary offset (x, y).

  function Bar(x: int, y: int): seq<Position> {
    [Position(x, y), Position(x + 2, y), Position(x + 1, y)]
  }

  function BarInOrder(x: int, y: int): seq<Position> {
    [Position(x, y), Position(x + 1, y), Position(x + 2, y)]
  }

  function BarFences(x: int, y: int): seq<PosDir> {
    [PosDir(Position(x, y - 1), Up), PosDir(Position(x, y + 1), Down), PosDir(Position(x - 1, y), Left),
     PosDir(Position(x + 2, y - 1), Up), PosDir(Position(x + 3, y), Right), PosDir(Position(x + 2, y + 1), Down),
     PosDir(Position(x + 1, y - 1), Up), PosDir(Position(x + 1, y + 1), Down)]
  }

  function BarInOrderFences(x: int, y: int): seq<PosDir> {
    [PosDir(Position(x, y - 1), Up), PosDir(Position(x, y + 1), Down), PosDir(Position(x - 1, y), Left),
     PosDir(Position(x + 1, y - 1), Up), PosDir(Position(x + 1, y + 1), Down),
     PosDir(Position(x + 2, y - 1), Up), PosDir(Position(x + 3, y), Right), PosDir(Position(x + 2, y + 1), Down)]
  }

  lemma BarFencesListed(x: int, y: int)
    ensures ExposedOver(Bar(x, y), Bar(x, y)) == BarFences(x, y)
  {
    var r := Bar(x, y);
    ExposedAtUnfold(r[0], r);
    ExposedAtUnfold(r[1], r);
    ExposedAtUnfold(r[2], r);
    ExposedOverCells(r, r, 3);
    assert r[..3] == r;
  }

  lemma BarInOrderFencesListed(x: int, y: int)
    ensures ExposedOver(BarInOrder(x, y), BarInOrder(x, y)) == BarInOrderFences(x, y)
  {
    var r := BarInOrder(x, y);
    ExposedAtUnfold(r[0], r);
    ExposedAtUnfold(r[1], r);
    ExposedAtUnfold(r[2], r);
    ExposedOverCells(r, r, 3);
    assert r[..3] == r;
  }

  lemma BarJoinsFirst(x: int, y: int)
    ensures var f := BarFences(x, y);
      !Joins(f[0], f[..1]) && !Joins(f[1], f[..2]) && !Joins(f[2], f[..3]) && !Joins(f[3], f[..4])
  {
  }

  lemma BarJoinsLast(x: int, y: int)
    ensures var f := BarFences(x, y);
      !Joins(f[4], f[..5]) && !Joins(f[5], f[..6]) && Joins(f[6], f[..7]) && Joins(f[7], f[..8])
  {
    var f := BarFences(x, y);
    assert f[..7][3] == PosDir(Position(x + 2, y - 1), Up);
    assert f[..8][5] == PosDir(Position(x + 2, y + 1), Down);
  }

  lemma BarInOrderJoinsFirst(x: int, y: int)
    ensures var f := BarInOrderFences(x, y);
      !Joins(f[0], f[..1]) && !Joins(f[1], f[..2]) && !Joins(f[2], f[..3]) && Joins(f[3], f[..4])
  {
    var f := BarInOrderFences(x, y);
    assert f[..4][0] == PosDir(Position(x, y - 1), Up);
  }

  lemma BarInOrderJoinsLast(x: int, y: int)
    ensures var f := BarInOrderFences(x, y);
      Joins(f[4], f[..5]) && Joins(f[5], f[..6]) && !Joins(f[6], f[..7]) && Joins(f[7], f[..8])
  {
    var f := BarInOrderFences(x, y);
    assert f[..5][1] == PosDir(Position(x, y + 1), Down);
    assert f[..6][3] == PosDir(Position(x + 1, y - 1), Up);
    assert f[..8][4] == PosDir(Position(x + 1, y + 1), Down);
  }

  /** Reading off `NumSides` from the pairs it lists and which of them join earlier ones. */
  lemma NumSidesByJoins(region: seq<Position>, joined: seq<bool>)
    requires |ExposedOver(region, region)| == |joined|
    requires var f := ExposedOver(region, region);
      forall i :: 0 <= i < |f| ==> Joins(f[i], f[..i + 1]) == joined[i]
    ensures NumSidesAsWritten(region) == CountFalse(joined)
  {
    var f := ExposedOver(region, region);
    CountAsWrittenByJoins(f, joined, |f|);
    assert f[..|f|] == f && joined[..|f|] == joined;
  }

  const BarJoined := [false, false, false, false, false, false, true, true]
  const BarInOrderJoined := [false, false, false, true, true, true, false, true]

  lemma CountFalseExamples()
    ensures CountFalse(BarJoined) == 6 && CountFalse(BarInOrderJoined) == 4
  {
  }

  lemma BarJoins(x: int, y: int)
    ensures var f := ExposedOver(Bar(x, y), Bar(x, y));
      |f| == |BarJoined| && forall i :: 0 <= i < |f| ==> Joins(f[i], f[..i + 1]) == BarJoined[i]
  {
    var f := BarFences(x, y);
    BarFencesListed(x, y);
    BarJoinsFirst(x, y);
    BarJoinsLast(x, y);
    forall i | 0 <= i < 8
      ensures Joins(f[i], f[..i + 1]) == BarJoined[i]
    {
      if i < 4 {
        assert i == 0 || i == 1 || i == 2 || i == 3;
      } else {
        assert i == 4 || i == 5 || i == 6 || i == 7;
      }
    }
  }

  lemma BarInOrderJoins(x: int, y: int)
    ensures var f := ExposedOver(BarInOrder(x, y), BarInOrder(x, y));
      |f| == |BarInOrderJoined| && forall i :: 0 <= i < |f| ==> Joins(f[i], f[..i + 1]) == BarInOrderJoined[i]
  {
    var f := BarInOrderFences(x, y);
    BarInOrderFencesListed(x, y);
    BarInOrderJoinsFirst(x, y);
    BarInOrderJoinsLast(x, y);
    forall i | 0 <= i < 8
      ensures Joins(f[i], f[..i + 1]) == BarInOrderJoined[i]
    {
      if i < 4 {
        assert i == 0 || i == 1 || i == 2 || i == 3;
      } else {
        assert i == 4 || i == 5 || i == 6 || i == 7;
      }
    }
  }

  /** The finding: a 1x3 bar listed middle-last counts its top and bottom fences twice
      each, while the same cells listed left to right get the bar's 4 sides. */
  lemma NumSidesDependsOnOrder(x: int, y: int)
    ensures multiset(Bar(x, y)) == multiset(BarInOrder(x, y))
    ensures NumSidesAsWritten(Bar(x, y)) == 6 && NumSidesAsWritten(BarInOrder(x, y)) == 4
  {
    NumSidesOfBar(x, y);
    NumSidesOfBarInOrder(x, y);
    var c := BarInOrder(x, y);
    assert Bar(x, y) == [c[0]] + [c[2]] + [c[1]];
  }

  lemma NumSidesOfBar(x: int, y: int)
    ensures NumSidesAsWritten(Bar(x, y)) == 6
  {
    BarJoins(x, y);
    NumSidesByJoins(Bar(x, y), BarJoined);
    CountFalseExamples();
  }

  lemma NumSidesOfBarInOrder(x: int, y: int)
    ensures NumSidesAsWritten(BarInOrder(x, y)) == 4
  {
    BarInOrderJoins(x, y);
    NumSidesByJoins(BarInOrder(x, y), BarInOrderJoined);
    CountFalseExamples();
  }

  lemma SidesOfBarInOrder(x: int, y: int)
    ensures SidesOf(BarInOrder(x, y)) == 4
  {
    var r := BarInOrder(x, y);
    var cells := SetOf(r);
    SidesOverCells(cells, r, 3);
    assert r[..3] == r;
    BarStarts(x, y);
  }

  lemma BarStartsLeft(cells: set<Position>, x: int, y: int)
    requires Position(x, y) in cells && Position(x + 1, y) in cells
    requires Position(x, y - 1) !in cells && Position(x, y + 1) !in cells && Position(x - 1, y) !in cells
    requires Position(x + 1, y - 1) !in cells && Position(x + 1, y + 1) !in cells
    ensures CountStarts(cells, AllDirs, Position(x, y)) == 1
  {
    CountStartsUnfold(cells, Position(x, y));
  }

  lemma BarStartsMiddle(cells: set<Position>, x: int, y: int)
    requires Position(x, y) in cells && Position(x + 1, y) in cells && Position(x + 2, y) in cells
    requires Position(x + 1, y - 1) !in cells && Position(x + 1, y + 1) !in cells
    requires Position(x + 2, y - 1) !in cells && Position(x + 2, y + 1) !in cells
    ensures CountStarts(cells, AllDirs, Position(x + 1, y)) == 0
  {
    CountStartsUnfold(cells, Position(x + 1, y));
  }

  lemma BarStartsRight(cells: set<Position>, x: int, y: int)
    requires Position(x + 2, y) in cells && Position(x + 1, y) in cells
    requires Position(x + 2, y - 1) !in cells && Position(x + 2, y + 1) !in cells && Position(x + 3, y) !in cells
    ensures CountStarts(cells, AllDirs, Position(x + 2, y)) == 3
  {
    CountStartsUnfold(cells, Position(x + 2, y));
  }

  lemma BarStarts(x: int, y: int)
    ensures var cells := SetOf(BarInOrder(x, y));
      CountStarts(cells, AllDirs, Position(x, y)) == 1 &&
      CountStarts(cells, AllDirs, Position(x + 1, y)) == 0 &&
      CountStarts(cells, AllDirs, Position(x + 2, y)) == 3
  {
    var cells := SetOf(BarInOrder(x, y));
    assert Position(x, y) in cells && Position(x + 1, y) in cells && Position(x + 2, y) in cells;
    assert Position(x, y - 1) !in cells && Position(x, y + 1) !in cells && Position(x - 1, y) !in cells;
    assert Position(x + 1, y - 1) !in cells && Position(x + 1, y + 1) !in cells;
    assert Position(x + 2, y - 1) !in cells && Position(x + 2, y + 1) !in cells && Position(x + 3, y) !in cells;
    BarStartsLeft(cells, x, y);
    BarStartsMiddle(cells, x, y);
    BarStartsRight(cells, x, y);
  }

  // The shapes of the sides test: one cell, a vertical domino and an L-shaped tromino.

  function Domino(x: int, y: int): seq<Position> {
    [Position(x, y), Position(x, y + 1)]
  }

  function Tromino(x: int, y: int): seq<Position> {
    [Position(x, y), Position(x + 1, y), Position(x, y + 1)]
  }

  function SingleFences(x: int, y: int): seq<PosDir> {
    [PosDir(Position(x, y - 1), Up), PosDir(Position(x + 1, y), Right),
     PosDir(Position(x, y + 1), Down), PosDir(Position(x - 1, y), Left)]
  }

  function DominoFences(x: int, y: int): seq<PosDir> {
    [PosDir(Position(x, y - 1), Up), PosDir(Position(x + 1, y), Right), PosDir(Position(x - 1, y), Left),
     PosDir(Position(x + 1, y + 1), Right), PosDir(Position(x, y + 2), Down), PosDir(Position(x - 1, y + 1), Left)]
  }

  function TrominoFences(x: int, y: int): seq<PosDir> {
    [PosDir(Position(x, y - 1), Up), PosDir(Position(x - 1, y), Left),
     PosDir(Position(x + 1, y - 1), Up), PosDir(Position(x + 2, y), Right), PosDir(Position(x + 1, y + 1), Down),
     PosDir(Position(x + 1, y + 1), Right), PosDir(Position(x, y + 2), Down), PosDir(Position(x - 1, y + 1), Left)]
  }

  lemma SingleFencesListed(x: int, y: int)
    ensures ExposedOver([Position(x, y)], [Position(x, y)]) == SingleFences(x, y)
  {
    var r := [Position(x, y)];
    ExposedAtUnfold(r[0], r);
    ExposedOverCells(r, r, 1);
    assert r[..1] == r;
  }

  lemma DominoFencesListed(x: int, y: int)
    ensures ExposedOver(Domino(x, y), Domino(x, y)) == DominoFences(x, y)
  {
    var r := Domino(x, y);
    ExposedAtUnfold(r[0], r);
    ExposedAtUnfold(r[1], r);
    ExposedOverCells(r, r, 2);
    assert r[..2] == r;
  }

  lemma TrominoFencesListed(x: int, y: int)
    ensures ExposedOver(Tromino(x, y), Tromino(x, y)) == TrominoFences(x, y)
  {
    var r := Tromino(x, y);
    ExposedAtUnfold(r[0], r);
    ExposedAtUnfold(r[1], r);
    ExposedAtUnfold(r[2], r);
    ExposedOverCells(r, r, 3);
    assert r[..3] == r;
  }

  const SingleJoined := [false, false, false, false]
  const DominoJoined := [false, false, false, true, false, true]
  const TrominoJoined := [false, false, true, false, false, false, false, true]

  lemma SingleJoins(x: int, y: int)
    ensures var f := SingleFences(x, y);
      |f| == |SingleJoined| && forall i :: 0 <= i < |f| ==> Joins(f[i], f[..i + 1]) == SingleJoined[i]
  {
    var f := SingleFences(x, y);
    forall i | 0 <= i < 4
      ensures Joins(f[i], f[..i + 1]) == SingleJoined[i]
    {
      assert i == 0 || i == 1 || i == 2 || i == 3;
    }
  }

  lemma DominoJoinsFirst(x: int, y: int)
    ensures var f := DominoFences(x, y);
      !Joins(f[0], f[..1]) && !Joins(f[1], f[..2]) && !Joins(f[2], f[..3])
  {
  }

  lemma DominoJoinsLast(x: int, y: int)
    ensures var f := DominoFences(x, y);
      Joins(f[3], f[..4]) && !Joins(f[4], f[..5]) && Joins(f[5], f[..6])
  {
    var f := DominoFences(x, y);
    assert f[..4][1] == PosDir(Position(x + 1, y), Right);
    assert f[..6][2] == PosDir(Position(x - 1, y), Left);
  }

  lemma DominoJoins(x: int, y: int)
    ensures var f := DominoFences(x, y);
      |f| == |DominoJoined| && forall i :: 0 <= i < |f| ==> Joins(f[i], f[..i + 1]) == DominoJoined[i]
  {
    var f := DominoFences(x, y);
    DominoJoinsFirst(x, y);
    DominoJoinsLast(x, y);
    forall i | 0 <= i < 6
      ensures Joins(f[i], f[..i + 1]) == DominoJoined[i]
    {
      if i < 3 {
        assert i == 0 || i == 1 || i == 2;
      } else {
        assert i == 3 || i == 4 || i == 5;
      }
    }
  }

  lemma TrominoJoinsFirst(x: int, y: int)
    ensures var f := TrominoFences(x, y);
      !Joins(f[0], f[..1]) && !Joins(f[1], f[..2]) && Joins(f[2], f[..3]) && !Joins(f[3], f[..4])
  {
    var f := TrominoFences(x, y);
    assert f[..3][0] == PosDir(Position(x, y - 1), Up);
  }

  lemma TrominoJoinsLast(x: int, y: int)
    ensures var f := TrominoFences(x, y);
      !Joins(f[4], f[..5]) && !Joins(f[5], f[..6]) && !Joins(f[6], f[..7]) && Joins(f[7], f[..8])
  {
    var f := TrominoFences(x, y);
    assert f[..8][1] == PosDir(Position(x - 1, y), Left);
  }

  lemma TrominoJoins(x: int, y: int)
    ensures var f := TrominoFences(x, y);
      |f| == |TrominoJoined| && forall i :: 0 <= i < |f| ==> Joins(f[i], f[..i + 1]) == TrominoJoined[i]
  {
    var f := TrominoFences(x, y);
    TrominoJoinsFirst(x, y);
    TrominoJoinsLast(x, y);
    forall i | 0 <= i < 8
      ensures Joins(f[i], f[..i + 1]) == TrominoJoined[i]
    {
      if i < 4 {
        assert i == 0 || i == 1 || i == 2 || i == 3;
      } else {
        assert i == 4 || i == 5 || i == 6 || i == 7;
      }
    }
  }

  lemma ShapeJoinedCounts()
    ensures CountFalse(SingleJoined) == 4 && CountFalse(DominoJoined) == 4 && CountFalse(TrominoJoined) == 6
  {
  }

  /** The sides test: `NumSides` gives 4 for one cell, 4 for a vertical domino and 6
      for an L-shaped tromino, wherever they are placed. */
  lemma NumSidesOfShapes(x: int, y: int)
    ensures NumSidesAsWritten([Position(x, y)]) == 4
    ensures NumSidesAsWritten(Domino(x, y)) == 4
    ensures NumSidesAsWritten(Tromino(x, y)) == 6
  {
    ShapeJoinedCounts();
    SingleFencesListed(x, y);
    SingleJoins(x, y);
    NumSidesByJoins([Position(x, y)], SingleJoined);
    DominoFencesListed(x, y);
    DominoJoins(x, y);
    NumSidesByJoins(Domino(x, y), DominoJoined);
    TrominoFencesListed(x, y);
    TrominoJoins(x, y);
    NumSidesByJoins(Tromino(x, y), TrominoJoined);
  }

  // ---------------------------------------------------------------------------
  // The garden map and its regions
  // ---------------------------------------------------------------------------

  datatype Grid = Grid(width: int, height: int, values: seq<seq<char>>) {

    /** `height` rows of `width` plants each; `At` indexes the rows directly. */
    predicate WellFormed() {
      |values| == height && forall y :: 0 <= y < |values| ==> |values[y]| == width
    }

    predicate IsInBounds(pos: Position) {
      0 <= pos.x < width && 0 <= pos.y < height
    }

    /** On a well-formed grid, in bounds means the position names a stored plot. */
    lemma InBoundsIsStored(pos: Position)
      requires WellFormed()
      ensures IsInBounds(pos) <==> 0 <= pos.y < |values| && 0 <= pos.x < |values[pos.y]|
    {
    }

    function At(pos: Position): char
      requires WellFormed() && IsInBounds(pos)
    {
      values[pos.y][pos.x]
    }

    /** Every plot of the map. */
    ghost function Cells(): set<Position> {
      set x, y | 0 <= x < width && 0 <= y < height :: Position(x, y)
    }

    /** `q` is next to `p` on the map and holds the same plant. */
    predicate Linked(p: Position, q: Position) {
      WellFormed() && IsInBounds(p) && IsInBounds(q) && Adjacent(p, q) && At(p) == At(q)
    }

    /** A walk over the map that only steps between plots of the same plant. */
    predicate IsPath(path: seq<Position>) {
      |path| > 0 && WellFormed() && IsInBounds(path[0]) &&
      forall i :: 0 <= i < |path| - 1 ==> Linked(path[i], path[i + 1])
    }

    ghost predicate Connected(p: Position, q: Position) {
      exists path :: IsPath(path) && path[0] == p && path[|path| - 1] == q
    }

    /** No step to a neighbour with the same plant leaves `cells`. */
    ghost predicate Closed(cells: seq<Position>) {
      forall p, q :: p in cells && Linked(p, q) ==> q in cells
    }

    /** `region` starts at `start` and lists, once each, plots connected to `start`,
        leaving none of them out. */
    ghost predicate IsRegion(start: Position, region: seq<Position>) {
      |region| > 0 && region[0] == start && Distinct(region) && Closed(region) &&
      forall q :: q in region ==> Connected(start, q)
    }

    /** What the search below keeps true: `region` starts at `pos`, holds distinct
        plots connected to `pos`, and has every same-plant neighbour of its first
        `done` plots. */
    ghost predicate SearchInvariant(pos: Position, region: seq<Position>, done: nat) {
      WellFormed() && IsInBounds(pos) &&
      0 < |region| && done <= |region| && region[0] == pos && Distinct(region) &&
      (forall q :: q in region ==> IsInBounds(q) && At(q) == At(pos) && Connected(pos, q)) &&
      forall p, q :: p in region[..done] && Linked(p, q) ==> q in region
    }

    /** Breadth-first search from `pos`: the plots of its region, `pos` first. */
    method FindContainingRegion(pos: Position) returns (region: seq<Position>)
      requires WellFormed() && IsInBounds(pos)
      ensures IsRegion(pos, region)
    {
      region := [pos];
      var queue := [pos];
      ghost var done := 0;
      ConnectedSelf(this, pos);
      while |queue| > 0
        invariant SearchInvariant(pos, region, done) && queue == region[done..]
        decreases Cells() - SetOf(region), |queue|
      {
        var cell := queue[0];
        var current := region;
        var isValidNextPos := (n: Position) => IsInBounds(n) && At(pos) == At(n) && n !in current;
        var nextPositions := FindAdjacentValidCells(cell, isValidNextPos);
        SearchStep(this, pos, region, done, nextPositions);
        QueueStep(region, done, nextPositions);
        queue := queue[1..] + nextPositions;
        region := region + nextPositions;
        done := done + 1;
        SearchShrinks(this, current, nextPositions);
      }
      assert region[..done] == region;
    }

    /** What the scan below keeps true: `visited` lists the plots of the regions found
        so far, each once, and none of their neighbours with the same plant is left out. */
    ghost predicate ScanInvariant(visited: seq<Position>, regions: seq<seq<Position>>) {
      visited == Flatten(regions) && Distinct(visited) && Closed(visited) &&
      (forall q :: q in visited ==> IsInBounds(q)) &&
      forall i :: 0 <= i < |regions| ==> |regions[i]| > 0 && IsRegion(regions[i][0], regions[i])
    }

    /** Finds every region, column by column, and adds up the score of each. */
    method FindTotalScore(scoring: Scoring) returns (total: int, ghost regions: seq<seq<Position>>)
      requires WellFormed()
      ensures IsPartition(regions)
      ensures total == TotalScore(regions, scoring)
    {
      var visited: seq<Position> := [];
      total, regions := 0, [];
      var x := 0;
      while x < width
        invariant 0 <= x && ScanInvariant(visited, regions)
        invariant total == TotalScore(regions, scoring)
        invariant CoveredUpTo(visited, x, 0)
      {
        var y := 0;
        while y < height
          invariant 0 <= y && ScanInvariant(visited, regions)
          invariant total == TotalScore(regions, scoring)
          invariant CoveredUpTo(visited, x, y)
        {
          var start := Position(x, y);
          if start in visited {
            CoverStep(visited, [], x, y);
            assert visited + [] == visited;
            y := y + 1;
            continue;
          }
          var region := FindContainingRegion(start);
          var score := Score(region, scoring);
          total := total + score;
          AddRegion(this, visited, regions, start, region);
          CoverStep(visited, region, x, y);
          visited := visited + region;
          regions := regions + [region];
          y := y + 1;
        }
        NextColumn(visited, x, y);
        x := x + 1;
      }
    }

    /** Every plot left of column `x`, and the first `y` plots of column `x`, is in `visited`. */
    ghost predicate CoveredUpTo(visited: seq<Position>, x: int, y: int) {
      forall q :: IsInBounds(q) && (q.x < x || (q.x == x && q.y < y)) ==> q in visited
    }

    lemma CoverStep(visited: seq<Position>, region: seq<Position>, x: int, y: int)
      requires CoveredUpTo(visited, x, y)
      requires Position(x, y) in visited || (|region| > 0 && region[0] == Position(x, y))
      ensures CoveredUpTo(visited + region, x, y + 1)
    {
    }

    lemma NextColumn(visited: seq<Position>, x: int, y: int)
      requires CoveredUpTo(visited, x, y) && y >= height
      ensures CoveredUpTo(visited, x + 1, 0)
    {
    }

    /** Part 1: every region priced at area times perimeter. */
    method SolveForPart1() returns (total: int)
      requires WellFormed()
      ensures exists regions :: IsPartition(regions) && total == TotalScore(regions, ByPerimeter)
    {
      ghost var regions;
      total, regions := FindTotalScore(ByPerimeter);
    }

    /** Part 2: every region priced at area times number of sides. */
    method SolveForPart2() returns (total: int)
      requires WellFormed()
      ensures exists regions :: IsPartition(regions) && total == TotalScore(regions, BySides)
    {
      ghost var regions;
      total, regions := FindTotalScore(BySides);
    }

    /** `regions` are regions of the map that together list every plot exactly once. */
    ghost predicate IsPartition(regions: seq<seq<Position>>) {
      (forall i :: 0 <= i < |regions| ==> |regions[i]| > 0 && IsRegion(regions[i][0], regions[i])) &&
      Distinct(Flatten(regions)) &&
      forall q :: q in Flatten(regions) <==> IsInBounds(q)
    }
  }

  lemma DistinctAppend(a: seq<Position>, b: seq<Position>)
    requires Distinct(a) && Distinct(b)
    requires forall q :: q in b ==> q !in a
    ensures Distinct(a + b)
  {
    forall i, j | 0 <= i < j < |a + b|
      ensures (a + b)[i] != (a + b)[j]
    {
      if i < |a| && j >= |a| {
        assert (a + b)[j] in b;
      }
    }
  }

  lemma ConnectedSelf(g: Grid, p: Position)
    requires g.WellFormed() && g.IsInBounds(p)
    ensures g.Connected(p, p)
  {
    assert g.IsPath([p]);
  }

  /** A walk can be continued by one more step. */
  lemma ConnectedExtend(g: Grid, p: Position, q: Position, r: Position)
    requires g.Connected(p, q) && g.Linked(q, r)
    ensures g.Connected(p, r)
  {
    var path :| g.IsPath(path) && path[0] == p && path[|path| - 1] == q;
    var longer := path + [r];
    assert g.IsPath(longer) && longer[|longer| - 1] == r;
  }

  /** Every plot along a walk is on the map and holds the plant the walk started on. */
  lemma {:induction false} PathSamePlant(g: Grid, path: seq<Position>, k: nat)
    requires g.IsPath(path) && k < |path|
    ensures g.IsInBounds(path[k]) && g.At(path[k]) == g.At(path[0])
  {
    if k > 0 {
      PathSamePlant(g, path, k - 1);
      assert g.Linked(path[k - 1], path[k]);
    }
  }

  lemma ConnectedSamePlant(g: Grid, p: Position, q: Position)
    requires g.Connected(p, q)
    ensures g.IsInBounds(p) && g.IsInBounds(q) && g.At(p) == g.At(q)
  {
    var path :| g.IsPath(path) && path[0] == p && path[|path| - 1] == q;
    PathSamePlant(g, path, |path| - 1);
  }

  /** A walk that starts in a closed list of plots never leaves it. */
  lemma {:induction false} PathStaysInside(g: Grid, cells: seq<Position>, path: seq<Position>, k: nat)
    requires g.IsPath(path) && k < |path| && g.Closed(cells) && path[0] in cells
    ensures path[k] in cells
  {
    if k > 0 {
      PathStaysInside(g, cells, path, k - 1);
      assert g.Linked(path[k - 1], path[k]);
    }
  }

  /** A walk that ends in a closed list of plots was inside it all along. */
  lemma {:induction false} PathStartsInside(g: Grid, cells: seq<Position>, path: seq<Position>, k: nat)
    requires g.IsPath(path) && k < |path| && g.Closed(cells) && path[|path| - 1] in cells
    ensures path[k] in cells
    decreases |path| - k
  {
    if k < |path| - 1 {
      PathStartsInside(g, cells, path, k + 1);
      assert g.Linked(path[k], path[k + 1]);
      assert g.Linked(path[k + 1], path[k]);
    }
  }

  /** A region lists exactly the plots connected to its first plot. */
  lemma RegionIsComponent(g: Grid, start: Position, region: seq<Position>)
    requires g.IsRegion(start, region)
    ensures forall q :: q in region <==> g.Connected(start, q)
  {
    forall q | g.Connected(start, q)
      ensures q in region
    {
      var path :| g.IsPath(path) && path[0] == start && path[|path| - 1] == q;
      PathStaysInside(g, region, path, |path| - 1);
    }
  }

  /** All plots of a region are on the map and hold the plant of its first plot. */
  lemma RegionInBounds(g: Grid, start: Position, region: seq<Position>)
    requires g.IsRegion(start, region)
    ensures forall q :: q in region ==> g.IsInBounds(q) && g.At(q) == g.At(start)
  {
    forall q | q in region
      ensures g.IsInBounds(q) && g.At(q) == g.At(start)
    {
      ConnectedSamePlant(g, start, q);
    }
  }

  /** One round of the search: the unseen same-plant neighbours of the next plot in
      the queue join the region. */
  lemma SearchStep(g: Grid, pos: Position, region: seq<Position>, done: nat, next: seq<Position>)
    requires g.SearchInvariant(pos, region, done) && done < |region| && Distinct(next)
    requires g.WellFormed() && g.IsInBounds(pos)
    requires forall q :: q in next <==>
      Adjacent(region[done], q) && g.IsInBounds(q) && g.At(pos) == g.At(q) && q !in region
    ensures g.SearchInvariant(pos, region + next, done + 1)
  {
    var cell := region[done];
    var region' := region + next;
    forall q | q in next
      ensures g.IsInBounds(q) && g.At(q) == g.At(pos) && g.Connected(pos, q)
    {
      ConnectedExtend(g, pos, cell, q);
    }
    DistinctAppend(region, next);
    assert region'[..done + 1] == region[..done] + [cell];
    forall p, q | p in region'[..done + 1] && g.Linked(p, q)
      ensures q in region'
    {
      if p == cell {
        assert Adjacent(p, q);
      } else {
        assert p in region[..done];
      }
    }
  }

  /** The region of a plot not yet visited shares no plot with the regions already
      found, so `FindTotalScore` scores each plot once. */
  lemma RegionAvoidsVisited(g: Grid, visited: seq<Position>, start: Position, region: seq<Position>)
    requires g.Closed(visited) && start !in visited && g.IsRegion(start, region)
    ensures forall q :: q in region ==> q !in visited
    ensures g.Closed(visited + region)
  {
    forall q | q in region
      ensures q !in visited
    {
      var path :| g.IsPath(path) && path[0] == start && path[|path| - 1] == q;
      if q in visited {
        PathStartsInside(g, visited, path, 0);
      }
    }
  }

  /** Taking the head off the queue and appending the new plots to both lists keeps
      the queue the unprocessed tail of the region. */
  lemma QueueStep(region: seq<Position>, done: nat, next: seq<Position>)
    requires done < |region|
    ensures region[done..][1..] + next == (region + next)[done + 1..]
  {
  }

  /** The plots the search has not reached yet: fewer after a round that adds some,
      the same after a round that adds none. */
  lemma SearchShrinks(g: Grid, region: seq<Position>, next: seq<Position>)
    requires forall q :: q in next ==> g.IsInBounds(q) && q !in region
    ensures next == [] ==> g.Cells() - SetOf(region + next) == g.Cells() - SetOf(region)
    ensures next != [] ==> g.Cells() - SetOf(region + next) < g.Cells() - SetOf(region)
  {
    if next == [] {
      assert region + next == region;
    } else {
      var n := next[0];
      assert n in next && n in SetOf(region + next);
      assert n == Position(n.x, n.y) && n in g.Cells() && n !in SetOf(region);
    }
  }

  /** Adding the region of an unvisited plot keeps the scan's invariant. */
  lemma AddRegion(g: Grid, visited: seq<Position>, regions: seq<seq<Position>>,
                  start: Position, region: seq<Position>)
    requires g.ScanInvariant(visited, regions) && start !in visited && g.IsRegion(start, region)
    ensures g.ScanInvariant(visited + region, regions + [region])
  {
    RegionAvoidsVisited(g, visited, start, region);
    RegionInBounds(g, start, region);
    DistinctAppend(visited, region);
    assert (regions + [region])[..|regions|] == regions;
  }

  datatype Scoring = ByPerimeter | BySides

  /** The price of one region: its area times its perimeter, or times its number of
      sides. */
  function ScoreOf(region: seq<Position>, scoring: Scoring): nat {
    Area(region) * (match scoring
      case ByPerimeter => PerimeterOf(region)
      case BySides => SidesOf(region))
  }

  method Score(region: seq<Position>, scoring: Scoring) returns (score: int)
    ensures score == ScoreOf(region, scoring)
  {
    match scoring
    case ByPerimeter =>
      var perimeter := Perimeter(region);
      score := Area(region) * perimeter;
    case BySides =>
      var sides := CountSides(region);
      score := Area(region) * sides;
  }

  function TotalScore(regions: seq<seq<Position>>, scoring: Scoring): nat {
    if regions == [] then 0
    else TotalScore(regions[..|regions| - 1], scoring) + ScoreOf(regions[|regions| - 1], scoring)
  }

  function Flatten(regions: seq<seq<Position>>): seq<Position> {
    if regions == [] then [] else Flatten(regions[..|regions| - 1]) + regions[|regions| - 1]
  }

  /** The map `ReadInput` builds: one row per line, as wide as the first line. */
  function GridOf(input: string): Grid {
    var lines := Split(input, '\n');
    Grid(|lines[0]|, |lines|, lines)
  }

  /** The map read from an input is well formed exactly when every line is as long as
      the first; a trailing newline leaves an empty last line, so only an input of one
      line may end with one. */
  lemma GridOfShape(input: string)
    ensures var g := GridOf(input);
      var lines := Split(input, '\n');
      g.height == |lines| && g.width == |lines[0]| &&
      (g.WellFormed() <==> forall i :: 0 <= i < |lines| ==> |lines[i]| == |lines[0]|)
  {
  }

  method ReadInput(input: string) returns (grid: Grid)
    ensures grid == GridOf(input)
  {
    var lines := Split(input, '\n');
    var values: seq<seq<char>> := [];
    for i := 0 to |lines|
      invariant values == lines[..i]
    {
      values := values + [lines[i]];
    }
    assert values == lines;
    grid := Grid(|lines[0]|, |lines|, values);
  }
}
