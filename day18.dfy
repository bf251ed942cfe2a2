/** Day 18, "RAM Run": bytes fall onto a square memory grid and block cells; the
    shortest number of steps from the top-left corner to the bottom-right one is found
    with a queue-driven relaxation of a table of scores, in which `MaxInt` stands for
    "not reached". */
module Day18 {
  import opened GoLib

  datatype Direction = Direction(dx: int, dy: int)

  /** The i-th of the four directions in the order the neighbours are visited: right,
      down, left and up. */
  function Dir(i: int): Direction
    requires 0 <= i < 4
  {
    if i == 0 then Direction(1, 0) else if i == 1 then Direction(0, 1)
    else if i == 2 then Direction(-1, 0) else Direction(0, -1)
  }

  /** Go's `math.MaxInt` on a 64-bit platform, the score of a cell not reached. */
  const MaxInt: int := 0x7FFF_FFFF_FFFF_FFFF

  datatype Position = Position(x: int, y: int) {
    function MoveAlong(dir: Direction): Position {
      Position(x + dir.dx, y + dir.dy)
    }

    /** The cell one step back against `dir`. */
    function Back(dir: Direction): Position {
      Position(x - dir.dx, y - dir.dy)
    }
  }

  /** The number of steps between two positions when nothing is in the way. */
  function FindShortestPath(start: Position, end: Position): (r: nat)
    ensures r == 0 <==> start == end
  {
    Abs(end.x - start.x) + Abs(end.y - start.y)
  }

  /** The plain distance is symmetric, and one step changes it by one. */
  lemma FindShortestPathProperties(a: Position, b: Position, i: nat)
    requires i < 4
    ensures FindShortestPath(a, b) == FindShortestPath(b, a)
    ensures var d := FindShortestPath(a, b.MoveAlong(Dir(i)));
      d == FindShortestPath(a, b) + 1 || d + 1 == FindShortestPath(a, b)
  {
  }

  datatype Grid = Grid(width: int, height: int, obstacles: seq<Position>) {
    predicate IsInBounds(pos: Position) {
      0 <= pos.x < width && 0 <= pos.y < height
    }

    /** A cell a walk may enter: inside the grid and not blocked. */
    predicate Free(pos: Position) {
      IsInBounds(pos) && pos !in obstacles
    }
  }

  /** There is a walk of exactly `n` single steps from `start` to `p` whose every cell
      after `start` is free. */
  ghost predicate Walk(grid: Grid, start: Position, p: Position, n: nat)
    decreases n
  {
    if n == 0 then p == start
    else grid.Free(p) && exists i :: 0 <= i < 4 && Walk(grid, start, p.Back(Dir(i)), n - 1)
  }

  /** What the search promises: a score between 0 and `MaxInt`; below `MaxInt` it is the
      length of a walk from start to end, and no walk is shorter. */
  ghost predicate IsShortest(grid: Grid, start: Position, end: Position, r: int) {
    0 <= r <= MaxInt &&
    (r < MaxInt ==> Walk(grid, start, end, r)) &&
    (forall n: nat :: Walk(grid, start, end, n) ==> r <= n)
  }

  /** One more free step extends a walk. */
  lemma WalkStep(grid: Grid, start: Position, q: Position, n: nat, i: int, p: Position)
    requires 0 <= i < 4 && p == q.MoveAlong(Dir(i))
    requires Walk(grid, start, q, n) && grid.Free(p)
    ensures Walk(grid, start, p, n + 1)
  {
    assert p.Back(Dir(i)) == q;
  }

  /** One step changes the plain distance from `a` by at most one. */
  lemma DistanceStep(a: Position, q: Position, i: int)
    requires 0 <= i < 4
    ensures FindShortestPath(a, q) <= FindShortestPath(a, q.Back(Dir(i))) + 1
  {
  }

  /** No walk is shorter than the plain distance. */
  lemma {:induction false} WalkAtLeastDistance(grid: Grid, start: Position, p: Position, n: nat)
    requires Walk(grid, start, p, n)
    ensures n >= FindShortestPath(start, p)
    decreases n
  {
    if n > 0 {
      var i :| 0 <= i < 4 && Walk(grid, start, p.Back(Dir(i)), n - 1);
      WalkAtLeastDistance(grid, start, p.Back(Dir(i)), n - 1);
      DistanceStep(start, p, i);
    }
  }

  /** In a grid with no obstacles there is a walk as long as the plain distance between
      any two cells. */
  lemma {:induction false} OpenGridWalk(grid: Grid, start: Position, p: Position)
    requires grid.obstacles == [] && grid.IsInBounds(start) && grid.IsInBounds(p)
    ensures Walk(grid, start, p, FindShortestPath(start, p))
    decreases FindShortestPath(start, p)
  {
    var n := FindShortestPath(start, p);
    if n > 0 {
      var i := if p.x > start.x then 0 else if p.y > start.y then 1 else if p.x < start.x then 2 else 3;
      var prev := p.Back(Dir(i));
      OpenGridWalk(grid, start, prev);
      WalkStep(grid, start, prev, FindShortestPath(start, prev), i, p);
      assert FindShortestPath(start, prev) + 1 == n;
    }
  }

  /** Two results that both meet the promise are equal: it determines the answer. */
  lemma ShortestIsUnique(grid: Grid, start: Position, end: Position, r1: int, r2: int)
    requires IsShortest(grid, start, end, r1) && IsShortest(grid, start, end, r2)
    ensures r1 == r2
  {
    if r1 < MaxInt {
      assert r2 <= r1;
    }
    if r2 < MaxInt {
      assert r1 <= r2;
    }
  }

  /** The answer is `MaxInt` exactly when no walk shorter than `MaxInt` steps reaches
      the end, it is 0 when start and end coincide, and a finite answer is never below
      the plain distance. */
  lemma ShortestMeaning(grid: Grid, start: Position, end: Position, r: int)
    requires IsShortest(grid, start, end, r)
    ensures r == MaxInt <==> forall n: nat :: n < MaxInt ==> !Walk(grid, start, end, n)
    ensures start == end ==> r == 0
    ensures r < MaxInt ==> r >= FindShortestPath(start, end)
  {
    if r < MaxInt {
      WalkAtLeastDistance(grid, start, end, r);
      assert !(r < MaxInt ==> !Walk(grid, start, end, r));
    }
    if start == end {
      assert Walk(grid, start, end, 0);
    }
  }

  /** Without obstacles the search finds the plain distance. */
  lemma OpenGridShortest(grid: Grid, start: Position, end: Position, r: int)
    requires grid.obstacles == [] && grid.IsInBounds(start) && grid.IsInBounds(end)
    requires FindShortestPath(start, end) < MaxInt
    requires IsShortest(grid, start, end, r)
    ensures r == FindShortestPath(start, end)
  {
    OpenGridWalk(grid, start, end);
    var d := FindShortestPath(start, end);
    if r < MaxInt {
      WalkAtLeastDistance(grid, start, end, r);
    }
  }

  /** A walk of at least one step leaves the start through a free neighbour. */
  lemma {:induction false} WalkLeavesStart(grid: Grid, start: Position, p: Position, n: nat)
    requires n >= 1 && Walk(grid, start, p, n)
    ensures exists i :: 0 <= i < 4 && grid.Free(start.MoveAlong(Dir(i)))
    decreases n
  {
    var i :| 0 <= i < 4 && Walk(grid, start, p.Back(Dir(i)), n - 1);
    if n == 1 {
      assert p == start.MoveAlong(Dir(i));
    } else {
      WalkLeavesStart(grid, start, p.Back(Dir(i)), n - 1);
    }
  }

  /** A start walled in by obstacles and the edge of the grid reaches nothing else: the
      search reports `MaxInt`. */
  lemma WalledInStart(grid: Grid, start: Position, end: Position, r: int)
    requires start != end
    requires forall i :: 0 <= i < 4 ==> !grid.Free(start.MoveAlong(Dir(i)))
    requires IsShortest(grid, start, end, r)
    ensures r == MaxInt
  {
    if r < MaxInt {
      WalkLeavesStart(grid, start, end, r);
    }
  }

  // ----- The search ----------------------------------------------------------------

  /** The score stored for `p`; a position outside the table reads as not reached. */
  function Score(s: seq<seq<int>>, p: Position): int {
    if 0 <= p.x < |s| && 0 <= p.y < |s[p.x]| then s[p.x][p.y] else MaxInt
  }

  /** The table with the score of `p` replaced by `v`: the shape is kept and no other
      score changes. */
  function SetScore(s: seq<seq<int>>, p: Position, v: int): (r: seq<seq<int>>)
    requires 0 <= p.x < |s| && 0 <= p.y < |s[p.x]|
    ensures |r| == |s| && forall x :: 0 <= x < |s| ==> |r[x]| == |s[x]|
    ensures forall q :: Score(r, q) == if q == p then v else Score(s, q)
  {
    s[p.x := s[p.x][p.y := v]]
  }

  /** The score table has one column of `height` entries per x, each in [0, MaxInt]. */
  ghost predicate Table(s: seq<seq<int>>, grid: Grid) {
    |s| == grid.width &&
    (forall x :: 0 <= x < |s| ==> |s[x]| == grid.height) &&
    (forall p :: 0 <= Score(s, p) <= MaxInt)
  }

  /** Every finite score is the length of a walk from the start. */
  ghost predicate Sound(s: seq<seq<int>>, grid: Grid, start: Position) {
    forall p :: 0 <= Score(s, p) < MaxInt ==> Walk(grid, start, p, Score(s, p))
  }

  /** The step from `p` along direction `i` is relaxed: a free neighbour scores at most
      one more than `p`. */
  ghost predicate EdgeRelaxed(s: seq<seq<int>>, grid: Grid, p: Position, i: nat)
    requires i < 4
  {
    var q := p.MoveAlong(Dir(i));
    grid.Free(q) ==> Score(s, q) <= Score(s, p) + 1
  }

  ghost predicate Relaxed(s: seq<seq<int>>, grid: Grid, p: Position) {
    EdgeRelaxed(s, grid, p, 0) && EdgeRelaxed(s, grid, p, 1) &&
    EdgeRelaxed(s, grid, p, 2) && EdgeRelaxed(s, grid, p, 3)
  }

  /** Every reached cell that is not waiting in the queue (nor the one being expanded)
      has all its steps relaxed. */
  ghost predicate Settled(s: seq<seq<int>>, grid: Grid, queue: seq<Position>, skip: Option<Position>) {
    forall p :: Score(s, p) < MaxInt && p !in queue && skip != Some(p) ==> Relaxed(s, grid, p)
  }

  /** Every queued cell is reached. */
  ghost predicate Queued(s: seq<seq<int>>, queue: seq<Position>) {
    forall i :: 0 <= i < |queue| ==> Score(s, queue[i]) < MaxInt
  }

  function RowSum(row: seq<int>): int {
    if row == [] then 0 else RowSum(row[..|row| - 1]) + row[|row| - 1]
  }

  /** The sum of all scores; every improvement lowers it, which is why the search ends. */
  function Total(s: seq<seq<int>>): int {
    if s == [] then 0 else Total(s[..|s| - 1]) + RowSum(s[|s| - 1])
  }

  lemma {:induction false} RowSumUpdate(row: seq<int>, i: nat, v: int)
    requires i < |row|
    ensures RowSum(row[i := v]) == RowSum(row) - row[i] + v
    decreases |row|
  {
    var n := |row| - 1;
    assert row[i := v][..n] == if i == n then row[..n] else row[..n][i := v];
    if i < n {
      RowSumUpdate(row[..n], i, v);
    }
  }

  lemma {:induction false} TotalUpdate(s: seq<seq<int>>, k: nat, row: seq<int>)
    requires k < |s|
    ensures Total(s[k := row]) == Total(s) - RowSum(s[k]) + RowSum(row)
    decreases |s|
  {
    var n := |s| - 1;
    assert s[k := row][..n] == if k == n then s[..n] else s[..n][k := row];
    if k < n {
      TotalUpdate(s[..n], k, row);
    }
  }

  /** Replacing one score changes the total by the difference. */
  lemma TotalSetScore(s: seq<seq<int>>, p: Position, v: int)
    requires 0 <= p.x < |s| && 0 <= p.y < |s[p.x]|
    ensures Total(SetScore(s, p, v)) == Total(s) - Score(s, p) + v
  {
    RowSumUpdate(s[p.x], p.y, v);
    TotalUpdate(s, p.x, s[p.x][p.y := v]);
  }

  lemma {:induction false} RowSumNonNegative(row: seq<int>)
    requires forall y :: 0 <= y < |row| ==> row[y] >= 0
    ensures RowSum(row) >= 0
  {
    if row != [] {
      RowSumNonNegative(row[..|row| - 1]);
    }
  }

  lemma {:induction false} TotalNonNegative(s: seq<seq<int>>)
    requires forall x, y :: 0 <= x < |s| && 0 <= y < |s[x]| ==> s[x][y] >= 0
    ensures Total(s) >= 0
  {
    if s != [] {
      TotalNonNegative(s[..|s| - 1]);
      RowSumNonNegative(s[|s| - 1]);
    }
  }

  /** A table whose scores are all non-negative has a non-negative total. */
  lemma TableTotal(s: seq<seq<int>>, grid: Grid)
    requires Table(s, grid)
    ensures Total(s) >= 0
  {
    forall x, y | 0 <= x < |s| && 0 <= y < |s[x]|
      ensures s[x][y] >= 0
    {
      assert Score(s, Position(x, y)) >= 0;
    }
    TotalNonNegative(s);
  }

  /** The freshly built table: 0 at the start, `MaxInt` everywhere else. */
  lemma InitialTable(s: seq<seq<int>>, grid: Grid, start: Position)
    requires grid.IsInBounds(start)
    requires |s| == grid.width && forall x :: 0 <= x < |s| ==> |s[x]| == grid.height
    requires forall x, y :: 0 <= x < grid.width && 0 <= y < grid.height ==>
      s[x][y] == if x == start.x && y == start.y then 0 else MaxInt
    ensures Table(s, grid) && Score(s, start) == 0
    ensures Sound(s, grid, start) && Settled(s, grid, [start], None) && Queued(s, [start])
  {
    assert Walk(grid, start, start, 0);
  }

  /** The invariant of the outer loop: a well-formed table with the start at 0, whose
      finite scores are walk lengths, whose reached cells outside the queue are relaxed,
      and whose queued cells are reached. */
  ghost predicate Searching(s: seq<seq<int>>, grid: Grid, start: Position, queue: seq<Position>) {
    Table(s, grid) && Score(s, start) == 0 &&
    Sound(s, grid, start) && Settled(s, grid, queue, None) && Queued(s, queue)
  }

  /** The invariant of the inner loop while `next` is expanded: the first `k` steps out of
      `next` are relaxed, and the table either is as it was when `next` was taken from
      the queue or has a smaller total. */
  ghost predicate Expanding(s: seq<seq<int>>, grid: Grid, start: Position, queue: seq<Position>,
                            next: Position, k: nat, popped: seq<Position>, before: int) {
    Table(s, grid) && Score(s, start) == 0 &&
    Score(s, next) < MaxInt && Walk(grid, start, next, Score(s, next)) &&
    Sound(s, grid, start) && Settled(s, grid, queue, Some(next)) && Queued(s, queue) &&
    (forall i :: 0 <= i < k && i < 4 ==> EdgeRelaxed(s, grid, next, i)) &&
    ((queue == popped && Total(s) == before) || Total(s) < before)
  }

  /** Taking the head of the queue starts its expansion. */
  lemma Pop(s: seq<seq<int>>, grid: Grid, start: Position, queue: seq<Position>)
    requires Searching(s, grid, start, queue) && |queue| > 0
    ensures Expanding(s, grid, start, queue[1..], queue[0], 0, queue[1..], Total(s))
  {
    var next := queue[0];
    assert Score(s, next) < MaxInt;
    forall p | Score(s, p) < MaxInt && p !in queue[1..] && Some(next) != Some(p)
      ensures Relaxed(s, grid, p)
    {
      assert p !in queue;
    }
  }

  /** Lowering the score of another cell keeps a relaxed step relaxed. */
  lemma LowerKeepsEdge(s: seq<seq<int>>, grid: Grid, p: Position, i: nat, point: Position, v: int)
    requires i < 4 && EdgeRelaxed(s, grid, p, i)
    requires p != point && 0 <= point.x < |s| && 0 <= point.y < |s[point.x]| && v <= Score(s, point)
    ensures EdgeRelaxed(SetScore(s, point, v), grid, p, i)
  {
  }

  lemma LowerKeepsRelaxed(s: seq<seq<int>>, grid: Grid, p: Position, point: Position, v: int)
    requires Relaxed(s, grid, p)
    requires p != point && 0 <= point.x < |s| && 0 <= point.y < |s[point.x]| && v <= Score(s, point)
    ensures Relaxed(SetScore(s, point, v), grid, p)
  {
    LowerKeepsEdge(s, grid, p, 0, point, v);
    LowerKeepsEdge(s, grid, p, 1, point, v);
    LowerKeepsEdge(s, grid, p, 2, point, v);
    LowerKeepsEdge(s, grid, p, 3, point, v);
  }

  /** Lowering the score of `point`, the neighbour of `next` in direction `k`, to one
      more than the score of `next` and queueing it keeps the search sound, relaxes the
      step from `next` to `point`, and lowers the total. */
  lemma Improve(s: seq<seq<int>>, grid: Grid, start: Position, queue: seq<Position>,
                next: Position, k: nat, popped: seq<Position>, before: int, point: Position)
    requires k < 4 && Expanding(s, grid, start, queue, next, k, popped, before)
    requires point == next.MoveAlong(Dir(k))
    requires grid.Free(point) && Score(s, point) > Score(s, next) + 1
    ensures Expanding(SetScore(s, point, Score(s, next) + 1), grid, start, queue + [point],
                      next, k + 1, popped, before)
    ensures forall q :: Score(SetScore(s, point, Score(s, next) + 1), q) <= Score(s, q)
  {
    var v := Score(s, next) + 1;
    var s' := SetScore(s, point, v);
    WalkStep(grid, start, next, Score(s, next), k, point);
    forall p | Score(s', p) < MaxInt && p !in queue + [point] && Some(next) != Some(p)
      ensures Relaxed(s', grid, p)
    {
      LowerKeepsRelaxed(s, grid, p, point, v);
    }
    forall i | 0 <= i < k + 1 && i < 4
      ensures EdgeRelaxed(s', grid, next, i)
    {
      if i < k {
        LowerKeepsEdge(s, grid, next, i, point, v);
      }
    }
    TotalSetScore(s, point, v);
  }

  /** A step to a blocked cell, or to one already scored low enough, is relaxed as is. */
  lemma Keep(s: seq<seq<int>>, grid: Grid, start: Position, queue: seq<Position>,
             next: Position, k: nat, popped: seq<Position>, before: int, point: Position)
    requires k < 4 && Expanding(s, grid, start, queue, next, k, popped, before)
    requires point == next.MoveAlong(Dir(k))
    requires !grid.Free(point) || Score(s, point) <= Score(s, next) + 1
    ensures Expanding(s, grid, start, queue, next, k + 1, popped, before)
  {
    assert EdgeRelaxed(s, grid, next, k);
  }

  /** Once all four steps out of `next` are relaxed the outer invariant holds again, and
      the table's total, which never goes below 0, has dropped or the queue has shrunk. */
  lemma Expanded(s: seq<seq<int>>, grid: Grid, start: Position, queue: seq<Position>,
                 next: Position, popped: seq<Position>, before: int)
    requires Expanding(s, grid, start, queue, next, 4, popped, before)
    ensures Searching(s, grid, start, queue)
    ensures 0 <= Total(s) && ((queue == popped && Total(s) == before) || Total(s) < before)
  {
    assert Relaxed(s, grid, next) by {
      assert EdgeRelaxed(s, grid, next, 0) && EdgeRelaxed(s, grid, next, 1);
      assert EdgeRelaxed(s, grid, next, 2) && EdgeRelaxed(s, grid, next, 3);
    }
    TableTotal(s, grid);
  }

  /** Once nothing is queued, every cell's score is at most the length of any walk to it. */
  lemma {:induction false} AllWalksBounded(s: seq<seq<int>>, grid: Grid, start: Position, p: Position, n: nat)
    requires Searching(s, grid, start, [])
    requires Walk(grid, start, p, n)
    ensures Score(s, p) <= n
    decreases n
  {
    if n > 0 {
      var i :| 0 <= i < 4 && Walk(grid, start, p.Back(Dir(i)), n - 1);
      var prev := p.Back(Dir(i));
      AllWalksBounded(s, grid, start, prev, n - 1);
      assert Relaxed(s, grid, prev);
      assert prev.MoveAlong(Dir(i)) == p;
      assert EdgeRelaxed(s, grid, prev, i);
    }
  }

  /** When the queue runs dry the end's score is the answer the search promises. */
  lemma Finished(s: seq<seq<int>>, grid: Grid, start: Position, end: Position)
    requires Searching(s, grid, start, [])
    ensures IsShortest(grid, start, end, Score(s, end))
  {
    forall n: nat | Walk(grid, start, end, n)
      ensures Score(s, end) <= n
    {
      AllWalksBounded(s, grid, start, end, n);
    }
  }

  /** Apart from the start, only free cells inside the grid ever get a finite score. */
  lemma ReachedCellsAreFree(s: seq<seq<int>>, grid: Grid, start: Position, queue: seq<Position>, p: Position)
    requires Searching(s, grid, start, queue)
    requires p != start && Score(s, p) < MaxInt
    ensures grid.Free(p)
  {
    assert Walk(grid, start, p, Score(s, p));
  }

  /** The search: a FIFO queue of cells whose score has just dropped; expanding a cell
      offers each free neighbour one more than its own score. The result is the end's
      score, which is the length of a shortest walk, or `MaxInt` when no walk exists. */
  method FindShortestPathWithObstacles(start: Position, end: Position, grid: Grid) returns (r: int)
    requires grid.IsInBounds(start) && grid.IsInBounds(end)
    ensures IsShortest(grid, start, end, r)
  {
    var scores: seq<seq<int>> := [];
    for i := 0 to grid.width
      invariant |scores| == i
      invariant forall x :: 0 <= x < i ==> |scores[x]| == grid.height
      invariant forall x, y :: 0 <= x < i && 0 <= y < grid.height ==>
        scores[x][y] == if x == start.x && y == start.y then 0 else MaxInt
    {
      var column: seq<int> := [];
      for j := 0 to grid.height
        invariant |column| == j
        invariant forall y :: 0 <= y < j ==> column[y] == if i == start.x && y == start.y then 0 else MaxInt
      {
        if i == start.x && j == start.y {
          column := column + [0];
        } else {
          column := column + [MaxInt];
        }
      }
      scores := scores + [column];
    }
    InitialTable(scores, grid, start);
    var queue := [start];
    while |queue| > 0
      invariant Searching(scores, grid, start, queue)
      decreases Total(scores), |queue|
    {
      ghost var before := Total(scores);
      Pop(scores, grid, start, queue);
      var next := queue[0];
      queue := queue[1..];
      ghost var popped := queue;
      for k := 0 to 4
        invariant Expanding(scores, grid, start, queue, next, k, popped, before)
      {
        var point := next.MoveAlong(Dir(k));
        if grid.IsInBounds(point) && point !in grid.obstacles {
          var curScore := scores[point.x][point.y];
          var newScore := scores[next.x][next.y] + 1;
          if curScore > newScore {
            Improve(scores, grid, start, queue, next, k, popped, before, point);
            queue := queue + [point];
            scores := SetScore(scores, point, newScore);
          } else {
            Keep(scores, grid, start, queue, next, k, popped, before, point);
          }
        } else {
          Keep(scores, grid, start, queue, next, k, popped, before, point);
        }
      }
      Expanded(scores, grid, start, queue, next, popped, before);
    }
    Finished(scores, grid, start, end);
    r := scores[end.x][end.y];
  }

  // ----- Examples ------------------------------------------------------------------

  /** The walk along a row of free cells. */
  lemma {:induction false} RowWalk(grid: Grid, start: Position, len: nat)
    requires forall x :: start.x < x <= start.x + len ==> grid.Free(Position(x, start.y))
    ensures Walk(grid, start, Position(start.x + len, start.y), len)
  {
    if len > 0 {
      RowWalk(grid, start, len - 1);
      assert grid.Free(Position(start.x + len, start.y));
      WalkStep(grid, start, Position(start.x + (len - 1), start.y), len - 1, 0, Position(start.x + len, start.y));
    }
  }

  /** With nothing in the way along the row the search finds the straight line. */
  lemma StraightLineExample(r: int)
    requires IsShortest(Grid(7, 7, [Position(2, 3), Position(4, 5)]), Position(0, 0), Position(5, 0), r)
    ensures r == 5
  {
    var grid := Grid(7, 7, [Position(2, 3), Position(4, 5)]);
    RowWalk(grid, Position(0, 0), 5);
    if r < MaxInt {
      WalkAtLeastDistance(grid, Position(0, 0), Position(5, 0), r);
    }
  }

  /** A start blocked on its right and below cannot reach anything else. */
  lemma BlockedExample(r: int)
    requires IsShortest(Grid(7, 7, [Position(1, 0), Position(0, 1)]), Position(0, 0), Position(5, 0), r)
    ensures r == MaxInt
  {
    WalledInStart(Grid(7, 7, [Position(1, 0), Position(0, 1)]), Position(0, 0), Position(5, 0), r);
  }
}
