/** Day 10, "Hoof It": a topographic map of heights 0-9. A hiking trail climbs by exactly
    one at each step up, down, left or right, from a 0 to a 9. Part 1 scores each
    trailhead by the number of distinct 9s it reaches, part 2 by the number of distinct
    trails. */
module Day10 {
  import opened GoLib

  datatype Direction = Direction(dx: int, dy: int)

  const Up := Direction(0, -1)
  const Down := Direction(0, 1)
  const Right := Direction(1, 0)
  const Left := Direction(-1, 0)

  /** The order in which neighbours are tried. */
  const AllDirs: seq<Direction> := [Up, Right, Down, Left]

  datatype Position = Position(x: int, y: int) {
    function MoveAlong(dir: Direction): Position {
      Position(x + dir.dx, y + dir.dy)
    }
  }

  /** Positions are listed row by row, left to right within a row. */
  predicate Before(a: Position, b: Position) {
    a.y < b.y || (a.y == b.y && a.x < b.x)
  }

  /** Which score a trailhead gets: the function value passed to `FindTotalScore`. */
  datatype ScoreFinder = ReachableTops | PossibleTrails

  lemma Append3<T>(a: seq<T>, b: seq<T>, c: seq<T>)
    ensures a + (b + c) == (a + b) + c
  {
  }

  datatype Grid = Grid(width: int, height: int, values: seq<seq<int>>) {

    /** `height` rows of `width` values each; `ValueAt` indexes the rows directly, so
        any other shape panics as soon as a short row is read. */
    predicate WellFormed() {
      |values| == height && forall y :: 0 <= y < |values| ==> |values[y]| == width
    }

    predicate IsInBounds(pos: Position) {
      0 <= pos.x < width && 0 <= pos.y < height
    }

    /** On a well-formed grid, in bounds means the position names a stored height. */
    lemma InBoundsIsStored(pos: Position)
      requires WellFormed()
      ensures IsInBounds(pos) <==> 0 <= pos.y < |values| && 0 <= pos.x < |values[pos.y]|
    {
    }

    function ValueAt(pos: Position): int
      requires WellFormed() && IsInBounds(pos)
    {
      values[pos.y][pos.x]
    }

    /** No height above 9, as `ReadInput` guarantees. */
    predicate Bounded() {
      WellFormed() && forall y, x :: 0 <= y < height && 0 <= x < width ==> values[y][x] <= 9
    }

    /** Every cell of the grid. */
    ghost function Cells(): set<Position> {
      set x, y | 0 <= x < width && 0 <= y < height :: Position(x, y)
    }

    // -------------------------------------------------------------------------
    // Steps
    // -------------------------------------------------------------------------

    /** Moving along `dir` from `pos` stays in the grid and climbs by exactly one. */
    predicate IsStep(pos: Position, dir: Direction)
      requires WellFormed() && IsInBounds(pos)
    {
      var next := pos.MoveAlong(dir);
      IsInBounds(next) && ValueAt(next) == ValueAt(pos) + 1
    }

    /** The steps from `pos` along `AllDirs[i..]`, in that order. */
    function NeighboursFrom(pos: Position, i: nat): (r: seq<Position>)
      requires WellFormed() && IsInBounds(pos) && i <= |AllDirs|
      ensures |r| <= |AllDirs| - i
      decreases |AllDirs| - i
    {
      if i == |AllDirs| then []
      else
        (if IsStep(pos, AllDirs[i]) then [pos.MoveAlong(AllDirs[i])] else []) +
        NeighboursFrom(pos, i + 1)
    }

    function Neighbours(pos: Position): seq<Position>
      requires WellFormed() && IsInBounds(pos)
    {
      NeighboursFrom(pos, 0)
    }

    /** Every listed neighbour is one step away, inside the grid and one higher. */
    lemma {:induction false} NeighbourIsStep(pos: Position, i: nat, n: Position)
      requires WellFormed() && IsInBounds(pos) && i <= |AllDirs|
      requires n in NeighboursFrom(pos, i)
      ensures IsInBounds(n) && ValueAt(n) == ValueAt(pos) + 1
      ensures Abs(n.x - pos.x) + Abs(n.y - pos.y) == 1
      decreases |AllDirs| - i
    {
      if !IsStep(pos, AllDirs[i]) || n != pos.MoveAlong(AllDirs[i]) {
        NeighbourIsStep(pos, i + 1, n);
      }
    }

    /** Every step along one of the remaining directions is listed. */
    lemma {:induction false} StepIsNeighbour(pos: Position, i: nat, j: nat)
      requires WellFormed() && IsInBounds(pos) && i <= j < |AllDirs|
      requires IsStep(pos, AllDirs[j])
      ensures pos.MoveAlong(AllDirs[j]) in NeighboursFrom(pos, i)
      decreases j - i
    {
      if i < j {
        StepIsNeighbour(pos, i + 1, j);
      }
    }

    /** Listed neighbours in both directions: exactly the in-grid orthogonal neighbours
        one higher. */
    lemma NeighboursIff(pos: Position, n: Position)
      requires WellFormed() && IsInBounds(pos)
      ensures n in Neighbours(pos) <==>
        IsInBounds(n) && ValueAt(n) == ValueAt(pos) + 1 && Abs(n.x - pos.x) + Abs(n.y - pos.y) == 1
    {
      if n in Neighbours(pos) {
        NeighbourIsStep(pos, 0, n);
      } else if IsInBounds(n) && ValueAt(n) == ValueAt(pos) + 1 && Abs(n.x - pos.x) + Abs(n.y - pos.y) == 1 {
        var j := if n.y < pos.y then 0 else if n.x > pos.x then 1 else if n.y > pos.y then 2 else 3;
        assert n == pos.MoveAlong(AllDirs[j]);
        StepIsNeighbour(pos, 0, j);
      }
    }

    /** `NeighboursFrom` unfolded once. */
    lemma NeighboursFromStep(pos: Position, i: nat)
      requires WellFormed() && IsInBounds(pos) && i < |AllDirs|
      ensures var next := pos.MoveAlong(AllDirs[i]);
        NeighboursFrom(pos, i) ==
          if IsInBounds(next) && ValueAt(next) == ValueAt(pos) + 1 then [next] + NeighboursFrom(pos, i + 1)
          else NeighboursFrom(pos, i + 1)
    {
    }

    /** `FindNextPossibleLocations`: tries the four directions in order. */
    method FindNextPossibleLocations(pos: Position) returns (positions: seq<Position>)
      requires WellFormed() && IsInBounds(pos)
      ensures positions == Neighbours(pos)
    {
      positions := [];
      for i := 0 to |AllDirs|
        invariant positions + NeighboursFrom(pos, i) == Neighbours(pos)
      {
        var nextPos := pos.MoveAlong(AllDirs[i]);
        NeighboursFromStep(pos, i);
        if !IsInBounds(nextPos) {
          continue;
        }
        if ValueAt(nextPos) != ValueAt(pos) + 1 {
          continue;
        }
        Append3(positions, [nextPos], NeighboursFrom(pos, i + 1));
        positions := positions + [nextPos];
      }
      assert positions + [] == positions;
    }

    // -------------------------------------------------------------------------
    // What the two searches compute
    // -------------------------------------------------------------------------

    /** The 9s reachable from `pos` by climbing one at a time; a 9 is not climbed past. */
    function Tops(pos: Position): set<Position>
      requires Bounded() && IsInBounds(pos)
      decreases 9 - ValueAt(pos), |AllDirs| + 1
    {
      if ValueAt(pos) == 9 then {pos} else TopsVia(pos, 0)
    }

    function TopsVia(pos: Position, i: nat): set<Position>
      requires Bounded() && IsInBounds(pos) && ValueAt(pos) < 9 && i <= |AllDirs|
      decreases 9 - ValueAt(pos), |AllDirs| - i
    {
      if i == |AllDirs| then {}
      else
        (if IsStep(pos, AllDirs[i]) then Tops(pos.MoveAlong(AllDirs[i])) else {}) +
        TopsVia(pos, i + 1)
    }

    /** The number of distinct climbing trails from `pos` to a 9. */
    function Trails(pos: Position): nat
      requires Bounded() && IsInBounds(pos)
      decreases 9 - ValueAt(pos), |AllDirs| + 1
    {
      if ValueAt(pos) == 9 then 1 else TrailsVia(pos, 0)
    }

    function TrailsVia(pos: Position, i: nat): nat
      requires Bounded() && IsInBounds(pos) && ValueAt(pos) < 9 && i <= |AllDirs|
      decreases 9 - ValueAt(pos), |AllDirs| - i
    {
      if i == |AllDirs| then 0
      else
        (if IsStep(pos, AllDirs[i]) then Trails(pos.MoveAlong(AllDirs[i])) else 0) +
        TrailsVia(pos, i + 1)
    }

    /** The number of climbing paths from `pos` that stop at or before the first 9,
        including the path of `pos` alone: how many queue entries the trail search
        handles. */
    function Prefixes(pos: Position): nat
      requires Bounded() && IsInBounds(pos)
      decreases 9 - ValueAt(pos), |AllDirs| + 1
    {
      if ValueAt(pos) == 9 then 1 else 1 + PrefixesVia(pos, 0)
    }

    function PrefixesVia(pos: Position, i: nat): nat
      requires Bounded() && IsInBounds(pos) && ValueAt(pos) < 9 && i <= |AllDirs|
      decreases 9 - ValueAt(pos), |AllDirs| - i
    {
      if i == |AllDirs| then 0
      else
        (if IsStep(pos, AllDirs[i]) then Prefixes(pos.MoveAlong(AllDirs[i])) else 0) +
        PrefixesVia(pos, i + 1)
    }

    predicate AllInBounds(ps: seq<Position>) {
      forall k :: 0 <= k < |ps| ==> IsInBounds(ps[k])
    }

    function SumTrails(ps: seq<Position>): nat
      requires Bounded() && AllInBounds(ps)
    {
      if ps == [] then 0 else Trails(ps[0]) + SumTrails(ps[1..])
    }

    function SumPrefixes(ps: seq<Position>): nat
      requires Bounded() && AllInBounds(ps)
    {
      if ps == [] then 0 else Prefixes(ps[0]) + SumPrefixes(ps[1..])
    }

    lemma {:induction false} SumAppend(a: seq<Position>, b: seq<Position>)
      requires Bounded() && AllInBounds(a) && AllInBounds(b)
      ensures AllInBounds(a + b)
      ensures SumTrails(a + b) == SumTrails(a) + SumTrails(b)
      ensures SumPrefixes(a + b) == SumPrefixes(a) + SumPrefixes(b)
    {
      if a != [] {
        assert (a + b)[1..] == a[1..] + b;
        SumAppend(a[1..], b);
      } else {
        assert a + b == b;
      }
    }

    lemma NeighboursInBounds(pos: Position, i: nat)
      requires WellFormed() && IsInBounds(pos) && i <= |AllDirs|
      ensures AllInBounds(NeighboursFrom(pos, i))
    {
      var ns := NeighboursFrom(pos, i);
      forall k | 0 <= k < |ns|
        ensures IsInBounds(ns[k])
      {
        NeighbourIsStep(pos, i, ns[k]);
      }
    }

    /** Summing over the listed neighbours gives the same totals as the recursive
        definitions. */
    lemma {:induction false} SumTrailsNeighbours(pos: Position, i: nat)
      requires Bounded() && IsInBounds(pos) && ValueAt(pos) < 9 && i <= |AllDirs|
      ensures AllInBounds(NeighboursFrom(pos, i))
      ensures SumTrails(NeighboursFrom(pos, i)) == TrailsVia(pos, i)
      decreases |AllDirs| - i
    {
      NeighboursInBounds(pos, i);
      if i < |AllDirs| {
        SumTrailsNeighbours(pos, i + 1);
        NeighboursFromStep(pos, i);
        var rest := NeighboursFrom(pos, i + 1);
        if IsStep(pos, AllDirs[i]) {
          assert ([pos.MoveAlong(AllDirs[i])] + rest)[1..] == rest;
        }
      }
    }

    lemma {:induction false} SumPrefixesNeighbours(pos: Position, i: nat)
      requires Bounded() && IsInBounds(pos) && ValueAt(pos) < 9 && i <= |AllDirs|
      ensures AllInBounds(NeighboursFrom(pos, i))
      ensures SumPrefixes(NeighboursFrom(pos, i)) == PrefixesVia(pos, i)
      decreases |AllDirs| - i
    {
      NeighboursInBounds(pos, i);
      if i < |AllDirs| {
        SumPrefixesNeighbours(pos, i + 1);
        NeighboursFromStep(pos, i);
        var rest := NeighboursFrom(pos, i + 1);
        if IsStep(pos, AllDirs[i]) {
          assert ([pos.MoveAlong(AllDirs[i])] + rest)[1..] == rest;
        }
      }
    }

    /** Every top is a 9 inside the grid. */
    lemma {:induction false} TopsAreNines(pos: Position, t: Position)
      requires Bounded() && IsInBounds(pos) && t in Tops(pos)
      ensures IsInBounds(t) && ValueAt(t) == 9
      decreases 9 - ValueAt(pos), |AllDirs| + 1
    {
      if ValueAt(pos) != 9 {
        TopsViaAreNines(pos, 0, t);
      }
    }

    lemma {:induction false} TopsViaAreNines(pos: Position, i: nat, t: Position)
      requires Bounded() && IsInBounds(pos) && ValueAt(pos) < 9 && i <= |AllDirs|
      requires t in TopsVia(pos, i)
      ensures IsInBounds(t) && ValueAt(t) == 9
      decreases 9 - ValueAt(pos), |AllDirs| - i
    {
      if IsStep(pos, AllDirs[i]) && t in Tops(pos.MoveAlong(AllDirs[i])) {
        TopsAreNines(pos.MoveAlong(AllDirs[i]), t);
      } else {
        TopsViaAreNines(pos, i + 1, t);
      }
    }

    /** Each distinct 9 reached has at least one trail to it, so part 2 never scores a
        trailhead lower than part 1. */
    lemma {:induction false} TopsAtMostTrails(pos: Position)
      requires Bounded() && IsInBounds(pos)
      ensures |Tops(pos)| <= Trails(pos)
      decreases 9 - ValueAt(pos), |AllDirs| + 1
    {
      if ValueAt(pos) != 9 {
        TopsViaAtMostTrailsVia(pos, 0);
      }
    }

    lemma {:induction false} TopsViaAtMostTrailsVia(pos: Position, i: nat)
      requires Bounded() && IsInBounds(pos) && ValueAt(pos) < 9 && i <= |AllDirs|
      ensures |TopsVia(pos, i)| <= TrailsVia(pos, i)
      decreases 9 - ValueAt(pos), |AllDirs| - i
    {
      if i < |AllDirs| {
        TopsViaAtMostTrailsVia(pos, i + 1);
        var here: set<Position> := {};
        if IsStep(pos, AllDirs[i]) {
          here := Tops(pos.MoveAlong(AllDirs[i]));
          TopsAtMostTrails(pos.MoveAlong(AllDirs[i]));
        }
        assert TopsVia(pos, i) == here + TopsVia(pos, i + 1);
        assert |here + TopsVia(pos, i + 1)| <= |here| + |TopsVia(pos, i + 1)|;
      }
    }

    /** The 9s reachable from a listed neighbour are reachable from `pos`. */
    lemma {:induction false} NeighbourTops(pos: Position, i: nat, n: Position)
      requires Bounded() && IsInBounds(pos) && ValueAt(pos) < 9 && i <= |AllDirs|
      requires n in NeighboursFrom(pos, i)
      ensures IsInBounds(n) && Tops(n) <= TopsVia(pos, i)
      decreases |AllDirs| - i
    {
      NeighbourIsStep(pos, i, n);
      if !IsStep(pos, AllDirs[i]) || n != pos.MoveAlong(AllDirs[i]) {
        NeighbourTops(pos, i + 1, n);
      }
    }

    /** A set of positions that contains, for every member below 9, all its listed
        neighbours. */
    ghost predicate Closed(visited: seq<Position>, queue: seq<Position>)
      requires Bounded()
    {
      forall v, n :: v in visited && IsInBounds(v) && ValueAt(v) != 9 && n in Neighbours(v) ==>
        n in visited || n in queue
    }

    /** A closed set that holds `pos` holds every 9 reachable from it. */
    lemma {:induction false} ClosedHoldsTops(visited: seq<Position>, pos: Position)
      requires Bounded() && Closed(visited, []) && IsInBounds(pos) && pos in visited
      ensures Tops(pos) <= set p | p in visited
      decreases 9 - ValueAt(pos), |AllDirs| + 1
    {
      if ValueAt(pos) != 9 {
        ClosedHoldsTopsVia(visited, pos, 0);
      }
    }

    lemma {:induction false} ClosedHoldsTopsVia(visited: seq<Position>, pos: Position, i: nat)
      requires Bounded() && Closed(visited, []) && IsInBounds(pos) && pos in visited
      requires ValueAt(pos) < 9 && i <= |AllDirs|
      ensures TopsVia(pos, i) <= set p | p in visited
      decreases 9 - ValueAt(pos), |AllDirs| - i
    {
      if i < |AllDirs| {
        ClosedHoldsTopsVia(visited, pos, i + 1);
        if IsStep(pos, AllDirs[i]) {
          var n := pos.MoveAlong(AllDirs[i]);
          StepIsNeighbour(pos, 0, i);
          assert n in visited;
          ClosedHoldsTops(visited, n);
        }
      }
    }

    // -------------------------------------------------------------------------
    // The two searches
    // -------------------------------------------------------------------------

    /** The 9s among the visited positions. */
    function NinesIn(visited: seq<Position>): set<Position>
      requires Bounded()
    {
      set p | p in visited && IsInBounds(p) && ValueAt(p) == 9
    }

    /** What the breadth-first search keeps true: everything listed is in the grid and
        leads only to 9s reachable from `start`, `start` itself is listed, and every
        visited position below 9 has all its neighbours visited or queued. */
    ghost predicate SearchInvariant(start: Position, visited: seq<Position>, queue: seq<Position>)
      requires Bounded() && IsInBounds(start)
    {
      AllInBounds(visited) && AllInBounds(queue) &&
      (start in visited || start in queue) &&
      (forall p :: p in visited || p in queue ==> IsInBounds(p) && Tops(p) <= Tops(start)) &&
      Closed(visited, queue)
    }

    ghost function VisitedSet(visited: seq<Position>): set<Position> {
      set p | p in visited
    }

    /** `FindReachableTops`: a breadth-first search that expands each position once and
        counts the 9s it visits. */
    method FindReachableTops(start: Position) returns (count: int)
      requires Bounded() && IsInBounds(start)
      ensures count == |Tops(start)|
    {
      var visited: seq<Position> := [];
      count := 0;
      var queue := [start];
      while |queue| != 0
        invariant SearchInvariant(start, visited, queue)
        invariant count == |NinesIn(visited)|
        decreases Cells() - VisitedSet(visited), |queue|
      {
        var pos := queue[0];
        if pos !in visited {
          VisitShrinks(visited, pos);
          if ValueAt(pos) != 9 {
            var nextPositions := FindNextPossibleLocations(pos);
            ExpandKeepsInvariant(start, visited, queue);
            visited := visited + [pos];
            queue := queue[1..] + nextPositions;
          } else {
            CountKeepsInvariant(start, visited, queue);
            visited := visited + [pos];
            count := count + 1;
            queue := queue[1..];
          }
        } else {
          SkipKeepsInvariant(start, visited, queue);
          queue := queue[1..];
        }
      }
      SearchFinds(start, visited);
    }

    /** Visiting a new cell leaves fewer cells unvisited. */
    lemma VisitShrinks(visited: seq<Position>, pos: Position)
      requires IsInBounds(pos) && pos !in visited
      ensures Cells() - VisitedSet(visited + [pos]) < Cells() - VisitedSet(visited)
    {
      assert pos == Position(pos.x, pos.y);
      assert pos in Cells() - VisitedSet(visited);
    }

    /** Dropping an already visited position from the queue. */
    lemma SkipKeepsInvariant(start: Position, visited: seq<Position>, queue: seq<Position>)
      requires Bounded() && IsInBounds(start) && SearchInvariant(start, visited, queue)
      requires queue != [] && queue[0] in visited
      ensures SearchInvariant(start, visited, queue[1..])
    {
      assert forall p :: p in queue ==> p == queue[0] || p in queue[1..];
    }

    /** Visiting the front of the queue and queueing `next` after the rest keeps the
        visited positions closed, provided `next` holds the front's neighbours when it
        is below 9. */
    lemma ClosedAfterVisit(visited: seq<Position>, queue: seq<Position>, next: seq<Position>)
      requires Bounded() && Closed(visited, queue) && queue != [] && IsInBounds(queue[0])
      requires ValueAt(queue[0]) != 9 ==> next == Neighbours(queue[0])
      ensures Closed(visited + [queue[0]], queue[1..] + next)
    {
      var pos := queue[0];
      forall v, n | v in visited + [pos] && IsInBounds(v) && ValueAt(v) != 9 && n in Neighbours(v)
        ensures n in visited + [pos] || n in queue[1..] + next
      {
        if v == pos {
          assert n in next;
        } else {
          assert v in visited;
          assert n in visited || n in queue;
          if n != pos && n !in visited {
            assert n in queue[1..];
          }
        }
      }
    }

    /** Visiting a 9 at the front of the queue counts it. */
    lemma CountKeepsInvariant(start: Position, visited: seq<Position>, queue: seq<Position>)
      requires Bounded() && IsInBounds(start) && SearchInvariant(start, visited, queue)
      requires queue != [] && queue[0] !in visited && ValueAt(queue[0]) == 9
      ensures SearchInvariant(start, visited + [queue[0]], queue[1..])
      ensures |NinesIn(visited + [queue[0]])| == |NinesIn(visited)| + 1
    {
      var pos := queue[0];
      ClosedAfterVisit(visited, queue, []);
      assert queue[1..] + [] == queue[1..];
      ListedAfterVisit(start, visited, queue, []);
      assert NinesIn(visited + [pos]) == NinesIn(visited) + {pos};
    }

    /** The positions listed after a visit still lie in the grid and lead only to 9s
        reachable from `start`. */
    lemma ListedAfterVisit(start: Position, visited: seq<Position>, queue: seq<Position>, next: seq<Position>)
      requires Bounded() && IsInBounds(start) && SearchInvariant(start, visited, queue)
      requires queue != []
      requires AllInBounds(next) && forall p :: p in next ==> IsInBounds(p) && Tops(p) <= Tops(start)
      ensures AllInBounds(visited + [queue[0]]) && AllInBounds(queue[1..] + next)
      ensures start in visited + [queue[0]] || start in queue[1..] + next
      ensures forall p :: p in visited + [queue[0]] || p in queue[1..] + next ==>
        IsInBounds(p) && Tops(p) <= Tops(start)
    {
      assert forall p :: p in queue ==> p == queue[0] || p in queue[1..];
      SumAppend(queue[1..], next);
    }

    /** Visiting any other position at the front of the queue queues its neighbours. */
    lemma ExpandKeepsInvariant(start: Position, visited: seq<Position>, queue: seq<Position>)
      requires Bounded() && IsInBounds(start) && SearchInvariant(start, visited, queue)
      requires queue != [] && queue[0] !in visited && ValueAt(queue[0]) != 9
      ensures SearchInvariant(start, visited + [queue[0]], queue[1..] + Neighbours(queue[0]))
      ensures NinesIn(visited + [queue[0]]) == NinesIn(visited)
    {
      var pos := queue[0];
      var next := Neighbours(pos);
      assert pos in queue;
      assert Tops(pos) == TopsVia(pos, 0);
      NeighboursInBounds(pos, 0);
      forall p | p in next
        ensures IsInBounds(p) && Tops(p) <= Tops(start)
      {
        NeighbourTops(pos, 0, p);
      }
      ClosedAfterVisit(visited, queue, next);
      ListedAfterVisit(start, visited, queue, next);
    }

    /** When the queue runs dry, the visited 9s are exactly the reachable ones. */
    lemma SearchFinds(start: Position, visited: seq<Position>)
      requires Bounded() && IsInBounds(start) && SearchInvariant(start, visited, [])
      ensures NinesIn(visited) == Tops(start)
    {
      ClosedHoldsTops(visited, start);
      forall t | t in Tops(start)
        ensures t in NinesIn(visited)
      {
        TopsAreNines(start, t);
      }
    }

    /** `FindPossibleTrails`: the same search without the visited list, so every
        climbing path is followed and each one reaching a 9 is counted. */
    method FindPossibleTrails(start: Position) returns (count: int)
      requires Bounded() && IsInBounds(start)
      ensures count == Trails(start)
    {
      count := 0;
      var queue := [start];
      while |queue| != 0
        invariant AllInBounds(queue)
        invariant count + SumTrails(queue) == Trails(start)
        decreases SumPrefixes(queue)
      {
        var pos := queue[0];
        var rest := queue[1..];
        assert AllInBounds(rest);
        if ValueAt(pos) != 9 {
          var nextPositions := FindNextPossibleLocations(pos);
          SumTrailsNeighbours(pos, 0);
          SumPrefixesNeighbours(pos, 0);
          SumAppend(rest, nextPositions);
          queue := rest + nextPositions;
        } else {
          count := count + 1;
          queue := rest;
        }
      }
    }

    // -------------------------------------------------------------------------
    // Trailheads and the total score
    // -------------------------------------------------------------------------

    /** The 0s of the first `w` columns of row `y`, left to right. */
    function ZerosInRow(y: int, w: nat): seq<Position>
      requires WellFormed() && 0 <= y < height && w <= width
    {
      if w == 0 then []
      else
        ZerosInRow(y, w - 1) + (if values[y][w - 1] == 0 then [Position(w - 1, y)] else [])
    }

    /** The 0s of the first `h` rows, row by row. */
    function ZerosBelow(h: nat): seq<Position>
      requires WellFormed() && h <= height && width >= 0
    {
      if h == 0 then [] else ZerosBelow(h - 1) + ZerosInRow(h - 1, width)
    }

    function StartingPositions(): seq<Position>
      requires WellFormed() && width >= 0
    {
      ZerosBelow(height)
    }

    lemma {:induction false} ZerosInRowIff(y: int, w: nat, p: Position)
      requires WellFormed() && 0 <= y < height && w <= width
      ensures p in ZerosInRow(y, w) <==> p.y == y && 0 <= p.x < w && values[y][p.x] == 0
    {
      if w > 0 {
        ZerosInRowIff(y, w - 1, p);
      }
    }

    lemma {:induction false} ZerosBelowIff(h: nat, p: Position)
      requires WellFormed() && h <= height && width >= 0
      ensures p in ZerosBelow(h) <==> 0 <= p.y < h && 0 <= p.x < width && values[p.y][p.x] == 0
    {
      if h > 0 {
        ZerosBelowIff(h - 1, p);
        ZerosInRowIff(h - 1, width, p);
      }
    }

    /** The trailheads are exactly the 0s of the grid. */
    lemma StartingPositionsIff(p: Position)
      requires WellFormed() && width >= 0
      ensures p in StartingPositions() <==> IsInBounds(p) && ValueAt(p) == 0
    {
      ZerosBelowIff(height, p);
    }

    lemma {:induction false} ZerosInRowSorted(y: int, w: nat)
      requires WellFormed() && 0 <= y < height && w <= width
      ensures forall k :: 0 <= k < |ZerosInRow(y, w)| ==>
        ZerosInRow(y, w)[k].y == y && 0 <= ZerosInRow(y, w)[k].x < w
      ensures forall i, j :: 0 <= i < j < |ZerosInRow(y, w)| ==>
        Before(ZerosInRow(y, w)[i], ZerosInRow(y, w)[j])
    {
      if w > 0 {
        ZerosInRowSorted(y, w - 1);
      }
    }

    lemma {:induction false} ZerosBelowSorted(h: nat)
      requires WellFormed() && h <= height && width >= 0
      ensures forall k :: 0 <= k < |ZerosBelow(h)| ==> ZerosBelow(h)[k].y < h
      ensures forall i, j :: 0 <= i < j < |ZerosBelow(h)| ==> Before(ZerosBelow(h)[i], ZerosBelow(h)[j])
    {
      if h > 0 {
        ZerosBelowSorted(h - 1);
        ZerosInRowSorted(h - 1, width);
      }
    }

    /** The trailheads come in row-major order, so each appears once. */
    lemma StartingPositionsSorted()
      requires WellFormed() && width >= 0
      ensures forall i, j :: 0 <= i < j < |StartingPositions()| ==>
        Before(StartingPositions()[i], StartingPositions()[j])
    {
      ZerosBelowSorted(height);
    }

    /** `IdentifyStartingPositions`: scans the rows top to bottom. */
    method IdentifyStartingPositions() returns (positions: seq<Position>)
      requires WellFormed() && width >= 0
      ensures positions == StartingPositions()
    {
      positions := [];
      for y := 0 to height
        invariant positions == ZerosBelow(y)
      {
        for x := 0 to width
          invariant positions == ZerosBelow(y) + ZerosInRow(y, x)
        {
          if ValueAt(Position(x, y)) == 0 {
            positions := positions + [Position(x, y)];
          }
        }
      }
    }

    /** What `scoreFinder` returns for one trailhead. */
    function Score(finder: ScoreFinder, pos: Position): nat
      requires Bounded() && IsInBounds(pos)
    {
      match finder
      case ReachableTops => |Tops(pos)|
      case PossibleTrails => Trails(pos)
    }

    function SumScores(finder: ScoreFinder, ps: seq<Position>): nat
      requires Bounded() && AllInBounds(ps)
    {
      if ps == [] then 0 else SumScores(finder, ps[..|ps| - 1]) + Score(finder, ps[|ps| - 1])
    }

    lemma StartsInBounds()
      requires WellFormed() && width >= 0
      ensures AllInBounds(StartingPositions())
    {
      forall k | 0 <= k < |StartingPositions()|
        ensures IsInBounds(StartingPositions()[k])
      {
        StartingPositionsIff(StartingPositions()[k]);
      }
    }

    /** The total score: every trailhead's score added up. */
    ghost function TotalScore(finder: ScoreFinder): nat
      requires Bounded() && width >= 0
    {
      StartsInBounds();
      SumScores(finder, StartingPositions())
    }

    /** `FindTotalScore`: each trailhead is scored on its own goroutine and the scores
        are summed as they arrive; addition does not depend on the order of arrival, so
        the scores are summed here in trailhead order. */
    method FindTotalScore(finder: ScoreFinder) returns (total: int)
      requires Bounded() && width >= 0
      ensures total == TotalScore(finder)
    {
      var startingPos := IdentifyStartingPositions();
      StartsInBounds();
      total := 0;
      for i := 0 to |startingPos|
        invariant total == SumScores(finder, startingPos[..i])
      {
        assert startingPos[..i + 1][..i] == startingPos[..i];
        var score;
        match finder {
          case ReachableTops =>
            score := FindReachableTops(startingPos[i]);
          case PossibleTrails =>
            score := FindPossibleTrails(startingPos[i]);
        }
        total := total + score;
      }
      assert startingPos[..|startingPos|] == startingPos;
    }

    lemma {:induction false} SumScoresOrdered(ps: seq<Position>)
      requires Bounded() && AllInBounds(ps)
      ensures SumScores(ReachableTops, ps) <= SumScores(PossibleTrails, ps)
    {
      if ps != [] {
        SumScoresOrdered(ps[..|ps| - 1]);
        TopsAtMostTrails(ps[|ps| - 1]);
      }
    }

    /** The part 2 total is never below the part 1 total. */
    lemma PartTwoAtLeastPartOne()
      requires Bounded() && width >= 0
      ensures TotalScore(ReachableTops) <= TotalScore(PossibleTrails)
    {
      StartsInBounds();
      SumScoresOrdered(StartingPositions());
    }
  }

  // ---------------------------------------------------------------------------
  // Reading the map
  // ---------------------------------------------------------------------------

  /** A character's height: its digit, or -1 when `strconv.ParseInt` rejects it. */
  function Height(c: char): (h: int)
    ensures -1 <= h <= 9
    ensures h == if ParseInt([c], 8).ok then ParseInt([c], 8).value else -1
  {
    ParseIntOneChar(c);
    if IsDigit(c) then DigitValue(c) else -1
  }

  function RowOf(line: string): seq<int> {
    seq(|line|, j requires 0 <= j < |line| => Height(line[j]))
  }

  /** The grid `ReadInput` builds: one row per line, as wide as the first line. */
  function GridOf(input: string): Grid {
    var lines := Split(input, '\n');
    Grid(|lines[0]|, |lines|, seq(|lines|, i requires 0 <= i < |lines| => RowOf(lines[i])))
  }

  /** The grid read from any input has no height above 9, and is well formed exactly
      when every line is as long as the first. */
  lemma GridOfShape(input: string)
    ensures var g := GridOf(input);
      var lines := Split(input, '\n');
      g.height == |lines| && g.width == |lines[0]| &&
      (g.WellFormed() <==> forall i :: 0 <= i < |lines| ==> |lines[i]| == |lines[0]|) &&
      (g.WellFormed() ==> g.Bounded()) &&
      forall y, x :: 0 <= y < |g.values| && 0 <= x < |g.values[y]| ==> -1 <= g.values[y][x] <= 9
  {
    var g := GridOf(input);
    var lines := Split(input, '\n');
    assert forall i :: 0 <= i < |lines| ==> |g.values[i]| == |lines[i]|;
  }

  /** `ReadInput`: splits the input into lines and converts each character. */
  method ReadInput(input: string) returns (grid: Grid)
    ensures grid == GridOf(input)
  {
    var lines := Split(input, '\n');
    var values: seq<seq<int>> := [];
    for i := 0 to |lines|
      invariant values == seq(i, k requires 0 <= k < i => RowOf(lines[k]))
    {
      var line := lines[i];
      var row: seq<int> := [];
      for j := 0 to |line|
        invariant row == RowOf(line[..j])
      {
        assert line[j..j + 1] == [line[j]];
        var v := ParseInt(line[j..j + 1], 8);
        if !v.ok {
          row := row + [-1];
        } else {
          row := row + [v.value];
        }
      }
      assert line[..|line|] == line;
      values := values + [row];
    }
    grid := Grid(|lines[0]|, |lines|, values);
  }

  /** The 4 by 4 map of the tests. */
  const SmallGrid := Grid(4, 4, [[0, 1, 2, 3], [1, 2, 3, 4], [8, 7, 6, 5], [9, 8, 7, 6]])

  /** Its one trailhead is the top left corner. */
  lemma SmallStarts()
    ensures SmallGrid.WellFormed() && SmallGrid.StartingPositions() == [Position(0, 0)]
  {
    var g := SmallGrid;
    assert g.ZerosInRow(0, 4) == [Position(0, 0)] by {
      assert g.ZerosInRow(0, 1) == [Position(0, 0)];
    }
    assert g.ZerosInRow(1, 4) == [];
    assert g.ZerosInRow(2, 4) == [];
    assert g.ZerosInRow(3, 4) == [];
  }
}
