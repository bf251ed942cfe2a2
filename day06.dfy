/** Day 6: a guard walks a grid, turning right in front of every obstacle, until it leaves
    the grid; the answer is the number of distinct cells on its path. Positions are `(x, y)`
    with `x` the column and `y` the row, `y` growing downwards. */
module Day06 {
  import opened GoLib

  datatype Direction = Direction(x: int, y: int)
  datatype Position = Position(x: int, y: int)
  datatype Size = Size(width: int, height: int)

  const UP := Direction(0, -1)
  const DOWN := Direction(0, 1)
  const RIGHT := Direction(1, 0)
  const LEFT := Direction(-1, 0)

  /** The four directions the guard can face. */
  predicate IsDir(d: Direction) {
    d == UP || d == DOWN || d == RIGHT || d == LEFT
  }

  /** A quarter turn to the right; any other direction is a programming error. */
  function Rotate90(d: Direction): (r: Direction)
    requires IsDir(d)
    ensures IsDir(r)
  {
    if d == UP then RIGHT
    else if d == RIGHT then DOWN
    else if d == DOWN then LEFT
    else UP
  }

  /** Four quarter turns bring the guard back to where it faced, and each turn is a right
      angle. */
  lemma RotateFourTimes(d: Direction)
    requires IsDir(d)
    ensures Rotate90(Rotate90(Rotate90(Rotate90(d)))) == d
    ensures Rotate90(d) != d && Rotate90(Rotate90(d)) == Direction(-d.x, -d.y)
  {
  }

  /** The position with no guard on it. */
  const NullPosition := Position(-1, -1)

  predicate IsNull(p: Position) {
    p.x == -1 && p.y == -1
  }

  /** `p` lies in the grid. */
  predicate IsInBounds(size: Size, p: Position) {
    !(p.x < 0 || p.y < 0 || p.x >= size.width || p.y >= size.height)
  }

  /** Manhattan distance; Go's `AbsDiff(x, y)` is `Abs(x - y)`. */
  function Dist(p: Position, q: Position): nat {
    Abs(p.x - q.x) + Abs(p.y - q.y)
  }

  /** `k * s` for a step `s` of -1, 0 or 1, written out case by case. */
  function Times(k: int, s: int): int
    requires -1 <= s <= 1
  {
    if s == 1 then k else if s == -1 then -k else 0
  }

  /** The position `k` steps from `p` in direction `d`. */
  function Advance(p: Position, d: Direction, k: int): Position
    requires IsDir(d)
  {
    Position(p.x + Times(k, d.x), p.y + Times(k, d.y))
  }

  /** The cell in front of the guard. */
  function NextPosAfter1Time(p: Position, d: Direction): (q: Position)
    requires IsDir(d)
    ensures q == Advance(p, d, 1)
  {
    Position(p.x + d.x, p.y + d.y)
  }

  lemma AdvanceDist(p: Position, d: Direction, k: nat)
    requires IsDir(d)
    ensures Dist(p, Advance(p, d, k)) == k
  {
  }

  /** The obstacle is on the guard's row or column, strictly ahead of it. */
  predicate IsInTheWay(pos: Position, dir: Direction, obstacle: Position)
    requires IsDir(dir)
  {
    if dir.x == 0 then pos.x == obstacle.x && (pos.y - obstacle.y) * dir.y < 0
    else pos.y == obstacle.y && (pos.x - obstacle.x) * dir.x < 0
  }

  /** In the way means some whole number of steps ahead, that number being the distance. */
  lemma IsInTheWayIff(pos: Position, dir: Direction, obstacle: Position)
    requires IsDir(dir)
    ensures IsInTheWay(pos, dir, obstacle) <==> exists k :: k >= 1 && obstacle == Advance(pos, dir, k)
    ensures IsInTheWay(pos, dir, obstacle) ==> obstacle == Advance(pos, dir, Dist(pos, obstacle))
  {
    if IsInTheWay(pos, dir, obstacle) {
      assert obstacle == Advance(pos, dir, Dist(pos, obstacle));
    }
  }

  /** The number of cells between the guard and the edge it faces, its own cell excluded
      (for a guard inside the grid). */
  function FindDistanceToEdge(pos: Position, dir: Direction, size: Size): (n: int)
    requires IsDir(dir)
    ensures IsInBounds(size, pos) ==>
      (n >= 0 && IsInBounds(size, Advance(pos, dir, n)) && !IsInBounds(size, Advance(pos, dir, n + 1)))
  {
    if dir == UP then pos.y
    else if dir == DOWN then size.height - pos.y - 1
    else if dir == RIGHT then size.width - pos.x - 1
    else pos.x
  }

  /** How many more in-bound steps are possible ahead: the distance to the edge, never
      negative. */
  function Remaining(p: Position, d: Direction, size: Size): nat
    requires IsDir(d)
  {
    var e := FindDistanceToEdge(p, d, size);
    if e < 0 then 0 else e
  }

  // ---------------------------------------------------------------------------
  // The nearest obstacle ahead
  // ---------------------------------------------------------------------------

  /** Obstacles this far away or farther are never picked. */
  const MaxDistance := 100000000

  /** An obstacle the guard considers: in the way and nearer than `MaxDistance`. */
  predicate Candidate(pos: Position, dir: Direction, o: Position)
    requires IsDir(dir)
  {
    IsInTheWay(pos, dir, o) && Dist(pos, o) < MaxDistance
  }

  /** The obstacle picked from `obs`: a candidate strictly nearer than every earlier pick. */
  function NextObstacle(pos: Position, dir: Direction, obs: seq<Position>): (next: Option<Position>)
    requires IsDir(dir)
    ensures next.Some? ==> next.value in obs && Candidate(pos, dir, next.value)
  {
    if obs == [] then None
    else
      var n := |obs| - 1;
      var r := NextObstacle(pos, dir, obs[..n]);
      if Candidate(pos, dir, obs[n]) && (r.None? || Dist(pos, obs[n]) < Dist(pos, r.value)) then Some(obs[n])
      else r
  }

  /** There is no pick exactly when no obstacle is a candidate. */
  lemma {:induction false} NextObstacleNone(pos: Position, dir: Direction, obs: seq<Position>)
    requires IsDir(dir)
    ensures NextObstacle(pos, dir, obs).None? <==> forall j :: 0 <= j < |obs| ==> !Candidate(pos, dir, obs[j])
  {
    if obs != [] {
      var n := |obs| - 1;
      NextObstacleNone(pos, dir, obs[..n]);
      assert forall j :: 0 <= j < n ==> obs[..n][j] == obs[j];
    }
  }

  /** The pick is no farther than any candidate. */
  lemma {:induction false} NextObstacleNearest(pos: Position, dir: Direction, obs: seq<Position>, j: int)
    requires IsDir(dir) && 0 <= j < |obs| && Candidate(pos, dir, obs[j])
    ensures NextObstacle(pos, dir, obs).Some?
    ensures Dist(pos, NextObstacle(pos, dir, obs).value) <= Dist(pos, obs[j])
  {
    var n := |obs| - 1;
    if j < n {
      NextObstacleNearest(pos, dir, obs[..n], j);
      assert obs[..n][j] == obs[j];
    }
  }

  /** The pick is the first of the nearest candidates: every earlier candidate is strictly
      farther. */
  lemma {:induction false} NextObstacleFirst(pos: Position, dir: Direction, obs: seq<Position>)
    requires IsDir(dir) && NextObstacle(pos, dir, obs).Some?
    ensures exists k :: (0 <= k < |obs| && obs[k] == NextObstacle(pos, dir, obs).value &&
      forall j :: 0 <= j < k && Candidate(pos, dir, obs[j]) ==> Dist(pos, obs[j]) > Dist(pos, obs[k]))
  {
    var n := |obs| - 1;
    var r := NextObstacle(pos, dir, obs[..n]);
    if NextObstacle(pos, dir, obs) == r {
      NextObstacleFirst(pos, dir, obs[..n]);
      var k :| 0 <= k < n && obs[..n][k] == r.value &&
        forall j :: 0 <= j < k && Candidate(pos, dir, obs[..n][j]) ==> Dist(pos, obs[..n][j]) > Dist(pos, obs[..n][k]);
      assert forall j :: 0 <= j <= k ==> obs[..n][j] == obs[j];
    } else {
      forall j | 0 <= j < n && Candidate(pos, dir, obs[j]) ensures Dist(pos, obs[j]) > Dist(pos, obs[n]) {
        assert obs[..n][j] == obs[j];
        NextObstacleNearest(pos, dir, obs[..n], j);
      }
    }
  }

  method FindNextObstacle(pos: Position, dir: Direction, obs: seq<Position>) returns (next: Option<Position>)
    requires IsDir(dir)
    ensures next == NextObstacle(pos, dir, obs)
  {
    next := None;
    var minDistance := MaxDistance;
    for i := 0 to |obs|
      invariant next == NextObstacle(pos, dir, obs[..i])
      invariant minDistance == if next.None? then MaxDistance else Dist(pos, next.value)
    {
      assert obs[..i + 1][..i] == obs[..i];
      var obstacle := obs[i];
      if IsInTheWay(pos, dir, obstacle) {
        var distance := Abs(pos.x - obstacle.x) + Abs(pos.y - obstacle.y);
        if distance < minDistance {
          next := Some(obstacle);
          minDistance := distance;
        }
      }
    }
    assert obs[..|obs|] == obs;
  }

  /** The cells the guard can still walk before the obstacle or the edge, and whether the
      walk ends at the obstacle. */
  method FindDistanceToNextPos(pos: Position, dir: Direction, obs: seq<Position>, size: Size)
    returns (distance: int, isObstacle: bool)
    requires IsDir(dir)
    ensures isObstacle <==> NextObstacle(pos, dir, obs).Some?
    ensures isObstacle ==> distance >= 0 && Advance(pos, dir, distance + 1) == NextObstacle(pos, dir, obs).value
    ensures !isObstacle ==> distance == FindDistanceToEdge(pos, dir, size)
  {
    var nextObstacle := FindNextObstacle(pos, dir, obs);
    if nextObstacle.Some? {
      var o := nextObstacle.value;
      IsInTheWayIff(pos, dir, o);
      return Abs(o.x - pos.x) + Abs(o.y - pos.y) - 1, true;
    }
    return FindDistanceToEdge(pos, dir, size), false;
  }

  // ---------------------------------------------------------------------------
  // Walking
  // ---------------------------------------------------------------------------

  /** A cell the guard may step onto: in the grid and not the obstacle it is heading for. */
  predicate Free(q: Position, stop: Option<Position>, size: Size) {
    IsInBounds(size, q) && (stop.None? || q != stop.value)
  }

  /** How many steps the guard walks from `p` before the cell ahead is the obstacle `stop`
      or lies outside the grid. */
  function WalkLength(p: Position, d: Direction, stop: Option<Position>, size: Size): nat
    requires IsDir(d)
    decreases Remaining(p, d, size)
  {
    var q := NextPosAfter1Time(p, d);
    if Free(q, stop, size) then 1 + WalkLength(q, d, stop, size) else 0
  }

  /** One step, then `k` more, is `k + 1` steps. */
  lemma AdvanceShift(p: Position, d: Direction, k: int)
    requires IsDir(d)
    ensures Advance(NextPosAfter1Time(p, d), d, k) == Advance(p, d, k + 1)
  {
  }

  /** `k` steps, then one more, is `k + 1` steps. */
  lemma AdvanceNext(p: Position, d: Direction, k: int)
    requires IsDir(d)
    ensures NextPosAfter1Time(Advance(p, d, k), d) == Advance(p, d, k + 1)
  {
  }

  /** Every cell of the walk is free. */
  lemma {:induction false} WalkFree(p: Position, d: Direction, stop: Option<Position>, size: Size)
    requires IsDir(d)
    ensures forall k :: 1 <= k <= WalkLength(p, d, stop, size) ==> Free(Advance(p, d, k), stop, size)
    decreases Remaining(p, d, size)
  {
    var q := NextPosAfter1Time(p, d);
    if Free(q, stop, size) {
      WalkStep(p, d, stop, size);
      WalkFree(q, d, stop, size);
      forall k | 1 <= k <= WalkLength(p, d, stop, size) ensures Free(Advance(p, d, k), stop, size) {
        AdvanceShift(p, d, k - 1);
      }
    }
  }

  /** The cell after the walk is not free. */
  lemma {:induction false} WalkBlocked(p: Position, d: Direction, stop: Option<Position>, size: Size)
    requires IsDir(d)
    ensures !Free(Advance(p, d, WalkLength(p, d, stop, size) + 1), stop, size)
    decreases Remaining(p, d, size)
  {
    var q := NextPosAfter1Time(p, d);
    if Free(q, stop, size) {
      WalkStep(p, d, stop, size);
      WalkBlocked(q, d, stop, size);
      AdvanceShift(p, d, WalkLength(q, d, stop, size) + 1);
    } else {
      AdvanceShift(p, d, 0);
    }
  }

  /** The walk is exactly the run of free cells ahead. */
  lemma WalkLengthSpec(p: Position, d: Direction, stop: Option<Position>, size: Size)
    requires IsDir(d)
    ensures var n := WalkLength(p, d, stop, size);
      (forall k :: 1 <= k <= n ==> Free(Advance(p, d, k), stop, size)) &&
      !Free(Advance(p, d, n + 1), stop, size)
  {
    WalkFree(p, d, stop, size);
    WalkBlocked(p, d, stop, size);
  }

  /** The cells the guard walks through, in order. */
  function Steps(p: Position, d: Direction, n: nat): (s: seq<Position>)
    requires IsDir(d)
    ensures |s| == n && forall k :: 0 <= k < n ==> s[k] == Advance(p, d, k + 1)
  {
    seq(n, k requires 0 <= k < n => Advance(p, d, k + 1))
  }

  /** A free cell ahead: one step is taken, and fewer steps remain possible after it. */
  lemma WalkStep(p: Position, d: Direction, stop: Option<Position>, size: Size)
    requires IsDir(d) && Free(NextPosAfter1Time(p, d), stop, size)
    ensures WalkLength(p, d, stop, size) == 1 + WalkLength(NextPosAfter1Time(p, d), d, stop, size)
    ensures Remaining(NextPosAfter1Time(p, d), d, size) < Remaining(p, d, size)
  {
  }

  /** The guard has walked `n` free steps from `start` to `p`. */
  ghost predicate WalkedSoFar(start: Position, d: Direction, stop: Option<Position>, size: Size,
                              p: Position, n: nat)
    requires IsDir(d)
  {
    p == Advance(start, d, n) && n + WalkLength(p, d, stop, size) == WalkLength(start, d, stop, size)
  }

  /** A free cell ahead extends the walk by one step, and fewer steps remain possible. */
  lemma WalkedStep(start: Position, d: Direction, stop: Option<Position>, size: Size, p: Position, n: nat)
    requires IsDir(d) && WalkedSoFar(start, d, stop, size, p, n)
    requires Free(NextPosAfter1Time(p, d), stop, size)
    ensures WalkedSoFar(start, d, stop, size, NextPosAfter1Time(p, d), n + 1)
    ensures NextPosAfter1Time(p, d) == Advance(start, d, n + 1)
    ensures Remaining(NextPosAfter1Time(p, d), d, size) < Remaining(p, d, size)
  {
    WalkStep(p, d, stop, size);
    AdvanceShift(start, d, n);
    AdvanceShift(NextPosAfter1Time(start, d), d, n);
  }

  lemma WalkEnd(p: Position, d: Direction, stop: Option<Position>, size: Size)
    requires IsDir(d) && !Free(NextPosAfter1Time(p, d), stop, size)
    ensures WalkLength(p, d, stop, size) == 0
  {
  }

  lemma StepsSnoc(p: Position, d: Direction, n: nat)
    requires IsDir(d)
    ensures Steps(p, d, n + 1) == Steps(p, d, n) + [Advance(p, d, n + 1)]
  {
  }

  /** In a grid smaller than `MaxDistance` each way, the walk never enters an obstacle: the
      obstacle it stops at is the nearest one ahead. */
  lemma WalkAvoidsObstacles(p: Position, d: Direction, obs: seq<Position>, size: Size)
    requires IsDir(d) && size.width < MaxDistance && size.height < MaxDistance
    ensures var n := WalkLength(p, d, NextObstacle(p, d, obs), size);
      forall k :: 1 <= k <= n ==> IsInBounds(size, Advance(p, d, k)) && Advance(p, d, k) !in obs
  {
    var stop := NextObstacle(p, d, obs);
    var n := WalkLength(p, d, stop, size);
    WalkLengthSpec(p, d, stop, size);
    forall k | 1 <= k <= n ensures Advance(p, d, k) !in obs {
      var o := Advance(p, d, k);
      if o in obs {
        AdvanceDist(p, d, k);
        IsInTheWayIff(p, d, o);
        assert Free(o, stop, size);
        assert Candidate(p, d, o);
        var j :| 0 <= j < |obs| && obs[j] == o;
        NextObstacleNearest(p, d, obs, j);
        var o' := stop.value;
        IsInTheWayIff(p, d, o');
        assert false;
      }
    }
  }

  // ---------------------------------------------------------------------------
  // The patrol, on values
  // ---------------------------------------------------------------------------

  /** Where the guard stands, where it faces and the cells it has recorded. */
  datatype GuardState = GuardState(pos: Position, dir: Direction, path: seq<Position>)

  /** One call of `MoveToNextPos`: the guard walks as far as the walk allows, recording each
      cell entered, and turns right; the flag says whether the cell that stopped it is in the
      grid, that is whether the guard is still inside. */
  function Move(s: GuardState, obs: seq<Position>, size: Size): (GuardState, bool)
    requires IsDir(s.dir)
  {
    var n := WalkLength(s.pos, s.dir, NextObstacle(s.pos, s.dir, obs), size);
    (GuardState(Advance(s.pos, s.dir, n), Rotate90(s.dir), s.path + Steps(s.pos, s.dir, n)),
     IsInBounds(size, Advance(s.pos, s.dir, n + 1)))
  }

  /** The guard after `k` moves, whether or not it has left the grid on the way. */
  function Moves(s: GuardState, obs: seq<Position>, size: Size, k: nat): (t: GuardState)
    requires IsDir(s.dir)
    ensures IsDir(t.dir)
    decreases k
  {
    if k == 0 then s else Moves(Move(s, obs, size).0, obs, size, k - 1)
  }

  /** Move number `k` (counting from 0) is the one that takes the guard out of the grid. */
  predicate LeavesAt(s: GuardState, obs: seq<Position>, size: Size, k: nat)
    requires IsDir(s.dir)
  {
    !Move(Moves(s, obs, size, k), obs, size).1
  }

  /** The loop `for guard.MoveToNextPos(obs, size) {}` with at most `fuel` moves: the final
      state, and whether the guard left the grid. */
  function Patrol(s: GuardState, obs: seq<Position>, size: Size, fuel: nat): (GuardState, bool)
    requires IsDir(s.dir)
    decreases fuel
  {
    if fuel == 0 then (s, false)
    else
      var m := Move(s, obs, size);
      if !m.1 then (m.0, true) else Patrol(m.0, obs, size, fuel - 1)
  }

  /** The patrol stops at the first move that takes the guard out of the grid: it reports
      that it finished exactly when one of the first `fuel` moves leaves, ends in the state
      that first such move produces, and otherwise has made all `fuel` moves. */
  lemma {:induction false} PatrolMeaning(s: GuardState, obs: seq<Position>, size: Size, fuel: nat,
                                          k: nat)
    requires IsDir(s.dir)
    ensures Patrol(s, obs, size, fuel).1 <==> exists j :: 0 <= j < fuel && LeavesAt(s, obs, size, j)
    ensures !Patrol(s, obs, size, fuel).1 ==> Patrol(s, obs, size, fuel).0 == Moves(s, obs, size, fuel)
    ensures k < fuel && LeavesAt(s, obs, size, k) && (forall j :: 0 <= j < k ==> !LeavesAt(s, obs, size, j)) ==>
      Patrol(s, obs, size, fuel).0 == Move(Moves(s, obs, size, k), obs, size).0
    decreases fuel
  {
    if fuel > 0 {
      var t := Move(s, obs, size).0;
      forall j: nat ensures LeavesAt(s, obs, size, j + 1) == LeavesAt(t, obs, size, j) {
        assert Moves(s, obs, size, j + 1) == Moves(t, obs, size, j);
      }
      if Move(s, obs, size).1 {
        assert !LeavesAt(s, obs, size, 0);
        PatrolMeaning(t, obs, size, fuel - 1, if k > 0 then k - 1 else 0);
        if Patrol(s, obs, size, fuel).1 {
          var j :| 0 <= j < fuel - 1 && LeavesAt(t, obs, size, j);
          assert LeavesAt(s, obs, size, j + 1);
        } else {
          forall j | 0 <= j < fuel ensures !LeavesAt(s, obs, size, j) {
            if j > 0 {
              assert !LeavesAt(t, obs, size, j - 1);
            }
          }
        }
        if k < fuel && LeavesAt(s, obs, size, k) && (forall j :: 0 <= j < k ==> !LeavesAt(s, obs, size, j)) {
          assert k > 0;
          forall j | 0 <= j < k - 1 ensures !LeavesAt(t, obs, size, j) {
            assert !LeavesAt(s, obs, size, j + 1);
          }
        }
      } else {
        assert LeavesAt(s, obs, size, 0);
      }
    }
  }

  /** Once the guard has left, more fuel changes nothing: the bound only cuts short a guard
      caught in a loop. */
  lemma {:induction false} PatrolMoreFuel(s: GuardState, obs: seq<Position>, size: Size, fuel: nat, more: nat)
    requires IsDir(s.dir) && Patrol(s, obs, size, fuel).1
    ensures Patrol(s, obs, size, fuel + more) == Patrol(s, obs, size, fuel)
    decreases fuel
  {
    var m := Move(s, obs, size);
    if m.1 {
      PatrolMoreFuel(m.0, obs, size, fuel - 1, more);
    }
  }

  /** The grid "^": the guard at (0, 0), facing up, leaves with its first move, and its path
      is the one cell it started on. */
  lemma SingleCellPatrol()
    ensures Patrol(GuardState(Position(0, 0), UP, [Position(0, 0)]), [], Size(1, 1), 1) ==
      (GuardState(Position(0, 0), RIGHT, [Position(0, 0)]), true)
  {
    var s := GuardState(Position(0, 0), UP, [Position(0, 0)]);
    assert NextObstacle(s.pos, s.dir, []) == None;
    assert WalkLength(s.pos, s.dir, None, Size(1, 1)) == 0;
    assert Steps(s.pos, s.dir, 0) == [];
    assert Advance(s.pos, s.dir, 0) == s.pos;
    assert !IsInBounds(Size(1, 1), Advance(s.pos, s.dir, 1));
    assert s.path + [] == s.path;
    assert Move(s, [], Size(1, 1)) == (GuardState(Position(0, 0), RIGHT, [Position(0, 0)]), false);
  }

  // ---------------------------------------------------------------------------
  // The guard
  // ---------------------------------------------------------------------------

  class Guard {
    var pos: Position
    var dir: Direction
    var path: seq<Position>

    constructor (pos: Position, dir: Direction, path: seq<Position>)
      ensures this.pos == pos && this.dir == dir && this.path == path
    {
      this.pos, this.dir, this.path := pos, dir, path;
    }

    /** Walks ahead until the next cell is the nearest obstacle or outside the grid,
        recording every cell entered (the position and the path are updated as one at the
        end of the walk), then turns right; the result says whether the cell
        now ahead of the turned guard (the one that stopped it) is in the grid. */
    method MoveToNextPos(obs: seq<Position>, size: Size) returns (inside: bool)
      requires IsDir(dir)
      modifies this
      ensures var n := WalkLength(old(pos), old(dir), NextObstacle(old(pos), old(dir), obs), size);
        pos == Advance(old(pos), old(dir), n) && path == old(path) + Steps(old(pos), old(dir), n) &&
        dir == Rotate90(old(dir)) && inside == IsInBounds(size, Advance(old(pos), old(dir), n + 1))
    {
      var nextObstacle := FindNextObstacle(pos, dir, obs);
      var p, d, walked := pos, dir, path;
      ghost var n := 0;
      var nextPos := NextPosAfter1Time(p, d);
      ghost var start, before := pos, path;
      while IsInBounds(size, nextPos) && (nextObstacle.None? || nextPos != nextObstacle.value)
        invariant WalkedSoFar(start, d, nextObstacle, size, p, n) && nextPos == NextPosAfter1Time(p, d)
        invariant walked == before + Steps(start, d, n)
        decreases Remaining(p, d, size)
      {
        WalkedStep(start, d, nextObstacle, size, p, n);
        StepsSnoc(start, d, n);
        walked := walked + [nextPos];
        p := nextPos;
        n := n + 1;
        nextPos := NextPosAfter1Time(p, d);
      }
      WalkEnd(p, d, nextObstacle, size);
      AdvanceNext(start, d, n);
      assert n == WalkLength(start, d, nextObstacle, size);
      assert nextPos == Advance(start, d, n + 1);
      pos, path := p, walked;
      dir := Rotate90(d);
      inside := IsInBounds(size, nextPos);
    }

    /** The number of distinct positions on the path. */
    method CountPositions() returns (total: nat)
      ensures total == |Elements(path)| && total <= |path|
    {
      var positions: seq<Position> := [];
      total := 0;
      for i := 0 to |path|
        invariant NoDuplicates(positions) && Elements(positions) == Elements(path[..i])
        invariant total == |positions| <= i
      {
        assert path[..i + 1] == path[..i] + [path[i]];
        if path[i] !in positions {
          assert Elements(positions + [path[i]]) == Elements(positions) + {path[i]};
          total := total + 1;
          positions := positions + [path[i]];
        }
      }
      assert path[..|path|] == path;
      DistinctCount(positions);
      CountAtMostLength(path);
    }
  }

  function Elements(s: seq<Position>): set<Position> {
    set q | q in s
  }

  predicate NoDuplicates(s: seq<Position>) {
    forall i, j :: 0 <= i < j < |s| ==> s[i] != s[j]
  }

  lemma {:induction false} DistinctCount(s: seq<Position>)
    requires NoDuplicates(s)
    ensures |Elements(s)| == |s|
  {
    if s != [] {
      var n := |s| - 1;
      DistinctCount(s[..n]);
      assert Elements(s) == Elements(s[..n]) + {s[n]};
      assert s[n] !in Elements(s[..n]);
    }
  }

  lemma {:induction false} CountAtMostLength(s: seq<Position>)
    ensures |Elements(s)| <= |s|
  {
    if s != [] {
      var n := |s| - 1;
      CountAtMostLength(s[..n]);
      assert Elements(s) == Elements(s[..n]) + {s[n]};
    }
  }

  // ---------------------------------------------------------------------------
  // Reading the grid
  // ---------------------------------------------------------------------------

  /** The cells of `rows` holding `c`, row by row and left to right within a row. */
  function CellsWith(rows: seq<string>, c: char): seq<Position> {
    if rows == [] then []
    else CellsWith(rows[..|rows| - 1], c) + CellsInRow(rows[|rows| - 1], |rows| - 1, c, |rows[|rows| - 1]|)
  }

  /** The cells of the first `n` characters of row `y` holding `c`. */
  function CellsInRow(row: string, y: int, c: char, n: nat): seq<Position>
    requires n <= |row|
  {
    if n == 0 then []
    else CellsInRow(row, y, c, n - 1) + (if row[n - 1] == c then [Position(n - 1, y)] else [])
  }

  lemma {:induction false} CellsInRowMembers(row: string, y: int, c: char, n: nat, p: Position)
    requires n <= |row|
    ensures p in CellsInRow(row, y, c, n) <==> p.y == y && 0 <= p.x < n && row[p.x] == c
  {
    if n > 0 {
      CellsInRowMembers(row, y, c, n - 1, p);
    }
  }

  /** Exactly the cells holding `c` are listed. */
  lemma {:induction false} CellsWithMembers(rows: seq<string>, c: char, p: Position)
    ensures p in CellsWith(rows, c) <==> 0 <= p.y < |rows| && 0 <= p.x < |rows[p.y]| && rows[p.y][p.x] == c
  {
    if rows != [] {
      var n := |rows| - 1;
      CellsWithMembers(rows[..n], c, p);
      CellsInRowMembers(rows[n], n, c, |rows[n]|, p);
    }
  }

  /** Where the guard starts: the last `^` of the grid, or the null position. */
  function StartPosition(starts: seq<Position>): Position {
    if starts == [] then NullPosition else starts[|starts| - 1]
  }

  /** The obstacles in reading order, a guard facing up on the last `^` with every `^` on
      its path, and the grid's size from its row count and first row. */
  method GetInputGrid(input: string) returns (obs: seq<Position>, guard: Guard, size: Size)
    ensures var rows := Split(input, '\n');
      obs == CellsWith(rows, '#') && guard.path == CellsWith(rows, '^') &&
      guard.pos == StartPosition(guard.path) && guard.dir == UP &&
      size == Size(|rows[0]|, |rows|)
    ensures fresh(guard)
  {
    var rows := Split(input, '\n');
    obs := [];
    guard := new Guard(NullPosition, UP, []);
    for i := 0 to |rows|
      invariant obs == CellsWith(rows[..i], '#') && guard.path == CellsWith(rows[..i], '^')
      invariant guard.pos == StartPosition(guard.path) && guard.dir == UP
    {
      assert rows[..i + 1][..i] == rows[..i];
      var row := rows[i];
      for j := 0 to |row|
        invariant obs == CellsWith(rows[..i], '#') + CellsInRow(row, i, '#', j)
        invariant guard.path == CellsWith(rows[..i], '^') + CellsInRow(row, i, '^', j)
        invariant guard.pos == StartPosition(guard.path) && guard.dir == UP
      {
        if row[j] == '#' {
          obs := obs + [Position(j, i)];
        } else if row[j] == '^' {
          guard.pos := Position(j, i);
          guard.path := guard.path + [guard.pos];
        }
      }
    }
    assert rows[..|rows|] == rows;
    size := Size(|rows[0]|, |rows|);
  }

  /** A grid holding only the guard: no obstacles, and a path of that one cell. */
  lemma LoneGuardGrid()
    ensures CellsWith(Split("^", '\n'), '#') == [] && CellsWith(Split("^", '\n'), '^') == [Position(0, 0)]
  {
    assert Split("^", '\n') == ["^"] by {
      assert "^"[1..] == [] && [] + ['^'] == "^";
      assert SplitFrom("^", '\n', "") == SplitFrom("", '\n', "^");
    }
    assert ["^"][..0] == [];
  }

  /** All cells on the path are in the grid and free of obstacles. */
  predicate PathClear(path: seq<Position>, obs: seq<Position>, size: Size) {
    forall k :: 0 <= k < |path| ==> IsInBounds(size, path[k]) && path[k] !in obs
  }

  /** Moves the guard until it walks off the grid, at most `fuel` times (without a bound the
      walk of a guard caught in a loop never ends), then counts the distinct cells of its
      path. The guard ends as `Patrol` says, `finished` telling whether it left the grid;
      the path only grows, and in a grid smaller than `MaxDistance` each way a guard whose
      path is clear keeps it clear. */
  method FindGaurdPathLength(obs: seq<Position>, guard: Guard, size: Size, fuel: nat)
    returns (count: nat, finished: bool)
    requires IsDir(guard.dir)
    modifies guard
    ensures (GuardState(guard.pos, guard.dir, guard.path), finished) ==
      Patrol(GuardState(old(guard.pos), old(guard.dir), old(guard.path)), obs, size, fuel)
    ensures count == |Elements(guard.path)| && count <= |guard.path|
    ensures |old(guard.path)| <= |guard.path| && guard.path[..|old(guard.path)|] == old(guard.path)
    ensures size.width < MaxDistance && size.height < MaxDistance && PathClear(old(guard.path), obs, size) ==>
      PathClear(guard.path, obs, size)
  {
    var moves := 0;
    finished := false;
    ghost var start := GuardState(guard.pos, guard.dir, guard.path);
    while moves < fuel && !finished
      invariant IsDir(guard.dir) && moves <= fuel
      invariant Patrol(start, obs, size, fuel) ==
        if finished then (GuardState(guard.pos, guard.dir, guard.path), true)
        else Patrol(GuardState(guard.pos, guard.dir, guard.path), obs, size, fuel - moves)
      invariant |old(guard.path)| <= |guard.path| && guard.path[..|old(guard.path)|] == old(guard.path)
      invariant size.width < MaxDistance && size.height < MaxDistance && PathClear(old(guard.path), obs, size) ==>
        PathClear(guard.path, obs, size)
      decreases fuel - moves
    {
      ghost var p, d, before := guard.pos, guard.dir, guard.path;
      var inside := guard.MoveToNextPos(obs, size);
      assert Move(GuardState(p, d, before), obs, size) == (GuardState(guard.pos, guard.dir, guard.path), inside);
      finished := !inside;
      moves := moves + 1;
      if size.width < MaxDistance && size.height < MaxDistance {
        WalkAvoidsObstacles(p, d, obs, size);
      }
      assert guard.path[..|before|] == before;
    }
    count := guard.CountPositions();
  }
}
