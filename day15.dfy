/** Day 15, "Warehouse Woes": a robot walks a warehouse map of walls '#', floor '.' and
    boxes 'O' (in part 2 every tile is doubled and a box becomes the pair "[]"). Each move
    first checks that everything in front of the robot can be pushed, then pushes it.
    The answer is the sum of the GPS coordinates of the boxes after all the moves. */
module Day15 {
  import opened GoLib

  datatype Direction = Direction(dx: int, dy: int)

  const RIGHT := Direction(1, 0)
  const LEFT := Direction(-1, 0)
  const UP := Direction(0, -1)
  const DOWN := Direction(0, 1)

  /** The four directions the robot can be told to move in. */
  predicate IsDir(dir: Direction) {
    dir == RIGHT || dir == LEFT || dir == UP || dir == DOWN
  }

  function Opposite(dir: Direction): Direction {
    Direction(-dir.dx, -dir.dy)
  }

  datatype Position = Position(x: int, y: int) {
    /** One step along a direction reaches a neighbouring cell. */
    function MoveAlong(dir: Direction): (r: Position)
      ensures IsDir(dir) ==> Abs(r.x - x) + Abs(r.y - y) == 1
    {
      Position(x + dir.dx, y + dir.dy)
    }

    /** The GPS coordinate: within the first 100 columns, row `y` owns the block of
        coordinates from `100 * y` up to the next row's, so the row can be read back. */
    function GPS(): (r: int)
      ensures 0 <= x < 100 ==> 100 * y <= r < 100 * (y + 1)
    {
      100 * y + x
    }
  }

  /** How far `q` lies in front of `pos` when facing `dir`: negative behind, 0 level. */
  function Ahead(pos: Position, q: Position, dir: Direction): int
    requires IsDir(dir)
  {
    if dir == RIGHT then q.x - pos.x
    else if dir == LEFT then pos.x - q.x
    else if dir == DOWN then q.y - pos.y
    else pos.y - q.y
  }

  /** A step along one of the four directions reaches a neighbouring cell, one further
      ahead; stepping back the opposite way undoes it. */
  lemma MoveAlongSteps(pos: Position, dir: Direction)
    requires IsDir(dir)
    ensures Ahead(pos, pos.MoveAlong(dir), dir) == 1
    ensures pos.MoveAlong(dir).MoveAlong(Opposite(dir)) == pos
  {
  }

  /** Within a map narrower than 100 columns, the GPS coordinate identifies the cell. */
  lemma GPSIdentifies(p: Position, q: Position)
    requires 0 <= p.x < 100 && 0 <= q.x < 100
    ensures p.GPS() == q.GPS() <==> p == q
  {
  }

  // ----- The map -------------------------------------------------------------------

  type Cells = seq<seq<char>>

  predicate Inside(cells: Cells, pos: Position) {
    0 <= pos.y < |cells| && 0 <= pos.x < |cells[pos.y]|
  }

  /** The character at `pos`; a position off the map reads as a wall. */
  function CellAt(cells: Cells, pos: Position): char {
    if Inside(cells, pos) then cells[pos.y][pos.x] else '#'
  }

  predicate SameShape(a: Cells, b: Cells) {
    |a| == |b| && forall i :: 0 <= i < |a| ==> |a[i]| == |b[i]|
  }

  /** Writes one cell: nothing else changes, and a write off the map is ignored. */
  function SetCell(cells: Cells, pos: Position, c: char): (r: Cells)
    ensures SameShape(r, cells)
    ensures forall q :: CellAt(r, q) == if q == pos && Inside(cells, pos) then c else CellAt(cells, q)
  {
    if Inside(cells, pos) then cells[pos.y := cells[pos.y][pos.x := c]] else cells
  }

  predicate IsBox(c: char) {
    c == 'O' || c == '[' || c == ']'
  }

  /** No half of a double-width box anywhere: a part 1 map. */
  ghost predicate NoWideBoxes(cells: Cells) {
    forall q :: CellAt(cells, q) != '[' && CellAt(cells, q) != ']'
  }

  /** Every wall of `a` is still a wall in `b`. */
  ghost predicate KeepsWalls(a: Cells, b: Cells) {
    forall q :: CellAt(a, q) == '#' ==> CellAt(b, q) == '#'
  }

  function BoxesIn(row: seq<char>): nat {
    if row == [] then 0
    else BoxesIn(row[..|row| - 1]) + (if IsBox(row[|row| - 1]) then 1 else 0)
  }

  /** The number of box cells ('O', '[' or ']') on the map. */
  function BoxCount(cells: Cells): nat {
    if cells == [] then 0
    else BoxCount(cells[..|cells| - 1]) + BoxesIn(cells[|cells| - 1])
  }

  function BoxValue(c: char): int {
    if IsBox(c) then 1 else 0
  }

  lemma {:induction false} BoxesInUpdate(row: seq<char>, i: nat, c: char)
    requires i < |row|
    ensures BoxesIn(row[i := c]) == BoxesIn(row) - BoxValue(row[i]) + BoxValue(c)
    decreases |row|
  {
    var n := |row| - 1;
    assert row[i := c][..n] == if i == n then row[..n] else row[..n][i := c];
    if i < n {
      BoxesInUpdate(row[..n], i, c);
    }
  }

  lemma {:induction false} BoxCountUpdate(cells: Cells, k: nat, row: seq<char>)
    requires k < |cells|
    ensures BoxCount(cells[k := row]) == BoxCount(cells) - BoxesIn(cells[k]) + BoxesIn(row)
    decreases |cells|
  {
    var n := |cells| - 1;
    assert cells[k := row][..n] == if k == n then cells[..n] else cells[..n][k := row];
    if k < n {
      BoxCountUpdate(cells[..n], k, row);
    }
  }

  /** Writing one cell changes the box count by what was lost and what was written. */
  lemma SetCellBoxes(cells: Cells, pos: Position, c: char)
    requires Inside(cells, pos)
    ensures BoxCount(SetCell(cells, pos, c)) == BoxCount(cells) - BoxValue(CellAt(cells, pos)) + BoxValue(c)
  {
    BoxesInUpdate(cells[pos.y], pos.x, c);
    BoxCountUpdate(cells, pos.y, cells[pos.y][pos.x := c]);
  }

  // ----- Checking and pushing ------------------------------------------------------

  /** How many steps along `dir` the recursion can still take before it leaves the map;
      it shrinks with every step, which is why the recursions below end. */
  function Room(cells: Cells, pos: Position, dir: Direction): int
    requires IsDir(dir)
  {
    if dir == RIGHT then (if 0 <= pos.y < |cells| then |cells[pos.y]| else 0) - pos.x
    else if dir == LEFT then pos.x + 1
    else if dir == DOWN then |cells| - pos.y
    else pos.y + 1
  }

  /** Whether the thing at `pos` can move one step along `dir`: a wall in front blocks
      it, floor in front lets it go, and a box in front must itself be movable. Facing
      up or down, both halves of a wide box must be movable; facing left or right, only
      the cells of the same row are looked at. Any other character in front does not
      block. */
  function CanMove(cells: Cells, pos: Position, dir: Direction): (r: bool)
    requires IsDir(dir)
    ensures r ==> CellAt(cells, pos.MoveAlong(dir)) != '#' && Inside(cells, pos.MoveAlong(dir))
    decreases Room(cells, pos, dir)
  {
    var next := pos.MoveAlong(dir);
    var c := CellAt(cells, next);
    if c == '.' then true
    else if c == '#' then false
    else if c == 'O' then CanMove(cells, next, dir)
    else if c == '[' then
      if dir == LEFT then CanMove(cells, next, dir)
      else CanMove(cells, next, dir) && CanMove(cells, next.MoveAlong(RIGHT), dir)
    else if c == ']' then
      if dir == RIGHT then CanMove(cells, next, dir)
      else CanMove(cells, next, dir) && CanMove(cells, next.MoveAlong(LEFT), dir)
    else true
  }

  /** The map after the thing at `pos` has moved one step along `dir`: whatever stands
      in front of it is pushed first, then it moves into the freed cell and leaves floor
      behind. Only meaningful after `CanMove` has said yes. */
  function MoveCells(cells: Cells, pos: Position, dir: Direction): (r: Cells)
    requires IsDir(dir)
    ensures SameShape(r, cells)
    decreases Room(cells, pos, dir), 1
  {
    var next := pos.MoveAlong(dir);
    var pushed := PushFront(cells, pos, dir);
    SetCell(SetCell(pushed, next, CellAt(pushed, pos)), pos, '.')
  }

  /** The map after whatever stands in front of `pos` has been pushed one step along
      `dir`: a box, or both halves of a wide box when pushing up or down (the far half
      first when pushing along the box). Anything else is left where it is. */
  function PushFront(cells: Cells, pos: Position, dir: Direction): (r: Cells)
    requires IsDir(dir)
    ensures SameShape(r, cells)
    decreases Room(cells, pos, dir), 0
  {
    var next := pos.MoveAlong(dir);
    var c := CellAt(cells, next);
    if c == 'O' then MoveCells(cells, next, dir)
    else if c == '[' && dir != LEFT then MoveCells(MoveCells(cells, next.MoveAlong(RIGHT), dir), next, dir)
    else if c == ']' && dir != RIGHT then MoveCells(MoveCells(cells, next.MoveAlong(LEFT), dir), next, dir)
    else if c == '[' || c == ']' then MoveCells(cells, next, dir)
    else cells
  }

  /** A move changes nothing behind the cell it starts from; afterwards that cell is
      floor and the cell in front holds what it held. */
  lemma {:induction false} MoveFrame(cells: Cells, pos: Position, dir: Direction)
    requires IsDir(dir)
    ensures var r := MoveCells(cells, pos, dir);
      (forall q :: Ahead(pos, q, dir) < 0 ==> CellAt(r, q) == CellAt(cells, q)) &&
      (Inside(cells, pos) ==> CellAt(r, pos) == '.') &&
      (Inside(cells, pos.MoveAlong(dir)) ==> CellAt(r, pos.MoveAlong(dir)) == CellAt(cells, pos))
    decreases Room(cells, pos, dir), 2
  {
    PushFrontFrame(cells, pos, dir);
  }

  /** Pushing what is in front of `pos` changes nothing at or behind `pos`. */
  lemma {:induction false} PushFrontFrame(cells: Cells, pos: Position, dir: Direction)
    requires IsDir(dir)
    ensures forall q :: Ahead(pos, q, dir) <= 0 ==> CellAt(PushFront(cells, pos, dir), q) == CellAt(cells, q)
    decreases Room(cells, pos, dir), 1
  {
    var next := pos.MoveAlong(dir);
    var c := CellAt(cells, next);
    if c == '[' && dir != LEFT {
      TwoPushFrame(cells, pos, next.MoveAlong(RIGHT), dir);
    } else if c == ']' && dir != RIGHT {
      TwoPushFrame(cells, pos, next.MoveAlong(LEFT), dir);
    } else if c == 'O' || c == '[' || c == ']' {
      MoveFrame(cells, next, dir);
      forall q | Ahead(pos, q, dir) <= 0
        ensures CellAt(MoveCells(cells, next, dir), q) == CellAt(cells, q)
      {
        assert Ahead(next, q, dir) < 0;
      }
    }
  }

  /** Moving the far half of a wide box and then the near one, both in front of `pos`,
      changes nothing at or behind `pos`. */
  lemma {:induction false} TwoPushFrame(cells: Cells, pos: Position, far: Position, dir: Direction)
    requires IsDir(dir)
    requires far == pos.MoveAlong(dir).MoveAlong(RIGHT) || far == pos.MoveAlong(dir).MoveAlong(LEFT)
    requires far.y == pos.y ==> Ahead(pos, far, dir) == 2
    requires 0 <= Room(cells, far, dir) < Room(cells, pos, dir)
    requires 0 <= Room(cells, pos.MoveAlong(dir), dir) < Room(cells, pos, dir)
    ensures var next := pos.MoveAlong(dir);
      forall q :: Ahead(pos, q, dir) <= 0 ==> CellAt(MoveCells(MoveCells(cells, far, dir), next, dir), q) == CellAt(cells, q)
    decreases Room(cells, pos, dir), 0
  {
    var next := pos.MoveAlong(dir);
    MoveFrame(cells, far, dir);
    var side := MoveCells(cells, far, dir);
    MoveFrame(side, next, dir);
    forall q | Ahead(pos, q, dir) <= 0
      ensures CellAt(MoveCells(side, next, dir), q) == CellAt(cells, q)
    {
      assert Ahead(next, q, dir) < 0 && Ahead(far, q, dir) < 0;
    }
  }

  /** Moving into floor pushes nothing: the mover takes the free cell and leaves floor. */
  lemma MoveIntoFloor(cells: Cells, pos: Position, dir: Direction)
    requires IsDir(dir) && CellAt(cells, pos.MoveAlong(dir)) == '.'
    ensures MoveCells(cells, pos, dir) ==
      SetCell(SetCell(cells, pos.MoveAlong(dir), CellAt(cells, pos)), pos, '.')
  {
  }

  /** A chain of boxes in a part 1 map can be pushed exactly when the first cell after
      the chain is not a wall: `k - 1` boxes stand in front of `pos`, then a non-box. */
  lemma {:induction false} CanMoveAlongChain(cells: Cells, pos: Position, dir: Direction, k: nat)
    requires IsDir(dir) && NoWideBoxes(cells) && k >= 1
    requires forall i :: 1 <= i < k ==> CellAt(cells, Ray(pos, dir, i)) == 'O'
    requires CellAt(cells, Ray(pos, dir, k)) != 'O'
    ensures CanMove(cells, pos, dir) <==> CellAt(cells, Ray(pos, dir, k)) != '#'
    decreases k
  {
    var next := pos.MoveAlong(dir);
    assert Ray(pos, dir, 1) == next;
    if k > 1 {
      forall i | 1 <= i < k - 1
        ensures CellAt(cells, Ray(next, dir, i)) == 'O'
      {
        assert Ray(pos, dir, i + 1) == Ray(next, dir, i);
      }
      assert Ray(pos, dir, k) == Ray(next, dir, k - 1);
      CanMoveAlongChain(cells, next, dir, k - 1);
    }
  }

  /** The cell `k` steps from `pos` along `dir`. */
  function Ray(pos: Position, dir: Direction, k: nat): (r: Position)
    ensures r.x == pos.x + k * dir.dx && r.y == pos.y + k * dir.dy
    decreases k
  {
    if k == 0 then pos else Ray(pos.MoveAlong(dir), dir, k - 1)
  }

  /** Facing left or right, the check reads only the row it starts on. */
  lemma {:induction false} HorizontalCheckReadsOneRow(cells: Cells, other: Cells, pos: Position, dir: Direction)
    requires dir == LEFT || dir == RIGHT
    requires 0 <= pos.y < |cells| && 0 <= pos.y < |other| && cells[pos.y] == other[pos.y]
    ensures CanMove(cells, pos, dir) == CanMove(other, pos, dir)
    decreases Room(cells, pos, dir)
  {
    var next := pos.MoveAlong(dir);
    assert CellAt(cells, next) == CellAt(other, next);
    var c := CellAt(cells, next);
    if c == 'O' || c == '[' || c == ']' {
      HorizontalCheckReadsOneRow(cells, other, next, dir);
      if c == '[' && dir == RIGHT {
        HorizontalCheckReadsOneRow(cells, other, next.MoveAlong(RIGHT), dir);
      } else if c == ']' && dir == LEFT {
        HorizontalCheckReadsOneRow(cells, other, next.MoveAlong(LEFT), dir);
      }
    }
  }

  /** Facing up or down into a wide box, the push is allowed only if both halves of the
      box can move. */
  lemma VerticalCheckNeedsBothHalves(cells: Cells, pos: Position, dir: Direction)
    requires dir == UP || dir == DOWN
    requires CanMove(cells, pos, dir)
    ensures var next := pos.MoveAlong(dir);
      (CellAt(cells, next) == '[' ==> CanMove(cells, next, dir) && CanMove(cells, next.MoveAlong(RIGHT), dir)) &&
      (CellAt(cells, next) == ']' ==> CanMove(cells, next, dir) && CanMove(cells, next.MoveAlong(LEFT), dir))
  {
  }

  /** A push along one line (any push left or right, and any push in a map without
      wide boxes) that the check allowed overwrites no wall, keeps the number of box
      cells, and adds no wide box. */
  lemma {:induction false} PushKeepsBoxes(cells: Cells, pos: Position, dir: Direction)
    requires IsDir(dir) && Inside(cells, pos) && CellAt(cells, pos) != '#'
    requires CanMove(cells, pos, dir)
    requires dir.dy == 0 || NoWideBoxes(cells)
    ensures var r := MoveCells(cells, pos, dir);
      BoxCount(r) == BoxCount(cells) && KeepsWalls(cells, r) &&
      (NoWideBoxes(cells) ==> NoWideBoxes(r))
    decreases Room(cells, pos, dir), 1
  {
    var next := pos.MoveAlong(dir);
    PushFrontKeepsBoxes(cells, pos, dir);
    PushFrontFrame(cells, pos, dir);
    var pushed := PushFront(cells, pos, dir);
    assert CellAt(pushed, pos) == CellAt(cells, pos);
    SetCellBoxes(pushed, next, CellAt(pushed, pos));
    SetCellBoxes(SetCell(pushed, next, CellAt(pushed, pos)), pos, '.');
  }

  /** Clearing the way in front of `pos` under the same conditions keeps the boxes and
      the walls, and leaves floor or a non-box, non-wall character in front. */
  lemma {:induction false} PushFrontKeepsBoxes(cells: Cells, pos: Position, dir: Direction)
    requires IsDir(dir) && Inside(cells, pos)
    requires CanMove(cells, pos, dir)
    requires dir.dy == 0 || NoWideBoxes(cells)
    ensures var r := PushFront(cells, pos, dir);
      BoxCount(r) == BoxCount(cells) && KeepsWalls(cells, r) &&
      (NoWideBoxes(cells) ==> NoWideBoxes(r)) &&
      !IsBox(CellAt(r, pos.MoveAlong(dir))) && CellAt(r, pos.MoveAlong(dir)) != '#'
    decreases Room(cells, pos, dir), 0
  {
    var next := pos.MoveAlong(dir);
    var c := CellAt(cells, next);
    if c == '[' && dir == RIGHT {
      var far := next.MoveAlong(RIGHT);
      PushKeepsBoxes(cells, far, dir);
      MoveFrame(cells, far, dir);
      var side := MoveCells(cells, far, dir);
      assert Ahead(far, next, dir) < 0;
      PushKeepsBoxes(side, next, dir);
      MoveFrame(side, next, dir);
    } else if c == ']' && dir == LEFT {
      var far := next.MoveAlong(LEFT);
      PushKeepsBoxes(cells, far, dir);
      MoveFrame(cells, far, dir);
      var side := MoveCells(cells, far, dir);
      assert Ahead(far, next, dir) < 0;
      PushKeepsBoxes(side, next, dir);
      MoveFrame(side, next, dir);
    } else if c == 'O' || c == '[' || c == ']' {
      PushKeepsBoxes(cells, next, dir);
      MoveFrame(cells, next, dir);
    }
  }

  // ----- Moving the robot ----------------------------------------------------------

  /** The robot's position and the map, the state a sequence of moves acts on. */
  datatype Warehouse = Warehouse(cells: Cells, robot: Position)

  /** One move: when the check allows it everything in front is pushed and the robot
      steps forward; otherwise nothing happens. */
  function Step(w: Warehouse, dir: Direction): Warehouse
    requires IsDir(dir)
  {
    if CanMove(w.cells, w.robot, dir) then
      Warehouse(MoveCells(w.cells, w.robot, dir), w.robot.MoveAlong(dir))
    else w
  }

  /** The direction a move character stands for; any other character is no move. */
  function DirectionOf(c: char): (r: Option<Direction>)
    ensures r.Some? <==> c in "<>^v"
    ensures r.Some? ==> IsDir(r.value)
  {
    if c == '>' then Some(RIGHT)
    else if c == '<' then Some(LEFT)
    else if c == '^' then Some(UP)
    else if c == 'v' then Some(DOWN)
    else None
  }

  function Apply(w: Warehouse, move: char): Warehouse {
    match DirectionOf(move)
    case Some(dir) => Step(w, dir)
    case None => w
  }

  /** The state after all the moves, in order. */
  function Run(w: Warehouse, moves: string): Warehouse {
    if moves == [] then w else Apply(Run(w, moves[..|moves| - 1]), moves[|moves| - 1])
  }

  /** The moves with every other character taken out. */
  function OnlyMoves(moves: string): (r: string)
    ensures forall c :: c in r ==> c in "<>^v"
  {
    if moves == [] then []
    else
      var rest := OnlyMoves(moves[..|moves| - 1]);
      if moves[|moves| - 1] in "<>^v" then rest + [moves[|moves| - 1]] else rest
  }

  /** Characters other than the four arrows, newlines included, are ignored. */
  lemma {:induction false} RunIgnoresOtherCharacters(w: Warehouse, moves: string)
    ensures Run(w, moves) == Run(w, OnlyMoves(moves))
  {
    if moves != [] {
      var n := |moves| - 1;
      RunIgnoresOtherCharacters(w, moves[..n]);
      var rest := OnlyMoves(moves[..n]);
      if moves[n] in "<>^v" {
        assert (rest + [moves[n]])[..|rest|] == rest;
      }
    }
  }

  /** A move has two outcomes: the robot steps one cell along `dir`, with '@' now in
      the new cell and floor in the old one and nothing behind it changed; or it is
      blocked and the robot and every cell stay as they were. */
  lemma MoveOutcome(w: Warehouse, dir: Direction)
    requires IsDir(dir) && CellAt(w.cells, w.robot) == '@'
    ensures var s := Step(w, dir);
      if CanMove(w.cells, w.robot, dir) then
        s.robot == w.robot.MoveAlong(dir) && CellAt(s.cells, s.robot) == '@' &&
        CellAt(s.cells, w.robot) == '.' &&
        forall q :: Ahead(w.robot, q, dir) < 0 ==> CellAt(s.cells, q) == CellAt(w.cells, q)
      else s == w
  {
    if CanMove(w.cells, w.robot, dir) {
      MoveFrame(w.cells, w.robot, dir);
    }
  }

  /** The cell under the robot holds '@' after every move if it did before. */
  lemma {:induction false} RunKeepsRobot(w: Warehouse, moves: string)
    requires CellAt(w.cells, w.robot) == '@'
    ensures CellAt(Run(w, moves).cells, Run(w, moves).robot) == '@'
  {
    if moves != [] {
      var n := |moves| - 1;
      RunKeepsRobot(w, moves[..n]);
      var dir := DirectionOf(moves[n]);
      if dir.Some? {
        MoveOutcome(Run(w, moves[..n]), dir.value);
      }
    }
  }

  /** In a part 1 map every push runs along one line, and so does every push of a run
      with no up or down moves on any map; over such a run the number of boxes stays
      the same, no wall disappears, and a map of small boxes gets no wide box. */
  lemma {:induction false} RunKeepsBoxes(w: Warehouse, moves: string)
    requires CellAt(w.cells, w.robot) == '@'
    requires NoWideBoxes(w.cells) || forall i | 0 <= i < |moves| :: moves[i] != '^' && moves[i] != 'v'
    ensures var s := Run(w, moves);
      BoxCount(s.cells) == BoxCount(w.cells) && KeepsWalls(w.cells, s.cells) &&
      (NoWideBoxes(w.cells) ==> NoWideBoxes(s.cells))
  {
    if moves != [] {
      var n := |moves| - 1;
      RunKeepsBoxes(w, moves[..n]);
      RunKeepsRobot(w, moves[..n]);
      var s := Run(w, moves[..n]);
      var dir := DirectionOf(moves[n]);
      if dir.Some? && CanMove(s.cells, s.robot, dir.value) {
        PushKeepsBoxes(s.cells, s.robot, dir.value);
      }
    }
  }

  /** A robot facing one box with floor behind it pushes that box one cell and takes
      its place. */
  lemma BoxPush(cells: Cells, robot: Position, dir: Direction)
    requires IsDir(dir) && CellAt(cells, robot) == '@'
    requires CellAt(cells, robot.MoveAlong(dir)) == 'O'
    requires CellAt(cells, robot.MoveAlong(dir).MoveAlong(dir)) == '.'
    ensures var s := Step(Warehouse(cells, robot), dir);
      var box := robot.MoveAlong(dir);
      s.robot == box && CellAt(s.cells, box) == '@' && CellAt(s.cells, robot) == '.' &&
      CellAt(s.cells, box.MoveAlong(dir)) == 'O'
  {
    var box := robot.MoveAlong(dir);
    assert CanMove(cells, box, dir);
    assert CanMove(cells, robot, dir);
    MoveOutcome(Warehouse(cells, robot), dir);
    MoveIntoFloor(cells, box, dir);
    var pushed := PushFront(cells, robot, dir);
    assert pushed == MoveCells(cells, box, dir);
    assert MoveCells(cells, robot, dir) == SetCell(SetCell(pushed, box, CellAt(pushed, robot)), robot, '.');
  }

  /** The robot in "#..O@..O.#" moving left pushes the box in front of it one cell. */
  lemma PushLeftExample()
    ensures var s := Step(Warehouse(["#..O@..O.#"], Position(4, 0)), LEFT);
      s.robot == Position(3, 0) && CellAt(s.cells, Position(3, 0)) == '@' &&
      CellAt(s.cells, Position(2, 0)) == 'O' && CellAt(s.cells, Position(4, 0)) == '.'
  {
    var cells := ["#..O@..O.#"];
    assert CellAt(cells, Position(4, 0)) == '@';
    assert CellAt(cells, Position(3, 0)) == 'O' && CellAt(cells, Position(2, 0)) == '.';
    BoxPush(cells, Position(4, 0), LEFT);
  }

  /** A box with a wall behind it blocks the robot. */
  lemma BlockedExample()
    ensures Step(Warehouse(["#O@."], Position(2, 0)), LEFT) == Warehouse(["#O@."], Position(2, 0))
  {
    var cells := ["#O@."];
    assert CellAt(cells, Position(0, 0)) == '#';
    assert !CanMove(cells, Position(1, 0), LEFT);
    assert CellAt(cells, Position(1, 0)) == 'O';
    assert !CanMove(cells, Position(2, 0), LEFT);
  }

  /** The robot right below the left half of a wide box with floor above both halves
      pushes the whole box up one row and steps into the cell the left half left. */
  lemma WideBoxUp(cells: Cells, robot: Position)
    requires CellAt(cells, robot) == '@'
    requires var left := robot.MoveAlong(UP); var right := left.MoveAlong(RIGHT);
      CellAt(cells, left) == '[' && CellAt(cells, right) == ']' &&
      CellAt(cells, left.MoveAlong(UP)) == '.' && CellAt(cells, right.MoveAlong(UP)) == '.'
    ensures var s := Step(Warehouse(cells, robot), UP);
      var left := robot.MoveAlong(UP); var right := left.MoveAlong(RIGHT);
      s.robot == left && CellAt(s.cells, left) == '@' && CellAt(s.cells, robot) == '.' &&
      CellAt(s.cells, left.MoveAlong(UP)) == '[' && CellAt(s.cells, right.MoveAlong(UP)) == ']' &&
      CellAt(s.cells, right) == '.'
  {
    var left := robot.MoveAlong(UP);
    var right := left.MoveAlong(RIGHT);
    assert CanMove(cells, left, UP) && CanMove(cells, right, UP);
    assert CanMove(cells, robot, UP);
    MoveOutcome(Warehouse(cells, robot), UP);
    MoveIntoFloor(cells, right, UP);
    var side := MoveCells(cells, right, UP);
    assert CellAt(side, left.MoveAlong(UP)) == '.' && CellAt(side, left) == '[';
    MoveIntoFloor(side, left, UP);
    var pushed := PushFront(cells, robot, UP);
    assert pushed == MoveCells(side, left, UP);
    assert MoveCells(cells, robot, UP) == SetCell(SetCell(pushed, left, CellAt(pushed, robot)), robot, '.');
  }

  /** Pushing the wide box of a small map up moves both of its halves. */
  lemma WideBoxUpExample()
    ensures var s := Step(Warehouse(["####", "#..#", "#[]#", "#@.#"], Position(1, 3)), UP);
      s.robot == Position(1, 2) && CellAt(s.cells, Position(1, 2)) == '@' &&
      CellAt(s.cells, Position(1, 1)) == '[' && CellAt(s.cells, Position(2, 1)) == ']' &&
      CellAt(s.cells, Position(2, 2)) == '.' && CellAt(s.cells, Position(1, 3)) == '.'
  {
    WideBoxUp(["####", "#..#", "#[]#", "#@.#"], Position(1, 3));
  }

  // ----- Scoring -------------------------------------------------------------------

  /** The GPS coordinate of `pos` if it holds a box or the left half of a wide box. */
  function CellScore(cells: Cells, pos: Position): int {
    var c := CellAt(cells, pos);
    if c == 'O' || c == '[' then pos.GPS() else 0
  }

  /** The score of the first `height` cells of column `x`. */
  function ColumnScore(cells: Cells, x: int, height: int): int {
    if height <= 0 then 0 else ColumnScore(cells, x, height - 1) + CellScore(cells, Position(x, height - 1))
  }

  /** The score of the `width` by `height` rectangle at the top left of the map. */
  function BoxScore(cells: Cells, width: int, height: int): int {
    if width <= 0 then 0 else BoxScore(cells, width - 1, height) + ColumnScore(cells, width - 1, height)
  }

  /** A map with no box scores nothing. */
  lemma {:induction false} ScoreWithoutBoxes(cells: Cells, width: int, height: int)
    requires forall q :: CellAt(cells, q) != 'O' && CellAt(cells, q) != '['
    ensures BoxScore(cells, width, height) == 0
    decreases width
  {
    if width > 0 {
      ScoreWithoutBoxes(cells, width - 1, height);
      ColumnWithoutBoxes(cells, width - 1, height);
    }
  }

  lemma {:induction false} ColumnWithoutBoxes(cells: Cells, x: int, height: int)
    requires forall q :: CellAt(cells, q) != 'O' && CellAt(cells, q) != '['
    ensures ColumnScore(cells, x, height) == 0
    decreases height
  {
    if height > 0 {
      ColumnWithoutBoxes(cells, x, height - 1);
    }
  }

  /** Every box cell inside the rectangle adds its GPS coordinate, which is never
      negative, so the score is at least the GPS coordinate of any one box. */
  lemma {:induction false} ScoreCountsEveryBox(cells: Cells, width: int, height: int, p: Position)
    requires 0 <= p.x < width && 0 <= p.y < height
    requires CellAt(cells, p) == 'O' || CellAt(cells, p) == '['
    ensures BoxScore(cells, width, height) >= p.GPS()
    decreases width
  {
    ScoreNonNegative(cells, width - 1, height);
    if p.x < width - 1 {
      ScoreCountsEveryBox(cells, width - 1, height, p);
      ColumnNonNegative(cells, width - 1, height);
    } else {
      ColumnCountsEveryBox(cells, p.x, height, p);
    }
  }

  lemma {:induction false} ColumnCountsEveryBox(cells: Cells, x: int, height: int, p: Position)
    requires p.x == x && 0 <= x && 0 <= p.y < height
    requires CellAt(cells, p) == 'O' || CellAt(cells, p) == '['
    ensures ColumnScore(cells, x, height) >= p.GPS()
    decreases height
  {
    ColumnNonNegative(cells, x, height - 1);
    if p.y < height - 1 {
      ColumnCountsEveryBox(cells, x, height - 1, p);
    }
  }

  lemma {:induction false} ColumnNonNegative(cells: Cells, x: int, height: int)
    requires x >= 0
    ensures ColumnScore(cells, x, height) >= 0
    decreases height
  {
    if height > 0 {
      ColumnNonNegative(cells, x, height - 1);
    }
  }

  lemma {:induction false} ScoreNonNegative(cells: Cells, width: int, height: int)
    ensures BoxScore(cells, width, height) >= 0
    decreases width
  {
    if width > 0 {
      ScoreNonNegative(cells, width - 1, height);
      ColumnNonNegative(cells, width - 1, height);
    }
  }

  // ----- The grid object -----------------------------------------------------------

  class Grid {
    var width: int
    var height: int
    var cells: Cells
    var robot: Position

    constructor (width: int, height: int, cells: Cells, robot: Position)
      ensures this.width == width && this.height == height
      ensures this.cells == cells && this.robot == robot
    {
      this.width := width;
      this.height := height;
      this.cells := cells;
      this.robot := robot;
    }

    /** The map and the robot as one value; Go's `State`, which renders the map as text, is a different thing. */
    function Snapshot(): Warehouse
      reads this
    {
      Warehouse(cells, robot)
    }

    /** An independent grid with the same contents. */
    method Copy() returns (grid: Grid)
      ensures fresh(grid)
      ensures grid.width == width && grid.height == height
      ensures grid.cells == cells && grid.robot == robot
    {
      grid := new Grid(width, height, cells, robot);
    }

    /** The cell at `pos` on the map; anything but a wall lies on the map. */
    function At(pos: Position): (r: char)
      reads this
      ensures Inside(cells, pos) ==> r == cells[pos.y][pos.x]
      ensures r != '#' ==> Inside(cells, pos)
    {
      CellAt(cells, pos)
    }

    method Set(pos: Position, c: char)
      modifies this
      ensures cells == SetCell(old(cells), pos, c)
      ensures width == old(width) && height == old(height) && robot == old(robot)
    {
      cells := SetCell(cells, pos, c);
    }

    /** Pushes the thing at `pos` one step along `dir`, pushing what is in front of it
        first. */
    method MoveCellsAlongDirection(pos: Position, dir: Direction)
      requires IsDir(dir)
      modifies this
      ensures cells == MoveCells(old(cells), pos, dir)
      ensures width == old(width) && height == old(height) && robot == old(robot)
      decreases Room(cells, pos, dir)
    {
      var next := pos.MoveAlong(dir);
      var nextObj := At(next);
      if nextObj == 'O' {
        MoveCellsAlongDirection(next, dir);
      } else if nextObj == '[' {
        if dir != LEFT {
          MoveCellsAlongDirection(next.MoveAlong(RIGHT), dir);
        }
        MoveCellsAlongDirection(next, dir);
      } else if nextObj == ']' {
        if dir != RIGHT {
          MoveCellsAlongDirection(next.MoveAlong(LEFT), dir);
        }
        MoveCellsAlongDirection(next, dir);
      }
      Set(next, At(pos));
      Set(pos, '.');
    }

    /** Moves the robot one step along `dir` if everything in front can be pushed;
        otherwise changes nothing. */
    method MoveRobot(dir: Direction)
      requires IsDir(dir)
      modifies this
      ensures Snapshot() == Step(old(Snapshot()), dir)
      ensures old(CanMove(cells, robot, dir)) ==>
        robot == old(robot).MoveAlong(dir) && cells == MoveCells(old(cells), old(robot), dir)
      ensures !old(CanMove(cells, robot, dir)) ==> robot == old(robot) && cells == old(cells)
      ensures width == old(width) && height == old(height)
    {
      if CanMove(cells, robot, dir) {
        MoveCellsAlongDirection(robot, dir);
        var nextPos := robot.MoveAlong(dir);
        robot := nextPos;
      }
    }

    /** Performs every move of `moves` in order. */
    method ApplyMoves(moves: string)
      modifies this
      ensures Snapshot() == Run(old(Snapshot()), moves)
      ensures width == old(width) && height == old(height)
    {
      for i := 0 to |moves|
        invariant Snapshot() == Run(old(Snapshot()), moves[..i])
        invariant width == old(width) && height == old(height)
      {
        assert moves[..i + 1][..i] == moves[..i];
        var move := moves[i];
        if move == '>' {
          MoveRobot(RIGHT);
        } else if move == '<' {
          MoveRobot(LEFT);
        } else if move == '^' {
          MoveRobot(UP);
        } else if move == 'v' {
          MoveRobot(DOWN);
        }
      }
      assert moves[..|moves|] == moves;
    }

    /** The sum of the GPS coordinates of every box, or left half of a wide box, in the
        `width` by `height` map. */
    method FindTotalScore() returns (total: int)
      ensures total == BoxScore(cells, width, height)
    {
      total := 0;
      var x := 0;
      while x < width
        invariant x <= width || width < 0
        invariant total == BoxScore(cells, if width < 0 then width else x, height)
      {
        var column := 0;
        var y := 0;
        while y < height
          invariant y <= height || height < 0
          invariant column == ColumnScore(cells, x, if height < 0 then height else y)
        {
          var pos := Position(x, y);
          if At(pos) == 'O' || At(pos) == '[' {
            column := column + pos.GPS();
          }
          y := y + 1;
        }
        total := total + column;
        x := x + 1;
      }
    }
  }

  // ----- Reading the map -----------------------------------------------------------

  /** The last index of `c` in `s`, or -1. */
  function LastIndex(s: seq<char>, c: char): (k: int)
    ensures -1 <= k < |s|
    ensures k >= 0 ==> s[k] == c && forall j :: k < j < |s| ==> s[j] != c
    ensures k < 0 ==> c !in s
  {
    if s == [] then -1
    else if s[|s| - 1] == c then |s| - 1
    else LastIndex(s[..|s| - 1], c)
  }

  /** Where the robot is taken to be: the last '@' in reading order, or (0, 0) when
      there is none. */
  function LastRobot(lines: seq<string>): Position {
    if lines == [] then Position(0, 0)
    else
      var k := LastIndex(lines[|lines| - 1], '@');
      if k >= 0 then Position(k, |lines| - 1) else LastRobot(lines[..|lines| - 1])
  }

  /** `q` comes no later than `p` in reading order. */
  predicate NotAfter(q: Position, p: Position) {
    q.y < p.y || (q.y == p.y && q.x <= p.x)
  }

  /** The robot is found on an '@' whenever there is one, and no '@' comes after it in
      reading order; with no '@' at all it is put at (0, 0). */
  lemma {:induction false} LastRobotIsLastMarker(lines: seq<string>)
    ensures var p := LastRobot(lines);
      ((exists q :: CellAt(lines, q) == '@') ==> CellAt(lines, p) == '@') &&
      (forall q :: CellAt(lines, q) == '@' ==> NotAfter(q, p)) &&
      ((forall q :: CellAt(lines, q) != '@') ==> p == Position(0, 0))
  {
    if lines != [] {
      var n := |lines| - 1;
      var k := LastIndex(lines[n], '@');
      LastRobotIsLastMarker(lines[..n]);
      forall q | CellAt(lines, q) == '@' && q.y < n
        ensures CellAt(lines[..n], q) == '@'
      {
      }
      if k < 0 {
        forall q | Inside(lines, q) && q.y == n
          ensures CellAt(lines, q) != '@'
        {
          assert lines[n][q.x] in lines[n];
        }
        if exists q :: CellAt(lines, q) == '@' {
          var q :| CellAt(lines, q) == '@';
          assert CellAt(lines[..n], q) == '@';
        }
        forall q | CellAt(lines[..n], q) == '@'
          ensures CellAt(lines, q) == '@'
        {
        }
      } else {
        assert CellAt(lines, Position(k, n)) == '@';
      }
    }
  }

  function GridLines(gridText: string): (lines: seq<string>)
    ensures |lines| >= 1
  {
    Split(gridText, '\n')
  }

  /** Reads a part 1 map: one row per line, as wide as the first line. */
  method ReadGridText(gridText: string) returns (grid: Grid)
    ensures fresh(grid)
    ensures grid.cells == GridLines(gridText)
    ensures grid.width == |GridLines(gridText)[0]| && grid.height == |GridLines(gridText)|
    ensures grid.robot == LastRobot(GridLines(gridText))
  {
    var lines := Split(gridText, '\n');
    var cells: Cells := [];
    var robot := Position(0, 0);
    for i := 0 to |lines|
      invariant cells == lines[..i]
      invariant robot == LastRobot(lines[..i])
    {
      var line := lines[i];
      var row: seq<char> := [];
      for j := 0 to |line|
        invariant row == line[..j]
        invariant robot == if LastIndex(line[..j], '@') >= 0 then Position(LastIndex(line[..j], '@'), i)
                           else LastRobot(lines[..i])
      {
        assert line[..j + 1][..j] == line[..j];
        row := row + [line[j]];
        if line[j] == '@' {
          robot := Position(j, i);
        }
      }
      assert row == line;
      assert lines[..i + 1][..i] == lines[..i];
      cells := cells + [row];
    }
    assert lines[..|lines|] == lines;
    grid := new Grid(|lines[0]|, |lines|, cells, robot);
  }

  /** The two cells a part 2 map has for one part 1 character; any other character is
      dropped. */
  function Double(c: char): string {
    if c == 'O' then "[]"
    else if c == '#' then "##"
    else if c == '@' then "@."
    else if c == '.' then ".."
    else ""
  }

  function Widen(line: string): string {
    if line == [] then [] else Widen(line[..|line| - 1]) + Double(line[|line| - 1])
  }

  function WidenAll(lines: seq<string>): (r: Cells)
    ensures |r| == |lines| && forall i :: 0 <= i < |lines| ==> r[i] == Widen(lines[i])
  {
    if lines == [] then [] else WidenAll(lines[..|lines| - 1]) + [Widen(lines[|lines| - 1])]
  }

  predicate KnownTiles(line: string) {
    forall j :: 0 <= j < |line| ==> line[j] in "O#@."
  }

  /** A line made only of the four map characters becomes twice as long. */
  lemma {:induction false} WidenLength(line: string)
    requires KnownTiles(line)
    ensures |Widen(line)| == 2 * |line|
  {
    if line != [] {
      var n := |line| - 1;
      WidenLength(line[..n]);
      assert line[n] in "O#@.";
    }
  }

  /** A line made only of the four map characters is doubled tile by tile: tile `j`
      becomes cells `2j` and `2j + 1`. */
  lemma {:induction false} WidenAt(line: string, j: nat)
    requires KnownTiles(line) && j < |line|
    ensures |Widen(line)| == 2 * |line|
    ensures Widen(line)[2 * j] == Double(line[j])[0] && Widen(line)[2 * j + 1] == Double(line[j])[1]
  {
    WidenLength(line);
    var n := |line| - 1;
    var init := line[..n];
    var w := Widen(init);
    var d := Double(line[n]);
    WidenLength(init);
    assert line[n] in "O#@.";
    assert Widen(line) == w + d;
    if j < n {
      WidenAt(init, j);
      assert line[j] == init[j];
      assert (w + d)[2 * j] == w[2 * j] && (w + d)[2 * j + 1] == w[2 * j + 1];
    } else {
      assert (w + d)[2 * j] == d[0] && (w + d)[2 * j + 1] == d[1];
    }
  }

  /** Reads a part 2 map: every tile doubled, the robot at twice the column of its '@'. */
  method ReadGridTextPart2(gridText: string) returns (grid: Grid)
    ensures fresh(grid)
    ensures grid.cells == WidenAll(GridLines(gridText))
    ensures grid.width == 2 * |GridLines(gridText)[0]| && grid.height == |GridLines(gridText)|
    ensures var p := LastRobot(GridLines(gridText)); grid.robot == Position(2 * p.x, p.y)
  {
    var lines := Split(gridText, '\n');
    var cells: Cells := [];
    var robot := Position(0, 0);
    for i := 0 to |lines|
      invariant cells == WidenAll(lines[..i])
      invariant var p := LastRobot(lines[..i]); robot == Position(2 * p.x, p.y)
    {
      var line := lines[i];
      var row: seq<char> := [];
      for j := 0 to |line|
        invariant row == Widen(line[..j])
        invariant var p := if LastIndex(line[..j], '@') >= 0 then Position(LastIndex(line[..j], '@'), i)
                           else LastRobot(lines[..i]);
                  robot == Position(2 * p.x, p.y)
      {
        assert line[..j + 1][..j] == line[..j];
        var ch := line[j];
        if ch == 'O' {
          row := row + "[]";
        } else if ch == '#' {
          row := row + "##";
        } else if ch == '@' {
          row := row + "@.";
          robot := Position(2 * j, i);
        } else if ch == '.' {
          row := row + "..";
        }
      }
      assert line[..|line|] == line;
      assert lines[..i + 1][..i] == lines[..i];
      cells := cells + [row];
    }
    assert lines[..|lines|] == lines;
    grid := new Grid(2 * |lines[0]|, |lines|, cells, robot);
  }

  /** In a part 2 map read from known tiles, the robot sits on the '@' of its widened
      tile. */
  lemma WidenedRobot(lines: seq<string>)
    requires forall i :: 0 <= i < |lines| ==> KnownTiles(lines[i])
    requires exists q :: CellAt(lines, q) == '@'
    ensures var p := LastRobot(lines); CellAt(WidenAll(lines), Position(2 * p.x, p.y)) == '@'
  {
    LastRobotIsLastMarker(lines);
    var p := LastRobot(lines);
    WidenAt(lines[p.y], p.x);
    assert Widen(lines[p.y])[2 * p.x] == Double('@')[0];
  }

  // ----- Solving -------------------------------------------------------------------

  /** The map text and the moves: the input is cut at its first blank line. */
  function Sections(input: string): (string, string) {
    var (gridText, moves, _) := Cut(input, "\n\n");
    (gridText, moves)
  }

  function Part1Answer(input: string): int {
    var (gridText, moves) := Sections(input);
    var lines := GridLines(gridText);
    var s := Run(Warehouse(lines, LastRobot(lines)), moves);
    BoxScore(s.cells, |lines[0]|, |lines|)
  }

  function Part2Answer(input: string): int {
    var (gridText, moves) := Sections(input);
    var lines := GridLines(gridText);
    var p := LastRobot(lines);
    var s := Run(Warehouse(WidenAll(lines), Position(2 * p.x, p.y)), moves);
    BoxScore(s.cells, 2 * |lines[0]|, |lines|)
  }

  method SolveForPart1(input: string) returns (total: int)
    ensures total == Part1Answer(input)
  {
    var (gridText, moves, _) := Cut(input, "\n\n");
    var grid := ReadGridText(gridText);
    grid.ApplyMoves(moves);
    total := grid.FindTotalScore();
  }

  method SolveForPart2(input: string) returns (total: int)
    ensures total == Part2Answer(input)
  {
    var (gridText, moves, _) := Cut(input, "\n\n");
    var grid := ReadGridTextPart2(gridText);
    grid.ApplyMoves(moves);
    total := grid.FindTotalScore();
  }
}
