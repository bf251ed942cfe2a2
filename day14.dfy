/** Day 14, "Restroom Redoubt": robots move in straight lines at constant velocity over
    a rectangular space whose edges wrap around. Part 1 counts the robots in each
    quadrant after 100 seconds, ignoring robots on the middle row or column, and
    multiplies the four counts. */
module Day14 {
  import opened GoLib

  datatype Vector = Vector(x: int, y: int) {
    function Add(v2: Vector): (r: Vector)
      ensures r.x == x + v2.x && r.y == y + v2.y
    {
      Vector(x + v2.x, y + v2.y)
    }

    function Scale(scale: int): (r: Vector)
      ensures r.x == x * scale && r.y == y * scale
    {
      Vector(x * scale, y * scale)
    }
  }

  /** Scaling distributes over a sum of times, and scaling by 0 gives the zero vector,
      which adds nothing. */
  lemma ScaleLinear(v: Vector, s: int, t: int, w: Vector)
    ensures v.Scale(s + t) == v.Scale(s).Add(v.Scale(t))
    ensures v.Scale(0) == Vector(0, 0) && w.Add(Vector(0, 0)) == w
    ensures v.Add(w) == w.Add(v)
  {
    assert v.x * (s + t) == v.x * s + v.x * t;
    assert v.y * (s + t) == v.y * s + v.y * t;
  }

  datatype Robot = Robot(initialPos: Vector, velocity: Vector) {
    /** Where the robot is after `time` seconds. */
    function PositionAfter(time: int, space: Space): (r: Vector)
      requires space.width != 0 && space.height != 0
      ensures space.width > 0 ==> 0 <= r.x < space.width
      ensures space.height > 0 ==> 0 <= r.y < space.height
    {
      space.WrapPosition(initialPos.Add(velocity.Scale(time)))
    }
  }

  datatype Space = Space(width: int, height: int) {
    /** Brings a position back into the space. Go's `%` takes the sign of the
        dividend, so a negative remainder is moved up by one width (or height). */
    function WrapPosition(vec: Vector): (r: Vector)
      requires width != 0 && height != 0
      ensures width > 0 ==> r.x == vec.x % width
      ensures height > 0 ==> r.y == vec.y % height
    {
      var x := Rem(vec.x, width);
      var x := if x < 0 then x + width else x;
      var y := Rem(vec.y, height);
      var y := if y < 0 then y + height else y;
      WrapIsMod(vec.x, width);
      WrapIsMod(vec.y, height);
      Vector(x, y)
    }

    /** The quadrant of `pos`: 1 top-right, 2 top-left, 3 bottom-left, 4 bottom-right,
        or -1 on the middle column or row. Only spaces of odd width and height are
        handled. */
    function FindQuadrant(pos: Vector): (r: int)
      requires width % 2 == 1 && height % 2 == 1
      ensures r in {-1, 1, 2, 3, 4}
      ensures r == -1 <==> 2 * pos.x == width - 1 || 2 * pos.y == height - 1
      ensures r == 1 <==> 2 * pos.x > width - 1 && 2 * pos.y < height - 1
      ensures r == 2 <==> 2 * pos.x < width - 1 && 2 * pos.y < height - 1
      ensures r == 3 <==> 2 * pos.x < width - 1 && 2 * pos.y > height - 1
      ensures r == 4 <==> 2 * pos.x > width - 1 && 2 * pos.y > height - 1
    {
      var midX := Quot(width - 1, 2);
      var midY := Quot(height - 1, 2);
      HalfOfEven(width - 1);
      HalfOfEven(height - 1);
      if pos.x > midX && pos.y < midY then 1
      else if pos.x < midX && pos.y < midY then 2
      else if pos.x < midX && pos.y > midY then 3
      else if pos.x > midX && pos.y > midY then 4
      else -1
    }
  }

  /** Halving an even number with Go's `/` is exact. */
  lemma HalfOfEven(n: int)
    requires n % 2 == 0
    ensures 2 * Quot(n, 2) == n
  {
    RemZeroIffDivides(n, 2);
  }

  /** The unique remainder of Euclidean division: any `r` in `[0, w)` that differs from
      `a` by a multiple of `w` is `a % w`. */
  lemma ModUnique(a: int, w: int, k: int, r: int)
    requires w > 0 && 0 <= r < w && a == w * k + r
    ensures r == a % w && k == a / w
  {
    var q := a / w;
    assert w * (k - q) == a % w - r by {
      assert w * (k - q) == w * k - w * q;
    }
    MultipleBelowDivisor(w, k - q, a % w - r);
  }

  /** Go's remainder, moved up by `w` when negative, is Dafny's `a % w`. */
  lemma WrapIsMod(a: int, w: int)
    requires w != 0
    ensures w > 0 ==> (if Rem(a, w) < 0 then Rem(a, w) + w else Rem(a, w)) == a % w
  {
    if w > 0 {
      RemBounds(a, w);
      if Rem(a, w) < 0 {
        ModUnique(a, w, Quot(a, w) - 1, Rem(a, w) + w);
      } else {
        ModUnique(a, w, Quot(a, w), Rem(a, w));
      }
    }
  }

  lemma ModShift(a: int, w: int, k: int)
    requires w > 0
    ensures (a + w * k) % w == a % w
  {
    ModUnique(a + w * k, w, a / w + k, a % w);
  }

  /** In a space of positive size the robot stays inside, at its starting position
      plus `time` times its velocity, wrapped around both edges. */
  lemma PositionAfterInSpace(robot: Robot, time: int, space: Space)
    requires space.width > 0 && space.height > 0
    ensures var r := robot.PositionAfter(time, space);
      0 <= r.x < space.width && 0 <= r.y < space.height &&
      r.x == (robot.initialPos.x + time * robot.velocity.x) % space.width &&
      r.y == (robot.initialPos.y + time * robot.velocity.y) % space.height
  {
    assert robot.velocity.x * time == time * robot.velocity.x;
    assert robot.velocity.y * time == time * robot.velocity.y;
  }

  /** At time 0 the robot is at its starting position, wrapped into the space. */
  lemma PositionAtZero(robot: Robot, space: Space)
    requires space.width != 0 && space.height != 0
    ensures robot.PositionAfter(0, space) == space.WrapPosition(robot.initialPos)
  {
    assert robot.velocity.Scale(0) == Vector(0, 0);
    assert robot.initialPos.Add(Vector(0, 0)) == robot.initialPos;
  }

  /** Every robot is back where it was after `width * height` seconds. */
  lemma PositionPeriodic(robot: Robot, time: int, space: Space)
    requires space.width > 0 && space.height > 0
    ensures robot.PositionAfter(time + space.width * space.height, space) == robot.PositionAfter(time, space)
  {
    var p, v := robot.initialPos, robot.velocity;
    var w, h := space.width, space.height;
    PositionAfterInSpace(robot, time, space);
    PositionAfterInSpace(robot, time + w * h, space);
    PeriodArith(p.x, time, w, h, v.x);
    PeriodArith(p.y, time, h, w, v.y);
    assert w * h == h * w;
    ModShift(p.x + time * v.x, w, h * v.x);
    ModShift(p.y + time * v.y, h, w * v.y);
  }

  lemma PeriodArith(p: int, t: int, w: int, h: int, v: int)
    ensures p + (t + w * h) * v == (p + t * v) + w * (h * v)
  {
  }

  predicate OddSized(space: Space) {
    space.width % 2 == 1 && space.height % 2 == 1
  }

  /** The quadrant of a robot after 100 seconds. */
  function QuadrantAt100(robot: Robot, space: Space): int
    requires OddSized(space)
  {
    space.FindQuadrant(robot.PositionAfter(100, space))
  }

  /** How many robots are in quadrant `q` after 100 seconds. */
  function CountIn(robots: seq<Robot>, space: Space, q: int): (n: nat)
    requires OddSized(space)
    ensures n <= |robots|
  {
    if robots == [] then 0
    else CountIn(robots[..|robots| - 1], space, q) + (if QuadrantAt100(robots[|robots| - 1], space) == q then 1 else 0)
  }

  /** Every robot is in exactly one quadrant or on an axis, so the four quadrant counts
      add up to at most the number of robots, the rest being on an axis. */
  lemma {:induction false} CountsPartition(robots: seq<Robot>, space: Space)
    requires OddSized(space)
    ensures CountIn(robots, space, 1) + CountIn(robots, space, 2) + CountIn(robots, space, 3)
      + CountIn(robots, space, 4) + CountIn(robots, space, -1) == |robots|
    ensures CountIn(robots, space, 1) + CountIn(robots, space, 2) + CountIn(robots, space, 3)
      + CountIn(robots, space, 4) <= |robots|
  {
    if robots != [] {
      CountsPartition(robots[..|robots| - 1], space);
      var q := QuadrantAt100(robots[|robots| - 1], space);
      assert q in {-1, 1, 2, 3, 4};
    }
  }

  function Product(counts: seq<int>): int {
    if counts == [] then 1 else Product(counts[..|counts| - 1]) * counts[|counts| - 1]
  }

  lemma ProductOfFour(s: seq<int>)
    requires |s| == 4
    ensures Product(s) == s[0] * s[1] * s[2] * s[3]
  {
    assert s[..1][..0] == [];
    assert Product(s[..1]) == s[0];
    assert s[..2][..1] == s[..1];
    assert Product(s[..2]) == s[0] * s[1];
    assert s[..3][..2] == s[..2];
    assert Product(s[..3]) == s[0] * s[1] * s[2];
    assert s[..4][..3] == s[..3] && s[..4] == s;
  }

  /** The safety factor: the product of the four quadrant counts after 100 seconds. */
  method SolvePart1(robots: seq<Robot>, space: Space) returns (product: int)
    requires OddSized(space)
    ensures product == CountIn(robots, space, 1) * CountIn(robots, space, 2)
      * CountIn(robots, space, 3) * CountIn(robots, space, 4)
  {
    var quadrantCounts := new int[4](_ => 0);
    for i := 0 to |robots|
      invariant forall q :: 0 <= q < 4 ==> quadrantCounts[q] == CountIn(robots[..i], space, q + 1)
    {
      assert robots[..i + 1][..i] == robots[..i];
      var pos := robots[i].PositionAfter(100, space);
      var quadrant := space.FindQuadrant(pos);
      if quadrant == -1 {
        continue;
      }
      quadrantCounts[quadrant - 1] := quadrantCounts[quadrant - 1] + 1;
    }
    assert robots[..|robots|] == robots;
    product := 1;
    for i := 0 to 4
      invariant product == Product(quadrantCounts[..i])
    {
      assert quadrantCounts[..i + 1][..i] == quadrantCounts[..i];
      product := product * quadrantCounts[i];
    }
    ProductOfFour(quadrantCounts[..4]);
  }

  // ---------------------------------------------------------------------------
  // The cases of the unit tests
  // ---------------------------------------------------------------------------

  /** Positions in an 11 by 7 space after 0, 1, 2 and 5 seconds. */
  lemma PositionExample(px: int, py: int, vx: int, vy: int, time: int, x: int, y: int, kx: int, ky: int)
    requires 0 <= x < 11 && 0 <= y < 7
    requires px + time * vx == 11 * kx + x && py + time * vy == 7 * ky + y
    ensures Robot(Vector(px, py), Vector(vx, vy)).PositionAfter(time, Space(11, 7)) == Vector(x, y)
  {
    PositionAfterInSpace(Robot(Vector(px, py), Vector(vx, vy)), time, Space(11, 7));
    ModUnique(px + time * vx, 11, kx, x);
    ModUnique(py + time * vy, 7, ky, y);
  }

  lemma PositionExamplesNoWrap()
    ensures Robot(Vector(1, 2), Vector(3, 4)).PositionAfter(0, Space(11, 7)) == Vector(1, 2)
    ensures Robot(Vector(1, 2), Vector(3, 4)).PositionAfter(1, Space(11, 7)) == Vector(4, 6)
    ensures Robot(Vector(1, 2), Vector(3, 2)).PositionAfter(2, Space(11, 7)) == Vector(7, 6)
  {
    PositionExample(1, 2, 3, 4, 0, 1, 2, 0, 0);
    PositionExample(1, 2, 3, 4, 1, 4, 6, 0, 0);
    PositionExample(1, 2, 3, 2, 2, 7, 6, 0, 0);
  }

  lemma PositionExampleWrap()
    ensures Robot(Vector(2, 4), Vector(2, -3)).PositionAfter(5, Space(11, 7)) == Vector(1, 3)
  {
    PositionExample(2, 4, 2, -3, 5, 1, 3, 1, -2);
  }

  /** Quadrants in a 5 by 5 space. */
  lemma QuadrantExamples()
    ensures Space(5, 5).FindQuadrant(Vector(0, 0)) == 2
    ensures Space(5, 5).FindQuadrant(Vector(4, 0)) == 1
    ensures Space(5, 5).FindQuadrant(Vector(2, 0)) == -1
    ensures Space(5, 5).FindQuadrant(Vector(0, 4)) == 3
    ensures Space(5, 5).FindQuadrant(Vector(4, 4)) == 4
    ensures Space(5, 5).FindQuadrant(Vector(1, 2)) == -1
  {
  }
}
