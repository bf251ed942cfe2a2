/** Day 13, "Claw Contraption": each machine has two buttons that move the claw by fixed
    vectors and a prize at a fixed point. The prize is won by pressing A some number of
    times and B some number of times so that the claw lands exactly on it; a press of A
    costs 3 tokens and a press of B costs 1. With two independent buttons there is at
    most one way to land on the prize, found by Cramer's rule. */
module Day13 {
  import opened GoLib

  datatype Vector = Vector(x: int, y: int)

  datatype MachineInfo = MachineInfo(a: Vector, b: Vector, prize: Vector)

  /** Pressing A `aCount` times and B `bCount` times lands exactly on the prize. */
  predicate Solves(info: MachineInfo, aCount: int, bCount: int) {
    aCount * info.a.x + bCount * info.b.x == info.prize.x &&
    aCount * info.a.y + bCount * info.b.y == info.prize.y
  }

  /** The determinant of the system; zero exactly when the buttons move along parallel
      lines. */
  function Den(info: MachineInfo): int {
    info.b.x * info.a.y - info.b.y * info.a.x
  }

  function ANum(info: MachineInfo): int {
    info.prize.y * info.b.x - info.prize.x * info.b.y
  }

  function BNum(info: MachineInfo): int {
    info.prize.x * info.a.y - info.prize.y * info.a.x
  }

  /** Any solution satisfies Cramer's equations. */
  lemma CramerForward(info: MachineInfo, l: int, m: int)
    requires Solves(info, l, m)
    ensures Den(info) * l == ANum(info) && Den(info) * m == BNum(info)
  {
    var A, B := info.a, info.b;
    assert ANum(info) == (l * A.y + m * B.y) * B.x - (l * A.x + m * B.x) * B.y;
    assert (l * A.y + m * B.y) * B.x - (l * A.x + m * B.x) * B.y == l * (B.x * A.y - B.y * A.x);
    assert BNum(info) == (l * A.x + m * B.x) * A.y - (l * A.y + m * B.y) * A.x;
    assert (l * A.x + m * B.x) * A.y - (l * A.y + m * B.y) * A.x == m * (B.x * A.y - B.y * A.x);
  }

  /** With independent buttons, any solution of Cramer's equations is a solution. */
  lemma CramerBackward(info: MachineInfo, l: int, m: int)
    requires Den(info) != 0
    requires Den(info) * l == ANum(info) && Den(info) * m == BNum(info)
    ensures Solves(info, l, m)
  {
    var A, B, P := info.a, info.b, info.prize;
    var den := Den(info);
    NumeratorsCombine(A.x, A.y, B.x, B.y, P.x, P.y);
    Distribute(den, l, m, A.x, B.x);
    Distribute(den, l, m, A.y, B.y);
    MulCancel(den, l * A.x + m * B.x, P.x);
    MulCancel(den, l * A.y + m * B.y, P.y);
  }

  lemma NumeratorsCombine(a1: int, a2: int, b1: int, b2: int, p1: int, p2: int)
    ensures a1 * (p2 * b1 - p1 * b2) + b1 * (p1 * a2 - p2 * a1) == p1 * (b1 * a2 - b2 * a1)
    ensures a2 * (p2 * b1 - p1 * b2) + b2 * (p1 * a2 - p2 * a1) == p2 * (b1 * a2 - b2 * a1)
  {
  }

  lemma Distribute(d: int, l: int, m: int, a: int, b: int)
    ensures d * (l * a + m * b) == a * (d * l) + b * (d * m)
  {
  }

  lemma MulCancel(d: int, u: int, v: int)
    requires d != 0 && d * u == v * d
    ensures u == v
  {
    assert d * (u - v) == 0;
    if u != v {
      AbsMul(d, u - v);
      MulAtLeast(Abs(d), Abs(u - v));
    }
  }

  /** With independent buttons the prize can be reached in at most one way. */
  lemma UniqueSolution(info: MachineInfo, l: int, m: int, l': int, m': int)
    requires Den(info) != 0 && Solves(info, l, m) && Solves(info, l', m')
    ensures l == l' && m == m'
  {
    CramerForward(info, l, m);
    CramerForward(info, l', m');
    MulCancel(Den(info), l, l');
    MulCancel(Den(info), m, m');
  }

  /** The cost of winning the prize and whether it can be won: both numerators must be
      divisible by the determinant (Go's truncating `%` and `/`), and neither press
      count may be rejected by `countExcludeFn`. */
  function GetMinimumScore(info: MachineInfo, countExcludeFn: int -> bool): (r: (int, bool))
    requires Den(info) != 0
    ensures !r.1 ==> r.0 == 0
  {
    var den, aNum, bNum := Den(info), ANum(info), BNum(info);
    if Rem(aNum, den) != 0 || Rem(bNum, den) != 0 then (0, false)
    else
      var aCount, bCount := Quot(aNum, den), Quot(bNum, den);
      if countExcludeFn(aCount) || countExcludeFn(bCount) then (0, false)
      else (aCount * 3 + bCount, true)
  }

  /** A prize is reported winnable exactly when some press counts land on it and
      neither count is excluded; the score is then 3 tokens per A press plus 1 per B
      press. */
  lemma ScoreIffSolution(info: MachineInfo, countExcludeFn: int -> bool)
    requires Den(info) != 0
    ensures GetMinimumScore(info, countExcludeFn).1 <==>
      exists l, m :: Solves(info, l, m) && !countExcludeFn(l) && !countExcludeFn(m)
    ensures forall l, m :: Solves(info, l, m) && GetMinimumScore(info, countExcludeFn).1 ==>
      GetMinimumScore(info, countExcludeFn).0 == 3 * l + m
  {
    var den, aNum, bNum := Den(info), ANum(info), BNum(info);
    RemZeroIffDivides(aNum, den);
    RemZeroIffDivides(bNum, den);
    if Rem(aNum, den) == 0 && Rem(bNum, den) == 0 {
      var l, m := Quot(aNum, den), Quot(bNum, den);
      assert den * l == aNum && den * m == bNum;
      CramerBackward(info, l, m);
      forall l', m' | Solves(info, l', m')
        ensures l' == l && m' == m
      {
        UniqueSolution(info, l, m, l', m');
      }
    } else {
      forall l, m | Solves(info, l, m)
        ensures false
      {
        CramerForward(info, l, m);
        DivExact(aNum, den, l);
        DivExact(bNum, den, m);
      }
    }
  }

  /** If a numerator is not divisible by the determinant, no whole numbers of presses
      land on the prize, and the machine is reported as not winnable. */
  lemma NotDivisibleMeansNoSolution(info: MachineInfo, countExcludeFn: int -> bool)
    requires Den(info) != 0
    requires Rem(ANum(info), Den(info)) != 0 || Rem(BNum(info), Den(info)) != 0
    ensures forall l, m :: !Solves(info, l, m)
    ensures GetMinimumScore(info, countExcludeFn) == (0, false)
  {
    forall l, m | Solves(info, l, m)
      ensures false
    {
      CramerForward(info, l, m);
      DivExact(ANum(info), Den(info), l);
      DivExact(BNum(info), Den(info), m);
      RemZeroIffDivides(ANum(info), Den(info));
      RemZeroIffDivides(BNum(info), Den(info));
    }
  }

  /** A machine whose only solution needs an excluded press count is not winnable. */
  lemma ExcludedCountRejected(info: MachineInfo, countExcludeFn: int -> bool, l: int, m: int)
    requires Den(info) != 0 && Solves(info, l, m) && (countExcludeFn(l) || countExcludeFn(m))
    ensures GetMinimumScore(info, countExcludeFn) == (0, false)
  {
    ScoreIffSolution(info, countExcludeFn);
    if GetMinimumScore(info, countExcludeFn).1 {
      var l', m' :| Solves(info, l', m') && !countExcludeFn(l') && !countExcludeFn(m');
      UniqueSolution(info, l, m, l', m');
    }
  }

  /** The code accepts any whole-number solution, including one that presses a button a
      negative number of times: pressing A twice and B minus once reaches (1, 0) with
      buttons (1, 1) and (1, 2). */
  lemma NegativeCountsAccepted()
    ensures GetMinimumScore(MachineInfo(Vector(1, 1), Vector(1, 2), Vector(1, 0)), Over100) == (5, true)
  {
  }

  /** Part 1 rejects more than 100 presses of either button. */
  function Over100(count: int): bool {
    count > 100
  }

  /** Part 2 accepts any press count. */
  function AlwaysFalse(count: int): bool {
    false
  }

  predicate AllIndependent(infos: seq<MachineInfo>) {
    forall i :: 0 <= i < |infos| ==> Den(infos[i]) != 0
  }

  /** The sum of the scores of the machines reported winnable. */
  function TotalScore(infos: seq<MachineInfo>, countExcludeFn: int -> bool): int
    requires AllIndependent(infos)
  {
    if infos == [] then 0
    else
      var r := GetMinimumScore(infos[|infos| - 1], countExcludeFn);
      TotalScore(infos[..|infos| - 1], countExcludeFn) + (if r.1 then r.0 else 0)
  }

  /** Each machine contributes the cost of its solution when it has one whose press
      counts are not excluded, and nothing otherwise. */
  lemma {:induction false} TotalScoreOfSolutions(infos: seq<MachineInfo>, countExcludeFn: int -> bool,
                                                 aCounts: seq<int>, bCounts: seq<int>)
    requires AllIndependent(infos) && |aCounts| == |bCounts| == |infos|
    requires forall i :: 0 <= i < |infos| ==> Solves(infos[i], aCounts[i], bCounts[i])
    ensures TotalScore(infos, countExcludeFn) == CostOf(aCounts, bCounts, countExcludeFn)
  {
    if infos != [] {
      var n := |infos| - 1;
      TotalScoreOfSolutions(infos[..n], countExcludeFn, aCounts[..n], bCounts[..n]);
      ScoreIffSolution(infos[n], countExcludeFn);
      if countExcludeFn(aCounts[n]) || countExcludeFn(bCounts[n]) {
        ExcludedCountRejected(infos[n], countExcludeFn, aCounts[n], bCounts[n]);
      }
    }
  }

  /** 3 tokens per A press plus 1 per B press, over the machines whose counts are not
      excluded. */
  function CostOf(aCounts: seq<int>, bCounts: seq<int>, countExcludeFn: int -> bool): int
    requires |aCounts| == |bCounts|
  {
    if aCounts == [] then 0
    else
      var n := |aCounts| - 1;
      CostOf(aCounts[..n], bCounts[..n], countExcludeFn) +
        (if countExcludeFn(aCounts[n]) || countExcludeFn(bCounts[n]) then 0 else 3 * aCounts[n] + bCounts[n])
  }

  method SolvePart1(infos: seq<MachineInfo>) returns (total: int)
    requires AllIndependent(infos)
    ensures total == TotalScore(infos, Over100)
  {
    total := 0;
    for i := 0 to |infos|
      invariant total == TotalScore(infos[..i], Over100)
    {
      var (score, possible) := GetMinimumScore(infos[i], Over100);
      if possible {
        total := total + score;
      }
      assert infos[..i + 1][..i] == infos[..i];
    }
    assert infos[..|infos|] == infos;
  }

  const CalibrationOffset := 10000000000000

  /** The prize moved by 10^13 in both coordinates; the buttons are unchanged. */
  function CalibrateForPart2(info: MachineInfo): (r: MachineInfo)
    ensures r.a == info.a && r.b == info.b
    ensures r.prize.x - info.prize.x == r.prize.y - info.prize.y == 10000000000000
  {
    MachineInfo(info.a, info.b, Vector(info.prize.x + CalibrationOffset, info.prize.y + CalibrationOffset))
  }

  /** Calibration keeps the buttons, so it keeps them independent. */
  lemma CalibrateKeepsDen(info: MachineInfo)
    ensures Den(CalibrateForPart2(info)) == Den(info)
  {
    var r := CalibrateForPart2(info);
    assert r.a == info.a && r.b == info.b;
  }

  function Calibrated(infos: seq<MachineInfo>): (r: seq<MachineInfo>)
    ensures |r| == |infos|
    ensures AllIndependent(infos) ==> AllIndependent(r)
  {
    var r := seq(|infos|, i requires 0 <= i < |infos| => CalibrateForPart2(infos[i]));
    assert AllIndependent(infos) ==> AllIndependent(r) by {
      forall i | 0 <= i < |infos|
        ensures Den(r[i]) == Den(infos[i])
      {
        CalibrateKeepsDen(infos[i]);
      }
    }
    r
  }

  method SolvePart2(infos: seq<MachineInfo>) returns (total: int)
    requires AllIndependent(infos)
    ensures total == TotalScore(Calibrated(infos), AlwaysFalse)
  {
    total := 0;
    ghost var calibrated := Calibrated(infos);
    for i := 0 to |infos|
      invariant total == TotalScore(calibrated[..i], AlwaysFalse)
    {
      CalibrateKeepsDen(infos[i]);
      var (score, possible) := GetMinimumScore(CalibrateForPart2(infos[i]), AlwaysFalse);
      if possible {
        total := total + score;
      }
      assert calibrated[..i + 1][..i] == calibrated[..i];
    }
    assert calibrated[..|infos|] == calibrated;
  }

  // ---------------------------------------------------------------------------
  // The cases of the unit test
  // ---------------------------------------------------------------------------

  function Machine(px: int, py: int): MachineInfo {
    MachineInfo(Vector(5, 10), Vector(6, 4), Vector(px, py))
  }

  /** Reading off the result from the press counts that Cramer's equations give. */
  lemma ScoreFromCounts(info: MachineInfo, countExcludeFn: int -> bool, l: int, m: int)
    requires Den(info) != 0 && Den(info) * l == ANum(info) && Den(info) * m == BNum(info)
    ensures GetMinimumScore(info, countExcludeFn)
      == if countExcludeFn(l) || countExcludeFn(m) then (0, false) else (3 * l + m, true)
  {
    CramerBackward(info, l, m);
    ScoreIffSolution(info, countExcludeFn);
    if countExcludeFn(l) || countExcludeFn(m) {
      ExcludedCountRejected(info, countExcludeFn, l, m);
    }
  }

  /** A = (5, 10) and B = (6, 4) against several prizes, with part 1's limit of 100. */
  lemma SmallMachineUnreachable()
    ensures GetMinimumScore(Machine(1, 2), Over100) == (0, false)
  {
    assert Den(Machine(1, 2)) == 40 && ANum(Machine(1, 2)) == 8;
    assert Rem(8, 40) == 8;
  }

  lemma SmallMachinesReachable()
    ensures GetMinimumScore(Machine(5, 10), Over100) == (3, true)
    ensures GetMinimumScore(Machine(25, 50), Over100) == (15, true)
    ensures GetMinimumScore(Machine(36, 24), Over100) == (6, true)
    ensures GetMinimumScore(Machine(11, 14), Over100) == (4, true)
    ensures GetMinimumScore(Machine(22, 28), Over100) == (8, true)
    ensures GetMinimumScore(Machine(600, 1200), Over100) == (0, false)
  {
    ScoreFromCounts(Machine(5, 10), Over100, 1, 0);
    ScoreFromCounts(Machine(25, 50), Over100, 5, 0);
    ScoreFromCounts(Machine(36, 24), Over100, 0, 6);
    ScoreFromCounts(Machine(11, 14), Over100, 1, 1);
    ScoreFromCounts(Machine(22, 28), Over100, 2, 2);
    ScoreFromCounts(Machine(600, 1200), Over100, 120, 0);
  }

  const TestInfos: seq<MachineInfo> := [
    MachineInfo(Vector(94, 34), Vector(22, 67), Vector(8400, 5400)),
    MachineInfo(Vector(26, 66), Vector(67, 21), Vector(12748, 12176)),
    MachineInfo(Vector(17, 86), Vector(84, 37), Vector(7870, 6450)),
    MachineInfo(Vector(69, 23), Vector(27, 71), Vector(18641, 10279))
  ]

  lemma TestMachinesWinnable()
    ensures GetMinimumScore(TestInfos[0], Over100) == (280, true)
    ensures GetMinimumScore(TestInfos[2], Over100) == (200, true)
  {
    ScoreFromCounts(TestInfos[0], Over100, 80, 40);
    ScoreFromCounts(TestInfos[2], Over100, 38, 86);
  }

  lemma TestMachinesNotWinnable()
    ensures GetMinimumScore(TestInfos[1], Over100) == (0, false)
    ensures GetMinimumScore(TestInfos[3], Over100) == (0, false)
  {
    var t1, t3 := TestInfos[1], TestInfos[3];
    assert Den(t1) == 67 * 66 - 21 * 26 && ANum(t1) == 12176 * 67 - 12748 * 21;
    assert Rem(ANum(t1), Den(t1)) != 0;
    assert Den(t3) == 27 * 23 - 71 * 69 && ANum(t3) == 10279 * 27 - 18641 * 71;
    assert Rem(ANum(t3), Den(t3)) != 0;
  }

  /** The four machines of the example: the first and third are winnable for 280 and
      200 tokens, 480 in all. */
  lemma TestInputPart1()
    ensures AllIndependent(TestInfos)
    ensures TotalScore(TestInfos, Over100) == 480
  {
    TestMachinesWinnable();
    TestMachinesNotWinnable();
    var t := TestInfos;
    assert t[..1][..0] == [];
    assert TotalScore(t[..1], Over100) == 280;
    assert t[..2][..1] == t[..1];
    assert TotalScore(t[..2], Over100) == 280;
    assert t[..3][..2] == t[..2];
    assert TotalScore(t[..3], Over100) == 480;
    assert t[..4][..3] == t[..3] && t[..4] == t;
  }
}
