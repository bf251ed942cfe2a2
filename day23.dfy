/** Day 23, "LAN Party": a network of computers given as links between pairs of names.
    Part 1 counts the groups of three mutually linked computers with a name starting with
    "t"; part 2 grows such groups one computer at a time to find a largest fully linked
    group and renders its names joined by commas. */
module Day23 {
  import opened GoLib

  // ----- The network -----------------------------------------------------------------

  /** The sorted computer names and the adjacency matrix between them. */
  datatype Graph = Graph(vertices: seq<string>, edges: seq<seq<bool>>)

  /** The adjacency matrix is square, with one row and one column per name. */
  predicate WellFormed(g: Graph) {
    |g.edges| == |g.vertices| && forall i :: 0 <= i < |g.edges| ==> |g.edges[i]| == |g.vertices|
  }

  /** The matrix entry for computers `a` and `b` is set. */
  predicate Linked(g: Graph, a: int, b: int) {
    0 <= a < |g.edges| && 0 <= b < |g.edges[a]| && g.edges[a][b]
  }

  /** Every link is recorded both ways. */
  predicate Symmetric(g: Graph) {
    forall a, b :: 0 <= a < |g.vertices| && 0 <= b < |g.vertices| && Linked(g, a, b) ==> Linked(g, b, a)
  }

  /** A computer linked to itself is linked to no other computer. Go's search for a
      larger group never stops when a self-linked computer ends a group all of whose
      members it is linked to; an isolated self-link is harmless. */
  predicate SelfLinksIsolated(g: Graph) {
    forall a, b :: 0 <= a < |g.vertices| && 0 <= b < |g.vertices| && a != b && Linked(g, a, a) ==> !Linked(g, a, b)
  }

  /** Every index of `t` names a computer. */
  predicate InRange(g: Graph, t: seq<int>) {
    forall p :: 0 <= p < |t| ==> 0 <= t[p] < |g.vertices|
  }

  /** The names of the computers at the indices `t`. */
  function Names(g: Graph, t: seq<int>): (r: seq<string>)
    ensures |r| == |t|
    ensures forall p :: 0 <= p < |t| && 0 <= t[p] < |g.vertices| ==> r[p] == g.vertices[t[p]]
  {
    seq(|t|, p requires 0 <= p < |t| => if 0 <= t[p] < |g.vertices| then g.vertices[t[p]] else "")
  }

  // ----- Groups of three ---------------------------------------------------------------

  /** Indices `i < j < k` of three computers linked as the search tests them: i to j, j to
      k and k to i. */
  predicate IsTriangle(g: Graph, t: seq<int>) {
    |t| == 3 && 0 <= t[0] < t[1] < t[2] < |g.vertices| &&
    Linked(g, t[0], t[1]) && Linked(g, t[1], t[2]) && Linked(g, t[2], t[0])
  }

  /** Triple `s` comes strictly before triple `t` in lexicographic order. */
  predicate LexLess(s: seq<int>, t: seq<int>) {
    |s| == 3 && |t| == 3 &&
    (s[0] < t[0] || (s[0] == t[0] && (s[1] < t[1] || (s[1] == t[1] && s[2] < t[2]))))
  }

  /** The triples are in strictly increasing lexicographic order. */
  predicate LexSorted(r: seq<seq<int>>) {
    forall p, q :: 0 <= p < q < |r| ==> LexLess(r[p], r[q])
  }

  /** The triangles `[i, j, c]` with `c < k`, by increasing `c`. */
  function RowTriangles(g: Graph, i: int, j: int, k: int): seq<seq<int>>
    decreases k - j
  {
    if k <= j + 1 then []
    else RowTriangles(g, i, j, k - 1) + (if IsTriangle(g, [i, j, k - 1]) then [[i, j, k - 1]] else [])
  }

  /** The triangles `[i, b, c]` with `b < j`, in lexicographic order. */
  function PairTriangles(g: Graph, i: int, j: int): seq<seq<int>>
    decreases j - i
  {
    if j <= i + 1 then []
    else PairTriangles(g, i, j - 1) + RowTriangles(g, i, j - 1, |g.vertices|)
  }

  /** The triangles `[a, b, c]` with `a < i`, in lexicographic order. */
  function AllTriangles(g: Graph, i: int): seq<seq<int>>
    decreases i
  {
    if i <= 0 then []
    else AllTriangles(g, i - 1) + PairTriangles(g, i - 1, |g.vertices|)
  }

  /** Every triangle of the network, in lexicographic order. */
  function Triangles(g: Graph): (r: seq<seq<int>>)
    ensures forall t :: t in r ==> IsTriangle(g, t)
  {
    AllFacts(g, |g.vertices|);
    AllTriangles(g, |g.vertices|)
  }

  lemma {:induction false} RowFacts(g: Graph, i: int, j: int, k: int)
    ensures forall t :: t in RowTriangles(g, i, j, k) ==> IsTriangle(g, t) && t[0] == i && t[1] == j && t[2] < k
    decreases k - j
  {
    if k > j + 1 {
      RowFacts(g, i, j, k - 1);
    }
  }

  lemma {:induction false} PairFacts(g: Graph, i: int, j: int)
    ensures forall t :: t in PairTriangles(g, i, j) ==> IsTriangle(g, t) && t[0] == i && t[1] < j
    decreases j - i
  {
    if j > i + 1 {
      PairFacts(g, i, j - 1);
      RowFacts(g, i, j - 1, |g.vertices|);
    }
  }

  lemma {:induction false} AllFacts(g: Graph, i: int)
    ensures forall t :: t in AllTriangles(g, i) ==> IsTriangle(g, t) && t[0] < i
    decreases i
  {
    if i > 0 {
      AllFacts(g, i - 1);
      PairFacts(g, i - 1, |g.vertices|);
    }
  }

  lemma {:induction false} RowComplete(g: Graph, i: int, j: int, k: int, t: seq<int>)
    requires IsTriangle(g, t) && t[0] == i && t[1] == j && t[2] < k
    ensures t in RowTriangles(g, i, j, k)
    decreases k - j
  {
    if k > j + 1 {
      if t[2] < k - 1 {
        RowComplete(g, i, j, k - 1, t);
      } else {
        assert t == [i, j, k - 1];
      }
    }
  }

  lemma {:induction false} PairComplete(g: Graph, i: int, j: int, t: seq<int>)
    requires IsTriangle(g, t) && t[0] == i && t[1] < j
    ensures t in PairTriangles(g, i, j)
    decreases j - i
  {
    if j > i + 1 {
      if t[1] < j - 1 {
        PairComplete(g, i, j - 1, t);
      } else {
        RowComplete(g, i, j - 1, |g.vertices|, t);
      }
    }
  }

  lemma {:induction false} AllComplete(g: Graph, i: int, t: seq<int>)
    requires IsTriangle(g, t) && t[0] < i
    ensures t in AllTriangles(g, i)
    decreases i
  {
    if i > 0 {
      if t[0] < i - 1 {
        AllComplete(g, i - 1, t);
      } else {
        PairComplete(g, i - 1, |g.vertices|, t);
      }
    }
  }

  /** Every triangle is listed. */
  lemma TrianglesComplete(g: Graph, t: seq<int>)
    requires IsTriangle(g, t)
    ensures t in Triangles(g)
  {
    AllComplete(g, |g.vertices|, t);
  }

  /** Two sorted lists, every entry of the first before every entry of the second. */
  lemma ConcatSorted(a: seq<seq<int>>, b: seq<seq<int>>)
    requires LexSorted(a) && LexSorted(b)
    requires forall s, t :: s in a && t in b ==> LexLess(s, t)
    ensures LexSorted(a + b)
  {
    forall p, q | 0 <= p < q < |a + b|
      ensures LexLess((a + b)[p], (a + b)[q])
    {
      if q < |a| {
        assert LexLess(a[p], a[q]);
      } else if p >= |a| {
        assert LexLess(b[p - |a|], b[q - |a|]);
      } else {
        assert a[p] in a && b[q - |a|] in b;
      }
    }
  }

  lemma {:induction false} RowSorted(g: Graph, i: int, j: int, k: int)
    ensures LexSorted(RowTriangles(g, i, j, k))
    decreases k - j
  {
    if k > j + 1 {
      RowSorted(g, i, j, k - 1);
      RowFacts(g, i, j, k - 1);
      ConcatSorted(RowTriangles(g, i, j, k - 1),
        if IsTriangle(g, [i, j, k - 1]) then [[i, j, k - 1]] else []);
    }
  }

  lemma {:induction false} PairSorted(g: Graph, i: int, j: int)
    ensures LexSorted(PairTriangles(g, i, j))
    decreases j - i
  {
    if j > i + 1 {
      PairSorted(g, i, j - 1);
      RowSorted(g, i, j - 1, |g.vertices|);
      PairFacts(g, i, j - 1);
      RowFacts(g, i, j - 1, |g.vertices|);
      ConcatSorted(PairTriangles(g, i, j - 1), RowTriangles(g, i, j - 1, |g.vertices|));
    }
  }

  lemma {:induction false} AllSorted(g: Graph, i: int)
    ensures LexSorted(AllTriangles(g, i))
    decreases i
  {
    if i > 0 {
      AllSorted(g, i - 1);
      PairSorted(g, i - 1, |g.vertices|);
      AllFacts(g, i - 1);
      PairFacts(g, i - 1, |g.vertices|);
      ConcatSorted(AllTriangles(g, i - 1), PairTriangles(g, i - 1, |g.vertices|));
    }
  }

  /** The triangles come in strictly increasing lexicographic order, so none twice. */
  lemma TrianglesSorted(g: Graph)
    ensures LexSorted(Triangles(g))
    ensures forall p, q :: 0 <= p < q < |Triangles(g)| ==> Triangles(g)[p] != Triangles(g)[q]
  {
    AllSorted(g, |g.vertices|);
  }

  /** One more third index: the triangle `[i, j, k]` is added when the search's test
      passes. */
  lemma RowStep(g: Graph, i: int, j: int, k: int)
    requires WellFormed(g) && 0 <= i < j < k < |g.vertices|
    ensures RowTriangles(g, i, j, k + 1) ==
      RowTriangles(g, i, j, k) + (if g.edges[i][j] && g.edges[j][k] && g.edges[k][i] then [[i, j, k]] else [])
  {
    assert IsTriangle(g, [i, j, k]) <==> g.edges[i][j] && g.edges[j][k] && g.edges[k][i];
  }

  /** Appending after a concatenation appends to its second part. */
  lemma AppendAssoc(a: seq<seq<int>>, b: seq<seq<int>>, x: seq<int>)
    ensures a + b + [x] == a + (b + [x])
  {
  }

  /** Three computers linked in a ring are the one group of three; with one link missing
      there is none. */
  lemma RingExample()
    ensures Triangles(Graph(["ab", "cd", "ef"],
      [[false, true, true], [true, false, true], [true, true, false]])) == [[0, 1, 2]]
    ensures Triangles(Graph(["ab", "cd", "ef"],
      [[false, true, false], [true, false, true], [false, true, false]])) == []
  {
    var ring := Graph(["ab", "cd", "ef"], [[false, true, true], [true, false, true], [true, true, false]]);
    assert IsTriangle(ring, [0, 1, 2]);
    assert RowTriangles(ring, 0, 1, 3) == [[0, 1, 2]];
    var path := Graph(["ab", "cd", "ef"], [[false, true, false], [true, false, true], [false, true, false]]);
    assert !IsTriangle(path, [0, 1, 2]);
    assert RowTriangles(path, 0, 1, 3) == [];
  }

  /** The search over all `i < j < k`, as index triples. */
  method FindInterconnectedComputersOfSize3Indices(g: Graph) returns (groups: seq<seq<int>>)
    requires WellFormed(g)
    ensures groups == Triangles(g)
  {
    groups := [];
    for i := 0 to |g.vertices|
      invariant groups == AllTriangles(g, i)
    {
      for j := i + 1 to |g.vertices|
        invariant groups == AllTriangles(g, i) + PairTriangles(g, i, j)
      {
        ghost var before := groups;
        for k := j + 1 to |g.vertices|
          invariant groups == before + RowTriangles(g, i, j, k)
        {
          RowStep(g, i, j, k);
          if g.edges[i][j] && g.edges[j][k] && g.edges[k][i] {
            AppendAssoc(before, RowTriangles(g, i, j, k), [i, j, k]);
            groups := groups + [[i, j, k]];
          }
        }
      }
    }
  }

  /** The names of each group of indices. */
  function NamesList(g: Graph, ts: seq<seq<int>>): (r: seq<seq<string>>)
    ensures |r| == |ts| && forall p :: 0 <= p < |ts| ==> r[p] == Names(g, ts[p])
  {
    seq(|ts|, p requires 0 <= p < |ts| => Names(g, ts[p]))
  }

  /** Naming one more triple adds its three names. */
  lemma NamesListAppend(g: Graph, ts: seq<seq<int>>, i: int, j: int, k: int)
    requires 0 <= i < |g.vertices| && 0 <= j < |g.vertices| && 0 <= k < |g.vertices|
    ensures NamesList(g, ts + [[i, j, k]]) == NamesList(g, ts) + [[g.vertices[i], g.vertices[j], g.vertices[k]]]
  {
    assert Names(g, [i, j, k]) == [g.vertices[i], g.vertices[j], g.vertices[k]];
  }

  /** The same search, giving the names of each group. */
  method FindInterconnectedComputersOfSize3(g: Graph) returns (groups: seq<seq<string>>)
    requires WellFormed(g)
    ensures groups == NamesList(g, Triangles(g))
  {
    groups := [];
    ghost var found: seq<seq<int>> := [];
    for i := 0 to |g.vertices|
      invariant found == AllTriangles(g, i) && groups == NamesList(g, found)
    {
      for j := i + 1 to |g.vertices|
        invariant found == AllTriangles(g, i) + PairTriangles(g, i, j) && groups == NamesList(g, found)
      {
        ghost var before := found;
        for k := j + 1 to |g.vertices|
          invariant found == before + RowTriangles(g, i, j, k) && groups == NamesList(g, found)
        {
          RowStep(g, i, j, k);
          if g.edges[i][j] && g.edges[j][k] && g.edges[k][i] {
            NamesListAppend(g, found, i, j, k);
            AppendAssoc(before, RowTriangles(g, i, j, k), [i, j, k]);
            groups := groups + [[g.vertices[i], g.vertices[j], g.vertices[k]]];
            found := found + [[i, j, k]];
          }
        }
      }
    }
  }

  // ----- Part 1 ------------------------------------------------------------------------

  /** Some name in the group starts with `letter`. */
  predicate HasLetter(vertices: seq<string>, letter: string) {
    exists p :: 0 <= p < |vertices| && HasPrefix(vertices[p], letter)
  }

  /** Whether any computer of the group has a name starting with `letter`. */
  method DoesTheComputerGroupContainLetter(vertices: seq<string>, letter: string) returns (r: bool)
    ensures r <==> HasLetter(vertices, letter)
  {
    for p := 0 to |vertices|
      invariant forall q :: 0 <= q < p ==> !HasPrefix(vertices[q], letter)
    {
      if HasPrefix(vertices[p], letter) {
        return true;
      }
    }
    return false;
  }

  /** How many of the groups have a name starting with `letter`. */
  function CountWithLetter(groups: seq<seq<string>>, letter: string): nat {
    if groups == [] then 0
    else CountWithLetter(groups[..|groups| - 1], letter) + (if HasLetter(groups[|groups| - 1], letter) then 1 else 0)
  }

  /** The groups among `ts` with a name starting with `letter`. */
  ghost function WithLetter(g: Graph, ts: seq<seq<int>>, letter: string): set<seq<int>> {
    set t | t in ts && HasLetter(Names(g, t), letter)
  }

  /** No entry is listed twice. */
  predicate Distinct<T(==)>(s: seq<T>) {
    forall p, q :: 0 <= p < q < |s| ==> s[p] != s[q]
  }

  /** One more group adds itself to the set when it has the letter. */
  lemma WithLetterAppend(g: Graph, front: seq<seq<int>>, t: seq<int>, letter: string)
    ensures WithLetter(g, front + [t], letter) ==
      WithLetter(g, front, letter) + (if HasLetter(Names(g, t), letter) then {t} else {})
  {
    assert forall u :: u in front + [t] <==> u in front || u == t;
  }

  /** Counting a list of distinct groups counts the set of groups with the letter. */
  lemma {:induction false} CountIsCardinality(g: Graph, ts: seq<seq<int>>, letter: string)
    requires Distinct(ts)
    ensures CountWithLetter(NamesList(g, ts), letter) == |WithLetter(g, ts, letter)|
    decreases |ts|
  {
    if ts != [] {
      var m := |ts| - 1;
      var front := ts[..m];
      assert Distinct(front);
      CountIsCardinality(g, front, letter);
      assert NamesList(g, ts)[..m] == NamesList(g, front);
      assert ts == front + [ts[m]];
      assert ts[m] !in front by {
        forall p | 0 <= p < m
          ensures front[p] != ts[m]
        {
        }
      }
      WithLetterAppend(g, front, ts[m], letter);
    } else {
      assert WithLetter(g, ts, letter) == {};
    }
  }

  /** Part 1: the number of groups of three with a name starting with "t". */
  method SolvePart1(g: Graph) returns (total: int)
    requires WellFormed(g)
    ensures total == |WithLetter(g, Triangles(g), "t")|
  {
    var connectedComputers := FindInterconnectedComputersOfSize3(g);
    total := 0;
    for p := 0 to |connectedComputers|
      invariant total == CountWithLetter(connectedComputers[..p], "t")
    {
      assert connectedComputers[..p + 1][..p] == connectedComputers[..p];
      var contains := DoesTheComputerGroupContainLetter(connectedComputers[p], "t");
      if contains {
        total := total + 1;
      }
    }
    assert connectedComputers[..|connectedComputers|] == connectedComputers;
    TrianglesSorted(g);
    CountIsCardinality(g, Triangles(g), "t");
  }

  // ----- Growing the groups ------------------------------------------------------------

  /** Every computer of `group` is linked to `v`, as the extension tests it. */
  predicate LinkedToAll(g: Graph, v: int, group: seq<int>) {
    forall p :: 0 <= p < |group| ==> Linked(g, v, group[p])
  }

  /** The values increase strictly. */
  predicate Increasing(s: seq<int>) {
    forall p, q :: 0 <= p < q < |s| ==> s[p] < s[q]
  }

  /** The indices from the group's last one onwards that are linked to every member, in
      ascending order. */
  method FindVerticesConnectingAll(g: Graph, group: seq<int>) returns (common: seq<int>)
    requires WellFormed(g) && |group| > 0 && InRange(g, group)
    ensures Increasing(common)
    ensures forall v :: v in common <==>
      group[|group| - 1] <= v < |g.vertices| && LinkedToAll(g, v, group)
  {
    common := [];
    var i := group[|group| - 1];
    while i < |g.vertices|
      invariant group[|group| - 1] <= i <= |g.vertices|
      invariant Increasing(common) && forall p :: 0 <= p < |common| ==> common[p] < i
      invariant forall v :: v in common <==> group[|group| - 1] <= v < i && LinkedToAll(g, v, group)
    {
      var allFound := true;
      for p := 0 to |group|
        invariant allFound && forall q :: 0 <= q < p ==> g.edges[i][group[q]]
      {
        if !g.edges[i][group[p]] {
          allFound := false;
          break;
        }
      }
      if allFound {
        common := common + [i];
      }
      i := i + 1;
    }
  }

  /** Strictly increasing indices of computers linked to each other both ways. */
  ghost predicate IsClique(g: Graph, c: seq<int>) {
    InRange(g, c) &&
    forall p, q :: 0 <= p < q < |c| ==> c[p] < c[q] && Linked(g, c[p], c[q]) && Linked(g, c[q], c[p])
  }

  /** A clique uses distinct computers, so it has at most as many members as the network. */
  lemma CliqueSize(g: Graph, c: seq<int>)
    requires IsClique(g, c)
    ensures |c| <= |g.vertices|
  {
    if |c| > 0 {
      var p := 0;
      while p < |c| - 1
        invariant 0 <= p <= |c| - 1 && c[p] >= p
      {
        p := p + 1;
      }
    }
  }

  /** The first members of a clique are a clique. */
  lemma CliquePrefix(g: Graph, c: seq<int>, m: int)
    requires IsClique(g, c) && 0 <= m <= |c|
    ensures IsClique(g, c[..m])
  {
    assert forall p :: 0 <= p < m ==> c[..m][p] == c[p];
  }

  /** In a symmetric network the triangles are exactly the cliques of three. */
  lemma TriangleIsClique(g: Graph, t: seq<int>)
    requires WellFormed(g) && Symmetric(g)
    ensures IsTriangle(g, t) <==> IsClique(g, t) && |t| == 3
  {
    if IsClique(g, t) && |t| == 3 {
      assert t[0] < t[1] && t[1] < t[2];
      assert Linked(g, t[2], t[0]);
    }
  }

  /** `groups` holds cliques of `k` members, and every such clique. */
  ghost predicate Generation(g: Graph, groups: seq<seq<int>>, k: int) {
    (forall c :: c in groups ==> IsClique(g, c) && |c| == k) &&
    (forall c :: IsClique(g, c) && |c| == k ==> c in groups)
  }

  /** The triangles are the first generation. */
  lemma TrianglesGeneration(g: Graph)
    requires WellFormed(g) && Symmetric(g)
    ensures Generation(g, Triangles(g), 3)
  {
    forall c | c in Triangles(g)
      ensures IsClique(g, c) && |c| == 3
    {
      TriangleIsClique(g, c);
    }
    forall c | IsClique(g, c) && |c| == 3
      ensures c in Triangles(g)
    {
      TriangleIsClique(g, c);
      TrianglesComplete(g, c);
    }
  }

  /** Extending a clique by a later computer linked to all its members gives a clique. */
  lemma ExtendClique(g: Graph, c: seq<int>, v: int)
    requires WellFormed(g) && Symmetric(g) && SelfLinksIsolated(g)
    requires IsClique(g, c) && |c| > 1
    requires c[|c| - 1] <= v < |g.vertices| && LinkedToAll(g, v, c)
    ensures IsClique(g, c + [v])
  {
    var d := c + [v];
    assert Linked(g, v, c[|c| - 1]) && Linked(g, v, c[0]);
    assert c[0] < c[|c| - 1];
    forall p, q | 0 <= p < q < |d|
      ensures d[p] < d[q] && Linked(g, d[p], d[q]) && Linked(g, d[q], d[p])
    {
      if q == |c| {
        assert Linked(g, v, c[p]);
        if p < |c| - 1 {
          assert c[p] < c[|c| - 1];
        }
      }
    }
  }

  /** A clique of `k + 1` members is its first `k` members extended by its last one. */
  lemma SplitClique(g: Graph, c: seq<int>, k: int)
    requires IsClique(g, c) && |c| == k + 1 && k > 0
    ensures IsClique(g, c[..k]) && c == c[..k] + [c[k]]
    ensures c[..k][k - 1] <= c[k] < |g.vertices| && LinkedToAll(g, c[k], c[..k])
  {
    CliquePrefix(g, c, k);
    assert c[k - 1] < c[k];
  }

  /** The state of building the next generation: `next` holds cliques of `k + 1` members,
      and every such clique whose first `k` members are among `done` is in `next`. */
  ghost predicate Extending(g: Graph, done: seq<seq<int>>, next: seq<seq<int>>, k: int) {
    (forall c :: c in next ==> IsClique(g, c) && |c| == k + 1) &&
    (forall c :: 0 <= k && |c| == k + 1 && IsClique(g, c) && c[..k] in done ==> c in next)
  }

  /** Adding every extension of one more group keeps the building state. */
  lemma ExtendingStep(g: Graph, groups: seq<seq<int>>, p: int, connected: seq<int>,
                      next: seq<seq<int>>, k: int)
    requires 0 <= p < |groups| && k > 0 && |groups[p]| == k
    requires Extending(g, groups[..p], next, k)
    requires forall v :: v in connected ==> groups[p] + [v] in next
    requires forall v :: v in connected <==>
      groups[p][k - 1] <= v < |g.vertices| && LinkedToAll(g, v, groups[p])
    ensures Extending(g, groups[..p + 1], next, k)
  {
    forall c | IsClique(g, c) && |c| == k + 1 && c[..k] in groups[..p + 1]
      ensures c in next
    {
      SplitClique(g, c, k);
      if c[..k] !in groups[..p] {
        assert groups[..p + 1] == groups[..p] + [groups[p]];
        assert c[..k] == groups[p];
        assert c[k] in connected;
      }
    }
  }

  /** Adding a clique of `k + 1` members keeps the building state. */
  lemma ExtendingAdd(g: Graph, done: seq<seq<int>>, next: seq<seq<int>>, c: seq<int>, k: int)
    requires Extending(g, done, next, k) && IsClique(g, c) && |c| == k + 1
    ensures Extending(g, done, next + [c], k)
  {
  }

  /** Once every group is extended, the cliques built are the next generation. */
  lemma ExtendingDone(g: Graph, groups: seq<seq<int>>, next: seq<seq<int>>, k: int)
    requires k > 0 && Generation(g, groups, k) && Extending(g, groups[..|groups|], next, k)
    ensures Generation(g, next, k + 1)
  {
    assert groups[..|groups|] == groups;
    forall c | IsClique(g, c) && |c| == k + 1
      ensures c in next
    {
      SplitClique(g, c, k);
    }
  }

  /** The next generation: every group extended by every later computer linked to all its
      members. */
  method NextGeneration(g: Graph, groups: seq<seq<int>>, ghost k: int) returns (next: seq<seq<int>>)
    requires WellFormed(g) && Symmetric(g) && SelfLinksIsolated(g)
    requires k > 1 && Generation(g, groups, k)
    ensures Generation(g, next, k + 1)
  {
    next := [];
    for p := 0 to |groups|
      invariant Extending(g, groups[..p], next, k)
    {
      var groupIndices := groups[p];
      assert groupIndices in groups;
      var connected := FindVerticesConnectingAll(g, groupIndices);
      for q := 0 to |connected|
        invariant Extending(g, groups[..p], next, k)
        invariant forall v :: v in connected[..q] ==> groupIndices + [v] in next
      {
        assert connected[q] in connected;
        ExtendClique(g, groupIndices, connected[q]);
        ExtendingAdd(g, groups[..p], next, groupIndices + [connected[q]], k);
        next := next + [groupIndices + [connected[q]]];
      }
      assert connected[..|connected|] == connected;
      ExtendingStep(g, groups, p, connected, next, k);
    }
    ExtendingDone(g, groups, next, k);
  }

  /** When no clique has `k + 1` members, none has more than `k`. */
  lemma NoLargerClique(g: Graph, k: int, d: seq<int>)
    requires k >= 0 && Generation(g, [], k + 1) && IsClique(g, d)
    ensures |d| <= k
  {
    if |d| > k {
      CliquePrefix(g, d, k + 1);
    }
  }

  /** The names of the computers at `indices`, joined by commas. */
  method GetTextFromIndices(g: Graph, indices: seq<int>) returns (text: string)
    requires InRange(g, indices)
    ensures text == Join(Names(g, indices), ',')
  {
    text := "";
    for i := 0 to |indices|
      invariant text == Join(Names(g, indices[..i]), ',')
    {
      assert InRange(g, indices[..i + 1]);
      assert Names(g, indices[..i + 1]) == Names(g, indices[..i]) + [g.vertices[indices[i]]];
      if i == 0 {
        text := text + g.vertices[indices[i]];
      } else {
        JoinAppend(Names(g, indices[..i]), g.vertices[indices[i]], ',');
        text := text + "," + g.vertices[indices[i]];
      }
    }
    assert indices[..|indices|] == indices;
  }

  /** Joining one more part adds the separator and the part. */
  lemma {:induction false} JoinAppend(parts: seq<string>, x: string, sep: char)
    requires parts != []
    ensures Join(parts + [x], sep) == Join(parts, sep) + [sep] + x
    decreases |parts|
  {
    if |parts| > 1 {
      JoinAppend(parts[1..], x, sep);
      assert (parts + [x])[1..] == parts[1..] + [x];
    }
  }

  /** Names without commas can be read back from the joined text. */
  lemma {:induction false} SplitJoin(parts: seq<string>, sep: char)
    requires parts != [] && forall p :: 0 <= p < |parts| ==> sep !in parts[p]
    ensures Split(Join(parts, sep), sep) == parts
    decreases |parts|
  {
    if |parts| == 1 {
      SplitNoSeparator(parts[0], sep);
    } else {
      SplitJoin(parts[1..], sep);
      SplitFirst(parts[0], sep, Join(parts[1..], sep));
    }
  }

  // ----- Part 2 ------------------------------------------------------------------------

  /** Part 2: the names of a largest group of mutually linked computers, joined by commas.
      The search starts from the triangles, so at least one must exist. */
  method SolvePart2(g: Graph) returns (text: string)
    requires WellFormed(g) && Symmetric(g) && SelfLinksIsolated(g)
    requires Triangles(g) != []
    ensures exists c :: IsClique(g, c) && |c| >= 3 && text == Join(Names(g, c), ',') &&
                        (forall d :: IsClique(g, d) ==> |d| <= |c|)
  {
    var groupsOfNIndices := FindInterconnectedComputersOfSize3Indices(g);
    ghost var k := 3;
    TrianglesGeneration(g);
    while true
      invariant groupsOfNIndices != [] && k >= 3 && Generation(g, groupsOfNIndices, k)
      decreases |g.vertices| - k
    {
      var nextGroupsOfIndices := NextGeneration(g, groupsOfNIndices, k);
      if |nextGroupsOfIndices| == 0 {
        var best := groupsOfNIndices[0];
        assert best in groupsOfNIndices;
        text := GetTextFromIndices(g, best);
        forall d | IsClique(g, d)
          ensures |d| <= |best|
        {
          NoLargerClique(g, k, d);
        }
        return;
      }
      assert nextGroupsOfIndices[0] in nextGroupsOfIndices;
      CliqueSize(g, nextGroupsOfIndices[0]);
      groupsOfNIndices := nextGroupsOfIndices;
      k := k + 1;
    }
  }

  // ----- Reading the input -------------------------------------------------------------

  /** Go's string order: character by character, a proper prefix first. */
  predicate StrLess(a: string, b: string)
    decreases |a|
  {
    if a == [] then b != []
    else if b == [] then false
    else if a[0] != b[0] then a[0] < b[0]
    else StrLess(a[1..], b[1..])
  }

  /** No string comes before itself. */
  lemma {:induction false} StrLessIrreflexive(a: string)
    ensures !StrLess(a, a)
    decreases |a|
  {
    if a != [] {
      StrLessIrreflexive(a[1..]);
    }
  }

  /** The order is transitive. */
  lemma {:induction false} StrLessTransitive(a: string, b: string, c: string)
    requires StrLess(a, b) && StrLess(b, c)
    ensures StrLess(a, c)
    decreases |a|
  {
    if a != [] && a[0] == b[0] && b[0] == c[0] {
      StrLessTransitive(a[1..], b[1..], c[1..]);
    }
  }

  /** Two different strings are ordered one way or the other. */
  lemma {:induction false} StrLessTotal(a: string, b: string)
    requires a != b
    ensures StrLess(a, b) || StrLess(b, a)
    decreases |a|
  {
    if a != [] && b != [] && a[0] == b[0] {
      assert a == [a[0]] + a[1..] && b == [b[0]] + b[1..];
      StrLessTotal(a[1..], b[1..]);
    }
  }

  /** The names are in strictly increasing order. */
  predicate StrictlySorted(s: seq<string>) {
    forall p, q :: 0 <= p < q < |s| ==> StrLess(s[p], s[q])
  }

  /** `x` inserted into `s` before the first name it precedes. */
  function InsertName(x: string, s: seq<string>): (r: seq<string>)
    ensures multiset(r) == multiset(s) + multiset{x}
  {
    if s == [] then [x]
    else if StrLess(x, s[0]) then [x] + s
    else
      assert s == [s[0]] + s[1..];
      [s[0]] + InsertName(x, s[1..])
  }

  /** A name before the first of a sorted list is before all of them. */
  lemma BeforeAll(x: string, s: seq<string>)
    requires StrictlySorted(s) && s != [] && StrLess(x, s[0])
    ensures StrictlySorted([x] + s)
  {
    var r := [x] + s;
    forall p, q | 0 <= p < q < |r|
      ensures StrLess(r[p], r[q])
    {
      if p == 0 && q > 1 {
        StrLessTransitive(x, s[0], s[q - 1]);
      }
    }
  }

  /** Every name of the inserted list is `x` or one of `s`. */
  lemma InsertNameFrom(x: string, s: seq<string>, q: int)
    requires 0 <= q < |InsertName(x, s)|
    ensures InsertName(x, s)[q] == x || InsertName(x, s)[q] in s
  {
    assert InsertName(x, s)[q] in multiset(InsertName(x, s));
  }

  /** Inserting a new name into a sorted list keeps it sorted. */
  lemma {:induction false} InsertNameSorted(x: string, s: seq<string>)
    requires StrictlySorted(s) && x !in s
    ensures StrictlySorted(InsertName(x, s))
    decreases |s|
  {
    if s == [] {
    } else if StrLess(x, s[0]) {
      BeforeAll(x, s);
    } else {
      StrLessTotal(x, s[0]);
      InsertNameSorted(x, s[1..]);
      var rest := InsertName(x, s[1..]);
      forall q | 0 <= q < |rest|
        ensures StrLess(s[0], rest[q])
      {
        InsertNameFrom(x, s[1..], q);
        if rest[q] != x {
          var k :| 0 <= k < |s[1..]| && s[1..][k] == rest[q];
          assert s[k + 1] == rest[q];
        }
      }
      var r := [s[0]] + rest;
      assert InsertName(x, s) == r;
      forall p, q | 0 <= p < q < |r|
        ensures StrLess(r[p], r[q])
      {
        if p > 0 {
          assert r[p] == rest[p - 1] && r[q] == rest[q - 1];
        }
      }
    }
  }

  /** `slices.Sort` on the names, by inserting them one by one. */
  function SortNames(s: seq<string>): (r: seq<string>)
    ensures multiset(r) == multiset(s)
  {
    if s == [] then []
    else
      assert s == s[..|s| - 1] + [s[|s| - 1]];
      InsertName(s[|s| - 1], SortNames(s[..|s| - 1]))
  }

  /** Sorting distinct names orders them strictly. */
  lemma {:induction false} SortNamesSorted(s: seq<string>)
    requires Distinct(s)
    ensures StrictlySorted(SortNames(s))
    decreases |s|
  {
    if s != [] {
      var front := s[..|s| - 1];
      SortNamesSorted(front);
      assert s[|s| - 1] !in front by {
        forall p | 0 <= p < |front|
          ensures front[p] != s[|s| - 1]
        {
        }
      }
      assert s[|s| - 1] !in multiset(SortNames(front));
      InsertNameSorted(s[|s| - 1], SortNames(front));
    }
  }

  /** Sorting keeps exactly the same names. */
  lemma SortNamesSame(s: seq<string>)
    ensures forall v :: v in SortNames(s) <==> v in s
  {
    forall v
      ensures v in SortNames(s) <==> v in s
    {
      assert v in SortNames(s) <==> v in multiset(SortNames(s));
      assert v in s <==> v in multiset(s);
    }
  }

  /** A strictly sorted list names no computer twice. */
  lemma SortedDistinct(s: seq<string>)
    requires StrictlySorted(s)
    ensures Distinct(s)
  {
    forall p, q | 0 <= p < q < |s|
      ensures s[p] != s[q]
    {
      StrLessIrreflexive(s[p]);
    }
  }

  /** The two names of a line `a-b`: the text before and after the first '-'. */
  function Endpoints(line: string): (string, string) {
    var cut := Cut(line, "-");
    (cut.0, cut.1)
  }

  /** The link of every input line. */
  function Links(input: string): (r: seq<(string, string)>)
    ensures |r| == |Split(input, '\n')|
    ensures forall l :: 0 <= l < |r| ==> r[l] == Endpoints(Split(input, '\n')[l])
  {
    var lines := Split(input, '\n');
    seq(|lines|, l requires 0 <= l < |lines| => Endpoints(lines[l]))
  }

  /** The links of the first `l + 1` lines. */
  lemma LinksPrefix(input: string, l: int)
    requires 0 <= l < |Split(input, '\n')|
    ensures Links(input)[..l + 1] == Links(input)[..l] + [Endpoints(Split(input, '\n')[l])]
  {
  }

  /** `v` is one end of some link. */
  predicate Named(links: seq<(string, string)>, v: string) {
    exists l :: 0 <= l < |links| && (links[l].0 == v || links[l].1 == v)
  }

  /** `a` and `b` are linked by some line, either way round. */
  predicate Listed(links: seq<(string, string)>, a: string, b: string) {
    exists l :: 0 <= l < |links| && (links[l] == (a, b) || links[l] == (b, a))
  }

  lemma NamedStep(links: seq<(string, string)>, e: (string, string), v: string)
    ensures Named(links + [e], v) <==> Named(links, v) || e.0 == v || e.1 == v
  {
    var all := links + [e];
    if Named(links, v) {
      var l :| 0 <= l < |links| && (links[l].0 == v || links[l].1 == v);
      assert all[l] == links[l];
    }
    if e.0 == v || e.1 == v {
      assert all[|links|] == e;
    }
    if Named(all, v) {
      var l :| 0 <= l < |all| && (all[l].0 == v || all[l].1 == v);
      if l < |links| {
        assert all[l] == links[l];
      }
    }
  }

  lemma ListedStep(links: seq<(string, string)>, m: int, a: string, b: string)
    requires 0 <= m < |links|
    ensures Listed(links[..m + 1], a, b) <==>
      Listed(links[..m], a, b) || links[m] == (a, b) || links[m] == (b, a)
  {
    var all := links[..m + 1];
    if Listed(links[..m], a, b) {
      var l :| 0 <= l < m && (links[..m][l] == (a, b) || links[..m][l] == (b, a));
      assert all[l] == links[l];
    }
    if links[m] == (a, b) || links[m] == (b, a) {
      assert all[m] == links[m];
    }
  }

  /** The matrix is `n` by `n`. */
  predicate Square(matrix: seq<seq<bool>>, n: int) {
    |matrix| == n && forall a :: 0 <= a < n ==> |matrix[a]| == n
  }

  /** `matrix` with the entry in row `i`, column `j` set. */
  function Mark(matrix: seq<seq<bool>>, n: int, i: int, j: int): (r: seq<seq<bool>>)
    requires Square(matrix, n) && 0 <= i < n && 0 <= j < n
    ensures Square(r, n)
    ensures forall a, b :: 0 <= a < n && 0 <= b < n ==> r[a][b] == (matrix[a][b] || (a == i && b == j))
  {
    matrix[i := matrix[i][j := true]]
  }

  /** The state of filling the matrix: an entry is set exactly when the first `m` links
      join its two names. */
  ghost predicate Filled(matrix: seq<seq<bool>>, vertices: seq<string>, links: seq<(string, string)>, m: int)
    requires 0 <= m <= |links|
  {
    Square(matrix, |vertices|) &&
    forall a, b :: 0 <= a < |vertices| && 0 <= b < |vertices| ==>
      (matrix[a][b] <==> Listed(links[..m], vertices[a], vertices[b]))
  }

  /** Marking both entries of link `m` moves the filling on. */
  lemma FillStep(matrix: seq<seq<bool>>, vertices: seq<string>, links: seq<(string, string)>, m: int,
                 i1: int, i2: int)
    requires 0 <= m < |links| && Distinct(vertices) && Filled(matrix, vertices, links, m)
    requires 0 <= i1 < |vertices| && vertices[i1] == links[m].0
    requires 0 <= i2 < |vertices| && vertices[i2] == links[m].1
    ensures Filled(Mark(Mark(matrix, |vertices|, i1, i2), |vertices|, i2, i1), vertices, links, m + 1)
  {
    var n := |vertices|;
    var r := Mark(Mark(matrix, n, i1, i2), n, i2, i1);
    forall a, b | 0 <= a < n && 0 <= b < n
      ensures r[a][b] <==> Listed(links[..m + 1], vertices[a], vertices[b])
    {
      ListedStep(links, m, vertices[a], vertices[b]);
      if links[m] == (vertices[a], vertices[b]) {
        SameName(vertices, a, i1);
        SameName(vertices, b, i2);
      }
      if links[m] == (vertices[b], vertices[a]) {
        SameName(vertices, b, i1);
        SameName(vertices, a, i2);
      }
    }
  }

  /** In a list of distinct names, equal names sit at the same position. */
  lemma SameName(vertices: seq<string>, a: int, b: int)
    requires Distinct(vertices) && 0 <= a < |vertices| && 0 <= b < |vertices|
    requires vertices[a] == vertices[b]
    ensures a == b
  {
  }

  /** Adding the names of link `e` that are new keeps the names those of the links. */
  lemma CollectStep(edges: seq<(string, string)>, vertices: seq<string>, e: (string, string),
                    next: seq<string>)
    requires forall v :: v in vertices <==> Named(edges, v)
    requires forall v :: v in next <==> v in vertices || v == e.0 || v == e.1
    ensures forall v :: v in next <==> Named(edges + [e], v)
  {
    forall v
      ensures v in next <==> Named(edges + [e], v)
    {
      NamedStep(edges, e, v);
    }
  }

  /** The network of the input: the distinct names in sorted order and the matrix with
      an entry set, both ways, for every line `a-b`. */
  method ReadInput(input: string) returns (g: Graph)
    ensures WellFormed(g) && StrictlySorted(g.vertices)
    ensures forall v :: v in g.vertices <==> Named(Links(input), v)
    ensures forall a, b :: 0 <= a < |g.vertices| && 0 <= b < |g.vertices| ==>
      (g.edges[a][b] <==> Listed(Links(input), g.vertices[a], g.vertices[b]))
  {
    var lines := Split(input, '\n');
    var edges: seq<(string, string)> := [];
    var vertices: seq<string> := [];
    for l := 0 to |lines|
      invariant edges == Links(input)[..l]
      invariant Distinct(vertices) && forall v :: v in vertices <==> Named(edges, v)
    {
      var cut := Cut(lines[l], "-");
      var v1, v2 := cut.0, cut.1;
      ghost var before := vertices;
      if v1 !in vertices {
        vertices := vertices + [v1];
      }
      if v2 !in vertices {
        vertices := vertices + [v2];
      }
      CollectStep(edges, before, (v1, v2), vertices);
      LinksPrefix(input, l);
      edges := edges + [(v1, v2)];
    }
    assert edges == Links(input);
    ghost var names := vertices;
    SortNamesSorted(vertices);
    vertices := SortNames(vertices);
    SortedDistinct(vertices);
    SortNamesSame(names);
    var n := |vertices|;
    var matrix := seq(n, _ => seq(n, _ => false));
    for m := 0 to |edges|
      invariant Filled(matrix, vertices, edges, m)
    {
      assert Named(edges, edges[m].0) && Named(edges, edges[m].1);
      var v1Index := Index(vertices, edges[m].0);
      var v2Index := Index(vertices, edges[m].1);
      FillStep(matrix, vertices, edges, m, v1Index, v2Index);
      matrix := Mark(matrix, n, v1Index, v2Index);
      matrix := Mark(matrix, n, v2Index, v1Index);
    }
    assert edges[..|edges|] == edges;
    g := Graph(vertices, matrix);
  }

  /** The network read from any input records every link both ways. */
  lemma ReadInputSymmetric(input: string, g: Graph)
    requires WellFormed(g)
    requires forall a, b :: 0 <= a < |g.vertices| && 0 <= b < |g.vertices| ==>
      (g.edges[a][b] <==> Listed(Links(input), g.vertices[a], g.vertices[b]))
    ensures Symmetric(g)
  {
    forall a, b | 0 <= a < |g.vertices| && 0 <= b < |g.vertices| && Linked(g, a, b)
      ensures Linked(g, b, a)
    {
      var l :| 0 <= l < |Links(input)| &&
        (Links(input)[l] == (g.vertices[a], g.vertices[b]) || Links(input)[l] == (g.vertices[b], g.vertices[a]));
      assert Listed(Links(input), g.vertices[b], g.vertices[a]);
    }
  }
}
