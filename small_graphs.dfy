/**
 * The reference semantics on two small undirected graphs whose betweenness
 * values are known: a single edge, where no node lies between two others,
 * and the path 0 - 1 - 2, where the middle node lies on the one shortest
 * path between the two ends. The program prints cb[w] / 2 (`Halves`), so
 * the path's printed values are 0, 1 and 0. Each search is traced through
 * the states `Bfs` passes through, one discovery at a time.
 */
module SmallGraphs {
  import opened DenseGraph
  import opened BrandesSpec

  /** The single edge 0 - 1, both directions stored. */
  const Edge: Matrix := [[0, 1], [1, 0]]

  /** The path 0 - 1 - 2, both directions of each edge stored. */
  const Path: Matrix := [[0, 1, 0], [1, 0, 1], [0, 1, 0]]

  /** The scan of a row of two columns, column by column. */
  lemma ScanRow2(m: Matrix, v: nat, st: BState)
    requires Shaped(st, 2) && v < 2
    ensures ScanFrom(m, 2, v, 0, st) == ScanStep(m, 2, v, 1, ScanStep(m, 2, v, 0, st))
  {
    var a := ScanStep(m, 2, v, 0, st);
    assert ScanFrom(m, 2, v, 1, a) == ScanFrom(m, 2, v, 2, ScanStep(m, 2, v, 1, a));
  }

  /** The scan of a row of three columns, column by column. */
  lemma ScanRow3(m: Matrix, v: nat, st: BState)
    requires Shaped(st, 3) && v < 3
    ensures ScanFrom(m, 3, v, 0, st) == ScanStep(m, 3, v, 2, ScanStep(m, 3, v, 1, ScanStep(m, 3, v, 0, st)))
  {
    var a := ScanStep(m, 3, v, 0, st);
    var b := ScanStep(m, 3, v, 1, a);
    assert ScanFrom(m, 3, v, 1, a) == ScanFrom(m, 3, v, 2, b);
    assert ScanFrom(m, 3, v, 2, b) == ScanFrom(m, 3, v, 3, ScanStep(m, 3, v, 2, b));
  }

  lemma EdgeSquare(m: Matrix)
    requires m == Edge
    ensures IsSquare(m, 2)
  {
  }

  lemma PathSquare(m: Matrix)
    requires m == Path
    ensures IsSquare(m, 3)
  {
  }

  /** The betweenness on two nodes: the gains from both sources. */
  lemma SumOfTwo(m: Matrix, w: nat)
    requires IsSquare(m, 2) && w < 2
    ensures Betweenness(m, 2, w) == Gain(m, 2, 0, w) + Gain(m, 2, 1, w)
  {
    SumGainStep(m, 2, 0, 0, w);
    SumGainStep(m, 2, 0, 1, w);
  }

  /** The betweenness on three nodes: the gains from the three sources. */
  lemma SumOfThree(m: Matrix, w: nat)
    requires IsSquare(m, 3) && w < 3
    ensures Betweenness(m, 3, w) == Gain(m, 3, 0, w) + Gain(m, 3, 1, w) + Gain(m, 3, 2, w)
  {
    SumGainStep(m, 3, 0, 0, w);
    SumGainStep(m, 3, 0, 1, w);
    SumGainStep(m, 3, 0, 2, w);
  }

  // The single edge.

  lemma EdgeInit(s: nat, i: BState)
    requires s < 2 && i == Init(2, s)
    ensures s == 0 ==> i == BState([0], [0, -1], [1, 0], [[], []])
    ensures s == 1 ==> i == BState([1], [-1, 0], [0, 1], [[], []])
  {
    if s == 0 {
      assert i.d == [0, -1] && i.sigma == [1, 0] && i.P == [[], []];
    } else {
      assert i.d == [-1, 0] && i.sigma == [0, 1] && i.P == [[], []];
    }
  }

  /** 0 discovers 1. */
  lemma EdgeFind1(m: Matrix, st: BState)
    requires m == Edge && st == BState([0], [0, -1], [1, 0], [[], []])
    ensures ScanStep(m, 2, 0, 1, st) == BState([0, 1], [0, 1], [1, 1], [[], [0]])
  {
    var r := ScanStep(m, 2, 0, 1, st);
    assert r.order == [0, 1] && r.d == [0, 1] && r.sigma == [1, 1];
    assert r.P[0] == [] && r.P[1] == [0];
    assert r.P == [[], [0]];
  }

  /** 1 discovers 0. */
  lemma EdgeFind0(m: Matrix, st: BState)
    requires m == Edge && st == BState([1], [-1, 0], [0, 1], [[], []])
    ensures ScanStep(m, 2, 1, 0, st) == BState([1, 0], [1, 0], [1, 1], [[1], []])
  {
    var r := ScanStep(m, 2, 1, 0, st);
    assert r.order == [1, 0] && r.d == [1, 0] && r.sigma == [1, 1];
    assert r.P[0] == [1] && r.P[1] == [];
    assert r.P == [[1], []];
  }

  lemma EdgeSearch0(m: Matrix)
    requires m == Edge
    ensures Bfs(m, 2, 0) == BState([0, 1], [0, 1], [1, 1], [[], [0]])
  {
    var i := Init(2, 0);
    EdgeInit(0, i);
    var r := BState([0, 1], [0, 1], [1, 1], [[], [0]]);
    ScanRow2(m, 0, i);
    EdgeFind1(m, i);
    ScanRow2(m, 1, r);
    assert Drive(m, 2, 0, i) == Drive(m, 2, 1, r);
    assert Drive(m, 2, 1, r) == Drive(m, 2, 2, r);
  }

  lemma EdgeSearch1(m: Matrix)
    requires m == Edge
    ensures Bfs(m, 2, 1) == BState([1, 0], [1, 0], [1, 1], [[1], []])
  {
    var i := Init(2, 1);
    EdgeInit(1, i);
    var r := BState([1, 0], [1, 0], [1, 1], [[1], []]);
    ScanRow2(m, 1, i);
    EdgeFind0(m, i);
    ScanRow2(m, 0, r);
    assert Drive(m, 2, 0, i) == Drive(m, 2, 1, r);
    assert Drive(m, 2, 1, r) == Drive(m, 2, 2, r);
  }

  /** Neither node of the edge is a predecessor of a node after it, so nothing flows back. */
  lemma EdgeDeps(st: BState)
    requires st == BState([0, 1], [0, 1], [1, 1], [[], [0]]) || st == BState([1, 0], [1, 0], [1, 1], [[1], []])
    ensures Divisible(2, st) && DepFrom(2, st, st.order[1], 0) == 0.0
  {
  }

  /** On a single edge neither node lies between two others. */
  lemma EdgeBetweenness(m: Matrix)
    requires m == Edge
    ensures Betweenness(m, 2, 0) == 0.0 && Betweenness(m, 2, 1) == 0.0
  {
    EdgeSquare(m);
    SumOfTwo(m, 0);
    SumOfTwo(m, 1);
    EdgeSearch0(m);
    EdgeSearch1(m);
    EdgeDeps(Bfs(m, 2, 0));
    EdgeDeps(Bfs(m, 2, 1));
  }

  // The path.

  lemma PathInit(s: nat, i: BState)
    requires s < 3 && i == Init(3, s)
    ensures s == 0 ==> i == BState([0], [0, -1, -1], [1, 0, 0], [[], [], []])
    ensures s == 1 ==> i == BState([1], [-1, 0, -1], [0, 1, 0], [[], [], []])
    ensures s == 2 ==> i == BState([2], [-1, -1, 0], [0, 0, 1], [[], [], []])
  {
    assert i.P == [[], [], []];
    if s == 0 {
      assert i.d == [0, -1, -1] && i.sigma == [1, 0, 0];
    } else if s == 1 {
      assert i.d == [-1, 0, -1] && i.sigma == [0, 1, 0];
    } else {
      assert i.d == [-1, -1, 0] && i.sigma == [0, 0, 1];
    }
  }

  /** From 0: 0 discovers 1. */
  lemma PathFind1From0(m: Matrix, st: BState)
    requires m == Path && st == BState([0], [0, -1, -1], [1, 0, 0], [[], [], []])
    ensures ScanStep(m, 3, 0, 1, st) == BState([0, 1], [0, 1, -1], [1, 1, 0], [[], [0], []])
  {
    var r := ScanStep(m, 3, 0, 1, st);
    assert r.order == [0, 1] && r.d == [0, 1, -1] && r.sigma == [1, 1, 0];
    assert r.P[0] == [] && r.P[1] == [0] && r.P[2] == [];
    assert r.P == [[], [0], []];
  }

  /** From 0: 1 discovers 2. */
  lemma PathFind2From0(m: Matrix, st: BState)
    requires m == Path && st == BState([0, 1], [0, 1, -1], [1, 1, 0], [[], [0], []])
    ensures ScanStep(m, 3, 1, 2, st) == BState([0, 1, 2], [0, 1, 2], [1, 1, 1], [[], [0], [1]])
  {
    var r := ScanStep(m, 3, 1, 2, st);
    assert r.order == [0, 1, 2] && r.d == [0, 1, 2] && r.sigma == [1, 1, 1];
    assert r.P[0] == [] && r.P[1] == [0] && r.P[2] == [1];
    assert r.P == [[], [0], [1]];
  }

  /** From 0 the nodes are met in the order 0, 1, 2, each on exactly one shortest path. */
  lemma PathSearch0(m: Matrix)
    requires m == Path
    ensures Bfs(m, 3, 0) == BState([0, 1, 2], [0, 1, 2], [1, 1, 1], [[], [0], [1]])
  {
    var i := Init(3, 0);
    PathInit(0, i);
    var a := BState([0, 1], [0, 1, -1], [1, 1, 0], [[], [0], []]);
    var r := BState([0, 1, 2], [0, 1, 2], [1, 1, 1], [[], [0], [1]]);
    ScanRow3(m, 0, i);
    PathFind1From0(m, i);
    ScanRow3(m, 1, a);
    PathFind2From0(m, a);
    ScanRow3(m, 2, r);
    assert Drive(m, 3, 0, i) == Drive(m, 3, 1, a);
    assert Drive(m, 3, 1, a) == Drive(m, 3, 2, r);
    assert Drive(m, 3, 2, r) == Drive(m, 3, 3, r);
  }

  /** From 1: 1 discovers 0. */
  lemma PathFind0From1(m: Matrix, st: BState)
    requires m == Path && st == BState([1], [-1, 0, -1], [0, 1, 0], [[], [], []])
    ensures ScanStep(m, 3, 1, 0, st) == BState([1, 0], [1, 0, -1], [1, 1, 0], [[1], [], []])
  {
    var r := ScanStep(m, 3, 1, 0, st);
    assert r.order == [1, 0] && r.d == [1, 0, -1] && r.sigma == [1, 1, 0];
    assert r.P[0] == [1] && r.P[1] == [] && r.P[2] == [];
    assert r.P == [[1], [], []];
  }

  /** From 1: 1 discovers 2. */
  lemma PathFind2From1(m: Matrix, st: BState)
    requires m == Path && st == BState([1, 0], [1, 0, -1], [1, 1, 0], [[1], [], []])
    ensures ScanStep(m, 3, 1, 2, st) == BState([1, 0, 2], [1, 0, 1], [1, 1, 1], [[1], [], [1]])
  {
    var r := ScanStep(m, 3, 1, 2, st);
    assert r.order == [1, 0, 2] && r.d == [1, 0, 1] && r.sigma == [1, 1, 1];
    assert r.P[0] == [1] && r.P[1] == [] && r.P[2] == [1];
    assert r.P == [[1], [], [1]];
  }

  /** From 1 both ends are one level down, each on one shortest path. */
  lemma PathSearch1(m: Matrix)
    requires m == Path
    ensures Bfs(m, 3, 1) == BState([1, 0, 2], [1, 0, 1], [1, 1, 1], [[1], [], [1]])
  {
    var i := Init(3, 1);
    PathInit(1, i);
    var a := BState([1, 0], [1, 0, -1], [1, 1, 0], [[1], [], []]);
    var r := BState([1, 0, 2], [1, 0, 1], [1, 1, 1], [[1], [], [1]]);
    ScanRow3(m, 1, i);
    PathFind0From1(m, i);
    PathFind2From1(m, a);
    ScanRow3(m, 0, r);
    ScanRow3(m, 2, r);
    assert Drive(m, 3, 0, i) == Drive(m, 3, 1, r);
    assert Drive(m, 3, 1, r) == Drive(m, 3, 2, r);
    assert Drive(m, 3, 2, r) == Drive(m, 3, 3, r);
  }

  /** From 2: 2 discovers 1. */
  lemma PathFind1From2(m: Matrix, st: BState)
    requires m == Path && st == BState([2], [-1, -1, 0], [0, 0, 1], [[], [], []])
    ensures ScanStep(m, 3, 2, 1, st) == BState([2, 1], [-1, 1, 0], [0, 1, 1], [[], [2], []])
  {
    var r := ScanStep(m, 3, 2, 1, st);
    assert r.order == [2, 1] && r.d == [-1, 1, 0] && r.sigma == [0, 1, 1];
    assert r.P[0] == [] && r.P[1] == [2] && r.P[2] == [];
    assert r.P == [[], [2], []];
  }

  /** From 2: 1 discovers 0. */
  lemma PathFind0From2(m: Matrix, st: BState)
    requires m == Path && st == BState([2, 1], [-1, 1, 0], [0, 1, 1], [[], [2], []])
    ensures ScanStep(m, 3, 1, 0, st) == BState([2, 1, 0], [2, 1, 0], [1, 1, 1], [[1], [2], []])
  {
    var r := ScanStep(m, 3, 1, 0, st);
    assert r.order == [2, 1, 0] && r.d == [2, 1, 0] && r.sigma == [1, 1, 1];
    assert r.P[0] == [1] && r.P[1] == [2] && r.P[2] == [];
    assert r.P == [[1], [2], []];
  }

  /** From 2 the nodes are met in the order 2, 1, 0: the mirror image of the search from 0. */
  lemma PathSearch2(m: Matrix)
    requires m == Path
    ensures Bfs(m, 3, 2) == BState([2, 1, 0], [2, 1, 0], [1, 1, 1], [[1], [2], []])
  {
    var i := Init(3, 2);
    PathInit(2, i);
    var a := BState([2, 1], [-1, 1, 0], [0, 1, 1], [[], [2], []]);
    var r := BState([2, 1, 0], [2, 1, 0], [1, 1, 1], [[1], [2], []]);
    ScanRow3(m, 2, i);
    PathFind1From2(m, i);
    ScanRow3(m, 1, a);
    PathFind0From2(m, a);
    ScanRow3(m, 0, r);
    assert Drive(m, 3, 0, i) == Drive(m, 3, 1, a);
    assert Drive(m, 3, 1, a) == Drive(m, 3, 2, r);
    assert Drive(m, 3, 2, r) == Drive(m, 3, 3, r);
  }

  /**
   * From end 0 the middle node has the one path through it to end 2: it
   * receives sigma[1] / sigma[2] (1 + delta[2]) = 1 from 2, which itself
   * receives nothing.
   */
  lemma PathDepsFrom0(st: BState)
    requires st == BState([0, 1, 2], [0, 1, 2], [1, 1, 1], [[], [0], [1]])
    ensures Divisible(3, st)
    ensures DepFrom(3, st, 1, 0) == 1.0 && DepFrom(3, st, 2, 0) == 0.0
  {
    assert Dep(3, st, 2) == 0.0;
    assert DepFrom(3, st, 1, 2) == Portion(1, 1, 0.0);
  }

  /** The mirror image: from end 2 the middle node receives 1 from end 0. */
  lemma PathDepsFrom2(st: BState)
    requires st == BState([2, 1, 0], [2, 1, 0], [1, 1, 1], [[1], [2], []])
    ensures Divisible(3, st)
    ensures DepFrom(3, st, 1, 0) == 1.0 && DepFrom(3, st, 0, 0) == 0.0
  {
    assert Dep(3, st, 2) == 0.0;
    assert DepFrom(3, st, 1, 2) == Portion(1, 1, 0.0);
  }

  /** From the middle both ends are leaves of the search and receive nothing. */
  lemma PathDepsFromMiddle(st: BState)
    requires st == BState([1, 0, 2], [1, 0, 1], [1, 1, 1], [[1], [], [1]])
    ensures Divisible(3, st)
    ensures DepFrom(3, st, 0, 0) == 0.0 && DepFrom(3, st, 2, 0) == 0.0
  {
  }

  /** From either end the middle node passes the one path on to the other end. */
  lemma PathMiddleGains(m: Matrix)
    requires m == Path
    ensures Gain(m, 3, 0, 1) == 1.0 && Gain(m, 3, 1, 1) == 0.0 && Gain(m, 3, 2, 1) == 1.0
  {
    PathSearch0(m);
    PathSearch2(m);
    PathDepsFrom0(Bfs(m, 3, 0));
    PathDepsFrom2(Bfs(m, 3, 2));
  }

  /** The middle node lies on the one shortest path between the ends, counted once from each end. */
  lemma PathMiddle(m: Matrix)
    requires m == Path
    ensures Betweenness(m, 3, 1) == 2.0
  {
    PathSquare(m);
    SumOfThree(m, 1);
    PathMiddleGains(m);
  }

  /** No shortest path runs through end 0, whichever node the search starts from. */
  lemma PathEnd0(m: Matrix)
    requires m == Path
    ensures Betweenness(m, 3, 0) == 0.0
  {
    PathSquare(m);
    SumOfThree(m, 0);
    PathSearch1(m);
    PathSearch2(m);
    PathDepsFromMiddle(Bfs(m, 3, 1));
    PathDepsFrom2(Bfs(m, 3, 2));
  }

  /** No shortest path runs through end 2, whichever node the search starts from. */
  lemma PathEnd2(m: Matrix)
    requires m == Path
    ensures Betweenness(m, 3, 2) == 0.0
  {
    PathSquare(m);
    SumOfThree(m, 2);
    PathSearch0(m);
    PathSearch1(m);
    PathDepsFrom0(Bfs(m, 3, 0));
    PathDepsFromMiddle(Bfs(m, 3, 1));
  }

  /** The program prints 1 for the middle node of the path, cb[1] / 2, and 0 for both ends. */
  lemma PathBetweenness(m: Matrix)
    requires m == Path
    ensures Betweenness(m, 3, 1) / 2.0 == 1.0
    ensures Betweenness(m, 3, 0) / 2.0 == 0.0 && Betweenness(m, 3, 2) / 2.0 == 0.0
  {
    PathMiddle(m);
    PathEnd0(m);
    PathEnd2(m);
  }
}
