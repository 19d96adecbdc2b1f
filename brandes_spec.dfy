/**
 * The reference semantics of one source's Brandes pass over a dense 0/1
 * adjacency matrix, and what it guarantees. The breadth-first search is
 * written as a step function over a value state (visit order, d, sigma and
 * the predecessor lists): `ScanStep` is one column of the neighbour scan of
 * a dequeued node, `ScanFrom` the rest of that scan, `Drive` the rest of the
 * queue loop. The invariants `QueueInv` and `ScanInv` hold of every state
 * the search goes through; the back-propagation is specified by the
 * dependency recurrence `Dep`.
 */
module BrandesSpec {
  import opened DenseGraph

  /** Cell (x, t) of the matrix holds an edge: the scan of row x visits column t. */
  predicate Adj(m: Matrix, x: int, t: int) {
    0 <= x < |m| && 0 <= t < |m[x]| && m[x][t] != 0
  }

  ghost predicate InRange(xs: seq<int>, n: nat) {
    forall i :: 0 <= i < |xs| ==> 0 <= xs[i] < n
  }

  ghost predicate Distinct(xs: seq<int>) {
    forall i, j :: 0 <= i < j < |xs| ==> xs[i] != xs[j]
  }

  /**
   * The bookkeeping of one source's pass. `order` lists the nodes in the
   * order they were pushed onto Q; since each node enters Q once, Q is a
   * suffix of it and S (filled with pushFront) is its processed prefix reversed.
   */
  datatype BState = BState(order: seq<int>, d: seq<int>, sigma: seq<int>, P: seq<seq<int>>)

  ghost predicate Shaped(st: BState, n: nat) {
    |st.d| == n && |st.sigma| == n && |st.P| == n && InRange(st.order, n)
  }

  /** The state after the reset for source s: only s is known, at distance 0 with one path. */
  function Init(n: nat, s: nat): (r: BState)
    requires s < n
    ensures Shaped(r, n)
  {
    BState([s], seq(n, t => if t == s then 0 else -1), seq(n, t => if t == s then 1 else 0), seq(n, t => []))
  }

  /** v discovers w: w is queued one level below v. */
  function Discover(st: BState, n: nat, v: nat, w: nat): (r: BState)
    requires Shaped(st, n) && v < n && w < n
    ensures Shaped(r, n)
  {
    st.(order := st.order + [w], d := st.d[w := st.d[v] + 1])
  }

  /** v is a predecessor of w: w gains v's path count and v is appended to P[w]. */
  function Accumulate(st: BState, n: nat, v: nat, w: nat): (r: BState)
    requires Shaped(st, n) && v < n && w < n
    ensures Shaped(r, n)
  {
    st.(sigma := st.sigma[w := st.sigma[w] + st.sigma[v]], P := st.P[w := st.P[w] + [v]])
  }

  /**
   * Column w of the scan of node v: an unseen neighbour is discovered, and
   * a neighbour one level below v is accumulated.
   */
  function ScanStep(m: Matrix, n: nat, v: nat, w: nat, st: BState): (r: BState)
    requires Shaped(st, n) && v < n && w < n
    ensures Shaped(r, n)
    ensures |st.order| <= |r.order| && r.order[..|st.order|] == st.order
  {
    if !Adj(m, v, w) then st
    else
      var st1 := if st.d[w] < 0 then Discover(st, n, v, w) else st;
      if st1.d[v] + 1 == st1.d[w] then Accumulate(st1, n, v, w) else st1
  }

  /** The scan of row v from column w to the end. */
  function ScanFrom(m: Matrix, n: nat, v: nat, w: nat, st: BState): (r: BState)
    requires Shaped(st, n) && v < n && w <= n
    ensures Shaped(r, n)
    ensures |st.order| <= |r.order| && r.order[..|st.order|] == st.order
    decreases n - w
  {
    if w == n then st else ScanFrom(m, n, v, w + 1, ScanStep(m, n, v, w, st))
  }

  /**
   * The queue loop from the state in which k nodes have been dequeued. The
   * guard k >= n never decides anything (`OrderBound`: at most n nodes are
   * ever queued); it only makes termination evident.
   */
  function Drive(m: Matrix, n: nat, k: nat, st: BState): (r: BState)
    requires Shaped(st, n) && k <= |st.order|
    ensures Shaped(r, n)
    decreases n - k
  {
    if k >= |st.order| || k >= n then st
    else Drive(m, n, k + 1, ScanFrom(m, n, st.order[k], 0, st))
  }

  /** The state the breadth-first search from s ends in. */
  function Bfs(m: Matrix, n: nat, s: nat): (r: BState)
    requires s < n
    ensures Shaped(r, n)
  {
    Drive(m, n, 0, Init(n, s))
  }

  /** The sum of sigma over a predecessor list. */
  function SumOver(sigma: seq<int>, ps: seq<int>): int
    requires InRange(ps, |sigma|)
  {
    if ps == [] then 0 else SumOver(sigma, ps[..|ps| - 1]) + sigma[ps[|ps| - 1]]
  }

  // ---------------------------------------------------------------------
  // The invariants of the search
  // ---------------------------------------------------------------------

  /** Which nodes are known, and what unknown nodes look like. */
  ghost predicate Visited(n: nat, s: nat, st: BState)
  {
    Shaped(st, n) && s < n && |st.order| >= 1 && st.order[0] == s && Distinct(st.order) &&
    (forall t :: 0 <= t < n ==> (st.d[t] >= 0 <==> t in st.order)) &&
    (forall t :: 0 <= t < n && st.d[t] < 0 ==> st.d[t] == -1 && st.sigma[t] == 0 && st.P[t] == []) &&
    (forall t :: 0 <= t < n && st.d[t] >= 0 ==> st.sigma[t] >= 1) &&
    st.d[s] == 0 && st.sigma[s] == 1 && st.P[s] == []
  }

  /** Distances never decrease along the visit order, which is the order nodes leave Q. */
  ghost predicate Sorted(n: nat, st: BState)
    requires Shaped(st, n)
  {
    forall i, j :: 0 <= i < j < |st.order| ==> st.d[st.order[i]] <= st.d[st.order[j]]
  }

  /** No known node is more than one level below order[f]. */
  ghost predicate Within(n: nat, st: BState, f: nat)
    requires Shaped(st, n)
  {
    f < |st.order| ==> forall j :: 0 <= j < |st.order| ==> st.d[st.order[j]] <= st.d[st.order[f]] + 1
  }

  ghost predicate Layered(n: nat, st: BState, f: nat)
    requires Shaped(st, n)
  {
    Sorted(n, st) && Within(n, st, f)
  }

  /** Every predecessor recorded for t is a dequeued node with an edge to t, one level above t. */
  ghost predicate PredsSound(m: Matrix, n: nat, st: BState, k: nat)
    requires Shaped(st, n) && k <= |st.order|
  {
    forall t :: 0 <= t < n ==>
      Distinct(st.P[t]) &&
      forall i :: 0 <= i < |st.P[t]| ==>
        st.P[t][i] in st.order[..k] && Adj(m, st.P[t][i], t) && st.d[st.P[t][i]] + 1 == st.d[t]
  }

  /**
   * Columns below `upto` of row x have been scanned: each neighbour is
   * known, at most one level below x, and recorded if exactly one level below.
   */
  ghost predicate Scanned(m: Matrix, n: nat, st: BState, x: int, upto: nat)
    requires Shaped(st, n) && 0 <= x < n
  {
    forall t :: 0 <= t < upto && t < n && Adj(m, x, t) ==>
      st.d[t] >= 0 && st.d[t] <= st.d[x] + 1 && (st.d[x] + 1 == st.d[t] ==> x in st.P[t])
  }

  ghost predicate AllScanned(m: Matrix, n: nat, st: BState, k: nat)
    requires Shaped(st, n) && k <= |st.order|
  {
    forall j :: 0 <= j < k ==> Scanned(m, n, st, st.order[j], n)
  }

  /** The node being scanned is in no predecessor list at or after column w. */
  ghost predicate NotYetListed(n: nat, st: BState, v: int, w: nat)
    requires Shaped(st, n)
  {
    forall t :: w <= t < n ==> v !in st.P[t]
  }

  /** Every known node other than s has as many paths as its predecessors together. */
  ghost predicate Counted(n: nat, s: nat, st: BState)
    requires Shaped(st, n)
  {
    forall t :: 0 <= t < n && st.d[t] >= 0 && t != s ==>
      InRange(st.P[t], n) && st.sigma[t] == SumOver(st.sigma, st.P[t])
  }

  /** The state at the test of the queue loop, with k nodes dequeued. */
  ghost predicate QueueInv(m: Matrix, n: nat, s: nat, st: BState, k: nat)
  {
    IsSquare(m, n) && Visited(n, s, st) && k <= |st.order| &&
    Layered(n, st, k) && PredsSound(m, n, st, k) && AllScanned(m, n, st, k) && Counted(n, s, st)
  }

  /** The state inside the scan of v = order[k - 1], with columns below w done. */
  ghost predicate ScanInv(m: Matrix, n: nat, s: nat, st: BState, k: nat, w: nat)
  {
    IsSquare(m, n) && Visited(n, s, st) && 1 <= k <= |st.order| && w <= n &&
    Layered(n, st, k - 1) && PredsSound(m, n, st, k) && AllScanned(m, n, st, k - 1) &&
    Scanned(m, n, st, st.order[k - 1], w) && NotYetListed(n, st, st.order[k - 1], w) &&
    Counted(n, s, st)
  }

  // ---------------------------------------------------------------------
  // The invariants hold from the reset to the end of the search
  // ---------------------------------------------------------------------

  /** Changing sigma at a node that is not in ps leaves the sum over ps alone. */
  lemma {:induction false} SumOverFrame(sigma: seq<int>, ps: seq<int>, i: nat, x: int)
    requires InRange(ps, |sigma|) && i < |sigma| && i !in ps
    ensures SumOver(sigma[i := x], ps) == SumOver(sigma, ps)
  {
    if ps != [] {
      assert ps[..|ps| - 1] + [ps[|ps| - 1]] == ps;
      SumOverFrame(sigma, ps[..|ps| - 1], i, x);
    }
  }

  lemma SumOverAppend(sigma: seq<int>, ps: seq<int>, x: nat)
    requires InRange(ps, |sigma|) && x < |sigma|
    ensures InRange(ps + [x], |sigma|)
    ensures SumOver(sigma, ps + [x]) == SumOver(sigma, ps) + sigma[x]
  {
    assert (ps + [x])[..|ps|] == ps;
  }

  lemma InitQueueInv(m: Matrix, n: nat, s: nat)
    requires IsSquare(m, n) && s < n
    ensures QueueInv(m, n, s, Init(n, s), 0)
  {
  }

  /** The node being scanned is known and one of the first k queued. */
  lemma ScannedNodeKnown(n: nat, s: nat, st: BState, k: nat)
    requires Visited(n, s, st) && 1 <= k <= |st.order|
    ensures st.d[st.order[k - 1]] >= 0
    ensures st.order[k - 1] in st.order[..k]
  {
    assert st.order[..k][k - 1] == st.order[k - 1];
  }

  /** Dequeuing order[k] makes it a possible predecessor, listed nowhere yet. */
  lemma PredsWiden(m: Matrix, n: nat, st: BState, k: nat)
    requires Shaped(st, n) && k < |st.order| && Distinct(st.order) && PredsSound(m, n, st, k)
    ensures PredsSound(m, n, st, k + 1) && NotYetListed(n, st, st.order[k], 0)
  {
    assert st.order[..k + 1] == st.order[..k] + [st.order[k]];
    assert st.order[k] !in st.order[..k];
  }

  /** Dequeuing order[k] starts the scan of its row. */
  lemma StartScan(m: Matrix, n: nat, s: nat, st: BState, k: nat)
    requires QueueInv(m, n, s, st, k) && k < |st.order|
    ensures ScanInv(m, n, s, st, k + 1, 0)
  {
    PredsWiden(m, n, st, k);
    var k1 := k + 1;
    assert k1 - 1 == k;
  }

  lemma WithinAdvance(n: nat, st: BState, k: nat)
    requires Shaped(st, n) && 1 <= k <= |st.order| && Sorted(n, st) && Within(n, st, k - 1)
    ensures Within(n, st, k)
  {
    if k < |st.order| {
      assert st.d[st.order[k - 1]] <= st.d[st.order[k]];
    }
  }

  lemma AllScannedAdvance(m: Matrix, n: nat, st: BState, k: nat)
    requires Shaped(st, n) && 1 <= k <= |st.order|
    requires AllScanned(m, n, st, k - 1) && Scanned(m, n, st, st.order[k - 1], n)
    ensures AllScanned(m, n, st, k)
  {
  }

  /** A finished scan of order[k - 1] leaves k nodes dequeued and fully scanned. */
  lemma EndScan(m: Matrix, n: nat, s: nat, st: BState, k: nat)
    requires ScanInv(m, n, s, st, k, n)
    ensures QueueInv(m, n, s, st, k)
  {
    WithinAdvance(n, st, k);
    AllScannedAdvance(m, n, st, k);
  }

  /** Column w needs no update when it holds no edge, or a known neighbour not one level below v. */
  lemma SkipRow(n: nat, m: Matrix, st: BState, k: nat, w: nat)
    requires Shaped(st, n) && 1 <= k <= |st.order| && w < n
    requires forall t :: 0 <= t < n ==> (st.d[t] >= 0 <==> t in st.order)
    requires Within(n, st, k - 1)
    requires Scanned(m, n, st, st.order[k - 1], w) && NotYetListed(n, st, st.order[k - 1], w)
    requires var v := st.order[k - 1];
             !Adj(m, v, w) || (st.d[w] >= 0 && st.d[v] + 1 != st.d[w])
    ensures Scanned(m, n, st, st.order[k - 1], w + 1) && NotYetListed(n, st, st.order[k - 1], w + 1)
  {
    var v := st.order[k - 1];
    if Adj(m, v, w) {
      var j :| 0 <= j < |st.order| && st.order[j] == w;
      assert st.d[st.order[j]] <= st.d[st.order[k - 1]] + 1;
    }
  }

  lemma ScanSkip(m: Matrix, n: nat, s: nat, st: BState, k: nat, w: nat)
    requires ScanInv(m, n, s, st, k, w) && w < n
    requires var v := st.order[k - 1];
             !Adj(m, v, w) || (st.d[w] >= 0 && st.d[v] + 1 != st.d[w])
    ensures ScanInv(m, n, s, st, k, w + 1)
  {
    SkipRow(n, m, st, k, w);
  }

  /** A node below the level of the node being scanned is nobody's predecessor yet. */
  lemma NotYetPredecessor(m: Matrix, n: nat, st: BState, k: nat, w: nat)
    requires Shaped(st, n) && 1 <= k <= |st.order| && Sorted(n, st) && PredsSound(m, n, st, k)
    requires w < n && st.d[w] > st.d[st.order[k - 1]]
    ensures forall t :: 0 <= t < n ==> w !in st.P[t]
  {
    forall t | 0 <= t < n
      ensures w !in st.P[t]
    {
      forall i | 0 <= i < |st.P[t]|
        ensures st.P[t][i] != w
      {
        var x := st.P[t][i];
        assert x in st.order[..k];
        var j :| 0 <= j < k && st.order[..k][j] == x;
        assert st.order[j] == x;
        if j < k - 1 {
          assert st.d[st.order[j]] <= st.d[st.order[k - 1]];
        }
      }
    }
  }

  lemma AccumulateVisited(n: nat, s: nat, st: BState, k: nat, v: nat, w: nat)
    requires Visited(n, s, st) && 1 <= k <= |st.order| && v == st.order[k - 1] && w < n
    requires st.d[w] >= 0 && st.d[v] + 1 == st.d[w]
    ensures Visited(n, s, Accumulate(st, n, v, w))
  {
    ScannedNodeKnown(n, s, st, k);
  }

  lemma AccumulatePreds(m: Matrix, n: nat, st: BState, k: nat, v: nat, w: nat)
    requires Shaped(st, n) && 1 <= k <= |st.order| && v == st.order[k - 1] && v < n && w < n
    requires PredsSound(m, n, st, k) && v !in st.P[w] && Adj(m, v, w) && st.d[v] + 1 == st.d[w]
    ensures PredsSound(m, n, Accumulate(st, n, v, w), k)
  {
    var r := Accumulate(st, n, v, w);
    assert v in st.order[..k] by { assert st.order[..k][k - 1] == v; }
    forall t | 0 <= t < n
      ensures Distinct(r.P[t]) &&
              forall i :: 0 <= i < |r.P[t]| ==>
                r.P[t][i] in r.order[..k] && Adj(m, r.P[t][i], t) && r.d[r.P[t][i]] + 1 == r.d[t]
    {
      if t == w {
        assert r.P[t] == st.P[w] + [v];
        forall i | 0 <= i < |r.P[t]|
          ensures r.P[t][i] in r.order[..k] && Adj(m, r.P[t][i], t) && r.d[r.P[t][i]] + 1 == r.d[t]
        {
          if i < |st.P[w]| {
            assert r.P[t][i] == st.P[w][i];
          }
        }
      }
    }
  }

  lemma AccumulateScanned(m: Matrix, n: nat, st: BState, k: nat, v: nat, w: nat)
    requires Shaped(st, n) && 1 <= k <= |st.order| && v == st.order[k - 1] && v < n && w < n
    requires AllScanned(m, n, st, k - 1) && Scanned(m, n, st, v, w) && NotYetListed(n, st, v, w)
    requires Adj(m, v, w) && st.d[w] >= 0 && st.d[v] + 1 == st.d[w]
    ensures var r := Accumulate(st, n, v, w);
            AllScanned(m, n, r, k - 1) && Scanned(m, n, r, v, w + 1) && NotYetListed(n, r, v, w + 1)
  {
    var r := Accumulate(st, n, v, w);
    forall j | 0 <= j < k - 1
      ensures Scanned(m, n, r, r.order[j], n)
    {
      var x := st.order[j];
      assert Scanned(m, n, st, x, n);
      forall t | 0 <= t < n && Adj(m, x, t)
        ensures r.d[t] >= 0 && r.d[t] <= r.d[x] + 1 && (r.d[x] + 1 == r.d[t] ==> x in r.P[t])
      {
        if t == w && r.d[x] + 1 == r.d[t] {
          assert x in st.P[w];
          assert r.P[w] == st.P[w] + [v];
        }
      }
    }
    forall t | 0 <= t < w + 1 && t < n && Adj(m, v, t)
      ensures r.d[t] >= 0 && r.d[t] <= r.d[v] + 1 && (r.d[v] + 1 == r.d[t] ==> v in r.P[t])
    {
      if t == w {
        assert r.P[w] == st.P[w] + [v];
      } else if r.d[v] + 1 == r.d[t] {
        assert v in st.P[t];
      }
    }
  }

  lemma AccumulateCounted(n: nat, s: nat, st: BState, v: nat, w: nat)
    requires Shaped(st, n) && v < n && w < n
    requires Counted(n, s, st) && s < n && st.d[s] == 0
    requires forall t :: 0 <= t < n ==> w !in st.P[t]
    requires InRange(st.P[w], n) && st.sigma[w] == SumOver(st.sigma, st.P[w])
    requires st.d[v] >= 0 && st.d[v] + 1 == st.d[w]
    ensures Counted(n, s, Accumulate(st, n, v, w))
  {
    var r := Accumulate(st, n, v, w);
    var x := st.sigma[w] + st.sigma[v];
    assert r.sigma == st.sigma[w := x] && r.P == st.P[w := st.P[w] + [v]] && r.d == st.d;
    forall t | 0 <= t < n && r.d[t] >= 0 && t != s
      ensures InRange(r.P[t], n) && r.sigma[t] == SumOver(r.sigma, r.P[t])
    {
      if t == w {
        SumOverFrame(st.sigma, st.P[w], w, x);
        SumOverAppend(r.sigma, st.P[w], v);
      } else {
        assert InRange(st.P[t], n) && st.sigma[t] == SumOver(st.sigma, st.P[t]);
        SumOverFrame(st.sigma, st.P[t], w, x);
      }
    }
  }

  /** Only sigma and P differ: the layering carries over. */
  lemma LayersCarry(n: nat, st: BState, r: BState, f: nat)
    requires Shaped(st, n) && Shaped(r, n) && r.order == st.order && r.d == st.d && Layered(n, st, f)
    ensures Layered(n, r, f)
  {
  }

  /** The facts the accumulation of column w needs, with v = order[k - 1] the node being scanned. */
  ghost predicate AccReady(m: Matrix, n: nat, s: nat, st: BState, k: nat, v: nat, w: nat)
  {
    IsSquare(m, n) && Shaped(st, n) && s < n && 1 <= k <= |st.order| && v == st.order[k - 1] &&
    v < n && w < n && Adj(m, v, w) && st.d[w] >= 0 && st.d[v] >= 0 && st.d[v] + 1 == st.d[w] &&
    st.d[s] == 0 && Layered(n, st, k - 1) &&
    PredsSound(m, n, st, k) && AllScanned(m, n, st, k - 1) && Scanned(m, n, st, v, w) &&
    NotYetListed(n, st, v, w) &&
    (forall t :: 0 <= t < n ==> w !in st.P[t]) &&
    Counted(n, s, st) && InRange(st.P[w], n) && st.sigma[w] == SumOver(st.sigma, st.P[w])
  }

  lemma AccumulateInv(m: Matrix, n: nat, s: nat, st: BState, k: nat, v: nat, w: nat)
    requires AccReady(m, n, s, st, k, v, w) && Visited(n, s, Accumulate(st, n, v, w))
    ensures ScanInv(m, n, s, Accumulate(st, n, v, w), k, w + 1)
  {
    AccumulatePreds(m, n, st, k, v, w);
    AccumulateScanned(m, n, st, k, v, w);
    AccumulateCounted(n, s, st, v, w);
    LayersCarry(n, st, Accumulate(st, n, v, w), k - 1);
  }

  /** Column w holds a known neighbour one level below v: the invariant survives the accumulation. */
  lemma ScanAccumulate(m: Matrix, n: nat, s: nat, st: BState, k: nat, w: nat)
    requires ScanInv(m, n, s, st, k, w) && w < n
    requires var v := st.order[k - 1];
             Adj(m, v, w) && st.d[w] >= 0 && st.d[v] + 1 == st.d[w]
    ensures ScanInv(m, n, s, Accumulate(st, n, st.order[k - 1], w), k, w + 1)
  {
    var v := st.order[k - 1];
    AccumulateVisited(n, s, st, k, v, w);
    NotYetPredecessor(m, n, st, k, w);
    ScannedNodeKnown(n, s, st, k);
    assert AccReady(m, n, s, st, k, v, w);
    AccumulateInv(m, n, s, st, k, v, w);
  }

  lemma DiscoverVisited(n: nat, s: nat, st: BState, k: nat, v: nat, w: nat)
    requires Visited(n, s, st) && 1 <= k <= |st.order| && v == st.order[k - 1] && w < n
    requires st.d[w] < 0
    ensures Visited(n, s, Accumulate(Discover(st, n, v, w), n, v, w))
  {
    ScannedNodeKnown(n, s, st, k);
    var st1 := Discover(st, n, v, w);
    var r := Accumulate(st1, n, v, w);
    assert w !in st.order;
    forall t | 0 <= t < n
      ensures r.d[t] >= 0 <==> t in r.order
    {
      assert t in r.order <==> t in st.order || t == w;
    }
  }

  lemma DiscoverLayered(n: nat, s: nat, st: BState, k: nat, v: nat, w: nat)
    requires Visited(n, s, st) && 1 <= k <= |st.order| && v == st.order[k - 1] && w < n
    requires Layered(n, st, k - 1) && st.d[w] < 0
    ensures Layered(n, Discover(st, n, v, w), k - 1)
  {
    var r := Discover(st, n, v, w);
    assert w !in st.order;
    forall j | 0 <= j < |r.order|
      ensures r.d[r.order[j]] == (if j < |st.order| then st.d[st.order[j]] else st.d[v] + 1)
    {
      if j < |st.order| {
        assert r.order[j] == st.order[j] != w;
      }
    }
  }

  lemma DiscoverPreds(m: Matrix, n: nat, s: nat, st: BState, k: nat, v: nat, w: nat)
    requires Visited(n, s, st) && 1 <= k <= |st.order| && v == st.order[k - 1] && w < n
    requires PredsSound(m, n, st, k) && st.d[w] < 0
    ensures PredsSound(m, n, Discover(st, n, v, w), k)
    ensures forall t :: 0 <= t < n ==> w !in st.P[t]
  {
    var r := Discover(st, n, v, w);
    assert r.order[..k] == st.order[..k];
    assert w !in st.order;
    forall t, i | 0 <= t < n && 0 <= i < |st.P[t]|
      ensures st.P[t][i] != w
    {
      assert st.P[t][i] in st.order[..k];
    }
  }

  lemma DiscoverScanned(m: Matrix, n: nat, s: nat, st: BState, k: nat, v: nat, w: nat)
    requires Visited(n, s, st) && 1 <= k <= |st.order| && v == st.order[k - 1] && w < n
    requires AllScanned(m, n, st, k - 1) && Scanned(m, n, st, v, w) && st.d[w] < 0
    ensures var r := Discover(st, n, v, w);
            AllScanned(m, n, r, k - 1) && Scanned(m, n, r, v, w)
  {
    var r := Discover(st, n, v, w);
    ScannedNodeKnown(n, s, st, k);
    forall j | 0 <= j < k - 1
      ensures Scanned(m, n, r, r.order[j], n)
    {
      var x := st.order[j];
      assert r.order[j] == x && x != w;
      assert Scanned(m, n, st, x, n);
    }
  }

  lemma DiscoverCounted(n: nat, s: nat, st: BState, k: nat, v: nat, w: nat)
    requires Visited(n, s, st) && 1 <= k <= |st.order| && v == st.order[k - 1] && w < n
    requires Counted(n, s, st) && st.d[w] < 0
    ensures Counted(n, s, Discover(st, n, v, w))
  {
  }

  lemma DiscoverReady(m: Matrix, n: nat, s: nat, st: BState, k: nat, v: nat, w: nat)
    requires ScanInv(m, n, s, st, k, w) && w < n && v == st.order[k - 1]
    requires Adj(m, v, w) && st.d[w] < 0
    ensures AccReady(m, n, s, Discover(st, n, v, w), k, v, w)
  {
    ScannedNodeKnown(n, s, st, k);
    var st1 := Discover(st, n, v, w);
    assert st1.order[k - 1] == v && st1.P == st.P;
    DiscoverLayered(n, s, st, k, v, w);
    DiscoverPreds(m, n, s, st, k, v, w);
    DiscoverScanned(m, n, s, st, k, v, w);
    DiscoverCounted(n, s, st, k, v, w);
  }

  /** Column w holds an unseen neighbour: the invariant survives its discovery and accumulation. */
  lemma ScanDiscover(m: Matrix, n: nat, s: nat, st: BState, k: nat, w: nat)
    requires ScanInv(m, n, s, st, k, w) && w < n
    requires Adj(m, st.order[k - 1], w) && st.d[w] < 0
    ensures var v := st.order[k - 1];
            ScanInv(m, n, s, Accumulate(Discover(st, n, v, w), n, v, w), k, w + 1)
  {
    var v := st.order[k - 1];
    DiscoverReady(m, n, s, st, k, v, w);
    DiscoverVisited(n, s, st, k, v, w);
    AccumulateInv(m, n, s, Discover(st, n, v, w), k, v, w);
  }

  /** One column of the scan keeps the invariant. */
  lemma ScanStepInv(m: Matrix, n: nat, s: nat, st: BState, k: nat, w: nat)
    requires ScanInv(m, n, s, st, k, w) && w < n
    ensures ScanInv(m, n, s, ScanStep(m, n, st.order[k - 1], w, st), k, w + 1)
  {
    var v := st.order[k - 1];
    if !Adj(m, v, w) {
      ScanSkip(m, n, s, st, k, w);
    } else if st.d[w] < 0 {
      assert ScanStep(m, n, v, w, st) == Accumulate(Discover(st, n, v, w), n, v, w);
      ScanDiscover(m, n, s, st, k, w);
    } else if st.d[v] + 1 == st.d[w] {
      assert ScanStep(m, n, v, w, st) == Accumulate(st, n, v, w);
      ScanAccumulate(m, n, s, st, k, w);
    } else {
      ScanSkip(m, n, s, st, k, w);
    }
  }

  /** Any property one column of the scan of row v keeps, the rest of the scan keeps. */
  lemma {:induction false} ScanFromKeeps(m: Matrix, n: nat, v: nat, w: nat, st: BState, inv: (BState, nat) -> bool)
    requires v < n && w <= n && Shaped(st, n) && inv(st, w)
    requires forall t: BState, x: nat :: x < n && Shaped(t, n) && inv(t, x) ==> inv(ScanStep(m, n, v, x, t), x + 1)
    ensures inv(ScanFrom(m, n, v, w, st), n)
    decreases n - w
  {
    if w < n {
      ScanFromKeeps(m, n, v, w + 1, ScanStep(m, n, v, w, st), inv);
    }
  }

  /** Every column of the scan of row order[k - 1] keeps the scan invariant. */
  lemma ScanStepKeeps(m: Matrix, n: nat, s: nat, k: nat, v: nat)
    ensures forall t: BState, x: nat :: x < n && Shaped(t, n) && ScanInv(m, n, s, t, k, x) && t.order[k - 1] == v ==>
              ScanInv(m, n, s, ScanStep(m, n, v, x, t), k, x + 1) && ScanStep(m, n, v, x, t).order[k - 1] == v
  {
    forall t: BState, x: nat | x < n && Shaped(t, n) && ScanInv(m, n, s, t, k, x) && t.order[k - 1] == v
      ensures ScanInv(m, n, s, ScanStep(m, n, v, x, t), k, x + 1) && ScanStep(m, n, v, x, t).order[k - 1] == v
    {
      ScanStepInv(m, n, s, t, k, x);
      var t' := ScanStep(m, n, v, x, t);
      assert t'.order[k - 1] == t'.order[..|t.order|][k - 1];
    }
  }

  /** The rest of the scan of row order[k - 1] keeps the invariant. */
  lemma ScanFromInv(m: Matrix, n: nat, s: nat, st: BState, k: nat, w: nat)
    requires ScanInv(m, n, s, st, k, w)
    ensures ScanInv(m, n, s, ScanFrom(m, n, st.order[k - 1], w, st), k, n)
  {
    var v := st.order[k - 1];
    var inv := (t: BState, x: nat) => ScanInv(m, n, s, t, k, x) && t.order[k - 1] == v;
    ScanStepKeeps(m, n, s, k, v);
    ScanFromKeeps(m, n, v, w, st, inv);
  }

  /** The set of the elements of a sequence without repetitions has one element per position. */
  lemma {:induction false} DistinctCard(xs: seq<int>)
    requires Distinct(xs)
    ensures |set i | 0 <= i < |xs| :: xs[i]| == |xs|
  {
    if xs != [] {
      var init := xs[..|xs| - 1];
      DistinctCard(init);
      var a := set i | 0 <= i < |init| :: init[i];
      var b := set i | 0 <= i < |xs| :: xs[i];
      assert b == a + {xs[|xs| - 1]} by {
        forall x | x in b
          ensures x in a + {xs[|xs| - 1]}
        {
          var i :| 0 <= i < |xs| && xs[i] == x;
          if i < |xs| - 1 {
            assert init[i] == x;
          }
        }
      }
      assert xs[|xs| - 1] !in a;
    }
  }

  /** A set of naturals below n has at most n elements. */
  lemma {:induction false} RangeCard(xs: set<int>, n: nat)
    requires forall x :: x in xs ==> 0 <= x < n
    ensures |xs| <= n
  {
    if n > 0 {
      RangeCard(xs - {n - 1}, n - 1);
    } else {
      assert forall x :: x !in xs;
    }
  }

  /** Pigeonhole: a list of distinct nodes below n has at most n entries. */
  lemma OrderBound(xs: seq<int>, n: nat)
    requires Distinct(xs) && InRange(xs, n)
    ensures |xs| <= n
  {
    DistinctCard(xs);
    RangeCard(set i | 0 <= i < |xs| :: xs[i], n);
  }

  /** The rest of the queue loop keeps the invariant, and ends with every queued node dequeued. */
  lemma {:induction false} DriveInv(m: Matrix, n: nat, s: nat, st: BState, k: nat)
    requires QueueInv(m, n, s, st, k)
    ensures QueueInv(m, n, s, Drive(m, n, k, st), |Drive(m, n, k, st).order|)
    decreases n - k
  {
    OrderBound(st.order, n);
    if k < |st.order| && k < n {
      StartScan(m, n, s, st, k);
      ScanFromInv(m, n, s, st, k + 1, 0);
      var st' := ScanFrom(m, n, st.order[k], 0, st);
      EndScan(m, n, s, st', k + 1);
      DriveInv(m, n, s, st', k + 1);
    }
  }

  /** One round of the queue loop: dequeue order[k] and scan its row. */
  lemma DriveStep(m: Matrix, n: nat, s: nat, st: BState, k: nat)
    requires QueueInv(m, n, s, st, k) && k < |st.order|
    ensures k < n
    ensures var st' := ScanFrom(m, n, st.order[k], 0, st);
            QueueInv(m, n, s, st', k + 1) && Drive(m, n, k, st) == Drive(m, n, k + 1, st') &&
            k < |st'.order| && st'.order[k] == st.order[k] && st'.order[..k] == st.order[..k]
  {
    OrderBound(st.order, n);
    StartScan(m, n, s, st, k);
    ScanFromInv(m, n, s, st, k + 1, 0);
    var st' := ScanFrom(m, n, st.order[k], 0, st);
    EndScan(m, n, s, st', k + 1);
    assert st'.order[..|st.order|][..k] == st'.order[..k];
    assert st'.order[..|st.order|][k] == st'.order[k];
  }

  /** The state after k rounds of the queue loop from the reset for s (unchanged once Q runs dry). */
  function Trace(m: Matrix, n: nat, s: nat, k: nat): (r: BState)
    requires s < n
    ensures Shaped(r, n)
  {
    if k == 0 then Init(n, s)
    else
      var p := Trace(m, n, s, k - 1);
      if k - 1 < |p.order| then ScanFrom(m, n, p.order[k - 1], 0, p) else p
  }

  /** Every state the queue loop reaches with k nodes dequeued satisfies the queue invariant, on the way to Bfs. */
  lemma {:induction false} TraceInv(m: Matrix, n: nat, s: nat, k: nat)
    requires IsSquare(m, n) && s < n && k <= |Trace(m, n, s, k).order|
    ensures QueueInv(m, n, s, Trace(m, n, s, k), k)
    ensures Drive(m, n, k, Trace(m, n, s, k)) == Bfs(m, n, s)
  {
    if k == 0 {
      InitQueueInv(m, n, s);
    } else {
      var p := Trace(m, n, s, k - 1);
      assert k - 1 < |p.order|;
      TraceInv(m, n, s, k - 1);
      DriveStep(m, n, s, p, k - 1);
    }
  }

  /** One round of the queue loop, for the imperative search: the next state and the unchanged prefix of the order. */
  lemma TraceStep(m: Matrix, n: nat, s: nat, k: nat)
    requires IsSquare(m, n) && s < n && k < |Trace(m, n, s, k).order|
    ensures k < n
    ensures var p := Trace(m, n, s, k);
            var r := Trace(m, n, s, k + 1);
            r == ScanFrom(m, n, p.order[k], 0, p) &&
            k < |r.order| && r.order[k] == p.order[k] && r.order[..k] == p.order[..k]
  {
    TraceInv(m, n, s, k);
    DriveStep(m, n, s, Trace(m, n, s, k), k);
  }

  /** When Q runs dry after k rounds, the search is over. */
  lemma TraceDone(m: Matrix, n: nat, s: nat, k: nat)
    requires IsSquare(m, n) && s < n && k == |Trace(m, n, s, k).order|
    ensures Trace(m, n, s, k) == Bfs(m, n, s)
  {
    TraceInv(m, n, s, k);
  }

  /** The search from s ends in a state satisfying the queue invariant with every queued node dequeued. */
  lemma BfsInv(m: Matrix, n: nat, s: nat)
    requires IsSquare(m, n) && s < n
    ensures QueueInv(m, n, s, Bfs(m, n, s), |Bfs(m, n, s).order|)
  {
    InitQueueInv(m, n, s);
    DriveInv(m, n, s, Init(n, s), 0);
  }

  // ---------------------------------------------------------------------
  // What the search guarantees
  // ---------------------------------------------------------------------

  /**
   * Each node is queued at most once, the source first; exactly the queued
   * nodes have a distance, so Q, and with it S, never holds more than n nodes.
   */
  lemma BfsEnqueuedOnce(m: Matrix, n: nat, s: nat)
    requires IsSquare(m, n) && s < n
    ensures var r := Bfs(m, n, s);
            Distinct(r.order) && InRange(r.order, n) && 1 <= |r.order| <= n && r.order[0] == s &&
            forall t :: 0 <= t < n ==> (r.d[t] >= 0 <==> t in r.order)
  {
    BfsInv(m, n, s);
    var r := Bfs(m, n, s);
    OrderBound(r.order, n);
  }

  /** Nodes leave Q in nondecreasing distance, starting from the source at distance 0. */
  lemma BfsLevels(m: Matrix, n: nat, s: nat)
    requires IsSquare(m, n) && s < n
    ensures var r := Bfs(m, n, s);
            r.d[s] == 0 &&
            forall i, j :: 0 <= i < j < |r.order| ==> 0 <= r.d[r.order[i]] <= r.d[r.order[j]]
  {
    BfsInv(m, n, s);
    var r := Bfs(m, n, s);
    forall i, j | 0 <= i < j < |r.order|
      ensures 0 <= r.d[r.order[i]] <= r.d[r.order[j]]
    {
      assert r.order[i] in r.order;
    }
  }

  /**
   * Known nodes have at least one shortest path, so no division in the
   * back-propagation is by zero; unknown nodes keep d = -1, sigma = 0 and
   * an empty predecessor list; every other known node has as many paths
   * as its predecessors together.
   */
  lemma BfsCounts(m: Matrix, n: nat, s: nat)
    requires IsSquare(m, n) && s < n
    ensures var r := Bfs(m, n, s);
            r.sigma[s] == 1 && r.P[s] == [] &&
            (forall t :: 0 <= t < n && r.d[t] >= 0 ==> r.sigma[t] >= 1) &&
            (forall t :: 0 <= t < n && r.d[t] < 0 ==> r.d[t] == -1 && r.sigma[t] == 0 && r.P[t] == []) &&
            (forall t :: 0 <= t < n && r.d[t] >= 0 && t != s ==>
               InRange(r.P[t], n) && r.sigma[t] == SumOver(r.sigma, r.P[t]))
  {
    BfsInv(m, n, s);
  }

  /**
   * P[t] lists, each once, only neighbours of t one level above it; so no
   * predecessor list receives more than n entries.
   */
  lemma BfsPreds(m: Matrix, n: nat, s: nat)
    requires IsSquare(m, n) && s < n
    ensures var r := Bfs(m, n, s);
            forall t :: 0 <= t < n ==>
              Distinct(r.P[t]) && |r.P[t]| <= n &&
              forall i :: 0 <= i < |r.P[t]| ==>
                0 <= r.P[t][i] < n && Adj(m, r.P[t][i], t) && r.d[r.P[t][i]] + 1 == r.d[t]
  {
    BfsInv(m, n, s);
    var r := Bfs(m, n, s);
    forall t | 0 <= t < n
      ensures InRange(r.P[t], n) && |r.P[t]| <= n
    {
      forall i | 0 <= i < |r.P[t]|
        ensures 0 <= r.P[t][i] < n
      {
        assert r.P[t][i] in r.order;
      }
      OrderBound(r.P[t], n);
    }
  }

  /**
   * The search is closed: every neighbour of a known node is known, at most
   * one level further, and has that node as a predecessor when exactly one
   * level further.
   */
  lemma BfsClosed(m: Matrix, n: nat, s: nat)
    requires IsSquare(m, n) && s < n
    ensures var r := Bfs(m, n, s);
            forall x, t :: 0 <= x < n && 0 <= t < n && r.d[x] >= 0 && Adj(m, x, t) ==>
              r.d[t] >= 0 && r.d[t] <= r.d[x] + 1 && (r.d[x] + 1 == r.d[t] ==> x in r.P[t])
  {
    BfsInv(m, n, s);
    var r := Bfs(m, n, s);
    forall x, t | 0 <= x < n && 0 <= t < n && r.d[x] >= 0 && Adj(m, x, t)
      ensures r.d[t] >= 0 && r.d[t] <= r.d[x] + 1 && (r.d[x] + 1 == r.d[t] ==> x in r.P[t])
    {
      var j :| 0 <= j < |r.order| && r.order[j] == x;
      assert Scanned(m, n, r, r.order[j], n);
    }
  }

  // ---------------------------------------------------------------------
  // The back-propagation
  // ---------------------------------------------------------------------

  /**
   * What the back-propagation needs of a finished search: order lists
   * distinct nodes with at least one path each, and each node's
   * predecessors are distinct, in range and visited before it.
   */
  ghost predicate Settled(n: nat, st: BState)
  {
    Divisible(n, st) && Distinct(st.order) &&
    (forall t :: 0 <= t < n ==> st.sigma[t] >= 0) &&
    (forall t :: 0 <= t < n ==> InRange(st.P[t], n) && Distinct(st.P[t])) &&
    (forall t :: 0 <= t < n && t !in st.order ==> st.P[t] == []) &&
    Earlier(st)
  }

  /** Every node in the order has a path, so the dependency recurrence never divides by zero. */
  ghost predicate Divisible(n: nat, st: BState)
  {
    Shaped(st, n) && forall j :: 0 <= j < |st.order| ==> st.sigma[st.order[j]] >= 1
  }

  /** Each node's predecessors come before it in the order. */
  ghost predicate Earlier(st: BState)
    requires forall j :: 0 <= j < |st.order| ==> 0 <= st.order[j] < |st.P|
  {
    forall j, x :: 0 <= j < |st.order| && x in st.P[st.order[j]] ==> x in st.order[..j]
  }

  /**
   * The dependency of order[i]: what flows back to it from every node
   * queued after it.
   */
  ghost function Dep(n: nat, st: BState, i: nat): real
    requires Divisible(n, st) && i < |st.order|
    decreases |st.order| - i, 1
  {
    DepFrom(n, st, st.order[i], i + 1)
  }

  /**
   * What flows back to x from the nodes order[j..]: each one that has x as
   * a predecessor passes on its share to x.
   */
  ghost function DepFrom(n: nat, st: BState, x: nat, j: nat): real
    requires Divisible(n, st) && x < n && j <= |st.order|
    decreases |st.order| - j, 3
  {
    if j == |st.order| then 0.0
    else (if x in st.P[st.order[j]] then Share(n, st, x, j) else 0.0) + DepFrom(n, st, x, j + 1)
  }

  /** What a node w with sw paths and dependency dw passes to a predecessor with sv paths. */
  function Portion(sv: int, sw: int, dw: real): (r: real)
    requires sw != 0
    ensures sv >= 0 && sw > 0 && dw >= 0.0 ==> r >= 0.0
  {
    var q := sv as real / sw as real;
    assert sv >= 0 && sw > 0 ==> q >= 0.0;
    q * (1.0 + dw)
  }

  /** The share order[j] passes to a predecessor x: sigma[x] / sigma[order[j]] of one plus its own dependency. */
  ghost function Share(n: nat, st: BState, x: nat, j: nat): real
    requires Divisible(n, st) && x < n && j < |st.order|
    decreases |st.order| - j, 2
  {
    Portion(st.sigma[x], st.sigma[st.order[j]], Dep(n, st, j))
  }

  /** Dependencies are never negative. */
  lemma {:induction false} DepFromNonneg(n: nat, st: BState, x: nat, j: nat)
    requires Divisible(n, st) && (forall t :: 0 <= t < n ==> st.sigma[t] >= 0) && x < n && j <= |st.order|
    ensures DepFrom(n, st, x, j) >= 0.0
    decreases |st.order| - j
  {
    if j < |st.order| {
      var t := st.order[j];
      DepFromNonneg(n, st, x, j + 1);
      DepFromNonneg(n, st, t, j + 1);
      assert Dep(n, st, j) >= 0.0;
    }
  }

  /** A node is nobody's predecessor from its own position on. */
  lemma NotOwnLaterPred(n: nat, st: BState, i: nat, j: nat)
    requires Divisible(n, st) && Distinct(st.order) && Earlier(st) && j <= i < |st.order|
    ensures st.order[i] !in st.P[st.order[j]]
  {
    assert forall q :: 0 <= q < j ==> st.order[..j][q] == st.order[q] != st.order[i];
    assert st.order[i] !in st.order[..j];
  }

  /** Nothing flows to x from positions where x is nobody's predecessor. */
  lemma {:induction false} DepFromSkip(n: nat, st: BState, x: nat, j: nat, k: nat)
    requires Divisible(n, st) && x < n && j <= k <= |st.order|
    requires forall q :: j <= q < k ==> x !in st.P[st.order[q]]
    ensures DepFrom(n, st, x, j) == DepFrom(n, st, x, k)
    decreases k - j
  {
    if j < k {
      DepFromSkip(n, st, x, j + 1, k);
    }
  }

  /** The dependency of order[i] is all that flows back to it from the whole order. */
  lemma DepIsTotal(n: nat, st: BState, i: nat)
    requires Divisible(n, st) && Distinct(st.order) && Earlier(st) && i < |st.order|
    ensures DepFrom(n, st, st.order[i], 0) == Dep(n, st, i)
    ensures DepFrom(n, st, st.order[i], i) == Dep(n, st, i)
  {
    forall q | 0 <= q < i + 1
      ensures st.order[i] !in st.P[st.order[q]]
    {
      NotOwnLaterPred(n, st, i, q);
    }
    DepFromSkip(n, st, st.order[i], 0, i + 1);
    DepFromSkip(n, st, st.order[i], i, i + 1);
  }

  /** A node the search never reached gets no dependency. */
  lemma DepFromUnvisited(n: nat, st: BState, x: nat)
    requires Divisible(n, st) && Earlier(st) && x < n && x !in st.order
    ensures DepFrom(n, st, x, 0) == 0.0
  {
    forall q | 0 <= q < |st.order|
      ensures x !in st.P[st.order[q]]
    {
      assert st.order == st.order[..q] + st.order[q..];
    }
    DepFromSkip(n, st, x, 0, |st.order|);
  }

  // The states the back-propagation passes through, as values.

  /** delta once the nodes order[j..] have been popped from S and drained. */
  ghost function Level(n: nat, st: BState, j: nat): (r: seq<real>)
    requires Divisible(n, st) && j <= |st.order|
    ensures |r| == n
  {
    seq(n, x requires 0 <= x < n => DepFrom(n, st, x, j))
  }

  /** delta after the first c predecessors of order[i] have been drained. */
  ghost function Partial(n: nat, st: BState, i: nat, c: nat): (r: seq<real>)
    requires Divisible(n, st) && i < |st.order| && InRange(st.P[st.order[i]], n) && c <= |st.P[st.order[i]]|
    ensures |r| == n
  {
    if c == 0 then Level(n, st, i + 1)
    else
      var p := Partial(n, st, i, c - 1);
      var v := st.P[st.order[i]][c - 1];
      p[v := p[v] + Share(n, st, v, i)]
  }

  /** After c predecessors of order[i], exactly those c have received their share. */
  lemma {:induction false} PartialValues(n: nat, st: BState, i: nat, c: nat)
    requires Divisible(n, st) && i < |st.order| && InRange(st.P[st.order[i]], n) && Distinct(st.P[st.order[i]]) &&
             c <= |st.P[st.order[i]]|
    ensures var ps := st.P[st.order[i]];
            forall x :: 0 <= x < n ==>
              Partial(n, st, i, c)[x] == DepFrom(n, st, x, i + 1) + (if x in ps[..c] then Share(n, st, x, i) else 0.0)
  {
    var ps := st.P[st.order[i]];
    if c > 0 {
      PartialValues(n, st, i, c - 1);
      assert ps[..c] == ps[..c - 1] + [ps[c - 1]];
      assert ps[c - 1] !in ps[..c - 1];
    }
  }

  /** Draining never alters delta of the node being drained, which is its own dependency. */
  lemma PartialAtOwn(n: nat, st: BState, i: nat, c: nat)
    requires Divisible(n, st) && i < |st.order| && InRange(st.P[st.order[i]], n) && Distinct(st.P[st.order[i]]) &&
             c <= |st.P[st.order[i]]| && st.order[i] !in st.P[st.order[i]]
    ensures Partial(n, st, i, c)[st.order[i]] == Dep(n, st, i)
  {
    PartialValues(n, st, i, c);
    assert st.order[i] !in st.P[st.order[i]][..c];
  }

  /** Draining the next predecessor v of w = order[i]: v gains sigma[v] / sigma[w] of one plus delta[w]. */
  lemma DrainStep(n: nat, st: BState, i: nat, c: nat, w: nat, v: nat)
    requires Divisible(n, st) && i < |st.order| && w == st.order[i] && InRange(st.P[w], n) && Distinct(st.P[w])
    requires c < |st.P[w]| && w !in st.P[w] && v == st.P[w][c]
    ensures var p := Partial(n, st, i, c);
            Partial(n, st, i, c + 1) == p[v := p[v] + Portion(st.sigma[v], st.sigma[w], p[w])]
  {
    PartialAtOwn(n, st, i, c);
  }

  /** A fully drained order[i] leaves delta one level further back. */
  lemma PartialDone(n: nat, st: BState, i: nat)
    requires Divisible(n, st) && i < |st.order| && InRange(st.P[st.order[i]], n) && Distinct(st.P[st.order[i]])
    ensures Partial(n, st, i, |st.P[st.order[i]]|) == Level(n, st, i)
  {
    PartialValues(n, st, i, |st.P[st.order[i]]|);
    assert st.P[st.order[i]][..|st.P[st.order[i]]|] == st.P[st.order[i]];
  }

  /** The predecessor lists once the nodes order[j..] have been drained. */
  ghost function Pending(n: nat, st: BState, j: nat): (r: seq<seq<int>>)
    requires Divisible(n, st) && j <= |st.order|
    ensures |r| == n
  {
    seq(n, t requires 0 <= t < n => if t in st.order[j..] then [] else st.P[t])
  }

  /** cb once the nodes order[j..] have been popped, from cb0, with slice base: one credit per pop. */
  ghost function Credited(cb0: seq<real>, n: nat, s: nat, base: nat, st: BState, j: nat): (r: seq<real>)
    requires Divisible(n, st) && j <= |st.order| && base + n <= |cb0|
    ensures |r| == |cb0|
    decreases |st.order| - j
  {
    if j == |st.order| then cb0
    else
      var a := Credited(cb0, n, s, base, st, j + 1);
      var w := st.order[j];
      if w == s then a else a[base + w := a[base + w] + DepFrom(n, st, w, 0)]
  }

  /** Each node of order[j..] other than the source has been credited exactly once. */
  lemma {:induction false} CreditedValues(cb0: seq<real>, n: nat, s: nat, base: nat, st: BState, j: nat)
    requires Divisible(n, st) && Distinct(st.order) && j <= |st.order| && base + n <= |cb0|
    ensures forall c :: 0 <= c < |cb0| ==>
              Credited(cb0, n, s, base, st, j)[c] ==
                cb0[c] + (if base <= c < base + n && c - base != s && c - base in st.order[j..]
                          then DepFrom(n, st, c - base, 0) else 0.0)
    decreases |st.order| - j
  {
    if j < |st.order| {
      CreditedValues(cb0, n, s, base, st, j + 1);
      var w := st.order[j];
      assert st.order[j..] == [w] + st.order[j + 1..];
      assert forall q :: j + 1 <= q < |st.order| ==> st.order[q] != w;
      assert w !in st.order[j + 1..];
    }
  }

  /** Before the first pop: delta is 0, the lists are full and cb is untouched. */
  lemma BackStart(cb0: seq<real>, n: nat, s: nat, base: nat, st: BState)
    requires Divisible(n, st) && base + n <= |cb0|
    ensures Level(n, st, |st.order|) == seq(n, x => 0.0)
    ensures Pending(n, st, |st.order|) == st.P
    ensures Credited(cb0, n, s, base, st, |st.order|) == cb0
  {
  }

  /** Popping order[i] empties its predecessor list and no other. */
  lemma PendingStep(n: nat, st: BState, i: nat)
    requires Divisible(n, st) && Distinct(st.order) && i < |st.order|
    ensures st.order[i] !in st.order[i + 1..]
    ensures Pending(n, st, i) == Pending(n, st, i + 1)[st.order[i] := []]
  {
    var w := st.order[i];
    assert st.order[i..] == [w] + st.order[i + 1..];
    assert forall q :: i + 1 <= q < |st.order| ==> st.order[q] != w;
  }

  /** After the last pop every list is empty and cb holds each node's dependency, except the source's. */
  lemma BackEnd(cb0: seq<real>, n: nat, s: nat, base: nat, st: BState)
    requires Divisible(n, st) && Distinct(st.order) && Earlier(st) && base + n <= |cb0|
    requires forall t :: 0 <= t < n && t !in st.order ==> st.P[t] == []
    ensures Pending(n, st, 0) == seq(n, t => [])
    ensures forall c :: 0 <= c < |cb0| ==>
              Credited(cb0, n, s, base, st, 0)[c] ==
                cb0[c] + (if base <= c < base + n && c - base != s then DepFrom(n, st, c - base, 0) else 0.0)
  {
    assert st.order[0..] == st.order;
    CreditedValues(cb0, n, s, base, st, 0);
    forall c | 0 <= c < |cb0|
      ensures Credited(cb0, n, s, base, st, 0)[c] ==
                cb0[c] + (if base <= c < base + n && c - base != s then DepFrom(n, st, c - base, 0) else 0.0)
    {
      if base <= c < base + n && c - base !in st.order {
        DepFromUnvisited(n, st, c - base);
      }
    }
  }

  /** Predecessors are visited earlier, because they are one level above and levels never drop. */
  lemma PredsEarlier(m: Matrix, n: nat, s: nat, st: BState)
    requires QueueInv(m, n, s, st, |st.order|)
    ensures forall j, x :: 0 <= j < |st.order| && x in st.P[st.order[j]] ==> x in st.order[..j]
  {
    forall j, x | 0 <= j < |st.order| && x in st.P[st.order[j]]
      ensures x in st.order[..j]
    {
      var t := st.order[j];
      var i :| 0 <= i < |st.P[t]| && st.P[t][i] == x;
      assert x in st.order[..|st.order|];
      var q :| 0 <= q < |st.order| && st.order[q] == x;
      assert st.d[st.order[q]] + 1 == st.d[st.order[j]];
      assert q < j;
      assert st.order[..j][q] == x;
    }
  }

  /** The finished search is ready for the back-propagation. */
  lemma BfsSettled(m: Matrix, n: nat, s: nat)
    requires IsSquare(m, n) && s < n
    ensures Settled(n, Bfs(m, n, s))
  {
    BfsInv(m, n, s);
    var r := Bfs(m, n, s);
    PredsEarlier(m, n, s, r);
    BfsPreds(m, n, s);
    forall t | 0 <= t < n
      ensures r.sigma[t] >= 0
    {
    }
    forall j | 0 <= j < |r.order|
      ensures r.sigma[r.order[j]] >= 1
    {
      assert r.order[j] in r.order;
    }
  }

  /** The dependency of w on source s that Brandes' algorithm computes. */
  ghost function Delta(m: Matrix, n: nat, s: nat, w: nat): real
    requires IsSquare(m, n) && s < n && w < n
  {
    BfsSettled(m, n, s);
    DepFrom(n, Bfs(m, n, s), w, 0)
  }

  /** The amount the pass for source s adds to the betweenness of w: nothing for the source itself. */
  ghost function Gain(m: Matrix, n: nat, s: nat, w: nat): real
    requires IsSquare(m, n) && s < n && w < n
  {
    if w == s then 0.0 else Delta(m, n, s, w)
  }

  /**
   * A pass only ever adds a nonnegative amount, and nothing at all for the
   * source or for a node the search from s never reached.
   */
  lemma GainFacts(m: Matrix, n: nat, s: nat, w: nat)
    requires IsSquare(m, n) && s < n && w < n
    ensures Gain(m, n, s, w) >= 0.0
    ensures Gain(m, n, s, s) == 0.0
    ensures Bfs(m, n, s).d[w] < 0 ==> Gain(m, n, s, w) == 0.0
  {
    BfsSettled(m, n, s);
    BfsEnqueuedOnce(m, n, s);
    DepFromNonneg(n, Bfs(m, n, s), w, 0);
    if Bfs(m, n, s).d[w] < 0 {
      DepFromUnvisited(n, Bfs(m, n, s), w);
    }
  }

  /** xs[lo] + ... + xs[hi - 1], added from the left as a loop over lo, ..., hi - 1 would. */
  ghost function RangeSum(xs: seq<real>, lo: nat, hi: nat): real
    requires lo <= hi <= |xs|
    decreases hi - lo
  {
    if lo == hi then 0.0 else RangeSum(xs, lo, hi - 1) + xs[hi - 1]
  }

  lemma {:induction false} RangeSumSplit(xs: seq<real>, lo: nat, mid: nat, hi: nat)
    requires lo <= mid <= hi <= |xs|
    ensures RangeSum(xs, lo, mid) + RangeSum(xs, mid, hi) == RangeSum(xs, lo, hi)
    decreases hi - mid
  {
    if mid < hi {
      RangeSumSplit(xs, lo, mid, hi - 1);
    }
  }

  lemma {:induction false} RangeSumNonneg(xs: seq<real>, lo: nat, hi: nat)
    requires lo <= hi <= |xs| && forall i :: lo <= i < hi ==> xs[i] >= 0.0
    ensures RangeSum(xs, lo, hi) >= 0.0
    decreases hi - lo
  {
    if lo < hi {
      RangeSumNonneg(xs, lo, hi - 1);
    }
  }

  /** The gains of w from every source, indexed by source. */
  ghost function Gains(m: Matrix, n: nat, w: nat): (r: seq<real>)
    requires IsSquare(m, n) && w < n
    ensures |r| == n
  {
    seq(n, s requires 0 <= s < n => Gain(m, n, s, w))
  }

  /** What the passes for sources lo, lo + 1, ..., hi - 1 add to the betweenness of w. */
  ghost function SumGain(m: Matrix, n: nat, lo: nat, hi: nat, w: nat): real
    requires IsSquare(m, n) && lo <= hi <= n && w < n
  {
    RangeSum(Gains(m, n, w), lo, hi)
  }

  /** One more source adds its gain. */
  lemma SumGainStep(m: Matrix, n: nat, lo: nat, s: nat, w: nat)
    requires IsSquare(m, n) && lo <= s < n && w < n
    ensures SumGain(m, n, lo, s + 1, w) == SumGain(m, n, lo, s, w) + Gain(m, n, s, w)
  {
    assert Gains(m, n, w)[s] == Gain(m, n, s, w);
  }

  /** The betweenness of w: every node is a source once, and its own pass leaves it alone. */
  ghost function Betweenness(m: Matrix, n: nat, w: nat): real
    requires IsSquare(m, n) && w < n
  {
    SumGain(m, n, 0, n, w)
  }

  /** A run of passes never lowers a betweenness value. */
  lemma SumGainNonneg(m: Matrix, n: nat, lo: nat, hi: nat, w: nat)
    requires IsSquare(m, n) && lo <= hi <= n && w < n
    ensures SumGain(m, n, lo, hi, w) >= 0.0
  {
    forall s | lo <= s < hi
      ensures Gains(m, n, w)[s] >= 0.0
    {
      GainFacts(m, n, s, w);
    }
    RangeSumNonneg(Gains(m, n, w), lo, hi);
  }

  /** Running the sources [lo, mid) and then [mid, hi) adds what running [lo, hi) adds. */
  lemma SumGainSplit(m: Matrix, n: nat, lo: nat, mid: nat, hi: nat, w: nat)
    requires IsSquare(m, n) && lo <= mid <= hi <= n && w < n
    ensures SumGain(m, n, lo, mid, w) + SumGain(m, n, mid, hi, w) == SumGain(m, n, lo, hi, w)
  {
    RangeSumSplit(Gains(m, n, w), lo, mid, hi);
  }

  /** The pass for w itself is part of the runs that contain it, and adds nothing. */
  lemma SumGainSkipsOwn(m: Matrix, n: nat, lo: nat, hi: nat, w: nat)
    requires IsSquare(m, n) && lo <= w < hi <= n
    ensures SumGain(m, n, lo, hi, w) == SumGain(m, n, lo, w, w) + SumGain(m, n, w + 1, hi, w)
  {
    SumGainSplit(m, n, lo, w, hi, w);
    SumGainSplit(m, n, w, w + 1, hi, w);
    SumGainStep(m, n, w, w, w);
    GainFacts(m, n, w, w);
  }
}
