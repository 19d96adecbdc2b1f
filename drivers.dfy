/**
 * The two programs around the pass: the sequential driver, which runs every
 * source on one graph, and the MPI version, whose master hands out
 * batches of sources to workers and sums their cb arrays at the end.
 * Reading the input file, writing the output file and the MPI transport
 * are not modelled: the graph comes in as n and the edge list, requests
 * as the sequence of requesting ranks, and messages as (rank, value) pairs.
 */
module Drivers {
  import opened DenseGraph
  import opened BrandesSpec
  import opened Brandes
  import opened Batches
  import opened FileNames

  /** The graph both programs build: every listed edge in both directions. */
  ghost function Loaded(n: nat, edges: seq<(nat, nat)>): (m: Matrix)
    requires EdgesIn(edges, n)
    ensures IsSquare(m, n) && Symmetric(m, n) && Binary(m)
  {
    LoadedGraphIsSymmetric(n, edges);
    LoadAll(ZeroMatrix(n), n, edges)
  }

  /** Lines 95-100 of bitanes2.c and 124-132 / 154-161 of bitanes2b.c: a fresh graph with the edges loaded. */
  method BuildGraph(n: nat, edges: seq<(nat, nat)>) returns (g: Graph)
    requires EdgesIn(edges, n)
    ensures fresh(g) && fresh(g.adj) && g.Valid() && g.n == n && g.Cells() == Loaded(n, edges)
  {
    g := new Graph(n, |edges|);
    LoadEdges(g, edges);
  }

  /** The part of a C string buffer before its first NUL. */
  method ReadCString(buf: array<char>) returns (s: seq<char>)
    ensures |s| <= buf.Length && s == buf[..|s|]
    ensures forall j :: 0 <= j < |s| ==> buf[j] != '\0'
    ensures |s| < buf.Length ==> buf[|s|] == '\0'
  {
    var k := 0;
    while k < buf.Length && buf[k] != '\0'
      invariant 0 <= k <= buf.Length
      invariant forall j :: 0 <= j < k ==> buf[j] != '\0'
    {
      k := k + 1;
    }
    s := buf[..k];
  }

  /** Gluing a name and extension without NUL gives a name without NUL. */
  lemma SwapKeepsNoNul(name: seq<char>, ext: seq<char>)
    requires NoNul(name) && NoNul(ext)
    ensures NoNul(SwapOrAdd(name, ext))
  {
    var i := LastDot(name);
    var r := SwapOrAdd(name, ext);
    forall k | 0 <= k < |r|
      ensures r[k] != '\0'
    {
      if i >= 0 {
        if k <= i { assert r[k] == name[k]; } else { assert r[k] == ext[k - i - 1]; }
      } else {
        var p := Strnlen(name);
        if k < p { assert r[k] == name[k]; }
        else if k > p { assert r[k] == ext[k - p - 1]; }
      }
    }
  }

  /** Line 79 of bitanes2.c and 104 of bitanes2b.c: the output file name, read back from the buffer. */
  method OutputName(name: seq<char>) returns (file: seq<char>)
    requires NoNul(name)
    ensures file == SwapOrAdd(name, "btw")
  {
    var buf := FileNames.SwapOrAddExtension(name, "btw");
    ghost var r := SwapOrAdd(name, "btw");
    SwapKeepsNoNul(name, "btw");
    forall j | 0 <= j < |r|
      ensures buf[j] != '\0'
    {
      assert buf[j] == buf[..|r|][j];
    }
    file := ReadCString(buf);
    assert |file| == |r|;
  }

  /** Lines 184-185 of bitanes2.c and 258-259 of bitanes2b.c: the values printed, each cb half. */
  method Halves(cb: array<real>) returns (values: seq<real>)
    ensures |values| == cb.Length && forall v :: 0 <= v < cb.Length ==> values[v] == cb[v] / 2.0
  {
    values := [];
    var v := 0;
    while v < cb.Length
      invariant 0 <= v <= cb.Length && |values| == v
      invariant forall u :: 0 <= u < v ==> values[u] == cb[u] / 2.0
    {
      values := values + [cb[v] / 2.0];
      v := v + 1;
    }
  }

  datatype Outcome = Usage | Written(file: seq<char>, values: seq<real>)

  /**
   * bitanes2.c, main (lines 56-185): with one argument, the output file
   * named after the input holds half the betweenness of every node of the
   * loaded graph; otherwise the usage error.
   */
  method Sequential(args: seq<seq<char>>, n: nat, edges: seq<(nat, nat)>) returns (r: Outcome)
    requires EdgesIn(edges, n) && forall k :: 0 <= k < |args| ==> NoNul(args[k])
    ensures |args| != 2 ==> r == Usage
    ensures |args| == 2 ==> r.Written? && r.file == SwapOrAdd(args[1], "btw") && |r.values| == n
    ensures |args| == 2 ==> forall w :: 0 <= w < n ==> r.values[w] == Betweenness(Loaded(n, edges), n, w) / 2.0
  {
    if |args| != 2 {
      return Usage;
    }
    var file := OutputName(args[1]);
    var values := AllSources(n, edges);
    r := Written(file, values);
  }

  /** Lines 89-185 of bitanes2.c: every source of the loaded graph, then half of each total. */
  method AllSources(n: nat, edges: seq<(nat, nat)>) returns (values: seq<real>)
    requires EdgesIn(edges, n)
    ensures |values| == n && forall w :: 0 <= w < n ==> values[w] == Betweenness(Loaded(n, edges), n, w) / 2.0
  {
    var g := BuildGraph(n, edges);
    var cb := Totals(g);
    values := Halves(cb);
  }

  /** Lines 90 and 112-182 of bitanes2.c: cb, zero at first, with every source's pass added. */
  method Totals(g: Graph) returns (cb: array<real>)
    requires g.Valid()
    ensures cb.Length == g.n && forall w :: 0 <= w < g.n ==> cb[w] == Betweenness(g.Cells(), g.n, w)
  {
    var n := g.n;
    cb := new real[n](_ => 0.0);
    var sigma := new int[n];
    var d := new int[n];
    var delta := new real[n];
    var P := new seq<int>[n](_ => []);
    RunSources(g, 0, n, 0, sigma, d, delta, P, cb);
  }

  // What a worker's cb holds, over the gains of every source of a node.

  /** The gains the batch starting at start adds: nothing for a start at or past n. */
  ghost function BatchGain(xs: seq<real>, start: int): real
  {
    if 0 <= start < |xs| then RangeSum(xs, start, BatchEnd(start, |xs|)) else 0.0
  }

  /** The gains of the batches starts, run one after another. */
  ghost function BatchTotal(xs: seq<real>, starts: seq<int>): real
  {
    if starts == [] then 0.0
    else BatchTotal(xs, starts[..|starts| - 1]) + BatchGain(xs, starts[|starts| - 1])
  }

  lemma {:induction false} BatchTotalAppend(xs: seq<real>, a: seq<int>, b: seq<int>)
    ensures BatchTotal(xs, a + b) == BatchTotal(xs, a) + BatchTotal(xs, b)
    decreases |b|
  {
    if b == [] {
      assert a + b == a;
    } else {
      assert (a + b)[..|a + b| - 1] == a + b[..|b| - 1];
      assert (a + b)[|a + b| - 1] == b[|b| - 1];
      BatchTotalAppend(xs, a, b[..|b| - 1]);
    }
  }

  /** The first k batches the master hands out cover the sources below min(100 k, n). */
  lemma {:induction false} StartsPrefixTotal(xs: seq<real>, k: nat)
    requires k <= BatchCount(|xs|)
    ensures var hi := if k * BatchSize < |xs| then k * BatchSize else |xs|;
            BatchTotal(xs, Starts(|xs|)[..k]) == RangeSum(xs, 0, hi)
  {
    var n := |xs|;
    if k > 0 {
      StartsPrefixTotal(xs, k - 1);
      var st := (k - 1) * BatchSize;
      assert Starts(n)[..k][..k - 1] == Starts(n)[..k - 1];
      assert Starts(n)[..k][k - 1] == st < n;
      RangeSumSplit(xs, 0, st, BatchEnd(st, n));
    }
  }

  /** All the batches together cover every source once. */
  lemma StartsTotal(xs: seq<real>)
    ensures BatchTotal(xs, Starts(|xs|)) == RangeSum(xs, 0, |xs|)
  {
    StartsPrefixTotal(xs, BatchCount(|xs|));
    assert Starts(|xs|)[..BatchCount(|xs|)] == Starts(|xs|);
  }

  /** What the worker ranks 1, ..., hi - 1 run, each the starts it receives before its sentinel. */
  ghost function WorkersTotal(xs: seq<real>, sends: seq<(int, int)>, hi: int): real
    decreases hi
  {
    if hi <= 1 then 0.0 else WorkersTotal(xs, sends, hi - 1) + BatchTotal(xs, Received(Inbox(sends, hi - 1)))
  }

  /** The same, for batch messages only: what each rank is sent. */
  ghost function Spread(xs: seq<real>, sends: seq<(int, int)>, hi: int): real
    decreases hi
  {
    if hi <= 1 then 0.0 else Spread(xs, sends, hi - 1) + BatchTotal(xs, Inbox(sends, hi - 1))
  }

  /** One more message adds its batch to the total of the rank it goes to. */
  lemma {:induction false} SpreadSnoc(xs: seq<real>, sends: seq<(int, int)>, p: (int, int), hi: int)
    ensures Spread(xs, sends + [p], hi) == Spread(xs, sends, hi) + (if 1 <= p.0 < hi then BatchGain(xs, p.1) else 0.0)
    decreases hi
  {
    if hi > 1 {
      SpreadSnoc(xs, sends, p, hi - 1);
      var s := sends + [p];
      assert s[..|s| - 1] == sends && s[|s| - 1] == p;
      var extra := if p.0 == hi - 1 then [p.1] else [];
      BatchTotalAppend(xs, Inbox(sends, hi - 1), extra);
      if p.0 == hi - 1 {
        assert [p.1][..0] == [];
      }
    }
  }

  /** The values of a message list. */
  function Values(sends: seq<(int, int)>): (r: seq<int>)
    ensures |r| == |sends| && forall k :: 0 <= k < |sends| ==> r[k] == sends[k].1
  {
    seq(|sends|, k requires 0 <= k < |sends| => sends[k].1)
  }

  /** However the requests interleave, the ranks together run every batch handed out, once. */
  lemma {:induction false} SpreadAll(xs: seq<real>, sends: seq<(int, int)>, mpiTotal: int)
    requires forall k :: 0 <= k < |sends| ==> 1 <= sends[k].0 < mpiTotal
    ensures Spread(xs, sends, mpiTotal) == BatchTotal(xs, Values(sends))
    decreases |sends|
  {
    if sends == [] {
      SpreadNone(xs, mpiTotal);
    } else {
      var init := sends[..|sends| - 1];
      var p := sends[|sends| - 1];
      assert sends == init + [p];
      assert forall k :: 0 <= k < |init| ==> init[k] == sends[k];
      SpreadAll(xs, init, mpiTotal);
      SpreadSnoc(xs, init, p, mpiTotal);
      var vs := Values(sends);
      assert vs[..|vs| - 1] == Values(init) && vs[|vs| - 1] == p.1;
      assert BatchTotal(xs, vs) == BatchTotal(xs, Values(init)) + BatchGain(xs, p.1);
    }
  }

  lemma {:induction false} SpreadNone(xs: seq<real>, hi: int)
    ensures Spread(xs, [], hi) == 0.0
    decreases hi
  {
    if hi > 1 {
      SpreadNone(xs, hi - 1);
    }
  }

  /** With the sentinels after the batches, every worker runs exactly the batches it was sent. */
  lemma {:induction false} WorkersRunWhatTheyAreSent(xs: seq<real>, n: nat, requests: seq<int>, mpiTotal: nat, hi: int)
    requires |requests| >= BatchCount(n) && hi <= mpiTotal
    ensures WorkersTotal(xs, BatchSends(n, requests) + Sentinels(mpiTotal), hi) == Spread(xs, BatchSends(n, requests), hi)
    decreases hi
  {
    if hi > 1 {
      WorkersRunWhatTheyAreSent(xs, n, requests, mpiTotal, hi - 1);
      WorkerInbox(n, requests, mpiTotal, hi - 1);
    }
  }

  /**
   * The reduction at lines 253-254 of bitanes2b.c: the master's cb is all
   * zero, and the workers' cb arrays, each holding the batches it ran, sum
   * to the betweenness of every node, however the requests were interleaved.
   */
  lemma ReduceIsBetweenness(m: Matrix, n: nat, requests: seq<int>, mpiTotal: nat, w: nat)
    requires IsSquare(m, n) && w < n && |requests| >= BatchCount(n)
    requires forall k :: 0 <= k < BatchCount(n) ==> 1 <= requests[k] < mpiTotal
    ensures 0.0 + WorkersTotal(Gains(m, n, w), BatchSends(n, requests) + Sentinels(mpiTotal), mpiTotal) == Betweenness(m, n, w)
  {
    var xs := Gains(m, n, w);
    var b := BatchSends(n, requests);
    WorkersRunWhatTheyAreSent(xs, n, requests, mpiTotal, mpiTotal);
    SpreadAll(xs, b, mpiTotal);
    assert Values(b) == Starts(n);
    StartsTotal(xs);
  }

  /**
   * bitanes2b.c, lines 149-249: a worker loads the graph, then runs the
   * batch of each start it receives until the sentinel; its cb holds the
   * gains of exactly those batches.
   */
  method Worker(n: nat, edges: seq<(nat, nat)>, inbox: seq<int>) returns (cb: array<real>)
    requires EdgesIn(edges, n) && WellFormedInbox(inbox)
    ensures cb.Length == n
    ensures forall w :: 0 <= w < n ==> cb[w] == BatchTotal(Gains(Loaded(n, edges), n, w), Received(inbox))
  {
    var g := BuildGraph(n, edges);
    cb := new real[n](_ => 0.0);
    var sigma := new int[n];
    var d := new int[n];
    var delta := new real[n];
    var P := new seq<int>[n](_ => []);
    ServeBatches(g, inbox, sigma, d, delta, P, cb);
    forall w | 0 <= w < n
      ensures cb[w] == BatchTotal(Gains(Loaded(n, edges), n, w), Received(inbox))
    {
      RunAllAt(g.Cells(), n, Received(inbox), w);
    }
  }

  /** Lines 169-249 of bitanes2b.c: the batch of every start received, until the sentinel. */
  method ServeBatches(g: Graph, inbox: seq<int>, sigma: array<int>, d: array<int>,
                      delta: array<real>, P: array<seq<int>>, cb: array<real>)
    requires g.Valid() && WellFormedInbox(inbox) && sigma != d && delta != cb
    requires sigma.Length == g.n && d.Length == g.n && delta.Length == g.n && P.Length == g.n && cb.Length == g.n
    requires forall w :: 0 <= w < g.n ==> cb[w] == 0.0
    modifies sigma, d, delta, P, cb
    ensures cb[..] == RunAll(g.Cells(), g.n, Received(inbox))
  {
    ghost var m := g.Cells();
    ghost var got := Received(inbox);
    ReceivedStopsAtSentinel(inbox);
    assert cb[..] == RunAll(m, g.n, got[..0]);
    var k := 0;
    while true
      invariant 0 <= k <= |got| && g.Cells() == m
      invariant cb[..] == RunAll(m, g.n, got[..k])
      decreases |got| - k
    {
      var start := inbox[k];
      if start == -1 {
        break;
      }
      assert k < |got| && start == got[k] >= 0;
      RunBatch(g, start, sigma, d, delta, P, cb);
      assert got[..k + 1][..k] == got[..k];
      k := k + 1;
    }
    assert k == |got|;
    assert got[..k] == got;
  }

  /** cur with the gains of the batch at start added. */
  ghost function AddBatch(cur: seq<real>, m: Matrix, n: nat, start: int): (r: seq<real>)
    requires IsSquare(m, n) && |cur| == n
    ensures |r| == n
  {
    seq(n, w requires 0 <= w < n => cur[w] + BatchGain(Gains(m, n, w), start))
  }

  /** A zero cb after the batches starts, one after another. */
  ghost function RunAll(m: Matrix, n: nat, starts: seq<int>): (r: seq<real>)
    requires IsSquare(m, n)
    ensures |r| == n
  {
    if starts == [] then seq(n, _ => 0.0)
    else AddBatch(RunAll(m, n, starts[..|starts| - 1]), m, n, starts[|starts| - 1])
  }

  /** Node w's cell after those batches holds their total gain for w. */
  lemma {:induction false} RunAllAt(m: Matrix, n: nat, starts: seq<int>, w: nat)
    requires IsSquare(m, n) && w < n
    ensures RunAll(m, n, starts)[w] == BatchTotal(Gains(m, n, w), starts)
    decreases |starts|
  {
    if starts != [] {
      RunAllAt(m, n, starts[..|starts| - 1], w);
    }
  }

  /** Lines 184-248 of bitanes2b.c: the sources of the batch at start, none when start is at or past n. */
  method RunBatch(g: Graph, start: int, sigma: array<int>, d: array<int>,
                  delta: array<real>, P: array<seq<int>>, cb: array<real>)
    requires g.Valid() && sigma != d && delta != cb
    requires sigma.Length == g.n && d.Length == g.n && delta.Length == g.n && P.Length == g.n && cb.Length == g.n
    modifies sigma, d, delta, P, cb
    ensures cb[..] == AddBatch(old(cb[..]), g.Cells(), g.n, start)
  {
    if 0 <= start < g.n {
      RunSources(g, start, BatchEnd(start, g.n), 0, sigma, d, delta, P, cb);
    }
    assert cb[..] == AddBatch(old(cb[..]), g.Cells(), g.n, start);
  }

  datatype MasterOutcome = MasterUsage | TooFewProcesses | Served(file: seq<char>, sends: seq<(int, int)>, cb: seq<real>)

  /**
   * bitanes2b.c, lines 100-147: with one argument and at least one worker,
   * the master loads the graph, answers the k-th request with the k-th
   * batch start, sends one -1 to every worker and keeps an all-zero cb.
   */
  method Master(args: seq<seq<char>>, mpiTotal: nat, n: nat, edges: seq<(nat, nat)>, requests: seq<int>)
    returns (r: MasterOutcome)
    requires EdgesIn(edges, n) && |requests| >= BatchCount(n)
    requires forall k :: 0 <= k < |args| ==> NoNul(args[k])
    ensures |args| != 2 ==> r == MasterUsage
    ensures |args| == 2 && mpiTotal <= 1 ==> r == TooFewProcesses
    ensures |args| == 2 && mpiTotal > 1 ==>
              r == Served(SwapOrAdd(args[1], "btw"), BatchSends(n, requests) + Sentinels(mpiTotal), seq(n, _ => 0.0))
  {
    if |args| != 2 {
      return MasterUsage;
    }
    var file := OutputName(args[1]);
    if mpiTotal <= 1 {
      return TooFewProcesses;
    }
    var g := BuildGraph(n, edges);
    var sends := Dispatch(n, requests);
    var closing := SendSentinels(mpiTotal);
    var cb := seq(n, _ => 0.0);
    r := Served(file, sends + closing, cb);
  }
}
