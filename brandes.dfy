/**
 * The per-source Brandes pass as the three copies of the program run it
 * (the thread body, the sequential driver and the MPI worker): reset the
 * work arrays, breadth-first search from s with queue Q and stack S,
 * reset delta, back-propagate the dependencies and add them into cb. Each
 * method is proved against the reference semantics of `BrandesSpec`.
 * Q, S and the predecessor lists are kept as sequences; the list and
 * ring-buffer containers the program uses for them are verified on their own.
 */
module Brandes {
  import opened DenseGraph
  import opened BrandesSpec
  import opened Partition
  import CircularStaq

  /** The stack S after pushing the elements of xs to its front one after another. */
  function Rev(xs: seq<int>): (r: seq<int>)
    ensures |r| == |xs|
    ensures forall i :: 0 <= i < |xs| ==> r[i] == xs[|xs| - 1 - i]
  {
    if xs == [] then [] else [xs[|xs| - 1]] + Rev(xs[..|xs| - 1])
  }

  /** Pushing xs[k] onto the front of the stack of xs[..k]. */
  lemma RevPush(xs: seq<int>, k: nat)
    requires k < |xs|
    ensures Rev(xs[..k + 1]) == [xs[k]] + Rev(xs[..k])
  {
    assert xs[..k + 1][..k] == xs[..k];
  }

  /** Popping the top xs[k - 1] off the stack of xs[..k]. */
  lemma RevPop(xs: seq<int>, k: nat)
    requires 0 < k <= |xs|
    ensures Rev(xs[..k]) == [xs[k - 1]] + Rev(xs[..k - 1])
  {
    assert xs[..k][..k - 1] == xs[..k - 1];
  }

  /**
   * The reset before the search from s: every P[w] is a new empty list,
   * every node unknown with no paths, except s at distance 0 with one path.
   */
  method ResetState(n: nat, s: nat, sigma: array<int>, d: array<int>, P: array<seq<int>>)
    requires s < n && sigma.Length == n && d.Length == n && P.Length == n && sigma != d
    modifies sigma, d, P
    ensures sigma[..] == Init(n, s).sigma && d[..] == Init(n, s).d && P[..] == Init(n, s).P
  {
    var w := 0;
    while w < n
      invariant 0 <= w <= n
      invariant forall i :: 0 <= i < w ==> P[i] == []
    {
      P[w] := [];
      w := w + 1;
    }
    var t := 0;
    while t < n
      invariant 0 <= t <= n
      invariant forall i :: 0 <= i < t ==> sigma[i] == 0 && d[i] == -1
      invariant forall i :: 0 <= i < n ==> P[i] == []
    {
      sigma[t] := 0;
      d[t] := -1;
      t := t + 1;
    }
    sigma[s] := 1;
    d[s] := 0;
  }

  /** Lines 87-90 of the search: an unseen w is queued one level below v. */
  method DiscoverCell(n: nat, v: nat, w: nat, d: array<int>, Q: seq<int>, ghost st: BState, ghost k: nat)
    returns (Q': seq<int>)
    requires Shaped(st, n) && v < n && w < n && d.Length == n && d[..] == st.d
    requires k <= |st.order| && Q == st.order[k..]
    modifies d
    ensures var r := if st.d[w] < 0 then Discover(st, n, v, w) else st;
            d[..] == r.d && k <= |r.order| && Q' == r.order[k..]
  {
    Q' := Q;
    if d[w] < 0 {
      Q' := Q' + [w];
      d[w] := d[v] + 1;
      assert (st.order + [w])[k..] == st.order[k..] + [w];
    }
  }

  /** Lines 92-95 of the search: a w one level below v gains v's paths and v as a predecessor. */
  method AccumulateCell(n: nat, v: nat, w: nat, sigma: array<int>, d: array<int>, P: array<seq<int>>,
                        ghost st: BState)
    requires Shaped(st, n) && v < n && w < n && sigma != d
    requires sigma.Length == n && d.Length == n && P.Length == n
    requires sigma[..] == st.sigma && d[..] == st.d && P[..] == st.P
    modifies sigma, P
    ensures var r := if st.d[v] + 1 == st.d[w] then Accumulate(st, n, v, w) else st;
            sigma[..] == r.sigma && P[..] == r.P
  {
    if d[v] + 1 == d[w] {
      sigma[w] := sigma[w] + sigma[v];
      P[w] := P[w] + [v];
    }
  }

  /**
   * The scan of the row of the dequeued node v (the inner loop of the
   * search): every w with an edge from v is discovered if it is unseen and
   * accumulated if it lies one level below v. The arrays end as the
   * reference scan leaves them, and Q gains the discovered nodes in order.
   */
  method ScanNeighbours(g: Graph, v: nat, sigma: array<int>, d: array<int>, P: array<seq<int>>,
                        Q: seq<int>, ghost cur: BState, ghost k: nat) returns (Q': seq<int>)
    requires g.Valid() && v < g.n && sigma != d
    requires sigma.Length == g.n && d.Length == g.n && P.Length == g.n && Shaped(cur, g.n)
    requires sigma[..] == cur.sigma && d[..] == cur.d && P[..] == cur.P
    requires k <= |cur.order| && Q == cur.order[k..]
    modifies sigma, d, P
    ensures var r := ScanFrom(g.Cells(), g.n, v, 0, cur);
            sigma[..] == r.sigma && d[..] == r.d && P[..] == r.P && Q' == r.order[k..]
  {
    ghost var m := g.Cells();
    var n := g.n;
    ghost var st := cur;
    Q' := Q;
    var w := 0;
    while w < n
      invariant 0 <= w <= n && Shaped(st, n) && k <= |st.order|
      invariant ScanFrom(m, n, v, w, st) == ScanFrom(m, n, v, 0, cur)
      invariant sigma[..] == st.sigma && d[..] == st.d && P[..] == st.P && Q' == st.order[k..]
    {
      if GetEdge(g, v, w) != 0 {
        Q' := DiscoverCell(n, v, w, d, Q', st, k);
        ghost var st1 := if st.d[w] < 0 then Discover(st, n, v, w) else st;
        AccumulateCell(n, v, w, sigma, d, P, st1);
      }
      st := ScanStep(m, n, v, w, st);
      w := w + 1;
    }
  }

  /**
   * The breadth-first search from s, from the reset state: the arrays end
   * as the reference search leaves them, and S holds every node the search
   * reached, the last one dequeued on top.
   */
  method Search(g: Graph, s: nat, sigma: array<int>, d: array<int>, P: array<seq<int>>)
    returns (S: seq<int>)
    requires g.Valid() && s < g.n && sigma != d
    requires sigma.Length == g.n && d.Length == g.n && P.Length == g.n
    requires sigma[..] == Init(g.n, s).sigma && d[..] == Init(g.n, s).d && P[..] == Init(g.n, s).P
    modifies sigma, d, P
    ensures var r := Bfs(g.Cells(), g.n, s);
            sigma[..] == r.sigma && d[..] == r.d && P[..] == r.P && S == Rev(r.order)
  {
    ghost var m := g.Cells();
    var n := g.n;
    ghost var k: nat := 0;
    var Q := [s];
    S := [];
    while Q != []
      invariant k <= |Trace(m, n, s, k).order|
      invariant var st := Trace(m, n, s, k);
                sigma[..] == st.sigma && d[..] == st.d && P[..] == st.P &&
                Q == st.order[k..] && S == Rev(st.order[..k])
      decreases n - k
    {
      ghost var st := Trace(m, n, s, k);
      var v := Q[0];
      Q := Q[1..];
      S := [v] + S;
      TraceStep(m, n, s, k);
      Q := ScanNeighbours(g, v, sigma, d, P, Q, st, k + 1);
      RevPush(Trace(m, n, s, k + 1).order, k);
      k := k + 1;
    }
    TraceDone(m, n, s, k);
    assert Trace(m, n, s, k).order[..k] == Trace(m, n, s, k).order;
  }

  /** The search from s queues at most n nodes and lists at most n predecessors of t. */
  lemma SearchPushCounts(m: Matrix, n: nat, s: nat, t: nat)
    requires IsSquare(m, n) && s < n && t < n
    ensures 1 <= |Bfs(m, n, s).order| <= n && |Bfs(m, n, s).P[t]| <= n
  {
    BfsEnqueuedOnce(m, n, s);
    BfsPreds(m, n, s);
  }

  // The USE_STAQ build gives Q, S and every P[w] a ring of n slots
  // (LIST_CREATE(n)). The search from s pushes |order| <= n nodes into Q and
  // into S, and |P[t]| <= n into P[t]; Q only ever holds part of what was
  // pushed into it, and S and P[t] are not popped before the search ends.
  // So a fresh ring of n slots takes all those pushes without dropping one,
  // and holds what the model's sequences hold.

  /** Every node the search from s queues fits into Q. */
  method QueueFitsStaq(m: Matrix, n: nat, s: nat, order: seq<int>) returns (Q: CircularStaq.Staq)
    requires IsSquare(m, n) && s < n && order == Bfs(m, n, s).order
    ensures Q.Valid() && Q.contents == order
  {
    SearchPushCounts(m, n, s, s);
    Q := new CircularStaq.Staq(n);
    Q.PushBackAll(order);
  }

  /** Every node the search from s dequeues fits into S, pushed at the front. */
  method StackFitsStaq(m: Matrix, n: nat, s: nat, order: seq<int>) returns (S: CircularStaq.Staq)
    requires IsSquare(m, n) && s < n && order == Bfs(m, n, s).order
    ensures S.Valid() && S.contents == Rev(order)
  {
    SearchPushCounts(m, n, s, s);
    S := new CircularStaq.Staq(n);
    S.PushFrontAll(order);
  }

  /** Every predecessor of t the search from s finds fits into P[t]. */
  method PredsFitStaq(m: Matrix, n: nat, s: nat, t: nat, preds: seq<int>) returns (Pt: CircularStaq.Staq)
    requires IsSquare(m, n) && s < n && t < n && preds == Bfs(m, n, s).P[t]
    ensures Pt.Valid() && Pt.contents == preds
  {
    SearchPushCounts(m, n, s, t);
    Pt := new CircularStaq.Staq(n);
    Pt.PushBackAll(preds);
  }

  /** Lines 99-100: every delta is reset to 0. */
  method ResetDelta(delta: array<real>)
    modifies delta
    ensures forall x :: 0 <= x < delta.Length ==> delta[x] == 0.0
  {
    var v := 0;
    while v < delta.Length
      invariant 0 <= v <= delta.Length
      invariant forall x :: 0 <= x < v ==> delta[x] == 0.0
    {
      delta[v] := 0.0;
      v := v + 1;
    }
  }

  /** Line 110: predecessor v of w gains sigma[v] / sigma[w] of one plus delta[w]. */
  method Credit(v: nat, w: nat, sigma: array<int>, delta: array<real>)
    requires v < sigma.Length && w < sigma.Length && v < delta.Length && w < delta.Length && sigma[w] != 0
    modifies delta
    ensures var p := old(delta[..]);
            delta[..] == p[v := p[v] + Portion(sigma[v], sigma[w], p[w])]
  {
    delta[v] := delta[v] + Portion(sigma[v], sigma[w], delta[w]);
  }

  /**
   * Lines 106-111: the predecessor list of w = order[i] is emptied front
   * to back, and each predecessor v gains its share sigma[v] / sigma[w] of
   * one plus delta[w]. Before, delta holds what flows back from order[i+1..];
   * after, what flows back from order[i..].
   */
  method Drain(n: nat, ghost st: BState, ghost i: nat, w: nat,
               sigma: array<int>, delta: array<real>, P: array<seq<int>>)
    requires Divisible(n, st) && i < |st.order| && w == st.order[i]
    requires InRange(st.P[w], n) && Distinct(st.P[w]) && w !in st.P[w]
    requires sigma.Length == n && delta.Length == n && P.Length == n
    requires sigma[..] == st.sigma && P[w] == st.P[w] && delta[..] == Level(n, st, i + 1)
    modifies delta, P
    ensures delta[..] == Level(n, st, i)
    ensures P[..] == old(P[..])[w := []]
  {
    ghost var ps := st.P[w];
    ghost var c: nat := 0;
    while P[w] != []
      invariant c <= |ps| && P[..] == old(P[..])[w := ps[c..]]
      invariant delta[..] == Partial(n, st, i, c)
      decreases |P[w]|
    {
      var v := P[w][0];
      P[w] := P[w][1..];
      assert v == ps[c] && ps[c..][1..] == ps[c + 1..];
      DrainStep(n, st, i, c, w, v);
      assert sigma[v] == st.sigma[v] && sigma[w] == st.sigma[w];
      ghost var p := delta[..];
      assert p == Partial(n, st, i, c);
      Credit(v, w, sigma, delta);
      assert sigma[v] == st.sigma[v] && sigma[w] == st.sigma[w];
      assert delta[..] == p[v := p[v] + Portion(st.sigma[v], st.sigma[w], p[w])];
      c := c + 1;
    }
    PartialDone(n, st, i);
  }

  /**
   * One pop of lines 104-114: w = order[k - 1], the top of S, is drained
   * and, unless it is the source, its delta is added to cb[base + w].
   */
  method Pop(n: nat, s: nat, base: nat, w: nat, sigma: array<int>, delta: array<real>,
             P: array<seq<int>>, cb: array<real>, ghost cb0: seq<real>, ghost st: BState, ghost k: nat)
    requires Divisible(n, st) && Distinct(st.order) && Earlier(st) && 0 < k <= |st.order| && w == st.order[k - 1]
    requires InRange(st.P[w], n) && Distinct(st.P[w])
    requires sigma.Length == n && delta.Length == n && P.Length == n && delta != cb
    requires base + n <= cb.Length && |cb0| == cb.Length && sigma[..] == st.sigma
    requires delta[..] == Level(n, st, k) && P[..] == Pending(n, st, k) && cb[..] == Credited(cb0, n, s, base, st, k)
    modifies delta, P, cb
    ensures delta[..] == Level(n, st, k - 1) && P[..] == Pending(n, st, k - 1)
    ensures cb[..] == Credited(cb0, n, s, base, st, k - 1)
  {
    ghost var i := k - 1;
    assert i + 1 == k;
    DepIsTotal(n, st, i);
    NotOwnLaterPred(n, st, i, i);
    PendingStep(n, st, i);
    Drain(n, st, i, w, sigma, delta, P);
    assert delta[w] == Level(n, st, i)[w] == Dep(n, st, i);
    if w != s {
      var c := base + w;
      cb[c] := cb[c] + delta[w];
    }
  }

  /** The loop of lines 102-115: popping all of S leaves the states of the last pop. */
  method PopAll(n: nat, s: nat, base: nat, sigma: array<int>, delta: array<real>,
                P: array<seq<int>>, cb: array<real>, S: seq<int>, ghost st: BState)
    requires Settled(n, st) && delta != cb
    requires sigma.Length == n && delta.Length == n && P.Length == n && base + n <= cb.Length
    requires sigma[..] == st.sigma && S == Rev(st.order)
    requires delta[..] == Level(n, st, |st.order|) && P[..] == Pending(n, st, |st.order|)
    modifies delta, P, cb
    ensures delta[..] == Level(n, st, 0) && P[..] == Pending(n, st, 0)
    ensures cb[..] == Credited(old(cb[..]), n, s, base, st, 0)
  {
    ghost var o := st.order;
    ghost var cb0 := cb[..];
    var rest := S;
    ghost var i: nat := |o|;
    assert o[..i] == o;
    while rest != []
      invariant i <= |o| && rest == Rev(o[..i])
      invariant delta[..] == Level(n, st, i)
      invariant P[..] == Pending(n, st, i)
      invariant cb[..] == Credited(cb0, n, s, base, st, i)
      decreases i
    {
      var w := rest[0];
      rest := rest[1..];
      RevPop(o, i);
      Pop(n, s, base, w, sigma, delta, P, cb, cb0, st, i);
      i := i - 1;
    }
  }

  /**
   * Lines 102-115: S is popped to the end; each popped w is drained and,
   * unless it is the source, its delta is added to cb[base + w]. No cell of
   * cb outside [base, base + n), and not the source's, changes.
   */
  method BackPropagate(n: nat, s: nat, base: nat, sigma: array<int>, delta: array<real>,
                       P: array<seq<int>>, cb: array<real>, S: seq<int>, ghost st: BState)
    requires Settled(n, st) && s < n && delta != cb
    requires sigma.Length == n && delta.Length == n && P.Length == n && base + n <= cb.Length
    requires sigma[..] == st.sigma && P[..] == st.P && S == Rev(st.order)
    requires forall x :: 0 <= x < n ==> delta[x] == 0.0
    modifies delta, P, cb
    ensures forall x :: 0 <= x < n ==> delta[x] == DepFrom(n, st, x, 0)
    ensures forall t :: 0 <= t < n ==> P[t] == []
    ensures forall c :: 0 <= c < cb.Length ==>
              cb[c] == old(cb[c]) + (if base <= c < base + n && c - base != s then DepFrom(n, st, c - base, 0) else 0.0)
  {
    ghost var cb0 := cb[..];
    BackStart(cb0, n, s, base, st);
    assert delta[..] == seq(n, x => 0.0);
    PopAll(n, s, base, sigma, delta, P, cb, S, st);
    BackEnd(cb0, n, s, base, st);
  }

  /**
   * One pass of the main loop for source s (lines 65-115): the search
   * leaves sigma and d as the reference search does, every list ends empty,
   * and cb[base + w] gains the dependency of w on s for every w but s.
   */
  method Pass(g: Graph, s: nat, base: nat, sigma: array<int>, d: array<int>, delta: array<real>,
              P: array<seq<int>>, cb: array<real>)
    requires g.Valid() && s < g.n && sigma != d && delta != cb
    requires sigma.Length == g.n && d.Length == g.n && delta.Length == g.n && P.Length == g.n
    requires base + g.n <= cb.Length
    modifies sigma, d, delta, P, cb
    ensures var r := Bfs(g.Cells(), g.n, s);
            sigma[..] == r.sigma && d[..] == r.d
    ensures forall x :: 0 <= x < g.n ==> delta[x] == Delta(g.Cells(), g.n, s, x)
    ensures forall t :: 0 <= t < g.n ==> P[t] == []
    ensures forall c :: 0 <= c < cb.Length ==>
              cb[c] == old(cb[c]) + (if base <= c < base + g.n then Gain(g.Cells(), g.n, s, c - base) else 0.0)
  {
    ResetState(g.n, s, sigma, d, P);
    var S := Search(g, s, sigma, d, P);
    ResetDelta(delta);
    ghost var r := Bfs(g.Cells(), g.n, s);
    BfsSettled(g.Cells(), g.n, s);
    BackPropagate(g.n, s, base, sigma, delta, P, cb, S, r);
  }

  /**
   * The sources lo, ..., hi - 1 one after another: cb[base + w] gains what
   * those passes give w, and no cell outside [base, base + n) changes.
   */
  method RunSources(g: Graph, lo: nat, hi: nat, base: nat, sigma: array<int>, d: array<int>,
                    delta: array<real>, P: array<seq<int>>, cb: array<real>)
    requires g.Valid() && lo <= hi <= g.n && sigma != d && delta != cb
    requires sigma.Length == g.n && d.Length == g.n && delta.Length == g.n && P.Length == g.n
    requires base + g.n <= cb.Length
    modifies sigma, d, delta, P, cb
    ensures forall c :: 0 <= c < cb.Length ==>
              cb[c] == old(cb[c]) + (if base <= c < base + g.n then SumGain(g.Cells(), g.n, lo, hi, c - base) else 0.0)
  {
    ghost var cb0 := cb[..];
    PassRows(g, lo, hi, base, sigma, d, delta, P, cb);
    RowSums(cb0, g.Cells(), g.n, base, lo, hi);
  }

  /** The loop of RunSources, seen from cb: one row of gains added per source. */
  method PassRows(g: Graph, lo: nat, hi: nat, base: nat, sigma: array<int>, d: array<int>,
                  delta: array<real>, P: array<seq<int>>, cb: array<real>)
    requires g.Valid() && lo <= hi <= g.n && sigma != d && delta != cb
    requires sigma.Length == g.n && d.Length == g.n && delta.Length == g.n && P.Length == g.n
    requires base + g.n <= cb.Length
    modifies sigma, d, delta, P, cb
    ensures cb[..] == AddRows(old(cb[..]), GainRows(g.Cells(), g.n, lo, hi), base)
  {
    ghost var m := g.Cells();
    ghost var cb0 := cb[..];
    var s := lo;
    while s < hi
      invariant lo <= s <= hi && g.Cells() == m
      invariant cb[..] == AddRows(cb0, GainRows(m, g.n, lo, s), base)
    {
      PassRow(g, s, base, sigma, d, delta, P, cb);
      GainRowsSnoc(m, g.n, lo, s);
      AddRowsSnoc(cb0, GainRows(m, g.n, lo, s), GainRow(m, g.n, s), base);
      s := s + 1;
    }
  }

  /** After the rows for lo, ..., hi - 1, every cell of the slice holds its sum of gains over those sources. */
  lemma RowSums(cb0: seq<real>, m: Matrix, n: nat, base: nat, lo: nat, hi: nat)
    requires IsSquare(m, n) && lo <= hi <= n
    ensures forall c :: 0 <= c < |cb0| ==>
              AddRows(cb0, GainRows(m, n, lo, hi), base)[c] == cb0[c] + (if base <= c < base + n then SumGain(m, n, lo, hi, c - base) else 0.0)
  {
    forall c | 0 <= c < |cb0|
      ensures AddRows(cb0, GainRows(m, n, lo, hi), base)[c] == cb0[c] + (if base <= c < base + n then SumGain(m, n, lo, hi, c - base) else 0.0)
    {
      RowSumAt(cb0, m, n, base, lo, hi, c);
    }
  }

  lemma RowSumAt(cb0: seq<real>, m: Matrix, n: nat, base: nat, lo: nat, hi: nat, c: nat)
    requires IsSquare(m, n) && lo <= hi <= n && c < |cb0|
    ensures AddRows(cb0, GainRows(m, n, lo, hi), base)[c] == cb0[c] + (if base <= c < base + n then SumGain(m, n, lo, hi, c - base) else 0.0)
  {
    var rows := GainRows(m, n, lo, hi);
    AddRowsAt(cb0, rows, base, c);
    if base <= c < base + n {
      ColumnIsSumGain(m, n, lo, hi, c - base);
    } else if base <= c {
      ColumnSumBeyond(rows, c - base);
    }
  }

  /** Column w of the rows for lo, ..., hi - 1 sums to the gain of w over those sources. */
  lemma ColumnIsSumGain(m: Matrix, n: nat, lo: nat, hi: nat, w: nat)
    requires IsSquare(m, n) && lo <= hi <= n && w < n
    ensures ColumnSum(GainRows(m, n, lo, hi), w) == SumGain(m, n, lo, hi, w)
  {
    GainRowsColumn(m, n, lo, hi, w);
    ColumnSumIsRangeSum(GainRows(m, n, lo, hi), Gains(m, n, w), lo, hi, w);
  }

  /** The pass for source s, seen from cb: the row of its gains added at base. */
  method PassRow(g: Graph, s: nat, base: nat, sigma: array<int>, d: array<int>, delta: array<real>,
                 P: array<seq<int>>, cb: array<real>)
    requires g.Valid() && s < g.n && sigma != d && delta != cb
    requires sigma.Length == g.n && d.Length == g.n && delta.Length == g.n && P.Length == g.n
    requires base + g.n <= cb.Length
    modifies sigma, d, delta, P, cb
    ensures cb[..] == AddRow(old(cb[..]), GainRow(g.Cells(), g.n, s), base)
  {
    Pass(g, s, base, sigma, d, delta, P, cb);
    assert cb[..] == AddRow(old(cb[..]), GainRow(g.Cells(), g.n, s), base);
  }

  // cb as the running sum of one row of gains per pass

  /** cur with row added to the cells from base on, as far as the row reaches. */
  ghost function AddRow(cur: seq<real>, row: seq<real>, base: nat): (r: seq<real>)
    ensures |r| == |cur|
  {
    seq(|cur|, c requires 0 <= c < |cur| => cur[c] + (if base <= c && c - base < |row| then row[c - base] else 0.0))
  }

  /** cb0 with every row added, in order. */
  ghost function AddRows(cb0: seq<real>, rows: seq<seq<real>>, base: nat): (r: seq<real>)
    ensures |r| == |cb0|
  {
    if rows == [] then cb0 else AddRow(AddRows(cb0, rows[..|rows| - 1], base), rows[|rows| - 1], base)
  }

  /** The sum of column w over the rows, a row too short counting nothing. */
  ghost function ColumnSum(rows: seq<seq<real>>, w: nat): real
  {
    if rows == [] then 0.0
    else ColumnSum(rows[..|rows| - 1], w) + (if w < |rows[|rows| - 1]| then rows[|rows| - 1][w] else 0.0)
  }

  lemma AddRowsSnoc(cb0: seq<real>, rows: seq<seq<real>>, row: seq<real>, base: nat)
    ensures AddRows(cb0, rows + [row], base) == AddRow(AddRows(cb0, rows, base), row, base)
  {
    assert (rows + [row])[..|rows|] == rows;
  }

  /** After adding the rows, a cell from base on holds its column sum and any other cell is unchanged. */
  lemma {:induction false} AddRowsAt(cb0: seq<real>, rows: seq<seq<real>>, base: nat, c: nat)
    requires c < |cb0|
    ensures AddRows(cb0, rows, base)[c] == cb0[c] + (if base <= c then ColumnSum(rows, c - base) else 0.0)
    decreases |rows|
  {
    if rows != [] {
      var init := rows[..|rows| - 1];
      var row := rows[|rows| - 1];
      var prev := AddRows(cb0, init, base);
      AddRowsAt(cb0, init, base, c);
      assert AddRows(cb0, rows, base)[c] == prev[c] + (if base <= c && c - base < |row| then row[c - base] else 0.0);
      if base <= c {
        assert ColumnSum(rows, c - base) == ColumnSum(init, c - base) + (if c - base < |row| then row[c - base] else 0.0);
      }
    }
  }

  /** A column the rows do not reach sums to nothing. */
  lemma {:induction false} ColumnSumBeyond(rows: seq<seq<real>>, w: nat)
    requires forall j :: 0 <= j < |rows| ==> |rows[j]| <= w
    ensures ColumnSum(rows, w) == 0.0
    decreases |rows|
  {
    if rows != [] {
      var init := rows[..|rows| - 1];
      assert forall j :: 0 <= j < |init| ==> init[j] == rows[j];
      ColumnSumBeyond(init, w);
      assert ColumnSum(rows, w) == ColumnSum(init, w) + 0.0;
    }
  }

  /** A column that runs along xs from lo sums as xs does over the same stretch. */
  lemma {:induction false} ColumnSumIsRangeSum(rows: seq<seq<real>>, xs: seq<real>, lo: nat, hi: nat, w: nat)
    requires hi == lo + |rows| <= |xs|
    requires forall j :: 0 <= j < |rows| ==> w < |rows[j]| && rows[j][w] == xs[lo + j]
    ensures ColumnSum(rows, w) == RangeSum(xs, lo, hi)
    decreases |rows|
  {
    if rows != [] {
      var init := rows[..|rows| - 1];
      assert forall j :: 0 <= j < |init| ==> init[j] == rows[j];
      ColumnSumIsRangeSum(init, xs, lo, hi - 1, w);
      assert ColumnSum(rows, w) == ColumnSum(init, w) + rows[|init|][w];
      assert RangeSum(xs, lo, hi) == RangeSum(xs, lo, hi - 1) + xs[hi - 1];
    }
  }

  /** The gains the pass for source s adds, one per node. */
  ghost function GainRow(m: Matrix, n: nat, s: nat): (r: seq<real>)
    requires IsSquare(m, n) && s < n
    ensures |r| == n
  {
    seq(n, w requires 0 <= w < n => Gain(m, n, s, w))
  }

  /** The rows of the passes for the sources lo, ..., s - 1. */
  ghost function GainRows(m: Matrix, n: nat, lo: nat, s: nat): (r: seq<seq<real>>)
    requires IsSquare(m, n) && lo <= s <= n
    ensures |r| == s - lo && forall j :: 0 <= j < |r| ==> r[j] == GainRow(m, n, lo + j)
  {
    seq(s - lo, j requires 0 <= j < s - lo => GainRow(m, n, lo + j))
  }

  lemma GainRowsSnoc(m: Matrix, n: nat, lo: nat, s: nat)
    requires IsSquare(m, n) && lo <= s < n
    ensures GainRows(m, n, lo, s + 1) == GainRows(m, n, lo, s) + [GainRow(m, n, s)]
  {
    assert GainRows(m, n, lo, s + 1)[s - lo] == GainRow(m, n, s);
  }

  /** Column w of those rows runs along the gains of w from lo. */
  lemma GainRowsColumn(m: Matrix, n: nat, lo: nat, s: nat, w: nat)
    requires IsSquare(m, n) && lo <= s <= n && w < n
    ensures forall j :: 0 <= j < s - lo ==>
              w < |GainRows(m, n, lo, s)[j]| && GainRows(m, n, lo, s)[j][w] == Gains(m, n, w)[lo + j]
  {
    forall j | 0 <= j < s - lo
      ensures w < |GainRows(m, n, lo, s)[j]| && GainRows(m, n, lo, s)[j][w] == Gains(m, n, w)[lo + j]
    {
      assert GainRow(m, n, lo + j)[w] == Gain(m, n, lo + j, w) == Gains(m, n, w)[lo + j];
    }
  }

  /**
   * The thread body (lines 31-125): thread tid runs the sources of its
   * chunk, on work arrays of its own, into its slice cb[tid * n .. tid * n + n).
   */
  method BrandesThread(g: Graph, cb: array<real>, cs: nat, rem: nat, tid: nat)
    requires g.Valid() && ChunkStop(tid, cs, rem) <= g.n && (tid + 1) * g.n <= cb.Length
    modifies cb
    ensures forall c :: 0 <= c < cb.Length ==>
              cb[c] == old(cb[c]) + (if tid * g.n <= c < tid * g.n + g.n
                                     then SumGain(g.Cells(), g.n, ChunkStart(tid, cs, rem), ChunkStop(tid, cs, rem), c - tid * g.n)
                                     else 0.0)
  {
    var n := g.n;
    var sigma := new int[n];
    var d := new int[n];
    var delta := new real[n];
    var P := new seq<int>[n](_ => []);
    var start := ChunkStart(tid, cs, rem);
    var stop := ChunkStop(tid, cs, rem);
    assert tid * n + n == (tid + 1) * n;
    RunSources(g, start, stop, tid * n, sigma, d, delta, P, cb);
  }

  /** The sums of xs over the chunks of the first T threads, in thread order. */
  ghost function ChunkSums(xs: seq<real>, T: nat, cs: nat, rem: nat): real
    requires ChunkStart(T, cs, rem) <= |xs|
  {
    if T == 0 then 0.0
    else
      ChunksAdjacent(T - 1, cs, rem);
      ChunkSums(xs, T - 1, cs, rem) + RangeSum(xs, ChunkStart(T - 1, cs, rem), ChunkStop(T - 1, cs, rem))
  }

  /** The chunks of the first T threads together sum xs over [0, ChunkStart(T)). */
  lemma {:induction false} ChunkSumsCover(xs: seq<real>, T: nat, cs: nat, rem: nat)
    requires ChunkStart(T, cs, rem) <= |xs|
    ensures ChunkSums(xs, T, cs, rem) == RangeSum(xs, 0, ChunkStart(T, cs, rem))
  {
    if T > 0 {
      ChunksAdjacent(T - 1, cs, rem);
      ChunkSumsCover(xs, T - 1, cs, rem);
      RangeSumSplit(xs, 0, ChunkStart(T - 1, cs, rem), ChunkStart(T, cs, rem));
    }
  }

  /**
   * What the T thread slices hold for w together, each slice as
   * BrandesThread leaves it: the sum of SumGain over the chunks.
   */
  ghost function ThreadsTotal(m: Matrix, n: nat, T: nat, cs: nat, rem: nat, w: nat): real
    requires IsSquare(m, n) && ChunkStart(T, cs, rem) <= n && w < n
  {
    ChunkSums(Gains(m, n, w), T, cs, rem)
  }

  /** Slice t of the total is what thread t's pass adds, and the slices sum to the sources [0, ChunkStart(T)). */
  lemma ThreadsCover(m: Matrix, n: nat, T: nat, cs: nat, rem: nat, w: nat)
    requires IsSquare(m, n) && ChunkStart(T, cs, rem) <= n && w < n
    ensures 0 < T ==> (ChunkStop(T - 1, cs, rem) <= n &&
                       ThreadsTotal(m, n, T, cs, rem, w) ==
                         ThreadsTotal(m, n, T - 1, cs, rem, w) +
                         SumGain(m, n, ChunkStart(T - 1, cs, rem), ChunkStop(T - 1, cs, rem), w))
    ensures ThreadsTotal(m, n, T, cs, rem, w) == SumGain(m, n, 0, ChunkStart(T, cs, rem), w)
  {
    if 0 < T {
      ChunksAdjacent(T - 1, cs, rem);
      ChunksOrdered(T - 1, T, cs, rem);
    }
    ChunkSumsCover(Gains(m, n, w), T, cs, rem);
  }

  /** When the T chunks cover all n sources (T * cs + rem == n, rem <= T) the slices sum to the betweenness. */
  lemma ThreadsGiveBetweenness(m: Matrix, n: nat, T: nat, cs: nat, rem: nat, w: nat)
    requires IsSquare(m, n) && rem <= T && T * cs + rem == n && w < n
    ensures ChunkStart(T, cs, rem) == n
    ensures ThreadsTotal(m, n, T, cs, rem, w) == Betweenness(m, n, w)
  {
    ThreadsCover(m, n, T, cs, rem, w);
  }
}
