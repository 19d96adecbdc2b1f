/**
 * The dynamic work split of the MPI version: the master hands out batch
 * starts 0, 100, 200, ... below n, one per request, and then one -1 to
 * every worker. A worker runs the sources [start, BatchEnd(start, n)).
 */
module Batches {

  const BatchSize: nat := 100

  /** Line 184, the end of the batch starting at start: the last batch stops at n. */
  function BatchEnd(start: nat, n: nat): (e: nat)
    ensures start < n ==> start < e <= n && e - start <= BatchSize
    ensures start + BatchSize < n ==> e - start == BatchSize
  {
    if start + BatchSize >= n then n else start + BatchSize
  }

  /** How many batches the master hands out for n sources: n / 100 rounded up. */
  function BatchCount(n: nat): nat
  {
    (n + BatchSize - 1) / BatchSize
  }

  /** The batch starts in the order the master sends them: the multiples of 100 below n. */
  function Starts(n: nat): (r: seq<nat>)
    ensures |r| == BatchCount(n)
  {
    seq(BatchCount(n), i => i * BatchSize)
  }

  /** The k-th batch start lies below n. */
  lemma StartsBelow(n: nat, k: nat)
    requires k < BatchCount(n)
    ensures Starts(n)[k] == k * BatchSize < n
  {
  }

  /** The batches follow each other without gap or overlap, from 0 to n. */
  lemma StartsTile(n: nat)
    ensures n > 0 ==> Starts(n)[0] == 0
    ensures forall k :: 0 <= k < BatchCount(n) - 1 ==> BatchEnd(Starts(n)[k], n) == Starts(n)[k + 1]
    ensures BatchCount(n) > 0 ==> BatchEnd(Starts(n)[BatchCount(n) - 1], n) == n
  {
  }

  /** The batch whose range holds source x < n. */
  lemma StartsCover(n: nat, x: nat)
    requires x < n
    ensures var k := x / BatchSize;
            k < BatchCount(n) && Starts(n)[k] <= x < BatchEnd(Starts(n)[k], n)
    ensures forall j :: 0 <= j < BatchCount(n) && Starts(n)[j] <= x < BatchEnd(Starts(n)[j], n) ==> j == x / BatchSize
  {
  }

  /** The messages of the dispatch loop: the k-th request, from rank requests[k], is answered with Starts(n)[k]. */
  function BatchSends(n: nat, requests: seq<int>): (r: seq<(int, int)>)
    requires |requests| >= BatchCount(n)
    ensures |r| == BatchCount(n)
  {
    seq(BatchCount(n), k requires 0 <= k < BatchCount(n) => (requests[k], k * BatchSize))
  }

  /** The closing messages: -1 to rank 1, then rank 2, ..., then rank mpiTotal - 1. */
  function Sentinels(mpiTotal: nat): (r: seq<(int, int)>)
    ensures |r| == if mpiTotal > 1 then mpiTotal - 1 else 0
  {
    seq(if mpiTotal > 1 then mpiTotal - 1 else 0, k => (k + 1, -1))
  }

  /**
   * Lines 135-139: taskCount advances by 100 while it is below n, and each
   * value answers the next request, from whichever worker asked.
   */
  method Dispatch(n: nat, requests: seq<int>) returns (sends: seq<(int, int)>)
    requires |requests| >= BatchCount(n)
    ensures sends == BatchSends(n, requests)
  {
    var taskCount := 0;
    sends := [];
    while taskCount < n
      invariant taskCount == |sends| * BatchSize
      invariant |sends| * BatchSize < n + BatchSize
      invariant |sends| <= BatchCount(n)
      invariant forall k :: 0 <= k < |sends| ==> sends[k] == (requests[k], k * BatchSize)
    {
      var slave := requests[|sends|];
      sends := sends + [(slave, taskCount)];
      taskCount := taskCount + BatchSize;
    }
  }

  /** Lines 142-144: after the batches, one -1 goes to each worker rank 1, ..., mpiTotal - 1, in rank order. */
  method SendSentinels(mpiTotal: nat) returns (sends: seq<(int, int)>)
    ensures sends == Sentinels(mpiTotal)
  {
    sends := [];
    var i := 1;
    while i < mpiTotal
      invariant 1 <= i && (i <= mpiTotal || (mpiTotal < 1 && i == 1))
      invariant |sends| == i - 1
      invariant forall k :: 0 <= k < |sends| ==> sends[k] == (k + 1, -1)
    {
      sends := sends + [(i, -1)];
      i := i + 1;
    }
  }

  /** The values sent to rank r, in the order sent (messages between two ranks are not reordered). */
  function Inbox(sends: seq<(int, int)>, r: int): (msgs: seq<int>)
    ensures |msgs| <= |sends|
  {
    if sends == [] then []
    else
      var last := sends[|sends| - 1];
      Inbox(sends[..|sends| - 1], r) + (if last.0 == r then [last.1] else [])
  }

  lemma {:induction false} InboxAppend(a: seq<(int, int)>, b: seq<(int, int)>, r: int)
    ensures Inbox(a + b, r) == Inbox(a, r) + Inbox(b, r)
    decreases |b|
  {
    if b == [] {
      assert a + b == a;
    } else {
      assert (a + b)[..|a + b| - 1] == a + b[..|b| - 1];
      assert (a + b)[|a + b| - 1] == b[|b| - 1];
      InboxAppend(a, b[..|b| - 1], r);
    }
  }

  /** A rank no message is addressed to receives nothing. */
  lemma {:induction false} InboxNone(sends: seq<(int, int)>, r: int)
    requires forall k :: 0 <= k < |sends| ==> sends[k].0 != r
    ensures Inbox(sends, r) == []
    decreases |sends|
  {
    if sends != [] {
      InboxNone(sends[..|sends| - 1], r);
    }
  }

  /** Every worker rank receives exactly one sentinel. */
  lemma {:induction false} OneSentinelEach(mpiTotal: nat, r: int)
    requires 1 <= r < mpiTotal
    ensures Inbox(Sentinels(mpiTotal), r) == [-1]
    decreases mpiTotal
  {
    var s := Sentinels(mpiTotal);
    assert s[..|s| - 1] == Sentinels(mpiTotal - 1);
    if r == mpiTotal - 1 {
      InboxNone(Sentinels(mpiTotal - 1), r);
    } else {
      OneSentinelEach(mpiTotal - 1, r);
    }
  }

  /** Batch starts are never negative, so never mistaken for the sentinel. */
  lemma {:induction false} BatchValuesNonneg(sends: seq<(int, int)>, r: int)
    requires forall k :: 0 <= k < |sends| ==> sends[k].1 >= 0
    ensures forall j :: 0 <= j < |Inbox(sends, r)| ==> Inbox(sends, r)[j] >= 0
    decreases |sends|
  {
    if sends != [] {
      BatchValuesNonneg(sends[..|sends| - 1], r);
    }
  }

  /**
   * What a worker receives, in order, until it stops: a sentinel -1
   * arrives eventually and every start before it is a source number.
   */
  ghost predicate WellFormedInbox(msgs: seq<int>)
  {
    exists k :: 0 <= k < |msgs| && msgs[k] == -1 && forall j :: 0 <= j < k ==> msgs[j] >= 0
  }

  /** The batch starts a worker runs: its messages before the first -1. */
  function Received(msgs: seq<int>): (r: seq<int>)
    ensures |r| <= |msgs| && forall j :: 0 <= j < |r| ==> r[j] == msgs[j] != -1
  {
    if msgs == [] || msgs[0] == -1 then [] else [msgs[0]] + Received(msgs[1..])
  }

  /** In a well-formed inbox the received starts are all the messages before the sentinel, which comes next. */
  lemma {:induction false} ReceivedStopsAtSentinel(msgs: seq<int>)
    requires WellFormedInbox(msgs)
    ensures |Received(msgs)| < |msgs| && msgs[|Received(msgs)|] == -1
    ensures forall j :: 0 <= j < |Received(msgs)| ==> Received(msgs)[j] >= 0
  {
    var k :| 0 <= k < |msgs| && msgs[k] == -1 && forall j :: 0 <= j < k ==> msgs[j] >= 0;
    if k > 0 {
      assert WellFormedInbox(msgs[1..]) by {
        assert msgs[1..][k - 1] == -1;
        assert forall j :: 0 <= j < k - 1 ==> msgs[1..][j] == msgs[j + 1];
      }
      ReceivedStopsAtSentinel(msgs[1..]);
    }
  }

  /** A worker stops at the first -1 and has then run exactly the starts before it. */
  lemma {:induction false} ReceivedBeforeSentinel(starts: seq<int>, rest: seq<int>)
    requires forall j :: 0 <= j < |starts| ==> starts[j] >= 0
    ensures WellFormedInbox(starts + [-1] + rest)
    ensures Received(starts + [-1] + rest) == starts
    decreases |starts|
  {
    var msgs := starts + [-1] + rest;
    assert msgs[|starts|] == -1;
    assert forall j :: 0 <= j < |starts| ==> msgs[j] == starts[j];
    if starts != [] {
      assert msgs[1..] == starts[1..] + [-1] + rest;
      ReceivedBeforeSentinel(starts[1..], rest);
    }
  }

  /**
   * With every request coming from a worker rank, worker r receives the
   * starts the master answered its requests with, then one -1, and runs
   * exactly those starts.
   */
  lemma WorkerInbox(n: nat, requests: seq<int>, mpiTotal: nat, r: int)
    requires |requests| >= BatchCount(n) && 1 <= r < mpiTotal
    ensures var msgs := Inbox(BatchSends(n, requests) + Sentinels(mpiTotal), r);
            msgs == Inbox(BatchSends(n, requests), r) + [-1] &&
            WellFormedInbox(msgs) && Received(msgs) == Inbox(BatchSends(n, requests), r)
  {
    var b := BatchSends(n, requests);
    InboxAppend(b, Sentinels(mpiTotal), r);
    OneSentinelEach(mpiTotal, r);
    BatchValuesNonneg(b, r);
    ReceivedBeforeSentinel(Inbox(b, r), []);
    assert Inbox(b, r) + [-1] + [] == Inbox(b, r) + [-1];
  }
}
