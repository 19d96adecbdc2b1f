/**
 * The static split of the sources among T threads: every thread gets
 * chunkSize sources, and the first chunkSizeRem threads one more. Thread
 * t runs the sources [ChunkStart(t), ChunkStop(t)).
 */
module Partition {

  /** The first source of thread t. */
  function ChunkStart(t: nat, cs: nat, rem: nat): nat
  {
    if t < rem then t * (cs + 1) else t * cs + rem
  }

  /**
   * One past the last source of thread t: where thread t + 1 starts, so
   * consecutive chunks leave no gap and do not overlap. The chunk has
   * cs + 1 sources exactly when t < rem.
   */
  function ChunkStop(t: nat, cs: nat, rem: nat): (r: nat)
    ensures r == ChunkStart(t + 1, cs, rem)
    ensures ChunkStart(t, cs, rem) <= r && r - ChunkStart(t, cs, rem) == if t < rem then cs + 1 else cs
  {
    ChunksAdjacent(t, cs, rem);
    var start := ChunkStart(t, cs, rem);
    if t < rem then start + cs + 1 else start + cs
  }

  /** Thread 0 starts at source 0. */
  lemma FirstChunk(cs: nat, rem: nat)
    ensures ChunkStart(0, cs, rem) == 0
  {
  }

  /** Thread t + 1 starts cs + 1 sources after thread t when t < rem, and cs sources after it otherwise. */
  lemma ChunksAdjacent(t: nat, cs: nat, rem: nat)
    ensures ChunkStart(t + 1, cs, rem) == ChunkStart(t, cs, rem) + if t < rem then cs + 1 else cs
  {
    if t + 1 < rem {
      calc {
        ChunkStart(t, cs, rem) + cs + 1;
        t * (cs + 1) + cs + 1;
        (t + 1) * (cs + 1);
      }
    } else if t < rem {
      assert t + 1 == rem;
      calc {
        ChunkStart(t, cs, rem) + cs + 1;
        t * (cs + 1) + cs + 1;
        (t + 1) * cs + (t + 1);
      }
    } else {
      calc {
        ChunkStart(t, cs, rem) + cs;
        t * cs + rem + cs;
        (t + 1) * cs + rem;
      }
    }
  }

  /** Later threads start no earlier than earlier threads stop. */
  lemma {:induction false} ChunksOrdered(t: nat, u: nat, cs: nat, rem: nat)
    requires t < u
    ensures ChunkStop(t, cs, rem) <= ChunkStart(u, cs, rem)
    decreases u - t
  {
    ChunksAdjacent(t, cs, rem);
    if t + 1 < u {
      ChunksOrdered(t + 1, u, cs, rem);
    }
  }

  /** Two different threads never share a source. */
  lemma ChunksDisjoint(t: nat, u: nat, cs: nat, rem: nat, x: nat)
    requires t != u
    requires ChunkStart(t, cs, rem) <= x < ChunkStop(t, cs, rem)
    ensures !(ChunkStart(u, cs, rem) <= x < ChunkStop(u, cs, rem))
  {
    if t < u {
      ChunksOrdered(t, u, cs, rem);
    } else {
      ChunksOrdered(u, t, cs, rem);
    }
  }

  /** With rem <= T, the T chunks together end at T * cs + rem. */
  lemma LastChunk(T: nat, cs: nat, rem: nat)
    requires 0 < T && rem <= T
    ensures ChunkStop(T - 1, cs, rem) == T * cs + rem
  {
    ChunksAdjacent(T - 1, cs, rem);
  }

  /** The thread that runs source x when the T chunks cover T * cs + rem sources. */
  function Owner(x: nat, cs: nat, rem: nat): (t: nat)
    requires cs > 0 || x < rem
  {
    if x < rem * (cs + 1) then x / (cs + 1) else (x - rem) / cs
  }

  /** Integer division brackets x between two consecutive multiples of d. */
  lemma DivBracket(x: nat, d: nat)
    requires d > 0
    ensures (x / d) * d <= x < (x / d) * d + d
  {
  }

  /** Multiplication by a positive factor keeps a strict order in both directions. */
  lemma MulOrder(a: nat, b: nat, c: nat)
    requires c > 0
    ensures a < b <==> a * c < b * c
  {
    if a < b {
      assert b * c == a * c + (b - a) * c;
    } else {
      assert a * c == b * c + (a - b) * c;
    }
  }

  /** A source in one of the first rem big chunks: its owner is x / (cs + 1). */
  lemma OwnerBig(cs: nat, rem: nat, x: nat)
    requires x < rem * (cs + 1)
    ensures var t := x / (cs + 1);
            t < rem && ChunkStart(t, cs, rem) <= x < ChunkStop(t, cs, rem)
  {
    var t := x / (cs + 1);
    DivBracket(x, cs + 1);
    MulOrder(t, rem, cs + 1);
  }

  /** A source past the big chunks: its owner is (x - rem) / cs. */
  lemma OwnerSmall(T: nat, cs: nat, rem: nat, x: nat)
    requires rem <= T && rem * (cs + 1) <= x < T * cs + rem
    ensures cs > 0
    ensures var t := (x - rem) / cs;
            rem <= t < T && ChunkStart(t, cs, rem) <= x < ChunkStop(t, cs, rem)
  {
    assert rem * (cs + 1) == rem * cs + rem;
    var y := x - rem;
    assert rem * cs <= y < T * cs;
    var t := y / cs;
    DivBracket(y, cs);
    MulOrder(t, T, cs);
    MulOrder(t, rem, cs);
    assert t * cs + cs == (t + 1) * cs;
    MulOrder(rem, t + 1, cs);
  }

  /** Every source below T * cs + rem is run by its owner, a thread below T, and by no other. */
  lemma OwnerRuns(T: nat, cs: nat, rem: nat, x: nat)
    requires rem <= T && x < T * cs + rem
    ensures cs > 0 || x < rem
    ensures var t := Owner(x, cs, rem);
            t < T && ChunkStart(t, cs, rem) <= x < ChunkStop(t, cs, rem)
    ensures forall u :: ChunkStart(u, cs, rem) <= x < ChunkStop(u, cs, rem) ==> u == Owner(x, cs, rem)
  {
    if x < rem * (cs + 1) {
      OwnerBig(cs, rem, x);
      assert cs == 0 ==> rem * (cs + 1) == rem;
    } else {
      OwnerSmall(T, cs, rem, x);
    }
    var t := Owner(x, cs, rem);
    forall u | ChunkStart(u, cs, rem) <= x < ChunkStop(u, cs, rem)
      ensures u == t
    {
      if u != t {
        ChunksDisjoint(t, u, cs, rem, x);
      }
    }
  }

  /** How many of the threads 0, ..., T - 1 receive cs + 1 sources. */
  function BigChunks(T: nat, cs: nat, rem: nat): nat
  {
    if T == 0 then 0
    else BigChunks(T - 1, cs, rem) + (if ChunkStop(T - 1, cs, rem) - ChunkStart(T - 1, cs, rem) == cs + 1 then 1 else 0)
  }

  /** Exactly min(T, rem) threads receive the extra source, and sizes differ by at most one. */
  lemma {:induction false} BigChunksCount(T: nat, cs: nat, rem: nat)
    ensures BigChunks(T, cs, rem) == if T < rem then T else rem
  {
    if T > 0 {
      BigChunksCount(T - 1, cs, rem);
    }
  }
}
