/**
 * The dense graph store: an n x n matrix of 0/1 cells, created zeroed,
 * written one directed cell at a time and read back cell by cell. A null
 * graph pointer is modelled by a nullable `Graph?` argument.
 */
module DenseGraph {

  /** A snapshot of the matrix, row by row. */
  type Matrix = seq<seq<int>>

  ghost predicate IsSquare(m: Matrix, n: nat) {
    |m| == n && forall i :: 0 <= i < n ==> |m[i]| == n
  }

  /** Every cell holds 0 (no edge) or 1 (edge). */
  ghost predicate Binary(m: Matrix) {
    forall i, j :: 0 <= i < |m| && 0 <= j < |m[i]| ==> m[i][j] == 0 || m[i][j] == 1
  }

  ghost predicate Symmetric(m: Matrix, n: nat)
    requires IsSquare(m, n)
  {
    forall u, v :: 0 <= u < n && 0 <= v < n ==> m[u][v] == m[v][u]
  }

  function ZeroMatrix(n: nat): Matrix {
    seq(n, i => seq(n, j => 0))
  }

  /** The matrix after writing 1 into the single cell (u, v). */
  function PutCell(m: Matrix, u: nat, v: nat): Matrix
    requires u < |m| && v < |m[u]|
  {
    m[u := m[u][v := 1]]
  }

  /** One line of the edge file: both directions are written. */
  function PutBoth(m: Matrix, n: nat, e: (nat, nat)): (r: Matrix)
    requires IsSquare(m, n) && e.0 < n && e.1 < n
    ensures IsSquare(r, n)
  {
    PutCell(PutCell(m, e.0, e.1), e.1, e.0)
  }

  ghost predicate EdgesIn(edges: seq<(nat, nat)>, n: nat) {
    forall k :: 0 <= k < |edges| ==> edges[k].0 < n && edges[k].1 < n
  }

  /** The matrix after loading the edge list front to back. */
  function LoadAll(m: Matrix, n: nat, edges: seq<(nat, nat)>): (r: Matrix)
    requires IsSquare(m, n) && EdgesIn(edges, n)
    ensures IsSquare(r, n)
  {
    if edges == [] then m
    else PutBoth(LoadAll(m, n, edges[..|edges| - 1]), n, edges[|edges| - 1])
  }

  /** The edge list mentions (u, v) in one direction or the other. */
  ghost predicate Listed(edges: seq<(nat, nat)>, u: nat, v: nat) {
    exists k :: 0 <= k < |edges| && (edges[k] == (u, v) || edges[k] == (v, u))
  }

  /** putEdge writes exactly the cell (u, v): every other cell, (v, u) included, keeps its value. */
  lemma PutCellOnlyChangesOneCell(m: Matrix, n: nat, u: nat, v: nat)
    requires IsSquare(m, n) && u < n && v < n
    ensures IsSquare(PutCell(m, u, v), n)
    ensures PutCell(m, u, v)[u][v] == 1
    ensures forall i, j :: 0 <= i < n && 0 <= j < n && (i, j) != (u, v) ==>
              PutCell(m, u, v)[i][j] == m[i][j]
  {
  }

  /** Storing an edge twice leaves the same matrix as storing it once. */
  lemma PutCellIdempotent(m: Matrix, n: nat, u: nat, v: nat)
    requires IsSquare(m, n) && u < n && v < n
    ensures PutCell(PutCell(m, u, v), u, v) == PutCell(m, u, v)
  {
    assert PutCell(m, u, v)[u][v := 1] == PutCell(m, u, v)[u];
  }

  /** The storage is directed: from a zero matrix, putEdge(u, v) alone does not give (v, u). */
  lemma PutCellIsDirected(n: nat, u: nat, v: nat)
    requires u < n && v < n && u != v
    ensures PutCell(ZeroMatrix(n), u, v)[u][v] == 1
    ensures PutCell(ZeroMatrix(n), u, v)[v][u] == 0
  {
  }

  /** Loading keeps every cell 0 or 1. */
  lemma {:induction false} LoadAllBinary(m: Matrix, n: nat, edges: seq<(nat, nat)>)
    requires IsSquare(m, n) && EdgesIn(edges, n) && Binary(m)
    ensures Binary(LoadAll(m, n, edges))
  {
    if edges != [] {
      LoadAllBinary(m, n, edges[..|edges| - 1]);
    }
  }

  /** Inserting both directions of every edge keeps a symmetric matrix symmetric. */
  lemma {:induction false} LoadAllSymmetric(m: Matrix, n: nat, edges: seq<(nat, nat)>)
    requires IsSquare(m, n) && EdgesIn(edges, n) && Symmetric(m, n)
    ensures Symmetric(LoadAll(m, n, edges), n)
  {
    if edges != [] {
      LoadAllSymmetric(m, n, edges[..|edges| - 1]);
    }
  }

  /**
   * After loading an edge list into a zeroed matrix, the cell (u, v) is 1
   * exactly when the list holds the edge (u, v) or (v, u), and 0 otherwise.
   */
  lemma {:induction false} LoadAllFromZero(n: nat, edges: seq<(nat, nat)>, u: nat, v: nat)
    requires EdgesIn(edges, n) && u < n && v < n
    ensures IsSquare(ZeroMatrix(n), n)
    ensures LoadAll(ZeroMatrix(n), n, edges)[u][v] == (if Listed(edges, u, v) then 1 else 0)
  {
    if edges != [] {
      var init := edges[..|edges| - 1];
      LoadAllFromZero(n, init, u, v);
      var e := edges[|edges| - 1];
      if Listed(init, u, v) {
        var k :| 0 <= k < |init| && (init[k] == (u, v) || init[k] == (v, u));
        assert edges[k] == init[k];
      }
      assert forall k :: 0 <= k < |init| ==> init[k] == edges[k];
      if e == (u, v) || e == (v, u) {
        assert edges[|edges| - 1] == e;
      }
    }
  }

  /** `graph_t`: the node count and the n x n cell matrix. */
  class Graph {
    const n: nat
    const adj: array2<int>

    ghost predicate Valid()
      reads adj
    {
      adj.Length0 == n && adj.Length1 == n &&
      forall i, j :: 0 <= i < n && 0 <= j < n ==> adj[i, j] == 0 || adj[i, j] == 1
    }

    /** The current cells as a matrix value. */
    ghost function Cells(): (m: Matrix)
      reads adj
      requires adj.Length0 == n && adj.Length1 == n
      ensures IsSquare(m, n)
    {
      seq(n, i requires 0 <= i < n reads adj =>
        seq(n, j requires 0 <= j < n reads adj => adj[i, j]))
    }

    /**
     * `graph_create` on a non-null out-pointer: an n x n matrix is allocated
     * and every cell zeroed row by row. The edge count m plays no part.
     */
    constructor (n: nat, m: nat)
      ensures this.n == n && fresh(adj) && Valid()
      ensures Cells() == ZeroMatrix(n)
    {
      this.n := n;
      adj := new int[n, n];
      new;
      var i := 0;
      while i < n
        invariant 0 <= i <= n
        invariant forall a, b :: 0 <= a < i && 0 <= b < n ==> adj[a, b] == 0
      {
        var j := 0;
        while j < n
          invariant 0 <= j <= n
          invariant forall a, b :: 0 <= a < i && 0 <= b < n ==> adj[a, b] == 0
          invariant forall b :: 0 <= b < j ==> adj[i, b] == 0
        {
          adj[i, j] := 0;
          j := j + 1;
        }
        i := i + 1;
      }
      assert Cells() == ZeroMatrix(n) by {
        forall a | 0 <= a < n
          ensures Cells()[a] == ZeroMatrix(n)[a]
        {
        }
      }
    }
  }

  /** The caller's `graph_t *` variable that `graph_create` fills in. */
  class GraphSlot {
    var graph: Graph?

    constructor ()
      ensures graph == null
    {
      graph := null;
    }
  }

  /**
   * `graph_create(&slot, n, m)`. A null out-pointer makes it return at once
   * without allocating anything; otherwise the slot receives a new all-zero graph.
   */
  method Create(slot: GraphSlot?, n: nat, m: nat)
    modifies slot
    ensures slot != null ==> slot.graph != null && fresh(slot.graph) && fresh(slot.graph.adj)
    ensures slot != null ==> slot.graph.n == n && slot.graph.Valid()
    ensures slot != null ==> slot.graph.Cells() == ZeroMatrix(n)
  {
    if slot != null {
      slot.graph := new Graph(n, m);
    }
  }

  /**
   * `graph_putEdge`: writes 1 into the directed cell (orig, dest) and nothing
   * else; a null graph is left alone.
   */
  method PutEdge(g: Graph?, orig: nat, dest: nat)
    requires g != null ==> g.Valid() && orig < g.n && dest < g.n
    modifies if g != null then {g.adj} else {}
    ensures g != null ==> g.Valid()
    ensures g != null ==> g.Cells() == PutCell(old(g.Cells()), orig, dest)
  {
    if g != null {
      g.adj[orig, dest] := 1;
      assert g.Cells() == PutCell(old(g.Cells()), orig, dest) by {
        forall a | 0 <= a < g.n
          ensures g.Cells()[a] == PutCell(old(g.Cells()), orig, dest)[a]
        {
        }
      }
    }
  }

  /**
   * `graph_getEdge`: the stored cell, which is 0 or 1, for a graph; -1, and
   * only then, for a null graph.
   */
  function GetEdge(g: Graph?, orig: nat, dest: nat): (r: int)
    reads if g != null then {g.adj} else {}
    requires g != null ==> g.Valid() && orig < g.n && dest < g.n
    ensures g == null <==> r == -1
    ensures g != null ==> r == g.Cells()[orig][dest] && (r == 0 || r == 1)
  {
    if g != null then g.adj[orig, dest] else -1
  }

  /**
   * The edge-loading loop of the drivers: every line (orig, dest) of the
   * edge list is stored in both directions.
   */
  method LoadEdges(g: Graph, edges: seq<(nat, nat)>)
    requires g.Valid() && EdgesIn(edges, g.n)
    modifies g.adj
    ensures g.Valid()
    ensures g.Cells() == LoadAll(old(g.Cells()), g.n, edges)
  {
    var i := 0;
    while i < |edges|
      invariant 0 <= i <= |edges|
      invariant g.Valid()
      invariant g.Cells() == LoadAll(old(g.Cells()), g.n, edges[..i])
    {
      var (orig, dest) := edges[i];
      PutEdge(g, orig, dest);
      PutEdge(g, dest, orig);
      assert edges[..i + 1][..i] == edges[..i];
      i := i + 1;
    }
    assert edges[..i] == edges;
  }

  /** Loading an edge file into a fresh graph yields a symmetric 0/1 matrix. */
  lemma LoadedGraphIsSymmetric(n: nat, edges: seq<(nat, nat)>)
    requires EdgesIn(edges, n)
    ensures IsSquare(ZeroMatrix(n), n)
    ensures Symmetric(LoadAll(ZeroMatrix(n), n, edges), n)
    ensures Binary(LoadAll(ZeroMatrix(n), n, edges))
  {
    LoadAllSymmetric(ZeroMatrix(n), n, edges);
    LoadAllBinary(ZeroMatrix(n), n, edges);
  }
}
