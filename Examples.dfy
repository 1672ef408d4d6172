/**
 * Small client programs over both representations: they build a graph
 * through the public operations and state the exact result, which follows
 * from the operations' contracts.
 */
module Examples {
  import opened Seqs
  import opened Reach
  import opened ListSpec
  import opened ListGraph
  import opened MatrixGraph

  /**
   * The diamond 0 -> 2, 0 -> 1, 2 -> 3, 1 -> 3 stored as lists: the visit
   * follows the order in which the edges were added, so 2 comes before 1
   * and 3 is discovered from 2.
   */
  method DiamondListBfs() returns (order: seq<int>)
    ensures order == [0, 2, 1, 3]
  {
    var g := new Graph(4);
    assert g.adj == [[], [], [], []];
    g.AddEdge(0, 2);
    assert g.adj[0] == [2];
    assert g.adj == [[2], [], [], []];
    g.AddEdge(0, 1);
    assert g.adj[0] == [2, 1];
    assert g.adj == [[2, 1], [], [], []];
    g.AddEdge(2, 3);
    assert g.adj[2] == [3];
    assert g.adj == [[2, 1], [], [3], []];
    g.AddEdge(1, 3);
    assert g.adj[1] == [3];
    assert g.adj == [[2, 1], [3], [3], []];
    order := g.BFS(0);
    DiamondListOrder(g.adj);
    BfsOrderUnique(g.adj, 0, order, [0, 2, 1, 3]);
  }

  lemma DiamondListOrder(a: AdjList)
    requires a == [[2, 1], [3], [3], []]
    ensures IsBfsOrder(a, 0, [0, 2, 1, 3])
  {
    var order, par := [0, 2, 1, 3], [0, 0, 0, 1];
    var e := EdgeSet(a);
    assert Discovered(e, order, par, 1) && Discovered(e, order, par, 2);
    assert Discovered(e, order, par, 3);
    assert SiblingsOrdered(a, order, par, 1, 2);
    assert BfsOrder(e, 0, order, par);
  }

  /**
   * The same diamond stored as a matrix: rows are scanned by increasing
   * column, so 1 comes before 2 and 3 is discovered from 1.
   */
  method DiamondMatrixBfs() returns (order: seq<int>)
    ensures order == [0, 1, 2, 3]
  {
    var g := new GraphMatrix(4);
    g.SetEdge(0, 2);
    g.SetEdge(0, 1);
    g.SetEdge(2, 3);
    g.SetEdge(1, 3);
    order := g.BFS(0);
    var e := g.EdgeSet();
    assert forall u, v :: (u, v) in e <==> (u, v) in {(0, 1), (0, 2), (1, 3), (2, 3)};
    assert e == {(0, 1), (0, 2), (1, 3), (2, 3)};
    DiamondMatrixOrder(e);
    ColumnBfsOrderUnique(e, 0, order, [0, 1, 2, 3]);
  }

  lemma DiamondMatrixOrder(e: Edges)
    requires e == {(0, 1), (0, 2), (1, 3), (2, 3)}
    ensures IsColumnBfsOrder(e, 0, [0, 1, 2, 3])
  {
    var order, par := [0, 1, 2, 3], [0, 0, 0, 1];
    assert Discovered(e, order, par, 1) && Discovered(e, order, par, 2);
    assert Discovered(e, order, par, 3);
    assert BfsOrder(e, 0, order, par);
  }

  /** Transposing a matrix graph twice gives back every entry, values unchanged. */
  method MatrixTransposeTwice(g: GraphMatrix) returns (tt: GraphMatrix)
    requires g.Valid()
    ensures tt.Valid() && tt.n == g.n
    ensures forall i, j :: 0 <= i < g.n && 0 <= j < g.n ==> tt.adjMat[i, j] == g.adjMat[i, j]
  {
    var t := g.GetTranspose();
    tt := t.GetTranspose();
  }

  /** With an edge i -> j for every i < j, the last vertex is the universal sink. */
  method SinkOfTotalOrder(n: nat) returns (r: int)
    requires n >= 1
    ensures r == n - 1
  {
    var g := new GraphMatrix(n);
    for i := 0 to n
      modifies g.adjMat
      invariant forall x, y :: 0 <= x < n && 0 <= y < n ==> g.adjMat[x, y] == if x < i && x < y then 1 else 0
    {
      for j := i + 1 to n
        modifies g.adjMat
        invariant forall x, y :: 0 <= x < n && 0 <= y < n ==>
          g.adjMat[x, y] == if (x < i && x < y) || (x == i && i < y < j) then 1 else 0
      {
        g.SetEdge(i, j);
      }
    }
    r := g.FindUniversalSink();
    assert g.IsUniversalSink(n - 1);
    if r != -1 {
      g.SinkUnique(r, n - 1);
    }
  }

  /** A directed cycle through every vertex has no universal sink. */
  method SinkOfCycle(n: nat) returns (r: int)
    requires n >= 1
    ensures r == -1
  {
    var g := new GraphMatrix(n);
    for i := 0 to n
      modifies g.adjMat
      invariant forall x, y :: 0 <= x < n && 0 <= y < n ==>
        g.adjMat[x, y] == if x < i && y == (x + 1) % n then 1 else 0
    {
      g.SetEdge(i, (i + 1) % n);
    }
    r := g.FindUniversalSink();
    forall s | 0 <= s < n
      ensures !g.IsUniversalSink(s)
    {
      assert g.adjMat[s, (s + 1) % n] == 1;
    }
  }

  /**
   * The square of the path 0 -> 1 -> 2 adds 0 -> 2; the single step comes
   * first in the row.
   */
  method SquareOfPath() returns (rows: AdjList)
    ensures rows == [[1, 2], [2], []]
  {
    var g := new Graph(3);
    assert g.adj == [[], [], []];
    g.AddEdge(0, 1);
    assert g.adj[0] == [1];
    assert g.adj == [[1], [], []];
    g.AddEdge(1, 2);
    assert g.adj[1] == [2];
    assert g.adj == [[1], [2], []];
    var g2 := g.SquareGraph();
    rows := g2.AdjacencyList();
    PathSquare(g.adj);
  }

  lemma PathSquare(a: AdjList)
    requires a == [[1], [2], []]
    ensures Squared(a) == [[1, 2], [2], []]
  {
    assert a[0][1..] == [] && a[1][1..] == [];
    assert OneHop(a, 0) == [1] && OneHop(a, 1) == [2] && OneHop(a, 2) == [];
    assert TwoHop(a, []) == [];
    assert TwoHop(a, a[0]) == [2];
    assert TwoHop(a, a[1]) == a[2] + TwoHop(a, []);
    assert [2][1..] == [];
    assert SquareRow(a, 0) == [1, 2];
    assert SquareRow(a, 1) == [2];
    assert SquareRow(a, 2) == [];
  }

  /**
   * Built from the same edges, the list square and the matrix square agree
   * off the diagonal. On the diagonal they differ: the list square never
   * holds u -> u, while the matrix square holds it exactly when u has a loop
   * or lies on a cycle of length two.
   */
  method CompareSquares(g: Graph, m: GraphMatrix) returns (g2: Graph, m2: GraphMatrix)
    requires g.Valid() && m.Valid() && g.numVertices == m.n && EdgeSet(g.adj) == m.EdgeSet()
    ensures g2.Valid() && m2.Valid() && g2.numVertices == m.n && m2.n == m.n
    ensures g2.adj == Squared(g.adj)
    ensures forall u, w :: 0 <= u < m.n && 0 <= w < m.n && u != w ==>
      (w in g2.adj[u] <==> m2.adjMat[u, w] == 1)
    ensures forall u :: 0 <= u < m.n ==> u !in g2.adj[u]
    ensures forall u :: 0 <= u < m.n ==>
      (m2.adjMat[u, u] == 1 <==> (u, u) in m.EdgeSet() || exists k :: (u, k) in m.EdgeSet() && (k, u) in m.EdgeSet())
  {
    g2 := g.SquareGraph();
    m2 := m.SquareGraph();
    ghost var a, e := g.adj, m.EdgeSet();
    forall u, w | 0 <= u < m.n && 0 <= w < m.n
      ensures w in g2.adj[u] <==> w != u && (m.adjMat[u, w] != 0 || m.TwoStepBelow(u, w, m.n))
      ensures m.TwoStepBelow(u, w, m.n) <==> exists k :: (u, k) in e && (k, w) in e
    {
      SquareRowMembers(a, u, w);
      if exists v :: v in a[u] && w in a[v] {
        var v :| v in a[u] && w in a[v];
        assert (u, v) in e && (v, w) in e;
      }
      if m.TwoStepBelow(u, w, m.n) {
        var v :| 0 <= v < m.n && m.adjMat[u, v] != 0 && m.adjMat[v, w] != 0;
        assert (u, v) in EdgeSet(a) && (v, w) in EdgeSet(a);
      }
    }
  }

  /**
   * On the two-cycle 0 -> 1 -> 0 the list square keeps only the other
   * vertex in each row, while the matrix square also marks the diagonal.
   */
  method SquaresOfTwoCycle() returns (rows: AdjList, diagonal: seq<int>)
    ensures rows == [[1], [0]] && diagonal == [1, 1]
  {
    var g := new Graph(2);
    assert g.adj == [[], []];
    g.AddEdge(0, 1);
    assert g.adj[0] == [1];
    assert g.adj == [[1], []];
    g.AddEdge(1, 0);
    assert g.adj[1] == [0];
    assert g.adj == [[1], [0]];
    var m := new GraphMatrix(2);
    m.SetEdge(0, 1);
    m.SetEdge(1, 0);
    assert EdgeSet(g.adj) == m.EdgeSet() == {(0, 1), (1, 0)};
    var g2, m2 := CompareSquares(g, m);
    rows := g2.AdjacencyList();
    diagonal := [m2.adjMat[0, 0], m2.adjMat[1, 1]];
    assert (0, 1) in m.EdgeSet() && (1, 0) in m.EdgeSet();
    TwoCycleSquare(g.adj, rows);
  }

  lemma TwoCycleSquare(a: AdjList, b: AdjList)
    requires a == [[1], [0]] && b == Squared(a)
    ensures b == [[1], [0]]
  {
    SquareRowNoDup(a, 0);
    SquareRowNoDup(a, 1);
    SquareRowMembers(a, 0, 1);
    SquareRowMembers(a, 1, 0);
    SquaredWellFormed(a);
    OnlyElement(b[0], 1);
    OnlyElement(b[1], 0);
  }

  /** Simplifying 0 -> 1, 1 -> 0, 1 -> 1 and a repeated 0 -> 1 leaves the single edge {0, 1}. */
  method SimplifyTwoCycle() returns (rows: AdjList)
    ensures rows == [[1], [0]]
  {
    var g := new Graph(2);
    assert g.adj == [[], []];
    g.AddEdge(0, 1);
    assert g.adj[0] == [1];
    assert g.adj == [[1], []];
    g.AddEdge(1, 0);
    assert g.adj[1] == [0];
    assert g.adj == [[1], [0]];
    g.AddEdge(1, 1);
    assert g.adj[1] == [0, 1];
    assert g.adj == [[1], [0, 1]];
    g.AddEdge(0, 1);
    assert g.adj[0] == [1, 1];
    assert g.adj == [[1, 1], [0, 1]];
    var s := g.ToSimpleUndirected();
    rows := s.AdjacencyList();
    TwoCycleSimple(g.adj, rows);
  }

  lemma TwoCycleSimple(a: AdjList, b: AdjList)
    requires a == [[1, 1], [0, 1]] && IsSimpleFormOf(b, a)
    ensures b == [[1], [0]]
  {
    assert SimpleEdge(a, 0, 1) && SimpleEdge(a, 1, 0);
    assert !SimpleEdge(a, 0, 0) && !SimpleEdge(a, 1, 1);
    OnlyElement(b[0], 1);
    OnlyElement(b[1], 0);
  }

  /** A sequence without repeats whose only member is x is [x]. */
  lemma OnlyElement(s: seq<int>, x: int)
    requires NoDup(s) && forall y :: y in s <==> y == x
    ensures s == [x]
  {
    NoDupCard(s);
    assert (set y | y in s) == {x};
    assert s[0] in s;
  }
}
