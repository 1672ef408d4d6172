/**
 * The adjacency-matrix directed graph over the vertices 0..n-1: entry
 * [u, v] is non-zero exactly when there is an edge u -> v. Only SetEdge
 * changes a graph; transpose and square build a fresh graph, BFS returns
 * the visit order and FindUniversalSink the sink or -1.
 */
module MatrixGraph {
  import opened Seqs
  import opened Reach

  /**
   * order is the breadth-first visit order over the edges e from start when
   * every vertex scans its row by increasing column.
   */
  ghost predicate IsColumnBfsOrder(e: Edges, start: int, order: seq<int>) {
    exists par :: BfsOrder(e, start, order, par) && SiblingsIncreasing(order, par)
  }

  /** The start vertex and the matrix determine the breadth-first visit order. */
  lemma ColumnBfsOrderUnique(e: Edges, start: int, o1: seq<int>, o2: seq<int>)
    requires IsColumnBfsOrder(e, start, o1) && IsColumnBfsOrder(e, start, o2)
    ensures o1 == o2
  {
    var p1 :| BfsOrder(e, start, o1, p1) && SiblingsIncreasing(o1, p1);
    var p2 :| BfsOrder(e, start, o2, p2) && SiblingsIncreasing(o2, p2);
    IncreasingRanked(o1, p1);
    IncreasingRanked(o2, p2);
    BfsUnique(e, ColumnRank, start, o1, p1, o2, p2);
  }

  /** Siblings found in one row scan are ranked by their column. */
  function ColumnRank(x: int, y: int): int {
    y
  }

  lemma IncreasingRanked(order: seq<int>, par: seq<int>)
    requires SiblingsIncreasing(order, par)
    ensures SiblingsRanked(ColumnRank, order, par)
  {
    forall i, k | 0 < i < k < |order|
      ensures RankedPair(ColumnRank, order, par, i, k)
    {
      if par[i] == par[k] && 0 <= par[i] < |order| {
        assert order[i] < order[k];
        assert ColumnRank(order[par[i]], order[i]) == order[i];
      }
    }
  }

  /** The invariant of the BFS queue: disc is the visit order followed by the queue. */
  ghost predicate ColumnFrontier(e: Edges, n: int, start: int, disc: seq<int>, par: seq<int>) {
    Within(e, n) && |disc| >= 1 && disc[0] == start && NoDup(disc) && InRange(disc, n) &&
    |par| == |disc| && DiscoveryTree(e, disc, par) && Fifo(par) && SiblingsIncreasing(disc, par)
  }

  /**
   * Midway through the scan of row disc[p]: the vertices before position p
   * are fully scanned, the successors of disc[p] below column c are listed,
   * and disc[p]'s children so far lie below c.
   */
  ghost predicate ColumnScan(e: Edges, n: int, start: int, disc: seq<int>, par: seq<int>, p: int, c: int) {
    ColumnFrontier(e, n, start, disc, par) && 0 <= p < |disc| && 0 <= c <= n &&
    (forall i :: 0 < i < |par| ==> par[i] <= p) &&
    ScannedUpTo(e, disc, p) &&
    (forall w :: 0 <= w < c && (disc[p], w) in e ==> w in disc) &&
    (forall i :: 0 < i < |par| && par[i] == p ==> disc[i] < c)
  }

  /** A column that is no edge, or an edge to a listed vertex, is skipped. */
  lemma ColumnSkip(e: Edges, n: int, start: int, disc: seq<int>, par: seq<int>, p: int, c: int)
    requires ColumnScan(e, n, start, disc, par, p, c) && c < n
    requires (disc[p], c) !in e || c in disc
    ensures ColumnScan(e, n, start, disc, par, p, c + 1)
  {
  }

  /** An edge to a vertex not yet listed appends it, with parent p. */
  lemma ColumnPush(e: Edges, n: int, start: int, disc: seq<int>, par: seq<int>, p: int, c: int)
    requires ColumnScan(e, n, start, disc, par, p, c) && c < n
    requires (disc[p], c) in e && c !in disc
    ensures ColumnScan(e, n, start, disc + [c], par + [p], p, c + 1)
  {
    var d, pr := disc + [c], par + [p];
    Discover(e, disc, par, p, c);
    assert NoDup(d) && InRange(d, n);
    forall i, k | 0 < i < k < |d| && pr[i] == pr[k]
      ensures d[i] < d[k]
    {
      assert d[i] == disc[i] && pr[i] == par[i];
      if k < |disc| {
        assert d[k] == disc[k] && pr[k] == par[k];
      }
    }
    assert d[p] == disc[p];
    assert ScannedUpTo(e, d, p);
    forall i | 0 < i < |pr| && pr[i] == p
      ensures d[i] < c + 1
    {
      if i < |disc| {
        assert d[i] == disc[i] && pr[i] == par[i];
      }
    }
  }

  /** After the whole row of disc[p] is scanned, every position up to p is scanned. */
  lemma ColumnDone(e: Edges, n: int, start: int, disc: seq<int>, par: seq<int>, p: int)
    requires ColumnScan(e, n, start, disc, par, p, n)
    ensures ScannedUpTo(e, disc, p + 1)
  {
  }

  /** A subset of b as large as b is b. */
  lemma SubsetSameCard(a: set<int>, b: set<int>)
    requires a <= b && |a| == |b|
    ensures a == b
  {
    var rest := b - a;
    assert b == a + rest && a * rest == {};
    assert |rest| == 0;
    assert rest == {};
  }

  class GraphMatrix {
    const n: nat
    const adjMat: array2<int>

    ghost predicate Valid() {
      adjMat.Length0 == n && adjMat.Length1 == n
    }

    /** An n-vertex graph with every entry 0: no edges. */
    constructor (n: nat)
      ensures Valid() && this.n == n && fresh(adjMat)
      ensures forall i, j :: 0 <= i < n && 0 <= j < n ==> adjMat[i, j] == 0
    {
      this.n := n;
      adjMat := new int[n, n]((i, j) => 0);
    }

    /** The edges of the graph: the positions of the non-zero entries. */
    ghost function EdgeSet(): (e: Edges)
      reads adjMat
      requires Valid()
      ensures Within(e, n)
      ensures forall u, v :: (u, v) in e <==> 0 <= u < n && 0 <= v < n && adjMat[u, v] != 0
    {
      set u, v | 0 <= u < n && 0 <= v < n && adjMat[u, v] != 0 :: (u, v)
    }

    /** Store value at [u, v] when both are vertices; otherwise do nothing. */
    method SetEdge(u: int, v: int, value: int := 1)
      requires Valid()
      modifies adjMat
      ensures 0 <= u < n && 0 <= v < n ==> adjMat[u, v] == value
      ensures forall i, j :: 0 <= i < n && 0 <= j < n && (i != u || j != v) ==>
        adjMat[i, j] == old(adjMat[i, j])
    {
      if u < 0 || u >= n || v < 0 || v >= n {
        return;
      }
      adjMat[u, v] := value;
    }

    function Size(): (r: nat)
      requires Valid()
      ensures r == adjMat.Length0 == adjMat.Length1
    {
      n
    }

    /** The entries, row by row, as a value; non-zero exactly at the edges. */
    function GetMatrix(): (r: seq<seq<int>>)
      reads adjMat
      requires Valid()
      ensures |r| == n && forall i :: 0 <= i < n ==> |r[i]| == n
      ensures forall i, j :: 0 <= i < n && 0 <= j < n ==> r[i][j] == adjMat[i, j]
      ensures forall i, j :: 0 <= i < n && 0 <= j < n ==> (r[i][j] != 0 <==> (i, j) in EdgeSet())
    {
      seq(n, i reads adjMat requires 0 <= i < n =>
        seq(n, j reads adjMat requires 0 <= j < n => adjMat[i, j]))
    }

    /** A fresh graph whose entry [j, i] is this graph's entry [i, j]: every edge reversed. */
    method GetTranspose() returns (gT: GraphMatrix)
      requires Valid()
      ensures fresh(gT) && fresh(gT.adjMat) && gT.Valid() && gT.n == n
      ensures forall i, j :: 0 <= i < n && 0 <= j < n ==> gT.adjMat[j, i] == adjMat[i, j]
      ensures gT.EdgeSet() == Reverse(EdgeSet())
    {
      gT := new GraphMatrix(n);
      for i := 0 to n
        modifies gT.adjMat
        invariant forall x, y :: 0 <= x < n && 0 <= y < n ==>
          gT.adjMat[y, x] == if x < i then adjMat[x, y] else 0
      {
        for j := 0 to n
          modifies gT.adjMat
          invariant forall x, y :: 0 <= x < n && 0 <= y < n ==>
            gT.adjMat[y, x] == if x < i || (x == i && y < j) then adjMat[x, y] else 0
        {
          gT.adjMat[j, i] := adjMat[i, j];
        }
      }
      assert forall x, y :: (x, y) in gT.EdgeSet() <==> (x, y) in Reverse(EdgeSet());
    }

    /** Some k has edges i -> k and k -> j, with k below bound. */
    ghost predicate TwoStepBelow(i: int, j: int, bound: int)
      reads adjMat
      requires Valid() && 0 <= i < n && 0 <= j < n && bound <= n
    {
      exists k :: 0 <= k < bound && adjMat[i, k] != 0 && adjMat[k, j] != 0
    }

    /**
     * A fresh graph whose entry [i, j] is 1 when j is reachable from i by
     * one or two edges, and 0 otherwise (the diagonal included).
     */
    method SquareGraph() returns (g2: GraphMatrix)
      requires Valid()
      ensures fresh(g2) && fresh(g2.adjMat) && g2.Valid() && g2.n == n
      ensures forall i, j :: 0 <= i < n && 0 <= j < n ==>
        g2.adjMat[i, j] == if adjMat[i, j] != 0 || TwoStepBelow(i, j, n) then 1 else 0
    {
      g2 := new GraphMatrix(n);
      // copy the edges, as 1
      for i := 0 to n
        modifies g2.adjMat
        invariant forall x, y :: 0 <= x < n && 0 <= y < n ==>
          g2.adjMat[x, y] == if x < i && adjMat[x, y] != 0 then 1 else 0
      {
        for j := 0 to n
          modifies g2.adjMat
          invariant forall x, y :: 0 <= x < n && 0 <= y < n ==>
            g2.adjMat[x, y] == if (x < i || (x == i && y < j)) && adjMat[x, y] != 0 then 1 else 0
        {
          if adjMat[i, j] != 0 {
            g2.adjMat[i, j] := 1;
          }
        }
      }
      // then add the two-step paths
      for i := 0 to n
        modifies g2.adjMat
        invariant forall x, y :: 0 <= x < n && 0 <= y < n ==>
          g2.adjMat[x, y] == if adjMat[x, y] != 0 || (x < i && TwoStepBelow(x, y, n)) then 1 else 0
      {
        for k := 0 to n
          modifies g2.adjMat
          invariant forall x, y :: 0 <= x < n && 0 <= y < n ==>
            g2.adjMat[x, y] ==
              if adjMat[x, y] != 0 || (x < i && TwoStepBelow(x, y, n)) || (x == i && TwoStepBelow(x, y, k))
              then 1 else 0
        {
          if adjMat[i, k] != 0 {
            AddTwoStepsVia(g2, i, k);
          }
        }
      }
    }

    /** The square's innermost loop: mark [i, j] for every edge k -> j, given the edge i -> k. */
    method AddTwoStepsVia(g2: GraphMatrix, i: int, k: int)
      requires Valid() && g2.Valid() && g2.n == n && g2.adjMat != adjMat
      requires 0 <= i < n && 0 <= k < n && adjMat[i, k] != 0
      modifies g2.adjMat
      ensures forall x, y :: 0 <= x < n && 0 <= y < n ==>
        g2.adjMat[x, y] == if x == i && adjMat[k, y] != 0 then 1 else old(g2.adjMat[x, y])
    {
      for j := 0 to n
        modifies g2.adjMat
        invariant forall x, y :: 0 <= x < n && 0 <= y < n ==>
          g2.adjMat[x, y] == if x == i && y < j && adjMat[k, y] != 0 then 1 else old(g2.adjMat[x, y])
      {
        if adjMat[k, j] != 0 {
          g2.adjMat[i, j] := 1;
        }
      }
    }

    /**
     * Breadth-first visit from start: the vertices reachable from start,
     * each once, in the order a FIFO queue discovers them when every vertex
     * scans its row by increasing column. Empty when start is not a vertex.
     */
    method BFS(start: int) returns (order: seq<int>)
      requires Valid()
      ensures !(0 <= start < n) ==> order == []
      ensures 0 <= start < n ==>
        |order| <= n &&
        (forall x :: x in order <==> Reachable(EdgeSet(), start, x)) &&
        IsColumnBfsOrder(EdgeSet(), start, order) && ByDistance(EdgeSet(), start, order)
    {
      order := [];
      if start < 0 || start >= n {
        return;
      }
      ghost var e := EdgeSet();
      var visited := new bool[n](_ => false);
      visited[start] := true;
      var q := [start];
      ghost var par := [0];
      while q != []
        invariant ColumnFrontier(e, n, start, order + q, par) && |order + q| <= n
        invariant forall i :: 0 < i < |par| ==> par[i] < |order|
        invariant ScannedUpTo(e, order + q, |order|)
        invariant forall x :: 0 <= x < n ==> (visited[x] <==> x in order + q)
        decreases n - |order|
      {
        var u := q[0];
        assert order + q == (order + [u]) + q[1..];
        order, q := order + [u], q[1..];
        q, par := ScanRow(u, visited, q, order, par, start);
        DistinctBound(order + q, n);
      }
      assert order + q == order;
      ScannedBfs(e, start, order, par);
      BfsByDistance(e, start, order, par);
      DistinctBound(order, n);
    }

    /**
     * The BFS scan of u, the vertex just moved from the queue to the visit
     * order: push every unvisited v with a non-zero entry [u, v], by
     * increasing v, marking it.
     */
    method ScanRow(u: int, visited: array<bool>, q: seq<int>,
                   ghost order: seq<int>, ghost par: seq<int>, ghost start: int)
      returns (q': seq<int>, ghost par': seq<int>)
      requires Valid() && visited.Length == n
      requires |order| >= 1 && order[|order| - 1] == u
      requires ColumnFrontier(EdgeSet(), n, start, order + q, par)
      requires forall i :: 0 < i < |par| ==> par[i] < |order| - 1
      requires ScannedUpTo(EdgeSet(), order + q, |order| - 1)
      requires forall x :: 0 <= x < n ==> (visited[x] <==> x in order + q)
      modifies visited
      ensures ColumnFrontier(EdgeSet(), n, start, order + q', par')
      ensures forall i :: 0 < i < |par'| ==> par'[i] < |order|
      ensures ScannedUpTo(EdgeSet(), order + q', |order|)
      ensures forall x :: 0 <= x < n ==> (visited[x] <==> x in order + q')
    {
      ghost var e := EdgeSet();
      ghost var p := |order| - 1;
      ghost var disc := order + q;
      assert disc[p] == u;
      q', par' := q, par;
      for v := 0 to n
        invariant disc == order + q' && ColumnScan(e, n, start, disc, par', p, v)
        invariant forall x :: 0 <= x < n ==> (visited[x] <==> x in disc)
      {
        if adjMat[u, v] != 0 && !visited[v] {
          ColumnPush(e, n, start, disc, par', p, v);
          visited[v] := true;
          q', par', disc := q' + [v], par' + [p], disc + [v];
        } else {
          ColumnSkip(e, n, start, disc, par', p, v);
        }
      }
      ColumnDone(e, n, start, disc, par', p);
    }

    /** s has no outgoing edge, and every other vertex has an edge to s. */
    ghost predicate IsUniversalSink(s: int)
      reads adjMat
      requires Valid()
    {
      0 <= s < n &&
      (forall j :: 0 <= j < n ==> adjMat[s, j] == 0) &&
      (forall i :: 0 <= i < n && i != s ==> adjMat[i, s] != 0)
    }

    /**
     * The universal sink, or -1 when there is none: one pass along the
     * matrix leaves a single candidate, which is then checked.
     */
    method FindUniversalSink() returns (r: int)
      requires Valid()
      ensures r == -1 <==> forall s :: !IsUniversalSink(s)
      ensures r != -1 ==> IsUniversalSink(r)
    {
      var i, j := 0, 0;
      while i < n && j < n
        invariant 0 <= i <= n && 0 <= j <= n
        invariant forall s :: 0 <= s < i ==> !IsUniversalSink(s)
        invariant forall s :: 0 <= s < j && s != i ==> !IsUniversalSink(s)
        decreases (n - i) + (n - j)
      {
        if adjMat[i, j] != 0 {
          i := i + 1;
        } else {
          j := j + 1;
        }
      }
      if i >= n {
        return -1;
      }
      var candidate := i;
      for col := 0 to n
        invariant forall c :: 0 <= c < col ==> adjMat[candidate, c] == 0
      {
        if adjMat[candidate, col] != 0 {
          return -1;
        }
      }
      for row := 0 to n
        invariant forall c :: 0 <= c < row && c != candidate ==> adjMat[c, candidate] != 0
      {
        if row == candidate {
          continue;
        }
        if adjMat[row, candidate] == 0 {
          return -1;
        }
      }
      assert IsUniversalSink(candidate);
      return candidate;
    }

    /** At most one vertex is a universal sink. */
    lemma SinkUnique(s: int, t: int)
      requires Valid() && IsUniversalSink(s) && IsUniversalSink(t)
      ensures s == t
    {
      var entry := adjMat[s, t];
      assert entry == 0;
      assert s != t ==> entry != 0;
    }

    ghost function OutNeighbours(s: int): (r: set<int>)
      reads adjMat
      requires Valid() && 0 <= s < n
      ensures forall j :: j in r <==> 0 <= j < n && adjMat[s, j] != 0
    {
      set j | 0 <= j < n && adjMat[s, j] != 0
    }

    ghost function InNeighbours(s: int): (r: set<int>)
      reads adjMat
      requires Valid() && 0 <= s < n
      ensures forall i :: i in r <==> 0 <= i < n && adjMat[i, s] != 0
    {
      set i | 0 <= i < n && adjMat[i, s] != 0
    }

    /** A universal sink is exactly a vertex of out-degree 0 and in-degree n - 1. */
    lemma SinkDegrees(s: int)
      requires Valid() && 0 <= s < n
      ensures IsUniversalSink(s) <==> |OutNeighbours(s)| == 0 && |InNeighbours(s)| == n - 1
    {
      var others := Below(n) - {s};
      assert |others| == n - 1;
      if IsUniversalSink(s) {
        assert OutNeighbours(s) == {};
        assert InNeighbours(s) == others;
      }
      if |OutNeighbours(s)| == 0 && |InNeighbours(s)| == n - 1 {
        assert InNeighbours(s) <= others;
        SubsetSameCard(InNeighbours(s), others);
      }
    }
  }
}
