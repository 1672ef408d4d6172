/**
 * The adjacency-list directed multigraph over the vertices 0..numVertices-1.
 * AddEdge is the only operation that changes a graph; transpose, square and
 * simplification build a fresh graph, and BFS returns the visit order.
 */
module ListGraph {
  import opened Seqs
  import opened Reach
  import opened ListSpec

  /** In a BFS visit order, children of one vertex follow its adjacency order. */
  ghost predicate SiblingsInAdjOrder(a: AdjList, order: seq<int>, par: seq<int>) {
    forall i, k :: 0 < i < k < |order| ==> SiblingsOrdered(a, order, par, i, k)
  }

  /** When order[i] and order[k] have the same parent, they appear in its list in that order. */
  ghost predicate SiblingsOrdered(a: AdjList, order: seq<int>, par: seq<int>, i: int, k: int) {
    (0 <= i < |order| && 0 <= k < |order| && |par| == |order| && par[i] == par[k] &&
      0 <= par[i] < |order| && 0 <= order[par[i]] < |a|) ==>
    IndexOf(a[order[par[i]]], order[i]) < IndexOf(a[order[par[i]]], order[k])
  }

  /**
   * order is the breadth-first visit order of a from start when every vertex
   * scans its list front to back.
   */
  ghost predicate IsBfsOrder(a: AdjList, start: int, order: seq<int>) {
    exists par :: |par| == |order| && BfsOrder(EdgeSet(a), start, order, par) &&
      SiblingsInAdjOrder(a, order, par)
  }

  /** The start vertex and the lists determine the breadth-first visit order. */
  lemma BfsOrderUnique(a: AdjList, start: int, o1: seq<int>, o2: seq<int>)
    requires IsBfsOrder(a, start, o1) && IsBfsOrder(a, start, o2)
    ensures o1 == o2
  {
    var p1 :| |p1| == |o1| && BfsOrder(EdgeSet(a), start, o1, p1) && SiblingsInAdjOrder(a, o1, p1);
    var p2 :| |p2| == |o2| && BfsOrder(EdgeSet(a), start, o2, p2) && SiblingsInAdjOrder(a, o2, p2);
    var rank := (x: int, y: int) => if 0 <= x < |a| then IndexOf(a[x], y) else 0;
    AdjOrderRanked(a, rank, o1, p1);
    AdjOrderRanked(a, rank, o2, p2);
    BfsUnique(EdgeSet(a), rank, start, o1, p1, o2, p2);
  }

  lemma AdjOrderRanked(a: AdjList, rank: (int, int) -> int, order: seq<int>, par: seq<int>)
    requires forall x, y :: 0 <= x < |a| ==> rank(x, y) == IndexOf(a[x], y)
    requires DiscoveryTree(EdgeSet(a), order, par) && SiblingsInAdjOrder(a, order, par)
    ensures SiblingsRanked(rank, order, par)
  {
    forall i, k | 0 < i < k < |order|
      ensures RankedPair(rank, order, par, i, k)
    {
      assert Discovered(EdgeSet(a), order, par, i);
      assert SiblingsOrdered(a, order, par, i, k);
    }
  }

  /**
   * Discovering a[u][k], where u = disc[p], after a[u][..k] were all seen,
   * keeps the children of every vertex in adjacency-list order.
   */
  lemma SiblingStep(a: AdjList, disc: seq<int>, par: seq<int>, p: int, k: int)
    requires |par| == |disc| && SiblingsInAdjOrder(a, disc, par)
    requires 0 <= p < |disc| && 0 <= disc[p] < |a| && 0 <= k < |a[disc[p]]|
    requires forall j :: 0 <= j < k ==> a[disc[p]][j] in disc
    requires a[disc[p]][k] !in disc && forall i :: 0 < i < |par| ==> par[i] <= p
    requires forall i :: 0 < i < |disc| && par[i] == p ==> IndexOf(a[disc[p]], disc[i]) < k
    ensures SiblingsInAdjOrder(a, disc + [a[disc[p]][k]], par + [p])
    ensures IndexOf(a[disc[p]], a[disc[p]][k]) == k
  {
    var row := a[disc[p]];
    var d, pr := disc + [row[k]], par + [p];
    forall i, m | 0 < i < m < |d|
      ensures SiblingsOrdered(a, d, pr, i, m)
    {
      assert d[i] == disc[i] && pr[i] == par[i];
      if m < |disc| {
        assert SiblingsOrdered(a, disc, par, i, m);
        assert d[m] == disc[m] && pr[m] == par[m];
        if 0 <= par[i] < |disc| {
          assert d[pr[i]] == disc[par[i]];
        }
      } else if pr[i] == pr[m] {
        assert d[pr[i]] == disc[p];
      }
    }
  }

  /** The invariant of the BFS queue: disc is the visit order followed by the queue. */
  ghost predicate Frontier(a: AdjList, start: int, disc: seq<int>, par: seq<int>) {
    WellFormed(a) && |disc| >= 1 && disc[0] == start && NoDup(disc) && InRange(disc, |a|) &&
    |par| == |disc| && DiscoveryTree(EdgeSet(a), disc, par) && Fifo(par) &&
    SiblingsInAdjOrder(a, disc, par)
  }

  /**
   * Midway through the scan of u = disc[p]: the vertices before position p
   * are fully scanned, the first k entries of u's list are listed, and u's
   * children so far come from those k entries.
   */
  ghost predicate ScanState(a: AdjList, start: int, disc: seq<int>, par: seq<int>, p: int, k: int) {
    Frontier(a, start, disc, par) && 0 <= p < |disc| && 0 <= k <= |a[disc[p]]| &&
    (forall i :: 0 < i < |par| ==> par[i] <= p) &&
    ScannedUpTo(EdgeSet(a), disc, p) &&
    (forall j :: 0 <= j < k ==> a[disc[p]][j] in disc) &&
    (forall i :: 0 < i < |par| && par[i] == p ==> IndexOf(a[disc[p]], disc[i]) < k)
  }

  /** A successor that is already listed is skipped. */
  lemma ScanSkip(a: AdjList, start: int, disc: seq<int>, par: seq<int>, p: int, k: int)
    requires ScanState(a, start, disc, par, p, k) && k < |a[disc[p]]| && a[disc[p]][k] in disc
    ensures ScanState(a, start, disc, par, p, k + 1)
  {
  }

  /** A successor not yet listed is appended, with parent p. */
  lemma ScanPush(a: AdjList, start: int, disc: seq<int>, par: seq<int>, p: int, k: int)
    requires ScanState(a, start, disc, par, p, k) && k < |a[disc[p]]| && a[disc[p]][k] !in disc
    ensures ScanState(a, start, disc + [a[disc[p]][k]], par + [p], p, k + 1)
  {
    var u, v := disc[p], a[disc[p]][k];
    var d, pr := disc + [v], par + [p];
    Discover(EdgeSet(a), disc, par, p, v);
    SiblingStep(a, disc, par, p, k);
    assert Frontier(a, start, d, pr) by {
      assert NoDup(d) && InRange(d, |a|);
    }
    assert d[p] == u;
    assert ScannedUpTo(EdgeSet(a), d, p);
    assert forall j :: 0 <= j < k + 1 ==> a[u][j] in d;
    forall i | 0 < i < |pr| && pr[i] == p
      ensures IndexOf(a[u], d[i]) < k + 1
    {
      if i < |disc| {
        assert d[i] == disc[i] && pr[i] == par[i];
      }
    }
  }

  /** After the whole list of disc[p] is scanned, every position up to p is scanned. */
  lemma ScanDone(a: AdjList, start: int, disc: seq<int>, par: seq<int>, p: int)
    requires 0 <= p < |disc| && 0 <= disc[p] < |a| && ScanState(a, start, disc, par, p, |a[disc[p]]|)
    ensures ScannedUpTo(EdgeSet(a), disc, p + 1)
  {
    forall y | (disc[p], y) in EdgeSet(a)
      ensures y in disc
    {
      var j :| 0 <= j < |a[disc[p]]| && a[disc[p]][j] == y;
    }
  }

  class Graph {
    const numVertices: nat
    var adj: AdjList

    ghost predicate Valid()
      reads this
    {
      |adj| == numVertices && WellFormed(adj)
    }

    /** An empty graph with n vertices. */
    constructor (n: nat)
      ensures Valid() && numVertices == n
      ensures forall u :: 0 <= u < n ==> adj[u] == []
    {
      numVertices := n;
      adj := seq(n, _ => []);
    }

    /** Append v to u's list when both are vertices; otherwise do nothing. */
    method AddEdge(u: int, v: int)
      requires Valid()
      modifies this
      ensures Valid()
      ensures 0 <= u < numVertices && 0 <= v < numVertices ==> adj == old(adj)[u := old(adj)[u] + [v]]
      ensures !(0 <= u < numVertices && 0 <= v < numVertices) ==> adj == old(adj)
    {
      if u < 0 || u >= numVertices || v < 0 || v >= numVertices {
        return;
      }
      adj := adj[u := adj[u] + [v]];
    }

    function Size(): (r: nat)
      reads this
      requires Valid()
      ensures r == |adj|
    {
      numVertices
    }

    function AdjacencyList(): (r: AdjList)
      reads this
      requires Valid()
      ensures |r| == Size() && WellFormed(r)
      ensures forall u, v :: (u, v) in EdgeSet(r) <==> (u, v) in EdgeSet(adj)
    {
      adj
    }

    /** A fresh graph with every edge reversed, multiplicities kept. */
    method GetTranspose() returns (gT: Graph)
      requires Valid()
      ensures fresh(gT) && gT.Valid() && gT.numVertices == numVertices
      ensures gT.adj == Transposed(adj)
    {
      var n := numVertices;
      gT := new Graph(n);
      for u := 0 to n
        modifies gT
        invariant gT.Valid() && gT.numVertices == n
        invariant forall v :: 0 <= v < n ==> gT.adj[v] == TransposeCol(adj, v, u)
      {
        AddReversedRow(gT, u);
      }
    }

    /** The transpose's inner loop for source u: add u to the row of every entry of u's list. */
    method AddReversedRow(gT: Graph, u: int)
      requires Valid() && gT.Valid() && gT.numVertices == numVertices && gT != this
      requires 0 <= u < numVertices
      requires forall v :: 0 <= v < numVertices ==> gT.adj[v] == TransposeCol(adj, v, u)
      modifies gT
      ensures gT.Valid()
      ensures forall v :: 0 <= v < numVertices ==> gT.adj[v] == TransposeCol(adj, v, u + 1)
    {
      var n, a := numVertices, adj;
      for k := 0 to |a[u]|
        modifies gT
        invariant gT.Valid() && gT.numVertices == n
        invariant forall v :: 0 <= v < n ==>
          gT.adj[v] == TransposeCol(a, v, u) + Repeat(u, multiset(a[u][..k])[v])
      {
        ghost var before := gT.adj;
        gT.AddEdge(a[u][k], u);
        TransposeStep(a, u, k, before, gT.adj);
      }
      TransposeRowDone(a, u, gT.adj);
    }

    /**
     * Breadth-first visit from start: the vertices reachable from start,
     * each once, in the order a FIFO queue discovers them when every vertex
     * scans its list front to back. Empty when start is not a vertex.
     */
    method BFS(start: int) returns (order: seq<int>)
      requires Valid()
      ensures !(0 <= start < numVertices) ==> order == []
      ensures 0 <= start < numVertices ==>
        |order| <= numVertices &&
        (forall x :: x in order <==> Reachable(EdgeSet(adj), start, x)) &&
        IsBfsOrder(adj, start, order) && ByDistance(EdgeSet(adj), start, order)
    {
      var n, a := numVertices, adj;
      order := [];
      if start < 0 || start >= n {
        return;
      }
      var visited := new bool[n](_ => false);
      visited[start] := true;
      var q := [start];
      ghost var par := [0];
      while q != []
        invariant Frontier(a, start, order + q, par) && |order + q| <= n
        invariant forall i :: 0 < i < |par| ==> par[i] < |order|
        invariant ScannedUpTo(EdgeSet(a), order + q, |order|)
        invariant forall x :: 0 <= x < n ==> (visited[x] <==> x in order + q)
        decreases n - |order|
      {
        var u := q[0];
        assert order + q == (order + [u]) + q[1..];
        order, q := order + [u], q[1..];
        q, par := ScanSuccessors(u, visited, q, order, par, start);
        DistinctBound(order + q, n);
      }
      assert order + q == order;
      ScannedBfs(EdgeSet(a), start, order, par);
      BfsByDistance(EdgeSet(a), start, order, par);
      DistinctBound(order, n);
    }

    /**
     * The BFS scan of u, the vertex just moved from the queue to the visit
     * order: push every unvisited successor of u, in list order, marking it.
     */
    method ScanSuccessors(u: int, visited: array<bool>, q: seq<int>,
                          ghost order: seq<int>, ghost par: seq<int>, ghost start: int)
      returns (q': seq<int>, ghost par': seq<int>)
      requires Valid() && visited.Length == numVertices
      requires |order| >= 1 && order[|order| - 1] == u
      requires Frontier(adj, start, order + q, par)
      requires forall i :: 0 < i < |par| ==> par[i] < |order| - 1
      requires ScannedUpTo(EdgeSet(adj), order + q, |order| - 1)
      requires forall x :: 0 <= x < numVertices ==> (visited[x] <==> x in order + q)
      modifies visited
      ensures Frontier(adj, start, order + q', par')
      ensures forall i :: 0 < i < |par'| ==> par'[i] < |order|
      ensures ScannedUpTo(EdgeSet(adj), order + q', |order|)
      ensures forall x :: 0 <= x < numVertices ==> (visited[x] <==> x in order + q')
    {
      var a := adj;
      ghost var p := |order| - 1;
      ghost var disc := order + q;
      assert disc[p] == u;
      q', par' := q, par;
      for k := 0 to |a[u]|
        invariant disc == order + q' && ScanState(a, start, disc, par', p, k)
        invariant forall x :: 0 <= x < |a| ==> (visited[x] <==> x in disc)
      {
        var v := a[u][k];
        if !visited[v] {
          ScanPush(a, start, disc, par', p, k);
          visited[v] := true;
          q', par', disc := q' + [v], par' + [p], disc + [v];
        } else {
          ScanSkip(a, start, disc, par', p, k);
        }
      }
      ScanDone(a, start, disc, par', p);
    }

    /**
     * A fresh graph whose row u lists, once each, the vertices other than u
     * reachable from u in one or two steps, one-step ones first.
     */
    method SquareGraph() returns (g2: Graph)
      requires Valid()
      ensures fresh(g2) && g2.Valid() && g2.numVertices == numVertices
      ensures g2.adj == Squared(adj)
    {
      var n := numVertices;
      g2 := new Graph(n);
      var visited := new bool[n];
      for u := 0 to n
        modifies g2, visited
        invariant g2.Valid() && g2.numVertices == n
        invariant forall x :: 0 <= x < u ==> g2.adj[x] == SquareRow(adj, x)
        invariant forall x :: u <= x < n ==> g2.adj[x] == []
      {
        ghost var done := g2.adj;
        FillSquareRow(g2, visited, u);
        assert g2.adj == done[u := SquareRow(adj, u)];
      }
      SquaredRows(adj, g2.adj);
    }

    /**
     * The body of the square's loop for source u: clear the visited flags,
     * then append to g2's row u the unvisited direct successors other than
     * u, then the unvisited successors of successors other than u.
     */
    method FillSquareRow(g2: Graph, visited: array<bool>, u: int)
      requires Valid() && g2.Valid() && g2.numVertices == numVertices && g2 != this
      requires visited.Length == numVertices && 0 <= u < numVertices && g2.adj[u] == []
      modifies g2, visited
      ensures g2.Valid() && g2.adj == old(g2.adj)[u := SquareRow(adj, u)]
    {
      var n, a := numVertices, adj;
      for x := 0 to n
        modifies visited
        invariant forall y :: 0 <= y < x ==> !visited[y]
      {
        visited[x] := false;
      }
      ghost var done := g2.adj;
      // the distinct direct successors
      AddSuccessorsOf(g2, visited, u, u, []);
      assert a[u] + [] == a[u];
      assert a[u][0..] == a[u];
      // then the successors of successors
      for k := 0 to |a[u]|
        modifies g2, visited
        invariant g2.Valid() && g2.numVertices == n
        invariant g2.adj == done[u := g2.adj[u]]
        invariant forall x :: 0 <= x < n ==> (visited[x] <==> x in g2.adj[u])
        invariant AddNew(g2.adj[u], TwoHop(a, a[u][k..]), u) == SquareRow(a, u)
      {
        TwoHopAt(a, a[u], k);
        AddSuccessorsOf(g2, visited, u, a[u][k], TwoHop(a, a[u][k + 1..]));
      }
    }

    /**
     * One scan of the square: append to g2's row u the unvisited successors
     * of v other than u, marking them visited. With v == u this is the scan
     * of the direct successors, otherwise one pass of the two-step loop.
     */
    method AddSuccessorsOf(g2: Graph, visited: array<bool>, u: int, v: int, ghost rest: seq<int>)
      requires Valid() && g2.Valid() && g2.numVertices == numVertices && g2 != this
      requires visited.Length == numVertices && 0 <= u < numVertices && 0 <= v < numVertices
      requires forall x :: 0 <= x < numVertices ==> (visited[x] <==> x in g2.adj[u])
      modifies g2, visited
      ensures g2.Valid() && g2.adj == old(g2.adj)[u := g2.adj[u]]
      ensures forall x :: 0 <= x < numVertices ==> (visited[x] <==> x in g2.adj[u])
      ensures AddNew(g2.adj[u], rest, u) == AddNew(old(g2.adj[u]), adj[v] + rest, u)
    {
      var n, s := numVertices, adj[v];
      ghost var done := g2.adj;
      ghost var target := AddNew(g2.adj[u], s + rest, u);
      assert s[0..] == s;
      for l := 0 to |s|
        modifies g2, visited
        invariant g2.Valid() && g2.numVertices == n
        invariant g2.adj == done[u := g2.adj[u]]
        invariant forall x :: 0 <= x < n ==> (visited[x] <==> x in g2.adj[u])
        invariant AddNew(g2.adj[u], s[l..] + rest, u) == target
      {
        AddNewAt(g2.adj[u], s, l, rest, u);
        Mark(g2, visited, u, s[l]);
      }
      assert s[|s|..] + rest == rest;
    }

    /** The body of a square scan: add w to g2's row u unless it is u or already visited. */
    method Mark(g2: Graph, visited: array<bool>, u: int, w: int)
      requires g2.Valid() && visited.Length == g2.numVertices
      requires 0 <= u < g2.numVertices && 0 <= w < g2.numVertices
      requires forall x :: 0 <= x < g2.numVertices ==> (visited[x] <==> x in g2.adj[u])
      modifies g2, visited
      ensures g2.Valid()
      ensures g2.adj == old(g2.adj)[u := Step(old(g2.adj[u]), w, u)]
      ensures forall x :: 0 <= x < g2.numVertices ==> (visited[x] <==> x in g2.adj[u])
    {
      if w != u && !visited[w] {
        g2.AddEdge(u, w);
        visited[w] := true;
      }
    }

    /**
     * A fresh simple undirected graph over the same vertices: loops dropped,
     * each direction added for every edge, parallel edges merged. Each row is
     * emitted from a set, in an order the model leaves open.
     */
    method ToSimpleUndirected() returns (g: Graph)
      requires Valid()
      ensures fresh(g) && g.Valid() && g.numVertices == numVertices
      ensures IsSimpleFormOf(g.adj, adj)
    {
      var n, a := numVertices, adj;
      var sets: seq<set<int>> := seq(n, _ => {});
      for u := 0 to n
        invariant |sets| == n
        invariant forall x, y :: 0 <= x < n ==>
          (y in sets[x] <==> x != y && (ReadSoFar(a, u, 0, x, y) || ReadSoFar(a, u, 0, y, x)))
      {
        for k := 0 to |a[u]|
          invariant |sets| == n
          invariant forall x, y :: 0 <= x < n ==>
            (y in sets[x] <==> x != y && (ReadSoFar(a, u, k, x, y) || ReadSoFar(a, u, k, y, x)))
        {
          var v := a[u][k];
          assert a[u][..k + 1] == a[u][..k] + [v];
          if u != v {
            sets := sets[u := sets[u] + {v}];
            sets := sets[v := sets[v] + {u}];
          }
        }
        assert a[u][..|a[u]|] == a[u];
      }
      g := new Graph(n);
      for u := 0 to n
        modifies g
        invariant g.Valid() && g.numVertices == n
        invariant forall x :: 0 <= x < u ==> NoDup(g.adj[x]) && forall y :: y in g.adj[x] <==> y in sets[x]
        invariant forall x :: u <= x < n ==> g.adj[x] == []
      {
        var rest := sets[u];
        while rest != {}
          modifies g
          invariant g.Valid() && g.numVertices == n
          invariant forall x :: 0 <= x < u ==> NoDup(g.adj[x]) && forall y :: y in g.adj[x] <==> y in sets[x]
          invariant forall x :: u < x < n ==> g.adj[x] == []
          invariant rest <= sets[u] && NoDup(g.adj[u])
          invariant forall y :: y in g.adj[u] <==> y in sets[u] && y !in rest
          decreases |rest|
        {
          HasElement(rest);
          var v :| v in rest;
          g.AddEdge(u, v);
          rest := rest - {v};
        }
      }
    }
  }
}
