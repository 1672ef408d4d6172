/**
 * Reachability and breadth-first discovery over a directed edge relation,
 * shared by the adjacency-list and the adjacency-matrix graphs. Each graph
 * presents its edges as a set of (source, destination) pairs.
 */
module Reach {
  import opened Seqs

  type Edges = set<(int, int)>

  /** p is a non-empty walk that follows edges of e. */
  ghost predicate IsPath(e: Edges, p: seq<int>) {
    |p| >= 1 && forall i :: 0 <= i < |p| - 1 ==> (p[i], p[i + 1]) in e
  }

  /** t can be reached from s by zero or more edges of e. */
  ghost predicate Reachable(e: Edges, s: int, t: int) {
    exists p :: IsPath(e, p) && p[0] == s && p[|p| - 1] == t
  }

  /**
   * Breadth-first discovery tree: par[i] is the position in order of the
   * vertex whose scan discovered order[i].
   */
  ghost predicate DiscoveryTree(e: Edges, order: seq<int>, par: seq<int>) {
    |par| == |order| && forall i :: 0 < i < |order| ==> Discovered(e, order, par, i)
  }

  /**
   * order[i] hangs off an earlier vertex order[par[i]] by an edge, and no
   * vertex listed before that one has an edge to order[i].
   */
  ghost predicate Discovered(e: Edges, order: seq<int>, par: seq<int>, i: int) {
    0 < i < |order| && i < |par| && 0 <= par[i] < i && (order[par[i]], order[i]) in e &&
    forall j :: 0 <= j < par[i] ==> (order[j], order[i]) !in e
  }

  /** First in, first out: vertices appear in the order of their discoverers. */
  ghost predicate Fifo(par: seq<int>) {
    forall i, k :: 0 < i < k < |par| ==> par[i] <= par[k]
  }

  /** Every successor of a listed vertex is listed. */
  ghost predicate Closed(e: Edges, order: seq<int>) {
    forall x, y :: x in order && (x, y) in e ==> y in order
  }

  lemma ExtendPath(e: Edges, p: seq<int>, y: int)
    requires IsPath(e, p) && (p[|p| - 1], y) in e
    ensures IsPath(e, p + [y]) && (p + [y])[0] == p[0] && (p + [y])[|p|] == y
  {
    var q := p + [y];
    forall i | 0 <= i < |q| - 1
      ensures (q[i], q[i + 1]) in e
    {
      if i < |p| - 1 {
        assert q[i] == p[i] && q[i + 1] == p[i + 1];
      }
    }
  }

  /** Every vertex of a discovery tree is reachable from its root. */
  lemma {:induction false} TreeReachable(e: Edges, order: seq<int>, par: seq<int>, i: int)
    requires DiscoveryTree(e, order, par) && 0 <= i < |order|
    ensures Reachable(e, order[0], order[i])
    decreases i
  {
    if i == 0 {
      assert IsPath(e, [order[0]]);
    } else {
      assert Discovered(e, order, par, i);
      TreeReachable(e, order, par, par[i]);
      var p :| IsPath(e, p) && p[0] == order[0] && p[|p| - 1] == order[par[i]];
      ExtendPath(e, p, order[i]);
      assert (p + [order[i]])[|p + [order[i]]| - 1] == order[i];
    }
  }

  /** A closed list that holds s holds everything reachable from s. */
  lemma ClosedReachable(e: Edges, order: seq<int>, s: int, t: int)
    requires s in order && Closed(e, order) && Reachable(e, s, t)
    ensures t in order
  {
    var p :| IsPath(e, p) && p[0] == s && p[|p| - 1] == t;
    var k := 0;
    while k < |p| - 1
      invariant 0 <= k <= |p| - 1
      invariant p[k] in order
    {
      var x, y := p[k], p[k + 1];
      assert x in order && (x, y) in e;
      k := k + 1;
    }
  }

  /**
   * A closed discovery tree lists exactly the vertices reachable from its
   * first element.
   */
  lemma TreeListsReachable(e: Edges, order: seq<int>, par: seq<int>)
    requires |order| >= 1 && DiscoveryTree(e, order, par) && Closed(e, order)
    ensures forall x :: x in order <==> Reachable(e, order[0], x)
  {
    forall x
      ensures x in order <==> Reachable(e, order[0], x)
    {
      if x in order {
        var i :| 0 <= i < |order| && order[i] == x;
        TreeReachable(e, order, par, i);
      }
      if Reachable(e, order[0], x) {
        ClosedReachable(e, order, order[0], x);
      }
    }
  }

  /**
   * A breadth-first visit order from start: start first, no repeats, a
   * FIFO discovery tree, and nothing reachable left out.
   */
  ghost predicate BfsOrder(e: Edges, start: int, order: seq<int>, par: seq<int>) {
    |order| >= 1 && order[0] == start && NoDup(order) &&
    DiscoveryTree(e, order, par) && Fifo(par) && Closed(e, order)
  }

  /** The successors of the first p listed vertices are all listed. */
  ghost predicate ScannedUpTo(e: Edges, disc: seq<int>, p: int) {
    forall j, y :: 0 <= j < p && j < |disc| && (disc[j], y) in e ==> y in disc
  }

  /**
   * Discovering v while scanning disc[p], the earliest vertex not yet fully
   * scanned, keeps the discovery tree FIFO.
   */
  lemma Discover(e: Edges, disc: seq<int>, par: seq<int>, p: int, v: int)
    requires DiscoveryTree(e, disc, par) && Fifo(par)
    requires 0 <= p < |disc| && forall i :: 0 < i < |par| ==> par[i] <= p
    requires (disc[p], v) in e && v !in disc && ScannedUpTo(e, disc, p)
    ensures DiscoveryTree(e, disc + [v], par + [p]) && Fifo(par + [p])
  {
    var d, pr := disc + [v], par + [p];
    forall i | 0 < i < |d|
      ensures Discovered(e, d, pr, i)
    {
      if i == |disc| {
        forall j | 0 <= j < p
          ensures (d[j], v) !in e
        {
          assert d[j] == disc[j];
        }
      } else {
        assert Discovered(e, disc, par, i);
        assert d[i] == disc[i] && pr[i] == par[i] && d[par[i]] == disc[par[i]];
        forall j | 0 <= j < pr[i]
          ensures (d[j], d[i]) !in e
        {
          assert d[j] == disc[j];
        }
      }
    }
  }

  /** Once the whole list is scanned, it is a breadth-first order that lists exactly the reachable vertices. */
  lemma ScannedBfs(e: Edges, start: int, order: seq<int>, par: seq<int>)
    requires |order| >= 1 && order[0] == start && NoDup(order)
    requires DiscoveryTree(e, order, par) && Fifo(par) && ScannedUpTo(e, order, |order|)
    ensures BfsOrder(e, start, order, par)
    ensures forall x :: x in order <==> Reachable(e, start, x)
  {
    forall x, y | x in order && (x, y) in e
      ensures y in order
    {
      var j :| 0 <= j < |order| && order[j] == x;
    }
    TreeListsReachable(e, order, par);
  }

  /** Children of one vertex appear in increasing vertex order. */
  ghost predicate SiblingsIncreasing(order: seq<int>, par: seq<int>) {
    |par| == |order| &&
    forall i, k :: 0 < i < k < |order| && par[i] == par[k] ==> order[i] < order[k]
  }

  /** Every edge of e joins vertices of [0, n). */
  ghost predicate Within(e: Edges, n: int) {
    forall x, y :: (x, y) in e ==> 0 <= x < n && 0 <= y < n
  }

  /** The edges of e, each turned around. */
  ghost function Reverse(e: Edges): (r: Edges)
    ensures forall x, y :: (x, y) in r <==> (y, x) in e
  {
    set p | p in e :: (p.1, p.0)
  }

  /** The reverse of a walk from s to t is a walk from t to s over the reversed edges. */
  lemma ReversePath(e: Edges, p: seq<int>) returns (q: seq<int>)
    requires IsPath(e, p)
    ensures IsPath(Reverse(e), q) && q[0] == p[|p| - 1] && q[|q| - 1] == p[0]
  {
    q := seq(|p|, i requires 0 <= i < |p| => p[|p| - 1 - i]);
    forall i | 0 <= i < |q| - 1
      ensures (q[i], q[i + 1]) in Reverse(e)
    {
      var j := |p| - 2 - i;
      assert q[i] == p[j + 1] && q[i + 1] == p[j];
    }
  }

  /** t is reachable from s exactly when s is reachable from t over the reversed edges. */
  lemma ReverseReachable(e: Edges, s: int, t: int)
    ensures Reachable(e, s, t) <==> Reachable(Reverse(e), t, s)
  {
    if Reachable(e, s, t) {
      var p :| IsPath(e, p) && p[0] == s && p[|p| - 1] == t;
      var q := ReversePath(e, p);
    }
    if Reachable(Reverse(e), t, s) {
      var p :| IsPath(Reverse(e), p) && p[0] == t && p[|p| - 1] == s;
      var q := ReversePath(Reverse(e), p);
      assert Reverse(Reverse(e)) == e;
    }
  }

  // ---------------------------------------------------------------------
  // A breadth-first order lists the vertices layer by layer
  // ---------------------------------------------------------------------

  /** The layer of order[i]: 0 at the start, one more than its discoverer's layer. */
  ghost function Depth(par: seq<int>, i: int): nat
    decreases i
  {
    if 0 < i < |par| && 0 <= par[i] < i then Depth(par, par[i]) + 1 else 0
  }

  /** Some walk from s to t has at most len edges. */
  ghost predicate WithinSteps(e: Edges, s: int, t: int, len: int) {
    exists p :: IsPath(e, p) && p[0] == s && p[|p| - 1] == t && |p| <= len + 1
  }

  /** The fewest edges on a walk from s to t is d. */
  ghost predicate IsDistance(e: Edges, s: int, t: int, d: int) {
    WithinSteps(e, s, t, d) && !WithinSteps(e, s, t, d - 1)
  }

  /** order lists vertices by distance from start: an earlier vertex is never farther than a later one. */
  ghost predicate ByDistance(e: Edges, start: int, order: seq<int>) {
    forall i, k, len :: 0 <= i <= k < |order| && WithinSteps(e, start, order[k], len) ==>
      WithinSteps(e, start, order[i], len)
  }

  /** Layers never decrease along a breadth-first order. */
  lemma {:induction false} LayersNonDecreasing(e: Edges, start: int, order: seq<int>, par: seq<int>, i: int, k: int)
    requires BfsOrder(e, start, order, par) && 0 <= i <= k < |order|
    ensures Depth(par, i) <= Depth(par, k)
    decreases k
  {
    if 0 < i < k {
      assert Discovered(e, order, par, i) && Discovered(e, order, par, k);
      LayersNonDecreasing(e, start, order, par, par[i], par[k]);
    }
  }

  /** An edge from order[j] to order[m] climbs at most one layer. */
  lemma EdgeLayer(e: Edges, start: int, order: seq<int>, par: seq<int>, j: int, m: int)
    requires BfsOrder(e, start, order, par) && 0 <= j < |order| && 0 <= m < |order|
    requires (order[j], order[m]) in e
    ensures Depth(par, m) <= Depth(par, j) + 1
  {
    if 0 < m {
      assert Discovered(e, order, par, m);
      LayersNonDecreasing(e, start, order, par, par[m], j);
    }
  }

  /** Every walk from start to order[i] has at least Depth(par, i) edges. */
  lemma {:induction false} PathNoShorter(e: Edges, start: int, order: seq<int>, par: seq<int>, p: seq<int>, i: int)
    requires BfsOrder(e, start, order, par) && 0 <= i < |order|
    requires IsPath(e, p) && p[0] == start && p[|p| - 1] == order[i]
    ensures Depth(par, i) <= |p| - 1
    decreases |p|
  {
    if |p| == 1 {
      assert i == 0;
    } else {
      var q := p[..|p| - 1];
      assert IsPath(e, q) by {
        forall t | 0 <= t < |q| - 1
          ensures (q[t], q[t + 1]) in e
        {
          assert q[t] == p[t] && q[t + 1] == p[t + 1];
        }
      }
      var x := q[|q| - 1];
      ClosedReachable(e, order, start, x);
      var j :| 0 <= j < |order| && order[j] == x;
      PathNoShorter(e, start, order, par, q, j);
      assert (order[j], order[i]) in e by {
        assert p[|p| - 2] == x;
      }
      EdgeLayer(e, start, order, par, j, i);
    }
  }

  /** The discovery tree holds a walk from start to order[i] with exactly Depth(par, i) edges. */
  lemma {:induction false} TreePath(e: Edges, order: seq<int>, par: seq<int>, i: int) returns (p: seq<int>)
    requires DiscoveryTree(e, order, par) && 0 <= i < |order|
    ensures IsPath(e, p) && p[0] == order[0] && p[|p| - 1] == order[i] && |p| == Depth(par, i) + 1
    decreases i
  {
    if i == 0 {
      p := [order[0]];
    } else {
      assert Discovered(e, order, par, i);
      var q := TreePath(e, order, par, par[i]);
      ExtendPath(e, q, order[i]);
      p := q + [order[i]];
    }
  }

  /** The layer of each listed vertex is its distance from start. */
  lemma DepthIsDistance(e: Edges, start: int, order: seq<int>, par: seq<int>, i: int)
    requires BfsOrder(e, start, order, par) && 0 <= i < |order|
    ensures IsDistance(e, start, order[i], Depth(par, i))
  {
    var p := TreePath(e, order, par, i);
    if WithinSteps(e, start, order[i], Depth(par, i) - 1) {
      var q :| IsPath(e, q) && q[0] == start && q[|q| - 1] == order[i] && |q| <= Depth(par, i);
      PathNoShorter(e, start, order, par, q, i);
      assert false;
    }
  }

  /** A breadth-first order lists the vertices by non-decreasing distance from start. */
  lemma BfsByDistance(e: Edges, start: int, order: seq<int>, par: seq<int>)
    requires BfsOrder(e, start, order, par)
    ensures ByDistance(e, start, order)
  {
    forall i, k, len | 0 <= i <= k < |order| && WithinSteps(e, start, order[k], len)
      ensures WithinSteps(e, start, order[i], len)
    {
      var p :| IsPath(e, p) && p[0] == start && p[|p| - 1] == order[k] && |p| <= len + 1;
      PathNoShorter(e, start, order, par, p, k);
      LayersNonDecreasing(e, start, order, par, i, k);
      var q := TreePath(e, order, par, i);
    }
  }

  // ---------------------------------------------------------------------
  // The breadth-first order is determined by the start and the scan order
  // ---------------------------------------------------------------------

  /**
   * Children of one vertex appear in the order in which their parent's
   * scan meets them: rank(x, y) is the position of y in the scan of x.
   */
  ghost predicate SiblingsRanked(rank: (int, int) -> int, order: seq<int>, par: seq<int>) {
    |par| == |order| && forall i, k :: 0 < i < k < |order| ==> RankedPair(rank, order, par, i, k)
  }

  ghost predicate RankedPair(rank: (int, int) -> int, order: seq<int>, par: seq<int>, i: int, k: int) {
    (0 <= i < |order| && 0 <= k < |order| && |par| == |order| && par[i] == par[k] &&
      0 <= par[i] < |order|) ==>
    rank(order[par[i]], order[i]) < rank(order[par[i]], order[k])
  }

  /** The vertices listed before position par[m] have no successor outside order[..m]. */
  lemma ParentIsFirstOpen(e: Edges, start: int, order: seq<int>, par: seq<int>, m: int, j: int, y: int)
    requires BfsOrder(e, start, order, par) && 0 < m < |order| && Discovered(e, order, par, m)
    requires 0 <= j < par[m] && (order[j], y) in e
    ensures y in order[..m]
  {
    assert Discovered(e, order, par, m);
    var t :| 0 <= t < |order| && order[t] == y;
    if 0 < t {
      assert Discovered(e, order, par, t);
    }
    assert t < m;
    assert order[..m][t] == y;
  }

  /** Among the successors of order[par[m]] outside order[..m], order[m] ranks first. */
  lemma ChildRanksFirst(e: Edges, rank: (int, int) -> int, start: int, order: seq<int>, par: seq<int>, m: int, y: int)
    requires BfsOrder(e, start, order, par) && SiblingsRanked(rank, order, par) && 0 < m < |order|
    requires Discovered(e, order, par, m) && (order[par[m]], y) in e && y !in order[..m] && y != order[m]
    ensures rank(order[par[m]], order[m]) < rank(order[par[m]], y)
  {
    assert Discovered(e, order, par, m);
    var t :| 0 <= t < |order| && order[t] == y;
    if t < m {
      assert false;
    }
    assert Discovered(e, order, par, t);
    assert par[m] <= par[t] <= par[m];
    assert RankedPair(rank, order, par, m, t);
  }

  /** Two breadth-first orders with the same scan order that agree on a prefix agree on the next position. */
  lemma BfsNext(e: Edges, rank: (int, int) -> int, start: int,
                o1: seq<int>, p1: seq<int>, o2: seq<int>, p2: seq<int>, m: int)
    requires BfsOrder(e, start, o1, p1) && SiblingsRanked(rank, o1, p1)
    requires BfsOrder(e, start, o2, p2) && SiblingsRanked(rank, o2, p2)
    requires 1 <= m <= |o1| && m <= |o2| && o1[..m] == o2[..m]
    ensures m < |o1| <==> m < |o2|
    ensures m < |o1| ==> o1[m] == o2[m]
  {
    if m < |o1| {
      OpenPosition(e, start, o1, p1, o2, p2, m);
    }
    if m < |o2| {
      OpenPosition(e, start, o2, p2, o1, p1, m);
    }
    if m < |o1| && m < |o2| {
      var q1, q2 := p1[m], p2[m];
      assert Discovered(e, o1, p1, m) && Discovered(e, o2, p2, m);
      if q1 < q2 {
        ParentIsFirstOpen(e, start, o2, p2, m, q1, o1[m]);
        assert false;
      }
      if q2 < q1 {
        ParentIsFirstOpen(e, start, o1, p1, m, q2, o2[m]);
        assert false;
      }
      assert o1[q1] == o2[q1];
      if o1[m] != o2[m] {
        ChildRanksFirst(e, rank, start, o1, p1, m, o2[m]);
        ChildRanksFirst(e, rank, start, o2, p2, m, o1[m]);
        assert false;
      }
    }
  }

  /** A breadth-first order longer than a common prefix forces the other one to be longer too. */
  lemma OpenPosition(e: Edges, start: int, o1: seq<int>, p1: seq<int>, o2: seq<int>, p2: seq<int>, m: int)
    requires BfsOrder(e, start, o1, p1) && BfsOrder(e, start, o2, p2)
    requires 1 <= m < |o1| && m <= |o2| && o1[..m] == o2[..m]
    ensures m < |o2|
  {
    assert Discovered(e, o1, p1, m);
    var x := o1[p1[m]];
    assert x == o1[..m][p1[m]];
  }

  /** The start and the scan order determine the breadth-first order. */
  lemma BfsUnique(e: Edges, rank: (int, int) -> int, start: int,
                  o1: seq<int>, p1: seq<int>, o2: seq<int>, p2: seq<int>)
    requires BfsOrder(e, start, o1, p1) && SiblingsRanked(rank, o1, p1)
    requires BfsOrder(e, start, o2, p2) && SiblingsRanked(rank, o2, p2)
    ensures o1 == o2
  {
    var m := 1;
    while m < |o1|
      invariant 1 <= m <= |o1| && m <= |o2| && o1[..m] == o2[..m]
    {
      BfsNext(e, rank, start, o1, p1, o2, p2, m);
      assert o1[..m + 1] == o1[..m] + [o1[m]];
      assert o2[..m + 1] == o2[..m] + [o2[m]];
      m := m + 1;
    }
    BfsNext(e, rank, start, o1, p1, o2, p2, m);
    assert o1 == o1[..m] && o2 == o2[..m];
  }
}
