/**
 * Value-level meaning of the adjacency-list graph: adjacency lists as
 * sequences, and the graphs that transpose, square and simplification
 * produce, with the properties each one promises.
 */
module ListSpec {
  import opened Seqs
  import opened Reach

  /** a[u] lists the destinations of the edges leaving u, repetition allowed. */
  type AdjList = seq<seq<int>>

  /** Every stored destination is a vertex of the graph. */
  predicate WellFormed(a: AdjList) {
    forall u, k :: 0 <= u < |a| && 0 <= k < |a[u]| ==> 0 <= a[u][k] < |a|
  }

  /** The edges of a, multiplicities forgotten. */
  ghost function EdgeSet(a: AdjList): (e: Edges)
    ensures forall u, v :: (u, v) in e <==> 0 <= u < |a| && v in a[u]
  {
    set u, v | 0 <= u < |a| && v in a[u] :: (u, v)
  }

  /** Total number of edges, counted with multiplicity. */
  function EdgeCount(a: AdjList): nat {
    if a == [] then 0 else EdgeCount(a[..|a| - 1]) + |a[|a| - 1]|
  }

  // ---------------------------------------------------------------------
  // Transpose
  // ---------------------------------------------------------------------

  /**
   * Row v of the transpose after the sources 0..k-1 have been scanned:
   * each source u < k appears once per edge u -> v, sources in increasing order.
   */
  function TransposeCol(a: AdjList, v: int, k: nat): seq<int>
    requires k <= |a|
  {
    if k == 0 then [] else TransposeCol(a, v, k - 1) + Repeat(k - 1, multiset(a[k - 1])[v])
  }

  function Transposed(a: AdjList): (t: AdjList)
    ensures |t| == |a|
  {
    seq(|a|, v => TransposeCol(a, v, |a|))
  }

  /** col, the first k sources' contribution to column v, lists source u once per edge u -> v. */
  lemma {:induction false} TransposeColCount(a: AdjList, v: int, k: nat, u: int, col: seq<int>)
    requires k <= |a| && col == TransposeCol(a, v, k)
    ensures multiset(col)[u] == if 0 <= u < k then multiset(a[u])[v] else 0
  {
    if k > 0 {
      var prev := TransposeCol(a, v, k - 1);
      TransposeColCount(a, v, k - 1, u, prev);
      AppendRepeatCount(col, prev, k - 1, multiset(a[k - 1])[v], u);
    } else {
      assert col == [];
    }
  }

  lemma {:induction false} TransposeColShape(a: AdjList, v: int, k: nat)
    requires k <= |a|
    ensures forall i :: 0 <= i < |TransposeCol(a, v, k)| ==> 0 <= TransposeCol(a, v, k)[i] < k
    ensures forall i, j :: 0 <= i < j < |TransposeCol(a, v, k)| ==>
      TransposeCol(a, v, k)[i] <= TransposeCol(a, v, k)[j]
  {
    if k > 0 {
      TransposeColShape(a, v, k - 1);
      var prev := TransposeCol(a, v, k - 1);
      var rep := Repeat(k - 1, multiset(a[k - 1])[v]);
      assert TransposeCol(a, v, k) == prev + rep;
      forall i | 0 <= i < |prev + rep|
        ensures 0 <= (prev + rep)[i] < k
        ensures i >= |prev| ==> (prev + rep)[i] == k - 1
      {
        if i >= |prev| {
          assert (prev + rep)[i] == rep[i - |prev|];
        }
      }
    }
  }

  /** Scanning one more entry a[u][k] adds u to row v exactly when a[u][k] == v. */
  lemma TransposeColGrow(a: AdjList, v: int, u: nat, k: nat)
    requires u < |a| && k < |a[u]|
    ensures TransposeCol(a, v, u) + Repeat(u, multiset(a[u][..k + 1])[v]) ==
      TransposeCol(a, v, u) + Repeat(u, multiset(a[u][..k])[v]) + (if a[u][k] == v then [u] else [])
  {
    assert a[u][..k + 1] == a[u][..k] + [a[u][k]];
    var c := multiset(a[u][..k])[v];
    if a[u][k] == v {
      assert multiset(a[u][..k + 1])[v] == c + 1;
      assert Repeat(u, c + 1) == Repeat(u, c) + [u];
    } else {
      assert multiset(a[u][..k + 1])[v] == c;
    }
  }

  /** One AddEdge(a[u][k], u) of the transpose loop, on the rows built so far. */
  lemma TransposeStep(a: AdjList, u: nat, k: nat, before: AdjList, after: AdjList)
    requires u < |a| && k < |a[u]| && |before| == |a| && 0 <= a[u][k] < |a|
    requires forall v :: 0 <= v < |a| ==>
      before[v] == TransposeCol(a, v, u) + Repeat(u, multiset(a[u][..k])[v])
    requires after == before[a[u][k] := before[a[u][k]] + [u]]
    ensures forall v :: 0 <= v < |a| ==>
      after[v] == TransposeCol(a, v, u) + Repeat(u, multiset(a[u][..k + 1])[v])
  {
    forall v | 0 <= v < |a|
      ensures after[v] == TransposeCol(a, v, u) + Repeat(u, multiset(a[u][..k + 1])[v])
    {
      TransposeColGrow(a, v, u, k);
    }
  }

  /** The rows after the whole of a[u] has been scanned. */
  lemma TransposeRowDone(a: AdjList, u: nat, rows: AdjList)
    requires u < |a| && |rows| == |a|
    requires forall v :: 0 <= v < |a| ==>
      rows[v] == TransposeCol(a, v, u) + Repeat(u, multiset(a[u][..|a[u]|])[v])
    ensures forall v :: 0 <= v < |a| ==> rows[v] == TransposeCol(a, v, u + 1)
  {
    assert a[u][..|a[u]|] == a[u];
    forall v | 0 <= v < |a|
      ensures rows[v] == TransposeCol(a, v, u + 1)
    {
      assert TransposeCol(a, v, u + 1) == TransposeCol(a, v, u) + Repeat(u, multiset(a[u])[v]);
    }
  }

  /**
   * The transpose has an edge v -> u exactly as many times as the original
   * has u -> v.
   */
  lemma TransposeMultiplicity(a: AdjList, u: int, v: int)
    requires 0 <= u < |a| && 0 <= v < |a|
    ensures multiset(Transposed(a)[v])[u] == multiset(a[u])[v]
  {
    TransposeColCount(a, v, |a|, u, TransposeCol(a, v, |a|));
  }

  /**
   * The transpose keeps destinations in range and lists the sources of each
   * row in increasing order.
   */
  lemma TransposeShape(a: AdjList)
    ensures WellFormed(Transposed(a))
    ensures forall v, i, j :: 0 <= v < |a| && 0 <= i < j < |Transposed(a)[v]| ==>
      Transposed(a)[v][i] <= Transposed(a)[v][j]
  {
    forall v | 0 <= v < |a|
      ensures forall i :: 0 <= i < |Transposed(a)[v]| ==> 0 <= Transposed(a)[v][i] < |a|
      ensures forall i, j :: 0 <= i < j < |Transposed(a)[v]| ==>
        Transposed(a)[v][i] <= Transposed(a)[v][j]
    {
      TransposeColShape(a, v, |a|);
    }
  }

  /** The transpose has exactly the reversed edges. */
  lemma TransposeEdges(a: AdjList)
    requires WellFormed(a)
    ensures EdgeSet(Transposed(a)) == Reverse(EdgeSet(a))
  {
    TransposeShape(a);
    forall v, u
      ensures (v, u) in EdgeSet(Transposed(a)) <==> (u, v) in EdgeSet(a)
    {
      if 0 <= u < |a| && 0 <= v < |a| {
        TransposeMultiplicity(a, u, v);
      }
    }
  }

  /** Transposing twice gives back every adjacency list as a multiset. */
  lemma TransposeTwice(a: AdjList)
    requires WellFormed(a)
    ensures |Transposed(Transposed(a))| == |a|
    ensures forall u :: 0 <= u < |a| ==> multiset(Transposed(Transposed(a))[u]) == multiset(a[u])
  {
    var t := Transposed(a);
    var tt := Transposed(t);
    forall u | 0 <= u < |a|
      ensures multiset(tt[u]) == multiset(a[u])
    {
      forall v
        ensures multiset(tt[u])[v] == multiset(a[u])[v]
      {
        TransposeColCount(t, u, |t|, v, TransposeCol(t, u, |t|));
        if 0 <= v < |a| {
          TransposeMultiplicity(a, u, v);
        } else {
          assert v !in a[u];
        }
      }
    }
  }

  /** sum over v < m of the multiplicity of v in s */
  function CountBelow(s: seq<int>, m: nat): nat {
    if m == 0 then 0 else CountBelow(s, m - 1) + multiset(s)[m - 1]
  }

  lemma {:induction false} CountBelowSnoc(s: seq<int>, x: int, m: nat)
    ensures CountBelow(s + [x], m) == CountBelow(s, m) + if 0 <= x < m then 1 else 0
  {
    if m > 0 {
      CountBelowSnoc(s, x, m - 1);
      assert multiset(s + [x]) == multiset(s) + multiset{x};
    }
  }

  lemma {:induction false} CountBelowAll(s: seq<int>, n: nat)
    requires InRange(s, n)
    ensures CountBelow(s, n) == |s|
  {
    if s == [] {
      CountBelowEmpty(n);
    } else {
      var t := s[..|s| - 1];
      assert s == t + [s[|s| - 1]];
      assert forall x :: x in t ==> x in s;
      CountBelowAll(t, n);
      CountBelowSnoc(t, s[|s| - 1], n);
    }
  }

  lemma {:induction false} CountBelowEmpty(m: nat)
    ensures CountBelow([], m) == 0
  {
    if m > 0 {
      CountBelowEmpty(m - 1);
    }
  }

  /** sum over v < m of the length of row v of the partial transpose after k sources */
  function ColTotal(a: AdjList, k: nat, m: nat): nat
    requires k <= |a|
  {
    if m == 0 then 0 else ColTotal(a, k, m - 1) + |TransposeCol(a, m - 1, k)|
  }

  lemma {:induction false} ColTotalZero(a: AdjList, m: nat)
    ensures ColTotal(a, 0, m) == 0
  {
    if m > 0 {
      ColTotalZero(a, m - 1);
    }
  }

  lemma {:induction false} ColTotalStep(a: AdjList, k: nat, m: nat)
    requires k < |a|
    ensures ColTotal(a, k + 1, m) == ColTotal(a, k, m) + CountBelow(a[k], m)
  {
    if m > 0 {
      ColTotalStep(a, k, m - 1);
      var prev := TransposeCol(a, m - 1, k);
      var rep := Repeat(k, multiset(a[k])[m - 1]);
      assert TransposeCol(a, m - 1, k + 1) == prev + rep;
      assert |prev + rep| == |prev| + multiset(a[k])[m - 1];
    }
  }

  lemma {:induction false} ColTotalAll(a: AdjList, k: nat)
    requires WellFormed(a) && k <= |a|
    ensures ColTotal(a, k, |a|) == EdgeCount(a[..k])
  {
    if k == 0 {
      ColTotalZero(a, |a|);
    } else {
      ColTotalAll(a, k - 1);
      ColTotalStep(a, k - 1, |a|);
      CountBelowAll(a[k - 1], |a|);
      assert a[..k][..k - 1] == a[..k - 1];
    }
  }

  lemma {:induction false} EdgeCountTransposedPrefix(a: AdjList, m: nat)
    requires m <= |a|
    ensures EdgeCount(Transposed(a)[..m]) == ColTotal(a, |a|, m)
  {
    if m > 0 {
      EdgeCountTransposedPrefix(a, m - 1);
      assert Transposed(a)[..m][..m - 1] == Transposed(a)[..m - 1];
    }
  }

  /** The transpose has as many edges as the original. */
  lemma TransposeEdgeCount(a: AdjList)
    requires WellFormed(a)
    ensures EdgeCount(Transposed(a)) == EdgeCount(a)
  {
    EdgeCountTransposedPrefix(a, |a|);
    ColTotalAll(a, |a|);
    assert Transposed(a)[..|a|] == Transposed(a);
    assert a[..|a|] == a;
  }

  // ---------------------------------------------------------------------
  // Square
  // ---------------------------------------------------------------------

  /**
   * Scan s left to right and append to acc every element that is not u and
   * not yet present: the effect of the visited-flag loops of the square.
   */
  function AddNew(acc: seq<int>, s: seq<int>, u: int): seq<int>
    decreases |s|
  {
    if s == [] then acc else AddNew(Step(acc, s[0], u), s[1..], u)
  }

  /** Append x to acc unless x is u or already present. */
  function Step(acc: seq<int>, x: int, u: int): seq<int> {
    if x == u || x in acc then acc else acc + [x]
  }

  /** The scan of s[k..] followed by rest, one element at a time. */
  lemma AddNewAt(acc: seq<int>, s: seq<int>, k: nat, rest: seq<int>, u: int)
    requires k < |s|
    ensures AddNew(acc, s[k..] + rest, u) == AddNew(Step(acc, s[k], u), s[k + 1..] + rest, u)
  {
    assert (s[k..] + rest)[0] == s[k];
    assert (s[k..] + rest)[1..] == s[k + 1..] + rest;
  }

  /** The successors of the vertices in s, in scan order. */
  function TwoHop(a: AdjList, s: seq<int>): seq<int>
    requires forall i :: 0 <= i < |s| ==> 0 <= s[i] < |a|
  {
    if s == [] then [] else a[s[0]] + TwoHop(a, s[1..])
  }

  /** Scanning the successors of s[k..] starts with those of s[k]. */
  lemma TwoHopAt(a: AdjList, s: seq<int>, k: nat)
    requires k < |s| && forall i :: 0 <= i < |s| ==> 0 <= s[i] < |a|
    ensures TwoHop(a, s[k..]) == a[s[k]] + TwoHop(a, s[k + 1..])
  {
    assert s[k..][1..] == s[k + 1..];
  }

  /** The distinct direct successors of u other than u, in adjacency order. */
  function OneHop(a: AdjList, u: int): seq<int>
    requires 0 <= u < |a|
  {
    AddNew([], a[u], u)
  }

  /** Row u of the square: one-hop destinations first, then two-hop ones. */
  function SquareRow(a: AdjList, u: int): seq<int>
    requires WellFormed(a) && 0 <= u < |a|
  {
    AddNew(OneHop(a, u), TwoHop(a, a[u]), u)
  }

  function Squared(a: AdjList): (r: AdjList)
    requires WellFormed(a)
    ensures |r| == |a|
  {
    seq(|a|, u requires 0 <= u < |a| => SquareRow(a, u))
  }

  /** Rows equal to the square rows make up the square. */
  lemma SquaredRows(a: AdjList, rows: AdjList)
    requires WellFormed(a) && |rows| == |a|
    requires forall u :: 0 <= u < |a| ==> rows[u] == SquareRow(a, u)
    ensures rows == Squared(a)
  {
  }

  lemma {:induction false} AddNewMembers(acc: seq<int>, s: seq<int>, u: int, x: int)
    ensures x in AddNew(acc, s, u) <==> x in acc || (x != u && x in s)
    decreases |s|
  {
    if s != [] {
      var acc' := Step(acc, s[0], u);
      AddNewMembers(acc', s[1..], u, x);
      assert s == [s[0]] + s[1..];
    }
  }

  lemma {:induction false} AddNewNoDup(acc: seq<int>, s: seq<int>, u: int)
    requires NoDup(acc) && u !in acc
    ensures NoDup(AddNew(acc, s, u)) && u !in AddNew(acc, s, u)
    decreases |s|
  {
    if s != [] {
      var acc' := Step(acc, s[0], u);
      AddNewNoDup(acc', s[1..], u);
    }
  }

  /**
   * AddNew keeps acc as a prefix, and what it appends is new, differs from u,
   * occurs in s, and is ordered by first occurrence in s.
   */
  lemma {:induction false} AddNewShape(acc: seq<int>, s: seq<int>, u: int)
    ensures |acc| <= |AddNew(acc, s, u)| && AddNew(acc, s, u)[..|acc|] == acc
    ensures forall i :: |acc| <= i < |AddNew(acc, s, u)| ==>
      AddNew(acc, s, u)[i] !in acc && AddNew(acc, s, u)[i] != u && AddNew(acc, s, u)[i] in s
    ensures forall i, j :: |acc| <= i < j < |AddNew(acc, s, u)| ==>
      IndexOf(s, AddNew(acc, s, u)[i]) < IndexOf(s, AddNew(acc, s, u)[j])
    decreases |s|
  {
    if s != [] {
      var acc' := Step(acc, s[0], u);
      var r := AddNew(acc', s[1..], u);
      assert r == AddNew(acc, s, u);
      AddNewShape(acc', s[1..], u);
      assert acc'[..|acc|] == acc;
      assert r[..|acc|] == r[..|acc'|][..|acc|];
      forall i | |acc'| <= i < |r|
        ensures r[i] != s[0] && IndexOf(s, r[i]) == 1 + IndexOf(s[1..], r[i])
      {
        assert r[i] !in acc';
        if s[0] != u {
          assert s[0] in acc';
        }
      }
      forall i | |acc| <= i < |r|
        ensures r[i] !in acc && r[i] != u && r[i] in s
      {
        if i < |acc'| {
          assert r[i] == acc'[i] == s[0];
        } else {
          assert r[i] in s[1..];
        }
      }
      forall i, j | |acc| <= i < j < |r|
        ensures IndexOf(s, r[i]) < IndexOf(s, r[j])
      {
        if i < |acc'| {
          assert r[i] == acc'[i] == s[0];
        }
      }
    }
  }

  lemma {:induction false} TwoHopMembers(a: AdjList, s: seq<int>, w: int)
    requires forall i :: 0 <= i < |s| ==> 0 <= s[i] < |a|
    ensures w in TwoHop(a, s) <==> exists v :: v in s && w in a[v]
    decreases |s|
  {
    if s != [] {
      TwoHopMembers(a, s[1..], w);
      assert forall v :: v in s <==> v == s[0] || v in s[1..];
    }
  }

  /**
   * w is a destination of u in the square iff w differs from u and is a
   * successor of u or of one of u's successors.
   */
  lemma SquareRowMembers(a: AdjList, u: int, w: int)
    requires WellFormed(a) && 0 <= u < |a|
    ensures w in SquareRow(a, u) <==>
      w != u && (w in a[u] || exists v :: v in a[u] && w in a[v])
  {
    AddNewMembers(OneHop(a, u), TwoHop(a, a[u]), u, w);
    AddNewMembers([], a[u], u, w);
    TwoHopMembers(a, a[u], w);
  }

  /** No destination occurs twice in a row of the square, and u is not in its own row. */
  lemma SquareRowNoDup(a: AdjList, u: int)
    requires WellFormed(a) && 0 <= u < |a|
    ensures NoDup(SquareRow(a, u)) && u !in SquareRow(a, u)
  {
    AddNewNoDup([], a[u], u);
    AddNewNoDup(OneHop(a, u), TwoHop(a, a[u]), u);
  }

  /**
   * A row of the square starts with the distinct one-hop destinations other
   * than u, in adjacency order; everything after them is reachable in two
   * hops only, ordered by first occurrence in the two-hop scan.
   */
  lemma SquareRowOneHopFirst(a: AdjList, u: int)
    requires WellFormed(a) && 0 <= u < |a|
    ensures |OneHop(a, u)| <= |SquareRow(a, u)|
    ensures SquareRow(a, u)[..|OneHop(a, u)|] == OneHop(a, u)
    ensures forall x :: x in OneHop(a, u) <==> x != u && x in a[u]
    ensures forall i, j :: 0 <= i < j < |OneHop(a, u)| ==>
      IndexOf(a[u], OneHop(a, u)[i]) < IndexOf(a[u], OneHop(a, u)[j])
    ensures forall i :: |OneHop(a, u)| <= i < |SquareRow(a, u)| ==> SquareRow(a, u)[i] !in a[u]
    ensures forall i, j :: |OneHop(a, u)| <= i < j < |SquareRow(a, u)| ==>
      IndexOf(TwoHop(a, a[u]), SquareRow(a, u)[i]) < IndexOf(TwoHop(a, a[u]), SquareRow(a, u)[j])
  {
    var p := OneHop(a, u);
    var r := SquareRow(a, u);
    AddNewShape([], a[u], u);
    AddNewShape(p, TwoHop(a, a[u]), u);
    forall x
      ensures x in p <==> x != u && x in a[u]
    {
      AddNewMembers([], a[u], u, x);
    }
  }

  /** The square keeps every destination in range. */
  lemma SquaredWellFormed(a: AdjList)
    requires WellFormed(a)
    ensures WellFormed(Squared(a))
  {
    forall u, k | 0 <= u < |a| && 0 <= k < |Squared(a)[u]|
      ensures 0 <= Squared(a)[u][k] < |a|
    {
      SquareRowMembers(a, u, Squared(a)[u][k]);
    }
  }

  // ---------------------------------------------------------------------
  // Simple undirected form
  // ---------------------------------------------------------------------

  /** {u, v} is an edge of the simple undirected form of a. */
  predicate SimpleEdge(a: AdjList, u: int, v: int) {
    0 <= u < |a| && 0 <= v < |a| && u != v && (v in a[u] || u in a[v])
  }

  /** x -> y is among the entries read so far: rows before u, then the first k entries of row u. */
  predicate ReadSoFar(a: AdjList, u: int, k: int, x: int, y: int) {
    0 <= x < |a| && ((x < u && y in a[x]) || (x == u && 0 <= k <= |a[x]| && y in a[x][..k]))
  }

  /**
   * b stores the simple undirected form of a: the same vertices, and in each
   * row every neighbour once.
   */
  ghost predicate IsSimpleFormOf(b: AdjList, a: AdjList) {
    |b| == |a| &&
    forall u :: 0 <= u < |b| ==> NoDup(b[u]) && forall v :: v in b[u] <==> SimpleEdge(a, u, v)
  }

  /**
   * A simple form is symmetric, loop-free and well formed, and it holds
   * {u, v} exactly when u != v and the original has u -> v or v -> u.
   */
  lemma SimpleFormShape(b: AdjList, a: AdjList)
    requires IsSimpleFormOf(b, a)
    ensures WellFormed(b)
    ensures forall u, v :: 0 <= u < |b| && 0 <= v < |b| ==> (v in b[u] <==> u in b[v])
    ensures forall u :: 0 <= u < |b| ==> u !in b[u]
  {
    forall u, k | 0 <= u < |b| && 0 <= k < |b[u]|
      ensures 0 <= b[u][k] < |b|
    {
      assert b[u][k] in b[u];
    }
  }

  lemma {:induction false} NoDupMultiplicity(s: seq<int>, x: int)
    requires NoDup(s)
    ensures multiset(s)[x] == if x in s then 1 else 0
  {
    if s != [] {
      var t := s[..|s| - 1];
      assert s == t + [s[|s| - 1]];
      NoDupMultiplicity(t, x);
    }
  }

  /**
   * Simplifying a simple form changes nothing: each row holds the same
   * neighbours, each once.
   */
  lemma SimplifyIdempotent(a: AdjList, b: AdjList, c: AdjList)
    requires IsSimpleFormOf(b, a) && IsSimpleFormOf(c, b)
    ensures |c| == |b|
    ensures forall u :: 0 <= u < |c| ==> multiset(c[u]) == multiset(b[u])
  {
    forall u | 0 <= u < |c|
      ensures multiset(c[u]) == multiset(b[u])
    {
      forall x
        ensures multiset(c[u])[x] == multiset(b[u])[x]
      {
        NoDupMultiplicity(c[u], x);
        NoDupMultiplicity(b[u], x);
      }
    }
  }
}
