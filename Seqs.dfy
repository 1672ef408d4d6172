/** Sequence helpers shared by both graph representations. */
module Seqs {

  /** No element occurs twice. */
  predicate NoDup(s: seq<int>) {
    forall i, j :: 0 <= i < j < |s| ==> s[i] != s[j]
  }

  /** Every element lies in [0, n). */
  predicate InRange(s: seq<int>, n: int) {
    forall i :: 0 <= i < |s| ==> 0 <= s[i] < n
  }

  /** Position of the first occurrence of x in s, or |s| when x does not occur. */
  function IndexOf(s: seq<int>, x: int): (r: nat)
    ensures r <= |s|
    ensures r < |s| ==> s[r] == x
    ensures r == |s| <==> x !in s
    ensures forall j :: 0 <= j < r ==> s[j] != x
  {
    if s == [] then 0
    else if s[0] == x then 0
    else 1 + IndexOf(s[1..], x)
  }

  /** c copies of x. */
  function Repeat(x: int, c: nat): (r: seq<int>)
    ensures |r| == c
    ensures forall i :: 0 <= i < c ==> r[i] == x
  {
    if c == 0 then [] else Repeat(x, c - 1) + [x]
  }

  lemma {:induction false} RepeatCount(x: int, c: nat, y: int)
    ensures multiset(Repeat(x, c))[y] == if x == y then c else 0
  {
    if c > 0 {
      RepeatCount(x, c - 1, y);
    }
  }

  /** Appending c copies of x adds c occurrences of x and none of anything else. */
  lemma AppendRepeatCount(t: seq<int>, s: seq<int>, x: int, c: nat, y: int)
    requires t == s + Repeat(x, c)
    ensures multiset(t)[y] == multiset(s)[y] + if x == y then c else 0
  {
    assert multiset(t) == multiset(s) + multiset(Repeat(x, c));
    RepeatCount(x, c, y);
  }

  /** The integers in [0, n) as a set. */
  function Below(n: nat): (r: set<int>)
    ensures |r| == n
    ensures forall x :: x in r <==> 0 <= x < n
  {
    if n == 0 then {} else Below(n - 1) + {n - 1}
  }

  /** A sequence without duplicates has as many elements as its set. */
  lemma {:induction false} NoDupCard(s: seq<int>)
    requires NoDup(s)
    ensures |set x | x in s| == |s|
  {
    if s != [] {
      var t := s[..|s| - 1];
      NoDupCard(t);
      assert (set x | x in s) == (set x | x in t) + {s[|s| - 1]};
      assert s[|s| - 1] !in t;
    }
  }

  /** Pigeonhole: distinct values drawn from [0, n) number at most n. */
  lemma DistinctBound(s: seq<int>, n: nat)
    requires NoDup(s) && InRange(s, n)
    ensures |s| <= n
  {
    NoDupCard(s);
    SubsetCard((set x | x in s), Below(n));
  }

  lemma {:induction false} SubsetCard(a: set<int>, b: set<int>)
    requires a <= b
    ensures |a| <= |b|
    decreases |a|
  {
    if a != {} {
      HasElement(a);
      var x :| x in a;
      SubsetCard(a - {x}, b - {x});
    }
  }

  /** A non-empty set has an element. */
  lemma HasElement(a: set<int>)
    requires a != {}
    ensures exists x :: x in a
  {
    assert (forall x :: x !in a) ==> a == {};
  }
}
