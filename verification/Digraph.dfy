/**
  Finite directed graphs as tables of direct successors: walks, cycles, reachability and
  the length of the longest walk from a node.
 */
module Digraph {

  type Graph<T(==)> = map<T, seq<T>>

  /** Every successor is a node. */
  ghost predicate Closed<T>(g: Graph<T>) {
    forall x, y :: x in g && y in g[x] ==> y in g
  }

  ghost predicate IsWalk<T>(g: Graph<T>, w: seq<T>) {
    && |w| > 0
    && (forall i :: 0 <= i < |w| ==> w[i] in g)
    && (forall i :: 0 <= i < |w| - 1 ==> w[i + 1] in g[w[i]])
  }

  /** No walk of at least one edge comes back to where it started. */
  ghost predicate Acyclic<T(!new)>(g: Graph<T>) {
    forall w :: IsWalk(g, w) && |w| > 1 ==> w[0] != w[|w| - 1]
  }

  predicate Distinct<T(==)>(s: seq<T>) {
    forall i, j :: 0 <= i < j < |s| ==> s[i] != s[j]
  }

  lemma SubWalk<T>(g: Graph<T>, w: seq<T>, i: nat, j: nat)
    requires IsWalk(g, w)
    requires i < j <= |w|
    ensures IsWalk(g, w[i..j])
  {
  }

  lemma WalkHasEdge<T>(g: Graph<T>, w: seq<T>)
    requires IsWalk(g, w)
    ensures |w| > 1 ==> exists x :: x in g && |g[x]| > 0
  {
    if |w| > 1 { assert w[1] in g[w[0]]; }
  }

  lemma ConsWalk<T>(g: Graph<T>, x: T, w: seq<T>)
    requires IsWalk(g, w)
    requires x in g && w[0] in g[x]
    ensures IsWalk(g, [x] + w)
  {
  }

  lemma SnocWalk<T>(g: Graph<T>, w: seq<T>, x: T)
    requires IsWalk(g, w)
    requires x in g && x in g[w[|w| - 1]]
    ensures IsWalk(g, w + [x])
  {
  }

  /** In an acyclic graph no walk meets a node twice. */
  lemma AcyclicMeansDistinct<T(!new)>(g: Graph<T>)
    ensures Acyclic(g) <==> forall w :: IsWalk(g, w) ==> Distinct(w)
  {
    if Acyclic(g) {
      forall w | IsWalk(g, w) ensures Distinct(w) {
        forall i, j | 0 <= i < j < |w| ensures w[i] != w[j] {
          SubWalk(g, w, i, j + 1);
          var c := w[i..j + 1];
          assert c[0] == w[i] && c[|c| - 1] == w[j];
        }
      }
    }
  }

  lemma DistinctAppend<T>(s: seq<T>, x: T)
    requires Distinct(s) && x !in s
    ensures Distinct(s + [x])
  {
  }

  lemma {:induction false} DistinctLength<T>(s: seq<T>, nodes: set<T>)
    requires Distinct(s)
    requires forall x :: x in s ==> x in nodes
    ensures |s| <= |nodes|
  {
    if |s| > 0 {
      var x := s[|s| - 1];
      assert x in nodes;
      DistinctLength(s[..|s| - 1], nodes - {x});
    }
  }

  // ----- Reachability

  ghost predicate Reaches<T(!new)>(g: Graph<T>, roots: seq<T>, x: T) {
    exists w :: IsWalk(g, w) && w[0] in roots && w[|w| - 1] == x
  }

  lemma RootReached<T(!new)>(g: Graph<T>, roots: seq<T>, x: T)
    requires x in roots && x in g
    ensures Reaches(g, roots, x)
  {
    assert IsWalk(g, [x]);
  }

  lemma SuccessorReached<T(!new)>(g: Graph<T>, roots: seq<T>, x: T, y: T)
    requires Closed(g)
    requires Reaches(g, roots, x) && y in g[x]
    ensures Reaches(g, roots, y)
  {
    var w :| IsWalk(g, w) && w[0] in roots && w[|w| - 1] == x;
    SnocWalk(g, w, y);
    assert (w + [y])[0] in roots;
  }

  /** A set that holds the roots and is closed under successors holds all that is reached. */
  lemma ClosedSetHoldsReached<T(!new)>(g: Graph<T>, roots: seq<T>, seen: set<T>, x: T)
    requires forall r :: r in roots && r in g ==> r in seen
    requires forall y, z :: y in seen && y in g && z in g[y] ==> z in seen
    requires Reaches(g, roots, x)
    ensures x in seen
  {
    var w :| IsWalk(g, w) && w[0] in roots && w[|w| - 1] == x;
    var i := 0;
    while i < |w| - 1
      invariant i <= |w| - 1
      invariant w[i] in seen
    {
      assert w[i + 1] in g[w[i]];
      i := i + 1;
    }
  }

  // ----- Longest walks

  /** A walk of `k` edges starts at `x`. */
  ghost predicate HasWalk<T(!new)>(g: Graph<T>, x: T, k: nat) {
    exists w :: IsWalk(g, w) && w[0] == x && |w| == k + 1
  }

  /** The longest walk from `x` has `k` edges. */
  ghost predicate Longest<T(!new)>(g: Graph<T>, x: T, k: nat) {
    HasWalk(g, x, k) && !HasWalk(g, x, k + 1)
  }

  lemma ShorterWalk<T(!new)>(g: Graph<T>, x: T, j: nat, k: nat)
    requires j <= k
    requires HasWalk(g, x, k)
    ensures HasWalk(g, x, j)
  {
    var w :| IsWalk(g, w) && w[0] == x && |w| == k + 1;
    SubWalk(g, w, 0, j + 1);
    assert w[0..j + 1][0] == x;
  }

  lemma WalkFromSuccessor<T(!new)>(g: Graph<T>, x: T, k: nat)
    requires x in g
    ensures HasWalk(g, x, k + 1) <==> exists y :: y in g[x] && HasWalk(g, y, k)
  {
    if HasWalk(g, x, k + 1) {
      var w :| IsWalk(g, w) && w[0] == x && |w| == k + 2;
      SubWalk(g, w, 1, |w|);
      assert w[1..|w|][0] == w[1];
      assert HasWalk(g, w[1], k);
    }
    if y :| y in g[x] && HasWalk(g, y, k) {
      var w :| IsWalk(g, w) && w[0] == y && |w| == k + 1;
      ConsWalk(g, x, w);
      assert ([x] + w)[0] == x;
    }
  }

  lemma LongestIsUnique<T(!new)>(g: Graph<T>, x: T, j: nat, k: nat)
    requires Longest(g, x, j) && Longest(g, x, k)
    ensures j == k
  {
    if j < k { ShorterWalk(g, x, j + 1, k); }
    if k < j { ShorterWalk(g, x, k + 1, j); }
  }

  lemma TrivialWalk<T(!new)>(g: Graph<T>, x: T)
    requires x in g
    ensures HasWalk(g, x, 0)
  {
    assert IsWalk(g, [x]) && [x][0] == x;
  }

  lemma {:induction false} LongestBelow<T(!new)>(g: Graph<T>, x: T, k: nat) returns (j: nat)
    requires x in g && !HasWalk(g, x, k)
    ensures j < k && Longest(g, x, j)
  {
    TrivialWalk(g, x);
    if HasWalk(g, x, k - 1) {
      j := k - 1;
    } else {
      j := LongestBelow(g, x, k - 1);
    }
  }

  /** In an acyclic graph no walk has as many edges as there are nodes. */
  lemma WalksAreShort<T(!new)>(g: Graph<T>, x: T, k: nat)
    requires Acyclic(g)
    requires HasWalk(g, x, k)
    ensures k < |g|
  {
    var w :| IsWalk(g, w) && w[0] == x && |w| == k + 1;
    AcyclicMeansDistinct(g);
    DistinctLength(w, g.Keys);
  }

  lemma LongerWalk<T(!new)>(g: Graph<T>, w: seq<T>, i: nat, k: nat)
    requires IsWalk(g, w) && i < |w|
    requires HasWalk(g, w[i], k)
    ensures HasWalk(g, w[0], i + k)
  {
    var v :| IsWalk(g, v) && v[0] == w[i] && |v| == k + 1;
    var u := w[..i] + v;
    assert IsWalk(g, u) && u[0] == w[0] && |u| == i + k + 1;
  }

  /** From a node with a walk of `k` edges, some node is met whose longest walk has exactly
      `k` edges. */
  lemma {:induction false} SomeLongest<T(!new)>(g: Graph<T>, x: T, k: nat, j: nat) returns (y: T)
    requires Acyclic(g)
    requires k <= j && HasWalk(g, x, j)
    ensures y in g && Longest(g, y, k)
    decreases |g| - j
  {
    WalksAreShort(g, x, j);
    if HasWalk(g, x, j + 1) {
      y := SomeLongest(g, x, k, j + 1);
    } else {
      var w :| IsWalk(g, w) && w[0] == x && |w| == j + 1;
      y := w[j - k];
      SubWalk(g, w, j - k, j + 1);
      assert HasWalk(g, y, k);
      if HasWalk(g, y, k + 1) { LongerWalk(g, w, j - k, k + 1); }
    }
  }

  // ----- Rounds: taking in every round the nodes whose successors were all taken before

  ghost function Ready<T>(g: Graph<T>, taken: set<T>): set<T> {
    set x | x in g.Keys && x !in taken && forall y :: y in g[x] ==> y in taken
  }

  ghost function TakenAfter<T>(g: Graph<T>, rounds: nat): set<T> {
    if rounds == 0 then {} else
      var taken := TakenAfter(g, rounds - 1);
      taken + Ready(g, taken)
  }

  /** After `k` rounds exactly the nodes without a walk of `k` edges are taken. */
  lemma {:induction false} TakenHaveShortWalks<T(!new)>(g: Graph<T>, k: nat)
    requires Closed(g)
    ensures forall x :: x in TakenAfter(g, k) <==> x in g && !HasWalk(g, x, k)
  {
    if k == 0 {
      forall x | x in g ensures HasWalk(g, x, 0) { TrivialWalk(g, x); }
    } else {
      TakenHaveShortWalks(g, k - 1);
      var taken := TakenAfter(g, k - 1);
      forall x | x in g ensures x in TakenAfter(g, k) <==> !HasWalk(g, x, k) {
        WalkFromSuccessor(g, x, k - 1);
        if x in taken && HasWalk(g, x, k) { ShorterWalk(g, x, k - 1, k); }
      }
    }
  }

  /** Round `k` takes exactly the nodes whose longest walk has `k` edges. */
  lemma RoundTakesLongest<T(!new)>(g: Graph<T>, k: nat)
    requires Closed(g)
    ensures forall x :: x in Ready(g, TakenAfter(g, k)) <==> x in g && Longest(g, x, k)
  {
    TakenHaveShortWalks(g, k);
    forall x | x in g ensures x in Ready(g, TakenAfter(g, k)) <==> Longest(g, x, k) {
      WalkFromSuccessor(g, x, k);
    }
  }

  /** Without cycles every round takes something while anything is left. */
  lemma RoundTakesSomething<T(!new)>(g: Graph<T>, k: nat)
    requires Closed(g) && Acyclic(g)
    requires TakenAfter(g, k) != g.Keys
    ensures Ready(g, TakenAfter(g, k)) != {}
  {
    hide HasWalk, Closed, Acyclic, TakenAfter, Ready;
    TakenHaveShortWalks(g, k);
    RoundTakesLongest(g, k);
    var x :| x in g && x !in TakenAfter(g, k);
    var y := SomeLongest(g, x, k, k);
    assert y in Ready(g, TakenAfter(g, k));
  }

  lemma {:induction false} CycleWalksOn<T(!new)>(g: Graph<T>, c: seq<T>, i: nat, k: nat)
    requires IsWalk(g, c) && |c| > 1 && c[0] == c[|c| - 1]
    requires i < |c|
    ensures HasWalk(g, c[i], k)
    decreases k
  {
    if k == 0 {
      TrivialWalk(g, c[i]);
    } else if i == |c| - 1 {
      CycleWalksOn(g, c, 1, k - 1);
      WalkFromSuccessor(g, c[0], k - 1);
      assert c[1] in g[c[0]];
    } else {
      CycleWalksOn(g, c, i + 1, k - 1);
      WalkFromSuccessor(g, c[i], k - 1);
    }
  }

  /** The rounds take every node if and only if there is no cycle; with a cycle they go on
      forever without taking its nodes. */
  lemma RoundsFinish<T(!new)>(g: Graph<T>)
    requires Closed(g)
    ensures (exists k :: TakenAfter(g, k) == g.Keys) <==> Acyclic(g)
  {
    if Acyclic(g) {
      TakenHaveShortWalks(g, |g|);
      forall x | x in g ensures x in TakenAfter(g, |g|) {
        if HasWalk(g, x, |g|) { WalksAreShort(g, x, |g|); }
      }
      assert TakenAfter(g, |g|) == g.Keys;
    }
    forall k, c | TakenAfter(g, k) == g.Keys && IsWalk(g, c) && |c| > 1 ensures c[0] != c[|c| - 1] {
      if c[0] == c[|c| - 1] {
        TakenHaveShortWalks(g, k);
        CycleWalksOn(g, c, 0, k);
      }
    }
  }

  // ----- Part of a graph

  /** The part of `g` that is closed under successors and given by `h`. */
  ghost predicate ClosedPart<T(!new)>(h: Graph<T>, g: Graph<T>) {
    && Closed(h)
    && forall x :: x in h ==> x in g && h[x] == g[x]
  }

  lemma {:induction false} PartHasSameWalks<T(!new)>(h: Graph<T>, g: Graph<T>, w: seq<T>)
    requires ClosedPart(h, g)
    requires |w| > 0 && w[0] in h
    ensures IsWalk(h, w) <==> IsWalk(g, w)
  {
    if |w| > 1 && IsWalk(g, w) {
      assert w[1] in h[w[0]];
      SubWalk(g, w, 1, |w|);
      assert w[1..|w|] == w[1..];
      PartHasSameWalks(h, g, w[1..]);
      ConsWalk(h, w[0], w[1..]);
      assert [w[0]] + w[1..] == w;
    }
  }

  lemma PartHasSameLongest<T(!new)>(h: Graph<T>, g: Graph<T>, x: T, k: nat)
    requires ClosedPart(h, g)
    requires x in h
    ensures HasWalk(h, x, k) <==> HasWalk(g, x, k)
  {
    if HasWalk(h, x, k) {
      var w :| IsWalk(h, w) && w[0] == x && |w| == k + 1;
      PartHasSameWalks(h, g, w);
    }
    if HasWalk(g, x, k) {
      var w :| IsWalk(g, w) && w[0] == x && |w| == k + 1;
      PartHasSameWalks(h, g, w);
    }
  }
}
