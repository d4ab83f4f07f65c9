/**
  Globs that the step function of the matchers follows without losing files, and those it
  does not.
 */
module SteadyGlobs {
  import opened Common
  import opened Globs
  import opened GlobProgress

  /** Some segment of `d` from the first component that contains `**` on is not accepted
      by that component: the step function has dropped the glob. */
  ghost predicate Stalled(g: Glob, d: Path) {
    var i := FirstDoubled(g);
    i < |g| && exists j :: i <= j < |d| && !g[i].Accepts(d[j])
  }

  /** A match of a trimmed glob, cut short: what the match says about the segments before
      the cut. */
  lemma {:induction false} CutMatch(t: Glob, q: Path, d: Path)
    requires Trimmed(t)
    requires MatchParts(t, q)
    requires d <= q
    ensures forall j :: 0 <= j < |d| && j < FirstDoubled(t) ==> t[j].Accepts(d[j])
    ensures |q| >= FirstDoubled(t)
    ensures FirstDoubled(t) == |t| ==> |q| == |t|
  {
    if |t| > 0 && FirstDoubled(t) > 0 {
      assert FirstDoubled(t[1..]) == FirstDoubled(t) - 1 by { FirstDoubledOfRest(t, 1); }
      assert MatchParts(t[1..], q[1..]);
      if |d| > 0 {
        CutMatch(t[1..], q[1..], d[1..]);
        forall j | 0 <= j < |d| && j < FirstDoubled(t) ensures t[j].Accepts(d[j]) {
          if j > 0 { assert t[j] == t[1..][j - 1] && d[j] == d[1..][j - 1]; }
        }
      } else if |q| > 1 {
        CutMatch(t[1..], q[1..], []);
      }
    }
  }

  lemma TrimKeepsFirstDoubled(g: Glob)
    ensures FirstDoubled(g) < |Trim(g)| ==> FirstDoubled(Trim(g)) == FirstDoubled(g)
    ensures FirstDoubled(g) >= |Trim(g)| ==> FirstDoubled(Trim(g)) == |Trim(g)|
  {
  }

  lemma CoveredAt(t: Glob, p: Path, d: Path) returns (k: nat)
    requires d <= p
    requires Covers(t, p)
    ensures k <= |p| && MatchParts(t, p[..k])
    ensures k <= |d| ==> Covers(t, d)
  {
    k :| 0 <= k <= |p| && MatchParts(t, p[..k]);
    if k <= |d| {
      assert d[..k] == p[..k];
    }
  }

  /** Above a path that the glob covers, a directory that the glob does not cover itself is
      dropped by the step function exactly when it is stalled. */
  lemma AliveAboveMatch(g: Glob, p: Path, d: Path)
    requires d <= p
    requires Covers(Trim(g), p)
    requires !Covers(Trim(g), d)
    ensures Alive(g, d) <==> !Stalled(g, d)
  {
    var t, i := Trim(g), FirstDoubled(g);
    var k := CoveredAt(t, p, d);
    CutMatch(t, p[..k], d);
    TrimKeepsFirstDoubled(g);
    if !Stalled(g, d) {
      forall j | 0 <= j < |d| ensures g[Cursor(g, j)].Accepts(d[j]) {
      }
    }
    if Alive(g, d) && i < |g| {
      forall j | i <= j < |d| ensures g[i].Accepts(d[j]) {
        assert g[Cursor(g, j)].Accepts(d[j]);
      }
    }
  }

  // ----- Matches component by component

  /** Index of the first `**`, or the length of the glob. */
  function FirstGlobstar(t: Glob): (m: nat)
    ensures m <= |t|
    ensures forall j :: 0 <= j < m ==> !t[j].Globstar()
    ensures m < |t| ==> t[m].Globstar()
  {
    if |t| == 0 || t[0].Globstar() then 0 else 1 + FirstGlobstar(t[1..])
  }

  /** How many components take exactly one segment. */
  function Singles(t: Glob): nat {
    if |t| == 0 then 0 else (if t[0].Globstar() then 0 else 1) + Singles(t[1..])
  }

  ghost predicate Possible(c: Component) {
    exists s :: c.Accepts(s)
  }

  /** The glob matches something at all. */
  ghost predicate Satisfiable(t: Glob) {
    forall j :: 0 <= j < |t| ==> Possible(t[j])
  }

  lemma SatisfiableRest(t: Glob)
    requires |t| > 0
    ensures Satisfiable(t) <==> Possible(t[0]) && Satisfiable(t[1..])
  {
    assert forall j :: 0 < j < |t| ==> t[j] == t[1..][j - 1];
  }

  lemma {:induction false} SinglesAfter(t: Glob, m: nat)
    requires m <= |t|
    requires forall j :: 0 <= j < m ==> !t[j].Globstar()
    ensures Singles(t) == m + Singles(t[m..])
  {
    if m == 0 {
      assert t[0..] == t;
    } else {
      SinglesAfter(t[1..], m - 1);
      assert t[1..][m - 1..] == t[m..];
    }
  }

  /** The first segments are accepted by the first components. */
  predicate AcceptsHead(t: Glob, q: Path, m: nat)
    requires m <= |t|
  {
    m <= |q| && forall j :: 0 <= j < m ==> t[j].Accepts(q[j])
  }

  lemma HeadOfRest(t: Glob, q: Path, m: nat)
    requires 0 < m <= |t| && |q| > 0
    ensures AcceptsHead(t, q, m) <==> t[0].Accepts(q[0]) && AcceptsHead(t[1..], q[1..], m - 1)
  {
    var u, r := t[1..], q[1..];
    assert forall j :: 0 <= j < m - 1 ==> u[j] == t[j + 1];
    assert forall j :: 0 < j < m ==> t[j] == u[j - 1];
    assert forall j :: 0 <= j < |r| ==> r[j] == q[j + 1];
    if AcceptsHead(t, q, m) {
      forall j | 0 <= j < m - 1 ensures u[j].Accepts(r[j]) { assert t[j + 1].Accepts(q[j + 1]); }
    }
    if t[0].Accepts(q[0]) && AcceptsHead(u, r, m - 1) {
      forall j | 0 < j < m ensures t[j].Accepts(q[j]) { assert u[j - 1].Accepts(r[j - 1]); }
    }
  }

  lemma {:induction false} PlainHead(t: Glob, q: Path, m: nat)
    requires m <= |t|
    requires forall j :: 0 <= j < m ==> !t[j].Globstar()
    ensures MatchParts(t, q) <==> AcceptsHead(t, q, m) && MatchParts(t[m..], q[m..])
    ensures Singles(t) == m + Singles(t[m..])
  {
    SinglesAfter(t, m);
    if m == 0 {
      assert t[0..] == t && q[0..] == q;
    } else if |q| > 0 {
      assert MatchParts(t, q) <==> t[0].Accepts(q[0]) && MatchParts(t[1..], q[1..]);
      hide MatchParts, Singles;
      PlainHead(t[1..], q[1..], m - 1);
      HeadOfRest(t, q, m);
      hide AcceptsHead;
      assert t[1..][m - 1..] == t[m..];
      if |q| >= m { assert q[1..][m - 1..] == q[m..]; } else { TooShort(t, q, m); TooShort(t[1..], q[1..], m - 1); }
    }
  }

  lemma TooShort(t: Glob, q: Path, m: nat)
    requires m <= |t| && |q| < m
    ensures !AcceptsHead(t, q, m)
  {
  }

  /** A match has a segment for each component that takes exactly one; its last segment is
      accepted by the last component. */
  lemma {:induction false} MatchNeeds(t: Glob, q: Path)
    requires Trimmed(t) && |t| > 0
    requires MatchParts(t, q)
    ensures |q| > 0 && |q| >= Singles(t)
    ensures t[|t| - 1].Accepts(q[|q| - 1])
    ensures Satisfiable(t)
    decreases |t| + |q|
  {
    if t[0].Globstar() {
      assert t[0].Accepts(q[0]);
      SatisfiableRest(t);
      if MatchParts(t[1..], q) {
        MatchNeeds(t[1..], q);
      } else {
        MatchNeeds(t, q[1..]);
      }
    } else {
      assert t[0].Accepts(q[0]);
      SatisfiableRest(t);
      if |t| > 1 { MatchNeeds(t[1..], q[1..]); }
    }
  }

  lemma {:induction false} SinglesOne(t: Glob)
    requires Trimmed(t) && |t| > 0
    ensures Singles(t) >= 1
    ensures Singles(t) == 1 ==> forall j :: 0 <= j < |t| - 1 ==> t[j].Globstar()
  {
    if |t| > 1 {
      SinglesOne(t[1..]);
      assert forall j :: 0 < j < |t| ==> t[j] == t[1..][j - 1];
    }
  }

  /** When `**` come first and one component takes exactly one segment, it takes the last. */
  lemma {:induction false} StarsThenLast(t: Glob, q: Path)
    requires Trimmed(t) && |t| > 0 && |q| > 0
    requires forall j :: 0 <= j < |t| - 1 ==> t[j].Globstar()
    requires t[|t| - 1].Accepts(q[|q| - 1])
    requires |t| > 1 || |q| == 1
    ensures MatchParts(t, q)
    decreases |t| + |q|
  {
    if |t| > 1 {
      if |q| == 1 { StarsThenLast(t[1..], q); } else { StarsThenLast(t, q[1..]); }
    } else {
      assert MatchParts(t[1..], q[1..]);
    }
  }

  /** A shortest path that the glob matches. */
  lemma {:induction false} ShortestMatch(t: Glob) returns (q: Path)
    requires Trimmed(t)
    requires Satisfiable(t)
    ensures MatchParts(t, q) && |q| == Singles(t)
  {
    if |t| == 0 {
      q := [];
    } else {
      SatisfiableRest(t);
      var rest := ShortestMatch(t[1..]);
      if t[0].Globstar() {
        MatchNeeds(t[1..], rest);
        q := rest;
      } else {
        var s :| t[0].Accepts(s);
        q := [s] + rest;
        assert q[1..] == rest;
      }
    }
  }

  // ----- Steady globs

  /** A component after component `i`, other than the last and before any `**`, accepts a
      segment that component `i` does not. */
  ghost predicate ComponentStalls(t: Glob, i: nat)
    requires i < |t|
  {
    exists j, s :: i < j < FirstGlobstar(t) && j < |t| - 1 && t[j].Accepts(s) && !t[i].Accepts(s)
  }

  /** A `**` takes a segment that component `i` does not accept, and which cannot end the match:
      more than one segment has to follow, or the last component does not accept it. */
  ghost predicate GlobstarStalls(t: Glob, i: nat)
    requires i < |t|
  {
    var m := FirstGlobstar(t);
    m < |t| && exists s :: !t[i].Accepts(s) && (Singles(t[m..]) > 1 || !t[|t| - 1].Accepts(s))
  }

  /** A glob that the step function follows without losing files: its first component whose
      text contains `**` is one of asterisks, or nothing after it takes a segment on the way
      which that component does not accept. */
  ghost predicate Steady(g: Glob) {
    var t, i := Trim(g), FirstDoubled(g);
    i < |t| && t[i].Pattern? && Satisfiable(t) ==> !ComponentStalls(t, i) && !GlobstarStalls(t, i)
  }

  /** Globs that use `**` as a whole component only are steady, and so are those with at most
      one component after the one that contains `**`. */
  lemma SimplySteady(g: Glob)
    ensures var t, i := Trim(g), FirstDoubled(g);
            i >= |t| || t[i].Asterisks? || |t| <= i + 2 ==> Steady(g)
  {
    hide Singles, Satisfiable, Component.Accepts;
    var t, i, m := Trim(g), FirstDoubled(g), FirstGlobstar(Trim(g));
    if i < |t| && t[i].Pattern? && |t| <= i + 2 {
      assert m == |t|;
      assert !ComponentStalls(t, i) && !GlobstarStalls(t, i);
    }
  }

  /** A steady glob is never stalled above what it covers. */
  lemma SteadyNeverStalls(g: Glob, p: Path, d: Path)
    requires Steady(g)
    requires d <= p
    requires Covers(Trim(g), p)
    requires !Covers(Trim(g), d)
    ensures !Stalled(g, d)
  {
    var t, i := Trim(g), FirstDoubled(g);
    var k := CoveredAt(t, p, d);
    if b :| i < |g| && i <= b < |d| && !g[i].Accepts(d[b]) {
      assert i < |t| && t[i] == g[i];
      StallShows(t, i, p[..k], d, b);
    }
  }

  lemma StallShows(t: Glob, i: nat, q: Path, d: Path, b: nat)
    requires Trimmed(t) && i < |t| && t[i].Pattern?
    requires forall j :: 0 <= j < i ==> !t[j].Doubled()
    requires MatchParts(t, q) && d < q && !Covers(t, d)
    requires i <= b < |d| && !t[i].Accepts(d[b])
    ensures Satisfiable(t) && (ComponentStalls(t, i) || GlobstarStalls(t, i))
  {
    var m := FirstGlobstar(t);
    MatchNeeds(t, q);
    PlainHead(t, q, m);
    assert t[|t|..] == [];
    if b < m {
      assert t[b].Accepts(q[b]);
      assert i < b && b < |t| - 1 && t[b].Accepts(d[b]);
    } else {
      TakenByGlobstar(t, i, q, d, b);
    }
  }

  lemma TakenByGlobstar(t: Glob, i: nat, q: Path, d: Path, b: nat)
    requires Trimmed(t) && i < |t|
    requires MatchParts(t, q) && d < q && !Covers(t, d)
    requires FirstGlobstar(t) <= b < |d| && FirstGlobstar(t) < |t|
    requires !t[i].Accepts(d[b])
    ensures GlobstarStalls(t, i)
  {
    var m := FirstGlobstar(t);
    var tail, r := t[m..], d[..b + 1];
    PlainHead(t, q, m);
    PlainHead(t, r, m);
    SinglesOne(tail);
    assert r == q[..b + 1] && r[m..][|r[m..]| - 1] == d[b] && tail[|tail| - 1] == t[|t| - 1];
    assert !MatchParts(t, r);
    hide MatchParts, Singles, Covers;
    assert AcceptsHead(t, r, m);
    if Singles(tail) == 1 && t[|t| - 1].Accepts(d[b]) {
      StarsThenLast(tail, r[m..]);
      assert false;
    }
  }

  /** The path on which some component stalls. */
  lemma ComponentStallsOn(t: Glob, i: nat) returns (p: Path, d: Path, b: nat)
    requires Trimmed(t) && i < |t| && Satisfiable(t)
    requires ComponentStalls(t, i)
    ensures d < p && MatchParts(t, p) && !Covers(t, d)
    ensures i <= b < |d| && !t[i].Accepts(d[b])
  {
    var m := FirstGlobstar(t);
    var j, s :| i < j < m && j < |t| - 1 && t[j].Accepts(s) && !t[i].Accepts(s);
    var base := ShortestMatch(t);
    PlainHead(t, base, m);
    if m < |t| { MatchNeeds(t[m..], base[m..]); } else { assert t[m..] == []; }
    p, b := base[j := s], j;
    assert p[m..] == base[m..];
    PlainHead(t, p, m);
    d := p[..|p| - 1];
    ShorterNotCovered(t, d);
  }

  lemma ShorterNotCovered(t: Glob, d: Path)
    requires Trimmed(t) && |t| > 0
    requires |d| < Singles(t)
    ensures !Covers(t, d)
  {
    forall k | 0 <= k <= |d| ensures !MatchParts(t, d[..k]) {
      if MatchParts(t, d[..k]) { MatchNeeds(t, d[..k]); }
    }
  }

  /** The path on which a segment taken by `**` stalls. */
  lemma GlobstarStallsOn(t: Glob, i: nat) returns (p: Path, d: Path, b: nat)
    requires Trimmed(t) && i < |t| && Satisfiable(t) && i < FirstGlobstar(t)
    requires GlobstarStalls(t, i)
    ensures d < p && MatchParts(t, p) && !Covers(t, d)
    ensures i <= b < |d| && !t[i].Accepts(d[b])
  {
    var m := FirstGlobstar(t);
    var s :| !t[i].Accepts(s) && (Singles(t[m..]) > 1 || !t[|t| - 1].Accepts(s));
    var base := ShortestMatch(t);
    PlainHead(t, base, m);
    var tail, rest := t[m..], base[m..];
    MatchNeeds(tail, rest);
    p, b := base[..m] + ([s] + rest), m;
    assert p[m..] == [s] + rest && ([s] + rest)[1..] == rest;
    PlainHead(t, p, m);
    d := base[..m] + [s];
    assert d == p[..m + 1];
    SinglesOne(tail);
    assert d[..|d|] == d;
    hide MatchParts, Singles, Satisfiable, AcceptsHead;
    forall k | 0 <= k <= |d| ensures !MatchParts(t, d[..k]) {
      if MatchParts(t, d[..k]) {
        MatchNeeds(t, d[..k]);
        assert false;
      }
    }
  }

  /** A glob that is not steady stalls above something it covers. */
  lemma UnsteadyStalls(g: Glob) returns (p: Path, d: Path)
    requires !Steady(g)
    ensures |d| > 0 && d < p
    ensures Covers(Trim(g), p) && !Covers(Trim(g), d) && Stalled(g, d)
  {
    var t, i := Trim(g), FirstDoubled(g);
    hide MatchParts, Covers, Singles, ComponentStalls, GlobstarStalls;
    assert i < FirstGlobstar(t) by {
      assert forall j :: 0 <= j < i ==> t[j] == g[j];
      assert FirstGlobstar(t) < |t| ==> t[FirstGlobstar(t)].Doubled();
    }
    var b;
    if ComponentStalls(t, i) {
      p, d, b := ComponentStallsOn(t, i);
    } else {
      p, d, b := GlobstarStallsOn(t, i);
    }
    assert t[i] == g[i];
    WholeCovered(t, p);
  }

  lemma WholeCovered(t: Glob, p: Path)
    requires MatchParts(t, p)
    ensures Covers(t, p)
  {
    assert p[..|p|] == p;
  }

  /** Steadiness is exactly what keeps a glob from stalling above what it matches. */
  lemma SteadyExactly(g: Glob)
    ensures Steady(g) <==>
            forall p, d :: |d| > 0 && d < p && IsPathMatched(p, g) && !IsPathMatched(d, g) ==> !Stalled(g, d)
  {
    hide Steady, Stalled, IsPathMatched, Covers;
    if Steady(g) {
      forall p, d | |d| > 0 && d < p && IsPathMatched(p, g) && !IsPathMatched(d, g) ensures !Stalled(g, d) {
        MatchedMeansCovered(p, g);
        MatchedMeansCovered(d, g);
        SteadyNeverStalls(g, p, d);
      }
    } else {
      var p, d := UnsteadyStalls(g);
      MatchedMeansCovered(p, g);
      MatchedMeansCovered(d, g);
    }
  }
}
