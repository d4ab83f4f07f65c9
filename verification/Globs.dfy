/**
  Globs and paths of the path matchers, and what it means for a glob to match a path.

  A glob is the sequence of its components: either a run of asterisks, or any other
  one-segment pattern.
 */
module Globs {
  import opened Common

  /** One component of a glob.
      - Asterisks(more) is a run of `more + 1` asterisks and nothing else: Asterisks(0) is
        `*` and Asterisks(1) is `**`.
      - Pattern is any other component, known by the segments it accepts and by whether
        its text contains `**` (as `a**` does). */
  datatype Component = Asterisks(more: nat) | Pattern(accepts: string -> bool, doubled: bool)
  {
    /** The component is `**`, which may stand for any number of segments. */
    predicate Globstar() {
      Asterisks? && more == 1
    }

    /** The text of the component contains `**`. */
    predicate Doubled() {
      if Asterisks? then more >= 1 else doubled
    }

    /** doublestar.PathMatch of the component alone against one segment. */
    predicate Accepts(segment: string) {
      Asterisks? || accepts(segment)
    }
  }

  type Glob = seq<Component>

  /** doublestar.PathMatch on whole components. `**` stands for any number of segments, and
      a final `**` also matches the directory above it; every other component takes exactly
      one segment. */
  predicate MatchParts(g: Glob, p: Path)
    decreases |g| + |p|
  {
    if |p| == 0 then |g| == 0 || (|g| == 1 && g[0].Globstar())
    else if |g| == 0 then false
    else if g[0].Globstar() then |g| == 1 || MatchParts(g[1..], p) || MatchParts(g, p[1..])
    else g[0].Accepts(p[0]) && MatchParts(g[1..], p[1..])
  }

  /** Component by component: `**` takes any number of segments, none included, of which at
      least one is left if more components follow; every other component takes one. */
  lemma {:induction false} MatchMeans(c: Component, rest: Glob, p: Path)
    ensures MatchParts([], p) <==> p == []
    ensures !c.Globstar() ==> (MatchParts([c] + rest, p) <==> |p| > 0 && c.Accepts(p[0]) && MatchParts(rest, p[1..]))
    ensures c.Globstar() && rest == [] ==> MatchParts([c] + rest, p)
    ensures c.Globstar() && rest != [] ==> (MatchParts([c] + rest, p) <==> exists k :: 0 <= k < |p| && MatchParts(rest, p[k..]))
    decreases |p|
  {
    var g := [c] + rest;
    assert g[1..] == rest;
    if c.Globstar() && |p| > 0 {
      MatchMeans(c, rest, p[1..]);
      assert p[0..] == p;
      forall k | 0 <= k < |p| - 1 ensures p[1..][k..] == p[k + 1..] {
      }
      if k :| 0 <= k < |p| && MatchParts(rest, p[k..]) {
        if k > 0 { assert MatchParts(rest, p[1..][k - 1..]); }
      }
    }
  }

  /** doublestar.PathMatch. Against the root, a glob of one component is matched with the
      empty string, which `*` accepts. */
  predicate PathMatch(g: Glob, p: Path) {
    if |p| == 0 && |g| == 1 then
      (if g[0].Asterisks? then g[0].more <= 1 else g[0].accepts(""))
    else
      MatchParts(g, p)
  }

  /** The glob without its trailing components made only of asterisks. */
  function Trim(g: Glob): (t: Glob)
    ensures t <= g
    ensures Trimmed(t)
    ensures forall i :: |t| <= i < |g| ==> g[i].Asterisks?
  {
    if |g| > 0 && g[|g| - 1].Asterisks? then Trim(g[..|g| - 1]) else g
  }

  predicate Trimmed(t: Glob) {
    |t| > 0 ==> t[|t| - 1].Pattern?
  }

  /** hasUniversalGlob for one glob. */
  predicate Universal(g: Glob) {
    |Trim(g)| == 0
  }

  const ANY_DEPTH: Glob := [Asterisks(1), Asterisks(0)]

  /** isPathMatched: the glob as it is, the glob without asterisks on the right, and the
      latter with `**` and `*` appended. */
  predicate IsPathMatched(p: Path, g: Glob) {
    || PathMatch(g, p)
    || PathMatch(Trim(g), p)
    || PathMatch(Trim(g) + ANY_DEPTH, p)
  }

  /** Some prefix of the path is matched by the trimmed glob. */
  ghost predicate Covers(t: Glob, p: Path) {
    exists k :: 0 <= k <= |p| && MatchParts(t, p[..k])
  }

  /** A trimmed glob followed by anything matches only below what the trimmed glob matches. */
  lemma {:induction false} MatchSplits(t: Glob, rest: Glob, p: Path)
    requires Trimmed(t)
    requires MatchParts(t + rest, p)
    ensures Covers(t, p)
    decreases |t| + |p|
  {
    var g := t + rest;
    if |t| == 0 {
      assert MatchParts(t, p[..0]);
    } else if |p| == 0 {
      assert false;
    } else if g[0].Globstar() {
      assert g[1..] == t[1..] + rest;
      if MatchParts(t[1..] + rest, p) {
        MatchSplits(t[1..], rest, p);
        var k :| 0 <= k <= |p| && MatchParts(t[1..], p[..k]);
        assert |t| > 1;
        assert k > 0;
        assert MatchParts(t, p[..k]);
      } else {
        assert |g| == 1 || MatchParts(g, p[1..]);
        assert |t| > 1;
        MatchSplits(t, rest, p[1..]);
        var k :| 0 <= k <= |p[1..]| && MatchParts(t, p[1..][..k]);
        assert p[..k + 1][1..] == p[1..][..k];
        assert MatchParts(t, p[..k + 1]);
      }
    } else {
      assert g[1..] == t[1..] + rest;
      MatchSplits(t[1..], rest, p[1..]);
      var k :| 0 <= k <= |p[1..]| && MatchParts(t[1..], p[1..][..k]);
      assert p[..k + 1][1..] == p[1..][..k];
      assert MatchParts(t, p[..k + 1]);
    }
  }

  /** Conversely, `**` and `*` appended to a trimmed glob match everything strictly below. */
  lemma {:induction false} MatchExtends(t: Glob, p: Path, k: nat)
    requires k < |p|
    requires Trimmed(t)
    requires MatchParts(t, p[..k])
    ensures MatchParts(t + ANY_DEPTH, p)
    decreases |t| + k
  {
    var g := t + ANY_DEPTH;
    if |t| == 0 {
      AnyDepthMatches(p);
      assert g == ANY_DEPTH;
    } else {
      assert k > 0;
      assert g[1..] == t[1..] + ANY_DEPTH;
      assert p[..k][1..] == p[1..][..k - 1];
      if t[0].Globstar() {
        if MatchParts(t[1..], p[..k]) {
          MatchExtends(t[1..], p, k);
        } else {
          assert MatchParts(t, p[1..][..k - 1]);
          MatchExtends(t, p[1..], k - 1);
        }
      } else {
        MatchExtends(t[1..], p[1..], k - 1);
      }
    }
  }

  lemma {:induction false} AnyDepthMatches(p: Path)
    requires |p| > 0
    ensures MatchParts(ANY_DEPTH, p)
  {
    if |p| == 1 {
      assert ANY_DEPTH[1..] == [Asterisks(0)];
      assert MatchParts([Asterisks(0)], p);
    } else {
      AnyDepthMatches(p[1..]);
    }
  }

  /** Below the root, the three forms of a glob say exactly one thing: some ancestor of the
      path, or the path itself, is matched by the glob without its trailing asterisks. */
  lemma MatchedMeansCovered(p: Path, g: Glob)
    requires |p| > 0
    ensures IsPathMatched(p, g) <==> Covers(Trim(g), p)
  {
    var t := Trim(g);
    if IsPathMatched(p, g) {
      if PathMatch(g, p) {
        assert g == t + g[|t|..];
        MatchSplits(t, g[|t|..], p);
      } else if PathMatch(t, p) {
        assert p[..|p|] == p;
      } else {
        MatchSplits(t, ANY_DEPTH, p);
      }
    }
    if Covers(t, p) {
      var k :| 0 <= k <= |p| && MatchParts(t, p[..k]);
      if k == |p| {
        assert p[..k] == p;
      } else {
        MatchExtends(t, p, k);
      }
    }
  }

  /** The root is matched exactly by universal globs and by single patterns that accept
      the empty string. */
  lemma RootMatched(g: Glob)
    ensures IsPathMatched([], g) <==>
            Universal(g) || (|Trim(g)| == 1 && Trim(g)[0].accepts(""))
  {
  }

  /** What a glob matches is closed under going down the tree, except from the root. */
  lemma MatchedDownward(d: Path, p: Path, g: Glob)
    requires d <= p
    requires |d| > 0 || Universal(g)
    requires IsPathMatched(d, g)
    ensures IsPathMatched(p, g)
  {
    if |p| > 0 {
      MatchedMeansCovered(p, g);
      if |d| > 0 {
        MatchedMeansCovered(d, g);
        var k :| 0 <= k <= |d| && MatchParts(Trim(g), d[..k]);
        assert d[..k] == p[..k];
      } else {
        assert MatchParts(Trim(g), p[..0]);
      }
    }
  }
}
