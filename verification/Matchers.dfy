/**
  Path matchers, and the two promises a tree walk rests on: a directory that may hold
  matched files is never skipped, and a directory that is taken as a whole holds nothing
  but matched files.
 */
module Matchers {
  import opened Common
  import opened Globs
  import opened GlobProgress
  import opened SteadyGlobs

  // ----- The include matcher

  ghost predicate IncludeMatches(globs: seq<Glob>, p: Path) {
    |globs| > 0 ==> exists g :: g in globs && IsPathMatched(p, g)
  }

  /** A glob whose rest is universal has already matched the directory, so leaving early on
      a universal glob in progress skips nothing. */
  lemma UniversalRestMatched(g: Glob, d: Path)
    requires |d| > 0
    requires Alive(g, d)
    requires Universal(Rest(g, d))
    ensures IsPathMatched(d, g)
  {
    var t, c := Trim(g), Cursor(g, |d|);
    assert |t| <= c by {
      if |t| > c {
        RestTrim(g, c);
        assert false;
      }
    }
    assert c <= FirstDoubled(g);
    forall j | 0 <= j < |t| ensures !t[j].Doubled() && t[j].Accepts(d[j]) {
      assert t[j] == g[j];
      assert g[Cursor(g, j)].Accepts(d[j]);
    }
    PlainPrefixMatches(t, d[..|t|]);
    MatchedMeansCovered(d, g);
  }

  lemma {:induction false} RestTrim(g: Glob, c: nat)
    requires c < |Trim(g)|
    ensures Trim(g[c..]) == Trim(g)[c..]
    decreases |g|
  {
    if g[|g| - 1].Asterisks? {
      RestTrim(g[..|g| - 1], c);
      assert g[c..][..|g[c..]| - 1] == g[..|g| - 1][c..];
    }
  }

  lemma {:induction false} PlainPrefixMatches(t: Glob, q: Path)
    requires |q| == |t|
    requires forall j :: 0 <= j < |t| ==> !t[j].Doubled() && t[j].Accepts(q[j])
    ensures MatchParts(t, q)
  {
    if |t| > 0 {
      PlainPrefixMatches(t[1..], q[1..]);
    }
  }

  lemma UniversalGlobMatches(globs: seq<Glob>, d: Path)
    requires AnyUniversal(globs)
    ensures exists g :: g in globs && IsPathMatched(d, g)
  {
    var h :| h in globs && Universal(h);
    RootMatched(h);
    MatchedDownward([], d, h);
  }

  /** Which directories the include matcher enters, once the universal cases are out. */
  lemma IncludeEnters(globs: seq<Glob>, d: Path)
    requires |globs| > 0
    requires !AnyUniversal(globs)
    requires |d| > 0
    ensures IncludeMatches(globs, d) || IncludeGoesThrough(globs, d) <==>
            IncludeMatches(globs, d) || exists g :: g in globs && Alive(g, d)
  {
    if !IncludeMatches(globs, d) {
      forall g | g in globs && Alive(g, d) ensures !Universal(Rest(g, d)) {
        if Universal(Rest(g, d)) { UniversalRestMatched(g, d); }
      }
    }
  }

  /** The exact reach of pruning: above a file matched by glob `g`, a directory that no
      glob matches is skipped exactly when no glob of the list is alive there, and `g`
      itself is alive unless it has stalled. */
  lemma IncludePruning(globs: seq<Glob>, g: Glob, p: Path, d: Path)
    requires g in globs
    requires IsPathMatched(p, g)
    requires d < p && |d| > 0
    requires !IncludeMatches(globs, d)
    ensures Alive(g, d) <==> !Stalled(g, d)
    ensures !IncludeGoesThrough(globs, d) <==> forall h :: h in globs ==> !Alive(h, d)
  {
    MatchedMeansCovered(p, g);
    MatchedMeansCovered(d, g);
    AliveAboveMatch(g, p, d);
    if AnyUniversal(globs) {
      UniversalGlobMatches(globs, d);
    }
    IncludeEnters(globs, d);
  }

  /** With one glob the condition is about that glob alone. */
  lemma SingleGlobPruning(g: Glob, p: Path, d: Path)
    requires IsPathMatched(p, g)
    requires d < p && |d| > 0
    ensures !IncludeMatches([g], d) && !IncludeGoesThrough([g], d) <==>
            !IsPathMatched(d, g) && Stalled(g, d)
  {
    assert forall h :: h in [g] <==> h == g;
    assert IncludeMatches([g], d) <==> IsPathMatched(d, g) by { assert g in [g]; }
    if !IncludeMatches([g], d) {
      IncludePruning([g], g, p, d);
      assert (forall h :: h in [g] ==> !Alive(h, d)) <==> !Alive(g, d) by { assert g in [g]; }
    }
  }

  /** Such globs exist: for `a**` / `c` / `d` the file a1/c/d is matched and the directory
      a1/c is skipped. */
  const UNSTEADY_GLOB: Glob := [
    Pattern((s: string) => |s| > 0 && s[0] == 'a', true),
    Pattern((s: string) => s == "c", false),
    Pattern((s: string) => s == "d", false)
  ]

  lemma UnsteadyGlobLosesFile()
    ensures IncludeMatches([UNSTEADY_GLOB], ["a1", "c", "d"])
    ensures !IncludeMatches([UNSTEADY_GLOB], ["a1", "c"]) && !IncludeGoesThrough([UNSTEADY_GLOB], ["a1", "c"])
    ensures !Steady(UNSTEADY_GLOB)
  {
    var g, p, d := UNSTEADY_GLOB, ["a1", "c", "d"], ["a1", "c"];
    assert g[1..] == [g[1], g[2]] && g[1..][1..] == [g[2]];
    assert p[1..] == ["c", "d"] && p[1..][1..] == ["d"];
    assert MatchParts(g[1..][1..], p[1..][1..]);
    assert MatchParts(g, p) && IsPathMatched(p, g);
    assert g in [g];
    assert FirstDoubled(g) == 0;
    assert !Covers(g, d) by {
      if k :| 0 <= k <= |d| && MatchParts(g, d[..k]) {
        AcceptedOneByOne(g, d[..k]);
        assert false;
      }
    }
    MatchedMeansCovered(d, g);
    assert !g[0].Accepts(d[1]);
    SingleGlobPruning(g, p, d);
    SteadyExactly(g);
  }

  lemma {:induction false} AcceptedOneByOne(t: Glob, q: Path)
    requires forall j :: 0 <= j < |t| ==> t[j].Pattern?
    requires MatchParts(t, q)
    ensures |q| == |t|
  {
    if |t| > 0 {
      AcceptedOneByOne(t[1..], q[1..]);
    }
  }

  // ----- Matched and gone through

  /** The glob goes on below the directory: its first component whose text contains `**` is
      not one of the trailing asterisks, and accepts what it is compared with. */
  ghost predicate GoesOn(g: Glob, d: Path) {
    FirstDoubled(g) < |Trim(g)| && !Stalled(g, d)
  }

  /** No component whose text contains `**` comes before the trailing asterisks, and some of
      those are left. */
  ghost predicate EndsInAsterisks(g: Glob, d: Path) {
    |Trim(g)| <= FirstDoubled(g) && (FirstDoubled(g) < |g| || |d| < |g|)
  }

  /** What the loop knows of a glob that matches the directory. */
  lemma MatchedGlobInProgress(g: Glob, d: Path)
    requires |d| > 0
    requires IsPathMatched(d, g)
    ensures Alive(g, d) && !Universal(Rest(g, d)) <==> GoesOn(g, d)
    ensures Alive(g, d) && Universal(Rest(g, d)) <==> EndsInAsterisks(g, d)
  {
    var t, i := Trim(g), FirstDoubled(g);
    MatchedAccepts(g, d);
    hide MatchParts, Covers, IsPathMatched, Trim, Universal;
    assert t <= g;
    if i < |t| {
      if Alive(g, d) {
        forall j | i <= j < |d| ensures g[i].Accepts(d[j]) { assert g[Cursor(g, j)].Accepts(d[j]); }
      }
      assert !Universal(Rest(g, d)) by { RestOfTrim(g, Cursor(g, |d|)); }
    } else {
      assert forall j :: |t| <= j < |g| ==> g[j].Asterisks?;
      AsterisksAreUniversal(g, Cursor(g, |d|));
    }
  }

  /** A glob that matches a directory accepts its segments, up to the first component whose
      text contains `**` and as far as the trimmed glob goes. */
  lemma MatchedAccepts(g: Glob, d: Path)
    requires |d| > 0
    requires IsPathMatched(d, g)
    ensures forall j :: 0 <= j < FirstDoubled(g) && j < |Trim(g)| ==> j < |d| && g[j].Accepts(d[j])
    ensures FirstDoubled(g) >= |Trim(g)| ==> |d| >= |Trim(g)|
    ensures FirstDoubled(g) < |Trim(g)| ==> |d| >= FirstDoubled(g)
  {
    var t := Trim(g);
    MatchedMeansCovered(d, g);
    var k :| 0 <= k <= |d| && MatchParts(t, d[..k]);
    CutMatch(t, d[..k], d[..k]);
    hide MatchParts, Covers, IsPathMatched, Trim;
    TrimKeepsFirstDoubled(g);
    forall j | 0 <= j < FirstDoubled(g) && j < |t| ensures j < |d| && g[j].Accepts(d[j]) {
      assert t[j] == g[j] && d[..k][j] == d[j];
    }
  }

  lemma RestOfTrim(g: Glob, c: nat)
    requires c < |Trim(g)|
    ensures !Universal(g[c..])
  {
    RestTrim(g, c);
  }

  lemma AsterisksAreUniversal(g: Glob, c: nat)
    requires |Trim(g)| <= c <= |g|
    ensures Universal(g[c..])
  {
    assert forall j :: 0 <= j < |g[c..]| ==> g[c..][j] == g[c + j];
  }

  /** A matched directory is gone through when no glob is universal, no glob that matches
      it is down to its trailing asterisks, and some glob goes on below it. */
  ghost predicate IncludeGoesOn(globs: seq<Glob>, d: Path) {
    && |globs| > 0
    && !AnyUniversal(globs)
    && (|d| > 0 ==>
          && (forall g :: g in globs && IsPathMatched(d, g) ==> !EndsInAsterisks(g, d))
          && (exists g :: g in globs && if IsPathMatched(d, g) then GoesOn(g, d) else Alive(g, d)))
  }

  lemma IncludeMatchedThrough(globs: seq<Glob>, d: Path)
    ensures IncludeGoesThrough(globs, d) <==> IncludeGoesOn(globs, d)
  {
    hide Trim, FirstDoubled, IsPathMatched, GoesOn, EndsInAsterisks, Fits, Rest, Universal;
    if |d| > 0 {
      forall g | g in globs
        ensures IsPathMatched(d, g) ==>
                  && (Alive(g, d) && !Universal(Rest(g, d)) <==> GoesOn(g, d))
                  && (Alive(g, d) && Universal(Rest(g, d)) <==> EndsInAsterisks(g, d))
        ensures !IsPathMatched(d, g) ==> (Alive(g, d) ==> !Universal(Rest(g, d)))
      {
        if IsPathMatched(d, g) {
          MatchedGlobInProgress(g, d);
        } else if Alive(g, d) && Universal(Rest(g, d)) {
          UniversalRestMatched(g, d);
        }
      }
    }
  }

  /** With one glob: a matched directory is gone through exactly when the glob goes on. */
  lemma SingleMatchedThrough(g: Glob, d: Path)
    requires |d| > 0
    requires IsPathMatched(d, g)
    ensures IncludeGoesThrough([g], d) <==> GoesOn(g, d)
  {
    IncludeMatchedThrough([g], d);
    MatchedGlobInProgress(g, d);
    assert g in [g] && forall h :: h in [g] <==> h == g;
  }

  /** A directory that is matched may be gone through all the same, when another glob goes
      on below it: with the globs `a` and `a/b` that is the directory a. */
  lemma MatchedYetThrough(g: Glob, h: Glob, a: string)
    requires |g| == 1 && g[0].Pattern? && !g[0].doubled && g[0].accepts(a)
    requires |h| == 2 && h[0] == g[0] && h[1].Pattern?
    ensures IncludeMatches([g, h], [a]) && IncludeGoesThrough([g, h], [a])
  {
    var d := [a];
    assert d[1..] == [] && g[1..] == [];
    assert MatchParts(g[1..], d[1..]);
    assert IsPathMatched(d, g) && g in [g, h];
    assert FirstDoubled(h) >= 1;
    assert Alive(h, d) && h in [g, h];
    assert Rest(h, d) == [h[1]];
    assert !Alive(g, d);
  }

  ghost predicate AllSteady(globs: seq<Glob>) {
    forall g :: g in globs ==> Steady(g)
  }

  /** No false pruning for steady include globs. */
  lemma IncludeKeepsAncestors(globs: seq<Glob>, p: Path, d: Path)
    requires AllSteady(globs)
    requires IncludeMatches(globs, p)
    requires d < p
    ensures IncludeMatches(globs, d) || IncludeGoesThrough(globs, d)
  {
    if |globs| > 0 && !IncludeMatches(globs, d) {
      if |d| == 0 {
        if AnyUniversal(globs) {
          UniversalGlobMatches(globs, d);
        }
      } else {
        var g :| g in globs && IsPathMatched(p, g);
        MatchedMeansCovered(p, g);
        MatchedMeansCovered(d, g);
        SteadyNeverStalls(g, p, d);
        IncludePruning(globs, g, p, d);
      }
    }
  }

  /** A directory that the include matcher takes as a whole is matched through and through. */
  lemma IncludeTakesWhole(globs: seq<Glob>, d: Path, p: Path)
    requires IncludeMatches(globs, d) && !IncludeGoesThrough(globs, d)
    requires d <= p
    ensures IncludeMatches(globs, p)
  {
    if |globs| > 0 {
      if |d| == 0 {
        UniversalGlobMatches(globs, p);
      } else {
        var g :| g in globs && IsPathMatched(d, g);
        MatchedDownward(d, p, g);
      }
    }
  }

  // ----- The exclude matcher

  ghost predicate ExcludeMatches(globs: seq<Glob>, p: Path) {
    forall g :: g in globs ==> !IsPathMatched(p, g)
  }

  /** An excluded directory has no file that is not excluded: leaving it out loses nothing. */
  lemma ExcludeKeepsAncestors(globs: seq<Glob>, p: Path, d: Path)
    requires ExcludeMatches(globs, p)
    requires d <= p
    ensures ExcludeMatches(globs, d) || ExcludeGoesThrough(globs, d)
  {
    if g :| g in globs && IsPathMatched(d, g) {
      if |d| == 0 {
        if AnyUniversal(globs) {
          UniversalGlobMatches(globs, p);
        }
      } else {
        MatchedDownward(d, p, g);
        assert false;
      }
    }
  }

  lemma FinishedMatches(g: Glob, d: Path)
    requires Finished(g, d)
    ensures IsPathMatched(d, g)
  {
    forall j | 0 <= j < |g| ensures !g[j].Doubled() && g[j].Accepts(d[j]) {
      assert g[Cursor(g, j)].Accepts(d[j]);
    }
    PlainPrefixMatches(g, d);
    if |d| == 1 && |g| == 1 { assert g[0].Accepts(d[0]); }
  }

  /** A directory that the exclude matcher takes as a whole holds nothing excluded. */
  lemma ExcludeTakesWhole(globs: seq<Glob>, d: Path, p: Path)
    requires AllSteady(globs)
    requires ExcludeMatches(globs, d) && !ExcludeGoesThrough(globs, d)
    requires d <= p
    ensures ExcludeMatches(globs, p)
  {
    if g :| g in globs && IsPathMatched(p, g) {
      if AnyUniversal(globs) {
        UniversalGlobMatches(globs, d);
      }
      assert |d| > 0;
      MatchedMeansCovered(p, g);
      MatchedMeansCovered(d, g);
      SteadyNeverStalls(g, p, d);
      AliveAboveMatch(g, p, d);
      ExcludeMatchedThrough(globs, d);
      assert false;
    }
  }

  /** A directory that is not excluded is gone through exactly when some glob is alive. */
  lemma ExcludeMatchedThrough(globs: seq<Glob>, d: Path)
    requires ExcludeMatches(globs, d)
    ensures ExcludeGoesThrough(globs, d) <==> exists h :: h in globs && Alive(h, d)
  {
    if AnyUniversal(globs) { UniversalGlobMatches(globs, d); }
    if |d| == 0 {
      if |globs| > 0 {
        EmptyGlobIsUniversal(globs);
        assert Alive(globs[0], d);
      }
    } else {
      forall h | h in globs ensures !Finished(h, d) && (Alive(h, d) ==> !Universal(Rest(h, d))) {
        if Finished(h, d) { FinishedMatches(h, d); }
        if Alive(h, d) && Universal(Rest(h, d)) { UniversalRestMatched(h, d); }
      }
    }
  }

  /** A directory, excluded or not, is gone through when no glob is universal, no glob that
      matches it is used up by it or down to its trailing asterisks, and some glob goes on. */
  ghost predicate ExcludeGoesOn(globs: seq<Glob>, d: Path) {
    && IncludeGoesOn(globs, d)
    && (|d| > 0 ==> forall g :: g in globs && IsPathMatched(d, g) ==> !(FirstDoubled(g) == |g| == |d|))
  }

  lemma FinishedMeans(g: Glob, d: Path)
    requires |d| > 0
    ensures Finished(g, d) <==> IsPathMatched(d, g) && FirstDoubled(g) == |g| == |d|
  {
    if Finished(g, d) { FinishedMatches(g, d); }
    if IsPathMatched(d, g) && FirstDoubled(g) == |g| == |d| {
      MatchedAccepts(g, d);
      forall j | |Trim(g)| <= j < |g| ensures g[j].Accepts(d[j]) { assert g[j].Asterisks?; }
      forall j | 0 <= j < |d| ensures g[Cursor(g, j)].Accepts(d[j]) { assert Cursor(g, j) == j; }
    }
  }

  lemma ExcludeThrough(globs: seq<Glob>, d: Path)
    ensures ExcludeGoesThrough(globs, d) <==> ExcludeGoesOn(globs, d)
  {
    hide IsPathMatched, Finished, IncludeGoesOn, FirstDoubled, PartiallyMatched;
    IncludeMatchedThrough(globs, d);
    if |d| > 0 {
      forall g | g in globs ensures Finished(g, d) <==> IsPathMatched(d, g) && FirstDoubled(g) == |g| == |d| {
        FinishedMeans(g, d);
      }
    }
  }

  /** The exact reach of taking directories as a whole: above a path excluded by glob `g`, a
      directory that is not excluded is taken as a whole exactly when no glob of the list is
      alive there, and `g` itself is alive unless it has stalled. */
  lemma ExcludePruning(globs: seq<Glob>, g: Glob, p: Path, d: Path)
    requires g in globs
    requires IsPathMatched(p, g)
    requires d < p && |d| > 0
    requires ExcludeMatches(globs, d)
    ensures Alive(g, d) <==> !Stalled(g, d)
    ensures !ExcludeGoesThrough(globs, d) <==> forall h :: h in globs ==> !Alive(h, d)
  {
    MatchedMeansCovered(p, g);
    MatchedMeansCovered(d, g);
    AliveAboveMatch(g, p, d);
    ExcludeMatchedThrough(globs, d);
  }

  /** With one glob the condition is about that glob alone. */
  lemma SingleExcludePruning(g: Glob, p: Path, d: Path)
    requires IsPathMatched(p, g)
    requires d < p && |d| > 0
    ensures ExcludeMatches([g], d) && !ExcludeGoesThrough([g], d) <==>
            !IsPathMatched(d, g) && Stalled(g, d)
  {
    assert forall h :: h in [g] <==> h == g;
    assert g in [g];
    if !IsPathMatched(d, g) {
      ExcludePruning([g], g, p, d);
    }
  }

  /** The glob `a**` / `c` / `d` excludes the file a1/c/d, and the directory a1/c is taken as
      a whole. */
  lemma UnsteadyGlobTakesTooMuch()
    ensures !ExcludeMatches([UNSTEADY_GLOB], ["a1", "c", "d"])
    ensures ExcludeMatches([UNSTEADY_GLOB], ["a1", "c"]) && !ExcludeGoesThrough([UNSTEADY_GLOB], ["a1", "c"])
  {
    var g, p, d := UNSTEADY_GLOB, ["a1", "c", "d"], ["a1", "c"];
    UnsteadyGlobLosesFile();
    assert forall h :: h in [g] <==> h == g;
    assert g in [g];
    SingleGlobPruning(g, p, d);
    SingleExcludePruning(g, p, d);
  }

  /** For which globs no file is ever lost: with one include glob every directory above a
      matched file is entered, and with one exclude glob a directory taken as a whole holds
      nothing excluded, if and only if the glob is steady. */
  lemma SteadyLosesNothing(g: Glob)
    ensures Steady(g) <==>
            forall p, d :: IncludeMatches([g], p) && d < p ==> IncludeMatches([g], d) || IncludeGoesThrough([g], d)
    ensures Steady(g) <==>
            forall p, d :: ExcludeMatches([g], d) && !ExcludeGoesThrough([g], d) && d <= p ==> ExcludeMatches([g], p)
  {
    hide Steady, Stalled, IsPathMatched, IncludeGoesThrough, ExcludeGoesThrough;
    assert g in [g] && forall h :: h in [g] <==> h == g;
    SteadyExactly(g);
    if Steady(g) {
      forall p, d | IncludeMatches([g], p) && d < p ensures IncludeMatches([g], d) || IncludeGoesThrough([g], d) {
        IncludeKeepsAncestors([g], p, d);
      }
      forall p, d | ExcludeMatches([g], d) && !ExcludeGoesThrough([g], d) && d <= p ensures ExcludeMatches([g], p) {
        ExcludeTakesWhole([g], d, p);
      }
    } else {
      var p, d :| |d| > 0 && d < p && IsPathMatched(p, g) && !IsPathMatched(d, g) && Stalled(g, d);
      SingleGlobPruning(g, p, d);
      SingleExcludePruning(g, p, d);
      assert IncludeMatches([g], p) && !IncludeMatches([g], d) && !IncludeGoesThrough([g], d);
      assert ExcludeMatches([g], d) && !ExcludeGoesThrough([g], d) && !ExcludeMatches([g], p);
    }
  }

  // ----- All matchers

  /** The matchers of the package, except the one for .dockerignore files. */
  datatype Matcher =
    | AlwaysTrue
    | AlwaysFalse
    | Include(globs: seq<Glob>)
    | Exclude(globs: seq<Glob>)
    | Base(base: Path, inner: Inner)
    | Multi(matchers: seq<Matcher>)

  datatype Inner = NoMatcher | Given(matcher: Matcher)

  /** GetRelativeToBaseFilepath: up to the common ancestor and down again. */
  function RelativeTo(base: Path, p: Path): Path {
    if |base| > 0 && |p| > 0 && base[0] == p[0] then RelativeTo(base[1..], p[1..])
    else seq(|base|, _ => "..") + p
  }

  lemma {:induction false} RelativeBelow(base: Path, p: Path)
    requires base <= p
    ensures RelativeTo(base, p) == p[|base|..]
  {
    if |base| > 0 {
      RelativeBelow(base[1..], p[1..]);
    }
  }

  /** Past the common part of both paths, up from the base and down to the path. */
  lemma {:induction false} RelativeElsewhere(common: Path, b: Path, p: Path)
    requires |b| > 0 && |p| > 0 ==> b[0] != p[0]
    ensures RelativeTo(common + b, common + p) == seq(|b|, _ => "..") + p
  {
    if |common| == 0 {
      assert common + b == b && common + p == p;
    } else {
      RelativeElsewhere(common[1..], b, p);
      assert (common + b)[1..] == common[1..] + b && (common + p)[1..] == common[1..] + p;
    }
  }

  ghost predicate Matches(m: Matcher, p: Path) {
    match m
    case AlwaysTrue => true
    case AlwaysFalse => false
    case Include(globs) => IncludeMatches(globs, p)
    case Exclude(globs) => ExcludeMatches(globs, p)
    case Base(base, inner) =>
      base <= p && (inner.NoMatcher? || Matches(inner.matcher, RelativeTo(base, p)))
    case Multi(ms) => forall i :: 0 <= i < |ms| ==> Matches(ms[i], p)
  }

  ghost predicate GoesThrough(m: Matcher, p: Path) {
    match m
    case AlwaysTrue => false
    case AlwaysFalse => false
    case Include(globs) => IncludeGoesThrough(globs, p)
    case Exclude(globs) => ExcludeGoesThrough(globs, p)
    case Base(base, inner) =>
      p < base || (inner.Given? && GoesThrough(inner.matcher, RelativeTo(base, p)))
    case Multi(ms) =>
      && (exists i :: 0 <= i < |ms| && GoesThrough(ms[i], p))
      && (forall i :: 0 <= i < |ms| ==> GoesThrough(ms[i], p) || Matches(ms[i], p))
  }

  /** IsDirOrSubmodulePathMatched; the constant matcher answers true by itself. */
  ghost predicate Enters(m: Matcher, p: Path) {
    Matches(m, p) || GoesThrough(m, p)
  }

  /** The include globs of a matcher are steady. */
  ghost predicate SteadyIncludes(m: Matcher) {
    match m
    case Include(globs) => AllSteady(globs)
    case Base(_, inner) => inner.NoMatcher? || SteadyIncludes(inner.matcher)
    case Multi(ms) => forall i :: 0 <= i < |ms| ==> SteadyIncludes(ms[i])
    case _ => true
  }

  /** The exclude globs of a matcher are steady. */
  ghost predicate SteadyExcludes(m: Matcher) {
    match m
    case Exclude(globs) => AllSteady(globs)
    case Base(_, inner) => inner.NoMatcher? || SteadyExcludes(inner.matcher)
    case Multi(ms) => forall i :: 0 <= i < |ms| ==> SteadyExcludes(ms[i])
    case _ => true
  }

  /** No false pruning: every directory above a matched path is entered. */
  lemma {:induction false} EntersAncestors(m: Matcher, p: Path, d: Path)
    requires SteadyIncludes(m)
    requires Matches(m, p)
    requires d < p
    ensures Enters(m, d)
  {
    match m
    case AlwaysTrue =>
    case AlwaysFalse =>
    case Include(globs) => IncludeKeepsAncestors(globs, p, d);
    case Exclude(globs) => ExcludeKeepsAncestors(globs, p, d);
    case Base(base, inner) =>
      if base <= d && inner.Given? {
        RelativeBelow(base, d);
        RelativeBelow(base, p);
        EntersAncestors(inner.matcher, RelativeTo(base, p), RelativeTo(base, d));
      }
    case Multi(ms) =>
      forall i | 0 <= i < |ms| ensures Enters(ms[i], d) {
        EntersAncestors(ms[i], p, d);
      }
  }

  /** A directory taken as a whole is matched through and through. */
  lemma {:induction false} TakesWhole(m: Matcher, d: Path, p: Path)
    requires SteadyExcludes(m)
    requires Matches(m, d) && !GoesThrough(m, d)
    requires d <= p
    ensures Matches(m, p)
  {
    match m
    case AlwaysTrue =>
    case AlwaysFalse =>
    case Include(globs) => IncludeTakesWhole(globs, d, p);
    case Exclude(globs) => ExcludeTakesWhole(globs, d, p);
    case Base(base, inner) =>
      if inner.Given? {
        RelativeBelow(base, d);
        RelativeBelow(base, p);
        TakesWhole(inner.matcher, RelativeTo(base, d), RelativeTo(base, p));
      }
    case Multi(ms) =>
      forall i | 0 <= i < |ms| ensures Matches(ms[i], p) {
        TakesWhole(ms[i], d, p);
      }
  }

  /** Something may be left to look for below a matched directory: the guards of all
      matchers, down to the globs. */
  ghost predicate GoesOnBelow(m: Matcher, d: Path) {
    match m
    case AlwaysTrue => false
    case AlwaysFalse => false
    case Include(globs) => IncludeGoesOn(globs, d)
    case Exclude(globs) => exists g :: g in globs && Alive(g, d)
    case Base(base, inner) => inner.Given? && |base| <= |d| && GoesOnBelow(inner.matcher, d[|base|..])
    case Multi(ms) => exists i :: 0 <= i < |ms| && GoesOnBelow(ms[i], d)
  }

  /** Exactly when a matched directory is gone through all the same. */
  lemma {:induction false} MatchedThrough(m: Matcher, d: Path)
    requires Matches(m, d)
    ensures GoesThrough(m, d) <==> GoesOnBelow(m, d)
  {
    match m
    case AlwaysTrue =>
    case AlwaysFalse =>
    case Include(globs) => IncludeMatchedThrough(globs, d);
    case Exclude(globs) => ExcludeMatchedThrough(globs, d);
    case Base(base, inner) =>
      if inner.Given? {
        RelativeBelow(base, d);
        MatchedThrough(inner.matcher, RelativeTo(base, d));
      }
    case Multi(ms) =>
      forall i | 0 <= i < |ms| ensures GoesThrough(ms[i], d) <==> GoesOnBelow(ms[i], d) {
        MatchedThrough(ms[i], d);
      }
  }

  // ----- The matcher of a set of options

  /** NewPathMatcher, without patterns of a .dockerignore file. */
  function NewPathMatcher(base: Path, includes: seq<Glob>, excludes: seq<Glob>, others: seq<Matcher>): Matcher {
    var matchers :=
      (if |includes| != 0 then [Include(includes)] else []) +
      (if |excludes| != 0 then [Exclude(excludes)] else []) +
      others;
    var multi := Multi(if |matchers| == 0 then [AlwaysTrue] else matchers);
    if |base| != 0 then Base(base, Given(multi)) else multi
  }

  /** What include and exclude globs select: everything if there are none, and otherwise what
      some include glob matches and no exclude glob does. */
  ghost predicate Selected(includes: seq<Glob>, excludes: seq<Glob>, p: Path) {
    && (includes == [] || exists g :: g in includes && IsPathMatched(p, g))
    && (forall g :: g in excludes ==> !IsPathMatched(p, g))
  }

  /** The matcher of a set of options matches exactly what lies at or below the base, what is
      selected relative to the base, and what the other matchers match relative to it. */
  lemma OptionsMatch(base: Path, includes: seq<Glob>, excludes: seq<Glob>, others: seq<Matcher>, p: Path)
    ensures Matches(NewPathMatcher(base, includes, excludes, others), p) <==>
            && base <= p
            && Selected(includes, excludes, p[|base|..])
            && forall m :: m in others ==> Matches(m, p[|base|..])
  {
    if base <= p {
      RelativeBelow(base, p);
      assert |base| == 0 ==> p[|base|..] == p;
      PartsMatch(includes, excludes, others, p[|base|..]);
    }
  }

  lemma PartsMatch(includes: seq<Glob>, excludes: seq<Glob>, others: seq<Matcher>, p: Path)
    ensures Matches(NewPathMatcher([], includes, excludes, others), p) <==>
            Selected(includes, excludes, p) && forall m :: m in others ==> Matches(m, p)
  {
    hide IsPathMatched;
    var matchers := NewPathMatcher([], includes, excludes, others).matchers;
    assert (forall i :: 0 <= i < |matchers| ==> Matches(matchers[i], p)) <==> forall m :: m in matchers ==> Matches(m, p);
    assert |includes| != 0 ==> Include(includes) in matchers;
    assert |excludes| != 0 ==> Exclude(excludes) in matchers;
    assert forall m :: m in others ==> m in matchers;
    assert forall m :: m in matchers ==>
      m == AlwaysTrue || (|includes| != 0 && m == Include(includes)) || (|excludes| != 0 && m == Exclude(excludes)) || m in others;
    assert Matches(AlwaysTrue, p);
  }

  lemma OptionsSteady(base: Path, includes: seq<Glob>, excludes: seq<Glob>)
    requires AllSteady(includes)
    ensures SteadyIncludes(NewPathMatcher(base, includes, excludes, []))
  {
  }

  /** Whether a directory that is not at or below the base is gone through: it is above the
      base, or the inner matcher goes through the way up from the base to it. */
  lemma OutsideBase(common: Path, b: Path, p: Path, inner: Inner)
    requires |b| > 0
    requires |p| > 0 ==> b[0] != p[0]
    ensures !Matches(Base(common + b, inner), common + p)
    ensures GoesThrough(Base(common + b, inner), common + p) <==>
            || p == []
            || (inner.Given? && GoesThrough(inner.matcher, seq(|b|, _ => "..") + p))
  {
    RelativeElsewhere(common, b, p);
    assert (common + b)[|common|] == b[0];
    assert |p| > 0 ==> (common + p)[|common|] == p[0];
    if p == [] { assert common + p == common && common < common + b; }
  }

  /** At or below the base, the inner matcher decides by the path relative to it. */
  lemma InsideBase(base: Path, p: Path, inner: Inner)
    requires base <= p
    ensures Matches(Base(base, inner), p) <==> inner.NoMatcher? || Matches(inner.matcher, p[|base|..])
    ensures GoesThrough(Base(base, inner), p) <==> inner.Given? && GoesThrough(inner.matcher, p[|base|..])
  {
    RelativeBelow(base, p);
  }

  /** A multi matcher enters what all of its parts enter, and matches what all of them match. */
  lemma MultiEnters(ms: seq<Matcher>, p: Path)
    ensures Enters(Multi(ms), p) <==> forall m :: m in ms ==> Enters(m, p)
    ensures Matches(Multi(ms), p) <==> forall m :: m in ms ==> Matches(m, p)
  {
    if Enters(Multi(ms), p) {
      forall m | m in ms ensures Enters(m, p) {
        var i :| 0 <= i < |ms| && ms[i] == m;
      }
    }
    if forall m :: m in ms ==> Enters(m, p) {
      assert forall i :: 0 <= i < |ms| ==> ms[i] in ms;
    }
  }

  // ----- The methods of the matchers

  method IsPathMatchedBy(m: Matcher, p: Path) returns (r: bool)
    ensures r <==> Matches(m, p)
    decreases m
  {
    match m
    case AlwaysTrue => return true;
    case AlwaysFalse => return false;
    case Include(globs) =>
      if |globs| > 0 {
        var any := IsAnyPatternMatched(p, globs);
        return any;
      }
      return true;
    case Exclude(globs) =>
      if |globs| > 0 {
        var any := IsAnyPatternMatched(p, globs);
        return !any;
      }
      return true;
    case Base(base, inner) =>
      if !(base <= p) { return false; }
      if inner.NoMatcher? { return true; }
      r := IsPathMatchedBy(inner.matcher, RelativeTo(base, p));
    case Multi(ms) =>
      for i := 0 to |ms|
        invariant forall j :: 0 <= j < i ==> Matches(ms[j], p)
      {
        var matched := IsPathMatchedBy(ms[i], p);
        if !matched { return false; }
      }
      return true;
  }

  method ShouldGoThrough(m: Matcher, p: Path) returns (r: bool)
    ensures r <==> GoesThrough(m, p)
    decreases m, 1
  {
    match m
    case AlwaysTrue => return false;
    case AlwaysFalse => return false;
    case Include(globs) => r := IncludeShouldGoThrough(globs, p);
    case Exclude(globs) => r := ExcludeShouldGoThrough(globs, p);
    case Base(base, inner) =>
      if p < base { return true; }
      if inner.NoMatcher? { return false; }
      r := ShouldGoThrough(inner.matcher, RelativeTo(base, p));
    case Multi(ms) =>
      r := MultiShouldGoThrough(m, p);
  }

  method MultiShouldGoThrough(m: Matcher, p: Path) returns (r: bool)
    requires m.Multi?
    ensures r <==> GoesThrough(m, p)
    decreases m, 0
  {
    var ms := m.matchers;
    var shouldGoThrough := false;
    for i := 0 to |ms|
      invariant shouldGoThrough <==> exists j :: 0 <= j < i && GoesThrough(ms[j], p)
      invariant forall j :: 0 <= j < i ==> GoesThrough(ms[j], p) || Matches(ms[j], p)
    {
      var through := ShouldGoThrough(ms[i], p);
      if through {
        shouldGoThrough := true;
      } else {
        var matched := IsPathMatchedBy(ms[i], p);
        if !matched { return false; }
      }
    }
    return shouldGoThrough;
  }
}
