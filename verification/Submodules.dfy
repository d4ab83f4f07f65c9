/**
  Where the listing of a git tree loses nothing in its submodules, and where it does.
 */
module Submodules {
  import opened Common
  import opened Globs
  import opened GlobProgress
  import opened SteadyGlobs
  import opened Matchers
  import opened TreeWalk
  import opened LsTree

  predicate NoSubmodules(t: Tree)
    decreases t
  {
    t.File? || (!t.kind.Submodule? && NoSubmoduleEntries(t.entries))
  }

  predicate NoSubmoduleEntries(es: Entries)
    decreases es
  {
    es.NoEntries? || (NoSubmodules(es.tree) && NoSubmoduleEntries(es.rest))
  }

  /** Without submodules the entries of the listing stand for all matched files, in order. */
  lemma {:induction false} NothingLost(m: Matcher, t: Tree, p: Path, allFiles: bool)
    requires NoSubmodules(t)
    ensures OwnFiles(m, t, p, allFiles) == Files(t, p)
    ensures !Loses(m, t, p, allFiles)
    decreases t
  {
    if t.Dir? { NothingLostInEntries(m, t.entries, p, allFiles); }
  }

  lemma {:induction false} NothingLostInEntries(m: Matcher, es: Entries, p: Path, allFiles: bool)
    requires NoSubmoduleEntries(es)
    ensures OwnEntryFiles(m, es, p, allFiles) == EntryFiles(es, p)
    ensures !LosesEntries(m, es, p, allFiles)
    decreases es
  {
    if es.Entry? {
      NothingLost(m, es.tree, p + [es.name], allFiles);
      NothingLostInEntries(m, es.rest, p, allFiles);
    }
  }

  // ----- What keeps submodules from being lost

  predicate HasFile(es: Entries, name: string)
    decreases es
  {
    es.Entry? && ((es.name == name && es.tree.File?) || HasFile(es.rest, name))
  }

  /** The file that registers the submodules of a repository. */
  const GITMODULES := ".gitmodules"

  /** Every submodule that has submodules has a file that registers them, and that file is
      matched. */
  ghost predicate GitmodulesMatched(m: Matcher, t: Tree, p: Path)
    decreases t
  {
    t.Dir? ==>
      && (t.kind.Submodule? && !NoSubmoduleEntries(t.entries) ==> HasFile(t.entries, GITMODULES) && Matches(m, p + [GITMODULES]))
      && GitmodulesMatchedIn(m, t.entries, p)
  }

  ghost predicate GitmodulesMatchedIn(m: Matcher, es: Entries, p: Path)
    decreases es
  {
    es.Entry? ==> GitmodulesMatched(m, es.tree, p + [es.name]) && GitmodulesMatchedIn(m, es.rest, p)
  }

  lemma {:induction false} MatchedFileIsDirect(m: Matcher, es: Entries, p: Path, name: string, allFiles: bool)
    requires HasFile(es, name) && Matches(m, p + [name])
    ensures DirectEntries(m, es, p, allFiles)
    decreases es
  {
    hide Matches;
    if !(es.name == name && es.tree.File?) { MatchedFileIsDirect(m, es.rest, p, name, allFiles); }
  }

  lemma {:induction false} PlainIsDirect(m: Matcher, es: Entries, p: Path, allFiles: bool)
    requires NoSubmoduleEntries(es)
    requires Filter(Reported(m, |p| + 1, allFiles), EntryFiles(es, p)) != []
    ensures DirectEntries(m, es, p, allFiles)
    decreases es
  {
    hide Walked, Matches, Reported;
    var p', f := p + [es.name], Reported(m, |p| + 1, allFiles);
    FilterAppend(f, Files(es.tree, p'), EntryFiles(es.rest, p));
    if Filter(f, Files(es.tree, p')) != [] {
      if es.tree.File? || !Walked(m, p', allFiles) {
        NotWalked(m, es.tree, p', allFiles);
      } else {
        WalkedOn(m, es.tree, p', allFiles);
        PlainIsDirect(m, es.tree.entries, p', allFiles);
      }
    } else {
      PlainIsDirect(m, es.rest, p, allFiles);
    }
  }

  /** Nothing is lost when the files that register submodules are matched themselves. */
  lemma {:induction false} GitmodulesKeepAll(m: Matcher, t: Tree, p: Path, allFiles: bool)
    requires GitmodulesMatched(m, t, p)
    ensures !Loses(m, t, p, allFiles)
    decreases t
  {
    hide Walked, Matches, Reported, Filter;
    if t.Dir? && Walked(m, p, allFiles) {
      GitmodulesKeepAllIn(m, t.entries, p, allFiles);
      if t.kind.Submodule? {
        if NoSubmoduleEntries(t.entries) {
          WalkedOn(m, t, p, allFiles);
          if Filter(Reported(m, |p| + 1, allFiles), EntryFiles(t.entries, p)) != [] {
            PlainIsDirect(m, t.entries, p, allFiles);
          }
        } else {
          MatchedFileIsDirect(m, t.entries, p, GITMODULES, allFiles);
        }
      }
    }
  }

  lemma {:induction false} GitmodulesKeepAllIn(m: Matcher, es: Entries, p: Path, allFiles: bool)
    requires GitmodulesMatchedIn(m, es, p)
    ensures !LosesEntries(m, es, p, allFiles)
    decreases es
  {
    if es.Entry? {
      GitmodulesKeepAll(m, es.tree, p + [es.name], allFiles);
      GitmodulesKeepAllIn(m, es.rest, p, allFiles);
    }
  }

  function Named(name: string): Component {
    Pattern((s: string) => s == name, false)
  }

  /** The glob for one file of a nested submodule. */
  const NESTED_FILE_GLOB: Glob := [Named("outer"), Named("inner"), Named("file")]

  const NESTED_FILE: Path := ["outer", "inner", "file"]

  const INNER: Entries := Entry("file", File, NoEntries)

  const OUTER: Entries := Entry(GITMODULES, File, Entry("inner", Dir(INNER, Submodule), NoEntries))

  /** A repository with a submodule that has a submodule with one file, both of them
      registered. */
  const NESTED: Tree := Dir(Entry(GITMODULES, File, Entry("outer", Dir(OUTER, Submodule), NoEntries)), Plain)

  lemma NestedGlobMatches(p: Path)
    requires |p| > 0
    ensures IsPathMatched(p, NESTED_FILE_GLOB) <==> NESTED_FILE <= p
    ensures p <= NESTED_FILE && p != NESTED_FILE ==> IncludeGoesThrough([NESTED_FILE_GLOB], p)
    ensures IncludeGoesThrough([NESTED_FILE_GLOB], [])
  {
    var g := NESTED_FILE_GLOB;
    assert Trim(g) == g && FirstDoubled(g) == 3 && !Universal(g);
    MatchedMeansCovered(p, g);
    forall k | 0 <= k <= |p| ensures MatchParts(g, p[..k]) <==> p[..k] == NESTED_FILE {
      PlainHead(g, p[..k], 3);
    }
    if NESTED_FILE <= p { assert p[..3] == NESTED_FILE; }
    assert g in [g] && forall h :: h in [g] ==> h == g;
    if p <= NESTED_FILE && p != NESTED_FILE {
      assert Alive(g, p);
      RestTrim(g, |p|);
    }
  }

  lemma NestedGlobSteady()
    ensures Steady(NESTED_FILE_GLOB)
  {
    assert FirstDoubled(NESTED_FILE_GLOB) == 3;
    SimplySteady(NESTED_FILE_GLOB);
  }

  ghost function NestedFileMatcher(): Matcher {
    Include([NESTED_FILE_GLOB])
  }

  lemma NestedOnTheWay(allFiles: bool)
    ensures var m := NestedFileMatcher();
            && SteadyIncludes(m) && SteadyExcludes(m)
            && Walked(m, [], allFiles) && Walked(m, ["outer"], allFiles) && Walked(m, ["outer", "inner"], allFiles)
            && Matches(m, NESTED_FILE) && !Matches(m, ["outer", GITMODULES])
  {
    var g := NESTED_FILE_GLOB;
    hide IsPathMatched, IncludeGoesThrough, Steady, NESTED_FILE_GLOB, MatchParts;
    assert g in [g] && forall h :: h in [g] <==> h == g;
    NestedGlobMatches(["outer"]);
    NestedGlobMatches(["outer", "inner"]);
    NestedGlobMatches(NESTED_FILE);
    NestedGlobMatches(["outer", GITMODULES]);
    NestedGlobSteady();
    assert IncludeMatches([g], NESTED_FILE) && !IncludeMatches([g], ["outer", GITMODULES]);
  }

  lemma OuterLoses(m: Matcher, allFiles: bool)
    requires SteadyIncludes(m) && SteadyExcludes(m)
    requires Walked(m, ["outer"], allFiles) && Walked(m, ["outer", "inner"], allFiles)
    requires Matches(m, NESTED_FILE) && !Matches(m, ["outer", GITMODULES])
    ensures Loses(m, Dir(OUTER, Submodule), ["outer"], allFiles)
  {
    hide Walked, Matches, SteadyIncludes, SteadyExcludes, Reported;
    var p, q := ["outer"], ["outer", "inner"];
    assert p + ["inner"] == q && q + ["file"] == NESTED_FILE && p + [GITMODULES] == ["outer", GITMODULES];
    assert EntryFiles(INNER, q) == [NESTED_FILE];
    assert EntryFiles(OUTER, p) == [p + [GITMODULES]] + [NESTED_FILE];
    ListingIsComplete(m, Dir(OUTER, Submodule), p, allFiles);
    FilterNone(Matched(m), EntryFiles(OUTER, p));
    assert !DirectEntries(m, OUTER, p, allFiles);
  }

  lemma RootLoses(m: Matcher, allFiles: bool)
    requires Walked(m, [], allFiles)
    requires Loses(m, Dir(OUTER, Submodule), ["outer"], allFiles)
    ensures Loses(m, NESTED, [], allFiles)
  {
    hide Walked, Matches, OUTER;
    var outer := Entry("outer", Dir(OUTER, Submodule), NoEntries);
    assert [] + ["outer"] == ["outer"];
    assert LosesEntries(m, outer, [], allFiles);
    assert LosesEntries(m, NESTED.entries, [], allFiles) == LosesEntries(m, Entry(GITMODULES, File, outer), [], allFiles);
  }

  lemma NothingUnreadable(m: Matcher, allFiles: bool)
    ensures !Fails(Walking(m, allFiles), NESTED, [])
    ensures NESTED_FILE in Files(NESTED, [])
  {
    hide Walked, Matches;
    assert [] + ["outer"] + ["inner"] + ["file"] == NESTED_FILE;
  }

  /** With the glob for that file, the directories on the way are gone through, the file is
      matched, and it is not listed, whether all files are wanted or not. */
  lemma NestedSubmoduleLost(allFiles: bool)
    ensures var m := NestedFileMatcher();
            && NESTED_FILE in Files(NESTED, []) && Matches(m, NESTED_FILE)
            && !Fails(Walking(m, allFiles), NESTED, [])
            && Loses(m, NESTED, [], allFiles)
  {
    hide Walked, Matches, SteadyIncludes, SteadyExcludes, NestedFileMatcher, Loses, Fails, Files;
    NestedOnTheWay(allFiles);
    OuterLoses(NestedFileMatcher(), allFiles);
    RootLoses(NestedFileMatcher(), allFiles);
    NothingUnreadable(NestedFileMatcher(), allFiles);
  }
}
