/**
  Listing a git tree: directories and submodules are gone through, taken as a whole or
  skipped, and the files found in submodules are reported in results of their own.
 */
module LsTree {
  import opened Common
  import opened Globs
  import opened Matchers
  import opened TreeWalk

  /** An entry of a listing, with the tree it stands for. */
  datatype Listed = Listed(path: Path, tree: Tree)

  /** What is listed in one repository, and the results of its submodules. */
  datatype Result = Result(path: Path, entries: seq<Listed>, submodules: seq<Result>)
  {
    predicate IsEmpty() {
      |entries| == 0 && |submodules| == 0
    }
  }

  /** The files that entries stand for: a tree among them stands for all its files. */
  function Expand(entries: seq<Listed>): seq<Path> {
    if |entries| == 0 then []
    else Files(entries[0].tree, entries[0].path) + Expand(entries[1..])
  }

  /** The same for results and the results below them. */
  function ExpandResults(results: seq<Result>): seq<Path> {
    if |results| == 0 then []
    else Expand(results[0].entries) + ExpandResults(results[0].submodules) + ExpandResults(results[1..])
  }

  predicate OnlyFiles(entries: seq<Listed>) {
    forall x :: x in entries ==> x.tree.File?
  }

  predicate OnlyFilesInResults(results: seq<Result>) {
    forall i :: 0 <= i < |results| ==>
      OnlyFiles(results[i].entries) && OnlyFilesInResults(results[i].submodules)
  }

  lemma {:induction false} ExpandAppend(xs: seq<Listed>, ys: seq<Listed>)
    ensures Expand(xs + ys) == Expand(xs) + Expand(ys)
  {
    if |xs| == 0 {
      assert xs + ys == ys;
    } else {
      var first := Files(xs[0].tree, xs[0].path);
      assert (xs + ys)[1..] == xs[1..] + ys;
      assert Expand(xs + ys) == first + Expand(xs[1..] + ys);
      ExpandAppend(xs[1..], ys);
      assert Expand(xs) == first + Expand(xs[1..]);
    }
  }

  lemma {:induction false} ExpandResultsAppend(xs: seq<Result>, ys: seq<Result>)
    ensures ExpandResults(xs + ys) == ExpandResults(xs) + ExpandResults(ys)
  {
    if |xs| == 0 {
      assert xs + ys == ys;
    } else {
      var first := Expand(xs[0].entries) + ExpandResults(xs[0].submodules);
      assert (xs + ys)[1..] == xs[1..] + ys;
      assert ExpandResults(xs + ys) == first + ExpandResults(xs[1..] + ys);
      ExpandResultsAppend(xs[1..], ys);
      assert ExpandResults(xs) == first + ExpandResults(xs[1..]);
    }
  }

  // ----- What becomes of a tree

  /** The entries of the tree at `p` are looked at one by one. */
  ghost predicate Walked(m: Matcher, p: Path, allFiles: bool) {
    GoesThrough(m, p) || (Matches(m, p) && allFiles)
  }

  /** Whether file `q` is in the listing, when the listing comes to the first `k` segments of
      it: the first directory on the way that is not walked decides for all below it. */
  ghost predicate Reports(m: Matcher, q: Path, k: nat, allFiles: bool)
    requires k <= |q|
    decreases |q| - k
  {
    if k == |q| || !Walked(m, q[..k], allFiles) then Matches(m, q[..k]) else Reports(m, q, k + 1, allFiles)
  }

  ghost function Reported(m: Matcher, k: nat, allFiles: bool): Path -> bool {
    q => k <= |q| && Reports(m, q, k, allFiles)
  }

  /** The listing is that of the matched files when the include globs are steady and, if
      directories may be taken as a whole, the exclude globs too. */
  lemma {:induction false} ReportsMatched(m: Matcher, q: Path, k: nat, allFiles: bool)
    requires SteadyIncludes(m) && (allFiles || SteadyExcludes(m))
    requires k <= |q|
    ensures Reports(m, q, k, allFiles) <==> Matches(m, q)
    decreases |q| - k
  {
    hide Matches, GoesThrough, SteadyIncludes, SteadyExcludes;
    var d := q[..k];
    if k == |q| {
      assert d == q;
    } else if Walked(m, d, allFiles) {
      ReportsMatched(m, q, k + 1, allFiles);
    } else if Matches(m, d) {
      TakesWhole(m, d, q);
    } else if Matches(m, q) {
      EntersAncestors(m, q, d);
    }
  }

  lemma ListingIsComplete(m: Matcher, t: Tree, p: Path, allFiles: bool)
    requires SteadyIncludes(m) && (allFiles || SteadyExcludes(m))
    ensures Filter(Reported(m, |p|, allFiles), Files(t, p)) == Filter(Matched(m), Files(t, p))
  {
    FilesBelow(t, p);
    forall q | q in Files(t, p) ensures Reported(m, |p|, allFiles)(q) == Matched(m)(q) {
      ReportsMatched(m, q, |p|, allFiles);
    }
    FilterLess(Reported(m, |p|, allFiles), Matched(m), Files(t, p));
  }

  /** The files that are not left to results of submodules. */
  ghost function OwnFiles(m: Matcher, t: Tree, p: Path, allFiles: bool): seq<Path>
    decreases t
  {
    if t.File? || !Walked(m, p, allFiles) then Files(t, p)
    else if t.kind.Submodule? then []
    else OwnEntryFiles(m, t.entries, p, allFiles)
  }

  ghost function OwnEntryFiles(m: Matcher, es: Entries, p: Path, allFiles: bool): seq<Path>
    decreases es
  {
    if es.NoEntries? then []
    else OwnFiles(m, es.tree, p + [es.name], allFiles) + OwnEntryFiles(m, es.rest, p, allFiles)
  }

  /** Something is listed outside the results of submodules. */
  ghost predicate Direct(m: Matcher, t: Tree, p: Path, allFiles: bool)
    decreases t
  {
    if t.File? || !Walked(m, p, allFiles) then Matches(m, p)
    else !t.kind.Submodule? && DirectEntries(m, t.entries, p, allFiles)
  }

  ghost predicate DirectEntries(m: Matcher, es: Entries, p: Path, allFiles: bool)
    decreases es
  {
    es.Entry? && (Direct(m, es.tree, p + [es.name], allFiles) || DirectEntries(m, es.rest, p, allFiles))
  }

  /** Some submodule that is walked holds files to report, but lists nothing outside the
      results of its own submodules. */
  ghost predicate Loses(m: Matcher, t: Tree, p: Path, allFiles: bool)
    decreases t
  {
    && t.Dir? && Walked(m, p, allFiles)
    && (|| LosesEntries(m, t.entries, p, allFiles)
        || (t.kind.Submodule? && Filter(Reported(m, |p|, allFiles), Files(t, p)) != [] && !DirectEntries(m, t.entries, p, allFiles)))
  }

  ghost predicate LosesEntries(m: Matcher, es: Entries, p: Path, allFiles: bool)
    decreases es
  {
    es.Entry? && (Loses(m, es.tree, p + [es.name], allFiles) || LosesEntries(m, es.rest, p, allFiles))
  }

  /** A listing stands for `own` in its entries, and in all for no file outside `files`,
      for none twice, and for each of them unless something is lost. */
  ghost predicate Lists(own: seq<Path>, files: seq<Path>, direct: bool, loses: bool, allFiles: bool,
                        entries: seq<Listed>, submodules: seq<Result>)
  {
    var found := multiset(Expand(entries)) + multiset(ExpandResults(submodules));
    && Expand(entries) == own
    && found <= multiset(files)
    && (found == multiset(files) <==> !loses)
    && (direct <==> |entries| > 0)
    && (allFiles ==> OnlyFiles(entries) && OnlyFilesInResults(submodules))
  }

  ghost predicate ListsTree(m: Matcher, t: Tree, p: Path, allFiles: bool, entries: seq<Listed>, submodules: seq<Result>) {
    Lists(Filter(Reported(m, |p|, allFiles), OwnFiles(m, t, p, allFiles)), Filter(Reported(m, |p|, allFiles), Files(t, p)),
          Direct(m, t, p, allFiles), Loses(m, t, p, allFiles), allFiles, entries, submodules)
  }

  ghost predicate ListsEntries(m: Matcher, es: Entries, p: Path, allFiles: bool, entries: seq<Listed>, submodules: seq<Result>) {
    Lists(Filter(Reported(m, |p| + 1, allFiles), OwnEntryFiles(m, es, p, allFiles)),
          Filter(Reported(m, |p| + 1, allFiles), EntryFiles(es, p)),
          DirectEntries(m, es, p, allFiles), LosesEntries(m, es, p, allFiles), allFiles, entries, submodules)
  }

  lemma NothingListed()
    ensures Lists([], [], false, false, false, [], []) && Lists([], [], false, false, true, [], [])
  {
  }

  /** Two listings one after the other. */
  lemma ListsBoth(own: seq<Path>, files: seq<Path>, direct: bool, loses: bool, entries: seq<Listed>, submodules: seq<Result>,
                  own': seq<Path>, files': seq<Path>, direct': bool, loses': bool, entries': seq<Listed>, submodules': seq<Result>,
                  allFiles: bool)
    requires Lists(own, files, direct, loses, allFiles, entries, submodules)
    requires Lists(own', files', direct', loses', allFiles, entries', submodules')
    ensures Lists(own + own', files + files', direct || direct', loses || loses', allFiles,
                  entries + entries', submodules + submodules')
  {
    hide Expand, ExpandResults, OnlyFilesInResults, OnlyFiles;
    ExpandAppend(entries, entries');
    ExpandResultsAppend(submodules, submodules');
    if allFiles { OnlyFilesAppend(entries, entries', submodules, submodules'); }
    var found := multiset(Expand(entries)) + multiset(ExpandResults(submodules));
    var found' := multiset(Expand(entries')) + multiset(ExpandResults(submodules'));
    assert multiset(Expand(entries + entries')) + multiset(ExpandResults(submodules + submodules')) == found + found';
    SumsEqual(found, found', multiset(files), multiset(files'));
  }

  lemma OnlyFilesAppend(entries: seq<Listed>, entries': seq<Listed>, submodules: seq<Result>, submodules': seq<Result>)
    requires OnlyFiles(entries) && OnlyFiles(entries')
    requires OnlyFilesInResults(submodules) && OnlyFilesInResults(submodules')
    ensures OnlyFiles(entries + entries') && OnlyFilesInResults(submodules + submodules')
  {
  }

  lemma SumsEqual(a: multiset<Path>, b: multiset<Path>, c: multiset<Path>, d: multiset<Path>)
    requires a <= c && b <= d
    ensures a + b <= c + d
    ensures a + b == c + d <==> a == c && b == d
  {
    if a + b == c + d {
      forall x ensures a[x] == c[x] && b[x] == d[x] {
        assert (a + b)[x] == (c + d)[x];
      }
    }
  }

  // ----- The listing

  /** A listing, or an error: a directory that cannot be read, or a submodule that is not
      registered, was to be walked. */
  datatype Outcome = Listing(entries: seq<Listed>, submodules: seq<Result>) | ReadFailed

  ghost function Walking(m: Matcher, allFiles: bool): Path -> bool {
    p => Walked(m, p, allFiles)
  }

  /** lsTreeEntryMatch, for every matcher. The listing loses a file exactly when some submodule lists nothing
      but results of its own submodules: such a submodule is not reported. */
  method LsTreeEntry(m: Matcher, t: Tree, p: Path, allFiles: bool) returns (r: Outcome)
    ensures r.ReadFailed? <==> Fails(Walking(m, allFiles), t, p)
    ensures r.Listing? ==> ListsTree(m, t, p, allFiles, r.entries, r.submodules)
    ensures t.Dir? && Matches(m, p) && !GoesThrough(m, p) && !allFiles ==> r == Listing([Listed(p, t)], [])
    ensures !Matches(m, p) && !GoesThrough(m, p) ==> r == Listing([], [])
    ensures r.Listing? && t.Dir? && t.kind.Submodule? ==> forall s :: s in r.submodules ==> s.path == p
    decreases t
  {
    hide ListsEntries, ListsTree, Matches, GoesThrough;
    var matched := IsPathMatchedBy(m, p);
    if t.File? {
      var entries := if matched then [Listed(p, t)] else [];
      NotWalkedListed(m, t, p, allFiles, entries);
      return Listing(entries, []);
    }
    var through := ShouldGoThrough(m, p);
    if through || (matched && allFiles) {
      if t.kind.Unreadable? { return ReadFailed; }
      r := LsTreeWalk(m, t.entries, p, allFiles);
      if r.ReadFailed? { return; }
      var es, subs := r.entries, r.submodules;
      if t.kind.Submodule? {
        r := Listing([], []);
        if |es| != 0 {
          var result := Result(p, es, subs);
          if !result.IsEmpty() { r := Listing([], [result]); }
        }
      }
      WalkedListed(m, t, p, allFiles, es, subs, r.entries, r.submodules);
    } else {
      var entries := if matched then [Listed(p, t)] else [];
      NotWalkedListed(m, t, p, allFiles, entries);
      return Listing(entries, []);
    }
  }

  /** lsTreeWalk: the entries of one tree, in their order. */
  method LsTreeWalk(m: Matcher, es: Entries, p: Path, allFiles: bool) returns (r: Outcome)
    ensures r.ReadFailed? <==> FailsIn(Walking(m, allFiles), es, p)
    ensures r.Listing? ==> ListsEntries(m, es, p, allFiles, r.entries, r.submodules)
    decreases es
  {
    hide ListsEntries, ListsTree, Fails;
    if es.NoEntries? {
      EmptyListed(m, es, p, allFiles);
      return Listing([], []);
    }
    var first := LsTreeEntry(m, es.tree, p + [es.name], allFiles);
    if first.ReadFailed? { return ReadFailed; }
    var others := LsTreeWalk(m, es.rest, p, allFiles);
    if others.ReadFailed? { return ReadFailed; }
    EntryListed(m, es, p, allFiles, first.entries, first.submodules, others.entries, others.submodules);
    return Listing(first.entries + others.entries, first.submodules + others.submodules);
  }

  lemma EmptyListed(m: Matcher, es: Entries, p: Path, allFiles: bool)
    requires es.NoEntries?
    ensures ListsEntries(m, es, p, allFiles, [], [])
  {
    NothingListed();
  }

  lemma EntryListed(m: Matcher, es: Entries, p: Path, allFiles: bool, first: seq<Listed>, subs: seq<Result>,
                    others: seq<Listed>, otherSubs: seq<Result>)
    requires es.Entry?
    requires ListsTree(m, es.tree, p + [es.name], allFiles, first, subs)
    requires ListsEntries(m, es.rest, p, allFiles, others, otherSubs)
    ensures ListsEntries(m, es, p, allFiles, first + others, subs + otherSubs)
  {
    hide Lists, Direct, Loses, OwnFiles, Files, Filter;
    var p', f := p + [es.name], Reported(m, |p| + 1, allFiles);
    FilterAppend(f, Files(es.tree, p'), EntryFiles(es.rest, p));
    FilterAppend(f, OwnFiles(m, es.tree, p', allFiles), OwnEntryFiles(m, es.rest, p, allFiles));
    ListsBoth(Filter(f, OwnFiles(m, es.tree, p', allFiles)), Filter(f, Files(es.tree, p')),
              Direct(m, es.tree, p', allFiles), Loses(m, es.tree, p', allFiles), first, subs,
              Filter(f, OwnEntryFiles(m, es.rest, p, allFiles)), Filter(f, EntryFiles(es.rest, p)),
              DirectEntries(m, es.rest, p, allFiles), LosesEntries(m, es.rest, p, allFiles), others, otherSubs, allFiles);
  }

  /** What is not walked is listed as its own path decides. */
  lemma NotWalked(m: Matcher, t: Tree, p: Path, allFiles: bool)
    requires t.File? || !Walked(m, p, allFiles)
    ensures OwnFiles(m, t, p, allFiles) == Files(t, p)
    ensures Filter(Reported(m, |p|, allFiles), Files(t, p)) == if Matches(m, p) then Files(t, p) else []
  {
    hide Walked, Matches;
    FilesBelow(t, p);
    var f := Reported(m, |p|, allFiles);
    forall q | q in Files(t, p) ensures f(q) == Matches(m, p) {
      assert q[..|p|] == p;
      assert t.File? ==> q == p;
    }
    if Matches(m, p) { FilterAll(f, Files(t, p)); } else { FilterNone(f, Files(t, p)); }
  }

  lemma NotWalkedListed(m: Matcher, t: Tree, p: Path, allFiles: bool, entries: seq<Listed>)
    requires t.File? || !Walked(m, p, allFiles)
    requires allFiles ==> t.File? || !Matches(m, p)
    requires entries == if Matches(m, p) then [Listed(p, t)] else []
    ensures ListsTree(m, t, p, allFiles, entries, [])
  {
    hide Walked, Matches, OwnFiles, Files, Filter;
    NotWalked(m, t, p, allFiles);
    assert Expand(entries) == if Matches(m, p) then Files(t, p) else [];
    assert ExpandResults([]) == [];
    assert Direct(m, t, p, allFiles) == Matches(m, p) && !Loses(m, t, p, allFiles);
    hide Direct, Loses, Expand, ExpandResults;
  }

  lemma WalkedListed(m: Matcher, t: Tree, p: Path, allFiles: bool, es: seq<Listed>, subs: seq<Result>,
                     entries: seq<Listed>, submodules: seq<Result>)
    requires t.Dir? && Walked(m, p, allFiles)
    requires ListsEntries(m, t.entries, p, allFiles, es, subs)
    requires entries == if t.kind.Submodule? then [] else es
    requires submodules == if !t.kind.Submodule? then subs else if |es| == 0 then [] else [Result(p, es, subs)]
    ensures ListsTree(m, t, p, allFiles, entries, submodules)
  {
    hide Lists, DirectEntries, LosesEntries, OwnEntryFiles, Filter, Expand, ExpandResults;
    WalkedOn(m, t, p, allFiles);
    if t.kind.Submodule? {
      var f := Reported(m, |p| + 1, allFiles);
      SubmoduleListed(Filter(f, OwnEntryFiles(m, t.entries, p, allFiles)), Filter(f, Files(t, p)),
                      DirectEntries(m, t.entries, p, allFiles), LosesEntries(m, t.entries, p, allFiles), allFiles, p, es, subs);
    }
  }

  /** Past a tree that is walked, what is reported is decided further down. */
  lemma WalkedOn(m: Matcher, t: Tree, p: Path, allFiles: bool)
    requires t.Dir? && Walked(m, p, allFiles)
    ensures Filter(Reported(m, |p|, allFiles), Files(t, p)) == Filter(Reported(m, |p| + 1, allFiles), EntryFiles(t.entries, p))
    ensures Filter(Reported(m, |p|, allFiles), OwnEntryFiles(m, t.entries, p, allFiles)) ==
            Filter(Reported(m, |p| + 1, allFiles), OwnEntryFiles(m, t.entries, p, allFiles))
    ensures Filter(Reported(m, |p|, allFiles), []) == []
  {
    hide Walked, Matches;
    var f, g := Reported(m, |p|, allFiles), Reported(m, |p| + 1, allFiles);
    EntryFilesBelow(t.entries, p);
    OwnAreFiles(m, t.entries, p, allFiles);
    forall q | q in EntryFiles(t.entries, p) ensures f(q) == g(q) {
      assert q[..|p|] == p;
    }
    FilterLess(f, g, EntryFiles(t.entries, p));
    FilterLess(f, g, OwnEntryFiles(m, t.entries, p, allFiles));
  }

  lemma {:induction false} OwnAreFiles(m: Matcher, es: Entries, p: Path, allFiles: bool)
    ensures forall q :: q in OwnEntryFiles(m, es, p, allFiles) ==> q in EntryFiles(es, p)
    decreases es
  {
    hide Walked;
    if es.Entry? {
      var p' := p + [es.name];
      if es.tree.Dir? {
        OwnAreFiles(m, es.tree.entries, p', allFiles);
        assert Files(es.tree, p') == EntryFiles(es.tree.entries, p');
      }
      assert forall q :: q in OwnFiles(m, es.tree, p', allFiles) ==> q in Files(es.tree, p');
      OwnAreFiles(m, es.rest, p, allFiles);
    }
  }

  /** The result of a submodule, which is dropped if it has no entries of its own. */
  lemma SubmoduleListed(own: seq<Path>, files: seq<Path>, direct: bool, loses: bool, allFiles: bool, p: Path,
                        es: seq<Listed>, subs: seq<Result>)
    requires Lists(own, files, direct, loses, allFiles, es, subs)
    ensures Lists([], files, false, loses || (files != [] && !direct), allFiles,
                  [], if |es| == 0 then [] else [Result(p, es, subs)])
  {
    if |es| == 0 {
      NothingReported(own, files, direct, loses, allFiles, subs);
    } else {
      hide Expand, ExpandResults, OnlyFilesInResults;
      OneResult(Result(p, es, subs));
    }
  }

  lemma NothingReported(own: seq<Path>, files: seq<Path>, direct: bool, loses: bool, allFiles: bool, subs: seq<Result>)
    requires Lists(own, files, direct, loses, allFiles, [], subs)
    ensures Lists([], files, false, loses || (files != [] && !direct), allFiles, [], [])
  {
    hide OnlyFilesInResults;
    assert |multiset(files)| == |files|;
    NothingListed();
  }

  lemma OneResult(r: Result)
    ensures ExpandResults([r]) == Expand(r.entries) + ExpandResults(r.submodules)
    ensures OnlyFiles(r.entries) && OnlyFilesInResults(r.submodules) ==> OnlyFilesInResults([r])
  {
    assert [r][1..] == [];
  }
}
