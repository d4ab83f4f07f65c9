/**
  The walk over a container file system that asks a matcher about directories and skips
  those that are not entered.
 */
module TreeWalk {
  import opened Common
  import opened Globs
  import opened Matchers

  /** A directory may be a submodule, the tree of another repository. The entries of a
      directory that cannot be read, or of a submodule that its repository does not register,
      are not seen by anyone. */
  datatype Kind = Plain | Submodule | Unreadable

  datatype Tree = File | Dir(entries: Entries, kind: Kind)

  datatype Entries = NoEntries | Entry(name: string, tree: Tree, rest: Entries)

  /** All files of a tree found at `p`, in the order of the walk. */
  function Files(t: Tree, p: Path): seq<Path>
    decreases t
  {
    if t.File? then [p] else EntryFiles(t.entries, p)
  }

  function EntryFiles(es: Entries, p: Path): seq<Path>
    decreases es
  {
    if es.NoEntries? then [] else Files(es.tree, p + [es.name]) + EntryFiles(es.rest, p)
  }

  lemma {:induction false} FilesBelow(t: Tree, p: Path)
    ensures forall q :: q in Files(t, p) ==> p <= q
    ensures t.Dir? ==> forall q :: q in Files(t, p) ==> p < q
    decreases t
  {
    if t.Dir? { EntryFilesBelow(t.entries, p); }
  }

  lemma {:induction false} EntryFilesBelow(es: Entries, p: Path)
    ensures forall q :: q in EntryFiles(es, p) ==> p < q
    decreases es
  {
    if es.Entry? {
      FilesBelow(es.tree, p + [es.name]);
      EntryFilesBelow(es.rest, p);
    }
  }

  // ----- Where things are in a tree

  /** The tree `u` is at the relative path `r` of the tree `t`. */
  ghost predicate Holds(t: Tree, r: Path, u: Tree)
    decreases t
  {
    if |r| == 0 then t == u else t.Dir? && HoldsIn(t.entries, r, u)
  }

  ghost predicate HoldsIn(es: Entries, r: Path, u: Tree)
    requires |r| > 0
    decreases es
  {
    es.Entry? && ((es.name == r[0] && Holds(es.tree, r[1..], u)) || HoldsIn(es.rest, r, u))
  }

  lemma {:induction false} EntryFilesAre(es: Entries, p: Path, q: Path)
    ensures q in EntryFiles(es, p) <==> p < q && HoldsIn(es, q[|p|..], File)
    decreases es
  {
    if es.Entry? {
      var p' := p + [es.name];
      FilesAre(es.tree, p', q);
      EntryFilesAre(es.rest, p, q);
      assert q in EntryFiles(es, p) <==> q in Files(es.tree, p') || q in EntryFiles(es.rest, p);
      if p < q {
        assert q[|p|..][0] == q[|p|] && q[|p|..][1..] == q[|p| + 1..];
        assert p' <= q <==> q[|p|] == es.name;
      }
    }
  }

  /** The files of a tree are exactly those found by following names from its root. */
  lemma {:induction false} FilesAre(t: Tree, p: Path, q: Path)
    ensures q in Files(t, p) <==> p <= q && Holds(t, q[|p|..], File)
    decreases t
  {
    if t.File? {
      assert p <= q && |q[|p|..]| == 0 ==> q == p;
    } else {
      EntryFilesAre(t.entries, p, q);
    }
  }

  // ----- Filters

  function Filter(keep: Path -> bool, ps: seq<Path>): seq<Path> {
    if |ps| == 0 then []
    else (if keep(ps[0]) then [ps[0]] else []) + Filter(keep, ps[1..])
  }

  lemma {:induction false} FilterAppend(keep: Path -> bool, ps: seq<Path>, qs: seq<Path>)
    ensures Filter(keep, ps + qs) == Filter(keep, ps) + Filter(keep, qs)
  {
    if |ps| == 0 {
      assert ps + qs == qs;
    } else {
      var first := if keep(ps[0]) then [ps[0]] else [];
      assert (ps + qs)[1..] == ps[1..] + qs;
      assert Filter(keep, ps + qs) == first + Filter(keep, ps[1..] + qs);
      FilterAppend(keep, ps[1..], qs);
      assert Filter(keep, ps) == first + Filter(keep, ps[1..]);
    }
  }

  /** A filter that keeps less keeps the same exactly when it agrees on every path. */
  lemma {:induction false} FilterLess(less: Path -> bool, more: Path -> bool, ps: seq<Path>)
    requires forall q :: q in ps && less(q) ==> more(q)
    ensures |Filter(less, ps)| <= |Filter(more, ps)|
    ensures Filter(less, ps) == Filter(more, ps) <==> forall q :: q in ps ==> less(q) == more(q)
  {
    if |ps| > 0 {
      FilterLess(less, more, ps[1..]);
      assert ps[0] in ps && forall q :: q in ps <==> q == ps[0] || q in ps[1..];
      if less(ps[0]) == more(ps[0]) && Filter(less, ps) == Filter(more, ps) {
        var n := if less(ps[0]) then 1 else 0;
        assert Filter(less, ps)[n..] == Filter(less, ps[1..]) && Filter(more, ps)[n..] == Filter(more, ps[1..]);
      }
    }
  }

  lemma {:induction false} FilterNone(keep: Path -> bool, ps: seq<Path>)
    ensures Filter(keep, ps) == [] <==> forall q :: q in ps ==> !keep(q)
  {
    if |ps| > 0 {
      FilterNone(keep, ps[1..]);
      assert ps[0] in ps && forall q :: q in ps <==> q == ps[0] || q in ps[1..];
    }
  }

  lemma {:induction false} FilterAll(keep: Path -> bool, ps: seq<Path>)
    requires forall q :: q in ps ==> keep(q)
    ensures Filter(keep, ps) == ps
  {
    if |ps| > 0 {
      assert ps[0] in ps;
      FilterAll(keep, ps[1..]);
    }
  }

  // ----- What a walk finds

  /** The full filter: no directory is ever skipped. */
  ghost function Matched(m: Matcher): Path -> bool {
    q => Matches(m, q)
  }

  /** The matched files such that every directory on the way from `p` is entered. */
  ghost function Visible(m: Matcher, p: Path): Path -> bool {
    q => Matches(m, q) && forall k :: |p| <= k < |q| ==> Enters(m, q[..k])
  }

  /** A walk that skips directories finds all matched files exactly when no matched file
      lies below a skipped directory. For steady include globs it always does. */
  lemma WalkIsComplete(m: Matcher, t: Tree, p: Path)
    ensures Filter(Visible(m, p), Files(t, p)) == Filter(Matched(m), Files(t, p)) <==>
            forall q, k :: q in Files(t, p) && Matches(m, q) && |p| <= k < |q| ==> Enters(m, q[..k])
    ensures SteadyIncludes(m) ==> Filter(Visible(m, p), Files(t, p)) == Filter(Matched(m), Files(t, p))
  {
    FilterLess(Visible(m, p), Matched(m), Files(t, p));
    if SteadyIncludes(m) {
      forall q, k | q in Files(t, p) && Matches(m, q) && |p| <= k < |q| ensures Enters(m, q[..k]) {
        EntersAncestors(m, q, q[..k]);
      }
    }
  }

  /** Below a directory that is not entered there is nothing to find. */
  lemma NothingBelow(m: Matcher, t: Tree, p: Path)
    requires SteadyIncludes(m)
    requires !Enters(m, p)
    ensures Filter(Matched(m), Files(t, p)) == []
  {
    FilesBelow(t, p);
    forall q | q in Files(t, p) ensures !Matches(m, q) {
      if Matches(m, q) && p != q { EntersAncestors(m, q, p); }
    }
    FilterNone(Matched(m), Files(t, p));
  }

  lemma NothingVisible(m: Matcher, t: Tree, p: Path)
    requires !Enters(m, p)
    ensures Filter(Visible(m, p), Files(t, p)) == []
  {
    FilesBelow(t, p);
    forall q | q in Files(t, p) ensures !Visible(m, p)(q) {
      assert p != q ==> q[..|p|] == p;
    }
    FilterNone(Visible(m, p), Files(t, p));
  }

  lemma VisibleFromEntry(m: Matcher, t: Tree, p: Path, name: string)
    requires Enters(m, p)
    ensures Filter(Visible(m, p), Files(t, p + [name])) == Filter(Visible(m, p + [name]), Files(t, p + [name]))
  {
    var p' := p + [name];
    FilesBelow(t, p');
    hide Matches, Enters;
    forall q | q in Files(t, p') ensures Visible(m, p)(q) == Visible(m, p')(q) {
      assert p' <= q && q[..|p|] == p;
    }
    hide Visible, Files;
    FilterLess(Visible(m, p), Visible(m, p'), Files(t, p'));
  }

  // ----- filepath.Walk with a callback that skips directories

  /** A directory that cannot be read is entered, and so is every directory on the way to it. */
  ghost predicate Fails(entered: Path -> bool, t: Tree, p: Path)
    decreases t
  {
    t.Dir? && entered(p) && (t.kind.Unreadable? || FailsIn(entered, t.entries, p))
  }

  ghost predicate FailsIn(entered: Path -> bool, es: Entries, p: Path)
    decreases es
  {
    es.Entry? && (Fails(entered, es.tree, p + [es.name]) || FailsIn(entered, es.rest, p))
  }

  ghost function Entered(m: Matcher): Path -> bool {
    p => Enters(m, p)
  }

  /** The files the walk collects, for every matcher: exactly the visible ones, in order,
      unless a directory that cannot be read is in the way. */
  method Walk(m: Matcher, t: Tree, p: Path) returns (files: Option<seq<Path>>)
    ensures files.None? <==> Fails(Entered(m), t, p)
    ensures files.Some? ==> files.value == Filter(Visible(m, p), Files(t, p))
    decreases t
  {
    var matched := IsPathMatchedBy(m, p);
    if !matched {
      var through := ShouldGoThrough(m, p);
      if !through {
        NothingVisible(m, t, p);
        return Some([]);
      }
    }
    if t.File? {
      return Some(if matched then [p] else []);
    }
    if t.kind.Unreadable? {
      return None;
    }
    files := WalkEntries(m, t.entries, p);
  }

  method WalkEntries(m: Matcher, es: Entries, p: Path) returns (files: Option<seq<Path>>)
    requires Enters(m, p)
    ensures files.None? <==> FailsIn(Entered(m), es, p)
    ensures files.Some? ==> files.value == Filter(Visible(m, p), EntryFiles(es, p))
    decreases es
  {
    if es.NoEntries? { return Some([]); }
    var first := Walk(m, es.tree, p + [es.name]);
    if first.None? { return None; }
    var others := WalkEntries(m, es.rest, p);
    if others.None? { return None; }
    VisibleFromEntry(m, es.tree, p, es.name);
    FilterAppend(Visible(m, p), Files(es.tree, p + [es.name]), EntryFiles(es.rest, p));
    return Some(first.value + others.value);
  }

  ghost predicate UnreadableAt(t: Tree, r: Path) {
    exists u :: Holds(t, r, u) && u.Dir? && u.kind.Unreadable?
  }

  ghost predicate UnreadableIn(es: Entries, r: Path)
    requires |r| > 0
  {
    exists u :: HoldsIn(es, r, u) && u.Dir? && u.kind.Unreadable?
  }

  lemma UnreadableBelow(t: Tree, r: Path)
    ensures |r| > 0 ==> (UnreadableAt(t, r) <==> t.Dir? && UnreadableIn(t.entries, r))
    ensures |r| == 0 ==> (UnreadableAt(t, r) <==> t.Dir? && t.kind.Unreadable?)
  {
    if |r| == 0 { assert Holds(t, r, t); }
  }

  lemma UnreadableStep(es: Entries, r: Path)
    requires es.Entry? && |r| > 0
    ensures UnreadableIn(es, r) <==> (r[0] == es.name && UnreadableAt(es.tree, r[1..])) || UnreadableIn(es.rest, r)
  {
    if u :| HoldsIn(es.rest, r, u) && u.Dir? && u.kind.Unreadable? { assert HoldsIn(es, r, u); }
    if r[0] == es.name && UnreadableAt(es.tree, r[1..]) {
      var u :| Holds(es.tree, r[1..], u) && u.Dir? && u.kind.Unreadable?;
      assert HoldsIn(es, r, u);
    }
  }

  /** A walk fails exactly when some directory that cannot be read is entered, together with
      all directories on the way to it. */
  lemma {:induction false} FailsMeans(entered: Path -> bool, t: Tree, p: Path)
    ensures Fails(entered, t, p) <==> exists r :: UnreadableAt(t, r) && EnteredAlong(entered, p, r)
    decreases t
  {
    hide UnreadableAt, UnreadableIn, EnteredAlong;
    forall r ensures EnteredAlong(entered, p, r) ==> entered(p) { AlongHere(entered, p, r); }
    if t.Dir? && entered(p) {
      FailsInMeans(entered, t.entries, p);
      UnreadableBelow(t, []);
      AlongHere(entered, p, []);
      if r :| |r| > 0 && UnreadableIn(t.entries, r) && EnteredAlong(entered, p, r) { UnreadableBelow(t, r); }
      if r :| UnreadableAt(t, r) && EnteredAlong(entered, p, r) { UnreadableBelow(t, r); }
    } else if t.File? {
      forall r ensures !UnreadableAt(t, r) { UnreadableBelow(t, r); }
    }
  }

  lemma {:induction false} FailsInMeans(entered: Path -> bool, es: Entries, p: Path)
    requires entered(p)
    ensures FailsIn(entered, es, p) <==> exists r :: |r| > 0 && UnreadableIn(es, r) && EnteredAlong(entered, p, r)
    decreases es
  {
    hide UnreadableAt, EnteredAlong;
    if es.Entry? {
      FailsMeans(entered, es.tree, p + [es.name]);
      FailsInMeans(entered, es.rest, p);
      hide UnreadableIn;
      if r :| UnreadableAt(es.tree, r) && EnteredAlong(entered, p + [es.name], r) {
        var w := [es.name] + r;
        assert w[1..] == r;
        UnreadableStep(es, w);
        AlongFrom(entered, p, es.name, r);
      }
      if r :| |r| > 0 && UnreadableIn(es.rest, r) && EnteredAlong(entered, p, r) { UnreadableStep(es, r); }
      if r :| |r| > 0 && UnreadableIn(es, r) && EnteredAlong(entered, p, r) {
        UnreadableStep(es, r);
        assert [r[0]] + r[1..] == r;
        AlongFrom(entered, p, r[0], r[1..]);
      }
    }
  }

  lemma AlongHere(entered: Path -> bool, p: Path, r: Path)
    ensures EnteredAlong(entered, p, r) ==> entered(p)
    ensures |r| == 0 && entered(p) ==> EnteredAlong(entered, p, r)
  {
    assert p + r[..0] == p;
  }

  ghost predicate EnteredAlong(entered: Path -> bool, p: Path, r: Path) {
    forall k :: 0 <= k <= |r| ==> entered(p + r[..k])
  }

  lemma AlongFrom(entered: Path -> bool, p: Path, name: string, r: Path)
    ensures EnteredAlong(entered, p, [name] + r) <==> entered(p) && EnteredAlong(entered, p + [name], r)
  {
    var w := [name] + r;
    assert p + w[..0] == p;
    forall k | 0 <= k <= |r| ensures p + w[..k + 1] == (p + [name]) + r[..k] {
    }
    if EnteredAlong(entered, p, w) {
      forall k | 0 <= k <= |r| ensures entered((p + [name]) + r[..k]) { assert entered(p + w[..k + 1]); }
    }
    if entered(p) && EnteredAlong(entered, p + [name], r) {
      forall k | 0 <= k <= |w| ensures entered(p + w[..k]) {
        if k > 0 { assert entered((p + [name]) + r[..k - 1]); }
      }
    }
  }

  // ----- The files of a dependency import

  /** The walk that collects the files of an import: with steady include globs, and unless it
      meets something it cannot read, the files at or below the path that are selected by the
      globs, all of them if there are no globs. */
  method ImportedFiles(fromPath: Path, includes: seq<Glob>, excludes: seq<Glob>, t: Tree, p: Path)
    returns (files: Option<seq<Path>>)
    ensures files.Some? && AllSteady(includes) ==>
              files.value == Filter(q => fromPath <= q && Selected(includes, excludes, q[|fromPath|..]), Files(t, p))
    ensures files.Some? && includes == [] && excludes == [] && fromPath <= p ==> files.value == Files(t, p)
  {
    hide *;
    var m := NewPathMatcher(fromPath, includes, excludes, []);
    files := Walk(m, t, p);
    if AllSteady(includes) {
      OptionsSteady(fromPath, includes, excludes);
      WalkIsComplete(m, t, p);
      ImportFilter(fromPath, includes, excludes, t, p);
    }
    if includes == [] && excludes == [] && fromPath <= p {
      NothingIsSteady();
      OptionsSteady(fromPath, [], []);
      WalkIsComplete(m, t, p);
      AllImported(fromPath, t, p);
    }
  }

  lemma NothingIsSteady()
    ensures AllSteady([])
  {
  }

  lemma ImportFilter(fromPath: Path, includes: seq<Glob>, excludes: seq<Glob>, t: Tree, p: Path)
    ensures Filter(Matched(NewPathMatcher(fromPath, includes, excludes, [])), Files(t, p)) ==
            Filter(q => fromPath <= q && Selected(includes, excludes, q[|fromPath|..]), Files(t, p))
  {
    var m := NewPathMatcher(fromPath, includes, excludes, []);
    hide Matches, Selected, NewPathMatcher, Files;
    var selected := q => fromPath <= q && Selected(includes, excludes, q[|fromPath|..]);
    forall q ensures Matched(m)(q) == selected(q) { OptionsMatch(fromPath, includes, excludes, [], q); }
    FilterLess(Matched(m), selected, Files(t, p));
  }

  lemma AllImported(fromPath: Path, t: Tree, p: Path)
    requires fromPath <= p
    ensures Filter(Matched(NewPathMatcher(fromPath, [], [], [])), Files(t, p)) == Files(t, p)
  {
    hide Matches, NewPathMatcher;
    FilesBelow(t, p);
    forall q | q in Files(t, p) ensures Matches(NewPathMatcher(fromPath, [], [], []), q) {
      OptionsMatch(fromPath, [], [], [], q);
    }
    FilterAll(Matched(NewPathMatcher(fromPath, [], [], [])), Files(t, p));
  }

  /** The false matcher finds nothing, and the true matcher finds everything. */
  lemma ConstantMatchersFind(t: Tree, p: Path)
    ensures Filter(Visible(AlwaysFalse, p), Files(t, p)) == []
    ensures Filter(Visible(AlwaysTrue, p), Files(t, p)) == Files(t, p)
    ensures !Fails(Entered(AlwaysFalse), t, p)
  {
    FilterNone(Visible(AlwaysFalse, p), Files(t, p));
    FilterAll(Visible(AlwaysTrue, p), Files(t, p));
  }
}
