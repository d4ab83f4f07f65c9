/**
  Resolving a path in the tree of a git commit: symbolic links on the way are followed, to a
  bounded depth.
 */
module Symlinks {
  import opened Common

  datatype Part = Name(name: string) | Here | Up

  /** The text of a symbolic link. */
  datatype Link = Link(absolute: bool, parts: seq<Part>)

  /** What a path of the commit is: also a link whose text, or an entry that itself, cannot
      be read. */
  datatype Entry = Directory | Submodule | File | Symlink(text: Option<Link>) | Unreadable
  {
    predicate Real() {
      Directory? || Submodule? || File?
    }
  }

  type Tree = map<Path, Entry>

  datatype Error = TooManyLevels | NotFound | Refused | ReadFailed

  datatype Outcome = Resolved(path: Path) | Failed(error: Error)

  /** The root is a directory, and every entry lies in a directory or a submodule. */
  ghost predicate WellFormed(t: Tree) {
    && [] in t && t[[]].Directory?
    && forall p :: p in t && |p| > 0 && !t[p].Unreadable? ==>
         p[..|p| - 1] in t && (t[p[..|p| - 1]].Directory? || t[p[..|p| - 1]].Submodule?)
  }

  /** path.Join of a cleaned path and the parts of a link; nothing if it leaves the tree. */
  function Join(base: Path, parts: seq<Part>): Option<Path>
    decreases |parts|
  {
    if |parts| == 0 then Some(base)
    else
      match parts[0]
      case Name(s) => Join(base + [s], parts[1..])
      case Here => Join(base, parts[1..])
      case Up => if |base| == 0 then None else Join(base[..|base| - 1], parts[1..])
  }

  /** Where the link at `p` points to, unless it is absolute or leaves the tree. */
  function Target(p: Path, link: Link): Option<Path>
    requires |p| > 0
  {
    if link.absolute then None else Join(p[..|p| - 1], link.parts)
  }

  function TargetOf(t: Tree, p: Path): Option<Path>
    requires p in t && t[p].Symlink? && |p| > 0
  {
    if t[p].text.None? then None else Target(p, t[p].text.value)
  }

  /** How deep a path lies below the root, if `parts` are taken from depth `depth` on. */
  function DepthAfter(depth: int, parts: seq<Part>): int {
    if |parts| == 0 then depth
    else
      match parts[|parts| - 1]
      case Name(_) => DepthAfter(depth, parts[..|parts| - 1]) + 1
      case Here => DepthAfter(depth, parts[..|parts| - 1])
      case Up => DepthAfter(depth, parts[..|parts| - 1]) - 1
  }

  lemma {:induction false} DepthOfRest(depth: int, parts: seq<Part>)
    requires |parts| > 0
    ensures DepthAfter(depth, parts) == DepthAfter(DepthAfter(depth, parts[..1]), parts[1..])
    decreases |parts|
  {
    if |parts| == 1 {
      assert parts[..1] == parts;
    } else {
      var before := parts[..|parts| - 1];
      DepthOfRest(depth, before);
      assert before[..1] == parts[..1];
      assert before[1..] == parts[1..][..|parts[1..]| - 1];
    }
  }

  /** A link leaves the tree exactly when some of its parts, taken in order, go further up
      than there are directories above; otherwise the depth of the target adds up. */
  lemma {:induction false} JoinLeaves(base: Path, parts: seq<Part>)
    ensures Join(base, parts).None? <==> exists k :: 0 <= k <= |parts| && DepthAfter(|base|, parts[..k]) < 0
    ensures Join(base, parts).Some? ==> |Join(base, parts).value| == DepthAfter(|base|, parts)
    decreases |parts|
  {
    if |parts| > 0 {
      var base' := match parts[0] case Name(s) => base + [s] case Here => base case Up => if |base| > 0 then base[..|base| - 1] else [];
      FirstDepth(|base|, parts);
      DepthOfRest(|base|, parts);
      forall k | 1 <= k <= |parts| ensures DepthAfter(|base|, parts[..k]) == DepthAfter(DepthAfter(|base|, parts[..1]), parts[1..][..k - 1]) {
        DepthOfRest(|base|, parts[..k]);
        assert parts[..k][..1] == parts[..1] && parts[..k][1..] == parts[1..][..k - 1];
      }
      if parts[0].Up? && |base| == 0 {
        assert DepthAfter(|base|, parts[..1]) < 0;
      } else {
        JoinLeaves(base', parts[1..]);
        if k :| 0 <= k <= |parts[1..]| && DepthAfter(|base'|, parts[1..][..k]) < 0 {
          assert DepthAfter(|base|, parts[..k + 1]) < 0;
        }
        if k :| 0 <= k <= |parts| && DepthAfter(|base|, parts[..k]) < 0 {
          assert k > 0;
          assert DepthAfter(|base'|, parts[1..][..k - 1]) < 0;
        }
      }
    }
  }

  lemma FirstDepth(depth: int, parts: seq<Part>)
    requires |parts| > 0
    ensures DepthAfter(depth, parts[..0]) == depth
    ensures DepthAfter(depth, parts[..1]) == depth + match parts[0] case Name(_) => 1 case Here => 0 case Up => -1
  {
  }

  /** Going up to the root and down by names leads to any path. */
  lemma {:induction false} JoinReaches(base: Path, p: Path)
    ensures Join(base, seq(|base|, _ => Up) + seq(|p|, i requires 0 <= i < |p| => Name(p[i]))) == Some(p)
    decreases |base|
  {
    var names := seq(|p|, i requires 0 <= i < |p| => Name(p[i]));
    if |base| > 0 {
      var parts := seq(|base|, _ => Up) + names;
      JoinReaches(base[..|base| - 1], p);
      assert parts[1..] == seq(|base| - 1, _ => Up) + names;
    } else {
      assert seq(|base|, _ => Up) + names == names;
      JoinNames([], p);
      assert [] + p == p;
    }
  }

  lemma {:induction false} JoinNames(base: Path, p: Path)
    ensures Join(base, seq(|p|, i requires 0 <= i < |p| => Name(p[i]))) == Some(base + p)
    decreases |p|
  {
    var names := seq(|p|, i requires 0 <= i < |p| => Name(p[i]));
    if |p| == 0 {
      assert base + p == base;
    } else {
      var rest := p[1..];
      assert names[1..] == seq(|rest|, i requires 0 <= i < |rest| => Name(rest[i]));
      JoinNames(base + [p[0]], rest);
      assert base + [p[0]] + rest == base + p;
    }
  }

  const MAX_LEVELS := 1001

  /** resolveCommitFilePath with `levels` levels of links left. */
  function Resolve(t: Tree, p: Path, levels: nat, check: Path -> bool): Outcome
    decreases levels, 0
  {
    if levels == 0 then Failed(TooManyLevels)
    else if p in t && t[p].Unreadable? then Failed(ReadFailed)
    else if p in t && !t[p].Symlink? then Resolved(p)
    else Follow(t, [], p, levels - 1, check)
  }

  /** The walk over the remaining parts of a path, from what the parts before resolved to. */
  function Follow(t: Tree, resolved: Path, rest: Path, levels: nat, check: Path -> bool): Outcome
    decreases levels, |rest|
  {
    if |rest| == 0 then Resolved(resolved)
    else
      var p := resolved + [rest[0]];
      if p !in t then Failed(NotFound)
      else if t[p].Unreadable? then Failed(ReadFailed)
      else if t[p].Symlink? then
        match TargetOf(t, p)
        case None => Failed(if t[p].text.None? then ReadFailed else NotFound)
        case Some(target) =>
          if !check(target) then Failed(Refused)
          else
            match Resolve(t, target, levels, check)
            case Failed(error) => Failed(error)
            case Resolved(q) => Follow(t, q, rest[1..], levels, check)
      else Follow(t, p, rest[1..], levels, check)
  }

  /** resolveCommitFilePath as it is written: a loop over the parts with a recursive call. */
  method ResolveCommitFilePath(t: Tree, path: Path, depth: nat, check: Path -> bool) returns (r: Outcome)
    ensures r == Resolve(t, path, if depth > 1000 then 0 else MAX_LEVELS - depth, check)
    decreases if depth > 1000 then 0 else MAX_LEVELS - depth
  {
    if depth > 1000 {
      return Failed(TooManyLevels);
    }
    var depth' := depth + 1;
    if path in t && t[path].Unreadable? {
      return Failed(ReadFailed);
    }
    if path in t && !t[path].Symlink? {
      return Resolved(path);
    }
    ghost var levels := MAX_LEVELS - depth';
    var resolvedPath: Path := [];
    for ind := 0 to |path|
      invariant Follow(t, [], path, levels, check) == Follow(t, resolvedPath, path[ind..], levels, check)
    {
      var pathToResolve := resolvedPath + [path[ind]];
      assert path[ind..][0] == path[ind] && path[ind..][1..] == path[ind + 1..];
      if pathToResolve !in t {
        return Failed(NotFound);
      } else if t[pathToResolve].Unreadable? {
        return Failed(ReadFailed);
      } else if t[pathToResolve].Symlink? {
        if t[pathToResolve].text.None? {
          return Failed(ReadFailed);
        }
        var resolvedLink := Target(pathToResolve, t[pathToResolve].text.value);
        if resolvedLink.None? {
          return Failed(NotFound);
        }
        if !check(resolvedLink.value) {
          return Failed(Refused);
        }
        var resolvedTarget := ResolveCommitFilePath(t, resolvedLink.value, depth', check);
        if resolvedTarget.Failed? {
          return resolvedTarget;
        }
        resolvedPath := resolvedTarget.path;
      } else {
        resolvedPath := pathToResolve;
      }
    }
    return Resolved(resolvedPath);
  }

  // ----- What a success means

  ghost predicate RealEntry(t: Tree, p: Path) {
    p in t && t[p].Real()
  }

  /** A resolved path is an entry of the tree that is not a link, and resolves to itself. */
  lemma ResolvedIsEntry(t: Tree, p: Path, levels: nat, check: Path -> bool)
    requires WellFormed(t)
    requires Resolve(t, p, levels, check).Resolved?
    ensures var q := Resolve(t, p, levels, check).path;
            && RealEntry(t, q)
            && Resolve(t, q, levels, check) == Resolved(q)
  {
    ResolvesToEntry(t, p, levels, check);
  }

  lemma {:induction false} ResolvesToEntry(t: Tree, p: Path, levels: nat, check: Path -> bool)
    requires WellFormed(t)
    ensures var r := Resolve(t, p, levels, check); r.Resolved? ==> RealEntry(t, r.path)
    decreases levels, 0
  {
    if levels > 0 && !RealEntry(t, p) {
      FollowsToEntry(t, [], p, levels - 1, check);
    }
  }

  lemma {:induction false} FollowsToEntry(t: Tree, resolved: Path, rest: Path, levels: nat, check: Path -> bool)
    requires WellFormed(t)
    requires RealEntry(t, resolved)
    ensures var r := Follow(t, resolved, rest, levels, check); r.Resolved? ==> RealEntry(t, r.path)
    decreases levels, |rest|
  {
    if |rest| > 0 {
      var p := resolved + [rest[0]];
      if p in t && !t[p].Unreadable? {
        if t[p].Symlink? {
          var target := TargetOf(t, p);
          if target.Some? {
            ResolvesToEntry(t, target.value, levels, check);
            var q := Resolve(t, target.value, levels, check);
            if q.Resolved? { FollowsToEntry(t, q.path, rest[1..], levels, check); }
          }
        } else {
          FollowsToEntry(t, p, rest[1..], levels, check);
        }
      }
    }
  }

  lemma {:induction false} AncestorsAreEntries(t: Tree, p: Path, k: nat)
    requires WellFormed(t)
    requires p in t && !t[p].Unreadable?
    requires k < |p|
    ensures RealEntry(t, p[..k])
    decreases |p| - k
  {
    if k == |p| - 1 {
    } else {
      AncestorsAreEntries(t, p, k + 1);
      assert p[..k + 1][..k] == p[..k];
    }
  }

  /** The shortcut for entries that are not links gives what the walk over the parts gives. */
  lemma {:induction false} ShortcutAgrees(t: Tree, p: Path, k: nat, levels: nat, check: Path -> bool)
    requires WellFormed(t)
    requires RealEntry(t, p)
    requires k <= |p|
    ensures Follow(t, p[..k], p[k..], levels, check) == Resolved(p)
    decreases |p| - k
  {
    hide Resolve, Target;
    if k < |p| {
      assert p[..k] + [p[k..][0]] == p[..k + 1] && p[k..][1..] == p[k + 1..];
      AncestorOrSelf(t, p, k + 1);
      assert Follow(t, p[..k], p[k..], levels, check) == Follow(t, p[..k + 1], p[k + 1..], levels, check);
      ShortcutAgrees(t, p, k + 1, levels, check);
    } else {
      assert p[..k] == p;
    }
  }

  lemma AncestorOrSelf(t: Tree, p: Path, k: nat)
    requires WellFormed(t)
    requires RealEntry(t, p)
    requires k <= |p|
    ensures RealEntry(t, p[..k])
  {
    if k < |p| { AncestorsAreEntries(t, p, k); } else { assert p[..k] == p; }
  }

  // ----- Where a link leads, by the text it holds

  /** The text `../../a/b`: up so many times, and down by names. */
  function UpAndDown(k: nat, q: Path): seq<Part> {
    seq(k, _ => Up) + seq(|q|, i requires 0 <= i < |q| => Name(q[i]))
  }

  lemma {:induction false} JoinUpAndDown(base: Path, k: nat, q: Path)
    ensures Join(base, UpAndDown(k, q)) == if k <= |base| then Some(base[..|base| - k] + q) else None
    decreases k
  {
    var names := seq(|q|, i requires 0 <= i < |q| => Name(q[i]));
    if k == 0 {
      assert UpAndDown(0, q) == names && base[..|base|] == base;
      JoinNames(base, q);
    } else if |base| > 0 {
      var up := base[..|base| - 1];
      assert UpAndDown(k, q)[1..] == UpAndDown(k - 1, q);
      JoinUpAndDown(up, k - 1, q);
      assert k <= |base| ==> up[..|up| - (k - 1)] == base[..|base| - k];
    }
  }

  /** Walking over real entries changes nothing. */
  lemma {:induction false} WalkOver(t: Tree, d: Path, k: nat, rest: Path, levels: nat, check: Path -> bool)
    requires WellFormed(t)
    requires RealEntry(t, d)
    requires k <= |d|
    ensures Follow(t, d[..k], d[k..] + rest, levels, check) == Follow(t, d, rest, levels, check)
    decreases |d| - k
  {
    hide Resolve, TargetOf;
    if k < |d| {
      var tail := d[k..] + rest;
      assert d[..k] + [tail[0]] == d[..k + 1] && tail[1..] == d[k + 1..] + rest;
      AncestorOrSelf(t, d, k + 1);
      WalkOver(t, d, k + 1, rest, levels, check);
    } else {
      assert d[..k] == d && d[k..] + rest == rest;
    }
  }

  lemma WalkOverAll(t: Tree, d: Path, rest: Path, levels: nat, check: Path -> bool)
    requires WellFormed(t)
    requires RealEntry(t, d)
    ensures Follow(t, [], d + rest, levels, check) == Follow(t, d, rest, levels, check)
  {
    WalkOver(t, d, 0, rest, levels, check);
    assert d[..0] == [] && d[0..] == d;
  }

  /** A link in the directory `d` is followed from that directory: up `k` times and down to
      `q`, before the rest of the path is walked. It is refused by the check of that very
      target, and leads nowhere if it leaves the tree, is absolute or cannot be read. */
  lemma LinkLeadsFromItsDirectory(t: Tree, d: Path, n: string, rest: Path, k: nat, q: Path, levels: nat, check: Path -> bool)
    requires WellFormed(t) && RealEntry(t, d)
    requires d + [n] in t && t[d + [n]].Symlink?
    requires |rest| > 0 ==> d + [n] + rest !in t
    requires levels >= 2
    ensures var r, text, target := Resolve(t, d + [n] + rest, levels, check), t[d + [n]].text, d[..if k <= |d| then |d| - k else 0] + q;
            && (text == None ==> r == Failed(ReadFailed))
            && (text.Some? && text.value.absolute ==> r == Failed(NotFound))
            && (text == Some(Link(false, UpAndDown(k, q))) && k > |d| ==> r == Failed(NotFound))
            && (text == Some(Link(false, UpAndDown(k, q))) && k <= |d| ==>
                  && (!check(target) ==> r == Failed(Refused))
                  && (check(target) && RealEntry(t, target) ==> r == Follow(t, target, rest, levels - 1, check))
                  && (check(target) && RealEntry(t, target) && rest == [] ==> r == Resolved(target)))
  {
    hide Resolve, Follow, Target, WellFormed;
    AtLink(t, d, n, rest, levels, check);
    FollowLink(t, d, n, rest, levels - 1, check);
    assert (d + [n])[..|d + [n]| - 1] == d;
    if t[d + [n]].text == Some(Link(false, UpAndDown(k, q))) {
      JoinUpAndDown(d, k, q);
      TargetIs(t, d + [n], UpAndDown(k, q));
      hide UpAndDown;
      if k <= |d| { ResolvesAtOnce(t, d[..|d| - k] + q, rest, levels - 1, check); }
    }
  }

  lemma AtLink(t: Tree, d: Path, n: string, rest: Path, levels: nat, check: Path -> bool)
    requires WellFormed(t) && RealEntry(t, d)
    requires d + [n] in t && t[d + [n]].Symlink?
    requires |rest| > 0 ==> d + [n] + rest !in t
    requires levels >= 1
    ensures Resolve(t, d + [n] + rest, levels, check) == Follow(t, d, [n] + rest, levels - 1, check)
  {
    var p, tail := d + [n] + rest, [n] + rest;
    hide WellFormed, Follow;
    assert p == d + tail && (rest == [] ==> p == d + [n]);
    WalkOverAll(t, d, tail, levels - 1, check);
  }

  lemma TargetIs(t: Tree, p: Path, parts: seq<Part>)
    requires p in t && |p| > 0 && t[p] == Symlink(Some(Link(false, parts)))
    ensures TargetOf(t, p) == Join(p[..|p| - 1], parts)
  {
  }

  lemma ResolvesAtOnce(t: Tree, p: Path, rest: Path, levels: nat, check: Path -> bool)
    requires levels >= 1
    ensures RealEntry(t, p) ==> Resolve(t, p, levels, check) == Resolved(p)
    ensures rest == [] ==> Follow(t, p, rest, levels, check) == Resolved(p)
  {
  }

  lemma FollowLink(t: Tree, d: Path, n: string, rest: Path, levels: nat, check: Path -> bool)
    requires d + [n] in t && t[d + [n]].Symlink?
    ensures var r, target := Follow(t, d, [n] + rest, levels, check), TargetOf(t, d + [n]);
            && (t[d + [n]].text == None ==> r == Failed(ReadFailed))
            && (t[d + [n]].text.Some? && target == None ==> r == Failed(NotFound))
            && (t[d + [n]].text.Some? && t[d + [n]].text.value.absolute ==> target == None)
            && (target.Some? && !check(target.value) ==> r == Failed(Refused))
            && (target.Some? && check(target.value) && Resolve(t, target.value, levels, check) == Resolved(target.value) ==>
                  r == Follow(t, target.value, rest, levels, check))
  {
    var tail := [n] + rest;
    assert tail[0] == n && tail[1..] == rest;
    hide Resolve, Join;
  }

  /** What is past a link is resolved as if it were past the entry that the link leads to. */
  lemma LinkInTheMiddle(t: Tree, target: Path, rest: Path, levels: nat, check: Path -> bool)
    requires WellFormed(t) && RealEntry(t, target)
    requires levels >= 2
    requires target + rest in t ==> !t[target + rest].Unreadable?
    ensures Resolve(t, target + rest, levels, check) == Follow(t, target, rest, levels - 1, check)
  {
    hide Follow, WellFormed, TargetOf;
    WalkOverAll(t, target, rest, levels - 1, check);
    if RealEntry(t, target + rest) {
      ShortcutAgrees(t, target + rest, 0, levels - 1, check);
      assert (target + rest)[..0] == [] && (target + rest)[0..] == target + rest;
    }
  }

  /** A name that a directory does not have is not found, and one that cannot be read is an
      error. */
  lemma MissingEntry(t: Tree, d: Path, n: string, rest: Path, levels: nat, check: Path -> bool)
    requires WellFormed(t) && RealEntry(t, d)
    requires d + [n] !in t || t[d + [n]].Unreadable?
    requires d + [n] + rest in t ==> t[d + [n] + rest].Unreadable?
    requires levels >= 1
    ensures d + [n] !in t && d + [n] + rest !in t ==> Resolve(t, d + [n] + rest, levels, check) == Failed(NotFound)
    ensures d + [n] in t || d + [n] + rest in t ==> Resolve(t, d + [n] + rest, levels, check) == Failed(ReadFailed)
  {
    assert rest == [] ==> d + [n] + rest == d + [n];
    assert d + [n] + rest == d + ([n] + rest);
    WalkOverAll(t, d, [n] + rest, levels - 1, check);
    assert ([n] + rest)[0] == n;
  }

  // ----- More levels change nothing but the error for too many levels

  lemma {:induction false} MoreLevels(t: Tree, p: Path, levels: nat, more: nat, check: Path -> bool)
    requires levels <= more
    requires Resolve(t, p, levels, check) != Failed(TooManyLevels)
    ensures Resolve(t, p, more, check) == Resolve(t, p, levels, check)
    decreases levels, 0
  {
    if !(p in t && !t[p].Symlink?) {
      MoreLevelsToFollow(t, [], p, levels - 1, more - 1, check);
    }
  }

  lemma {:induction false} MoreLevelsToFollow(t: Tree, resolved: Path, rest: Path, levels: nat, more: nat, check: Path -> bool)
    requires levels <= more
    requires Follow(t, resolved, rest, levels, check) != Failed(TooManyLevels)
    ensures Follow(t, resolved, rest, more, check) == Follow(t, resolved, rest, levels, check)
    decreases levels, |rest|
  {
    if |rest| > 0 {
      var p := resolved + [rest[0]];
      if p in t && !t[p].Unreadable? {
        if t[p].Symlink? {
          var target := TargetOf(t, p);
          if target.Some? && check(target.value) {
            MoreLevels(t, target.value, levels, more, check);
            var q := Resolve(t, target.value, levels, check);
            if q.Resolved? { MoreLevelsToFollow(t, q.path, rest[1..], levels, more, check); }
          }
        } else {
          MoreLevelsToFollow(t, p, rest[1..], levels, more, check);
        }
      }
    }
  }

  // ----- The check of link targets

  function Unchecked(p: Path): bool {
    true
  }

  /** The link targets looked into while resolving without a check. */
  ghost function Targets(t: Tree, p: Path, levels: nat): set<Path>
    decreases levels, 0
  {
    if levels == 0 || (p in t && !t[p].Symlink?) then {} else TargetsOnWay(t, [], p, levels - 1)
  }

  ghost function TargetsOnWay(t: Tree, resolved: Path, rest: Path, levels: nat): set<Path>
    decreases levels, |rest|
  {
    if |rest| == 0 then {}
    else
      var p := resolved + [rest[0]];
      if p !in t || t[p].Unreadable? then {}
      else if t[p].Symlink? then
        match TargetOf(t, p)
        case None => {}
        case Some(target) =>
          {target} + Targets(t, target, levels) +
          (match Resolve(t, target, levels, Unchecked)
           case Failed(_) => {}
           case Resolved(q) => TargetsOnWay(t, q, rest[1..], levels))
      else TargetsOnWay(t, p, rest[1..], levels)
  }

  /** With a check a path resolves to `q` exactly when it resolves to `q` without one and
      every link target on the way passes the check. */
  lemma {:induction false} CheckedResolve(t: Tree, p: Path, levels: nat, check: Path -> bool, q: Path)
    ensures Resolve(t, p, levels, check) == Resolved(q) <==>
            && Resolve(t, p, levels, Unchecked) == Resolved(q)
            && forall x :: x in Targets(t, p, levels) ==> check(x)
    decreases levels, 0
  {
    if levels > 0 && !(p in t && !t[p].Symlink?) {
      CheckedFollow(t, [], p, levels - 1, check, q);
    }
  }

  lemma {:induction false} CheckedFollow(t: Tree, resolved: Path, rest: Path, levels: nat, check: Path -> bool, q: Path)
    ensures Follow(t, resolved, rest, levels, check) == Resolved(q) <==>
            && Follow(t, resolved, rest, levels, Unchecked) == Resolved(q)
            && forall x :: x in TargetsOnWay(t, resolved, rest, levels) ==> check(x)
    decreases levels, |rest|
  {
    if |rest| > 0 {
      var p := resolved + [rest[0]];
      if p in t && !t[p].Unreadable? {
        if t[p].Symlink? {
          var target := TargetOf(t, p);
          if target.Some? {
            var r, u := Resolve(t, target.value, levels, check), Resolve(t, target.value, levels, Unchecked);
            if u.Resolved? {
              CheckedResolve(t, target.value, levels, check, u.path);
              CheckedFollow(t, u.path, rest[1..], levels, check, q);
            }
            if r.Resolved? {
              CheckedResolve(t, target.value, levels, check, r.path);
            }
          }
        } else {
          CheckedFollow(t, p, rest[1..], levels, check, q);
        }
      }
    }
  }

  // ----- How many levels are enough

  function Links(t: Tree): set<Path> {
    set p | p in t && |p| > 0 && t[p].Symlink?
  }

  /** The links whose target does not run out of levels. */
  ghost function Settled(t: Tree, levels: nat, check: Path -> bool): set<Path> {
    set p | p in Links(t) &&
            var target := TargetOf(t, p);
            target.None? || Resolve(t, target.value, levels, check) != Failed(TooManyLevels)
  }

  lemma SettledGrows(t: Tree, levels: nat, more: nat, check: Path -> bool)
    requires levels <= more
    ensures Settled(t, levels, check) <= Settled(t, more, check)
  {
    forall p | p in Settled(t, levels, check) ensures p in Settled(t, more, check) {
      var target := TargetOf(t, p);
      if target.Some? { MoreLevels(t, target.value, levels, more, check); }
    }
  }

  /** What a path resolves to depends on the levels only through the settled links. */
  lemma {:induction false} SameSettledSameFollow(t: Tree, resolved: Path, rest: Path, levels: nat, more: nat, check: Path -> bool)
    requires levels <= more
    requires Settled(t, levels, check) == Settled(t, more, check)
    ensures Follow(t, resolved, rest, levels, check) == Follow(t, resolved, rest, more, check)
    decreases |rest|
  {
    if |rest| > 0 {
      var p := resolved + [rest[0]];
      if p in t && !t[p].Unreadable? {
        if t[p].Symlink? {
          assert p in Links(t);
          var target := TargetOf(t, p);
          if target.Some? {
            if p in Settled(t, levels, check) {
              MoreLevels(t, target.value, levels, more, check);
            } else {
              assert p !in Settled(t, more, check);
            }
            var q := Resolve(t, target.value, levels, check);
            if q.Resolved? { SameSettledSameFollow(t, q.path, rest[1..], levels, more, check); }
          }
        } else {
          SameSettledSameFollow(t, p, rest[1..], levels, more, check);
        }
      }
    }
  }

  lemma SameSettledSameResolve(t: Tree, p: Path, levels: nat, more: nat, check: Path -> bool)
    requires levels <= more
    requires Settled(t, levels, check) == Settled(t, more, check)
    ensures Resolve(t, p, levels + 1, check) == Resolve(t, p, more + 1, check)
  {
    SameSettledSameFollow(t, [], p, levels, more, check);
  }

  /** Once one more level settles no further link, no number of levels does. */
  lemma {:induction false} SettledStays(t: Tree, levels: nat, more: nat, check: Path -> bool)
    requires levels <= more
    requires Settled(t, levels, check) == Settled(t, levels + 1, check)
    ensures Settled(t, more, check) == Settled(t, levels, check)
    decreases more
  {
    if levels < more {
      SettledStays(t, levels, more - 1, check);
      forall p | p in Links(t) ensures p in Settled(t, more, check) <==> p in Settled(t, levels + 1, check) {
        var target := TargetOf(t, p);
        if target.Some? {
          SameSettledSameResolve(t, target.value, levels, more - 1, check);
        }
      }
      assert Settled(t, more, check) == Settled(t, levels + 1, check);
    }
  }

  lemma {:induction false} SettledSoon(t: Tree, levels: nat, check: Path -> bool) returns (stable: nat)
    requires levels <= |Settled(t, levels, check)|
    ensures stable <= |Links(t)|
    ensures Settled(t, stable, check) == Settled(t, stable + 1, check)
    decreases |Links(t)| - levels
  {
    SettledGrows(t, levels, levels + 1, check);
    SmallerSet(Settled(t, levels, check), Links(t));
    if Settled(t, levels, check) == Settled(t, levels + 1, check) {
      stable := levels;
    } else {
      SmallerSet(Settled(t, levels + 1, check), Links(t));
      SmallerSet(Settled(t, levels, check), Settled(t, levels + 1, check));
      stable := SettledSoon(t, levels + 1, check);
    }
  }

  /** As many levels as there are links, and one more, are as good as any number: a path
      that still runs out of levels goes round in a circle. */
  lemma EnoughLevels(t: Tree, p: Path, levels: nat, more: nat, check: Path -> bool)
    requires |Links(t)| < levels <= more
    ensures Resolve(t, p, levels, check) == Resolve(t, p, more, check)
  {
    var stable := SettledSoon(t, 0, check);
    SettledStays(t, stable, levels - 1, check);
    SettledStays(t, stable, more - 1, check);
    SameSettledSameResolve(t, p, levels - 1, more - 1, check);
  }

  /** In a commit with at most 1000 links the limit of the program refuses only circles. */
  lemma LimitRefusesOnlyCircles(t: Tree, p: Path, check: Path -> bool)
    requires |Links(t)| <= 1000
    ensures Resolve(t, p, MAX_LEVELS, check) == Failed(TooManyLevels) <==>
            forall levels: nat :: Resolve(t, p, levels, check) == Failed(TooManyLevels)
  {
    forall levels: nat | Resolve(t, p, MAX_LEVELS, check) == Failed(TooManyLevels)
      ensures Resolve(t, p, levels, check) == Failed(TooManyLevels)
    {
      if levels >= MAX_LEVELS {
        EnoughLevels(t, p, MAX_LEVELS, levels, check);
      } else if Resolve(t, p, levels, check) != Failed(TooManyLevels) {
        MoreLevels(t, p, levels, MAX_LEVELS, check);
      }
    }
  }

  // ----- The bound is sharp

  /** Distinct names. */
  function Numbered(k: nat): string {
    seq(k + 1, _ => 'x')
  }

  /** A file and `k` links, each to the one before. */
  function Chain(k: nat): Tree {
    if k == 0 then map[[] := Directory, [Numbered(0)] := File]
    else Chain(k - 1)[[Numbered(k)] := Symlink(Some(Link(false, [Name(Numbered(k - 1))])))]
  }

  lemma {:induction false} ChainEntries(k: nat, j: nat)
    ensures [] in Chain(k) && Chain(k)[[]] == Directory
    ensures [Numbered(j)] in Chain(k) <==> j <= k
    ensures j == 0 ==> Chain(k)[[Numbered(j)]] == File
    ensures 0 < j <= k ==> Chain(k)[[Numbered(j)]] == Symlink(Some(Link(false, [Name(Numbered(j - 1))])))
    ensures forall p :: p in Chain(k) ==> |p| <= 1
  {
    assert |Numbered(j)| == j + 1;
    if k > 0 {
      ChainEntries(k - 1, j);
      if j != k { assert |Numbered(j)| != |Numbered(k)|; }
    }
  }

  lemma LinksAdded(t: Tree, p: Path, entry: Entry)
    requires WellFormed(t)
    requires p !in t && |p| == 1 && entry.Symlink?
    ensures WellFormed(t[p := entry])
    ensures |Links(t[p := entry])| == |Links(t)| + 1
  {
    assert Links(t[p := entry]) == Links(t) + {p};
    assert p !in Links(t);
    forall q | q in t && |q| > 0 && !t[q].Unreadable? ensures q[..|q| - 1] != p {
    }
  }

  lemma {:induction false} ChainLinks(k: nat)
    ensures WellFormed(Chain(k))
    ensures |Links(Chain(k))| == k
  {
    if k == 0 {
      assert Links(Chain(0)) == {};
    } else {
      ChainLinks(k - 1);
      ChainEntries(k - 1, k);
      ChainEntries(k, k);
      LinksAdded(Chain(k - 1), [Numbered(k)], Chain(k)[[Numbered(k)]]);
    }
  }

  lemma OneLink(t: Tree, p: Path, n: string, levels: nat)
    requires |p| == 1 && p in t && t[p] == Symlink(Some(Link(false, [Name(n)])))
    requires levels > 0
    ensures Resolve(t, p, levels, Unchecked) == Resolve(t, [n], levels - 1, Unchecked)
  {
    assert p[..|p| - 1] == [];
    assert [Name(n)][1..] == [];
    assert Join([], [Name(n)]) == Join([] + [n], []);
    assert [] + [n] == [n];
    assert TargetOf(t, p) == Some([n]);
    assert [] + [p[0]] == p && p[1..] == [];
    var q := Resolve(t, [n], levels - 1, Unchecked);
    assert Follow(t, [], p, levels - 1, Unchecked) ==
           if q.Failed? then q else Follow(t, q.path, [], levels - 1, Unchecked);
  }

  lemma {:induction false} ChainResolves(k: nat, j: nat, levels: nat)
    requires j <= k
    ensures Resolve(Chain(k), [Numbered(j)], levels, Unchecked) ==
            if levels > j then Resolved([Numbered(0)]) else Failed(TooManyLevels)
    decreases j
  {
    hide Chain, Numbered, Follow;
    if levels > 0 {
      ChainEntries(k, j);
      if j > 0 {
        OneLink(Chain(k), [Numbered(j)], Numbered(j - 1), levels);
        ChainResolves(k, j - 1, levels - 1);
      }
    }
  }

  /** The limit of the program refuses nothing in the tree but circles. */
  ghost predicate RefusesOnlyCircles(t: Tree) {
    forall p, check: Path -> bool :: Resolve(t, p, MAX_LEVELS, check) == Failed(TooManyLevels) ==>
      forall levels: nat :: Resolve(t, p, levels, check) == Failed(TooManyLevels)
  }

  /** The exact bound: the limit refuses only circles in all trees with `n` links if and only
      if `n` is at most 1000. A longer chain of links is no circle, and is refused. */
  lemma LimitIsSharp(n: nat)
    ensures (forall t :: WellFormed(t) && |Links(t)| == n ==> RefusesOnlyCircles(t)) <==> n <= 1000
  {
    hide Chain, Numbered, Resolve, Links, WellFormed;
    if n <= 1000 {
      forall t | WellFormed(t) && |Links(t)| == n ensures RefusesOnlyCircles(t) {
        forall p, check: Path -> bool | Resolve(t, p, MAX_LEVELS, check) == Failed(TooManyLevels)
          ensures forall levels: nat :: Resolve(t, p, levels, check) == Failed(TooManyLevels)
        {
          LimitRefusesOnlyCircles(t, p, check);
        }
      }
    } else {
      var t, p := Chain(n), [Numbered(n)];
      ChainLinks(n);
      ChainResolves(n, n, MAX_LEVELS);
      ChainResolves(n, n, n + 1);
      assert Resolve(t, p, n + 1, Unchecked) != Failed(TooManyLevels);
      assert Resolve(t, p, MAX_LEVELS, Unchecked) == Failed(TooManyLevels);
    }
  }
}
