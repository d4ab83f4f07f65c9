/**
  Following a list of globs down a path, one segment at a time: the step function of the
  include and exclude matchers, their loops, and the closed form of what the loops compute.
 */
module GlobProgress {
  import opened Common
  import opened Globs

  predicate NoEmptyGlob(globs: seq<Glob>) {
    forall i :: 0 <= i < |globs| ==> |globs[i]| > 0
  }

  /** hasUniversalGlob. */
  ghost predicate AnyUniversal(globs: seq<Glob>) {
    exists g :: g in globs && Universal(g)
  }

  datatype Step = Dead | InProgress(rest: Glob) | Complete(glob: Glob)

  /** matchGlob: a component whose text contains `**` is never left behind. */
  function MatchGlob(part: string, glob: Glob): Step
    requires |glob| > 0
  {
    if !glob[0].Accepts(part) then Dead
    else if glob[0].Doubled() then InProgress(glob)
    else if |glob| > 1 then InProgress(glob[1..])
    else Complete(glob)
  }

  // ----- Closed form: which globs are in progress below a directory, and with what rest

  /** Index of the first component whose text contains `**`, or the length of the glob. */
  function FirstDoubled(g: Glob): (i: nat)
    ensures i <= |g|
    ensures forall j :: 0 <= j < i ==> !g[j].Doubled()
    ensures i < |g| ==> g[i].Doubled()
  {
    if |g| == 0 || g[0].Doubled() then 0 else 1 + FirstDoubled(g[1..])
  }

  /** Index of the component compared with segment `j`. */
  function Cursor(g: Glob, j: nat): nat {
    if j < FirstDoubled(g) then j else FirstDoubled(g)
  }

  /** Every segment of `p` is accepted by the component it is compared with. */
  ghost predicate Fits(g: Glob, p: Path) {
    && (FirstDoubled(g) == |g| ==> |p| <= |g|)
    && forall j :: 0 <= j < |p| ==> g[Cursor(g, j)].Accepts(p[j])
  }

  /** The glob is still in progress after all of `p`. */
  ghost predicate Alive(g: Glob, p: Path) {
    Fits(g, p) && Cursor(g, |p|) < |g|
  }

  /** The last component of the glob was used up by the last segment of `p`. */
  ghost predicate Finished(g: Glob, p: Path) {
    Fits(g, p) && Cursor(g, |p|) == |g| && |p| > 0
  }

  ghost predicate AnyFinished(globs: seq<Glob>, p: Path) {
    exists g :: g in globs && Finished(g, p)
  }

  function Rest(g: Glob, p: Path): Glob {
    g[Cursor(g, |p|)..]
  }

  /** The globs still in progress after `p`, in the order of the list. */
  ghost function InProgressAfter(globs: seq<Glob>, p: Path): seq<Glob> {
    if |globs| == 0 then []
    else (if Alive(globs[0], p) then [Rest(globs[0], p)] else []) + InProgressAfter(globs[1..], p)
  }

  lemma {:induction false} InProgressMembers(globs: seq<Glob>, p: Path)
    ensures |InProgressAfter(globs, p)| == 0 <==> forall g :: g in globs ==> !Alive(g, p)
    ensures forall r :: r in InProgressAfter(globs, p) <==> exists g :: g in globs && Alive(g, p) && r == Rest(g, p)
  {
    if |globs| > 0 {
      InProgressMembers(globs[1..], p);
      assert forall g :: g in globs <==> g == globs[0] || g in globs[1..];
    }
  }

  /** The first results of one call of matchGlobs. */
  function Advance(part: string, globs: seq<Glob>): seq<Glob>
    requires NoEmptyGlob(globs)
  {
    if |globs| == 0 then []
    else
      var step := MatchGlob(part, globs[0]);
      (if step.InProgress? then [step.rest] else []) + Advance(part, globs[1..])
  }

  /** The second results of one call of matchGlobs. */
  function Completed(part: string, globs: seq<Glob>): seq<Glob>
    requires NoEmptyGlob(globs)
  {
    if |globs| == 0 then []
    else
      var step := MatchGlob(part, globs[0]);
      (if step.Complete? then [step.glob] else []) + Completed(part, globs[1..])
  }

  lemma FirstDoubledOfRest(g: Glob, k: nat)
    requires k <= FirstDoubled(g)
    ensures FirstDoubled(g[k..]) == FirstDoubled(g) - k
  {
  }

  /** One step of matchGlob on the rest of a glob is the closed form of a longer path. */
  lemma StepFromRest(g: Glob, p: Path, part: string)
    requires |g| > 0
    requires Alive(g, p)
    ensures Alive(g, p + [part]) <==> MatchGlob(part, Rest(g, p)).InProgress?
    ensures Alive(g, p + [part]) ==> MatchGlob(part, Rest(g, p)).rest == Rest(g, p + [part])
    ensures Finished(g, p + [part]) <==> MatchGlob(part, Rest(g, p)).Complete?
  {
    var q := p + [part];
    var c := Cursor(g, |p|);
    FirstDoubledOfRest(g, c);
    assert Rest(g, p)[0] == g[c];
    assert q[|p|] == part;
    assert forall j :: 0 <= j < |p| ==> q[j] == p[j];
    assert Fits(g, q) <==> g[c].Accepts(part) by {
      if g[c].Accepts(part) {
        forall j | 0 <= j < |q| ensures g[Cursor(g, j)].Accepts(q[j]) {
          if j < |p| { assert g[Cursor(g, j)].Accepts(p[j]); }
        }
      }
      if Fits(g, q) { assert g[Cursor(g, |p|)].Accepts(q[|p|]); }
    }
    assert g[c].Doubled() <==> c == FirstDoubled(g);
    assert Rest(g, p)[1..] == g[c + 1..];
  }

  lemma AliveShrinks(g: Glob, p: Path, q: Path)
    requires p <= q
    requires Fits(g, q)
    ensures Fits(g, p)
    ensures |p| < |q| ==> Alive(g, p)
  {
  }

  lemma {:induction false} AdvanceStep(part: string, globs: seq<Glob>, p: Path)
    requires NoEmptyGlob(globs)
    ensures NoEmptyGlob(InProgressAfter(globs, p))
    ensures Advance(part, InProgressAfter(globs, p)) == InProgressAfter(globs, p + [part])
    ensures |Completed(part, InProgressAfter(globs, p))| > 0 <==>
            AnyFinished(globs, p + [part])
  {
    var q := p + [part];
    if |globs| > 0 {
      var g, rs := globs[0], InProgressAfter(globs[1..], p);
      assert forall x :: x in globs <==> x == g || x in globs[1..];
      AdvanceStep(part, globs[1..], p);
      if Alive(g, p) {
        StepFromRest(g, p, part);
        assert InProgressAfter(globs, p) == [Rest(g, p)] + rs;
        assert ([Rest(g, p)] + rs)[1..] == rs;
      } else {
        if Fits(g, q) {
          AliveShrinks(g, p, q);
        }
        assert InProgressAfter(globs, p) == rs;
      }
    }
  }

  // ----- The loops of the program

  method MatchGlobs(part: string, globs: seq<Glob>) returns (inProgress: seq<Glob>, matched: seq<Glob>)
    requires NoEmptyGlob(globs)
    ensures inProgress == Advance(part, globs)
    ensures matched == Completed(part, globs)
  {
    inProgress, matched := [], [];
    for i := 0 to |globs|
      invariant Advance(part, globs) == inProgress + Advance(part, globs[i..])
      invariant Completed(part, globs) == matched + Completed(part, globs[i..])
    {
      assert globs[i..][0] == globs[i] && globs[i..][1..] == globs[i + 1..];
      match MatchGlob(part, globs[i])
      case Dead =>
      case InProgress(rest) => inProgress := inProgress + [rest];
      case Complete(glob) => matched := matched + [glob];
    }
  }

  method HasUniversalGlob(globs: seq<Glob>) returns (found: bool)
    ensures found <==> AnyUniversal(globs)
  {
    for i := 0 to |globs|
      invariant forall j :: 0 <= j < i ==> !Universal(globs[j])
    {
      if Universal(globs[i]) { return true; }
    }
    return false;
  }

  method IsAnyPatternMatched(p: Path, globs: seq<Glob>) returns (found: bool)
    ensures found <==> exists g :: g in globs && IsPathMatched(p, g)
  {
    for i := 0 to |globs|
      invariant forall j :: 0 <= j < i ==> !IsPathMatched(p, globs[j])
    {
      if IsPathMatched(p, globs[i]) { return true; }
    }
    return false;
  }

  /** Some glob is in progress at `p`, and none of those in progress is universal. */
  ghost predicate PartiallyMatched(globs: seq<Glob>, p: Path) {
    && (exists g :: g in globs && Alive(g, p))
    && (forall g :: g in globs && Alive(g, p) ==> !Universal(Rest(g, p)))
  }

  lemma ProgressDecides(globs: seq<Glob>, p: Path)
    ensures PartiallyMatched(globs, p) <==>
            && |InProgressAfter(globs, p)| != 0
            && !AnyUniversal(InProgressAfter(globs, p))
  {
    InProgressMembers(globs, p);
    var rs := InProgressAfter(globs, p);
    if AnyUniversal(rs) {
      var r :| r in rs && Universal(r);
      var g :| g in globs && Alive(g, p) && r == Rest(g, p);
      assert Universal(Rest(g, p));
    }
    if g :| g in globs && Alive(g, p) && Universal(Rest(g, p)) {
      assert Rest(g, p) in rs;
    }
  }

  ghost predicate IncludeGoesThrough(globs: seq<Glob>, p: Path) {
    && |globs| > 0
    && !AnyUniversal(globs)
    && (|p| == 0 || PartiallyMatched(globs, p))
  }

  ghost predicate ExcludeGoesThrough(globs: seq<Glob>, p: Path) {
    && |globs| > 0
    && !AnyUniversal(globs)
    && (|p| == 0 || (PartiallyMatched(globs, p) && !AnyFinished(globs, p)))
  }

  lemma {:induction false} NothingPassedYet(globs: seq<Glob>)
    requires NoEmptyGlob(globs)
    ensures InProgressAfter(globs, []) == globs
  {
    if |globs| > 0 {
      NothingPassedYet(globs[1..]);
      assert Alive(globs[0], []) && Rest(globs[0], []) == globs[0];
      assert globs == [globs[0]] + globs[1..];
    }
  }

  lemma NextSegment(globs: seq<Glob>, path: Path, k: nat)
    requires k < |path|
    requires NoEmptyGlob(globs)
    ensures NoEmptyGlob(InProgressAfter(globs, path[..k]))
    ensures Advance(path[k], InProgressAfter(globs, path[..k])) == InProgressAfter(globs, path[..k + 1])
    ensures |Completed(path[k], InProgressAfter(globs, path[..k]))| > 0 <==> AnyFinished(globs, path[..k + 1])
  {
    AdvanceStep(path[k], globs, path[..k]);
    assert path[..k] + [path[k]] == path[..k + 1];
  }

  /** Leaving the loop, at the end of the path or because nothing is in progress. */
  lemma LoopExit(globs: seq<Glob>, path: Path, k: nat)
    requires k <= |path|
    requires k == |path| || |InProgressAfter(globs, path[..k])| == 0
    ensures path[..|path|] == path
    ensures InProgressAfter(globs, path[..k]) == InProgressAfter(globs, path)
  {
  }

  lemma EmptyGlobIsUniversal(globs: seq<Glob>)
    ensures !AnyUniversal(globs) ==> NoEmptyGlob(globs)
  {
    if i :| 0 <= i < |globs| && |globs[i]| == 0 {
      assert Universal(globs[i]);
    }
  }

  /** shouldGoThrough of the include matcher. */
  method IncludeShouldGoThrough(globs: seq<Glob>, path: Path) returns (r: bool)
    ensures r <==> IncludeGoesThrough(globs, path)
  {
    if |globs| == 0 { return false; }
    var universal := HasUniversalGlob(globs);
    if universal { return false; }
    if |path| == 0 { return true; }

    EmptyGlobIsUniversal(globs);
    var globsInProgress := globs;
    NothingPassedYet(globs);
    var k := 0;
    while k < |path|
      invariant k <= |path|
      invariant globsInProgress == InProgressAfter(globs, path[..k])
    {
      if |globsInProgress| == 0 { break; }
      NextSegment(globs, path, k);
      var completed;
      globsInProgress, completed := MatchGlobs(path[k], globsInProgress);
      k := k + 1;
    }
    LoopExit(globs, path, k);
    ProgressDecides(globs, path);

    universal := HasUniversalGlob(globsInProgress);
    if |globsInProgress| != 0 && !universal {
      return true;
    }
    return false;
  }

  /** shouldGoThrough of the exclude matcher. */
  method ExcludeShouldGoThrough(globs: seq<Glob>, path: Path) returns (r: bool)
    ensures r <==> ExcludeGoesThrough(globs, path)
  {
    if |globs| == 0 { return false; }
    var universal := HasUniversalGlob(globs);
    if universal { return false; }
    if |path| == 0 { return true; }

    EmptyGlobIsUniversal(globs);
    var globsInProgress, matchedGlobs := globs, [];
    NothingPassedYet(globs);
    var k := 0;
    while k < |path|
      invariant k <= |path|
      invariant globsInProgress == InProgressAfter(globs, path[..k])
      invariant |matchedGlobs| > 0 <==> AnyFinished(globs, path[..k])
    {
      if |globsInProgress| == 0 { break; }
      NextSegment(globs, path, k);
      globsInProgress, matchedGlobs := MatchGlobs(path[k], globsInProgress);
      k := k + 1;
    }
    LoopExit(globs, path, k);
    ProgressDecides(globs, path);

    universal := HasUniversalGlob(globsInProgress);
    if |matchedGlobs| == 0 && |globsInProgress| != 0 && !universal {
      return true;
    }
    return false;
  }
}
