/**
  Whether the order of the runs of a cleanup can matter: what is kept in the worst of all
  orders, and when that is all that is wanted.
 */
module StageOrder {
  import opened StageClosure
  import opened KeptStages

  /** What the runs without sources meet by themselves. */
  ghost function ByGit(reg: Registry, order: seq<(Stage, Reason)>, starts: seq<set<Stage>>): set<Stage>
    requires |starts| == |order|
  {
    Met(reg, false, {}, StartsOf(order, starts, false))
  }

  /** That, and what the others meet when all of that was handled before. */
  ghost function Least(reg: Registry, order: seq<(Stage, Reason)>, starts: seq<set<Stage>>): set<Stage>
    requires |starts| == |order|
  {
    ByGit(reg, order, starts) + Met(reg, true, ByGit(reg, order, starts), StartsOf(order, starts, true))
  }

  lemma {:induction false} WithoutSourcesByGit(reg: Registry, order: seq<(Stage, Reason)>, starts: seq<set<Stage>>, k: nat)
    requires reg.Valid() && k <= |order| == |starts|
    ensures WithoutSources(reg, order, starts, k) <= ByGit(reg, order, starts)
  {
    hide Met, Registry.Valid;
    if k > 0 {
      WithoutSourcesByGit(reg, order, starts, k - 1);
      if !WithSources(order[k - 1].1) {
        MetMore(reg, false, HandledAfter(reg, order, starts, k - 1), starts[k - 1], false, {}, StartsOf(order, starts, false));
      }
    }
  }

  /** No order keeps less. */
  lemma LeastIsKept(reg: Registry, order: seq<(Stage, Reason)>, starts: seq<set<Stage>>)
    requires reg.Valid() && |starts| == |order|
    ensures Least(reg, order, starts) <= Kept(reg, order, starts)
  {
    KeptSoFar(reg, order, starts, |order|);
    WithoutSourcesByGit(reg, order, starts, |order|);
    hide Met, Registry.Valid, Registry.Relatives, HandledAfter, WithoutSources, Wanted;
    ClosedHoldsMet(reg, false, {}, StartsOf(order, starts, false), Kept(reg, order, starts));
    ClosedHoldsMet(reg, true, ByGit(reg, order, starts), StartsOf(order, starts, true), Kept(reg, order, starts));
  }

  predicate GitPolicyFirst(order: seq<(Stage, Reason)>) {
    forall i, j :: 0 <= i < j < |order| && order[j].1 == GitPolicy ==> order[i].1 == GitPolicy
  }

  lemma {:induction false} GitPolicyFirstSoFar(reg: Registry, order: seq<(Stage, Reason)>, starts: seq<set<Stage>>, k: nat)
    requires reg.Valid() && k <= |order| == |starts|
    requires GitPolicyFirst(order)
    ensures HandledAfter(reg, order, starts, k) <= Least(reg, order, starts)
  {
    hide Met, Registry.Valid, Registry.Relatives;
    if k > 0 {
      GitPolicyFirstSoFar(reg, order, starts, k - 1);
      var known, git := HandledAfter(reg, order, starts, k - 1), StartsOf(order, starts, false);
      if WithSources(order[k - 1].1) {
        KeptSoFar(reg, order, starts, k - 1);
        ClosedHoldsMet(reg, false, {}, git, known);
        MetMore(reg, true, known, starts[k - 1], true, ByGit(reg, order, starts), StartsOf(order, starts, true));
      } else {
        MetMore(reg, false, known, starts[k - 1], false, {}, git);
      }
    }
  }

  /** With the git policy first nothing more is kept. */
  lemma GitPolicyFirstKeepsLeast(reg: Registry, order: seq<(Stage, Reason)>, starts: seq<set<Stage>>)
    requires reg.Valid() && |starts| == |order|
    requires GitPolicyFirst(order)
    ensures Kept(reg, order, starts) == Least(reg, order, starts)
  {
    GitPolicyFirstSoFar(reg, order, starts, |order|);
    LeastIsKept(reg, order, starts);
  }

  /** The stages of one reason are visited one after another. */
  predicate ByReason(order: seq<(Stage, Reason)>) {
    forall i, j, k :: 0 <= i < j < k < |order| && order[i].1 == order[k].1 ==> order[j].1 == order[i].1
  }

  /** The same runs in the order given by `places`. */
  ghost predicate Rearranged(order: seq<(Stage, Reason)>, starts: seq<set<Stage>>,
                             order': seq<(Stage, Reason)>, starts': seq<set<Stage>>, places: seq<nat>)
  {
    && |order| == |starts| == |order'| == |starts'| == |places|
    && (forall i :: 0 <= i < |places| ==> places[i] < |order| && order'[i] == order[places[i]] && starts'[i] == starts[places[i]])
    && (forall j :: 0 <= j < |order| ==> j in places)
  }

  lemma RearrangedStarts(order: seq<(Stage, Reason)>, starts: seq<set<Stage>>,
                         order': seq<(Stage, Reason)>, starts': seq<set<Stage>>, places: seq<nat>, withSources: bool)
    requires Rearranged(order, starts, order', starts', places)
    ensures StartsOf(order', starts', withSources) == StartsOf(order, starts, withSources)
  {
    forall s | s in StartsOf(order, starts, withSources) ensures s in StartsOf(order', starts', withSources) {
      var j :| 0 <= j < |order| && s in starts[j] && (order[j].1 != GitPolicy) == withSources;
      assert j in places;
      var i :| 0 <= i < |places| && places[i] == j;
      assert s in starts'[i];
    }
  }

  /** The places of the runs with, or without, sources, in their order. */
  function Places(order: seq<(Stage, Reason)>, withSources: bool, k: nat): seq<nat>
    requires k <= |order|
  {
    if k == 0 then []
    else Places(order, withSources, k - 1) + if WithSources(order[k - 1].1) == withSources then [k - 1] else []
  }

  lemma {:induction false} PlacesAre(order: seq<(Stage, Reason)>, withSources: bool, k: nat)
    requires k <= |order|
    ensures forall j: nat :: j in Places(order, withSources, k) <==> j < k && WithSources(order[j].1) == withSources
    ensures forall a, b :: 0 <= a < b < |Places(order, withSources, k)| ==>
              Places(order, withSources, k)[a] < Places(order, withSources, k)[b]
  {
    if k > 0 {
      PlacesAre(order, withSources, k - 1);
      var before := Places(order, withSources, k - 1);
      assert forall b :: 0 <= b < |before| ==> before[b] in before;
    }
  }

  lemma {:induction false} PlacesCount(order: seq<(Stage, Reason)>, k: nat)
    requires k <= |order|
    ensures |Places(order, true, k)| + |Places(order, false, k)| == k
  {
    if k > 0 { PlacesCount(order, k - 1); }
  }

  /** The places of the runs without sources, and after them those of the others. */
  function GitPlaces(order: seq<(Stage, Reason)>): seq<nat> {
    Places(order, false, |order|) + Places(order, true, |order|)
  }

  lemma GitPlacesAre(order: seq<(Stage, Reason)>)
    ensures var places, git := GitPlaces(order), |Places(order, false, |order|)|;
            && |places| == |order|
            && git <= |order|
            && (forall j: nat :: j in places <==> j < |order|)
            && (forall i :: 0 <= i < |places| ==> places[i] < |order| && (WithSources(order[places[i]].1) <==> i >= git))
            && (forall a, b :: 0 <= a < b < |places| && (b < git || a >= git) ==> places[a] < places[b])
  {
    hide Places, WithSources;
    var git, others := Places(order, false, |order|), Places(order, true, |order|);
    PlacesCount(order, |order|);
    PlacesAre(order, false, |order|);
    PlacesAre(order, true, |order|);
    forall i | 0 <= i < |git + others|
      ensures var j := (git + others)[i]; j < |order| && (WithSources(order[j].1) <==> i >= |git|)
    {
      if i < |git| { assert git[i] in git; } else { assert others[i - |git|] in others; }
    }
  }

  /** Any visit by reasons can be rearranged into one by reasons with the git policy first. */
  lemma GitPolicyMovedFirst(order: seq<(Stage, Reason)>, starts: seq<set<Stage>>)
    returns (order': seq<(Stage, Reason)>, starts': seq<set<Stage>>, places: seq<nat>)
    requires |starts| == |order| && ByReason(order)
    ensures Rearranged(order, starts, order', starts', places)
    ensures ByReason(order') && GitPolicyFirst(order')
  {
    hide GitPlaces, Places;
    var n, git := |order|, |Places(order, false, |order|)|;
    places := GitPlaces(order);
    GitPlacesAre(order);
    var o := seq(n, i requires 0 <= i < n => order[places[i]]);
    order', starts' := o, seq(n, i requires 0 <= i < n => starts[places[i]]);
    forall i, j, k | 0 <= i < j < k < n && o[i].1 == o[k].1 ensures o[j].1 == o[i].1 {
      SameSide(order, places, git, i, j, k);
    }
  }

  lemma SameSide(order: seq<(Stage, Reason)>, places: seq<nat>, git: nat, i: nat, j: nat, k: nat)
    requires ByReason(order) && |places| == |order| && i < j < k < |order|
    requires forall a :: 0 <= a < |places| ==> places[a] < |order| && (WithSources(order[places[a]].1) <==> a >= git)
    requires forall a, b :: 0 <= a < b < |places| && (b < git || a >= git) ==> places[a] < places[b]
    requires order[places[i]].1 == order[places[k]].1
    ensures order[places[j]].1 == order[places[i]].1
  {
    hide WithSources;
    assert i >= git <==> k >= git;
    assert places[i] < places[j] < places[k];
  }

  /** Nothing that is wanted is deleted. */
  ghost predicate NothingLost(reg: Registry, order: seq<(Stage, Reason)>, starts: seq<set<Stage>>, protection: Protection)
    requires |starts| == |order|
  {
    Wanted(reg, order, starts) <= protection.Keys + Kept(reg, order, starts)
  }

  /** What can be said of the registry and of the protected stages before any run: a stage that
      the git policy keeps by its parents, or that is protected but met by no run, has its
      parents and sources kept even in the worst case, if a run with sources should meet it. */
  ghost predicate OrderCannotMatter(reg: Registry, order: seq<(Stage, Reason)>, starts: seq<set<Stage>>, protection: Protection)
    requires |starts| == |order|
  {
    var least := Least(reg, order, starts);
    forall s :: s in Promised(reg, order, starts) && (s in ByGit(reg, order, starts) || (s in protection && s !in least)) ==>
      reg.Relatives(true, s) <= least + protection.Keys
  }

  lemma LeastIsEnough(reg: Registry, order: seq<(Stage, Reason)>, starts: seq<set<Stage>>, protection: Protection)
    requires reg.Valid() && |starts| == |order|
    ensures Wanted(reg, order, starts) <= Least(reg, order, starts) + protection.Keys <==>
            OrderCannotMatter(reg, order, starts, protection)
  {
    hide Met, Registry.Valid, Registry.Relatives;
    var git, others := ByGit(reg, order, starts), StartsOf(order, starts, true);
    RunKeepsSources(reg, git, others, protection.Keys);
    assert git + Met(reg, true, git, others) + protection.Keys == Least(reg, order, starts) + protection.Keys;
  }

  /** Nothing wanted is deleted in any order of the runs, stages of one reason visited one
      after another, if and only if the registry and the protected stages are such that the
      order cannot matter. */
  lemma EveryOrderKeepsAll(reg: Registry, order: seq<(Stage, Reason)>, starts: seq<set<Stage>>, protection: Protection)
    requires reg.Valid() && |starts| == |order| && ByReason(order)
    ensures (forall order', starts', places :: Rearranged(order, starts, order', starts', places) && ByReason(order') ==>
               NothingLost(reg, order', starts', protection)) <==>
            OrderCannotMatter(reg, order, starts, protection)
  {
    hide Met, Registry.Valid, Registry.Relatives, OrderCannotMatter, HandledAfter, StartsOf, ByReason, GitPolicyFirst;
    LeastIsEnough(reg, order, starts, protection);
    forall order', starts', places | Rearranged(order, starts, order', starts', places)
      ensures Least(reg, order', starts') == Least(reg, order, starts) <= Kept(reg, order', starts')
      ensures Wanted(reg, order', starts') == Wanted(reg, order, starts)
    {
      RearrangedStarts(order, starts, order', starts', places, true);
      RearrangedStarts(order, starts, order', starts', places, false);
      LeastIsKept(reg, order', starts');
    }
    var order', starts', places := GitPolicyMovedFirst(order, starts);
    GitPolicyFirstKeepsLeast(reg, order', starts');
    assert NothingLost(reg, order', starts', protection) <==>
           Wanted(reg, order, starts) <= Least(reg, order, starts) + protection.Keys;
  }
}
