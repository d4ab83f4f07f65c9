/**
  What a whole cleanup keeps. Its runs share one set of handled stages, but only some of them
  follow sources, so the order in which the protected stages are visited matters: what one
  run handled without sources, a later run with sources does not look at again.
 */
module KeptStages {
  import opened StageClosure

  ghost predicate HasDigest(stages: set<Stage>, digest: string) {
    exists p :: p in stages && p.digest == digest
  }

  /** For every digest of the index stage that any stage has, one of `stages` has it. */
  ghost predicate PlatformsIn(reg: Registry, target: Stage, stages: set<Stage>) {
    forall d :: d in target.platformDigests && d != "" && HasDigest(reg.stages, d) ==> HasDigest(stages, d)
  }

  /** What a run starts from: the target, or platform images that it lists, one at least for
      every digest that has any. */
  ghost predicate IsStart(reg: Registry, target: Stage, start: set<Stage>) {
    if target.isIndex then
      && start <= reg.stages
      && (forall p :: p in start ==> p.digest != "" && p.digest in target.platformDigests)
      && PlatformsIn(reg, target, start)
    else
      start == {target}
  }

  // ----- All runs of a cleanup

  /** The order in which the protected stages are visited: each of them, with its reason. */
  ghost predicate Enumerates(order: seq<(Stage, Reason)>, protection: Protection) {
    && (forall i :: 0 <= i < |order| ==> order[i].0 in protection && protection[order[i].0] == order[i].1)
    && (forall s :: s in protection ==> exists i :: 0 <= i < |order| && order[i].0 == s)
  }

  lemma OrderEntry(order: seq<(Stage, Reason)>, protection: Protection, k: nat)
    requires Enumerates(order, protection) && k < |order|
    ensures order[k].0 in protection
  {
  }

  /** Stages kept by the git policy do not keep their sources. */
  predicate WithSources(reason: Reason) {
    reason != GitPolicy
  }

  ghost predicate AreStarts(reg: Registry, order: seq<(Stage, Reason)>, starts: seq<set<Stage>>) {
    |starts| == |order| && forall i :: 0 <= i < |order| ==> IsStart(reg, order[i].0, starts[i])
  }

  /** The stages handled by the first `k` runs: each meets what it can past the stages that
      were handled before it. */
  ghost function HandledAfter(reg: Registry, order: seq<(Stage, Reason)>, starts: seq<set<Stage>>, k: nat): set<Stage>
    requires k <= |order| && k <= |starts|
  {
    if k == 0 then {}
    else
      var handled := HandledAfter(reg, order, starts, k - 1);
      handled + Met(reg, WithSources(order[k - 1].1), handled, starts[k - 1])
  }

  ghost function Kept(reg: Registry, order: seq<(Stage, Reason)>, starts: seq<set<Stage>>): set<Stage>
    requires |starts| == |order|
  {
    HandledAfter(reg, order, starts, |order|)
  }

  lemma {:induction false} HandledAfterSame(reg: Registry, order: seq<(Stage, Reason)>, starts: seq<set<Stage>>, start: set<Stage>, k: nat)
    requires k <= |order| && k <= |starts|
    ensures HandledAfter(reg, order, starts + [start], k) == HandledAfter(reg, order, starts, k)
  {
    hide Met;
    if k > 0 { HandledAfterSame(reg, order, starts, start, k - 1); }
  }

  // ----- What is kept, and what is wanted

  /** Where the runs that follow sources start, or those that do not. */
  ghost function StartsOf(order: seq<(Stage, Reason)>, starts: seq<set<Stage>>, withSources: bool): set<Stage>
    requires |starts| == |order|
  {
    set i, s | 0 <= i < |order| && s in starts[i] && (order[i].1 != GitPolicy) == withSources :: s
  }

  /** What the runs that follow sources would keep if nothing had been handled before. */
  ghost function Promised(reg: Registry, order: seq<(Stage, Reason)>, starts: seq<set<Stage>>): set<Stage>
    requires |starts| == |order|
  {
    Met(reg, true, {}, StartsOf(order, starts, true))
  }

  /** What all runs would keep if each had a set of handled stages of its own. */
  ghost function Wanted(reg: Registry, order: seq<(Stage, Reason)>, starts: seq<set<Stage>>): set<Stage>
    requires |starts| == |order|
  {
    Promised(reg, order, starts) + Met(reg, false, {}, StartsOf(order, starts, false))
  }

  /** The stages that were handled in the first `k` runs without following sources. */
  ghost function WithoutSources(reg: Registry, order: seq<(Stage, Reason)>, starts: seq<set<Stage>>, k: nat): set<Stage>
    requires k <= |order| && k <= |starts|
  {
    if k == 0 then {}
    else
      WithoutSources(reg, order, starts, k - 1) +
      if WithSources(order[k - 1].1) then {}
      else HandledAfter(reg, order, starts, k) - HandledAfter(reg, order, starts, k - 1)
  }

  /** After any number of runs: what was handled has its parents handled and, if it was
      handled in a run with sources, its sources too; and it is wanted. */
  ghost predicate SoFar(reg: Registry, order: seq<(Stage, Reason)>, starts: seq<set<Stage>>, k: nat)
    requires k <= |order| == |starts|
  {
    var handled := HandledAfter(reg, order, starts, k);
    && (forall i :: 0 <= i < k ==> starts[i] <= handled)
    && handled <= Wanted(reg, order, starts)
    && WithoutSources(reg, order, starts, k) <= handled
    && (forall s :: s in handled ==> reg.Relatives(false, s) <= handled)
    && (forall s :: s in handled && s !in WithoutSources(reg, order, starts, k) ==> reg.Relatives(true, s) <= handled)
  }

  lemma RunMeetsWanted(reg: Registry, order: seq<(Stage, Reason)>, starts: seq<set<Stage>>, k: nat, closed: set<Stage>)
    requires reg.Valid() && k < |order| == |starts|
    ensures Met(reg, WithSources(order[k].1), closed, starts[k]) <= Wanted(reg, order, starts)
  {
    var withSources := WithSources(order[k].1);
    MetMore(reg, withSources, closed, starts[k], withSources, {}, StartsOf(order, starts, withSources));
  }

  /** A run keeps sets of stages closed under relatives, as far as it follows them itself. */
  lemma RunStaysClosed(reg: Registry, withSources: bool, closed: set<Stage>, start: set<Stage>)
    requires reg.Valid()
    ensures forall s :: s in Met(reg, withSources, closed, start) && s !in closed ==>
              && reg.Relatives(withSources, s) <= Met(reg, withSources, closed, start)
              && reg.Relatives(false, s) <= reg.Relatives(withSources, s)
  {
    hide Met;
    forall s | s in Met(reg, withSources, closed, start) && s !in closed
      ensures reg.Relatives(withSources, s) <= Met(reg, withSources, closed, start)
    {
      RelativesMet(reg, withSources, closed, start, s);
    }
  }

  lemma {:induction false} KeptSoFar(reg: Registry, order: seq<(Stage, Reason)>, starts: seq<set<Stage>>, k: nat)
    requires reg.Valid() && k <= |order| == |starts|
    ensures SoFar(reg, order, starts, k)
  {
    hide Met, Wanted, Registry.Relatives, Registry.Valid;
    if k > 0 {
      KeptSoFar(reg, order, starts, k - 1);
      var known, withSources := HandledAfter(reg, order, starts, k - 1), WithSources(order[k - 1].1);
      StartMet(reg, withSources, known, starts[k - 1]);
      RunMeetsWanted(reg, order, starts, k - 1, known);
      RunStaysClosed(reg, withSources, known, starts[k - 1]);
    }
  }

  /** No order keeps more than what is wanted, and an order keeps all of it exactly when every
      stage that was handled without sources, although a run with sources should have met
      it, has its sources kept on another way. */
  lemma KeptIsWanted(reg: Registry, order: seq<(Stage, Reason)>, starts: seq<set<Stage>>)
    requires reg.Valid() && |starts| == |order|
    ensures Kept(reg, order, starts) <= Wanted(reg, order, starts)
    ensures Kept(reg, order, starts) == Wanted(reg, order, starts) <==>
            forall s :: s in WithoutSources(reg, order, starts, |order|) && s in Promised(reg, order, starts) ==>
              reg.Sources(s) <= Kept(reg, order, starts)
  {
    KeptSoFar(reg, order, starts, |order|);
    var kept, promised := Kept(reg, order, starts), Promised(reg, order, starts);
    hide Met, Registry.Valid, Registry.Sources;
    ClosedHoldsMet(reg, false, {}, StartsOf(order, starts, false), kept);
    if forall s :: s in WithoutSources(reg, order, starts, |order|) && s in promised ==> reg.Sources(s) <= kept {
      ClosedHoldsMet(reg, true, {}, StartsOf(order, starts, true), kept);
    }
    if promised <= kept {
      forall s | s in promised ensures reg.Sources(s) <= kept {
        RelativesMet(reg, true, {}, StartsOf(order, starts, true), s);
      }
    }
  }

  predicate GitPolicyLast(order: seq<(Stage, Reason)>) {
    forall i, j :: 0 <= i < j < |order| && order[i].1 == GitPolicy ==> order[j].1 == GitPolicy
  }

  /** With the git policy last, the runs with sources come to an end before anything is
      handled without. */
  lemma {:induction false} PromisedFirst(reg: Registry, order: seq<(Stage, Reason)>, starts: seq<set<Stage>>, k: nat)
    requires reg.Valid() && k <= |order| == |starts|
    requires GitPolicyLast(order)
    ensures (forall i :: 0 <= i < k ==> WithSources(order[i].1)) ==> WithoutSources(reg, order, starts, k) == {}
    ensures !(forall i :: 0 <= i < k ==> WithSources(order[i].1)) ==>
              && Promised(reg, order, starts) <= HandledAfter(reg, order, starts, k)
              && WithoutSources(reg, order, starts, k) !! Promised(reg, order, starts)
  {
    hide Met, Registry.Valid, Registry.Relatives;
    if k > 0 {
      PromisedFirst(reg, order, starts, k - 1);
      if !WithSources(order[k - 1].1) && forall i :: 0 <= i < k - 1 ==> WithSources(order[i].1) {
        KeptSoFar(reg, order, starts, k - 1);
        var start, handled := StartsOf(order, starts, true), HandledAfter(reg, order, starts, k - 1);
        assert start <= handled;
        ClosedHoldsMet(reg, true, {}, start, handled);
      }
    }
  }

  /** With the git policy last, all that is wanted is kept. */
  lemma GitPolicyLastKeepsAll(reg: Registry, order: seq<(Stage, Reason)>, starts: seq<set<Stage>>)
    requires reg.Valid() && |starts| == |order|
    requires GitPolicyLast(order)
    ensures Kept(reg, order, starts) == Wanted(reg, order, starts)
  {
    hide Met, Registry.Valid, Wanted, Promised, HandledAfter;
    PromisedFirst(reg, order, starts, |order|);
    KeptIsWanted(reg, order, starts);
  }

  lemma StartsKept(reg: Registry, order: seq<(Stage, Reason)>, starts: seq<set<Stage>>, i: nat)
    requires reg.Valid() && |starts| == |order| && i < |order|
    ensures starts[i] <= Kept(reg, order, starts)
  {
    KeptSoFar(reg, order, starts, |order|);
  }

  /** In any order, every protected stage but index stages is kept, and what is kept has its
      parents kept. */
  lemma ParentsKept(reg: Registry, order: seq<(Stage, Reason)>, starts: seq<set<Stage>>, protection: Protection)
    requires reg.Valid()
    requires Enumerates(order, protection) && AreStarts(reg, order, starts)
    ensures forall s :: s in protection && !s.isIndex ==> s in Kept(reg, order, starts)
    ensures forall s :: s in Kept(reg, order, starts) ==> reg.Relatives(false, s) <= Kept(reg, order, starts)
  {
    KeptSoFar(reg, order, starts, |order|);
    hide Kept, Registry.Relatives, Registry.Valid, SoFar;
    forall s | s in protection && !s.isIndex ensures s in Kept(reg, order, starts) {
      var i :| 0 <= i < |order| && order[i].0 == s;
      StartsKept(reg, order, starts, i);
      assert starts[i] == {s};
    }
  }

  /** In any order, an index stage keeps a platform image for every digest that has one. */
  lemma PlatformsKept(reg: Registry, order: seq<(Stage, Reason)>, starts: seq<set<Stage>>, protection: Protection,
                      s: Stage, stages: set<Stage>)
    requires reg.Valid()
    requires Enumerates(order, protection) && AreStarts(reg, order, starts)
    requires s in protection && s.isIndex
    requires Kept(reg, order, starts) * reg.stages <= stages
    ensures PlatformsIn(reg, s, stages)
  {
    hide Kept, Registry.Valid;
    var i :| 0 <= i < |order| && order[i].0 == s;
    StartsKept(reg, order, starts, i);
    assert IsStart(reg, s, starts[i]);
    forall d | HasDigest(starts[i], d) ensures HasDigest(stages, d) {
      var p :| p in starts[i] && p.digest == d;
      assert p in stages;
    }
  }

  /** With the git policy last, what runs with sources meet keeps its sources. */
  lemma SourcesKept(reg: Registry, order: seq<(Stage, Reason)>, starts: seq<set<Stage>>)
    requires reg.Valid() && |starts| == |order|
    requires GitPolicyLast(order)
    ensures forall s :: s in Promised(reg, order, starts) ==> reg.Sources(s) <= Kept(reg, order, starts)
  {
    hide Met, Registry.Valid, Registry.Sources, Kept;
    GitPolicyLastKeepsAll(reg, order, starts);
    forall s | s in Promised(reg, order, starts) ensures reg.Sources(s) <= Kept(reg, order, starts) {
      RelativesMet(reg, true, {}, StartsOf(order, starts, true), s);
    }
  }
}
