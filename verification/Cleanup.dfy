/**
  The registry cleanup: the worklist that protects the relatives of protected stages, and
  the stages that are deleted in the end.
 */
module Cleanup {
  import opened StageClosure
  import opened KeptStages

  lemma MarkedTwice(a: Protection, xs: set<Stage>, b: Protection, ys: set<Stage>, c: Protection)
    requires Marked(a, xs, b) && Marked(b, ys, c)
    ensures Marked(a, xs + ys, c)
  {
  }

  /** Whatever became protected did so for one of these reasons. */
  ghost predicate NewReasons(before: Protection, after: Protection, reasons: set<Reason>) {
    forall s :: s in after && s !in before ==> after[s] in reasons
  }

  lemma NoLabels(reg: Registry)
    ensures reg.LabelsSources([]) == {}
  {
  }

  lemma LabelsStep(reg: Registry, labels: seq<Label>, i: nat)
    requires i < |labels|
    ensures reg.LabelsSources(labels[..i + 1]) == reg.LabelsSources(labels[..i]) + reg.LabelSources(labels[i])
  {
    assert labels[..i + 1][..i] == labels[..i];
  }

  class CleanupManager {
    const stageManager: StageManager

    constructor (stageManager: StageManager)
      ensures this.stageManager == stageManager
    {
      this.stageManager := stageManager;
    }

    /** The stages of recorded import sources join the worklist and are protected. */
    method AddRecorded(ids: seq<string>, current: set<Stage>) returns (current': set<Stage>)
      modifies stageManager
      ensures current' == current + stageManager.registry.Recorded(ids)
      ensures Marked(old(stageManager.protection), stageManager.registry.Recorded(ids), stageManager.protection)
      ensures NewReasons(old(stageManager.protection), stageManager.protection, {ImportSource})
    {
      var reg := stageManager.registry;
      current' := current;
      for i := 0 to |ids|
        invariant current' == current + reg.Recorded(ids[..i])
        invariant Marked(old(stageManager.protection), reg.Recorded(ids[..i]), stageManager.protection)
        invariant NewReasons(old(stageManager.protection), stageManager.protection, {ImportSource})
      {
        assert ids[..i + 1][..i] == ids[..i];
        if External(ids[i]) {
          continue;
        }
        if ids[i] in reg.byID {
          var source := reg.byID[ids[i]];
          current' := current' + {source};
          stageManager.MarkStageAsProtected(source, ImportSource);
        }
      }
      assert ids[..|ids|] == ids;
    }

    /** The loop over the labels of a stage. */
    method AddSources(s: Stage, current: set<Stage>) returns (current': set<Stage>)
      modifies stageManager
      ensures current' == current + stageManager.registry.Sources(s)
      ensures Marked(old(stageManager.protection), stageManager.registry.Sources(s), stageManager.protection)
      ensures NewReasons(old(stageManager.protection), stageManager.protection, {ImportSource, DependencySource})
    {
      hide Registry.Recorded, Registry.LabelsSources;
      var reg := stageManager.registry;
      NoLabels(reg);
      current' := current;
      for i := 0 to |s.labels|
        invariant current' == current + reg.LabelsSources(s.labels[..i])
        invariant Marked(old(stageManager.protection), reg.LabelsSources(s.labels[..i]), stageManager.protection)
        invariant NewReasons(old(stageManager.protection), stageManager.protection, {ImportSource, DependencySource})
      {
        LabelsStep(reg, s.labels, i);
        var l, value := s.labels[i], s.labels[i].value;
        if l.ImportChecksum() {
          if value !in reg.checksumSourceStageIDs {
            continue;
          }
          current' := AddRecorded(reg.checksumSourceStageIDs[value], current');
        } else if l.DependencyStage() {
          if value in reg.byID {
            var source := reg.byID[value];
            current' := current' + {source};
            stageManager.MarkStageAsProtected(source, DependencySource);
          }
        }
      }
      assert s.labels[..|s.labels|] == s.labels;
    }

    /** The parents of a stage: the first stage with the parent's image id, and the stage
        that the label names. */
    method AddParents(s: Stage, current: set<Stage>) returns (current': set<Stage>)
      requires stageManager.registry.Valid()
      modifies stageManager
      ensures current' == current + stageManager.registry.Relatives(false, s)
      ensures Marked(old(stageManager.protection), stageManager.registry.Relatives(false, s), stageManager.protection)
      ensures NewReasons(old(stageManager.protection), stageManager.protection, {Ancestor})
    {
      var reg := stageManager.registry;
      current' := current;
      if reg.LegacyParents(s) != {} {
        var p := reg.firstParent(s);
        current' := current' + {p};
        stageManager.MarkStageAsProtected(p, Ancestor);
      }
      if s.parentStageID in reg.byID {
        var p := reg.byID[s.parentStageID];
        stageManager.MarkStageAsProtected(p, Ancestor);
        current' := current' + {p};
      }
    }

    /** One stage of the worklist that was not handled before. */
    method HandleStage(s: Stage, withSources: bool, current: set<Stage>) returns (current': set<Stage>)
      requires stageManager.registry.Valid()
      modifies stageManager
      ensures current' == current + stageManager.registry.Relatives(withSources, s)
      ensures Marked(old(stageManager.protection), stageManager.registry.Relatives(withSources, s), stageManager.protection)
      ensures NewReasons(old(stageManager.protection), stageManager.protection, {ImportSource, DependencySource, Ancestor})
    {
      hide Registry.LabelsSources, Registry.LegacyParents;
      ghost var reg, before, sources := stageManager.registry, stageManager.protection, {};
      current' := current;
      if withSources {
        current' := AddSources(s, current');
        sources := reg.Sources(s);
      }
      ghost var middle := stageManager.protection;
      current' := AddParents(s, current');
      MarkedTwice(before, sources, middle, reg.Relatives(false, s), stageManager.protection);
      assert reg.Relatives(withSources, s) == sources + reg.Relatives(false, s);
    }

    /** The platform images of an index stage; for each digest any one stage that has it. */
    method PlatformStages(target: Stage) returns (platforms: set<Stage>)
      modifies stageManager
      ensures platforms <= stageManager.registry.stages
      ensures forall p :: p in platforms ==> p.digest != "" && p.digest in target.platformDigests
      ensures PlatformsIn(stageManager.registry, target, platforms)
      ensures Marked(old(stageManager.protection), platforms, stageManager.protection)
      ensures NewReasons(old(stageManager.protection), stageManager.protection, {ImageIndexPlatform})
    {
      platforms := {};
      var digests := target.platformDigests;
      for i := 0 to |digests|
        invariant platforms <= stageManager.registry.stages
        invariant forall p :: p in platforms ==> p.digest != "" && p.digest in digests
        invariant forall j :: 0 <= j < i && digests[j] != "" && HasDigest(stageManager.registry.stages, digests[j]) ==>
                    HasDigest(platforms, digests[j])
        invariant Marked(old(stageManager.protection), platforms, stageManager.protection)
        invariant NewReasons(old(stageManager.protection), stageManager.protection, {ImageIndexPlatform})
      {
        if digests[i] == "" {
          continue;
        }
        var found := set p | p in stageManager.registry.stages && p.digest == digests[i];
        if found != {} {
          var p :| p in found;
          stageManager.MarkStageAsProtected(p, ImageIndexPlatform);
          ghost var before := platforms;
          platforms := platforms + {p};
          assert p in platforms;
          assert before <= platforms;
        }
      }
    }

    /** One pass over a snapshot of the worklist. */
    method Sweep(start: set<Stage>, withSources: bool, ghost handled0: set<Stage>, ghost protection0: Protection,
                 ghost met: set<Stage>, handled: set<Stage>, current: set<Stage>)
      returns (handled': set<Stage>, current': set<Stage>, ghost met': set<Stage>)
      requires stageManager.registry.Valid()
      requires Running(stageManager.registry, withSources, start, handled0, protection0, met, handled, stageManager.protection, current)
      modifies stageManager
      ensures Running(stageManager.registry, withSources, start, handled0, protection0, met', handled', stageManager.protection, current')
      ensures handled' == handled ==> current' == {}
      ensures handled' != handled ==> Left(stageManager.registry, start, handled') < Left(stageManager.registry, start, handled)
    {
      hide Running, Left, Registry.Relatives, Marked;
      var reg := stageManager.registry;
      var snapshot := current;
      handled', current', met' := handled, current, met;
      while snapshot != {}
        invariant Running(reg, withSources, start, handled0, protection0, met', handled', stageManager.protection, current')
        invariant snapshot <= current'
        invariant handled' == handled ==> current' == snapshot
        invariant handled' != handled ==> Left(reg, start, handled') < Left(reg, start, handled)
        decreases snapshot
      {
        var s :| s in snapshot;
        snapshot := snapshot - {s};
        ghost var before, marked, known := current', stageManager.protection, handled';
        current' := current' - {s};
        if s in handled' {
          SkipHandled(reg, withSources, start, handled0, protection0, met', handled', marked, before, s);
          continue;
        }
        handled' := handled' + {s};
        OneLess(reg, withSources, start, handled0, protection0, met', known, marked, before, s);
        current' := HandleStage(s, withSources, current');
        HandleWaiting(reg, withSources, start, handled0, protection0, met', known, marked, before, s, stageManager.protection);
        met' := met' + reg.Relatives(withSources, s);
      }
    }

    /** The worklist. It ends on every registry, cyclic ones included, and handles and
        protects exactly what is met from the start. */
    method ProtectClosure(start: set<Stage>, withSources: bool, handled: set<Stage>) returns (handled': set<Stage>)
      requires stageManager.registry.Valid()
      requires start <= stageManager.protection.Keys
      modifies stageManager
      ensures handled' == handled + Met(stageManager.registry, withSources, handled, start)
      ensures Marked(old(stageManager.protection), Met(stageManager.registry, withSources, handled, start), stageManager.protection)
    {
      hide Left, Met, Registry.Relatives;
      var reg := stageManager.registry;
      ghost var protection0, met := stageManager.protection, start;
      var current := start;
      handled' := handled;
      RunStarts(reg, withSources, start, handled, protection0);
      while current != {}
        invariant Running(reg, withSources, start, handled, protection0, met, handled', stageManager.protection, current)
        decreases Left(reg, start, handled'), current != {}
      {
        handled', current, met := Sweep(start, withSources, handled, protection0, met, handled', current);
      }
      RunEnds(reg, withSources, start, handled, protection0, met, handled', stageManager.protection);
    }

    /** protectRelativeStageDescSetByStageDesc, for a protected stage: an index stage is
        replaced by its platform images. */
    method ProtectRelatives(target: Stage, withSources: bool, handled: set<Stage>)
      returns (handled': set<Stage>, ghost start: set<Stage>)
      requires stageManager.registry.Valid()
      requires target in stageManager.protection
      modifies stageManager
      ensures IsStart(stageManager.registry, target, start)
      ensures handled' == handled + Met(stageManager.registry, withSources, handled, start)
      ensures Marked(old(stageManager.protection), Met(stageManager.registry, withSources, handled, start), stageManager.protection)
    {
      hide Met;
      var targets: set<Stage> := {};
      if target.isIndex {
        targets := PlatformStages(target);
      } else {
        targets := {target};
      }
      start := targets;
      StartMet(stageManager.registry, withSources, handled, start);
      handled' := ProtectClosure(targets, withSources, handled);
    }

    /** The relatives of all stages that are protected so far, visited in any order, with one
        set of handled stages for all runs. Stages kept by the git policy do not keep their
        sources. `starts` are the stages that the runs started from. */
    method ProtectAllRelatives(order: seq<(Stage, Reason)>) returns (handled: set<Stage>, ghost starts: seq<set<Stage>>)
      requires stageManager.registry.Valid()
      requires Enumerates(order, stageManager.protection)
      modifies stageManager
      ensures AreStarts(stageManager.registry, order, starts)
      ensures handled == Kept(stageManager.registry, order, starts)
      ensures Marked(old(stageManager.protection), handled, stageManager.protection)
    {
      hide Met, IsStart, Enumerates, Registry.Valid;
      var reg := stageManager.registry;
      ghost var protection0 := stageManager.protection;
      handled, starts := {}, [];
      for k := 0 to |order|
        invariant |starts| == k && forall i :: 0 <= i < k ==> IsStart(reg, order[i].0, starts[i])
        invariant handled == HandledAfter(reg, order, starts, k)
        invariant Marked(protection0, handled, stageManager.protection)
      {
        ghost var start;
        OrderEntry(order, protection0, k);
        handled, start := ProtectRelatives(order[k].0, WithSources(order[k].1), handled);
        HandledAfterSame(reg, order, starts, start, k);
        starts := starts + [start];
      }
    }

    /** The stages that cleanupUnusedStages deletes: all but those that were protected and
        those that the runs keep. In any order, no parent of a protected stage other than an
        index stage is deleted, and no index stage loses all platform images of a digest;
        with the git policy last, no source is deleted of a stage that a run with sources
        meets. */
    method StagesToDelete(order: seq<(Stage, Reason)>) returns (toDelete: set<Stage>, ghost starts: seq<set<Stage>>)
      requires stageManager.registry.Valid()
      requires Enumerates(order, stageManager.protection)
      modifies stageManager
      ensures AreStarts(stageManager.registry, order, starts)
      ensures toDelete == stageManager.registry.stages -
                          (old(stageManager.protection).Keys + Kept(stageManager.registry, order, starts))
      ensures stageManager.protection.Keys == old(stageManager.protection).Keys + Kept(stageManager.registry, order, starts)
      ensures forall s :: s in stageManager.protection && (!s.isIndex || s !in old(stageManager.protection)) ==>
                ParentsStay(stageManager.registry, s, toDelete)
      ensures forall s :: s in old(stageManager.protection) && s.isIndex ==>
                PlatformsIn(stageManager.registry, s, stageManager.registry.stages - toDelete)
      ensures GitPolicyLast(order) ==> forall s :: s in Promised(stageManager.registry, order, starts) ==>
                SourcesStay(stageManager.registry, s, toDelete)
      ensures GitPolicyLast(order) ==> forall i :: 0 <= i < |order| && order[i].1 != GitPolicy && !order[i].0.isIndex ==>
                SourcesStay(stageManager.registry, order[i].0, toDelete)
    {
      hide Kept, Registry.Valid, Registry.Relatives, Registry.Sources, Promised, Enumerates, PlatformsIn, IsSource, ParentsStay;
      ghost var reg, protection0 := stageManager.registry, stageManager.protection;
      var handled;
      handled, starts := ProtectAllRelatives(order);
      toDelete := stageManager.registry.stages - stageManager.protection.Keys;
      ParentsKept(reg, order, starts, protection0);
      forall s | s in protection0 && s.isIndex ensures PlatformsIn(reg, s, reg.stages - toDelete) {
        PlatformsKept(reg, order, starts, protection0, s, reg.stages - toDelete);
      }
      forall s | s in stageManager.protection && (!s.isIndex || s !in protection0) ensures ParentsStay(reg, s, toDelete) {
        ParentsStayKept(reg, s, toDelete, stageManager.protection.Keys);
      }
      if GitPolicyLast(order) {
        SourcesKept(reg, order, starts);
        forall s | s in Promised(reg, order, starts) ensures SourcesStay(reg, s, toDelete) {
          forall x | IsSource(reg, s, x) ensures x !in toDelete { SourcesAre(reg, s, x); }
        }
        forall i | 0 <= i < |order| && order[i].1 != GitPolicy && !order[i].0.isIndex ensures SourcesStay(reg, order[i].0, toDelete) {
          ProtectedArePromised(reg, order, starts, i);
        }
      }
    }
  }

  /** Neither the parent that a label names is deleted, nor all stages with the image id that is
      given as the parent's. */
  ghost predicate ParentsStay(reg: Registry, s: Stage, toDelete: set<Stage>) {
    && (s.parentStageID in reg.byID ==> reg.byID[s.parentStageID] !in toDelete)
    && ((exists p :: p in reg.stages && p.infoID == s.parentID) ==>
          exists p :: p in reg.stages && p.infoID == s.parentID && p !in toDelete)
  }

  /** No source of the stage is deleted. */
  ghost predicate SourcesStay(reg: Registry, s: Stage, toDelete: set<Stage>) {
    forall x :: IsSource(reg, s, x) ==> x !in toDelete
  }

  /** Entry `i` is a stage, not an index, that is protected for another reason than the git
      policy. */
  predicate KeepsSources(order: seq<(Stage, Reason)>, i: nat)
    requires i < |order|
  {
    order[i].1 != GitPolicy && !order[i].0.isIndex
  }

  /** Such a stage is met with its sources. */
  lemma ProtectedArePromised(reg: Registry, order: seq<(Stage, Reason)>, starts: seq<set<Stage>>, i: nat)
    requires AreStarts(reg, order, starts)
    requires i < |order| && KeepsSources(order, i)
    ensures order[i].0 in Promised(reg, order, starts)
  {
    hide Met;
    assert IsStart(reg, order[i].0, starts[i]) && starts[i] == {order[i].0};
    assert order[i].0 in StartsOf(order, starts, true);
    StartMet(reg, true, {}, StartsOf(order, starts, true));
  }

  lemma ParentsStayKept(reg: Registry, s: Stage, toDelete: set<Stage>, kept: set<Stage>)
    requires reg.Valid()
    requires reg.Relatives(false, s) <= kept && toDelete == reg.stages - kept
    ensures ParentsStay(reg, s, toDelete)
  {
    if s.parentStageID in reg.byID { ParentsAre(reg, s, reg.byID[s.parentStageID]); }
    ParentsAre(reg, s, s);
  }

  /** The stages that a run may still handle. */
  ghost function Left(reg: Registry, start: set<Stage>, handled: set<Stage>): nat {
    |(reg.stages + start) - handled|
  }

  lemma OneLess(reg: Registry, withSources: bool, start: set<Stage>, handled0: set<Stage>, protection0: Protection,
                met: set<Stage>, handled: set<Stage>, protection: Protection, current: set<Stage>, s: Stage)
    requires Running(reg, withSources, start, handled0, protection0, met, handled, protection, current)
    requires s in current && s !in handled
    ensures Left(reg, start, handled + {s}) < Left(reg, start, handled)
  {
    hide Reached, Marked, Registry.Relatives;
    assert s in Met(reg, withSources, handled0, start);
    assert (reg.stages + start) - (handled + {s}) == ((reg.stages + start) - handled) - {s};
  }
}
