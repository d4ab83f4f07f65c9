/**
  The order in which protected stages are visited decides what is kept: one registry, cleaned
  up in two orders.
 */
module CleanupOrder {
  import opened StageClosure
  import opened KeptStages
  import opened Cleanup

  const SOURCE := Stage("source", "i0", "none", "", false, [], [], "")
  const KEPT_BY_GIT := Stage("base", "i1", "none", "", false, [], [Label("werf-dependency-stage-id-0", "source")], "")
  const DEPLOYED := Stage("top", "i2", "none", "", false, [], [], "base")

  /** A deployed stage, its parent, which the git policy keeps, and a source of the parent. */
  const THREE_STAGES := Registry(
    {SOURCE, KEPT_BY_GIT, DEPLOYED},
    map["source" := SOURCE, "base" := KEPT_BY_GIT, "top" := DEPLOYED],
    map[],
    (s: Stage) => if s.parentID == "i0" then SOURCE else if s.parentID == "i1" then KEPT_BY_GIT else DEPLOYED)

  const BOTH_KEPT: Protection := map[KEPT_BY_GIT := GitPolicy, DEPLOYED := KubernetesBasedPolicy]

  const GIT_FIRST := [(KEPT_BY_GIT, GitPolicy), (DEPLOYED, KubernetesBasedPolicy)]
  const GIT_LAST := [(DEPLOYED, KubernetesBasedPolicy), (KEPT_BY_GIT, GitPolicy)]

  lemma RelativesOfThree()
    ensures THREE_STAGES.Relatives(false, KEPT_BY_GIT) == {}
    ensures THREE_STAGES.Relatives(true, DEPLOYED) == {KEPT_BY_GIT}
    ensures THREE_STAGES.Sources(KEPT_BY_GIT) == {SOURCE}
  {
    var reg := THREE_STAGES;
    assert reg.LegacyParents(KEPT_BY_GIT) == {} && reg.LegacyParents(DEPLOYED) == {};
    var labels := KEPT_BY_GIT.labels;
    assert labels[..|labels| - 1] == [];
    assert reg.LabelsSources([]) == {};
    assert labels[0].DependencyStage() && labels[0].key[5] != IMPORT_CHECKSUM_PREFIX[5];
    assert reg.Named("") == {} && reg.Named("base") == {KEPT_BY_GIT};
  }

  lemma ThreeStagesValid()
    ensures THREE_STAGES.Valid()
  {
    var reg := THREE_STAGES;
    forall s | reg.LegacyParents(s) != {} ensures reg.firstParent(s) in reg.LegacyParents(s) {
      var p :| p in reg.LegacyParents(s);
      assert p == SOURCE || p == KEPT_BY_GIT || p == DEPLOYED;
    }
  }

  /** The run of the deployed stage stops at its parent, which was handled without sources. */
  lemma KeptGitFirst(starts: seq<set<Stage>>)
    requires AreStarts(THREE_STAGES, GIT_FIRST, starts)
    ensures SOURCE !in Kept(THREE_STAGES, GIT_FIRST, starts)
  {
    hide Met, Registry.Relatives, Registry.Valid;
    var reg, first := THREE_STAGES, HandledAfter(THREE_STAGES, GIT_FIRST, starts, 1);
    ThreeStagesValid();
    RelativesOfThree();
    assert starts[0] == {KEPT_BY_GIT} && starts[1] == {DEPLOYED};
    StartMet(reg, false, {}, starts[0]);
    ClosedHoldsMet(reg, false, {}, starts[0], {KEPT_BY_GIT});
    assert HandledAfter(reg, GIT_FIRST, starts, 0) == {} && !WithSources(GIT_FIRST[0].1);
    assert first == {} + Met(reg, false, {}, starts[0]) == {KEPT_BY_GIT};
    ClosedHoldsMet(reg, true, first, starts[1], {KEPT_BY_GIT, DEPLOYED});
  }

  lemma PromisedGitLast(starts: seq<set<Stage>>)
    requires AreStarts(THREE_STAGES, GIT_LAST, starts)
    ensures KEPT_BY_GIT in Promised(THREE_STAGES, GIT_LAST, starts)
  {
    hide Met, Registry.Relatives, Registry.Valid;
    var reg, start := THREE_STAGES, StartsOf(GIT_LAST, starts, true);
    ThreeStagesValid();
    RelativesOfThree();
    assert GIT_LAST[0].0 == DEPLOYED && DEPLOYED in starts[0];
    assert DEPLOYED in start;
    StartMet(reg, true, {}, start);
    RelativesMet(reg, true, {}, start, DEPLOYED);
  }

  /** The same registry and the same protected stages: when the stage kept by git is
      visited first, the source of the deployed stage's parent is deleted. */
  method SourceLostGitFirst() returns (toDelete: set<Stage>)
    ensures SOURCE in toDelete
  {
    hide Kept, Registry.Valid, Registry.Relatives, Registry.Sources, Promised, PlatformsIn, ParentsStay, IsSource;
    ThreeStagesValid();
    var manager := new StageManager(THREE_STAGES);
    manager.protection := BOTH_KEPT;
    var cleanup := new CleanupManager(manager);
    assert GIT_FIRST[0].0 == KEPT_BY_GIT && GIT_FIRST[1].0 == DEPLOYED;
    ghost var starts;
    toDelete, starts := cleanup.StagesToDelete(GIT_FIRST);
    KeptGitFirst(starts);
  }

  /** Visited last, it is not: the run of the deployed stage handles both. */
  method SourceKeptGitLast() returns (toDelete: set<Stage>)
    ensures SOURCE !in toDelete
  {
    hide Kept, Registry.Valid, Registry.Relatives, Registry.Sources, Promised, PlatformsIn, ParentsStay, IsSource;
    ThreeStagesValid();
    RelativesOfThree();
    var manager := new StageManager(THREE_STAGES);
    manager.protection := BOTH_KEPT;
    var cleanup := new CleanupManager(manager);
    assert GIT_LAST[1].0 == KEPT_BY_GIT && GIT_LAST[0].0 == DEPLOYED;
    ghost var starts;
    toDelete, starts := cleanup.StagesToDelete(GIT_LAST);
    PromisedGitLast(starts);
    SourcesAre(THREE_STAGES, KEPT_BY_GIT, SOURCE);
  }
}
