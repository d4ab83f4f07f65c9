/**
  Which stages of the registry the cleanup keeps: the closure of the protected stages under
  the parents and sources written in their labels.
 */
module StageClosure {

  datatype Reason =
    | KubernetesBasedPolicy | GitPolicy | BuiltWithinLastNHoursPolicy | ImportSource
    | DependencySource | Ancestor | ImageIndexPlatform | KeepList

  /** A label of a stage; the one of its parent is kept apart. */
  datatype Label = Label(key: string, value: string)
  {
    predicate ImportChecksum() {
      IMPORT_CHECKSUM_PREFIX <= key
    }

    predicate DependencyStage() {
      DEPENDENCY_STAGE_PREFIX <= key
    }
  }

  const IMPORT_CHECKSUM_PREFIX := "werf-import-checksum-"
  const DEPENDENCY_STAGE_PREFIX := "werf-dependency-stage-id-"

  /** A stage description. An index stage lists the digests of its platform images;
      `parentStageID` is empty when there is no such label. */
  datatype Stage = Stage(
    id: string, infoID: string, parentID: string, digest: string,
    isIndex: bool, platformDigests: seq<string>,
    labels: seq<Label>, parentStageID: string)

  /** What the cleanup knows of the registry: its stages, the stages by id, and the stage
      ids recorded for each import checksum. Several stages may have the image id that a
      stage names as its parent's; `firstParent` is the one that the scan for it meets first.
      The order of the scan is not fixed, but no stage is handled twice in a cleanup, so any
      cleanup goes by some such function. */
  datatype Registry = Registry(
    stages: set<Stage>, byID: map<string, Stage>, checksumSourceStageIDs: map<string, seq<string>>,
    firstParent: Stage -> Stage)
  {
    ghost predicate Valid() {
      && (forall i :: i in byID ==> byID[i] in stages && byID[i].id == i)
      && (forall s :: s in stages ==> s.id in byID)
      && (forall s :: LegacyParents(s) != {} ==> firstParent(s) in LegacyParents(s))
    }

    /** GetStageDescByStageID, as a set of at most one stage. */
    function Named(id: string): set<Stage> {
      if id in byID then {byID[id]} else {}
    }

    function LegacyParents(s: Stage): set<Stage> {
      set p | p in stages && p.infoID == s.parentID
    }

    /** The stage that counts as the parent by its image id, if there is one. */
    function LegacyParent(s: Stage): set<Stage> {
      if LegacyParents(s) == {} then {} else {firstParent(s)}
    }

    /** The stages that some of the recorded ids stand for; external images have none. */
    function Recorded(ids: seq<string>): set<Stage> {
      if |ids| == 0 then {}
      else Recorded(ids[..|ids| - 1]) + if External(ids[|ids| - 1]) then {} else Named(ids[|ids| - 1])
    }

    function LabelSources(l: Label): set<Stage> {
      if l.ImportChecksum() then
        if l.value in checksumSourceStageIDs then Recorded(checksumSourceStageIDs[l.value]) else {}
      else if l.DependencyStage() then Named(l.value)
      else {}
    }

    function LabelsSources(labels: seq<Label>): set<Stage> {
      if |labels| == 0 then {} else LabelsSources(labels[..|labels| - 1]) + LabelSources(labels[|labels| - 1])
    }

    /** The stages that `s` imports from or depends on. */
    function Sources(s: Stage): set<Stage> {
      LabelsSources(s.labels)
    }

    /** The relatives that a run protects because of `s`. */
    function Relatives(withSources: bool, s: Stage): set<Stage> {
      Named(s.parentStageID) + LegacyParent(s) + if withSources then Sources(s) else {}
    }
  }

  const EXTERNAL_IMAGE_PREFIX := "external-image"

  predicate External(id: string) {
    EXTERNAL_IMAGE_PREFIX <= id
  }

  lemma {:induction false} RecordedAreStages(reg: Registry, ids: seq<string>)
    requires reg.Valid()
    ensures reg.Recorded(ids) <= reg.stages
  {
    if |ids| > 0 { RecordedAreStages(reg, ids[..|ids| - 1]); }
  }

  lemma {:induction false} LabelsSourcesAreStages(reg: Registry, labels: seq<Label>)
    requires reg.Valid()
    ensures reg.LabelsSources(labels) <= reg.stages
  {
    if |labels| > 0 {
      LabelsSourcesAreStages(reg, labels[..|labels| - 1]);
      var v := labels[|labels| - 1].value;
      if v in reg.checksumSourceStageIDs { RecordedAreStages(reg, reg.checksumSourceStageIDs[v]); }
    }
  }

  lemma RelativesAreStages(reg: Registry, withSources: bool, s: Stage)
    requires reg.Valid()
    ensures reg.Relatives(withSources, s) <= reg.stages
  {
    LabelsSourcesAreStages(reg, s.labels);
    assert reg.LegacyParent(s) <= reg.LegacyParents(s);
  }

  // ----- The relatives of a stage, by its labels and ids

  ghost predicate IsNamed(reg: Registry, id: string, x: Stage) {
    id in reg.byID && reg.byID[id] == x
  }

  /** The stage `x` is recorded for the checksum `v`, and not as an external image. */
  ghost predicate IsRecorded(reg: Registry, v: string, x: Stage) {
    v in reg.checksumSourceStageIDs &&
    exists id :: id in reg.checksumSourceStageIDs[v] && !("external-image" <= id) && IsNamed(reg, id, x)
  }

  ghost predicate IsLabelSource(reg: Registry, l: Label, x: Stage) {
    || ("werf-import-checksum-" <= l.key && IsRecorded(reg, l.value, x))
    || ("werf-dependency-stage-id-" <= l.key && IsNamed(reg, l.value, x))
  }

  /** A label of the stage gives an import checksum for which `x` is recorded, or names `x` as a
      dependency. */
  ghost predicate IsSource(reg: Registry, s: Stage, x: Stage) {
    exists l :: l in s.labels && IsLabelSource(reg, l, x)
  }

  lemma {:induction false} RecordedAre(reg: Registry, ids: seq<string>, x: Stage)
    ensures x in reg.Recorded(ids) <==> exists id :: id in ids && !("external-image" <= id) && IsNamed(reg, id, x)
  {
    if |ids| > 0 {
      var before, last := ids[..|ids| - 1], ids[|ids| - 1];
      RecordedAre(reg, before, x);
      assert last in ids && forall id :: id in ids <==> id in before || id == last;
    }
  }

  lemma LabelSourcesAre(reg: Registry, l: Label, x: Stage)
    ensures x in reg.LabelSources(l) <==> IsLabelSource(reg, l, x)
  {
    assert IMPORT_CHECKSUM_PREFIX[5] != DEPENDENCY_STAGE_PREFIX[5];
    assert l.DependencyStage() ==> l.key[5] == DEPENDENCY_STAGE_PREFIX[5];
    if l.value in reg.checksumSourceStageIDs { RecordedAre(reg, reg.checksumSourceStageIDs[l.value], x); }
  }

  lemma {:induction false} LabelsSourcesAre(reg: Registry, labels: seq<Label>, x: Stage)
    ensures x in reg.LabelsSources(labels) <==> exists l :: l in labels && IsLabelSource(reg, l, x)
  {
    hide Registry.LabelSources, IsLabelSource;
    if |labels| > 0 {
      var before, last := labels[..|labels| - 1], labels[|labels| - 1];
      LabelsSourcesAre(reg, before, x);
      LabelSourcesAre(reg, last, x);
      assert last in labels && forall l :: l in labels <==> l in before || l == last;
    }
  }

  /** The sources of a stage are exactly those that its labels give. */
  lemma SourcesAre(reg: Registry, s: Stage, x: Stage)
    ensures x in reg.Sources(s) <==> IsSource(reg, s, x)
  {
    LabelsSourcesAre(reg, s.labels, x);
  }

  /** The parents of a stage are the stage that its label names, and the first of those whose
      image id it gives as its parent's. */
  lemma ParentsAre(reg: Registry, s: Stage, x: Stage)
    requires reg.Valid()
    ensures x in reg.Relatives(false, s) <==>
            || (s.parentStageID in reg.byID && reg.byID[s.parentStageID] == x)
            || (x in reg.stages && x.infoID == s.parentID && x == reg.firstParent(s))
    ensures reg.Relatives(true, s) == reg.Relatives(false, s) + reg.Sources(s)
    ensures (exists p :: p in reg.stages && p.infoID == s.parentID) ==>
              exists p :: p in reg.Relatives(false, s) && p in reg.stages && p.infoID == s.parentID
  {
    if p :| p in reg.stages && p.infoID == s.parentID {
      assert p in reg.LegacyParents(s);
      assert reg.firstParent(s) in reg.Relatives(false, s);
    }
  }

  // ----- What is reached

  /** A chain of relatives that goes on from no stage in `closed`. */
  ghost predicate Chain(reg: Registry, withSources: bool, closed: set<Stage>, w: seq<Stage>) {
    && |w| > 0
    && forall i :: 0 <= i < |w| - 1 ==> w[i] !in closed && w[i + 1] in reg.Relatives(withSources, w[i])
  }

  ghost predicate Reached(reg: Registry, withSources: bool, closed: set<Stage>, start: set<Stage>, s: Stage) {
    exists w :: Chain(reg, withSources, closed, w) && w[0] in start && w[|w| - 1] == s
  }

  /** The stages that are reached; a closed stage may be reached, but is not left again. */
  ghost function Met(reg: Registry, withSources: bool, closed: set<Stage>, start: set<Stage>): set<Stage> {
    set s | s in reg.stages + start && Reached(reg, withSources, closed, start, s)
  }

  lemma StartMet(reg: Registry, withSources: bool, closed: set<Stage>, start: set<Stage>)
    ensures start <= Met(reg, withSources, closed, start)
  {
    forall s | s in start ensures Reached(reg, withSources, closed, start, s) {
      assert Chain(reg, withSources, closed, [s]) && [s][0] == s;
    }
  }

  lemma LongerChain(reg: Registry, withSources: bool, closed: set<Stage>, w: seq<Stage>, r: Stage)
    requires Chain(reg, withSources, closed, w)
    requires w[|w| - 1] !in closed && r in reg.Relatives(withSources, w[|w| - 1])
    ensures Chain(reg, withSources, closed, w + [r])
  {
    hide Registry.Relatives;
  }

  lemma RelativesMet(reg: Registry, withSources: bool, closed: set<Stage>, start: set<Stage>, s: Stage)
    requires reg.Valid()
    requires s in Met(reg, withSources, closed, start) && s !in closed
    ensures reg.Relatives(withSources, s) <= Met(reg, withSources, closed, start)
  {
    hide Registry.Relatives, Registry.Valid;
    RelativesAreStages(reg, withSources, s);
    var w :| Chain(reg, withSources, closed, w) && w[0] in start && w[|w| - 1] == s;
    forall r | r in reg.Relatives(withSources, s) ensures Reached(reg, withSources, closed, start, r) {
      LongerChain(reg, withSources, closed, w, r);
      assert (w + [r])[0] == w[0];
    }
  }

  /** A set that holds the start, and the relatives of the stages it holds, holds all that
      is met. */
  lemma ClosedHoldsMet(reg: Registry, withSources: bool, closed: set<Stage>, start: set<Stage>, held: set<Stage>)
    requires start <= held
    requires forall s :: s in held && s !in closed && s in Met(reg, withSources, closed, start) ==>
               reg.Relatives(withSources, s) <= held
    requires reg.Valid()
    ensures Met(reg, withSources, closed, start) <= held
  {
    forall s | s in Met(reg, withSources, closed, start) ensures s in held {
      var w :| Chain(reg, withSources, closed, w) && w[0] in start && w[|w| - 1] == s;
      ChainStaysIn(reg, withSources, closed, start, held, w);
    }
  }

  lemma {:induction false} ChainStaysIn(reg: Registry, withSources: bool, closed: set<Stage>, start: set<Stage>,
                                        held: set<Stage>, w: seq<Stage>)
    requires reg.Valid()
    requires start <= held
    requires forall s :: s in held && s !in closed && s in Met(reg, withSources, closed, start) ==>
               reg.Relatives(withSources, s) <= held
    requires Chain(reg, withSources, closed, w) && w[0] in start
    ensures w[|w| - 1] in held && w[|w| - 1] in Met(reg, withSources, closed, start)
  {
    hide Registry.Relatives, Met, Registry.Valid;
    StartMet(reg, withSources, closed, start);
    if |w| > 1 {
      var v, i := w[..|w| - 1], |w| - 2;
      assert forall j :: 0 <= j < |v| ==> v[j] == w[j];
      ChainStaysIn(reg, withSources, closed, start, held, v);
      assert v[|v| - 1] == w[i] && w[i + 1] in reg.Relatives(withSources, w[i]);
      RelativesMet(reg, withSources, closed, start, w[i]);
    }
  }

  /** More is met with sources, with fewer stages closed, and from a larger start. */
  lemma MetMore(reg: Registry, withSources: bool, closed: set<Stage>, start: set<Stage>,
                withSources': bool, closed': set<Stage>, start': set<Stage>)
    requires reg.Valid()
    requires start <= start' && closed' <= closed
    requires withSources ==> withSources'
    ensures Met(reg, withSources, closed, start) <= Met(reg, withSources', closed', start')
  {
    StartMet(reg, withSources', closed', start');
    var held := Met(reg, withSources', closed', start');
    forall s | s in held && s !in closed ensures reg.Relatives(withSources, s) <= held {
      RelativesMet(reg, withSources', closed', start', s);
    }
    ClosedHoldsMet(reg, withSources, closed, start, held);
  }

  // ----- Protection

  type Protection = map<Stage, Reason>

  /** `xs` became protected; what was protected before keeps its reason. */
  ghost predicate Marked(before: Protection, xs: set<Stage>, after: Protection) {
    && after.Keys == before.Keys + xs
    && forall s :: s in before ==> after[s] == before[s]
  }

  class StageManager {
    const registry: Registry
    var protection: Protection

    constructor (registry: Registry)
      ensures this.registry == registry && protection == map[]
    {
      this.registry := registry;
      protection := map[];
    }

    /** MarkStageDescAsProtected without force: the first reason stays. */
    method MarkStageAsProtected(s: Stage, reason: Reason)
      modifies this
      ensures Marked(old(protection), {s}, protection)
      ensures s !in old(protection) ==> protection[s] == reason
    {
      if s in protection { return; }
      protection := protection[s := reason];
    }
  }

  // ----- A run over the worklist

  /** The state of a run that started from `start`, with `handled0` and `protection0` before
      it: `met` holds what was in the worklist at some time. It is waiting or handled, it is
      reached, it is what became protected, and the relatives of the stages that were handled
      in this run are among it. */
  ghost predicate Running(reg: Registry, withSources: bool, start: set<Stage>,
                          handled0: set<Stage>, protection0: Protection, met: set<Stage>,
                          handled: set<Stage>, protection: Protection, current: set<Stage>)
  {
    && start <= met
    && met <= Met(reg, withSources, handled0, start)
    && handled + current == handled0 + met
    && handled0 <= handled
    && current <= met
    && Marked(protection0, met, protection)
    && forall s :: s in handled && s !in handled0 ==> reg.Relatives(withSources, s) <= met
  }

  lemma RunStarts(reg: Registry, withSources: bool, start: set<Stage>, handled: set<Stage>, protection: Protection)
    requires start <= protection.Keys
    ensures Running(reg, withSources, start, handled, protection, start, handled, protection, start)
  {
    StartMet(reg, withSources, handled, start);
  }

  lemma SkipHandled(reg: Registry, withSources: bool, start: set<Stage>, handled0: set<Stage>, protection0: Protection,
                    met: set<Stage>, handled: set<Stage>, protection: Protection, current: set<Stage>, s: Stage)
    requires Running(reg, withSources, start, handled0, protection0, met, handled, protection, current)
    requires s in handled
    ensures Running(reg, withSources, start, handled0, protection0, met, handled, protection, current - {s})
  {
    hide Met, Marked, Registry.Relatives;
    assert handled + (current - {s}) == handled + current;
  }

  /** Handling a waiting stage: its relatives are marked and wait in its place. */
  lemma HandleWaiting(reg: Registry, withSources: bool, start: set<Stage>, handled0: set<Stage>, protection0: Protection,
                      met: set<Stage>, handled: set<Stage>, protection: Protection, current: set<Stage>,
                      s: Stage, protection': Protection)
    requires reg.Valid()
    requires Running(reg, withSources, start, handled0, protection0, met, handled, protection, current)
    requires s in current && s !in handled
    requires Marked(protection, reg.Relatives(withSources, s), protection')
    ensures var relatives := reg.Relatives(withSources, s);
            Running(reg, withSources, start, handled0, protection0, met + relatives, handled + {s}, protection',
                    (current - {s}) + relatives)
  {
    hide Met, Registry.Relatives, Registry.Valid;
    RelativesMet(reg, withSources, handled0, start, s);
    var relatives := reg.Relatives(withSources, s);
    assert (handled + {s}) + ((current - {s}) + relatives) == handled0 + (met + relatives);
  }

  /** When nothing waits any more, exactly what can be met was handled and is protected. */
  lemma RunEnds(reg: Registry, withSources: bool, start: set<Stage>, handled0: set<Stage>, protection0: Protection,
                met: set<Stage>, handled: set<Stage>, protection: Protection)
    requires reg.Valid()
    requires Running(reg, withSources, start, handled0, protection0, met, handled, protection, {})
    ensures met == Met(reg, withSources, handled0, start)
    ensures handled == handled0 + Met(reg, withSources, handled0, start)
  {
    hide Met, Marked, Registry.Relatives, Registry.Valid;
    ClosedHoldsMet(reg, withSources, handled0, start, met);
    assert handled + {} == handled;
  }

  /** A run with sources that does not look again at the stages in `closed`: together with
      these and the stages in `safe` it has all that a run of its own would meet, exactly when
      the relatives of those stages which such a run would meet are among them. */
  lemma RunKeepsSources(reg: Registry, closed: set<Stage>, start: set<Stage>, safe: set<Stage>)
    requires reg.Valid()
    ensures var full, met := Met(reg, true, {}, start), Met(reg, true, closed, start);
            full <= closed + met + safe <==>
            forall s :: s in full && (s in closed || (s in safe && s !in met)) ==>
              reg.Relatives(true, s) <= closed + met + safe
  {
    hide Met, Registry.Relatives, Registry.Valid;
    var full, met := Met(reg, true, {}, start), Met(reg, true, closed, start);
    var held := closed + met + safe;
    StartMet(reg, true, closed, start);
    forall s | s in met && s !in closed ensures reg.Relatives(true, s) <= held {
      RelativesMet(reg, true, closed, start, s);
    }
    forall s | s in full ensures reg.Relatives(true, s) <= full {
      RelativesMet(reg, true, {}, start, s);
    }
    if forall s :: s in full && (s in closed || (s in safe && s !in met)) ==> reg.Relatives(true, s) <= held {
      ClosedHoldsMet(reg, true, {}, start, held);
    }
  }
}
