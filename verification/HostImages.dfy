/**
  Freeing space on a host by removing images, least recently used first: how many images
  are taken at a time, and the loop that measures the volume again after each batch.
 */
module HostImages {

  const TWO_64: nat := 0x1_0000_0000_0000_0000

  /** An image summary: its size in bytes as an unsigned number, which labels it carries,
      whether its reference is that of a service image, and when it was last used. */
  datatype Image = Image(id: string, size: nat, werf: bool, stageSignature: bool, service: bool, lastUsed: int)

  // ----- The list of images to try

  /** The answers of the backend to the three queries: images with the label of werf, those
      with the label of a v1.1 stage besides, and service images without a size, which are
      taken only if v1.1 never ran on the host. */
  datatype Query = Labelled | Legacy | Service
  {
    predicate Finds(i: Image, legacyRuns: bool) {
      match this
      case Labelled => i.werf
      case Legacy => i.werf && i.stageSignature
      case Service => i.service && i.size == 0 && !legacyRuns
    }
  }

  function Answer(q: Query, all: seq<Image>, legacyRuns: bool): seq<Image> {
    if |all| == 0 then []
    else (if q.Finds(all[0], legacyRuns) then [all[0]] else []) + Answer(q, all[1..], legacyRuns)
  }

  /** What werfImages may return: all three answers, sorted by the time of the last use. The
      order of images used at the same time is left open. */
  ghost predicate IsWerfImages(all: seq<Image>, legacyRuns: bool, images: seq<Image>) {
    && multiset(images) ==
         multiset(Answer(Labelled, all, legacyRuns) + Answer(Legacy, all, legacyRuns) + Answer(Service, all, legacyRuns))
    && forall i, j :: 0 <= i < j < |images| ==> images[i].lastUsed <= images[j].lastUsed
  }

  predicate DistinctIds(images: seq<Image>) {
    forall i, j :: 0 <= i < j < |images| ==> images[i].id != images[j].id
  }

  /** How many of the queries find an image. */
  function TimesFound(i: Image, legacyRuns: bool): nat {
    (if Labelled.Finds(i, legacyRuns) then 1 else 0) + (if Legacy.Finds(i, legacyRuns) then 1 else 0) +
    (if Service.Finds(i, legacyRuns) then 1 else 0)
  }

  lemma {:induction false} AnswerCounts(q: Query, all: seq<Image>, legacyRuns: bool, i: Image)
    requires DistinctIds(all)
    ensures multiset(Answer(q, all, legacyRuns))[i] == if i in all && q.Finds(i, legacyRuns) then 1 else 0
  {
    if |all| > 0 {
      assert all == [all[0]] + all[1..];
      AnswerCounts(q, all[1..], legacyRuns, i);
      assert i in all[1..] ==> i != all[0];
    }
  }

  /** Each image of the host is in the list as often as queries find it. */
  lemma ListedAsFound(all: seq<Image>, legacyRuns: bool, images: seq<Image>, i: Image)
    requires DistinctIds(all)
    requires IsWerfImages(all, legacyRuns, images)
    ensures multiset(images)[i] == if i in all then TimesFound(i, legacyRuns) else 0
    ensures TimesFound(i, legacyRuns) ==
            (if i.werf then 1 else 0) + (if i.werf && i.stageSignature then 1 else 0) +
            (if i.service && i.size == 0 && !legacyRuns then 1 else 0)
  {
    AnswerCounts(Labelled, all, legacyRuns, i);
    AnswerCounts(Legacy, all, legacyRuns, i);
    AnswerCounts(Service, all, legacyRuns, i);
    var a, b, c := Answer(Labelled, all, legacyRuns), Answer(Legacy, all, legacyRuns), Answer(Service, all, legacyRuns);
    assert multiset(a + b + c) == multiset(a) + multiset(b) + multiset(c);
  }

  lemma {:induction false} OnceMeansDistinct(images: seq<Image>)
    ensures (forall i :: multiset(images)[i] <= 1) <==> forall a, b :: 0 <= a < b < |images| ==> images[a] != images[b]
  {
    if |images| > 0 {
      var first, rest := images[0], images[1..];
      assert images == [first] + rest;
      assert multiset(images) == multiset{first} + multiset(rest);
      OnceMeansDistinct(rest);
      assert forall a :: 0 < a < |images| ==> images[a] == rest[a - 1];
      assert first in rest <==> multiset(rest)[first] > 0;
      forall i ensures multiset(images)[i] == (if i == first then 1 else 0) + multiset(rest)[i] {
      }
      if first in rest { assert multiset(images)[first] > 1; }
    }
  }

  /** No id is in the list twice exactly when no image of the host is found twice: none is a
      v1.1 stage, and none is labelled and a service image as well. */
  lemma ListedOnce(all: seq<Image>, legacyRuns: bool, images: seq<Image>)
    requires DistinctIds(all)
    requires IsWerfImages(all, legacyRuns, images)
    ensures DistinctIds(images) <==>
            forall i :: i in all && i.werf ==> !i.stageSignature && !Service.Finds(i, legacyRuns)
  {
    forall i ensures multiset(images)[i] == if i in all then TimesFound(i, legacyRuns) else 0 {
      ListedAsFound(all, legacyRuns, images, i);
    }
    hide IsWerfImages, Answer;
    OnceMeansDistinct(images);
    forall a | 0 <= a < |images| ensures images[a] in all { assert images[a] in multiset(images); }
    DistinctAmongDistinct(all, images);
    hide DistinctIds;
    assert forall i :: TimesFound(i, legacyRuns) <= 1 <==> (i.werf ==> !i.stageSignature && !Service.Finds(i, legacyRuns));
  }

  lemma DistinctAmongDistinct(all: seq<Image>, images: seq<Image>)
    requires DistinctIds(all)
    requires forall a :: 0 <= a < |images| ==> images[a] in all
    ensures DistinctIds(images) <==> forall a, b :: 0 <= a < b < |images| ==> images[a] != images[b]
  {
    forall a, b | 0 <= a < b < |images| && images[a].id == images[b].id ensures images[a] == images[b] {
      var x :| 0 <= x < |all| && all[x] == images[a];
      var y :| 0 <= y < |all| && all[y] == images[b];
      assert x == y;
    }
  }

  // ----- How many images are taken at a time

  /** The 64-bit sum of the sizes of images `from` up to, but without, `to`. */
  function SumSizes(images: seq<Image>, from: nat, to: nat): nat
    requires from <= to <= |images|
  {
    if from == to then 0 else (SumSizes(images, from, to - 1) + images[to - 1].size) % TWO_64
  }

  /** The last image of a batch that starts at `start`: the sizes up to it are the first to
      reach the demand, or there is no further image. */
  ghost predicate LastOfBatch(images: seq<Image>, start: nat, demand: nat, n: nat) {
    && start <= n < |images|
    && (forall j :: start < j <= n ==> SumSizes(images, start, j) < demand)
    && (n == |images| - 1 || SumSizes(images, start, n + 1) >= demand)
  }

  /** countImagesToFree; -1 when nothing has to be freed or no image is left. */
  method CountImagesToFree(images: seq<Image>, startIndex: int, bytesToFree: nat) returns (n: int)
    ensures n == -1 <==> bytesToFree == 0 || startIndex < 0 || startIndex >= |images|
    ensures n != -1 ==> startIndex <= n < |images| && LastOfBatch(images, startIndex, bytesToFree, n)
  {
    if bytesToFree == 0 || startIndex < 0 || startIndex >= |images| {
      return -1;
    }
    var i := startIndex;
    var freedBytes := 0;
    while i < |images| && freedBytes < bytesToFree
      invariant startIndex <= i <= |images|
      invariant freedBytes == SumSizes(images, startIndex, i)
      invariant forall j :: startIndex < j < i ==> SumSizes(images, startIndex, j) < bytesToFree
    {
      freedBytes := (freedBytes + images[i].size) % TWO_64;
      i := i + 1;
    }
    return if i - 1 > startIndex then i - 1 else startIndex;
  }

  // ----- Removing one image

  /** What happens to a repository tag or digest of an image: asking for its lock fails, it is
      locked, removing it fails, or it is removed. Only tags other than that of an
      intermediate image are asked for a lock. */
  datatype RefOutcome = LockFailed | Locked | RemoveFailed | RefRemoved

  /** Trying to remove an image: whether it had references and all of them went away, or an
      error. */
  datatype Attempt = Removed(all: bool) | AttemptFailed

  /** removeImageByRepoTags: a tag that is locked or cannot be removed is passed over, and an
      error of the lock ends it. */
  method RemoveImageByRepoTags(refs: seq<RefOutcome>) returns (r: Attempt)
    ensures r.AttemptFailed? <==> LockFailed in refs
    ensures r.Removed? ==> (r.all <==> |refs| > 0 && forall o :: o in refs ==> o == RefRemoved)
  {
    var unRemovedCount := 0;
    for i := 0 to |refs|
      invariant forall k :: 0 <= k < i ==> refs[k] != LockFailed
      invariant unRemovedCount == 0 <==> forall k :: 0 <= k < i ==> refs[k] == RefRemoved
    {
      match refs[i]
      case LockFailed => return AttemptFailed;
      case Locked => unRemovedCount := unRemovedCount + 1;
      case RemoveFailed => unRemovedCount := unRemovedCount + 1;
      case RefRemoved =>
    }
    if k :| 0 <= k < |refs| && refs[k] != RefRemoved { assert refs[k] in refs; }
    return Removed(unRemovedCount == 0 && |refs| > 0);
  }

  /** removeImageByRepoDigests: digests are not locked. */
  method RemoveImageByRepoDigests(refs: seq<RefOutcome>) returns (all: bool)
    requires LockFailed !in refs && Locked !in refs
    ensures all <==> |refs| > 0 && forall o :: o in refs ==> o == RefRemoved
  {
    var unRemovedCount := 0;
    for i := 0 to |refs|
      invariant unRemovedCount == 0 <==> forall k :: 0 <= k < i ==> refs[k] == RefRemoved
    {
      assert refs[i] in refs;
      if refs[i] == RemoveFailed {
        unRemovedCount := unRemovedCount + 1;
      }
    }
    if k :| 0 <= k < |refs| && refs[k] != RefRemoved { assert refs[k] in refs; }
    return unRemovedCount == 0 && |refs| > 0;
  }

  /** One turn of the loop over a batch: by tags if there are any, and otherwise by digests. */
  method RemoveImage(repoTags: seq<RefOutcome>, repoDigests: seq<RefOutcome>) returns (r: Attempt)
    requires LockFailed !in repoDigests && Locked !in repoDigests
    ensures r.AttemptFailed? <==> LockFailed in repoTags
    ensures r == Removed(true) <==>
            var refs := if repoTags != [] then repoTags else repoDigests;
            refs != [] && forall o :: o in refs ==> o == RefRemoved
  {
    if |repoTags| > 0 {
      r := RemoveImageByRepoTags(repoTags);
      if LockFailed in repoTags { assert exists o :: o in repoTags && o != RefRemoved; }
    } else if |repoDigests| > 0 {
      var all := RemoveImageByRepoDigests(repoDigests);
      r := Removed(all);
    } else {
      r := Removed(false);
    }
  }

  datatype VolumeUsage = VolumeUsage(usedBytes: nat, totalBytes: nat)

  /** Measuring the volume, or an error. */
  datatype Measure = Measured(usage: VolumeUsage) | MeasureFailed

  datatype Report = Report(itemsDeleted: seq<string>, spaceReclaimed: nat)
  {
    function Normalize(): Report {
      if |itemsDeleted| > 0 then this else Report([], 0)
    }
  }

  /** What the world answers: to the attempt on each image, and to the measurement after
      each batch. `bytesToFree` is the number of bytes that a measurement is above the target. */
  datatype World = World(attempts: seq<Attempt>, measures: nat -> Measure, bytesToFree: VolumeUsage -> nat)

  /** The ids of the first `m` images whose removal succeeded, in their order. */
  function DeletedIds(images: seq<Image>, w: World, m: nat): seq<string>
    requires m <= |images| == |w.attempts|
  {
    if m == 0 then []
    else DeletedIds(images, w, m - 1) +
         if w.attempts[m - 1] == Removed(true) then [images[m - 1].id] else []
  }

  /** The usage that the loop goes by after so many measurements. */
  function UsageAfter(w: World, vu: VolumeUsage, batches: nat): VolumeUsage {
    if batches == 0 then vu
    else match w.measures(batches - 1) case Measured(usage) => usage case MeasureFailed => vu
  }

  /** How many of the measurements after the batches succeeded; only the last can fail. */
  function Succeeded(w: World, batches: nat): nat {
    if batches > 0 && w.measures(batches - 1).MeasureFailed? then batches - 1 else batches
  }

  /** Where the batch after the given ones starts. */
  function NextStart(ends: seq<nat>): nat {
    if |ends| == 0 then 0 else ends[|ends| - 1] + 1
  }

  /** The report names exactly the entries of which every reference was removed. */
  lemma {:induction false} DeletedAre(images: seq<Image>, w: World, m: nat, id: string)
    requires m <= |images| == |w.attempts|
    ensures id in DeletedIds(images, w, m) <==>
            exists k :: 0 <= k < m && images[k].id == id && w.attempts[k] == Removed(true)
  {
    if m > 0 { DeletedAre(images, w, m - 1, id); }
  }

  /** The sizes of a batch add up in 64-bit arithmetic, whatever it is cut into. */
  lemma {:induction false} SizesAddUp(images: seq<Image>, i: nat, j: nat, k: nat)
    requires i <= j <= k <= |images|
    ensures SumSizes(images, i, k) == (SumSizes(images, i, j) + SumSizes(images, j, k)) % TWO_64
    ensures j < |images| ==> SumSizes(images, j, j + 1) == images[j].size % TWO_64
    decreases k
  {
    if j < k {
      SizesAddUp(images, i, j, k - 1);
      AddedInAnyOrder(SumSizes(images, i, j), SumSizes(images, j, k - 1), images[k - 1].size);
    } else {
      SmallSum(images, i, j);
    }
  }

  lemma AddedInAnyOrder(a: nat, b: nat, c: nat)
    ensures ((a + b) % TWO_64 + c) % TWO_64 == (a + (b + c) % TWO_64) % TWO_64
  {
  }

  lemma SmallSum(images: seq<Image>, i: nat, j: nat)
    requires i <= j <= |images|
    ensures SumSizes(images, i, j) < TWO_64
  {
  }

  predicate NoneTwice(ids: seq<string>) {
    forall i, j :: 0 <= i < j < |ids| ==> ids[i] != ids[j]
  }

  /** The world in which every attempt succeeds, as in a dry run. */
  function ObligingWorld(images: seq<Image>, w: World): World {
    w.(attempts := seq(|images|, _ => Removed(true)))
  }

  lemma {:induction false} DeletedAreTried(images: seq<Image>, w: World, m: nat)
    requires m <= |images| == |w.attempts|
    ensures forall id :: id in DeletedIds(images, w, m) ==> exists i :: 0 <= i < m && images[i].id == id
    ensures DistinctIds(images[..m]) ==> NoneTwice(DeletedIds(images, w, m))
  {
    if m > 0 {
      DeletedAreTried(images, w, m - 1);
      var before := DeletedIds(images, w, m - 1);
      if DistinctIds(images[..m]) {
        forall i | 0 <= i < m - 1 ensures images[i].id != images[m - 1].id {
          assert images[..m][i].id != images[..m][m - 1].id;
        }
        assert DistinctIds(images[..m - 1]) by {
          forall i, j | 0 <= i < j < m - 1 ensures images[i].id != images[j].id {
            assert images[..m][i].id != images[..m][j].id;
          }
        }
        forall k | 0 <= k < |before| ensures before[k] != images[m - 1].id { assert before[k] in before; }
      }
    }
  }

  lemma {:induction false} ObligingWorldDeletesAll(images: seq<Image>, w: World, m: nat)
    requires m <= |images|
    ensures DeletedIds(images, ObligingWorld(images, w), m) == seq(m, i requires 0 <= i < m => images[i].id)
  {
    if m > 0 { ObligingWorldDeletesAll(images, w, m - 1); }
  }

  /** No image is reported twice, whatever the world answers, exactly when the ids of the
      images that were tried are distinct. */
  lemma ReportedOnce(images: seq<Image>, m: nat, w0: World)
    requires m <= |images|
    ensures (forall w: World :: |w.attempts| == |images| ==> NoneTwice(DeletedIds(images, w, m))) <==> DistinctIds(images[..m])
  {
    forall w: World | |w.attempts| == |images| && DistinctIds(images[..m]) ensures NoneTwice(DeletedIds(images, w, m)) {
      DeletedAreTried(images, w, m);
    }
    ObligingWorldDeletesAll(images, w0, m);
    var w := ObligingWorld(images, w0);
    if NoneTwice(DeletedIds(images, w, m)) {
      forall i, j | 0 <= i < j < m ensures images[i].id != images[j].id {
        assert DeletedIds(images, w, m)[i] != DeletedIds(images, w, m)[j];
      }
    }
  }

  lemma TwoOfOne(images: seq<Image>, i: Image)
    requires multiset(images) == multiset([i, i])
    ensures images == [i, i]
  {
    assert |images| == |multiset(images)| == |multiset([i, i])| == 2;
    assert images[0] in multiset(images) && images[1] in multiset(images);
  }

  const LEGACY_IMAGE := Image("id", 1, true, true, false, 0)

  /** The only image of a host, a v1.1 stage, is listed twice and counts twice; if both
      attempts succeed it is reported twice. */
  lemma LegacyImageTwice(images: seq<Image>, w: World)
    requires IsWerfImages([LEGACY_IMAGE], true, images)
    ensures images == [LEGACY_IMAGE, LEGACY_IMAGE]
    ensures SumSizes(images, 0, 2) == 2 * LEGACY_IMAGE.size
    ensures DeletedIds(images, ObligingWorld(images, w), 2) == ["id", "id"]
  {
    var i := LEGACY_IMAGE;
    assert [i][1..] == [];
    assert Answer(Labelled, [i], true) == [i] && Answer(Legacy, [i], true) == [i] && Answer(Service, [i], true) == [];
    hide Answer;
    TwoOfOne(images, i);
    assert SumSizes(images, 0, 1) == 1;
    ObligingWorldDeletesAll(images, w, 2);
  }

  /** a - b in 64-bit arithmetic. */
  function Minus(a: nat, b: nat): nat {
    (a - b) % TWO_64
  }

  lemma MinusTelescopes(a: nat, b: nat, c: nat)
    ensures (Minus(a, b) + Minus(b, c)) % TWO_64 == Minus(a, c)
  {
  }

  /** Batch `b` starts where the one before ended, and ends at the first image at which the
      demand measured before it is met. */
  ghost predicate IsBatch(images: seq<Image>, w: World, vu: VolumeUsage, ends: seq<nat>, b: nat)
    requires b < |ends|
  {
    LastOfBatch(images, NextStart(ends[..b]), w.bytesToFree(UsageAfter(w, vu, b)), ends[b])
  }

  ghost predicate Batches(images: seq<Image>, w: World, vu: VolumeUsage, ends: seq<nat>) {
    forall b: nat :: b < |ends| ==> IsBatch(images, w, vu, ends, b)
  }

  lemma NoBatches(images: seq<Image>, w: World, vu: VolumeUsage)
    ensures Batches(images, w, vu, [])
  {
  }

  lemma MinusMeans(a: nat, b: nat)
    ensures Minus(a, b) == (a - b) % TWO_64
  {
  }

  lemma NothingReclaimed(bytes: nat)
    ensures Minus(bytes, bytes) == 0
  {
  }

  lemma BatchCutShort(images: seq<Image>, start: nat, demand: nat, n: nat, k: nat)
    requires LastOfBatch(images, start, demand, n)
    requires start <= k <= n
    ensures forall j :: start < j <= k ==> SumSizes(images, start, j) < demand
  {
  }

  /** The demand of each batch but the first is that of the measurement after the one before. */
  lemma BatchesMean(images: seq<Image>, w: World, vu: VolumeUsage, ends: seq<nat>)
    requires Batches(images, w, vu, ends)
    ensures |ends| > 0 ==> LastOfBatch(images, 0, w.bytesToFree(vu), ends[0])
    ensures forall b :: 0 < b < |ends| && w.measures(b - 1).Measured? ==>
              LastOfBatch(images, ends[b - 1] + 1, w.bytesToFree(w.measures(b - 1).usage), ends[b])
  {
    if |ends| > 0 { assert IsBatch(images, w, vu, ends, 0); }
    forall b | 0 < b < |ends| && w.measures(b - 1).Measured?
      ensures LastOfBatch(images, ends[b - 1] + 1, w.bytesToFree(w.measures(b - 1).usage), ends[b])
    {
      assert IsBatch(images, w, vu, ends, b);
    }
  }

  lemma BatchAdded(images: seq<Image>, w: World, vu: VolumeUsage, ends: seq<nat>, n: nat)
    requires Batches(images, w, vu, ends)
    requires LastOfBatch(images, NextStart(ends), w.bytesToFree(UsageAfter(w, vu, |ends|)), n)
    ensures Batches(images, w, vu, ends + [n])
  {
    var more := ends + [n];
    forall b: nat | b < |more| ensures IsBatch(images, w, vu, more, b) {
      assert more[..b] == ends[..b];
      if b < |ends| {
        assert IsBatch(images, w, vu, ends, b);
      } else {
        assert ends[..b] == ends;
      }
    }
  }

  /** cleanupWerfImages. `tried` counts the entries of the list that were tried, always the
      first ones and each entry once; `ends` are the last images of the batches. Without an
      error the loop ends when the target is reached or every entry was tried. The space
      reclaimed is the difference of the first and the last measurement, in 64-bit
      arithmetic, whatever was measured between. An error in a removal or in a measurement
      ends the loop at once, and the report so far is not normalized. */
  method CleanupWerfImages(images: seq<Image>, w: World, vu: VolumeUsage)
    returns (report: Report, failed: bool, tried: nat, ends: seq<nat>)
    requires |w.attempts| == |images|
    ensures Batches(images, w, vu, ends)
    ensures NextStart(ends) <= tried <= |images|
    ensures forall k :: 0 <= k < tried ==> !w.attempts[k].AttemptFailed?
    ensures !failed ==> tried == NextStart(ends) && Succeeded(w, |ends|) == |ends|
    ensures !failed ==> w.bytesToFree(UsageAfter(w, vu, |ends|)) == 0 || tried == |images|
    ensures failed && Succeeded(w, |ends|) == |ends| ==>
              && tried < |images| && w.attempts[tried].AttemptFailed?
              && w.bytesToFree(UsageAfter(w, vu, |ends|)) > 0
              && forall j :: NextStart(ends) < j <= tried ==>
                   SumSizes(images, NextStart(ends), j) < w.bytesToFree(UsageAfter(w, vu, |ends|))
    ensures failed && Succeeded(w, |ends|) < |ends| ==> tried == NextStart(ends)
    ensures var r := Report(DeletedIds(images, w, tried), Minus(vu.usedBytes, UsageAfter(w, vu, Succeeded(w, |ends|)).usedBytes));
            report == if failed then r else r.Normalize()
    ensures forall b :: 0 <= b < |ends| - 1 ==> w.measures(b).Measured?
    ensures !failed && |ends| > 0 ==>
              && w.measures(|ends| - 1).Measured?
              && (w.bytesToFree(w.measures(|ends| - 1).usage) == 0 || tried == |images|)
              && (report.itemsDeleted != [] ==>
                    report.spaceReclaimed == (vu.usedBytes - w.measures(|ends| - 1).usage.usedBytes) % TWO_64)
    ensures !failed && report.itemsDeleted == [] ==> report.spaceReclaimed == 0
    ensures !failed && ends == [] ==> (w.bytesToFree(vu) == 0 || images == []) && report == Report([], 0)
  {
    hide LastOfBatch, SumSizes, Minus, Batches;
    NoBatches(images, w, vu);
    NothingReclaimed(vu.usedBytes);
    report := Report([], 0);
    var usage := vu;
    ends := [];
    tried := 0;
    failed := false;
    var i := 0;
    var n := CountImagesToFree(images, 0, w.bytesToFree(usage));
    while n != -1
      invariant 0 <= i <= |images| && tried == i
      invariant i == NextStart(ends) && Succeeded(w, |ends|) == |ends|
      invariant forall k :: 0 <= k < i ==> !w.attempts[k].AttemptFailed?
      invariant n == -1 <==> w.bytesToFree(usage) == 0 || i >= |images|
      invariant n != -1 ==> i <= n < |images| && LastOfBatch(images, i, w.bytesToFree(usage), n)
      invariant usage == UsageAfter(w, vu, |ends|)
      invariant Batches(images, w, vu, ends)
      invariant forall b :: 0 <= b < |ends| ==> w.measures(b).Measured?
      invariant report.itemsDeleted == DeletedIds(images, w, i)
      invariant report.spaceReclaimed == Minus(vu.usedBytes, usage.usedBytes)
      decreases |images| - i
    {
      for k := i to n + 1
        invariant tried == k
        invariant forall j :: 0 <= j < k ==> !w.attempts[j].AttemptFailed?
        invariant report.itemsDeleted == DeletedIds(images, w, k)
        invariant report.spaceReclaimed == Minus(vu.usedBytes, usage.usedBytes)
      {
        if w.attempts[k].AttemptFailed? {
          BatchCutShort(images, i, w.bytesToFree(usage), n, k);
          failed := true;
          return;
        }
        if w.attempts[k].all {
          report := report.(itemsDeleted := report.itemsDeleted + [images[k].id]);
        }
        tried := k + 1;
      }
      BatchAdded(images, w, vu, ends, n);
      ends := ends + [n];
      var measure := w.measures(|ends| - 1);
      if measure.MeasureFailed? {
        failed := true;
        return;
      }
      MinusTelescopes(vu.usedBytes, usage.usedBytes, measure.usage.usedBytes);
      report := report.(spaceReclaimed := (report.spaceReclaimed + Minus(usage.usedBytes, measure.usage.usedBytes)) % TWO_64);
      usage := measure.usage;
      i := n + 1;
      n := CountImagesToFree(images, n + 1, w.bytesToFree(usage));
    }
    report := report.Normalize();
    MinusMeans(vu.usedBytes, usage.usedBytes);
  }
}
