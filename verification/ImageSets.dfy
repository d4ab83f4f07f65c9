/**
  Grouping the images to process into sets that can be built one after another: the lookup
  with its cache, the closure of the requested images, and the rounds of grouping.
 */
module ImageSets {
  import opened Common
  import opened Digraph
  import opened ImageGraph

  class WerfConfig {
    const images: seq<Image>
    var imagesCache: map<string, Image>
    /** Images marked by SetFromExternal. */
    var fromExternal: set<Image>

    ghost predicate Valid()
      reads this
    {
      forall n :: n in imagesCache ==> Lookup(images, n) == Some(imagesCache[n])
    }

    constructor (images: seq<Image>)
      ensures Valid() && this.images == images && fromExternal == {}
    {
      this.images := images;
      imagesCache := map[];
      fromExternal := {};
    }

    /** The cached lookup is the scan for the first image of that name. */
    method GetImage(name: string) returns (r: Option<Image>)
      requires Valid()
      modifies this`imagesCache
      ensures Valid()
      ensures r == Lookup(images, name)
      ensures imagesCache == if r.Some? then old(imagesCache)[name := r.value] else old(imagesCache)
    {
      if name in imagesCache {
        return Some(imagesCache[name]);
      }
      for i := 0 to |images|
        invariant Lookup(images, name) == Lookup(images[i..], name)
      {
        assert images[i..][0] == images[i] && images[i..][1..] == images[i + 1..];
        if images[i].name == name {
          imagesCache := imagesCache[name := images[i]];
          return Some(images[i]);
        }
      }
      return None;
    }

    /** updateDependencies: a base that names no image is marked as external. */
    method UpdateDependencies(x: Image) returns (d: DependsOn)
      requires Valid()
      modifies this
      ensures Valid()
      ensures d == UpdatedDependencies(images, x)
      ensures fromExternal == old(fromExternal) + BaseMark(images, x)
    {
      if !x.stapel {
        return x.Depends();
      }
      var from := "";
      var base := GetImage(x.GetFrom());
      if base.Some? {
        from := x.GetFrom();
      } else {
        fromExternal := fromExternal + {x};
      }
      return DependsOn(from, x.imports, x.dependencies);
    }

    /** The related images of `x`, each looked up by name. */
    method RelativesOf(x: Image) returns (relatives: seq<Image>)
      requires Valid() && RelatedImagesExist(images)
      requires x in UpdatedGraph(images)
      modifies this
      ensures Valid()
      ensures relatives == UpdatedGraph(images)[x]
      ensures fromExternal == old(fromExternal) + BaseMark(images, x)
    {
      hide *;
      UpdatedNamesExist(images, x);
      var d := UpdateDependencies(x);
      relatives := ImagesNamed(d.RelatedImageNames());
    }

    /** The images of a list of names, which all name an image. */
    method ImagesNamed(names: seq<string>) returns (result: seq<Image>)
      requires Valid()
      requires forall n :: n in names ==> Lookup(images, n).Some?
      modifies this`imagesCache
      ensures Valid()
      ensures result == Resolve(images, names)
    {
      hide *;
      result := [];
      ResolveEmpty(images, names);
      for i := 0 to |names|
        invariant Valid()
        invariant Resolve(images, names) == result + Resolve(images, names[i..])
      {
        ResolveNext(images, names, i);
        var r := GetImage(names[i]);
        result := result + [r.value];
      }
    }

    /** getImageRelativesInOrder: exactly the images reached from the request, each with its
        direct dependencies. An image may be queued again while it is waiting or after it
        was handled; the loop ends all the same. */
    method GetImageRelatives(requested: seq<Image>) returns (relatives: Graph<Image>)
      requires Valid() && RelatedImagesExist(images)
      requires forall x :: x in requested ==> x in UpdatedGraph(images)
      modifies this
      ensures Valid()
      ensures forall x :: x in relatives <==> Reaches(UpdatedGraph(images), requested, x)
      ensures forall x :: x in relatives ==> x in UpdatedGraph(images) && relatives[x] == UpdatedGraph(images)[x]
      ensures fromExternal == old(fromExternal) + MarkedBases(images, relatives)
    {
      hide *;
      ghost var g := UpdatedGraph(images);
      UpdatedGraphClosed(images);
      relatives := map[];
      var queue := requested;
      ExploreStart(g, requested);
      NoMarkedBases(images);
      while |queue| != 0
        invariant Valid()
        invariant Exploring(g, requested, relatives, queue)
        invariant fromExternal == old(fromExternal) + MarkedBases(images, relatives)
        decreases |g.Keys - relatives.Keys|, Handled(queue, relatives.Keys)
      {
        var current := queue[0];
        ghost var waiting, handled := queue, relatives;
        ExploreNext(g, requested, relatives, queue);
        var related := RelativesOf(current);
        relatives := relatives[current := related];
        MarkedBasesStep(images, handled, current, related);
        queue := EnqueueNew(queue[1..], related, relatives);
        ExploreStep(g, requested, handled, waiting, queue, relatives);
        ExploreProgress(g, handled, waiting, queue, relatives);
      }
      ExploreEnd(g, requested, relatives, queue);
    }

    /** getSpecificImages; the names were found in the config before. */
    method GetSpecificImages(names: seq<string>) returns (result: seq<Image>)
      requires Valid()
      requires forall n :: n in names ==> Lookup(images, n).Some?
      modifies this`imagesCache
      ensures Valid()
      ensures |result| == |names| && forall i :: 0 <= i < |names| ==> Lookup(images, names[i]) == Some(result[i])
    {
      result := [];
      for i := 0 to |names|
        invariant Valid() && |result| == i
        invariant forall j :: 0 <= j < i ==> Lookup(images, names[j]) == Some(result[j])
      {
        assert names[i] in names;
        var image := GetImage(names[i]);
        result := result + [image.value];
      }
    }

    /** GroupImagesByIndependentSets: set `k` holds exactly the images reached from the
        request whose longest dependency chain has `k` links, each of them once, and no set
        is empty. The order within a set is the order in which the table is visited, which
        is left open. */
    method GroupImagesByIndependentSets(withoutImages: bool, names: seq<string>) returns (sets: seq<seq<Image>>)
      requires Valid() && RelatedImagesExist(images)
      requires forall n :: n in names ==> Lookup(images, n).Some?
      requires AcyclicFrom(UpdatedGraph(images), Requested(images, names))
      modifies this
      ensures Valid()
      ensures withoutImages ==> sets == []
      ensures !withoutImages ==> Layered(UpdatedGraph(images), Requested(images, names), sets)
      ensures forall k, x, n, y :: 0 <= k < |sets| && x in sets[k] && GroupedName(x, n) && Lookup(images, n) == Some(y) ==>
                InEarlierSet(sets, k, y)
      ensures !withoutImages ==> forall n :: n in names ==> InEarlierSet(sets, |sets|, Lookup(images, n).value)
    {
      hide UpdatedGraph, RelatedImagesExist, Lookup, GroupedName;
      if withoutImages { return []; }
      ghost var g := UpdatedGraph(images);
      var requested := GetSpecificImages(names);
      RequestedAre(images, names, requested);
      var relatives := GetImageRelatives(requested);
      UpdatedGraphClosed(images);
      ReachedIsPart(g, requested, relatives);
      sets := GroupRounds(relatives);
      LayersOfPart(g, requested, relatives, sets);
      NamedComeFirst(images, requested, sets);
      assert forall i :: 0 <= i < |names| ==> requested[i] in requested;
    }

    /** The rounds of grouping over the table of relatives. */
    static method GroupRounds(relatives: Graph<Image>) returns (sets: seq<seq<Image>>)
      requires Closed(relatives) && Acyclic(relatives)
      ensures FirstLayers(relatives, sets)
      ensures forall x :: x in relatives ==> exists k :: 0 <= k < |sets| && x in sets[k]
    {
      hide *;
      sets := [];
      var checked: set<Image> := {};
      var toHandle := relatives;
      NothingTaken(relatives);
      while |toHandle| != 0
        invariant checked == TakenAfter(relatives, |sets|)
        invariant toHandle == relatives - checked
        invariant FirstLayers(relatives, sets)
        decreases |toHandle|
      {
        var current := CollectReady(toHandle, checked);
        CollectedAreReady(relatives, checked, toHandle, current);
        NextRound(relatives, sets, current);
        NextTaken(relatives, |sets|, current);
        LeftAfter(relatives, checked, toHandle, current);
        checked := checked + Elements(current);
        toHandle := toHandle - Elements(current);
        sets := sets + [current];
      }
      NothingLeft(relatives, checked, toHandle);
      LayersHoldTaken(relatives, sets);
    }

    /** One pass over the table, in any order: the images all of whose relatives are
        checked. */
    static method CollectReady(toHandle: Graph<Image>, checked: set<Image>) returns (current: seq<Image>)
      ensures Distinct(current)
      ensures forall x :: x in current <==> x in toHandle && forall y :: y in toHandle[x] ==> y in checked
    {
      current := [];
      var rest := toHandle.Keys;
      while rest != {}
        invariant rest <= toHandle.Keys
        invariant Distinct(current)
        invariant forall x :: x in current <==>
                    x in toHandle && x !in rest && forall y :: y in toHandle[x] ==> y in checked
        decreases rest
      {
        var image :| image in rest;
        rest := rest - {image};
        var ready := AllChecked(toHandle[image], checked);
        if ready {
          DistinctAppend(current, image);
          current := current + [image];
        }
      }
    }

    static method AllChecked(related: seq<Image>, checked: set<Image>) returns (all: bool)
      ensures all <==> forall y :: y in related ==> y in checked
    {
      for i := 0 to |related|
        invariant forall j :: 0 <= j < i ==> related[j] in checked
      {
        if related[i] !in checked { return false; }
      }
      return true;
    }

    /** The inner loop: related images that are not handled yet join the queue. */
    static method EnqueueNew(queue: seq<Image>, related: seq<Image>, relatives: Graph<Image>) returns (queue': seq<Image>)
      ensures forall x :: x in queue' <==> x in queue || (x in related && x !in relatives)
      ensures Handled(queue', relatives.Keys) == Handled(queue, relatives.Keys)
    {
      queue' := queue;
      for i := 0 to |related|
        invariant forall x :: x in queue' <==> x in queue || (x in related[..i] && x !in relatives)
        invariant Handled(queue', relatives.Keys) == Handled(queue, relatives.Keys)
      {
        assert forall x :: x in related[..i + 1] <==> x in related[..i] || x == related[i];
        if related[i] !in relatives {
          HandledAppend(queue', related[i], relatives.Keys);
          queue' := queue' + [related[i]];
        }
      }
      assert related[..|related|] == related;
    }
  }

  /** The images of the requested names. */
  function Requested(images: seq<Image>, names: seq<string>): seq<Image>
    requires forall n :: n in names ==> Lookup(images, n).Some?
  {
    seq(|names|, i requires 0 <= i < |names| => assert names[i] in names; Lookup(images, names[i]).value)
  }

  lemma RequestedAre(images: seq<Image>, names: seq<string>, requested: seq<Image>)
    requires forall n :: n in names ==> Lookup(images, n).Some?
    requires |requested| == |names| && forall i :: 0 <= i < |names| ==> Lookup(images, names[i]) == Some(requested[i])
    ensures requested == Requested(images, names)
    ensures forall x :: x in requested ==> x in UpdatedGraph(images)
  {
  }

  /** No dependency circle can be reached from the roots. */
  ghost predicate AcyclicFrom(g: Graph<Image>, roots: seq<Image>) {
    forall w :: IsWalk(g, w) && |w| > 1 && Reaches(g, roots, w[0]) ==> w[0] != w[|w| - 1]
  }

  /** The images reached from the roots, set by set: all of them and nothing else, each in
      the set of its longest dependency chain. */
  ghost predicate Layered(g: Graph<Image>, roots: seq<Image>, sets: seq<seq<Image>>) {
    && (forall k :: 0 <= k < |sets| ==> |sets[k]| > 0 && Distinct(sets[k]))
    && (forall k, x :: 0 <= k < |sets| ==> (x in sets[k] <==> Reaches(g, roots, x) && Longest(g, x, k)))
    && (forall x :: Reaches(g, roots, x) ==> exists k :: 0 <= k < |sets| && x in sets[k])
  }

  /** In a layered list every dependency of an image is in a strictly earlier set. */
  lemma DependenciesComeFirst(g: Graph<Image>, roots: seq<Image>, sets: seq<seq<Image>>, k: nat, x: Image, y: Image)
    requires Closed(g) && Layered(g, roots, sets)
    requires k < |sets| && x in sets[k] && x in g && y in g[x]
    ensures exists j :: 0 <= j < k && y in sets[j]
  {
    SuccessorReached(g, roots, x, y);
    var j :| 0 <= j < |sets| && y in sets[j];
    if j >= k {
      ShorterWalk(g, y, k, j);
      WalkFromSuccessor(g, x, k);
    }
  }

  ghost predicate InEarlierSet(sets: seq<seq<Image>>, k: nat, y: Image)
    requires k <= |sets|
  {
    exists j :: 0 <= j < k && y in sets[j]
  }

  /** By the fields of the images: whatever an image names, as an import, a dependency or its
      base, is in a strictly earlier set if it is an image of the config; and every image that
      was requested is in some set. */
  lemma NamedComeFirst(images: seq<Image>, requested: seq<Image>, sets: seq<seq<Image>>)
    requires Layered(UpdatedGraph(images), requested, sets)
    requires forall x :: x in requested ==> x in UpdatedGraph(images)
    ensures forall k, x, n, y :: 0 <= k < |sets| && x in sets[k] && GroupedName(x, n) && Lookup(images, n) == Some(y) ==>
              InEarlierSet(sets, k, y)
    ensures forall x :: x in requested ==> InEarlierSet(sets, |sets|, x)
  {
    hide UpdatedGraph, Lookup, GroupedName, Longest;
    var g := UpdatedGraph(images);
    UpdatedGraphClosed(images);
    forall k, x, n, y | 0 <= k < |sets| && x in sets[k] && GroupedName(x, n) && Lookup(images, n) == Some(y)
      ensures InEarlierSet(sets, k, y)
    {
      assert Reaches(g, requested, x);
      Successors(images, x, y);
      DependenciesComeFirst(g, requested, sets, k, x, y);
    }
    forall x | x in requested ensures InEarlierSet(sets, |sets|, x) {
      RootReached(g, requested, x);
    }
  }

  lemma ReachedIsPart(g: Graph<Image>, requested: seq<Image>, relatives: Graph<Image>)
    requires Closed(g) && AcyclicFrom(g, requested)
    requires forall x :: x in relatives <==> Reaches(g, requested, x)
    requires forall x :: x in relatives ==> x in g && relatives[x] == g[x]
    ensures ClosedPart(relatives, g) && Acyclic(relatives)
  {
    forall x, y | x in relatives && y in relatives[x] ensures y in relatives {
      SuccessorReached(g, requested, x, y);
    }
    forall w | IsWalk(relatives, w) && |w| > 1 ensures w[0] != w[|w| - 1] {
      PartHasSameWalks(relatives, g, w);
    }
  }

  /** The rounds over the images reached from a request come to an end exactly when no
      dependency circle is reached from it. */
  lemma GroupingEnds(g: Graph<Image>, requested: seq<Image>, relatives: Graph<Image>)
    requires Closed(g)
    requires forall x :: x in relatives <==> Reaches(g, requested, x)
    requires forall x :: x in relatives ==> x in g && relatives[x] == g[x]
    ensures (exists k :: TakenAfter(relatives, k) == relatives.Keys) <==> AcyclicFrom(g, requested)
  {
    assert ClosedPart(relatives, g) by {
      forall x, y | x in relatives && y in relatives[x] ensures y in relatives {
        SuccessorReached(g, requested, x, y);
      }
    }
    hide Reaches, ClosedPart, TakenAfter;
    RoundsFinish(relatives);
    forall w | |w| > 0 && w[0] in relatives ensures IsWalk(relatives, w) <==> IsWalk(g, w) {
      PartHasSameWalks(relatives, g, w);
    }
  }

  lemma LayersOfPart(g: Graph<Image>, requested: seq<Image>, relatives: Graph<Image>, sets: seq<seq<Image>>)
    requires ClosedPart(relatives, g)
    requires forall x :: x in relatives <==> Reaches(g, requested, x)
    requires FirstLayers(relatives, sets)
    requires forall x :: x in relatives ==> exists k :: 0 <= k < |sets| && x in sets[k]
    ensures Layered(g, requested, sets)
  {
    hide HasWalk, Reaches, ClosedPart;
    forall k, x | 0 <= k < |sets| ensures x in sets[k] <==> Reaches(g, requested, x) && Longest(g, x, k) {
      if x in relatives {
        PartHasSameLongest(relatives, g, x, k);
        PartHasSameLongest(relatives, g, x, k + 1);
      }
    }
  }

  /** The sets of the first rounds. */
  ghost predicate FirstLayers(g: Graph<Image>, sets: seq<seq<Image>>) {
    && (forall k :: 0 <= k < |sets| ==> |sets[k]| > 0 && Distinct(sets[k]))
    && (forall k, x :: 0 <= k < |sets| ==> (x in sets[k] <==> x in g && Longest(g, x, k)))
  }

  lemma NothingTaken(g: Graph<Image>)
    ensures TakenAfter(g, 0) == {}
    ensures g - {} == g
    ensures FirstLayers(g, [])
  {
  }

  function Elements<T(==)>(s: seq<T>): set<T> {
    set x | x in s
  }

  lemma NothingLeft(g: Graph<Image>, checked: set<Image>, toHandle: Graph<Image>)
    requires toHandle == g - checked && |toHandle| == 0
    ensures g.Keys <= checked
  {
    assert toHandle.Keys == {};
    assert forall x :: x in g.Keys ==> x in checked || x in toHandle.Keys;
  }

  lemma CollectedAreReady(g: Graph<Image>, checked: set<Image>, toHandle: Graph<Image>, current: seq<Image>)
    requires toHandle == g - checked && |toHandle| != 0
    requires forall x :: x in current <==> x in toHandle && forall y :: y in toHandle[x] ==> y in checked
    ensures Elements(current) == Ready(g, checked)
    ensures g.Keys != checked
  {
  }

  lemma LeftAfter(g: Graph<Image>, checked: set<Image>, toHandle: Graph<Image>, current: seq<Image>)
    requires toHandle == g - checked
    requires |current| > 0 && current[0] in toHandle
    ensures toHandle - Elements(current) == g - (checked + Elements(current))
    ensures |toHandle - Elements(current)| < |toHandle|
  {
    var rest := toHandle - Elements(current);
    assert current[0] in Elements(current);
    assert rest.Keys <= toHandle.Keys - {current[0]};
    SmallerSet(rest.Keys, toHandle.Keys - {current[0]});
  }

  /** One round: the images collected are the next layer. */
  lemma NextRound(g: Graph<Image>, sets: seq<seq<Image>>, current: seq<Image>)
    requires Closed(g) && Acyclic(g)
    requires FirstLayers(g, sets)
    requires TakenAfter(g, |sets|) != g.Keys
    requires Distinct(current)
    requires Elements(current) == Ready(g, TakenAfter(g, |sets|))
    ensures |current| > 0
    ensures FirstLayers(g, sets + [current])
  {
    hide Longest, TakenAfter, Ready, Acyclic, Closed;
    var k, sets' := |sets|, sets + [current];
    RoundTakesLongest(g, k);
    RoundTakesSomething(g, k);
    assert forall x :: x in current <==> x in Elements(current);
    assert |current| == 0 ==> Elements(current) == {};
    assert forall i :: 0 <= i < k ==> sets'[i] == sets[i];
    assert sets'[k] == current;
  }

  lemma NextTaken(g: Graph<Image>, k: nat, current: seq<Image>)
    requires Elements(current) == Ready(g, TakenAfter(g, k))
    requires |current| > 0
    ensures TakenAfter(g, k + 1) == TakenAfter(g, k) + Elements(current)
    ensures current[0] in g - TakenAfter(g, k)
  {
    assert current[0] in Elements(current);
  }

  lemma LayersHoldTaken(g: Graph<Image>, sets: seq<seq<Image>>)
    requires Closed(g)
    requires FirstLayers(g, sets)
    requires g.Keys <= TakenAfter(g, |sets|)
    ensures forall x :: x in g ==> exists k :: 0 <= k < |sets| && x in sets[k]
  {
    TakenHaveShortWalks(g, |sets|);
    forall x | x in g ensures exists k :: 0 <= k < |sets| && x in sets[k] {
      var k := LongestBelow(g, x, |sets|);
      assert x in sets[k];
    }
  }

  /** Validation does not see the base of a stapel image unless it is an artifact. An image
      that is named like its base passes validation, and grouping it never ends: no number
      of rounds takes it. */
  lemma ValidatedYetGroupedForever(x: Image)
    requires x.stapel && x.name == x.from && x.from != "" && x.fromArtifact == ""
    requires x.imports == [] && x.dependencies == []
    ensures RelatedImagesExist([x])
    ensures ValidateInfiniteLoop([x]).None?
    ensures UpdatedGraph([x]) == map[x := [x]]
    ensures forall k :: TakenAfter(UpdatedGraph([x]), k) != UpdatedGraph([x]).Keys
  {
    var images := [x];
    var g := UpdatedGraph(images);
    LoneImage(x);
    LoopValidation(images);
    assert Acyclic(ValidatedGraph(images)) by {
      forall w | IsWalk(ValidatedGraph(images), w) ensures |w| <= 1 {
        WalkHasEdge(ValidatedGraph(images), w);
      }
    }
    RoundsFinish(g);
    assert IsWalk(g, [x, x]) && [x, x][0] == [x, x][|[x, x]| - 1];
  }

  lemma LoneImage(x: Image)
    requires x.stapel && x.name == x.from && x.from != "" && x.fromArtifact == ""
    requires x.imports == [] && x.dependencies == []
    ensures RelatedImagesExist([x])
    ensures forall n :: n in ValidatedGraph([x]) ==> ValidatedGraph([x])[n] == []
    ensures UpdatedGraph([x]) == map[x := [x]]
    ensures Closed(UpdatedGraph([x]))
  {
    var images := [x];
    assert x in images;
    assert Lookup(images, x.name) == Some(x);
    assert x.Depends().RelatedImageNames() == [];
    assert UpdatedDependencies(images, x).RelatedImageNames() == [x.from];
    ResolveNext(images, [x.from], 0);
    ResolveEmpty(images, [x.from]);
    assert Resolve(images, [x.from]) == [x];
    assert Nodes(images) == {x};
  }

  /** The state of the closure: what is handled has its direct dependencies, and what is
      known but not handled waits in the queue. */
  ghost predicate Exploring(g: Graph<Image>, requested: seq<Image>, relatives: Graph<Image>, queue: seq<Image>) {
    && Closed(g)
    && (forall x :: x in queue ==> x in g && Reaches(g, requested, x))
    && (forall x :: x in relatives ==> x in g && Reaches(g, requested, x) && relatives[x] == g[x])
    && (forall x :: x in requested ==> x in relatives || x in queue)
    && (forall x, y :: x in relatives && y in g[x] ==> y in relatives || y in queue)
  }

  lemma ExploreStart(g: Graph<Image>, requested: seq<Image>)
    requires Closed(g)
    requires forall x :: x in requested ==> x in g
    ensures Exploring(g, requested, map[], requested)
  {
    forall x | x in requested ensures Reaches(g, requested, x) { RootReached(g, requested, x); }
  }

  lemma ExploreNext(g: Graph<Image>, requested: seq<Image>, relatives: Graph<Image>, queue: seq<Image>)
    requires |queue| > 0
    requires Exploring(g, requested, relatives, queue)
    ensures queue[0] in g
  {
  }

  lemma ExploreStep(g: Graph<Image>, requested: seq<Image>, relatives: Graph<Image>, queue: seq<Image>,
                    queue': seq<Image>, relatives': Graph<Image>)
    requires |queue| > 0
    requires Exploring(g, requested, relatives, queue)
    requires queue[0] in g && relatives' == relatives[queue[0] := g[queue[0]]]
    requires forall x :: x in queue' <==> x in queue[1..] || (x in g[queue[0]] && x !in relatives')
    ensures Exploring(g, requested, relatives', queue')
  {
    var current := queue[0];
    assert forall x :: x in queue ==> x == current || x in queue[1..];
    assert Reaches(g, requested, current);
    hide Reaches;
    forall y | y in g[current] ensures Reaches(g, requested, y) {
      SuccessorReached(g, requested, current, y);
    }
  }

  /** One turn of the loop either handles a new image or takes an image that was handled
      already out of the queue. */
  lemma ExploreProgress(g: Graph<Image>, relatives: Graph<Image>, queue: seq<Image>,
                        queue': seq<Image>, relatives': Graph<Image>)
    requires |queue| > 0
    requires queue[0] in g && relatives' == relatives[queue[0] := g[queue[0]]]
    requires Handled(queue', relatives'.Keys) == Handled(queue[1..], relatives'.Keys)
    ensures |g.Keys - relatives'.Keys| < |g.Keys - relatives.Keys| ||
            (relatives'.Keys == relatives.Keys && Handled(queue', relatives'.Keys) < Handled(queue, relatives.Keys))
  {
    if queue[0] in relatives {
      assert relatives'.Keys == relatives.Keys;
    } else {
      assert g.Keys - relatives'.Keys == (g.Keys - relatives.Keys) - {queue[0]};
    }
  }

  lemma ExploreEnd(g: Graph<Image>, requested: seq<Image>, relatives: Graph<Image>, queue: seq<Image>)
    requires Exploring(g, requested, relatives, queue) && |queue| == 0
    ensures forall x :: x in relatives <==> Reaches(g, requested, x)
    ensures forall x :: x in relatives ==> x in g && relatives[x] == g[x]
  {
    hide Reaches;
    forall x | Reaches(g, requested, x) ensures x in relatives {
      ClosedSetHoldsReached(g, requested, relatives.Keys, x);
    }
  }

  /** The image, if its base has to be marked as external. */
  function BaseMark(images: seq<Image>, x: Image): set<Image> {
    if x.stapel && Lookup(images, x.GetFrom()).None? then {x} else {}
  }

  /** The images of the table whose base has to be marked as external. */
  function MarkedBases(images: seq<Image>, table: Graph<Image>): set<Image> {
    set x | x in table.Keys && x in BaseMark(images, x)
  }

  /** Exactly the stapel images of the table whose artifact, or else base image, bears the name
      of no image of the config. */
  lemma MarkedAre(images: seq<Image>, table: Graph<Image>, x: Image)
    ensures x in MarkedBases(images, table) <==>
            && x in table && x.stapel
            && forall y :: y in images ==> y.name != if x.fromArtifact != "" then x.fromArtifact else x.from
  {
  }

  lemma NoMarkedBases(images: seq<Image>)
    ensures MarkedBases(images, map[]) == {}
  {
  }

  lemma MarkedBasesStep(images: seq<Image>, table: Graph<Image>, x: Image, related: seq<Image>)
    ensures MarkedBases(images, table[x := related]) == MarkedBases(images, table) + BaseMark(images, x)
  {
  }

  lemma UpdatedNamesExist(images: seq<Image>, x: Image)
    requires RelatedImagesExist(images)
    requires x in UpdatedGraph(images)
    ensures forall n :: n in UpdatedDependencies(images, x).RelatedImageNames() ==> Lookup(images, n).Some?
    ensures UpdatedGraph(images)[x] == Resolve(images, UpdatedDependencies(images, x).RelatedImageNames())
  {
  }

  lemma ResolveNext(images: seq<Image>, names: seq<string>, i: nat)
    requires i < |names| && Lookup(images, names[i]).Some?
    ensures Resolve(images, names[i..]) == [Lookup(images, names[i]).value] + Resolve(images, names[i + 1..])
  {
  }

  lemma ResolveEmpty(images: seq<Image>, names: seq<string>)
    ensures names[0..] == names
    ensures Resolve(images, names[|names|..]) == []
  {
  }

  /** How many entries of the queue were handled already. */
  ghost function Handled(queue: seq<Image>, seen: set<Image>): nat {
    if |queue| == 0 then 0 else (if queue[0] in seen then 1 else 0) + Handled(queue[1..], seen)
  }

  lemma {:induction false} HandledAppend(queue: seq<Image>, x: Image, seen: set<Image>)
    requires x !in seen
    ensures Handled(queue + [x], seen) == Handled(queue, seen)
  {
    if |queue| > 0 {
      HandledAppend(queue[1..], x, seen);
      assert (queue + [x])[1..] == queue[1..] + [x];
    }
  }
}
