/**
  The images of werf.yaml: looking an image up by name, the two dependency relations
  between images, and the validation that finds dependency loops.
 */
module ImageGraph {
  import opened Common
  import opened Digraph

  /** An image section. Only stapel images have a base image; `fromArtifact` is empty unless
      the base is an artifact of the same config. */
  datatype Image = Image(
    name: string, stapel: bool, from: string, fromArtifact: string,
    imports: seq<string>, dependencies: seq<string>)
  {
    /** GetFrom. */
    function GetFrom(): string {
      if fromArtifact != "" then fromArtifact else from
    }

    /** dependsOn: what validation looks at. */
    function Depends(): DependsOn {
      if stapel then DependsOn(fromArtifact, imports, dependencies)
      else DependsOn("", [], dependencies)
    }
  }

  datatype DependsOn = DependsOn(from: string, imports: seq<string>, dependencies: seq<string>)
  {
    /** relatedImageNameList. */
    function RelatedImageNames(): seq<string> {
      (if from != "" then [from] else []) + imports + dependencies
    }
  }

  /** The first image of that name. */
  function Lookup(images: seq<Image>, name: string): (r: Option<Image>)
    ensures r.Some? ==> r.value in images && r.value.name == name
    ensures r.None? ==> forall x :: x in images ==> x.name != name
  {
    if |images| == 0 then None
    else if images[0].name == name then Some(images[0])
    else Lookup(images[1..], name)
  }

  /** It is the first image of that name. */
  lemma {:induction false} LookupIsFirst(images: seq<Image>, name: string, i: nat)
    requires i < |images|
    requires images[i].name == name && forall j :: 0 <= j < i ==> images[j].name != name
    ensures Lookup(images, name) == Some(images[i])
  {
    if i > 0 {
      assert forall j :: 0 <= j < i - 1 ==> images[1..][j] == images[j + 1];
      LookupIsFirst(images[1..], name, i - 1);
    }
  }

  // ----- The names an image depends on, by its fields

  /** What validation looks at. */
  predicate ValidatedName(x: Image, n: string) {
    n in x.dependencies || (x.stapel && (n in x.imports || (n == x.fromArtifact && n != "")))
  }

  /** What grouping looks at, provided that the name is one of an image of the config: the base
      of a stapel image is its artifact, or else its base image. */
  predicate GroupedName(x: Image, n: string) {
    || n in x.dependencies
    || (x.stapel && (n in x.imports || (n != "" && n == if x.fromArtifact != "" then x.fromArtifact else x.from)))
  }

  lemma ValidatedNames(x: Image, n: string)
    ensures n in x.Depends().RelatedImageNames() <==> ValidatedName(x, n)
  {
  }

  lemma GroupedNames(images: seq<Image>, x: Image, n: string)
    requires Lookup(images, n).Some?
    ensures n in UpdatedDependencies(images, x).RelatedImageNames() <==> GroupedName(x, n)
  {
  }

  lemma {:induction false} ResolvedAre(images: seq<Image>, names: seq<string>, y: Image)
    ensures y in Resolve(images, names) <==> exists n :: n in names && Lookup(images, n) == Some(y)
  {
    if |names| > 0 {
      ResolvedAre(images, names[1..], y);
      assert names[0] in names && forall n :: n in names <==> n == names[0] || n in names[1..];
    }
  }

  /** The successors of an image in the graph of grouping are exactly the images that its
      fields name. */
  lemma Successors(images: seq<Image>, x: Image, y: Image)
    requires x in UpdatedGraph(images)
    ensures y in UpdatedGraph(images)[x] <==> exists n :: GroupedName(x, n) && Lookup(images, n) == Some(y)
  {
    var names := UpdatedDependencies(images, x).RelatedImageNames();
    ResolvedAre(images, names, y);
    forall n | Lookup(images, n) == Some(y) ensures n in names <==> GroupedName(x, n) {
      GroupedNames(images, x, n);
    }
  }

  /** An edge of the graph of validation leads from a name to a name that the image names. */
  lemma ValidatedEdges(images: seq<Image>, name: string, n: string)
    requires name in ValidatedGraph(images)
    ensures Lookup(images, name).Some?
    ensures n in ValidatedGraph(images)[name] <==> ValidatedName(Lookup(images, name).value, n)
  {
    ValidatedNames(Lookup(images, name).value, n);
  }

  /** updateDependencies: what grouping looks at. The base of a stapel image counts when it
      names an image of the config. */
  function UpdatedDependencies(images: seq<Image>, x: Image): DependsOn {
    if !x.stapel then x.Depends()
    else DependsOn(if Lookup(images, x.GetFrom()).Some? then x.GetFrom() else "", x.imports, x.dependencies)
  }

  /** GetImage for each name of a list; validated configs have an image for every name. */
  function Resolve(images: seq<Image>, names: seq<string>): seq<Image> {
    if |names| == 0 then []
    else
      match Lookup(images, names[0])
      case None => Resolve(images, names[1..])
      case Some(x) => [x] + Resolve(images, names[1..])
  }

  lemma {:induction false} ResolvedAreNodes(images: seq<Image>, names: seq<string>)
    ensures forall x :: x in Resolve(images, names) ==> x in Nodes(images)
  {
    if |names| > 0 { ResolvedAreNodes(images, names[1..]); }
  }

  /** validateRelatedImages succeeds. */
  predicate RelatedImagesExist(images: seq<Image>) {
    forall x, n :: x in images && n in x.Depends().RelatedImageNames() ==> Lookup(images, n).Some?
  }

  /** The images that a lookup can return. */
  function Nodes(images: seq<Image>): set<Image> {
    set x | x in images && Lookup(images, x.name) == Some(x)
  }

  function Names(images: seq<Image>): (ns: set<string>)
    ensures forall n :: n in ns <==> Lookup(images, n).Some?
  {
    var ns := set x | x in images :: x.name;
    assert forall n :: n in ns <==> exists x :: x in images && x.name == n;
    ns
  }

  /** The relation that validation follows, between names. */
  ghost function ValidatedGraph(images: seq<Image>): Graph<string> {
    map n | n in Names(images) :: Lookup(images, n).value.Depends().RelatedImageNames()
  }

  /** The relation that grouping follows, between images. */
  function UpdatedGraph(images: seq<Image>): Graph<Image> {
    map x | x in Nodes(images) :: Resolve(images, UpdatedDependencies(images, x).RelatedImageNames())
  }

  lemma ValidatedGraphClosed(images: seq<Image>)
    requires RelatedImagesExist(images)
    ensures Closed(ValidatedGraph(images))
  {
  }

  lemma UpdatedGraphClosed(images: seq<Image>)
    ensures Closed(UpdatedGraph(images))
  {
    forall x | x in Nodes(images) ensures forall y :: y in UpdatedGraph(images)[x] ==> y in Nodes(images) {
      ResolvedAreNodes(images, UpdatedDependencies(images, x).RelatedImageNames());
    }
  }

  // ----- Loops between related images

  function Unvisited(g: Graph<string>, stack: seq<string>): set<string> {
    g.Keys - (set s | s in stack)
  }

  /** validateImageInfiniteLoop: the names on the way to a repetition, if there is one. */
  function FindLoop(g: Graph<string>, name: string, stack: seq<string>): Option<seq<string>>
    requires Closed(g) && name in g
    decreases |Unvisited(g, stack)|, 0, 0
  {
    if name in stack then Some([name])
    else
      assert Unvisited(g, stack + [name]) == Unvisited(g, stack) - {name};
      match FindFirstLoop(g, g[name], stack + [name])
      case None => None
      case Some(p) => Some([name] + p)
  }

  /** The loop over the related images; from an empty stack, over all images. */
  function FindFirstLoop(g: Graph<string>, names: seq<string>, stack: seq<string>): Option<seq<string>>
    requires Closed(g) && forall n :: n in names ==> n in g
    decreases |Unvisited(g, stack)|, 1, |names|
  {
    if |names| == 0 then None
    else
      match FindLoop(g, names[0], stack)
      case Some(p) => Some(p)
      case None => FindFirstLoop(g, names[1..], stack)
  }

  /** A reported loop is a walk along dependencies whose last name was met before. */
  ghost predicate RealLoop(g: Graph<string>, p: seq<string>, stack: seq<string>) {
    && IsWalk(g, p)
    && p[|p| - 1] in stack + p[..|p| - 1]
  }

  lemma {:induction false} LoopIsReal(g: Graph<string>, name: string, stack: seq<string>)
    requires Closed(g) && name in g
    ensures var r := FindLoop(g, name, stack);
            r.Some? ==> RealLoop(g, r.value, stack) && r.value[0] == name
    decreases |Unvisited(g, stack)|, 0, 0
  {
    if name !in stack {
      assert Unvisited(g, stack + [name]) == Unvisited(g, stack) - {name};
      FirstLoopIsReal(g, g[name], stack + [name]);
      var r := FindFirstLoop(g, g[name], stack + [name]);
      if r.Some? {
        var p := r.value;
        ConsWalk(g, name, p);
        var q := [name] + p;
        assert q[..|q| - 1] == [name] + p[..|p| - 1];
        assert stack + [name] + p[..|p| - 1] == stack + q[..|q| - 1];
      }
    } else {
      assert stack + [name][..0] == stack;
    }
  }

  lemma {:induction false} FirstLoopIsReal(g: Graph<string>, names: seq<string>, stack: seq<string>)
    requires Closed(g) && forall n :: n in names ==> n in g
    ensures var r := FindFirstLoop(g, names, stack);
            r.Some? ==> RealLoop(g, r.value, stack) && r.value[0] in names
    decreases |Unvisited(g, stack)|, 1, |names|
  {
    if |names| > 0 {
      LoopIsReal(g, names[0], stack);
      FirstLoopIsReal(g, names[1..], stack);
    }
  }

  lemma {:induction false} NoFirstLoop(g: Graph<string>, names: seq<string>, stack: seq<string>, name: string)
    requires Closed(g) && forall n :: n in names ==> n in g
    requires FindFirstLoop(g, names, stack).None?
    requires name in names
    ensures FindLoop(g, name, stack).None?
  {
    if name != names[0] {
      NoFirstLoop(g, names[1..], stack, name);
    }
  }

  /** When nothing is reported, no walk meets a name twice or comes to a name on the stack. */
  lemma {:induction false} NoLoopMissed(g: Graph<string>, name: string, stack: seq<string>, w: seq<string>)
    requires Closed(g) && name in g
    requires FindLoop(g, name, stack).None?
    requires IsWalk(g, w) && w[0] == name
    ensures Distinct(w)
    ensures forall n :: n in w ==> n !in stack
    decreases |w|
  {
    if |w| > 1 {
      var v := w[1..];
      SubWalk(g, w, 1, |w|);
      assert w[1..|w|] == v;
      assert w[1] in g[w[0]];
      NoFirstLoop(g, g[name], stack + [name], w[1]);
      NoLoopMissed(g, w[1], stack + [name], v);
      forall i, j | 0 <= i < j < |w| ensures w[i] != w[j] {
        assert w[j] == v[j - 1] && v[j - 1] in v;
        if i > 0 { assert w[i] == v[i - 1]; }
      }
      forall n | n in w ensures n !in stack {
        if n != name {
          var i :| 0 <= i < |w| && w[i] == n;
          assert v[i - 1] == n && n in v;
          assert n !in stack + [name];
        }
      }
    }
  }

  function ImageNames(images: seq<Image>): (names: seq<string>)
    ensures forall n :: n in names <==> n in Names(images)
  {
    var names := seq(|images|, i requires 0 <= i < |images| => images[i].name);
    assert forall i :: 0 <= i < |images| ==> names[i] == images[i].name;
    assert forall x :: x in images ==> x.name in names;
    names
  }

  /** validateInfiniteLoopBetweenRelatedImages, after validateRelatedImages. */
  ghost function ValidateInfiniteLoop(images: seq<Image>): Option<seq<string>>
    requires RelatedImagesExist(images)
  {
    ValidatedGraphClosed(images);
    FindFirstLoop(ValidatedGraph(images), ImageNames(images), [])
  }

  /** Validation succeeds exactly when the images do not depend on each other in a circle,
      and otherwise reports a real loop. */
  lemma LoopValidation(images: seq<Image>)
    requires RelatedImagesExist(images)
    ensures ValidateInfiniteLoop(images).None? <==> Acyclic(ValidatedGraph(images))
    ensures var r := ValidateInfiniteLoop(images);
            r.Some? ==> RealLoop(ValidatedGraph(images), r.value, [])
  {
    var g, names := ValidatedGraph(images), ImageNames(images);
    ValidatedGraphClosed(images);
    var r := FindFirstLoop(g, names, []);
    FirstLoopIsReal(g, names, []);
    AcyclicMeansDistinct(g);
    if r.None? {
      forall w | IsWalk(g, w) ensures Distinct(w) {
        assert w[0] in g;
        NoFirstLoop(g, names, [], w[0]);
        NoLoopMissed(g, w[0], [], w);
      }
    } else {
      var p := r.value;
      var i :| 0 <= i < |p| - 1 && p[..|p| - 1][i] == p[|p| - 1];
      assert !Distinct(p);
    }
  }
}
