/**
  Names built from slugs: docker tags, Kubernetes namespaces, Helm releases and projects,
  against their own validators.
 */
module Names {
  import opened Slugs

  const DOCKER_TAG_MAX_SIZE := 128
  const KUBERNETES_NAMESPACE_MAX_SIZE := 63
  const HELM_RELEASE_MAX_SIZE := 53
  const PROJECT_NAME_MAX_SIZE := 50

  predicate WordRune(r: Rune) {
    r.Ascii? && ('a' <= r.c <= 'z' || 'A' <= r.c <= 'Z' || '0' <= r.c <= '9' || r.c == '_')
  }

  /** A word rune, then word runes, dots and dashes. */
  predicate ValidDockerTag(name: Text) {
    || |name| == 0
    || (&& WordRune(name[0])
        && (forall i :: 0 <= i < |name| ==> WordRune(name[i]) || name[i] == Ascii('.') || name[i] == DASH)
        && Len(name) <= DOCKER_TAG_MAX_SIZE)
  }

  /** The label of section 2.1 of RFC 1123, in lower case: letters, digits and dashes, with
      a letter or a digit at both ends. */
  predicate Label(name: Text) {
    |name| > 0 && AlnumOrDash(name) && name[0].Alnum() && name[|name| - 1].Alnum()
  }

  predicate ValidNamespace(name: Text) {
    |name| == 0 || (Len(name) <= KUBERNETES_NAMESPACE_MAX_SIZE && Label(name))
  }

  /** Labels with dots between them. */
  predicate Subdomain(name: Text) {
    Label(name) || exists i :: 0 <= i < |name| && name[i] == Ascii('.') && Label(name[..i]) && Subdomain(name[i + 1..])
  }

  predicate ValidHelmRelease(name: Text) {
    |name| == 0 || (Len(name) <= HELM_RELEASE_MAX_SIZE && Subdomain(name))
  }

  predicate ValidProject(name: Text) {
    |name| == 0 || (Label(name) && Len(name) <= PROJECT_NAME_MAX_SIZE)
  }

  function DockerTag(e: Rules, name: Text): Text
    requires e.Valid()
  {
    if ValidDockerTag(name) then name else Slug(e, name, DOCKER_TAG_MAX_SIZE)
  }

  function KubernetesNamespace(e: Rules, name: Text): Text
    requires e.Valid()
  {
    if ValidNamespace(name) then name else Slug(e, name, KUBERNETES_NAMESPACE_MAX_SIZE)
  }

  function HelmRelease(e: Rules, name: Text): Text
    requires e.Valid()
  {
    if ValidHelmRelease(name) then name else Slug(e, name, HELM_RELEASE_MAX_SIZE)
  }

  /** The slug is ASCII, so cutting bytes is cutting runes. */
  function Project(e: Rules, name: Text): Text
    requires e.Valid()
  {
    if ValidProject(name) then name
    else
      var res := Slugify(e, name);
      if |res| > PROJECT_NAME_MAX_SIZE then res[..PROJECT_NAME_MAX_SIZE] else res
  }

  // ----- The validators, character by character

  predicate LowerOrDigit(r: Rune) {
    r.Ascii? && ('a' <= r.c <= 'z' || '0' <= r.c <= '9')
  }

  /** A docker tag may be empty; it has up to 128 bytes of letters, digits, underscores and,
      except at the beginning, dots and dashes. */
  lemma DockerTagGrammar(name: Text)
    ensures ValidDockerTag(name) <==>
            || name == []
            || (&& Len(name) <= 128
                && forall i :: 0 <= i < |name| ==>
                     || LowerOrDigit(name[i])
                     || (name[i].Ascii? && ('A' <= name[i].c <= 'Z' || name[i].c == '_'))
                     || (i > 0 && name[i].Ascii? && (name[i].c == '.' || name[i].c == '-')))
  {
  }

  /** Lower-case letters and digits, and dashes except at the ends. */
  predicate LabelText(name: Text) {
    forall i :: 0 <= i < |name| ==> LowerOrDigit(name[i]) || (0 < i < |name| - 1 && name[i] == Ascii('-'))
  }

  /** A namespace may be empty or is a label of up to 63 bytes, and a project one of up to 50. */
  lemma LabelGrammar(name: Text)
    ensures ValidNamespace(name) <==> name == [] || (Len(name) <= 63 && LabelText(name))
    ensures ValidProject(name) <==> name == [] || (Len(name) <= 50 && LabelText(name))
  {
    LabelIs(name);
  }

  lemma LabelIs(name: Text)
    ensures Label(name) <==> |name| > 0 && LabelText(name)
  {
  }

  /** A letter or digit; a dash that is not at an end; or a dot between letters or digits. */
  predicate SubdomainRune(name: Text, i: nat)
    requires i < |name|
  {
    || LowerOrDigit(name[i])
    || (0 < i < |name| - 1 && name[i] == Ascii('-'))
    || (0 < i < |name| - 1 && name[i] == Ascii('.') && LowerOrDigit(name[i - 1]) && LowerOrDigit(name[i + 1]))
  }

  predicate SubdomainText(name: Text) {
    forall i :: 0 <= i < |name| ==> SubdomainRune(name, i)
  }

  lemma {:induction false} SubdomainIs(name: Text)
    ensures Subdomain(name) <==> |name| > 0 && SubdomainText(name)
    decreases |name|
  {
    LabelIs(name);
    forall i | 0 <= i < |name| && name[i] == Ascii('.')
      ensures |name| > 0 && SubdomainText(name) <==>
              && |name[..i]| > 0 && SubdomainText(name[..i])
              && |name[i + 1..]| > 0 && SubdomainText(name[i + 1..])
    {
      DotCuts(name, i);
    }
    if |name| > 0 && SubdomainText(name) && !LabelText(name) {
      var i := FirstDot(name);
      SubdomainIs(name[i + 1..]);
      LabelIs(name[..i]);
    }
    if i :| 0 <= i < |name| && name[i] == Ascii('.') && Label(name[..i]) && Subdomain(name[i + 1..]) {
      SubdomainIs(name[i + 1..]);
      LabelIs(name[..i]);
      forall k | 0 <= k < i ensures SubdomainRune(name[..i], k) {
      }
    }
  }

  lemma DotCuts(name: Text, i: nat)
    requires i < |name| && name[i] == Ascii('.')
    ensures SubdomainText(name) <==>
            && |name[..i]| > 0 && SubdomainText(name[..i])
            && |name[i + 1..]| > 0 && SubdomainText(name[i + 1..])
  {
    var a, b := name[..i], name[i + 1..];
    if SubdomainText(name) {
      assert SubdomainRune(name, i);
      forall j | 0 <= j < |a| ensures SubdomainRune(a, j) { assert SubdomainRune(name, j); }
      forall j | 0 <= j < |b| ensures SubdomainRune(b, j) { assert SubdomainRune(name, i + 1 + j); }
    }
    if |a| > 0 && SubdomainText(a) && |b| > 0 && SubdomainText(b) {
      assert SubdomainRune(a, |a| - 1) && SubdomainRune(b, 0);
      forall j | 0 <= j < |name| ensures SubdomainRune(name, j) {
        if j < i { assert SubdomainRune(a, j); } else if j > i { assert SubdomainRune(b, j - i - 1); }
      }
    }
  }

  lemma FirstDot(name: Text) returns (i: nat)
    requires SubdomainText(name) && !LabelText(name)
    ensures i < |name| && name[i] == Ascii('.') && LabelText(name[..i])
  {
    var j :| 0 <= j < |name| && !LowerOrDigit(name[j]) && !(0 < j < |name| - 1 && name[j] == Ascii('-'));
    assert SubdomainRune(name, j);
    i := 0;
    while name[i] != Ascii('.')
      invariant i <= j
      invariant forall k :: 0 <= k < i ==> name[k] != Ascii('.')
      decreases j - i
    {
      i := i + 1;
    }
    DotCuts(name, i);
    forall k | 0 <= k < i ensures LowerOrDigit(name[..i][k]) || (0 < k < i - 1 && name[..i][k] == Ascii('-')) {
      assert SubdomainRune(name[..i], k);
    }
  }

  /** A release may be empty or has up to 53 bytes of labels with dots between them. */
  lemma HelmReleaseGrammar(name: Text)
    ensures ValidHelmRelease(name) <==> name == [] || (Len(name) <= 53 && SubdomainText(name))
  {
    SubdomainIs(name);
  }

  /** What slug builds is a label, also when it holds two dashes in a row. */
  lemma SlugIsLabel(e: Rules, name: Text, max: nat)
    requires e.Valid()
    requires max >= MAX_HASH_LENGTH + 2
    ensures var r := Slug(e, name, max); Label(r) && Len(r) == |r| <= max
  {
    SlugShape(e, name, max);
    var r := Slug(e, name, max);
    if DoubledOnce(r) { DoubledStartsAlnum(r); }
  }

  /** Every name that is given out is accepted by its own validator and given out unchanged
      when asked for again. */
  lemma NamesAreValid(e: Rules, name: Text)
    requires e.Valid()
    ensures ValidDockerTag(DockerTag(e, name))
    ensures DockerTag(e, DockerTag(e, name)) == DockerTag(e, name)
    ensures ValidNamespace(KubernetesNamespace(e, name))
    ensures KubernetesNamespace(e, KubernetesNamespace(e, name)) == KubernetesNamespace(e, name)
    ensures ValidHelmRelease(HelmRelease(e, name))
    ensures HelmRelease(e, HelmRelease(e, name)) == HelmRelease(e, name)
  {
    hide Slug;
    SlugIsLabel(e, name, DOCKER_TAG_MAX_SIZE);
    SlugIsLabel(e, name, KUBERNETES_NAMESPACE_MAX_SIZE);
    SlugIsLabel(e, name, HELM_RELEASE_MAX_SIZE);
  }

  /** A name is left as it is exactly when its validator accepts it. */
  lemma ValidNamesStay(e: Rules, name: Text)
    requires e.Valid()
    ensures DockerTag(e, name) == name <==> ValidDockerTag(name)
    ensures KubernetesNamespace(e, name) == name <==> ValidNamespace(name)
    ensures HelmRelease(e, name) == name <==> ValidHelmRelease(name)
    ensures !ValidDockerTag(name) ==> DockerTag(e, name) == Slug(e, name, 128)
    ensures !ValidNamespace(name) ==> KubernetesNamespace(e, name) == Slug(e, name, 63)
    ensures !ValidHelmRelease(name) ==> HelmRelease(e, name) == Slug(e, name, 53)
  {
    hide Slug, ValidDockerTag, ValidNamespace, ValidHelmRelease;
    NamesAreValid(e, name);
  }

  /** The crop of a project name ends on a dash. */
  predicate CutAtDash(e: Rules, name: Text) {
    && !ValidProject(name)
    && |Slugify(e, name)| > PROJECT_NAME_MAX_SIZE
    && Slugify(e, name)[PROJECT_NAME_MAX_SIZE - 1] == DASH
  }

  /** A project name fits its limit, and is valid, and unchanged when asked for again,
      unless the slug is cut right after a dash. */
  lemma ProjectIsValid(e: Rules, name: Text)
    requires e.Valid()
    ensures Len(Project(e, name)) <= PROJECT_NAME_MAX_SIZE
    ensures ValidProject(Project(e, name)) <==> !CutAtDash(e, name)
    ensures Project(e, Project(e, name)) == Project(e, name) <==> !CutAtDash(e, name)
  {
    hide Slugify;
    var r, s := Project(e, name), Slugify(e, name);
    SlugifyLands(e, name);
    LenOfAscii(s);
    if !ValidProject(name) {
      LenOfAscii(r);
      if CutAtDash(e, name) {
        assert r[|r| - 1] == DASH;
        SlugifyLands(e, r);
        var again := Slugify(e, r);
        LenOfAscii(again);
        if |again| > PROJECT_NAME_MAX_SIZE {
          ShrinksOnly(e, r);
        }
      }
    }
  }

  /** A project name that is not valid becomes its slug, of which 50 bytes at most are kept. */
  lemma ProjectIs(e: Rules, name: Text)
    requires e.Valid()
    ensures ValidProject(name) ==> Project(e, name) == name
    ensures !ValidProject(name) ==> |Project(e, name)| == if |Slugify(e, name)| > 50 then 50 else |Slugify(e, name)|
    ensures !ValidProject(name) ==> Project(e, name) <= Slugify(e, name)
  {
    hide Slugify;
  }

  /** slugify does not lengthen a text of letters, digits and dashes. */
  lemma ShrinksOnly(e: Rules, s: Text)
    requires e.Valid()
    requires AlnumOrDash(s)
    ensures |Slugify(e, s)| <= |s|
  {
    MappedKeeps(e, s);
    OpenShrinks(s);
    OpenStripped(s);
  }

  lemma {:induction false} OpenShrinks(s: Text)
    ensures |Open(s)| <= |s|
  {
    if |s| > 0 {
      var before, r := s[..|s| - 1], s[|s| - 1];
      assert s == before + [r];
      OpenShrinks(before);
      if r == DASH { OpenDash(before); } else { OpenLetter(before, r); }
    }
  }
}
