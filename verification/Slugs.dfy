/**
  Slugs: turning any text into a name of lower-case letters, digits and single dashes, and
  the size-limited, hash-suffixed names built from it.
 */
module Slugs {

  /** One decoded rune of a text: an ASCII character, or anything else (an invalid byte
      included), known by what it is and by how many bytes it takes. */
  datatype Rune = Ascii(c: char) | Other(code: nat, moreBytes: nat)
  {
    function Width(): nat {
      if Ascii? then 1 else moreBytes + 1
    }

    predicate Alnum() {
      Ascii? && ('a' <= c <= 'z' || '0' <= c <= '9')
    }
  }

  type Text = seq<Rune>

  const DASH: Rune := Ascii('-')

  predicate AllAlnum(s: Text) {
    forall i :: 0 <= i < |s| ==> s[i].Alnum()
  }

  /** len: the size in bytes. */
  function Len(s: Text): nat {
    if |s| == 0 then 0 else Len(s[..|s| - 1]) + s[|s| - 1].Width()
  }

  const MAX_HASH_LENGTH := 8

  /** The rune table and the hash. */
  datatype Rules = Rules(table: Rune -> Text, hash: Text -> Text)
  {
    /** The table gives nothing, a dash, or letters and digits, and leaves the runes of
        slugs alone; the hash is a 32-bit number in hexadecimal. */
    ghost predicate Valid() {
      && (forall r :: table(r) == [] || table(r) == [DASH] || AllAlnum(table(r)))
      && (forall r: Rune :: r.Alnum() || r == DASH ==> table(r) == [r])
      && (forall d :: AllAlnum(hash(d)) && 1 <= |hash(d)| <= MAX_HASH_LENGTH)
    }
  }

  // ----- The language of slugs

  /** Letters and digits, with single dashes between them. */
  predicate InLanguage(s: Text) {
    && (forall i :: 0 <= i < |s| ==> s[i].Alnum() || s[i] == DASH)
    && (forall i :: 0 <= i < |s| - 1 ==> s[i].Alnum() || s[i + 1].Alnum())
    && (|s| > 0 ==> s[0].Alnum() && s[|s| - 1].Alnum())
  }

  /** A beginning of a slug: it may still end with a dash. */
  predicate Unfinished(s: Text) {
    && (forall i :: 0 <= i < |s| ==> s[i].Alnum() || s[i] == DASH)
    && (forall i :: 0 <= i < |s| - 1 ==> s[i].Alnum() || s[i + 1].Alnum())
    && (|s| > 0 ==> s[0].Alnum())
  }

  predicate EndsWithDash(s: Text) {
    |s| > 0 && s[|s| - 1] == DASH
  }

  // ----- What slugify means: the words of the mapped text, joined by dashes

  function Mapped(e: Rules, data: Text): Text {
    if |data| == 0 then [] else Mapped(e, data[..|data| - 1]) + e.table(data[|data| - 1])
  }

  /** The longest runs without a dash. */
  function Words(s: Text): (ws: seq<Text>)
    ensures |s| > 0 && !EndsWithDash(s) ==> |ws| > 0
  {
    if |s| == 0 then []
    else
      var before, r := s[..|s| - 1], s[|s| - 1];
      var ws := Words(before);
      if r == DASH then ws
      else if |before| == 0 || EndsWithDash(before) then ws + [[r]]
      else ws[..|ws| - 1] + [ws[|ws| - 1] + [r]]
  }

  function Joined(ws: seq<Text>): Text {
    if |ws| == 0 then []
    else if |ws| == 1 then ws[0]
    else Joined(ws[..|ws| - 1]) + [DASH] + ws[|ws| - 1]
  }

  function Slugify(e: Rules, data: Text): Text {
    Joined(Words(Mapped(e, data)))
  }

  /** The joined words, with the dash that is still open at the end. */
  function Open(s: Text): Text {
    Joined(Words(s)) + if EndsWithDash(s) && |Words(s)| > 0 then [DASH] else []
  }

  predicate Clean(w: Text) {
    |w| > 0 && forall i :: 0 <= i < |w| ==> w[i] != DASH
  }

  lemma {:induction false} WordsAreClean(s: Text)
    ensures forall i :: 0 <= i < |Words(s)| ==> Clean(Words(s)[i])
  {
    if |s| > 0 {
      WordsAreClean(s[..|s| - 1]);
    }
  }

  lemma JoinedEnd(ws: seq<Text>)
    requires forall i :: 0 <= i < |ws| ==> Clean(ws[i])
    ensures |ws| > 0 <==> |Joined(ws)| > 0
    ensures !EndsWithDash(Joined(ws))
  {
  }

  lemma WordsStep(s: Text, r: Rune)
    ensures r == DASH ==> Words(s + [r]) == Words(s)
    ensures r != DASH && (|s| == 0 || EndsWithDash(s)) ==> Words(s + [r]) == Words(s) + [[r]]
    ensures r != DASH && |s| > 0 && !EndsWithDash(s) ==>
              var ws := Words(s);
              Words(s + [r]) == ws[..|ws| - 1] + [ws[|ws| - 1] + [r]]
  {
  }

  lemma JoinedNewWord(ws: seq<Text>, w: Text)
    ensures Joined(ws + [w]) == (if |ws| == 0 then [] else Joined(ws) + [DASH]) + w
  {
  }

  lemma JoinedLongerWord(ws: seq<Text>, r: Rune)
    requires |ws| > 0
    ensures Joined(ws[..|ws| - 1] + [ws[|ws| - 1] + [r]]) == Joined(ws) + [r]
  {
  }

  /** A dash is kept once, and never at the beginning. */
  lemma OpenDash(s: Text)
    ensures Open(s + [DASH]) == if |Open(s)| == 0 || EndsWithDash(Open(s)) then Open(s) else Open(s) + [DASH]
  {
    WordsStep(s, DASH);
    WordsAreClean(s);
    JoinedEnd(Words(s));
    assert EndsWithDash(s + [DASH]);
    assert |s| == 0 ==> Words(s) == [];
  }

  lemma OpenLetter(s: Text, r: Rune)
    requires r != DASH
    ensures Open(s + [r]) == Open(s) + [r]
  {
    WordsStep(s, r);
    var ws := Words(s);
    assert !EndsWithDash(s + [r]);
    if |s| == 0 || EndsWithDash(s) {
      JoinedNewWord(ws, [r]);
    } else {
      JoinedLongerWord(ws, r);
    }
  }

  lemma {:induction false} OpenLetters(s: Text, a: Text)
    requires forall i :: 0 <= i < |a| ==> a[i] != DASH
    ensures Open(s + a) == Open(s) + a
    decreases |a|
  {
    if |a| == 0 {
      assert s + a == s && Open(s) + a == Open(s);
    } else {
      var b, r := a[..|a| - 1], a[|a| - 1];
      OpenLetters(s, b);
      OpenLetter(s + b, r);
      assert s + a == s + b + [r];
      assert Open(s) + b + [r] == Open(s) + a;
    }
  }

  /** Stripping the dash that is still open at the end leaves the joined words. */
  lemma OpenStripped(s: Text)
    ensures Joined(Words(s)) == if EndsWithDash(Open(s)) then Open(s)[..|Open(s)| - 1] else Open(s)
    ensures EndsWithDash(Open(s)) <==> |Open(s)| > 0 && EndsWithDash(s)
  {
    WordsAreClean(s);
    JoinedEnd(Words(s));
  }

  /** slugify: the loop over runes with its flags computes the joined words. */
  method SlugifyRunes(e: Rules, data: Text) returns (result: Text)
    requires e.Valid()
    ensures result == Slugify(e, data)
  {
    result := [];
    var isCursorDash, isPreviousDash, isResultEmpty := false, false, true;
    for i := 0 to |data|
      invariant result == Open(Mapped(e, data[..i]))
      invariant isResultEmpty <==> |result| == 0
      invariant isCursorDash <==> EndsWithDash(Mapped(e, data[..i]))
      invariant !isResultEmpty ==> (isPreviousDash <==> EndsWithDash(result))
    {
      var cursor := e.table(data[i]);
      ghost var m := Mapped(e, data[..i]);
      assert data[..i + 1][..i] == data[..i];
      assert Mapped(e, data[..i + 1]) == m + cursor;
      if |cursor| == 0 {
        assert m + cursor == m;
        continue;
      }
      isCursorDash := cursor == [DASH];
      var isStartedDash := isCursorDash && isResultEmpty;
      var isDoubledDash := isCursorDash && !isResultEmpty && isPreviousDash;
      if isCursorDash { OpenDash(m); } else { OpenLetters(m, cursor); }
      if isStartedDash || isDoubledDash {
        continue;
      }
      result := result + cursor;
      isPreviousDash := isCursorDash;
      isResultEmpty := false;
    }
    assert data[..|data|] == data;
    OpenStripped(Mapped(e, data));
    var isEndedDash := !isResultEmpty && isCursorDash;
    if isEndedDash {
      return result[..|result| - 1];
    }
  }

  // ----- What words and joining mean, without looking at one character at a time

  /** Each rune is replaced by what the table gives for it, in order. */
  lemma {:induction false} MappedParts(e: Rules, a: Text, b: Text)
    ensures Mapped(e, a + b) == Mapped(e, a) + Mapped(e, b)
    decreases |b|
  {
    if |b| == 0 {
      assert a + b == a;
    } else {
      MappedParts(e, a, b[..|b| - 1]);
      assert (a + b)[..|a + b| - 1] == a + b[..|b| - 1];
    }
  }

  lemma MappedOne(e: Rules, r: Rune)
    ensures Mapped(e, [r]) == e.table(r)
  {
    assert [r][..0] == [];
  }

  /** The size of a text is the sum of the widths of its runes. */
  lemma {:induction false} LenParts(a: Text, b: Text)
    ensures Len(a + b) == Len(a) + Len(b)
    decreases |b|
  {
    if |b| == 0 {
      assert a + b == a;
    } else {
      LenParts(a, b[..|b| - 1]);
      assert (a + b)[..|a + b| - 1] == a + b[..|b| - 1];
    }
  }

  lemma LenOne(r: Rune)
    ensures Len([r]) == if r.Ascii? then 1 else r.moreBytes + 1
  {
    assert [r][..0] == [];
  }

  /** Words with a gap before each of them and one at the end. */
  function Spread(gaps: seq<Text>, ws: seq<Text>): Text
    requires |gaps| == |ws| + 1
  {
    if |ws| == 0 then gaps[0]
    else Spread(gaps[..|ws|], ws[..|ws| - 1]) + ws[|ws| - 1] + gaps[|ws|]
  }

  predicate AllDashes(s: Text) {
    forall j :: 0 <= j < |s| ==> s[j] == DASH
  }

  /** The words have no dashes, the gaps nothing else, and there is a dash between any two
      words. */
  predicate ProperlySpread(gaps: seq<Text>, ws: seq<Text>) {
    && |gaps| == |ws| + 1
    && (forall i :: 0 <= i < |ws| ==> Clean(ws[i]))
    && (forall i :: 0 <= i < |gaps| ==> AllDashes(gaps[i]))
    && (forall i :: 0 < i < |ws| ==> |gaps[i]| > 0)
  }

  lemma WordsOfLetters(s: Text, r: Rune)
    requires r != DASH && |s| > 0 && !EndsWithDash(s)
    ensures |Words(s)| > 0
    ensures Words(s + [r]) == Words(s)[..|Words(s)| - 1] + [Words(s)[|Words(s)| - 1] + [r]]
  {
    WordsStep(s, r);
  }

  lemma {:induction false} WordAppended(s: Text, w: Text)
    requires |s| == 0 || EndsWithDash(s)
    requires Clean(w)
    ensures Words(s + w) == Words(s) + [w]
    decreases |w|
  {
    var before, r := w[..|w| - 1], w[|w| - 1];
    assert s + w == s + before + [r];
    if |before| == 0 {
      assert s + before == s && w == [r];
      WordsStep(s, r);
    } else {
      WordAppended(s, before);
      assert !EndsWithDash(s + before);
      hide Words, EndsWithDash;
      WordsOfLetters(s + before, r);
      assert (Words(s) + [before])[..|Words(s)|] == Words(s);
      assert w == before + [r];
    }
  }

  lemma {:induction false} DashesAppended(s: Text, gap: Text)
    requires AllDashes(gap)
    ensures Words(s + gap) == Words(s)
    decreases |gap|
  {
    if |gap| == 0 {
      assert s + gap == s;
    } else {
      DashesAppended(s, gap[..|gap| - 1]);
      WordsStep(s + gap[..|gap| - 1], DASH);
      assert s + gap == s + gap[..|gap| - 1] + [DASH];
    }
  }

  lemma SpreadFront(gaps: seq<Text>, ws: seq<Text>)
    requires ProperlySpread(gaps, ws) && |ws| > 0
    ensures var n := |ws| - 1; var front := Spread(gaps[..n + 1], ws[..n]);
            && ProperlySpread(gaps[..n + 1], ws[..n])
            && Spread(gaps, ws) == front + ws[n] + gaps[n + 1]
            && (|front| == 0 || EndsWithDash(front))
  {
    var n := |ws| - 1;
    var front := Spread(gaps[..n + 1], ws[..n]);
    hide Clean;
    assert AllDashes(gaps[n]);
    if n > 0 {
      assert front == Spread(gaps[..n + 1][..n], ws[..n][..n - 1]) + ws[..n][n - 1] + gaps[n];
    } else {
      assert front == gaps[0];
    }
  }

  /** However a text is cut into words with dashes between, these are its words. */
  lemma {:induction false} WordsAre(gaps: seq<Text>, ws: seq<Text>)
    requires ProperlySpread(gaps, ws)
    ensures Words(Spread(gaps, ws)) == ws
    decreases |ws|
  {
    hide Clean, AllDashes, Words, EndsWithDash;
    if |ws| == 0 {
      DashesAppended([], gaps[0]);
      NoWords();
      assert [] + gaps[0] == gaps[0];
    } else {
      var n := |ws| - 1;
      SpreadFront(gaps, ws);
      hide Spread;
      var front := Spread(gaps[..n + 1], ws[..n]);
      WordsAre(gaps[..n + 1], ws[..n]);
      WordAppended(front, ws[n]);
      DashesAppended(front + ws[n], gaps[n + 1]);
      assert ws == ws[..n] + [ws[n]];
    }
  }

  lemma NoWords()
    ensures Words([]) == []
  {
  }

  /** A text can be cut in such a way. */
  lemma {:induction false} CutIntoWords(s: Text) returns (gaps: seq<Text>, ws: seq<Text>)
    ensures ProperlySpread(gaps, ws) && Spread(gaps, ws) == s
    ensures |s| > 0 && !EndsWithDash(s) ==> |ws| > 0 && |gaps[|ws|]| == 0
    ensures |s| > 0 && EndsWithDash(s) ==> |gaps[|ws|]| > 0
  {
    if |s| == 0 {
      gaps, ws := [[]], [];
    } else {
      var before, r := s[..|s| - 1], s[|s| - 1];
      assert s == before + [r];
      gaps, ws := CutIntoWords(before);
      if r == DASH {
        LongerGap(gaps, ws);
        gaps := gaps[..|ws|] + [gaps[|ws|] + [DASH]];
      } else if |before| == 0 || EndsWithDash(before) {
        NewWord(gaps, ws, r);
        gaps, ws := gaps + [[]], ws + [[r]];
      } else {
        LongerWord(gaps, ws, r);
        ws := ws[..|ws| - 1] + [ws[|ws| - 1] + [r]];
      }
    }
  }

  lemma LongerGap(gaps: seq<Text>, ws: seq<Text>)
    requires ProperlySpread(gaps, ws)
    ensures var gaps' := gaps[..|ws|] + [gaps[|ws|] + [DASH]];
            ProperlySpread(gaps', ws) && Spread(gaps', ws) == Spread(gaps, ws) + [DASH]
  {
    hide Clean;
    var n := |ws|;
    var gaps' := gaps[..n] + [gaps[n] + [DASH]];
    assert AllDashes(gaps[n]) && AllDashes(gaps'[n]);
    assert gaps'[..n] == gaps[..n];
    assert forall i :: 0 <= i < n ==> gaps'[i] == gaps[i];
  }

  lemma NewWord(gaps: seq<Text>, ws: seq<Text>, r: Rune)
    requires ProperlySpread(gaps, ws) && r != DASH
    requires |ws| > 0 ==> |gaps[|ws|]| > 0
    ensures ProperlySpread(gaps + [[]], ws + [[r]]) && Spread(gaps + [[]], ws + [[r]]) == Spread(gaps, ws) + [r]
  {
    hide AllDashes;
    var gaps', ws' := gaps + [[]], ws + [[r]];
    assert gaps'[..|ws| + 1] == gaps && ws'[..|ws|] == ws;
    assert AllDashes([]) by { NoDashes(); }
    assert Clean([r]);
  }

  lemma NoDashes()
    ensures AllDashes([])
  {
  }

  lemma LongerWord(gaps: seq<Text>, ws: seq<Text>, r: Rune)
    requires ProperlySpread(gaps, ws) && r != DASH
    requires |ws| > 0 && gaps[|ws|] == []
    ensures var ws' := ws[..|ws| - 1] + [ws[|ws| - 1] + [r]];
            ProperlySpread(gaps, ws') && Spread(gaps, ws') == Spread(gaps, ws) + [r]
  {
    hide AllDashes;
    var n := |ws| - 1;
    var ws' := ws[..n] + [ws[n] + [r]];
    assert ws'[..n] == ws[..n];
    assert Clean(ws[n]) && Clean(ws'[n]);
    assert forall i :: 0 <= i < n ==> ws'[i] == ws[i];
  }

  /** One dash between two words, and none at the ends. */
  function SingleGaps(n: nat): seq<Text> {
    seq(n + 1, i => if 0 < i < n then [DASH] else [])
  }

  lemma {:induction false} JoinedIsSpread(ws: seq<Text>)
    ensures Joined(ws) == Spread(SingleGaps(|ws|), ws)
    decreases |ws|
  {
    var n := |ws| - 1;
    if n > 0 {
      var front := SingleGaps(n);
      JoinedIsSpread(ws[..n]);
      assert SingleGaps(n + 1)[..n + 1] == front[..n] + [[DASH]];
      LastGap(front, [DASH], ws[..n]);
      assert front[n] == [];
    } else if n == 0 {
      assert SingleGaps(1)[..1] == [[]] && ws[..0] == [];
      assert Spread([[]], []) == [];
    }
  }

  lemma LastGap(gaps: seq<Text>, gap: Text, ws: seq<Text>)
    requires |gaps| == |ws| + 1 && gaps[|ws|] == []
    ensures Spread(gaps[..|ws|] + [gap], ws) == Spread(gaps, ws) + gap
  {
    var n := |ws|;
    var gaps' := gaps[..n] + [gap];
    if n > 0 { assert gaps'[..n] == gaps[..n]; }
  }

  /** What slugify gives: however the mapped text is cut into words, the same words with single
      dashes between them. */
  lemma SlugifyMeans(e: Rules, data: Text, gaps: seq<Text>, ws: seq<Text>)
    requires ProperlySpread(gaps, ws) && Mapped(e, data) == Spread(gaps, ws)
    ensures Slugify(e, data) == Spread(SingleGaps(|ws|), ws)
  {
    WordsAre(gaps, ws);
    JoinedIsSpread(ws);
  }

  // ----- slugify lands in the language, and fixes exactly the language

  predicate AlnumOrDash(s: Text) {
    forall i :: 0 <= i < |s| ==> s[i].Alnum() || s[i] == DASH
  }

  lemma {:induction false} MappedIsAlnumOrDash(e: Rules, data: Text)
    requires e.Valid()
    ensures AlnumOrDash(Mapped(e, data))
  {
    if |data| > 0 {
      MappedIsAlnumOrDash(e, data[..|data| - 1]);
      assert AlnumOrDash(e.table(data[|data| - 1]));
    }
  }

  lemma {:induction false} MappedKeeps(e: Rules, s: Text)
    requires e.Valid()
    requires AlnumOrDash(s)
    ensures Mapped(e, s) == s
  {
    if |s| > 0 {
      MappedKeeps(e, s[..|s| - 1]);
    }
  }

  lemma NothingOpen()
    ensures Open([]) == []
  {
  }

  lemma {:induction false} OpenIsUnfinished(s: Text)
    requires AlnumOrDash(s)
    ensures Unfinished(Open(s))
  {
    hide Open;
    if |s| == 0 {
      NothingOpen();
    } else {
      var before, r := s[..|s| - 1], s[|s| - 1];
      assert s == before + [r];
      OpenIsUnfinished(before);
      if r == DASH { OpenDash(before); } else { OpenLetter(before, r); }
    }
  }

  lemma {:induction false} OpenKeeps(s: Text)
    requires Unfinished(s)
    ensures Open(s) == s
  {
    if |s| > 0 {
      var before, r := s[..|s| - 1], s[|s| - 1];
      assert s == before + [r];
      OpenKeeps(before);
      if r == DASH { OpenDash(before); } else { OpenLetter(before, r); }
    }
  }

  /** slugify lands in the language for every text, leaves exactly the texts of the language
      alone, and so is idempotent. */
  lemma SlugifyLanguage(e: Rules, data: Text)
    requires e.Valid()
    ensures InLanguage(Slugify(e, data))
    ensures Slugify(e, data) == data <==> InLanguage(data)
    ensures Slugify(e, Slugify(e, data)) == Slugify(e, data)
  {
    SlugifyLands(e, data);
    if InLanguage(data) { SlugifyKeeps(e, data); }
    SlugifyKeeps(e, Slugify(e, data));
  }

  lemma SlugifyLands(e: Rules, data: Text)
    requires e.Valid()
    ensures InLanguage(Slugify(e, data))
  {
    var m := Mapped(e, data);
    MappedIsAlnumOrDash(e, data);
    OpenIsUnfinished(m);
    OpenStripped(m);
  }

  lemma SlugifyKeeps(e: Rules, s: Text)
    requires e.Valid()
    requires InLanguage(s)
    ensures Slugify(e, s) == s
  {
    MappedKeeps(e, s);
    OpenKeeps(s);
    OpenStripped(s);
  }

  lemma {:induction false} LenOfAscii(s: Text)
    requires AlnumOrDash(s)
    ensures Len(s) == |s|
  {
    if |s| > 0 { LenOfAscii(s[..|s| - 1]); }
  }

  // ----- Slugs of limited size

  /** strings.Count(s, "--"): occurrences that do not overlap. */
  function CountDoubles(s: Text): nat {
    if |s| < 2 then 0
    else if s[0] == DASH && s[1] == DASH then 1 + CountDoubles(s[2..])
    else CountDoubles(s[1..])
  }

  /** strings.Replace(s, "--", "-", 1). */
  function ReplaceDouble(s: Text): Text {
    if |s| < 2 then s
    else if s[0] == DASH && s[1] == DASH then s[1..]
    else [s[0]] + ReplaceDouble(s[1..])
  }

  /** shouldBeSlugged. */
  predicate ShouldBeSlugged(e: Rules, data: Text, max: nat) {
    if |data| == 0 then false
    else if Slugify(e, data) == data && Len(data) <= max then false
    else
      || Len(data) > max
      || CountDoubles(data) != 1
      || Slugify(e, ReplaceDouble(data)) != ReplaceDouble(data)
  }

  /** cropSluggedData; a limit with no room for the hash and a dash is out of its range. */
  function Crop(s: Text, hash: Text, max: nat): Text
    requires |hash| < max
  {
    var maxLength := max - |hash| - 1;
    s[..if |s| > maxLength then maxLength else |s|]
  }

  /** slug. */
  function Slug(e: Rules, data: Text, max: nat): Text
    requires |e.hash(data)| < max
  {
    var slugged, hash := Slugify(e, data), e.hash(data);
    if |slugged| == 0 then hash
    else
      var cropped := Crop(slugged, hash, max);
      var part := if |cropped| > 0 && cropped[0] == DASH then cropped[..|cropped| - 1] else cropped;
      part + [DASH] + hash
  }

  function LimitedSlug(e: Rules, data: Text, max: nat): Text
    requires ShouldBeSlugged(e, data, max) ==> |e.hash(data)| < max
  {
    if !ShouldBeSlugged(e, data, max) then data else Slug(e, data, max)
  }

  // ----- The branch for two dashes

  /** Two slugs with two dashes between them. */
  ghost predicate DoubledOnce(s: Text) {
    exists x, y :: DoubledBetween(s, x, y)
  }

  ghost predicate DoubledBetween(s: Text, x: Text, y: Text) {
    |x| > 0 && |y| > 0 && InLanguage(x) && InLanguage(y) && s == x + [DASH, DASH] + y
  }

  lemma {:induction false} NoDoubles(s: Text)
    requires InLanguage(s)
    ensures CountDoubles(s) == 0
  {
    NoDoublesIn(s);
  }

  lemma {:induction false} NoDoublesIn(s: Text)
    requires forall i :: 0 <= i < |s| - 1 ==> s[i].Alnum() || s[i + 1].Alnum()
    ensures CountDoubles(s) == 0
  {
    if |s| >= 2 { NoDoublesIn(s[1..]); }
  }

  lemma {:induction false} DoublesBetween(x: Text, y: Text)
    requires forall i :: 0 <= i < |x| - 1 ==> x[i].Alnum() || x[i + 1].Alnum()
    requires |x| > 0 ==> x[|x| - 1].Alnum()
    requires InLanguage(y)
    ensures CountDoubles(x + [DASH, DASH] + y) == 1
    ensures ReplaceDouble(x + [DASH, DASH] + y) == x + [DASH] + y
  {
    var s := x + [DASH, DASH] + y;
    if |x| == 0 {
      assert s[2..] == y && s[1..] == [DASH] + y;
      NoDoubles(y);
      assert x + [DASH] + y == [DASH] + y;
    } else {
      DoublesBetween(x[1..], y);
      assert s[1..] == x[1..] + [DASH, DASH] + y;
      assert s[0] == x[0];
      assert |x| >= 2 ==> s[1] == x[1];
      assert [x[0]] + (x[1..] + [DASH] + y) == x + [DASH] + y;
    }
  }

  lemma JoinsInLanguage(x: Text, y: Text)
    ensures |x| > 0 && |y| > 0 && InLanguage(x) && InLanguage(y) <==>
            InLanguage(x + [DASH] + y) && |x| > 0 && |y| > 0
  {
    var s := x + [DASH] + y;
    assert forall i :: 0 <= i < |x| ==> s[i] == x[i];
    assert s[|x|] == DASH;
    assert forall i :: 0 <= i < |y| ==> s[|x| + 1 + i] == y[i];
    if InLanguage(s) && |x| > 0 && |y| > 0 {
      assert s[|x| - 1].Alnum() && s[|x| + 1].Alnum();
      forall i | 0 <= i < |x| - 1 ensures x[i].Alnum() || x[i + 1].Alnum() { assert s[i].Alnum() || s[i + 1].Alnum(); }
      forall i | 0 <= i < |y| - 1 ensures y[i].Alnum() || y[i + 1].Alnum() {
        assert s[|x| + 1 + i].Alnum() || s[|x| + 1 + i + 1].Alnum();
      }
    }
  }

  /** Where the first two adjacent dashes are. */
  lemma {:induction false} SplitAtDouble(s: Text) returns (x: Text, y: Text)
    requires CountDoubles(s) > 0
    ensures s == x + [DASH, DASH] + y
    ensures ReplaceDouble(s) == x + [DASH] + y
  {
    if s[0] == DASH && s[1] == DASH {
      x, y := [], s[2..];
    } else {
      var x', y' := SplitAtDouble(s[1..]);
      x, y := [s[0]] + x', y';
      assert s == [s[0]] + s[1..];
    }
  }

  lemma DoubledOnceMeans(s: Text)
    ensures CountDoubles(s) == 1 && InLanguage(ReplaceDouble(s)) <==> DoubledOnce(s)
  {
    hide CountDoubles, ReplaceDouble;
    if CountDoubles(s) == 1 && InLanguage(ReplaceDouble(s)) {
      var x, y := SplitAtDouble(s);
      var t := x + [DASH] + y;
      assert t[|x|] == DASH;
      JoinsInLanguage(x, y);
      assert DoubledBetween(s, x, y);
    }
    if DoubledOnce(s) {
      var x, y :| DoubledBetween(s, x, y);
      DoublesBetween(x, y);
      JoinsInLanguage(x, y);
    }
  }

  lemma DoubledStartsAlnum(s: Text)
    requires DoubledOnce(s)
    ensures |s| > 0 && s[0].Alnum()
  {
  }

  /** Besides the texts of the language within the limit, exactly two slugs with two dashes
      between them are left as they are. */
  lemma LeftAlone(e: Rules, data: Text, max: nat)
    requires e.Valid()
    ensures !ShouldBeSlugged(e, data, max) <==>
            |data| == 0 || (Len(data) <= max && (InLanguage(data) || DoubledOnce(data)))
  {
    hide Slugify, InLanguage, DoubledOnce, CountDoubles, ReplaceDouble;
    SlugifyLanguage(e, data);
    SlugifyLanguage(e, ReplaceDouble(data));
    DoubledOnceMeans(data);
  }

  // ----- What slug builds

  /** The crop of a slug never starts with a dash, so the branch that would cut its last
      character off is never taken. */
  lemma CropNeverStartsWithDash(e: Rules, data: Text, max: nat)
    requires e.Valid()
    requires |e.hash(data)| < max
    ensures var cropped := Crop(Slugify(e, data), e.hash(data), max);
            && !(|cropped| > 0 && cropped[0] == DASH)
            && Unfinished(cropped)
            && |cropped| + 1 + |e.hash(data)| <= max
  {
    SlugifyLands(e, data);
  }

  /** What slug builds: as much of the slug as the limit leaves room for, a dash and the hash
      of the text, or the hash alone if nothing is left of the text. */
  lemma SlugIs(e: Rules, data: Text, max: nat)
    requires e.Valid()
    requires |e.hash(data)| < max
    ensures var s, room := Slugify(e, data), max - |e.hash(data)| - 1;
            Slug(e, data, max) ==
            if s == [] then e.hash(data)
            else (if |s| <= room then s else s[..room]) + [DASH] + e.hash(data)
  {
    hide Slugify;
    CropNeverStartsWithDash(e, data, max);
    var s := Slugify(e, data);
    assert s[..|s|] == s;
  }

  lemma AlnumInLanguage(s: Text)
    requires AllAlnum(s)
    ensures InLanguage(s)
  {
  }

  lemma Suffixed(cropped: Text, hash: Text)
    requires Unfinished(cropped) && |cropped| > 0
    requires InLanguage(hash) && |hash| > 0
    ensures if EndsWithDash(cropped) then DoubledOnce(cropped + [DASH] + hash) else InLanguage(cropped + [DASH] + hash)
  {
    if EndsWithDash(cropped) {
      var x := cropped[..|cropped| - 1];
      assert cropped + [DASH] + hash == x + [DASH, DASH] + hash;
      assert DoubledBetween(cropped + [DASH] + hash, x, hash);
    } else {
      JoinsInLanguage(cropped, hash);
    }
  }

  /** What slug builds, for every text: the hash alone, a dash and the hash when the limit
      leaves no room, or a slug, or two slugs with two dashes between them when the crop
      ends on a dash. It always fits the limit. */
  lemma SlugShape(e: Rules, data: Text, max: nat)
    requires e.Valid()
    requires |e.hash(data)| < max
    ensures var r := Slug(e, data, max);
            && Len(r) == |r| <= max
            && |r| > 0
            && AlnumOrDash(r)
            && r[|r| - 1].Alnum()
            && (max >= |e.hash(data)| + 2 ==> InLanguage(r) || DoubledOnce(r))
            && (max == |e.hash(data)| + 1 && |Slugify(e, data)| > 0 ==> r == [DASH] + e.hash(data))
  {
    hide Slugify, InLanguage, DoubledOnce;
    var slugged, hash, r := Slugify(e, data), e.hash(data), Slug(e, data, max);
    SlugifyLands(e, data);
    AlnumInLanguage(hash);
    if |slugged| > 0 {
      CropNeverStartsWithDash(e, data, max);
      var cropped := Crop(slugged, hash, max);
      assert r == cropped + [DASH] + hash;
      if |cropped| > 0 { Suffixed(cropped, hash); }
    }
    LenOfAscii(r);
  }

  /** LimitedSlug stays within the limit and is idempotent for every text and every limit
      with room for the hash of the text, a dash and one more character. */
  lemma LimitedSlugIdempotent(e: Rules, data: Text, max: nat)
    requires e.Valid()
    requires ShouldBeSlugged(e, data, max) ==> max >= |e.hash(data)| + 2
    ensures Len(LimitedSlug(e, data, max)) <= max
    ensures !ShouldBeSlugged(e, LimitedSlug(e, data, max), max)
    ensures LimitedSlug(e, LimitedSlug(e, data, max), max) == LimitedSlug(e, data, max)
  {
    hide Slug, ShouldBeSlugged, InLanguage, DoubledOnce;
    LeftAlone(e, data, max);
    if ShouldBeSlugged(e, data, max) {
      SlugShape(e, data, max);
      LeftAlone(e, Slug(e, data, max), max);
    }
  }

  /** With room for the hash and a dash only, the name is a dash and the hash, and naming it
      again changes it unless both names have the same hash; it cannot be named again within
      the limit if its own hash is longer. */
  lemma TightLimit(e: Rules, data: Text)
    requires e.Valid()
    requires var max := |e.hash(data)| + 1; ShouldBeSlugged(e, data, max) && |Slugify(e, data)| > 0
    ensures var max := |e.hash(data)| + 1;
            var r := LimitedSlug(e, data, max);
            && r == [DASH] + e.hash(data)
            && ShouldBeSlugged(e, r, max)
            && (|e.hash(r)| < max ==> (LimitedSlug(e, r, max) == r <==> e.hash(r) == e.hash(data)))
  {
    var max, hash := |e.hash(data)| + 1, e.hash(data);
    var r := [DASH] + hash;
    hide Slug, Slugify, Mapped, CountDoubles, ReplaceDouble;
    SlugShape(e, data, max);
    LeftAlone(e, r, max);
    assert r[0] == DASH;
    if DoubledOnce(r) { DoubledStartsAlnum(r); }
    DashIsDropped(e, hash);
    if |e.hash(r)| < max { SluggedAgain(e, r, hash, max); }
  }

  lemma SluggedAgain(e: Rules, r: Text, hash: Text, max: nat)
    requires e.Valid()
    requires AllAlnum(hash) && |hash| > 0 && Slugify(e, r) == hash
    requires max == |hash| + 1 && |e.hash(r)| < max
    ensures Slug(e, r, max) == [DASH] + hash <==> e.hash(r) == hash
  {
    hide Slugify;
    if |e.hash(r)| == |hash| {
      assert Slug(e, r, max) == [DASH] + e.hash(r);
      assert ([DASH] + e.hash(r))[1..] == e.hash(r) && ([DASH] + hash)[1..] == hash;
    } else {
      assert Slug(e, r, max)[0] == hash[0];
    }
  }

  lemma DashIsDropped(e: Rules, hash: Text)
    requires e.Valid()
    requires AllAlnum(hash)
    ensures Slugify(e, [DASH] + hash) == hash
  {
    AlnumInLanguage(hash);
    MappedKeeps(e, [DASH] + hash);
    DashBefore(e, hash);
  }

  lemma DashBefore(e: Rules, s: Text)
    requires InLanguage(s)
    ensures Joined(Words([DASH] + s)) == s
  {
    OpenDash([]);
    assert [] + [DASH] == [DASH];
    OpenAfter([DASH], s);
    OpenStripped([DASH] + s);
  }

  lemma {:induction false} OpenAfter(p: Text, s: Text)
    requires Open(p) == []
    requires Unfinished(s)
    ensures Open(p + s) == s
    decreases |s|
  {
    if |s| == 0 {
      assert p + s == p;
    } else {
      var before, r := s[..|s| - 1], s[|s| - 1];
      assert p + s == p + before + [r] && s == before + [r];
      OpenAfter(p, before);
      if r == DASH { OpenDash(p + before); } else { OpenLetter(p + before, r); }
    }
  }
}
