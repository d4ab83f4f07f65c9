/**
  Splitting a rendered werf.yaml into its documents: the byte state machine of the program
  against a line grammar.
 */
module YamlDocs {

  /** One character per byte of the input. */
  type Bytes = string

  predicate Blank(b: char) {
    b == ' ' || b == '\r' || b == '\t'
  }

  // ----- The line grammar

  const DASHES: Bytes := "---"

  /** A line that separates two documents: three dashes, blanks, and possibly a comment in
      which no dash occurs. The line is given without its newline. */
  ghost predicate SeparatorLine(l: Bytes) {
    exists k :: 3 <= k <= |l| && SeparatorAt(l, k)
  }

  /** The blanks after the dashes of `l` end at `k`. */
  ghost predicate SeparatorAt(l: Bytes, k: nat)
    requires k <= |l|
  {
    && DASHES <= l
    && (forall i :: 3 <= i < k ==> Blank(l[i]))
    && (k < |l| ==> l[k] == '#')
    && (forall i :: k < i < |l| ==> l[i] != '-' && l[i] != '\n')
  }

  /** `w` is made of spaces, tabs and carriage returns; `c` is empty or a comment without a
      dash. */
  ghost predicate BlanksAndComment(w: Bytes, c: Bytes) {
    && (forall i :: 0 <= i < |w| ==> w[i] == ' ' || w[i] == '\t' || w[i] == '\r')
    && (|c| > 0 ==> c[0] == '#')
    && (forall i :: 0 <= i < |c| ==> c[i] != '-' && c[i] != '\n')
  }

  /** The separator lines, character by character. */
  lemma SeparatorGrammar(l: Bytes)
    ensures SeparatorLine(l) <==> exists w, c :: BlanksAndComment(w, c) && l == "---" + w + c
  {
    if SeparatorLine(l) {
      var k :| 3 <= k <= |l| && SeparatorAt(l, k);
      var w, c := l[3..k], l[k..];
      assert BlanksAndComment(w, c) && l == "---" + w + c;
    }
    if w, c :| BlanksAndComment(w, c) && l == "---" + w + c {
      var k := 3 + |w|;
      assert l[3..k] == w && l[k..] == c;
      assert forall i :: 3 <= i < k ==> l[i] == w[i - 3];
      assert forall i :: k <= i < |l| ==> l[i] == c[i - k];
      assert SeparatorAt(l, k);
    }
  }

  /** Index of the first newline from `i` on, or the length of `s`. */
  function NewlineFrom(s: Bytes, i: nat): (e: nat)
    requires i <= |s|
    ensures i <= e <= |s|
    ensures forall j :: i <= j < e ==> s[j] != '\n'
    ensures e < |s| ==> s[e] == '\n'
    decreases |s| - i
  {
    if i == |s| || s[i] == '\n' then i else NewlineFrom(s, i + 1)
  }

  /** Length of the first line, without its newline. */
  function LineEnd(s: Bytes): nat {
    NewlineFrom(s, 0)
  }

  /** Length of the first line with its newline, if it has one. */
  function LineSize(s: Bytes): (n: nat)
    ensures n <= |s|
    ensures |s| > 0 ==> n > 0
  {
    if LineEnd(s) < |s| then LineEnd(s) + 1 else |s|
  }

  ghost predicate HasSeparator(s: Bytes) {
    |s| > 0 && (SeparatorLine(s[..LineEnd(s)]) || HasSeparator(s[LineSize(s)..]))
  }

  /** Line `i` to `j` of the text: it starts at the beginning or after a newline, and ends
      before the next newline or at the end. */
  ghost predicate IsLine(s: Bytes, i: int, j: int) {
    && 0 <= i <= j <= |s| && i < |s|
    && (i == 0 || s[i - 1] == '\n')
    && (forall x :: i <= x < j ==> s[x] != '\n')
    && (j == |s| || s[j] == '\n')
  }

  ghost predicate SeparatesAt(s: Bytes, i: int, j: int) {
    IsLine(s, i, j) && SeparatorLine(s[i..j])
  }

  lemma LineOfRest(s: Bytes, i: int, j: int)
    requires |s| > 0
    requires SeparatesAt(s[LineSize(s)..], i, j)
    ensures SeparatesAt(s, LineSize(s) + i, LineSize(s) + j)
  {
    hide SeparatorLine;
    var n := LineSize(s);
    var rest := s[n..];
    assert forall x :: 0 <= x < |rest| ==> rest[x] == s[n + x];
    forall x | n + i <= x < n + j ensures s[x] != '\n' { assert rest[x - n] != '\n'; }
    assert s[n + i..n + j] == rest[i..j];
  }

  lemma LineOrRest(s: Bytes, i: int, j: int)
    requires |s| > 0
    requires SeparatesAt(s, i, j)
    ensures SeparatorLine(s[..LineEnd(s)]) || SeparatesAt(s[LineSize(s)..], i - LineSize(s), j - LineSize(s))
  {
    hide SeparatorLine;
    if i == 0 {
      LineEndIs(s, j);
      assert s[0..j] == s[..j];
    } else {
      var n := LineSize(s);
      var rest := s[n..];
      assert s[i - 1] == '\n' && LineEnd(s) <= i - 1;
      assert forall x :: 0 <= x < |rest| ==> rest[x] == s[n + x];
      hide LineEnd, LineSize;
      forall x | i - n <= x < j - n ensures rest[x] != '\n' { assert s[n + x] != '\n'; }
      assert s[i..j] == rest[i - n..j - n];
    }
  }

  lemma FirstIsLine(s: Bytes)
    requires |s| > 0 && SeparatorLine(s[..LineEnd(s)])
    ensures SeparatesAt(s, 0, LineEnd(s))
  {
    hide SeparatorLine;
    assert s[0..LineEnd(s)] == s[..LineEnd(s)];
  }

  /** A text has a separator exactly when one of its lines is a separator line. */
  lemma {:induction false} HasSeparatorLine(s: Bytes)
    ensures HasSeparator(s) <==> exists i, j :: SeparatesAt(s, i, j)
    decreases |s|
  {
    if |s| > 0 {
      hide SeparatorLine, SeparatesAt, LineEnd, LineSize;
      var n := LineSize(s);
      HasSeparatorLine(s[n..]);
      if SeparatorLine(s[..LineEnd(s)]) { FirstIsLine(s); }
      if i, j :| SeparatesAt(s, i, j) { LineOrRest(s, i, j); }
      if i, j :| SeparatesAt(s[n..], i, j) { LineOfRest(s, i, j); }
    }
  }

  /** Whole lines: nothing, or text that ends with a newline. */
  predicate WholeLines(s: Bytes) {
    |s| > 0 ==> s[|s| - 1] == '\n'
  }

  /** The separator line of `s`, which may have lost its newline at the end of the input. */
  ghost predicate Separator(s: Bytes, terminated: bool) {
    if terminated then |s| > 0 && s[|s| - 1] == '\n' && SeparatorLine(s[..|s| - 1])
    else SeparatorLine(s)
  }

  function Interleave(docs: seq<Bytes>, seps: seq<Bytes>): Bytes {
    if |docs| == 0 then []
    else if |seps| == 0 then docs[0]
    else docs[0] + (seps[0] + Interleave(docs[1..], seps[1..]))
  }

  ghost predicate Rebuilds(docs: seq<Bytes>, seps: seq<Bytes>, content: Bytes) {
    WellSplit(docs, seps) && Interleave(docs, seps) == content
  }

  /** The documents and separators of some input. Every separator but one at the end of the
      input has its newline, no document contains a separator line, a document before a
      separator consists of whole lines, and there is no empty document at the end unless
      there is nothing else. */
  ghost predicate WellSplit(docs: seq<Bytes>, seps: seq<Bytes>) {
    && |docs| > 0
    && !HasSeparator(docs[0])
    && if |seps| == 0 then
         |docs| == 1
       else
         && WholeLines(docs[0])
         && if |docs| == 1 then
              |seps| == 1 && (Separator(seps[0], true) || Separator(seps[0], false))
            else
              && Separator(seps[0], true)
              && (|seps| == 1 ==> |docs[1]| > 0)
              && WellSplit(docs[1..], seps[1..])
  }

  // ----- Splitting by lines

  /** The documents of `s` when the lines in `doc` precede it in the first document. */
  ghost function SplitFrom(doc: Bytes, s: Bytes): seq<Bytes>
    requires |s| > 0
    decreases |s|
  {
    var rest := s[LineSize(s)..];
    if SeparatorLine(s[..LineEnd(s)]) then
      [doc] + if |rest| == 0 then [] else SplitFrom([], rest)
    else if |rest| == 0 then [doc + s]
    else SplitFrom(doc + s[..LineSize(s)], rest)
  }

  ghost function Split(content: Bytes): seq<Bytes> {
    if |content| == 0 then [[]] else SplitFrom([], content)
  }

  lemma LineEndIs(s: Bytes, e: nat)
    requires e <= |s|
    requires forall i :: 0 <= i < e ==> s[i] != '\n'
    requires e < |s| ==> s[e] == '\n'
    ensures LineEnd(s) == e
  {
  }

  lemma {:induction false} LineOfWhole(doc: Bytes, tail: Bytes)
    requires |doc| > 0 && WholeLines(doc)
    ensures LineEnd(doc) < |doc|
    ensures LineEnd(doc + tail) == LineEnd(doc)
    ensures (doc + tail)[..LineEnd(doc)] == doc[..LineEnd(doc)]
    ensures (doc + tail)[LineSize(doc)..] == doc[LineSize(doc)..] + tail
  {
    var e := LineEnd(doc);
    assert (doc + tail)[..e] == doc[..e];
    LineEndIs(doc + tail, e);
  }

  lemma {:induction false} HasSeparatorAppend(a: Bytes, b: Bytes)
    requires WholeLines(a)
    ensures HasSeparator(a + b) <==> HasSeparator(a) || HasSeparator(b)
    decreases |a|
  {
    if |a| == 0 {
      assert a + b == b;
    } else {
      LineOfWhole(a, b);
      HasSeparatorAppend(a[LineSize(a)..], b);
    }
  }

  /** Lines that do not separate go to the current document. */
  lemma {:induction false} Absorb(acc: Bytes, doc: Bytes, tail: Bytes)
    requires WholeLines(doc) && !HasSeparator(doc)
    requires |tail| > 0
    ensures SplitFrom(acc, doc + tail) == SplitFrom(acc + doc, tail)
    decreases |doc|
  {
    if |doc| == 0 {
      assert doc + tail == tail && acc + doc == acc;
    } else {
      LineOfWhole(doc, tail);
      var n := LineSize(doc);
      assert (doc + tail)[..n] == doc[..n];
      Absorb(acc + doc[..n], doc[n..], tail);
      assert (acc + doc[..n]) + doc[n..] == acc + doc;
    }
  }

  lemma {:induction false} TextOnly(acc: Bytes, doc: Bytes)
    requires |doc| > 0 && !HasSeparator(doc)
    ensures SplitFrom(acc, doc) == [acc + doc]
    decreases |doc|
  {
    var n := LineSize(doc);
    if n < |doc| {
      TextOnly(acc + doc[..n], doc[n..]);
      assert (acc + doc[..n]) + doc[n..] == acc + doc;
    }
  }

  lemma SeparatorHasNoNewline(l: Bytes)
    requires SeparatorLine(l)
    ensures forall i :: 0 <= i < |l| ==> l[i] != '\n'
    ensures LineEnd(l) == |l|
  {
  }

  lemma SeparatorComesFirst(sep: Bytes, tail: Bytes)
    requires Separator(sep, true)
    ensures |sep| > 0
    ensures LineEnd(sep + tail) == |sep| - 1 && LineSize(sep + tail) == |sep|
    ensures SeparatorLine((sep + tail)[..|sep| - 1])
    ensures (sep + tail)[|sep|..] == tail
  {
    SeparatorHasNoNewline(sep[..|sep| - 1]);
    hide SeparatorLine;
    assert (sep + tail)[..|sep| - 1] == sep[..|sep| - 1];
    LineEndIs(sep + tail, |sep| - 1);
  }

  lemma AtSeparator(acc: Bytes, sep: Bytes, tail: Bytes)
    requires Separator(sep, true)
    ensures SplitFrom(acc, sep + tail) == [acc] + if |tail| == 0 then [] else SplitFrom([], tail)
  {
    SeparatorComesFirst(sep, tail);
    hide SeparatorLine, LineEnd, LineSize;
  }

  lemma ConsIsWellSplit(doc: Bytes, sep: Bytes, docs: seq<Bytes>, seps: seq<Bytes>, rest: Bytes)
    requires Rebuilds(docs, seps, rest) && |rest| > 0
    requires WholeLines(doc) && !HasSeparator(doc)
    requires Separator(sep, true)
    ensures Rebuilds([doc] + docs, [sep] + seps, doc + (sep + rest))
  {
  }

  lemma LastBlock(doc: Bytes, sep: Bytes)
    requires WholeLines(doc) && !HasSeparator(doc)
    requires Separator(sep, true) || Separator(sep, false)
    ensures |sep| > 0
    ensures SplitFrom([], doc + sep) == [doc]
  {
    if Separator(sep, false) {
      SeparatorHasNoNewline(sep);
      assert sep[..LineEnd(sep)] == sep;
      assert SplitFrom(doc, sep) == [doc];
    } else {
      AtSeparator(doc, sep, []);
      assert sep + [] == sep;
    }
    Absorb([], doc, sep);
    assert [] + doc == doc;
  }

  /** The line grammar determines the documents: there is one way to cut an input. */
  lemma {:induction false} SplitIsUnique(docs: seq<Bytes>, seps: seq<Bytes>)
    requires WellSplit(docs, seps)
    ensures Split(Interleave(docs, seps)) == docs
    ensures |docs| > 1 || |seps| > 0 || |docs[0]| > 0 ==> |Interleave(docs, seps)| > 0
    decreases |docs|
  {
    var doc := docs[0];
    assert docs == [doc] + docs[1..];
    if |seps| == 0 {
      assert Interleave(docs, seps) == doc;
      if |doc| > 0 {
        TextOnly([], doc);
        assert [] + doc == doc;
      }
    } else if |docs| == 1 {
      assert Interleave(docs, seps) == doc + seps[0];
      LastBlock(doc, seps[0]);
    } else {
      var sep, rest := seps[0], Interleave(docs[1..], seps[1..]);
      SplitIsUnique(docs[1..], seps[1..]);
      assert Interleave(docs, seps) == doc + (sep + rest);
      Absorb([], doc, sep + rest);
      assert [] + doc == doc;
      AtSeparator(doc, sep, rest);
    }
  }

  lemma LineIsNotSplit(s: Bytes)
    requires |s| > 0
    requires !SeparatorLine(s[..LineEnd(s)])
    ensures !HasSeparator(s[..LineSize(s)])
  {
    var l, e := s[..LineSize(s)], LineEnd(s);
    assert l[..e] == s[..e];
    LineEndIs(l, e);
    assert LineSize(l) == |l|;
    assert l[|l|..] == [];
    assert !HasSeparator([]);
  }

  lemma OneBlock(doc: Bytes, sep: Bytes)
    requires WholeLines(doc) && !HasSeparator(doc)
    requires Separator(sep, true) || Separator(sep, false)
    ensures WellSplit([doc], [sep])
    ensures Interleave([doc], [sep]) == doc + sep
  {
  }

  lemma OneDocument(doc: Bytes)
    requires !HasSeparator(doc)
    ensures WellSplit([doc], [])
    ensures Interleave([doc], []) == doc
  {
  }

  lemma FirstLineSeparates(s: Bytes)
    requires |s| > 0
    requires SeparatorLine(s[..LineEnd(s)])
    ensures Separator(s[..LineSize(s)], LineEnd(s) < |s|)
  {
    var e, line := LineEnd(s), s[..LineSize(s)];
    if e < |s| { assert line[..|line| - 1] == s[..e]; }
  }

  lemma TextAbsorbed(acc: Bytes, s: Bytes)
    requires |s| > 0
    requires !SeparatorLine(s[..LineEnd(s)])
    requires WholeLines(acc) && !HasSeparator(acc)
    ensures !HasSeparator(acc + s[..LineSize(s)])
    ensures LineSize(s) < |s| ==> WholeLines(acc + s[..LineSize(s)])
  {
    LineIsNotSplit(s);
    HasSeparatorAppend(acc, s[..LineSize(s)]);
  }

  lemma SplitAtSeparator(acc: Bytes, s: Bytes)
    requires |s| > 0 && LineSize(s) < |s|
    requires SeparatorLine(s[..LineEnd(s)])
    ensures SplitFrom(acc, s) == [acc] + SplitFrom([], s[LineSize(s)..])
  {
  }

  lemma Regroup(acc: Bytes, s: Bytes, n: nat)
    requires n <= |s|
    ensures acc + s[..n] + s[n..] == acc + s
    ensures s[..n] + s[n..] == s
  {
  }

  /** Splitting loses nothing: separators put back between the documents give the input. */
  lemma {:induction false} SplitFromRebuilds(acc: Bytes, s: Bytes) returns (seps: seq<Bytes>)
    requires |s| > 0
    requires WholeLines(acc) && !HasSeparator(acc)
    ensures Rebuilds(SplitFrom(acc, s), seps, acc + s)
    decreases |s|
  {
    var line, rest := s[..LineSize(s)], s[LineSize(s)..];
    Regroup(acc, s, LineSize(s));
    if LineSize(s) == |s| {
      assert line == s;
      if SeparatorLine(s[..LineEnd(s)]) {
        FirstLineSeparates(s);
        OneBlock(acc, s);
        seps := [s];
      } else {
        TextAbsorbed(acc, s);
        OneDocument(acc + s);
        seps := [];
      }
    } else if SeparatorLine(s[..LineEnd(s)]) {
      seps := SplitFromRebuilds([], rest);
      assert [] + rest == rest;
      FirstLineSeparates(s);
      SplitAtSeparator(acc, s);
      ConsIsWellSplit(acc, line, SplitFrom([], rest), seps, rest);
      seps := [line] + seps;
    } else {
      TextAbsorbed(acc, s);
      seps := SplitFromRebuilds(acc + line, rest);
    }
  }

  // ----- The state machine

  datatype State = LineBegin | RegularLine | DocDash1 | DocDash2 | DocDash3 | DocSpaces | DocComment
  {
    predicate InSeparator() {
      DocDash3? || DocSpaces? || DocComment?
    }
  }

  /** What each state says about the line read so far. */
  ghost predicate Reads(state: State, l: Bytes) {
    match state
    case LineBegin => l == ""
    case DocDash1 => l == "-"
    case DocDash2 => l == "--"
    case DocDash3 => l == "---"
    case DocSpaces => |l| > 3 && SeparatorAt(l, |l|)
    case DocComment => exists k :: 3 <= k < |l| && SeparatorAt(l, k)
    case RegularLine => !(l <= "---") && !SeparatorLine(l)
  }

  lemma SeparatorStates(state: State, l: Bytes)
    requires Reads(state, l)
    ensures state.InSeparator() <==> SeparatorLine(l)
  {
    if state.DocDash3? { assert SeparatorAt(l, 3); }
    if state.DocSpaces? { assert SeparatorAt(l, |l|); }
    if |l| < 3 { assert !SeparatorLine(l); }
  }

  lemma SeparatorShape(m: Bytes)
    requires SeparatorLine(m)
    ensures "---" <= m
    ensures m[..|m| - 1] <= "---" || SeparatorLine(m[..|m| - 1])
  {
    var k :| 3 <= k <= |m| && SeparatorAt(m, k);
    var l := m[..|m| - 1];
    if |l| == 2 {
      assert l == DASHES[..2];
    } else if k == |m| {
      assert SeparatorAt(l, |l|);
    } else {
      assert SeparatorAt(l, k);
    }
  }

  /** A regular line stays one whatever follows. */
  lemma RegularStays(l: Bytes, c: char)
    requires Reads(RegularLine, l)
    ensures Reads(RegularLine, l + [c])
  {
    var m := l + [c];
    assert m[..|l|] == l;
    if SeparatorLine(m) { SeparatorShape(m); }
  }

  lemma BrokenPrefix(l: Bytes, c: char)
    requires l <= "--" && c != '-'
    ensures Reads(RegularLine, l + [c])
  {
    var m := l + [c];
    assert m[|l|] == c && "---"[|l|] == '-';
    if SeparatorLine(m) { SeparatorShape(m); }
  }

  lemma LastOfSeparator(m: Bytes, k: nat)
    requires SeparatorLine(m)
    requires 3 <= k < |m| && SeparatorAt(m[..|m| - 1], k)
    ensures k == |m| - 1 ==> Blank(m[k]) || m[k] == '#'
    ensures k < |m| - 1 ==> m[|m| - 1] != '-'
  {
  }

  lemma BlankAfterDashes(l: Bytes, c: char)
    requires l == "---" || Reads(DocSpaces, l)
    ensures Blank(c) ==> Reads(DocSpaces, l + [c])
    ensures c == '#' ==> Reads(DocComment, l + [c])
    ensures !Blank(c) && c != '#' ==> Reads(RegularLine, l + [c])
  {
    var m := l + [c];
    assert m[..|l|] == l && SeparatorAt(l, |l|);
    if c == '#' { assert SeparatorAt(m, |l|); }
    if SeparatorLine(m) { LastOfSeparator(m, |l|); }
  }

  lemma CommentGoesOn(l: Bytes, c: char)
    requires Reads(DocComment, l)
    requires c != '\n'
    ensures c != '-' ==> Reads(DocComment, l + [c])
    ensures c == '-' ==> Reads(RegularLine, l + [c])
  {
    var m := l + [c];
    var k :| 3 <= k < |l| && SeparatorAt(l, k);
    assert m[..|l|] == l;
    if c != '-' { assert SeparatorAt(m, k); }
    if SeparatorLine(m) { LastOfSeparator(m, k); }
  }

  lemma DashBreaks(state: State, l: Bytes)
    requires Reads(state, l)
    requires !state.LineBegin? && !state.DocDash1? && !state.DocDash2?
    ensures Reads(RegularLine, l + ['-'])
  {
    match state
    case RegularLine => RegularStays(l, '-');
    case DocComment => CommentGoesOn(l, '-');
    case _ => BlankAfterDashes(l, '-');
  }

  lemma OtherBreaks(state: State, l: Bytes, c: char)
    requires Reads(state, l)
    requires c != '-' && c != '\n'
    requires state.InSeparator() ==> !state.DocComment? && !Blank(c) && c != '#'
    ensures Reads(RegularLine, l + [c])
  {
    match state
    case RegularLine => RegularStays(l, c);
    case DocDash3 => BlankAfterDashes(l, c);
    case DocSpaces => BlankAfterDashes(l, c);
    case _ => BrokenPrefix(l, c);
  }

  // ----- The loop

  /** The documents still to come when the current line starts at `lineStart` and the
      current document at `docStart`. */
  ghost function ToCome(content: Bytes, docStart: nat, lineStart: nat): seq<Bytes>
    requires docStart <= lineStart <= |content|
  {
    if lineStart < |content| then SplitFrom(content[docStart..lineStart], content[lineStart..])
    else if docStart == |content| > 0 then []
    else [content[docStart..]]
  }

  lemma LineAt(content: Bytes, lineStart: nat, k: nat)
    requires lineStart <= k <= |content| && lineStart < |content|
    requires forall i :: lineStart <= i < k ==> content[i] != '\n'
    requires k < |content| ==> content[k] == '\n'
    ensures var s := content[lineStart..];
      LineEnd(s) == k - lineStart && s[..LineEnd(s)] == content[lineStart..k]
    ensures k < |content| ==> var s := content[lineStart..];
      LineSize(s) == k + 1 - lineStart && s[LineSize(s)..] == content[k + 1..]
  {
  }

  lemma SeparatorEnds(content: Bytes, docStart: nat, lineStart: nat, k: nat)
    requires docStart <= lineStart <= k < |content|
    requires forall i :: lineStart <= i < k ==> content[i] != '\n'
    requires content[k] == '\n'
    requires SeparatorLine(content[lineStart..k])
    ensures ToCome(content, docStart, lineStart) ==
            [content[docStart..lineStart]] + ToCome(content, k + 1, k + 1)
  {
    LineAt(content, lineStart, k);
    assert content[k + 1..k + 1] == [];
  }

  lemma TextEnds(content: Bytes, docStart: nat, lineStart: nat, k: nat)
    requires docStart <= lineStart <= k < |content|
    requires forall i :: lineStart <= i < k ==> content[i] != '\n'
    requires content[k] == '\n'
    requires !SeparatorLine(content[lineStart..k])
    ensures ToCome(content, docStart, lineStart) == ToCome(content, docStart, k + 1)
  {
    LineAt(content, lineStart, k);
    var s := content[lineStart..];
    assert content[docStart..lineStart] + s[..k + 1 - lineStart] == content[docStart..k + 1];
    if k + 1 == |content| {
      assert s[LineSize(s)..] == [];
      assert content[docStart..lineStart] + s == content[docStart..];
    }
  }

  lemma InputEnds(content: Bytes, docStart: nat, lineStart: nat)
    requires docStart <= lineStart < |content|
    requires forall i :: lineStart <= i < |content| ==> content[i] != '\n'
    ensures ToCome(content, docStart, lineStart) ==
            if SeparatorLine(content[lineStart..]) then [content[docStart..lineStart]]
            else [content[docStart..]]
  {
    LineAt(content, lineStart, |content|);
    var s := content[lineStart..];
    assert s[..|s|] == s && s[|s|..] == [];
    assert content[docStart..lineStart] + s == content[docStart..];
  }

  /** The state and the separator length agree with the line read so far. */
  ghost predicate Follows(state: State, separatorLength: nat, l: Bytes) {
    Reads(state, l) && (!state.RegularLine? ==> separatorLength == |l|)
  }

  /** The case of a dash in splitContent. */
  method OnDash(state: State, separatorLength: nat, ghost l: Bytes) returns (state': State, separatorLength': nat)
    requires Follows(state, separatorLength, l)
    ensures Follows(state', separatorLength', l + ['-'])
  {
    state', separatorLength' := state, separatorLength;
    match state
    case LineBegin =>
      separatorLength' := 1;
      state' := DocDash1;
    case DocDash1 =>
      separatorLength' := separatorLength + 1;
      state' := DocDash2;
    case DocDash2 =>
      separatorLength' := separatorLength + 1;
      state' := DocDash3;
    case _ =>
      DashBreaks(state, l);
      state' := RegularLine;
  }

  /** The case of a space, a tab or a carriage return. */
  method OnBlank(state: State, separatorLength: nat, ghost l: Bytes, ch: char) returns (state': State, separatorLength': nat)
    requires Blank(ch)
    requires Follows(state, separatorLength, l)
    ensures Follows(state', separatorLength', l + [ch])
  {
    state', separatorLength' := state, separatorLength;
    if state.DocDash3? || state.DocSpaces? {
      BlankAfterDashes(l, ch);
      separatorLength' := separatorLength + 1;
      state' := DocSpaces;
    } else if state.DocComment? {
      CommentGoesOn(l, ch);
      separatorLength' := separatorLength + 1;
    } else {
      OtherBreaks(state, l, ch);
      state' := RegularLine;
    }
  }

  /** The case of a hash sign. */
  method OnHash(state: State, separatorLength: nat, ghost l: Bytes) returns (state': State, separatorLength': nat)
    requires Follows(state, separatorLength, l)
    ensures Follows(state', separatorLength', l + ['#'])
  {
    state', separatorLength' := state, separatorLength;
    if state.InSeparator() {
      if state.DocComment? { CommentGoesOn(l, '#'); } else { BlankAfterDashes(l, '#'); }
      separatorLength' := separatorLength + 1;
      state' := DocComment;
    } else {
      OtherBreaks(state, l, '#');
      state' := RegularLine;
    }
  }

  /** The default case. */
  method OnOther(state: State, separatorLength: nat, ghost l: Bytes, ch: char) returns (state': State, separatorLength': nat)
    requires ch != '-' && ch != '\n' && ch != '#' && !Blank(ch)
    requires Follows(state, separatorLength, l)
    ensures Follows(state', separatorLength', l + [ch])
  {
    state', separatorLength' := state, separatorLength;
    if state.DocComment? {
      CommentGoesOn(l, ch);
      separatorLength' := separatorLength + 1;
    } else {
      OtherBreaks(state, l, ch);
      state' := RegularLine;
    }
  }

  lemma Reassociate<T>(a: seq<T>, b: seq<T>, c: seq<T>)
    ensures a + (b + c) == (a + b) + c
  {
  }

  /** The case of a newline: a separator line ends the current document. */
  method OnNewline(content: Bytes, state: State, separatorLength: nat, docs: seq<Bytes>, docStartIndex: nat,
                   ghost lineStart: nat, index: nat)
    returns (docs': seq<Bytes>, docStartIndex': nat)
    requires docStartIndex <= lineStart <= index < |content|
    requires forall i :: lineStart <= i < index ==> content[i] != '\n'
    requires content[index] == '\n'
    requires Follows(state, separatorLength, content[lineStart..index])
    ensures docStartIndex' == if state.InSeparator() then index + 1 else docStartIndex
    ensures docs' + ToCome(content, docStartIndex', index + 1) == docs + ToCome(content, docStartIndex, lineStart)
  {
    SeparatorStates(state, content[lineStart..index]);
    if state.InSeparator() {
      SeparatorEnds(content, docStartIndex, lineStart, index);
      var docContent := [];
      if docStartIndex != index - separatorLength {
        docContent := content[docStartIndex..index - separatorLength];
      }
      assert docContent == content[docStartIndex..lineStart];
      Reassociate(docs, [docContent], ToCome(content, index + 1, index + 1));
      docs' := docs + [docContent];
      docStartIndex' := index + 1;
    } else {
      TextEnds(content, docStartIndex, lineStart, index);
      docs', docStartIndex' := docs, docStartIndex;
    }
  }

  /** What is still to come after the last byte. */
  lemma AtEnd(content: Bytes, state: State, separatorLength: nat, docStart: nat, lineStart: nat)
    requires docStart <= lineStart <= |content|
    requires docStart == |content| ==> lineStart == |content|
    requires forall i :: lineStart <= i < |content| ==> content[i] != '\n'
    requires Follows(state, separatorLength, content[lineStart..|content|])
    ensures docStart == |content| > 0 ==> ToCome(content, docStart, lineStart) == []
    ensures docStart < |content| || |content| == 0 ==>
              ToCome(content, docStart, lineStart) ==
              [if state.InSeparator() then content[docStart..lineStart] else content[docStart..]]
    ensures state.InSeparator() ==> separatorLength == |content| - lineStart > 0
    ensures content[lineStart..lineStart] == []
  {
    assert content[lineStart..|content|] == content[lineStart..];
    SeparatorStates(state, content[lineStart..]);
    if lineStart < |content| { InputEnds(content, docStart, lineStart); }
  }

  /** The end of splitContent, after the last byte. */
  method OnEnd(content: Bytes, state: State, separatorLength: nat, docs: seq<Bytes>, docStartIndex: nat,
               ghost lineStart: nat, index: nat)
    returns (docs': seq<Bytes>)
    requires docStartIndex <= lineStart <= |content|
    requires docStartIndex == |content| ==> lineStart == |content|
    requires forall i :: lineStart <= i < |content| ==> content[i] != '\n'
    requires Follows(state, separatorLength, content[lineStart..|content|])
    requires index == if |content| == 0 then 0 else |content| - 1
    ensures docs' == docs + ToCome(content, docStartIndex, lineStart)
  {
    docs' := docs;
    AtEnd(content, state, separatorLength, docStartIndex, lineStart);
    if docStartIndex != index + 1 {
      var docContent;
      if state.InSeparator() {
        var separatorLengthWithoutCursor := separatorLength - 1;
        if docStartIndex == index - separatorLengthWithoutCursor {
          docContent := [];
        } else {
          docContent := content[docStartIndex..index - separatorLengthWithoutCursor];
        }
      } else {
        docContent := content[docStartIndex..];
      }
      docs' := docs' + [docContent];
    } else {
      assert docs + [] == docs;
    }
  }

  lemma AtStart(content: Bytes)
    ensures [] + ToCome(content, 0, 0) == Split(content)
    ensures content[0..0] == []
  {
  }

  /** splitContent: the documents it cuts out are those of the line grammar. */
  method SplitContent(content: Bytes) returns (docs: seq<Bytes>)
    ensures docs == Split(content)
  {
    hide SplitFrom, Split, ToCome;
    var state := LineBegin;
    var docStartIndex, separatorLength: nat := 0, 0;
    docs := [];
    var index := 0;
    ghost var lineStart := 0;
    AtStart(content);
    for k := 0 to |content|
      invariant index == if k == 0 then 0 else k - 1
      invariant docStartIndex <= lineStart <= k
      invariant docStartIndex == k > 0 ==> lineStart == k
      invariant forall i :: lineStart <= i < k ==> content[i] != '\n'
      invariant Follows(state, separatorLength, content[lineStart..k])
      invariant docs + ToCome(content, docStartIndex, lineStart) == Split(content)
    {
      index := k;
      var ch := content[k];
      ghost var line := content[lineStart..k];
      assert content[lineStart..k + 1] == line + [ch];
      if ch == '-' {
        state, separatorLength := OnDash(state, separatorLength, line);
      } else if ch == '\n' {
        docs, docStartIndex := OnNewline(content, state, separatorLength, docs, docStartIndex, lineStart, index);
        separatorLength := 0;
        state := LineBegin;
        lineStart := k + 1;
        assert content[k + 1..k + 1] == [];
      } else if Blank(ch) {
        state, separatorLength := OnBlank(state, separatorLength, line, ch);
      } else if ch == '#' {
        state, separatorLength := OnHash(state, separatorLength, line);
      } else {
        state, separatorLength := OnOther(state, separatorLength, line, ch);
      }
    }
    docs := OnEnd(content, state, separatorLength, docs, docStartIndex, lineStart, index);
  }

  /** Whatever the input, separators can be put back between its documents to rebuild it. */
  lemma SplitRebuilds(content: Bytes) returns (seps: seq<Bytes>)
    ensures Rebuilds(Split(content), seps, content)
    ensures |Split(content)| > 0
  {
    if |content| == 0 {
      seps := [];
    } else {
      seps := SplitFromRebuilds([], content);
      assert [] + content == content;
    }
  }

  // ----- Joining documents again

  const SEPARATOR: Bytes := "---\n"

  /** strings.Join(docs, "---\n"). */
  function Join(docs: seq<Bytes>): Bytes {
    if |docs| == 0 then ""
    else if |docs| == 1 then docs[0]
    else docs[0] + (SEPARATOR + Join(docs[1..]))
  }

  /** Every document but the last ends its last line. */
  predicate LinesEnded(docs: seq<Bytes>) {
    |docs| > 1 ==> WholeLines(docs[0]) && LinesEnded(docs[1..])
  }

  ghost predicate NonEmptyTexts(docs: seq<Bytes>) {
    forall d :: d in docs ==> |d| > 0 && !HasSeparator(d)
  }

  lemma PlainSeparator()
    ensures Separator(SEPARATOR, true)
  {
    assert SEPARATOR[..3] == "---" && SeparatorAt("---", 3);
  }

  lemma JoinTail(docs: seq<Bytes>)
    requires |docs| > 1 && NonEmptyTexts(docs) && LinesEnded(docs)
    ensures |docs[0]| > 0 && WholeLines(docs[0]) && !HasSeparator(docs[0])
    ensures NonEmptyTexts(docs[1..]) && LinesEnded(docs[1..])
    ensures docs == [docs[0]] + docs[1..]
    ensures Join(docs) == docs[0] + (SEPARATOR + Join(docs[1..]))
  {
  }

  lemma {:induction false} JoinInterleaves(docs: seq<Bytes>) returns (seps: seq<Bytes>)
    requires |docs| > 0 && NonEmptyTexts(docs) && LinesEnded(docs)
    ensures Rebuilds(docs, seps, Join(docs))
    ensures |Join(docs)| > 0
    decreases |docs|
  {
    hide HasSeparator, Separator, WellSplit, Interleave, LinesEnded;
    if |docs| == 1 {
      assert docs[0] in docs && docs == [docs[0]];
      OneDocument(docs[0]);
      seps := [];
    } else {
      hide *;
      JoinTail(docs);
      seps := JoinInterleaves(docs[1..]);
      PlainSeparator();
      ConsIsWellSplit(docs[0], SEPARATOR, docs[1..], seps, Join(docs[1..]));
      seps := [SEPARATOR] + seps;
    }
  }

  lemma {:induction false} WellSplitLines(docs: seq<Bytes>, seps: seq<Bytes>)
    requires WellSplit(docs, seps)
    ensures LinesEnded(docs)
    decreases |docs|
  {
    if |docs| > 1 { WellSplitLines(docs[1..], seps[1..]); }
  }

  /** Splitting the joined documents gives back the same list exactly when every document
      but the last ends its last line; otherwise the separator sticks to a text line. */
  lemma SplitUndoesJoin(docs: seq<Bytes>)
    requires |docs| > 0 && NonEmptyTexts(docs)
    ensures Split(Join(docs)) == docs <==> LinesEnded(docs)
  {
    if LinesEnded(docs) {
      var seps := JoinInterleaves(docs);
      SplitIsUnique(docs, seps);
    }
    if Split(Join(docs)) == docs {
      var seps := SplitRebuilds(Join(docs));
      WellSplitLines(docs, seps);
    }
  }

  // ----- Documents with their positions

  datatype Doc = Doc(line: nat, content: Bytes)

  /** Nothing but blanks and comments. */
  ghost predicate OnlyComments(s: Bytes) {
    forall i :: 0 <= i < |s| && s[i] != '\n' && !Blank(s[i]) ==> InComment(s, i)
  }

  /** A hash sign comes before or at `i` on the same line. */
  ghost predicate InComment(s: Bytes, i: nat)
    requires i < |s|
  {
    exists j :: 0 <= j <= i && s[j] == '#' && NoNewline(s, j, i)
  }

  ghost predicate NoNewline(s: Bytes, j: nat, i: nat)
    requires i <= |s|
  {
    forall x :: j <= x < i ==> s[x] != '\n'
  }

  /** The line that is open after the first `k` bytes is in a comment. */
  ghost predicate OpenComment(s: Bytes, k: nat)
    requires k <= |s|
  {
    exists j :: 0 <= j < k && s[j] == '#' && NoNewline(s, j, k)
  }

  lemma CommentStep(s: Bytes, k: nat)
    requires k < |s|
    ensures OpenComment(s, k + 1) <==> s[k] != '\n' && (s[k] == '#' || OpenComment(s, k))
    ensures InComment(s, k) <==> s[k] == '#' || OpenComment(s, k)
  {
  }

  /** emptyDocContent. */
  method EmptyDocContent(content: Bytes) returns (empty: bool)
    ensures empty <==> OnlyComments(content)
    ensures empty <==>
            forall i :: 0 <= i < |content| && content[i] !in " \t\r\n" ==>
              exists j :: 0 <= j <= i && content[j] == '#' && forall x :: j <= x < i ==> content[x] != '\n'
  {
    OnlyCommentsMeans(content);
    hide OpenComment, InComment, OnlyComments;
    var inComment := false;
    NoOpenComment(content);
    for k := 0 to |content|
      invariant inComment <==> OpenComment(content, k)
      invariant forall i :: 0 <= i < k && content[i] != '\n' && !Blank(content[i]) ==> InComment(content, i)
    {
      var ch := content[k];
      CommentStep(content, k);
      if ch == '#' {
        inComment := true;
      } else if ch == '\n' {
        inComment := false;
      } else if !Blank(ch) {
        if !inComment {
          NotOnlyComments(content, k);
          return false;
        }
      }
    }
    OnlyCommentsSeen(content);
    return true;
  }

  lemma NotOnlyComments(s: Bytes, k: nat)
    requires k < |s| && s[k] != '\n' && !Blank(s[k]) && !InComment(s, k)
    ensures !OnlyComments(s)
  {
  }

  lemma OnlyCommentsSeen(s: Bytes)
    requires forall i :: 0 <= i < |s| && s[i] != '\n' && !Blank(s[i]) ==> InComment(s, i)
    ensures OnlyComments(s)
  {
  }

  lemma OnlyCommentsMeans(s: Bytes)
    ensures OnlyComments(s) <==>
            forall i :: 0 <= i < |s| && s[i] !in " \t\r\n" ==>
              exists j :: 0 <= j <= i && s[j] == '#' && forall x :: j <= x < i ==> s[x] != '\n'
  {
    forall i | 0 <= i < |s|
      ensures InComment(s, i) <==> exists j :: 0 <= j <= i && s[j] == '#' && forall x :: j <= x < i ==> s[x] != '\n'
    {
      if InComment(s, i) {
        var j :| 0 <= j <= i && s[j] == '#' && NoNewline(s, j, i);
      }
      if j :| 0 <= j <= i && s[j] == '#' && forall x :: j <= x < i ==> s[x] != '\n' {
        assert NoNewline(s, j, i);
      }
    }
  }

  lemma NoOpenComment(s: Bytes)
    ensures !OpenComment(s, 0)
  {
  }

  function CountNewlines(s: Bytes): nat {
    if |s| == 0 then 0 else CountNewlines(s[..|s| - 1]) + if s[|s| - 1] == '\n' then 1 else 0
  }

  lemma {:induction false} CountAppend(a: Bytes, b: Bytes)
    ensures CountNewlines(a + b) == CountNewlines(a) + CountNewlines(b)
    decreases |b|
  {
    if |b| == 0 {
      assert a + b == a;
    } else {
      CountAppend(a, b[..|b| - 1]);
      assert (a + b)[..|a + b| - 1] == a + b[..|b| - 1];
    }
  }

  /** The documents that are not empty, each with the number of lines above it in the input:
      `before` is the input up to the first of the documents. */
  ghost function Locate(before: Bytes, docs: seq<Bytes>, seps: seq<Bytes>): seq<Doc>
    decreases |docs|
  {
    if |docs| == 0 then []
    else
      (if OnlyComments(docs[0]) then [] else [Doc(CountNewlines(before), docs[0])]) +
      (if |seps| == 0 then [] else Locate(before + (docs[0] + seps[0]), docs[1..], seps[1..]))
  }

  /** len(bytes.Split(doc, "\n")), less one if the last piece is empty. */
  function ContentLines(doc: Bytes): nat {
    if WholeLines(doc) then CountNewlines(doc) else CountNewlines(doc) + 1
  }

  lemma {:induction false} NoNewlines(s: Bytes)
    requires forall i :: 0 <= i < |s| ==> s[i] != '\n'
    ensures CountNewlines(s) == 0
  {
    if |s| > 0 { NoNewlines(s[..|s| - 1]); }
  }

  lemma LinesUpToNext(before: Bytes, doc: Bytes, sep: Bytes)
    requires WholeLines(doc)
    requires Separator(sep, true)
    ensures CountNewlines(before + (doc + sep)) == CountNewlines(before) + ContentLines(doc) + 1
  {
    CountAppend(before, doc + sep);
    CountAppend(doc, sep);
    SeparatorHasNoNewline(sep[..|sep| - 1]);
    NoNewlines(sep[..|sep| - 1]);
  }

  lemma LocateStep(before: Bytes, docs: seq<Bytes>, seps: seq<Bytes>, found: seq<Doc>)
    returns (before': Bytes, seps': seq<Bytes>)
    requires WellSplit(docs, seps)
    requires found == if OnlyComments(docs[0]) then [] else [Doc(CountNewlines(before), docs[0])]
    ensures Locate(before, docs, seps) == found + Locate(before', docs[1..], seps')
    ensures |docs| > 1 ==>
              && WellSplit(docs[1..], seps')
              && CountNewlines(before') == CountNewlines(before) + ContentLines(docs[0]) + 1
    ensures |docs| == 1 ==> Locate(before', docs[1..], seps') == []
  {
    if |seps| == 0 {
      before', seps' := before, seps;
    } else {
      before', seps' := before + (docs[0] + seps[0]), seps[1..];
      if |docs| > 1 { LinesUpToNext(before, docs[0], seps[0]); }
    }
  }

  /** splitByDocs: the line recorded for a document is the number of lines above it. */
  method SplitByDocs(content: Bytes) returns (docs: seq<Doc>)
    ensures exists seps :: Rebuilds(Split(content), seps, content) && docs == Locate([], Split(content), seps)
  {
    hide Split, SplitFrom, WellSplit, Locate, Interleave, OnlyComments, HasSeparator;
    docs := [];
    var line := 0;
    var parts := SplitContent(content);
    ghost var seps := SplitRebuilds(content);
    ghost var before, ds, ps := [], parts, seps;
    for i := 0 to |parts|
      invariant ds == parts[i..]
      invariant i < |parts| ==> WellSplit(ds, ps) && line == CountNewlines(before)
      invariant i == |parts| ==> Locate(before, ds, ps) == []
      invariant docs + Locate(before, ds, ps) == Locate([], parts, seps)
    {
      var docContent := parts[i];
      assert ds[0] == docContent && ds[1..] == parts[i + 1..];
      var empty := EmptyDocContent(docContent);
      ghost var found := if empty then [] else [Doc(line, docContent)];
      ghost var before', ps' := LocateStep(before, ds, ps, found);
      Reassociate(docs, found, Locate(before', ds[1..], ps'));
      if !empty {
        docs := docs + [Doc(line, docContent)];
      } else {
        assert docs + [] == docs;
      }
      line := line + ContentLines(docContent) + 1;
      before, ds, ps := before', ds[1..], ps';
    }
  }
}
