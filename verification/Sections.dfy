/**
 A document's heading-delimited sections. The Markdown parser's headings are input; the
 sections cut the document's lines into consecutive pieces, so comparing sections one by
 one compares whole documents.
 */
module Sections {
  import opened Text
  import opened Lines

  datatype Heading = Heading(depth: nat, line: nat, title: string)

  datatype Kind = Preamble | Section(depth: nat) | Unit(path: string)

  datatype Title = BeforeFirstHeading | Untitled | Titled(text: string) | OfType(node: string)

  datatype TextSpan = TextSpan(index: nat, kind: Kind, title: Title, startLine: nat, endLine: nat, text: string)

  /** Headings in document order, one to a line, inside the document. */
  predicate HeadingsPlaced(lines: seq<string>, headings: seq<Heading>) {
    && (forall i | 0 <= i < |headings| :: 1 <= headings[i].line <= |lines|)
    && (forall i, j | 0 <= i < j < |headings| :: headings[i].line < headings[j].line)
  }

  /** The line before the i-th heading; the last line when there is none. */
  function LineBefore(lines: seq<string>, headings: seq<Heading>, i: nat): (line: int)
    requires HeadingsPlaced(lines, headings)
    ensures 0 <= line <= |lines|
  {
    if i < |headings| then headings[i].line - 1 else |lines|
  }

  function TitleOf(h: Heading): Title {
    if h.title == "" then Untitled else Titled(h.title)
  }

  function PreambleSpans(lines: seq<string>, headings: seq<Heading>): seq<TextSpan>
    requires HeadingsPlaced(lines, headings)
  {
    var end := LineBefore(lines, headings, 0);
    if end >= 1 then [TextSpan(0, Preamble, BeforeFirstHeading, 1, end, SliceLines(lines, 1, end))] else []
  }

  function HeadingSpan(lines: seq<string>, headings: seq<Heading>, i: nat, index: nat): TextSpan
    requires HeadingsPlaced(lines, headings) && i < |headings|
  {
    var h, end := headings[i], LineBefore(lines, headings, i + 1);
    TextSpan(index, Section(h.depth), TitleOf(h), h.line, end, SliceLines(lines, h.line, end))
  }

  function HeadingSpans(lines: seq<string>, headings: seq<Heading>, i: nat, index: nat): seq<TextSpan>
    requires HeadingsPlaced(lines, headings) && i <= |headings|
    decreases |headings| - i
  {
    if i == |headings| then []
      else [HeadingSpan(lines, headings, i, index)] + HeadingSpans(lines, headings, i + 1, index + 1)
  }

  function SpansOf(lines: seq<string>, headings: seq<Heading>): seq<TextSpan>
    requires HeadingsPlaced(lines, headings)
  {
    var preamble := PreambleSpans(lines, headings);
    preamble + HeadingSpans(lines, headings, 0, |preamble|)
  }

  /** `sectionSpans`. */
  method SectionSpans(markdown: string, headings: seq<Heading>) returns (spans: seq<TextSpan>)
    requires HeadingsPlaced(LinesOf(markdown), headings)
    ensures spans == SpansOf(LinesOf(markdown), headings)
  {
    var lines := LinesOf(markdown);
    spans := [];
    var firstHeadingLine := if headings == [] then |lines| + 1 else headings[0].line;
    if firstHeadingLine > 1 {
      spans := [TextSpan(0, Preamble, BeforeFirstHeading, 1, firstHeadingLine - 1,
        SliceLines(lines, 1, firstHeadingLine - 1))];
    }
    assert spans == PreambleSpans(lines, headings);
    for order := 0 to |headings|
      invariant spans + HeadingSpans(lines, headings, order, |spans|) == SpansOf(lines, headings)
    {
      var heading := headings[order];
      var endLine := (if order + 1 < |headings| then headings[order + 1].line else |lines| + 1) - 1;
      var span := TextSpan(|spans|, Section(heading.depth), TitleOf(heading), heading.line, endLine,
        SliceLines(lines, heading.line, endLine));
      assert span == HeadingSpan(lines, headings, order, |spans|);
      HeadingSpansUnfold(lines, headings, order, |spans|);
      AppendAssociates(spans, span, HeadingSpans(lines, headings, order + 1, |spans| + 1));
      spans := spans + [span];
    }
    assert HeadingSpans(lines, headings, |headings|, |spans|) == [];
  }

  lemma HeadingSpansUnfold(lines: seq<string>, headings: seq<Heading>, i: nat, index: nat)
    requires HeadingsPlaced(lines, headings) && i < |headings|
    ensures HeadingSpans(lines, headings, i, index)
         == [HeadingSpan(lines, headings, i, index)] + HeadingSpans(lines, headings, i + 1, index + 1)
  {
  }

  lemma AppendAssociates<T>(a: seq<T>, x: T, b: seq<T>)
    ensures a + ([x] + b) == (a + [x]) + b
  {
  }

  // ----- the partition

  /**
   The spans cover exactly the lines after the first `from`, in order, without gaps or overlap, each with its
   own text.
   */
  predicate CoversFrom(lines: seq<string>, spans: seq<TextSpan>, from: nat) {
    if spans == [] then from == |lines|
    else
      var s := spans[0];
      from + 1 == s.startLine <= s.endLine <= |lines| && s.text == SliceLines(lines, s.startLine, s.endLine)
      && CoversFrom(lines, spans[1..], s.endLine)
  }

  predicate Numbered(spans: seq<TextSpan>) {
    forall i | 0 <= i < |spans| :: spans[i].index == i
  }

  lemma OneSpan(lines: seq<string>, headings: seq<Heading>, i: nat, index: nat)
    requires HeadingsPlaced(lines, headings) && i < |headings|
    ensures var span := HeadingSpan(lines, headings, i, index);
            && LineBefore(lines, headings, i) + 1 == span.startLine <= span.endLine
               == LineBefore(lines, headings, i + 1)
            && span.text == SliceLines(lines, span.startLine, span.endLine) && span.index == index
  {
  }

  lemma {:induction false} HeadingSpansCover(lines: seq<string>, headings: seq<Heading>, i: nat, index: nat)
    requires HeadingsPlaced(lines, headings) && i <= |headings|
    ensures CoversFrom(lines, HeadingSpans(lines, headings, i, index), LineBefore(lines, headings, i))
    decreases |headings| - i
  {
    if i < |headings| {
      OneSpan(lines, headings, i, index);
      HeadingSpansCover(lines, headings, i + 1, index + 1);
      ConsTail(HeadingSpan(lines, headings, i, index), HeadingSpans(lines, headings, i + 1, index + 1));
    }
  }

  lemma ConsTail<T>(head: T, tail: seq<T>)
    ensures ([head] + tail)[1..] == tail
  {
  }

  lemma {:induction false} HeadingSpansNumbered(lines: seq<string>, headings: seq<Heading>, i: nat, index: nat)
    requires HeadingsPlaced(lines, headings) && i <= |headings|
    ensures |HeadingSpans(lines, headings, i, index)| == |headings| - i
    ensures forall k | 0 <= k < |headings| - i :: HeadingSpans(lines, headings, i, index)[k].index == index + k
    decreases |headings| - i
  {
    if i < |headings| {
      HeadingSpansNumbered(lines, headings, i + 1, index + 1);
    }
  }

  /** Sections are numbered in order and cut the document's lines without gap or overlap. */
  lemma SectionsPartition(markdown: string, headings: seq<Heading>)
    requires HeadingsPlaced(LinesOf(markdown), headings)
    ensures CoversFrom(LinesOf(markdown), SpansOf(LinesOf(markdown), headings), 0)
    ensures Numbered(SpansOf(LinesOf(markdown), headings))
  {
    var lines := LinesOf(markdown);
    var preamble := PreambleSpans(lines, headings);
    HeadingSpansCover(lines, headings, 0, |preamble|);
    HeadingSpansNumbered(lines, headings, 0, |preamble|);
    if preamble == [] {
      assert SpansOf(lines, headings) == HeadingSpans(lines, headings, 0, 0);
    } else {
      ConsTail(preamble[0], HeadingSpans(lines, headings, 0, 1));
      assert SpansOf(lines, headings)[0] == preamble[0];
    }
  }

  lemma {:induction false} HeadingSpanAt(lines: seq<string>, headings: seq<Heading>, i: nat, index: nat, k: nat)
    requires HeadingsPlaced(lines, headings) && i <= k < |headings|
    ensures |HeadingSpans(lines, headings, i, index)| == |headings| - i
    ensures HeadingSpans(lines, headings, i, index)[k - i] == HeadingSpan(lines, headings, k, index + k - i)
    decreases k - i
  {
    HeadingSpansNumbered(lines, headings, i, index);
    if i < k {
      HeadingSpanAt(lines, headings, i + 1, index + 1, k);
    }
  }

  /**
   Each heading starts its own section, of its depth, in order; text before the first heading is one span
   before them.
   */
  lemma SectionOfHeading(markdown: string, headings: seq<Heading>, k: nat)
    requires HeadingsPlaced(LinesOf(markdown), headings) && k < |headings|
    ensures var spans := SpansOf(LinesOf(markdown), headings);
            var before := |spans| - |headings|;
            && before == (if headings[0].line > 1 then 1 else 0)
            && (before == 1 ==> spans[0].kind == Preamble && spans[0].title == BeforeFirstHeading)
            && spans[before + k].startLine == headings[k].line && spans[before + k].kind == Section(headings[k].depth)
            && (headings[k].title == "" ==> spans[before + k].title == Untitled)
            && (headings[k].title != "" ==> spans[before + k].title == Titled(headings[k].title))
  {
    var lines := LinesOf(markdown);
    var preamble := PreambleSpans(lines, headings);
    HeadingSpanAt(lines, headings, 0, |preamble|, k);
    assert SpansOf(lines, headings)[|preamble| + k] == HeadingSpan(lines, headings, k, |preamble| + k);
  }

  // ----- texts

  function AllText(spans: seq<TextSpan>): string {
    if spans == [] then "" else spans[0].text + AllText(spans[1..])
  }

  lemma {:induction false} TerminatedAppend(a: seq<string>, b: seq<string>)
    ensures Terminated(a + b) == Terminated(a) + Terminated(b)
  {
    if a == [] {
      assert a + b == b;
    } else {
      assert (a + b)[1..] == a[1..] + b;
      TerminatedAppend(a[1..], b);
    }
  }

  /** Put one after another, the sections' texts are the document, CRLF and the last newline normalised. */
  lemma {:induction false} CoverText(lines: seq<string>, spans: seq<TextSpan>, from: nat)
    requires CoversFrom(lines, spans, from)
    ensures from <= |lines| && AllText(spans) == Terminated(lines[from..])
    decreases |spans|
  {
    if spans != [] {
      var s := spans[0];
      CoverText(lines, spans[1..], s.endLine);
      var piece := lines[s.startLine - 1..s.endLine];
      UnlinesIsTerminated(piece);
      assert lines[from..] == piece + lines[s.endLine..];
      TerminatedAppend(piece, lines[s.endLine..]);
    }
  }

  lemma TerminatedInjective(a: seq<string>, b: seq<string>)
    requires AreLines(a) && AreLines(b) && Terminated(a) == Terminated(b)
    ensures a == b
  {
    SplitTerminated(a);
    SplitTerminated(b);
    assert (a + [""])[..|a|] == a && (b + [""])[..|b|] == b;
  }

  // ----- `spansAligned` and `changedSpanIndices`

  predicate SpansAligned(left: seq<TextSpan>, right: seq<TextSpan>) {
    |left| > 0 && |left| == |right| && forall i | 0 <= i < |left| :: left[i].kind == right[i].kind
  }

  function ChangedFrom(before: seq<TextSpan>, after: seq<TextSpan>, k: nat): (changed: seq<nat>)
    requires k <= |before|
    decreases |before| - k
  {
    if k == |before| then []
    else
      (if k < |after| && before[k].text == after[k].text then [] else [before[k].index])
      + ChangedFrom(before, after, k + 1)
  }

  function ChangedSpanIndices(before: seq<TextSpan>, after: seq<TextSpan>): seq<nat> {
    ChangedFrom(before, after, 0)
  }

  ghost predicate Ascending(indices: seq<nat>) {
    forall i, j | 0 <= i < j < |indices| :: indices[i] < indices[j]
  }

  lemma AscendingCons(x: nat, rest: seq<nat>)
    requires Ascending(rest) && forall y | y in rest :: x < y
    ensures Ascending([x] + rest)
  {
    var all := [x] + rest;
    forall i, j | 0 <= i < j < |all|
      ensures all[i] < all[j]
    {
      assert all[j] == rest[j - 1] && rest[j - 1] in rest;
    }
  }

  lemma ConsMembers(x: nat, rest: seq<nat>, y: int)
    ensures y in [x] + rest <==> y == x || y in rest
  {
  }

  predicate ChangedAt(before: seq<TextSpan>, after: seq<TextSpan>, i: int) {
    0 <= i < |before| && !(i < |after| && before[i].text == after[i].text)
  }

  lemma {:induction false} ChangedFromIs(before: seq<TextSpan>, after: seq<TextSpan>, k: nat)
    requires k <= |before| && Numbered(before)
    ensures var changed := ChangedFrom(before, after, k);
            && Ascending(changed)
            && forall i :: i in changed <==> k <= i && ChangedAt(before, after, i)
    decreases |before| - k
  {
    if k < |before| {
      ChangedFromIs(before, after, k + 1);
      var rest := ChangedFrom(before, after, k + 1);
      if ChangedAt(before, after, k) {
        AscendingCons(k, rest);
        assert ChangedFrom(before, after, k) == [k] + rest;
        forall i
          ensures i in [k] + rest <==> i == k || i in rest
        {
          ConsMembers(k, rest, i);
        }
      } else {
        assert ChangedFrom(before, after, k) == [] + rest == rest;
      }
    }
  }

  /** The changed indices, ascending, are exactly the positions whose text differs. */
  lemma ChangedIsExact(before: seq<TextSpan>, after: seq<TextSpan>)
    requires Numbered(before)
    ensures Ascending(ChangedSpanIndices(before, after))
    ensures forall i :: i in ChangedSpanIndices(before, after)
                        <==> 0 <= i < |before| && !(i < |after| && before[i].text == after[i].text)
  {
    ChangedFromIs(before, after, 0);
    assert forall i ::
      ChangedAt(before, after, i) <==> 0 <= i < |before| && !(i < |after| && before[i].text == after[i].text);
  }

  predicate SameTexts(a: seq<TextSpan>, b: seq<TextSpan>) {
    |a| == |b| && forall i | 0 <= i < |a| :: a[i].text == b[i].text
  }

  predicate SameStarts(a: seq<TextSpan>, b: seq<TextSpan>) {
    |a| == |b| && forall i | 0 <= i < |a| :: a[i].startLine == b[i].startLine
  }

  lemma TailsSame(a: seq<TextSpan>, b: seq<TextSpan>)
    requires a != [] && |a| == |b|
    ensures SameTexts(a, b) <==> a[0].text == b[0].text && SameTexts(a[1..], b[1..])
    ensures SameStarts(a, b) <==> a[0].startLine == b[0].startLine && SameStarts(a[1..], b[1..])
  {
    assert forall i | 1 <= i < |a| :: a[i] == a[1..][i - 1] && b[i] == b[1..][i - 1];
  }

  lemma PieceSame(left: seq<string>, s: TextSpan, right: seq<string>, t: TextSpan, from: nat)
    requires from + 1 == s.startLine <= s.endLine <= |left| && from + 1 == t.startLine <= t.endLine <= |right|
    requires AreLines(left) && AreLines(right)
    requires SliceLines(left, s.startLine, s.endLine) == SliceLines(right, t.startLine, t.endLine)
    ensures s.endLine == t.endLine
    ensures left[s.endLine..] == right[t.endLine..] ==> left[from..] == right[from..]
  {
    UnlinesInjective(left[from..s.endLine], right[from..t.endLine]);
    assert |left[from..s.endLine]| == |right[from..t.endLine]|;
    assert left[from..] == left[from..s.endLine] + left[s.endLine..];
    assert right[from..] == right[from..t.endLine] + right[t.endLine..];
  }

  lemma {:induction false} SameTextsSameLines(left: seq<string>, a: seq<TextSpan>, right: seq<string>, b: seq<TextSpan>,
                                              from: nat)
    requires CoversFrom(left, a, from) && CoversFrom(right, b, from) && SameTexts(a, b)
    requires AreLines(left) && AreLines(right)
    ensures SameStarts(a, b) && from <= |left| && from <= |right| && left[from..] == right[from..]
    decreases |a|
  {
    if a != [] {
      TailsSame(a, b);
      PieceSame(left, a[0], right, b[0], from);
      SameTextsSameLines(left, a[1..], right, b[1..], a[0].endLine);
    }
  }

  lemma SecondStart(lines: seq<string>, spans: seq<TextSpan>, from: nat)
    requires CoversFrom(lines, spans, from) && spans != []
    ensures spans[0].endLine == if |spans| > 1 then spans[1].startLine - 1 else |lines|
  {
    if |spans| > 1 {
      assert spans[1..][0] == spans[1];
    }
  }

  lemma {:induction false} SameLinesSameTexts(lines: seq<string>, a: seq<TextSpan>, b: seq<TextSpan>, from: nat)
    requires CoversFrom(lines, a, from) && CoversFrom(lines, b, from) && SameStarts(a, b)
    ensures SameTexts(a, b)
    decreases |a|
  {
    if a != [] {
      TailsSame(a, b);
      SecondStart(lines, a, from);
      SecondStart(lines, b, from);
      SameLinesSameTexts(lines, a[1..], b[1..], a[0].endLine);
    }
  }

  lemma NothingChangedIff(before: seq<TextSpan>, after: seq<TextSpan>)
    requires Numbered(before) && |before| == |after|
    ensures ChangedSpanIndices(before, after) == [] <==> SameTexts(before, after)
  {
    ChangedIsExact(before, after);
    var changed := ChangedSpanIndices(before, after);
    if changed != [] {
      assert changed[0] in changed;
    }
    if changed == [] {
      forall i | 0 <= i < |before|
        ensures before[i].text == after[i].text
      {
        assert i !in changed;
      }
    }
  }

  /**
   Of aligned documents, no section changed exactly when the documents have the same lines,
   sectioned at the same places.
   */
  lemma UnchangedIffSameLines(before: string, headingsBefore: seq<Heading>, after: string, headingsAfter: seq<Heading>)
    requires HeadingsPlaced(LinesOf(before), headingsBefore) && HeadingsPlaced(LinesOf(after), headingsAfter)
    requires SpansAligned(SpansOf(LinesOf(before), headingsBefore), SpansOf(LinesOf(after), headingsAfter))
    ensures var a, b := SpansOf(LinesOf(before), headingsBefore), SpansOf(LinesOf(after), headingsAfter);
            ChangedSpanIndices(a, b) == [] <==> LinesOf(before) == LinesOf(after) && SameStarts(a, b)
  {
    SectionsPartition(before, headingsBefore);
    SectionsPartition(after, headingsAfter);
    LinesOfAreLines(before);
    LinesOfAreLines(after);
    CoverUnchangedIff(LinesOf(before), SpansOf(LinesOf(before), headingsBefore), LinesOf(after),
      SpansOf(LinesOf(after), headingsAfter));
  }

  lemma CoverUnchangedIff(left: seq<string>, a: seq<TextSpan>, right: seq<string>, b: seq<TextSpan>)
    requires CoversFrom(left, a, 0) && CoversFrom(right, b, 0) && AreLines(left) && AreLines(right)
    requires Numbered(a) && |a| == |b|
    ensures ChangedSpanIndices(a, b) == [] <==> left == right && SameStarts(a, b)
  {
    NothingChangedIff(a, b);
    if SameTexts(a, b) {
      SameTextsSameLines(left, a, right, b, 0);
      assert left[0..] == left && right[0..] == right;
    } else if left == right && SameStarts(a, b) {
      SameLinesSameTexts(left, a, b, 0);
    }
  }

  // ----- what equal lines mean for the texts

  /** CRLF written as LF, and one newline at the end of a non-empty text. */
  function NewlinesNormalised(markdown: string): string {
    var s := DropCrLf(markdown);
    if s == "" || s[|s| - 1] == '\n' then s else s + "\n"
  }

  /** Having the same lines means differing in newlines only: CRLF for LF, or the newline at the end. */
  lemma SameLinesIffNewlineOnly(a: string, b: string)
    ensures LinesOf(a) == LinesOf(b) <==> NewlinesNormalised(a) == NewlinesNormalised(b)
  {
    NormalisedIsTerminated(a);
    NormalisedIsTerminated(b);
    LinesOfAreLines(a);
    LinesOfAreLines(b);
    if NewlinesNormalised(a) == NewlinesNormalised(b) {
      TerminatedInjective(LinesOf(a), LinesOf(b));
    }
  }

  lemma NormalisedIsTerminated(a: string)
    ensures NewlinesNormalised(a) == Terminated(LinesOf(a))
  {
    var s := DropCrLf(a);
    var pieces := Split(s, '\n');
    var front, last := pieces[..|pieces| - 1], pieces[|pieces| - 1];
    SplitHasNoSeparator(s, '\n');
    SplitIsFrontAndLast(s);
    if last == "" {
      EndsInNewline(front);
    } else {
      LastCharacter(Terminated(front), last);
      assert last[|last| - 1] in last;
      TerminatedSplit(s);
    }
  }

  lemma LastCharacter(a: string, b: string)
    requires b != ""
    ensures (a + b)[|a + b| - 1] == b[|b| - 1]
  {
  }

  lemma TerminatedSplit(s: string)
    ensures Terminated(Split(s, '\n')) == s + "\n"
  {
    JoinSplit(s, '\n');
    UnlinesIsTerminated(Split(s, '\n'));
  }

  lemma SplitIsFrontAndLast(s: string)
    ensures var pieces := Split(s, '\n'); s == Terminated(pieces[..|pieces| - 1]) + pieces[|pieces| - 1]
  {
    var pieces := Split(s, '\n');
    var front, last := pieces[..|pieces| - 1], pieces[|pieces| - 1];
    TerminatedSplit(s);
    assert pieces == front + [last];
    TerminatedAppend(front, [last]);
    assert [last][1..] == [] && Terminated([last]) == last + "\n";
    DropLast(s, Terminated(front), last);
  }

  lemma DropLast(s: string, a: string, b: string)
    requires s + "\n" == a + (b + "\n")
    ensures s == a + b
  {
    assert |s| == |a + b|;
    forall i | 0 <= i < |s|
      ensures s[i] == (a + b)[i]
    {
      assert (s + "\n")[i] == (a + (b + "\n"))[i];
    }
  }

  lemma {:induction false} EndsInNewline(lines: seq<string>)
    ensures Terminated(lines) == "" || Terminated(lines)[|Terminated(lines)| - 1] == '\n'
  {
    if lines != [] {
      EndsInNewline(lines[1..]);
    }
  }
}
