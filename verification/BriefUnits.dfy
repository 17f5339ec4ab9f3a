/**
 What a units briefing leaves out. Units need not cover a document: blank lines and a
 table's delimiter row lie between them, and a change there reaches no bundle.
 */
module BriefUnits {
  import opened Wrappers
  import opened Lines
  import opened Sections
  import opened Weaving
  import opened FencedDoc
  import opened BriefPlan

  function RangesOf(units: seq<UnitPosition>): (ranges: seq<Span>)
    ensures |ranges| == |units|
    ensures forall i | 0 <= i < |units| :: ranges[i] == Span(units[i].startLine, units[i].endLine)
  {
    if units == [] then [] else [Span(units[0].startLine, units[0].endLine)] + RangesOf(units[1..])
  }

  /** Units sorted and disjoint, as the outermost blocks of a document are. */
  predicate Ordered(p: Parsed) {
    PlacedFrom(LinesIn(p), RangesOf(p.units), 0)
  }

  /** The lines between the units, unit by unit. */
  function Outside(p: Parsed): (gaps: seq<seq<string>>)
    requires Ordered(p)
    ensures |gaps| == |p.units| + 1
  {
    GapsFrom(LinesIn(p), RangesOf(p.units), 0)
  }

  function UnitBlocks(p: Parsed): (blocks: seq<seq<string>>)
    requires Ordered(p)
    ensures |blocks| == |p.units|
  {
    BlocksFrom(LinesIn(p), RangesOf(p.units), 0)
  }

  /** The confirmed text with the briefed units replaced by their current text. */
  function RebuiltUnits(gaps: seq<seq<string>>, confirmed: seq<TextSpan>, bundles: seq<Bundle>, k: nat): string
    requires k <= |confirmed| && |gaps| == |confirmed| + 1
    decreases |confirmed| - k
  {
    Terminated(gaps[k])
    + if k == |confirmed| then ""
      else CurrentText(confirmed[k], bundles, k) + RebuiltUnits(gaps, confirmed, bundles, k + 1)
  }

  function RebuiltFrom(r: Request, bundles: seq<Bundle>): string
    requires ValidRequest(r) && Ordered(r.last)
  {
    RebuiltUnits(Outside(r.last), UnitSpans(r.last), bundles, 0)
  }

  // ----- the rebuilt text is the confirmed outside around the current units

  lemma {:induction false} BlockAt(lines: seq<string>, spans: seq<Span>, from: nat, k: nat)
    requires PlacedFrom(lines, spans, from) && k < |spans|
    ensures 1 <= spans[k].startLine <= spans[k].endLine <= |lines|
    ensures BlocksFrom(lines, spans, from)[k] == lines[spans[k].startLine - 1..spans[k].endLine]
    decreases k
  {
    if k > 0 {
      BlockAt(lines, spans[1..], spans[0].endLine, k - 1);
    }
  }

  lemma UnitText(p: Parsed, k: nat)
    requires WellFormed(p) && Ordered(p) && k < |p.units|
    ensures UnitBlocks(p)[k] != [] && UnitSpans(p)[k].text == Terminated(UnitBlocks(p)[k])
  {
    var start, end := p.units[k].startLine, p.units[k].endLine;
    BlockAt(LinesIn(p), RangesOf(p.units), 0, k);
    assert UnitSpans(p)[k] == UnitSpan(p, k);
    SliceIsTerminated(LinesIn(p), start, end);
  }

  lemma SliceIsTerminated(lines: seq<string>, start: nat, end: nat)
    requires 1 <= start <= end <= |lines|
    ensures lines[start - 1..end] != [] && SliceLines(lines, start, end) == Terminated(lines[start - 1..end])
  {
    UnlinesIsTerminated(lines[start - 1..end]);
  }

  lemma {:induction false} RebuiltUnitsIs(r: Request, a: Aligned, extra: seq<nat>, bundles: seq<Bundle>, k: nat)
    requires ValidRequest(r) && Ordered(r.last) && Ordered(r.current) && a == AlignedAt(r, Units)
    requires |a.confirmed| == |a.current| && Briefs(a, extra, bundles) && k <= |a.confirmed|
    ensures RebuiltUnits(Outside(r.last), a.confirmed, bundles, k)
         == Terminated(Weave(Outside(r.last)[k..], UnitBlocks(r.current)[k..]))
    decreases |a.confirmed| - k
  {
    var gaps, blocks := Outside(r.last), UnitBlocks(r.current);
    if k < |a.confirmed| {
      CurrentTextIs(a, extra, bundles, k);
      UnitText(r.current, k);
      RebuiltUnitsIs(r, a, extra, bundles, k + 1);
      assert gaps[k..][1..] == gaps[k + 1..] && blocks[k..][1..] == blocks[k + 1..];
      TerminatedAppend(gaps[k] + blocks[k], Weave(gaps[k + 1..], blocks[k + 1..]));
      TerminatedAppend(gaps[k], blocks[k]);
      Associate(Terminated(gaps[k]), Terminated(blocks[k]), Terminated(Weave(gaps[k + 1..], blocks[k + 1..])));
    }
  }

  lemma Associate(a: string, b: string, c: string)
    ensures a + b + c == a + (b + c)
  {
  }

  lemma RebuiltIsWeave(r: Request, terms: Terminology)
    requires ValidRequest(r) && Ordered(r.last) && Ordered(r.current)
    requires PlanScope(r, terms).Success? && PlanScope(r, terms).value.Mapping?
             && PlanScope(r, terms).value.granularity == Units
    ensures |r.last.units| == |r.current.units|
    ensures RebuiltFrom(r, PlanScope(r, terms).value.bundles)
            == Terminated(Weave(Outside(r.last), UnitBlocks(r.current)))
    ensures NewlinesNormalised(r.current.doc.markdown) == Terminated(Weave(Outside(r.current), UnitBlocks(r.current)))
  {
    var a := AlignedAt(r, Units);
    MappedPlanBriefs(r, terms);
    RebuiltUnitsIs(r, a, ExtrasFor(r, a, ChangedSpanIndices(a.confirmed, a.current), terms),
      PlanScope(r, terms).value.bundles, 0);
    assert Outside(r.last)[0..] == Outside(r.last) && UnitBlocks(r.current)[0..] == UnitBlocks(r.current);
    NormalisedIsTerminated(r.current.doc.markdown);
    CutWeavesBackFrom(LinesIn(r.current), RangesOf(r.current.units), 0);
    assert LinesIn(r.current)[0..] == LinesIn(r.current);
  }

  // ----- when two weaves around the same blocks are the same

  /** The units keep their distances. */
  predicate SameDistances(gaps: seq<seq<string>>, other: seq<seq<string>>) {
    |gaps| == |other| && forall i | 0 <= i < |gaps| :: |gaps[i]| == |other[i]|
  }

  /** No line between two units reads like the first line of the second. */
  predicate FreshStarts(gaps: seq<seq<string>>, blocks: seq<seq<string>>)
    requires |gaps| == |blocks| + 1
  {
    forall i | 0 <= i < |blocks| :: blocks[i] != [] && blocks[i][0] !in gaps[i]
  }

  lemma WeaveHead(gaps: seq<seq<string>>, blocks: seq<seq<string>>)
    requires |gaps| == |blocks| + 1 && blocks != [] && blocks[0] != []
    ensures |Weave(gaps, blocks)| > |gaps[0]| && Weave(gaps, blocks)[|gaps[0]|] == blocks[0][0]
    ensures Weave(gaps, blocks)[..|gaps[0]|] == gaps[0]
    ensures Weave(gaps, blocks)[|gaps[0]| + |blocks[0]|..] == Weave(gaps[1..], blocks[1..])
  {
  }

  lemma SameLengthHead(gaps: seq<seq<string>>, other: seq<seq<string>>, blocks: seq<seq<string>>)
    requires |gaps| == |other| == |blocks| + 1 && Weave(gaps, blocks) == Weave(other, blocks)
    requires FreshStarts(gaps, blocks) && FreshStarts(other, blocks) && blocks != []
    ensures |gaps[0]| == |other[0]|
  {
    if |gaps[0]| < |other[0]| {
      ShorterHead(gaps, other, blocks);
    } else if |other[0]| < |gaps[0]| {
      ShorterHead(other, gaps, blocks);
    }
  }

  lemma ShorterHead(gaps: seq<seq<string>>, other: seq<seq<string>>, blocks: seq<seq<string>>)
    requires |gaps| == |other| == |blocks| + 1 && Weave(gaps, blocks) == Weave(other, blocks)
    requires blocks != [] && blocks[0] != [] && |gaps[0]| < |other[0]|
    ensures blocks[0][0] in other[0]
  {
    WeaveHead(gaps, blocks);
    WeaveHead(other, blocks);
    assert other[0][|gaps[0]|] == Weave(other, blocks)[|gaps[0]|];
  }

  lemma {:induction false} WeaveFixesGaps(gaps: seq<seq<string>>, other: seq<seq<string>>, blocks: seq<seq<string>>)
    requires |gaps| == |other| == |blocks| + 1 && Weave(gaps, blocks) == Weave(other, blocks)
    requires forall i | 0 <= i < |blocks| :: blocks[i] != []
    requires SameDistances(gaps, other) || (FreshStarts(gaps, blocks) && FreshStarts(other, blocks))
    ensures gaps == other
    decreases |blocks|
  {
    assert gaps == [gaps[0]] + gaps[1..] && other == [other[0]] + other[1..];
    if blocks != [] {
      WeaveHead(gaps, blocks);
      WeaveHead(other, blocks);
      if FreshStarts(gaps, blocks) && FreshStarts(other, blocks) {
        SameLengthHead(gaps, other, blocks);
        FreshTail(gaps, blocks);
        FreshTail(other, blocks);
      } else {
        DistancesTail(gaps, other);
      }
      WeaveFixesGaps(gaps[1..], other[1..], blocks[1..]);
    }
  }

  lemma FreshTail(gaps: seq<seq<string>>, blocks: seq<seq<string>>)
    requires |gaps| == |blocks| + 1 && blocks != [] && FreshStarts(gaps, blocks)
    ensures FreshStarts(gaps[1..], blocks[1..])
  {
  }

  lemma DistancesTail(gaps: seq<seq<string>>, other: seq<seq<string>>)
    requires gaps != [] && SameDistances(gaps, other)
    ensures SameDistances(gaps[1..], other[1..]) && |gaps[0]| == |other[0]|
  {
  }

  lemma {:induction false} WeaveOfLines(gaps: seq<seq<string>>, blocks: seq<seq<string>>)
    requires |gaps| == |blocks| + 1 && (forall i | 0 <= i < |gaps| :: AreLines(gaps[i]))
    requires forall i | 0 <= i < |blocks| :: AreLines(blocks[i])
    ensures AreLines(Weave(gaps, blocks))
    decreases |blocks|
  {
    if blocks != [] {
      WeaveOfLines(gaps[1..], blocks[1..]);
    }
  }

  lemma {:induction false} CutOfLines(lines: seq<string>, spans: seq<Span>, from: nat)
    requires PlacedFrom(lines, spans, from) && AreLines(lines)
    ensures forall gap | gap in GapsFrom(lines, spans, from) :: AreLines(gap)
    ensures forall block | block in BlocksFrom(lines, spans, from) :: AreLines(block)
    decreases |spans|
  {
    PlacedInside(lines, spans, from);
    if spans != [] {
      CutOfLines(lines, spans[1..], spans[0].endLine);
    }
  }

  // ----- a units briefing

  lemma RebuiltIsCurrentIff(r: Request, terms: Terminology)
    requires ValidRequest(r) && Ordered(r.last) && Ordered(r.current)
    requires PlanScope(r, terms).Success? && PlanScope(r, terms).value.Mapping?
             && PlanScope(r, terms).value.granularity == Units
    ensures |r.last.units| == |r.current.units|
    ensures RebuiltFrom(r, PlanScope(r, terms).value.bundles) == NewlinesNormalised(r.current.doc.markdown)
            <==> Weave(Outside(r.last), UnitBlocks(r.current)) == Weave(Outside(r.current), UnitBlocks(r.current))
  {
    RebuiltIsWeave(r, terms);
    LinesOfAreLines(r.last.doc.markdown);
    LinesOfAreLines(r.current.doc.markdown);
    CutOfLines(LinesIn(r.last), RangesOf(r.last.units), 0);
    CutOfLines(LinesIn(r.current), RangesOf(r.current.units), 0);
    var mixed, whole := Weave(Outside(r.last), UnitBlocks(r.current)), Weave(Outside(r.current), UnitBlocks(r.current));
    WeaveOfLines(Outside(r.last), UnitBlocks(r.current));
    WeaveOfLines(Outside(r.current), UnitBlocks(r.current));
    if Terminated(mixed) == Terminated(whole) {
      TerminatedInjective(mixed, whole);
    }
  }

  /**
   A units briefing is complete exactly when nothing outside the units changed: then replacing just the briefed
   units gives the current text with every unit where it is now, and otherwise it does not.
   */
  lemma UnitsBriefingIsCompleteIff(r: Request, terms: Terminology)
    requires ValidRequest(r) && Ordered(r.last) && Ordered(r.current)
    requires PlanScope(r, terms).Success? && PlanScope(r, terms).value.Mapping?
             && PlanScope(r, terms).value.granularity == Units
    ensures RebuiltFrom(r, PlanScope(r, terms).value.bundles) == NewlinesNormalised(r.current.doc.markdown)
            && SameDistances(Outside(r.last), Outside(r.current))
            <==> Outside(r.last) == Outside(r.current)
  {
    RebuiltIsCurrentIff(r, terms);
    BlocksNonEmpty(r.current);
    if RebuiltFrom(r, PlanScope(r, terms).value.bundles) == NewlinesNormalised(r.current.doc.markdown)
       && SameDistances(Outside(r.last), Outside(r.current)) {
      WeaveFixesGaps(Outside(r.last), Outside(r.current), UnitBlocks(r.current));
    }
  }

  /** The text alone decides it where no line between units reads like the start of the next unit. */
  lemma UnitsBriefingIsCompleteText(r: Request, terms: Terminology)
    requires ValidRequest(r) && Ordered(r.last) && Ordered(r.current)
    requires PlanScope(r, terms).Success? && PlanScope(r, terms).value.Mapping?
             && PlanScope(r, terms).value.granularity == Units
    requires |r.last.units| == |r.current.units|
    requires FreshStarts(Outside(r.last), UnitBlocks(r.current))
             && FreshStarts(Outside(r.current), UnitBlocks(r.current))
    ensures RebuiltFrom(r, PlanScope(r, terms).value.bundles) == NewlinesNormalised(r.current.doc.markdown)
            <==> Outside(r.last) == Outside(r.current)
  {
    RebuiltIsCurrentIff(r, terms);
    if Weave(Outside(r.last), UnitBlocks(r.current)) == Weave(Outside(r.current), UnitBlocks(r.current)) {
      WeaveFixesGaps(Outside(r.last), Outside(r.current), UnitBlocks(r.current));
    }
  }

  lemma BlocksNonEmpty(p: Parsed)
    requires WellFormed(p) && Ordered(p)
    ensures forall i | 0 <= i < |UnitBlocks(p)| :: UnitBlocks(p)[i] != []
  {
    forall i: nat | i < |p.units|
      ensures UnitBlocks(p)[i] != []
    {
      UnitText(p, i);
    }
  }

  // ----- a change that reaches no bundle

  /** A one-row table and a paragraph: its units are the two table rows and the paragraph. */
  function TableAndParagraph(header: string, delimiter: string, row: string, paragraph: string): Parsed {
    Parsed(Doc(Unlines([header, delimiter, row, "", paragraph]), []),
           [UnitPosition("root.0.0:tableRow", "tableRow", 1, 1), UnitPosition("root.0.1:tableRow", "tableRow", 3, 3),
            UnitPosition("root.1:paragraph", "paragraph", 5, 5)], [])
  }

  predicate PlainLine(line: string) {
    IsLine(line) && StripCr(line) == line
  }

  lemma PlainLinesRead(lines: seq<string>)
    requires lines != [] && forall i | 0 <= i < |lines| :: PlainLine(lines[i])
    ensures LinesOf(Unlines(lines)) == lines
  {
    LinesOfUnlines(lines);
    StripAllKeeps(lines);
  }

  lemma TableLines(header: string, delimiter: string, row: string, paragraph: string)
    requires PlainLine(header) && PlainLine(delimiter) && PlainLine(row) && PlainLine(paragraph)
    ensures LinesIn(TableAndParagraph(header, delimiter, row, paragraph)) == [header, delimiter, row, "", paragraph]
  {
    PlainLinesRead([header, delimiter, row, "", paragraph]);
  }

  lemma TableIsWellFormed(header: string, delimiter: string, row: string, paragraph: string)
    requires |LinesIn(TableAndParagraph(header, delimiter, row, paragraph))| == 5
    ensures WellFormed(TableAndParagraph(header, delimiter, row, paragraph))
  {
  }

  lemma TableIsCut(header: string, delimiter: string, row: string, paragraph: string)
    requires PlainLine(header) && PlainLine(delimiter) && PlainLine(row) && PlainLine(paragraph)
    ensures Ordered(TableAndParagraph(header, delimiter, row, paragraph))
    ensures Outside(TableAndParagraph(header, delimiter, row, paragraph)) == [[], [delimiter], [""], []]
  {
    TableLines(header, delimiter, row, paragraph);
    TableRanges(header, delimiter, row, paragraph);
    TableWeave(header, delimiter, row, paragraph);
    CutOfWeave([], [[], [delimiter], [""], []], [[header], [row], [paragraph]]);
  }

  lemma TableRanges(header: string, delimiter: string, row: string, paragraph: string)
    ensures RangesOf(TableAndParagraph(header, delimiter, row, paragraph).units)
         == SpansFor([[], [delimiter], [""], []], [[header], [row], [paragraph]], 0)
  {
    assert [[], [delimiter], [""], []][1..] == [[delimiter], [""], []];
    assert [[header], [row], [paragraph]][1..] == [[row], [paragraph]];
    assert [[delimiter], [""], []][1..] == [[""], []] && [[row], [paragraph]][1..] == [[paragraph]];
    assert SpansFor([[""], []], [[paragraph]], 3) == [Span(5, 5)];
    assert SpansFor([[delimiter], [""], []], [[row], [paragraph]], 1) == [Span(3, 3), Span(5, 5)];
  }

  lemma TableWeave(header: string, delimiter: string, row: string, paragraph: string)
    ensures [] + Weave([[], [delimiter], [""], []], [[header], [row], [paragraph]])
         == [header, delimiter, row, "", paragraph]
  {
    assert [[], [delimiter], [""], []][1..] == [[delimiter], [""], []];
    assert [[header], [row], [paragraph]][1..] == [[row], [paragraph]];
    assert [[delimiter], [""], []][1..] == [[""], []] && [[row], [paragraph]][1..] == [[paragraph]];
    assert Weave([[""], []], [[paragraph]]) == ["", paragraph];
    assert Weave([[delimiter], [""], []], [[row], [paragraph]]) == [delimiter, row, "", paragraph];
  }

  /** Beside a changed paragraph, a table's changed delimiter row (its column alignment) is briefed to nobody. */
  lemma DelimiterGoesUnbriefed(header: string, before: string, after: string, row: string, was: string, now: string,
                               direction: Direction, terms: Terminology)
    requires PlainLine(header) && PlainLine(before) && PlainLine(after) && PlainLine(row) && PlainLine(was)
             && PlainLine(now)
    requires before != after && was != now
    ensures var last, current := TableAndParagraph(header, before, row, was),
            TableAndParagraph(header, after, row, now);
            var r := Request(last, current, last, direction, false);
            && ValidRequest(r) && Ordered(last) && PlanScope(r, terms).Success?
            && PlanScope(r, terms).value.Mapping? && PlanScope(r, terms).value.granularity == Units
            && RebuiltFrom(r, PlanScope(r, terms).value.bundles) != NewlinesNormalised(current.doc.markdown)
  {
    var last, current := TableAndParagraph(header, before, row, was), TableAndParagraph(header, after, row, now);
    var r := Request(last, current, last, direction, false);
    TableLines(header, before, row, was);
    TableLines(header, after, row, now);
    TableIsWellFormed(header, before, row, was);
    TableIsWellFormed(header, after, row, now);
    TableIsCut(header, before, row, was);
    TableIsCut(header, after, row, now);
    ParagraphChanged(r, header, before, after, row, was, now);
    UsableIsMapped(r, terms);
    OneLineGaps(before, after);
    GapChanged(r, terms, 1);
  }

  lemma OneLineGaps(before: string, after: string)
    requires before != after
    ensures SameDistances([[], [before], [""], []], [[], [after], [""], []])
    ensures [[], [before], [""], []][1] != [[], [after], [""], []][1]
  {
    assert [before][0] != [after][0];
  }

  lemma ParagraphChanged(r: Request, header: string, before: string, after: string, row: string, was: string,
                         now: string)
    requires r.last == TableAndParagraph(header, before, row, was) == r.counterpart
    requires r.current == TableAndParagraph(header, after, row, now) && ValidRequest(r)
    requires LinesIn(r.last) == [header, before, row, "", was] && LinesIn(r.current) == [header, after, row, "", now]
    requires was != now && IsLine(was) && IsLine(now)
    ensures Usable(AlignedAt(r, Units))
  {
    var a := AlignedAt(r, Units);
    LastUnitText(r.last, [header, before, row, "", was]);
    LastUnitText(r.current, [header, after, row, "", now]);
    if Unlines([was]) == Unlines([now]) {
      UnlinesInjective([was], [now]);
    }
    assert ChangedAt(a.confirmed, a.current, 2);
    ChangedFromIs(a.confirmed, a.current, 0);
  }

  lemma LastUnitText(p: Parsed, lines: seq<string>)
    requires WellFormed(p) && |p.units| == 3 && LinesIn(p) == lines && |lines| == 5
    requires p.units[2].startLine == 5 && p.units[2].endLine == 5
    ensures UnitSpans(p)[2].text == Unlines([lines[4]])
  {
    assert lines[4..5] == [lines[4]];
  }

  lemma UsableIsMapped(r: Request, terms: Terminology)
    requires ValidRequest(r) && !r.bothDrifted && Mechanically(r).None? && Usable(AlignedAt(r, Units))
    ensures PlanScope(r, terms).Success? && PlanScope(r, terms).value.Mapping?
    ensures PlanScope(r, terms).value.granularity == Units
  {
    PlanNeverUnmapped(r, terms);
  }

  /** A change outside the units, even of one line for one line, is left out. */
  lemma GapChanged(r: Request, terms: Terminology, i: nat)
    requires ValidRequest(r) && Ordered(r.last) && Ordered(r.current)
    requires PlanScope(r, terms).Success? && PlanScope(r, terms).value.Mapping?
             && PlanScope(r, terms).value.granularity == Units
    requires SameDistances(Outside(r.last), Outside(r.current))
    requires i < |Outside(r.last)| && Outside(r.last)[i] != Outside(r.current)[i]
    ensures RebuiltFrom(r, PlanScope(r, terms).value.bundles) != NewlinesNormalised(r.current.doc.markdown)
  {
    UnitsBriefingIsCompleteIff(r, terms);
  }
}
