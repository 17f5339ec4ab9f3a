/**
 The plan in so many words: which of the four scopes it has, when span lists align, and what
 a terminology row is matched against.
 */
module BriefChoices {
  import opened Wrappers
  import opened Text
  import opened Lines
  import opened Sections
  import opened BriefPlan
  import FencedDoc
  import MechanicalUpdate

  // ----- which scope

  /** A pair drifted on both sides gets the whole document, and nothing else does for that reason. */
  lemma BothSidesIff(r: Request, terms: Terminology)
    requires ValidRequest(r)
    ensures PlanScope(r, terms) == Success(Document(BothSidesChanged)) <==> r.bothDrifted
  {
  }

  /** The plan is mechanical exactly when one side drifted and there is a computed update, and it is that update. */
  lemma MechanicalIff(r: Request, terms: Terminology, text: string)
    requires ValidRequest(r)
    ensures PlanScope(r, terms) == Success(Mechanical(text))
            <==> && !r.bothDrifted
                 && MechanicalUpdate.ComputeMechanicalUpdate(r.last.doc, r.current.doc, r.counterpart.doc) == Some(text)
  {
  }

  /**
   Otherwise it maps units when they are usable, sections when only they are, and gives up exactly when
   neither is.
   */
  lemma MappingIff(r: Request, terms: Terminology)
    requires ValidRequest(r)
    ensures var plan := PlanScope(r, terms);
            var open := !r.bothDrifted
                        && MechanicalUpdate.ComputeMechanicalUpdate(r.last.doc, r.current.doc, r.counterpart.doc).None?;
            var units := CanBrief(UnitSpans(r.last), UnitSpans(r.current), UnitSpans(r.counterpart));
            var sections := CanBrief(SectionsOf(r.last), SectionsOf(r.current), SectionsOf(r.counterpart));
            && plan.Success?
            && (plan.value.Mapping? && plan.value.granularity == Units <==> open && units)
            && (plan.value.Mapping? && plan.value.granularity == Sections <==> open && !units && sections)
            && (plan.value == Document(NothingAligns) <==> open && !units && !sections)
  {
    FirstUsable(r, terms);
    UsableIff(AlignedAt(r, Units));
    UsableIff(AlignedAt(r, Sections));
  }

  lemma FirstUsable(r: Request, terms: Terminology)
    requires ValidRequest(r)
    ensures var plan := PlanScope(r, terms);
            var open := !r.bothDrifted && Mechanically(r).None?;
            var units, sections := Usable(AlignedAt(r, Units)), Usable(AlignedAt(r, Sections));
            && plan.Success?
            && (plan.value.Mapping? && plan.value.granularity == Units <==> open && units)
            && (plan.value.Mapping? && plan.value.granularity == Sections <==> open && !units && sections)
            && (plan.value == Document(NothingAligns) <==> open && !units && !sections)
  {
    PlanNeverUnmapped(r, terms);
    if r.bothDrifted || Mechanically(r).Some? {
    } else if Usable(AlignedAt(r, Units)) {
      assert PlanScope(r, terms) == AsScope(Units, BundlesAt(r, AlignedAt(r, Units), terms));
    } else if Usable(AlignedAt(r, Sections)) {
      assert PlanScope(r, terms) == AsScope(Sections, BundlesAt(r, AlignedAt(r, Sections), terms));
    }
  }

  /**
   Three lists of the same kinds in the same order, not empty, with some text changed from the first to the
   second.
   */
  ghost predicate CanBrief(confirmed: seq<TextSpan>, current: seq<TextSpan>, counterpart: seq<TextSpan>) {
    && |confirmed| > 0 && |current| == |confirmed| && |counterpart| == |confirmed|
    && (forall i | 0 <= i < |confirmed| ::
          current[i].kind == confirmed[i].kind && counterpart[i].kind == confirmed[i].kind)
    && exists i :: 0 <= i < |confirmed| && confirmed[i].text != current[i].text
  }

  lemma UsableIff(a: Aligned)
    requires Numbered(a.confirmed)
    ensures Usable(a) <==> CanBrief(a.confirmed, a.current, a.counterpart)
  {
    if Aligns(a) {
      ChangedIsExact(a.confirmed, a.current);
      var changed := ChangedSpanIndices(a.confirmed, a.current);
      if changed != [] {
        assert changed[0] in changed;
      }
      if i :| 0 <= i < |a.confirmed| && a.confirmed[i].text != a.current[i].text {
        assert i in changed;
      }
    }
  }

  // ----- what is compared

  /** Units are their parser's paths, node types and the lines they cover. */
  lemma UnitsAre(p: Parsed, i: nat)
    requires WellFormed(p) && i < |p.units|
    ensures |UnitSpans(p)| == |p.units| && UnitSpans(p)[i].kind == Unit(p.units[i].path)
    ensures UnitSpans(p)[i].title == OfType(p.units[i].node)
    ensures UnitSpans(p)[i].startLine == p.units[i].startLine && UnitSpans(p)[i].endLine == p.units[i].endLine
    ensures UnitSpans(p)[i].text == Unlines(LinesIn(p)[p.units[i].startLine - 1..p.units[i].endLine])
  {
  }

  /** Something stands before the first heading. */
  ghost predicate HasPreamble(p: Parsed) {
    if p.headings == [] then LinesIn(p) != [] else p.headings[0].line > 1
  }

  /**
   Sections of two texts align exactly when their headings have the same depths, one by one, and both have a
   preamble or neither.
   */
  lemma SectionsAlignIff(a: Parsed, b: Parsed)
    requires WellFormed(a) && WellFormed(b)
    ensures SpansAligned(SectionsOf(a), SectionsOf(b))
            <==> && (HasPreamble(a) || a.headings != []) && (HasPreamble(a) <==> HasPreamble(b))
                 && SameDepths(a.headings, b.headings)
  {
    SectionKinds(a);
    SectionKinds(b);
    AlignByKinds(SectionsOf(a), HasPreamble(a), a.headings, SectionsOf(b), HasPreamble(b), b.headings);
  }

  /** A preamble or none, then sections of the headings' depths. */
  ghost predicate OfKinds(spans: seq<TextSpan>, preamble: bool, headings: seq<Heading>) {
    var x := if preamble then 1 else 0;
    && |spans| == x + |headings|
    && (preamble ==> spans[0].kind == Preamble)
    && forall i | 0 <= i < |headings| :: spans[x + i].kind == Section(headings[i].depth)
  }

  ghost predicate SameDepths(a: seq<Heading>, b: seq<Heading>) {
    |a| == |b| && forall i | 0 <= i < |a| :: a[i].depth == b[i].depth
  }

  lemma AlignByKinds(a: seq<TextSpan>, p: bool, h: seq<Heading>, b: seq<TextSpan>, q: bool, g: seq<Heading>)
    requires OfKinds(a, p, h) && OfKinds(b, q, g)
    ensures SpansAligned(a, b) <==> (p || h != []) && p == q && SameDepths(h, g)
  {
    if SpansAligned(a, b) {
      FirstKind(a, p, h);
      FirstKind(b, q, g);
      var x := if p then 1 else 0;
      forall i | 0 <= i < |h|
        ensures h[i].depth == g[i].depth
      {
        assert a[x + i].kind == b[x + i].kind;
      }
    }
    if (p || h != []) && p == q && SameDepths(h, g) {
      SameKinds(a, b, p, h, g);
    }
  }

  lemma FirstKind(spans: seq<TextSpan>, preamble: bool, headings: seq<Heading>)
    requires OfKinds(spans, preamble, headings) && spans != []
    ensures preamble <==> spans[0].kind == Preamble
  {
    if !preamble {
      assert spans[0 + 0].kind == Section(headings[0].depth);
    }
  }

  lemma SameKinds(a: seq<TextSpan>, b: seq<TextSpan>, p: bool, h: seq<Heading>, g: seq<Heading>)
    requires OfKinds(a, p, h) && OfKinds(b, p, g) && SameDepths(h, g) && (p || h != [])
    ensures SpansAligned(a, b)
  {
    var x := if p then 1 else 0;
    forall i | 0 <= i < |a|
      ensures a[i].kind == b[i].kind
    {
      if i >= x {
        assert a[x + (i - x)].kind == Section(h[i - x].depth) && b[x + (i - x)].kind == Section(g[i - x].depth);
      }
    }
  }

  lemma SectionKinds(p: Parsed)
    requires WellFormed(p)
    ensures OfKinds(SectionsOf(p), HasPreamble(p), p.headings)
  {
    var preamble := PreambleSpans(LinesIn(p), p.headings);
    HeadingSpansNumbered(LinesIn(p), p.headings, 0, |preamble|);
    forall k: nat | k < |p.headings| {
      SectionOfHeading(p.doc.markdown, p.headings, k);
    }
  }

  // ----- what a terminology row is matched against

  predicate InBoth(a: Aligned, indices: seq<nat>) {
    forall k | 0 <= k < |indices| :: indices[k] < |a.confirmed| && indices[k] < |a.current|
  }

  /** The confirmed and the current text of each changed span, line by line. */
  function ChangedTexts(a: Aligned, changed: seq<nat>): seq<string>
    requires InBoth(a, changed)
  {
    if changed == [] then []
    else [a.confirmed[changed[0]].text, a.current[changed[0]].text] + ChangedTexts(a, changed[1..])
  }

  lemma {:induction false} ChangedTextIsJoined(a: Aligned, changed: seq<nat>)
    requires InBoth(a, changed)
    ensures ChangedTextOf(a, changed) == Join(ChangedTexts(a, changed), '\n')
  {
    if changed != [] {
      var before, after := a.confirmed[changed[0]].text, a.current[changed[0]].text;
      var rest := ChangedTexts(a, changed[1..]);
      ChangedTextIsJoined(a, changed[1..]);
      JoinTwo(before, after, rest);
    }
  }

  lemma JoinTwo(a: string, b: string, rest: seq<string>)
    ensures Join([a, b] + rest, '\n') == a + "\n" + b + (if rest == [] then "" else "\n" + Join(rest, '\n'))
  {
    assert ([a, b] + rest)[1..] == [b] + rest && ([b] + rest)[1..] == rest;
  }

  /** First occurrences matter towards Chinese only, for the rows of those texts. */
  lemma ExtrasByDirection(r: Request, a: Aligned, changed: seq<nat>, terms: Terminology, i: nat)
    requires InBoth(a, changed)
    ensures i in ExtrasFor(r, a, changed, terms)
            <==> && r.direction == EnToZh && i !in changed
                 && MovedThroughSome(Sides(r.last.doc.markdown, r.current.doc.markdown, a.confirmed, a.current),
                                     terms(Join(ChangedTexts(a, changed), '\n')), i)
  {
    ChangedTextIsJoined(a, changed);
    if r.direction == EnToZh {
      ExtraIsExact(SidesOf(r, a), terms(ChangedTextOf(a, changed)), changed);
    }
  }

  lemma {:induction false} NewlinesAre(text: string)
    ensures Newlines(text) == multiset(text)['\n']
  {
    if text != "" {
      NewlinesAre(text[1..]);
      assert text == [text[0]] + text[1..];
    }
  }

  /** The line of an offset is one more than the newlines before it. */
  lemma LineOfOffset(text: string, offset: nat)
    requires offset <= |text|
    ensures LineAtOffset(text, offset) == 1 + multiset(text[..offset])['\n']
  {
    NewlinesAre(text[..offset]);
  }

  /** The span of an offset is the first one that covers its line. */
  lemma {:induction false} SpanOfLine(spans: seq<TextSpan>, line: nat, k: nat)
    requires k < |spans| && spans[k].startLine <= line <= spans[k].endLine
    requires forall j | 0 <= j < k :: !(spans[j].startLine <= line <= spans[j].endLine)
    ensures FindSpan(spans, line) == Some(spans[k].index)
  {
    if k > 0 {
      SpanOfLine(spans[1..], line, k - 1);
    }
  }

  lemma {:induction false} NoSpanOfLine(spans: seq<TextSpan>, line: nat)
    requires forall j | 0 <= j < |spans| :: !(spans[j].startLine <= line <= spans[j].endLine)
    ensures FindSpan(spans, line) == None
  {
    if spans != [] {
      NoSpanOfLine(spans[1..], line);
    }
  }
}
