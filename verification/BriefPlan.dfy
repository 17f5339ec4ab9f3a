/**
 Choosing the narrowest safely mapped granularity for one drifted document: the computed
 fence splice, units, sections, or the whole document.
 */
module BriefPlan {
  import opened Wrappers
  import opened Lines
  import opened Sections
  import FencedDoc
  import MechanicalUpdate

  /** A block the parser reports as a translation unit. */
  datatype UnitPosition = UnitPosition(path: string, node: string, startLine: nat, endLine: nat)

  /** A document with everything its parser reports. */
  datatype Parsed = Parsed(doc: FencedDoc.Doc, units: seq<UnitPosition>, headings: seq<Heading>)

  function LinesIn(p: Parsed): seq<string> {
    LinesOf(p.doc.markdown)
  }

  predicate WellFormed(p: Parsed) {
    && FencedDoc.Placed(p.doc)
    && HeadingsPlaced(LinesIn(p), p.headings)
    && forall i | 0 <= i < |p.units| :: 1 <= p.units[i].startLine <= p.units[i].endLine <= |LinesIn(p)|
  }

  function UnitSpan(p: Parsed, i: nat): TextSpan
    requires WellFormed(p) && i < |p.units|
  {
    var u := p.units[i];
    TextSpan(i, Unit(u.path), OfType(u.node), u.startLine, u.endLine, SliceLines(LinesIn(p), u.startLine, u.endLine))
  }

  /** `markdownUnits`. */
  function UnitSpans(p: Parsed): (spans: seq<TextSpan>)
    requires WellFormed(p)
    ensures Numbered(spans)
  {
    seq(|p.units|, (i: nat) requires i < |p.units| => UnitSpan(p, i))
  }

  function SectionsOf(p: Parsed): (spans: seq<TextSpan>)
    requires WellFormed(p)
    ensures Numbered(spans)
  {
    SectionsPartition(p.doc.markdown, p.headings);
    SpansOf(LinesIn(p), p.headings)
  }

  datatype Granularity = Units | Sections

  function SpansAt(p: Parsed, g: Granularity): (spans: seq<TextSpan>)
    requires WellFormed(p)
    ensures Numbered(spans)
  {
    if g == Units then UnitSpans(p) else SectionsOf(p)
  }

  // ----- first occurrences

  /** A terminology row with where its term first occurs in the confirmed and in the current text. */
  datatype TermUse = TermUse(first: string, oldOffset: Option<nat>, newOffset: Option<nat>)

  function LineAtOffset(text: string, offset: nat): nat {
    1 + Newlines(if offset <= |text| then text[..offset] else text)
  }

  function Newlines(text: string): nat {
    if text == "" then 0 else (if text[0] == '\n' then 1 else 0) + Newlines(text[1..])
  }

  function FindSpan(spans: seq<TextSpan>, line: nat): (index: Option<nat>)
    ensures index.Some? ==> exists i :: 0 <= i < |spans| && spans[i].index == index.value
  {
    if spans == [] then None
    else if spans[0].startLine <= line <= spans[0].endLine then Some(spans[0].index)
    else
      var rest := FindSpan(spans[1..], line);
      assert forall i | 0 <= i < |spans[1..]| :: spans[1..][i] == spans[i + 1];
      rest
  }

  function SpanIndexAtOffset(text: string, spans: seq<TextSpan>, offset: Option<nat>): Option<nat> {
    if offset.None? then None else FindSpan(spans, LineAtOffset(text, offset.value))
  }

  /** The two sides of one drifted document. */
  datatype Sides = Sides(last: string, current: string, confirmed: seq<TextSpan>, now: seq<TextSpan>)

  function OldIndex(s: Sides, use: TermUse): Option<nat> {
    SpanIndexAtOffset(s.last, s.confirmed, use.oldOffset)
  }

  function NewIndex(s: Sides, use: TermUse): Option<nat> {
    SpanIndexAtOffset(s.current, s.now, use.newOffset)
  }

  /** The row's first occurrence moved into or out of the span. */
  predicate MovedThrough(s: Sides, use: TermUse, index: nat) {
    use.first != "" && OldIndex(s, use) != NewIndex(s, use)
      && (OldIndex(s, use) == Some(index) || NewIndex(s, use) == Some(index))
  }

  ghost predicate MovedThroughSome(s: Sides, uses: seq<TermUse>, index: nat) {
    exists k :: 0 <= k < |uses| && MovedThrough(s, uses[k], index)
  }

  /** Insertion into an ascending list without duplicates. */
  function Insert(indices: seq<nat>, x: nat): (r: seq<nat>)
  {
    if indices == [] || x < indices[0] then [x] + indices
    else if x == indices[0] then indices
    else [indices[0]] + Insert(indices[1..], x)
  }

  lemma {:induction false} InsertIs(indices: seq<nat>, x: nat)
    requires Ascending(indices)
    ensures Ascending(Insert(indices, x)) && forall y :: y in Insert(indices, x) <==> y == x || y in indices
  {
    if indices == [] || x < indices[0] {
      AscendingTail(indices);
      AscendingCons(x, indices);
    } else if x > indices[0] {
      AscendingTail(indices);
      InsertIs(indices[1..], x);
      AscendingCons(indices[0], Insert(indices[1..], x));
    } else {
      AscendingTail(indices);
    }
  }

  lemma AscendingTail(indices: seq<nat>)
    requires Ascending(indices)
    ensures indices != [] ==> Ascending(indices[1..])
    ensures indices != [] ==> forall y :: y in indices <==> y == indices[0] || y in indices[1..]
    ensures indices != [] ==> forall y | y in indices[1..] :: indices[0] < y
  {
    if indices != [] {
      assert indices == [indices[0]] + indices[1..];
      forall y | y in indices[1..]
        ensures indices[0] < y
      {
        var i :| 0 <= i < |indices[1..]| && indices[1..][i] == y;
        assert indices[0] < indices[i + 1];
      }
    }
  }

  function InsertIfNew(indices: seq<nat>, index: Option<nat>, changed: seq<nat>): seq<nat> {
    if index.None? || index.value in changed then indices else Insert(indices, index.value)
  }

  function ExtraAfter(s: Sides, use: TermUse, changed: seq<nat>, extra: seq<nat>): seq<nat> {
    if use.first == "" || OldIndex(s, use) == NewIndex(s, use) then extra
    else InsertIfNew(InsertIfNew(extra, OldIndex(s, use), changed), NewIndex(s, use), changed)
  }

  function ExtraSpanIndices(s: Sides, uses: seq<TermUse>, changed: seq<nat>): seq<nat> {
    if uses == [] then []
    else ExtraAfter(s, uses[|uses| - 1], changed, ExtraSpanIndices(s, uses[..|uses| - 1], changed))
  }

  lemma InsertIfNewIs(indices: seq<nat>, index: Option<nat>, changed: seq<nat>)
    requires Ascending(indices)
    ensures var r := InsertIfNew(indices, index, changed);
            Ascending(r) && forall y :: y in r <==> y in indices || (index == Some(y) && y !in changed)
  {
    if index.Some? {
      InsertIs(indices, index.value);
    }
  }

  lemma ExtraAfterIs(s: Sides, use: TermUse, changed: seq<nat>, extra: seq<nat>)
    requires Ascending(extra)
    ensures var r := ExtraAfter(s, use, changed, extra);
            Ascending(r) && forall y :: y in r <==> y in extra || (y >= 0 && MovedThrough(s, use, y) && y !in changed)
  {
    InsertIfNewIs(extra, OldIndex(s, use), changed);
    InsertIfNewIs(InsertIfNew(extra, OldIndex(s, use), changed), NewIndex(s, use), changed);
  }

  lemma MovedThroughLast(s: Sides, uses: seq<TermUse>, index: nat)
    requires uses != []
    ensures MovedThroughSome(s, uses, index)
            <==> MovedThroughSome(s, uses[..|uses| - 1], index) || MovedThrough(s, uses[|uses| - 1], index)
  {
    var front := uses[..|uses| - 1];
    if MovedThroughSome(s, uses, index) {
      var k :| 0 <= k < |uses| && MovedThrough(s, uses[k], index);
      if k < |front| {
        assert front[k] == uses[k];
      }
    }
    if MovedThroughSome(s, front, index) {
      var k :| 0 <= k < |front| && MovedThrough(s, front[k], index);
      assert uses[k] == front[k];
    }
  }

  /** The extra spans, ascending, are exactly the unchanged spans a first occurrence moved into or out of. */
  lemma {:induction false} ExtraIsExact(s: Sides, uses: seq<TermUse>, changed: seq<nat>)
    ensures var extra := ExtraSpanIndices(s, uses, changed);
            Ascending(extra) && forall y: nat :: y in extra <==> MovedThroughSome(s, uses, y) && y !in changed
    decreases |uses|
  {
    if uses != [] {
      var front := uses[..|uses| - 1];
      ExtraIsExact(s, front, changed);
      ExtraAfterIs(s, uses[|uses| - 1], changed, ExtraSpanIndices(s, front, changed));
      forall y: nat
        ensures y in ExtraSpanIndices(s, uses, changed) <==> MovedThroughSome(s, uses, y) && y !in changed
      {
        MovedThroughLast(s, uses, y);
      }
    }
  }

  /** `firstOccurrenceContext`, its notes aside. */
  method FirstOccurrenceContext(s: Sides, uses: seq<TermUse>, changed: seq<nat>) returns (extra: seq<nat>)
    ensures extra == ExtraSpanIndices(s, uses, changed)
  {
    extra := [];
    for k := 0 to |uses|
      invariant extra == ExtraSpanIndices(s, uses[..k], changed)
    {
      assert uses[..k + 1][..|uses[..k + 1]| - 1] == uses[..k];
      var use := uses[k];
      var oldIndex := OldIndex(s, use);
      var newIndex := NewIndex(s, use);
      if use.first != "" && oldIndex != newIndex {
        extra := InsertIfNew(extra, oldIndex, changed);
        extra := InsertIfNew(extra, newIndex, changed);
      }
    }
    assert uses[..|uses|] == uses;
  }

  // ----- `bundlesFor`

  datatype Bundle = Bundle(index: nat, title: Title, firstOccurrence: bool, confirmedSourceText: string,
                           currentSourceText: string, counterpartText: string, counterpartStartLine: nat)

  /** An index missing from one of the three span lists. */
  datatype Unmapped = Unmapped(index: nat)

  function SortedUnion(indices: seq<nat>, extra: seq<nat>): seq<nat> {
    if indices == [] then extra else Insert(SortedUnion(indices[1..], extra), indices[0])
  }

  lemma {:induction false} SortedUnionIs(indices: seq<nat>, extra: seq<nat>)
    requires Ascending(extra)
    ensures Ascending(SortedUnion(indices, extra))
    ensures forall y :: y in SortedUnion(indices, extra) <==> y in indices || y in extra
  {
    if indices != [] {
      SortedUnionIs(indices[1..], extra);
      InsertIs(SortedUnion(indices[1..], extra), indices[0]);
    }
  }

  datatype Aligned = Aligned(confirmed: seq<TextSpan>, current: seq<TextSpan>, counterpart: seq<TextSpan>)

  predicate Mapped(a: Aligned, index: nat) {
    index < |a.confirmed| && index < |a.current| && index < |a.counterpart|
  }

  function BundleAt(a: Aligned, extra: seq<nat>, index: nat): Bundle
    requires Mapped(a, index)
  {
    var before, now, other := a.confirmed[index], a.current[index], a.counterpart[index];
    var firstOccurrence := index in extra && before.text == now.text;
    Bundle(index, now.title, firstOccurrence, before.text, now.text, other.text, other.startLine)
  }

  function BundlesOf(a: Aligned, extra: seq<nat>, indices: seq<nat>): Result<seq<Bundle>, Unmapped> {
    if indices == [] then Success([])
    else if !Mapped(a, indices[0]) then Failure(Unmapped(indices[0]))
    else
      var rest := BundlesOf(a, extra, indices[1..]);
      if rest.Failure? then rest else Success([BundleAt(a, extra, indices[0])] + rest.value)
  }

  function BundlesFor(indices: seq<nat>, extra: seq<nat>, a: Aligned): Result<seq<Bundle>, Unmapped> {
    BundlesOf(a, extra, SortedUnion(indices, extra))
  }

  lemma {:induction false} BundlesOfIs(a: Aligned, extra: seq<nat>, indices: seq<nat>)
    ensures var r := BundlesOf(a, extra, indices);
            && (r.Success? <==> forall i | 0 <= i < |indices| :: Mapped(a, indices[i]))
            && (r.Success? ==> |r.value| == |indices|
                               && forall i | 0 <= i < |indices| ::
                                    Mapped(a, indices[i]) && r.value[i] == BundleAt(a, extra, indices[i]))
  {
    if indices != [] && Mapped(a, indices[0]) {
      BundlesOfIs(a, extra, indices[1..]);
      assert forall i | 1 <= i < |indices| :: indices[i] == indices[1..][i - 1];
    }
  }

  // ----- `planScope`

  /** What the terminology table says: the rows relevant to a changed text, with their offsets. */
  type Terminology = string -> seq<TermUse>

  datatype Direction = EnToZh | ZhToEn

  datatype DocumentReason = BothSidesChanged | NothingAligns

  datatype Scope = Mechanical(result: string)
                 | Mapping(granularity: Granularity, bundles: seq<Bundle>)
                 | Document(reason: DocumentReason)

  datatype Request = Request(last: Parsed, current: Parsed, counterpart: Parsed, direction: Direction,
                             bothDrifted: bool)

  predicate ValidRequest(r: Request) {
    WellFormed(r.last) && WellFormed(r.current) && WellFormed(r.counterpart)
  }

  function AlignedAt(r: Request, g: Granularity): Aligned
    requires ValidRequest(r)
  {
    Aligned(SpansAt(r.last, g), SpansAt(r.current, g), SpansAt(r.counterpart, g))
  }

  /** Both comparisons of the three span lists. */
  predicate Aligns(a: Aligned) {
    SpansAligned(a.confirmed, a.current) && SpansAligned(a.confirmed, a.counterpart)
  }

  function ChangedTextOf(a: Aligned, changed: seq<nat>): string {
    if changed == [] then ""
    else
      var i := changed[0];
      (if i < |a.confirmed| then a.confirmed[i].text else "") + "\n"
        + (if i < |a.current| then a.current[i].text else "")
      + if |changed| == 1 then "" else "\n" + ChangedTextOf(a, changed[1..])
  }

  function SidesOf(r: Request, a: Aligned): Sides {
    Sides(r.last.doc.markdown, r.current.doc.markdown, a.confirmed, a.current)
  }

  function ExtrasFor(r: Request, a: Aligned, changed: seq<nat>, terms: Terminology): seq<nat> {
    if r.direction == EnToZh then ExtraSpanIndices(SidesOf(r, a), terms(ChangedTextOf(a, changed)), changed) else []
  }

  function BundlesAt(r: Request, a: Aligned, terms: Terminology): Result<seq<Bundle>, Unmapped> {
    var changed := ChangedSpanIndices(a.confirmed, a.current);
    BundlesFor(changed, ExtrasFor(r, a, changed, terms), a)
  }

  predicate Usable(a: Aligned) {
    Aligns(a) && ChangedSpanIndices(a.confirmed, a.current) != []
  }

  function Mechanically(r: Request): Option<string>
    requires ValidRequest(r)
  {
    MechanicalUpdate.ComputeMechanicalUpdate(r.last.doc, r.current.doc, r.counterpart.doc)
  }

  function PlanScope(r: Request, terms: Terminology): Result<Scope, Unmapped>
    requires ValidRequest(r)
  {
    if r.bothDrifted then Success(Document(BothSidesChanged))
    else if Mechanically(r).Some? then Success(Mechanical(Mechanically(r).value))
    else if Usable(AlignedAt(r, Units)) then AsScope(Units, BundlesAt(r, AlignedAt(r, Units), terms))
    else if Usable(AlignedAt(r, Sections)) then AsScope(Sections, BundlesAt(r, AlignedAt(r, Sections), terms))
    else Success(Document(NothingAligns))
  }

  function AsScope(g: Granularity, bundles: Result<seq<Bundle>, Unmapped>): Result<Scope, Unmapped> {
    if bundles.Failure? then Failure(bundles.error) else Success(Mapping(g, bundles.value))
  }

  // ----- "unmapped despite alignment" cannot happen

  lemma IndexFound(spans: seq<TextSpan>, line: nat)
    requires Numbered(spans) && FindSpan(spans, line).Some?
    ensures FindSpan(spans, line).value < |spans|
  {
  }

  lemma ExtrasMapped(r: Request, a: Aligned, changed: seq<nat>, terms: Terminology)
    requires Aligns(a) && Numbered(a.confirmed) && Numbered(a.current)
    ensures forall i | i in ExtrasFor(r, a, changed, terms) :: Mapped(a, i)
    ensures Ascending(ExtrasFor(r, a, changed, terms))
  {
    if r.direction == EnToZh {
      var s, uses := SidesOf(r, a), terms(ChangedTextOf(a, changed));
      ExtraIsExact(s, uses, changed);
      forall i: nat | MovedThroughSome(s, uses, i)
        ensures Mapped(a, i)
      {
        var k :| 0 <= k < |uses| && MovedThrough(s, uses[k], i);
        MovedIsMapped(s, uses[k], i);
      }
    }
  }

  lemma MovedIsMapped(s: Sides, use: TermUse, i: nat)
    requires Numbered(s.confirmed) && Numbered(s.now) && MovedThrough(s, use, i)
    ensures i < |s.confirmed| || i < |s.now|
  {
    if OldIndex(s, use) == Some(i) {
      IndexFound(s.confirmed, LineAtOffset(s.last, use.oldOffset.value));
    } else {
      IndexFound(s.now, LineAtOffset(s.current, use.newOffset.value));
    }
  }

  /** The texts of one index in all three documents, and whether only a first occurrence brings it in. */
  ghost predicate Says(b: Bundle, a: Aligned, extra: seq<nat>, k: nat)
    requires Mapped(a, k)
  {
    && b.index == k && b.title == a.current[k].title
    && b.confirmedSourceText == a.confirmed[k].text && b.currentSourceText == a.current[k].text
    && b.counterpartText == a.counterpart[k].text && b.counterpartStartLine == a.counterpart[k].startLine
    && (b.firstOccurrence <==> k in extra && a.confirmed[k].text == a.current[k].text)
  }

  /** The briefing's bundles: one for each changed span and each span a first occurrence moved through, ascending. */
  ghost predicate Briefs(a: Aligned, extra: seq<nat>, bundles: seq<Bundle>) {
    && (forall i, j | 0 <= i < j < |bundles| :: bundles[i].index < bundles[j].index)
    && (forall i | 0 <= i < |bundles| ::
         Mapped(a, bundles[i].index) && Says(bundles[i], a, extra, bundles[i].index))
    && (forall k: nat | k < |a.confirmed| && k < |a.current|
       && (a.confirmed[k].text != a.current[k].text || k in extra) :: Briefed(bundles, k))
    && (forall i | 0 <= i < |bundles| ::
          a.confirmed[bundles[i].index].text != a.current[bundles[i].index].text || bundles[i].index in extra)
  }

  ghost predicate Briefed(bundles: seq<Bundle>, k: nat) {
    exists i :: 0 <= i < |bundles| && bundles[i].index == k
  }

  lemma BundlesAtIs(r: Request, a: Aligned, terms: Terminology)
    requires Aligns(a) && Numbered(a.confirmed) && Numbered(a.current)
    ensures var changed := ChangedSpanIndices(a.confirmed, a.current);
            BundlesAt(r, a, terms).Success? && Briefs(a, ExtrasFor(r, a, changed, terms), BundlesAt(r, a, terms).value)
  {
    var changed := ChangedSpanIndices(a.confirmed, a.current);
    var extra := ExtrasFor(r, a, changed, terms);
    ChangedIsExact(a.confirmed, a.current);
    ExtrasMapped(r, a, changed, terms);
    SortedUnionIs(changed, extra);
    var union := SortedUnion(changed, extra);
    forall i | 0 <= i < |union|
      ensures Mapped(a, union[i])
    {
      assert union[i] in union;
    }
    BundlesOfIs(a, extra, union);
    var bundles := BundlesAt(r, a, terms).value;
    forall k: nat | k < |a.confirmed| && k < |a.current| && (a.confirmed[k].text != a.current[k].text || k in extra)
      ensures Briefed(bundles, k)
    {
      assert k in union;
      var i :| 0 <= i < |union| && union[i] == k;
      assert bundles[i].index == k;
    }
    forall i | 0 <= i < |bundles|
      ensures a.confirmed[bundles[i].index].text != a.current[bundles[i].index].text || bundles[i].index in extra
    {
      assert union[i] in union;
    }
  }

  /** Planning never fails: alignment maps every index the plan asks for. */
  lemma PlanNeverUnmapped(r: Request, terms: Terminology)
    requires ValidRequest(r)
    ensures PlanScope(r, terms).Success?
  {
    if Usable(AlignedAt(r, Units)) {
      BundlesSucceed(r, Units, terms);
    } else if Usable(AlignedAt(r, Sections)) {
      BundlesSucceed(r, Sections, terms);
    }
  }

  lemma BundlesSucceed(r: Request, g: Granularity, terms: Terminology)
    requires ValidRequest(r) && Usable(AlignedAt(r, g))
    ensures AsScope(g, BundlesAt(r, AlignedAt(r, g), terms)).Success?
  {
    BundlesAtIs(r, AlignedAt(r, g), terms);
  }

  /** A mapped plan briefs exactly the changed spans and those a first occurrence moved through. */
  lemma MappedPlanBriefs(r: Request, terms: Terminology)
    requires ValidRequest(r) && PlanScope(r, terms).Success? && PlanScope(r, terms).value.Mapping?
    ensures var scope := PlanScope(r, terms).value;
            var a := AlignedAt(r, scope.granularity);
            && Usable(a)
            && Briefs(a, ExtrasFor(r, a, ChangedSpanIndices(a.confirmed, a.current), terms), scope.bundles)
  {
    var g := PlanScope(r, terms).value.granularity;
    MappedPlanIs(r, terms);
    BundlesAtIs(r, AlignedAt(r, g), terms);
  }

  lemma MappedPlanIs(r: Request, terms: Terminology)
    requires ValidRequest(r) && PlanScope(r, terms).Success? && PlanScope(r, terms).value.Mapping?
    ensures var g := PlanScope(r, terms).value.granularity;
            Usable(AlignedAt(r, g)) && PlanScope(r, terms) == AsScope(g, BundlesAt(r, AlignedAt(r, g), terms))
  {
    if Usable(AlignedAt(r, Units)) {
      assert PlanScope(r, terms) == AsScope(Units, BundlesAt(r, AlignedAt(r, Units), terms));
    } else {
      assert PlanScope(r, terms) == AsScope(Sections, BundlesAt(r, AlignedAt(r, Sections), terms));
    }
  }

  // ----- when the plan gives up

  lemma GivesUpUnchanged(r: Request, terms: Terminology)
    requires ValidRequest(r) && Aligns(AlignedAt(r, Sections))
             && PlanScope(r, terms) == Success(Document(NothingAligns))
    ensures ChangedSpanIndices(SectionsOf(r.last), SectionsOf(r.current)) == []
  {
  }

  /**
   When only one side drifted and the sections of all three texts align, the plan falls back to the
   whole document only if the confirmed and the current text differ in nothing but newlines.
   */
  lemma AlignedSectionsFallBackOnlyOnNewlines(r: Request, terms: Terminology)
    requires ValidRequest(r) && !r.bothDrifted && Aligns(AlignedAt(r, Sections))
    requires PlanScope(r, terms) == Success(Document(NothingAligns))
    ensures NewlinesNormalised(r.last.doc.markdown) == NewlinesNormalised(r.current.doc.markdown)
  {
    GivesUpUnchanged(r, terms);
    UnchangedIffSameLines(r.last.doc.markdown, r.last.headings, r.current.doc.markdown, r.current.headings);
    SameLinesIffNewlineOnly(r.last.doc.markdown, r.current.doc.markdown);
  }

  // ----- a sections briefing is complete

  /** The confirmed sections with the briefed ones replaced by their current text. */
  function Rebuilt(confirmed: seq<TextSpan>, bundles: seq<Bundle>, k: nat): string
    requires k <= |confirmed|
    decreases |confirmed| - k
  {
    if k == |confirmed| then "" else CurrentText(confirmed[k], bundles, k) + Rebuilt(confirmed, bundles, k + 1)
  }

  function CurrentText(span: TextSpan, bundles: seq<Bundle>, k: nat): string {
    if bundles == [] then span.text
    else if bundles[0].index == k then bundles[0].currentSourceText
    else CurrentText(span, bundles[1..], k)
  }

  lemma {:induction false} CurrentTextIs(a: Aligned, extra: seq<nat>, bundles: seq<Bundle>, k: nat)
    requires k < |a.confirmed| == |a.current|
    requires forall i | 0 <= i < |bundles| ::
               Mapped(a, bundles[i].index) && Says(bundles[i], a, extra, bundles[i].index)
    requires a.confirmed[k].text == a.current[k].text || Briefed(bundles, k)
    ensures CurrentText(a.confirmed[k], bundles, k) == a.current[k].text
  {
    if bundles != [] && bundles[0].index != k {
      if Briefed(bundles, k) {
        var i :| 0 <= i < |bundles| && bundles[i].index == k;
        assert bundles[1..][i - 1].index == k;
      }
      CurrentTextIs(a, extra, bundles[1..], k);
    }
  }

  lemma {:induction false} RebuiltIs(a: Aligned, extra: seq<nat>, bundles: seq<Bundle>, k: nat)
    requires k <= |a.confirmed| == |a.current| && Briefs(a, extra, bundles)
    ensures Rebuilt(a.confirmed, bundles, k) == AllText(a.current[k..])
    decreases |a.confirmed| - k
  {
    if k < |a.confirmed| {
      CurrentTextIs(a, extra, bundles, k);
      RebuiltIs(a, extra, bundles, k + 1);
      assert a.current[k..][1..] == a.current[k + 1..];
    }
  }

  /**
   Replacing, in the confirmed text, just the sections of a sections briefing by their current text
   gives the whole current text, newlines normalised: the briefing leaves no change out.
   */
  lemma SectionsBriefingIsComplete(r: Request, terms: Terminology)
    requires ValidRequest(r) && PlanScope(r, terms).Success? && PlanScope(r, terms).value.Mapping?
    requires PlanScope(r, terms).value.granularity == Sections
    ensures Rebuilt(SectionsOf(r.last), PlanScope(r, terms).value.bundles, 0)
            == NewlinesNormalised(r.current.doc.markdown)
  {
    MappedPlanBriefs(r, terms);
    var a := AlignedAt(r, Sections);
    RebuiltIs(a, ExtrasFor(r, a, ChangedSpanIndices(a.confirmed, a.current), terms), PlanScope(r, terms).value.bundles,
      0);
    SectionsPartition(r.current.doc.markdown, r.current.headings);
    CoverText(LinesIn(r.current), SectionsOf(r.current), 0);
    NormalisedIsTerminated(r.current.doc.markdown);
    assert a.current[0..] == a.current && LinesIn(r.current)[0..] == LinesIn(r.current);
  }
}
