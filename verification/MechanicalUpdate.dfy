/**
 The code-fence splice: when only fences changed, the edited fences are spliced into the
 counterpart, back to front. What the splice computes, and exactly when its
 mask-and-compare test can be trusted.
 */
module MechanicalUpdate {
  import opened Wrappers
  import opened Lines
  import opened Weaving
  import opened FencedDoc

  type Replacements = map<nat, string>

  /** The blocks after a simultaneous replacement; `k` is the index of the first span. */
  function NewBlocks(lines: seq<string>, spans: seq<Span>, from: nat, replacements: Replacements, k: nat)
    : (blocks: seq<seq<string>>)
    requires PlacedFrom(lines, spans, from)
    ensures |blocks| == |spans|
  {
    if spans == [] then []
    else
      [if k in replacements then LinesOf(replacements[k]) else lines[spans[0].startLine - 1..spans[0].endLine]]
      + NewBlocks(lines, spans[1..], spans[0].endLine, replacements, k + 1)
  }

  function ReplacedLines(doc: Doc, replacements: Replacements): seq<string>
    requires Placed(doc)
  {
    Weave(Gaps(doc), NewBlocks(LinesOf(doc.markdown), doc.fences, 0, replacements, 0))
  }

  // ----- `replaceSpanTexts`: descending splices equal simultaneous replacement

  lemma {:induction false} PlacedSuffix(lines: seq<string>, spans: seq<Span>, from: nat, index: nat)
    requires PlacedFrom(lines, spans, from) && index < |spans|
    ensures from < spans[index].startLine <= spans[index].endLine <= |lines|
    ensures PlacedFrom(lines, spans[index + 1..], spans[index].endLine)
    ensures PlacedFrom(lines, spans[index..], if index == 0 then from else spans[index - 1].endLine)
  {
    if index > 0 {
      PlacedSuffix(lines, spans[1..], spans[0].endLine, index - 1);
      assert spans[1..][index - 1 + 1..] == spans[index + 1..];
      assert spans[1..][index - 1..] == spans[index..];
    } else {
      assert spans[0..] == spans;
    }
  }

  /** What is already final when the spans before `index` are still untouched. */
  function FinalTail(lines: seq<string>, spans: seq<Span>, from: nat, replacements: Replacements, k: nat): seq<string>
    requires PlacedFrom(lines, spans, from)
  {
    Weave(GapsFrom(lines, spans, from), NewBlocks(lines, spans, from, replacements, k))
  }

  lemma FinalTailUnfold(lines: seq<string>, spans: seq<Span>, from: nat, replacements: Replacements, k: nat)
    requires PlacedFrom(lines, spans, from) && spans != []
    ensures FinalTail(lines, spans, from, replacements, k)
            == lines[from..spans[0].startLine - 1]
               + (if k in replacements then LinesOf(replacements[k])
                 else lines[spans[0].startLine - 1..spans[0].endLine])
               + FinalTail(lines, spans[1..], spans[0].endLine, replacements, k + 1)
  {
    var gaps, blocks := GapsFrom(lines, spans, from), NewBlocks(lines, spans, from, replacements, k);
    assert gaps[1..] == GapsFrom(lines, spans[1..], spans[0].endLine);
    assert blocks[1..] == NewBlocks(lines, spans[1..], spans[0].endLine, replacements, k + 1);
  }

  function EndBefore(spans: seq<Span>, index: nat): nat
    requires index <= |spans|
  {
    if index == 0 then 0 else spans[index - 1].endLine
  }

  /** The spans from `index` on are final, everything before them is untouched. */
  ghost predicate SplicedDownTo(original: seq<string>, spans: seq<Span>, replacements: Replacements, index: nat,
                                lines: seq<string>) {
    && index <= |spans|
    && EndBefore(spans, index) <= |original|
    && PlacedFrom(original, spans[index..], EndBefore(spans, index))
    && lines == original[..EndBefore(spans, index)]
                + FinalTail(original, spans[index..], EndBefore(spans, index), replacements, index)
  }

  function Splice(lines: seq<string>, span: Span, replacement: seq<string>): seq<string>
    requires 1 <= span.startLine <= span.endLine <= |lines|
  {
    lines[..span.startLine - 1] + replacement + lines[span.endLine..]
  }

  lemma SpliceAt(original: seq<string>, before: nat, span: Span, tail: seq<string>, replacement: seq<string>)
    requires before < span.startLine <= span.endLine <= |original|
    ensures Splice(original[..span.endLine] + tail, span, replacement)
            == original[..before] + (original[before..span.startLine - 1] + replacement + tail)
    ensures original[..span.endLine] + tail
            == original[..before]
              + (original[before..span.startLine - 1] + original[span.startLine - 1..span.endLine] + tail)
  {
    var s, e := span.startLine - 1, span.endLine;
    var current := original[..e] + tail;
    assert original[..e] == original[..before] + original[before..s] + original[s..e];
    assert current[e..] == tail && current[..s] == original[..before] + original[before..s];
  }

  /** One splice moves the final part one span forward. */
  lemma SpliceStep(original: seq<string>, spans: seq<Span>, replacements: Replacements, index: nat, lines: seq<string>)
    requires PlacedFrom(original, spans, 0) && SplicedDownTo(original, spans, replacements, index + 1, lines)
    ensures 1 <= spans[index].startLine <= spans[index].endLine <= |lines|
    ensures SplicedDownTo(original, spans, replacements, index,
                          if index in replacements then Splice(lines, spans[index], LinesOf(replacements[index]))
                            else lines)
  {
    PlacedSuffix(original, spans, 0, index);
    var before, span := EndBefore(spans, index), spans[index];
    var tail := FinalTail(original, spans[index + 1..], span.endLine, replacements, index + 1);
    SpliceAt(original, before, span, tail, if index in replacements then LinesOf(replacements[index]) else []);
    TailGrows(original, spans, replacements, index);
  }

  lemma TailGrows(original: seq<string>, spans: seq<Span>, replacements: Replacements, index: nat)
    requires index < |spans| && PlacedFrom(original, spans[index..], EndBefore(spans, index))
    requires PlacedFrom(original, spans[index + 1..], spans[index].endLine)
    ensures var before, span := EndBefore(spans, index), spans[index];
            && before < span.startLine <= span.endLine <= |original|
            && FinalTail(original, spans[index..], before, replacements, index)
               == original[before..span.startLine - 1]
                  + (if index in replacements then LinesOf(replacements[index])
                    else original[span.startLine - 1..span.endLine])
                  + FinalTail(original, spans[index + 1..], span.endLine, replacements, index + 1)
  {
    assert spans[index..][1..] == spans[index + 1..];
    FinalTailUnfold(original, spans[index..], EndBefore(spans, index), replacements, index);
  }

  lemma NothingSpliced(original: seq<string>, spans: seq<Span>, replacements: Replacements)
    requires PlacedFrom(original, spans, 0)
    ensures SplicedDownTo(original, spans, replacements, |spans|, original)
  {
    if spans != [] {
      PlacedSuffix(original, spans, 0, |spans| - 1);
    }
    var last := EndBefore(spans, |spans|);
    assert spans[|spans|..] == [];
    assert FinalTail(original, [], last, replacements, |spans|) == original[last..];
  }

  lemma AllSpliced(doc: Doc, replacements: Replacements, lines: seq<string>)
    requires Placed(doc) && SplicedDownTo(LinesOf(doc.markdown), doc.fences, replacements, 0, lines)
    ensures lines == ReplacedLines(doc, replacements)
  {
    assert doc.fences[0..] == doc.fences;
  }

  /** `replaceSpanTexts`: splice the replaced spans into the line array from the last to the first. */
  method ReplaceSpanTexts(doc: Doc, replacements: Replacements) returns (text: Result<string, nat>)
    requires Placed(doc)
    ensures text.Success? <==> forall k | k in replacements :: k < |doc.fences|
    ensures text.Success? ==> text.value == Unlines(ReplacedLines(doc, replacements))
    ensures text.Failure? ==> text.error in replacements && text.error >= |doc.fences|
  {
    if unknown :| unknown in replacements && unknown >= |doc.fences| {
      return Failure(unknown);
    }
    ghost var original := LinesOf(doc.markdown);
    var lines := LinesOf(doc.markdown);
    var index := |doc.fences|;
    NothingSpliced(original, doc.fences, replacements);
    while index > 0
      invariant 0 <= index <= |doc.fences|
      invariant SplicedDownTo(original, doc.fences, replacements, index, lines)
    {
      index := index - 1;
      SpliceStep(original, doc.fences, replacements, index, lines);
      if index in replacements {
        lines := Splice(lines, doc.fences[index], LinesOf(replacements[index]));
      }
    }
    AllSpliced(doc, replacements, lines);
    return Success(Unlines(lines));
  }

  // ----- the mask

  function Digit(n: nat): char
    requires n < 10
  {
    ['0', '1', '2', '3', '4', '5', '6', '7', '8', '9'][n]
  }

  function Decimal(n: nat): string {
    if n < 10 then [Digit(n)] else Decimal(n / 10) + [Digit(n % 10)]
  }

  const PREFIX := "MNH_TRANSLATION_CODE_"

  /** The line that stands for fence `k` in a masked document. */
  function Placeholder(k: nat): string {
    PREFIX + Decimal(k)
  }

  /** What a string of digits is worth. */
  function ValueOf(digits: string): int {
    if digits == "" then 0 else 10 * ValueOf(digits[..|digits| - 1]) + (digits[|digits| - 1] as int - '0' as int)
  }

  lemma {:induction false} DecimalIs(n: nat)
    ensures Decimal(n) != "" && ValueOf(Decimal(n)) == n && (n > 0 ==> Decimal(n)[0] != '0')
  {
    if n < 10 {
      assert Decimal(n) == [Digit(n)] && [Digit(n)][..0] == "";
    } else {
      DecimalIs(n / 10);
      var s := Decimal(n);
      assert s[..|s| - 1] == Decimal(n / 10) && s[|s| - 1] == Digit(n % 10);
    }
  }

  /** Its text is fixed: the prefix, and the number of the fence in decimal without leading zeros. */
  lemma PlaceholderIs(k: nat)
    ensures |Placeholder(k)| > 21 && Placeholder(k)[..21] == "MNH_TRANSLATION_CODE_"
    ensures ValueOf(Placeholder(k)[21..]) == k && (k > 0 ==> Placeholder(k)[21] != '0')
  {
    DecimalIs(k);
    assert |"MNH_TRANSLATION_CODE_"| == 21;
    assert Placeholder(k)[21..] == Decimal(k);
  }

  function Placeholders(k: nat, n: nat): (marks: seq<string>)
    ensures |marks| == n
    ensures forall i | 0 <= i < n :: marks[i] == Placeholder(k + i)
    decreases n
  {
    if n == 0 then [] else [Placeholder(k)] + Placeholders(k + 1, n - 1)
  }

  lemma {:induction false} DecimalHasNoBreaks(n: nat)
    ensures forall c | c in Decimal(n) :: '0' <= c <= '9'
    ensures Decimal(n) != ""
  {
    if n >= 10 {
      DecimalHasNoBreaks(n / 10);
    }
  }

  lemma PlaceholderIsCleanLine(k: nat)
    ensures IsLine(Placeholder(k)) && StripCr(Placeholder(k)) == Placeholder(k)
    ensures LinesOf(Placeholder(k) + "\n") == [Placeholder(k)]
  {
    DecimalHasNoBreaks(k);
    var line := Placeholder(k);
    assert '\n' !in PREFIX;
    assert line[|line| - 1] == Decimal(k)[|Decimal(k)| - 1];
    assert Unlines([line]) == line + "\n";
    LinesOfUnlines([line]);
    assert StripAll([line]) == [line];
  }

  function MaskReplacements(doc: Doc): (replacements: Replacements)
    ensures forall k | k in replacements :: k < |doc.fences|
  {
    map k: nat | 0 <= k < |doc.fences| :: Placeholder(k) + "\n"
  }

  /** `maskCodeSpans`. */
  function MaskText(doc: Doc): string
    requires Placed(doc)
  {
    Unlines(ReplacedLines(doc, MaskReplacements(doc)))
  }

  lemma {:induction false} MaskBlocks(lines: seq<string>, spans: seq<Span>, from: nat, replacements: Replacements,
                                      k: nat)
    requires PlacedFrom(lines, spans, from)
    requires forall i: nat | k <= i < k + |spans| :: i in replacements && replacements[i] == Placeholder(i) + "\n"
    ensures NewBlocks(lines, spans, from, replacements, k) == Marks(Placeholders(k, |spans|))
  {
    if spans != [] {
      PlaceholderIsCleanLine(k);
      MaskBlocks(lines, spans[1..], spans[0].endLine, replacements, k + 1);
    }
  }

  /** Masking keeps the prose and puts one placeholder line for each fence. */
  lemma MaskTextIs(doc: Doc)
    requires Placed(doc)
    ensures MaskText(doc) == Unlines(Masked(Gaps(doc), Placeholders(0, |doc.fences|)))
  {
    MaskBlocks(LinesOf(doc.markdown), doc.fences, 0, MaskReplacements(doc), 0);
  }

  // ----- `computeMechanicalUpdate`

  function FenceText(doc: Doc, k: nat): string
    requires Placed(doc) && k < |doc.fences|
  {
    Unlines(Blocks(doc)[k])
  }

  predicate SameFences(a: Doc, b: Doc)
    requires Placed(a) && Placed(b) && |a.fences| == |b.fences|
  {
    forall k | 0 <= k < |a.fences| :: FenceText(a, k) == FenceText(b, k)
  }

  function ChangedFences(confirmed: Doc, current: Doc): Replacements
    requires Placed(confirmed) && Placed(current) && |confirmed.fences| == |current.fences|
  {
    map k: nat | 0 <= k < |current.fences| && FenceText(current, k) != FenceText(confirmed, k) :: FenceText(current, k)
  }

  function ComputeMechanicalUpdate(confirmed: Doc, current: Doc, counterpart: Doc): Option<string>
    requires Placed(confirmed) && Placed(current) && Placed(counterpart)
  {
    if |confirmed.fences| == 0 || |confirmed.fences| != |current.fences| || |confirmed.fences| != |counterpart.fences|
      then None
    else if MaskText(confirmed) != MaskText(current) then None
    else if !SameFences(confirmed, counterpart) then None
    else if ChangedFences(confirmed, current) == map[] then None
    else Some(Unlines(ReplacedLines(counterpart, ChangedFences(confirmed, current))))
  }
}
