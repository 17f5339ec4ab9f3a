/** The laws of the mechanical update. */
module MechanicalLaws {
  import opened Wrappers
  import opened Lines
  import opened Weaving
  import opened FencedDoc
  import opened MechanicalUpdate

  lemma {:induction false} BlocksAreLines(lines: seq<string>, spans: seq<Span>, from: nat)
    requires AreLines(lines) && PlacedFrom(lines, spans, from)
    ensures forall i | 0 <= i < |spans| ::
              AreLines(BlocksFrom(lines, spans, from)[i]) && BlocksFrom(lines, spans, from)[i] != []
  {
    if spans != [] {
      BlocksAreLines(lines, spans[1..], spans[0].endLine);
    }
  }

  /** What the splice puts at each fence: the replacement read as lines, or the old fence. */
  lemma {:induction false} NewBlockAt(lines: seq<string>, spans: seq<Span>, from: nat, replacements: Replacements,
                                      k: nat, i: nat)
    requires PlacedFrom(lines, spans, from) && i < |spans|
    ensures NewBlocks(lines, spans, from, replacements, k)[i]
            == if k + i in replacements then LinesOf(replacements[k + i]) else BlocksFrom(lines, spans, from)[i]
  {
    NewBlocksUnfold(lines, spans, from, replacements, k);
    if i > 0 {
      NewBlockAt(lines, spans[1..], spans[0].endLine, replacements, k + 1, i - 1);
    }
  }

  lemma NewBlocksUnfold(lines: seq<string>, spans: seq<Span>, from: nat, replacements: Replacements, k: nat)
    requires PlacedFrom(lines, spans, from) && spans != []
    ensures var block := lines[spans[0].startLine - 1..spans[0].endLine];
            && BlocksFrom(lines, spans, from) == [block] + BlocksFrom(lines, spans[1..], spans[0].endLine)
            && NewBlocks(lines, spans, from, replacements, k)
               == [if k in replacements then LinesOf(replacements[k]) else block]
                  + NewBlocks(lines, spans[1..], spans[0].endLine, replacements, k + 1)
  {
  }

  /** Fence `i` of the result: the current fence, less a trailing carriage return per line where it changed. */
  function UpdatedBlock(confirmed: Doc, current: Doc, i: nat): seq<string>
    requires Placed(confirmed) && Placed(current) && i < |confirmed.fences| == |current.fences|
  {
    if FenceText(current, i) != FenceText(confirmed, i) then StripAll(Blocks(current)[i]) else Blocks(current)[i]
  }

  /** The counterpart's prose survives line for line, around exactly the current fences. */
  lemma PatchLaw(confirmed: Doc, current: Doc, counterpart: Doc) returns (fences: seq<seq<string>>)
    requires Placed(confirmed) && Placed(current) && Placed(counterpart)
    requires ComputeMechanicalUpdate(confirmed, current, counterpart).Some?
    ensures |fences| == |current.fences| == |counterpart.fences| == |confirmed.fences|
    ensures ComputeMechanicalUpdate(confirmed, current, counterpart).value == Unlines(Weave(Gaps(counterpart), fences))
    ensures forall i | 0 <= i < |fences| :: fences[i] == UpdatedBlock(confirmed, current, i)
  {
    PatchIsReplacement(confirmed, current, counterpart);
    fences := NewBlocks(LinesOf(counterpart.markdown), counterpart.fences, 0, ChangedFences(confirmed, current), 0);
    PatchedBlocks(confirmed, current, counterpart);
  }

  lemma PatchIsReplacement(confirmed: Doc, current: Doc, counterpart: Doc)
    requires Placed(confirmed) && Placed(current) && Placed(counterpart)
    requires ComputeMechanicalUpdate(confirmed, current, counterpart).Some?
    ensures |current.fences| == |counterpart.fences| == |confirmed.fences| && SameFences(confirmed, counterpart)
    ensures ComputeMechanicalUpdate(confirmed, current, counterpart).value
         == Unlines(ReplacedLines(counterpart, ChangedFences(confirmed, current)))
  {
  }

  lemma PatchedBlocks(confirmed: Doc, current: Doc, counterpart: Doc)
    requires Placed(confirmed) && Placed(current) && Placed(counterpart)
    requires |current.fences| == |counterpart.fences| == |confirmed.fences| && SameFences(confirmed, counterpart)
    ensures var changed := ChangedFences(confirmed, current);
            var fences := NewBlocks(LinesOf(counterpart.markdown), counterpart.fences, 0, changed, 0);
            forall i | 0 <= i < |fences| :: fences[i] == UpdatedBlock(confirmed, current, i)
  {
    var changed := ChangedFences(confirmed, current);
    forall i: nat | i < |counterpart.fences|
      ensures NewBlocks(LinesOf(counterpart.markdown), counterpart.fences, 0, changed, 0)[i]
           == UpdatedBlock(confirmed, current, i)
    {
      PatchedBlockAt(confirmed, current, counterpart, i);
    }
  }

  lemma PatchedBlockAt(confirmed: Doc, current: Doc, counterpart: Doc, i: nat)
    requires Placed(confirmed) && Placed(current) && Placed(counterpart)
    requires i < |confirmed.fences| == |current.fences| == |counterpart.fences| && SameFences(confirmed, counterpart)
    ensures NewBlocks(LinesOf(counterpart.markdown), counterpart.fences, 0, ChangedFences(confirmed, current), 0)[i]
         == UpdatedBlock(confirmed, current, i)
  {
    NewBlockAt(LinesOf(counterpart.markdown), counterpart.fences, 0, ChangedFences(confirmed, current), 0, i);
    PatchedBlock(confirmed, current, counterpart, i);
  }

  /** A changed fence comes from the current text, and an unchanged one is the counterpart's. */
  lemma PatchedBlock(confirmed: Doc, current: Doc, counterpart: Doc, i: nat)
    requires Placed(confirmed) && Placed(current) && Placed(counterpart)
    requires i < |confirmed.fences| == |current.fences| == |counterpart.fences| && SameFences(confirmed, counterpart)
    ensures i in ChangedFences(confirmed, current) ==>
              LinesOf(ChangedFences(confirmed, current)[i]) == UpdatedBlock(confirmed, current, i)
    ensures i !in ChangedFences(confirmed, current) ==> Blocks(counterpart)[i] == UpdatedBlock(confirmed, current, i)
  {
    assert FenceText(confirmed, i) == FenceText(counterpart, i);
    FenceReadsBack(current, i);
    if FenceText(current, i) == FenceText(counterpart, i) {
      FenceTextDecides(current, counterpart, i);
    }
  }

  lemma FenceReadsBack(doc: Doc, i: nat)
    requires Placed(doc) && i < |doc.fences|
    ensures LinesOf(FenceText(doc, i)) == StripAll(Blocks(doc)[i])
  {
    FencesAreWritable(doc, i);
    LinesOfUnlines(Blocks(doc)[i]);
  }

  lemma FenceTextDecides(a: Doc, b: Doc, i: nat)
    requires Placed(a) && Placed(b) && i < |a.fences| && i < |b.fences| && FenceText(a, i) == FenceText(b, i)
    ensures Blocks(a)[i] == Blocks(b)[i]
  {
    FencesAreWritable(a, i);
    FencesAreWritable(b, i);
    UnlinesInjective(Blocks(a)[i], Blocks(b)[i]);
  }

  lemma FencesAreWritable(doc: Doc, i: nat)
    requires Placed(doc) && i < |doc.fences|
    ensures AreLines(Blocks(doc)[i]) && Blocks(doc)[i] != []
  {
    LinesOfAreLines(doc.markdown);
    BlocksAreLines(LinesOf(doc.markdown), doc.fences, 0);
  }

  /** A document all of whose lines can be written and read back unchanged. */
  predicate Clean(doc: Doc) {
    NoTrailingCr(LinesOf(doc.markdown))
  }

  lemma {:induction false} BlocksAreClean(lines: seq<string>, spans: seq<Span>, from: nat)
    requires NoTrailingCr(lines) && PlacedFrom(lines, spans, from)
    ensures forall i | 0 <= i < |spans| :: NoTrailingCr(BlocksFrom(lines, spans, from)[i])
  {
    if spans != [] {
      BlocksAreClean(lines, spans[1..], spans[0].endLine);
    }
  }

  /** Without stray carriage returns the result is the counterpart's prose around the current fences. */
  lemma CleanPatchLaw(confirmed: Doc, current: Doc, counterpart: Doc)
    requires Placed(confirmed) && Placed(current) && Placed(counterpart) && Clean(current)
    requires ComputeMechanicalUpdate(confirmed, current, counterpart).Some?
    ensures |current.fences| == |counterpart.fences|
    ensures ComputeMechanicalUpdate(confirmed, current, counterpart).value
            == Unlines(Weave(Gaps(counterpart), Blocks(current)))
  {
    var fences := PatchLaw(confirmed, current, counterpart);
    BlocksAreClean(LinesOf(current.markdown), current.fences, 0);
    forall i | 0 <= i < |fences|
      ensures fences[i] == Blocks(current)[i]
    {
      StripAllKeeps(Blocks(current)[i]);
    }
    assert fences == Blocks(current);
  }

  // ----- when the mask test can be trusted

  /** No prose next to a fence spells that fence's placeholder. */
  ghost predicate PlaceholderFree(doc: Doc)
    requires Placed(doc)
  {
    BordersFree(Gaps(doc), Placeholders(0, |doc.fences|))
  }

  lemma {:induction false} GapsAreLines(lines: seq<string>, spans: seq<Span>, from: nat)
    requires AreLines(lines) && PlacedFrom(lines, spans, from)
    ensures forall i | 0 <= i <= |spans| :: AreLines(GapsFrom(lines, spans, from)[i])
  {
    PlacedInside(lines, spans, from);
    if spans != [] {
      GapsAreLines(lines, spans[1..], spans[0].endLine);
    }
  }

  lemma {:induction false} WeaveAreLines(gaps: seq<seq<string>>, blocks: seq<seq<string>>)
    requires |gaps| == |blocks| + 1
    requires (forall i | 0 <= i < |gaps| :: AreLines(gaps[i])) && (forall i | 0 <= i < |blocks| :: AreLines(blocks[i]))
    ensures AreLines(Weave(gaps, blocks))
  {
    if blocks != [] {
      WeaveAreLines(gaps[1..], blocks[1..]);
    }
  }

  lemma {:induction false} MarksAre<T>(marks: seq<T>)
    ensures forall i | 0 <= i < |marks| :: Marks(marks)[i] == [marks[i]]
  {
    if marks != [] {
      MarksAre(marks[1..]);
    }
  }

  lemma MaskIsWritable(doc: Doc)
    requires Placed(doc) && doc.fences != []
    ensures AreLines(Masked(Gaps(doc), Placeholders(0, |doc.fences|)))
    ensures Masked(Gaps(doc), Placeholders(0, |doc.fences|)) != []
  {
    var marks := Placeholders(0, |doc.fences|);
    LinesOfAreLines(doc.markdown);
    GapsAreLines(LinesOf(doc.markdown), doc.fences, 0);
    MarksAre(marks);
    forall i | 0 <= i < |marks|
      ensures AreLines(Marks(marks)[i])
    {
      PlaceholderIsCleanLine(i);
    }
    WeaveAreLines(Gaps(doc), Marks(marks));
    MaskedUnfold(Gaps(doc), marks);
  }

  /** A successful test on a placeholder-free document proves that the prose is untouched. */
  lemma MaskTestIsSound(confirmed: Doc, current: Doc)
    requires Placed(confirmed) && Placed(current) && |confirmed.fences| == |current.fences| && confirmed.fences != []
    requires PlaceholderFree(confirmed) && MaskText(confirmed) == MaskText(current)
    ensures Gaps(confirmed) == Gaps(current)
  {
    MaskTextIs(confirmed);
    MaskTextIs(current);
    MaskIsWritable(confirmed);
    MaskIsWritable(current);
    var marks := Placeholders(0, |confirmed.fences|);
    UnlinesInjective(Masked(Gaps(confirmed), marks), Masked(Gaps(current), marks));
    CutIsUnique(Gaps(confirmed), Gaps(current), marks);
  }

  /** Applied to the confirmed document itself, the update then yields exactly the current lines. */
  lemma SelfUpdateIsCurrent(confirmed: Doc, current: Doc)
    requires Placed(confirmed) && Placed(current) && Clean(current) && PlaceholderFree(confirmed)
    requires ComputeMechanicalUpdate(confirmed, current, confirmed).Some?
    ensures ComputeMechanicalUpdate(confirmed, current, confirmed).value == Unlines(LinesOf(current.markdown))
  {
    CleanPatchLaw(confirmed, current, confirmed);
    MaskTestIsSound(confirmed, current);
    CutWeavesBack(current);
  }

  // ----- and when not: a document that is not placeholder-free has a current text that fools the test

  function Xs(n: nat): string {
    if n == 0 then "" else "x" + Xs(n - 1)
  }

  lemma {:induction false} XsAreX(n: nat)
    ensures |Xs(n)| == n && forall c | c in Xs(n) :: c == 'x'
  {
    if n > 0 {
      XsAreX(n - 1);
    }
  }

  function TotalLength(lines: seq<string>): nat {
    if lines == [] then 0 else |lines[0]| + TotalLength(lines[1..])
  }

  lemma {:induction false} LineIsShorter(lines: seq<string>, line: string)
    requires line in lines
    ensures |line| <= TotalLength(lines)
  {
    if line != lines[0] {
      assert line in lines[1..];
      LineIsShorter(lines[1..], line);
    }
  }

  /** A clean line that occurs in neither list. */
  lemma FreshLine(a: seq<string>, b: seq<string>) returns (line: string)
    ensures IsLine(line) && StripCr(line) == line && line !in a && line !in b
    ensures forall c | c in line :: c == 'x'
  {
    var n := TotalLength(a) + TotalLength(b) + 1;
    line := Xs(n);
    XsAreX(n);
    assert line[|line| - 1] in line;
    if line in a {
      LineIsShorter(a, line);
    }
    if line in b {
      LineIsShorter(b, line);
    }
  }

  function Repeat<T>(x: T, n: nat): (xs: seq<T>)
    ensures |xs| == n && forall i | 0 <= i < n :: xs[i] == x
  {
    if n == 0 then [] else [x] + Repeat(x, n - 1)
  }

  lemma {:induction false} GapElementsAreWoven<T>(gaps: seq<seq<T>>, blocks: seq<seq<T>>, i: nat, x: T)
    requires |gaps| == |blocks| + 1 && i < |gaps| && x in gaps[i]
    ensures x in Weave(gaps, blocks)
  {
    if i > 0 {
      GapElementsAreWoven(gaps[1..], blocks[1..], i - 1, x);
    }
  }

  lemma {:induction false} WovenElements<T>(gaps: seq<seq<T>>, blocks: seq<seq<T>>, x: T)
    requires |gaps| == |blocks| + 1 && x in Weave(gaps, blocks)
    ensures (exists i :: 0 <= i < |gaps| && x in gaps[i]) || (exists i :: 0 <= i < |blocks| && x in blocks[i])
  {
    if blocks != [] && x !in gaps[0] && x !in blocks[0] {
      assert x in Weave(gaps[1..], blocks[1..]);
      WovenElements(gaps[1..], blocks[1..], x);
      if i :| 0 <= i < |gaps[1..]| && x in gaps[1..][i] {
        assert x in gaps[i + 1];
      } else {
        var i :| 0 <= i < |blocks[1..]| && x in blocks[1..][i];
        assert x in blocks[i + 1];
      }
    }
  }

  lemma {:induction false} GapsAreClean(lines: seq<string>, spans: seq<Span>, from: nat)
    requires NoTrailingCr(lines) && PlacedFrom(lines, spans, from)
    ensures forall i | 0 <= i <= |spans| :: NoTrailingCr(GapsFrom(lines, spans, from)[i])
  {
    PlacedInside(lines, spans, from);
    if spans != [] {
      GapsAreClean(lines, spans[1..], spans[0].endLine);
    }
  }

  /** A line that can be written and read back. */
  predicate CleanLine(line: string) {
    IsLine(line) && StripCr(line) == line
  }

  lemma MaskLinesAreClean(doc: Doc, line: string)
    requires Placed(doc) && Clean(doc) && line in Masked(Gaps(doc), Placeholders(0, |doc.fences|))
    ensures CleanLine(line)
  {
    var marks := Placeholders(0, |doc.fences|);
    WovenElements(Gaps(doc), Marks(marks), line);
    if i :| 0 <= i < |Gaps(doc)| && line in Gaps(doc)[i] {
      GapLineIsClean(doc, i, line);
    } else {
      var i :| 0 <= i < |Marks(marks)| && line in Marks(marks)[i];
      MarksAre(marks);
      PlaceholderIsCleanLine(i);
    }
  }

  lemma GapLineIsClean(doc: Doc, i: nat, line: string)
    requires Placed(doc) && Clean(doc) && i < |Gaps(doc)| && line in Gaps(doc)[i]
    ensures CleanLine(line)
  {
    LinesOfAreLines(doc.markdown);
    GapsAreLines(LinesOf(doc.markdown), doc.fences, 0);
    GapsAreClean(LinesOf(doc.markdown), doc.fences, 0);
  }

  lemma CleanLinesReadBack(lines: seq<string>)
    requires lines != [] && forall line | line in lines :: CleanLine(line)
    ensures LinesOf(Unlines(lines)) == lines
  {
    assert forall i | 0 <= i < |lines| :: CleanLine(lines[i]);
    LinesOfUnlines(lines);
    StripAllKeeps(lines);
  }

  const FENCE := "```"

  /** A code block between two lines of backticks, with none inside. */
  predicate BacktickFence(block: seq<string>) {
    && |block| >= 2 && block[0] == FENCE && block[|block| - 1] == FENCE
    && forall i | 0 < i < |block| - 1 :: '`' !in block[i]
  }

  predicate BacktickFences(doc: Doc)
    requires Placed(doc)
  {
    forall block | block in Blocks(doc) :: BacktickFence(block)
  }

  function FenceBlocks(line: string, n: nat): seq<seq<string>> {
    Repeat([FENCE, line, FENCE], n)
  }

  /** The document with these gaps and one and the same code line in every fence. */
  function SameFenceDoc(gaps: seq<seq<string>>, line: string): Doc
    requires |gaps| > 0
  {
    var blocks := FenceBlocks(line, |gaps| - 1);
    Doc(Unlines(Weave(gaps, blocks)), SpansFor(gaps, blocks, 0))
  }

  ghost predicate CleanGaps(gaps: seq<seq<string>>) {
    forall i, line | 0 <= i < |gaps| && line in gaps[i] :: CleanLine(line)
  }

  lemma WovenIsClean(gaps: seq<seq<string>>, line: string)
    requires |gaps| > 1 && CleanLine(line) && CleanGaps(gaps)
    ensures Weave(gaps, FenceBlocks(line, |gaps| - 1)) != []
    ensures forall l | l in Weave(gaps, FenceBlocks(line, |gaps| - 1)) :: CleanLine(l)
  {
    var blocks := FenceBlocks(line, |gaps| - 1);
    forall l | l in Weave(gaps, blocks)
      ensures CleanLine(l)
    {
      WovenLineIsClean(gaps, blocks, line, l);
    }
    assert blocks[0] != [];
  }

  lemma WovenLineIsClean(gaps: seq<seq<string>>, blocks: seq<seq<string>>, line: string, l: string)
    requires |gaps| == |blocks| + 1 && CleanLine(line) && CleanGaps(gaps) && l in Weave(gaps, blocks)
    requires forall i | 0 <= i < |blocks| :: blocks[i] == [FENCE, line, FENCE]
    ensures CleanLine(l)
  {
    WovenElements(gaps, blocks, l);
    FenceIsClean();
    if i :| 0 <= i < |gaps| && l in gaps[i] {
    } else {
      var i :| 0 <= i < |blocks| && l in blocks[i];
      assert l == FENCE || l == line;
    }
  }

  lemma FenceIsClean()
    ensures CleanLine(FENCE)
  {
  }

  lemma SameFenceReads(gaps: seq<seq<string>>, line: string)
    requires |gaps| > 1 && CleanLine(line) && CleanGaps(gaps)
    ensures LinesOf(SameFenceDoc(gaps, line).markdown) == Weave(gaps, FenceBlocks(line, |gaps| - 1)) != []
    ensures Clean(SameFenceDoc(gaps, line))
  {
    WovenIsClean(gaps, line);
    CleanLinesReadBack(Weave(gaps, FenceBlocks(line, |gaps| - 1)));
    CleanLinesAreClean(Weave(gaps, FenceBlocks(line, |gaps| - 1)));
  }

  lemma CleanLinesAreClean(lines: seq<string>)
    requires forall line | line in lines :: CleanLine(line)
    ensures NoTrailingCr(lines)
  {
    assert forall i | 0 <= i < |lines| :: CleanLine(lines[i]);
  }

  lemma {:induction false} SpansForCount(gaps: seq<seq<string>>, blocks: seq<seq<string>>, from: nat)
    requires |gaps| == |blocks| + 1
    ensures |SpansFor(gaps, blocks, from)| == |blocks|
  {
    if blocks != [] {
      SpansForCount(gaps[1..], blocks[1..], from + |gaps[0]| + |blocks[0]|);
    }
  }

  lemma SameFenceCut(gaps: seq<seq<string>>, line: string)
    requires |gaps| > 1 && CleanLine(line) && CleanGaps(gaps)
    ensures Placed(SameFenceDoc(gaps, line)) && |SameFenceDoc(gaps, line).fences| == |gaps| - 1
    ensures Gaps(SameFenceDoc(gaps, line)) == gaps
    ensures Blocks(SameFenceDoc(gaps, line)) == FenceBlocks(line, |gaps| - 1)
  {
    var blocks := FenceBlocks(line, |gaps| - 1);
    SameFenceReads(gaps, line);
    CutOfWeave([], gaps, blocks);
    SpansForCount(gaps, blocks, 0);
    assert [] + Weave(gaps, blocks) == Weave(gaps, blocks);
  }

  lemma SameMaskIsClean(confirmed: Doc, other: seq<seq<string>>)
    requires Placed(confirmed) && Clean(confirmed) && |other| == |confirmed.fences| + 1
    requires Masked(other, Placeholders(0, |confirmed.fences|))
             == Masked(Gaps(confirmed), Placeholders(0, |confirmed.fences|))
    ensures CleanGaps(other)
  {
    forall i, line | 0 <= i < |other| && line in other[i]
      ensures CleanLine(line)
    {
      GapElementsAreWoven(other, Marks(Placeholders(0, |confirmed.fences|)), i, line);
      MaskLinesAreClean(confirmed, line);
    }
  }

  /**
   Otherwise prose can move across a fence unseen: some current text, its fences code blocks like any other,
   passes the test and is not reproduced.
   */
  lemma SomeCurrentFoolsTheTest(confirmed: Doc) returns (current: Doc)
    requires Placed(confirmed) && Clean(confirmed) && confirmed.fences != [] && !PlaceholderFree(confirmed)
    ensures Placed(current) && Clean(current) && BacktickFences(current)
    ensures exists line: string :: '`' !in line && forall block | block in Blocks(current) ::
              block == ["```", line, "```"]
    ensures ComputeMechanicalUpdate(confirmed, current, confirmed).Some?
    ensures ComputeMechanicalUpdate(confirmed, current, confirmed).value != Unlines(LinesOf(current.markdown))
  {
    var n := |confirmed.fences|;
    var marks := Placeholders(0, n);
    var gaps := Gaps(confirmed);
    var other := SecondCut(gaps, marks);
    var line := FreshLine(Masked(gaps, marks), LinesOf(confirmed.markdown));
    SameMaskIsClean(confirmed, other);
    current := SameFenceDoc(other, line);
    SameFenceReads(other, line);
    SameFenceCut(other, line);
    SameFenceIsBackticked(line, n);
    FreshFenceChanges(confirmed, current, line);
    FoolsTheTest(confirmed, current);
    FreshLinesTellCutsApart(confirmed, other, line);
  }

  lemma SameFenceIsBackticked(line: string, n: nat)
    requires '`' !in line
    ensures forall block | block in FenceBlocks(line, n) :: BacktickFence(block) && block == ["```", line, "```"]
  {
    assert BacktickFence([FENCE, line, FENCE]);
  }

  /** Another cut of the same masked text passes the test. */
  lemma FoolsTheTest(confirmed: Doc, current: Doc)
    requires Placed(confirmed) && Placed(current) && Clean(current) && |current.fences| == |confirmed.fences| > 0
    requires ChangedFences(confirmed, current) != map[]
    requires Masked(Gaps(current), Placeholders(0, |current.fences|))
             == Masked(Gaps(confirmed), Placeholders(0, |current.fences|))
    ensures ComputeMechanicalUpdate(confirmed, current, confirmed)
            == Some(Unlines(Weave(Gaps(confirmed), Blocks(current))))
  {
    MaskTextIs(confirmed);
    MaskTextIs(current);
    CleanPatchLaw(confirmed, current, confirmed);
  }

  lemma FreshFenceChanges(confirmed: Doc, current: Doc, line: string)
    requires Placed(confirmed) && Placed(current) && |confirmed.fences| == |current.fences| && confirmed.fences != []
    requires Blocks(current) == FenceBlocks(line, |current.fences|) && line !in LinesOf(confirmed.markdown)
    ensures ChangedFences(confirmed, current) != map[]
  {
    assert line in Blocks(current)[0];
    if FenceText(current, 0) == FenceText(confirmed, 0) {
      FenceTextDecides(current, confirmed, 0);
      assert false;
    }
    assert 0 in ChangedFences(confirmed, current);
  }

  /** The gaps with the backtick lines counted in: what is left as a mark is the code line. */
  function WithBackticks(gaps: seq<seq<string>>, first: bool): (wider: seq<seq<string>>)
    requires |gaps| > 0
    ensures |wider| == |gaps|
  {
    var front := if first then gaps[0] else [FENCE] + gaps[0];
    if |gaps| == 1 then [front] else [front + [FENCE]] + WithBackticks(gaps[1..], false)
  }

  lemma {:induction false} BackticksWeave(gaps: seq<seq<string>>, line: string, first: bool)
    requires |gaps| > 0
    ensures var n := |gaps| - 1;
            Masked(WithBackticks(gaps, first), Repeat(line, n))
            == (if first then [] else [FENCE]) + Weave(gaps, FenceBlocks(line, n))
    decreases |gaps|
  {
    var n := |gaps| - 1;
    var wider := WithBackticks(gaps, first);
    MaskedUnfold(wider, Repeat(line, n));
    if n > 0 {
      BackticksWeave(gaps[1..], line, false);
      BackticksStep(wider[0], gaps, line, first);
    }
  }

  lemma BackticksStep(head: seq<string>, gaps: seq<seq<string>>, line: string, first: bool)
    requires |gaps| > 1 && head == (if first then gaps[0] else [FENCE] + gaps[0]) + [FENCE]
    ensures head + [line] + ([FENCE] + Weave(gaps[1..], FenceBlocks(line, |gaps| - 2)))
         == (if first then [] else [FENCE]) + Weave(gaps, FenceBlocks(line, |gaps| - 1))
  {
    var rest := Weave(gaps[1..], FenceBlocks(line, |gaps| - 2));
    WeaveFence(gaps, line);
    if first {
      FenceInline(gaps[0], line, rest);
    } else {
      FenceInline([FENCE] + gaps[0], line, rest);
      FenceInFront(gaps[0], [FENCE, line, FENCE], rest);
    }
  }

  lemma WeaveFence(gaps: seq<seq<string>>, line: string)
    requires |gaps| > 1
    ensures Weave(gaps, FenceBlocks(line, |gaps| - 1))
         == gaps[0] + [FENCE, line, FENCE] + Weave(gaps[1..], FenceBlocks(line, |gaps| - 2))
  {
    assert FenceBlocks(line, |gaps| - 1)[1..] == FenceBlocks(line, |gaps| - 2);
  }

  lemma FenceInline(gap: seq<string>, line: string, rest: seq<string>)
    ensures gap + [FENCE] + [line] + ([FENCE] + rest) == gap + [FENCE, line, FENCE] + rest
  {
  }

  lemma FenceInFront(a: seq<string>, b: seq<string>, c: seq<string>)
    ensures [FENCE] + a + b + c == [FENCE] + (a + b + c)
  {
  }

  lemma {:induction false} BackticksInjective(gaps: seq<seq<string>>, other: seq<seq<string>>, first: bool)
    requires |gaps| == |other| > 0 && WithBackticks(gaps, first) == WithBackticks(other, first)
    ensures gaps == other
  {
    var g, o := WithBackticks(gaps, first)[0], WithBackticks(other, first)[0];
    var from := if first then 0 else 1;
    assert gaps[0] == g[from..from + |gaps[0]|] && other[0] == o[from..from + |other[0]|];
    if |gaps| > 1 {
      assert WithBackticks(gaps, first)[1..] == WithBackticks(gaps[1..], false);
      assert WithBackticks(other, first)[1..] == WithBackticks(other[1..], false);
      BackticksInjective(gaps[1..], other[1..], false);
    }
    assert gaps == [gaps[0]] + gaps[1..] && other == [other[0]] + other[1..];
  }

  predicate AbsentFrom(gaps: seq<seq<string>>, line: string) {
    forall i | 0 <= i < |gaps| :: line !in gaps[i]
  }

  lemma {:induction false} BackticksFresh(gaps: seq<seq<string>>, line: string, first: bool)
    requires |gaps| > 0 && line != FENCE && forall i | 0 <= i < |gaps| :: line !in gaps[i]
    ensures forall i | 0 <= i < |gaps| :: line !in WithBackticks(gaps, first)[i]
  {
    if |gaps| > 1 {
      BackticksFresh(gaps[1..], line, false);
    }
  }

  lemma BackticksBorderFree(gaps: seq<seq<string>>, line: string)
    requires |gaps| > 0 && line != FENCE && AbsentFrom(gaps, line)
    ensures BordersFree(WithBackticks(gaps, true), Repeat(line, |gaps| - 1))
  {
    BackticksFresh(gaps, line, true);
  }

  lemma FreshLinesTellCutsApart(confirmed: Doc, other: seq<seq<string>>, line: string)
    requires Placed(confirmed) && Clean(confirmed) && CleanLine(line) && confirmed.fences != [] && line != FENCE
    requires |other| == |confirmed.fences| + 1 && other != Gaps(confirmed) && CleanGaps(other)
    requires line !in Masked(Gaps(confirmed), Placeholders(0, |confirmed.fences|))
    ensures Unlines(Weave(Gaps(confirmed), FenceBlocks(line, |confirmed.fences|)))
            != Unlines(LinesOf(SameFenceDoc(other, line).markdown))
  {
    var n := |confirmed.fences|;
    var gaps, blocks := Gaps(confirmed), FenceBlocks(line, n);
    SameMaskIsClean(confirmed, gaps);
    GapsAreFresh(gaps, Placeholders(0, n), line);
    SameFenceReads(gaps, line);
    SameFenceReads(other, line);
    LinesOfAreLines(SameFenceDoc(gaps, line).markdown);
    LinesOfAreLines(SameFenceDoc(other, line).markdown);
    if Unlines(Weave(gaps, blocks)) == Unlines(LinesOf(SameFenceDoc(other, line).markdown)) {
      UnlinesInjective(Weave(gaps, blocks), Weave(other, blocks));
      SameWeaveSameGaps(gaps, other, line, n);
    }
  }

  lemma GapsAreFresh(gaps: seq<seq<string>>, marks: seq<string>, line: string)
    requires |gaps| == |marks| + 1 && line !in Masked(gaps, marks)
    ensures AbsentFrom(gaps, line)
  {
    forall i | 0 <= i < |gaps|
      ensures line !in gaps[i]
    {
      if line in gaps[i] {
        GapElementsAreWoven(gaps, Marks(marks), i, line);
      }
    }
  }

  lemma SameWeaveSameGaps(gaps: seq<seq<string>>, other: seq<seq<string>>, line: string, n: nat)
    requires |gaps| == |other| == n + 1 && line != FENCE && AbsentFrom(gaps, line)
    requires Weave(gaps, FenceBlocks(line, n)) == Weave(other, FenceBlocks(line, n))
    ensures gaps == other
  {
    BackticksMask(gaps, line, n);
    BackticksMask(other, line, n);
    BackticksBorderFree(gaps, line);
    SameMaskSameGaps(gaps, other, Repeat(line, n));
  }

  lemma SameMaskSameGaps(gaps: seq<seq<string>>, other: seq<seq<string>>, marks: seq<string>)
    requires |gaps| == |other| == |marks| + 1 && BordersFree(WithBackticks(gaps, true), marks)
    requires Masked(WithBackticks(gaps, true), marks) == Masked(WithBackticks(other, true), marks)
    ensures gaps == other
  {
    CutIsUnique(WithBackticks(gaps, true), WithBackticks(other, true), marks);
    BackticksInjective(gaps, other, true);
  }

  lemma BackticksMask(gaps: seq<seq<string>>, line: string, n: nat)
    requires |gaps| == n + 1
    ensures Masked(WithBackticks(gaps, true), Repeat(line, n)) == Weave(gaps, FenceBlocks(line, n))
  {
    BackticksWeave(gaps, line, true);
    NothingInFront(Weave(gaps, FenceBlocks(line, n)));
  }

  lemma NothingInFront(a: seq<string>)
    ensures [] + a == a
  {
  }

  /**
   The exact condition: self-updates always reproduce the current text iff the confirmed one is placeholder-free,
   also if only current texts with backtick fences count.
   */
  lemma SelfUpdateLawIff(confirmed: Doc)
    requires Placed(confirmed) && Clean(confirmed) && confirmed.fences != []
    ensures PlaceholderFree(confirmed)
            <==> forall current: Doc | Updatable(confirmed, current) :: Reproduced(confirmed, current)
    ensures PlaceholderFree(confirmed)
            <==> forall current: Doc | Updatable(confirmed, current) && BacktickFences(current) ::
              Reproduced(confirmed, current)
  {
    if PlaceholderFree(confirmed) {
      forall current: Doc | Updatable(confirmed, current)
        ensures Reproduced(confirmed, current)
      {
        SelfUpdateIsCurrent(confirmed, current);
      }
    } else {
      var current := SomeCurrentFoolsTheTest(confirmed);
      assert Updatable(confirmed, current) && !Reproduced(confirmed, current);
    }
  }

  predicate Updatable(confirmed: Doc, current: Doc)
    requires Placed(confirmed)
  {
    Placed(current) && Clean(current) && ComputeMechanicalUpdate(confirmed, current, confirmed).Some?
  }

  predicate Reproduced(confirmed: Doc, current: Doc)
    requires Placed(confirmed) && Updatable(confirmed, current)
  {
    ComputeMechanicalUpdate(confirmed, current, confirmed).value == Unlines(LinesOf(current.markdown))
  }

  // ----- when there is an update at all

  lemma SameFencesIff(a: Doc, b: Doc)
    requires Placed(a) && Placed(b) && |a.fences| == |b.fences|
    ensures SameFences(a, b) <==> Blocks(a) == Blocks(b)
  {
    if SameFences(a, b) {
      forall i | 0 <= i < |a.fences|
        ensures Blocks(a)[i] == Blocks(b)[i]
      {
        assert FenceText(a, i) == FenceText(b, i);
        FenceTextDecides(a, b, i);
      }
    }
  }

  lemma MaskAgreesIff(confirmed: Doc, current: Doc)
    requires Placed(confirmed) && Placed(current) && |confirmed.fences| == |current.fences| && confirmed.fences != []
    requires PlaceholderFree(confirmed)
    ensures MaskText(confirmed) == MaskText(current) <==> Gaps(confirmed) == Gaps(current)
  {
    if MaskText(confirmed) == MaskText(current) {
      MaskTestIsSound(confirmed, current);
    }
    MaskTextIs(confirmed);
    MaskTextIs(current);
  }

  lemma NothingChangedIff(confirmed: Doc, current: Doc)
    requires Placed(confirmed) && Placed(current) && |confirmed.fences| == |current.fences|
    ensures ChangedFences(confirmed, current) == map[] <==> SameFences(confirmed, current)
  {
    var changed := ChangedFences(confirmed, current);
    if !SameFences(confirmed, current) {
      var k: nat :| k < |current.fences| && FenceText(current, k) != FenceText(confirmed, k);
      assert k in changed;
    } else {
      assert forall k :: k !in changed;
    }
  }

  /**
   There is a computed update exactly when nothing but fences changed and the counterpart still has the
   confirmed ones.
   */
  lemma UpdateExistsIff(confirmed: Doc, current: Doc, counterpart: Doc)
    requires Placed(confirmed) && Placed(current) && Placed(counterpart) && PlaceholderFree(confirmed)
    ensures ComputeMechanicalUpdate(confirmed, current, counterpart).Some?
            <==> && confirmed.fences != []
                 && Gaps(confirmed) == Gaps(current)
                 && Blocks(confirmed) == Blocks(counterpart)
                 && Blocks(confirmed) != Blocks(current)
  {
    if confirmed.fences != [] && |confirmed.fences| == |current.fences| == |counterpart.fences| {
      MaskAgreesIff(confirmed, current);
      SameFencesIff(confirmed, counterpart);
      SameFencesIff(confirmed, current);
      NothingChangedIff(confirmed, current);
    } else if |confirmed.fences| != |current.fences| {
      assert |Gaps(confirmed)| != |Gaps(current)|;
    } else {
      assert |Blocks(confirmed)| == |confirmed.fences| && |Blocks(counterpart)| == |counterpart.fences|;
    }
  }
}
