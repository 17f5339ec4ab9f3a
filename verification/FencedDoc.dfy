/**
 A Markdown document with the line ranges its parser reports for the code fences, cut
 into the prose between the fences and the fences themselves.
 */
module FencedDoc {
  import opened Lines
  import opened Weaving

  /** 1-based, inclusive. */
  datatype Span = Span(startLine: nat, endLine: nat)

  datatype Doc = Doc(markdown: string, fences: seq<Span>)

  /** Spans in document order, disjoint, non-empty and inside the lines after the first `from`. */
  predicate PlacedFrom(lines: seq<string>, spans: seq<Span>, from: nat) {
    if spans == [] then from <= |lines|
    else from < spans[0].startLine <= spans[0].endLine <= |lines| && PlacedFrom(lines, spans[1..], spans[0].endLine)
  }

  predicate Placed(doc: Doc) {
    PlacedFrom(LinesOf(doc.markdown), doc.fences, 0)
  }

  function GapsFrom(lines: seq<string>, spans: seq<Span>, from: nat): (gaps: seq<seq<string>>)
    requires PlacedFrom(lines, spans, from)
    ensures |gaps| == |spans| + 1
  {
    PlacedInside(lines, spans, from);
    if spans == [] then [lines[from..]]
    else [lines[from..spans[0].startLine - 1]] + GapsFrom(lines, spans[1..], spans[0].endLine)
  }

  function BlocksFrom(lines: seq<string>, spans: seq<Span>, from: nat): (blocks: seq<seq<string>>)
    requires PlacedFrom(lines, spans, from)
    ensures |blocks| == |spans|
  {
    if spans == [] then []
    else [lines[spans[0].startLine - 1..spans[0].endLine]] + BlocksFrom(lines, spans[1..], spans[0].endLine)
  }

  lemma {:induction false} PlacedInside(lines: seq<string>, spans: seq<Span>, from: nat)
    requires PlacedFrom(lines, spans, from)
    ensures from <= |lines|
  {
  }

  /** The prose of a document, fence by fence. */
  function Gaps(doc: Doc): (gaps: seq<seq<string>>)
    requires Placed(doc)
    ensures |gaps| == |doc.fences| + 1
  {
    GapsFrom(LinesOf(doc.markdown), doc.fences, 0)
  }

  function Blocks(doc: Doc): (blocks: seq<seq<string>>)
    requires Placed(doc)
    ensures |blocks| == |doc.fences|
  {
    BlocksFrom(LinesOf(doc.markdown), doc.fences, 0)
  }

  /** Cutting loses nothing. */
  lemma {:induction false} CutWeavesBackFrom(lines: seq<string>, spans: seq<Span>, from: nat)
    requires PlacedFrom(lines, spans, from)
    ensures Weave(GapsFrom(lines, spans, from), BlocksFrom(lines, spans, from)) == lines[from..]
  {
    if spans != [] {
      CutWeavesBackFrom(lines, spans[1..], spans[0].endLine);
      PlacedInside(lines, spans[1..], spans[0].endLine);
      var s, e := spans[0].startLine - 1, spans[0].endLine;
      assert GapsFrom(lines, spans, from)[1..] == GapsFrom(lines, spans[1..], e);
      assert BlocksFrom(lines, spans, from)[1..] == BlocksFrom(lines, spans[1..], e);
      ThreePieces(lines, from, s, e);
    }
  }

  lemma ThreePieces(lines: seq<string>, from: nat, s: nat, e: nat)
    requires from <= s <= e <= |lines|
    ensures lines[from..] == lines[from..s] + lines[s..e] + lines[e..]
  {
  }

  lemma CutWeavesBack(doc: Doc)
    requires Placed(doc)
    ensures Weave(Gaps(doc), Blocks(doc)) == LinesOf(doc.markdown)
  {
    CutWeavesBackFrom(LinesOf(doc.markdown), doc.fences, 0);
  }

  // ----- the other way: any gaps and non-empty blocks are the cut of some document

  function SpansFor(gaps: seq<seq<string>>, blocks: seq<seq<string>>, from: nat): seq<Span>
    requires |gaps| == |blocks| + 1
  {
    if blocks == [] then []
    else
      var start := from + |gaps[0]| + 1;
      [Span(start, start - 1 + |blocks[0]|)] + SpansFor(gaps[1..], blocks[1..], start - 1 + |blocks[0]|)
  }

  lemma {:induction false} CutOfWeave(head: seq<string>, gaps: seq<seq<string>>, blocks: seq<seq<string>>)
    requires |gaps| == |blocks| + 1 && forall i | 0 <= i < |blocks| :: blocks[i] != []
    ensures PlacedFrom(head + Weave(gaps, blocks), SpansFor(gaps, blocks, |head|), |head|)
    ensures GapsFrom(head + Weave(gaps, blocks), SpansFor(gaps, blocks, |head|), |head|) == gaps
    ensures BlocksFrom(head + Weave(gaps, blocks), SpansFor(gaps, blocks, |head|), |head|) == blocks
    decreases |blocks|
  {
    var lines, spans := head + Weave(gaps, blocks), SpansFor(gaps, blocks, |head|);
    if blocks == [] {
      assert lines[|head|..] == gaps[0] && gaps == [gaps[0]];
    } else {
      var head' := head + gaps[0] + blocks[0];
      assert lines == head' + Weave(gaps[1..], blocks[1..]);
      assert blocks[0] != [];
      CutOfWeave(head', gaps[1..], blocks[1..]);
      assert spans[1..] == SpansFor(gaps[1..], blocks[1..], |head'|);
      assert lines[|head|..|head| + |gaps[0]|] == gaps[0];
      assert lines[|head| + |gaps[0]|..|head'|] == blocks[0];
      assert gaps == [gaps[0]] + gaps[1..] && blocks == [blocks[0]] + blocks[1..];
    }
  }
}
