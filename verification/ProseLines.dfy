/**
 The prose lines of a document, against its source text: outside code blocks a line is
 dropped exactly when it meets a comment and shows nothing outside comments.
 */
module ProseLines {
  import opened Wrappers
  import opened Text
  import opened CommentLines

  // ----- where the lines stand in the source

  function Offset(lines: seq<string>, i: nat): nat
    requires i <= |lines|
  {
    if i == 0 then 0 else Offset(lines, i - 1) + |lines[i - 1]| + 1
  }

  function PlaceOf(lines: seq<string>, i: nat): Place
    requires i < |lines|
  {
    Place(Offset(lines, i), |lines[i]|)
  }

  lemma {:induction false} OffsetTail(lines: seq<string>, i: nat)
    requires 0 < i <= |lines|
    ensures Offset(lines, i) == |lines[0]| + 1 + Offset(lines[1..], i - 1)
  {
    if i > 1 {
      OffsetTail(lines, i - 1);
    }
  }

  lemma {:induction false} LineInJoin(lines: seq<string>, i: nat)
    requires i < |lines|
    ensures var at := PlaceOf(lines, i); var s := Join(lines, '\n');
            at.offset + at.length <= |s| && s[at.offset..at.offset + at.length] == lines[i]
  {
    if |lines| > 1 {
      var rest := Join(lines[1..], '\n');
      var head := lines[0] + ['\n'];
      assert Join(lines, '\n') == head + rest;
      if i > 0 {
        LineInJoin(lines[1..], i - 1);
        OffsetTail(lines, i);
        var at := PlaceOf(lines[1..], i - 1);
        SliceShifts(head, rest, at.offset, at.offset + at.length);
      }
    }
  }

  lemma SliceShifts(a: string, b: string, from: nat, to: nat)
    requires from <= to <= |b|
    ensures (a + b)[|a| + from..|a| + to] == b[from..to]
  {
  }

  /** The i-th line is the piece of the source at its place. */
  lemma LineInSource(source: string, i: nat)
    requires i < |Split(source, '\n')|
    ensures var at := PlaceOf(Split(source, '\n'), i);
            at.offset + at.length <= |source| && source[at.offset..at.offset + at.length] == Split(source, '\n')[i]
  {
    JoinSplit(source, '\n');
    LineInJoin(Split(source, '\n'), i);
  }

  // ----- the specification

  ghost predicate InCodeBlock(blocks: seq<CodeBlock>, line: nat) {
    exists k :: 0 <= k < |blocks| && blocks[k].startLine <= line <= blocks[k].endLine
  }

  /** It meets a comment, and all its characters that are in no comment are whitespace. */
  ghost predicate HiddenByComments(source: string, comments: seq<Range>, at: Place) {
    && MeetsComment(at, comments)
    && forall p | at.offset <= p < at.offset + at.length && p < |source| && !Inside(comments, p) :: IsSpace(source[p])
  }

  ghost predicate IsProse(source: string, nodes: seq<HtmlNode>, blocks: seq<CodeBlock>, i: nat)
    requires i < |Split(source, '\n')|
  {
    !InCodeBlock(blocks, i + 1) && !HiddenByComments(source, Comments(nodes), PlaceOf(Split(source, '\n'), i))
  }

  ghost function ProseUpTo(source: string, nodes: seq<HtmlNode>, blocks: seq<CodeBlock>, n: nat): seq<ProseLine>
    requires n <= |Split(source, '\n')|
  {
    if n == 0 then []
    else
      ProseUpTo(source, nodes, blocks, n - 1)
      + if IsProse(source, nodes, blocks, n - 1) then [ProseLine(n, Split(source, '\n')[n - 1])] else []
  }

  // ----- `htmlCommentRanges`

  /** The map holds the ranges of the lines before `n` that have any. */
  ghost predicate Collected(lines: seq<string>, comments: seq<Range>, ranges: map<nat, seq<Range>>, n: nat) {
    && n <= |lines|
    && (forall i | 0 <= i < n :: RangesAt(ranges, i + 1) == LineRanges(PlaceOf(lines, i), comments))
    && (forall k | k in ranges :: 1 <= k <= n && ranges[k] != [])
  }

  function RangesAt(ranges: map<nat, seq<Range>>, line: nat): seq<Range> {
    if line in ranges then ranges[line] else []
  }

  /** Only this line's entry may have changed, and it holds the ranges of the comments so far. */
  ghost predicate LineDone(before: map<nat, seq<Range>>, ranges: map<nat, seq<Range>>, line: nat, done: seq<Range>) {
    && (forall k | k in before :: k in ranges && (k != line ==> ranges[k] == before[k]))
    && (forall k | k in ranges :: ranges[k] != [] && (k in before || k == line))
    && RangesAt(ranges, line) == done
  }

  lemma CollectedNext(lines: seq<string>, comments: seq<Range>, before: map<nat, seq<Range>>, ranges: map<nat,
                      seq<Range>>, n: nat)
    requires n < |lines| && Collected(lines, comments, before, n)
    requires LineDone(before, ranges, n + 1, LineRanges(PlaceOf(lines, n), comments))
    ensures Collected(lines, comments, ranges, n + 1)
  {
  }

  method CollectLine(comments: seq<Range>, at: Place, line: nat, before: map<nat, seq<Range>>)
      returns (ranges: map<nat, seq<Range>>)
    requires line !in before && forall k | k in before :: before[k] != []
    ensures LineDone(before, ranges, line, LineRanges(at, comments))
  {
    ranges := before;
    var lineEnd := at.offset + at.length;
    for c := 0 to |comments|
      invariant LineDone(before, ranges, line, LineRanges(at, comments[..c]))
    {
      assert comments[..c + 1][..c] == comments[..c] && comments[..c + 1][c] == comments[c];
      var from := Max(comments[c].start, at.offset);
      var to := Min(comments[c].end, lineEnd);
      var coversEmptyLine := at.length == 0 && comments[c].start <= at.offset && comments[c].end > at.offset;
      if from < to || coversEmptyLine {
        ranges := ranges[line := RangesAt(ranges, line) + [Range(from - at.offset, to - at.offset)]];
      }
    }
    assert comments[..|comments|] == comments;
  }

  method HtmlCommentRanges(lines: seq<string>, nodes: seq<HtmlNode>) returns (ranges: map<nat, seq<Range>>)
    ensures Collected(lines, Comments(nodes), ranges, |lines|)
  {
    var comments := FindComments(nodes);
    ranges := map[];
    var lineOffset := 0;
    for index := 0 to |lines|
      invariant lineOffset == Offset(lines, index)
      invariant Collected(lines, comments, ranges, index)
    {
      var next := CollectLine(comments, Place(lineOffset, |lines[index]|), index + 1, ranges);
      CollectedNext(lines, comments, ranges, next, index);
      ranges := next;
      lineOffset := lineOffset + |lines[index]| + 1;
    }
  }

  // ----- `markdownProseLines`

  /** The column arithmetic of one line agrees with the characters of the source. */
  lemma HiddenIff(source: string, comments: seq<Range>, i: nat)
    requires i < |Split(source, '\n')|
    ensures var raw, at := Split(source, '\n')[i], PlaceOf(Split(source, '\n'), i);
            var ranges := LineRanges(at, comments);
            HiddenByComments(source, comments, at) <==> ranges != [] && !ShowsBefore(raw, ranges, |raw|)
  {
    var raw, at := Split(source, '\n')[i], PlaceOf(Split(source, '\n'), i);
    LineRangesIff(at, comments);
    LineInSource(source, i);
    forall j: nat | j < |raw|
      ensures raw[j] == source[at.offset + j]
      ensures Inside(LineRanges(at, comments), j) <==> Inside(comments, at.offset + j)
    {
      assert source[at.offset..at.offset + at.length][j] == source[at.offset + j];
      ColumnsAreOffsets(at, comments, j);
    }
    ShownCharacter(source, comments, at, raw);
  }

  lemma ShownCharacter(source: string, comments: seq<Range>, at: Place, raw: string)
    requires at.length == |raw| && at.offset + at.length <= |source|
    requires forall j: nat | j < |raw| :: raw[j] == source[at.offset + j]
                                          && (Inside(LineRanges(at, comments), j) <==> Inside(comments, at.offset + j))
    ensures ShowsBefore(raw, LineRanges(at, comments), |raw|)
            <==> exists p ::
              at.offset <= p < at.offset + at.length && p < |source| && !Inside(comments, p) && !IsSpace(source[p])
  {
    if p :| at.offset <= p < at.offset + at.length && p < |source| && !Inside(comments, p) && !IsSpace(source[p]) {
      var j: nat := p - at.offset;
      assert raw[j] == source[at.offset + j];
    }
    if ShowsBefore(raw, LineRanges(at, comments), |raw|) {
      var j: nat :| j < |raw| && !IsSpace(raw[j]) && !Inside(LineRanges(at, comments), j);
      var p := at.offset + j;
      assert raw[j] == source[p] && !Inside(comments, p);
    }
  }

  method FencedLines(blocks: seq<CodeBlock>) returns (fenced: set<nat>)
    ensures forall line: nat :: line in fenced <==> InCodeBlock(blocks, line)
  {
    fenced := {};
    for k := 0 to |blocks|
      invariant forall line: nat :: line in fenced <==> InCodeBlock(blocks[..k], line)
    {
      ghost var before := fenced;
      var line := blocks[k].startLine;
      while line <= blocks[k].endLine
        invariant blocks[k].startLine <= line
        invariant forall l: nat ::
                    l in fenced <==> l in before || (blocks[k].startLine <= l < line && l <= blocks[k].endLine)
      {
        fenced := fenced + {line};
        line := line + 1;
      }
      forall l: nat
        ensures l in fenced <==> InCodeBlock(blocks[..k + 1], l)
      {
        OneMoreBlock(blocks, k, l);
      }
    }
    assert blocks[..|blocks|] == blocks;
  }

  lemma OneMoreBlock(blocks: seq<CodeBlock>, k: nat, line: nat)
    requires k < |blocks|
    ensures InCodeBlock(blocks[..k + 1], line)
            <==> InCodeBlock(blocks[..k], line) || blocks[k].startLine <= line <= blocks[k].endLine
  {
    if InCodeBlock(blocks[..k + 1], line) {
      var j :| 0 <= j < k + 1 && blocks[..k + 1][j].startLine <= line <= blocks[..k + 1][j].endLine;
      assert j < k ==> blocks[..k][j] == blocks[j];
    }
    if InCodeBlock(blocks[..k], line) {
      var j :| 0 <= j < k && blocks[..k][j].startLine <= line <= blocks[..k][j].endLine;
      assert blocks[..k + 1][j] == blocks[j];
    }
    if blocks[k].startLine <= line <= blocks[k].endLine {
      assert blocks[..k + 1][k] == blocks[k];
    }
  }

  /** What the map says about a line decides whether it shows. */
  lemma VisibleIff(source: string, nodes: seq<HtmlNode>, blocks: seq<CodeBlock>, ranges: map<nat, seq<Range>>, i: nat)
    requires i < |Split(source, '\n')| && Collected(Split(source, '\n'), Comments(nodes), ranges, |Split(source, '\n')|)
    ensures i + 1 in ranges ==> InLine(|Split(source, '\n')[i]|, ranges[i + 1])
    ensures IsProse(source, nodes, blocks, i)
            <==> !InCodeBlock(blocks, i + 1)
                 && (i + 1 in ranges ==> ShowsBefore(Split(source, '\n')[i], ranges[i + 1], |Split(source, '\n')[i]|))
  {
    HiddenIff(source, Comments(nodes), i);
    LineRangesIff(PlaceOf(Split(source, '\n'), i), Comments(nodes));
    assert RangesAt(ranges, i + 1) == LineRanges(PlaceOf(Split(source, '\n'), i), Comments(nodes));
  }

  /** Keeps, in order and with its number, every line that is in no code block and not hidden by comments. */
  method MarkdownProseLines(source: string, nodes: seq<HtmlNode>, blocks: seq<CodeBlock>) returns (kept: seq<ProseLine>)
    ensures kept == ProseUpTo(source, nodes, blocks, |Split(source, '\n')|)
  {
    var lines := Split(source, '\n');
    var comments := HtmlCommentRanges(lines, nodes);
    var fenced := FencedLines(blocks);
    kept := [];
    for i := 0 to |lines|
      invariant kept == ProseUpTo(source, nodes, blocks, i)
    {
      VisibleIff(source, nodes, blocks, comments, i);
      if i + 1 !in fenced {
        var visible := HasRenderedTextOutsideComments(lines[i], if i + 1 in comments then Some(comments[i + 1])
          else None);
        if visible {
          kept := kept + [ProseLine(i + 1, lines[i])];
        }
      }
    }
  }

  /** The result holds a line, with its number, exactly when it is prose. */
  lemma {:induction false} KeptIffProse(source: string, nodes: seq<HtmlNode>, blocks: seq<CodeBlock>, n: nat,
                                        line: ProseLine)
    requires n <= |Split(source, '\n')|
    ensures line in ProseUpTo(source, nodes, blocks, n)
            <==> && 1 <= line.index <= n && line.raw == Split(source, '\n')[line.index - 1]
                 && IsProse(source, nodes, blocks, line.index - 1)
  {
    if n > 0 {
      KeptIffProse(source, nodes, blocks, n - 1, line);
      var last := if IsProse(source, nodes, blocks, n - 1) then [ProseLine(n, Split(source, '\n')[n - 1])] else [];
      InAppend(ProseUpTo(source, nodes, blocks, n - 1), last, line);
      if line.index == n && line.raw == Split(source, '\n')[n - 1] {
        assert line == ProseLine(n, Split(source, '\n')[n - 1]);
      }
    }
  }

  lemma InAppend(a: seq<ProseLine>, b: seq<ProseLine>, x: ProseLine)
    ensures x in a + b <==> x in a || x in b
  {
  }
}
