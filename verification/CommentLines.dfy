/**
 Which source lines of a Markdown document are prose: the column arithmetic over comment
 ranges, against a specification character by character. The parser's HTML nodes and code
 blocks are input.
 */
module CommentLines {
  import opened Wrappers
  import opened Text
  import Sorting

  /** `start` inclusive, `end` exclusive: offsets in the source, or columns in a line. */
  datatype Range = Range(start: nat, end: nat)

  datatype HtmlNode = HtmlNode(offset: nat, value: string)

  /** 1-based source lines, inclusive. */
  datatype CodeBlock = CodeBlock(startLine: nat, endLine: nat)

  datatype ProseLine = ProseLine(index: nat, raw: string)

  // ----- scanning one HTML node for comments

  const OPEN := "<!--"
  const CLOSE := "-->"

  predicate OccursAt(s: string, pattern: string, i: nat) {
    i + |pattern| <= |s| && s[i..i + |pattern|] == pattern
  }

  /** JavaScript `indexOf` with a start position. */
  function IndexOf(s: string, pattern: string, from: nat): Option<nat>
    decreases |s| - from
  {
    if from + |pattern| > |s| then None
    else if OccursAt(s, pattern, from) then Some(from)
    else if from == |s| then None
    else IndexOf(s, pattern, from + 1)
  }

  lemma {:induction false} IndexOfIsFirst(s: string, pattern: string, from: nat)
    ensures var i := IndexOf(s, pattern, from);
            && (i.Some? ==> from <= i.value && OccursAt(s, pattern, i.value))
            && forall j: nat | from <= j && (i.Some? ==> j < i.value) :: !OccursAt(s, pattern, j)
    decreases |s| - from
  {
    if from + |pattern| <= |s| && !OccursAt(s, pattern, from) && from != |s| {
      IndexOfIsFirst(s, pattern, from + 1);
    }
  }

  /** The delimiters, character by character. */
  lemma Delimiters(s: string, i: nat)
    ensures OccursAt(s, OPEN, i)
            <==> i + 4 <= |s| && s[i] == '<' && s[i + 1] == '!' && s[i + 2] == '-' && s[i + 3] == '-'
    ensures OccursAt(s, CLOSE, i) <==> i + 3 <= |s| && s[i] == '-' && s[i + 1] == '-' && s[i + 2] == '>'
  {
    if i + 4 <= |s| {
      var t := s[i..i + 4];
      assert t[0] == s[i] && t[1] == s[i + 1] && t[2] == s[i + 2] && t[3] == s[i + 3];
      assert t == "<!--" <==> t[0] == '<' && t[1] == '!' && t[2] == '-' && t[3] == '-';
    }
    if i + 3 <= |s| {
      var t := s[i..i + 3];
      assert t[0] == s[i] && t[1] == s[i + 1] && t[2] == s[i + 2];
      assert t == "-->" <==> t[0] == '-' && t[1] == '-' && t[2] == '>';
    }
  }

  predicate OpensAt(value: string, i: nat) {
    OccursAt(value, OPEN, i)
  }

  /** Where the comment opened at `start` ends. */
  function CommentEnd(value: string, start: nat): (end: nat)
    requires OpensAt(value, start)
    ensures start < end <= |value|
  {
    IndexOfIsFirst(value, CLOSE, start + |OPEN|);
    var close := IndexOf(value, CLOSE, start + |OPEN|);
    if close.None? then |value| else close.value + |CLOSE|
  }

  /** The first comment that opens at `cursor` or later. */
  function NextComment(value: string, cursor: nat): (found: Option<Range>)
    requires cursor <= |value|
    ensures found.Some? ==> cursor <= found.value.start < found.value.end <= |value|
  {
    IndexOfIsFirst(value, OPEN, cursor);
    var start := IndexOf(value, OPEN, cursor);
    if start.None? then None else Some(Range(start.value, CommentEnd(value, start.value)))
  }

  /** The comments of one node's value from `cursor` on, as offsets from `base`. */
  function CommentsFrom(value: string, base: nat, cursor: nat): seq<Range>
    requires cursor <= |value|
    decreases |value| - cursor
  {
    var found := NextComment(value, cursor);
    if found.None? then []
    else [Range(base + found.value.start, base + found.value.end)] + CommentsFrom(value, base, found.value.end)
  }

  ghost predicate Inside(ranges: seq<Range>, p: int) {
    exists k :: 0 <= k < |ranges| && ranges[k].start <= p < ranges[k].end
  }

  /** A comment: opens, closes at the first close after its opening or runs to the end. */
  ghost predicate IsComment(value: string, base: nat, r: Range) {
    && base <= r.start && OpensAt(value, r.start - base) && r.end == base + CommentEnd(value, r.start - base)
  }

  lemma InsideCons(r: Range, rest: seq<Range>, p: int)
    ensures Inside([r] + rest, p) <==> r.start <= p < r.end || Inside(rest, p)
  {
    var all := [r] + rest;
    if r.start <= p < r.end {
      assert all[0] == r;
    }
    if Inside(rest, p) {
      var k :| 0 <= k < |rest| && rest[k].start <= p < rest[k].end;
      assert all[k + 1] == rest[k];
    }
  }

  lemma NextIsFirst(value: string, cursor: nat)
    requires cursor <= |value|
    ensures var found := NextComment(value, cursor);
            && (found.Some? ==>
                 OpensAt(value, found.value.start) && found.value.end == CommentEnd(value, found.value.start))
            && forall i: nat | cursor <= i && (found.Some? ==> i < found.value.start) :: !OpensAt(value, i)
  {
    IndexOfIsFirst(value, OPEN, cursor);
    var found := NextComment(value, cursor);
    forall i: nat | cursor <= i && (found.Some? ==> i < found.value.start)
      ensures !OpensAt(value, i)
    {
      assert OpensAt(value, i) <==> OccursAt(value, OPEN, i);
    }
  }

  /** Every range found is a comment. */
  lemma {:induction false} RangesAreComments(value: string, base: nat, cursor: nat)
    requires cursor <= |value|
    ensures forall r | r in CommentsFrom(value, base, cursor) :: IsComment(value, base, r) && base + cursor <= r.start
    decreases |value| - cursor
  {
    NextIsFirst(value, cursor);
    var found := NextComment(value, cursor);
    if found.Some? {
      RangesAreComments(value, base, found.value.end);
    }
  }

  /** Every comment opening lies inside a range found. */
  lemma {:induction false} OpeningsAreInside(value: string, base: nat, cursor: nat, i: nat)
    requires cursor <= i && OpensAt(value, i)
    ensures cursor <= |value| && Inside(CommentsFrom(value, base, cursor), base + i)
    decreases |value| - cursor
  {
    NextIsFirst(value, cursor);
    var found := NextComment(value, cursor);
    if found.Some? {
      var rest := CommentsFrom(value, base, found.value.end);
      if i >= found.value.end {
        OpeningsAreInside(value, base, found.value.end, i);
      }
      InsideCons(Range(base + found.value.start, base + found.value.end), rest, base + i);
    }
  }

  function Comments(nodes: seq<HtmlNode>): seq<Range> {
    if nodes == [] then []
    else Comments(nodes[..|nodes| - 1]) + CommentsFrom(nodes[|nodes| - 1].value, nodes[|nodes| - 1].offset, 0)
  }

  method ScanNode(node: HtmlNode, before: seq<Range>) returns (comments: seq<Range>)
    ensures comments == before + CommentsFrom(node.value, node.offset, 0)
  {
    comments := before;
    var cursor := 0;
    var found := NextComment(node.value, cursor);
    while found.Some?
      invariant 0 <= cursor <= |node.value| && found == NextComment(node.value, cursor)
      invariant comments + CommentsFrom(node.value, node.offset, cursor)
                == before + CommentsFrom(node.value, node.offset, 0)
      decreases |node.value| - cursor
    {
      var comment := Range(node.offset + found.value.start, node.offset + found.value.end);
      NextThenRest(node.value, node.offset, cursor, comments);
      comments := comments + [comment];
      cursor := found.value.end;
      found := NextComment(node.value, cursor);
    }
    assert CommentsFrom(node.value, node.offset, cursor) == [];
  }

  lemma NextThenRest(value: string, base: nat, cursor: nat, before: seq<Range>)
    requires cursor <= |value| && NextComment(value, cursor).Some?
    ensures var found := NextComment(value, cursor).value;
            before + CommentsFrom(value, base, cursor)
            == (before + [Range(base + found.start, base + found.end)]) + CommentsFrom(value, base, found.end)
  {
    var found := NextComment(value, cursor).value;
    AppendOne(before, Range(base + found.start, base + found.end), CommentsFrom(value, base, found.end));
  }

  /** The scan of `htmlCommentRanges`. */
  method FindComments(nodes: seq<HtmlNode>) returns (comments: seq<Range>)
    ensures comments == Comments(nodes)
  {
    comments := [];
    for i := 0 to |nodes|
      invariant comments == Comments(nodes[..i])
    {
      assert nodes[..i + 1][..i] == nodes[..i] && nodes[..i + 1][i] == nodes[i];
      comments := ScanNode(nodes[i], comments);
    }
    assert nodes[..|nodes|] == nodes;
  }

  lemma AppendOne<T>(a: seq<T>, x: T, b: seq<T>)
    ensures a + ([x] + b) == (a + [x]) + b
  {
  }

  // ----- one line's column ranges

  /** A line by its first offset and its length. */
  datatype Place = Place(offset: nat, length: nat)

  predicate Meets(at: Place, r: Range) {
    Max(r.start, at.offset) < Min(r.end, at.offset + at.length)
    || (at.length == 0 && r.start <= at.offset && r.end > at.offset)
  }

  function Max(a: nat, b: nat): nat {
    if a < b then b else a
  }

  function Min(a: nat, b: nat): nat {
    if a < b then a else b
  }

  function Columns(at: Place, r: Range): Range
    requires Meets(at, r)
  {
    Range(Max(r.start, at.offset) - at.offset, Min(r.end, at.offset + at.length) - at.offset)
  }

  function LineRanges(at: Place, comments: seq<Range>): seq<Range> {
    if comments == [] then []
    else
      var last := comments[|comments| - 1];
      LineRanges(at, comments[..|comments| - 1]) + if Meets(at, last) then [Columns(at, last)] else []
  }

  predicate InLine(length: nat, ranges: seq<Range>) {
    forall k | 0 <= k < |ranges| :: ranges[k].start <= ranges[k].end <= length
  }

  lemma InsideSnoc(rest: seq<Range>, r: Range, p: int)
    ensures Inside(rest + [r], p) <==> r.start <= p < r.end || Inside(rest, p)
  {
    var all := rest + [r];
    if r.start <= p < r.end {
      assert all[|rest|] == r;
    }
    if Inside(rest, p) {
      var k :| 0 <= k < |rest| && rest[k].start <= p < rest[k].end;
      assert all[k] == rest[k];
    }
  }

  /** A column is in some range of its line exactly when its source offset is in some comment. */
  lemma {:induction false} ColumnsAreOffsets(at: Place, comments: seq<Range>, column: nat)
    requires column < at.length
    ensures Inside(LineRanges(at, comments), column) <==> Inside(comments, at.offset + column)
  {
    if comments != [] {
      var front, last := comments[..|comments| - 1], comments[|comments| - 1];
      ColumnsAreOffsets(at, front, column);
      assert comments == front + [last];
      InsideSnoc(front, last, at.offset + column);
      if Meets(at, last) {
        InsideSnoc(LineRanges(at, front), Columns(at, last), column);
      } else {
        assert LineRanges(at, comments) == LineRanges(at, front);
      }
    }
  }

  /** Some comment covers a character of the line, or, when it is empty, the place where it stands. */
  ghost predicate MeetsComment(at: Place, comments: seq<Range>) {
    exists p :: at.offset <= p < at.offset + Max(at.length, 1) && Inside(comments, p)
  }

  lemma {:induction false} LineRangesIff(at: Place, comments: seq<Range>)
    ensures LineRanges(at, comments) != [] <==> MeetsComment(at, comments)
    ensures InLine(at.length, LineRanges(at, comments))
  {
    if comments != [] {
      var front, last := comments[..|comments| - 1], comments[|comments| - 1];
      LineRangesIff(at, front);
      assert comments == front + [last];
      MeetsSnoc(at, front, last);
      if Meets(at, last) {
        ColumnsInLine(at, last);
      }
    }
  }

  /** The overlap of a comment with a line lies in the line. */
  lemma ColumnsInLine(at: Place, r: Range)
    requires Meets(at, r)
    ensures InLine(at.length, [Columns(at, r)])
  {
  }

  /** A line meets a comment at the later of their two starts. */
  lemma MeetsAt(at: Place, r: Range, p: int)
    requires Meets(at, r) && p == Max(r.start, at.offset)
    ensures at.offset <= p < at.offset + Max(at.length, 1) && r.start <= p < r.end
  {
  }

  lemma PointMeets(at: Place, r: Range, p: int)
    requires at.offset <= p < at.offset + Max(at.length, 1) && r.start <= p < r.end
    ensures Meets(at, r)
  {
  }

  lemma MeetsSnoc(at: Place, front: seq<Range>, last: Range)
    ensures MeetsComment(at, front + [last]) <==> Meets(at, last) || MeetsComment(at, front)
  {
    if Meets(at, last) {
      var p := Max(last.start, at.offset);
      MeetsAt(at, last, p);
      InsideSnoc(front, last, p);
      assert Inside(front + [last], p);
    }
    if MeetsComment(at, front) {
      var p :| at.offset <= p < at.offset + Max(at.length, 1) && Inside(front, p);
      InsideSnoc(front, last, p);
    }
    if MeetsComment(at, front + [last]) {
      var p :| at.offset <= p < at.offset + Max(at.length, 1) && Inside(front + [last], p);
      InsideSnoc(front, last, p);
      if last.start <= p < last.end {
        PointMeets(at, last, p);
      }
    }
  }

  // ----- `hasRenderedTextOutsideComments`

  /** The characters JavaScript's `trim` removes. */
  predicate IsSpace(c: char) {
    c in "\t\n\r \U{000B}\U{000C}\U{00A0}\U{FEFF}\U{1680}\U{2028}\U{2029}\U{202F}\U{205F}\U{3000}"
      || '\U{2000}' <= c <= '\U{200A}'
  }

  /** By code point: tab to carriage return, space, the no-break spaces, the separators and the space marks. */
  lemma SpacesAre(c: char)
    ensures IsSpace(c)
            <==> var n := c as int;
                 || 0x09 <= n <= 0x0D || n == 0x20 || n == 0xA0 || n == 0xFEFF || n == 0x1680 || 0x2000 <= n <= 0x200A
                 || n == 0x2028 || n == 0x2029 || n == 0x202F || n == 0x205F || n == 0x3000
  {
    SpaceList(c);
  }

  lemma SpaceList(c: char)
    ensures c in "\t\n\r \U{000B}\U{000C}\U{00A0}\U{FEFF}\U{1680}\U{2028}\U{2029}\U{202F}\U{205F}\U{3000}"
            <==> || c == '\t' || c == '\n' || c == '\r' || c == ' ' || c == '\U{000B}' || c == '\U{000C}'
                 || c == '\U{00A0}' || c == '\U{FEFF}' || c == '\U{1680}' || c == '\U{2028}' || c == '\U{2029}'
                 || c == '\U{202F}' || c == '\U{205F}' || c == '\U{3000}'
  {
    var s := "\t\n\r \U{000B}\U{000C}\U{00A0}\U{FEFF}\U{1680}\U{2028}\U{2029}\U{202F}\U{205F}\U{3000}";
    assert s[0] == '\t' && s[1] == '\n' && s[2] == '\r' && s[3] == ' ' && s[4] == '\U{000B}' && s[5] == '\U{000C}';
    assert s[6] == '\U{00A0}' && s[7] == '\U{FEFF}' && s[8] == '\U{1680}' && s[9] == '\U{2028}' && s[10] == '\U{2029}';
    assert s[11] == '\U{202F}' && s[12] == '\U{205F}' && s[13] == '\U{3000}' && |s| == 14;
  }

  /** Trimming leaves something. */
  predicate HasText(s: string) {
    exists i :: 0 <= i < |s| && !IsSpace(s[i])
  }

  /** The line shows a character before `end` that is in none of the ranges. */
  ghost predicate ShowsBefore(raw: string, ranges: seq<Range>, end: nat) {
    exists j :: 0 <= j < end && j < |raw| && !IsSpace(raw[j]) && !Inside(ranges, j)
  }

  /** JavaScript `slice`: empty when the end comes first. */
  function Slice(s: string, start: nat, end: nat): string
    requires start <= |s| && end <= |s|
  {
    if start <= end then s[start..end] else ""
  }

  lemma HasTextAppend(a: string, b: string)
    ensures HasText(a + b) <==> HasText(a) || HasText(b)
  {
    if HasText(a) {
      var i :| 0 <= i < |a| && !IsSpace(a[i]);
      assert (a + b)[i] == a[i];
    }
    if HasText(b) {
      var i :| 0 <= i < |b| && !IsSpace(b[i]);
      assert (a + b)[|a| + i] == b[i];
    }
  }

  lemma HasTextSlice(raw: string, start: nat, end: nat)
    requires start <= |raw| && end <= |raw|
    ensures HasText(Slice(raw, start, end)) <==> exists j :: start <= j < end && !IsSpace(raw[j])
  {
    var s := Slice(raw, start, end);
    if j :| start <= j < end && !IsSpace(raw[j]) {
      assert s[j - start] == raw[j];
    }
    if HasText(s) {
      var i :| 0 <= i < |s| && !IsSpace(s[i]);
      assert raw[start + i] == s[i];
    }
  }

  /** The ranges before the k-th end by the cursor. */
  ghost predicate Passed(ranges: seq<Range>, k: nat, cursor: nat) {
    k <= |ranges| && forall i | 0 <= i < k :: ranges[i].end <= cursor
  }

  ghost predicate ByStart(ranges: seq<Range>) {
    forall i, j | 0 <= i < j < |ranges| :: ranges[i].start <= ranges[j].start
  }

  /** Between the cursor and the next range nothing is covered. */
  lemma GapIsOutside(ranges: seq<Range>, k: nat, cursor: nat, j: int)
    requires Passed(ranges, k, cursor) && ByStart(ranges)
    requires cursor <= j && (k < |ranges| ==> j < ranges[k].start)
    ensures !Inside(ranges, j)
  {
  }

  lemma NextRange(raw: string, ranges: seq<Range>, k: nat, cursor: nat, visible: string)
    requires InLine(|raw|, ranges) && ByStart(ranges) && k < |ranges| && Passed(ranges, k, cursor) && cursor <= |raw|
    requires HasText(visible) <==> ShowsBefore(raw, ranges, cursor)
    ensures Passed(ranges, k + 1, Max(cursor, ranges[k].end))
    ensures HasText(visible + Slice(raw, cursor, ranges[k].start))
            <==> ShowsBefore(raw, ranges, Max(cursor, ranges[k].end))
  {
    var r := ranges[k];
    var cursor' := Max(cursor, r.end);
    HasTextAppend(visible, Slice(raw, cursor, r.start));
    HasTextSlice(raw, cursor, r.start);
    if j :| cursor <= j < r.start && !IsSpace(raw[j]) {
      GapIsOutside(ranges, k, cursor, j);
      assert ShowsBefore(raw, ranges, cursor');
    }
    if ShowsBefore(raw, ranges, cursor') {
      var j :| 0 <= j < cursor' && j < |raw| && !IsSpace(raw[j]) && !Inside(ranges, j);
      assert !(r.start <= j < r.end);
      assert j < cursor || j < r.start;
    }
  }

  /** The slicing loop, on ranges sorted by their start. */
  method HasRenderedTextOutsideComments(raw: string, ranges: Option<seq<Range>>) returns (visible: bool)
    requires ranges.Some? ==> InLine(|raw|, ranges.value)
    ensures visible <==> ranges.None? || ShowsBefore(raw, ranges.value, |raw|)
  {
    if ranges.None? {
      return true;
    }
    var sorted := Sorting.SortBy((r: Range) => r.start, ranges.value);
    SortedRanges(|raw|, ranges.value);
    var text, cursor := "", 0;
    for k := 0 to |sorted|
      invariant 0 <= cursor <= |raw| && Passed(sorted, k, cursor)
      invariant HasText(text) <==> ShowsBefore(raw, sorted, cursor)
    {
      NextRange(raw, sorted, k, cursor, text);
      text := text + Slice(raw, cursor, sorted[k].start);
      cursor := Max(cursor, sorted[k].end);
    }
    LastGap(raw, sorted, cursor, text);
    SameInside(raw, ranges.value);
    return HasText(text + raw[cursor..]);
  }

  lemma LastGap(raw: string, ranges: seq<Range>, cursor: nat, visible: string)
    requires Passed(ranges, |ranges|, cursor) && ByStart(ranges) && cursor <= |raw|
    requires HasText(visible) <==> ShowsBefore(raw, ranges, cursor)
    ensures HasText(visible + raw[cursor..]) <==> ShowsBefore(raw, ranges, |raw|)
  {
    HasTextAppend(visible, raw[cursor..]);
    HasTextSlice(raw, cursor, |raw|);
    assert raw[cursor..] == Slice(raw, cursor, |raw|);
    if j :| cursor <= j < |raw| && !IsSpace(raw[j]) {
      GapIsOutside(ranges, |ranges|, cursor, j);
      assert ShowsBefore(raw, ranges, |raw|);
    }
  }

  lemma SortedRanges(length: nat, ranges: seq<Range>)
    requires InLine(length, ranges)
    ensures var sorted := Sorting.SortBy((r: Range) => r.start, ranges); InLine(length, sorted) && ByStart(sorted)
  {
    var key := (r: Range) => r.start;
    var sorted := Sorting.SortBy(key, ranges);
    Sorting.SortSorts(key, ranges);
    forall k | 0 <= k < |sorted|
      ensures sorted[k].start <= sorted[k].end <= length
    {
      Sorting.MembersOfEqual(sorted, ranges, sorted[k]);
    }
    forall i, j | 0 <= i < j < |sorted|
      ensures sorted[i].start <= sorted[j].start
    {
      assert key(sorted[i]) <= key(sorted[j]);
    }
  }

  lemma InsideByMembers(a: seq<Range>, b: seq<Range>, p: int)
    requires multiset(a) == multiset(b) && Inside(a, p)
    ensures Inside(b, p)
  {
    var k :| 0 <= k < |a| && a[k].start <= p < a[k].end;
    Sorting.MembersOfEqual(a, b, a[k]);
  }

  lemma SameInside(raw: string, ranges: seq<Range>)
    ensures var sorted := Sorting.SortBy((r: Range) => r.start, ranges);
            ShowsBefore(raw, sorted, |raw|) <==> ShowsBefore(raw, ranges, |raw|)
  {
    var key := (r: Range) => r.start;
    var sorted := Sorting.SortBy(key, ranges);
    Sorting.SortSorts(key, ranges);
    forall p: int
      ensures Inside(sorted, p) <==> Inside(ranges, p)
    {
      if Inside(sorted, p) {
        InsideByMembers(sorted, ranges, p);
      }
      if Inside(ranges, p) {
        InsideByMembers(ranges, sorted, p);
      }
    }
  }
}
