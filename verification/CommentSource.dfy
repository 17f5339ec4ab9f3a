/**
 What the comment ranges say about the source itself: they are its comments where the
 parser's HTML values are verbatim slices of it, and drift where a container's prefix was
 stripped from them.
 */
module CommentSource {
  import opened Wrappers
  import opened Text
  import opened CommentLines
  import opened ProseLines

  /** The node's value is the source text at its offset. */
  predicate Verbatim(source: string, node: HtmlNode) {
    OccursAt(source, node.value, node.offset)
  }

  /** A comment of the source that does not go beyond the node. */
  ghost predicate IsSourceComment(source: string, node: HtmlNode, r: Range) {
    && node.offset <= r.start < r.end <= node.offset + |node.value|
    && OccursAt(source, OPEN, r.start)
    && (ClosesFirst(source, r) || (r.end == node.offset + |node.value| && NeverCloses(source, r)))
  }

  /** It ends with the first close behind its opening. */
  ghost predicate ClosesFirst(source: string, r: Range) {
    && r.end >= r.start + |OPEN| + |CLOSE| && OccursAt(source, CLOSE, r.end - |CLOSE|)
    && forall i: nat | r.start + |OPEN| <= i < r.end - |CLOSE| :: !OccursAt(source, CLOSE, i)
  }

  ghost predicate NeverCloses(source: string, r: Range) {
    forall i: nat | r.start + |OPEN| <= i && i + |CLOSE| <= r.end :: !OccursAt(source, CLOSE, i)
  }

  lemma OccursInValue(source: string, node: HtmlNode, p: string, i: nat)
    requires Verbatim(source, node) && i + |p| <= |node.value|
    ensures OccursAt(node.value, p, i) <==> OccursAt(source, p, node.offset + i)
  {
    var from, to := node.offset + i, node.offset + i + |p|;
    forall k | 0 <= k < |p|
      ensures source[from..to][k] == node.value[i..i + |p|][k]
    {
      assert node.value[i + k] == source[node.offset..node.offset + |node.value|][i + k];
    }
    assert source[from..to] == node.value[i..i + |p|];
  }

  /** Of a verbatim node every range is a comment of the source. */
  lemma VerbatimRangesAreComments(source: string, node: HtmlNode)
    requires Verbatim(source, node)
    ensures forall r | r in CommentsFrom(node.value, node.offset, 0) :: IsSourceComment(source, node, r)
  {
    RangesAreComments(node.value, node.offset, 0);
    forall r | r in CommentsFrom(node.value, node.offset, 0)
      ensures IsSourceComment(source, node, r)
    {
      CommentIsSourceComment(source, node, r);
    }
  }

  lemma CommentIsSourceComment(source: string, node: HtmlNode, r: Range)
    requires Verbatim(source, node) && IsComment(node.value, node.offset, r)
    ensures IsSourceComment(source, node, r)
  {
    CommentIsInSource(source, node, r.start - node.offset);
  }

  /** And every opening the source has within the node is inside a range. */
  lemma SourceOpeningsAreInside(source: string, node: HtmlNode, p: nat)
    requires Verbatim(source, node) && OccursAt(source, OPEN, p)
    requires node.offset <= p && p + |OPEN| <= node.offset + |node.value|
    ensures Inside(CommentsFrom(node.value, node.offset, 0), p)
  {
    OccursInValue(source, node, OPEN, p - node.offset);
    OpeningsAreInside(node.value, node.offset, 0, p - node.offset);
  }

  lemma CommentIsInSource(source: string, node: HtmlNode, start: nat)
    requires Verbatim(source, node) && OpensAt(node.value, start)
    ensures IsSourceComment(source, node, Range(node.offset + start, node.offset + CommentEnd(node.value, start)))
  {
    OccursInValue(source, node, OPEN, start);
    IndexOfIsFirst(node.value, CLOSE, start + |OPEN|);
    var close := IndexOf(node.value, CLOSE, start + |OPEN|);
    if close.Some? {
      OccursInValue(source, node, CLOSE, close.value);
    }
    forall i: nat | node.offset + start + |OPEN| <= i && i + |CLOSE| <= node.offset + |node.value|
                    && (close.Some? ==> i < node.offset + close.value)
      ensures !OccursAt(source, CLOSE, i)
    {
      OccursInValue(source, node, CLOSE, i - node.offset);
    }
  }

  // ----- a comment inside a block quote

  const QUOTED := "> <!--\n> a\n> -->"

  /** What the parser reports for it: the quote's prefixes are not part of the value. */
  const STRIPPED := HtmlNode(2, "<!--\na\n-->")

  const LAST_LINE := Place(11, 5)

  lemma StrippedComments()
    ensures Comments([STRIPPED]) == [Range(2, 12)]
  {
    var value := STRIPPED.value;
    assert value[4] == '\n' && value[5] == 'a' && value[6] == '\n' && value[7..10] == CLOSE && value[0..4] == OPEN;
    assert !OccursAt(value, CLOSE, 4) && !OccursAt(value, CLOSE, 5) && !OccursAt(value, CLOSE, 6) by {
      assert value[4..7][0] != CLOSE[0] && value[5..8][0] != CLOSE[0] && value[6..9][0] != CLOSE[0];
    }
    assert IndexOf(value, OPEN, 0) == Some(0);
    assert IndexOf(value, CLOSE, 7) == Some(7);
    assert IndexOf(value, CLOSE, 6) == Some(7);
    assert IndexOf(value, CLOSE, 5) == Some(7);
    assert IndexOf(value, CLOSE, 4) == Some(7);
    assert NextComment(value, 10).None?;
    assert CommentsFrom(value, 2, 10) == [];
    assert CommentsFrom(value, 2, 0) == [Range(2, 12)] + [];
    assert [STRIPPED][..0] == [] && Comments([]) == [];
    assert Comments([STRIPPED]) == [] + CommentsFrom(value, 2, 0);
  }

  /** The comment's own last line counts as prose, though the comment runs to its end. */
  lemma StrippedPrefixesDrift()
    ensures !Verbatim(QUOTED, STRIPPED)
    ensures QUOTED == "> <!--\n> a\n> -->" && STRIPPED == HtmlNode(2, "<!--\na\n-->")
    ensures QUOTED[LAST_LINE.offset..] == "> -->" && LAST_LINE.length == |"> -->"|
    ensures !HiddenByComments(QUOTED, Comments([STRIPPED]), LAST_LINE)
    ensures HiddenByComments(QUOTED, [Range(2, |QUOTED|)], LAST_LINE)
  {
    StrippedComments();
    assert QUOTED[7] == '>' && STRIPPED.value[5] == 'a';
    assert QUOTED[2..12][5] == QUOTED[7];
    assert QUOTED[13] == '-';
    assert !Inside([Range(2, 12)], 13);
    forall p | 11 <= p < 16
      ensures Inside([Range(2, |QUOTED|)], p)
    {
      assert [Range(2, |QUOTED|)][0].start <= p < [Range(2, |QUOTED|)][0].end;
    }
    assert Inside([Range(2, |QUOTED|)], 11) && LAST_LINE.offset <= 11 < LAST_LINE.offset + Max(LAST_LINE.length, 1);
  }
}
