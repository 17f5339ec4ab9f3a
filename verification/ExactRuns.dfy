/**
 Where a string that contains the separator can occur in joined pieces: over a run of them
 that agrees with its own pieces.
 */
module ExactRuns {
  import opened ExactText
  import opened ExactPieces

  predicate EndsWith(text: string, p: string) {
    |p| <= |text| && text[|text| - |p|..] == p
  }

  predicate StartsWith(text: string, p: string) {
    |p| <= |text| && text[..|p|] == p
  }

  /** From piece `i` on, the pieces are those of `runs`, the outer two as far as they go. */
  predicate RunAt(parts: seq<string>, i: nat, runs: seq<string>, s: string) {
    var last := i + |runs| - 1;
    && i < last < |parts|
    && EndsWith(LeftOf(parts, i, s), runs[0])
    && parts[i + 1..last] == runs[1..|runs| - 1]
    && StartsWith(RightOf(parts, last, s), runs[|runs| - 1])
  }

  function LeftOf(parts: seq<string>, i: nat, s: string): string
    requires i < |parts|
  {
    (if i > 0 then s else "") + parts[i]
  }

  function RightOf(parts: seq<string>, i: nat, s: string): string
    requires i < |parts|
  {
    parts[i] + (if i < |parts| - 1 then s else "")
  }

  /** What stands between the first and the last of several pieces. */
  function Core(inner: seq<string>, s: string): string {
    if inner == [] then s else s + JoinOn(inner, s) + s
  }

  lemma JoinEnds(a: seq<string>, inner: seq<string>, b: seq<string>, s: string)
    requires a != [] && b != []
    ensures JoinOn(a + inner + b, s) == JoinOn(a, s) + Core(inner, s) + JoinOn(b, s)
  {
    if inner == [] {
      assert a + inner + b == a + b;
      JoinAppend(a, b, s);
    } else {
      JoinAppend(a + inner, b, s);
      JoinAppend(a, inner, s);
      Regroup(JoinOn(a, s), s, JoinOn(inner, s), s, JoinOn(b, s));
    }
  }

  lemma Regroup(a: string, b: string, c: string, d: string, e: string)
    ensures (a + b + c) + d + e == a + (b + c + d) + e
  {
  }

  /** Joined pieces in terms of the outer two. */
  function Whole(runs: seq<string>, s: string): string
    requires |runs| > 1
  {
    runs[0] + Core(runs[1..|runs| - 1], s) + runs[|runs| - 1]
  }

  lemma OuterEnds(runs: seq<string>, s: string)
    requires |runs| > 1
    ensures JoinOn(runs, s) == Whole(runs, s)
  {
    var m := |runs| - 1;
    assert runs == [runs[0]] + runs[1..m] + [runs[m]];
    JoinEnds([runs[0]], runs[1..m], [runs[m]], s);
  }

  lemma SplitEnds(f: string, s: string)
    requires s != "" && |SplitOn(f, s)| > 1
    ensures f == Whole(SplitOn(f, s), s)
  {
    JoinUndoesSplit(f, s);
    OuterEnds(SplitOn(f, s), s);
  }

  // ----- a run makes a hit

  lemma RunIsHit(parts: seq<string>, i: nat, f: string, s: string)
    requires s != "" && |SplitOn(f, s)| > 1 && RunAt(parts, i, SplitOn(f, s), s)
    ensures Contains(JoinOn(parts, s), f)
  {
    SplitEnds(f, s);
    RunOccurs(parts, i, SplitOn(f, s), s);
  }

  lemma RunOccurs(parts: seq<string>, i: nat, runs: seq<string>, s: string)
    requires |runs| > 1 && RunAt(parts, i, runs, s)
    ensures Contains(JoinOn(parts, s), Whole(runs, s))
  {
    var last := i + |runs| - 1;
    var left, core, right := LeftOf(parts, i, s), Core(parts[i + 1..last], s), RightOf(parts, last, s);
    WindowOccurs(parts, i, last, s);
    CoreOccurs(left, core, right, runs[0], runs[|runs| - 1]);
    ContainsTransitive(JoinOn(parts, s), left + core + right, runs[0] + core + runs[|runs| - 1]);
  }

  lemma WindowOccurs(parts: seq<string>, i: nat, last: nat, s: string)
    requires i < last < |parts|
    ensures Contains(JoinOn(parts, s), LeftOf(parts, i, s) + Core(parts[i + 1..last], s) + RightOf(parts, last, s))
  {
    var core, right := Core(parts[i + 1..last], s), RightOf(parts, last, s);
    var from := UpToPiece(parts, i, s);
    var to := JoinWindow(parts, i, last, s);
    var left := if i > 0 then s else "";
    assert JoinOn(parts, s) == from + left + (parts[i] + core + (right + to));
    RegroupEnds(from, left, parts[i], core, right, to);
    HitIsContained(from, to, LeftOf(parts, i, s) + core + right);
  }

  lemma JoinWindow(parts: seq<string>, i: nat, last: nat, s: string) returns (to: string)
    requires i < last < |parts|
    ensures JoinOn(parts[i..], s) == parts[i] + Core(parts[i + 1..last], s) + (RightOf(parts, last, s) + to)
  {
    to := FromPiece(parts, last, s);
    JoinEnds([parts[i]], parts[i + 1..last], parts[last..], s);
    assert parts[i..] == [parts[i]] + parts[i + 1..last] + parts[last..];
  }

  lemma RegroupEnds(a: string, b: string, c: string, d: string, e: string, f: string)
    ensures a + b + (c + d + (e + f)) == a + ((b + c) + d + e) + f
  {
  }

  lemma CoreOccurs(left: string, core: string, right: string, a: string, b: string)
    requires EndsWith(left, a) && StartsWith(right, b)
    ensures Contains(left + core + right, a + core + b)
  {
    var from, to := left[..|left| - |a|], right[|b|..];
    assert left == from + a && right == b + to;
    assert (from + a) + core + (b + to) == from + (a + core + b) + to;
    HitIsContained(from, to, a + core + b);
  }

  // ----- a hit makes a run

  /** The end of a text with no separator in it stays together when the text is split, but for a separator it cuts. */
  lemma EndOfSplit(x: string, g: string, s: string)
    requires s != "" && !Contains(g, s)
    ensures var parts := SplitOn(x + g, s); EndsWith(LeftOf(parts, |parts| - 1, s), g)
  {
    var text, parts := x + g, SplitOn(x + g, s);
    var i := |parts| - 1;
    JoinUndoesSplit(text, s);
    var from := UpToPiece(parts, i, s);
    assert parts[i..] == [parts[i]];
    var tail := LeftOf(parts, i, s);
    assert text == from + tail;
    SuffixesAgree(x, g, from, tail);
    if i > 0 {
      TailIsShorter(g, s, parts[i]);
      assert tail == s + parts[i];
    }
  }

  lemma TailIsShorter(g: string, s: string, part: string)
    requires !Contains(g, s)
    ensures !Contains(g, s + part)
  {
    HitIsContained("", part, s);
    assert "" + s + part == s + part;
    if Contains(g, s + part) {
      ContainsTransitive(g, s + part, s);
    }
  }

  lemma SuffixesAgree(x: string, g: string, y: string, h: string)
    requires x + g == y + h
    ensures |g| <= |h| ==> EndsWith(h, g)
    ensures |h| <= |g| ==> Contains(g, h)
  {
    var text := x + g;
    if |g| <= |h| {
      assert h[|h| - |g|..] == (y + h)[|y| + |h| - |g|..] == text[|x|..] == g;
    }
    if |h| <= |g| {
      assert g[|g| - |h|..|g|] == text[|text| - |h|..] == h;
      SliceIsContained(g, |g| - |h|, |g|);
    }
  }

  lemma StartOfSplit(g: string, y: string, s: string)
    requires s != "" && !Contains(g, s)
    ensures StartsWith(RightOf(SplitOn(g + y, s), 0, s), g)
  {
    var text, parts := g + y, SplitOn(g + y, s);
    JoinUndoesSplit(text, s);
    var to := FromPiece(parts, 0, s);
    assert parts[0..] == parts;
    var head := RightOf(parts, 0, s);
    assert text == head + to;
    if |g| <= |head| {
      assert head[..|g|] == text[..|g|] == g;
    } else {
      assert head == parts[0] + s + "";
      HitIsContained(parts[0], "", s);
      assert g[0..|head|] == text[..|head|] == head;
      SliceIsContained(g, 0, |head|);
      ContainsTransitive(g, head, s);
    }
  }

  lemma HitIsRun(parts: seq<string>, f: string, s: string, x: string, y: string) returns (i: nat)
    requires s != "" && |parts| > 0 && Unbordered(s) && JoinOn(parts, s) == x + f + y && |SplitOn(f, s)| > 1
    requires forall i | 0 <= i < |parts| :: !Contains(parts[i], s)
    ensures RunAt(parts, i, SplitOn(f, s), s)
  {
    var runs := SplitOn(f, s);
    var m := |runs| - 1;
    var xs, ys := SplitOn(x + runs[0], s), SplitOn(runs[m] + y, s);
    PiecesOfHit(f, s, x, y);
    PiecesAreClean(parts, s);
    SplitFindsCleanCuts(parts, s);
    SplitPartsHaveNoHit(f, s, 0);
    SplitPartsHaveNoHit(f, s, m);
    EndOfSplit(x, runs[0], s);
    StartOfSplit(runs[m], y, s);
    i := |xs| - 1;
    RunBetween(xs, runs, ys, s);
  }

  /** Between pieces that end and start as the outer two of the run do, the inner ones make it a run. */
  lemma RunBetween(xs: seq<string>, runs: seq<string>, ys: seq<string>, s: string)
    requires |xs| > 0 && |ys| > 0 && |runs| > 1
    requires EndsWith(LeftOf(xs, |xs| - 1, s), runs[0]) && StartsWith(RightOf(ys, 0, s), runs[|runs| - 1])
    ensures RunAt(xs + runs[1..|runs| - 1] + ys, |xs| - 1, runs, s)
  {
    var m, i := |runs| - 1, |xs| - 1;
    var parts := xs + runs[1..m] + ys;
    assert parts[i] == xs[i] && parts[i + m] == ys[0];
    assert parts[i + 1..i + m] == runs[1..m];
  }

  lemma PiecesOfHit(f: string, s: string, x: string, y: string)
    requires s != "" && Unbordered(s) && |SplitOn(f, s)| > 1
    ensures var runs := SplitOn(f, s);
            var m := |runs| - 1;
            SplitOn(x + f + y, s) == SplitOn(x + runs[0], s) + runs[1..m] + SplitOn(runs[m] + y, s)
  {
    var runs := SplitOn(f, s);
    var m := |runs| - 1;
    var xs, ys := SplitOn(x + runs[0], s), SplitOn(runs[m] + y, s);
    var all := xs + runs[1..m] + ys;
    JoinUndoesSplit(x + runs[0], s);
    JoinUndoesSplit(runs[m] + y, s);
    JoinEnds(xs, runs[1..m], ys, s);
    SplitEnds(f, s);
    RegroupHit(x, runs[0], Core(runs[1..m], s), runs[m], y);
    SplitsHaveNoHit(x + runs[0], s);
    SplitsHaveNoHit(f, s);
    SplitsHaveNoHit(runs[m] + y, s);
    PiecesAreClean(all, s);
    SplitFindsCleanCuts(all, s);
  }

  lemma RegroupHit(x: string, a: string, core: string, b: string, y: string)
    ensures (x + a) + core + (b + y) == x + (a + core + b) + y
  {
  }

  lemma SplitsHaveNoHit(text: string, s: string)
    requires s != ""
    ensures forall i | 0 <= i < |SplitOn(text, s)| :: !Contains(SplitOn(text, s)[i], s)
  {
    forall i: nat | i < |SplitOn(text, s)|
      ensures !Contains(SplitOn(text, s)[i], s)
    {
      SplitPartsHaveNoHit(text, s, i);
    }
  }

  lemma AroundHit(text: string, f: string) returns (x: string, y: string)
    requires Contains(text, f)
    ensures text == x + f + y
  {
    var k :| OccursAt(text, f, k);
    x, y := text[..k], text[k + |f|..];
  }

  /** Exactly then the joined text has the string: when some run of pieces agrees with it. */
  lemma RunIff(parts: seq<string>, f: string, s: string)
    requires s != "" && |parts| > 0 && Unbordered(s) && Contains(f, s)
    requires forall i | 0 <= i < |parts| :: !Contains(parts[i], s)
    ensures Contains(JoinOn(parts, s), f) <==> exists i: nat :: RunAt(parts, i, SplitOn(f, s), s)
  {
    OneHitIsTwoParts(f, s);
    if Contains(JoinOn(parts, s), f) {
      var x, y := AroundHit(JoinOn(parts, s), f);
      var i := HitIsRun(parts, f, s, x, y);
    }
    if i: nat :| RunAt(parts, i, SplitOn(f, s), s) {
      RunIsHit(parts, i, f, s);
    }
  }
}
