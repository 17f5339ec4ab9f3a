/**
 The exact-string edits of the rescope: the state of one edit in a text, what applying it
 does to that state, and the classify-then-apply plan over a tree of files.
 */
module ExactEdits {
  import opened Wrappers
  import opened ExactText
  import opened ExactPieces

  datatype EditState = Pending | Applied | Invalid

  /** Occurrences as the source counts them. */
  function Hits(text: string, p: string): int {
    |SplitOn(text, p)| - 1
  }

  predicate Includes(text: string, p: string) {
    exists i :: 0 <= i <= |text| && OccursAt(text, p, i)
  }

  function ExactEditState(text: string, find: string, replace: string, count: int): EditState {
    var hits, landed := Hits(text, find), Hits(text, replace);
    if Includes(replace, find) then
      if landed == count then Applied
      else if landed == 0 && hits == count then Pending
      else Invalid
    else if Includes(find, replace) then
      if hits == 0 then (if landed == count then Applied else Invalid)
      else if hits == count then Pending
      else Invalid
    else if hits == 0 && landed == count then Applied
    else if hits == count && landed == 0 then Pending
    else Invalid
  }

  /** `text.split(find).join(replace)`. */
  function ApplyEdit(text: string, find: string, replace: string): string {
    JoinOn(SplitOn(text, find), replace)
  }

  lemma IncludesIsContains(text: string, p: string)
    ensures Includes(text, p) <==> Contains(text, p)
  {
  }

  lemma HitsZeroIff(text: string, p: string)
    requires p != ""
    ensures Hits(text, p) >= 0
    ensures Hits(text, p) == 0 <==> !Contains(text, p)
  {
    OneHitIsTwoParts(text, p);
  }

  // ----- what the three states say about a text

  /** The text is `n + 1` pieces around `n` hits, each the first in what precedes and contains it. */
  ghost predicate HasHits(text: string, p: string, n: int) {
    exists parts :: CleanCuts(parts, p) && |parts| == n + 1 && JoinOn(parts, p) == text
  }

  /** The count by splitting is the number of hits, and there is only one. */
  lemma HitsCount(text: string, p: string, n: int)
    requires p != ""
    ensures HasHits(text, p, n) <==> Hits(text, p) == n
  {
    if parts :| CleanCuts(parts, p) && |parts| == n + 1 && JoinOn(parts, p) == text {
      SplitFindsCleanCuts(parts, p);
    }
    SplitCutsAreClean(text, p);
    JoinUndoesSplit(text, p);
  }

  /** Pending, applied and invalid, for a replacement, an insertion and a deletion. */
  lemma StatesMean(text: string, find: string, replace: string, count: int)
    requires find != "" && replace != "" && find != replace && count > 0
    ensures ExactEditState(text, find, replace, count) == Pending
            <==> HasHits(text, find, count) && (Contains(find, replace) || !Contains(text, replace))
    ensures ExactEditState(text, find, replace, count) == Applied
            <==> HasHits(text, replace, count) && (Contains(replace, find) || !Contains(text, find))
  {
    HitsCount(text, find, count);
    HitsCount(text, replace, count);
    HitsZeroIff(text, find);
    HitsZeroIff(text, replace);
    IncludesIsContains(find, replace);
    IncludesIsContains(replace, find);
    if Contains(find, replace) && Contains(replace, find) {
      ContainmentIsAntisymmetric(find, replace);
      assert false;
    }
  }

  // ----- when an edit can be undone

  /** The first hit in a text is not behind any other. */
  lemma FirstCutIsLeast(a: string, x: string, b: string, y: string, p: string)
    requires a + p + x == b + p + y && FirstHitAtEnd(b, p)
    ensures |b| <= |a|
  {
    if |a| < |b| {
      assert (a + p + x)[|a|..|a| + |p|] == p;
      OccursInPrefix(b, p, y, p, |a|);
    }
  }

  /** Pieces that give the same text around `f` and around `r` are the same, if clean for one of them each. */
  lemma {:induction false} SameCuts(ps: seq<string>, qs: seq<string>, f: string, r: string)
    requires CleanCuts(ps, f) && CleanCuts(qs, r)
    requires JoinOn(ps, f) == JoinOn(qs, f) && JoinOn(ps, r) == JoinOn(qs, r)
    ensures ps == qs
  {
    if |qs| > 1 {
      HitIsContained(qs[0], JoinOn(qs[1..], f), f);
    }
    if |ps| > 1 {
      HitIsContained(ps[0], JoinOn(ps[1..], r), r);
    }
    if |ps| > 1 && |qs| > 1 {
      FirstCutIsLeast(qs[0], JoinOn(qs[1..], f), ps[0], JoinOn(ps[1..], f), f);
      FirstCutIsLeast(ps[0], JoinOn(ps[1..], r), qs[0], JoinOn(qs[1..], r), r);
      SameHead(ps[0], f, JoinOn(ps[1..], f), qs[0], JoinOn(qs[1..], f));
      SameHead(ps[0], r, JoinOn(ps[1..], r), qs[0], JoinOn(qs[1..], r));
      CleanTail(ps, f);
      CleanTail(qs, r);
      SameCuts(ps[1..], qs[1..], f, r);
      assert ps == [ps[0]] + ps[1..] && qs == [qs[0]] + qs[1..];
    }
  }

  lemma SameHead(a: string, p: string, x: string, b: string, y: string)
    requires a + p + x == b + p + y && |a| == |b|
    ensures a == b && x == y
  {
    assert a == (a + p + x)[..|a|] && b == (b + p + y)[..|b|];
    assert x == (a + p + x)[|a| + |p|..] && y == (b + p + y)[|b| + |p|..];
  }

  /** For each text: undoing an edit gives the text back exactly when the pieces are clean cuts for the new string. */
  lemma RestoredIff(text: string, find: string, replace: string)
    requires find != "" && replace != ""
    ensures ApplyEdit(ApplyEdit(text, find, replace), replace, find) == text
            <==> CleanCuts(SplitOn(text, find), replace)
  {
    var parts, after := SplitOn(text, find), ApplyEdit(text, find, replace);
    SplitCutsAreClean(text, find);
    JoinUndoesSplit(text, find);
    if CleanCuts(parts, replace) {
      SplitFindsCleanCuts(parts, replace);
    }
    if JoinOn(SplitOn(after, replace), find) == text {
      SplitCutsAreClean(after, replace);
      JoinUndoesSplit(after, replace);
      SameCuts(parts, SplitOn(after, replace), find, replace);
    }
  }

  /** The pieces around the hits of `find` are clean cuts for `replace`, and putting it in makes no hit of `find`. */
  ghost predicate Lands(text: string, find: string, replace: string) {
    && CleanCuts(SplitOn(text, find), replace)
    && (Contains(replace, find) || !Contains(JoinOn(SplitOn(text, find), replace), find))
  }

  /** Exact edits apply once and reverse: for each text, exactly under this condition on its pieces. */
  lemma PendingEditLandsIff(text: string, find: string, replace: string, count: int)
    requires find != "" && replace != "" && find != replace && ExactEditState(text, find, replace, count) == Pending
    ensures && ExactEditState(ApplyEdit(text, find, replace), find, replace, count) == Applied
            && ApplyEdit(ApplyEdit(text, find, replace), replace, find) == text
            <==> Lands(text, find, replace)
  {
    var after := ApplyEdit(text, find, replace);
    RestoredIff(text, find, replace);
    HitsZeroIff(after, find);
    IncludesIsContains(find, replace);
    IncludesIsContains(replace, find);
    if CleanCuts(SplitOn(text, find), replace) {
      SplitFindsCleanCuts(SplitOn(text, find), replace);
    }
  }

  /** What landed is pending for the reverse edit, and was applied for it before. */
  lemma LandedIsReversible(text: string, find: string, replace: string, count: int)
    requires find != "" && replace != "" && find != replace && ExactEditState(text, find, replace, count) == Pending
    requires Lands(text, find, replace)
    ensures ExactEditState(ApplyEdit(text, find, replace), replace, find, count) == Pending
    ensures !Contains(text, replace) ==> ExactEditState(text, replace, find, count) == Applied
  {
    var after := ApplyEdit(text, find, replace);
    PendingEditLandsIff(text, find, replace, count);
    SplitFindsCleanCuts(SplitOn(text, find), replace);
    HitsZeroIff(text, find);
    HitsZeroIff(text, replace);
    HitsZeroIff(after, find);
    HitsZeroIff(after, replace);
    IncludesIsContains(find, replace);
    IncludesIsContains(replace, find);
    if Contains(find, replace) {
      ContainmentIsAntisymmetric(replace, find);
    }
  }

  // ----- the conditions matter

  /** A bordered target can land twice where it was put once. */
  lemma BorderedTargetMiscounts()
    ensures ExactEditState("abcba", "c", "aba", 1) == Pending
    ensures ApplyEdit("abcba", "c", "aba") == "abababa"
    ensures ExactEditState("abababa", "c", "aba", 1) == Invalid
  {
    BorderedFindSplits();
    BorderedHits();
    BorderedSourceHasNoTarget();
    NeitherIncludes();
    assert JoinOn(["ba"], "aba") == "ba";
    assert JoinOn(["ab", "ba"], "aba") == "ab" + "aba" + "ba" by {
      assert ["ab", "ba"][1..] == ["ba"];
    }
    assert "ab" + "aba" + "ba" == "abababa";
  }

  lemma BorderedHits()
    ensures Hits("abababa", "aba") == 2 && Hits("abababa", "c") == 0
  {
    BorderedTargetSplits();
    NoHitOfFreshChar("abababa", "c");
  }

  lemma NeitherIncludes()
    ensures !Includes("aba", "c") && !Includes("c", "aba")
  {
    var t := "aba";
    assert t[0] == 'a' && t[1] == 'b' && t[2] == 'a';
    forall i
      ensures !OccursAt(t, "c", i)
    {
      if 0 <= i && i + 1 <= |t| {
        assert t[i..i + 1][0] == t[i];
      }
    }
  }

  lemma BorderedSourceHasNoTarget()
    ensures Hits("abcba", "aba") == 0
  {
    assert SplitOn("ba", "aba") == ["ba"];
    assert "cba"[1..] == "ba" && "bcba"[1..] == "cba" && "abcba"[1..] == "bcba";
    SplitSkip("cba", "aba", 0, "ba", []);
    assert ['c'] + "ba" == "cba" && ['b'] + "cba" == "bcba";
    assert ["cba"] + [] == ["cba"] && ["bcba"] + [] == ["bcba"];
    SplitSkip("bcba", "aba", 0, "cba", []);
    SplitSkip("abcba", "aba", 2, "bcba", []);
  }

  lemma BorderedFindSplits()
    ensures SplitOn("abcba", "c") == ["ab", "ba"]
  {
    NoHitOfFreshChar("ba", "c");
    SplitHit("c", "ba");
    assert "c" + "ba" == "cba" && "bcba"[1..] == "cba" && "abcba"[1..] == "bcba";
    SplitSkip("bcba", "c", 0, "", ["ba"]);
    assert ['b'] + "" == "b" && ['a'] + "b" == "ab";
    SplitSkip("abcba", "c", 0, "b", ["ba"]);
    assert [['a'] + "b"] + ["ba"] == ["ab", "ba"];
  }

  lemma BorderedTargetSplits()
    ensures SplitOn("abababa", "aba") == ["", "b", ""]
  {
    assert SplitOn("", "aba") == [""];
    SplitHit("aba", "");
    assert "aba" + "" == "aba" && "baba"[1..] == "aba" && "aba" + "baba" == "abababa";
    SplitSkip("baba", "aba", 0, "", [""]);
    assert ['b'] + "" == "b" && [""] + (["b"] + [""]) == ["", "b", ""];
    SplitHit("aba", "baba");
  }

  lemma NoHitOfFreshChar(text: string, p: string)
    requires p != "" && p[0] !in text
    ensures SplitOn(text, p) == [text]
  {
    forall i
      ensures !OccursAt(text, p, i)
    {
      if 0 <= i && i + |p| <= |text| {
        assert text[i..i + |p|][0] == text[i];
      }
    }
    SplitWithoutHit(text, p);
  }

  /** A deletion is judged by its source form alone, so its remainder can complete a new hit. */
  lemma DeletionCanPendAgain()
    ensures ExactEditState("xxr", "xr", "r", 1) == Pending
    ensures ApplyEdit("xxr", "xr", "r") == "xr"
    ensures ExactEditState("xr", "xr", "r", 1) == Pending
  {
    SplitHit("xr", "");
    assert "xr" + "" == "xr" && "xxr"[1..] == "xr";
    assert SplitOn("", "xr") == [""];
    SplitSkip("xxr", "xr", 1, "", [""]);
    assert ['x'] + "" == "x" && ["x"] + [""] == ["x", ""];
    assert JoinOn(["x", ""], "r") == "x" + "r" + JoinOn([""], "r") == "xr";
    assert OccursAt("xr", "r", 1);
    assert !Includes("r", "xr");
  }
}
