/**
 "Exact edits apply once and reverse", over all texts: exactly which pairs of strings the law
 holds for. Replacements and insertions are decided by their two strings; a deletion never
 has it in every text, and what it needs of a text is said on the pieces.
 */
module EditLaws {
  import opened ExactText
  import opened ExactPieces
  import opened ExactEdits
  import opened ExactRuns
  import opened EditConditions

  /** Applied once the edit is made, and undone by the reverse edit. */
  ghost predicate AppliesAndReverses(text: string, find: string, replace: string, count: int) {
    var after := ApplyEdit(text, find, replace);
    ExactEditState(after, find, replace, count) == Applied && ApplyEdit(after, replace, find) == text
  }

  ghost predicate AlwaysLands(find: string, replace: string) {
    forall text, count | ExactEditState(text, find, replace, count) == Pending ::
      AppliesAndReverses(text, find, replace, count)
  }

  /** Replacements and insertions. */
  lemma AlwaysLandsIff(find: string, replace: string)
    requires find != "" && replace != "" && !Contains(find, replace)
    ensures AlwaysLands(find, replace)
            <==> Recognised(find, replace) && (Contains(replace, find) || Forgotten(find, replace))
  {
    AlwaysRestoredIff(find, replace);
    if !Contains(replace, find) {
      NeverReturnsIff(find, replace);
    }
    if Recognised(find, replace) && (Contains(replace, find) || Forgotten(find, replace)) {
      forall text, count | ExactEditState(text, find, replace, count) == Pending
        ensures AppliesAndReverses(text, find, replace, count)
      {
        PendingIsFresh(text, find, replace, count);
        RecognisedKeepsCuts(text, find, replace);
        PendingEditLandsIff(text, find, replace, count);
      }
    }
    if AlwaysLands(find, replace) {
      forall text | !Contains(text, replace)
        ensures ApplyEdit(ApplyEdit(text, find, replace), replace, find) == text
        ensures Contains(replace, find) || !Contains(ApplyEdit(text, find, replace), find)
      {
        FreshTextLands(text, find, replace);
      }
    }
  }

  lemma PendingIsFresh(text: string, find: string, replace: string, count: int)
    requires find != "" && replace != "" && !Contains(find, replace)
    requires ExactEditState(text, find, replace, count) == Pending
    ensures find != replace && !Contains(text, replace)
  {
    IncludesIsContains(find, replace);
    HitsZeroIff(text, replace);
    HitsZeroIff(text, find);
    assert find[0..|find|] == find;
    assert OccursAt(find, find, 0);
  }

  /** A text without the new string is pending for the number of its hits, or has none. */
  lemma FreshTextLands(text: string, find: string, replace: string)
    requires find != "" && replace != "" && !Contains(find, replace) && AlwaysLands(find, replace)
             && !Contains(text, replace)
    ensures ApplyEdit(ApplyEdit(text, find, replace), replace, find) == text
    ensures Contains(replace, find) || !Contains(ApplyEdit(text, find, replace), find)
  {
    var count := Hits(text, find);
    HitsZeroIff(text, find);
    HitsZeroIff(text, replace);
    if count == 0 {
      SplitWithoutHit(text, find);
      SplitWithoutHit(text, replace);
    } else {
      FreshIsPending(text, find, replace);
      assert AppliesAndReverses(text, find, replace, count);
      PendingIsFresh(text, find, replace, count);
      PendingEditLandsIff(text, find, replace, count);
    }
  }

  lemma FreshIsPending(text: string, find: string, replace: string)
    requires find != "" && replace != "" && !Contains(find, replace) && !Contains(text, replace)
             && Hits(text, find) != 0
    ensures ExactEditState(text, find, replace, Hits(text, find)) == Pending
  {
    IncludesIsContains(find, replace);
    HitsZeroIff(text, find);
    HitsZeroIff(text, replace);
  }

  // ----- a sufficient condition to read off the two strings

  /** Two strings that cannot be confused: neither contains the other and they never overlap. */
  ghost predicate Separable(a: string, b: string) {
    Apart(a, b) && NoOverlap(a, b) && NoOverlap(b, a)
  }

  lemma SeparableIsForgotten(find: string, replace: string)
    requires Separable(find, replace)
    ensures Forgotten(find, replace)
  {
    forall j: nat, l: nat
      ensures !Straddles(find, replace, j, l)
    {
      if Straddles(find, replace, j, l) {
        StraddlesOverlaps(find, replace, j, l);
      }
    }
  }

  lemma StraddlesOverlaps(find: string, replace: string, j: nat, l: nat)
    requires Straddles(find, replace, j, l)
    ensures !NoOverlap(replace, find) || !NoOverlap(find, replace)
  {
    if j > 0 {
      assert replace[|replace| - j..] == find[..j];
    } else {
      assert find[|find| - l..] == replace[..l];
    }
  }

  /** The law in every text, from the two strings alone: enough for most edits of the table. */
  lemma PlainEditAlwaysLands(find: string, replace: string)
    requires find != "" && replace != "" && find != replace
    requires forall n | Border(replace, n) :: n <= |find| && find[..n] == replace[..n]
    requires Separable(find, replace) || Contains(replace, find)
    ensures AlwaysLands(find, replace)
  {
    if Contains(replace, find) {
      ContainmentIsAntisymmetric(find, replace);
    } else {
      SeparableIsForgotten(find, replace);
    }
    SharedBordersAreRecognised(find, replace);
    AlwaysLandsIff(find, replace);
  }

  // ----- deletions: the new string is part of the old one

  /** Whatever the strings, a deletion fails where the old string is followed by the new one. */
  lemma NoDeletionAlwaysLands(find: string, replace: string)
    requires replace != "" && find != replace && Contains(find, replace)
    ensures ExactEditState(find + replace, find, replace, 1) == Pending
    ensures ExactEditState(ApplyEdit(find + replace, find, replace), find, replace, 1) != Applied
    ensures !AlwaysLands(find, replace)
  {
    ContainsIsShorter(find, replace);
    ContainmentIsAntisymmetric(replace, find);
    IncludesIsContains(find, replace);
    IncludesIsContains(replace, find);
    TwoParts(find, replace);
    OneHitTwice(find, replace);
    assert !AppliesAndReverses(find + replace, find, replace, 1);
  }

  lemma TwoParts(find: string, replace: string)
    requires find != "" && !Contains(replace, find)
    ensures SplitOn(find + replace, find) == ["", replace]
  {
    SplitHit(find, replace);
    SplitWithoutHit(replace, find);
    assert [""] + [replace] == ["", replace];
  }

  lemma OneHitTwice(find: string, replace: string)
    requires replace != ""
    ensures JoinOn(["", replace], replace) == replace + replace
    ensures Hits(replace + replace, replace) == 2
  {
    assert ["", replace][1..] == [replace] && "" + replace + replace == replace + replace;
    SplitHit(replace, replace);
    assert replace + "" == replace && SplitOn("", replace) == [""];
    SplitHit(replace, "");
  }

  /** The new string is counted once for every hit of the old one exactly when no piece has it already. */
  lemma LandedIff(parts: seq<string>, r: string)
    requires |parts| > 0 && r != "" && Unbordered(r)
    ensures Hits(JoinOn(parts, r), r) >= |parts| - 1
    ensures Hits(JoinOn(parts, r), r) == |parts| - 1 <==> forall i | 0 <= i < |parts| :: !Contains(parts[i], r)
  {
    RefinedJoins(parts, r);
    RefinedCounts(parts, r);
    PiecesAreClean(Refined(parts, r), r);
    SplitFindsCleanCuts(Refined(parts, r), r);
  }

  /** Every piece split again. */
  function Refined(parts: seq<string>, r: string): seq<string> {
    if parts == [] then [] else SplitOn(parts[0], r) + Refined(parts[1..], r)
  }

  lemma {:induction false} RefinedJoins(parts: seq<string>, r: string)
    requires |parts| > 0 && r != ""
    ensures Refined(parts, r) != [] && JoinOn(Refined(parts, r), r) == JoinOn(parts, r)
  {
    JoinUndoesSplit(parts[0], r);
    if |parts| > 1 {
      RefinedJoins(parts[1..], r);
      JoinAppend(SplitOn(parts[0], r), Refined(parts[1..], r), r);
    } else {
      assert Refined(parts, r) == SplitOn(parts[0], r);
    }
  }

  lemma {:induction false} RefinedCounts(parts: seq<string>, r: string)
    requires r != ""
    ensures |Refined(parts, r)| >= |parts|
    ensures |Refined(parts, r)| == |parts| <==> forall i | 0 <= i < |parts| :: !Contains(parts[i], r)
    ensures forall i | 0 <= i < |Refined(parts, r)| :: !Contains(Refined(parts, r)[i], r)
  {
    if parts != [] {
      RefinedCounts(parts[1..], r);
      OneHitIsTwoParts(parts[0], r);
      assert parts == [parts[0]] + parts[1..];
      forall i: nat | i < |SplitOn(parts[0], r)|
        ensures !Contains(SplitOn(parts[0], r)[i], r)
      {
        SplitPartsHaveNoHit(parts[0], r, i);
      }
    }
  }

  /** Exactly when a deletion lands, for a new string that does not overlap itself. */
  lemma DeletionLandsIff(text: string, find: string, replace: string, count: int)
    requires replace != "" && find != replace && Contains(find, replace) && Unbordered(replace)
    requires ExactEditState(text, find, replace, count) == Pending
    ensures ExactEditState(ApplyEdit(text, find, replace), find, replace, count) == Applied
            <==> DeletionLands(SplitOn(text, find), find, replace)
    ensures AppliesAndReverses(text, find, replace, count) <==> DeletionLands(SplitOn(text, find), find, replace)
  {
    var parts, after := SplitOn(text, find), ApplyEdit(text, find, replace);
    ContainmentIsAntisymmetric(replace, find);
    IncludesIsContains(find, replace);
    IncludesIsContains(replace, find);
    HitsZeroIff(after, find);
    LandedIff(parts, replace);
    if forall i | 0 <= i < |parts| :: !Contains(parts[i], replace) {
      RunIff(parts, find, replace);
      PiecesAreClean(parts, replace);
      PendingEditLandsIff(text, find, replace, count);
    }
  }

  /** No piece has the new string, and no neighbouring pieces complete the old one around it. */
  ghost predicate DeletionLands(parts: seq<string>, find: string, replace: string)
  {
    && (forall i | 0 <= i < |parts| :: !Contains(parts[i], replace))
    && forall i: nat :: !RunAt(parts, i, SplitOn(find, replace), replace)
  }
}
