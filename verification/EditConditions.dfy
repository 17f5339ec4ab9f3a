/**
 For which pairs of strings an exact edit applies once and reverses in every text: the new
 string must be recognised where it is put, and must not complete the old one again.
 */
module EditConditions {
  import opened ExactText
  import opened ExactPieces
  import opened ExactEdits

  // ----- the new string is found exactly where it was put

  /** Wherever the new string overlaps itself, the text that would make it be met too early has it already. */
  ghost predicate Recognised(find: string, replace: string) {
    forall n | Border(replace, n) :: RecognisedAt(find, replace, replace[..|replace| - n])
  }

  ghost predicate RecognisedAt(find: string, replace: string, u: string) {
    !FirstHitAtEnd(u, find) || Contains(u + find, replace)
  }

  /** Undoing the edit gives back every text that did not have the new string. */
  ghost predicate AlwaysRestored(find: string, replace: string) {
    forall text | !Contains(text, replace) :: ApplyEdit(ApplyEdit(text, find, replace), replace, find) == text
  }

  lemma AlwaysRestoredIff(find: string, replace: string)
    requires find != "" && replace != ""
    ensures AlwaysRestored(find, replace) <==> Recognised(find, replace)
  {
    if Recognised(find, replace) {
      forall text | !Contains(text, replace)
        ensures ApplyEdit(ApplyEdit(text, find, replace), replace, find) == text
      {
        RecognisedKeepsCuts(text, find, replace);
        RestoredIff(text, find, replace);
      }
    } else {
      var n :| Border(replace, n) && !RecognisedAt(find, replace, replace[..|replace| - n]);
      OverlapIsNotRestored(find, replace, n);
    }
  }

  lemma RecognisedKeepsCuts(text: string, find: string, replace: string)
    requires find != "" && replace != "" && Recognised(find, replace) && !Contains(text, replace)
    ensures CleanCuts(SplitOn(text, find), replace)
  {
    var parts := SplitOn(text, find);
    forall i: nat | i < |parts|
      ensures !Contains(parts[i], replace) && (i < |parts| - 1 ==> FirstHitAtEnd(parts[i], replace))
    {
      PartsHaveNoHit(text, find, replace, i);
      if i < |parts| - 1 {
        RecognisedPiece(text, find, replace, i);
      }
    }
  }

  lemma RecognisedPiece(text: string, find: string, replace: string, i: nat)
    requires find != "" && replace != "" && Recognised(find, replace) && !Contains(text, replace)
    requires i < |SplitOn(text, find)| - 1 && !Contains(SplitOn(text, find)[i], replace)
    ensures FirstHitAtEnd(SplitOn(text, find)[i], replace)
  {
    var part := SplitOn(text, find)[i];
    SplitCutsAreClean(text, find);
    forall k | 0 <= k < |part|
      ensures !OccursAt(part + replace, replace, k)
    {
      EarlyHitIsBorder(part, replace, k);
      SuffixKeepsFirstHit(part, find, k);
      PieceEndOccurs(text, find, i, k);
      if OccursAt(part + replace, replace, k) {
        assert RecognisedAt(find, replace, replace[..|part| - k]);
        ContainsTransitive(text, part[k..] + find, replace);
      }
    }
  }

  /** The end of a piece is met in the text with the separator behind it. */
  lemma PieceEndOccurs(text: string, find: string, i: nat, k: nat)
    requires find != "" && i < |SplitOn(text, find)| - 1 && k <= |SplitOn(text, find)[i]|
    ensures Contains(text, SplitOn(text, find)[i][k..] + find)
  {
    var parts := SplitOn(text, find);
    JoinUndoesSplit(text, find);
    AroundOccurs(parts, i, find);
    TailOccurs(if i > 0 then find else "", parts[i], find, k);
    ContainsTransitive(text, Around(parts, i, find), parts[i][k..] + find);
  }

  lemma TailOccurs(left: string, part: string, right: string, k: nat)
    requires k <= |part|
    ensures Contains(left + part + right, part[k..] + right)
  {
    var whole := left + part + right;
    assert whole[|left| + k..|whole|] == part[k..] + right;
    SliceIsContained(whole, |left| + k, |whole|);
  }

  lemma HeadOccurs(left: string, part: string, right: string, k: nat)
    requires k <= |part|
    ensures Contains(left + part + right, left + part[..k])
  {
    var whole := left + part + right;
    assert whole[0..|left| + k] == left + part[..k];
    SliceIsContained(whole, 0, |left| + k);
  }

  /** The middle of three strings shortened, with the outer ones dropped where it is. */
  lemma TrimmedOccurs(left: string, part: string, right: string, start: nat, end: nat, l: string, r: string)
    requires start <= end <= |part|
    requires (l == "" || (l == left && start == 0)) && (r == "" || (r == right && end == |part|))
    ensures Contains(left + part + right, l + part[start..end] + r)
  {
    var whole, kept := left + part + right, l + part[start..] + r;
    TrimFront(left, part, right, start, l);
    TrimBack(l, part[start..], right, end - start, r);
    assert part[start..][..end - start] == part[start..end];
    ContainsTransitive(whole, l + part[start..] + right, l + part[start..end] + r);
  }

  lemma TrimFront(left: string, part: string, right: string, start: nat, l: string)
    requires start <= |part| && (l == "" || (l == left && start == 0))
    ensures Contains(left + part + right, l + part[start..] + right)
  {
    if l == "" {
      TailOccurs(left, part, right, start);
      assert "" + part[start..] + right == part[start..] + right;
    } else {
      assert part[start..] == part;
      TailOccurs("", left + part, right, 0);
      assert "" + (left + part) + right == left + part + right == (left + part)[0..] + right;
    }
  }

  lemma TrimBack(left: string, part: string, right: string, end: nat, r: string)
    requires end <= |part| && (r == "" || (r == right && end == |part|))
    ensures Contains(left + part + right, left + part[..end] + r)
  {
    if r == "" {
      HeadOccurs(left, part, right, end);
      assert left + part[..end] + "" == left + part[..end];
    } else {
      assert part[..end] == part;
      TailOccurs("", left + part, right, 0);
      assert "" + (left + part) + right == left + part + right == (left + part)[0..] + right;
    }
  }

  /** Otherwise one short text fails: what precedes the overlap, and the old string. */
  lemma OverlapIsNotRestored(find: string, replace: string, n: int)
    requires find != "" && replace != "" && Border(replace, n)
    requires FirstHitAtEnd(replace[..|replace| - n], find) && !Contains(replace[..|replace| - n] + find, replace)
    ensures ApplyEdit(ApplyEdit(replace[..|replace| - n] + find, find, replace), replace, find)
            != replace[..|replace| - n] + find
  {
    var u := replace[..|replace| - n];
    assert JoinOn([u, ""], find) == u + find by {
      assert [u, ""][1..] == [""];
    }
    SplitFindsCleanCuts([u, ""], find);
    assert OccursAt(u + replace, replace, 0) by {
      assert u + replace == (u + replace[..n]) + replace[n..];
      assert u + replace[..n] == replace;
      assert (replace + replace[n..])[0..|replace|] == replace;
    }
    assert !CleanCuts([u, ""], replace) by {
      assert !FirstHitAtEnd([u, ""][0], replace);
    }
    RestoredIff(u + find, find, replace);
  }

  /**
   A new string that does not overlap itself is recognised, and so is one that overlaps only in what the old
   one starts with.
   */
  lemma SharedBordersAreRecognised(find: string, replace: string)
    requires forall n | Border(replace, n) :: n <= |find| && find[..n] == replace[..n]
    ensures Recognised(find, replace)
  {
    forall n | Border(replace, n)
      ensures RecognisedAt(find, replace, replace[..|replace| - n])
    {
      SharedBorderIsRecognised(find, replace, n);
    }
  }

  lemma SharedBorderIsRecognised(find: string, replace: string, n: nat)
    requires Border(replace, n) && n <= |find| && find[..n] == replace[..n]
    ensures Contains(replace[..|replace| - n] + find, replace)
  {
    var text := replace[..|replace| - n] + find;
    forall k | 0 <= k < |replace|
      ensures text[0..|replace|][k] == replace[k]
    {
      if k >= |replace| - n {
        assert replace[|replace| - n..][k - (|replace| - n)] == replace[k];
        assert find[..n][k - (|replace| - n)] == find[k - (|replace| - n)];
      }
    }
    assert OccursAt(text, replace, 0);
  }

  // ----- the old string does not come back

  /** The old string is `j` characters from the end of the new one, a filler, and `l` from its start. */
  predicate Straddles(find: string, replace: string, j: nat, l: nat) {
    && j < |replace| && l < |replace| && 1 <= j + l <= |find|
    && find[..j] == replace[|replace| - j..] && find[|find| - l..] == replace[..l]
  }

  function Filler(find: string, j: nat, l: nat): string
    requires j + l <= |find|
  {
    find[j..|find| - l]
  }

  /** The smallest text in which the edit leaves that filler between such neighbours. */
  function Bed(find: string, j: nat, l: nat): string
    requires j + l <= |find|
  {
    (if j > 0 then find else "") + Filler(find, j, l) + (if l > 0 then find else "")
  }

  /** Wherever the two strings overlap so, that text does not split there, or has the new string already. */
  ghost predicate Forgotten(find: string, replace: string) {
    forall j: nat, l: nat | Straddles(find, replace, j, l) :: ForgottenAt(find, replace, j, l)
  }

  ghost predicate ForgottenAt(find: string, replace: string, j: nat, l: nat)
    requires j + l <= |find|
  {
    (l > 0 && !FirstHitAtEnd(Filler(find, j, l), find)) || Contains(Bed(find, j, l), replace)
  }

  /** In no text that does not have the new string does the edit leave or make a hit of the old one. */
  ghost predicate NeverReturns(find: string, replace: string) {
    forall text | !Contains(text, replace) :: !Contains(ApplyEdit(text, find, replace), find)
  }

  lemma NeverReturnsIff(find: string, replace: string)
    requires find != "" && replace != "" && !Contains(find, replace) && !Contains(replace, find)
    ensures NeverReturns(find, replace) <==> Forgotten(find, replace)
  {
    if Forgotten(find, replace) {
      forall text | !Contains(text, replace)
        ensures !Contains(ApplyEdit(text, find, replace), find)
      {
        ForgottenInText(text, find, replace);
      }
    } else {
      var j: nat, l: nat :| Straddles(find, replace, j, l) && !ForgottenAt(find, replace, j, l);
      BedReturns(find, replace, j, l);
    }
  }

  lemma ForgottenInText(text: string, find: string, replace: string)
    requires find != "" && replace != "" && !Contains(find, replace) && !Contains(replace, find)
    requires Forgotten(find, replace) && !Contains(text, replace)
    ensures !Contains(ApplyEdit(text, find, replace), find)
  {
    var parts := SplitOn(text, find);
    JoinContainsIff(parts, replace, find);
    forall i: nat | i < |parts|
      ensures !Contains(Around(parts, i, replace), find)
    {
      forall k
        ensures !OccursAt(Around(parts, i, replace), find, k)
      {
        if OccursAt(Around(parts, i, replace), find, k) {
          ForgottenInPiece(text, find, replace, i, k);
        }
      }
    }
  }

  /** A hit around a piece would straddle, and the text that forbids that straddling is part of this one. */
  lemma ForgottenInPiece(text: string, find: string, replace: string, i: nat, k: nat)
    requires find != "" && replace != "" && !Contains(find, replace) && !Contains(replace, find)
    requires i < |SplitOn(text, find)| && OccursAt(Around(SplitOn(text, find), i, replace), find, k)
    requires Forgotten(find, replace)
    ensures Contains(text, replace)
  {
    var part := SplitOn(text, find)[i];
    SplitPartsHaveNoHit(text, find, i);
    var left, right := if i > 0 then replace else "", if i < |SplitOn(text, find)| - 1 then replace else "";
    var j, l, start, end := HitStraddles(left, part, right, find, replace, k);
    BedHasNew(text, find, replace, i, j, l, start, end);
  }

  lemma BedHasNew(text: string, find: string, replace: string, i: nat, j: nat, l: nat, start: nat, end: nat)
    requires find != "" && replace != "" && Forgotten(find, replace) && Straddles(find, replace, j, l)
    requires i < |SplitOn(text, find)| && start <= end <= |SplitOn(text, find)[i]|
    requires Filler(find, j, l) == SplitOn(text, find)[i][start..end]
    requires j > 0 ==> i > 0 && start == 0
    requires l > 0 ==> i < |SplitOn(text, find)| - 1 && end == |SplitOn(text, find)[i]|
    ensures Contains(text, replace)
  {
    var part := SplitOn(text, find)[i];
    assert ForgottenAt(find, replace, j, l);
    if l > 0 {
      SplitCutsAreClean(text, find);
      SuffixKeepsFirstHit(part, find, start);
      assert part[start..end] == part[start..];
    }
    BedOccurs(text, find, i, start, end, j, l);
    ContainsTransitive(text, Bed(find, j, l), replace);
  }

  ghost predicate Apart(a: string, b: string) {
    !Contains(a, b) && !Contains(b, a)
  }

  /** A hit in `left + part + right`, none of which has it, goes over an edge, and covers neither side. */
  lemma HitGoesOver(left: string, part: string, right: string, find: string, k: nat)
    requires find != "" && !Contains(part, find) && OccursAt(left + part + right, find, k)
    requires (left != "" ==> Apart(left, find)) && (right != "" ==> Apart(right, find))
    ensures k < |left| + |part| && |left| < k + |find| && (k < |left| || |left| + |part| < k + |find|)
    ensures left != "" ==> 0 < k
    ensures right != "" ==> k + |find| < |left| + |part| + |right|
  {
    var whole, a, b := left + part + right, |left|, |left| + |part|;
    assert whole[0..a] == left && whole[a..b] == part && whole[b..|whole|] == right;
    if k >= b {
      HitInSlice(whole, find, k, b, |whole|);
    } else if k + |find| <= a {
      HitInSlice(whole, find, k, 0, a);
    } else if k >= a && k + |find| <= b {
      HitInSlice(whole, find, k, a, b);
    } else {
      if k == 0 {
        HitCovers(whole, find, k, 0, a);
      }
      if k + |find| == |whole| {
        HitCovers(whole, find, k, b, |whole|);
      }
    }
  }

  lemma HitStraddles(left: string, part: string, right: string, find: string, replace: string, k: nat)
      returns (j: nat, l: nat, start: nat, end: nat)
    requires find != "" && replace != "" && !Contains(part, find) && Apart(replace, find)
    requires left in {"", replace} && right in {"", replace} && OccursAt(left + part + right, find, k)
    ensures Straddles(find, replace, j, l) && start <= end <= |part| && Filler(find, j, l) == part[start..end]
    ensures j > 0 ==> left != "" && start == 0
    ensures l > 0 ==> right != "" && end == |part|
  {
    HitGoesOver(left, part, right, find, k);
    j := if k < |left| then |left| - k else 0;
    l := if |left| + |part| < k + |find| then k + |find| - |left| - |part| else 0;
    start, end := k + j - |left|, k + |find| - l - |left|;
    FrontStraddles(left, part, right, find, k);
    BackStraddles(left, part, right, find, k);
    FillerIs(left, part, right, find, k, j, l);
  }

  lemma FrontStraddles(left: string, part: string, right: string, find: string, k: nat)
    requires OccursAt(left + part + right, find, k) && |left| < k + |find|
    ensures k < |left| ==> find[..|left| - k] == left[k..]
  {
    assert left + (part + right) == left + part + right;
    if k < |left| {
      StraddlingHit(left, part + right, find, k);
    }
  }

  lemma BackStraddles(left: string, part: string, right: string, find: string, k: nat)
    requires OccursAt(left + part + right, find, k) && k < |left| + |part|
    ensures var l := k + |find| - |left| - |part|; l > 0 ==> find[|find| - l..] == right[..l]
  {
    if k + |find| > |left| + |part| {
      StraddlingHit(left + part, right, find, k);
    }
  }

  lemma FillerIs(left: string, part: string, right: string, find: string, k: nat, j: nat, l: nat)
    requires OccursAt(left + part + right, find, k) && j + l <= |find|
    requires |left| <= k + j && k + |find| - l <= |left| + |part|
    ensures Filler(find, j, l) == part[k + j - |left|..k + |find| - l - |left|]
  {
    SliceOfSlice(left + part + right, k, k + |find|, j, |find| - l);
    MiddleSlice(left, part, right, k + j - |left|, k + |find| - l - |left|);
  }

  lemma MiddleSlice(left: string, part: string, right: string, start: nat, end: nat)
    requires start <= end <= |part|
    ensures (left + part + right)[|left| + start..|left| + end] == part[start..end]
  {
  }

  lemma BedOccurs(text: string, find: string, i: nat, start: nat, end: nat, j: nat, l: nat)
    requires find != "" && i < |SplitOn(text, find)| && start <= end <= |SplitOn(text, find)[i]|
    requires j + l <= |find| && Filler(find, j, l) == SplitOn(text, find)[i][start..end]
    requires j > 0 ==> i > 0 && start == 0
    requires l > 0 ==> i < |SplitOn(text, find)| - 1 && end == |SplitOn(text, find)[i]|
    ensures Contains(text, Bed(find, j, l))
  {
    var parts := SplitOn(text, find);
    JoinUndoesSplit(text, find);
    AroundOccurs(parts, i, find);
    TrimmedOccurs(if i > 0 then find else "", parts[i], if i < |parts| - 1 then find else "", start, end,
                  if j > 0 then find else "", if l > 0 then find else "");
    ContainsTransitive(text, Around(parts, i, find), Bed(find, j, l));
  }

  lemma BedReturns(find: string, replace: string, j: nat, l: nat)
    requires find != "" && replace != "" && Straddles(find, replace, j, l) && !ForgottenAt(find, replace, j, l)
    ensures !Contains(Bed(find, j, l), replace) && Contains(ApplyEdit(Bed(find, j, l), find, replace), find)
  {
    BedIsClean(find, j, l);
    BedJoins(find, j, l, find);
    SplitFindsCleanCuts(BedParts(find, j, l), find);
    BedHasOld(find, replace, j, l);
  }

  lemma BedHasOld(find: string, replace: string, j: nat, l: nat)
    requires Straddles(find, replace, j, l)
    ensures Contains(JoinOn(BedParts(find, j, l), replace), find)
  {
    BedJoins(find, j, l, replace);
    var left, right := if j > 0 then replace else "", if l > 0 then replace else "";
    var from, to := left[..|left| - j], right[l..];
    assert left == from + find[..j] && right == find[|find| - l..] + to;
    Regroup(from, find[..j], Filler(find, j, l), find[|find| - l..], to);
    HalvesMeet(find, j, |find| - l);
    HitIsContained(from, to, find);
  }

  lemma HalvesMeet(s: string, a: nat, b: nat)
    requires a <= b <= |s|
    ensures s[..a] + s[a..b] + s[b..] == s
  {
  }

  function BedParts(find: string, j: nat, l: nat): seq<string>
    requires j + l <= |find|
  {
    (if j > 0 then [""] else []) + [Filler(find, j, l)] + (if l > 0 then [""] else [])
  }

  lemma BedIsClean(find: string, j: nat, l: nat)
    requires 1 <= j + l <= |find| && (l > 0 ==> FirstHitAtEnd(Filler(find, j, l), find))
    ensures CleanCuts(BedParts(find, j, l), find)
  {
    assert FirstHitAtEnd("", find);
  }

  lemma BedJoins(find: string, j: nat, l: nat, s: string)
    requires j + l <= |find|
    ensures JoinOn(BedParts(find, j, l), s)
            == (if j > 0 then s else "") + Filler(find, j, l) + (if l > 0 then s else "")
  {
    var middle := Filler(find, j, l);
    if l > 0 {
      assert JoinOn([middle] + [""], s) == middle + s + "" by {
        JoinCons(middle, [""], s);
      }
    }
    var rest := [middle] + (if l > 0 then [""] else []);
    assert JoinOn(rest, s) == middle + (if l > 0 then s else "");
    if j > 0 {
      JoinCons("", rest, s);
      assert BedParts(find, j, l) == [""] + rest;
    } else {
      assert BedParts(find, j, l) == rest;
    }
  }

  lemma Regroup(a: string, b: string, c: string, d: string, e: string)
    ensures (a + b) + c + (d + e) == a + (b + c + d) + e
  {
  }
}
