/**
 JavaScript's `split` at a string and `join` with a string, occurrences, and when the cuts
 of one survive replacing the separator by another.
 */
module ExactText {

  predicate OccursAt(text: string, p: string, i: int) {
    0 <= i && i + |p| <= |text| && text[i..i + |p|] == p
  }

  ghost predicate Contains(text: string, p: string) {
    exists i :: OccursAt(text, p, i)
  }

  /** `text.split(p)`: cut at the leftmost non-overlapping occurrences; an empty `p` cuts into characters. */
  function SplitOn(text: string, p: string): (parts: seq<string>)
    ensures p != "" ==> |parts| > 0
    decreases |text|
  {
    if p == "" then (if text == "" then [] else [[text[0]]] + SplitOn(text[1..], p))
    else if |text| < |p| then [text]
    else if OccursAt(text, p, 0) then [""] + SplitOn(text[|p|..], p)
    else
      var rest := SplitOn(text[1..], p);
      [[text[0]] + rest[0]] + rest[1..]
  }

  function JoinOn(parts: seq<string>, sep: string): string {
    if parts == [] then ""
    else if |parts| == 1 then parts[0]
    else parts[0] + sep + JoinOn(parts[1..], sep)
  }

  lemma JoinCons(first: string, rest: seq<string>, sep: string)
    requires rest != []
    ensures JoinOn([first] + rest, sep) == first + sep + JoinOn(rest, sep)
  {
    assert ([first] + rest)[1..] == rest;
  }

  /** Lengthening the first part lengthens the joined text. */
  lemma JoinGrowFirst(c: char, rest: seq<string>, sep: string)
    requires rest != []
    ensures JoinOn([[c] + rest[0]] + rest[1..], sep) == [c] + JoinOn(rest, sep)
  {
    if |rest| > 1 {
      JoinCons([c] + rest[0], rest[1..], sep);
      assert [c] + (rest[0] + sep + JoinOn(rest[1..], sep)) == ([c] + rest[0]) + sep + JoinOn(rest[1..], sep);
    } else {
      assert [[c] + rest[0]] + rest[1..] == [[c] + rest[0]];
    }
  }

  lemma {:induction false} JoinCharacters(text: string)
    ensures JoinOn(SplitOn(text, ""), "") == text
    decreases |text|
  {
    if text != "" {
      JoinCharacters(text[1..]);
      assert text == [text[0]] + text[1..];
      if |text| > 1 {
        JoinCons([text[0]], SplitOn(text[1..], ""), "");
        assert [text[0]] + "" + text[1..] == text;
      }
    }
  }

  lemma {:induction false} JoinUndoesSplit(text: string, p: string)
    ensures JoinOn(SplitOn(text, p), p) == text
    decreases |text|
  {
    if p == "" {
      JoinCharacters(text);
    } else if |text| >= |p| {
      if OccursAt(text, p, 0) {
        JoinUndoesSplit(text[|p|..], p);
        JoinAfterHit(text, p);
      } else {
        JoinUndoesSplit(text[1..], p);
        JoinAfterSkip(text, p);
      }
    }
  }

  lemma JoinAfterHit(text: string, p: string)
    requires p != "" && OccursAt(text, p, 0) && JoinOn(SplitOn(text[|p|..], p), p) == text[|p|..]
    ensures JoinOn(SplitOn(text, p), p) == text
  {
    var rest := SplitOn(text[|p|..], p);
    assert SplitOn(text, p) == [""] + rest;
    JoinCons("", rest, p);
    HitThenRest(text, p);
  }

  lemma HitThenRest(text: string, p: string)
    requires OccursAt(text, p, 0)
    ensures "" + p + text[|p|..] == text
  {
    assert text == text[..|p|] + text[|p|..];
    assert text[0..|p|] == text[..|p|] && "" + p == p;
  }

  lemma JoinAfterSkip(text: string, p: string)
    requires p != "" && |text| >= |p| && !OccursAt(text, p, 0) && JoinOn(SplitOn(text[1..], p), p) == text[1..]
    ensures JoinOn(SplitOn(text, p), p) == text
  {
    JoinGrowFirst(text[0], SplitOn(text[1..], p), p);
    assert text == [text[0]] + text[1..];
  }

  // ----- which cuts splitting finds

  /** In `part + p` the separator does not occur before its own place. */
  ghost predicate FirstHitAtEnd(part: string, p: string) {
    forall k | 0 <= k < |part| :: !OccursAt(part + p, p, k)
  }

  /** Every part but the last is followed by its first hit, and the last has none. */
  ghost predicate CleanCuts(parts: seq<string>, p: string) {
    && |parts| > 0
    && (forall i | 0 <= i < |parts| - 1 :: FirstHitAtEnd(parts[i], p))
    && !Contains(parts[|parts| - 1], p)
  }

  lemma OccursInPrefix(a: string, b: string, c: string, p: string, k: int)
    requires k + |p| <= |a| + |b|
    ensures OccursAt(a + b + c, p, k) <==> OccursAt(a + b, p, k)
  {
    if 0 <= k {
      assert (a + b + c)[k..k + |p|] == (a + b)[k..k + |p|];
    }
  }

  lemma OccursInFront(a: string, b: string, p: string, k: int)
    requires k + |p| <= |a|
    ensures OccursAt(a + b, p, k) <==> OccursAt(a, p, k)
  {
    if 0 <= k {
      assert (a + b)[k..k + |p|] == a[k..k + |p|];
    }
  }

  lemma OccursShift(a: string, b: string, p: string, k: int)
    requires k >= |a|
    ensures OccursAt(a + b, p, k) <==> OccursAt(b, p, k - |a|)
  {
    if k + |p| <= |a| + |b| {
      assert (a + b)[k..k + |p|] == b[k - |a|..k - |a| + |p|];
    }
  }

  /** Skipping characters before the first hit. */
  lemma {:induction false} SplitAfterFirstHit(part: string, p: string, rest: string)
    requires p != "" && FirstHitAtEnd(part, p)
    ensures SplitOn(part + p + rest, p) == [part] + SplitOn(rest, p)
    decreases |part|
  {
    var text := part + p + rest;
    if part == "" {
      assert text == p + rest && text[..|p|] == p && text[|p|..] == rest;
    } else {
      assert !OccursAt(part + p, p, 0);
      OccursInPrefix(part, p, rest, p, 0);
      assert part == [part[0]] + part[1..];
      assert text[1..] == part[1..] + p + rest;
      TailKeepsFirstHit(part, p);
      SplitAfterFirstHit(part[1..], p, rest);
    }
  }

  lemma TailKeepsFirstHit(part: string, p: string)
    requires part != "" && FirstHitAtEnd(part, p)
    ensures FirstHitAtEnd(part[1..], p)
  {
    forall k | 0 <= k < |part[1..]|
      ensures !OccursAt(part[1..] + p, p, k)
    {
      assert part + p == [part[0]] + (part[1..] + p);
      OccursShift([part[0]], part[1..] + p, p, k + 1);
    }
  }

  lemma {:induction false} SplitWithoutHit(text: string, p: string)
    requires p != "" && !Contains(text, p)
    ensures SplitOn(text, p) == [text]
    decreases |text|
  {
    if |text| >= |p| {
      assert !OccursAt(text, p, 0);
      assert text == [text[0]] + text[1..];
      forall k
        ensures !OccursAt(text[1..], p, k)
      {
        if k >= 0 {
          OccursShift([text[0]], text[1..], p, k + 1);
        }
      }
      SplitWithoutHit(text[1..], p);
    }
  }

  /** Clean cuts are found again. */
  lemma {:induction false} SplitFindsCleanCuts(parts: seq<string>, p: string)
    requires p != "" && CleanCuts(parts, p)
    ensures SplitOn(JoinOn(parts, p), p) == parts
    decreases |parts|
  {
    if |parts| == 1 {
      SplitWithoutHit(parts[0], p);
    } else {
      SplitAfterFirstHit(parts[0], p, JoinOn(parts[1..], p));
      CleanTail(parts, p);
      SplitFindsCleanCuts(parts[1..], p);
    }
  }

  lemma CleanTail(parts: seq<string>, p: string)
    requires |parts| > 1 && CleanCuts(parts, p)
    ensures CleanCuts(parts[1..], p)
  {
    forall i | 0 <= i < |parts[1..]| - 1
      ensures FirstHitAtEnd(parts[1..][i], p)
    {
      assert FirstHitAtEnd(parts[i + 1], p);
    }
  }

  /** Splitting only ever produces clean cuts. */
  lemma {:induction false} SplitCutsAreClean(text: string, p: string)
    requires p != ""
    ensures CleanCuts(SplitOn(text, p), p)
    decreases |text|
  {
    if |text| >= |p| {
      if OccursAt(text, p, 0) {
        SplitCutsAreClean(text[|p|..], p);
        CleanCons("", SplitOn(text[|p|..], p), p);
      } else {
        SplitCutsAreClean(text[1..], p);
        JoinUndoesSplit(text[1..], p);
        CleanGrow(text, SplitOn(text[1..], p), p);
      }
    }
  }

  /** One more character in front, where no hit starts. */
  lemma CleanGrow(text: string, rest: seq<string>, p: string)
    requires text != "" && !OccursAt(text, p, 0) && CleanCuts(rest, p) && JoinOn(rest, p) == text[1..]
    ensures CleanCuts([[text[0]] + rest[0]] + rest[1..], p)
  {
    assert text == [text[0]] + text[1..];
    if |rest| == 1 {
      NoHitCons(text, p);
    } else {
      FirstHitCons(text, rest, p);
      CleanTail(rest, p);
      CleanCons([text[0]] + rest[0], rest[1..], p);
    }
  }

  lemma CleanCons(part: string, rest: seq<string>, p: string)
    requires FirstHitAtEnd(part, p) && CleanCuts(rest, p)
    ensures CleanCuts([part] + rest, p)
  {
    var parts := [part] + rest;
    forall i | 0 <= i < |parts| - 1
      ensures FirstHitAtEnd(parts[i], p)
    {
      if i > 0 {
        assert parts[i] == rest[i - 1];
      }
    }
  }

  lemma NoHitCons(text: string, p: string)
    requires text != "" && !OccursAt(text, p, 0) && !Contains(text[1..], p)
    ensures !Contains(text, p)
  {
    forall k
      ensures !OccursAt(text, p, k)
    {
      if k >= 1 {
        assert text == [text[0]] + text[1..];
        OccursShift([text[0]], text[1..], p, k);
        assert !OccursAt(text[1..], p, k - 1);
      }
    }
  }

  lemma FirstHitCons(text: string, rest: seq<string>, p: string)
    requires text != "" && !OccursAt(text, p, 0) && |rest| > 1 && FirstHitAtEnd(rest[0], p)
    requires JoinOn(rest, p) == text[1..]
    ensures FirstHitAtEnd([text[0]] + rest[0], p)
  {
    var part := [text[0]] + rest[0];
    assert part + p == [text[0]] + (rest[0] + p);
    assert text == part + p + JoinOn(rest[1..], p);
    forall k | 0 <= k < |part|
      ensures !OccursAt(part + p, p, k)
    {
      if k == 0 {
        OccursInPrefix(part, p, JoinOn(rest[1..], p), p, 0);
      } else {
        OccursShift([text[0]], rest[0] + p, p, k);
      }
    }
  }

  /** The exact condition: joining with a new separator keeps the cuts iff they are clean for it. */
  lemma CutsSurviveIff(parts: seq<string>, p: string)
    requires p != "" && |parts| > 0
    ensures SplitOn(JoinOn(parts, p), p) == parts <==> CleanCuts(parts, p)
  {
    if CleanCuts(parts, p) {
      SplitFindsCleanCuts(parts, p);
    } else {
      SplitCutsAreClean(JoinOn(parts, p), p);
    }
  }

  lemma {:induction false} OneHitIsTwoParts(text: string, p: string)
    requires p != ""
    ensures |SplitOn(text, p)| == 1 <==> !Contains(text, p)
  {
    if !Contains(text, p) {
      SplitWithoutHit(text, p);
    }
    if |SplitOn(text, p)| == 1 {
      SplitCutsAreClean(text, p);
      JoinUndoesSplit(text, p);
    }
  }

  lemma PartAfterHit(text: string, p: string, i: nat)
    requires p != "" && OccursAt(text, p, 0) && 0 < i < |SplitOn(text, p)|
    ensures i - 1 < |SplitOn(text[|p|..], p)| && SplitOn(text, p)[i] == SplitOn(text[|p|..], p)[i - 1]
  {
    assert |text| >= |p|;
  }

  lemma PartAfterSkip(text: string, p: string, i: nat)
    requires p != "" && |text| >= |p| && !OccursAt(text, p, 0) && 0 < i < |SplitOn(text, p)|
    ensures i < |SplitOn(text[1..], p)| && SplitOn(text, p)[i] == SplitOn(text[1..], p)[i]
  {
  }

  lemma {:induction false} PartsOccur(text: string, p: string, i: nat) returns (at: nat)
    requires p != "" && i < |SplitOn(text, p)|
    ensures OccursAt(text, SplitOn(text, p)[i], at)
    decreases |text|
  {
    if i == 0 {
      FirstPartAtStart(text, p);
      at := 0;
    } else if OccursAt(text, p, 0) {
      PartAfterHit(text, p, i);
      at := PartsOccur(text[|p|..], p, i - 1);
      at := OccursLater(text, |p|, SplitOn(text[|p|..], p)[i - 1], at);
    } else {
      assert |text| >= |p|;
      PartAfterSkip(text, p, i);
      at := PartsOccur(text[1..], p, i);
      at := OccursLater(text, 1, SplitOn(text[1..], p)[i], at);
    }
  }

  lemma OccursLater(text: string, n: nat, q: string, at: nat) returns (later: nat)
    requires n <= |text| && OccursAt(text[n..], q, at)
    ensures later == at + n && OccursAt(text, q, later)
  {
    later := at + n;
    assert text == text[..n] + text[n..];
    OccursShift(text[..n], text[n..], q, later);
  }

  lemma FirstPartAtStart(text: string, p: string)
    requires p != ""
    ensures OccursAt(text, SplitOn(text, p)[0], 0)
  {
    JoinUndoesSplit(text, p);
    var parts := SplitOn(text, p);
    assert text[0..|parts[0]|] == parts[0];
  }

  lemma OccursInside(text: string, part: string, at: int, q: string, k: int)
    requires OccursAt(text, part, at) && OccursAt(part, q, k)
    ensures OccursAt(text, q, at + k)
  {
    forall i | 0 <= i < |q|
      ensures text[at + k..at + k + |q|][i] == q[i]
    {
      assert part[k..k + |q|][i] == part[k + i];
      assert text[at..at + |part|][k + i] == text[at + k + i];
    }
  }

  /** A part has no hit of any string its text has no hit of. */
  lemma PartsHaveNoHit(text: string, p: string, q: string, i: nat)
    requires p != "" && i < |SplitOn(text, p)| && !Contains(text, q)
    ensures !Contains(SplitOn(text, p)[i], q)
  {
    var part := SplitOn(text, p)[i];
    var at := PartsOccur(text, p, i);
    if k :| OccursAt(part, q, k) {
      OccursInside(text, part, at, q, k);
    }
  }

  /** Splitting, one character at a time: no hit where character `m` differs. */
  lemma SplitSkip(text: string, p: string, m: nat, first: string, rest: seq<string>)
    requires |text| >= |p| && m < |p| && text[m] != p[m] && SplitOn(text[1..], p) == [first] + rest
    ensures SplitOn(text, p) == [[text[0]] + first] + rest
  {
    assert text[0..|p|][m] == text[m];
    assert ([first] + rest)[1..] == rest;
  }

  lemma SplitHit(p: string, tail: string)
    requires p != ""
    ensures SplitOn(p + tail, p) == [""] + SplitOn(tail, p)
  {
    assert (p + tail)[..|p|] == p && (p + tail)[|p|..] == tail;
  }
}
