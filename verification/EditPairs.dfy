/**
 Two edits whose strings cannot be confused do not disturb each other: one keeps the pieces,
 the state and the prospects of the other, and they can be made in either order.
 */
module EditPairs {
  import opened ExactText
  import opened ExactPieces
  import opened ExactEdits
  import opened EditConditions
  import opened EditLaws

  /** Neither string of one edit contains or overlaps either string of the other. */
  ghost predicate Independent(f: string, r: string, g: string, s: string) {
    Separable(f, g) && Separable(f, s) && Separable(r, g) && Separable(r, s)
  }

  // ----- an edit, one character at a time

  lemma ApplyHit(text: string, f: string, r: string)
    requires f != "" && OccursAt(text, f, 0)
    ensures ApplyEdit(text, f, r) == r + ApplyEdit(text[|f|..], f, r)
  {
    JoinCons("", SplitOn(text[|f|..], f), r);
    assert "" + r == r;
  }

  lemma ApplySkip(text: string, f: string, r: string)
    requires f != "" && text != "" && !OccursAt(text, f, 0)
    ensures ApplyEdit(text, f, r) == [text[0]] + ApplyEdit(text[1..], f, r)
  {
    if |text| >= |f| {
      JoinGrowFirst(text[0], SplitOn(text[1..], f), r);
    } else {
      assert text == [text[0]] + text[1..];
    }
  }

  lemma ApplyNothing(text: string, f: string, r: string)
    requires f != "" && !Contains(text, f)
    ensures ApplyEdit(text, f, r) == text
  {
    SplitWithoutHit(text, f);
  }

  /** No hit goes over the place where two texts meet. */
  ghost predicate Seam(a: string, b: string, f: string) {
    forall k | 0 <= k < |a| < k + |f| :: !OccursAt(a + b, f, k)
  }

  lemma SeamTail(a: string, b: string, f: string, n: nat)
    requires n <= |a| && Seam(a, b, f)
    ensures Seam(a[n..], b, f)
  {
    assert a + b == a[..n] + (a[n..] + b);
    forall k | 0 <= k < |a[n..]| < k + |f|
      ensures !OccursAt(a[n..] + b, f, k)
    {
      OccursShift(a[..n], a[n..] + b, f, k + n);
      assert !OccursAt(a + b, f, k + n);
    }
  }

  /** There both texts are edited on their own. */
  lemma {:induction false} ApplyAtSeam(a: string, b: string, f: string, r: string)
    requires f != "" && Seam(a, b, f)
    ensures ApplyEdit(a + b, f, r) == ApplyEdit(a, f, r) + ApplyEdit(b, f, r)
    decreases |a|
  {
    if a == "" {
      assert a + b == b && ApplyEdit("", f, r) == "";
    } else if OccursAt(a + b, f, 0) {
      SeamTail(a, b, f, |f|);
      ApplyAtSeam(a[|f|..], b, f, r);
      SeamAfterHit(a, b, f, r);
    } else {
      SeamTail(a, b, f, 1);
      ApplyAtSeam(a[1..], b, f, r);
      SeamAfterSkip(a, b, f, r);
    }
  }

  lemma SeamAfterHit(a: string, b: string, f: string, r: string)
    requires f != "" && |f| <= |a| && OccursAt(a + b, f, 0)
    requires ApplyEdit(a[|f|..] + b, f, r) == ApplyEdit(a[|f|..], f, r) + ApplyEdit(b, f, r)
    ensures ApplyEdit(a + b, f, r) == ApplyEdit(a, f, r) + ApplyEdit(b, f, r)
  {
    OccursInFront(a, b, f, 0);
    ApplyHit(a, f, r);
    ApplyHit(a + b, f, r);
    RestOfSum(a, b, |f|);
    Prepend(r, ApplyEdit(a[|f|..], f, r), ApplyEdit(b, f, r));
  }

  lemma SeamAfterSkip(a: string, b: string, f: string, r: string)
    requires f != "" && a != "" && !OccursAt(a + b, f, 0)
    requires ApplyEdit(a[1..] + b, f, r) == ApplyEdit(a[1..], f, r) + ApplyEdit(b, f, r)
    ensures ApplyEdit(a + b, f, r) == ApplyEdit(a, f, r) + ApplyEdit(b, f, r)
  {
    NoHitInPart(a, b, f);
    ApplySkip(a, f, r);
    ApplySkip(a + b, f, r);
    RestOfSum(a, b, 1);
    Prepend([a[0]], ApplyEdit(a[1..], f, r), ApplyEdit(b, f, r));
  }

  lemma RestOfSum(a: string, b: string, n: nat)
    requires n <= |a|
    ensures (a + b)[n..] == a[n..] + b
  {
  }

  lemma Prepend(a: string, b: string, c: string)
    ensures a + (b + c) == (a + b) + c
  {
  }

  lemma NoHitInPart(a: string, b: string, f: string)
    requires !OccursAt(a + b, f, 0)
    ensures !OccursAt(a, f, 0)
  {
    if OccursAt(a, f, 0) {
      OccursInFront(a, b, f, 0);
    }
  }

  // ----- strings that cannot be confused

  /** No hit of one goes over the front of the other. */
  lemma FrontIsSeam(x: string, s: string, y: string, f: string)
    requires Separable(f, s) && s != ""
    ensures Seam(x, s + y, f)
  {
    assert x + s + y == x + (s + y);
    forall k | 0 <= k < |x| < k + |f|
      ensures !OccursAt(x + (s + y), f, k)
    {
      if OccursAt(x + (s + y), f, k) {
        OverFront(x, s, y, f, k);
      }
    }
  }

  lemma OverFront(x: string, s: string, y: string, f: string, k: nat)
    requires OccursAt(x + s + y, f, k) && k < |x| < k + |f| && s != ""
    ensures Contains(f, s) || !NoOverlap(f, s)
  {
    var whole := x + s + y;
    if k + |f| >= |x| + |s| {
      assert whole[|x|..|x| + |s|] == s;
      HitCovers(whole, f, k, |x|, |x| + |s|);
    } else {
      OccursInFront(x + s, y, f, k);
      StraddlingHit(x, s, f, k);
    }
  }

  /** Nor over its end. */
  lemma BackIsSeam(s: string, y: string, f: string)
    requires Separable(f, s)
    ensures Seam(s, y, f)
  {
    forall k | 0 <= k < |s| < k + |f|
      ensures !OccursAt(s + y, f, k)
    {
      if OccursAt(s + y, f, k) {
        OverBack(s, y, f, k);
      }
    }
  }

  lemma OverBack(s: string, y: string, f: string, k: nat)
    requires OccursAt(s + y, f, k) && k < |s| < k + |f|
    ensures !NoOverlap(s, f)
  {
    StraddlingHit(s, y, f, k);
    var n := |s| - k;
    assert s[|s| - n..] == f[..n];
  }

  lemma ApplyAround(x: string, s: string, y: string, f: string, r: string)
    requires f != "" && s != "" && Separable(f, s)
    ensures ApplyEdit(x + s + y, f, r) == ApplyEdit(x, f, r) + s + ApplyEdit(y, f, r)
  {
    FrontIsSeam(x, s, y, f);
    ApplyAtSeam(x, s + y, f, r);
    BackIsSeam(s, y, f);
    ApplyAtSeam(s, y, f, r);
    ApplyNothing(s, f, r);
    Prepend(x, s, y);
    Prepend(ApplyEdit(x, f, r), s, ApplyEdit(y, f, r));
  }

  /** Each piece edited on its own. */
  function EditEach(parts: seq<string>, f: string, r: string): (edited: seq<string>)
    ensures |edited| == |parts|
    ensures forall i | 0 <= i < |parts| :: edited[i] == ApplyEdit(parts[i], f, r)
  {
    if parts == [] then [] else [ApplyEdit(parts[0], f, r)] + EditEach(parts[1..], f, r)
  }

  lemma {:induction false} ApplyToJoined(parts: seq<string>, q: string, f: string, r: string)
    requires |parts| > 0 && f != "" && q != "" && Separable(f, q)
    ensures ApplyEdit(JoinOn(parts, q), f, r) == JoinOn(EditEach(parts, f, r), q)
  {
    if |parts| > 1 {
      ApplyToJoined(parts[1..], q, f, r);
      ApplyAround(parts[0], q, JoinOn(parts[1..], q), f, r);
      JoinCons(ApplyEdit(parts[0], f, r), EditEach(parts[1..], f, r), q);
    }
  }

  /** An edit makes no hit of a string that cannot be confused with its target. */
  lemma ApplyMakesNoHit(text: string, f: string, r: string, q: string)
    requires f != "" && r != "" && q != "" && Separable(r, q) && !Contains(text, q)
    ensures !Contains(ApplyEdit(text, f, r), q)
  {
    var parts := SplitOn(text, f);
    JoinContainsIff(parts, r, q);
    forall i: nat | i < |parts|
      ensures !Contains(Around(parts, i, r), q)
    {
      PartsHaveNoHit(text, f, q, i);
      AroundHasNoHit(parts, i, r, q);
    }
  }

  lemma AroundHasNoHit(parts: seq<string>, i: nat, r: string, q: string)
    requires r != "" && q != "" && Separable(r, q) && i < |parts| && !Contains(parts[i], q)
    ensures !Contains(Around(parts, i, r), q)
  {
    var left, right := if i > 0 then r else "", if i < |parts| - 1 then r else "";
    forall k
      ensures !OccursAt(left + parts[i] + right, q, k)
    {
      if OccursAt(left + parts[i] + right, q, k) {
        var j, l, start, end := HitStraddles(left, parts[i], right, q, r, k);
        StraddlesOverlaps(q, r, j, l);
      }
    }
  }

  // ----- one edit keeps the pieces of the other

  lemma FirstHitIsFresh(part: string, q: string)
    requires q != ""
    ensures FirstHitAtEnd(part, q) <==> !Contains(part + q[..|q| - 1], q)
  {
    var short := q[..|q| - 1];
    assert part + q == part + short + [q[|q| - 1]];
    forall k | 0 <= k < |part|
      ensures OccursAt(part + q, q, k) <==> OccursAt(part + short, q, k)
    {
      OccursInFront(part + short, [q[|q| - 1]], q, k);
    }
  }

  lemma FirstHitIsKept(part: string, f: string, r: string, q: string)
    requires f != "" && r != "" && q != "" && Separable(f, q) && Separable(r, q) && FirstHitAtEnd(part, q)
    ensures FirstHitAtEnd(ApplyEdit(part, f, r), q)
  {
    var short := q[..|q| - 1];
    FirstHitIsFresh(part, q);
    FirstHitIsFresh(ApplyEdit(part, f, r), q);
    ShortIsSeam(part, q, f);
    ApplyAtSeam(part, short, f, r);
    ShortHasNoHit(q, f);
    ApplyNothing(short, f, r);
    ApplyMakesNoHit(part + short, f, r, q);
  }

  lemma ShortHasNoHit(q: string, f: string)
    requires q != "" && !Contains(q, f)
    ensures !Contains(q[..|q| - 1], f)
  {
    SliceIsContained(q, 0, |q| - 1);
    if Contains(q[..|q| - 1], f) {
      assert q[0..|q| - 1] == q[..|q| - 1];
      ContainsTransitive(q, q[..|q| - 1], f);
    }
  }

  lemma ShortIsSeam(part: string, q: string, f: string)
    requires q != "" && Separable(f, q)
    ensures Seam(part, q[..|q| - 1], f)
  {
    var short := q[..|q| - 1];
    assert part + q == part + short + [q[|q| - 1]] && part + (q + "") == part + q;
    FrontIsSeam(part, q, "", f);
    forall k | 0 <= k < |part| < k + |f|
      ensures !OccursAt(part + short, f, k)
    {
      if OccursAt(part + short, f, k) {
        OccursInFront(part + short, [q[|q| - 1]], f, k);
      }
    }
  }

  lemma CleanCutsAreKept(parts: seq<string>, f: string, r: string, q: string)
    requires f != "" && r != "" && q != "" && Separable(f, q) && Separable(r, q) && CleanCuts(parts, q)
    ensures CleanCuts(EditEach(parts, f, r), q)
  {
    var edited := EditEach(parts, f, r);
    forall i: nat | i < |edited| - 1
      ensures FirstHitAtEnd(edited[i], q)
    {
      FirstHitIsKept(parts[i], f, r, q);
    }
    ApplyMakesNoHit(parts[|parts| - 1], f, r, q);
  }

  /** The edited text is cut at the same places. */
  lemma SplitIsKept(text: string, f: string, r: string, q: string)
    requires f != "" && r != "" && q != "" && Separable(f, q) && Separable(r, q)
    ensures SplitOn(ApplyEdit(text, f, r), q) == EditEach(SplitOn(text, q), f, r)
  {
    var parts := SplitOn(text, q);
    SplitCutsAreClean(text, q);
    JoinUndoesSplit(text, q);
    ApplyToJoined(parts, q, f, r);
    CleanCutsAreKept(parts, f, r, q);
    SplitFindsCleanCuts(EditEach(parts, f, r), q);
  }

  lemma HitsAreKept(text: string, f: string, r: string, q: string)
    requires f != "" && r != "" && q != "" && Separable(f, q) && Separable(r, q)
    ensures Hits(ApplyEdit(text, f, r), q) == Hits(text, q)
  {
    SplitIsKept(text, f, r, q);
  }

  /** So an independent edit keeps the other's state. */
  lemma StateIsKept(text: string, f: string, r: string, g: string, s: string, count: int)
    requires f != "" && r != "" && g != "" && s != "" && Independent(f, r, g, s)
    ensures ExactEditState(ApplyEdit(text, f, r), g, s, count) == ExactEditState(text, g, s, count)
  {
    HitsAreKept(text, f, r, g);
    HitsAreKept(text, f, r, s);
  }

  /** The two edits can be made in either order. */
  lemma EditsCommute(text: string, f: string, r: string, g: string, s: string)
    requires f != "" && r != "" && g != "" && s != "" && Independent(f, r, g, s)
    ensures ApplyEdit(ApplyEdit(text, f, r), g, s) == ApplyEdit(ApplyEdit(text, g, s), f, r)
  {
    SplitIsKept(text, f, r, g);
    ApplyToJoined(SplitOn(text, g), s, f, r);
  }

  /** And an edit that would have landed still does. */
  lemma LandsIsKept(text: string, f: string, r: string, g: string, s: string)
    requires f != "" && r != "" && g != "" && s != "" && Independent(f, r, g, s) && Lands(text, g, s)
    ensures Lands(ApplyEdit(text, f, r), g, s)
  {
    var parts := SplitOn(text, g);
    SplitIsKept(text, f, r, g);
    CleanCutsAreKept(parts, f, r, s);
    if !Contains(s, g) {
      ApplyToJoined(parts, s, f, r);
      ApplyMakesNoHit(JoinOn(parts, s), f, r, g);
    }
  }
}
