/**
 Where a string can occur in pieces joined with another: inside the first or last of its
 hits only, unless it contains the joining string itself.
 */
module ExactPieces {
  import opened ExactText

  // ----- containment

  lemma ContainsTransitive(text: string, a: string, b: string)
    requires Contains(text, a) && Contains(a, b)
    ensures Contains(text, b)
  {
    var i :| OccursAt(text, a, i);
    var k :| OccursAt(a, b, k);
    OccursInside(text, a, i, b, k);
  }

  lemma ContainsIsShorter(a: string, b: string)
    requires Contains(a, b)
    ensures |b| <= |a|
  {
  }

  lemma ContainmentIsAntisymmetric(a: string, b: string)
    requires Contains(b, a) && a != b
    ensures !Contains(a, b)
  {
    var j :| OccursAt(b, a, j);
    assert b[0..|b|] == b;
    assert |a| < |b|;
  }

  lemma HitIsContained(a: string, x: string, p: string)
    ensures Contains(a + p + x, p)
  {
    assert (a + p + x)[|a|..|a| + |p|] == p;
    assert OccursAt(a + p + x, p, |a|);
  }

  lemma SliceIsContained(text: string, i: nat, j: nat)
    requires i <= j <= |text|
    ensures Contains(text, text[i..j])
  {
    assert OccursAt(text, text[i..j], i);
  }

  lemma SliceOfSlice(text: string, i: nat, j: nat, a: nat, b: nat)
    requires i <= j <= |text| && a <= b <= j - i
    ensures text[i..j][a..b] == text[i + a..i + b]
  {
    var inner, outer := text[i..j], text[i + a..i + b];
    forall m | 0 <= m < b - a
      ensures inner[a..b][m] == outer[m]
    {
      assert inner[a..b][m] == inner[a + m] == text[i + a + m];
    }
    assert inner[a..b] == outer;
  }

  /** A hit whose place lies between two positions lies in the text between them. */
  lemma HitInSlice(text: string, p: string, k: nat, i: nat, j: nat)
    requires OccursAt(text, p, k) && i <= k && k + |p| <= j <= |text|
    ensures OccursAt(text[i..j], p, k - i)
  {
    SliceOfSlice(text, i, j, k - i, k - i + |p|);
  }

  /** A hit that reaches from before a place to behind it contains what is there. */
  lemma HitCovers(text: string, p: string, k: nat, i: nat, j: nat)
    requires OccursAt(text, p, k) && k <= i <= j <= k + |p|
    ensures Contains(p, text[i..j])
  {
    SliceOfSlice(text, k, k + |p|, i - k, j - k);
    assert OccursAt(p, text[i..j], i - k);
  }

  // ----- overlaps

  predicate Border(p: string, n: int) {
    1 <= n < |p| && p[..n] == p[|p| - n..]
  }

  /** No proper non-empty prefix is also a suffix: two occurrences never overlap. */
  ghost predicate Unbordered(p: string) {
    forall n :: !Border(p, n)
  }

  /** No suffix of `a` is a prefix of `b`. */
  ghost predicate NoOverlap(a: string, b: string) {
    forall n | 1 <= n <= |a| && n <= |b| :: a[|a| - n..] != b[..n]
  }

  /** A hit that starts in `a` and ends in `b` puts a suffix of itself at the front of `b`. */
  lemma StraddlingHit(a: string, b: string, q: string, k: int)
    requires 0 <= k < |a| && |a| < k + |q| <= |a| + |b| && OccursAt(a + b, q, k)
    ensures q[|q| - (k + |q| - |a|)..] == b[..k + |q| - |a|]
    ensures q[..|a| - k] == a[k..]
  {
    var n := k + |q| - |a|;
    var whole := a + b;
    assert whole[k..k + |q|] == q;
    assert q[|a| - k..] == whole[k..k + |q|][|a| - k..] == whole[|a|..k + |q|] == b[..n];
    assert q[..|a| - k] == whole[k..k + |q|][..|a| - k] == whole[k..|a|] == a[k..];
  }

  lemma SuffixKeepsFirstHit(part: string, p: string, n: nat)
    requires n <= |part| && FirstHitAtEnd(part, p)
    ensures FirstHitAtEnd(part[n..], p)
  {
    assert part + p == part[..n] + (part[n..] + p);
    forall k | 0 <= k < |part[n..]|
      ensures !OccursAt(part[n..] + p, p, k)
    {
      OccursShift(part[..n], part[n..] + p, p, k + n);
    }
  }

  /** An unbordered string that does not occur in a part is first met right behind it. */
  lemma UnborderedFirstHit(part: string, p: string)
    requires Unbordered(p) && !Contains(part, p)
    ensures FirstHitAtEnd(part, p)
  {
    forall k | 0 <= k < |part|
      ensures !OccursAt(part + p, p, k)
    {
      EarlyHitIsBorder(part, p, k);
      assert !Border(p, k + |p| - |part|);
    }
  }

  /** A hit before the end of `part + p` is in `part`, or else a border of `p` overlaps. */
  lemma EarlyHitIsBorder(part: string, p: string, k: nat)
    requires k < |part| && !Contains(part, p)
    ensures OccursAt(part + p, p, k)
            ==> Border(p, k + |p| - |part|) && p[..|part| - k] == part[k..]
  {
    if OccursAt(part + p, p, k) {
      if k + |p| <= |part| {
        OccursInFront(part, p, p, k);
      } else {
        StraddlingHit(part, p, p, k);
      }
    }
  }

  lemma PiecesAreClean(parts: seq<string>, p: string)
    requires |parts| > 0 && Unbordered(p) && forall i | 0 <= i < |parts| :: !Contains(parts[i], p)
    ensures CleanCuts(parts, p)
  {
    forall i | 0 <= i < |parts| - 1
      ensures FirstHitAtEnd(parts[i], p)
    {
      UnborderedFirstHit(parts[i], p);
    }
  }

  /** No part of a split contains the separator. */
  lemma SplitPartsHaveNoHit(text: string, f: string, i: nat)
    requires f != "" && i < |SplitOn(text, f)|
    ensures !Contains(SplitOn(text, f)[i], f)
  {
    var part := SplitOn(text, f)[i];
    SplitCutsAreClean(text, f);
    if i < |SplitOn(text, f)| - 1 {
      assert FirstHitAtEnd(part, f);
      forall k
        ensures !OccursAt(part, f, k)
      {
        if OccursAt(part, f, k) {
          OccursInFront(part, f, f, k);
        }
      }
    }
  }

  // ----- one piece and what is put on either side of it

  lemma {:induction false} JoinAppend(a: seq<string>, b: seq<string>, s: string)
    requires a != [] && b != []
    ensures JoinOn(a + b, s) == JoinOn(a, s) + s + JoinOn(b, s)
  {
    assert a + b == [a[0]] + (a[1..] + b);
    JoinCons(a[0], a[1..] + b, s);
    if |a| > 1 {
      JoinAppend(a[1..], b, s);
      assert a[0] + s + (JoinOn(a[1..], s) + s + JoinOn(b, s)) == (a[0] + s + JoinOn(a[1..], s)) + s + JoinOn(b, s);
    } else {
      assert a[1..] + b == b;
    }
  }

  /** Piece `i` with the separator on the sides where it has a neighbour. */
  function Around(parts: seq<string>, i: nat, s: string): string
    requires i < |parts|
  {
    (if i > 0 then s else "") + parts[i] + (if i < |parts| - 1 then s else "")
  }

  lemma AroundOccurs(parts: seq<string>, i: nat, s: string)
    requires i < |parts|
    ensures Contains(JoinOn(parts, s), Around(parts, i, s))
  {
    var to := FromPiece(parts, i, s);
    var from := UpToPiece(parts, i, s);
    var left, right := if i > 0 then s else "", if i < |parts| - 1 then s else "";
    Bracket(from, left, parts[i], right, to);
    HitIsContained(from, to, left + parts[i] + right);
  }

  lemma Bracket(a: string, b: string, c: string, d: string, e: string)
    ensures a + b + (c + d + e) == a + (b + c + d) + e
  {
  }

  lemma FromPiece(parts: seq<string>, i: nat, s: string) returns (to: string)
    requires i < |parts|
    ensures JoinOn(parts[i..], s) == parts[i] + (if i < |parts| - 1 then s else "") + to
  {
    to := "";
    if i < |parts| - 1 {
      assert parts[i..][1..] == parts[i + 1..];
      to := JoinOn(parts[i + 1..], s);
    }
  }

  lemma UpToPiece(parts: seq<string>, i: nat, s: string) returns (from: string)
    requires i < |parts|
    ensures JoinOn(parts, s) == from + (if i > 0 then s else "") + JoinOn(parts[i..], s)
  {
    from := "";
    if i > 0 {
      assert parts == parts[..i] + parts[i..];
      JoinAppend(parts[..i], parts[i..], s);
      from := JoinOn(parts[..i], s);
    }
  }

  /** A string that does not contain the separator lies in the surroundings of one piece. */
  lemma {:induction false} HitHasPiece(parts: seq<string>, s: string, q: string, k: nat) returns (i: nat)
    requires |parts| > 0 && s != "" && !Contains(q, s) && OccursAt(JoinOn(parts, s), q, k)
    ensures i < |parts| && Contains(Around(parts, i, s), q)
    decreases |parts|
  {
    i := 0;
    if |parts| == 1 {
      assert Around(parts, 0, s) == parts[0];
    } else {
      var first, rest := parts[0], parts[1..];
      var joined := JoinOn(rest, s);
      if k + |q| <= |first| + |s| {
        HitInFront(first + s, joined, q, k);
        assert first + s == Around(parts, 0, s);
      } else if k >= |first| + |s| {
        OccursShift(first + s, joined, q, k);
        i := HitHasPiece(rest, s, q, k - |first| - |s|);
        WindowGrows(parts, i, s);
        ContainsTransitive(Around(parts, i + 1, s), Around(rest, i, s), q);
        i := i + 1;
      } else {
        BetweenHits(first, s, rest, q, k);
        assert Around(parts, 1, s) == s + Around(rest, 0, s);
        i := 1;
      }
    }
  }

  lemma WindowGrows(parts: seq<string>, i: nat, s: string)
    requires i + 1 < |parts|
    ensures Contains(Around(parts, i + 1, s), Around(parts[1..], i, s))
  {
    var inner := Around(parts[1..], i, s);
    HitIsContained(if i > 0 then "" else s, "", inner);
    assert Around(parts, i + 1, s) == (if i > 0 then "" else s) + inner + "";
  }

  lemma HitInFront(a: string, b: string, q: string, k: nat)
    requires OccursAt(a + b, q, k) && k + |q| <= |a|
    ensures Contains(a, q)
  {
    OccursInFront(a, b, q, k);
  }

  /** A hit that starts in a separator ends before the next one does. */
  lemma BetweenHits(first: string, s: string, rest: seq<string>, q: string, k: nat)
    requires rest != [] && s != "" && !Contains(q, s) && OccursAt(first + s + JoinOn(rest, s), q, k)
    requires k < |first| + |s| < k + |q|
    ensures Contains(s + Around(rest, 0, s), q)
  {
    StartsBehind(first, s, JoinOn(rest, s), q, k);
    if |rest| > 1 {
      EndsBefore(s, rest[0], s, JoinOn(rest[1..], s), q, k - |first|);
      assert s + Around(rest, 0, s) == s + rest[0] + s;
    } else {
      assert s + Around(rest, 0, s) == s + JoinOn(rest, s);
    }
  }

  lemma StartsBehind(first: string, s: string, tail: string, q: string, k: nat)
    requires !Contains(q, s) && OccursAt(first + s + tail, q, k) && |first| + |s| < k + |q|
    ensures k > |first| && OccursAt(s + tail, q, k - |first|)
  {
    var whole := first + s + tail;
    assert whole[|first|..|first| + |s|] == s;
    if k <= |first| {
      HitCovers(whole, q, k, |first|, |first| + |s|);
    }
    assert first + (s + tail) == whole;
    OccursShift(first, s + tail, q, k);
  }

  lemma EndsBefore(a: string, part: string, s: string, tail: string, q: string, k: nat)
    requires !Contains(q, s) && OccursAt(a + (part + s + tail), q, k) && k < |a|
    ensures Contains(a + part + s, q)
  {
    var whole, end := a + part + s + tail, |a| + |part| + |s|;
    assert a + (part + s + tail) == whole;
    assert whole[|a| + |part|..end] == s;
    if k + |q| > end {
      HitCovers(whole, q, k, |a| + |part|, end);
    }
    HitInFront(a + part + s, tail, q, k);
  }

  /** Exactly then the joined text has a hit: when some piece with the separator around it has one. */
  lemma JoinContainsIff(parts: seq<string>, s: string, q: string)
    requires |parts| > 0 && s != "" && !Contains(q, s)
    ensures Contains(JoinOn(parts, s), q) <==> exists i: nat :: i < |parts| && Contains(Around(parts, i, s), q)
  {
    if Contains(JoinOn(parts, s), q) {
      var k :| OccursAt(JoinOn(parts, s), q, k);
      var i := HitHasPiece(parts, s, q, k);
    }
    if i: nat :| i < |parts| && Contains(Around(parts, i, s), q) {
      AroundOccurs(parts, i, s);
      ContainsTransitive(JoinOn(parts, s), Around(parts, i, s), q);
    }
  }
}
