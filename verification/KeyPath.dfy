/** Schema key paths (`agents[].id`) and the steps they stand for. */
module KeyPath {
  import opened TypeWorld
  import opened Text

  predicate EndsWithHop(s: string) {
    |s| >= 2 && s[|s| - 2..] == "[]"
  }

  function HopText(n: nat): string {
    if n == 0 then "" else "[]" + HopText(n - 1)
  }

  function Hops(n: nat): seq<Step> {
    if n == 0 then [] else [ArrayHop] + Hops(n - 1)
  }

  /** A segment without its array suffixes, and how many it had. */
  function Strip(seg: string): (string, nat) {
    if EndsWithHop(seg) then
      var (name, n) := Strip(seg[..|seg| - 2]);
      (name, n + 1)
    else (seg, 0)
  }

  function SegmentSteps(seg: string): seq<Step> {
    [Member(Name(Strip(seg).0))] + Hops(Strip(seg).1)
  }

  function StepsOf(segments: seq<string>): seq<Step> {
    if segments == [] then [] else SegmentSteps(segments[0]) + StepsOf(segments[1..])
  }

  /** The text of steps that continue a path. */
  function RenderTail(steps: seq<Step>): string {
    if steps == [] then ""
    else (match steps[0] case Member(name) => "." + name.text case ArrayHop => "[]") + RenderTail(steps[1..])
  }

  function Render(steps: seq<Step>): string
    requires steps != [] && steps[0].Member?
  {
    steps[0].name.text + RenderTail(steps[1..])
  }

  /** One segment's steps: the member name, then one hop per `[]` suffix. */
  method ParseSegment(seg: string) returns (steps: seq<Step>)
    ensures steps == SegmentSteps(seg)
  {
    var name, arrays := seg, 0;
    while EndsWithHop(name)
      invariant Strip(seg) == (Strip(name).0, Strip(name).1 + arrays)
      decreases |name|
    {
      name := name[..|name| - 2];
      arrays := arrays + 1;
    }
    steps := [Member(Name(name))];
    for i := 0 to arrays
      invariant steps == [Member(Name(name))] + Hops(i)
    {
      HopsSnoc(i);
      steps := steps + [ArrayHop];
    }
  }

  /** `parsePath`: split at dots, then peel the array suffixes of every segment. */
  method ParsePath(path: string) returns (steps: seq<Step>)
    ensures steps == StepsOf(Split(path, '.'))
  {
    steps := [];
    var segments := Split(path, '.');
    for k := 0 to |segments|
      invariant steps + StepsOf(segments[k..]) == StepsOf(segments)
    {
      var next := ParseSegment(segments[k]);
      assert segments[k..][1..] == segments[k + 1..];
      steps := steps + next;
    }
  }

  lemma {:induction false} HopsSnoc(n: nat)
    ensures Hops(n) + [ArrayHop] == Hops(n + 1)
  {
    if n > 0 {
      HopsSnoc(n - 1);
    }
  }

  // ----- no path is lost: rendering undoes parsing

  lemma {:induction false} RenderTailAppend(a: seq<Step>, b: seq<Step>)
    ensures RenderTail(a + b) == RenderTail(a) + RenderTail(b)
  {
    if a == [] {
      assert a + b == b;
    } else {
      assert (a + b)[1..] == a[1..] + b;
      RenderTailAppend(a[1..], b);
    }
  }

  lemma {:induction false} RenderHops(n: nat)
    ensures RenderTail(Hops(n)) == HopText(n)
  {
    if n > 0 {
      assert Hops(n)[1..] == Hops(n - 1);
      RenderHops(n - 1);
    }
  }

  lemma {:induction false} HopTextSnoc(n: nat)
    ensures HopText(n) + "[]" == HopText(n + 1)
  {
    if n > 0 {
      HopTextSnoc(n - 1);
    }
  }

  lemma {:induction false} StripKeepsText(seg: string)
    ensures Strip(seg).0 + HopText(Strip(seg).1) == seg
    ensures !EndsWithHop(Strip(seg).0)
    decreases |seg|
  {
    if EndsWithHop(seg) {
      var shorter := seg[..|seg| - 2];
      StripKeepsText(shorter);
      HopTextSnoc(Strip(shorter).1);
      assert seg == shorter + "[]";
    }
  }

  lemma RenderSegment(seg: string)
    ensures RenderTail(SegmentSteps(seg)) == "." + seg
    ensures Render(SegmentSteps(seg)) == seg
  {
    StripKeepsText(seg);
    RenderHops(Strip(seg).1);
    assert SegmentSteps(seg)[1..] == Hops(Strip(seg).1);
  }

  lemma {:induction false} RenderSegments(segments: seq<string>)
    requires segments != []
    ensures RenderTail(StepsOf(segments)) == "." + Join(segments, '.')
  {
    RenderSegment(segments[0]);
    RenderTailAppend(SegmentSteps(segments[0]), StepsOf(segments[1..]));
    if |segments| > 1 {
      RenderSegments(segments[1..]);
      DotsBetween(segments[0], Join(segments[1..], '.'));
    } else {
      assert segments[1..] == [] && "." + segments[0] + "" == "." + segments[0];
    }
  }

  lemma DotsBetween(first: string, rest: string)
    ensures ("." + first) + ("." + rest) == "." + (first + ['.'] + rest)
  {
  }

  lemma RenderTailOfMember(steps: seq<Step>)
    requires steps != [] && steps[0].Member?
    ensures RenderTail(steps)[1..] == Render(steps)
  {
  }

  /** Every string survives parsing and rendering unchanged. */
  lemma RenderUndoesParse(path: string)
    ensures StepsOf(Split(path, '.')) != [] && StepsOf(Split(path, '.'))[0].Member?
    ensures Render(StepsOf(Split(path, '.'))) == path
  {
    var segments := Split(path, '.');
    var steps := StepsOf(segments);
    RenderSegments(segments);
    JoinSplit(path, '.');
    RenderTailOfMember(steps);
  }

  // ----- no step list is ambiguous: parsing undoes rendering

  predicate PlainName(name: Name) {
    '.' !in name.text && !EndsWithHop(name.text)
  }

  predicate PlainSteps(steps: seq<Step>) {
    forall i | 0 <= i < |steps| && steps[i].Member? :: PlainName(steps[i].name)
  }

  lemma {:induction false} StripHops(name: string, n: nat)
    requires !EndsWithHop(name)
    ensures Strip(name + HopText(n)) == (name, n)
  {
    if n == 0 {
      assert name + HopText(0) == name;
    } else {
      HopTextSnoc(n - 1);
      var seg := name + HopText(n);
      assert seg == (name + HopText(n - 1)) + "[]";
      assert seg[..|seg| - 2] == name + HopText(n - 1);
      StripHops(name, n - 1);
    }
  }

  lemma {:induction false} NoDotInHops(n: nat)
    ensures '.' !in HopText(n)
  {
    if n > 0 {
      NoDotInHops(n - 1);
    }
  }

  lemma ParseSegmentAlone(seg: string)
    requires '.' !in seg
    ensures StepsOf(Split(seg, '.')) == SegmentSteps(seg)
  {
    SplitPrefix(seg, "", '.');
    assert seg + "" == seg;
    assert StepsOf([seg]) == SegmentSteps(seg) + StepsOf([]);
  }

  lemma ParseSegmentThen(seg: string, tail: string)
    requires '.' !in seg
    ensures StepsOf(Split(seg + ("." + tail), '.')) == SegmentSteps(seg) + StepsOf(Split(tail, '.'))
  {
    SplitPrefix(seg, "." + tail, '.');
    assert ("." + tail)[1..] == tail;
    var parts := [seg + ""] + ([""] + Split(tail, '.'))[1..];
    assert seg + "" == seg && parts[1..] == Split(tail, '.');
  }

  lemma MoveHop(name: Name, n: nat, rest: seq<Step>)
    requires rest != [] && rest[0].ArrayHop?
    ensures name.text + HopText(n) + RenderTail(rest) == name.text + HopText(n + 1) + RenderTail(rest[1..])
    ensures [Member(name)] + Hops(n) + rest == [Member(name)] + Hops(n + 1) + rest[1..]
  {
    HopTextSnoc(n);
    HopsSnoc(n);
    assert name.text + HopText(n) + ("[]" + RenderTail(rest[1..]))
      == name.text + (HopText(n) + "[]") + RenderTail(rest[1..]);
    assert [Member(name)] + Hops(n) + ([ArrayHop] + rest[1..]) == [Member(name)] + (Hops(n) + [ArrayHop]) + rest[1..];
    assert rest == [ArrayHop] + rest[1..];
  }

  lemma MoveMember(rest: seq<Step>)
    requires rest != [] && rest[0].Member?
    ensures RenderTail(rest) == "." + (rest[0].name.text + HopText(0) + RenderTail(rest[1..]))
    ensures [Member(rest[0].name)] + Hops(0) + rest[1..] == rest
  {
    assert rest[0].name.text + HopText(0) == rest[0].name.text;
  }

  /** Parse the rendering of a member, `n` hops already read, and the steps that follow. */
  lemma {:induction false} ParseUndoesRenderFrom(name: Name, n: nat, rest: seq<Step>)
    requires PlainName(name) && PlainSteps(rest)
    ensures StepsOf(Split(name.text + HopText(n) + RenderTail(rest), '.')) == [Member(name)] + Hops(n) + rest
    decreases |rest|
  {
    if rest != [] && rest[0].ArrayHop? {
      MoveHop(name, n, rest);
      ParseUndoesRenderFrom(name, n + 1, rest[1..]);
    } else if rest == [] {
      LastSegment(name, n);
    } else {
      MoveMember(rest);
      ParseUndoesRenderFrom(rest[0].name, 0, rest[1..]);
      SegmentThen(name, n, rest[0].name.text + HopText(0) + RenderTail(rest[1..]));
    }
  }

  lemma SegmentOf(name: Name, n: nat)
    requires PlainName(name)
    ensures '.' !in name.text + HopText(n) && SegmentSteps(name.text + HopText(n)) == [Member(name)] + Hops(n)
  {
    NoDotInHops(n);
    StripHops(name.text, n);
  }

  lemma LastSegment(name: Name, n: nat)
    requires PlainName(name)
    ensures StepsOf(Split(name.text + HopText(n) + RenderTail([]), '.')) == [Member(name)] + Hops(n) + []
  {
    SegmentOf(name, n);
    ParseSegmentAlone(name.text + HopText(n));
    assert name.text + HopText(n) + "" == name.text + HopText(n);
  }

  lemma SegmentThen(name: Name, n: nat, tail: string)
    requires PlainName(name)
    ensures StepsOf(Split(name.text + HopText(n) + ("." + tail), '.'))
            == [Member(name)] + Hops(n) + StepsOf(Split(tail, '.'))
  {
    SegmentOf(name, n);
    ParseSegmentThen(name.text + HopText(n), tail);
  }

  lemma ParseUndoesRender(steps: seq<Step>)
    requires steps != [] && steps[0].Member? && PlainSteps(steps)
    ensures StepsOf(Split(Render(steps), '.')) == steps
  {
    ParseUndoesRenderFrom(steps[0].name, 0, steps[1..]);
    assert steps[0].name.text + HopText(0) == steps[0].name.text;
    assert steps == [Member(steps[0].name)] + Hops(0) + steps[1..];
  }
}
