/**
 Type nodes that name no declaration of the repository: there the lookup needs no guard, and
 its three answers are exactly present, absent and neither.
 */
module ConfigLookupLeaf {
  import opened Wrappers
  import opened TypeWorld
  import opened ConfigLookup
  import opened ConfigLookupSound

  ghost predicate LeafTy(w: World, file: File, ty: Ty) {
    match ty
    case TypeLiteral(members) => LeafMembers(w, file, members)
    case Intersection(parts) => LeafParts(w, file, parts)
    case Union(first, others) => LeafTy(w, file, first) && LeafParts(w, file, others)
    case _ =>
      && (Inner(ty).Some? ==> LeafTy(w, file, Inner(ty).value))
      && (NameIn(ty).Some? ==> Resolve(w, file, NameIn(ty).value).None?)
  }

  ghost predicate LeafMembers(w: World, file: File, members: seq<TypeElement>) {
    forall i | 0 <= i < |members| :: LeafElement(w, file, members[i])
  }

  ghost predicate LeafElement(w: World, file: File, m: TypeElement) {
    m.Property? ==> LeafTy(w, file, m.ty)
  }

  ghost predicate LeafParts(w: World, file: File, parts: seq<Ty>) {
    forall i | 0 <= i < |parts| :: LeafTy(w, file, parts[i])
  }

  ghost predicate VisibleParts(parts: seq<Ty>) {
    forall i | 0 <= i < |parts| :: VisibleTy(parts[i])
  }

  /** The verdict says exactly whether the member is there. */
  ghost predicate ExactTy(w: World, file: File, ty: Ty, steps: seq<Step>, v: Verdict) {
    forall n: nat :: (v == Found <==> PresentTy(w, file, ty, steps, n))
      && (v == Missing <==> AbsentTy(w, file, ty, steps, n))
  }

  /** The answer of a leaf, which leaves the guard alone and needs no hop. */
  ghost predicate LeafAnswer(w: World, file: File, ty: Ty, steps: seq<Step>, seen: Seen, r: Option<Answer>) {
    r.Some? && r.value.seen == seen && ExactTy(w, file, ty, steps, r.value.verdict)
  }

  lemma {:induction false} LeafIsExact(w: World, file: File, ty: Ty, steps: seq<Step>, seen: Seen, fuel: nat)
    requires LeafTy(w, file, ty) && VisibleTy(ty)
    ensures LeafAnswer(w, file, ty, steps, seen, LookupTy(w, file, ty, steps, seen, fuel))
    decreases ty
  {
    if steps != [] {
      if ty.TypeLiteral? {
        if steps[0].Member? {
          LeafMemberIsExact(w, file, ty.members, steps, seen, fuel);
          LiteralIs(w, file, ty.members, steps);
        }
      } else if ty.Intersection? {
        LeafEachIsExact(w, file, ty.parts, steps, seen, fuel);
        CombineExact(w, file, ty.parts, steps, LookupEach(w, file, ty.parts, steps, seen, fuel).value.verdicts);
      } else if ty.Union? {
        LeafUnionIsExact(w, file, ty.first, ty.others, steps, seen, fuel);
      } else if Inner(ty).Some? {
        if PathInto(ty, steps).Some? {
          LeafIsExact(w, file, Inner(ty).value, PathInto(ty, steps).value, seen, fuel);
          TyIsInner(w, file, ty, steps, seen, fuel);
          InnerIs(w, file, ty, steps);
        }
      } else if NameIn(ty).Some? {
        LeafNameIsExact(w, file, ty, steps, seen, fuel);
      }
    }
  }

  /** A name that resolves to nothing: unknown, and neither present nor absent. */
  lemma LeafNameIsExact(w: World, file: File, ty: Ty, steps: seq<Step>, seen: Seen, fuel: nat)
    requires steps != [] && NameIn(ty).Some? && Resolve(w, file, NameIn(ty).value).None?
    ensures LookupTy(w, file, ty, steps, seen, fuel) == Some(Answer(Unknown, seen))
    ensures ExactTy(w, file, ty, steps, Unknown)
  {
    NameIsDecl(w, file, NameIn(ty).value, steps, seen, fuel);
    PlainNameIs(w, file, ty, steps);
  }

  lemma {:induction false} LeafMemberIsExact(w: World, file: File, members: seq<TypeElement>, steps: seq<Step>,
                                             seen: Seen, fuel: nat)
    requires LeafMembers(w, file, members) && VisibleMembers(members) && steps != [] && steps[0].Member?
    ensures var r := LookupMember(w, file, members, steps, seen, fuel);
            && r.Some? && r.value.seen == seen
            && forall n: nat :: && (r.value.verdict == Found <==> PresentMember(w, file, members, steps, n))
                                && (r.value.verdict == Missing <==> AbsentMember(w, file, members, steps, n))
    decreases members
  {
    FirstIsProperty(members, steps[0].name);
    var i := FirstProperty(members, steps[0].name);
    if i < |members| {
      assert LeafElement(w, file, members[i]) && VisibleElement(members[i]);
      LeafPropertyIsExact(w, file, members[i], steps[1..], seen, fuel);
    }
    MemberIs(w, file, members, steps);
  }

  lemma {:induction false} LeafPropertyIsExact(w: World, file: File, m: TypeElement, rest: seq<Step>, seen: Seen,
                                               fuel: nat)
    requires LeafElement(w, file, m) && VisibleElement(m) && IsProperty(m)
    ensures var r := LookupProperty(w, file, m, rest, seen, fuel);
            && r.Some? && r.value.seen == seen
            && forall n: nat :: && (r.value.verdict == Found <==> PresentElement(w, file, m, rest, n))
                                && (r.value.verdict == Missing <==> AbsentElement(w, file, m, rest, n))
    decreases m
  {
    if rest != [] && m.Property? {
      LeafIsExact(w, file, m.ty, rest, seen, fuel);
    }
    if rest != [] {
      ElementIs(w, file, m, rest);
    }
  }

  // ----- what a node has, in terms of what is below it

  lemma InnerIs(w: World, file: File, ty: Ty, steps: seq<Step>)
    requires steps != [] && !ty.KeyOf? && Inner(ty).Some? && PathInto(ty, steps).Some?
    ensures forall n: nat :: PresentTy(w, file, ty, steps, n)
                             <==> PresentTy(w, file, Inner(ty).value, PathInto(ty, steps).value, n)
    ensures forall n: nat :: AbsentTy(w, file, ty, steps, n)
                             <==> AbsentTy(w, file, Inner(ty).value, PathInto(ty, steps).value, n)
  {
  }

  lemma PlainNameIs(w: World, file: File, ty: Ty, steps: seq<Step>)
    requires steps != [] && NameIn(ty).Some?
    ensures forall n: nat :: PresentTy(w, file, ty, steps, n) <==> PresentBase(w, file, NameIn(ty), steps, n)
    ensures forall n: nat :: AbsentTy(w, file, ty, steps, n) <==> AbsentBase(w, file, NameIn(ty), steps, n)
  {
  }

  lemma MemberIs(w: World, file: File, members: seq<TypeElement>, steps: seq<Step>)
    requires VisibleMembers(members) && steps != [] && steps[0].Member?
    ensures var i := FirstProperty(members, steps[0].name);
            if i < |members| then
              && (forall n: nat ::
                   PresentMember(w, file, members, steps, n) <==> PresentElement(w, file, members[i], steps[1..], n))
              && (forall n: nat ::
                   AbsentMember(w, file, members, steps, n) <==> AbsentElement(w, file, members[i], steps[1..], n))
            else forall n: nat :: !PresentMember(w, file, members, steps, n) && AbsentMember(w, file, members, steps, n)
  {
    FirstIsProperty(members, steps[0].name);
  }

  lemma ElementIs(w: World, file: File, m: TypeElement, rest: seq<Step>)
    requires rest != [] && IsProperty(m)
    ensures forall n: nat :: PresentElement(w, file, m, rest, n) <==> m.Property? && PresentTy(w, file, m.ty, rest, n)
    ensures forall n: nat :: AbsentElement(w, file, m, rest, n) <==> m.Property? && AbsentTy(w, file, m.ty, rest, n)
  {
  }

  lemma LiteralIs(w: World, file: File, members: seq<TypeElement>, steps: seq<Step>)
    requires steps != [] && steps[0].Member?
    ensures forall n: nat ::
              PresentTy(w, file, TypeLiteral(members), steps, n) <==> PresentMember(w, file, members, steps, n)
    ensures forall n: nat ::
              AbsentTy(w, file, TypeLiteral(members), steps, n) <==> AbsentMember(w, file, members, steps, n)
  {
  }

  ghost predicate ExactParts(w: World, file: File, parts: seq<Ty>, steps: seq<Step>, verdicts: seq<Verdict>) {
    |verdicts| == |parts| && forall i | 0 <= i < |parts| :: ExactTy(w, file, parts[i], steps, verdicts[i])
  }

  lemma {:induction false} LeafEachIsExact(w: World, file: File, parts: seq<Ty>, steps: seq<Step>, seen: Seen,
                                           fuel: nat)
    requires LeafParts(w, file, parts) && VisibleParts(parts)
    ensures var rs := LookupEach(w, file, parts, steps, seen, fuel);
            rs.Some? && rs.value.seen == seen && ExactParts(w, file, parts, steps, rs.value.verdicts)
    decreases parts
  {
    if parts != [] {
      LeafIsExact(w, file, parts[0], steps, seen, fuel);
      LeafEachIsExact(w, file, parts[1..], steps, seen, fuel);
    }
  }

  lemma CombineIs(vs: seq<Verdict>)
    ensures Combine(vs) == Found <==> exists i :: 0 <= i < |vs| && vs[i] == Found
    ensures Combine(vs) == Missing <==> forall i | 0 <= i < |vs| :: vs[i] == Missing
  {
    assert forall i | 0 <= i < |vs| :: vs[i] in vs;
    if forall i | 0 <= i < |vs| :: vs[i] == Missing {
      assert forall v | v in vs :: v == Missing;
    }
  }

  lemma AgreeIs(v: Verdict, vs: seq<Verdict>)
    ensures Agree([v] + vs) == Found <==> v == Found && forall i | 0 <= i < |vs| :: vs[i] == Found
    ensures Agree([v] + vs) == Missing <==> v == Missing && forall i | 0 <= i < |vs| :: vs[i] == Missing
  {
    var all := [v] + vs;
    assert all[0] == v && forall i | 0 <= i < |vs| :: vs[i] == all[i + 1];
    assert forall i | 0 <= i < |all| :: all[i] in all;
  }

  lemma CombineExact(w: World, file: File, parts: seq<Ty>, steps: seq<Step>, verdicts: seq<Verdict>)
    requires ExactParts(w, file, parts, steps, verdicts) && steps != []
    ensures ExactTy(w, file, Intersection(parts), steps, Combine(verdicts))
  {
    CombineIs(verdicts);
    forall n: nat
      ensures Combine(verdicts) == Found <==> PresentTy(w, file, Intersection(parts), steps, n)
      ensures Combine(verdicts) == Missing <==> AbsentTy(w, file, Intersection(parts), steps, n)
    {
      PartsAt(w, file, parts, steps, verdicts, n);
    }
  }

  lemma PartsAt(w: World, file: File, parts: seq<Ty>, steps: seq<Step>, verdicts: seq<Verdict>, n: nat)
    requires ExactParts(w, file, parts, steps, verdicts)
    ensures forall i | 0 <= i < |parts| ::
              && (verdicts[i] == Found <==> PresentTy(w, file, parts[i], steps, n))
              && (verdicts[i] == Missing <==> AbsentTy(w, file, parts[i], steps, n))
  {
    assert forall i | 0 <= i < |parts| :: ExactTy(w, file, parts[i], steps, verdicts[i]);
  }

  lemma {:induction false} LeafUnionIsExact(w: World, file: File, first: Ty, others: seq<Ty>, steps: seq<Step>,
                                            seen: Seen, fuel: nat)
    requires LeafTy(w, file, first) && LeafParts(w, file, others) && VisibleTy(first) && VisibleParts(others)
             && steps != []
    ensures LeafAnswer(w, file, Union(first, others), steps, seen,
            LookupTy(w, file, Union(first, others), steps, seen, fuel))
    decreases Union(first, others), 0
  {
    LeafIsExact(w, file, first, steps, seen, fuel);
    LeafEachIsExact(w, file, others, steps, seen, fuel);
    var v := LookupTy(w, file, first, steps, seen, fuel).value.verdict;
    AgreeExact(w, file, first, others, steps, v, LookupEach(w, file, others, steps, seen, fuel).value.verdicts);
  }

  lemma AgreeExact(w: World, file: File, first: Ty, others: seq<Ty>, steps: seq<Step>, v: Verdict,
                   verdicts: seq<Verdict>)
    requires ExactTy(w, file, first, steps, v) && ExactParts(w, file, others, steps, verdicts) && steps != []
    ensures ExactTy(w, file, Union(first, others), steps, Agree([v] + verdicts))
  {
    AgreeIs(v, verdicts);
    forall n: nat
      ensures Agree([v] + verdicts) == Found <==> PresentTy(w, file, Union(first, others), steps, n)
      ensures Agree([v] + verdicts) == Missing <==> AbsentTy(w, file, Union(first, others), steps, n)
    {
      PartsAt(w, file, others, steps, verdicts, n);
    }
  }
}
