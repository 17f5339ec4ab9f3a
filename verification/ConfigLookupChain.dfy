/**
 When both definite answers are exact: on ranked declarations that follow at most one name at a
 time, literal indexed accesses, unions and intersections with other types included. The guard
 then only stops a search that goes round in a circle, where nothing has a derivation.
 */
module ConfigLookupChain {
  import opened Wrappers
  import opened TypeWorld
  import opened ConfigLookup
  import opened ConfigLookupSound
  import opened ConfigLookupEnds
  import opened ConfigLookupLeaf

  // ----- declarations that follow one name at a time

  ghost predicate ChainTy(w: World, file: File, ty: Ty) {
    match ty
    case TypeLiteral(members) => ChainMembers(w, file, members)
    case Intersection(parts) => Lone(w, file, parts) && ChainParts(w, file, parts)
    case Union(first, others) =>
      && (LeafTy(w, file, first) || LeafParts(w, file, others))
      && ChainTy(w, file, first) && Lone(w, file, others) && ChainParts(w, file, others)
    case _ => Inner(ty).Some? ==> ChainTy(w, file, Inner(ty).value)
  }

  ghost predicate ChainMembers(w: World, file: File, members: seq<TypeElement>) {
    forall i | 0 <= i < |members| :: ChainElement(w, file, members[i])
  }

  ghost predicate ChainElement(w: World, file: File, m: TypeElement) {
    m.Property? ==> ChainTy(w, file, m.ty)
  }

  ghost predicate ChainParts(w: World, file: File, parts: seq<Ty>) {
    forall i | 0 <= i < |parts| :: ChainTy(w, file, parts[i])
  }

  /** At most one part names a declaration. */
  ghost predicate Lone(w: World, file: File, parts: seq<Ty>) {
    forall i, j | 0 <= i < j < |parts| :: LeafTy(w, file, parts[i]) || LeafTy(w, file, parts[j])
  }

  ghost predicate Unresolved(w: World, file: File, base: Option<Name>) {
    base.None? || Resolve(w, file, base.value).None?
  }

  /** At most one base is a declaration in reach. */
  ghost predicate LoneBase(w: World, file: File, bases: seq<Option<Name>>) {
    forall i, j | 0 <= i < j < |bases| :: Unresolved(w, file, bases[i]) || Unresolved(w, file, bases[j])
  }

  ghost predicate ChainDecl(w: World, key: Key, d: Decl) {
    match d
    case Interface(members, bases, _) => ChainMembers(w, key.file, members) && LoneBase(w, key.file, bases)
    case Alias(ty) => ChainTy(w, key.file, ty)
    case Enum => true
  }

  ghost predicate ChainWorld(w: World, k: Ranking) {
    && VisibleWorld(w) && RankedWorld(w, k)
    && forall key | key in w.decls :: ChainDecl(w, key, w.decls[key])
  }

  // ----- the guard with the paths it stands for

  /** The path each declaration on the chain was entered with. */
  type Trail = map<(Key, nat), seq<Step>>

  ghost predicate Suffix(steps: seq<Step>, path: seq<Step>) {
    |steps| <= |path| && steps == path[|path| - |steps|..]
  }

  /** Heights only fall along a chain, and at the present height the path has only been shortened. */
  ghost predicate TrailTo(k: Ranking, key: Key, steps: seq<Step>, trail: Trail)
    requires key in k.height
  {
    forall p | p in trail ::
      && p.0 in k.height && p.1 == |trail[p]| && k.height[p.0] >= k.height[key]
      && (k.height[p.0] == k.height[key] ==> Suffix(steps, trail[p]))
  }

  ghost predicate TrailAt(k: Ranking, at: Place, steps: seq<Step>, trail: Trail) {
    && (at.inside ==> k.depth > 0)
    && at.left <= k.depth
    && forall p | p in trail ::
         && p.0 in k.height && p.1 == |trail[p]| && k.height[p.0] >= at.top
         && (k.height[p.0] == at.top && !at.inside ==> Suffix(steps, trail[p]))
  }

  ghost predicate SeenOnTrail(w: World, seen: Seen, trail: Trail) {
    (forall p :: p in seen <==> p in trail) && forall p | p in trail :: p.0 in w.decls
  }

  lemma TrailWithin(k: Ranking, at: Place, ty: Ty, steps: seq<Step>, trail: Trail)
    requires TrailAt(k, at, steps, trail) && steps != [] && Inner(ty).Some? && PathInto(ty, steps).Some?
    requires OpensTarget(ty) ==> at.left > 0
    ensures TrailAt(k, Within(at, ty), PathInto(ty, steps).value, trail)
  {
    if OpensTarget(ty) {
      TrailOpens(k, at, steps, PathInto(ty, steps).value, trail);
    } else if TakesHop(ty) {
      TrailShortens(k, at, steps, trail);
    }
  }

  /** In the target of an indexed access only lower declarations are named, so its longer path is no matter. */
  lemma TrailOpens(k: Ranking, at: Place, steps: seq<Step>, longer: seq<Step>, trail: Trail)
    requires TrailAt(k, at, steps, trail) && at.left > 0
    ensures TrailAt(k, at.(inside := true, left := at.left - 1), longer, trail)
  {
  }

  lemma TrailShortens(k: Ranking, at: Place, steps: seq<Step>, trail: Trail)
    requires TrailAt(k, at, steps, trail) && steps != []
    ensures TrailAt(k, at, steps[1..], trail)
  {
  }

  lemma TrailBelow(k: Ranking, at: Place, key: Key, steps: seq<Step>, trail: Trail)
    requires TrailAt(k, at, steps, trail) && Below(k, at, key)
    ensures TrailTo(k, key, steps, trail)
  {
  }

  lemma TrailEnters(k: Ranking, key: Key, steps: seq<Step>, trail: Trail)
    requires key in k.height && TrailTo(k, key, steps, trail)
    ensures TrailAt(k, PlaceOf(k, key), steps, trail[(key, |steps|) := steps])
    ensures (key, |steps|) in trail ==> trail[(key, |steps|)] == steps
  {
  }

  // ----- derivations for what is on the trail

  ghost predicate HasAt(w: World, trail: Trail, p: (Key, nat), n: nat) {
    p in trail && p.0 in w.decls && PresentDecl(w, p.0, trail[p], n)
  }

  ghost predicate LacksAt(w: World, trail: Trail, p: (Key, nat), n: nat) {
    p in trail && p.0 in w.decls && AbsentDecl(w, p.0, trail[p], n)
  }

  /** Some declaration on the trail has what it was asked for, by a derivation of at most `m` hops. */
  ghost predicate Has(w: World, trail: Trail, m: int) {
    exists p, n: nat :: HasAt(w, trail, p, n) && n <= m
  }

  ghost predicate Lacks(w: World, trail: Trail, m: int) {
    exists p, n: nat :: LacksAt(w, trail, p, n) && n <= m
  }

  lemma HasGrows(w: World, trail: Trail, m: int, n: int)
    requires m <= n
    ensures Has(w, trail, m) ==> Has(w, trail, n)
    ensures Lacks(w, trail, m) ==> Lacks(w, trail, n)
  {
    if Has(w, trail, m) {
      var p, i: nat :| HasAt(w, trail, p, i) && i <= m;
    }
    if Lacks(w, trail, m) {
      var p, i: nat :| LacksAt(w, trail, p, i) && i <= m;
    }
  }

  /** An answer that is not definite leaves a derivation to what is on the trail, one hop shorter. */
  ghost predicate SettledTy(w: World, file: File, ty: Ty, steps: seq<Step>, v: Verdict, trail: Trail) {
    && (v != Found ==> forall n: nat :: PresentTy(w, file, ty, steps, n) ==> Has(w, trail, n - 1))
    && (v != Missing ==> forall n: nat :: AbsentTy(w, file, ty, steps, n) ==> Lacks(w, trail, n - 1))
  }

  ghost predicate SettledMember(w: World, file: File, members: seq<TypeElement>, steps: seq<Step>, v: Verdict,
                                trail: Trail)
    requires steps != [] && steps[0].Member?
  {
    && (v != Found ==> forall n: nat :: PresentMember(w, file, members, steps, n) ==> Has(w, trail, n - 1))
    && (v != Missing ==> forall n: nat :: AbsentMember(w, file, members, steps, n) ==> Lacks(w, trail, n - 1))
  }

  ghost predicate SettledElement(w: World, file: File, m: TypeElement, rest: seq<Step>, v: Verdict, trail: Trail) {
    && (v != Found ==> forall n: nat :: PresentElement(w, file, m, rest, n) ==> Has(w, trail, n - 1))
    && (v != Missing ==> forall n: nat :: AbsentElement(w, file, m, rest, n) ==> Lacks(w, trail, n - 1))
  }

  ghost predicate SettledBase(w: World, file: File, base: Option<Name>, steps: seq<Step>, v: Verdict, trail: Trail) {
    && (v != Found ==> forall n: nat :: PresentBase(w, file, base, steps, n) ==> Has(w, trail, n - 1))
    && (v != Missing ==> forall n: nat :: AbsentBase(w, file, base, steps, n) ==> Lacks(w, trail, n - 1))
  }

  /** A declaration may leave its derivation as it is: it may be the one on the trail. */
  ghost predicate SettledDecl(w: World, key: Key, steps: seq<Step>, v: Verdict, trail: Trail, less: nat)
    requires key in w.decls
  {
    && (v != Found ==> forall n: nat :: PresentDecl(w, key, steps, n) ==> Has(w, trail, n - less))
    && (v != Missing ==> forall n: nat :: AbsentDecl(w, key, steps, n) ==> Lacks(w, trail, n - less))
  }

  /** A derivation for the declaration being entered gets shorter until it leaves it. */
  lemma {:induction false} HasDescends(w: World, key: Key, steps: seq<Step>, trail: Trail, m: nat)
    requires key in w.decls && (key, |steps|) !in trail
    requires forall n: nat :: PresentDecl(w, key, steps, n) ==> Has(w, trail[(key, |steps|) := steps], n - 1)
    requires Has(w, trail[(key, |steps|) := steps], m)
    ensures Has(w, trail, m)
    decreases m
  {
    var entered := trail[(key, |steps|) := steps];
    var p, n: nat :| HasAt(w, entered, p, n) && n <= m;
    if p != (key, |steps|) {
      assert HasAt(w, trail, p, n);
    } else {
      assert Has(w, entered, n - 1);
      var q, i: nat :| HasAt(w, entered, q, i) && i <= n - 1;
      HasDescends(w, key, steps, trail, n - 1);
      HasGrows(w, trail, n - 1, m);
    }
  }

  lemma {:induction false} LacksDescends(w: World, key: Key, steps: seq<Step>, trail: Trail, m: nat)
    requires key in w.decls && (key, |steps|) !in trail
    requires forall n: nat :: AbsentDecl(w, key, steps, n) ==> Lacks(w, trail[(key, |steps|) := steps], n - 1)
    requires Lacks(w, trail[(key, |steps|) := steps], m)
    ensures Lacks(w, trail, m)
    decreases m
  {
    var entered := trail[(key, |steps|) := steps];
    var p, n: nat :| LacksAt(w, entered, p, n) && n <= m;
    if p != (key, |steps|) {
      assert LacksAt(w, trail, p, n);
    } else {
      assert Lacks(w, entered, n - 1);
      var q, i: nat :| LacksAt(w, entered, q, i) && i <= n - 1;
      LacksDescends(w, key, steps, trail, n - 1);
      HasGrows(w, trail, n - 1, m);
    }
  }

  lemma BodySettlesDecl(w: World, key: Key, steps: seq<Step>, v: Verdict, trail: Trail)
    requires key in w.decls && (key, |steps|) !in trail
    requires SettledDecl(w, key, steps, v, trail[(key, |steps|) := steps], 1)
    ensures SettledDecl(w, key, steps, v, trail, 0)
  {
    var entered := trail[(key, |steps|) := steps];
    forall n: nat | v != Found && PresentDecl(w, key, steps, n)
      ensures Has(w, trail, n)
    {
      var p, i: nat :| HasAt(w, entered, p, i) && i <= n - 1;
      HasDescends(w, key, steps, trail, n - 1);
      HasGrows(w, trail, n - 1, n);
    }
    forall n: nat | v != Missing && AbsentDecl(w, key, steps, n)
      ensures Lacks(w, trail, n)
    {
      var p, i: nat :| LacksAt(w, entered, p, i) && i <= n - 1;
      LacksDescends(w, key, steps, trail, n - 1);
      HasGrows(w, trail, n - 1, n);
    }
  }

  // ----- the lookup

  lemma {:induction false} TySettles(w: World, k: Ranking, at: Place, ty: Ty, steps: seq<Step>, seen: Seen, fuel: nat,
                                     trail: Trail)
    requires ChainWorld(w, k) && ChainTy(w, at.file, ty) && RankedTy(w, k, at, ty) && VisibleTy(ty)
    requires TrailAt(k, at, steps, trail) && SeenOnTrail(w, seen, trail)
             && LookupTy(w, at.file, ty, steps, seen, fuel).Some?
    ensures SettledTy(w, at.file, ty, steps, LookupTy(w, at.file, ty, steps, seen, fuel).value.verdict, trail)
    decreases fuel, 1, ty
  {
    if steps != [] {
      if ty.TypeLiteral? {
        if steps[0].Member? {
          MemberSettles(w, k, at, ty.members, steps, seen, fuel, trail);
          LiteralIs(w, at.file, ty.members, steps);
        }
      } else if ty.Intersection? {
        EachSettles(w, k, at, ty.parts, steps, seen, fuel, trail);
        CombineSettles(w, at.file, ty.parts, steps, LookupEach(w, at.file, ty.parts, steps, seen, fuel).value.verdicts,
          trail);
      } else if ty.Union? {
        UnionSettles(w, k, at, ty.first, ty.others, steps, seen, fuel, trail);
      } else if Inner(ty).Some? {
        if PathInto(ty, steps).Some? {
          WrappedSettles(w, k, at, ty, steps, seen, fuel, trail);
        }
      } else if NameIn(ty).Some? {
        NameSettles(w, k, at, NameIn(ty).value, steps, seen, fuel, trail);
        PlainNameIs(w, at.file, ty, steps);
      }
    }
  }

  lemma {:induction false} WrappedSettles(w: World, k: Ranking, at: Place, ty: Ty, steps: seq<Step>, seen: Seen,
                                          fuel: nat, trail: Trail)
    requires ChainWorld(w, k) && ChainTy(w, at.file, ty) && RankedTy(w, k, at, ty) && VisibleTy(ty)
    requires steps != [] && Inner(ty).Some? && PathInto(ty, steps).Some?
    requires TrailAt(k, at, steps, trail) && SeenOnTrail(w, seen, trail)
             && LookupTy(w, at.file, ty, steps, seen, fuel).Some?
    ensures SettledTy(w, at.file, ty, steps, LookupTy(w, at.file, ty, steps, seen, fuel).value.verdict, trail)
    decreases fuel, 1, ty, 0
  {
    TrailWithin(k, at, ty, steps, trail);
    TyIsInner(w, at.file, ty, steps, seen, fuel);
    TySettles(w, k, Within(at, ty), Inner(ty).value, PathInto(ty, steps).value, seen, fuel, trail);
    InnerIs(w, at.file, ty, steps);
  }

  lemma {:induction false} MemberSettles(w: World, k: Ranking, at: Place, members: seq<TypeElement>, steps: seq<Step>,
                                         seen: Seen, fuel: nat, trail: Trail)
    requires ChainWorld(w, k) && ChainMembers(w, at.file, members) && VisibleMembers(members)
    requires forall i | 0 <= i < |members| :: RankedElement(w, k, at, members[i])
    requires steps != [] && steps[0].Member? && TrailAt(k, at, steps, trail) && SeenOnTrail(w, seen, trail)
    requires LookupMember(w, at.file, members, steps, seen, fuel).Some?
    ensures SettledMember(w, at.file, members, steps,
            LookupMember(w, at.file, members, steps, seen, fuel).value.verdict, trail)
    decreases fuel, 1, members
  {
    FirstIsProperty(members, steps[0].name);
    var i := FirstProperty(members, steps[0].name);
    if i < |members| {
      assert ChainElement(w, at.file, members[i]) && VisibleElement(members[i]) && RankedElement(w, k, at, members[i]);
      TrailShortens(k, at, steps, trail);
      PropertySettles(w, k, at, members[i], steps[1..], seen, fuel, trail);
    }
    MemberIs(w, at.file, members, steps);
  }

  lemma {:induction false} PropertySettles(w: World, k: Ranking, at: Place, m: TypeElement, rest: seq<Step>,
                                           seen: Seen, fuel: nat, trail: Trail)
    requires ChainWorld(w, k) && ChainElement(w, at.file, m) && VisibleElement(m) && RankedElement(w, k, at, m)
             && IsProperty(m)
    requires TrailAt(k, at, rest, trail) && SeenOnTrail(w, seen, trail)
    requires LookupProperty(w, at.file, m, rest, seen, fuel).Some?
    ensures SettledElement(w, at.file, m, rest, LookupProperty(w, at.file, m, rest, seen, fuel).value.verdict, trail)
    decreases fuel, 1, m
  {
    if rest != [] {
      ElementIs(w, at.file, m, rest);
      if m.Property? {
        TySettles(w, k, at, m.ty, rest, seen, fuel, trail);
      }
    }
  }

  ghost predicate SettledParts(w: World, file: File, parts: seq<Ty>, steps: seq<Step>, verdicts: seq<Verdict>,
                               trail: Trail) {
    |verdicts| == |parts| && forall i | 0 <= i < |parts| :: SettledTy(w, file, parts[i], steps, verdicts[i], trail)
  }

  lemma ExactIsSettled(w: World, file: File, parts: seq<Ty>, steps: seq<Step>, verdicts: seq<Verdict>, trail: Trail)
    requires ExactParts(w, file, parts, steps, verdicts)
    ensures SettledParts(w, file, parts, steps, verdicts, trail)
  {
    forall i | 0 <= i < |parts|
      ensures SettledTy(w, file, parts[i], steps, verdicts[i], trail)
    {
      assert ExactTy(w, file, parts[i], steps, verdicts[i]);
    }
  }

  /** Only one part can touch the guard, and it finds the guard as it was. */
  lemma {:induction false} EachSettles(w: World, k: Ranking, at: Place, parts: seq<Ty>, steps: seq<Step>, seen: Seen,
                                       fuel: nat, trail: Trail)
    requires ChainWorld(w, k) && ChainParts(w, at.file, parts) && Lone(w, at.file, parts) && VisibleParts(parts)
    requires forall i | 0 <= i < |parts| :: RankedTy(w, k, at, parts[i])
    requires TrailAt(k, at, steps, trail) && SeenOnTrail(w, seen, trail)
    requires LookupEach(w, at.file, parts, steps, seen, fuel).Some?
    ensures SettledParts(w, at.file, parts, steps, LookupEach(w, at.file, parts, steps, seen, fuel).value.verdicts,
            trail)
    decreases fuel, 1, parts
  {
    if parts != [] {
      var r := LookupTy(w, at.file, parts[0], steps, seen, fuel).value;
      var rs := LookupEach(w, at.file, parts[1..], steps, r.seen, fuel).value;
      TySettles(w, k, at, parts[0], steps, seen, fuel, trail);
      if LeafTy(w, at.file, parts[0]) {
        LeafIsExact(w, at.file, parts[0], steps, seen, fuel);
        LoneTail(w, at.file, parts);
        EachSettles(w, k, at, parts[1..], steps, seen, fuel, trail);
      } else {
        LoneTail(w, at.file, parts);
        LeafEachIsExact(w, at.file, parts[1..], steps, r.seen, fuel);
        ExactIsSettled(w, at.file, parts[1..], steps, rs.verdicts, trail);
      }
      SettledCons(w, at.file, parts, steps, r.verdict, rs.verdicts, trail);
    }
  }

  lemma LoneTail(w: World, file: File, parts: seq<Ty>)
    requires parts != [] && Lone(w, file, parts)
    ensures Lone(w, file, parts[1..]) && (!LeafTy(w, file, parts[0]) ==> LeafParts(w, file, parts[1..]))
  {
  }

  lemma SettledCons(w: World, file: File, parts: seq<Ty>, steps: seq<Step>, v: Verdict, vs: seq<Verdict>, trail: Trail)
    requires parts != [] && SettledTy(w, file, parts[0], steps, v, trail)
             && SettledParts(w, file, parts[1..], steps, vs, trail)
    ensures SettledParts(w, file, parts, steps, [v] + vs, trail)
  {
    forall i | 0 <= i < |parts|
      ensures SettledTy(w, file, parts[i], steps, ([v] + vs)[i], trail)
    {
      if i > 0 {
        assert SettledTy(w, file, parts[1..][i - 1], steps, vs[i - 1], trail);
      }
    }
  }

  lemma CombineSettles(w: World, file: File, parts: seq<Ty>, steps: seq<Step>, verdicts: seq<Verdict>, trail: Trail)
    requires SettledParts(w, file, parts, steps, verdicts, trail) && steps != []
    ensures SettledTy(w, file, Intersection(parts), steps, Combine(verdicts), trail)
  {
    CombineIs(verdicts);
    forall n: nat | Combine(verdicts) != Found && PresentTy(w, file, Intersection(parts), steps, n)
      ensures Has(w, trail, n - 1)
    {
      var i :| 0 <= i < |parts| && PresentTy(w, file, parts[i], steps, n);
      assert SettledTy(w, file, parts[i], steps, verdicts[i], trail);
    }
    forall n: nat | Combine(verdicts) != Missing && AbsentTy(w, file, Intersection(parts), steps, n)
      ensures Lacks(w, trail, n - 1)
    {
      var i :| 0 <= i < |verdicts| && verdicts[i] != Missing;
      assert SettledTy(w, file, parts[i], steps, verdicts[i], trail) && AbsentTy(w, file, parts[i], steps, n);
    }
  }

  lemma {:induction false} UnionSettles(w: World, k: Ranking, at: Place, first: Ty, others: seq<Ty>, steps: seq<Step>,
                                        seen: Seen, fuel: nat, trail: Trail)
    requires ChainWorld(w, k) && ChainTy(w, at.file, Union(first, others)) && RankedTy(w, k, at, Union(first, others))
    requires VisibleTy(Union(first, others)) && steps != [] && TrailAt(k, at, steps, trail)
             && SeenOnTrail(w, seen, trail)
    requires LookupTy(w, at.file, Union(first, others), steps, seen, fuel).Some?
    ensures SettledTy(w, at.file, Union(first, others), steps,
                      LookupTy(w, at.file, Union(first, others), steps, seen, fuel).value.verdict, trail)
    decreases fuel, 1, Union(first, others), 0
  {
    var r := LookupTy(w, at.file, first, steps, seen, fuel).value;
    var vs := LookupEach(w, at.file, others, steps, r.seen, fuel).value.verdicts;
    TySettles(w, k, at, first, steps, seen, fuel, trail);
    if LeafTy(w, at.file, first) {
      LeafIsExact(w, at.file, first, steps, seen, fuel);
      EachSettles(w, k, at, others, steps, seen, fuel, trail);
    } else {
      LeafEachIsExact(w, at.file, others, steps, r.seen, fuel);
      ExactIsSettled(w, at.file, others, steps, vs, trail);
    }
    AgreeSettles(w, at.file, first, others, steps, r.verdict, vs, trail);
  }

  lemma AgreeSettles(w: World, file: File, first: Ty, others: seq<Ty>, steps: seq<Step>, v: Verdict, vs: seq<Verdict>,
                     trail: Trail)
    requires SettledTy(w, file, first, steps, v, trail) && SettledParts(w, file, others, steps, vs, trail)
             && steps != []
    ensures SettledTy(w, file, Union(first, others), steps, Agree([v] + vs), trail)
  {
    AgreeIs(v, vs);
    forall n: nat | Agree([v] + vs) != Found && PresentTy(w, file, Union(first, others), steps, n)
      ensures Has(w, trail, n - 1)
    {
      assert PresentTy(w, file, first, steps, n);
      if v == Found {
        var i :| 0 <= i < |vs| && vs[i] != Found;
        assert SettledTy(w, file, others[i], steps, vs[i], trail) && PresentTy(w, file, others[i], steps, n);
      }
    }
    forall n: nat | Agree([v] + vs) != Missing && AbsentTy(w, file, Union(first, others), steps, n)
      ensures Lacks(w, trail, n - 1)
    {
      assert AbsentTy(w, file, first, steps, n);
      if v == Missing {
        var i :| 0 <= i < |vs| && vs[i] != Missing;
        assert SettledTy(w, file, others[i], steps, vs[i], trail) && AbsentTy(w, file, others[i], steps, n);
      }
    }
  }

  lemma {:induction false} NameSettles(w: World, k: Ranking, at: Place, name: Name, steps: seq<Step>, seen: Seen,
                                       fuel: nat, trail: Trail)
    requires ChainWorld(w, k) && NameBelow(w, k, at, name) && TrailAt(k, at, steps, trail)
             && SeenOnTrail(w, seen, trail)
    requires LookupName(w, at.file, name, steps, seen, fuel).Some?
    ensures SettledBase(w, at.file, Some(name), steps, LookupName(w, at.file, name, steps, seen, fuel).value.verdict,
            trail)
    decreases fuel, 0
  {
    NameIsDecl(w, at.file, name, steps, seen, fuel);
    if Resolve(w, at.file, name).Some? {
      var key := Resolve(w, at.file, name).value;
      TrailBelow(k, at, key, steps, trail);
      DeclSettles(w, k, key, steps, seen, fuel - 1, trail);
      BaseIsDecl(w, at.file, name, key, steps);
    } else {
      UnresolvedIs(w, at.file, Some(name), steps);
    }
  }

  lemma UnresolvedIs(w: World, file: File, base: Option<Name>, steps: seq<Step>)
    requires Unresolved(w, file, base)
    ensures forall n: nat :: !PresentBase(w, file, base, steps, n) && !AbsentBase(w, file, base, steps, n)
  {
  }

  lemma BaseIsDecl(w: World, file: File, name: Name, key: Key, steps: seq<Step>)
    requires Resolve(w, file, name) == Some(key)
    ensures forall n: nat :: PresentBase(w, file, Some(name), steps, n) <==> n > 0 && PresentDecl(w, key, steps, n - 1)
    ensures forall n: nat :: AbsentBase(w, file, Some(name), steps, n) <==> n > 0 && AbsentDecl(w, key, steps, n - 1)
  {
  }

  lemma {:induction false} DeclSettles(w: World, k: Ranking, key: Key, steps: seq<Step>, seen: Seen, fuel: nat,
                                       trail: Trail)
    requires ChainWorld(w, k) && key in w.decls && TrailTo(k, key, steps, trail) && SeenOnTrail(w, seen, trail)
    requires LookupDecl(w, key, steps, seen, fuel).Some?
    ensures SettledDecl(w, key, steps, LookupDecl(w, key, steps, seen, fuel).value.verdict, trail, 0)
    decreases fuel, 4
  {
    if steps != [] && !w.decls[key].Enum? {
      DeclIsBody(w, key, steps, seen, fuel);
      TrailEnters(k, key, steps, trail);
      if (key, |steps|) in seen {
        OnTrail(w, key, steps, trail);
      } else {
        BodySettles(w, k, key, steps, seen + {(key, |steps|)}, fuel, trail[(key, |steps|) := steps]);
        BodySettlesDecl(w, key, steps, LookupDecl(w, key, steps, seen, fuel).value.verdict, trail);
      }
    }
  }

  lemma OnTrail(w: World, key: Key, steps: seq<Step>, trail: Trail)
    requires key in w.decls && (key, |steps|) in trail && trail[(key, |steps|)] == steps
    ensures SettledDecl(w, key, steps, Unknown, trail, 0)
  {
    forall n: nat | PresentDecl(w, key, steps, n)
      ensures Has(w, trail, n)
    {
      assert HasAt(w, trail, (key, |steps|), n);
    }
    forall n: nat | AbsentDecl(w, key, steps, n)
      ensures Lacks(w, trail, n)
    {
      assert LacksAt(w, trail, (key, |steps|), n);
    }
  }

  lemma {:induction false} BodySettles(w: World, k: Ranking, key: Key, steps: seq<Step>, entered: Seen, fuel: nat,
                                       trail: Trail)
    requires ChainWorld(w, k) && key in w.decls && !w.decls[key].Enum? && steps != []
    requires TrailAt(k, PlaceOf(k, key), steps, trail) && SeenOnTrail(w, entered, trail)
    requires LookupBody(w, key, steps, entered, fuel).Some?
    ensures SettledDecl(w, key, steps, LookupBody(w, key, steps, entered, fuel).value.verdict, trail, 1)
    decreases fuel, 3
  {
    var d, at := w.decls[key], PlaceOf(k, key);
    assert ChainDecl(w, key, d) && VisibleDecl(d) && RankedDecl(w, k, key);
    if d.Alias? {
      TySettles(w, k, at, d.ty, steps, entered, fuel, trail);
      AliasIs(w, key, steps);
    } else if steps[0].Member? {
      InterfaceIs(w, key, steps);
      if FirstProperty(d.members, steps[0].name) < |d.members| {
        MemberSettles(w, k, at, d.members, steps, entered, fuel, trail);
      } else {
        BasesSettle(w, k, at, d.bases, steps, entered, fuel, trail);
        CombineIs(LookupBases(w, key.file, d.bases, steps, entered, fuel).value.verdicts);
        BasesSettleBody(w, key, steps, LookupBases(w, key.file, d.bases, steps, entered, fuel).value.verdicts, trail);
      }
    }
  }

  lemma AliasIs(w: World, key: Key, steps: seq<Step>)
    requires key in w.decls && w.decls[key].Alias? && steps != []
    ensures forall n: nat :: PresentDecl(w, key, steps, n) <==> PresentTy(w, key.file, w.decls[key].ty, steps, n)
    ensures forall n: nat :: AbsentDecl(w, key, steps, n) <==> AbsentTy(w, key.file, w.decls[key].ty, steps, n)
  {
  }

  /** What an unmerged interface of properties has: its own property of the name, or else some base's. */
  lemma InterfaceIs(w: World, key: Key, steps: seq<Step>)
    requires key in w.decls && w.decls[key].Interface? && VisibleDecl(w.decls[key]) && steps != [] && steps[0].Member?
    ensures var d := w.decls[key];
            if FirstProperty(d.members, steps[0].name) < |d.members| then
              && (forall n: nat :: PresentDecl(w, key, steps, n) <==> PresentMember(w, key.file, d.members, steps, n))
              && (forall n: nat :: AbsentDecl(w, key, steps, n) <==> AbsentMember(w, key.file, d.members, steps, n))
            else
              && (forall n: nat :: PresentDecl(w, key, steps, n) <==> SomeBaseHas(w, key.file, d.bases, steps, n))
              && (forall n: nat :: AbsentDecl(w, key, steps, n) <==> EveryBaseLacks(w, key.file, d.bases, steps, n))
  {
    forall n: nat {
      InterfaceIsAt(w, key, steps, n);
    }
  }

  ghost predicate SomeBaseHas(w: World, file: File, bases: seq<Option<Name>>, steps: seq<Step>, n: nat) {
    exists i :: 0 <= i < |bases| && PresentBase(w, file, bases[i], steps, n)
  }

  ghost predicate EveryBaseLacks(w: World, file: File, bases: seq<Option<Name>>, steps: seq<Step>, n: nat) {
    forall i | 0 <= i < |bases| :: AbsentBase(w, file, bases[i], steps, n)
  }

  lemma InterfaceIsAt(w: World, key: Key, steps: seq<Step>, n: nat)
    requires key in w.decls && w.decls[key].Interface? && VisibleDecl(w.decls[key]) && steps != [] && steps[0].Member?
    ensures var d := w.decls[key];
            if FirstProperty(d.members, steps[0].name) < |d.members| then
              && (PresentDecl(w, key, steps, n) <==> PresentMember(w, key.file, d.members, steps, n))
              && (AbsentDecl(w, key, steps, n) <==> AbsentMember(w, key.file, d.members, steps, n))
            else
              && (PresentDecl(w, key, steps, n) <==> SomeBaseHas(w, key.file, d.bases, steps, n))
              && (AbsentDecl(w, key, steps, n) <==> EveryBaseLacks(w, key.file, d.bases, steps, n))
  {
    var d := w.decls[key];
    NothingMerged(d);
    FirstIsProperty(d.members, steps[0].name);
    MemberIs(w, key.file, d.members, steps);
    assert AllBases(d) == d.bases && AllMembers(d) == d.members;
  }

  ghost predicate SettledBases(w: World, file: File, bases: seq<Option<Name>>, steps: seq<Step>, vs: seq<Verdict>,
                               trail: Trail) {
    |vs| == |bases| && forall i | 0 <= i < |bases| :: SettledBase(w, file, bases[i], steps, vs[i], trail)
  }

  lemma BasesSettleBody(w: World, key: Key, steps: seq<Step>, vs: seq<Verdict>, trail: Trail)
    requires key in w.decls && w.decls[key].Interface? && VisibleDecl(w.decls[key]) && steps != [] && steps[0].Member?
    requires FirstProperty(w.decls[key].members, steps[0].name) == |w.decls[key].members|
    requires SettledBases(w, key.file, w.decls[key].bases, steps, vs, trail)
    ensures SettledDecl(w, key, steps, if w.decls[key].bases == [] then Missing else Combine(vs), trail, 1)
  {
    var d := w.decls[key];
    InterfaceIs(w, key, steps);
    CombineIs(vs);
    forall n: nat | Combine(vs) != Found && PresentDecl(w, key, steps, n)
      ensures Has(w, trail, n - 1)
    {
      var i :| 0 <= i < |d.bases| && PresentBase(w, key.file, d.bases[i], steps, n);
      assert SettledBase(w, key.file, d.bases[i], steps, vs[i], trail);
    }
    forall n: nat | Combine(vs) != Missing && AbsentDecl(w, key, steps, n)
      ensures Lacks(w, trail, n - 1)
    {
      var i :| 0 <= i < |vs| && vs[i] != Missing;
      assert SettledBase(w, key.file, d.bases[i], steps, vs[i], trail) && AbsentBase(w, key.file, d.bases[i], steps, n);
    }
  }

  lemma {:induction false} BaseSettles(w: World, k: Ranking, at: Place, base: Option<Name>, steps: seq<Step>,
                                       seen: Seen, fuel: nat, trail: Trail)
    requires ChainWorld(w, k) && (base.Some? ==> NameBelow(w, k, at, base.value))
    requires TrailAt(k, at, steps, trail) && SeenOnTrail(w, seen, trail)
             && LookupBase(w, at.file, base, steps, seen, fuel).Some?
    ensures SettledBase(w, at.file, base, steps, LookupBase(w, at.file, base, steps, seen, fuel).value.verdict, trail)
    decreases fuel, 1
  {
    if base.Some? {
      NameSettles(w, k, at, base.value, steps, seen, fuel, trail);
    } else {
      UnresolvedIs(w, at.file, base, steps);
    }
  }

  lemma {:induction false} UnresolvedBasesSettle(w: World, file: File, bases: seq<Option<Name>>, steps: seq<Step>,
                                                 seen: Seen,
                                                 fuel: nat, trail: Trail)
    requires forall i | 0 <= i < |bases| :: Unresolved(w, file, bases[i])
    ensures var rs := LookupBases(w, file, bases, steps, seen, fuel);
            rs.Some? && SettledBases(w, file, bases, steps, rs.value.verdicts, trail)
    decreases bases
  {
    if bases != [] {
      assert Unresolved(w, file, bases[0]);
      UnresolvedBasesSettle(w, file, bases[1..], steps, seen, fuel, trail);
      UnresolvedIs(w, file, bases[0], steps);
      BasesCons(w, file, bases, steps, seen, fuel);
      SettledBasesCons(w, file, bases, steps, Unknown,
        LookupBases(w, file, bases[1..], steps, seen, fuel).value.verdicts, trail);
    }
  }

  lemma SettledBasesCons(w: World, file: File, bases: seq<Option<Name>>, steps: seq<Step>, v: Verdict, vs: seq<Verdict>,
                         trail: Trail)
    requires bases != [] && SettledBase(w, file, bases[0], steps, v, trail)
             && SettledBases(w, file, bases[1..], steps, vs, trail)
    ensures SettledBases(w, file, bases, steps, [v] + vs, trail)
  {
    forall i | 0 <= i < |bases|
      ensures SettledBase(w, file, bases[i], steps, ([v] + vs)[i], trail)
    {
      if i > 0 {
        assert SettledBase(w, file, bases[1..][i - 1], steps, vs[i - 1], trail);
      }
    }
  }

  lemma {:induction false} BasesSettle(w: World, k: Ranking, at: Place, bases: seq<Option<Name>>, steps: seq<Step>,
                                       seen: Seen, fuel: nat, trail: Trail)
    requires ChainWorld(w, k) && BasesBelow(w, k, at, bases) && LoneBase(w, at.file, bases)
    requires TrailAt(k, at, steps, trail) && SeenOnTrail(w, seen, trail)
             && LookupBases(w, at.file, bases, steps, seen, fuel).Some?
    ensures SettledBases(w, at.file, bases, steps, LookupBases(w, at.file, bases, steps, seen, fuel).value.verdicts,
            trail)
    decreases fuel, 2, bases
  {
    if bases != [] {
      var r := LookupBase(w, at.file, bases[0], steps, seen, fuel).value;
      var rs := LookupBases(w, at.file, bases[1..], steps, r.seen, fuel).value;
      RestBelow(w, k, at, bases);
      BaseSettles(w, k, at, bases[0], steps, seen, fuel, trail);
      LoneBaseTail(w, at.file, bases);
      if Unresolved(w, at.file, bases[0]) {
        BasesSettle(w, k, at, bases[1..], steps, seen, fuel, trail);
      } else {
        UnresolvedBasesSettle(w, at.file, bases[1..], steps, r.seen, fuel, trail);
      }
      SettledBasesCons(w, at.file, bases, steps, r.verdict, rs.verdicts, trail);
    }
  }

  lemma LoneBaseTail(w: World, file: File, bases: seq<Option<Name>>)
    requires bases != [] && LoneBase(w, file, bases)
    ensures LoneBase(w, file, bases[1..])
    ensures !Unresolved(w, file, bases[0]) ==> forall i | 0 <= i < |bases[1..]| :: Unresolved(w, file, bases[1..][i])
  {
  }

  // ----- the check as it is called

  /** The check always ends, and says found or missing exactly when the member is there or is not. */
  lemma ChainIsExact(w: World, k: Ranking, key: Key, steps: seq<Step>, fuel: nat)
    requires ChainWorld(w, k) && key in w.decls && fuel >= |Pairs(w, |steps| + k.height[key])|
    ensures LookupDecl(w, key, steps, {}, fuel).Some?
    ensures LookupDecl(w, key, steps, {}, fuel).value.verdict == Found <==> Present(w, key, steps)
    ensures LookupDecl(w, key, steps, {}, fuel).value.verdict == Missing <==> Absent(w, key, steps)
  {
    RankedLookupEnds(w, k, key, steps, fuel);
    LookupDeclIsSound(w, key, steps, {}, fuel);
    DeclSettles(w, k, key, steps, {}, fuel, map[]);
    forall n: nat
      ensures !Has(w, map[], n) && !Lacks(w, map[], n)
    {
    }
  }
}
