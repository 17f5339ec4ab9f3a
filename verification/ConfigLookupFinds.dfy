/**
 When the shared guard hides nothing that is there: the search may branch through intersections
 and bases, and a branch may meet what an earlier branch has entered, as long as no union and no
 literal indexed access names a declaration.
 */
module ConfigLookupFinds {
  import opened Wrappers
  import opened TypeWorld
  import opened ConfigLookup
  import opened ConfigLookupSound
  import opened ConfigLookupLeaf

  // ----- declarations searched without unions and indexed accesses

  ghost predicate SearchTy(w: World, file: File, ty: Ty) {
    LeafTy(w, file, ty) || match ty
      case TypeLiteral(members) => SearchMembers(w, file, members)
      case Intersection(parts) => SearchParts(w, file, parts)
      case Union(_, _) => false
      case IndexedAccess(_, _) => false
      case _ => Inner(ty).Some? ==> SearchTy(w, file, Inner(ty).value)
  }

  ghost predicate SearchMembers(w: World, file: File, members: seq<TypeElement>) {
    forall i | 0 <= i < |members| :: SearchElement(w, file, members[i])
  }

  ghost predicate SearchElement(w: World, file: File, m: TypeElement) {
    m.Property? ==> SearchTy(w, file, m.ty)
  }

  ghost predicate SearchParts(w: World, file: File, parts: seq<Ty>) {
    forall i | 0 <= i < |parts| :: SearchTy(w, file, parts[i])
  }

  ghost predicate SearchDecl(w: World, key: Key, d: Decl) {
    match d
    case Interface(members, bases, _) => SearchMembers(w, key.file, members)
    case Alias(ty) => SearchTy(w, key.file, ty)
    case Enum => true
  }

  ghost predicate SearchWorld(w: World) {
    VisibleWorld(w) && forall key | key in w.decls :: SearchDecl(w, key, w.decls[key])
  }

  // ----- what a guard promises about the pairs it holds

  /** Every path met is a tail of the first, so its length names it. */
  ghost predicate OnPath(path: seq<Step>, steps: seq<Step>) {
    |steps| <= |path| && steps == path[|path| - |steps|..]
  }

  ghost predicate HitAt(w: World, path: seq<Step>, seen: Seen, key: Key, l: nat, k: nat) {
    (key, l) in seen && key in w.decls && l <= |path| && PresentDecl(w, key, path[|path| - l..], k)
  }

  /** Some declaration already entered has the member, by a derivation of at most `m` hops. */
  ghost predicate Hit(w: World, path: seq<Step>, seen: Seen, m: int) {
    exists key, l: nat, k: nat :: HitAt(w, path, seen, key, l, k) && k <= m
  }

  /** What was entered on the way has the member only if something entered before has it. */
  ghost predicate Carried(w: World, path: seq<Step>, seen: Seen, later: Seen) {
    forall m: nat :: Hit(w, path, later, m) ==> Hit(w, path, seen, m)
  }

  ghost predicate BelowTy(w: World, path: seq<Step>, file: File, ty: Ty, steps: seq<Step>, seen: Seen) {
    forall n: nat :: PresentTy(w, file, ty, steps, n) ==> Hit(w, path, seen, n - 1)
  }

  ghost predicate BelowMember(w: World, path: seq<Step>, file: File, members: seq<TypeElement>, steps: seq<Step>,
                              seen: Seen)
    requires steps != [] && steps[0].Member?
  {
    forall n: nat :: PresentMember(w, file, members, steps, n) ==> Hit(w, path, seen, n - 1)
  }

  ghost predicate BelowBase(w: World, path: seq<Step>, file: File, base: Option<Name>, steps: seq<Step>, seen: Seen) {
    forall n: nat :: PresentBase(w, file, base, steps, n) ==> Hit(w, path, seen, n - 1)
  }

  ghost predicate BelowDecl(w: World, path: seq<Step>, key: Key, steps: seq<Step>, seen: Seen)
    requires key in w.decls
  {
    forall n: nat :: PresentDecl(w, key, steps, n) ==> Hit(w, path, seen, n - 1)
  }

  lemma HitGrows(w: World, path: seq<Step>, seen: Seen, m: int, n: int)
    requires Hit(w, path, seen, m) && m <= n
    ensures Hit(w, path, seen, n)
  {
    var key, l: nat, k: nat :| HitAt(w, path, seen, key, l, k) && k <= m;
  }

  lemma HitCarried(w: World, path: seq<Step>, seen: Seen, later: Seen, m: int)
    requires Carried(w, path, seen, later) && Hit(w, path, later, m)
    ensures Hit(w, path, seen, m)
  {
    var key, l: nat, k: nat :| HitAt(w, path, later, key, l, k) && k <= m;
  }

  lemma TailOnPath(path: seq<Step>, steps: seq<Step>)
    requires OnPath(path, steps) && steps != []
    ensures OnPath(path, steps[1..])
  {
  }

  lemma HitIsNatural(w: World, path: seq<Step>, seen: Seen, m: int)
    requires Hit(w, path, seen, m)
    ensures m >= 0
  {
  }

  /** A derivation for the declaration being entered can be replaced by a shorter one until it leaves it. */
  lemma {:induction false} Descend(w: World, path: seq<Step>, key: Key, steps: seq<Step>, seen: Seen, m: nat)
    requires key in w.decls && OnPath(path, steps)
    requires BelowDecl(w, path, key, steps, seen + {(key, |steps|)}) && Hit(w, path, seen + {(key, |steps|)}, m)
    ensures Hit(w, path, seen, m)
    decreases m
  {
    var entered := seen + {(key, |steps|)};
    var other, l: nat, k: nat :| HitAt(w, path, entered, other, l, k) && k <= m;
    if (other, l) in seen {
      assert HitAt(w, path, seen, other, l, k);
    } else {
      assert Hit(w, path, entered, k - 1);
      HitIsNatural(w, path, entered, k - 1);
      Descend(w, path, key, steps, seen, k - 1);
      HitGrows(w, path, seen, k - 1, m);
    }
  }

  lemma DeclDescends(w: World, path: seq<Step>, key: Key, steps: seq<Step>, seen: Seen, later: Seen)
    requires key in w.decls && OnPath(path, steps)
    requires BelowDecl(w, path, key, steps, seen + {(key, |steps|)}) && Carried(w, path, seen + {(key, |steps|)}, later)
    ensures BelowDecl(w, path, key, steps, seen) && Carried(w, path, seen, later)
  {
    var entered := seen + {(key, |steps|)};
    forall m: nat | Hit(w, path, later, m)
      ensures Hit(w, path, seen, m)
    {
      Descend(w, path, key, steps, seen, m);
    }
    forall n: nat | PresentDecl(w, key, steps, n)
      ensures Hit(w, path, seen, n - 1)
    {
      HitIsNatural(w, path, entered, n - 1);
      Descend(w, path, key, steps, seen, n - 1);
    }
  }

  // ----- a lookup that finds nothing

  lemma {:induction false} MissesTy(w: World, path: seq<Step>, file: File, ty: Ty, steps: seq<Step>, seen: Seen,
                                    fuel: nat)
    requires SearchWorld(w) && SearchTy(w, file, ty) && VisibleTy(ty) && OnPath(path, steps)
    requires LookupTy(w, file, ty, steps, seen, fuel).Some?
             && LookupTy(w, file, ty, steps, seen, fuel).value.verdict != Found
    ensures BelowTy(w, path, file, ty, steps, seen)
    ensures Carried(w, path, seen, LookupTy(w, file, ty, steps, seen, fuel).value.seen)
    decreases fuel, 1, ty
  {
    TailOnPath(path, steps);
    if LeafTy(w, file, ty) {
      LeafIsExact(w, file, ty, steps, seen, fuel);
    } else if ty.TypeLiteral? {
      if steps[0].Member? {
        MissesMember(w, path, file, ty.members, steps, seen, fuel);
      }
    } else if ty.Intersection? {
      MissesEach(w, path, file, ty.parts, steps, seen, fuel);
    } else if Inner(ty).Some? {
      if PathInto(ty, steps).Some? {
        MissesTy(w, path, file, Inner(ty).value, PathInto(ty, steps).value, seen, fuel);
        TyIsInner(w, file, ty, steps, seen, fuel);
      }
    } else {
      MissesName(w, path, file, NameIn(ty).value, steps, seen, fuel);
    }
  }

  lemma {:induction false} MissesMember(w: World, path: seq<Step>, file: File, members: seq<TypeElement>,
                                        steps: seq<Step>, seen: Seen, fuel: nat)
    requires SearchWorld(w) && SearchMembers(w, file, members) && VisibleMembers(members)
    requires OnPath(path, steps) && steps != [] && steps[0].Member?
    requires LookupMember(w, file, members, steps, seen, fuel).Some?
    requires LookupMember(w, file, members, steps, seen, fuel).value.verdict != Found
    ensures BelowMember(w, path, file, members, steps, seen)
    ensures Carried(w, path, seen, LookupMember(w, file, members, steps, seen, fuel).value.seen)
    decreases fuel, 1, members
  {
    FirstIsProperty(members, steps[0].name);
    var i := FirstProperty(members, steps[0].name);
    if i < |members| {
      TailOnPath(path, steps);
      assert SearchElement(w, file, members[i]) && VisibleElement(members[i]);
      MissesProperty(w, path, file, members[i], steps[1..], seen, fuel);
    }
  }

  lemma {:induction false} MissesProperty(w: World, path: seq<Step>, file: File, m: TypeElement, rest: seq<Step>,
                                          seen: Seen, fuel: nat)
    requires SearchWorld(w) && SearchElement(w, file, m) && VisibleElement(m) && IsProperty(m) && OnPath(path, rest)
    requires LookupProperty(w, file, m, rest, seen, fuel).Some?
    requires LookupProperty(w, file, m, rest, seen, fuel).value.verdict != Found
    ensures forall n: nat :: PresentElement(w, file, m, rest, n) ==> Hit(w, path, seen, n - 1)
    ensures Carried(w, path, seen, LookupProperty(w, file, m, rest, seen, fuel).value.seen)
    decreases fuel, 1, m
  {
    if m.Property? {
      MissesTy(w, path, file, m.ty, rest, seen, fuel);
    }
  }

  lemma {:induction false} MissesEach(w: World, path: seq<Step>, file: File, parts: seq<Ty>, steps: seq<Step>,
                                      seen: Seen, fuel: nat)
    requires SearchWorld(w) && SearchParts(w, file, parts) && VisibleParts(parts) && OnPath(path, steps)
    requires LookupEach(w, file, parts, steps, seen, fuel).Some?
    requires Found !in LookupEach(w, file, parts, steps, seen, fuel).value.verdicts
    ensures forall i | 0 <= i < |parts| :: BelowTy(w, path, file, parts[i], steps, seen)
    ensures Carried(w, path, seen, LookupEach(w, file, parts, steps, seen, fuel).value.seen)
    decreases fuel, 1, parts
  {
    if parts != [] {
      var r := LookupTy(w, file, parts[0], steps, seen, fuel).value;
      var rs := LookupEach(w, file, parts[1..], steps, r.seen, fuel).value;
      FirstAndRest(r.verdict, rs.verdicts);
      MissesTy(w, path, file, parts[0], steps, seen, fuel);
      MissesEach(w, path, file, parts[1..], steps, r.seen, fuel);
      forall i | 0 <= i < |parts|
        ensures BelowTy(w, path, file, parts[i], steps, seen)
      {
        if i > 0 {
          assert parts[i] == parts[1..][i - 1];
          BelowTyCarried(w, path, file, parts[i], steps, seen, r.seen);
        }
      }
    }
  }

  lemma FirstAndRest(v: Verdict, vs: seq<Verdict>)
    requires Found !in [v] + vs
    ensures v != Found && Found !in vs
  {
    assert v in [v] + vs;
  }

  lemma BelowTyCarried(w: World, path: seq<Step>, file: File, ty: Ty, steps: seq<Step>, seen: Seen, later: Seen)
    requires BelowTy(w, path, file, ty, steps, later) && Carried(w, path, seen, later)
    ensures BelowTy(w, path, file, ty, steps, seen)
  {
    forall n: nat | PresentTy(w, file, ty, steps, n)
      ensures Hit(w, path, seen, n - 1)
    {
      HitCarried(w, path, seen, later, n - 1);
    }
  }

  lemma {:induction false} MissesName(w: World, path: seq<Step>, file: File, name: Name, steps: seq<Step>, seen: Seen,
                                      fuel: nat)
    requires SearchWorld(w) && OnPath(path, steps)
    requires LookupName(w, file, name, steps, seen, fuel).Some?
    requires LookupName(w, file, name, steps, seen, fuel).value.verdict != Found
    ensures forall n: nat :: PresentName(w, file, name, steps, n) ==> Hit(w, path, seen, n - 1)
    ensures Carried(w, path, seen, LookupName(w, file, name, steps, seen, fuel).value.seen)
    decreases fuel, 0
  {
    if Resolve(w, file, name).Some? {
      MissesDecl(w, path, Resolve(w, file, name).value, steps, seen, fuel - 1);
    }
  }

  lemma {:induction false} MissesDecl(w: World, path: seq<Step>, key: Key, steps: seq<Step>, seen: Seen, fuel: nat)
    requires SearchWorld(w) && key in w.decls && OnPath(path, steps)
    requires LookupDecl(w, key, steps, seen, fuel).Some? && LookupDecl(w, key, steps, seen, fuel).value.verdict != Found
    ensures forall n: nat :: PresentDecl(w, key, steps, n) ==> Hit(w, path, seen, n)
    ensures Carried(w, path, seen, LookupDecl(w, key, steps, seen, fuel).value.seen)
    decreases fuel, 4
  {
    var entered := seen + {(key, |steps|)};
    if !w.decls[key].Enum? {
      if (key, |steps|) in seen {
        forall n: nat | PresentDecl(w, key, steps, n)
          ensures Hit(w, path, seen, n)
        {
          assert HitAt(w, path, seen, key, |steps|, n);
        }
      } else {
        MissesBody(w, path, key, steps, entered, fuel);
        DeclDescends(w, path, key, steps, seen, LookupDecl(w, key, steps, seen, fuel).value.seen);
        forall n: nat | PresentDecl(w, key, steps, n)
          ensures Hit(w, path, seen, n)
        {
          HitGrows(w, path, seen, n - 1, n);
        }
      }
    }
  }

  lemma {:induction false} MissesBody(w: World, path: seq<Step>, key: Key, steps: seq<Step>, entered: Seen, fuel: nat)
    requires SearchWorld(w) && key in w.decls && OnPath(path, steps) && steps != [] && !w.decls[key].Enum?
    requires LookupBody(w, key, steps, entered, fuel).Some?
             && LookupBody(w, key, steps, entered, fuel).value.verdict != Found
    ensures BelowDecl(w, path, key, steps, entered)
    ensures Carried(w, path, entered, LookupBody(w, key, steps, entered, fuel).value.seen)
    decreases fuel, 3
  {
    var d := w.decls[key];
    assert SearchDecl(w, key, d) && VisibleDecl(d);
    if d.Alias? {
      MissesTy(w, path, key.file, d.ty, steps, entered, fuel);
    } else if steps[0].Member? {
      NothingMerged(d);
      FirstIsProperty(d.members, steps[0].name);
      if FirstProperty(d.members, steps[0].name) < |d.members| {
        MissesMember(w, path, key.file, d.members, steps, entered, fuel);
      } else {
        MissesBases(w, path, key.file, d.bases, steps, entered, fuel);
      }
    }
  }

  lemma {:induction false} MissesBase(w: World, path: seq<Step>, file: File, base: Option<Name>, steps: seq<Step>,
                                      seen: Seen, fuel: nat)
    requires SearchWorld(w) && OnPath(path, steps)
    requires LookupBase(w, file, base, steps, seen, fuel).Some?
             && LookupBase(w, file, base, steps, seen, fuel).value.verdict != Found
    ensures BelowBase(w, path, file, base, steps, seen)
    ensures Carried(w, path, seen, LookupBase(w, file, base, steps, seen, fuel).value.seen)
    decreases fuel, 1
  {
    if base.Some? {
      MissesName(w, path, file, base.value, steps, seen, fuel);
    }
  }

  lemma {:induction false} MissesBases(w: World, path: seq<Step>, file: File, bases: seq<Option<Name>>,
                                       steps: seq<Step>, seen: Seen, fuel: nat)
    requires SearchWorld(w) && OnPath(path, steps)
    requires LookupBases(w, file, bases, steps, seen, fuel).Some?
    requires Found !in LookupBases(w, file, bases, steps, seen, fuel).value.verdicts
    ensures forall i | 0 <= i < |bases| :: BelowBase(w, path, file, bases[i], steps, seen)
    ensures Carried(w, path, seen, LookupBases(w, file, bases, steps, seen, fuel).value.seen)
    decreases fuel, 2, bases
  {
    if bases != [] {
      var r := LookupBase(w, file, bases[0], steps, seen, fuel).value;
      var rs := LookupBases(w, file, bases[1..], steps, r.seen, fuel).value;
      FirstAndRest(r.verdict, rs.verdicts);
      MissesBase(w, path, file, bases[0], steps, seen, fuel);
      MissesBases(w, path, file, bases[1..], steps, r.seen, fuel);
      forall i | 0 <= i < |bases|
        ensures BelowBase(w, path, file, bases[i], steps, seen)
      {
        if i > 0 {
          assert bases[i] == bases[1..][i - 1];
          BelowBaseCarried(w, path, file, bases[i], steps, seen, r.seen);
        }
      }
    }
  }

  lemma BelowBaseCarried(w: World, path: seq<Step>, file: File, base: Option<Name>, steps: seq<Step>, seen: Seen,
                         later: Seen)
    requires BelowBase(w, path, file, base, steps, later) && Carried(w, path, seen, later)
    ensures BelowBase(w, path, file, base, steps, seen)
  {
    forall n: nat | PresentBase(w, file, base, steps, n)
      ensures Hit(w, path, seen, n - 1)
    {
      HitCarried(w, path, seen, later, n - 1);
    }
  }

  // ----- the check as it is called

  /** Among such declarations the check says found exactly when the member is there. */
  lemma FoundIffPresent(w: World, key: Key, steps: seq<Step>, fuel: nat)
    requires SearchWorld(w) && key in w.decls && LookupDecl(w, key, steps, {}, fuel).Some?
    ensures LookupDecl(w, key, steps, {}, fuel).value.verdict == Found <==> Present(w, key, steps)
  {
    LookupDeclIsSound(w, key, steps, {}, fuel);
    if LookupDecl(w, key, steps, {}, fuel).value.verdict != Found {
      MissesDecl(w, steps, key, steps, {}, fuel);
      forall n: nat
        ensures !PresentDecl(w, key, steps, n)
      {
        assert !Hit(w, steps, {}, n);
      }
    }
  }
}
