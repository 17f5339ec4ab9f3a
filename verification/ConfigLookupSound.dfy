/**
 What the verdicts of the presence check mean. Nothing is both present and absent. Where
 every member is a property signature the walk can see, `Found` means present and `Missing`
 means absent, whatever the shared guard has cut off.
 */
module ConfigLookupSound {
  import opened Wrappers
  import opened TypeWorld
  import opened ConfigLookup

  // ----- nothing is both present and absent

  lemma {:induction false} DisjointTy(w: World, file: File, ty: Ty, steps: seq<Step>, n: nat, m: nat)
    ensures !(PresentTy(w, file, ty, steps, n) && AbsentTy(w, file, ty, steps, m))
    decreases n, 1, ty
  {
    if PresentTy(w, file, ty, steps, n) && AbsentTy(w, file, ty, steps, m) {
      if ty.TypeLiteral? {
        DisjointMember(w, file, ty.members, steps, n, m);
      } else if ty.Intersection? {
        var i :| 0 <= i < |ty.parts| && PresentTy(w, file, ty.parts[i], steps, n);
        DisjointTy(w, file, ty.parts[i], steps, n, m);
      } else if ty.Union? {
        DisjointTy(w, file, ty.first, steps, n, m);
      } else if Inner(ty).Some? {
        DisjointTy(w, file, Inner(ty).value, PathInto(ty, steps).value, n, m);
      } else {
        DisjointName(w, file, NameIn(ty).value, steps, n, m);
      }
    }
  }

  lemma {:induction false} DisjointMember(w: World, file: File, members: seq<TypeElement>, steps: seq<Step>, n: nat,
                                          m: nat)
    requires steps != [] && steps[0].Member?
    ensures !(PresentMember(w, file, members, steps, n) && AbsentMember(w, file, members, steps, m))
    decreases n, 1, members
  {
    if PresentMember(w, file, members, steps, n) && AbsentMember(w, file, members, steps, m) {
      var i := FirstDeclared(members, steps[0].name);
      if i == |members| {
        i := FirstStringIndex(members);
        assert IsIndex(members[i]);
      }
      DisjointElement(w, file, members[i], steps[1..], n, m);
    }
  }

  lemma {:induction false} DisjointElement(w: World, file: File, member: TypeElement, rest: seq<Step>, n: nat, m: nat)
    ensures !(PresentElement(w, file, member, rest, n) && AbsentElement(w, file, member, rest, m))
    decreases n, 1, member
  {
    if member.Property? || member.Accessor? || member.StringIndex? {
      DisjointTy(w, file, member.ty, rest, n, m);
    }
  }

  lemma {:induction false} DisjointName(w: World, file: File, name: Name, steps: seq<Step>, n: nat, m: nat)
    ensures !(PresentName(w, file, name, steps, n) && AbsentName(w, file, name, steps, m))
    decreases n, 0
  {
    if n > 0 && m > 0 && Resolve(w, file, name).Some? {
      DisjointDecl(w, Resolve(w, file, name).value, steps, n - 1, m - 1);
    }
  }

  lemma {:induction false} DisjointDecl(w: World, key: Key, steps: seq<Step>, n: nat, m: nat)
    requires key in w.decls
    ensures !(PresentDecl(w, key, steps, n) && AbsentDecl(w, key, steps, m))
    decreases n, 2
  {
    if PresentDecl(w, key, steps, n) && AbsentDecl(w, key, steps, m) {
      var d := w.decls[key];
      if d.Alias? {
        DisjointTy(w, key.file, d.ty, steps, n, m);
      } else if PresentMember(w, key.file, AllMembers(d), steps, n) {
        DisjointMember(w, key.file, AllMembers(d), steps, n, m);
      } else {
        var i :| 0 <= i < |AllBases(d)| && PresentBase(w, key.file, AllBases(d)[i], steps, n);
        assert AbsentBase(w, key.file, AllBases(d)[i], steps, m);
        DisjointName(w, key.file, AllBases(d)[i].value, steps, n, m);
      }
    }
  }

  // ----- what the walk can see

  /** A member list in which every member is a property signature. */
  ghost predicate VisibleMembers(members: seq<TypeElement>) {
    forall i | 0 <= i < |members| :: VisibleElement(members[i])
  }

  ghost predicate VisibleElement(m: TypeElement) {
    (IsProperty(m) || m.Signature?) && (m.Property? ==> VisibleTy(m.ty))
  }

  /** No other kind of member and no `keyof` anywhere a lookup can get to. */
  ghost predicate VisibleTy(ty: Ty) {
    match ty
    case TypeLiteral(members) => VisibleMembers(members)
    case Intersection(parts) => forall i | 0 <= i < |parts| :: VisibleTy(parts[i])
    case Union(first, others) => VisibleTy(first) && forall i | 0 <= i < |others| :: VisibleTy(others[i])
    case KeyOf(_) => false
    case _ => Inner(ty).Some? ==> VisibleTy(Inner(ty).value)
  }

  ghost predicate VisibleDecl(d: Decl) {
    match d
    case Interface(members, bases, merged) => merged == [] && VisibleMembers(members)
    case Alias(ty) => VisibleTy(ty)
    case Enum => true
  }

  ghost predicate VisibleWorld(w: World) {
    forall key | key in w.decls :: VisibleDecl(w.decls[key])
  }

  lemma {:induction false} FirstIsProperty(members: seq<TypeElement>, name: Name)
    requires VisibleMembers(members)
    ensures FirstDeclared(members, name) == FirstProperty(members, name)
    ensures forall i | 0 <= i < |members| :: !IsIndex(members[i])
  {
    if members != [] {
      assert VisibleElement(members[0]);
      assert forall i | 0 <= i < |members[1..]| :: members[1..][i] == members[i + 1];
      FirstIsProperty(members[1..], name);
      assert forall i | 0 < i < |members| :: members[i] == members[1..][i - 1];
    }
  }

  lemma NothingMerged(d: Decl)
    requires d.Interface? && d.merged == []
    ensures AllMembers(d) == d.members && AllBases(d) == d.bases
  {
  }

  // ----- the verdicts agree with the declarations

  ghost predicate SoundTy(w: World, file: File, ty: Ty, steps: seq<Step>, v: Verdict, n: nat) {
    (v == Found ==> PresentTy(w, file, ty, steps, n)) && (v == Missing ==> AbsentTy(w, file, ty, steps, n))
  }

  ghost predicate SoundMember(w: World, file: File, members: seq<TypeElement>, steps: seq<Step>, v: Verdict, n: nat)
    requires steps != [] && steps[0].Member?
  {
    (v == Found ==> PresentMember(w, file, members, steps, n))
      && (v == Missing ==> AbsentMember(w, file, members, steps, n))
  }

  ghost predicate SoundDecl(w: World, key: Key, steps: seq<Step>, v: Verdict, n: nat)
    requires key in w.decls
  {
    (v == Found ==> PresentDecl(w, key, steps, n)) && (v == Missing ==> AbsentDecl(w, key, steps, n))
  }

  ghost predicate SoundName(w: World, file: File, name: Name, steps: seq<Step>, v: Verdict, n: nat) {
    (v == Found ==> PresentName(w, file, name, steps, n)) && (v == Missing ==> AbsentName(w, file, name, steps, n))
  }

  lemma {:induction false} LookupTyIsSound(w: World, file: File, ty: Ty, steps: seq<Step>, seen: Seen, fuel: nat)
    requires VisibleWorld(w) && VisibleTy(ty) && LookupTy(w, file, ty, steps, seen, fuel).Some?
    ensures SoundTy(w, file, ty, steps, LookupTy(w, file, ty, steps, seen, fuel).value.verdict, fuel)
    decreases fuel, 1, ty
  {
    if steps != [] {
      if ty.TypeLiteral? {
        if steps[0].Member? {
          LookupMemberIsSound(w, file, ty.members, steps, seen, fuel);
        }
      } else if ty.Intersection? {
        LookupEachIsSound(w, file, ty.parts, steps, seen, fuel);
      } else if ty.Union? {
        LookupUnionIsSound(w, file, ty.first, ty.others, steps, seen, fuel);
      } else if Inner(ty).Some? {
        if PathInto(ty, steps).Some? {
          LookupTyIsSound(w, file, Inner(ty).value, PathInto(ty, steps).value, seen, fuel);
        }
      } else if NameIn(ty).Some? {
        LookupNameIsSound(w, file, NameIn(ty).value, steps, seen, fuel);
      }
    }
  }

  lemma {:induction false} LookupUnionIsSound(w: World, file: File, first: Ty, others: seq<Ty>, steps: seq<Step>,
                                              seen: Seen, fuel: nat)
    requires VisibleWorld(w) && VisibleTy(Union(first, others)) && steps != []
    requires LookupTy(w, file, Union(first, others), steps, seen, fuel).Some?
    ensures SoundTy(w, file, Union(first, others), steps,
                    LookupTy(w, file, Union(first, others), steps, seen, fuel).value.verdict, fuel)
    decreases fuel, 1, Union(first, others), 0
  {
    LookupTyIsSound(w, file, first, steps, seen, fuel);
    var r := LookupTy(w, file, first, steps, seen, fuel).value;
    LookupEachIsSound(w, file, others, steps, r.seen, fuel);
    var vs := LookupEach(w, file, others, steps, r.seen, fuel).value.verdicts;
    assert r.verdict in [r.verdict] + vs;
    assert forall i | 0 <= i < |vs| :: vs[i] in [r.verdict] + vs;
  }

  lemma {:induction false} LookupMemberIsSound(w: World, file: File, members: seq<TypeElement>, steps: seq<Step>,
                                               seen: Seen, fuel: nat)
    requires VisibleWorld(w) && VisibleMembers(members) && steps != [] && steps[0].Member?
    requires LookupMember(w, file, members, steps, seen, fuel).Some?
    ensures SoundMember(w, file, members, steps, LookupMember(w, file, members, steps, seen, fuel).value.verdict, fuel)
    decreases fuel, 1, members
  {
    var i := FirstProperty(members, steps[0].name);
    FirstIsProperty(members, steps[0].name);
    if i < |members| {
      assert VisibleElement(members[i]);
      LookupPropertyIsSound(w, file, members[i], steps[1..], seen, fuel);
    }
  }

  lemma {:induction false} LookupPropertyIsSound(w: World, file: File, m: TypeElement, rest: seq<Step>, seen: Seen,
                                                 fuel: nat)
    requires VisibleWorld(w) && IsProperty(m) && VisibleElement(m) && LookupProperty(w, file, m, rest, seen, fuel).Some?
    ensures LookupProperty(w, file, m, rest, seen, fuel).value.verdict == Found
            ==> PresentElement(w, file, m, rest, fuel)
    ensures LookupProperty(w, file, m, rest, seen, fuel).value.verdict == Missing
            ==> AbsentElement(w, file, m, rest, fuel)
    decreases fuel, 1, m
  {
    if rest != [] && m.Property? {
      LookupTyIsSound(w, file, m.ty, rest, seen, fuel);
    }
  }

  lemma {:induction false} LookupEachIsSound(w: World, file: File, parts: seq<Ty>, steps: seq<Step>, seen: Seen,
                                             fuel: nat)
    requires VisibleWorld(w) && (forall i | 0 <= i < |parts| :: VisibleTy(parts[i]))
    requires LookupEach(w, file, parts, steps, seen, fuel).Some?
    ensures |LookupEach(w, file, parts, steps, seen, fuel).value.verdicts| == |parts|
    ensures forall i | 0 <= i < |parts| ::
              SoundTy(w, file, parts[i], steps, LookupEach(w, file, parts, steps, seen, fuel).value.verdicts[i], fuel)
    decreases fuel, 1, parts
  {
    if parts != [] {
      LookupTyIsSound(w, file, parts[0], steps, seen, fuel);
      var r := LookupTy(w, file, parts[0], steps, seen, fuel).value;
      LookupEachIsSound(w, file, parts[1..], steps, r.seen, fuel);
    }
  }

  lemma {:induction false} LookupNameIsSound(w: World, file: File, name: Name, steps: seq<Step>, seen: Seen, fuel: nat)
    requires VisibleWorld(w) && LookupName(w, file, name, steps, seen, fuel).Some?
    ensures SoundName(w, file, name, steps, LookupName(w, file, name, steps, seen, fuel).value.verdict, fuel)
    decreases fuel, 0
  {
    if Resolve(w, file, name).Some? {
      LookupDeclIsSound(w, Resolve(w, file, name).value, steps, seen, fuel - 1);
    }
  }

  /** Soundness of the check as it is called, for any graph of visible declarations and any guard. */
  lemma {:induction false} LookupDeclIsSound(w: World, key: Key, steps: seq<Step>, seen: Seen, fuel: nat)
    requires VisibleWorld(w) && key in w.decls && LookupDecl(w, key, steps, seen, fuel).Some?
    ensures SoundDecl(w, key, steps, LookupDecl(w, key, steps, seen, fuel).value.verdict, fuel)
    decreases fuel, 3
  {
    if steps != [] && (key, |steps|) !in seen && !w.decls[key].Enum? {
      var entered := seen + {(key, |steps|)};
      assert VisibleDecl(w.decls[key]);
      if w.decls[key].Alias? {
        LookupTyIsSound(w, key.file, w.decls[key].ty, steps, entered, fuel);
      } else if steps[0].Member? {
        LookupInterfaceIsSound(w, key, steps, entered, fuel);
      }
    }
  }

  lemma {:induction false} LookupInterfaceIsSound(w: World, key: Key, steps: seq<Step>, entered: Seen, fuel: nat)
    requires VisibleWorld(w) && key in w.decls && w.decls[key].Interface? && steps != [] && steps[0].Member?
    requires LookupBody(w, key, steps, entered, fuel).Some?
    ensures SoundDecl(w, key, steps, LookupBody(w, key, steps, entered, fuel).value.verdict, fuel)
    decreases fuel, 2
  {
    var d := w.decls[key];
    assert VisibleDecl(d);
    NothingMerged(d);
    FirstIsProperty(d.members, steps[0].name);
    if FirstProperty(d.members, steps[0].name) < |d.members| {
      LookupMemberIsSound(w, key.file, d.members, steps, entered, fuel);
    } else {
      LookupBasesIsSound(w, key.file, d.bases, steps, entered, fuel);
    }
  }

  lemma {:induction false} LookupBasesIsSound(w: World, file: File, bases: seq<Option<Name>>, steps: seq<Step>,
                                              seen: Seen, fuel: nat)
    requires VisibleWorld(w) && LookupBases(w, file, bases, steps, seen, fuel).Some?
    ensures var vs := LookupBases(w, file, bases, steps, seen, fuel).value.verdicts;
            && |vs| == |bases|
            && (Found in vs ==> exists i :: 0 <= i < |bases| && PresentBase(w, file, bases[i], steps, fuel))
            && ((forall v | v in vs :: v == Missing)
               ==> forall i | 0 <= i < |bases| :: AbsentBase(w, file, bases[i], steps, fuel))
    decreases fuel, 1, bases
  {
    if bases != [] {
      var r := LookupBase(w, file, bases[0], steps, seen, fuel).value;
      if bases[0].Some? {
        LookupNameIsSound(w, file, bases[0].value, steps, seen, fuel);
      }
      LookupBasesIsSound(w, file, bases[1..], steps, r.seen, fuel);
      var vs := LookupBases(w, file, bases[1..], steps, r.seen, fuel).value.verdicts;
      assert r.verdict in [r.verdict] + vs && forall v | v in vs :: v in [r.verdict] + vs;
      assert forall i | 0 <= i < |bases[1..]| :: bases[1..][i] == bases[i + 1];
    }
  }
}
