/**
 Declarations the walk is never wrong about when it says missing: what can be read off them,
 level by level, and the proof for every path through a world of such declarations.
 */
module ConfigLookupClear {
  import opened Wrappers
  import opened TypeWorld
  import opened ConfigLookup
  import opened ConfigLookupLeaf
  import opened ConfigLookupEnds
  import opened ConfigLookupCovers

  // ----- what is transparent

  /**
   A simple type that covers itself, or a type made of transparent ones. Names of declarations are transparent
   themselves, and nothing is ever present in a `keyof`.
   */
  ghost predicate TransparentTy(ty: Ty)
    decreases ty
  {
    (SimpleTy(ty) && Covers(ty, ty))
    || match ty
       case TypeLiteral(members) =>
         && FirstStringIndex(members) == |members| && NamesVisible(members, members)
         && PairsTransparent(members, members)
       case Intersection(parts) => forall i | 0 <= i < |parts| :: TransparentTy(parts[i])
       case Union(first, others) => TransparentTy(first) && forall i | 0 <= i < |others| :: TransparentTy(others[i])
       case KeyOf(_) => true
       case _ => Inner(ty).Some? ==> TransparentTy(Inner(ty).value)
  }

  /** Every name that is declared at all is a property signature of the first part. */
  ghost predicate NamesVisible(members: seq<TypeElement>, all: seq<TypeElement>) {
    forall j | 0 <= j < |all| && HasName(all[j]) :: FirstProperty(members, all[j].name) < |members|
  }

  /** Where the walk takes a property, its type is transparent in the place of what the name means. */
  ghost predicate PairsTransparent(members: seq<TypeElement>, all: seq<TypeElement>)
    decreases members
  {
    forall j | 0 <= j < |all| && HasName(all[j]) && FirstProperty(members, all[j].name) < |members| ::
      TransparentPair(members[FirstProperty(members, all[j].name)], all[FirstDeclared(all, all[j].name)])
  }

  ghost predicate TransparentPair(m: TypeElement, meant: TypeElement)
    decreases m
  {
    m.Property? && HasType(meant) ==>
      (m.ty == meant.ty && TransparentTy(m.ty)) || (SimpleTy(m.ty) && SimpleTy(meant.ty) && Covers(m.ty, meant.ty))
  }

  ghost predicate Distinct(bases: seq<Option<Name>>) {
    forall i, j | 0 <= i < j < |bases| :: bases[i] != bases[j]
  }

  /** All the merged interface declares, its first part shows. */
  ghost predicate AllVisible(d: Decl)
    requires d.Interface?
  {
    && NamesVisible(d.members, AllMembers(d))
    && FirstStringIndex(AllMembers(d)) == |AllMembers(d)|
    && forall b | b in AllBases(d) && b.Some? :: b in d.bases
  }

  /** A base out of reach, or listed twice, keeps the walk from saying missing of a name it does not find. */
  ghost predicate Tainted(d: Decl)
    requires d.Interface?
  {
    None in d.bases || !Distinct(d.bases)
  }

  ghost predicate Transparent(d: Decl) {
    match d
    case Interface(members, _, _) => PairsTransparent(members, AllMembers(d)) && (AllVisible(d) || Tainted(d))
    case Alias(ty) => TransparentTy(ty)
    case Enum => true
  }

  ghost predicate TransparentWorld(w: World) {
    forall key | key in w.decls :: Transparent(w.decls[key])
  }

  // ----- missing is then never wrong

  lemma {:induction false} TyNeverWrong(w: World, file: File, ty: Ty, steps: seq<Step>, seen: Seen, fuel: nat, n: nat)
    requires TransparentWorld(w) && TransparentTy(ty) && SaysMissing(LookupTy(w, file, ty, steps, seen, fuel))
    ensures !PresentTy(w, file, ty, steps, n)
    decreases fuel, 1, ty
  {
    if SimpleTy(ty) && Covers(ty, ty) {
      CoversSound(w, file, ty, ty, steps, seen, fuel, n);
    } else if ty.TypeLiteral? {
      LiteralNeverWrong(w, file, ty.members, steps, seen, fuel, n);
    } else if ty.Intersection? {
      CombineIs(LookupEach(w, file, ty.parts, steps, seen, fuel).value.verdicts);
      EachNeverWrong(w, file, ty.parts, steps, seen, fuel, n);
    } else if ty.Union? {
      UnionMissing(w, file, ty.first, ty.others, steps, seen, fuel);
      TyNeverWrong(w, file, ty.first, steps, seen, fuel, n);
    } else if Inner(ty).Some? {
      if !ty.KeyOf? && PathInto(ty, steps).Some? {
        TyIsInner(w, file, ty, steps, seen, fuel);
        TyNeverWrong(w, file, Inner(ty).value, PathInto(ty, steps).value, seen, fuel, n);
        MeaningOfWrapped(w, file, ty, steps, n);
      }
    } else if NameIn(ty).Some? {
      NameNeverWrong(w, file, NameIn(ty).value, steps, seen, fuel, n);
      PlainNameIs(w, file, ty, steps);
    }
  }

  lemma UnionMissing(w: World, file: File, first: Ty, others: seq<Ty>, steps: seq<Step>, seen: Seen, fuel: nat)
    requires SaysMissing(LookupTy(w, file, Union(first, others), steps, seen, fuel))
    ensures SaysMissing(LookupTy(w, file, first, steps, seen, fuel))
  {
    var r := LookupTy(w, file, first, steps, seen, fuel);
    AgreeIs(r.value.verdict, LookupEach(w, file, others, steps, r.value.seen, fuel).value.verdicts);
  }

  lemma {:induction false} LiteralNeverWrong(w: World, file: File, members: seq<TypeElement>, steps: seq<Step>,
                                             seen: Seen,
                                             fuel: nat, n: nat)
    requires TransparentWorld(w) && PairsTransparent(members, members)
    requires NamesVisible(members, members) && FirstStringIndex(members) == |members|
    requires SaysMissing(LookupTy(w, file, TypeLiteral(members), steps, seen, fuel))
    ensures !PresentTy(w, file, TypeLiteral(members), steps, n)
    decreases fuel, 1, TypeLiteral(members), 0
  {
    assert steps[0].Member?;
    LiteralIs(w, file, members, steps);
    LiteralIsMember(w, file, members, steps, seen, fuel);
    if FirstProperty(members, steps[0].name) < |members| {
      MemberNeverWrong(w, file, members, members, steps, seen, fuel, n);
    }
  }

  lemma {:induction false} MemberNeverWrong(w: World, file: File, members: seq<TypeElement>, all: seq<TypeElement>,
                                            steps: seq<Step>, seen: Seen, fuel: nat, n: nat)
    requires TransparentWorld(w) && PairsTransparent(members, all) && steps != [] && steps[0].Member?
    requires FirstProperty(members, steps[0].name) < |members| && FirstDeclared(all, steps[0].name) < |all|
    requires SaysMissing(LookupMember(w, file, members, steps, seen, fuel))
    ensures !PresentMember(w, file, all, steps, n)
    decreases fuel, 1, members
  {
    var m, meant := members[FirstProperty(members, steps[0].name)], all[FirstDeclared(all, steps[0].name)];
    assert HasName(meant) && TransparentPair(m, meant);
    PairNeverWrong(w, file, members[FirstProperty(members, steps[0].name)], meant, steps[1..], seen, fuel, n);
  }

  lemma {:induction false} PairNeverWrong(w: World, file: File, m: TypeElement, meant: TypeElement, rest: seq<Step>,
                                          seen: Seen, fuel: nat, n: nat)
    requires TransparentWorld(w) && IsProperty(m) && TransparentPair(m, meant)
    requires SaysMissing(LookupProperty(w, file, m, rest, seen, fuel))
    ensures !PresentElement(w, file, meant, rest, n)
    decreases fuel, 1, m
  {
    PropertyMissing(w, file, m, rest, seen, fuel);
    ElementMeans(w, file, meant, rest, n);
    if HasType(meant) {
      if m.ty == meant.ty && TransparentTy(m.ty) {
        TyNeverWrong(w, file, m.ty, rest, seen, fuel, n);
      } else {
        CoversSound(w, file, m.ty, meant.ty, rest, seen, fuel, n);
      }
    }
  }

  ghost predicate AllMissing(rs: Option<Answers>) {
    rs.Some? && forall i | 0 <= i < |rs.value.verdicts| :: rs.value.verdicts[i] == Missing
  }

  lemma {:induction false} EachNeverWrong(w: World, file: File, parts: seq<Ty>, steps: seq<Step>, seen: Seen, fuel: nat,
                                          n: nat)
    requires TransparentWorld(w) && (forall i | 0 <= i < |parts| :: TransparentTy(parts[i]))
    requires AllMissing(LookupEach(w, file, parts, steps, seen, fuel))
    ensures forall i | 0 <= i < |parts| :: !PresentTy(w, file, parts[i], steps, n)
    decreases fuel, 1, parts
  {
    if parts != [] {
      var r := LookupTy(w, file, parts[0], steps, seen, fuel);
      var rs := LookupEach(w, file, parts[1..], steps, r.value.seen, fuel);
      ConsMissing(r.value.verdict, rs.value.verdicts);
      TyNeverWrong(w, file, parts[0], steps, seen, fuel, n);
      EachNeverWrong(w, file, parts[1..], steps, r.value.seen, fuel, n);
      assert parts == [parts[0]] + parts[1..];
    }
  }

  lemma ConsMissing(v: Verdict, vs: seq<Verdict>)
    requires forall i | 0 <= i < |[v] + vs| :: ([v] + vs)[i] == Missing
    ensures v == Missing && forall i | 0 <= i < |vs| :: vs[i] == Missing
  {
    assert ([v] + vs)[0] == v && forall i | 0 <= i < |vs| :: vs[i] == ([v] + vs)[i + 1];
  }

  lemma {:induction false} NameNeverWrong(w: World, file: File, name: Name, steps: seq<Step>, seen: Seen, fuel: nat,
                                          n: nat)
    requires TransparentWorld(w) && SaysMissing(LookupName(w, file, name, steps, seen, fuel))
    ensures !PresentName(w, file, name, steps, n)
    decreases fuel, 0
  {
    NameIsDecl(w, file, name, steps, seen, fuel);
    if n > 0 {
      DeclNeverWrong(w, Resolve(w, file, name).value, steps, seen, fuel - 1, n - 1);
    }
  }

  lemma {:induction false} DeclNeverWrong(w: World, key: Key, steps: seq<Step>, seen: Seen, fuel: nat, n: nat)
    requires TransparentWorld(w) && key in w.decls && SaysMissing(LookupDecl(w, key, steps, seen, fuel))
    ensures !PresentDecl(w, key, steps, n)
    decreases fuel, 4
  {
    DeclIsBody(w, key, steps, seen, fuel);
    var d, entered := w.decls[key], seen + {(key, |steps|)};
    if d.Alias? {
      AliasIs(w, key, steps, entered, fuel, n);
      TyNeverWrong(w, key.file, d.ty, steps, entered, fuel, n);
    } else {
      InterfaceNeverWrong(w, key, steps, entered, fuel, n);
    }
  }

  lemma AliasIs(w: World, key: Key, steps: seq<Step>, seen: Seen, fuel: nat, n: nat)
    requires key in w.decls && w.decls[key].Alias? && steps != []
    ensures LookupBody(w, key, steps, seen, fuel) == LookupTy(w, key.file, w.decls[key].ty, steps, seen, fuel)
    ensures PresentDecl(w, key, steps, n) <==> PresentTy(w, key.file, w.decls[key].ty, steps, n)
  {
  }

  lemma {:induction false} InterfaceNeverWrong(w: World, key: Key, steps: seq<Step>, entered: Seen, fuel: nat, n: nat)
    requires TransparentWorld(w) && key in w.decls && w.decls[key].Interface? && steps != []
    requires SaysMissing(LookupBody(w, key, steps, entered, fuel))
    ensures !PresentDecl(w, key, steps, n)
    decreases fuel, 3
  {
    var d := w.decls[key];
    assert Transparent(d) && steps[0].Member?;
    if FirstProperty(d.members, steps[0].name) < |d.members| {
      OwnIsDeclared(d, steps[0].name);
      MemberNeverWrong(w, key.file, d.members, AllMembers(d), steps, entered, fuel, n);
    } else {
      BodyIsBases(w, key, steps, entered, fuel);
      BasesNeverWrong(w, key.file, d.bases, steps, entered, fuel, n);
      NoneIsMissed(w, key.file, d.bases, steps, entered, n);
      NothingHidden(w, key, steps, entered, n);
    }
  }

  lemma OwnIsDeclared(d: Decl, name: Name)
    requires d.Interface? && FirstProperty(d.members, name) < |d.members|
    ensures FirstDeclared(AllMembers(d), name) < |AllMembers(d)|
  {
    assert AllMembers(d)[FirstProperty(d.members, name)] == d.members[FirstProperty(d.members, name)];
  }

  lemma BodyIsBases(w: World, key: Key, steps: seq<Step>, entered: Seen, fuel: nat)
    requires key in w.decls && w.decls[key].Interface? && steps != [] && steps[0].Member?
    requires FirstProperty(w.decls[key].members, steps[0].name) == |w.decls[key].members|
    requires SaysMissing(LookupBody(w, key, steps, entered, fuel))
    ensures AllMissing(LookupBases(w, key.file, w.decls[key].bases, steps, entered, fuel))
  {
    CombineIs(LookupBases(w, key.file, w.decls[key].bases, steps, entered, fuel).value.verdicts);
  }

  // ----- bases that all answer missing

  /** The base is in reach, was not entered before, and does not have the member. */
  ghost predicate BaseMisses(w: World, file: File, base: Option<Name>, steps: seq<Step>, seen: Seen, n: nat) {
    && base.Some? && Resolve(w, file, base.value).Some? && (Resolve(w, file, base.value).value, |steps|) !in seen
    && !PresentBase(w, file, base, steps, n)
  }

  ghost predicate BasesMiss(w: World, file: File, bases: seq<Option<Name>>, steps: seq<Step>, seen: Seen, n: nat) {
    Distinct(bases) && forall i | 0 <= i < |bases| :: BaseMisses(w, file, bases[i], steps, seen, n)
  }

  lemma {:induction false} BaseNeverWrong(w: World, file: File, base: Option<Name>, steps: seq<Step>, seen: Seen,
                                          fuel: nat, n: nat)
    requires TransparentWorld(w) && SaysMissing(LookupBase(w, file, base, steps, seen, fuel))
    ensures BaseMisses(w, file, base, steps, seen, n)
    ensures (Resolve(w, file, base.value).value, |steps|) in LookupBase(w, file, base, steps, seen, fuel).value.seen
    ensures seen <= LookupBase(w, file, base, steps, seen, fuel).value.seen
    decreases fuel, 1
  {
    NameIsDecl(w, file, base.value, steps, seen, fuel);
    NameNeverWrong(w, file, base.value, steps, seen, fuel, n);
    EnteredStays(w, Resolve(w, file, base.value).value, steps, seen, fuel - 1);
  }

  lemma EnteredStays(w: World, key: Key, steps: seq<Step>, seen: Seen, fuel: nat)
    requires key in w.decls && SaysMissing(LookupDecl(w, key, steps, seen, fuel))
    ensures (key, |steps|) !in seen && (key, |steps|) in LookupDecl(w, key, steps, seen, fuel).value.seen
    ensures seen <= LookupDecl(w, key, steps, seen, fuel).value.seen
  {
    DeclIsBody(w, key, steps, seen, fuel);
    MoreFuelBody(w, key, steps, seen + {(key, |steps|)}, fuel, fuel);
  }

  lemma {:induction false} BasesNeverWrong(w: World, file: File, bases: seq<Option<Name>>, steps: seq<Step>, seen: Seen,
                                           fuel: nat, n: nat)
    requires TransparentWorld(w) && AllMissing(LookupBases(w, file, bases, steps, seen, fuel))
    ensures BasesMiss(w, file, bases, steps, seen, n)
    decreases fuel, 2, bases
  {
    if bases != [] {
      var r := LookupBase(w, file, bases[0], steps, seen, fuel);
      var rs := LookupBases(w, file, bases[1..], steps, r.value.seen, fuel);
      ConsMissing(r.value.verdict, rs.value.verdicts);
      BaseNeverWrong(w, file, bases[0], steps, seen, fuel, n);
      BasesNeverWrong(w, file, bases[1..], steps, r.value.seen, fuel, n);
      OneMoreBase(w, file, bases, steps, seen, r.value.seen, n);
    }
  }

  lemma OneMoreBase(w: World, file: File, bases: seq<Option<Name>>, steps: seq<Step>, seen: Seen, later: Seen, n: nat)
    requires bases != [] && BaseMisses(w, file, bases[0], steps, seen, n) && seen <= later
    requires (Resolve(w, file, bases[0].value).value, |steps|) in later
             && BasesMiss(w, file, bases[1..], steps, later, n)
    ensures BasesMiss(w, file, bases, steps, seen, n)
  {
    forall i | 0 < i < |bases|
      ensures bases[0] != bases[i] && BaseMisses(w, file, bases[i], steps, seen, n)
    {
      assert BaseMisses(w, file, bases[1..][i - 1], steps, later, n);
    }
    forall i, j | 0 < i < j < |bases|
      ensures bases[i] != bases[j]
    {
      assert bases[1..][i - 1] != bases[1..][j - 1];
    }
  }

  lemma NoneIsMissed(w: World, file: File, bases: seq<Option<Name>>, steps: seq<Step>, seen: Seen, n: nat)
    requires BasesMiss(w, file, bases, steps, seen, n)
    ensures None !in bases && forall b | b in bases :: !PresentBase(w, file, b, steps, n)
  {
    forall b | b in bases
      ensures b.Some? && !PresentBase(w, file, b, steps, n)
    {
      var i :| 0 <= i < |bases| && bases[i] == b;
      assert BaseMisses(w, file, bases[i], steps, seen, n);
    }
  }

  lemma NothingHidden(w: World, key: Key, steps: seq<Step>, seen: Seen, n: nat)
    requires key in w.decls && w.decls[key].Interface? && AllVisible(w.decls[key]) && steps != [] && steps[0].Member?
    requires FirstProperty(w.decls[key].members, steps[0].name) == |w.decls[key].members|
    requires forall b | b in w.decls[key].bases :: !PresentBase(w, key.file, b, steps, n)
    ensures !PresentDecl(w, key, steps, n)
  {
    var d := w.decls[key];
    forall j | 0 <= j < |AllBases(d)|
      ensures !PresentBase(w, key.file, AllBases(d)[j], steps, n)
    {
      assert AllBases(d)[j] in AllBases(d);
    }
  }
}
