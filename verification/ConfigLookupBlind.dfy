/**
 What the walk does not see: index signatures, methods, accessors, later declarations of the
 same interface, and the meaning of `keyof`. A present member is then reported missing; which
 declarations this can happen to, on any path, is decided by the declaration alone.
 */
module ConfigLookupBlind {
  import opened Wrappers
  import opened TypeWorld
  import opened ConfigLookup
  import opened ConfigLookupSound
  import opened ConfigLookupLeaf
  import opened ConfigLookupCovers
  import opened ConfigLookupClear

  /** The catalog reports a violation for a member the type has. */
  ghost predicate Misreports(w: World, key: Key, steps: seq<Step>, fuel: nat)
    requires key in w.decls
  {
    && LookupDecl(w, key, steps, {}, fuel).Some?
    && LookupDecl(w, key, steps, {}, fuel).value.verdict == Missing
    && Present(w, key, steps)
  }

  function Alone(key: Key, d: Decl): World {
    World(map[key := d], map[])
  }

  /**
   `interface Config { [key: string]: T }`, `interface Config { x(): void }`, and a second `interface Config
   { x: T }`.
   */
  lemma BlindSpots(key: Key, x: Name, ty: Ty)
    ensures Misreports(Alone(key, Interface([StringIndex(ty)], [], [])), key, [Member(x)], 0)
    ensures Misreports(Alone(key, Interface([Method(x)], [], [])), key, [Member(x)], 0)
    ensures Misreports(Alone(key, Interface([], [], [Body([Property(x, ty)], [])])), key, [Member(x)], 0)
  {
    BlindSpot(key, x, Interface([StringIndex(ty)], [], []), 0);
    BlindSpot(key, x, Interface([Method(x)], [], []), 0);
    var d := Interface([], [], [Body([Property(x, ty)], [])]);
    assert MergedMembers(d.merged) == [Property(x, ty)] + MergedMembers([]);
    BlindSpot(key, x, d, 0);
  }

  lemma BlindSpot(key: Key, x: Name, d: Decl, i: nat)
    requires d.Interface? && d.bases == [] && FirstProperty(d.members, x) == |d.members|
    requires i < |AllMembers(d)| && (Declares(AllMembers(d)[i], x) || AllMembers(d)[i].StringIndex?)
    ensures Misreports(Alone(key, d), key, [Member(x)], 0)
  {
    assert PresentElement(Alone(key, d), key.file, AllMembers(d)[i], [], 0);
    assert [Member(x)][1..] == [];
    assert PresentDecl(Alone(key, d), key, [Member(x)], 0);
  }

  /** `keyof T` is looked through as `T`: both definite answers are then about another type. */
  lemma KeyOfIsSeenThrough(key: Key, x: Name, ty: Ty, n: nat)
    ensures var w := Alone(key, Alias(KeyOf(TypeLiteral([Property(x, ty)]))));
            && LookupDecl(w, key, [Member(x)], {}, 0) == Some(Answer(Found, {} + {(key, 1)}))
            && !PresentDecl(w, key, [Member(x)], n)
    ensures var w := Alone(key, Alias(KeyOf(TypeLiteral([]))));
            && LookupDecl(w, key, [Member(x)], {}, 0) == Some(Answer(Missing, {} + {(key, 1)}))
            && !AbsentDecl(w, key, [Member(x)], n)
  {
    KeyOfAnswers(key, x, [Property(x, ty)]);
    KeyOfAnswers(key, x, []);
    assert FirstProperty([Property(x, ty)], x) == 0;
  }

  lemma KeyOfAnswers(key: Key, x: Name, members: seq<TypeElement>)
    ensures LookupDecl(Alone(key, Alias(KeyOf(TypeLiteral(members)))), key, [Member(x)], {}, 0)
            == Some(Answer(if FirstProperty(members, x) < |members| then Found else Missing, {} + {(key, 1)}))
  {
    var w := Alone(key, Alias(KeyOf(TypeLiteral(members))));
    var entered: Seen := {} + {(key, 1)};
    KeyOfTy(w, key.file, members, x, entered, 0);
    AliasAnswers(w, key, KeyOf(TypeLiteral(members)), x, entered, 0);
    DeclIsBody(w, key, [Member(x)], {}, 0);
  }

  lemma AliasAnswers(w: World, key: Key, ty: Ty, x: Name, seen: Seen, fuel: nat)
    requires key in w.decls && w.decls[key] == Alias(ty)
    ensures LookupBody(w, key, [Member(x)], seen, fuel) == LookupTy(w, key.file, ty, [Member(x)], seen, fuel)
  {
  }

  lemma KeyOfTy(w: World, file: File, members: seq<TypeElement>, x: Name, seen: Seen, fuel: nat)
    ensures LookupTy(w, file, KeyOf(TypeLiteral(members)), [Member(x)], seen, fuel)
            == Some(Answer(if FirstProperty(members, x) < |members| then Found else Missing, seen))
  {
    TyIsInner(w, file, KeyOf(TypeLiteral(members)), [Member(x)], seen, fuel);
    LiteralAnswers(w, file, members, x, seen, fuel);
    OneMember(w, file, members, x, seen, fuel);
  }

  lemma LiteralAnswers(w: World, file: File, members: seq<TypeElement>, x: Name, seen: Seen, fuel: nat)
    ensures LookupTy(w, file, TypeLiteral(members), [Member(x)], seen, fuel)
            == LookupMember(w, file, members, [Member(x)], seen, fuel)
  {
  }

  /**
   `interface C { p: { [key: string]: T } }`: the same one level down, where nothing the interface extends
   could help.
   */
  lemma NestedBlindSpot(key: Key, p: Name, x: Name, ty: Ty, bases: seq<Option<Name>>)
    ensures Misreports(Alone(key, Interface([Property(p, TypeLiteral([StringIndex(ty)]))], bases, [])), key,
                       [Member(p), Member(x)], 0)
  {
    var inner := [StringIndex(ty)];
    var d := Interface([Property(p, TypeLiteral(inner))], bases, []);
    NothingMerged(d);
    assert FirstProperty(d.members, p) == 0 && FirstDeclared(d.members, p) == 0;
    WrongAtName(Alone(key, d), key.file, inner, inner, x, 0, 0);
    LiteralWrong(Alone(key, d), key.file, inner, [Member(x)], 0, 0);
    BelowMember(Alone(key, d), key.file, d.members, d.members, p, [Member(x)], 0, 0);
    assert [Member(p)] + [Member(x)] == [Member(p), Member(x)];
    OwnMemberWrong(key, d, [Member(p), Member(x)], 0);
  }

  lemma LiteralWrong(w: World, file: File, members: seq<TypeElement>, steps: seq<Step>, fuel: nat, n: nat)
    requires WrongIn(w, file, members, members, steps, fuel, n)
    ensures WrongAt(w, file, TypeLiteral(members), TypeLiteral(members), steps, fuel, n)
  {
    LiteralIs(w, file, members, steps);
    forall seen: Seen {
      LiteralIsMember(w, file, members, steps, seen, fuel);
    }
  }

  /** An own property that is wrong about what the merged interface has makes a misreport, whatever the bases. */
  lemma OwnMemberWrong(key: Key, d: Decl, steps: seq<Step>, n: nat)
    requires d.Interface? && WrongIn(Alone(key, d), key.file, d.members, AllMembers(d), steps, 0, n)
    requires FirstProperty(d.members, steps[0].name) < |d.members|
    ensures Misreports(Alone(key, d), key, steps, 0)
  {
    var w := Alone(key, d);
    DeclIsBody(w, key, steps, {}, 0);
    BodyIsMember(w, key, steps, {} + {(key, |steps|)}, 0);
    assert PresentDecl(w, key, steps, n);
  }

  lemma BodyIsMember(w: World, key: Key, steps: seq<Step>, seen: Seen, fuel: nat)
    requires key in w.decls && w.decls[key].Interface? && steps != [] && steps[0].Member?
    requires FirstProperty(w.decls[key].members, steps[0].name) < |w.decls[key].members|
    ensures LookupBody(w, key, steps, seen, fuel)
         == LookupMember(w, key.file, w.decls[key].members, steps, seen, fuel)
  {
  }

  // ----- which declarations are never misreported

  ghost predicate Stands(w: World, key: Key, d: Decl) {
    key in w.decls && w.decls[key] == d && forall k | k in w.decls && k != key :: Transparent(w.decls[k])
  }

  /** Wherever it stands among transparent declarations, nothing it has is reported missing, on any path. */
  ghost predicate NeverMisreported(d: Decl) {
    forall w, key, steps, fuel: nat | Stands(w, key, d) :: !Misreports(w, key, steps, fuel)
  }

  /** The types of its members, merged ones included, have no union or intersection and name no declaration. */
  ghost predicate SimpleDecl(d: Decl) {
    match d
    case Interface(_, _, _) => SimpleMembers(AllMembers(d))
    case Alias(ty) => SimpleTy(ty)
    case Enum => true
  }

  /** A world of transparent declarations reports nothing that is there as missing, on any path. */
  lemma TransparentIsNeverMisreported(w: World, key: Key, steps: seq<Step>, fuel: nat)
    requires TransparentWorld(w) && key in w.decls
    ensures !Misreports(w, key, steps, fuel)
  {
    if Misreports(w, key, steps, fuel) {
      var n: nat :| PresentDecl(w, key, steps, n);
      DeclNeverWrong(w, key, steps, {}, fuel, n);
    }
  }

  // ----- the others: a repository in which a member they have is reported missing

  const HERE := File("")

  function IndexOf(bases: seq<Option<Name>>, name: Name): (i: nat)
    ensures i <= |bases|
    ensures i < |bases| ==> bases[i] == Some(name)
    ensures forall j | 0 <= j < i :: bases[j] != Some(name)
  {
    if bases == [] || bases[0] == Some(name) then 0 else 1 + IndexOf(bases[1..], name)
  }

  function BaseNames(d: Decl): set<Name>
    requires d.Interface?
  {
    set b | b in AllBases(d) && b.Some? :: b.value
  }

  /** Every base named by the first declaration is an empty record; any other base has the member. */
  function Repository(d: Decl, name: Name): World
    requires d.Interface?
  {
    World(map k: nat | 0 <= k <= |d.bases| + 1 :: Key(HERE, k) :=
            if k == 0 then d else Interface(if k <= |d.bases| then [] else [UntypedProperty(name)], [], []),
          map n | n in BaseNames(d) :: (HERE, n) := Key(HERE, IndexOf(d.bases, n) + 1))
  }

  lemma {:induction false} EmptyBasesMiss(d: Decl, name: Name, k: nat, seen: Seen)
    requires d.Interface? && None !in d.bases && Distinct(d.bases) && k <= |d.bases|
    requires forall p | p in seen :: p.0.pos <= k
    ensures AllMissing(LookupBases(Repository(d, name), HERE, d.bases[k..], [Member(name)], seen, 1))
    decreases |d.bases| - k
  {
    if k < |d.bases| {
      EmptyBaseMisses(d, name, k, seen);
      EmptyBasesMiss(d, name, k + 1, seen + {(Key(HERE, k + 1), 1)});
      assert d.bases[k..][0] == d.bases[k] && d.bases[k..][1..] == d.bases[k + 1..];
      OneMoreMisses(Repository(d, name), HERE, d.bases[k..], [Member(name)], seen, 1);
    } else {
      assert d.bases[k..] == [];
    }
  }

  lemma OneMoreMisses(w: World, file: File, bases: seq<Option<Name>>, steps: seq<Step>, seen: Seen, fuel: nat)
    requires bases != [] && LookupBase(w, file, bases[0], steps, seen, fuel).Some?
    requires LookupBase(w, file, bases[0], steps, seen, fuel).value.verdict == Missing
    requires AllMissing(LookupBases(w, file, bases[1..], steps,
             LookupBase(w, file, bases[0], steps, seen, fuel).value.seen, fuel))
    ensures AllMissing(LookupBases(w, file, bases, steps, seen, fuel))
  {
    BasesCons(w, file, bases, steps, seen, fuel);
  }

  lemma EmptyBaseMisses(d: Decl, name: Name, k: nat, seen: Seen)
    requires d.Interface? && None !in d.bases && Distinct(d.bases) && k < |d.bases|
    requires forall p | p in seen :: p.0.pos <= k
    ensures LookupBase(Repository(d, name), HERE, d.bases[k], [Member(name)], seen, 1)
            == Some(Answer(Missing, seen + {(Key(HERE, k + 1), 1)}))
  {
    var base := d.bases[k];
    assert base in d.bases && base == AllBases(d)[k] && base in AllBases(d);
    assert IndexOf(d.bases, base.value) == k;
    EmptyDeclMisses(Repository(d, name), Key(HERE, k + 1), name, seen);
    NameIsDecl(Repository(d, name), HERE, base.value, [Member(name)], seen, 1);
  }

  lemma EmptyDeclMisses(w: World, key: Key, name: Name, seen: Seen)
    requires key in w.decls && w.decls[key] == Interface([], [], []) && (key, 1) !in seen
    ensures LookupDecl(w, key, [Member(name)], seen, 0) == Some(Answer(Missing, seen + {(key, 1)}))
  {
    DeclIsBody(w, key, [Member(name)], seen, 0);
  }

  lemma RepositoryStands(d: Decl, name: Name)
    requires d.Interface?
    ensures Stands(Repository(d, name), Key(HERE, 0), d)
  {
    RecordIsTransparent([]);
    RecordIsTransparent([UntypedProperty(name)]);
  }

  lemma RecordIsTransparent(members: seq<TypeElement>)
    requires forall i | 0 <= i < |members| :: members[i].UntypedProperty?
    ensures Transparent(Interface(members, [], []))
  {
    NothingMerged(Interface(members, [], []));
  }

  lemma ReportedMissing(d: Decl, name: Name)
    requires d.Interface? && None !in d.bases && Distinct(d.bases) && FirstProperty(d.members, name) == |d.members|
    ensures var r := LookupDecl(Repository(d, name), Key(HERE, 0), [Member(name)], {}, 1);
            r.Some? && r.value.verdict == Missing
  {
    var w, key := Repository(d, name), Key(HERE, 0);
    assert w.decls[key] == d;
    EmptyBasesMiss(d, name, 0, {} + {(key, 1)});
    assert d.bases[0..] == d.bases;
  }

  /** An interface that hides a member of its own or of a base is misreported somewhere. */
  lemma HiddenIsMisreported(d: Decl) returns (name: Name)
    requires d.Interface? && !AllVisible(d) && !Tainted(d)
    ensures Misreports(Repository(d, name), Key(HERE, 0), [Member(name)], 1)
  {
    var all := AllMembers(d);
    if !NamesVisible(d.members, all) {
      var i :| 0 <= i < |all| && HasName(all[i]) && FirstProperty(d.members, all[i].name) == |d.members|;
      name := all[i].name;
      ReportedMissing(d, name);
      OwnMemberIsPresent(d, name);
    } else {
      name := FreshName(all);
      FreshIsNoProperty(d, name);
      ReportedMissing(d, name);
      if FirstStringIndex(all) < |all| {
        OwnMemberIsPresent(d, name);
      } else {
        var b :| b in AllBases(d) && b.Some? && b !in d.bases;
        HiddenBaseIsPresent(d, name, b);
      }
    }
  }

  /** And so is one whose property does not cover what the name means. */
  lemma UncoveredIsMisreported(d: Decl) returns (steps: seq<Step>)
    requires d.Interface? && SimpleDecl(d) && !PairsTransparent(d.members, AllMembers(d))
    ensures Misreports(Alone(Key(HERE, 0), d), Key(HERE, 0), steps, 0)
  {
    var key, all := Key(HERE, 0), AllMembers(d);
    var name := UncoveredProperty(d);
    var i, m := FirstProperty(d.members, name), FirstDeclared(all, name);
    var rest := CoversComplete(Alone(key, d), HERE, d.members[i].ty, all[m].ty, 0, 0);
    steps := [Member(name)] + rest;
    BelowMember(Alone(key, d), HERE, d.members, all, name, rest, 0, 0);
    OwnMemberWrong(key, d, steps, 0);
  }

  lemma UncoveredProperty(d: Decl) returns (name: Name)
    requires d.Interface? && SimpleDecl(d) && !PairsTransparent(d.members, AllMembers(d))
    ensures var i, m := FirstProperty(d.members, name), FirstDeclared(AllMembers(d), name);
            && i < |d.members| && d.members[i].Property? && m < |AllMembers(d)| && HasType(AllMembers(d)[m])
            && SimpleTy(d.members[i].ty) && SimpleTy(AllMembers(d)[m].ty)
            && !Covers(d.members[i].ty, AllMembers(d)[m].ty)
  {
    var all := AllMembers(d);
    var j :| 0 <= j < |all| && HasName(all[j]) && FirstProperty(d.members, all[j].name) < |d.members|
      && !TransparentPair(d.members[FirstProperty(d.members, all[j].name)], all[FirstDeclared(all, all[j].name)]);
    name := all[j].name;
    var i, m := FirstProperty(d.members, name), FirstDeclared(all, name);
    assert d.members[i] == all[i];
    assert SimpleElement(all[i]) && SimpleElement(all[m]);
  }

  lemma OpaqueAliasIsMisreported(ty: Ty) returns (steps: seq<Step>)
    requires SimpleTy(ty) && !Covers(ty, ty)
    ensures Misreports(Alone(Key(HERE, 0), Alias(ty)), Key(HERE, 0), steps, 0)
  {
    var key := Key(HERE, 0);
    var w := Alone(key, Alias(ty));
    steps := CoversComplete(w, HERE, ty, ty, 0, 0);
    DeclIsBody(w, key, steps, {}, 0);
    AliasIs(w, key, steps, {} + {(key, |steps|)}, 0, 0);
    assert PresentDecl(w, key, steps, 0);
  }

  lemma AloneStands(key: Key, d: Decl)
    ensures Stands(Alone(key, d), key, d)
  {
  }

  lemma FreshIsNoProperty(d: Decl, name: Name)
    requires d.Interface? && forall i | 0 <= i < |AllMembers(d)| :: !Declares(AllMembers(d)[i], name)
    ensures FirstProperty(d.members, name) == |d.members| && FirstDeclared(AllMembers(d), name) == |AllMembers(d)|
  {
    assert forall i | 0 <= i < |d.members| :: d.members[i] == AllMembers(d)[i];
  }

  lemma OwnMemberIsPresent(d: Decl, name: Name)
    requires d.Interface?
    requires FirstDeclared(AllMembers(d), name) < |AllMembers(d)| || FirstStringIndex(AllMembers(d)) < |AllMembers(d)|
    ensures Present(Repository(d, name), Key(HERE, 0), [Member(name)])
  {
    var w, key := Repository(d, name), Key(HERE, 0);
    assert w.decls[key] == d;
    OneIsPresent(w, HERE, AllMembers(d), name, 0);
    assert PresentDecl(w, key, [Member(name)], 0);
  }

  lemma HiddenBaseIsPresent(d: Decl, name: Name, b: Option<Name>)
    requires d.Interface? && b in AllBases(d) && b.Some? && b !in d.bases
    requires FirstDeclared(AllMembers(d), name) == |AllMembers(d)|
    ensures Present(Repository(d, name), Key(HERE, 0), [Member(name)])
  {
    HiddenBaseHasIt(d, name, b);
    var w, key := Repository(d, name), Key(HERE, 0);
    assert w.decls[key] == d;
    var i :| 0 <= i < |AllBases(d)| && AllBases(d)[i] == b;
    assert PresentBase(w, HERE, AllBases(d)[i], [Member(name)], 1);
    assert PresentDecl(w, key, [Member(name)], 1);
  }

  lemma HiddenBaseHasIt(d: Decl, name: Name, b: Option<Name>)
    requires d.Interface? && b in AllBases(d) && b.Some? && b !in d.bases
    ensures PresentBase(Repository(d, name), HERE, b, [Member(name)], 1)
  {
    var w := Repository(d, name);
    var base := Key(HERE, |d.bases| + 1);
    var i := IndexOf(d.bases, b.value);
    assert Resolve(w, HERE, b.value) == Some(base);
    assert w.decls[base] == Interface([UntypedProperty(name)], [], []);
    OneRecord(w, base, name);
  }

  lemma OneRecord(w: World, key: Key, name: Name)
    requires key in w.decls && w.decls[key] == Interface([UntypedProperty(name)], [], [])
    ensures PresentDecl(w, key, [Member(name)], 0)
  {
    NothingMerged(w.decls[key]);
    assert FirstDeclared([UntypedProperty(name)], name) == 0 && [Member(name)][1..] == [];
    assert PresentElement(w, key.file, UntypedProperty(name), [], 0);
  }

  /**
   A declaration whose types are simple never has anything present reported missing, on any path and whatever
   transparent declarations surround it, if and only if it is transparent itself.
   */
  lemma NeverMisreportedIff(d: Decl)
    requires SimpleDecl(d)
    ensures NeverMisreported(d) <==> Transparent(d)
  {
    if Transparent(d) {
      TransparentStaysTrue(d);
    } else if d.Alias? {
      var steps := OpaqueAliasIsMisreported(d.ty);
      AloneStands(Key(HERE, 0), d);
    } else if !PairsTransparent(d.members, AllMembers(d)) {
      var steps := UncoveredIsMisreported(d);
      AloneStands(Key(HERE, 0), d);
    } else {
      var name := HiddenIsMisreported(d);
      RepositoryStands(d, name);
    }
  }

  /** Without unions, intersections and names of declarations being excluded, one half of that. */
  lemma TransparentStaysTrue(d: Decl)
    requires Transparent(d)
    ensures NeverMisreported(d)
  {
    forall w, key, steps, fuel: nat | Stands(w, key, d)
      ensures !Misreports(w, key, steps, fuel)
    {
      TransparentIsNeverMisreported(w, key, steps, fuel);
    }
  }
}
