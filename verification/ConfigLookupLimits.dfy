/**
 Where the presence check falls short, one smallest declaration file for each: a lookup that
 never comes back, and members that are there, or not there, but are reported unknown.
 */
module ConfigLookupLimits {
  import opened Wrappers
  import opened TypeWorld
  import opened ConfigLookup
  import opened ConfigLookupSound
  import opened ConfigLookupEnds
  import opened ConfigLookupLeaf

  function Ref(name: string): Ty {
    Reference(Name(name), false, [])
  }

  // ----- a lookup that never comes back

  /** `type A = A['x']`, which the compiler rejects, but the walk does not. */
  function Growing(file: File): World {
    World(map[Key(file, 0) := Alias(IndexedAccess(Ref("A"), Some(Name("x"))))], map[(file, Name("A")) := Key(file, 0)])
  }

  /** Every visit makes the path longer, so the guard never has the pair; no number of hops is enough. */
  lemma {:induction false} GrowingNeverEnds(file: File, steps: seq<Step>, seen: Seen, fuel: nat)
    requires steps != [] && forall p | p in seen :: p.1 < |steps|
    ensures LookupDecl(Growing(file), Key(file, 0), steps, seen, fuel).None?
    decreases fuel
  {
    var w, key := Growing(file), Key(file, 0);
    var longer, entered := [Member(Name("x"))] + steps, seen + {(key, |steps|)};
    DeclIsBody(w, key, steps, seen, fuel);
    TyIsInner(w, file, w.decls[key].ty, steps, entered, fuel);
    NameIsDecl(w, file, Name("A"), longer, entered, fuel);
    if fuel > 0 {
      GrowingNeverEnds(file, longer, entered, fuel - 1);
    }
  }

  // ----- one step of each kind

  /** An interface without members repeats what its bases answer. */
  lemma OnlyBases(w: World, key: Key, bases: seq<Option<Name>>, steps: seq<Step>, seen: Seen, fuel: nat, rs: Answers)
    requires key in w.decls && w.decls[key] == Interface([], bases, []) && bases != []
    requires steps != [] && steps[0].Member? && (key, |steps|) !in seen
    requires LookupBases(w, key.file, bases, steps, seen + {(key, |steps|)}, fuel) == Some(rs)
    ensures LookupDecl(w, key, steps, seen, fuel) == Some(Answer(Combine(rs.verdicts), rs.seen))
  {
    DeclIsBody(w, key, steps, seen, fuel);
  }

  lemma LastBase(w: World, file: File, base: Name, steps: seq<Step>, seen: Seen, fuel: nat, r: Answer)
    requires LookupName(w, file, base, steps, seen, fuel) == Some(r)
    ensures LookupBases(w, file, [Some(base)], steps, seen, fuel) == Some(Answers([r.verdict], r.seen))
  {
    assert [Some(base)][1..] == [];
    BasesCons(w, file, [Some(base)], steps, seen, fuel);
    assert [r.verdict] + [] == [r.verdict];
  }

  lemma TwoBases(w: World, file: File, b: Name, c: Name, steps: seq<Step>, seen: Seen, fuel: nat, r: Answer, q: Answer)
    requires LookupName(w, file, b, steps, seen, fuel) == Some(r)
    requires LookupName(w, file, c, steps, r.seen, fuel) == Some(q)
    ensures LookupBases(w, file, [Some(b), Some(c)], steps, seen, fuel) == Some(Answers([r.verdict, q.verdict], q.seen))
  {
    LastBase(w, file, c, steps, r.seen, fuel, q);
    assert [Some(b), Some(c)][1..] == [Some(c)];
    BasesCons(w, file, [Some(b), Some(c)], steps, seen, fuel);
    assert [r.verdict] + [q.verdict] == [r.verdict, q.verdict];
  }

  lemma LastPart(w: World, file: File, part: Ty, steps: seq<Step>, seen: Seen, fuel: nat, r: Answer)
    requires LookupTy(w, file, part, steps, seen, fuel) == Some(r)
    ensures LookupEach(w, file, [part], steps, seen, fuel) == Some(Answers([r.verdict], r.seen))
  {
    assert [part][1..] == [] && [r.verdict] + [] == [r.verdict];
  }

  lemma TwoParts(w: World, file: File, a: Ty, b: Ty, steps: seq<Step>, seen: Seen, fuel: nat, r: Answer, q: Answer)
    requires LookupTy(w, file, a, steps, seen, fuel) == Some(r)
    requires LookupTy(w, file, b, steps, r.seen, fuel) == Some(q)
    ensures LookupEach(w, file, [a, b], steps, seen, fuel) == Some(Answers([r.verdict, q.verdict], q.seen))
  {
    LastPart(w, file, b, steps, r.seen, fuel, q);
    assert [a, b][1..] == [b];
    assert [r.verdict] + [q.verdict] == [r.verdict, q.verdict];
  }

  // ----- an absent member reported unknown

  /** `D extends B, C` and both extend the empty `A`: the second visit to `A` is cut off. */
  function Diamond(file: File): World {
    World(map[Key(file, 0) := Interface([], [], []),
              Key(file, 1) := Interface([], [Some(Name("A"))], []),
              Key(file, 2) := Interface([], [Some(Name("A"))], []),
              Key(file, 3) := Interface([], [Some(Name("B")), Some(Name("C"))], [])],
          map[(file, Name("A")) := Key(file, 0), (file, Name("B")) := Key(file, 1), (file, Name("C")) := Key(file, 2)])
  }

  lemma EmptyLacks(w: World, key: Key, name: Name, n: nat)
    requires key in w.decls && w.decls[key] == Interface([], [], [])
    ensures AbsentDecl(w, key, [Member(name)], n)
  {
    NothingMerged(w.decls[key]);
  }

  lemma BasesLack(w: World, key: Key, name: Name, n: nat)
    requires key in w.decls && w.decls[key].Interface? && w.decls[key].members == [] && w.decls[key].merged == []
    requires forall base | base in w.decls[key].bases :: AbsentBase(w, key.file, base, [Member(name)], n)
    ensures AbsentDecl(w, key, [Member(name)], n)
  {
    NothingMerged(w.decls[key]);
  }

  lemma DiamondIsAbsent(file: File)
    ensures Absent(Diamond(file), Key(file, 3), [Member(Name("x"))])
  {
    var w, x, steps := Diamond(file), Name("x"), [Member(Name("x"))];
    EmptyLacks(w, Key(file, 0), x, 0);
    assert AbsentBase(w, file, Some(Name("A")), steps, 1);
    BasesLack(w, Key(file, 1), x, 1);
    BasesLack(w, Key(file, 2), x, 1);
    assert AbsentBase(w, file, Some(Name("B")), steps, 2) && AbsentBase(w, file, Some(Name("C")), steps, 2);
    BasesLack(w, Key(file, 3), x, 2);
  }

  /** One arm of the diamond: what it answers depends on whether `A` was visited before. */
  lemma ArmAnswers(file: File, arm: Name, pos: nat, seen: Seen)
    requires (arm, pos) in {(Name("B"), 1), (Name("C"), 2)} && (Key(file, pos), 1) !in seen
    ensures var entered := seen + {(Key(file, pos), 1)};
            LookupName(Diamond(file), file, arm, [Member(Name("x"))], seen, 2)
            == Some(Answer(if (Key(file, 0), 1) in seen then Unknown else Missing, entered + {(Key(file, 0), 1)}))
  {
    var w, steps, entered := Diamond(file), [Member(Name("x"))], seen + {(Key(file, pos), 1)};
    var v := if (Key(file, 0), 1) in seen then Unknown else Missing;
    var r := Answer(v, entered + {(Key(file, 0), 1)});
    DeclIsBody(w, Key(file, 0), steps, entered, 0);
    NameIsDecl(w, file, Name("A"), steps, entered, 1);
    assert (Key(file, 0), 1) in entered ==> r.seen == entered;
    LastBase(w, file, Name("A"), steps, entered, 1, r);
    CombineIs([v]);
    OnlyBases(w, Key(file, pos), [Some(Name("A"))], steps, seen, 1, Answers([v], r.seen));
    NameIsDecl(w, file, arm, steps, seen, 2);
  }

  lemma DiamondIsUnknown(file: File)
    ensures LookupDecl(Diamond(file), Key(file, 3), [Member(Name("x"))], {}, 2).Some?
    ensures LookupDecl(Diamond(file), Key(file, 3), [Member(Name("x"))], {}, 2).value.verdict == Unknown
  {
    var w, steps, top := Diamond(file), [Member(Name("x"))], {} + {(Key(file, 3), 1)};
    ArmAnswers(file, Name("B"), 1, top);
    var r := LookupName(w, file, Name("B"), steps, top, 2).value;
    ArmAnswers(file, Name("C"), 2, r.seen);
    var q := LookupName(w, file, Name("C"), steps, r.seen, 2).value;
    TwoBases(w, file, Name("B"), Name("C"), steps, top, 2, r, q);
    OnlyBases(w, Key(file, 3), [Some(Name("B")), Some(Name("C"))], steps, {}, 2, Answers([Missing, Unknown], q.seen));
    CombineIs([Missing, Unknown]);
    assert [Missing, Unknown][1] == Unknown;
  }

  // ----- a present member reported unknown

  /** `interface A { x }` and `type U = A | A`: the second branch is cut off. */
  function TwiceTheSame(file: File): World {
    World(map[Key(file, 0) := Interface([UntypedProperty(Name("x"))], [], []),
              Key(file, 1) := Alias(Union(Ref("A"), [Ref("A")]))],
          map[(file, Name("A")) := Key(file, 0)])
  }

  lemma UnionHasMember(file: File)
    ensures Present(TwiceTheSame(file), Key(file, 1), [Member(Name("x"))])
  {
    var w, x, steps := TwiceTheSame(file), Name("x"), [Member(Name("x"))];
    NothingMerged(w.decls[Key(file, 0)]);
    assert FirstDeclared([UntypedProperty(x)], x) == 0;
    assert PresentDecl(w, Key(file, 0), steps, 0);
    assert PresentTy(w, file, Ref("A"), steps, 1);
    assert PresentDecl(w, Key(file, 1), steps, 1);
  }

  lemma BranchAnswers(file: File, seen: Seen)
    ensures LookupTy(TwiceTheSame(file), file, Ref("A"), [Member(Name("x"))], seen, 1)
            == Some(if (Key(file, 0), 1) in seen then Answer(Unknown, seen)
              else Answer(Found, seen + {(Key(file, 0), 1)}))
  {
    var w, x, steps, both := TwiceTheSame(file), Name("x"), [Member(Name("x"))], seen + {(Key(file, 0), 1)};
    assert FirstProperty([UntypedProperty(x)], x) == 0;
    OneMember(w, file, [UntypedProperty(x)], x, both, 0);
    DeclIsBody(w, Key(file, 0), steps, seen, 0);
    NameIsDecl(w, file, Name("A"), steps, seen, 1);
  }

  lemma UnionCanHideMember(file: File)
    ensures Present(TwiceTheSame(file), Key(file, 1), [Member(Name("x"))])
    ensures LookupDecl(TwiceTheSame(file), Key(file, 1), [Member(Name("x"))], {}, 1).Some?
    ensures LookupDecl(TwiceTheSame(file), Key(file, 1), [Member(Name("x"))], {}, 1).value.verdict == Unknown
  {
    var w, steps, top := TwiceTheSame(file), [Member(Name("x"))], {} + {(Key(file, 1), 1)};
    var both := top + {(Key(file, 0), 1)};
    UnionHasMember(file);
    BranchAnswers(file, top);
    BranchAnswers(file, both);
    LastPart(w, file, Ref("A"), steps, both, 1, Answer(Unknown, both));
    DeclIsBody(w, Key(file, 1), steps, {}, 1);
    AgreeIs(Found, [Unknown]);
    assert [Unknown][0] == Unknown;
  }

  /**
   `interface L { p: {}; q: { x } }` and `type T = L['p'] & L['q']`: two paths of the same length are taken
   for one.
   */
  function SameLength(file: File): World {
    World(map[Key(file, 0) := Interface([Property(Name("p"), TypeLiteral([])),
                                         Property(Name("q"), TypeLiteral([UntypedProperty(Name("x"))]))], [], []),
              Key(file, 1) := Alias(Intersection([IndexedAccess(Ref("L"), Some(Name("p"))),
                                                  IndexedAccess(Ref("L"), Some(Name("q")))]))],
          map[(file, Name("L")) := Key(file, 0)])
  }

  lemma HasProperty(w: World, file: File, members: seq<TypeElement>, i: nat, steps: seq<Step>, n: nat)
    requires i < |members| && IsProperty(members[i]) && steps != [] && steps[0] == Member(members[i].name)
    requires FirstDeclared(members, members[i].name) == i && PresentElement(w, file, members[i], steps[1..], n)
    ensures PresentTy(w, file, TypeLiteral(members), steps, n)
  {
  }

  lemma TargetHasPath(file: File)
    ensures PresentDecl(SameLength(file), Key(file, 0), [Member(Name("q")), Member(Name("x"))], 0)
  {
    var w, q, x := SameLength(file), Name("q"), Name("x");
    var d := w.decls[Key(file, 0)];
    var inner := [UntypedProperty(x)];
    assert FirstDeclared(inner, x) == 0 && [Member(x)][1..] == [];
    HasProperty(w, file, inner, 0, [Member(x)], 0);
    assert FirstDeclared(d.members, q) == 1 by {
      assert !Declares(d.members[0], q) && Declares(d.members[1], q);
    }
    assert [Member(q), Member(x)][1..] == [Member(x)];
    NothingMerged(d);
  }

  lemma SameLengthIsPresent(file: File)
    ensures Present(SameLength(file), Key(file, 1), [Member(Name("x"))])
  {
    var w, q, x := SameLength(file), Name("q"), Name("x");
    TargetHasPath(file);
    var part := IndexedAccess(Ref("L"), Some(q));
    assert [Member(q)] + [Member(x)] == [Member(q), Member(x)];
    assert PresentTy(w, file, Ref("L"), [Member(q), Member(x)], 1);
    assert PresentTy(w, file, part, [Member(x)], 1);
    assert w.decls[Key(file, 1)].ty.parts[1] == part;
    assert PresentDecl(w, Key(file, 1), [Member(x)], 1);
  }

  /** The second part asks `L` for another path, but for one as long as the first. */
  lemma SameLengthIsUnknown(file: File)
    ensures LookupDecl(SameLength(file), Key(file, 1), [Member(Name("x"))], {}, 1).Some?
    ensures LookupDecl(SameLength(file), Key(file, 1), [Member(Name("x"))], {}, 1).value.verdict == Unknown
  {
    var w, p, q, x := SameLength(file), Name("p"), Name("q"), Name("x");
    var top := {} + {(Key(file, 1), 1)};
    var both := top + {(Key(file, 0), 2)};
    var a, b := IndexedAccess(Ref("L"), Some(p)), IndexedAccess(Ref("L"), Some(q));
    FirstPart(file, top);
    SecondPart(file, both);
    TwoParts(w, file, a, b, [Member(x)], top, 1, Answer(Missing, both), Answer(Unknown, both));
    DeclIsBody(w, Key(file, 1), [Member(x)], {}, 1);
    CombineIs([Missing, Unknown]);
    assert [Missing, Unknown][1] == Unknown;
  }

  lemma SecondPart(file: File, seen: Seen)
    requires (Key(file, 0), 2) in seen
    ensures LookupTy(SameLength(file), file, IndexedAccess(Ref("L"), Some(Name("q"))), [Member(Name("x"))], seen, 1)
            == Some(Answer(Unknown, seen))
  {
    var w, q, x := SameLength(file), Name("q"), Name("x");
    TyIsInner(w, file, IndexedAccess(Ref("L"), Some(q)), [Member(x)], seen, 1);
    NameIsDecl(w, file, Name("L"), [Member(q)] + [Member(x)], seen, 1);
    DeclIsBody(w, Key(file, 0), [Member(q)] + [Member(x)], seen, 0);
  }

  lemma FirstPart(file: File, top: Seen)
    requires (Key(file, 0), 2) !in top
    ensures LookupTy(SameLength(file), file, IndexedAccess(Ref("L"), Some(Name("p"))), [Member(Name("x"))], top, 1)
            == Some(Answer(Missing, top + {(Key(file, 0), 2)}))
  {
    var w, p, x := SameLength(file), Name("p"), Name("x");
    var both, steps := top + {(Key(file, 0), 2)}, [Member(p)] + [Member(x)];
    var d := w.decls[Key(file, 0)];
    TyIsInner(w, file, IndexedAccess(Ref("L"), Some(p)), [Member(x)], top, 1);
    NameIsDecl(w, file, Name("L"), steps, top, 1);
    DeclIsBody(w, Key(file, 0), steps, top, 0);
    assert FirstProperty(d.members, p) == 0 && steps[1..] == [Member(x)];
    OneMember(w, file, [], x, both, 0);
    assert LookupProperty(w, file, d.members[0], [Member(x)], both, 0) == Some(Answer(Missing, both));
  }

  /** Nothing else is wrong with these declarations: all is visible and ranked, and there is no union. */
  lemma SameLengthIsVisible(file: File)
    ensures VisibleWorld(SameLength(file))
  {
    var w := SameLength(file);
    forall i | 0 <= i < 2
      ensures VisibleTy(w.decls[Key(file, 1)].ty.parts[i]) && VisibleElement(w.decls[Key(file, 0)].members[i])
    {
      assert VisibleTy(Ref("L")) && VisibleElement(UntypedProperty(Name("x")));
    }
  }

  lemma SameLengthIsRanked(file: File)
    ensures RankedWorld(SameLength(file), Ranking(map[Key(file, 0) := 0, Key(file, 1) := 1], 1))
  {
    var w, k := SameLength(file), Ranking(map[Key(file, 0) := 0, Key(file, 1) := 1], 1);
    var at := PlaceOf(k, Key(file, 1));
    forall i | 0 <= i < 2
      ensures RankedTy(w, k, at, w.decls[Key(file, 1)].ty.parts[i])
      ensures RankedElement(w, k, PlaceOf(k, Key(file, 0)), w.decls[Key(file, 0)].members[i])
    {
      assert RankedTy(w, k, at.(inside := true, left := 0), Ref("L"));
    }
    assert RankedDecl(w, k, Key(file, 0)) && RankedDecl(w, k, Key(file, 1));
  }
}
