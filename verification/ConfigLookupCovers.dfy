/**
 Types without unions, intersections and names of declarations: what the walk makes of one,
 what the language makes of it, and when the walk's missing is right on every path.
 */
module ConfigLookupCovers {
  import opened Wrappers
  import opened TypeWorld
  import opened ConfigLookup
  import opened ConfigLookupLeaf

  /** No union, no intersection, and no name of a declaration where a lookup or the language looks. */
  ghost predicate SimpleTy(ty: Ty) {
    match ty
    case TypeLiteral(members) => SimpleMembers(members)
    case Intersection(_) => false
    case Union(_, _) => false
    case _ => NameIn(ty).None? && (Inner(ty).Some? ==> SimpleTy(Inner(ty).value))
  }

  ghost predicate SimpleMembers(members: seq<TypeElement>) {
    forall i | 0 <= i < |members| :: SimpleElement(members[i])
  }

  ghost predicate SimpleElement(m: TypeElement) {
    HasType(m) ==> SimpleTy(m.ty)
  }

  predicate HasType(m: TypeElement) {
    m.Property? || m.Accessor? || m.StringIndex?
  }

  // ----- where a type leads

  /**
   What is at the end of a simple type, below its wrappers and indexed accesses: members, elements, nothing that
   could be there, or nothing that is known.
   */
  datatype Shape = Members(members: seq<TypeElement>) | Elements(element: Ty) | Nothing | Obscure

  /** The steps that indexed accesses put in front of a path. */
  predicate Named(front: seq<Step>) {
    forall i | 0 <= i < |front| :: front[i].Member?
  }

  /** An indexed access puts its member in front. */
  function Front(ty: Ty, front: seq<Step>): (longer: seq<Step>)
    requires Named(front)
    ensures Named(longer)
  {
    if ty.IndexedAccess? && ty.index.Some? then [Member(ty.index.value)] + front else front
  }

  /** All types in the shape are parts of the type it comes from. */
  ghost predicate Smaller(shape: Shape, ty: Ty) {
    && (shape.Elements? ==> shape.element < ty)
    && (shape.Members? ==> forall i | 0 <= i < |shape.members| && HasType(shape.members[i]) :: shape.members[i].ty < ty)
  }

  /** What the walk comes to: `keyof` is looked through, and only property signatures count. */
  function Walked(ty: Ty, front: seq<Step>): (shape: Shape)
    requires Named(front)
    ensures Smaller(shape, ty)
    decreases ty
  {
    if ty.TypeLiteral? && front == [] then Members(ty.members)
    else if ty.TypeLiteral? then
      var i := FirstProperty(ty.members, front[0].name);
      if i == |ty.members| then Nothing
      else if ty.members[i].UntypedProperty? then Obscure
      else Walked(ty.members[i].ty, front[1..])
    else if Inner(ty).None? then Obscure
    else if TakesHop(ty) then (if front == [] then Elements(Inner(ty).value) else Obscure)
    else Walked(Inner(ty).value, Front(ty, front))
  }

  /** What the language says is there. */
  function Meant(ty: Ty, front: seq<Step>): (shape: Shape)
    requires Named(front)
    ensures Smaller(shape, ty)
    decreases ty
  {
    if ty.TypeLiteral? && front == [] then Members(ty.members)
    else if ty.TypeLiteral? then
      var i := FirstDeclared(ty.members, front[0].name);
      var j := if i < |ty.members| then i else FirstStringIndex(ty.members);
      if j < |ty.members| && HasType(ty.members[j]) then Meant(ty.members[j].ty, front[1..]) else Obscure
    else if ty.KeyOf? || Inner(ty).None? then Obscure
    else if TakesHop(ty) then (if front == [] then Elements(Inner(ty).value) else Obscure)
    else Meant(Inner(ty).value, Front(ty, front))
  }

  // ----- the walk follows its shape

  /** One answer and an untouched guard. */
  ghost predicate Says(r: Option<Answer>, v: Verdict, seen: Seen) {
    r == Some(Answer(v, seen))
  }

  ghost predicate WalksAs(w: World, file: File, shape: Shape, steps: seq<Step>, seen: Seen, fuel: nat,
                          r: Option<Answer>)
    requires steps != []
  {
    match shape
    case Members(members) =>
      if steps[0].Member? then r == LookupMember(w, file, members, steps, seen, fuel) else Says(r, Unknown, seen)
    case Elements(element) =>
      if steps[0].ArrayHop? then r == LookupTy(w, file, element, steps[1..], seen, fuel) else Says(r, Unknown, seen)
    case Nothing => Says(r, Missing, seen)
    case Obscure => Says(r, Unknown, seen)
  }

  lemma {:induction false} WalkFollowsShape(w: World, file: File, ty: Ty, front: seq<Step>, steps: seq<Step>,
                                            seen: Seen,
                                            fuel: nat)
    requires SimpleTy(ty) && Named(front) && steps != []
    ensures WalksAs(w, file, Walked(ty, front), steps, seen, fuel, LookupTy(w, file, ty, front + steps, seen, fuel))
    decreases ty
  {
    if ty.TypeLiteral? {
      WalkLiteral(w, file, ty.members, front, steps, seen, fuel);
    } else if Inner(ty).Some? {
      PathBehindFront(ty, front, steps);
      if !TakesHop(ty) {
        WalkFollowsShape(w, file, Inner(ty).value, Front(ty, front), steps, seen, fuel);
      }
      if PathInto(ty, front + steps).Some? {
        TyIsInner(w, file, ty, front + steps, seen, fuel);
      }
    }
  }

  lemma PathBehindFront(ty: Ty, front: seq<Step>, steps: seq<Step>)
    requires Inner(ty).Some? && Named(front) && steps != []
    ensures !TakesHop(ty) ==> PathInto(ty, front + steps) == Some(Front(ty, front) + steps)
    ensures TakesHop(ty) && front != [] ==> PathInto(ty, front + steps).None?
    ensures front == [] ==> front + steps == steps
  {
    if ty.IndexedAccess? {
      assert [Member(ty.index.value)] + front + steps == [Member(ty.index.value)] + (front + steps);
    }
  }

  lemma {:induction false} WalkLiteral(w: World, file: File, members: seq<TypeElement>, front: seq<Step>,
                                       steps: seq<Step>,
                                       seen: Seen, fuel: nat)
    requires SimpleTy(TypeLiteral(members)) && Named(front) && steps != []
    ensures WalksAs(w, file, Walked(TypeLiteral(members), front), steps, seen, fuel,
                    LookupTy(w, file, TypeLiteral(members), front + steps, seen, fuel))
    decreases TypeLiteral(members), 0
  {
    var path := front + steps;
    if front == [] {
      assert path == steps;
    } else {
      var i := FirstProperty(members, front[0].name);
      assert path[0] == front[0] && path[1..] == front[1..] + steps;
      LiteralIsMember(w, file, members, path, seen, fuel);
      if i < |members| {
        assert SimpleElement(members[i]);
        PropertyIsTy(w, file, members[i], path[1..], seen, fuel);
        if members[i].Property? {
          WalkFollowsShape(w, file, members[i].ty, front[1..], steps, seen, fuel);
        }
      }
    }
  }

  lemma LiteralIsMember(w: World, file: File, members: seq<TypeElement>, steps: seq<Step>, seen: Seen, fuel: nat)
    requires steps != [] && steps[0].Member?
    ensures LookupTy(w, file, TypeLiteral(members), steps, seen, fuel)
         == LookupMember(w, file, members, steps, seen, fuel)
  {
  }

  lemma PropertyIsTy(w: World, file: File, m: TypeElement, rest: seq<Step>, seen: Seen, fuel: nat)
    requires IsProperty(m) && rest != []
    ensures LookupProperty(w, file, m, rest, seen, fuel)
         == if m.Property? then LookupTy(w, file, m.ty, rest, seen, fuel) else Some(Answer(Unknown, seen))
  {
  }

  // ----- and so does the language

  ghost predicate HasAs(w: World, file: File, shape: Shape, steps: seq<Step>, n: nat)
    requires steps != []
  {
    match shape
    case Members(members) => steps[0].Member? && PresentMember(w, file, members, steps, n)
    case Elements(element) => steps[0].ArrayHop? && PresentTy(w, file, element, steps[1..], n)
    case Nothing => false
    case Obscure => false
  }

  lemma {:induction false} MeaningFollowsShape(w: World, file: File, ty: Ty, front: seq<Step>, steps: seq<Step>, n: nat)
    requires SimpleTy(ty) && Named(front) && steps != []
    ensures PresentTy(w, file, ty, front + steps, n) <==> HasAs(w, file, Meant(ty, front), steps, n)
    decreases ty
  {
    if ty.TypeLiteral? {
      MeaningOfLiteral(w, file, ty.members, front, steps, n);
    } else if !ty.KeyOf? && Inner(ty).Some? {
      PathBehindFront(ty, front, steps);
      if !TakesHop(ty) {
        MeaningFollowsShape(w, file, Inner(ty).value, Front(ty, front), steps, n);
      }
      MeaningOfWrapped(w, file, ty, front + steps, n);
    }
  }

  lemma MeaningOfWrapped(w: World, file: File, ty: Ty, path: seq<Step>, n: nat)
    requires path != [] && !ty.KeyOf? && Inner(ty).Some?
    ensures PresentTy(w, file, ty, path, n)
            <==> PathInto(ty, path).Some? && PresentTy(w, file, Inner(ty).value, PathInto(ty, path).value, n)
  {
  }

  lemma {:induction false} MeaningOfLiteral(w: World, file: File, members: seq<TypeElement>, front: seq<Step>,
                                            steps: seq<Step>, n: nat)
    requires SimpleTy(TypeLiteral(members)) && Named(front) && steps != []
    ensures PresentTy(w, file, TypeLiteral(members), front + steps, n)
            <==> HasAs(w, file, Meant(TypeLiteral(members), front), steps, n)
    decreases TypeLiteral(members), 0
  {
    var path := front + steps;
    if front == [] {
      assert path == steps;
      if steps[0].Member? {
        LiteralIs(w, file, members, steps);
      }
    } else {
      var i := FirstDeclared(members, front[0].name);
      var j := if i < |members| then i else FirstStringIndex(members);
      assert path[0] == front[0] && path[1..] == front[1..] + steps;
      LiteralIs(w, file, members, path);
      if j < |members| {
        assert SimpleElement(members[j]);
        ElementMeans(w, file, members[j], path[1..], n);
        if HasType(members[j]) {
          MeaningFollowsShape(w, file, members[j].ty, front[1..], steps, n);
        }
      }
    }
  }

  lemma ElementMeans(w: World, file: File, m: TypeElement, rest: seq<Step>, n: nat)
    requires rest != []
    ensures PresentElement(w, file, m, rest, n) <==> HasType(m) && PresentTy(w, file, m.ty, rest, n)
  {
  }

  // ----- when the walk's missing is right

  predicate HasName(m: TypeElement) {
    IsProperty(m) || m.Accessor? || m.Method?
  }

  /** No path leads anywhere. */
  ghost predicate NeverThere(shape: Shape) {
    && !shape.Elements?
    && (shape.Members?
       ==> forall i | 0 <= i < |shape.members| :: !HasName(shape.members[i]) && !shape.members[i].StringIndex?)
  }

  /**
   Walking through the first type, what the second means is never reported missing: every name it has, the walk
   has as a property, it has no signature for all names, and so on below each name.
   */
  ghost predicate Covers(walked: Ty, meant: Ty)
    decreases walked
  {
    var shape, meaning := Walked(walked, []), Meant(meant, []);
    match shape
    case Obscure => true
    case Nothing => NeverThere(meaning)
    case Elements(element) => meaning.Elements? ==> Covers(element, meaning.element)
    case Members(members) =>
      meaning.Members? ==>
        && FirstStringIndex(meaning.members) == |meaning.members|
        && forall j | 0 <= j < |meaning.members| && HasName(meaning.members[j]) ::
             var name := meaning.members[j].name;
             var i, d := FirstProperty(members, name), FirstDeclared(meaning.members, name);
             i < |members| && (members[i].Property? && HasType(meaning.members[d]) ==>
                                 Covers(members[i].ty, meaning.members[d].ty))
  }

  ghost predicate SimpleShape(shape: Shape) {
    (shape.Elements? ==> SimpleTy(shape.element)) && (shape.Members? ==> SimpleMembers(shape.members))
  }

  lemma {:induction false} WalkedIsSimple(ty: Ty, front: seq<Step>)
    requires SimpleTy(ty) && Named(front)
    ensures SimpleShape(Walked(ty, front))
    decreases ty
  {
    if ty.TypeLiteral? {
      if front != [] {
        var i := FirstProperty(ty.members, front[0].name);
        if i < |ty.members| && ty.members[i].Property? {
          assert SimpleElement(ty.members[i]);
          WalkedIsSimple(ty.members[i].ty, front[1..]);
        }
      }
    } else if Inner(ty).Some? && !TakesHop(ty) {
      WalkedIsSimple(Inner(ty).value, Front(ty, front));
    }
  }

  lemma {:induction false} MeantIsSimple(ty: Ty, front: seq<Step>)
    requires SimpleTy(ty) && Named(front)
    ensures SimpleShape(Meant(ty, front))
    decreases ty
  {
    if ty.TypeLiteral? {
      if front != [] {
        var i := FirstDeclared(ty.members, front[0].name);
        var j := if i < |ty.members| then i else FirstStringIndex(ty.members);
        if j < |ty.members| && HasType(ty.members[j]) {
          assert SimpleElement(ty.members[j]);
          MeantIsSimple(ty.members[j].ty, front[1..]);
        }
      }
    } else if !ty.KeyOf? && Inner(ty).Some? && !TakesHop(ty) {
      MeantIsSimple(Inner(ty).value, Front(ty, front));
    }
  }

  ghost predicate SaysMissing(r: Option<Answer>) {
    r.Some? && r.value.verdict == Missing
  }

  /** Then the walk never says missing of what is there. */
  lemma {:induction false} CoversSound(w: World, file: File, walked: Ty, meant: Ty, steps: seq<Step>, seen: Seen,
                                       fuel: nat, n: nat)
    requires SimpleTy(walked) && SimpleTy(meant) && Covers(walked, meant)
    requires SaysMissing(LookupTy(w, file, walked, steps, seen, fuel))
    ensures !PresentTy(w, file, meant, steps, n)
    decreases walked
  {
    assert steps != [] && [] + steps == steps;
    var shape, meaning := Walked(walked, []), Meant(meant, []);
    WalkFollowsShape(w, file, walked, [], steps, seen, fuel);
    MeaningFollowsShape(w, file, meant, [], steps, n);
    WalkedIsSimple(walked, []);
    MeantIsSimple(meant, []);
    if shape.Nothing? {
      NeverThereIsAbsent(w, file, meaning, steps, n);
    } else if shape.Elements? && meaning.Elements? {
      CoversSound(w, file, shape.element, meaning.element, steps[1..], seen, fuel, n);
    } else if shape.Members? && meaning.Members? && steps[0].Member? {
      CoversMembersSound(w, file, walked, meant, steps, seen, fuel, n);
    }
  }

  lemma NeverThereIsAbsent(w: World, file: File, shape: Shape, steps: seq<Step>, n: nat)
    requires NeverThere(shape) && steps != []
    ensures !HasAs(w, file, shape, steps, n)
  {
  }

  lemma {:induction false} CoversMembersSound(w: World, file: File, walked: Ty, meant: Ty, steps: seq<Step>, seen: Seen,
                                              fuel: nat, n: nat)
    requires Covers(walked, meant) && steps != [] && steps[0].Member?
    requires Walked(walked, []).Members? && SimpleMembers(Walked(walked, []).members)
    requires Meant(meant, []).Members? && SimpleMembers(Meant(meant, []).members)
    requires SaysMissing(LookupMember(w, file, Walked(walked, []).members, steps, seen, fuel))
    ensures !PresentMember(w, file, Meant(meant, []).members, steps, n)
    decreases walked, 0
  {
    var members, all := Walked(walked, []).members, Meant(meant, []).members;
    var i, d := FirstProperty(members, steps[0].name), FirstDeclared(all, steps[0].name);
    if d < |all| {
      assert HasName(all[d]) && i < |members|;
      PropertyMissing(w, file, members[i], steps[1..], seen, fuel);
      ElementMeans(w, file, all[d], steps[1..], n);
      if HasType(all[d]) {
        assert SimpleElement(members[i]) && SimpleElement(all[d]);
        CoversSound(w, file, members[i].ty, all[d].ty, steps[1..], seen, fuel, n);
      }
    }
  }

  /** Missing below a property is missing in its type. */
  lemma PropertyMissing(w: World, file: File, m: TypeElement, rest: seq<Step>, seen: Seen, fuel: nat)
    requires IsProperty(m) && SaysMissing(LookupProperty(w, file, m, rest, seen, fuel))
    ensures rest != [] && m.Property? && SaysMissing(LookupTy(w, file, m.ty, rest, seen, fuel))
  {
  }

  // ----- and a path on which it is wrong otherwise

  function TextBound(members: seq<TypeElement>): (n: nat)
    ensures forall i, name: Name | 0 <= i < |members| && Declares(members[i], name) :: |name.text| < n
  {
    if members == [] then 0
    else
      var rest := TextBound(members[1..]);
      assert forall i | 1 <= i < |members| :: members[i] == members[1..][i - 1];
      if (IsProperty(members[0]) || members[0].Accessor? || members[0].Method?) && |members[0].name.text| >= rest
      then |members[0].name.text| + 1 else rest
  }

  /** A name no member has. */
  function FreshName(members: seq<TypeElement>): (name: Name)
    ensures forall i | 0 <= i < |members| :: !Declares(members[i], name)
  {
    Name(seq(TextBound(members), _ => 'x'))
  }

  /** Whatever the guard holds, the walk says missing. */
  ghost predicate MissingTy(w: World, file: File, ty: Ty, steps: seq<Step>, fuel: nat) {
    forall seen: Seen :: LookupTy(w, file, ty, steps, seen, fuel) == Some(Answer(Missing, seen))
  }

  ghost predicate MissingMember(w: World, file: File, members: seq<TypeElement>, steps: seq<Step>, fuel: nat)
    requires steps != [] && steps[0].Member?
  {
    forall seen: Seen :: LookupMember(w, file, members, steps, seen, fuel) == Some(Answer(Missing, seen))
  }

  ghost predicate WrongAt(w: World, file: File, walked: Ty, meant: Ty, steps: seq<Step>, fuel: nat, n: nat) {
    steps != [] && MissingTy(w, file, walked, steps, fuel) && PresentTy(w, file, meant, steps, n)
  }

  ghost predicate WrongIn(w: World, file: File, members: seq<TypeElement>, all: seq<TypeElement>, steps: seq<Step>,
                          fuel: nat, n: nat) {
    && steps != [] && steps[0].Member? && MissingMember(w, file, members, steps, fuel)
    && PresentMember(w, file, all, steps, n)
  }

  ghost predicate MissingShape(w: World, file: File, shape: Shape, steps: seq<Step>, fuel: nat)
    requires steps != []
  {
    match shape
    case Members(members) => steps[0].Member? && MissingMember(w, file, members, steps, fuel)
    case Elements(element) => steps[0].ArrayHop? && MissingTy(w, file, element, steps[1..], fuel)
    case Nothing => true
    case Obscure => false
  }

  lemma {:induction false} CoversComplete(w: World, file: File, walked: Ty, meant: Ty, fuel: nat, n: nat)
      returns (steps: seq<Step>)
    requires SimpleTy(walked) && SimpleTy(meant) && !Covers(walked, meant)
    ensures WrongAt(w, file, walked, meant, steps, fuel, n)
    decreases walked
  {
    var shape, meaning := Walked(walked, []), Meant(meant, []);
    WalkedIsSimple(walked, []);
    MeantIsSimple(meant, []);
    if shape.Elements? {
      var rest := CoversComplete(w, file, shape.element, meaning.element, fuel, n);
      steps := [ArrayHop] + rest;
      assert steps[1..] == rest;
    } else if meaning.Elements? {
      steps := [ArrayHop];
      assert steps[1..] == [];
    } else if shape.Nothing? {
      steps := SomeMember(w, file, meaning.members, n);
    } else {
      steps := WrongMember(w, file, walked, meant, fuel, n);
    }
    WrongShapes(w, file, walked, meant, steps, fuel, n);
  }

  lemma WrongShapes(w: World, file: File, walked: Ty, meant: Ty, steps: seq<Step>, fuel: nat, n: nat)
    requires SimpleTy(walked) && SimpleTy(meant) && steps != []
    requires MissingShape(w, file, Walked(walked, []), steps, fuel) && HasAs(w, file, Meant(meant, []), steps, n)
    ensures WrongAt(w, file, walked, meant, steps, fuel, n)
  {
    assert [] + steps == steps;
    MissingFollowsShape(w, file, walked, steps, fuel);
    MeaningFollowsShape(w, file, meant, [], steps, n);
  }

  lemma MissingFollowsShape(w: World, file: File, ty: Ty, steps: seq<Step>, fuel: nat)
    requires SimpleTy(ty) && steps != [] && MissingShape(w, file, Walked(ty, []), steps, fuel)
    ensures MissingTy(w, file, ty, steps, fuel)
  {
    forall seen: Seen
      ensures LookupTy(w, file, ty, steps, seen, fuel) == Some(Answer(Missing, seen))
    {
      assert [] + steps == steps;
      WalkFollowsShape(w, file, ty, [], steps, seen, fuel);
    }
  }

  /** Members with a name, or a signature for all names, have some member. */
  lemma SomeMember(w: World, file: File, members: seq<TypeElement>, n: nat) returns (steps: seq<Step>)
    requires !NeverThere(Members(members))
    ensures steps != [] && steps[0].Member? && PresentMember(w, file, members, steps, n)
  {
    var i :| 0 <= i < |members| && (HasName(members[i]) || members[i].StringIndex?);
    var name := if HasName(members[i]) then members[i].name else FreshName(members);
    steps := [Member(name)];
    OneIsPresent(w, file, members, name, n);
  }

  lemma OneIsPresent(w: World, file: File, members: seq<TypeElement>, name: Name, n: nat)
    requires FirstDeclared(members, name) < |members| || FirstStringIndex(members) < |members|
    ensures PresentMember(w, file, members, [Member(name)], n)
  {
    assert [Member(name)][1..] == [];
  }

  lemma {:induction false} WrongMember(w: World, file: File, walked: Ty, meant: Ty, fuel: nat, n: nat)
      returns (steps: seq<Step>)
    requires !Covers(walked, meant)
    requires Walked(walked, []).Members? && SimpleMembers(Walked(walked, []).members)
    requires Meant(meant, []).Members? && SimpleMembers(Meant(meant, []).members)
    ensures WrongIn(w, file, Walked(walked, []).members, Meant(meant, []).members, steps, fuel, n)
    decreases walked, 1
  {
    var members, all := Walked(walked, []).members, Meant(meant, []).members;
    if FirstStringIndex(all) < |all| {
      steps := FreshMember(w, file, members, all, fuel, n);
    } else {
      var name := UncoveredName(walked, meant);
      if FirstProperty(members, name) == |members| {
        steps := [Member(name)];
        WrongAtName(w, file, members, all, name, fuel, n);
      } else {
        steps := WrongBelow(w, file, walked, all, name, fuel, n);
      }
    }
  }

  lemma WrongAtName(w: World, file: File, members: seq<TypeElement>, all: seq<TypeElement>, name: Name, fuel: nat,
                    n: nat)
    requires FirstProperty(members, name) == |members|
    requires FirstDeclared(all, name) < |all| || FirstStringIndex(all) < |all|
    ensures WrongIn(w, file, members, all, [Member(name)], fuel, n)
  {
    OneIsPresent(w, file, all, name, n);
  }

  /** Where a signature admits every name, one that no member has will do. */
  lemma FreshMember(w: World, file: File, members: seq<TypeElement>, all: seq<TypeElement>, fuel: nat, n: nat)
      returns (steps: seq<Step>)
    requires FirstStringIndex(all) < |all|
    ensures WrongIn(w, file, members, all, steps, fuel, n)
  {
    var name := FreshName(members + all);
    assert forall i | 0 <= i < |members| :: members[i] == (members + all)[i];
    steps := [Member(name)];
    WrongAtName(w, file, members, all, name, fuel, n);
  }

  lemma UncoveredName(walked: Ty, meant: Ty) returns (name: Name)
    requires !Covers(walked, meant) && Walked(walked, []).Members? && Meant(meant, []).Members?
    requires FirstStringIndex(Meant(meant, []).members) == |Meant(meant, []).members|
    ensures FirstDeclared(Meant(meant, []).members, name) < |Meant(meant, []).members|
    ensures !CoversName(Walked(walked, []).members, Meant(meant, []).members, name)
  {
    var members, all := Walked(walked, []).members, Meant(meant, []).members;
    var j :| 0 <= j < |all| && HasName(all[j]) && !CoversName(members, all, all[j].name);
    name := all[j].name;
  }

  lemma {:induction false} WrongBelow(w: World, file: File, walked: Ty, all: seq<TypeElement>, name: Name, fuel: nat,
                                      n: nat) returns (steps: seq<Step>)
    requires Walked(walked, []).Members? && SimpleMembers(Walked(walked, []).members) && SimpleMembers(all)
    requires !CoversName(Walked(walked, []).members, all, name) && FirstDeclared(all, name) < |all|
    requires FirstProperty(Walked(walked, []).members, name) < |Walked(walked, []).members|
    ensures WrongIn(w, file, Walked(walked, []).members, all, steps, fuel, n)
    decreases walked, 0
  {
    var members := Walked(walked, []).members;
    var i, d := FirstProperty(members, name), FirstDeclared(all, name);
    assert SimpleElement(members[i]) && SimpleElement(all[d]);
    var rest := CoversComplete(w, file, members[i].ty, all[d].ty, fuel, n);
    steps := [Member(name)] + rest;
    BelowMember(w, file, members, all, name, rest, fuel, n);
  }

  /** What is wrong in the type of a property is wrong below its name. */
  lemma BelowMember(w: World, file: File, members: seq<TypeElement>, all: seq<TypeElement>, name: Name, rest: seq<Step>,
                    fuel: nat, n: nat)
    requires var i, d := FirstProperty(members, name), FirstDeclared(all, name);
             && i < |members| && members[i].Property? && d < |all| && HasType(all[d])
             && WrongAt(w, file, members[i].ty, all[d].ty, rest, fuel, n)
    ensures WrongIn(w, file, members, all, [Member(name)] + rest, fuel, n)
  {
    MissingBelow(w, file, members, name, rest, fuel);
    PresentBelow(w, file, all, name, rest, n);
  }

  lemma MissingBelow(w: World, file: File, members: seq<TypeElement>, name: Name, rest: seq<Step>, fuel: nat)
    requires FirstProperty(members, name) < |members| && members[FirstProperty(members, name)].Property? && rest != []
    requires MissingTy(w, file, members[FirstProperty(members, name)].ty, rest, fuel)
    ensures MissingMember(w, file, members, [Member(name)] + rest, fuel)
  {
    assert ([Member(name)] + rest)[1..] == rest;
    forall seen: Seen {
      PropertyIsTy(w, file, members[FirstProperty(members, name)], rest, seen, fuel);
    }
  }

  lemma PresentBelow(w: World, file: File, all: seq<TypeElement>, name: Name, rest: seq<Step>, n: nat)
    requires FirstDeclared(all, name) < |all| && HasType(all[FirstDeclared(all, name)]) && rest != []
    requires PresentTy(w, file, all[FirstDeclared(all, name)].ty, rest, n)
    ensures PresentMember(w, file, all, [Member(name)] + rest, n)
  {
    assert ([Member(name)] + rest)[1..] == rest;
    ElementMeans(w, file, all[FirstDeclared(all, name)], rest, n);
  }

  ghost predicate CoversName(members: seq<TypeElement>, all: seq<TypeElement>, name: Name) {
    var i, d := FirstProperty(members, name), FirstDeclared(all, name);
    && i < |members| && d < |all|
    && (members[i].Property? && HasType(all[d]) ==> Covers(members[i].ty, all[d].ty))
  }
}
