/**
 What the lookup does at each kind of type node and declaration, name by name, and that the
 language does the same where the walk sees through it.
 */
module ConfigLookupNodes {
  import opened Wrappers
  import opened TypeWorld
  import opened ConfigLookup
  import opened ConfigLookupLeaf
  import opened ConfigLookupCovers

  /** Both readings of a node on a path, together with the walk's. */
  ghost predicate SameAs(w: World, file: File, a: Ty, path: seq<Step>, b: Ty, rest: seq<Step>) {
    && (forall seen: Seen, fuel: nat ::
       LookupTy(w, file, a, path, seen, fuel) == LookupTy(w, file, b, rest, seen, fuel))
    && (forall n: nat :: PresentTy(w, file, a, path, n) <==> PresentTy(w, file, b, rest, n))
    && (forall n: nat :: AbsentTy(w, file, a, path, n) <==> AbsentTy(w, file, b, rest, n))
  }

  ghost predicate OutOfReach(w: World, file: File, ty: Ty, path: seq<Step>) {
    && (forall seen: Seen, fuel: nat :: LookupTy(w, file, ty, path, seen, fuel) == Some(Answer(Unknown, seen)))
    && forall n: nat :: !PresentTy(w, file, ty, path, n) && !AbsentTy(w, file, ty, path, n)
  }

  ghost predicate SameAsName(w: World, file: File, ty: Ty, path: seq<Step>, name: Name) {
    && (forall seen: Seen, fuel: nat ::
       LookupTy(w, file, ty, path, seen, fuel) == LookupName(w, file, name, path, seen, fuel))
    && (forall n: nat :: PresentTy(w, file, ty, path, n) <==> PresentName(w, file, name, path, n))
    && (forall n: nat :: AbsentTy(w, file, ty, path, n) <==> AbsentName(w, file, name, path, n))
  }

  // ----- wrappers

  /** `Partial<T>` and its like have the members of `T`. */
  lemma UtilityWrapsItsArgument(w: World, file: File, head: string, qualified: bool, args: seq<Ty>, path: seq<Step>)
    requires head == "Partial" || head == "Required" || head == "Readonly" || head == "NonNullable"
    requires args != [] && path != []
    ensures SameAs(w, file, Reference(Name(head), qualified, args), path, args[0], path)
  {
  }

  /** `Array<T>` and `ReadonlyArray<T>` have elements of type `T`. */
  lemma ArrayNameTakesHop(w: World, file: File, head: string, qualified: bool, args: seq<Ty>, rest: seq<Step>)
    requires (head == "Array" || head == "ReadonlyArray") && args != []
    ensures SameAs(w, file, Reference(Name(head), qualified, args), [ArrayHop] + rest, args[0], rest)
  {
  }

  /** But no members the walk or the catalog could name. */
  lemma ArrayNameHasNoMember(w: World, file: File, head: string, qualified: bool, args: seq<Ty>, path: seq<Step>)
    requires (head == "Array" || head == "ReadonlyArray") && args != [] && path != [] && path[0].Member?
    ensures OutOfReach(w, file, Reference(Name(head), qualified, args), path)
  {
  }

  lemma ArrayTakesHop(w: World, file: File, element: Ty, rest: seq<Step>)
    ensures SameAs(w, file, ArrayOf(element), [ArrayHop] + rest, element, rest)
  {
  }

  lemma ArrayHasNoMember(w: World, file: File, element: Ty, path: seq<Step>)
    requires path != [] && path[0].Member?
    ensures OutOfReach(w, file, ArrayOf(element), path)
  {
  }

  /** Parentheses and `readonly` change nothing. */
  lemma ParenthesesChangeNothing(w: World, file: File, ty: Ty, path: seq<Step>)
    requires path != []
    ensures SameAs(w, file, Parens(ty), path, ty, path) && SameAs(w, file, ReadOnly(ty), path, ty, path)
  {
  }

  /** The walk takes `keyof T` for `T`, of which nothing is known. */
  lemma KeyOfIsTakenForItsOperand(w: World, file: File, ty: Ty, path: seq<Step>, seen: Seen, fuel: nat, n: nat)
    requires path != []
    ensures LookupTy(w, file, KeyOf(ty), path, seen, fuel) == LookupTy(w, file, ty, path, seen, fuel)
    ensures !PresentTy(w, file, KeyOf(ty), path, n) && !AbsentTy(w, file, KeyOf(ty), path, n)
  {
  }

  /** `T['x']` has the members that `T` has below `x`; any other index is out of reach. */
  lemma IndexedAccessGoesThrough(w: World, file: File, target: Ty, x: Name, path: seq<Step>)
    requires path != []
    ensures SameAs(w, file, IndexedAccess(target, Some(x)), path, target, [Member(x)] + path)
    ensures OutOfReach(w, file, IndexedAccess(target, None), path)
  {
  }

  // ----- names

  /** Any other plain reference, or one without the argument it should wrap, names a declaration. */
  lemma OtherHeadIsAName(w: World, file: File, head: string, args: seq<Ty>, path: seq<Step>)
    requires path != []
    requires args == []
             || (head != "Partial" && head != "Required" && head != "Readonly" && head != "NonNullable"
                 && head != "Array" && head != "ReadonlyArray")
    ensures SameAsName(w, file, Reference(Name(head), false, args), path, Name(head))
    ensures OutOfReach(w, file, Reference(Name(head), true, args), path)
  {
    if head != "Partial" && head != "Required" && head != "Readonly" && head != "NonNullable"
       && head != "Array" && head != "ReadonlyArray" {
      assert !Wraps(Name(head), args);
    }
  }

  lemma OtherTypeIsObscure(w: World, file: File, path: seq<Step>)
    requires path != []
    ensures OutOfReach(w, file, OtherType, path)
  {
  }

  /** A name stands for the declaration it resolves to in its file, and for nothing if it resolves to none. */
  lemma NameIsItsDeclaration(w: World, file: File, name: Name, path: seq<Step>, seen: Seen, fuel: nat)
    requires path != []
    ensures (file, name) in w.names && w.names[(file, name)] in w.decls ==>
              LookupName(w, file, name, path, seen, fuel + 1) == LookupDecl(w, w.names[(file, name)], path, seen, fuel)
    ensures !((file, name) in w.names && w.names[(file, name)] in w.decls) ==>
              LookupName(w, file, name, path, seen, fuel) == Some(Answer(Unknown, seen))
  {
    NameIsDecl(w, file, name, path, seen, fuel + 1);
  }

  // ----- members

  /** The walk ends at the first property signature of the name, or goes on in its type. */
  lemma MembersByName(w: World, file: File, members: seq<TypeElement>, i: nat, rest: seq<Step>, seen: Seen, fuel: nat)
    requires i < |members| && (members[i].Property? || members[i].UntypedProperty?)
    requires forall j | 0 <= j < i && (members[j].Property? || members[j].UntypedProperty?) ::
               members[j].name != members[i].name
    ensures LookupTy(w, file, TypeLiteral(members), [Member(members[i].name)] + rest, seen, fuel)
         == if rest == [] then Some(Answer(Found, seen))
            else if members[i].UntypedProperty? then Some(Answer(Unknown, seen))
            else LookupTy(w, file, members[i].ty, rest, seen, fuel)
  {
    var path := [Member(members[i].name)] + rest;
    assert path[0] == Member(members[i].name) && path[1..] == rest;
    assert FirstProperty(members, members[i].name) == i;
    LiteralIsMember(w, file, members, path, seen, fuel);
    assert LookupMember(w, file, members, path, seen, fuel)
        == LookupProperty(w, file, members[i], rest, seen, fuel);
  }

  /** Without one the member is missing, and an array hop into members is unknown. */
  lemma MembersWithout(w: World, file: File, members: seq<TypeElement>, name: Name, rest: seq<Step>, seen: Seen,
                       fuel: nat)
    requires forall j | 0 <= j < |members| && (members[j].Property? || members[j].UntypedProperty?) ::
               members[j].name != name
    ensures LookupTy(w, file, TypeLiteral(members), [Member(name)] + rest, seen, fuel) == Some(Answer(Missing, seen))
    ensures LookupTy(w, file, TypeLiteral(members), [ArrayHop] + rest, seen, fuel) == Some(Answer(Unknown, seen))
  {
    var path := [Member(name)] + rest;
    assert path[0] == Member(name);
    LiteralIsMember(w, file, members, path, seen, fuel);
    assert FirstProperty(members, name) == |members|;
  }

  /** Two branches of a union agree or leave it unknown; of an intersection one that finds is enough. */
  lemma BranchesCombine(w: World, file: File, a: Ty, b: Ty, path: seq<Step>, seen: Seen, fuel: nat, r: Answer,
                        q: Answer)
    requires path != [] && LookupTy(w, file, a, path, seen, fuel) == Some(r)
    requires LookupTy(w, file, b, path, r.seen, fuel) == Some(q)
    ensures LookupTy(w, file, Union(a, [b]), path, seen, fuel)
         == Some(Answer(if r.verdict == q.verdict then r.verdict else Unknown, q.seen))
    ensures LookupTy(w, file, Intersection([a, b]), path, seen, fuel)
         == Some(Answer(if r.verdict == Found || q.verdict == Found then Found
                        else if r.verdict == Missing && q.verdict == Missing then Missing
                        else Unknown, q.seen))
  {
    OnePart(w, file, b, path, r.seen, fuel, q);
    assert [a, b][1..] == [b];
    assert LookupEach(w, file, [a, b], path, seen, fuel) == Some(Answers([r.verdict] + [q.verdict], q.seen));
    TwoVerdicts(r.verdict, q.verdict);
    EachCombines(w, file, [a, b], path, seen, fuel, Answers([r.verdict] + [q.verdict], q.seen));
  }

  lemma EachCombines(w: World, file: File, parts: seq<Ty>, path: seq<Step>, seen: Seen, fuel: nat, rs: Answers)
    requires path != [] && LookupEach(w, file, parts, path, seen, fuel) == Some(rs)
    ensures LookupTy(w, file, Intersection(parts), path, seen, fuel) == Some(Answer(Combine(rs.verdicts), rs.seen))
  {
  }

  lemma TwoVerdicts(v: Verdict, u: Verdict)
    ensures Combine([v] + [u]) == if v == Found || u == Found then Found
                                  else if v == Missing && u == Missing then Missing else Unknown
    ensures Agree([v] + [u]) == if v == u then v else Unknown
  {
    var vs := [v] + [u];
    assert vs[0] == v && vs[1] == u;
    assert forall x :: x in vs <==> x == v || x == u;
    AgreeIs(v, [u]);
    assert [u][0] == u;
  }

  lemma OnePart(w: World, file: File, b: Ty, path: seq<Step>, seen: Seen, fuel: nat, q: Answer)
    requires LookupTy(w, file, b, path, seen, fuel) == Some(q)
    ensures LookupEach(w, file, [b], path, seen, fuel) == Some(Answers([q.verdict], q.seen))
  {
    assert [b][1..] == [] && [q.verdict] + [] == [q.verdict];
  }

  // ----- declarations

  /** An alias stands for its type, an enum is out of reach, and so is an array hop into an interface. */
  lemma DeclarationsByKind(w: World, key: Key, path: seq<Step>, seen: Seen, fuel: nat)
    requires key in w.decls && path != [] && (key, |path|) !in seen
    ensures w.decls[key].Alias? ==>
              LookupDecl(w, key, path, seen, fuel)
              == LookupTy(w, key.file, w.decls[key].ty, path, seen + {(key, |path|)}, fuel)
    ensures w.decls[key].Enum? ==> LookupDecl(w, key, path, seen, fuel) == Some(Answer(Unknown, seen))
    ensures w.decls[key].Interface? && path[0].ArrayHop? ==>
              LookupDecl(w, key, path, seen, fuel) == Some(Answer(Unknown, seen + {(key, |path|)}))
  {
    DeclIsBody(w, key, path, seen, fuel);
  }

  /** An own property decides. */
  lemma OwnPropertyDecides(w: World, key: Key, path: seq<Step>, seen: Seen, fuel: nat, i: nat)
    requires key in w.decls && w.decls[key].Interface? && path != [] && (key, |path|) !in seen
             && i < |w.decls[key].members|
    requires var m := w.decls[key].members[i]; (m.Property? || m.UntypedProperty?) && path[0] == Member(m.name)
    ensures LookupDecl(w, key, path, seen, fuel)
         == LookupTy(w, key.file, TypeLiteral(w.decls[key].members), path, seen + {(key, |path|)}, fuel)
  {
    DeclIsBody(w, key, path, seen, fuel);
  }

  /** An interface without the property and without bases lacks it; with one base, that decides. */
  lemma BasesDecide(w: World, key: Key, path: seq<Step>, seen: Seen, fuel: nat)
    requires key in w.decls && w.decls[key].Interface? && path != [] && path[0].Member? && (key, |path|) !in seen
    requires forall j | 0 <= j < |w.decls[key].members| ::
               var m := w.decls[key].members[j];
               (m.Property? || m.UntypedProperty?) ==> path[0] != Member(m.name)
    ensures w.decls[key].bases == [] ==>
              LookupDecl(w, key, path, seen, fuel) == Some(Answer(Missing, seen + {(key, |path|)}))
    ensures w.decls[key].bases == [None] ==>
              LookupDecl(w, key, path, seen, fuel) == Some(Answer(Unknown, seen + {(key, |path|)}))
    ensures |w.decls[key].bases| == 1 && w.decls[key].bases[0].Some? ==>
              LookupDecl(w, key, path, seen, fuel)
              == LookupName(w, key.file, w.decls[key].bases[0].value, path, seen + {(key, |path|)}, fuel)
  {
    var d := w.decls[key];
    assert FirstProperty(d.members, path[0].name) == |d.members|;
    DeclIsBody(w, key, path, seen, fuel);
    if |d.bases| == 1 {
      OneBase(w, key.file, d.bases, path, seen + {(key, |path|)}, fuel);
    }
  }

  lemma OneBase(w: World, file: File, bases: seq<Option<Name>>, path: seq<Step>, seen: Seen, fuel: nat)
    requires |bases| == 1
    ensures LookupBase(w, file, bases[0], path, seen, fuel).None?
            ==> LookupBases(w, file, bases, path, seen, fuel).None?
    ensures LookupBase(w, file, bases[0], path, seen, fuel).Some? ==>
              var r := LookupBase(w, file, bases[0], path, seen, fuel).value;
              LookupBases(w, file, bases, path, seen, fuel) == Some(Answers([r.verdict], r.seen))
              && Combine([r.verdict]) == r.verdict
  {
    assert bases[1..] == [];
    if LookupBase(w, file, bases[0], path, seen, fuel).Some? {
      BasesCons(w, file, bases, path, seen, fuel);
      var v := LookupBase(w, file, bases[0], path, seen, fuel).value.verdict;
      assert [v] + [] == [v] && v in [v];
    }
  }

  /** A declaration entered before with a path of this length is not entered again. */
  lemma GuardStopsReentry(w: World, key: Key, path: seq<Step>, seen: Seen, fuel: nat)
    requires key in w.decls && path != [] && (key, |path|) in seen
    ensures LookupDecl(w, key, path, seen, fuel) == Some(Answer(Unknown, seen))
  {
  }
}
