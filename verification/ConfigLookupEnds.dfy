/**
 When the presence check comes back: whenever the declarations can be ranked so that literal
 indexed accesses only look downwards, within one hop per declaration and path length.
 */
module ConfigLookupEnds {
  import opened Wrappers
  import opened TypeWorld
  import opened ConfigLookup

  // ----- fuel only decides whether there is an answer, never which; and the guard only grows

  lemma {:induction false} MoreFuelTy(w: World, file: File, ty: Ty, steps: seq<Step>, seen: Seen, fuel: nat, more: nat)
    requires LookupTy(w, file, ty, steps, seen, fuel).Some? && fuel <= more
    ensures LookupTy(w, file, ty, steps, seen, more) == LookupTy(w, file, ty, steps, seen, fuel)
    ensures seen <= LookupTy(w, file, ty, steps, seen, fuel).value.seen
    decreases fuel, 1, ty
  {
    if steps != [] {
      if ty.TypeLiteral? {
        if steps[0].Member? {
          MoreFuelMember(w, file, ty.members, steps, seen, fuel, more);
        }
      } else if ty.Intersection? {
        MoreFuelEach(w, file, ty.parts, steps, seen, fuel, more);
      } else if ty.Union? {
        MoreFuelTy(w, file, ty.first, steps, seen, fuel, more);
        MoreFuelEach(w, file, ty.others, steps, LookupTy(w, file, ty.first, steps, seen, fuel).value.seen, fuel, more);
      } else if Inner(ty).Some? {
        if PathInto(ty, steps).Some? {
          MoreFuelTy(w, file, Inner(ty).value, PathInto(ty, steps).value, seen, fuel, more);
        }
      } else if NameIn(ty).Some? {
        MoreFuelName(w, file, NameIn(ty).value, steps, seen, fuel, more);
      }
    }
  }

  lemma {:induction false} MoreFuelMember(w: World, file: File, members: seq<TypeElement>, steps: seq<Step>, seen: Seen,
                                          fuel: nat, more: nat)
    requires steps != [] && steps[0].Member? && LookupMember(w, file, members, steps, seen, fuel).Some? && fuel <= more
    ensures LookupMember(w, file, members, steps, seen, more) == LookupMember(w, file, members, steps, seen, fuel)
    ensures seen <= LookupMember(w, file, members, steps, seen, fuel).value.seen
    decreases fuel, 1, members
  {
    var i := FirstProperty(members, steps[0].name);
    if i < |members| {
      MoreFuelProperty(w, file, members[i], steps[1..], seen, fuel, more);
    }
  }

  lemma {:induction false} MoreFuelProperty(w: World, file: File, m: TypeElement, rest: seq<Step>, seen: Seen,
                                            fuel: nat, more: nat)
    requires IsProperty(m) && LookupProperty(w, file, m, rest, seen, fuel).Some? && fuel <= more
    ensures LookupProperty(w, file, m, rest, seen, more) == LookupProperty(w, file, m, rest, seen, fuel)
    ensures seen <= LookupProperty(w, file, m, rest, seen, fuel).value.seen
    decreases fuel, 1, m
  {
    if rest != [] && m.Property? {
      MoreFuelTy(w, file, m.ty, rest, seen, fuel, more);
    }
  }

  lemma {:induction false} MoreFuelEach(w: World, file: File, parts: seq<Ty>, steps: seq<Step>, seen: Seen,
                                        fuel: nat, more: nat)
    requires LookupEach(w, file, parts, steps, seen, fuel).Some? && fuel <= more
    ensures LookupEach(w, file, parts, steps, seen, more) == LookupEach(w, file, parts, steps, seen, fuel)
    ensures seen <= LookupEach(w, file, parts, steps, seen, fuel).value.seen
    decreases fuel, 1, parts
  {
    if parts != [] {
      MoreFuelTy(w, file, parts[0], steps, seen, fuel, more);
      MoreFuelEach(w, file, parts[1..], steps, LookupTy(w, file, parts[0], steps, seen, fuel).value.seen, fuel, more);
    }
  }

  lemma {:induction false} MoreFuelName(w: World, file: File, name: Name, steps: seq<Step>, seen: Seen, fuel: nat,
                                        more: nat)
    requires LookupName(w, file, name, steps, seen, fuel).Some? && fuel <= more
    ensures LookupName(w, file, name, steps, seen, more) == LookupName(w, file, name, steps, seen, fuel)
    ensures seen <= LookupName(w, file, name, steps, seen, fuel).value.seen
    decreases fuel, 0
  {
    if Resolve(w, file, name).Some? {
      MoreFuelDecl(w, Resolve(w, file, name).value, steps, seen, fuel - 1, more - 1);
    }
  }

  lemma {:induction false} MoreFuelDecl(w: World, key: Key, steps: seq<Step>, seen: Seen, fuel: nat, more: nat)
    requires key in w.decls && LookupDecl(w, key, steps, seen, fuel).Some? && fuel <= more
    ensures LookupDecl(w, key, steps, seen, more) == LookupDecl(w, key, steps, seen, fuel)
    ensures seen <= LookupDecl(w, key, steps, seen, fuel).value.seen
    decreases fuel, 3
  {
    if steps != [] && (key, |steps|) !in seen && !w.decls[key].Enum? {
      MoreFuelBody(w, key, steps, seen + {(key, |steps|)}, fuel, more);
    }
  }

  lemma {:induction false} MoreFuelBody(w: World, key: Key, steps: seq<Step>, seen: Seen, fuel: nat, more: nat)
    requires key in w.decls && !w.decls[key].Enum? && steps != []
    requires LookupBody(w, key, steps, seen, fuel).Some? && fuel <= more
    ensures LookupBody(w, key, steps, seen, more) == LookupBody(w, key, steps, seen, fuel)
    ensures seen <= LookupBody(w, key, steps, seen, fuel).value.seen
    decreases fuel, 2
  {
    var d := w.decls[key];
    if d.Alias? {
      MoreFuelTy(w, key.file, d.ty, steps, seen, fuel, more);
    } else if steps[0].Member? {
      if FirstProperty(d.members, steps[0].name) < |d.members| {
        MoreFuelMember(w, key.file, d.members, steps, seen, fuel, more);
      } else {
        MoreFuelBases(w, key.file, d.bases, steps, seen, fuel, more);
      }
    }
  }

  lemma {:induction false} MoreFuelBases(w: World, file: File, bases: seq<Option<Name>>, steps: seq<Step>, seen: Seen,
                                         fuel: nat, more: nat)
    requires LookupBases(w, file, bases, steps, seen, fuel).Some? && fuel <= more
    ensures LookupBases(w, file, bases, steps, seen, more) == LookupBases(w, file, bases, steps, seen, fuel)
    ensures seen <= LookupBases(w, file, bases, steps, seen, fuel).value.seen
    decreases fuel, 1, bases
  {
    if bases != [] {
      if bases[0].Some? {
        MoreFuelName(w, file, bases[0].value, steps, seen, fuel, more);
      }
      MoreFuelBases(w, file, bases[1..], steps, LookupBase(w, file, bases[0], steps, seen, fuel).value.seen, fuel,
        more);
    }
  }

  // ----- ranked declarations

  /** A height for every declaration, and a bound on how deep literal indexed accesses nest in one. */
  datatype Ranking = Ranking(height: map<Key, nat>, depth: nat)

  /**
   A place inside a declaration of height `top`: whether it lies in the target of a literal indexed access, and
   how many more of them it may contain.
   */
  datatype Place = Place(file: File, top: nat, inside: bool, left: nat)

  /**
   Inside a target only declarations lower by the whole nesting depth may be named, elsewhere none that are
   higher.
   */
  predicate Below(k: Ranking, at: Place, key: Key) {
    key in k.height && k.height[key] + (if at.inside then k.depth else 0) <= at.top
  }

  predicate NameBelow(w: World, k: Ranking, at: Place, name: Name) {
    Resolve(w, at.file, name).Some? ==> Below(k, at, Resolve(w, at.file, name).value)
  }

  ghost predicate BasesBelow(w: World, k: Ranking, at: Place, bases: seq<Option<Name>>) {
    forall i | 0 <= i < |bases| && bases[i].Some? :: NameBelow(w, k, at, bases[i].value)
  }

  lemma RestBelow(w: World, k: Ranking, at: Place, bases: seq<Option<Name>>)
    requires bases != [] && BasesBelow(w, k, at, bases)
    ensures bases[0].Some? ==> NameBelow(w, k, at, bases[0].value)
    ensures BasesBelow(w, k, at, bases[1..])
  {
  }

  predicate OpensTarget(ty: Ty) {
    ty.IndexedAccess? && ty.index.Some?
  }

  ghost predicate RankedTy(w: World, k: Ranking, at: Place, ty: Ty)
    decreases ty
  {
    match ty
    case TypeLiteral(members) => forall i | 0 <= i < |members| :: RankedElement(w, k, at, members[i])
    case Intersection(parts) => forall i | 0 <= i < |parts| :: RankedTy(w, k, at, parts[i])
    case Union(first, others) => RankedTy(w, k, at, first) && forall i | 0 <= i < |others| ::
      RankedTy(w, k, at, others[i])
    case _ =>
      && (OpensTarget(ty) ==> at.left > 0)
      && (Inner(ty).Some? ==> RankedTy(w, k, Within(at, ty), Inner(ty).value))
      && (NameIn(ty).Some? ==> NameBelow(w, k, at, NameIn(ty).value))
  }

  ghost predicate RankedElement(w: World, k: Ranking, at: Place, m: TypeElement)
    decreases m
  {
    m.Property? ==> RankedTy(w, k, at, m.ty)
  }

  /** The place of the node a wrapping node leads to. */
  function Within(at: Place, ty: Ty): Place {
    if OpensTarget(ty) && at.left > 0 then at.(inside := true, left := at.left - 1) else at
  }

  function PlaceOf(k: Ranking, key: Key): Place
    requires key in k.height
  {
    Place(key.file, k.height[key], false, k.depth)
  }

  ghost predicate RankedDecl(w: World, k: Ranking, key: Key)
    requires key in w.decls && key in k.height
  {
    match w.decls[key]
    case Interface(members, bases, _) =>
      && (forall i | 0 <= i < |members| :: RankedElement(w, k, PlaceOf(k, key), members[i]))
      && BasesBelow(w, k, PlaceOf(k, key), bases)
    case Alias(ty) => RankedTy(w, k, PlaceOf(k, key), ty)
    case Enum => true
  }

  ghost predicate RankedWorld(w: World, k: Ranking) {
    forall key | key in w.decls :: key in k.height && RankedDecl(w, k, key)
  }

  /** However a lookup goes on from here, no declaration is entered with a path longer than `longest`. */
  predicate Room(k: Ranking, at: Place, steps: seq<Step>, longest: nat) {
    at.left <= k.depth && |steps| + at.top + (if at.inside then at.left - k.depth else 0) <= longest
  }

  lemma RoomWithin(k: Ranking, at: Place, ty: Ty, steps: seq<Step>, longest: nat)
    requires Room(k, at, steps, longest) && steps != [] && Inner(ty).Some? && PathInto(ty, steps).Some?
    requires OpensTarget(ty) ==> at.left > 0
    ensures Room(k, Within(at, ty), PathInto(ty, steps).value, longest)
  {
  }

  lemma RoomBelow(k: Ranking, at: Place, key: Key, steps: seq<Step>, longest: nat)
    requires Room(k, at, steps, longest) && Below(k, at, key)
    ensures |steps| + k.height[key] <= longest
  {
  }

  // ----- the guard bounds the hops

  /** Every (declaration, path length) pair a lookup can enter if no path grows beyond `longest` steps. */
  ghost function Pairs(w: World, longest: nat): Seen {
    set key, n | key in w.decls.Keys && 1 <= n <= longest :: (key, n)
  }

  ghost function Unseen(w: World, longest: nat, seen: Seen): nat {
    |Pairs(w, longest) - seen|
  }

  lemma {:induction false} SubsetIsSmaller<T>(a: set<T>, b: set<T>)
    requires a <= b
    ensures |a| <= |b|
  {
    if x :| x in a {
      SubsetIsSmaller(a - {x}, b - {x});
    }
  }

  lemma UnseenShrinks(w: World, longest: nat, seen: Seen, key: Key, n: nat)
    requires key in w.decls && 1 <= n <= longest && (key, n) !in seen
    ensures Unseen(w, longest, seen + {(key, n)}) < Unseen(w, longest, seen)
  {
    var rest := Pairs(w, longest) - seen;
    assert (key, n) in rest;
    assert Pairs(w, longest) - (seen + {(key, n)}) == rest - {(key, n)};
  }

  lemma UnseenMonotone(w: World, longest: nat, seen: Seen, later: Seen)
    requires seen <= later
    ensures Unseen(w, longest, later) <= Unseen(w, longest, seen)
  {
    SubsetIsSmaller(Pairs(w, longest) - later, Pairs(w, longest) - seen);
  }

  lemma {:induction false} TyEnds(w: World, k: Ranking, longest: nat, at: Place, ty: Ty, steps: seq<Step>, seen: Seen,
                                  fuel: nat)
    requires RankedWorld(w, k) && RankedTy(w, k, at, ty) && Room(k, at, steps, longest)
             && fuel > Unseen(w, longest, seen)
    ensures LookupTy(w, at.file, ty, steps, seen, fuel).Some?
    ensures seen <= LookupTy(w, at.file, ty, steps, seen, fuel).value.seen
    decreases fuel, 1, ty
  {
    if steps != [] {
      if ty.TypeLiteral? {
        if steps[0].Member? {
          MemberEnds(w, k, longest, at, ty.members, steps, seen, fuel);
        }
      } else if ty.Intersection? {
        EachEnds(w, k, longest, at, ty.parts, steps, seen, fuel);
      } else if ty.Union? {
        UnionEnds(w, k, longest, at, ty.first, ty.others, steps, seen, fuel);
      } else if Inner(ty).Some? {
        if PathInto(ty, steps).Some? {
          WrappedEnds(w, k, longest, at, ty, steps, seen, fuel);
        }
      } else if NameIn(ty).Some? {
        NameEnds(w, k, longest, at, NameIn(ty).value, steps, seen, fuel);
      }
    }
  }

  lemma {:induction false} WrappedEnds(w: World, k: Ranking, longest: nat, at: Place, ty: Ty, steps: seq<Step>,
                                       seen: Seen, fuel: nat)
    requires RankedWorld(w, k) && RankedTy(w, k, at, ty) && steps != [] && Inner(ty).Some? && PathInto(ty, steps).Some?
    requires Room(k, at, steps, longest) && fuel > Unseen(w, longest, seen)
    ensures LookupTy(w, at.file, ty, steps, seen, fuel).Some?
    ensures seen <= LookupTy(w, at.file, ty, steps, seen, fuel).value.seen
    decreases fuel, 1, ty, 0
  {
    RoomWithin(k, at, ty, steps, longest);
    TyIsInner(w, at.file, ty, steps, seen, fuel);
    TyEnds(w, k, longest, Within(at, ty), Inner(ty).value, PathInto(ty, steps).value, seen, fuel);
  }

  lemma {:induction false} UnionEnds(w: World, k: Ranking, longest: nat, at: Place, first: Ty, others: seq<Ty>,
                                     steps: seq<Step>, seen: Seen, fuel: nat)
    requires RankedWorld(w, k) && RankedTy(w, k, at, Union(first, others)) && steps != []
    requires Room(k, at, steps, longest) && fuel > Unseen(w, longest, seen)
    ensures LookupTy(w, at.file, Union(first, others), steps, seen, fuel).Some?
    ensures seen <= LookupTy(w, at.file, Union(first, others), steps, seen, fuel).value.seen
    decreases fuel, 1, Union(first, others), 0
  {
    TyEnds(w, k, longest, at, first, steps, seen, fuel);
    var r := LookupTy(w, at.file, first, steps, seen, fuel).value;
    UnseenMonotone(w, longest, seen, r.seen);
    EachEnds(w, k, longest, at, others, steps, r.seen, fuel);
  }

  lemma {:induction false} MemberEnds(w: World, k: Ranking, longest: nat, at: Place, members: seq<TypeElement>,
                                      steps: seq<Step>, seen: Seen, fuel: nat)
    requires RankedWorld(w, k) && (forall i | 0 <= i < |members| :: RankedElement(w, k, at, members[i]))
    requires steps != [] && steps[0].Member? && Room(k, at, steps, longest) && fuel > Unseen(w, longest, seen)
    ensures LookupMember(w, at.file, members, steps, seen, fuel).Some?
    ensures seen <= LookupMember(w, at.file, members, steps, seen, fuel).value.seen
    decreases fuel, 1, members
  {
    var i := FirstProperty(members, steps[0].name);
    if i < |members| {
      assert RankedElement(w, k, at, members[i]);
      PropertyEnds(w, k, longest, at, members[i], steps[1..], seen, fuel);
    }
  }

  lemma {:induction false} PropertyEnds(w: World, k: Ranking, longest: nat, at: Place, m: TypeElement,
                                        rest: seq<Step>, seen: Seen, fuel: nat)
    requires RankedWorld(w, k) && RankedElement(w, k, at, m) && IsProperty(m)
    requires Room(k, at, rest, longest) && fuel > Unseen(w, longest, seen)
    ensures LookupProperty(w, at.file, m, rest, seen, fuel).Some?
    ensures seen <= LookupProperty(w, at.file, m, rest, seen, fuel).value.seen
    decreases fuel, 1, m
  {
    if rest != [] && m.Property? {
      TyEnds(w, k, longest, at, m.ty, rest, seen, fuel);
    }
  }

  lemma {:induction false} EachEnds(w: World, k: Ranking, longest: nat, at: Place, parts: seq<Ty>,
                                    steps: seq<Step>, seen: Seen, fuel: nat)
    requires RankedWorld(w, k) && (forall i | 0 <= i < |parts| :: RankedTy(w, k, at, parts[i]))
    requires Room(k, at, steps, longest) && fuel > Unseen(w, longest, seen)
    ensures LookupEach(w, at.file, parts, steps, seen, fuel).Some?
    ensures seen <= LookupEach(w, at.file, parts, steps, seen, fuel).value.seen
    decreases fuel, 1, parts
  {
    if parts != [] {
      TyEnds(w, k, longest, at, parts[0], steps, seen, fuel);
      var r := LookupTy(w, at.file, parts[0], steps, seen, fuel).value;
      UnseenMonotone(w, longest, seen, r.seen);
      EachEnds(w, k, longest, at, parts[1..], steps, r.seen, fuel);
    }
  }

  lemma {:induction false} NameEnds(w: World, k: Ranking, longest: nat, at: Place, name: Name,
                                    steps: seq<Step>, seen: Seen, fuel: nat)
    requires RankedWorld(w, k) && NameBelow(w, k, at, name)
    requires Room(k, at, steps, longest) && fuel > Unseen(w, longest, seen)
    ensures LookupName(w, at.file, name, steps, seen, fuel).Some?
    ensures seen <= LookupName(w, at.file, name, steps, seen, fuel).value.seen
    decreases fuel, 0
  {
    if Resolve(w, at.file, name).Some? {
      var key := Resolve(w, at.file, name).value;
      RoomBelow(k, at, key, steps, longest);
      KnownNameEnds(w, k, longest, at.file, name, key, steps, seen, fuel);
    }
  }

  lemma {:induction false} KnownNameEnds(w: World, k: Ranking, longest: nat, file: File, name: Name, key: Key,
                                         steps: seq<Step>, seen: Seen, fuel: nat)
    requires RankedWorld(w, k) && Resolve(w, file, name) == Some(key) && |steps| + k.height[key] <= longest
    requires fuel > Unseen(w, longest, seen)
    ensures LookupName(w, file, name, steps, seen, fuel).Some?
    ensures seen <= LookupName(w, file, name, steps, seen, fuel).value.seen
    decreases fuel - 1, 5
  {
    DeclEnds(w, k, longest, key, steps, seen, fuel - 1);
    NameEndsAsDecl(w, file, name, key, steps, seen, fuel - 1);
  }

  lemma NameEndsAsDecl(w: World, file: File, name: Name, key: Key, steps: seq<Step>, seen: Seen, less: nat)
    requires Resolve(w, file, name) == Some(key) && LookupDecl(w, key, steps, seen, less).Some?
    ensures LookupName(w, file, name, steps, seen, less + 1) == LookupDecl(w, key, steps, seen, less)
  {
  }

  lemma {:induction false} DeclEnds(w: World, k: Ranking, longest: nat, key: Key, steps: seq<Step>, seen: Seen,
                                    fuel: nat)
    requires RankedWorld(w, k) && key in w.decls && |steps| + k.height[key] <= longest
             && fuel >= Unseen(w, longest, seen)
    ensures LookupDecl(w, key, steps, seen, fuel).Some?
    ensures seen <= LookupDecl(w, key, steps, seen, fuel).value.seen
    decreases fuel, 4
  {
    if steps != [] && (key, |steps|) !in seen && !w.decls[key].Enum? {
      UnseenShrinks(w, longest, seen, key, |steps|);
      BodyEnds(w, k, longest, key, steps, seen + {(key, |steps|)}, fuel);
      DeclIsBody(w, key, steps, seen, fuel);
    }
  }

  lemma {:induction false} BodyEnds(w: World, k: Ranking, longest: nat, key: Key, steps: seq<Step>, entered: Seen,
                                    fuel: nat)
    requires RankedWorld(w, k) && key in w.decls && !w.decls[key].Enum? && steps != []
    requires |steps| + k.height[key] <= longest && fuel > Unseen(w, longest, entered)
    ensures LookupBody(w, key, steps, entered, fuel).Some?
    ensures entered <= LookupBody(w, key, steps, entered, fuel).value.seen
    decreases fuel, 3
  {
    var d, at := w.decls[key], PlaceOf(k, key);
    assert RankedDecl(w, k, key);
    if d.Alias? {
      TyEnds(w, k, longest, at, d.ty, steps, entered, fuel);
    } else if steps[0].Member? {
      if FirstProperty(d.members, steps[0].name) < |d.members| {
        MemberEnds(w, k, longest, at, d.members, steps, entered, fuel);
      } else {
        BasesEnd(w, k, longest, at, d.bases, steps, entered, fuel);
      }
    }
  }

  lemma {:induction false} BaseEnds(w: World, k: Ranking, longest: nat, at: Place, base: Option<Name>,
                                    steps: seq<Step>, seen: Seen, fuel: nat)
    requires RankedWorld(w, k) && (base.Some? ==> NameBelow(w, k, at, base.value))
    requires Room(k, at, steps, longest) && fuel > Unseen(w, longest, seen)
    ensures LookupBase(w, at.file, base, steps, seen, fuel).Some?
    ensures seen <= LookupBase(w, at.file, base, steps, seen, fuel).value.seen
    decreases fuel, 1
  {
    if base.Some? {
      NameEnds(w, k, longest, at, base.value, steps, seen, fuel);
    }
  }

  lemma {:induction false} BasesEnd(w: World, k: Ranking, longest: nat, at: Place, bases: seq<Option<Name>>,
                                    steps: seq<Step>, seen: Seen, fuel: nat)
    requires RankedWorld(w, k) && BasesBelow(w, k, at, bases)
    requires Room(k, at, steps, longest) && fuel > Unseen(w, longest, seen)
    ensures LookupBases(w, at.file, bases, steps, seen, fuel).Some?
    ensures seen <= LookupBases(w, at.file, bases, steps, seen, fuel).value.seen
    decreases fuel, 2, bases
  {
    if bases != [] {
      RestBelow(w, k, at, bases);
      BaseEnds(w, k, longest, at, bases[0], steps, seen, fuel);
      var r := LookupBase(w, at.file, bases[0], steps, seen, fuel).value;
      UnseenMonotone(w, longest, seen, r.seen);
      BasesEnd(w, k, longest, at, bases[1..], steps, r.seen, fuel);
      BasesCons(w, at.file, bases, steps, seen, fuel);
    }
  }

  /**
   One hop per declaration and path length is always enough, where a path can grow by the height of the first
   declaration at most; and then the answer is fixed.
   */
  lemma RankedLookupEnds(w: World, k: Ranking, key: Key, steps: seq<Step>, fuel: nat)
    requires RankedWorld(w, k) && key in w.decls && fuel >= |Pairs(w, |steps| + k.height[key])|
    ensures LookupDecl(w, key, steps, {}, fuel).Some?
    ensures LookupDecl(w, key, steps, {}, fuel) == LookupDecl(w, key, steps, {}, |Pairs(w, |steps| + k.height[key])|)
  {
    var longest := |steps| + k.height[key];
    assert Pairs(w, longest) - {} == Pairs(w, longest);
    DeclEnds(w, k, longest, key, steps, {}, |Pairs(w, longest)|);
    MoreFuelDecl(w, key, steps, {}, |Pairs(w, longest)|, fuel);
  }
}
