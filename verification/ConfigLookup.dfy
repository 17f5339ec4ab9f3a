/**
 `lookupPath`: the three-valued presence check of a schema key path against a declared
 config type, with the one `seen` set all its branches share. `Present` and `Absent` say
 what a type declares, by the rules of the language; both are indexed by the number of
 declaration hops a derivation may use.
 */
module ConfigLookup {
  import opened Wrappers
  import opened TypeWorld

  datatype Verdict = Found | Missing | Unknown

  /** The guard: declarations already entered, with the path length they were entered at. */
  type Seen = set<(Key, nat)>

  datatype Answer = Answer(verdict: Verdict, seen: Seen)
  datatype Answers = Answers(verdicts: seq<Verdict>, seen: Seen)

  /** Any found wins, else any unknown taints, else missing. */
  function Combine(verdicts: seq<Verdict>): Verdict {
    if Found in verdicts then Found else if Unknown in verdicts then Unknown else Missing
  }

  /** Presence on a union is definite only when every branch agrees. */
  function Agree(verdicts: seq<Verdict>): Verdict {
    if forall v | v in verdicts :: v == Found then Found
    else if forall v | v in verdicts :: v == Missing then Missing
    else Unknown
  }

  // ----- the lookup; `None` means that the declaration hops exceeded `fuel`

  function LookupTy(w: World, file: File, ty: Ty, steps: seq<Step>, seen: Seen, fuel: nat): Option<Answer>
    decreases fuel, 1, ty
  {
    if steps == [] then Some(Answer(Found, seen))
    else match ty
      case TypeLiteral(members) =>
        if steps[0].ArrayHop? then Some(Answer(Unknown, seen))
        else LookupMember(w, file, members, steps, seen, fuel)
      case Intersection(parts) =>
        var rs := LookupEach(w, file, parts, steps, seen, fuel);
        if rs.None? then None else Some(Answer(Combine(rs.value.verdicts), rs.value.seen))
      case Union(first, others) =>
        var r := LookupTy(w, file, first, steps, seen, fuel);
        if r.None? then None
        else
          var rs := LookupEach(w, file, others, steps, r.value.seen, fuel);
          if rs.None? then None
          else Some(Answer(Agree([r.value.verdict] + rs.value.verdicts), rs.value.seen))
      case _ =>
        if Inner(ty).Some? then
          if PathInto(ty, steps).Some? then LookupTy(w, file, Inner(ty).value, PathInto(ty, steps).value, seen, fuel)
          else Some(Answer(Unknown, seen))
        else if NameIn(ty).Some? then LookupName(w, file, NameIn(ty).value, steps, seen, fuel)
        else Some(Answer(Unknown, seen))
  }

  /** `intoMembers` on a list that is all there is to consult. */
  function LookupMember(w: World, file: File, members: seq<TypeElement>, steps: seq<Step>, seen: Seen, fuel: nat)
    : Option<Answer>
    requires steps != [] && steps[0].Member?
    decreases fuel, 1, members
  {
    var i := FirstProperty(members, steps[0].name);
    if i == |members| then Some(Answer(Missing, seen))
    else LookupProperty(w, file, members[i], steps[1..], seen, fuel)
  }

  /** The rest of the path continues in the property's own type. */
  function LookupProperty(w: World, file: File, m: TypeElement, rest: seq<Step>, seen: Seen, fuel: nat): Option<Answer>
    requires IsProperty(m)
    decreases fuel, 1, m
  {
    if rest == [] then Some(Answer(Found, seen))
    else if m.UntypedProperty? then Some(Answer(Unknown, seen))
    else LookupTy(w, file, m.ty, rest, seen, fuel)
  }

  /** Evaluate a list of parts left to right, each continuing with the guard the last one left. */
  function LookupEach(w: World, file: File, parts: seq<Ty>, steps: seq<Step>, seen: Seen, fuel: nat): Option<Answers>
    decreases fuel, 1, parts
  {
    if parts == [] then Some(Answers([], seen))
    else
      var r := LookupTy(w, file, parts[0], steps, seen, fuel);
      if r.None? then None
      else
        var rs := LookupEach(w, file, parts[1..], steps, r.value.seen, fuel);
        if rs.None? then None else Some(Answers([r.value.verdict] + rs.value.verdicts, rs.value.seen))
  }

  function LookupName(w: World, file: File, name: Name, steps: seq<Step>, seen: Seen, fuel: nat): Option<Answer>
    decreases fuel, 0
  {
    match Resolve(w, file, name)
    case None => Some(Answer(Unknown, seen))
    case Some(key) => if fuel == 0 then None else LookupDecl(w, key, steps, seen, fuel - 1)
  }

  function LookupDecl(w: World, key: Key, steps: seq<Step>, seen: Seen, fuel: nat): Option<Answer>
    requires key in w.decls
    decreases fuel, 4
  {
    if steps == [] then Some(Answer(Found, seen))
    else if w.decls[key].Enum? || (key, |steps|) in seen then Some(Answer(Unknown, seen))
    else LookupBody(w, key, steps, seen + {(key, |steps|)}, fuel)
  }

  /** Own members decide; only a name they lack is looked up in the bases. Merged declarations are not consulted. */
  function LookupBody(w: World, key: Key, steps: seq<Step>, seen: Seen, fuel: nat): Option<Answer>
    requires key in w.decls && !w.decls[key].Enum? && steps != []
    decreases fuel, 3
  {
    match w.decls[key]
    case Alias(ty) => LookupTy(w, key.file, ty, steps, seen, fuel)
    case Interface(members, bases, _) =>
      if steps[0].ArrayHop? then Some(Answer(Unknown, seen))
      else if FirstProperty(members, steps[0].name) < |members|
        then LookupMember(w, key.file, members, steps, seen, fuel)
      else
        var rs := LookupBases(w, key.file, bases, steps, seen, fuel);
        if rs.None? then None
        else Some(Answer(if bases == [] then Missing else Combine(rs.value.verdicts), rs.value.seen))
  }

  function LookupBase(w: World, file: File, base: Option<Name>, steps: seq<Step>, seen: Seen, fuel: nat): Option<Answer>
    decreases fuel, 1
  {
    if base.None? then Some(Answer(Unknown, seen)) else LookupName(w, file, base.value, steps, seen, fuel)
  }

  function LookupBases(w: World, file: File, bases: seq<Option<Name>>, steps: seq<Step>, seen: Seen, fuel: nat)
    : Option<Answers>
    decreases fuel, 2, bases
  {
    if bases == [] then Some(Answers([], seen))
    else
      var r := LookupBase(w, file, bases[0], steps, seen, fuel);
      if r.None? then None
      else
        var rs := LookupBases(w, file, bases[1..], steps, r.value.seen, fuel);
        if rs.None? then None else Some(Answers([r.value.verdict] + rs.value.verdicts, rs.value.seen))
  }

  // ----- one step of the lookup

  lemma NameIsDecl(w: World, file: File, name: Name, steps: seq<Step>, seen: Seen, fuel: nat)
    ensures Resolve(w, file, name).None? ==> LookupName(w, file, name, steps, seen, fuel) == Some(Answer(Unknown, seen))
    ensures Resolve(w, file, name).Some? ==>
              LookupName(w, file, name, steps, seen, fuel)
              == if fuel == 0 then None else LookupDecl(w, Resolve(w, file, name).value, steps, seen, fuel - 1)
  {
  }

  lemma DeclIsBody(w: World, key: Key, steps: seq<Step>, seen: Seen, fuel: nat)
    requires key in w.decls && steps != []
    ensures LookupDecl(w, key, steps, seen, fuel)
            == if w.decls[key].Enum? || (key, |steps|) in seen then Some(Answer(Unknown, seen))
               else LookupBody(w, key, steps, seen + {(key, |steps|)}, fuel)
  {
  }

  lemma TyIsInner(w: World, file: File, ty: Ty, steps: seq<Step>, seen: Seen, fuel: nat)
    requires steps != [] && Inner(ty).Some? && PathInto(ty, steps).Some?
    ensures LookupTy(w, file, ty, steps, seen, fuel)
            == LookupTy(w, file, Inner(ty).value, PathInto(ty, steps).value, seen, fuel)
  {
  }

  lemma BasesCons(w: World, file: File, bases: seq<Option<Name>>, steps: seq<Step>, seen: Seen, fuel: nat)
    requires bases != [] && LookupBase(w, file, bases[0], steps, seen, fuel).Some?
    requires LookupBases(w, file, bases[1..], steps, LookupBase(w, file, bases[0], steps, seen, fuel).value.seen,
             fuel).Some?
    ensures var r := LookupBase(w, file, bases[0], steps, seen, fuel).value;
            var rs := LookupBases(w, file, bases[1..], steps, r.seen, fuel).value;
            LookupBases(w, file, bases, steps, seen, fuel) == Some(Answers([r.verdict] + rs.verdicts, rs.seen))
  {
  }

  /** One name in one list of members. */
  lemma OneMember(w: World, file: File, members: seq<TypeElement>, name: Name, seen: Seen, fuel: nat)
    ensures LookupMember(w, file, members, [Member(name)], seen, fuel)
            == Some(Answer(if FirstProperty(members, name) < |members| then Found else Missing, seen))
  {
    assert [Member(name)][1..] == [];
  }

  // ----- what a type declares

  ghost predicate PresentTy(w: World, file: File, ty: Ty, steps: seq<Step>, n: nat)
    decreases n, 1, ty
  {
    steps == [] || match ty
      case TypeLiteral(members) => steps[0].Member? && PresentMember(w, file, members, steps, n)
      case Intersection(parts) => exists i :: 0 <= i < |parts| && PresentTy(w, file, parts[i], steps, n)
      case Union(first, others) =>
        && PresentTy(w, file, first, steps, n)
        && forall i | 0 <= i < |others| :: PresentTy(w, file, others[i], steps, n)
      case KeyOf(_) => false
      case _ =>
        if Inner(ty).Some? then
          PathInto(ty, steps).Some? && PresentTy(w, file, Inner(ty).value, PathInto(ty, steps).value, n)
        else NameIn(ty).Some? && PresentName(w, file, NameIn(ty).value, steps, n)
  }

  /** A member of the name, of any kind, or a signature that admits every name. */
  ghost predicate PresentMember(w: World, file: File, members: seq<TypeElement>, steps: seq<Step>, n: nat)
    requires steps != [] && steps[0].Member?
    decreases n, 1, members
  {
    var i := FirstDeclared(members, steps[0].name);
    if i < |members| then PresentElement(w, file, members[i], steps[1..], n)
    else
      var j := FirstStringIndex(members);
      j < |members| && PresentElement(w, file, members[j], steps[1..], n)
  }

  /** A member has a type whose own members can be named, or, for a method, nothing more to name. */
  ghost predicate PresentElement(w: World, file: File, m: TypeElement, rest: seq<Step>, n: nat)
    decreases n, 1, m
  {
    rest == [] || ((m.Property? || m.Accessor? || m.StringIndex?) && PresentTy(w, file, m.ty, rest, n))
  }

  ghost predicate PresentName(w: World, file: File, name: Name, steps: seq<Step>, n: nat)
    decreases n, 0
  {
    n > 0 && Resolve(w, file, name).Some? && PresentDecl(w, Resolve(w, file, name).value, steps, n - 1)
  }

  /**
   A member is one of the merged interface's own, or, when it has none of that name, some base's or an index
   signature's.
   */
  ghost predicate PresentDecl(w: World, key: Key, steps: seq<Step>, n: nat)
    requires key in w.decls
    decreases n, 2
  {
    steps == [] || match w.decls[key]
      case Enum => false
      case Alias(ty) => PresentTy(w, key.file, ty, steps, n)
      case Interface(_, _, _) =>
        var d := w.decls[key];
        && steps[0].Member?
        && (PresentMember(w, key.file, AllMembers(d), steps, n)
            || (FirstDeclared(AllMembers(d), steps[0].name) == |AllMembers(d)|
                && exists i :: 0 <= i < |AllBases(d)| && PresentBase(w, key.file, AllBases(d)[i], steps, n)))
  }

  ghost predicate PresentBase(w: World, file: File, base: Option<Name>, steps: seq<Step>, n: nat)
    decreases n, 1
  {
    base.Some? && PresentName(w, file, base.value, steps, n)
  }

  ghost predicate AbsentTy(w: World, file: File, ty: Ty, steps: seq<Step>, n: nat)
    decreases n, 1, ty
  {
    steps != [] && match ty
      case TypeLiteral(members) => steps[0].Member? && AbsentMember(w, file, members, steps, n)
      case Intersection(parts) => forall i | 0 <= i < |parts| :: AbsentTy(w, file, parts[i], steps, n)
      case Union(first, others) =>
        && AbsentTy(w, file, first, steps, n)
        && forall i | 0 <= i < |others| :: AbsentTy(w, file, others[i], steps, n)
      case KeyOf(_) => false
      case _ =>
        if Inner(ty).Some? then
          PathInto(ty, steps).Some? && AbsentTy(w, file, Inner(ty).value, PathInto(ty, steps).value, n)
        else NameIn(ty).Some? && AbsentName(w, file, NameIn(ty).value, steps, n)
  }

  /** No member of the name, and no signature that admits it. */
  ghost predicate AbsentMember(w: World, file: File, members: seq<TypeElement>, steps: seq<Step>, n: nat)
    requires steps != [] && steps[0].Member?
    decreases n, 1, members
  {
    var i := FirstDeclared(members, steps[0].name);
    if i < |members| then AbsentElement(w, file, members[i], steps[1..], n)
    else forall j | 0 <= j < |members| && IsIndex(members[j]) :: AbsentElement(w, file, members[j], steps[1..], n)
  }

  ghost predicate AbsentElement(w: World, file: File, m: TypeElement, rest: seq<Step>, n: nat)
    decreases n, 1, m
  {
    rest != [] && (m.Property? || m.Accessor? || m.StringIndex?) && AbsentTy(w, file, m.ty, rest, n)
  }

  ghost predicate AbsentName(w: World, file: File, name: Name, steps: seq<Step>, n: nat)
    decreases n, 0
  {
    n > 0 && Resolve(w, file, name).Some? && AbsentDecl(w, Resolve(w, file, name).value, steps, n - 1)
  }

  /** A member is absent only when no declaration of the interface has it and every base is known and lacks it. */
  ghost predicate AbsentDecl(w: World, key: Key, steps: seq<Step>, n: nat)
    requires key in w.decls
    decreases n, 2
  {
    steps != [] && match w.decls[key]
      case Enum => false
      case Alias(ty) => AbsentTy(w, key.file, ty, steps, n)
      case Interface(_, _, _) =>
        var d := w.decls[key];
        && steps[0].Member?
        && AbsentMember(w, key.file, AllMembers(d), steps, n)
        && (FirstDeclared(AllMembers(d), steps[0].name) == |AllMembers(d)| ==>
              forall i | 0 <= i < |AllBases(d)| :: AbsentBase(w, key.file, AllBases(d)[i], steps, n))
  }

  ghost predicate AbsentBase(w: World, file: File, base: Option<Name>, steps: seq<Step>, n: nat)
    decreases n, 1
  {
    base.Some? && AbsentName(w, file, base.value, steps, n)
  }

  ghost predicate Present(w: World, key: Key, steps: seq<Step>)
    requires key in w.decls
  {
    exists n: nat :: PresentDecl(w, key, steps, n)
  }

  ghost predicate Absent(w: World, key: Key, steps: seq<Step>)
    requires key in w.decls
  {
    exists n: nat :: AbsentDecl(w, key, steps, n)
  }
}
