/**
 Config type declarations as the schema-path check sees them: type nodes, declarations
 keyed by identity, and name resolution already reduced to a finite table.
 */
module TypeWorld {
  import opened Wrappers

  datatype Name = Name(text: string)
  datatype File = File(abs: string)
  datatype Key = Key(file: File, pos: nat)

  /** One step of a schema key path: a named member, or an array-element hop. */
  datatype Step = Member(name: Name) | ArrayHop

  datatype Ty =
    | TypeLiteral(members: seq<TypeElement>)
    | Parens(inner: Ty)
    | Intersection(parts: seq<Ty>)
    | Union(first: Ty, others: seq<Ty>)
    | ArrayOf(element: Ty)
    | ReadOnly(inner: Ty)
    | KeyOf(inner: Ty)
    | IndexedAccess(target: Ty, index: Option<Name>)
    | Reference(head: Name, qualified: bool, args: seq<Ty>)
    | OtherType

  /**
   An interface or literal member. `StringIndex` is a signature for every name, `PartialIndex` one for
   some names only (numbers, symbols, templates), `Signature` a call or construct signature.
   */
  datatype TypeElement =
    | Property(name: Name, ty: Ty)
    | UntypedProperty(name: Name)
    | Accessor(name: Name, ty: Ty)
    | Method(name: Name)
    | StringIndex(ty: Ty)
    | PartialIndex
    | Signature

  /** One further interface declaration of the same name in the same file. */
  datatype Body = Body(members: seq<TypeElement>, bases: seq<Option<Name>>)

  /**
   A heritage clause names a base, or is an expression the walk cannot resolve (`None`). An interface is
   its first declaration; `merged` are the later ones that the language merges with it.
   */
  datatype Decl =
    | Interface(members: seq<TypeElement>, bases: seq<Option<Name>>, merged: seq<Body>)
    | Alias(ty: Ty)
    | Enum

  datatype World = World(decls: map<Key, Decl>, names: map<(File, Name), Key>)

  /** `declForTypeName`: `None` stands for external or otherwise out of reach. */
  function Resolve(w: World, file: File, name: Name): (key: Option<Key>)
    ensures key.Some? ==> key.value in w.decls
  {
    if (file, name) in w.names && w.names[(file, name)] in w.decls then Some(w.names[(file, name)]) else None
  }

  const PASSTHROUGH: set<Name> := {Name("Partial"), Name("Required"), Name("Readonly"), Name("NonNullable")}
  const ARRAYS: set<Name> := {Name("Array"), Name("ReadonlyArray")}

  // ----- type nodes that lead on to one other node

  /** The node a lookup continues in, if this one only wraps another. */
  function Inner(ty: Ty): (inner: Option<Ty>)
    ensures inner.Some? ==> inner.value < ty
  {
    match ty
    case Parens(inner) => Some(inner)
    case ReadOnly(inner) => Some(inner)
    case KeyOf(inner) => Some(inner)
    case ArrayOf(element) => Some(element)
    case IndexedAccess(target, index) => if index.Some? then Some(target) else None
    case Reference(head, _, args) => if Wraps(head, args) then Some(args[0]) else None
    case _ => None
  }

  predicate Wraps(head: Name, args: seq<Ty>) {
    (head in PASSTHROUGH || head in ARRAYS) && |args| > 0
  }

  /** The path it continues with: an array takes a hop off, an indexed access puts a member on. */
  function PathInto(ty: Ty, steps: seq<Step>): Option<seq<Step>>
    requires steps != [] && Inner(ty).Some?
  {
    if TakesHop(ty) then (if steps[0].ArrayHop? then Some(steps[1..]) else None)
    else if ty.IndexedAccess? then Some([Member(ty.index.value)] + steps)
    else Some(steps)
  }

  predicate TakesHop(ty: Ty) {
    ty.ArrayOf? || (ty.Reference? && ty.head !in PASSTHROUGH)
  }

  /** The declaration name a plain reference stands for. */
  function NameIn(ty: Ty): Option<Name> {
    if ty.Reference? && !Wraps(ty.head, ty.args) && !ty.qualified then Some(ty.head) else None
  }

  // ----- members

  predicate IsProperty(m: TypeElement) {
    m.Property? || m.UntypedProperty?
  }

  /** The member as the language sees it; the lookup takes only property signatures. */
  predicate Declares(m: TypeElement, name: Name) {
    (IsProperty(m) || m.Accessor? || m.Method?) && m.name == name
  }

  /** Index of the first property signature of a name; `|members|` when there is none. */
  function FirstProperty(members: seq<TypeElement>, name: Name): (i: nat)
    ensures i <= |members|
    ensures i < |members| ==> IsProperty(members[i]) && members[i].name == name
    ensures forall j | 0 <= j < i :: !(IsProperty(members[j]) && members[j].name == name)
  {
    if members == [] || (IsProperty(members[0]) && members[0].name == name) then 0
    else 1 + FirstProperty(members[1..], name)
  }

  /** Index of the first member of a name, of whatever kind. */
  function FirstDeclared(members: seq<TypeElement>, name: Name): (i: nat)
    ensures i <= |members|
    ensures i < |members| ==> Declares(members[i], name)
    ensures forall j | 0 <= j < i :: !Declares(members[j], name)
  {
    if members == [] || Declares(members[0], name) then 0
    else 1 + FirstDeclared(members[1..], name)
  }

  /** Index of the signature for every name; there is at most one in what compiles. */
  function FirstStringIndex(members: seq<TypeElement>): (i: nat)
    ensures i <= |members|
    ensures i < |members| ==> members[i].StringIndex?
    ensures forall j | 0 <= j < i :: !members[j].StringIndex?
  {
    if members == [] || members[0].StringIndex? then 0 else 1 + FirstStringIndex(members[1..])
  }

  predicate IsIndex(m: TypeElement) {
    m.StringIndex? || m.PartialIndex?
  }

  /** All members of a merged interface, and all its bases. */
  function AllMembers(d: Decl): seq<TypeElement>
    requires d.Interface?
  {
    d.members + MergedMembers(d.merged)
  }

  function MergedMembers(merged: seq<Body>): seq<TypeElement> {
    if merged == [] then [] else merged[0].members + MergedMembers(merged[1..])
  }

  function AllBases(d: Decl): seq<Option<Name>>
    requires d.Interface?
  {
    d.bases + MergedBases(d.merged)
  }

  function MergedBases(merged: seq<Body>): seq<Option<Name>> {
    if merged == [] then [] else merged[0].bases + MergedBases(merged[1..])
  }
}
