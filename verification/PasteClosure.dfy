/**
 The paste closure of a config type: a worklist of names, each resolved from the file that
 mentions it, with every resolution checked against what its name already stands for.
 */
module PasteClosure {
  import opened Wrappers
  import opened Graphs
  import opened TypeWorld

  /** An import binding: a package-local file, a relative specifier without `.ts`, or a package. */
  datatype Import =
    | Local(target: File, imported: Name)
    | LocalWithoutExtension
    | External(imported: Name, specifier: string)

  datatype TypeRef = TypeRef(alias: Name, imported: Name, specifier: string)

  /** The package's sources: declarations by file and name, imports, and the names each declaration mentions. */
  datatype Package = Package(
    declared: map<(File, Name), Key>,
    imports: map<(File, Name), Import>,
    mentions: map<Key, seq<Name>>,
    files: set<File>,
    globals: set<Name>)

  /** `resolveTypeName`; `Circular` stands for an import chain on which the source never returns. */
  datatype Resolution = ToDecl(key: Key) | ToRef(ref: TypeRef) | Unresolved | Circular

  function Resolve(p: Package, from: File, name: Name, unvisited: set<File>): Resolution
    decreases unvisited
  {
    if from !in unvisited then Circular
    else if (from, name) in p.declared then ToDecl(p.declared[(from, name)])
    else if (from, name) !in p.imports then Unresolved
    else match p.imports[(from, name)]
      case LocalWithoutExtension => Unresolved
      case Local(target, imported) =>
        if imported != name then Unresolved
        else
          assert unvisited - {from} < unvisited;
          Resolve(p, target, imported, unvisited - {from})
      case External(imported, specifier) => ToRef(TypeRef(name, imported, specifier))
  }

  function ResolveFrom(p: Package, from: File, name: Name): Resolution {
    Resolve(p, from, name, p.files)
  }

  datatype Item = Item(name: Name, from: File)

  function Mentions(p: Package, key: Key): seq<Name> {
    if key in p.mentions then p.mentions[key] else []
  }

  /** The items a pasted declaration adds: its non-global names, to be resolved from its own file. */
  function ItemsOf(p: Package, names: seq<Name>, from: File): seq<Item> {
    if names == [] then []
    else (if names[0] in p.globals then [] else [Item(names[0], from)]) + ItemsOf(p, names[1..], from)
  }

  lemma {:induction false} ItemsOfMembers(p: Package, names: seq<Name>, from: File)
    ensures forall item ::
              item in ItemsOf(p, names, from) <==> item.from == from && item.name in names && item.name !in p.globals
  {
    if names != [] {
      ItemsOfMembers(p, names[1..], from);
      assert forall n :: n in names <==> n == names[0] || n in names[1..];
    }
  }

  datatype Violation =
    | Unknown(name: Name, from: File)
    | ConfigTypeImported(ref: TypeRef)
    | DeclaredAndImported(name: Name)
    | ImportedTwice(name: Name)
    | DeclaredTwice(name: Name)

  /** What has been collected so far. */
  datatype Catalog = Catalog(
    pastes: seq<Key>,
    pasted: map<Name, Key>,
    refs: map<Name, TypeRef>,
    violations: seq<Violation>)

  function Violate(c: Catalog, v: Violation): Catalog {
    c.(violations := c.violations + [v])
  }

  /** One worklist item: what is recorded, and what is queued. */
  function Process(p: Package, root: Name, c: Catalog, item: Item): (Catalog, seq<Item>) {
    match ResolveFrom(p, item.from, item.name)
    case Unresolved => (Violate(c, Unknown(item.name, item.from)), [])
    case Circular => (Violate(c, Unknown(item.name, item.from)), [])
    case ToRef(ref) =>
      if item.name == root then (Violate(c, ConfigTypeImported(ref)), [])
      else if item.name in c.pasted then (Violate(c, DeclaredAndImported(item.name)), [])
      else if item.name in c.refs && c.refs[item.name] != ref then (Violate(c, ImportedTwice(item.name)), [])
      else (c.(refs := c.refs[item.name := ref]), [])
    case ToDecl(key) =>
      if item.name in c.pasted then
        if c.pasted[item.name] == key then (c, []) else (Violate(c, DeclaredTwice(item.name)), [])
      else if item.name in c.refs then (Violate(c, DeclaredAndImported(item.name)), [])
      else
        (c.(pasted := c.pasted[item.name := key], pastes := c.pastes + [key]), ItemsOf(p, Mentions(p, key), key.file))
  }

  // ----- the invariant

  /** The item resolves to exactly what is recorded under its name. */
  ghost predicate Recorded(p: Package, c: Catalog, item: Item) {
    match ResolveFrom(p, item.from, item.name)
    case ToDecl(key) => item.name in c.pasted && c.pasted[item.name] == key
    case ToRef(ref) => item.name in c.refs && c.refs[item.name] == ref
    case Unresolved => false
    case Circular => false
  }

  /** Every mention of a pasted declaration is recorded or still queued, unless a violation was reported. */
  ghost predicate ClosedUpTo(p: Package, c: Catalog, queue: seq<Item>) {
    forall key, n | key in c.pastes && n in Mentions(p, key) && n !in p.globals ::
      Item(n, key.file) in queue || Recorded(p, c, Item(n, key.file))
  }

  ghost predicate HasName(pasted: map<Name, Key>, key: Key) {
    exists n :: n in pasted && pasted[n] == key
  }

  /** The names of the pastes are exactly the recorded ones, each with its own declaration. */
  ghost predicate PastesMatchNames(c: Catalog) {
    && (forall key :: key in c.pastes <==> HasName(c.pasted, key))
    && (forall n | n in c.pasted :: n !in c.refs)
    && |c.pastes| == |c.pasted|
  }

  lemma RecordedGrows(p: Package, c: Catalog, d: Catalog, item: Item)
    requires Recorded(p, c, item)
    requires forall n | n in c.pasted :: n in d.pasted && d.pasted[n] == c.pasted[n]
    requires forall n | n in c.refs :: n in d.refs && d.refs[n] == c.refs[n]
    ensures Recorded(p, d, item)
  {
  }

  /** Recording only ever adds. */
  lemma ProcessGrows(p: Package, root: Name, c: Catalog, item: Item)
    ensures var d := Process(p, root, c, item).0;
            && (forall n | n in c.pasted :: n in d.pasted && d.pasted[n] == c.pasted[n])
            && (forall n | n in c.refs :: n in d.refs && d.refs[n] == c.refs[n])
            && (forall key | key in c.pastes :: key in d.pastes)
            && |c.violations| <= |d.violations|
  {
  }

  /** A processed item is recorded, or a violation was added. */
  lemma ProcessRecords(p: Package, root: Name, c: Catalog, item: Item)
    ensures var d := Process(p, root, c, item).0;
            d.violations == c.violations ==> Recorded(p, d, item)
  {
  }

  lemma ProcessKeepsClosed(p: Package, root: Name, c: Catalog, item: Item, rest: seq<Item>)
    requires ClosedUpTo(p, c, [item] + rest)
    requires Process(p, root, c, item).0.violations == c.violations
    ensures ClosedUpTo(p, Process(p, root, c, item).0, rest + Process(p, root, c, item).1)
  {
    var (d, added) := Process(p, root, c, item);
    ProcessGrows(p, root, c, item);
    ProcessRecords(p, root, c, item);
    forall key, n | key in d.pastes && n in Mentions(p, key) && n !in p.globals
      ensures Item(n, key.file) in rest + added || Recorded(p, d, Item(n, key.file))
    {
      if key in c.pastes {
        if Recorded(p, c, Item(n, key.file)) {
          RecordedGrows(p, c, d, Item(n, key.file));
        } else {
          assert Item(n, key.file) in [item] + rest;
        }
      } else {
        ItemsOfMembers(p, Mentions(p, key), key.file);
      }
    }
  }

  lemma ProcessKeepsNames(p: Package, root: Name, c: Catalog, item: Item)
    requires PastesMatchNames(c)
    ensures PastesMatchNames(Process(p, root, c, item).0)
  {
    var d := Process(p, root, c, item).0;
    if d.pastes != c.pastes {
      PasteKeepsNames(c, item.name, d.pasted[item.name]);
    }
  }

  lemma PasteKeepsNames(c: Catalog, name: Name, key: Key)
    requires PastesMatchNames(c) && name !in c.pasted && name !in c.refs
    ensures PastesMatchNames(c.(pasted := c.pasted[name := key], pastes := c.pastes + [key]))
  {
    var more := c.pasted[name := key];
    forall k
      ensures k in c.pastes + [key] <==> HasName(more, k)
    {
      if HasName(c.pasted, k) {
        var n :| n in c.pasted && c.pasted[n] == k;
        assert n in more && more[n] == k;
      }
      assert name in more && more[name] == key;
    }
  }

  // ----- reachability

  function DeclTargets(p: Package, items: seq<Item>): seq<Key> {
    if items == [] then []
    else
      var r := ResolveFrom(p, items[0].from, items[0].name);
      (if r.ToDecl? then [r.key] else []) + DeclTargets(p, items[1..])
  }

  lemma {:induction false} DeclTargetsMembers(p: Package, items: seq<Item>, key: Key)
    ensures key in DeclTargets(p, items)
            <==> exists item :: item in items && ResolveFrom(p, item.from, item.name) == ToDecl(key)
  {
    if items != [] {
      DeclTargetsMembers(p, items[1..], key);
      if item :| item in items[1..] && ResolveFrom(p, item.from, item.name) == ToDecl(key) {
        assert item in items;
      }
      if item :| item in items && ResolveFrom(p, item.from, item.name) == ToDecl(key) {
        assert item == items[0] || item in items[1..];
      }
    }
  }

  /** A declaration points at the declarations its non-global names resolve to from its file. */
  ghost function DeclGraph(p: Package): Graph<Key> {
    map key | key in p.mentions :: DeclTargets(p, ItemsOf(p, Mentions(p, key), key.file))
  }

  ghost predicate FromRoot(p: Package, rootKey: Key, key: Key) {
    key == rootKey || Reaches(DeclGraph(p), rootKey, key)
  }

  lemma MentionIsReachable(p: Package, rootKey: Key, key: Key, item: Item, target: Key)
    requires FromRoot(p, rootKey, key) && item in ItemsOf(p, Mentions(p, key), key.file)
    requires ResolveFrom(p, item.from, item.name) == ToDecl(target)
    ensures FromRoot(p, rootKey, target)
  {
    var g := DeclGraph(p);
    DeclTargetsMembers(p, ItemsOf(p, Mentions(p, key), key.file), target);
    assert Edge(g, key, target);
    if key == rootKey {
      ReachesUnfold(g, rootKey, target);
    } else {
      var w :| |w| >= 2 && WalkFromTo(g, w, rootKey, key);
      var longer := w + [target];
      forall i | 0 <= i < |longer| - 1
        ensures Edge(g, longer[i], longer[i + 1])
      {
        if i < |w| - 1 {
          assert Edge(g, w[i], w[i + 1]);
        }
      }
      assert WalkFromTo(g, longer, rootKey, target);
    }
  }

  /** Some paste mentions the item. */
  ghost predicate Mentioned(p: Package, pastes: seq<Key>, item: Item) {
    exists key :: key in pastes && item in ItemsOf(p, Mentions(p, key), key.file)
  }

  lemma MentionedGrows(p: Package, pastes: seq<Key>, more: seq<Key>, item: Item)
    requires Mentioned(p, pastes, item) && forall key | key in pastes :: key in more
    ensures Mentioned(p, more, item)
  {
  }

  /** Everything recorded or queued is there because the config type needs it. */
  ghost predicate Justified(p: Package, root: Item, c: Catalog, queue: seq<Item>) {
    if c.pastes == [] then queue == [root] && c.pasted == map[] && c.refs == map[]
    else
      && ResolveFrom(p, root.from, root.name) == ToDecl(c.pastes[0])
      && (forall key | key in c.pastes :: FromRoot(p, c.pastes[0], key))
      && (forall item | item in queue :: Mentioned(p, c.pastes, item))
      && (forall n | n in c.refs :: RefNeeded(p, c, n))
  }

  ghost predicate RefNeeded(p: Package, c: Catalog, n: Name)
    requires n in c.refs
  {
    exists from :: Mentioned(p, c.pastes, Item(n, from)) && ResolveFrom(p, from, n) == ToRef(c.refs[n])
  }

  lemma NewPasteIsFromRoot(p: Package, c: Catalog, item: Item, key: Key)
    requires c.pastes != [] && (forall k | k in c.pastes :: FromRoot(p, c.pastes[0], k))
    requires Mentioned(p, c.pastes, item) && ResolveFrom(p, item.from, item.name) == ToDecl(key)
    ensures FromRoot(p, c.pastes[0], key)
  {
    var k :| k in c.pastes && item in ItemsOf(p, Mentions(p, k), k.file);
    MentionIsReachable(p, c.pastes[0], k, item, key);
  }

  lemma ProcessFirst(p: Package, root: Item, c: Catalog)
    requires c.pastes == [] && Justified(p, root, c, [root])
    requires Process(p, root.name, c, root).0.violations == c.violations
    ensures Justified(p, root, Process(p, root.name, c, root).0, Process(p, root.name, c, root).1)
  {
    var (d, added) := Process(p, root.name, c, root);
    forall item | item in added
      ensures Mentioned(p, d.pastes, item)
    {
      assert d.pastes[0] in d.pastes;
    }
  }

  lemma RefsStayNeeded(p: Package, c: Catalog, d: Catalog, item: Item)
    requires forall n | n in c.refs :: RefNeeded(p, c, n)
    requires Mentioned(p, c.pastes, item) && forall key | key in c.pastes :: key in d.pastes
    requires d.refs == c.refs || (ResolveFrom(p, item.from, item.name).ToRef? &&
                                  d.refs == c.refs[item.name := ResolveFrom(p, item.from, item.name).ref])
    ensures forall n | n in d.refs :: RefNeeded(p, d, n)
  {
    forall n | n in d.refs
      ensures RefNeeded(p, d, n)
    {
      if n in c.refs && d.refs[n] == c.refs[n] {
        var from :| Mentioned(p, c.pastes, Item(n, from)) && ResolveFrom(p, from, n) == ToRef(c.refs[n]);
        MentionedGrows(p, c.pastes, d.pastes, Item(n, from));
      } else {
        MentionedGrows(p, c.pastes, d.pastes, item);
        assert item == Item(n, item.from);
      }
    }
  }

  lemma ProcessKeepsJustified(p: Package, root: Item, c: Catalog, item: Item, rest: seq<Item>)
    requires Justified(p, root, c, [item] + rest)
    requires Process(p, root.name, c, item).0.violations == c.violations
    ensures Justified(p, root, Process(p, root.name, c, item).0, rest + Process(p, root.name, c, item).1)
  {
    var (d, added) := Process(p, root.name, c, item);
    if c.pastes == [] {
      assert ([item] + rest)[0] == root && |[item] + rest| == 1;
      ProcessFirst(p, root, c);
      assert rest + added == added;
    } else {
      assert item in [item] + rest;
      LaterPastes(p, root, c, item);
      LaterItems(p, root, c, item);
      ProcessRefs(p, root.name, c, item);
      RefsStayNeeded(p, c, d, item);
      forall i | i in rest
        ensures Mentioned(p, d.pastes, i)
      {
        assert i in [item] + rest;
        ProcessGrows(p, root.name, c, item);
        MentionedGrows(p, c.pastes, d.pastes, i);
      }
      assert forall i :: i in rest + added <==> i in rest || i in added;
    }
  }

  lemma ProcessRefs(p: Package, root: Name, c: Catalog, item: Item)
    ensures var d := Process(p, root, c, item).0;
            && (forall key | key in c.pastes :: key in d.pastes)
            && (d.refs == c.refs || (ResolveFrom(p, item.from, item.name).ToRef? &&
                                     d.refs == c.refs[item.name := ResolveFrom(p, item.from, item.name).ref]))
  {
  }

  lemma LaterPastes(p: Package, root: Item, c: Catalog, item: Item)
    requires c.pastes != [] && Mentioned(p, c.pastes, item)
    requires forall key | key in c.pastes :: FromRoot(p, c.pastes[0], key)
    ensures var d := Process(p, root.name, c, item).0;
            d.pastes != [] && d.pastes[0] == c.pastes[0] && forall key | key in d.pastes ::
              FromRoot(p, d.pastes[0], key)
  {
    var d := Process(p, root.name, c, item).0;
    if d.pastes != c.pastes {
      var key := ResolveFrom(p, item.from, item.name).key;
      NewPasteIsFromRoot(p, c, item, key);
      assert d.pastes == c.pastes + [key];
    }
  }

  lemma LaterItems(p: Package, root: Item, c: Catalog, item: Item)
    ensures var (d, added) := Process(p, root.name, c, item);
            forall i | i in added :: Mentioned(p, d.pastes, i)
  {
    var (d, added) := Process(p, root.name, c, item);
    if added != [] {
      var key := ResolveFrom(p, item.from, item.name).key;
      assert key in d.pastes && added == ItemsOf(p, Mentions(p, key), key.file);
    }
  }

  // ----- the worklist

  ghost function Universe(p: Package, root: Name): set<Name> {
    {root} + set key, n | key in p.mentions && n in p.mentions[key] :: n
  }

  lemma AddedNamesAreKnown(p: Package, root: Name, c: Catalog, item: Item)
    ensures forall i | i in Process(p, root, c, item).1 :: i.name in Universe(p, root)
  {
    var r := ResolveFrom(p, item.from, item.name);
    if r.ToDecl? {
      ItemsOfMembers(p, Mentions(p, r.key), r.key.file);
    }
  }

  /** What a violation-free run has established. */
  ghost predicate Complete(p: Package, root: Item, c: Catalog) {
    && c.pastes != [] && ResolveFrom(p, root.from, root.name) == ToDecl(c.pastes[0])
    && (forall key :: key in c.pastes <==> FromRoot(p, c.pastes[0], key))
    && PastesMatchNames(c)
    && (forall key, n | key in c.pastes && n in Mentions(p, key) && n !in p.globals ::
       Recorded(p, c, Item(n, key.file)))
    && (forall n | n in c.refs :: RefNeeded(p, c, n))
  }

  lemma EdgeStaysPasted(p: Package, c: Catalog, key: Key, target: Key)
    requires ClosedUpTo(p, c, []) && PastesMatchNames(c)
    requires key in c.pastes && Edge(DeclGraph(p), key, target)
    ensures target in c.pastes
  {
    var items := ItemsOf(p, Mentions(p, key), key.file);
    DeclTargetsMembers(p, items, target);
    ItemsOfMembers(p, Mentions(p, key), key.file);
    var item :| item in items && ResolveFrom(p, item.from, item.name) == ToDecl(target);
    assert item == Item(item.name, key.file) && item !in [];
    assert Recorded(p, c, item);
    assert HasName(c.pasted, target);
  }

  lemma FinishedIsComplete(p: Package, root: Item, c: Catalog)
    requires Justified(p, root, c, []) && ClosedUpTo(p, c, []) && PastesMatchNames(c)
    ensures Complete(p, root, c)
  {
    forall key | FromRoot(p, c.pastes[0], key)
      ensures key in c.pastes
    {
      if key != c.pastes[0] {
        forall a, b | a in c.pastes && Edge(DeclGraph(p), a, b)
          ensures b in c.pastes
        {
          EdgeStaysPasted(p, c, a, b);
        }
        ReachesStaysInside(DeclGraph(p), c.pastes, c.pastes[0], key);
      }
    }
    forall key, n | key in c.pastes && n in Mentions(p, key) && n !in p.globals
      ensures Recorded(p, c, Item(n, key.file))
    {
      assert Item(n, key.file) !in [];
    }
  }

  lemma ProcessKeepsAll(p: Package, root: Item, c: Catalog, item: Item, rest: seq<Item>)
    requires PastesMatchNames(c)
    requires forall i | i in [item] + rest :: i.name in Universe(p, root.name)
    requires c.violations == [] ==> Justified(p, root, c, [item] + rest) && ClosedUpTo(p, c, [item] + rest)
    ensures var (d, added) := Process(p, root.name, c, item);
            && PastesMatchNames(d)
            && (forall i | i in rest + added :: i.name in Universe(p, root.name))
            && (d.violations == [] ==> Justified(p, root, d, rest + added) && ClosedUpTo(p, d, rest + added))
            && (d.pasted == c.pasted ==> added == [])
            && (d.pasted != c.pasted
               ==> Universe(p, root.name) - d.pasted.Keys < Universe(p, root.name) - c.pasted.Keys)
  {
    var (d, added) := Process(p, root.name, c, item);
    ProcessKeepsNames(p, root.name, c, item);
    ProcessGrows(p, root.name, c, item);
    AddedNamesAreKnown(p, root.name, c, item);
    if d.violations == [] {
      ProcessKeepsJustified(p, root, c, item, rest);
      ProcessKeepsClosed(p, root.name, c, item, rest);
    }
    ProcessShrinks(p, root.name, c, item);
    assert item in [item] + rest;
    forall i | i in rest + added
      ensures i.name in Universe(p, root.name)
    {
      if i in rest {
        assert i in [item] + rest;
      }
    }
  }

  lemma ProcessShrinks(p: Package, root: Name, c: Catalog, item: Item)
    requires item.name in Universe(p, root)
    ensures var (d, added) := Process(p, root, c, item);
            && (d.pasted == c.pasted ==> added == [])
            && (d.pasted != c.pasted ==> Universe(p, root) - d.pasted.Keys < Universe(p, root) - c.pasted.Keys)
  {
    var (d, added) := Process(p, root, c, item);
    var r := ResolveFrom(p, item.from, item.name);
    if r.ToDecl? && item.name !in c.pasted && item.name !in c.refs {
      assert d.pasted == c.pasted[item.name := r.key];
      assert item.name in Universe(p, root) - c.pasted.Keys && item.name !in Universe(p, root) - d.pasted.Keys;
    }
  }
}
