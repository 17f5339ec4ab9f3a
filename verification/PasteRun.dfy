/**
 The paste worklist itself, and exactly when it reports a violation: when some name the
 config type needs has no meaning or more than one.
 */
module PasteRun {
  import opened Wrappers
  import opened Graphs
  import opened TypeWorld
  import opened PasteClosure

  function Meaning(p: Package, item: Item): Resolution {
    ResolveFrom(p, item.from, item.name)
  }

  /** A declaration the config type reaches through the names it mentions. */
  ghost predicate RootReaches(p: Package, root: Item, key: Key) {
    Meaning(p, root).ToDecl? && FromRoot(p, Meaning(p, root).key, key)
  }

  ghost predicate Needed(p: Package, root: Item, item: Item) {
    item == root || NeededBy(p, root, item)
  }

  ghost predicate NeededBy(p: Package, root: Item, item: Item) {
    exists key :: RootReaches(p, root, key) && item in ItemsOf(p, Mentions(p, key), key.file)
  }

  /** The config type is declared in its package, and each needed name means one thing wherever it is mentioned. */
  ghost predicate Unambiguous(p: Package, root: Item) {
    && Meaning(p, root).ToDecl?
    && (forall item | Needed(p, root, item) :: Meaning(p, item).ToDecl? || Meaning(p, item).ToRef?)
    && (forall a, b | Needed(p, root, a) && Needed(p, root, b) && a.name == b.name :: Meaning(p, a) == Meaning(p, b))
  }

  // ----- everything recorded or queued is needed

  ghost predicate Meant(p: Package, root: Item, name: Name, meaning: Resolution) {
    exists from :: Needed(p, root, Item(name, from)) && Meaning(p, Item(name, from)) == meaning
  }

  ghost predicate Traced(p: Package, root: Item, c: Catalog, queue: seq<Item>) {
    (forall item | item in queue :: Needed(p, root, item)) && AllMeant(p, root, c)
  }

  lemma NeededDeclIsReached(p: Package, root: Item, item: Item)
    requires Needed(p, root, item) && Meaning(p, item).ToDecl?
    ensures RootReaches(p, root, Meaning(p, item).key)
  {
    if item != root {
      var key :| RootReaches(p, root, key) && item in ItemsOf(p, Mentions(p, key), key.file);
      MentionIsReachable(p, Meaning(p, root).key, key, item, Meaning(p, item).key);
    }
  }

  lemma AddedAreNeeded(p: Package, root: Item, c: Catalog, item: Item)
    requires Needed(p, root, item)
    ensures forall i | i in Process(p, root.name, c, item).1 :: Needed(p, root, i)
  {
    if Meaning(p, item).ToDecl? {
      NeededDeclIsReached(p, root, item);
      var key := Meaning(p, item).key;
      assert RootReaches(p, root, key);
    }
  }

  /** Processing an item records at most its own meaning under its own name. */
  lemma ProcessRecordsMeaning(p: Package, root: Item, c: Catalog, item: Item)
    ensures var d, m := Process(p, root.name, c, item).0, Meaning(p, item);
            && (d.pasted == c.pasted || (m.ToDecl? && d.pasted == c.pasted[item.name := m.key]))
            && (d.refs == c.refs || (m.ToRef? && d.refs == c.refs[item.name := m.ref]))
  {
  }

  ghost predicate AllMeant(p: Package, root: Item, c: Catalog) {
    && (forall n | n in c.pasted :: Meant(p, root, n, ToDecl(c.pasted[n])))
    && (forall n | n in c.refs :: Meant(p, root, n, ToRef(c.refs[n])))
  }

  lemma ProcessKeepsMeant(p: Package, root: Item, c: Catalog, d: Catalog, item: Item, m: Resolution)
    requires AllMeant(p, root, c) && Meant(p, root, item.name, m)
    requires d.pasted == c.pasted || (m.ToDecl? && d.pasted == c.pasted[item.name := m.key])
    requires d.refs == c.refs || (m.ToRef? && d.refs == c.refs[item.name := m.ref])
    ensures AllMeant(p, root, d)
  {
  }

  lemma ProcessKeepsTraced(p: Package, root: Item, c: Catalog, item: Item, rest: seq<Item>)
    requires Traced(p, root, c, [item] + rest)
    ensures Traced(p, root, Process(p, root.name, c, item).0, rest + Process(p, root.name, c, item).1)
  {
    assert item in [item] + rest;
    assert forall i | i in rest :: i in [item] + rest;
    AddedAreNeeded(p, root, c, item);
    assert item == Item(item.name, item.from);
    assert Meant(p, root, item.name, Meaning(p, item));
    ProcessRecordsMeaning(p, root, c, item);
    ProcessKeepsMeant(p, root, c, Process(p, root.name, c, item).0, item, Meaning(p, item));
  }

  lemma MeaningIsUnique(p: Package, root: Item, item: Item, meaning: Resolution)
    requires Unambiguous(p, root) && Needed(p, root, item) && Meant(p, root, item.name, meaning)
    ensures Meaning(p, item) == meaning
  {
    var from :| Needed(p, root, Item(item.name, from)) && Meaning(p, Item(item.name, from)) == meaning;
  }

  /** Where every needed name has one meaning, no item is ever in conflict. */
  lemma NoNewViolation(p: Package, root: Item, c: Catalog, item: Item)
    requires Unambiguous(p, root) && Needed(p, root, item) && Traced(p, root, c, [item])
    ensures Process(p, root.name, c, item).0.violations == c.violations
  {
    if item.name in c.pasted {
      MeaningIsUnique(p, root, item, ToDecl(c.pasted[item.name]));
    }
    if item.name in c.refs {
      MeaningIsUnique(p, root, item, ToRef(c.refs[item.name]));
    }
    if item.name == root.name {
      assert Needed(p, root, root);
      assert Meaning(p, item) == Meaning(p, root);
    }
  }

  // ----- what a violation says is so

  /**
   The reported kind is what is wrong with the item: no meaning, or one that clashes with what its name
   stands for.
   */
  ghost predicate TrueOf(p: Package, root: Name, c: Catalog, item: Item, v: Violation) {
    var m := Meaning(p, item);
    match v
    case Unknown(name, from) => name == item.name && from == item.from && (m == Unresolved || m == Circular)
    case ConfigTypeImported(ref) => item.name == root && m == ToRef(ref)
    case DeclaredAndImported(name) =>
      name == item.name && ((name in c.pasted && m.ToRef?) || (name in c.refs && m.ToDecl?))
    case ImportedTwice(name) => name == item.name && name in c.refs && m.ToRef? && m.ref != c.refs[name]
    case DeclaredTwice(name) => name == item.name && name in c.pasted && m.ToDecl? && m.key != c.pasted[name]
  }

  /** An item is reported at most once, and then with a kind that is true of it and with nothing recorded. */
  lemma ReportedIsTrue(p: Package, root: Name, c: Catalog, item: Item)
    requires Process(p, root, c, item).0.violations != c.violations
    ensures var d := Process(p, root, c, item).0;
            && |d.violations| == |c.violations| + 1 && d.violations[..|c.violations|] == c.violations
            && TrueOf(p, root, c, item, d.violations[|c.violations|])
            && d.pasted == c.pasted && d.refs == c.refs && d.pastes == c.pastes
  {
  }

  /** What is meant is recorded otherwise. */
  lemma UnreportedIsRecorded(p: Package, root: Name, c: Catalog, item: Item)
    requires Process(p, root, c, item).0.violations == c.violations
    ensures Recorded(p, Process(p, root, c, item).0, item)
  {
    assert |Process(p, root, c, item).0.violations| == |c.violations|;
  }

  // ----- a violation-free run rules ambiguity out

  lemma NeededIsRecorded(p: Package, root: Item, c: Catalog, item: Item)
    requires Complete(p, root, c) && Recorded(p, c, root) && Needed(p, root, item)
    ensures Recorded(p, c, item)
  {
    if item != root {
      var key :| RootReaches(p, root, key) && item in ItemsOf(p, Mentions(p, key), key.file);
      ItemsOfMembers(p, Mentions(p, key), key.file);
      assert key in c.pastes;
      assert item == Item(item.name, key.file);
    }
  }

  lemma CompleteIsUnambiguous(p: Package, root: Item, c: Catalog)
    requires Complete(p, root, c) && Recorded(p, c, root)
    ensures Unambiguous(p, root)
  {
    forall item | Needed(p, root, item)
      ensures Recorded(p, c, item)
    {
      NeededIsRecorded(p, root, c, item);
    }
    forall a, b | Needed(p, root, a) && Needed(p, root, b) && a.name == b.name
      ensures Meaning(p, a) == Meaning(p, b)
    {
      RecordedDecides(p, c, a, b);
    }
  }

  lemma RecordedDecides(p: Package, c: Catalog, a: Item, b: Item)
    requires Recorded(p, c, a) && Recorded(p, c, b) && a.name == b.name && PastesMatchNames(c)
    ensures ResolveFrom(p, a.from, a.name) == ResolveFrom(p, b.from, b.name)
  {
  }

  // ----- the worklist

  /** The worklist's whole invariant. */
  ghost predicate Collecting(p: Package, root: Item, c: Catalog, queue: seq<Item>) {
    && PastesMatchNames(c)
    && (forall item | item in queue :: item.name in Universe(p, root.name))
    && (c.violations == []
       ==> Justified(p, root, c, queue) && ClosedUpTo(p, c, queue) && (root in queue || Recorded(p, c, root)))
    && Traced(p, root, c, queue)
    && (Unambiguous(p, root) ==> c.violations == [])
  }

  lemma ProcessKeepsRootRecorded(p: Package, root: Item, c: Catalog, item: Item, rest: seq<Item>)
    requires root in [item] + rest || Recorded(p, c, root)
    requires Process(p, root.name, c, item).0.violations == c.violations
    ensures root in rest + Process(p, root.name, c, item).1 || Recorded(p, Process(p, root.name, c, item).0, root)
  {
    var d := Process(p, root.name, c, item).0;
    ProcessGrows(p, root.name, c, item);
    ProcessRecords(p, root.name, c, item);
    if Recorded(p, c, root) {
      RecordedGrows(p, c, d, root);
    }
  }

  lemma ProcessKeepsCollecting(p: Package, root: Item, c: Catalog, item: Item, rest: seq<Item>)
    requires Collecting(p, root, c, [item] + rest)
    ensures Collecting(p, root, Process(p, root.name, c, item).0, rest + Process(p, root.name, c, item).1)
  {
    var d := Process(p, root.name, c, item).0;
    ProcessKeepsAll(p, root, c, item, rest);
    ProcessKeepsTraced(p, root, c, item, rest);
    assert item in [item] + rest;
    if Unambiguous(p, root) {
      NoNewViolation(p, root, c, item);
    }
    if d.violations == [] {
      ProcessGrows(p, root.name, c, item);
      ProcessKeepsRootRecorded(p, root, c, item, rest);
    }
  }

  lemma CollectedIff(p: Package, root: Item, c: Catalog)
    requires Collecting(p, root, c, [])
    ensures c.violations == [] <==> Unambiguous(p, root)
    ensures c.violations == [] ==> Complete(p, root, c)
  {
    if c.violations == [] {
      FinishedIsComplete(p, root, c);
      CompleteIsUnambiguous(p, root, c);
    }
  }

  lemma CollectingShrinks(p: Package, root: Item, c: Catalog, item: Item, rest: seq<Item>)
    requires Collecting(p, root, c, [item] + rest)
    ensures var (d, added) := Process(p, root.name, c, item);
            && (d.pasted == c.pasted ==> added == [])
            && (d.pasted != c.pasted
               ==> Universe(p, root.name) - d.pasted.Keys < Universe(p, root.name) - c.pasted.Keys)
  {
    ProcessKeepsAll(p, root, c, item, rest);
  }

  /**
   The worklist ends. It reports no violation exactly when every name the config type needs has one
   meaning, and then it has pasted exactly the declarations the config type reaches.
   */
  method CollectPastes(p: Package, root: Item) returns (c: Catalog)
    ensures PastesMatchNames(c)
    ensures c.violations == [] <==> Unambiguous(p, root)
    ensures c.violations == [] ==> Complete(p, root, c)
  {
    c := Catalog([], map[], map[], []);
    var queue := [root];
    while |queue| > 0
      invariant Collecting(p, root, c, queue)
      decreases Universe(p, root.name) - c.pasted.Keys, |queue|
    {
      var item, rest := queue[0], queue[1..];
      assert queue == [item] + rest;
      var (next, added) := Process(p, root.name, c, item);
      CollectingShrinks(p, root, c, item, rest);
      ProcessKeepsCollecting(p, root, c, item, rest);
      c, queue := next, rest + added;
    }
    assert queue == [];
    CollectedIff(p, root, c);
  }
}
