/**
 Folding the key paths of composed schemas into a plugin's own: a depth-first walk over a
 possibly cyclic composition graph, with one `seen` set shared by the whole walk.
 */
module ComposeFold {
  import opened Graphs

  datatype Package = Package(name: string)
  datatype Key = Key(path: string)
  datatype Entry = Entry(schemaKeys: seq<Key>, schemaComposes: seq<Package>)

  type Catalog = map<Package, Entry>

  function ComposeGraph(w: Catalog): Graph<Package> {
    map p | p in w :: w[p].schemaComposes
  }

  /** `x` is `p`, or composed into it through any number of steps. */
  ghost predicate ComposedInto(w: Catalog, p: Package, x: Package) {
    x in w && (x == p || Reaches(ComposeGraph(w), p, x))
  }

  function KeysOf(w: Catalog, order: seq<Package>): seq<Key> {
    if order == [] then []
    else (if order[0] in w then w[order[0]].schemaKeys else []) + KeysOf(w, order[1..])
  }

  ghost predicate UnknownIn(w: Catalog, order: seq<Package>, u: Package) {
    u !in w && exists x :: x in order && Edge(ComposeGraph(w), x, u)
  }

  ghost predicate Distinct(order: seq<Package>) {
    forall i, j | 0 <= i < j < |order| :: order[i] != order[j]
  }

  /** `order` lists, once each, the packages the walk added. */
  ghost predicate Added(w: Catalog, before: set<Package>, after: set<Package>, order: seq<Package>) {
    && (forall x :: x in after <==> x in before || x in order)
    && Distinct(order)
    && (forall x | x in order :: x !in before && x in w)
  }

  /** All known packages it composes have been seen. */
  ghost predicate Followed(w: Catalog, seen: set<Package>, x: Package) {
    forall c | Edge(ComposeGraph(w), x, c) && c in w :: c in seen
  }

  /** What one call has done when it returns. */
  ghost predicate Folded(w: Catalog, p: Package, before: set<Package>, after: set<Package>, order: seq<Package>) {
    && p in after && Added(w, before, after, order)
    && (forall x | x in order :: ComposedInto(w, p, x))
    && (forall x | x in order :: Followed(w, after, x))
  }

  /** The state between two children of `p`: `rest` are the packages added below it, all finished. */
  ghost predicate BetweenChildren(w: Catalog, p: Package, before: set<Package>, seen: set<Package>, rest: seq<Package>,
                                  i: nat) {
    && p in w && i <= |w[p].schemaComposes| && p in seen && Added(w, before, seen, [p] + rest)
    && (forall x | x in rest :: ComposedInto(w, p, x) && Followed(w, seen, x))
    && (forall k | 0 <= k < i && w[p].schemaComposes[k] in w :: w[p].schemaComposes[k] in seen)
  }

  lemma ComposedThrough(w: Catalog, p: Package, c: Package, x: Package)
    requires Edge(ComposeGraph(w), p, c) && ComposedInto(w, c, x)
    ensures ComposedInto(w, p, x)
  {
    ReachesUnfold(ComposeGraph(w), p, x);
  }

  lemma AddedAppend(w: Catalog, before: set<Package>, middle: set<Package>, after: set<Package>, a: seq<Package>,
                    b: seq<Package>)
    requires Added(w, before, middle, a) && Added(w, middle, after, b)
    ensures Added(w, before, after, a + b)
  {
    forall i, j | 0 <= i < j < |a + b|
      ensures (a + b)[i] != (a + b)[j]
    {
      if i < |a| <= j {
        assert a[i] in middle && b[j - |a|] in b;
      }
    }
  }

  lemma ChildFolded(w: Catalog, p: Package, before: set<Package>, seen: set<Package>, rest: seq<Package>, i: nat,
                    after: set<Package>, order: seq<Package>)
    requires BetweenChildren(w, p, before, seen, rest, i) && i < |w[p].schemaComposes|
    requires w[p].schemaComposes[i] in w && Folded(w, w[p].schemaComposes[i], seen, after, order)
    ensures BetweenChildren(w, p, before, after, rest + order, i + 1)
  {
    AddedAppend(w, before, seen, after, [p] + rest, order);
    assert ([p] + rest) + order == [p] + (rest + order);
    forall x | x in rest + order
      ensures ComposedInto(w, p, x) && Followed(w, after, x)
    {
      if x in order {
        assert Edge(ComposeGraph(w), p, w[p].schemaComposes[i]);
        ComposedThrough(w, p, w[p].schemaComposes[i], x);
      } else {
        assert Followed(w, seen, x);
      }
    }
  }

  lemma AllChildrenFolded(w: Catalog, p: Package, before: set<Package>, seen: set<Package>, rest: seq<Package>)
    requires BetweenChildren(w, p, before, seen, rest, if p in w then |w[p].schemaComposes| else 0)
    ensures Folded(w, p, before, seen, [p] + rest)
  {
    forall x | x in [p] + rest
      ensures ComposedInto(w, p, x) && Followed(w, seen, x)
    {
      if x != p {
        assert x in rest;
      }
    }
  }

  lemma {:induction false} KeysAppend(w: Catalog, a: seq<Package>, b: seq<Package>)
    ensures KeysOf(w, a + b) == KeysOf(w, a) + KeysOf(w, b)
  {
    if a == [] {
      assert a + b == b;
    } else {
      assert (a + b)[1..] == a[1..] + b;
      KeysAppend(w, a[1..], b);
    }
  }

  lemma UnknownAppend(w: Catalog, a: seq<Package>, b: seq<Package>, u: Package)
    ensures UnknownIn(w, a + b, u) <==> UnknownIn(w, a, u) || UnknownIn(w, b, u)
  {
  }

  lemma UnknownOfOne(w: Catalog, p: Package, u: Package)
    requires p in w
    ensures UnknownIn(w, [p], u) <==> u in w[p].schemaComposes && u !in w
  {
    assert p in [p];
  }

  ghost predicate UnknownsAre(w: Catalog, unknown: seq<Package>, order: seq<Package>, also: seq<Package>) {
    forall u :: u in unknown <==> UnknownIn(w, order, u) || (u in also && u !in w)
  }

  /** The loop's whole state before the i-th composed name. */
  ghost predicate Folding(w: Catalog, p: Package, before: set<Package>, i: nat,
                          keys: seq<Key>, seen: set<Package>, unknown: seq<Package>, rest: seq<Package>) {
    && BetweenChildren(w, p, before, seen, rest, i)
    && keys == KeysOf(w, [p] + rest)
    && UnknownsAre(w, unknown, rest, w[p].schemaComposes[..i])
  }

  ghost predicate FoldResult(w: Catalog, p: Package, before: set<Package>,
                             keys: seq<Key>, seen: set<Package>, unknown: seq<Package>, order: seq<Package>) {
    Folded(w, p, before, seen, order) && keys == KeysOf(w, order) && UnknownsAre(w, unknown, order, [])
  }

  lemma FoldingStarts(w: Catalog, p: Package, before: set<Package>)
    requires p in w && p !in before
    ensures Folding(w, p, before, 0, w[p].schemaKeys, before + {p}, [], [])
  {
    assert [p] + [] == [p];
    assert KeysOf(w, [p]) == w[p].schemaKeys + KeysOf(w, [p][1..]);
  }

  lemma MentionedSnoc(names: seq<Package>, i: nat)
    requires i < |names|
    ensures forall u :: u in names[..i + 1] <==> u in names[..i] || u == names[i]
  {
    assert names[..i + 1] == names[..i] + [names[i]];
  }

  lemma UnknownName(w: Catalog, p: Package, before: set<Package>, i: nat,
                    keys: seq<Key>, seen: set<Package>, unknown: seq<Package>, rest: seq<Package>)
    requires Folding(w, p, before, i, keys, seen, unknown, rest) && i < |w[p].schemaComposes|
             && w[p].schemaComposes[i] !in w
    ensures Folding(w, p, before, i + 1, keys, seen, unknown + [w[p].schemaComposes[i]], rest)
  {
    MentionedSnoc(w[p].schemaComposes, i);
  }

  lemma UnknownsGrow(w: Catalog, p: Package, i: nat, unknown: seq<Package>, rest: seq<Package>, more: seq<Package>,
                     order: seq<Package>)
    requires p in w && i < |w[p].schemaComposes| && w[p].schemaComposes[i] in w
    requires UnknownsAre(w, unknown, rest, w[p].schemaComposes[..i]) && UnknownsAre(w, more, order, [])
    ensures UnknownsAre(w, unknown + more, rest + order, w[p].schemaComposes[..i + 1])
  {
    MentionedSnoc(w[p].schemaComposes, i);
    forall u
      ensures UnknownIn(w, rest + order, u) <==> UnknownIn(w, rest, u) || UnknownIn(w, order, u)
    {
      UnknownAppend(w, rest, order, u);
    }
  }

  lemma KnownName(w: Catalog, p: Package, before: set<Package>, i: nat,
                  keys: seq<Key>, seen: set<Package>, unknown: seq<Package>, rest: seq<Package>,
                  more: seq<Key>, seen': set<Package>, unknown': seq<Package>, order: seq<Package>)
    requires Folding(w, p, before, i, keys, seen, unknown, rest) && i < |w[p].schemaComposes|
             && w[p].schemaComposes[i] in w
    requires FoldResult(w, w[p].schemaComposes[i], seen, more, seen', unknown', order)
    ensures Folding(w, p, before, i + 1, keys + more, seen', unknown + unknown', rest + order)
  {
    ChildFolded(w, p, before, seen, rest, i, seen', order);
    KeysGrow(w, p, rest, order);
    UnknownsGrow(w, p, i, unknown, rest, unknown', order);
  }

  lemma KeysGrow(w: Catalog, p: Package, rest: seq<Package>, order: seq<Package>)
    ensures KeysOf(w, [p] + (rest + order)) == KeysOf(w, [p] + rest) + KeysOf(w, order)
  {
    KeysAppend(w, [p] + rest, order);
    assert ([p] + rest) + order == [p] + (rest + order);
  }

  lemma FoldingEnds(w: Catalog, p: Package, before: set<Package>,
                    keys: seq<Key>, seen: set<Package>, unknown: seq<Package>, rest: seq<Package>)
    requires Folding(w, p, before, if p in w then |w[p].schemaComposes| else 0, keys, seen, unknown, rest)
    ensures FoldResult(w, p, before, keys, seen, unknown, [p] + rest)
  {
    AllChildrenFolded(w, p, before, seen, rest);
    assert w[p].schemaComposes[..|w[p].schemaComposes|] == w[p].schemaComposes;
    forall u
      ensures UnknownIn(w, [p] + rest, u) <==> UnknownIn(w, rest, u) || (u in w[p].schemaComposes && u !in w)
    {
      UnknownAppend(w, [p], rest, u);
      UnknownOfOne(w, p, u);
    }
  }

  /** `foldComposed`: the keys, the grown `seen` set, and the composed names that are no collected package. */
  method FoldComposed(w: Catalog, p: Package, before: set<Package>)
    returns (keys: seq<Key>, seen: set<Package>, unknown: seq<Package>, ghost order: seq<Package>)
    requires p in w
    ensures FoldResult(w, p, before, keys, seen, unknown, order)
    decreases w.Keys - before
  {
    if p in before {
      return [], before, [], [];
    }
    keys, seen, unknown := w[p].schemaKeys, before + {p}, [];
    ghost var rest: seq<Package> := [];
    FoldingStarts(w, p, before);
    for i := 0 to |w[p].schemaComposes|
      invariant Folding(w, p, before, i, keys, seen, unknown, rest)
    {
      var composed := w[p].schemaComposes[i];
      if composed !in w {
        UnknownName(w, p, before, i, keys, seen, unknown, rest);
        unknown := unknown + [composed];
      } else {
        SeenShrinks(w, p, before, seen, rest);
        var more, seen', unknown', order' := FoldComposed(w, composed, seen);
        KnownName(w, p, before, i, keys, seen, unknown, rest, more, seen', unknown', order');
        keys, seen, unknown, rest := keys + more, seen', unknown + unknown', rest + order';
      }
    }
    FoldingEnds(w, p, before, keys, seen, unknown, rest);
    order := [p] + rest;
  }

  lemma SeenShrinks(w: Catalog, p: Package, before: set<Package>, seen: set<Package>, rest: seq<Package>)
    requires p in w && p !in before && Added(w, before, seen, [p] + rest)
    ensures w.Keys - seen < w.Keys - before
  {
    assert p in [p] + rest;
    assert p in w.Keys - before && p !in w.Keys - seen;
  }

  lemma {:induction false} WalkIsSeen(w: Catalog, p: Package, seen: set<Package>, order: seq<Package>,
                                      walk: seq<Package>)
    requires Folded(w, p, {}, seen, order) && Walk(ComposeGraph(w), walk) && walk[0] in seen && walk[|walk| - 1] in w
    ensures walk[|walk| - 1] in seen
    decreases |walk|
  {
    if |walk| > 1 {
      WalkTail(ComposeGraph(w), walk);
      if |walk| > 2 {
        WalkTail(ComposeGraph(w), walk[1..]);
      }
      assert Followed(w, seen, walk[0]);
      WalkIsSeen(w, p, seen, order, walk[1..]);
    }
  }

  /** From an empty `seen`, the walk visits exactly the packages composed into `p`, each once. */
  lemma FoldVisitsComposed(w: Catalog, p: Package, seen: set<Package>, order: seq<Package>)
    requires p in w && Folded(w, p, {}, seen, order)
    ensures Distinct(order) && forall x :: x in order <==> ComposedInto(w, p, x)
  {
    forall x | ComposedInto(w, p, x)
      ensures x in order
    {
      if x != p {
        var walk :| |walk| >= 2 && WalkFromTo(ComposeGraph(w), walk, p, x);
        WalkIsSeen(w, p, seen, order, walk);
      }
    }
  }

  /** A schema's key paths are those of every package composed into it, each package counted once, cycles or not. */
  method AllKeys(w: Catalog, p: Package) returns (keys: seq<Key>, unknown: seq<Package>, ghost order: seq<Package>)
    requires p in w
    ensures forall key :: key in keys <==> KeyComposed(w, p, key)
    ensures forall u :: u in unknown <==> UnknownComposed(w, p, u)
    ensures keys == KeysOf(w, order) && Distinct(order) && forall x :: x in order <==> ComposedInto(w, p, x)
  {
    var seen;
    keys, seen, unknown, order := FoldComposed(w, p, {});
    FoldVisitsComposed(w, p, seen, order);
    forall key
      ensures key in keys <==> KeyComposed(w, p, key)
    {
      KeysOfMembers(w, order, key);
    }
    forall u
      ensures u in unknown <==> UnknownComposed(w, p, u)
    {
      UnknownOfOrder(w, p, order, u);
    }
  }

  /** Some package composed into `p` declares the key path. */
  ghost predicate KeyComposed(w: Catalog, p: Package, key: Key) {
    exists x :: ComposedInto(w, p, x) && key in w[x].schemaKeys
  }

  /** Some package composed into `p` composes a name that is no collected package. */
  ghost predicate UnknownComposed(w: Catalog, p: Package, u: Package) {
    u !in w && exists x :: ComposedInto(w, p, x) && u in w[x].schemaComposes
  }

  lemma {:induction false} KeysOfMembers(w: Catalog, order: seq<Package>, key: Key)
    ensures key in KeysOf(w, order) <==> exists x :: x in order && x in w && key in w[x].schemaKeys
  {
    if order != [] {
      KeysOfMembers(w, order[1..], key);
      assert order == [order[0]] + order[1..];
      assert order[0] in order;
    }
  }

  lemma UnknownOfOrder(w: Catalog, p: Package, order: seq<Package>, u: Package)
    requires forall x :: x in order <==> ComposedInto(w, p, x)
    ensures UnknownIn(w, order, u) <==> UnknownComposed(w, p, u)
  {
    if x :| ComposedInto(w, p, x) && u in w[x].schemaComposes {
      assert Edge(ComposeGraph(w), x, u);
    }
  }
}
