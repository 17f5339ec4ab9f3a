/**
 `topoSort`: place layer after layer of packages whose dependencies are all placed, each
 layer sorted. The output is the one list ordered by dependency depth, then group rank,
 group and name.
 */
module TopoSort {
  import opened Wrappers
  import opened PackageGraph

  type Depths = map<Short, nat>

  ghost predicate HasShort(ps: seq<Pkg>, s: Short) {
    exists p :: p in ps && p.short == s
  }

  /** The dependency depth: one more than the deepest dependency, 0 without dependencies. */
  ghost predicate DeepAs(depth: Depths, p: Pkg) {
    && p.short in depth
    && (forall d | d in p.deps :: d in depth && depth[d] < depth[p.short])
    && (depth[p.short] == 0 || exists d :: d in p.deps && d in depth && depth[d] + 1 == depth[p.short])
  }

  ghost predicate DepthMap(ps: seq<Pkg>, depth: Depths) {
    && (forall s :: s in depth <==> HasShort(ps, s))
    && (forall p | p in ps :: DeepAs(depth, p))
  }

  ghost predicate Before(groupOrder: seq<nat>, depth: Depths, a: Pkg, b: Pkg)
    requires a.short in depth && b.short in depth
  {
    depth[a.short] < depth[b.short] || (depth[a.short] == depth[b.short] && Less(groupOrder, a, b))
  }

  ghost predicate Ordered(groupOrder: seq<nat>, depth: Depths, out: seq<Pkg>) {
    && (forall p | p in out :: p.short in depth)
    && (forall i, j | 0 <= i < j < |out| :: out[i] in out && out[j] in out && Before(groupOrder, depth, out[i], out[j]))
  }

  /** `out` lists exactly the packages of `values`, ordered by depth and then by `comparePackages`. */
  ghost predicate IsTopoOrder(groupOrder: seq<nat>, values: seq<Pkg>, out: seq<Pkg>) {
    && |out| == |values|
    && (forall p :: p in out <==> p in values)
    && exists depth :: DepthMap(values, depth) && Ordered(groupOrder, depth, out)
  }

  /** A non-empty set of packages each of which waits for one of them or for no package at all. */
  ghost predicate Stuck(values: seq<Pkg>, s: seq<Pkg>) {
    && s != []
    && (forall p | p in s :: p in values)
    && (forall p | p in s :: exists d :: d in p.deps && (HasShort(s, d) || !HasShort(values, d)))
  }

  // ----- one round

  predicate DepsPlaced(placed: set<Short>, p: Pkg) {
    forall d | d in p.deps :: d in placed
  }

  function Ready(remaining: seq<Pkg>, placed: set<Short>): seq<Pkg> {
    if remaining == [] then []
    else (if DepsPlaced(placed, remaining[0]) then [remaining[0]] else []) + Ready(remaining[1..], placed)
  }

  function Unready(remaining: seq<Pkg>, placed: set<Short>): seq<Pkg> {
    if remaining == [] then []
    else (if DepsPlaced(placed, remaining[0]) then [] else [remaining[0]]) + Unready(remaining[1..], placed)
  }

  lemma {:induction false} ReadySplits(remaining: seq<Pkg>, placed: set<Short>)
    ensures forall p :: p in Ready(remaining, placed) <==> p in remaining && DepsPlaced(placed, p)
    ensures forall p :: p in Unready(remaining, placed) <==> p in remaining && !DepsPlaced(placed, p)
    ensures |Ready(remaining, placed)| + |Unready(remaining, placed)| == |remaining|
  {
    if remaining != [] {
      ReadySplits(remaining[1..], placed);
      assert forall p :: p in remaining <==> p == remaining[0] || p in remaining[1..];
    }
  }

  lemma {:induction false} ReadyDistinct(remaining: seq<Pkg>, placed: set<Short>)
    requires DistinctShorts(remaining)
    ensures DistinctShorts(Ready(remaining, placed)) && DistinctShorts(Unready(remaining, placed))
  {
    if remaining != [] {
      ReadyDistinct(remaining[1..], placed);
      ReadySplits(remaining[1..], placed);
      forall p | p in remaining[1..]
        ensures p.short != remaining[0].short
      {
        var i :| 0 <= i < |remaining[1..]| && remaining[1..][i] == p;
        assert remaining[i + 1].short != remaining[0].short;
      }
      DistinctCons(remaining[0], Ready(remaining[1..], placed));
      DistinctCons(remaining[0], Unready(remaining[1..], placed));
    }
  }

  function Place(placed: set<Short>, layer: seq<Pkg>): set<Short> {
    placed + set p | p in layer :: p.short
  }

  // ----- the loop invariant

  /** Everything placed so far has its true depth, below `round`. */
  ghost predicate Layered(out: seq<Pkg>, depth: Depths, round: nat) {
    && DepthMap(out, depth)
    && (forall s | s in depth :: depth[s] < round)
  }

  /** Whatever still waits has a dependency that is unplaced or was placed only in the last round. */
  ghost predicate Waiting(remaining: seq<Pkg>, depth: Depths, round: nat) {
    && (forall p | p in remaining :: p.short !in depth)
    && (round > 0 ==> forall p | p in remaining :: exists d :: d in p.deps && (d !in depth || depth[d] == round - 1))
  }

  ghost function Deepen(depth: Depths, layer: seq<Pkg>, round: nat): Depths {
    map s | s in depth.Keys + (set p | p in layer :: p.short) :: if s in depth then depth[s] else round
  }

  lemma DeepenKeys(depth: Depths, layer: seq<Pkg>, round: nat)
    ensures forall s :: s in Deepen(depth, layer, round) <==> s in depth || HasShort(layer, s)
    ensures forall s | s in Deepen(depth, layer, round) :: Deepen(depth, layer, round)[s] == if s in depth
            then depth[s] else round
  {
  }

  lemma LayerIsLayered(out: seq<Pkg>, depth: Depths, round: nat, layer: seq<Pkg>)
    requires Layered(out, depth, round) && Waiting(layer, depth, round)
    requires forall p, d | p in layer && d in p.deps :: d in depth
    ensures Layered(out + layer, Deepen(depth, layer, round), round + 1)
  {
    var deeper := Deepen(depth, layer, round);
    DeepenKeys(depth, layer, round);
    forall s
      ensures s in deeper <==> HasShort(out + layer, s)
    {
      ShortsAppend(out, layer, s);
    }
    forall p | p in out + layer
      ensures DeepAs(deeper, p) && deeper[p.short] < round + 1
    {
      LayeredIsDeep(out, depth, round, layer, p);
    }
  }

  lemma ShortsAppend(a: seq<Pkg>, b: seq<Pkg>, s: Short)
    ensures HasShort(a + b, s) <==> HasShort(a, s) || HasShort(b, s)
  {
    assert forall p :: p in a + b <==> p in a || p in b;
  }

  lemma LayeredIsDeep(out: seq<Pkg>, depth: Depths, round: nat, layer: seq<Pkg>, p: Pkg)
    requires Layered(out, depth, round) && Waiting(layer, depth, round) && p in out + layer
    requires forall p, d | p in layer && d in p.deps :: d in depth
    ensures DeepAs(Deepen(depth, layer, round), p) && Deepen(depth, layer, round)[p.short] < round + 1
  {
    var deeper := Deepen(depth, layer, round);
    DeepenKeys(depth, layer, round);
    if p in out {
      assert DeepAs(depth, p);
    } else {
      assert p in layer;
      NewIsDeep(depth, deeper, round, p);
    }
  }

  lemma NewIsDeep(depth: Depths, deeper: Depths, round: nat, p: Pkg)
    requires p.short in deeper && deeper[p.short] == round
    requires forall d | d in p.deps :: d in depth && d in deeper && deeper[d] == depth[d] < round
    requires round > 0 ==> exists d :: d in p.deps && (d !in depth || depth[d] == round - 1)
    ensures DeepAs(deeper, p)
  {
    if round > 0 {
      var d :| d in p.deps && (d !in depth || depth[d] == round - 1);
      assert deeper[d] + 1 == deeper[p.short];
    }
  }

  lemma RestIsWaiting(rest: seq<Pkg>, depth: Depths, round: nat, layer: seq<Pkg>)
    requires (forall p | p in rest :: p.short !in depth && !HasShort(layer, p.short))
    requires forall p | p in rest :: exists d :: d in p.deps && d !in depth
    ensures Waiting(rest, Deepen(depth, layer, round), round + 1)
  {
    DeepenKeys(depth, layer, round);
    forall p | p in rest
      ensures exists d :: d in p.deps && (d !in Deepen(depth, layer, round) || Deepen(depth, layer, round)[d] == round)
    {
      var d :| d in p.deps && d !in depth;
      assert d !in Deepen(depth, layer, round) || Deepen(depth, layer, round)[d] == round;
    }
  }

  lemma LayerIsOrdered(groupOrder: seq<nat>, out: seq<Pkg>, depth: Depths, round: nat, layer: seq<Pkg>)
    requires Ordered(groupOrder, depth, out) && Layered(out, depth, round)
    requires SortedBy(groupOrder, layer) && forall p | p in layer :: p.short !in depth
    ensures Ordered(groupOrder, Deepen(depth, layer, round), out + layer)
  {
    var deeper, all := Deepen(depth, layer, round), out + layer;
    DeepenKeys(depth, layer, round);
    assert forall p :: p in all <==> p in out || p in layer;
    assert forall p | p in layer :: HasShort(layer, p.short);
    forall i, j | 0 <= i < j < |all|
      ensures all[i] in all && all[j] in all && Before(groupOrder, deeper, all[i], all[j])
    {
      if j < |out| {
        assert out[i] in out && out[j] in out;
        assert Before(groupOrder, depth, out[i], out[j]);
      } else {
        assert all[j] == layer[j - |out|] && all[j] in layer;
        if i < |out| {
          assert all[i] in out && depth[all[i].short] < round;
        } else {
          assert all[i] == layer[i - |out|] && all[i] in layer;
        }
      }
    }
  }

  /** All that the loop keeps. */
  ghost predicate Invariant(groupOrder: seq<nat>, values: seq<Pkg>, remaining: seq<Pkg>, placed: set<Short>,
                            out: seq<Pkg>, depth: Depths, round: nat) {
    && (forall p :: p in values <==> p in out || p in remaining)
    && |out| + |remaining| == |values|
    && DistinctShorts(remaining)
    && (forall s :: s in placed <==> s in depth)
    && Layered(out, depth, round) && Waiting(remaining, depth, round)
    && Ordered(groupOrder, depth, out)
  }

  lemma InvariantInitially(groupOrder: seq<nat>, values: seq<Pkg>)
    requires DistinctShorts(values)
    ensures Invariant(groupOrder, values, values, {}, [], map[], 0)
  {
  }

  lemma RoundKeepsOrder(groupOrder: seq<nat>, remaining: seq<Pkg>, placed: set<Short>, out: seq<Pkg>, depth: Depths,
                        round: nat)
    requires DistinctShorts(remaining) && (forall s :: s in placed <==> s in depth)
    requires Layered(out, depth, round) && Waiting(remaining, depth, round) && Ordered(groupOrder, depth, out)
    ensures var layer, rest := Sort(groupOrder, Ready(remaining, placed)), Unready(remaining, placed);
            var deeper := Deepen(depth, layer, round);
            && Layered(out + layer, deeper, round + 1)
            && Waiting(rest, deeper, round + 1)
            && Ordered(groupOrder, deeper, out + layer)
  {
    var ready, rest := Ready(remaining, placed), Unready(remaining, placed);
    var layer := Sort(groupOrder, ready);
    ReadySplits(remaining, placed);
    ReadyDistinct(remaining, placed);
    SortSorts(groupOrder, ready);
    assert Waiting(layer, depth, round);
    LayerIsLayered(out, depth, round, layer);
    LayerIsOrdered(groupOrder, out, depth, round, layer);
    forall p | p in rest
      ensures !HasShort(layer, p.short)
    {
      ShortsDiffer(remaining, p, layer);
    }
    RestIsWaiting(rest, depth, round, layer);
  }

  lemma ShortsDiffer(remaining: seq<Pkg>, p: Pkg, layer: seq<Pkg>)
    requires DistinctShorts(remaining) && p in remaining && p !in layer && forall q | q in layer :: q in remaining
    ensures !HasShort(layer, p.short)
  {
    if q :| q in layer && q.short == p.short {
      assert false;
    }
  }

  lemma RoundKeepsInvariant(groupOrder: seq<nat>, values: seq<Pkg>, remaining: seq<Pkg>, placed: set<Short>,
                            out: seq<Pkg>, depth: Depths, round: nat)
    requires Invariant(groupOrder, values, remaining, placed, out, depth, round)
    ensures var layer, rest := Sort(groupOrder, Ready(remaining, placed)), Unready(remaining, placed);
            Invariant(groupOrder, values, rest, Place(placed, layer), out + layer, Deepen(depth, layer, round), round
              + 1)
    ensures |Sort(groupOrder, Ready(remaining, placed))| == |Ready(remaining, placed)|
    ensures |Ready(remaining, placed)| + |Unready(remaining, placed)| == |remaining|
  {
    var layer := Sort(groupOrder, Ready(remaining, placed));
    RoundKeepsOrder(groupOrder, remaining, placed, out, depth, round);
    RoundKeepsBooks(groupOrder, values, remaining, placed, out, depth, round);
  }

  lemma RoundKeepsBooks(groupOrder: seq<nat>, values: seq<Pkg>, remaining: seq<Pkg>, placed: set<Short>, out: seq<Pkg>,
                        depth: Depths, round: nat)
    requires DistinctShorts(remaining) && (forall p :: p in values <==> p in out || p in remaining)
    requires |out| + |remaining| == |values| && (forall s :: s in placed <==> s in depth)
    ensures var layer, rest := Sort(groupOrder, Ready(remaining, placed)), Unready(remaining, placed);
            && (forall p :: p in values <==> p in out + layer || p in rest)
            && |out + layer| + |rest| == |values|
            && DistinctShorts(rest)
            && (forall s :: s in Place(placed, layer) <==> s in Deepen(depth, layer, round))
    ensures |Sort(groupOrder, Ready(remaining, placed))| == |Ready(remaining, placed)|
    ensures |Ready(remaining, placed)| + |Unready(remaining, placed)| == |remaining|
  {
    var layer := Sort(groupOrder, Ready(remaining, placed));
    ReadySplits(remaining, placed);
    ReadyDistinct(remaining, placed);
    SortSorts(groupOrder, Ready(remaining, placed));
    DeepenKeys(depth, layer, round);
    assert forall p :: p in out + layer <==> p in out || p in layer;
  }

  /** With nothing ready, the waiting packages are stuck. */
  lemma NothingReadyIsStuck(groupOrder: seq<nat>, values: seq<Pkg>, remaining: seq<Pkg>, placed: set<Short>,
                            out: seq<Pkg>, depth: Depths, round: nat)
    requires Invariant(groupOrder, values, remaining, placed, out, depth, round)
    requires remaining != [] && Ready(remaining, placed) == []
    ensures Stuck(values, remaining)
  {
    ReadySplits(remaining, placed);
    forall p | p in remaining
      ensures exists d :: d in p.deps && (HasShort(remaining, d) || !HasShort(values, d))
    {
      assert p !in Ready(remaining, placed);
      var d :| d in p.deps && d !in placed;
      if HasShort(values, d) {
        var q :| q in values && q.short == d;
        assert q !in out;
      }
      assert HasShort(remaining, d) || !HasShort(values, d);
    }
  }

  /** A depth map rules out every stuck set: depths would drop forever. */
  lemma {:induction false} DepthsRuleOutStuck(values: seq<Pkg>, depth: Depths, s: seq<Pkg>, p: Pkg)
    requires DepthMap(values, depth) && Stuck(values, s) && p in s
    ensures false
    decreases if p.short in depth then depth[p.short] else 0
  {
    var d :| d in p.deps && (HasShort(s, d) || !HasShort(values, d));
    assert DeepAs(depth, p);
    var q :| q in s && q.short == d;
    DepthsRuleOutStuck(values, depth, s, q);
  }

  ghost predicate Unsortable(values: seq<Pkg>) {
    exists s :: Stuck(values, s)
  }

  /** One round: sort what is ready, append it, and keep the rest. */
  method PlaceLayer(groupOrder: seq<nat>, ghost values: seq<Pkg>, remaining: seq<Pkg>, placed: set<Short>,
                    out: seq<Pkg>,
                    ghost depth: Depths, ghost round: nat)
    returns (progress: bool, remaining': seq<Pkg>, placed': set<Short>, out': seq<Pkg>, ghost depth': Depths)
    requires Invariant(groupOrder, values, remaining, placed, out, depth, round) && remaining != []
    ensures !progress ==> Stuck(values, remaining)
    ensures progress ==> Invariant(groupOrder, values, remaining', placed', out', depth', round + 1)
    ensures progress ==> |remaining'| < |remaining|
  {
    var ready := Sort(groupOrder, Ready(remaining, placed));
    RoundKeepsInvariant(groupOrder, values, remaining, placed, out, depth, round);
    remaining', placed', out', depth' := remaining, placed, out, depth;
    progress := |ready| > 0;
    if !progress {
      NothingReadyIsStuck(groupOrder, values, remaining, placed, out, depth, round);
      return;
    }
    remaining' := Unready(remaining, placed);
    placed' := Place(placed, ready);
    out' := out + ready;
    depth' := Deepen(depth, ready, round);
  }

  /** Layer after layer; the failure carries the packages that remain. */
  method TopoSort(packages: seq<Pkg>, groupOrder: seq<nat>) returns (result: Result<seq<Pkg>, seq<Pkg>>)
    ensures result.Success? ==> IsTopoOrder(groupOrder, MapValues(packages), result.value)
    ensures result.Failure? ==> Stuck(MapValues(packages), result.error)
    ensures result.Failure? <==> Unsortable(MapValues(packages))
  {
    var values := MapValues(packages);
    var remaining := values;
    var placed: set<Short> := {};
    var out: seq<Pkg> := [];
    ghost var depth: Depths, round := map[], 0;
    MapValuesMembers(packages);
    InvariantInitially(groupOrder, values);
    while |remaining| > 0
      invariant Invariant(groupOrder, values, remaining, placed, out, depth, round)
      decreases |remaining|
    {
      var progress;
      var rest;
      progress, rest, placed, out, depth := PlaceLayer(groupOrder, values, remaining, placed, out, depth, round);
      if !progress {
        return Failure(remaining);
      }
      remaining := rest;
      round := round + 1;
    }
    FinishedIsTopoOrder(groupOrder, values, placed, out, depth, round);
    return Success(out);
  }

  lemma FinishedIsTopoOrder(groupOrder: seq<nat>, values: seq<Pkg>, placed: set<Short>, out: seq<Pkg>, depth: Depths,
                            round: nat)
    requires Invariant(groupOrder, values, [], placed, out, depth, round)
    ensures IsTopoOrder(groupOrder, values, out)
    ensures !Unsortable(values)
  {
    assert forall s :: HasShort(values, s) <==> HasShort(out, s);
    assert DepthMap(values, depth);
    if Unsortable(values) {
      var s :| Stuck(values, s);
      DepthsRuleOutStuck(values, depth, s, s[0]);
    }
  }

  // ----- the order is determined by the set of packages

  lemma {:induction false} DepthIsUnique(v: seq<Pkg>, w: seq<Pkg>, a: Depths, b: Depths, p: Pkg)
    requires DepthMap(v, a) && DepthMap(w, b) && (forall q :: q in v <==> q in w) && p in v
    ensures a[p.short] == b[p.short]
    decreases a[p.short]
  {
    assert DeepAs(a, p);
    forall d | d in p.deps
      ensures a[d] == b[d]
    {
      var q :| q in v && q.short == d;
      DepthIsUnique(v, w, a, b, q);
    }
    assert DeepAs(b, p);
    SameDependencies(a, b, p);
  }

  lemma SameDependencies(a: Depths, b: Depths, p: Pkg)
    requires DeepAs(a, p) && DeepAs(b, p) && forall d | d in p.deps :: a[d] == b[d]
    ensures a[p.short] == b[p.short]
  {
  }

  lemma {:induction false} StrictOrderIsUnique(groupOrder: seq<nat>, a: Depths, b: Depths, out: seq<Pkg>,
                                               other: seq<Pkg>)
    requires Ordered(groupOrder, a, out) && Ordered(groupOrder, b, other)
    requires forall p :: p in out <==> p in other
    requires forall p | p in out :: a[p.short] == b[p.short]
    requires |out| == |other|
    ensures out == other
    decreases |out|
  {
    if out != [] {
      SameFirst(groupOrder, a, b, out, other);
      OrderedTail(groupOrder, a, out);
      OrderedTail(groupOrder, b, other);
      StrictOrderIsUnique(groupOrder, a, b, out[1..], other[1..]);
      assert out == [out[0]] + out[1..] && other == [other[0]] + other[1..];
    }
  }

  lemma SameFirst(groupOrder: seq<nat>, a: Depths, b: Depths, out: seq<Pkg>, other: seq<Pkg>)
    requires Ordered(groupOrder, a, out) && Ordered(groupOrder, b, other) && out != [] && other != []
    requires out[0] in other && other[0] in out
    requires a[out[0].short] == b[out[0].short] && a[other[0].short] == b[other[0].short]
    ensures out[0] == other[0]
  {
    var i :| 0 <= i < |other| && other[i] == out[0];
    var j :| 0 <= j < |out| && out[j] == other[0];
    assert i > 0 ==> Before(groupOrder, b, other[0], other[i]);
    assert j > 0 ==> Before(groupOrder, a, out[0], out[j]);
  }

  lemma OrderedTail(groupOrder: seq<nat>, depth: Depths, out: seq<Pkg>)
    requires Ordered(groupOrder, depth, out) && out != []
    ensures Ordered(groupOrder, depth, out[1..])
    ensures forall p :: p in out[1..] <==> p in out && p != out[0]
  {
    forall p | p in out[1..]
      ensures p in out && p != out[0]
    {
      var i :| 0 <= i < |out[1..]| && out[1..][i] == p;
      assert Before(groupOrder, depth, out[0], out[i + 1]);
    }
    forall i, j | 0 <= i < j < |out[1..]|
      ensures out[1..][i] in out[1..] && out[1..][j] in out[1..] && Before(groupOrder, depth, out[1..][i], out[1..][j])
    {
      assert Before(groupOrder, depth, out[i + 1], out[j + 1]);
    }
  }

  /** The order in which manifests are read never shows in the result. */
  lemma TopoOrderIsUnique(groupOrder: seq<nat>, v: seq<Pkg>, w: seq<Pkg>, out: seq<Pkg>, other: seq<Pkg>)
    requires IsTopoOrder(groupOrder, v, out) && IsTopoOrder(groupOrder, w, other)
    requires (forall p :: p in v <==> p in w) && |v| == |w|
    ensures out == other
  {
    var a :| DepthMap(v, a) && Ordered(groupOrder, a, out);
    var b :| DepthMap(w, b) && Ordered(groupOrder, b, other);
    forall p | p in out
      ensures a[p.short] == b[p.short]
    {
      DepthIsUnique(v, w, a, b, p);
    }
    StrictOrderIsUnique(groupOrder, a, b, out, other);
  }

  lemma {:induction false} SameLength(v: seq<Pkg>, w: seq<Pkg>)
    requires DistinctShorts(v) && DistinctShorts(w) && forall p :: p in v <==> p in w
    ensures |v| == |w|
  {
    assert (v != [] ==> v[0] in v) && (w != [] ==> w[0] in w);
    if v != [] {
      var first, rest := v[0], v[1..];
      assert first in w;
      var i :| 0 <= i < |w| && w[i] == first;
      var others := w[..i] + w[i + 1..];
      WithoutFirst(v);
      WithoutOne(w, i);
      SameLength(rest, others);
    }
  }

  lemma WithoutFirst(v: seq<Pkg>)
    requires DistinctShorts(v) && v != []
    ensures DistinctShorts(v[1..]) && forall p :: p in v[1..] <==> p in v && p != v[0]
  {
    forall p | p in v[1..]
      ensures p != v[0]
    {
      var i :| 0 <= i < |v[1..]| && v[1..][i] == p;
      assert v[0].short != v[i + 1].short;
    }
  }

  lemma WithoutOne(w: seq<Pkg>, i: nat)
    requires DistinctShorts(w) && i < |w|
    ensures DistinctShorts(w[..i] + w[i + 1..])
    ensures forall p :: p in w[..i] + w[i + 1..] <==> p in w && p != w[i]
  {
    var others := w[..i] + w[i + 1..];
    assert w == w[..i] + [w[i]] + w[i + 1..];
    forall k | 0 <= k < |others|
      ensures others[k] == w[if k < i then k else k + 1] && others[k] != w[i]
    {
      assert w[if k < i then k else k + 1].short != w[i].short;
    }
  }

  /** The result is the same exactly when the same manifests are the last of their names. */
  lemma SameResultIff(groupOrder: seq<nat>, a: seq<Pkg>, b: seq<Pkg>, out: seq<Pkg>, other: seq<Pkg>)
    requires IsTopoOrder(groupOrder, MapValues(a), out) && IsTopoOrder(groupOrder, MapValues(b), other)
    ensures out == other <==> forall p :: LastOfName(a, p) <==> LastOfName(b, p)
  {
    MapValuesMembers(a);
    MapValuesMembers(b);
    if forall p :: LastOfName(a, p) <==> LastOfName(b, p) {
      SameLength(MapValues(a), MapValues(b));
      TopoOrderIsUnique(groupOrder, MapValues(a), MapValues(b), out, other);
    }
    if out == other {
      forall p
        ensures LastOfName(a, p) <==> LastOfName(b, p)
      {
        assert p in MapValues(a) <==> p in out;
      }
    }
  }

  /** So manifests with distinct names can be read in any order. */
  lemma ReadOrderIsInvisible(groupOrder: seq<nat>, a: seq<Pkg>, b: seq<Pkg>, out: seq<Pkg>, other: seq<Pkg>)
    requires DistinctShorts(a) && DistinctShorts(b) && forall p :: p in a <==> p in b
    requires IsTopoOrder(groupOrder, MapValues(a), out) && IsTopoOrder(groupOrder, MapValues(b), other)
    ensures out == other
  {
    forall p
      ensures LastOfName(a, p) <==> LastOfName(b, p)
    {
      DistinctIsLast(a, p);
      DistinctIsLast(b, p);
    }
    SameResultIff(groupOrder, a, b, out, other);
  }

  lemma DistinctIsLast(a: seq<Pkg>, p: Pkg)
    requires DistinctShorts(a)
    ensures LastOfName(a, p) <==> p in a
  {
    if p in a {
      var i :| 0 <= i < |a| && a[i] == p;
    }
  }

  /** With a repeated name they cannot: the later manifest counts. */
  lemma RepeatedNameShows(groupOrder: seq<nat>, p: Pkg, q: Pkg)
    requires p.short == q.short && p != q && p.deps == [] && q.deps == []
    ensures IsTopoOrder(groupOrder, MapValues([p, q]), [q]) && IsTopoOrder(groupOrder, MapValues([q, p]), [p])
    ensures [p] != [q]
  {
    LaterCounts(p, q);
    LaterCounts(q, p);
    OneIsOrdered(groupOrder, p);
    OneIsOrdered(groupOrder, q);
    assert [p][0] != [q][0];
  }

  lemma LaterCounts(p: Pkg, q: Pkg)
    requires p.short == q.short
    ensures MapValues([p, q]) == [q]
  {
    assert [p, q][..1] == [p] && [p][..0] == [];
    assert MapValues([p]) == [p];
  }

  lemma OneIsOrdered(groupOrder: seq<nat>, p: Pkg)
    requires p.deps == []
    ensures IsTopoOrder(groupOrder, [p], [p])
  {
    var depth: Depths := map[p.short := 0];
    assert HasShort([p], p.short);
    assert DepthMap([p], depth) && Ordered(groupOrder, depth, [p]);
  }

  lemma DeeperIsLater(groupOrder: seq<nat>, depth: Depths, out: seq<Pkg>, i: nat, j: nat)
    requires Ordered(groupOrder, depth, out) && i < |out| && j < |out|
    requires out[i] in out && out[j] in out && depth[out[i].short] < depth[out[j].short]
    ensures i < j
  {
    if j < i {
      assert false;
    }
  }

  /** Every dependency comes strictly earlier. */
  lemma DependenciesComeFirst(groupOrder: seq<nat>, values: seq<Pkg>, out: seq<Pkg>, j: nat, d: Short) returns (i: nat)
    requires IsTopoOrder(groupOrder, values, out) && j < |out| && d in out[j].deps
    ensures i < j && out[i].short == d
  {
    var depth :| DepthMap(values, depth) && Ordered(groupOrder, depth, out);
    assert out[j] in values && DeepAs(depth, out[j]);
    assert HasShort(values, d);
    var q :| q in values && q.short == d;
    i :| 0 <= i < |out| && out[i] == q;
    DeeperIsLater(groupOrder, depth, out, i, j);
  }

  // ----- the order in so many words

  /** The first place of the group in the list. */
  ghost predicate ListedAt(groupOrder: seq<nat>, group: nat, k: nat) {
    k < |groupOrder| && groupOrder[k] == group && forall j | 0 <= j < k :: groupOrder[j] != group
  }

  lemma {:induction false} RankIs(groupOrder: seq<nat>, group: nat)
    ensures forall k: nat | ListedAt(groupOrder, group, k) :: IndexOf(groupOrder, group) == k
    ensures group !in groupOrder ==> IndexOf(groupOrder, group) == -1
  {
    if groupOrder != [] && groupOrder[0] != group {
      RankIs(groupOrder[1..], group);
      forall k: nat | ListedAt(groupOrder, group, k)
        ensures IndexOf(groupOrder, group) == k
      {
        assert ListedAt(groupOrder[1..], group, k - 1) by {
          assert forall j | 0 <= j < k - 1 :: groupOrder[1..][j] == groupOrder[j + 1];
        }
      }
    }
  }

  /**
   Which of two packages comes first: the one of smaller depth; at one depth the one whose group is listed
   earlier, a listed group before an unlisted one; of unlisted groups the smaller; and in one group by name.
   A list has fewer entries than the rank of an unlisted group, as every JavaScript array.
   */
  lemma ComesFirst(groupOrder: seq<nat>, values: seq<Pkg>, out: seq<Pkg>, depth: Depths, i: nat, j: nat)
    requires IsTopoOrder(groupOrder, values, out) && DepthMap(values, depth) && i < |out| && j < |out|
    requires |groupOrder| <= 9007199254740991
    requires var p, q := out[i], out[j];
             && p.short in depth && q.short in depth
             && (depth[p.short] < depth[q.short]
                 || (depth[p.short] == depth[q.short] && Precedes(groupOrder, p, q)))
    ensures i < j
  {
    var own :| DepthMap(values, own) && Ordered(groupOrder, own, out);
    assert out[i] in out && out[j] in out;
    DepthIsUnique(values, values, depth, own, out[i]);
    DepthIsUnique(values, values, depth, own, out[j]);
    if Precedes(groupOrder, out[i], out[j]) {
      PrecedesIsLess(groupOrder, out[i], out[j]);
    }
    EarlierIsNotAfter(groupOrder, own, out, i, j);
  }

  lemma PrecedesIsLess(groupOrder: seq<nat>, p: Pkg, q: Pkg)
    requires Precedes(groupOrder, p, q) && |groupOrder| <= 9007199254740991
    ensures Less(groupOrder, p, q) && !Less(groupOrder, q, p) && p != q
  {
    RankIs(groupOrder, p.group);
    RankIs(groupOrder, q.group);
    if p.group in groupOrder {
      var k := FirstPlace(groupOrder, p.group);
    }
  }

  lemma EarlierIsNotAfter(groupOrder: seq<nat>, depth: Depths, out: seq<Pkg>, i: nat, j: nat)
    requires Ordered(groupOrder, depth, out) && i < |out| && j < |out| && out[i] in out && out[j] in out
    requires depth[out[i].short] < depth[out[j].short]
             || (depth[out[i].short] == depth[out[j].short] && out[i] != out[j] && !Less(groupOrder, out[j], out[i]))
    ensures i < j
  {
    if j < i {
      assert false;
    }
  }

  /** Of two packages of one depth, spelled out. */
  ghost predicate Precedes(groupOrder: seq<nat>, p: Pkg, q: Pkg) {
    || (exists k: nat, m: nat :: k < m && ListedAt(groupOrder, p.group, k) && ListedAt(groupOrder, q.group, m))
    || (p.group in groupOrder && q.group !in groupOrder)
    || (p.group !in groupOrder && q.group !in groupOrder && p.group < q.group)
    || (p.group == q.group && p.short < q.short)
  }

  /** Any two packages are ordered by that. */
  lemma OneComesFirst(groupOrder: seq<nat>, p: Pkg, q: Pkg)
    requires p.short != q.short
    ensures Precedes(groupOrder, p, q) || Precedes(groupOrder, q, p)
  {
    if p.group in groupOrder && q.group in groupOrder && p.group != q.group {
      var k := FirstPlace(groupOrder, p.group);
      var m := FirstPlace(groupOrder, q.group);
      assert k < m || m < k;
    }
  }

  lemma {:induction false} FirstPlace(groupOrder: seq<nat>, group: nat) returns (k: nat)
    requires group in groupOrder
    ensures ListedAt(groupOrder, group, k)
  {
    if groupOrder[0] == group {
      k := 0;
    } else {
      k := FirstPlace(groupOrder[1..], group);
      k := k + 1;
      assert forall j | 1 <= j < k :: groupOrder[j] == groupOrder[1..][j - 1];
    }
  }
}
