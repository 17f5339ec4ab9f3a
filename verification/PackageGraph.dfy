/**
 The dependency-safe package order. Package names and groups are identified with their
 positions in the collation order that `localeCompare` implements, taken to be a strict
 total order.
 */
module PackageGraph {
  import opened Wrappers

  type Short = nat

  datatype Pkg = Pkg(short: Short, group: nat, deps: seq<Short>)

  const MAX_SAFE_INTEGER := 9007199254740991

  // ----- `comparePackages`

  function IndexOf(groupOrder: seq<nat>, group: nat): int {
    if groupOrder == [] then -1
    else if groupOrder[0] == group then 0
    else
      var i := IndexOf(groupOrder[1..], group);
      if i == -1 then -1 else i + 1
  }

  function GroupRank(groupOrder: seq<nat>, group: nat): int {
    var i := IndexOf(groupOrder, group);
    if i == -1 then MAX_SAFE_INTEGER else i
  }

  predicate Less(groupOrder: seq<nat>, a: Pkg, b: Pkg) {
    var ra, rb := GroupRank(groupOrder, a.group), GroupRank(groupOrder, b.group);
    ra < rb || (ra == rb && (a.group < b.group || (a.group == b.group && a.short < b.short)))
  }

  // ----- sorting one layer

  function Insert(groupOrder: seq<nat>, p: Pkg, sorted: seq<Pkg>): seq<Pkg> {
    if sorted == [] || Less(groupOrder, p, sorted[0]) then [p] + sorted
    else [sorted[0]] + Insert(groupOrder, p, sorted[1..])
  }

  function Sort(groupOrder: seq<nat>, ps: seq<Pkg>): seq<Pkg> {
    if ps == [] then [] else Insert(groupOrder, ps[0], Sort(groupOrder, ps[1..]))
  }

  ghost predicate DistinctShorts(ps: seq<Pkg>) {
    forall i, j | 0 <= i < j < |ps| :: ps[i].short != ps[j].short
  }

  ghost predicate SortedBy(groupOrder: seq<nat>, ps: seq<Pkg>) {
    forall i, j | 0 <= i < j < |ps| :: Less(groupOrder, ps[i], ps[j])
  }

  lemma {:induction false} InsertMembers(groupOrder: seq<nat>, p: Pkg, sorted: seq<Pkg>)
    ensures forall q :: q in Insert(groupOrder, p, sorted) <==> q == p || q in sorted
    ensures |Insert(groupOrder, p, sorted)| == |sorted| + 1
  {
    if sorted != [] && !Less(groupOrder, p, sorted[0]) {
      InsertMembers(groupOrder, p, sorted[1..]);
      assert forall q :: q in sorted <==> q == sorted[0] || q in sorted[1..];
    }
  }

  lemma SortedCons(groupOrder: seq<nat>, p: Pkg, rest: seq<Pkg>)
    requires SortedBy(groupOrder, rest) && forall q | q in rest :: Less(groupOrder, p, q)
    ensures SortedBy(groupOrder, [p] + rest)
  {
    var all := [p] + rest;
    forall i, j | 0 <= i < j < |all|
      ensures Less(groupOrder, all[i], all[j])
    {
      assert all[j] == rest[j - 1];
      assert all[j] in rest;
    }
  }

  lemma {:induction false} InsertSorts(groupOrder: seq<nat>, p: Pkg, sorted: seq<Pkg>)
    requires SortedBy(groupOrder, sorted) && forall q | q in sorted :: q.short != p.short
    ensures SortedBy(groupOrder, Insert(groupOrder, p, sorted))
  {
    if sorted == [] {
    } else if Less(groupOrder, p, sorted[0]) {
      forall q | q in sorted
        ensures Less(groupOrder, p, q)
      {
        var i :| 0 <= i < |sorted| && sorted[i] == q;
        assert i > 0 ==> Less(groupOrder, sorted[0], sorted[i]);
      }
      SortedCons(groupOrder, p, sorted);
    } else {
      assert sorted[0] in sorted;
      InsertSorts(groupOrder, p, sorted[1..]);
      InsertMembers(groupOrder, p, sorted[1..]);
      forall q | q in Insert(groupOrder, p, sorted[1..])
        ensures Less(groupOrder, sorted[0], q)
      {
        if q in sorted[1..] {
          var i :| 0 <= i < |sorted[1..]| && sorted[1..][i] == q;
          assert Less(groupOrder, sorted[0], sorted[i + 1]);
        }
      }
      SortedCons(groupOrder, sorted[0], Insert(groupOrder, p, sorted[1..]));
    }
  }

  /** Sorting a layer keeps its packages and orders them strictly. */
  lemma {:induction false} SortSorts(groupOrder: seq<nat>, ps: seq<Pkg>)
    requires DistinctShorts(ps)
    ensures SortedBy(groupOrder, Sort(groupOrder, ps))
    ensures forall q :: q in Sort(groupOrder, ps) <==> q in ps
    ensures |Sort(groupOrder, ps)| == |ps|
  {
    if ps != [] {
      SortSorts(groupOrder, ps[1..]);
      var rest := Sort(groupOrder, ps[1..]);
      forall q | q in rest
        ensures q.short != ps[0].short
      {
        var i :| 0 <= i < |ps[1..]| && ps[1..][i] == q;
        assert ps[i + 1].short != ps[0].short;
      }
      InsertSorts(groupOrder, ps[0], rest);
      InsertMembers(groupOrder, ps[0], rest);
      assert forall q :: q in ps <==> q == ps[0] || q in ps[1..];
    }
  }

  // ----- the package map: the last manifest of a name, at the place of the first

  function MapSet(values: seq<Pkg>, p: Pkg): seq<Pkg> {
    if values == [] then [p]
    else if values[0].short == p.short then [p] + values[1..]
    else [values[0]] + MapSet(values[1..], p)
  }

  function MapValues(packages: seq<Pkg>): seq<Pkg> {
    if packages == [] then []
    else MapSet(MapValues(packages[..|packages| - 1]), packages[|packages| - 1])
  }

  lemma {:induction false} MapSetMembers(values: seq<Pkg>, p: Pkg)
    requires DistinctShorts(values)
    ensures DistinctShorts(MapSet(values, p))
    ensures forall q :: q in MapSet(values, p) <==> q == p || (q in values && q.short != p.short)
  {
    if values != [] {
      assert forall q :: q in values <==> q == values[0] || q in values[1..];
      assert forall q | q in values[1..] :: q.short != values[0].short by {
        forall q | q in values[1..]
          ensures q.short != values[0].short
        {
          var i :| 0 <= i < |values[1..]| && values[1..][i] == q;
          assert values[i + 1].short != values[0].short;
        }
      }
      if values[0].short != p.short {
        MapSetMembers(values[1..], p);
        DistinctCons(values[0], MapSet(values[1..], p));
      } else {
        DistinctCons(p, values[1..]);
      }
    }
  }

  lemma DistinctCons(p: Pkg, rest: seq<Pkg>)
    requires DistinctShorts(rest) && forall q | q in rest :: q.short != p.short
    ensures DistinctShorts([p] + rest)
  {
    var all := [p] + rest;
    forall i, j | 0 <= i < j < |all|
      ensures all[i].short != all[j].short
    {
      assert all[j] == rest[j - 1];
      assert all[j] in rest;
    }
  }

  /** The map holds, for every name, the last package of that name. */
  lemma {:induction false} MapValuesMembers(packages: seq<Pkg>)
    ensures DistinctShorts(MapValues(packages))
    ensures forall q :: q in MapValues(packages) <==> LastOfName(packages, q)
  {
    if packages != [] {
      var init, p := packages[..|packages| - 1], packages[|packages| - 1];
      MapValuesMembers(init);
      MapSetMembers(MapValues(init), p);
      forall q
        ensures LastOfName(packages, q) <==> q == p || (LastOfName(init, q) && q.short != p.short)
      {
        LastOfNameSnoc(init, p, q);
        assert init + [p] == packages;
      }
    }
  }

  ghost predicate LastOfName(packages: seq<Pkg>, q: Pkg) {
    exists i :: 0 <= i < |packages| && packages[i] == q && forall j | i < j < |packages| :: packages[j].short != q.short
  }

  lemma LastOfNameSnoc(init: seq<Pkg>, p: Pkg, q: Pkg)
    ensures LastOfName(init + [p], q) <==> q == p || (LastOfName(init, q) && q.short != p.short)
  {
    var packages := init + [p];
    assert packages[|init|] == p;
    if LastOfName(packages, q) && q != p {
      var i :| 0 <= i < |packages| && packages[i] == q && forall j | i < j < |packages| :: packages[j].short != q.short;
      assert init[i] == q;
      assert forall j | i < j < |init| :: packages[j] == init[j];
    }
    if LastOfName(init, q) && q.short != p.short {
      var i :| 0 <= i < |init| && init[i] == q && forall j | i < j < |init| :: init[j].short != q.short;
      assert packages[i] == q;
    }
  }
}
