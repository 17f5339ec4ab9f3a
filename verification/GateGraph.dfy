/**
 Gates, their dependency graph, and the validation that runs before any gate
 starts: unique ids, closed `needs`, and the depth-first cycle search.
 */
module GateGraph {
  import opened Wrappers
  import opened Graphs

  datatype Id = Id(text: string)

  datatype Gate = Gate(id: Id, needs: seq<Id>, allowFailure: bool)

  function Ids(gates: seq<Gate>): (ids: seq<Id>) {
    seq(|gates|, i requires 0 <= i < |gates| => gates[i].id)
  }

  ghost predicate UniqueIds(gates: seq<Gate>) {
    forall i, j | 0 <= i < j < |gates| :: gates[i].id != gates[j].id
  }

  /** The needs map a JavaScript `Map` built from the gate list holds: the last gate of an id wins. */
  function NeedsGraph(gates: seq<Gate>): Graph<Id>
  {
    if gates == [] then map[]
    else
      var last := gates[|gates| - 1];
      NeedsGraph(gates[..|gates| - 1])[last.id := last.needs]
  }

  ghost predicate HasId(gates: seq<Gate>, id: Id) {
    exists k :: 0 <= k < |gates| && gates[k].id == id
  }

  lemma {:induction false} NeedsGraphVertices(gates: seq<Gate>, id: Id)
    ensures id in NeedsGraph(gates) <==> HasId(gates, id)
  {
    if gates != [] {
      var init := gates[..|gates| - 1];
      NeedsGraphVertices(init, id);
      if k :| 0 <= k < |init| && init[k].id == id {
        assert gates[k].id == id;
      }
      if k :| 0 <= k < |gates| && gates[k].id == id {
        assert k < |gates| - 1 ==> init[k].id == id;
      }
    }
  }

  lemma {:induction false} NeedsGraphEdges(gates: seq<Gate>, k: nat)
    requires UniqueIds(gates) && k < |gates|
    ensures gates[k].id in NeedsGraph(gates) && NeedsGraph(gates)[gates[k].id] == gates[k].needs
  {
    if k < |gates| - 1 {
      assert gates[..|gates| - 1][k] == gates[k];
      NeedsGraphEdges(gates[..|gates| - 1], k);
    }
  }

  ghost predicate ClosedNeeds(gates: seq<Gate>) {
    forall k, d | 0 <= k < |gates| && d in gates[k].needs :: HasId(gates, d)
  }

  /** What a gate list must be for the scheduler to accept it. */
  ghost predicate Validated(gates: seq<Gate>) {
    gates != [] && UniqueIds(gates) && ClosedNeeds(gates) && !Cyclic(NeedsGraph(gates))
  }

  datatype GraphError =
    | NoGates
    | DuplicateId(id: Id)
    | UnknownNeed(id: Id, need: Id)
    | DependencyCycle(path: seq<Id>)

  /** A cycle in the form the diagnostic prints: closed, along real edges, no vertex twice but the ends. */
  ghost predicate SimpleCycle(g: Graph<Id>, p: seq<Id>) {
    && ClosedWalk(g, p)
    && forall i, j | 0 <= i < j < |p| - 1 :: p[i] != p[j]
  }

  /** `active` gives every vertex of the current path its position, and nothing else. */
  ghost predicate ActiveIsPath(active: map<Id, nat>, path: seq<Id>) {
    && (forall v :: v in active <==> v in path)
    && (forall i | 0 <= i < |path| :: active[path[i]] == i)
  }

  /** All a finished vertex needs finished before it did. */
  ghost predicate FinishRanks(g: Graph<Id>, complete: set<Id>, finish: map<Id, nat>, clock: nat) {
    && (forall v :: v in finish <==> v in complete)
    && (forall v | v in complete :: v in g && finish[v] < clock)
    && (forall v, d | v in complete && d in g[v] && d in g :: d in complete && finish[d] < finish[v])
  }

  ghost predicate SearchState(g: Graph<Id>, complete: set<Id>, active: map<Id, nat>, path: seq<Id>) {
    && ActiveIsPath(active, path)
    && (forall v | v in complete :: v !in active)
    && (forall v | v in active :: v in g)
    && (path != [] ==> Walk(g, path))
  }

  lemma PushKeepsState(g: Graph<Id>, complete: set<Id>, active: map<Id, nat>, path: seq<Id>, id: Id)
    requires SearchState(g, complete, active, path)
    requires id in g && id !in complete && id !in active
    requires path != [] ==> Edge(g, path[|path| - 1], id)
    ensures SearchState(g, complete, active[id := |path|], path + [id])
  {
    assert Walk(g, path + [id]);
  }

  lemma PushShrinksFree(g: Graph<Id>, active: map<Id, nat>, n: nat, id: Id)
    requires id in g && id !in active
    ensures g.Keys - active[id := n].Keys < g.Keys - active.Keys
  {
    assert id in g.Keys - active.Keys;
  }

  lemma PopKeepsState(g: Graph<Id>, complete: set<Id>, active: map<Id, nat>, path: seq<Id>, id: Id)
    requires SearchState(g, complete, active[id := |path|], path + [id])
    requires ActiveIsPath(active, path) && id !in active
    requires path != [] ==> Walk(g, path)
    ensures SearchState(g, complete + {id}, active, path)
  {
  }

  lemma PopUndoesPush(active: map<Id, nat>, path: seq<Id>, id: Id)
    requires id !in active
    ensures active[id := |path|] - {id} == active
    ensures (path + [id])[..|path + [id]| - 1] == path
  {
  }

  lemma FinishKeepsRanks(g: Graph<Id>, complete: set<Id>, finish: map<Id, nat>, clock: nat, id: Id)
    requires FinishRanks(g, complete, finish, clock)
    requires id in g && id !in complete
    requires forall d | d in g[id] && d in g :: d in complete
    ensures FinishRanks(g, complete + {id}, finish[id := clock], clock + 1)
  {
  }

  lemma PathSuffixClosesCycle(g: Graph<Id>, active: map<Id, nat>, path: seq<Id>, id: Id)
    requires ActiveIsPath(active, path) && id in active
    requires Walk(g, path) && Edge(g, path[|path| - 1], id)
    ensures SimpleCycle(g, path[active[id]..] + [id])
  {
    var p := path[active[id]..] + [id];
    forall i | 0 <= i < |p| - 1
      ensures Edge(g, p[i], p[i + 1])
    {
      if i < |p| - 2 {
        assert Edge(g, path[active[id] + i], path[active[id] + i + 1]);
      }
    }
    forall i, j | 0 <= i < j < |p| - 1
      ensures p[i] != p[j]
    {
      assert active[path[active[id] + i]] != active[path[active[id] + j]];
    }
  }

  /**
   The depth-first search, with the three collections its closures share as fields:
   finished vertices, the position of each vertex on the current path, and the path.
   */
  class CycleSearch {
    const g: Graph<Id>
    var complete: set<Id>
    var active: map<Id, nat>
    var path: seq<Id>
    /** When each finished vertex finished: the ranking that a clean search leaves behind. */
    ghost var finish: map<Id, nat>
    ghost var clock: nat

    constructor (g: Graph<Id>)
      ensures this.g == g && complete == {} && active == map[] && path == []
      ensures Valid()
    {
      this.g := g;
      complete, active, path := {}, map[], [];
      finish, clock := map[], 0;
    }

    ghost predicate Valid()
      reads this
    {
      SearchState(g, complete, active, path) && FinishRanks(g, complete, finish, clock)
    }

    /** `visit`: either the path closes a cycle, or `id` and all it needs become complete. */
    method Visit(id: Id) returns (cycle: Option<seq<Id>>)
      requires Valid()
      requires path != [] ==> Edge(g, path[|path| - 1], id)
      modifies this
      ensures cycle.Some? ==> SimpleCycle(g, cycle.value)
      ensures cycle.None? ==> Valid() && path == old(path) && active == old(active)
      ensures cycle.None? ==> old(complete) <= complete && (id in g ==> id in complete)
      decreases g.Keys - active.Keys, 0, 0
    {
      if id in complete {
        return None;
      }
      if id in active {
        var cycleStart := active[id];
        PathSuffixClosesCycle(g, active, path, id);
        return Some(path[cycleStart..] + [id]);
      }
      if id !in g {
        return None;
      }

      Enter(id);
      cycle := VisitNeeds(id);
      if cycle.Some? {
        return cycle;
      }
      Leave(id, old(active), old(path));
      return None;
    }

    method Enter(id: Id)
      requires Valid() && id in g && id !in complete && id !in active
      requires path != [] ==> Edge(g, path[|path| - 1], id)
      modifies this
      ensures Valid() && complete == old(complete)
      ensures path == old(path) + [id] && active == old(active)[id := |old(path)|]
      ensures g.Keys - active.Keys < g.Keys - old(active).Keys
    {
      PushKeepsState(g, complete, active, path, id);
      PushShrinksFree(g, active, |path|, id);
      active := active[id := |path|];
      path := path + [id];
    }

    method Leave(id: Id, ghost below: map<Id, nat>, ghost rest: seq<Id>)
      requires Valid() && id in g && id !in complete && id !in below
      requires path == rest + [id] && active == below[id := |rest|]
      requires ActiveIsPath(below, rest) && (rest != [] ==> Walk(g, rest))
      requires forall d | d in g[id] && d in g :: d in complete
      modifies this
      ensures Valid() && path == rest && active == below && complete == old(complete) + {id}
    {
      PopKeepsState(g, complete, below, rest, id);
      FinishKeepsRanks(g, complete, finish, clock, id);
      PopUndoesPush(below, rest, id);
      path := path[..|path| - 1];
      active := active - {id};
      complete := complete + {id};
      finish, clock := finish[id := clock], clock + 1;
    }

    /** The loop over one gate's needs, with the gate on top of the path. */
    method VisitNeeds(id: Id) returns (cycle: Option<seq<Id>>)
      requires Valid() && id in g && path != [] && path[|path| - 1] == id
      modifies this
      ensures cycle.Some? ==> SimpleCycle(g, cycle.value)
      ensures cycle.None? ==> Valid() && path == old(path) && active == old(active)
      ensures cycle.None? ==> old(complete) <= complete
      ensures cycle.None? ==> forall d | d in g[id] && d in g :: d in complete
      decreases g.Keys - active.Keys, 1, 0
    {
      for k := 0 to |g[id]|
        invariant Valid() && path == old(path) && active == old(active) && old(complete) <= complete
        invariant forall j | 0 <= j < k :: g[id][j] in g ==> g[id][j] in complete
      {
        cycle := Visit(g[id][k]);
        if cycle.Some? {
          return cycle;
        }
      }
      return None;
    }
  }

  /** The search over a whole list: it returns a cycle exactly when the graph has one. */
  method FindDependencyCycle(gates: seq<Gate>) returns (cycle: Option<seq<Id>>, ghost rank: map<Id, nat>)
    ensures cycle.Some? <==> Cyclic(NeedsGraph(gates))
    ensures cycle.Some? ==> SimpleCycle(NeedsGraph(gates), cycle.value)
    ensures cycle.None? ==> Ranked(NeedsGraph(gates), rank)
  {
    rank := map[];
    var search := new CycleSearch(NeedsGraph(gates));
    for k := 0 to |gates|
      invariant search.Valid() && search.path == []
      invariant forall j | 0 <= j < k && gates[j].id in search.g :: gates[j].id in search.complete
    {
      cycle := search.Visit(gates[k].id);
      if cycle.Some? {
        assert Cyclic(search.g);
        return cycle, rank;
      }
    }
    rank := search.finish;
    AllCompleteIsRanked(gates, search.complete, rank, search.clock);
    RankedIsAcyclic(search.g, rank);
    return None, rank;
  }

  lemma AllCompleteIsRanked(gates: seq<Gate>, complete: set<Id>, finish: map<Id, nat>, clock: nat)
    requires FinishRanks(NeedsGraph(gates), complete, finish, clock)
    requires forall j | 0 <= j < |gates| && gates[j].id in NeedsGraph(gates) :: gates[j].id in complete
    ensures Ranked(NeedsGraph(gates), finish)
  {
    forall id | id in NeedsGraph(gates)
      ensures id in complete
    {
      NeedsGraphVertices(gates, id);
    }
  }

  /** The first repeated id, if any. */
  method FindDuplicateId(gates: seq<Gate>) returns (duplicate: Option<Id>, ids: set<Id>)
    ensures duplicate.None? ==> UniqueIds(gates) && forall id :: id in ids <==> HasId(gates, id)
    ensures duplicate.Some? ==> exists i, j :: 0 <= i < j < |gates| && gates[i].id == gates[j].id == duplicate.value
  {
    ids := {};
    for k := 0 to |gates|
      invariant forall id :: id in ids <==> HasId(gates[..k], id)
      invariant forall i, j | 0 <= i < j < k :: gates[i].id != gates[j].id
    {
      if gates[k].id in ids {
        assert HasId(gates[..k], gates[k].id);
        return Some(gates[k].id), ids;
      }
      forall i | 0 <= i < k
        ensures gates[i].id != gates[k].id
      {
        assert gates[..k][i].id == gates[i].id;
        assert HasId(gates[..k], gates[i].id);
      }
      ids := ids + {gates[k].id};
      HasIdSnoc(gates, k);
    }
    assert gates[..|gates|] == gates;
    return None, ids;
  }

  lemma HasIdSnoc(gates: seq<Gate>, k: nat)
    requires k < |gates|
    ensures forall id :: HasId(gates[..k + 1], id) <==> HasId(gates[..k], id) || id == gates[k].id
  {
    forall id
      ensures HasId(gates[..k + 1], id) <==> HasId(gates[..k], id) || id == gates[k].id
    {
      if i :| 0 <= i < k && gates[..k][i].id == id {
        assert gates[..k + 1][i].id == id;
      }
      assert gates[..k + 1][k].id == gates[k].id;
      if HasId(gates[..k + 1], id) {
        var i :| 0 <= i < |gates[..k + 1]| && gates[..k + 1][i].id == id;
        assert i < k ==> gates[..k][i].id == id;
      }
    }
  }

  /** The first need that names no gate, if any. */
  method FindUnknownNeed(gates: seq<Gate>, ids: set<Id>) returns (unknown: Option<(Id, Id)>)
    requires forall id :: id in ids <==> HasId(gates, id)
    ensures unknown.None? <==> ClosedNeeds(gates)
    ensures unknown.Some? ==> UnknownIsReal(gates, unknown.value.0, unknown.value.1)
  {
    for k := 0 to |gates|
      invariant forall j, d | 0 <= j < k && d in gates[j].needs :: d in ids
    {
      for m := 0 to |gates[k].needs|
        invariant forall n | 0 <= n < m :: gates[k].needs[n] in ids
      {
        if gates[k].needs[m] !in ids {
          return Some((gates[k].id, gates[k].needs[m]));
        }
      }
    }
    return None;
  }

  /** The validation that precedes every run: no error exactly for a list the scheduler can execute. */
  method ValidateGateGraph(gates: seq<Gate>) returns (error: Option<GraphError>, ghost rank: map<Id, nat>)
    ensures error.None? <==> Validated(gates)
    ensures error.None? ==> Ranked(NeedsGraph(gates), rank)
    ensures error.Some? ==> ErrorIsReal(gates, error.value)
  {
    rank := map[];
    if |gates| == 0 {
      return Some(NoGates), rank;
    }
    var duplicate, ids := FindDuplicateId(gates);
    if duplicate.Some? {
      return Some(DuplicateId(duplicate.value)), rank;
    }
    var unknown := FindUnknownNeed(gates, ids);
    if unknown.Some? {
      return Some(UnknownNeed(unknown.value.0, unknown.value.1)), rank;
    }
    var cycle;
    cycle, rank := FindDependencyCycle(gates);
    if cycle.Some? {
      return Some(DependencyCycle(cycle.value)), rank;
    }
    return None, rank;
  }

  ghost predicate UnknownIsReal(gates: seq<Gate>, id: Id, need: Id) {
    !HasId(gates, need) && exists i :: 0 <= i < |gates| && gates[i].id == id && need in gates[i].needs
  }

  /** Every diagnostic names a defect the list has; a cycle is only reported for a well-formed graph. */
  ghost predicate ErrorIsReal(gates: seq<Gate>, error: GraphError) {
    match error
    case NoGates => gates == []
    case DuplicateId(id) => exists i, j :: 0 <= i < j < |gates| && gates[i].id == gates[j].id == id
    case UnknownNeed(id, need) => UniqueIds(gates) && UnknownIsReal(gates, id, need)
    case DependencyCycle(path) =>
      UniqueIds(gates) && ClosedNeeds(gates) && SimpleCycle(NeedsGraph(gates), path)
  }
}
