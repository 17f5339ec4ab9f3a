/**
 The scheduler as a transition system. A step starts the first ready gate, settles any
 running gate once nothing more can start, or, once nothing runs, skips the first
 blocked gate. `order` is the aggregate order and `g` its needs graph.
 */
module GateScheduler {
  import opened Wrappers
  import opened Graphs
  import opened GateGraph
  import opened GateOutcome

  datatype GateState = Pending | Running | Settled(status: Status)

  /** A settled gate's record; `failedDeps` is the reason a skipped gate carries. */
  datatype GateResult = GateResult(id: Id, status: Status, failedDeps: seq<Id>)

  type States = map<Id, GateState>

  datatype Sched = Sched(
    states: States,
    results: map<Id, GateResult>,
    running: seq<Id>,
    started: seq<Id>,
    observed: seq<Id>)

  predicate Blocking(states: States, d: Id) {
    d in states && (states[d] == Settled(Failed) || states[d] == Settled(Skipped))
  }

  predicate DependenciesPassed(g: Graph<Id>, states: States, id: Id)
    requires id in g
  {
    forall d | d in g[id] :: d in states && states[d] == Settled(Passed)
  }

  predicate Ready(g: Graph<Id>, states: States, id: Id) {
    id in g && id in states && states[id] == Pending && DependenciesPassed(g, states, id)
  }

  predicate Blocked(g: Graph<Id>, states: States, id: Id) {
    id in g && id in states && states[id] == Pending && exists d :: d in g[id] && Blocking(states, d)
  }

  /** The needs that stop a gate now, in declaration order. */
  function FailedDeps(states: States, needs: seq<Id>): (deps: seq<Id>)
    ensures forall d :: d in deps <==> d in needs && Blocking(states, d)
  {
    if needs == [] then []
    else (if Blocking(states, needs[0]) then [needs[0]] else []) + FailedDeps(states, needs[1..])
  }

  /** The needs that ended badly, one by one and in their order. */
  lemma {:induction false} FailedDepsInOrder(states: States, a: seq<Id>, b: seq<Id>)
    ensures FailedDeps(states, a + b) == FailedDeps(states, a) + FailedDeps(states, b)
  {
    if a == [] {
      assert a + b == b;
    } else {
      assert (a + b)[0] == a[0] && (a + b)[1..] == a[1..] + b;
      FailedDepsInOrder(states, a[1..], b);
      Associative(if Blocking(states, a[0]) then [a[0]] else [], FailedDeps(states, a[1..]), FailedDeps(states, b));
    }
  }

  lemma Associative(a: seq<Id>, b: seq<Id>, c: seq<Id>)
    ensures a + (b + c) == (a + b) + c
  {
  }

  lemma FailedDepsOfOne(states: States, d: Id)
    ensures FailedDeps(states, [d])
         == if d in states && states[d].Settled? && states[d].status != Passed then [d] else []
  {
    assert [d][1..] == [] && FailedDeps(states, []) == [];
  }

  ghost predicate FirstReady(order: seq<Id>, g: Graph<Id>, states: States, k: int) {
    0 <= k < |order| && Ready(g, states, order[k]) && forall i | 0 <= i < k :: !Ready(g, states, order[i])
  }

  ghost predicate FirstBlocked(order: seq<Id>, g: Graph<Id>, states: States, k: int) {
    0 <= k < |order| && Blocked(g, states, order[k]) && forall i | 0 <= i < k :: !Blocked(g, states, order[i])
  }

  ghost predicate NoneReady(order: seq<Id>, g: Graph<Id>, states: States) {
    forall i | 0 <= i < |order| :: !Ready(g, states, order[i])
  }

  function Initial(g: Graph<Id>): Sched {
    Sched(map id | id in g :: Pending, map[], [], [], [])
  }

  function Start(s: Sched, id: Id): Sched {
    s.(states := s.states[id := Running], running := s.running + [id], started := s.started + [id])
  }

  function Settle(s: Sched, j: nat, status: Status): Sched
    requires j < |s.running|
  {
    var id := s.running[j];
    s.(states := s.states[id := Settled(status)],
       results := s.results[id := GateResult(id, status, [])],
       running := s.running[..j] + s.running[j + 1..],
       observed := s.observed + [id])
  }

  function Skip(g: Graph<Id>, s: Sched, id: Id): Sched
    requires id in g
  {
    s.(states := s.states[id := Settled(Skipped)],
       results := s.results[id := GateResult(id, Skipped, FailedDeps(s.states, g[id]))],
       observed := s.observed + [id])
  }

  datatype Config = Config(order: seq<Id>, g: Graph<Id>, exec: Executor, maxActive: nat)

  /** What validation establishes, with the ranking the cycle search leaves behind. */
  ghost predicate ValidConfig(c: Config, rank: map<Id, nat>) {
    && c.maxActive >= 1
    && Closed(c.g) && Ranked(c.g, rank)
    && (forall i, j | 0 <= i < j < |c.order| :: c.order[i] != c.order[j])
    && (forall id :: id in c.order <==> id in c.g)
  }

  ghost predicate StartStep(c: Config, s: Sched, t: Sched) {
    |s.running| < c.maxActive && exists k :: FirstReady(c.order, c.g, s.states, k) && t == Start(s, c.order[k])
  }

  /** Waiting is allowed only with a full pool or with nothing left to start; any running gate may settle. */
  ghost predicate SettleStep(c: Config, s: Sched, t: Sched) {
    && (|s.running| >= c.maxActive || NoneReady(c.order, c.g, s.states))
    && exists j :: 0 <= j < |s.running| && t == Settle(s, j, c.exec(s.running[j]))
  }

  ghost predicate SkipStep(c: Config, s: Sched, t: Sched) {
    && s.running == [] && NoneReady(c.order, c.g, s.states)
    && exists k :: FirstBlocked(c.order, c.g, s.states, k) && t == Skip(c.g, s, c.order[k])
  }

  ghost predicate Step(c: Config, s: Sched, t: Sched) {
    StartStep(c, s, t) || SettleStep(c, s, t) || SkipStep(c, s, t)
  }

  /** A run: starts in the initial state and makes a step at every position. */
  ghost predicate Run(c: Config, run: seq<Sched>) {
    && |run| > 0 && run[0] == Initial(c.g)
    && forall i | 0 < i < |run| :: Step(c, run[i - 1], run[i])
  }

  /** Nothing pending, nothing running. */
  ghost predicate Done(s: Sched) {
    s.running == [] && forall id | id in s.states :: s.states[id].Settled?
  }

  // ----- the invariant, clause by clause

  ghost predicate Distinct(p: seq<Id>) {
    forall i, j | 0 <= i < j < |p| :: p[i] != p[j]
  }

  /** The states are those of a correct partial run: outcomes are the executor's, causes precede effects. */
  ghost predicate Causal(c: Config, states: States) {
    && (forall id :: id in states <==> id in c.g)
    && (forall id | id in c.g && Launched(states, id) :: DependenciesPassed(c.g, states, id))
    && (forall id | id in c.g && states[id].Settled? && states[id].status != Skipped :: states[id].status == c.exec(id))
    && (forall id | id in c.g && states[id] == Settled(Skipped) :: SkipCause(c.g, states, id))
  }

  ghost predicate Launched(states: States, id: Id) {
    id in states && states[id] != Pending && states[id] != Settled(Skipped)
  }

  ghost predicate SkipCause(g: Graph<Id>, states: States, id: Id)
    requires id in g
  {
    exists d :: d in g[id] && Blocking(states, d)
  }

  ghost predicate PoolExact(c: Config, s: Sched) {
    && |s.running| <= c.maxActive
    && Distinct(s.running)
    && (forall id :: id in s.running <==> id in s.states && s.states[id] == Running)
  }

  /** Each gate is executed at most once, and exactly the gates that left `pending` to run were. */
  ghost predicate StartedExact(s: Sched) {
    Distinct(s.started) && forall id :: id in s.started <==> Launched(s.states, id)
  }

  /** Each settled gate is observed exactly once and has exactly its own result. */
  ghost predicate ObservedExact(s: Sched) {
    && Distinct(s.observed)
    && (forall id :: id in s.observed <==> id in s.states && s.states[id].Settled?)
    && (forall id :: id in s.results <==> id in s.states && s.states[id].Settled?)
    && (forall id | id in s.results :: s.results[id].id == id && s.states[id] == Settled(s.results[id].status))
  }

  ghost predicate Inv(c: Config, s: Sched) {
    Causal(c, s.states) && PoolExact(c, s) && StartedExact(s) && ObservedExact(s)
  }

  lemma InitialInv(c: Config)
    ensures Inv(c, Initial(c.g))
  {
  }

  // ----- each step keeps the invariant

  lemma StartKeepsCausal(c: Config, states: States, id: Id)
    requires Causal(c, states) && Ready(c.g, states, id)
    ensures Causal(c, states[id := Running])
  {
    forall x | x in c.g && states[id := Running][x] == Settled(Skipped)
      ensures SkipCause(c.g, states[id := Running], x)
    {
      var d :| d in c.g[x] && Blocking(states, d);
      assert Blocking(states[id := Running], d);
    }
  }

  lemma SettleKeepsCausal(c: Config, states: States, id: Id)
    requires Causal(c, states) && id in c.g && states[id] == Running
    ensures Causal(c, states[id := Settled(c.exec(id))])
  {
    var next := states[id := Settled(c.exec(id))];
    assert c.exec(id) != Skipped;
    forall x | x in c.g && next[x] == Settled(Skipped)
      ensures SkipCause(c.g, next, x)
    {
      var d :| d in c.g[x] && Blocking(states, d);
      assert Blocking(next, d);
    }
  }

  lemma SkipKeepsCausal(c: Config, states: States, id: Id)
    requires Causal(c, states) && Blocked(c.g, states, id)
    ensures Causal(c, states[id := Settled(Skipped)])
  {
    var next := states[id := Settled(Skipped)];
    forall x | x in c.g && next[x] == Settled(Skipped)
      ensures SkipCause(c.g, next, x)
    {
      var d :| d in c.g[x] && Blocking(states, d);
      assert Blocking(next, d);
    }
  }

  lemma AppendDistinct(p: seq<Id>, id: Id)
    requires Distinct(p) && id !in p
    ensures Distinct(p + [id])
  {
  }

  lemma StartKeepsInv(c: Config, s: Sched, id: Id)
    requires Inv(c, s) && Ready(c.g, s.states, id) && |s.running| < c.maxActive
    ensures Inv(c, Start(s, id))
  {
    StartKeepsCausal(c, s.states, id);
    AppendDistinct(s.running, id);
    assert !Launched(s.states, id);
    AppendDistinct(s.started, id);
  }

  lemma RemoveAt(p: seq<Id>, j: nat)
    requires Distinct(p) && j < |p|
    ensures Distinct(p[..j] + p[j + 1..])
    ensures forall id :: id in p[..j] + p[j + 1..] <==> id in p && id != p[j]
  {
    var q := p[..j] + p[j + 1..];
    forall id | id in p && id != p[j]
      ensures id in q
    {
      var i :| 0 <= i < |p| && p[i] == id;
      assert q[if i < j then i else i - 1] == id;
    }
  }

  lemma SettleKeepsBooks(s: Sched, t: Sched, id: Id, status: Status)
    requires StartedExact(s) && ObservedExact(s)
    requires id in s.states && s.states[id] == Running && status != Skipped
    requires t.states == s.states[id := Settled(status)] && t.results == s.results[id := GateResult(id, status, [])]
    requires t.started == s.started && t.observed == s.observed + [id]
    ensures StartedExact(t) && ObservedExact(t)
  {
    AppendDistinct(s.observed, id);
    assert forall x :: Launched(t.states, x) <==> Launched(s.states, x);
  }

  lemma SettleKeepsPool(c: Config, s: Sched, j: nat, status: Status)
    requires PoolExact(c, s) && j < |s.running|
    ensures PoolExact(c, Settle(s, j, status))
  {
    RemoveAt(s.running, j);
  }

  lemma SettleKeepsInv(c: Config, s: Sched, j: nat)
    requires Inv(c, s) && j < |s.running|
    ensures Inv(c, Settle(s, j, c.exec(s.running[j])))
  {
    var id := s.running[j];
    assert id in s.running;
    SettleKeepsCausal(c, s.states, id);
    SettleKeepsPool(c, s, j, c.exec(id));
    SettleKeepsBooks(s, Settle(s, j, c.exec(id)), id, c.exec(id));
  }

  lemma SkipKeepsBooks(g: Graph<Id>, s: Sched, id: Id)
    requires StartedExact(s) && ObservedExact(s) && Blocked(g, s.states, id)
    ensures StartedExact(Skip(g, s, id)) && ObservedExact(Skip(g, s, id))
  {
    AppendDistinct(s.observed, id);
    assert forall x :: Launched(s.states[id := Settled(Skipped)], x) <==> Launched(s.states, x);
  }

  lemma SkipKeepsInv(c: Config, s: Sched, id: Id)
    requires Inv(c, s) && Blocked(c.g, s.states, id)
    ensures Inv(c, Skip(c.g, s, id))
  {
    SkipKeepsCausal(c, s.states, id);
    SkipKeepsBooks(c.g, s, id);
  }

  lemma StepKeepsInv(c: Config, s: Sched, t: Sched)
    requires Inv(c, s) && Step(c, s, t)
    ensures Inv(c, t)
  {
    if StartStep(c, s, t) {
      var k :| FirstReady(c.order, c.g, s.states, k) && t == Start(s, c.order[k]);
      StartKeepsInv(c, s, c.order[k]);
    } else if SettleStep(c, s, t) {
      var j :| 0 <= j < |s.running| && t == Settle(s, j, c.exec(s.running[j]));
      SettleKeepsInv(c, s, j);
    } else {
      var k :| FirstBlocked(c.order, c.g, s.states, k) && t == Skip(c.g, s, c.order[k]);
      SkipKeepsInv(c, s, c.order[k]);
    }
  }

  /** Safety over whole runs. */
  lemma {:induction false} RunKeepsInv(c: Config, run: seq<Sched>)
    requires Run(c, run)
    ensures forall s | s in run :: Inv(c, s)
    decreases |run|
  {
    if |run| == 1 {
      InitialInv(c);
    } else {
      var shorter, last := run[..|run| - 1], run[|run| - 1];
      RunPrefix(c, run);
      RunKeepsInv(c, shorter);
      LastKeepsInv(c, shorter, last);
      assert run == shorter + [last];
    }
  }

  lemma LastKeepsInv(c: Config, shorter: seq<Sched>, last: Sched)
    requires |shorter| > 0 && (forall s | s in shorter :: Inv(c, s)) && Step(c, shorter[|shorter| - 1], last)
    ensures forall s | s in shorter + [last] :: Inv(c, s)
  {
    StepKeepsInv(c, shorter[|shorter| - 1], last);
  }

  lemma RunPrefix(c: Config, run: seq<Sched>)
    requires Run(c, run) && |run| > 1
    ensures Run(c, run[..|run| - 1]) && Step(c, run[..|run| - 1][|run| - 2], run[|run| - 1])
  {
    var shorter := run[..|run| - 1];
    forall i | 0 < i < |shorter|
      ensures Step(c, shorter[i - 1], shorter[i])
    {
      assert Step(c, run[i - 1], run[i]);
    }
  }
}
