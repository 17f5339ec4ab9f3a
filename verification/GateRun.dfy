/**
 `runGates` itself: the loop over mutable state maps and a pool of running gates. Its
 ghost run shows that every execution is a run of the transition system, so that the
 results it returns are those of every other schedule.
 */
module GateRun {
  import opened Wrappers
  import opened Graphs
  import opened GateGraph
  import opened GateOutcome
  import opened GateScheduler
  import opened GateProgress

  const MAX_SAFE_INTEGER := 9007199254740991

  datatype RunError = InvalidGraph(error: GraphError) | InvalidConcurrency(maxActive: int)

  function ConfigOf(gates: seq<Gate>, maxActive: nat, execute: Executor): Config {
    Config(Ids(gates), NeedsGraph(gates), execute, maxActive)
  }

  lemma ValidatedGivesValidConfig(gates: seq<Gate>, maxActive: nat, execute: Executor, rank: map<Id, nat>)
    requires Validated(gates) && Ranked(NeedsGraph(gates), rank) && maxActive >= 1
    ensures ValidConfig(ConfigOf(gates, maxActive, execute), rank)
  {
    var c := ConfigOf(gates, maxActive, execute);
    forall a, b | Edge(c.g, a, b)
      ensures b in c.g
    {
      NeedsGraphVertices(gates, a);
      var k :| 0 <= k < |gates| && gates[k].id == a;
      NeedsGraphEdges(gates, k);
      NeedsGraphVertices(gates, b);
    }
    forall id
      ensures id in c.order <==> id in c.g
    {
      NeedsGraphVertices(gates, id);
      if HasId(gates, id) {
        var k :| 0 <= k < |gates| && gates[k].id == id;
        assert c.order[k] == id;
      }
    }
  }

  // ----- the searches over the gate list

  /** `gates.find(...)` for the first gate that can start. */
  method FindReady(c: Config, states: States) returns (ready: Option<Id>)
    ensures ready.None? ==> NoneReady(c.order, c.g, states)
    ensures ready.Some? ==> exists k :: FirstReady(c.order, c.g, states, k) && c.order[k] == ready.value
    ensures ready.Some? ==>
              exists k ::
                && 0 <= k < |c.order| && c.order[k] == ready.value && Ready(c.g, states, c.order[k])
                && forall i | 0 <= i < k :: !Ready(c.g, states, c.order[i])
  {
    for k := 0 to |c.order|
      invariant forall i | 0 <= i < k :: !Ready(c.g, states, c.order[i])
    {
      if Ready(c.g, states, c.order[k]) {
        assert FirstReady(c.order, c.g, states, k);
        return Some(c.order[k]);
      }
    }
    return None;
  }

  /** `gates.filter(...)` for the gates still pending, in aggregate order. */
  function PendingOf(order: seq<Id>, states: States): seq<Id> {
    if order == [] then []
    else
      var rest := PendingOf(order[1..], states);
      if order[0] in states && states[order[0]] == Pending then [order[0]] + rest else rest
  }

  function Without(ids: seq<Id>, id: Id): seq<Id> {
    if ids == [] then []
    else if ids[0] == id then Without(ids[1..], id)
    else [ids[0]] + Without(ids[1..], id)
  }

  lemma {:induction false} PendingOfExact(order: seq<Id>, states: States)
    ensures forall id :: id in PendingOf(order, states) <==> id in order && id in states && states[id] == Pending
  {
    if order != [] {
      PendingOfExact(order[1..], states);
      assert forall id :: id in order <==> id == order[0] || id in order[1..];
    }
  }

  lemma {:induction false} PendingOfSkip(order: seq<Id>, states: States, id: Id)
    ensures PendingOf(order, states[id := Settled(Skipped)]) == Without(PendingOf(order, states), id)
  {
    if order != [] {
      PendingOfSkip(order[1..], states, id);
    }
  }

  /** The first blocked gate of the pending list is the first blocked gate of the whole list. */
  lemma {:induction false} FirstOfPending(order: seq<Id>, g: Graph<Id>, states: States, m: int) returns (k: int)
    requires FirstBlocked(PendingOf(order, states), g, states, m)
    ensures FirstBlocked(order, g, states, k) && order[k] == PendingOf(order, states)[m]
  {
    var pending, rest := PendingOf(order, states), PendingOf(order[1..], states);
    if order[0] in states && states[order[0]] == Pending {
      assert pending == [order[0]] + rest;
      if m == 0 {
        k := 0;
      } else {
        assert !Blocked(g, states, pending[0]);
        assert forall i | 0 <= i < m - 1 :: rest[i] == pending[i + 1];
        k := FirstOfPending(order[1..], g, states, m - 1);
        k := k + 1;
      }
    } else {
      k := FirstOfPending(order[1..], g, states, m);
      k := k + 1;
    }
  }

  method FindBlocked(c: Config, states: States, pending: seq<Id>) returns (blocked: Option<Id>)
    requires pending == PendingOf(c.order, states)
    ensures blocked.None? ==> forall i | 0 <= i < |pending| :: !Blocked(c.g, states, pending[i])
    ensures blocked.Some? ==> exists k :: FirstBlocked(c.order, c.g, states, k) && c.order[k] == blocked.value
    ensures blocked.Some? ==>
              exists m ::
                && 0 <= m < |pending| && pending[m] == blocked.value && Blocked(c.g, states, pending[m])
                && forall i | 0 <= i < m :: !Blocked(c.g, states, pending[i])
  {
    for m := 0 to |pending|
      invariant forall i | 0 <= i < m :: !Blocked(c.g, states, pending[i])
    {
      if Blocked(c.g, states, pending[m]) {
        ghost var k := FirstOfPending(c.order, c.g, states, m);
        return Some(pending[m]);
      }
    }
    return None;
  }

  // ----- the loop

  /** The loop's variables are the last state of the ghost run. */
  ghost predicate Tracks(c: Config, run: seq<Sched>, states: States, results: map<Id, GateResult>, running: seq<Id>) {
    && Run(c, run)
    && run[|run| - 1].states == states
    && run[|run| - 1].results == results
    && run[|run| - 1].running == running
  }

  lemma LastInv(c: Config, run: seq<Sched>)
    requires Run(c, run)
    ensures Inv(c, run[|run| - 1])
  {
    RunKeepsInv(c, run);
    assert run[|run| - 1] in run;
  }

  /** One start: `states.set(ready.id, 'running')` and a push on the pool. */
  method StartReady(c: Config, id: Id, states: States, results: map<Id, GateResult>, running: seq<Id>,
                    ghost run: seq<Sched>)
    returns (states': States, running': seq<Id>, ghost run': seq<Sched>)
    requires Tracks(c, run, states, results, running) && |running| < c.maxActive
    requires exists k :: FirstReady(c.order, c.g, states, k) && c.order[k] == id
    ensures Tracks(c, run', states', results, running') && |run'| == |run| + 1
    ensures running' == running + [id]
  {
    states' := states[id := Running];
    running' := running + [id];
    ghost var t := Start(run[|run| - 1], id);
    assert StartStep(c, run[|run| - 1], t);
    RunExtends(c, run, t);
    run' := run + [t];
  }

  /** One settlement, of whichever running gate `Promise.race` happens to yield. */
  method SettleOne(c: Config, j: nat, states: States, results: map<Id, GateResult>, running: seq<Id>,
                   ghost run: seq<Sched>)
    returns (states': States, results': map<Id, GateResult>, running': seq<Id>, ghost run': seq<Sched>)
    requires Tracks(c, run, states, results, running) && j < |running|
    requires |running| >= c.maxActive || NoneReady(c.order, c.g, states)
    ensures Tracks(c, run', states', results', running') && |run'| == |run| + 1
  {
    var settled := running[j];
    var status := c.exec(settled);
    running' := running[..j] + running[j + 1..];
    states' := states[settled := Settled(status)];
    results' := results[settled := GateResult(settled, status, [])];
    ghost var t := Settle(run[|run| - 1], j, status);
    assert SettleStep(c, run[|run| - 1], t);
    RunExtends(c, run, t);
    run' := run + [t];
  }

  /** The skip phase: nothing runs, nothing is ready, and every pending gate ends up skipped. */
  method SkipPending(c: Config, states: States, results: map<Id, GateResult>, ghost rank: map<Id, nat>,
                     ghost run: seq<Sched>)
    returns (results': map<Id, GateResult>, ghost run': seq<Sched>)
    requires ValidConfig(c, rank) && Tracks(c, run, states, results, []) && NoneReady(c.order, c.g, states)
    ensures Run(c, run') && Done(run'[|run'| - 1]) && run'[|run'| - 1].results == results'
  {
    var states' := states;
    results', run' := results, run;
    var pending := PendingOf(c.order, states');
    while |pending| > 0
      invariant Tracks(c, run', states', results', []) && NoneReady(c.order, c.g, states')
      invariant pending == PendingOf(c.order, states')
      decreases 2 * |c.order| + 1 - |run'|
    {
      RunIsShort(c, rank, run');
      PendingHasBlocked(c, rank, run', pending);
      var gate := FindBlocked(c, states', pending);
      var id := gate.value;
      var failedDeps := FailedDeps(states', c.g[id]);
      results', run' := SkipOne(c, id, failedDeps, states', results', run');
      PendingOfSkip(c.order, states', id);
      SkipStaysDrained(c, states', id);
      states' := states'[id := Settled(Skipped)];
      pending := Without(pending, id);
      RunIsShort(c, rank, run');
    }
    EmptyPendingIsDone(c, run');
  }

  /** The throw "validated graph stalled" is unreachable: some pending gate is blocked. */
  lemma PendingHasBlocked(c: Config, rank: map<Id, nat>, run: seq<Sched>, pending: seq<Id>)
    requires ValidConfig(c, rank) && Run(c, run) && Drained(c, run[|run| - 1])
    requires pending == PendingOf(c.order, run[|run| - 1].states) && pending != []
    ensures exists i :: 0 <= i < |pending| && Blocked(c.g, run[|run| - 1].states, pending[i])
  {
    var s := run[|run| - 1];
    LastInv(c, run);
    EmptyPoolIsIdle(c, s);
    PendingOfExact(c.order, s.states);
    assert pending[0] in pending;
    var k := PendingLeadsToBlocked(c, rank, s.states, pending[0]);
    assert c.order[k] in pending;
  }

  lemma EmptyPendingIsDone(c: Config, run: seq<Sched>)
    requires Run(c, run) && Drained(c, run[|run| - 1])
    requires PendingOf(c.order, run[|run| - 1].states) == []
    requires forall id :: id in c.order <==> id in c.g
    ensures Done(run[|run| - 1])
  {
    var s := run[|run| - 1];
    LastInv(c, run);
    EmptyPoolIsIdle(c, s);
    PendingOfExact(c.order, s.states);
    forall id | id in s.states
      ensures s.states[id].Settled?
    {
      assert id !in PendingOf(c.order, s.states);
    }
  }

  method SkipOne(c: Config, id: Id, failedDeps: seq<Id>, states: States, results: map<Id, GateResult>,
                 ghost run: seq<Sched>)
    returns (results': map<Id, GateResult>, ghost run': seq<Sched>)
    requires Tracks(c, run, states, results, []) && NoneReady(c.order, c.g, states)
    requires exists k :: FirstBlocked(c.order, c.g, states, k) && c.order[k] == id
    requires failedDeps == FailedDeps(states, c.g[id])
    ensures Tracks(c, run', states[id := Settled(Skipped)], results', []) && |run'| == |run| + 1
  {
    results' := results[id := GateResult(id, Skipped, failedDeps)];
    ghost var t := Skip(c.g, run[|run| - 1], id);
    assert SkipStep(c, run[|run| - 1], t);
    RunExtends(c, run, t);
    run' := run + [t];
  }

  /** The main loop: fill the pool, leave it for the skip phase when it stays empty, else wait for one gate. */
  method RunLoop(c: Config, ghost rank: map<Id, nat>) returns (results: map<Id, GateResult>, ghost run: seq<Sched>)
    requires ValidConfig(c, rank)
    ensures Run(c, run) && Done(run[|run| - 1]) && run[|run| - 1].results == results
  {
    var states: States := map id | id in c.g :: Pending;
    results := map[];
    var running: seq<Id> := [];
    run := [Initial(c.g)];
    while true
      invariant Tracks(c, run, states, results, running)
      decreases 2 * |c.order| + 1 - |run|
    {
      RunIsShort(c, rank, run);
      ghost var before := |run|;
      var madeProgress := false;
      while |running| < c.maxActive
        invariant Tracks(c, run, states, results, running)
        invariant before <= |run| && (madeProgress ==> before < |run|) && |run| <= 2 * |c.order| + 1
        invariant madeProgress ==> running != []
        decreases 2 * |c.order| + 1 - |run|
      {
        var ready := FindReady(c, states);
        if ready.None? {
          break;
        }
        states, running, run := StartReady(c, ready.value, states, results, running, run);
        RunIsShort(c, rank, run);
        madeProgress := true;
      }
      if |running| == 0 {
        results, run := SkipPending(c, states, results, rank, run);
        return;
      }
      if !madeProgress {
        var j :| 0 <= j < |running|;
        states, results, running, run := SettleOne(c, j, states, results, running, run);
        RunIsShort(c, rank, run);
      }
    }
  }

  /** Validate, run, and list the results in aggregate order. */
  method RunGates(gates: seq<Gate>, maxActive: int, execute: Executor)
    returns (outcome: Result<seq<GateResult>, RunError>, ghost run: seq<Sched>)
    ensures outcome.Success? <==> Validated(gates) && 1 <= maxActive <= 9007199254740991
    ensures outcome.Failure? ==> (outcome.error.InvalidGraph? <==> !Validated(gates))
    ensures outcome.Failure? && Validated(gates) ==> outcome.error == InvalidConcurrency(maxActive)
    ensures outcome.Failure? && outcome.error.InvalidGraph? ==> ErrorIsReal(gates, outcome.error.error)
    ensures outcome.Success? ==>
              var c := ConfigOf(gates, maxActive, execute);
              && Run(c, run) && Done(run[|run| - 1])
              && |outcome.value| == |gates|
              && forall k | 0 <= k < |gates| ::
                   && gates[k].id in FinalResults(c)
                   && outcome.value[k] == FinalResults(c)[gates[k].id]
                   && outcome.value[k].status == Expected(c.g, execute, gates[k].id)
  {
    run := [];
    var error, rank := ValidateGateGraph(gates);
    if error.Some? {
      return Failure(InvalidGraph(error.value)), run;
    }
    if maxActive < 1 || maxActive > MAX_SAFE_INTEGER {
      return Failure(InvalidConcurrency(maxActive)), run;
    }
    var c := ConfigOf(gates, maxActive, execute);
    ValidatedGivesValidConfig(gates, maxActive, execute, rank);
    var results;
    results, run := RunLoop(c, rank);
    ScheduleIndependence(c, rank, run);
    forall k | 0 <= k < |gates|
      ensures gates[k].id in c.g
    {
      NeedsGraphEdges(gates, k);
    }
    var listed := seq(|gates|, k requires 0 <= k < |gates| && gates[k].id in results => results[gates[k].id]);
    return Success(listed), run;
  }

  /** `main`: exit code 0 says that everything a blocking gate stands on passed, tolerated gates included. */
  method ExitCode(gates: seq<Gate>, maxActive: int, execute: Executor) returns (code: Result<nat, RunError>)
    ensures code.Success? <==> Validated(gates) && 1 <= maxActive <= 9007199254740991
    ensures code.Success? ==> code.value <= 1
    ensures code.Success? ==>
              (code.value == 0 <==> forall k | 0 <= k < |gates| && !gates[k].allowFailure ::
                                      StandsOnPassed(NeedsGraph(gates), execute, gates[k].id))
  {
    var outcome, run := RunGates(gates, maxActive, execute);
    if outcome.Failure? {
      return Failure(outcome.error);
    }
    var failed := exists k :: 0 <= k < |gates| && !gates[k].allowFailure && outcome.value[k].status != Passed;
    assert !failed <==> forall k | 0 <= k < |gates| && !gates[k].allowFailure :: outcome.value[k].status == Passed;
    return Success(if failed then 1 else 0);
  }
}
