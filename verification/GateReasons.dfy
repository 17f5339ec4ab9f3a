/**
 What the results of a run do not depend on, and what the reason of a skip says: the
 concurrency limit changes neither, and every skip names the needs that stopped it.
 */
module GateReasons {
  import opened Graphs
  import opened GateGraph
  import opened GateOutcome
  import opened GateScheduler
  import opened GateProgress

  // ----- the limit does not matter

  /** The same gates and outcomes, whatever the limit. */
  ghost predicate SameGates(c: Config, other: Config) {
    other == c.(maxActive := other.maxActive)
  }

  lemma {:induction false} SkipAllIgnoresLimit(c: Config, other: Config, states: States, results: map<Id, GateResult>)
    requires SameGates(c, other)
    ensures SkipAll(c, states, results) == SkipAll(other, states, results)
    decreases PendingSet(states)
  {
    if k :| FirstBlocked(c.order, c.g, states, k) {
      var id := c.order[k];
      var s := Sched(states, results, [], [], []);
      SkipUnfolds(c, s, k);
      SkipUnfolds(other, s, k);
      SkipShrinksPending(states, id);
      SkipAllIgnoresLimit(c, other, Skip(c.g, s, id).states, Skip(c.g, s, id).results);
    } else {
      assert !AnyBlocked(c, states) && !AnyBlocked(other, states);
    }
  }

  lemma FinalResultsIgnoreLimit(c: Config, maxActive: nat)
    ensures FinalResults(c) == FinalResults(c.(maxActive := maxActive))
  {
    SkipAllIgnoresLimit(c, c.(maxActive := maxActive), DrainedStates(c), DrainedResults(c));
  }

  /** Any two finished runs of the same gates, under any two limits, end with the same results. */
  lemma AnyLimitAnySchedule(c: Config, other: Config, rank: map<Id, nat>, run: seq<Sched>, otherRun: seq<Sched>)
    requires ValidConfig(c, rank) && ValidConfig(other, rank) && SameGates(c, other)
    requires Run(c, run) && Done(run[|run| - 1]) && Run(other, otherRun) && Done(otherRun[|otherRun| - 1])
    ensures run[|run| - 1].results == otherRun[|otherRun| - 1].results
  {
    ScheduleIndependence(c, rank, run);
    ScheduleIndependence(other, rank, otherRun);
    FinalResultsIgnoreLimit(c, other.maxActive);
  }

  // ----- the reasons

  /** A skip names some needs, none that passed and every one that failed; nothing else has a reason. */
  ghost predicate Reasoned(g: Graph<Id>, results: map<Id, GateResult>, id: Id)
    requires id in results
  {
    id in g
    && if results[id].status != Skipped then results[id].failedDeps == []
       else
         && results[id].failedDeps != []
         && (forall d | d in results[id].failedDeps :: d in g[id] && d in results && results[d].status != Passed)
         && (forall d | d in g[id] && d in results && results[d].status == Failed :: d in results[id].failedDeps)
  }

  ghost predicate AllReasoned(g: Graph<Id>, results: map<Id, GateResult>) {
    forall id | id in results :: Reasoned(g, results, id)
  }

  /** The results are those of the settled gates. */
  ghost predicate Agree(states: States, results: map<Id, GateResult>) {
    && (forall id :: id in results <==> id in states && states[id].Settled?)
    && (forall id | id in results :: states[id] == Settled(results[id].status))
  }

  lemma SkipAgrees(states: States, results: map<Id, GateResult>, id: Id, deps: seq<Id>)
    requires Agree(states, results) && id in states
    ensures Agree(states[id := Settled(Skipped)], results[id := GateResult(id, Skipped, deps)])
  {
  }

  lemma OldReasonStays(g: Graph<Id>, results: map<Id, GateResult>, x: Id, id: Id, deps: seq<Id>)
    requires id !in results && x in results && Reasoned(g, results, x)
    ensures Reasoned(g, results[id := GateResult(id, Skipped, deps)], x)
  {
  }

  lemma NewReason(g: Graph<Id>, states: States, results: map<Id, GateResult>, id: Id)
    requires Agree(states, results) && Blocked(g, states, id)
    ensures Reasoned(g, results[id := GateResult(id, Skipped, FailedDeps(states, g[id]))], id)
  {
    var deps := FailedDeps(states, g[id]);
    var d :| d in g[id] && Blocking(states, d);
    assert d in deps;
    forall d | d in deps
      ensures d in g[id] && d in results && results[d].status != Passed
    {
    }
    forall d | d in g[id] && d in results && results[d].status == Failed
      ensures d in deps
    {
      assert Blocking(states, d);
    }
  }

  lemma SkipIsReasoned(g: Graph<Id>, states: States, results: map<Id, GateResult>, id: Id)
    requires Agree(states, results) && AllReasoned(g, results) && Blocked(g, states, id)
    ensures AllReasoned(g, results[id := GateResult(id, Skipped, FailedDeps(states, g[id]))])
  {
    var deps := FailedDeps(states, g[id]);
    NewReason(g, states, results, id);
    forall x | x in results && x != id
      ensures Reasoned(g, results[id := GateResult(id, Skipped, deps)], x)
    {
      OldReasonStays(g, results, x, id, deps);
    }
  }

  lemma {:induction false} SkipAllIsReasoned(c: Config, states: States, results: map<Id, GateResult>)
    requires Agree(states, results) && AllReasoned(c.g, results)
    ensures AllReasoned(c.g, SkipAll(c, states, results))
    decreases PendingSet(states)
  {
    if k :| FirstBlocked(c.order, c.g, states, k) {
      var id := c.order[k];
      var s := Sched(states, results, [], [], []);
      SkipUnfolds(c, s, k);
      SkipShrinksPending(states, id);
      SkipAgrees(states, results, id, FailedDeps(states, c.g[id]));
      SkipIsReasoned(c.g, states, results, id);
      SkipAllIsReasoned(c, Skip(c.g, s, id).states, Skip(c.g, s, id).results);
    } else {
      assert !AnyBlocked(c, states);
    }
  }

  /** In the results of every finished run each skip is reasoned. */
  lemma FinalResultsAreReasoned(c: Config, rank: map<Id, nat>, run: seq<Sched>)
    requires ValidConfig(c, rank) && Run(c, run) && Done(run[|run| - 1])
    ensures AllReasoned(c.g, run[|run| - 1].results)
  {
    ScheduleIndependence(c, rank, run);
    assert forall id | id in c.g :: DrainedStates(c)[id].Settled? <==> !Doomed(c.g, c.exec, id);
    SkipAllIsReasoned(c, DrainedStates(c), DrainedResults(c));
  }
}
