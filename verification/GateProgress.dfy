/**
 What holds of whole runs: a validated graph never stalls, every run is short, a
 finished run solves the status equations, and its results do not depend on the schedule.
 */
module GateProgress {
  import opened Wrappers
  import opened Graphs
  import opened GateGraph
  import opened GateOutcome
  import opened GateScheduler

  // ----- no stall

  /** The states cover the graph and no gate is running. */
  ghost predicate Idle(c: Config, states: States) {
    forall id | id in c.g :: id in states && states[id] != Running
  }

  lemma EmptyPoolIsIdle(c: Config, s: Sched)
    requires Inv(c, s) && s.running == []
    ensures Idle(c, s.states)
  {
    forall id | id in c.g
      ensures id in s.states && s.states[id] != Running
    {
      assert id !in s.running;
    }
  }

  /** Once nothing runs and nothing is ready, following pending needs downwards ends at a blocked gate. */
  lemma {:induction false} PendingLeadsToBlocked(c: Config, rank: map<Id, nat>, states: States, id: Id) returns (k: int)
    requires ValidConfig(c, rank) && Idle(c, states) && NoneReady(c.order, c.g, states)
    requires id in c.g && states[id] == Pending
    ensures 0 <= k < |c.order| && Blocked(c.g, states, c.order[k])
    decreases rank[id]
  {
    if d :| d in c.g[id] && d in states && states[d] == Pending {
      assert Edge(c.g, id, d);
      k := PendingLeadsToBlocked(c, rank, states, d);
    } else {
      k :| 0 <= k < |c.order| && c.order[k] == id;
      assert !Ready(c.g, states, c.order[k]);
      var d :| d in c.g[id] && !(d in states && states[d] == Settled(Passed));
      assert Edge(c.g, id, d);
      assert states[d].status.Failed? || states[d].status.Skipped?;
      assert Blocking(states, d);
    }
  }

  lemma {:induction false} FirstBlockedExists(c: Config, states: States, k: int) returns (first: int)
    requires 0 <= k < |c.order| && Blocked(c.g, states, c.order[k])
    ensures FirstBlocked(c.order, c.g, states, first)
    decreases k
  {
    if i :| 0 <= i < k && Blocked(c.g, states, c.order[i]) {
      first := FirstBlockedExists(c, states, i);
    } else {
      first := k;
    }
  }

  lemma {:induction false} FirstReadyExists(c: Config, states: States, k: int) returns (first: int)
    requires 0 <= k < |c.order| && Ready(c.g, states, c.order[k])
    ensures FirstReady(c.order, c.g, states, first)
    decreases k
  {
    if i :| 0 <= i < k && Ready(c.g, states, c.order[i]) {
      first := FirstReadyExists(c, states, i);
    } else {
      first := k;
    }
  }

  lemma StartIsEnabled(c: Config, s: Sched, i: int) returns (t: Sched)
    requires |s.running| < c.maxActive && 0 <= i < |c.order| && Ready(c.g, s.states, c.order[i])
    ensures Step(c, s, t)
  {
    var k := FirstReadyExists(c, s.states, i);
    t := Start(s, c.order[k]);
    assert StartStep(c, s, t);
  }

  lemma SkipIsEnabled(c: Config, rank: map<Id, nat>, s: Sched) returns (t: Sched)
    requires ValidConfig(c, rank) && Inv(c, s) && !Done(s)
    requires s.running == [] && NoneReady(c.order, c.g, s.states)
    ensures Step(c, s, t)
  {
    EmptyPoolIsIdle(c, s);
    var id :| id in s.states && !s.states[id].Settled?;
    var i := PendingLeadsToBlocked(c, rank, s.states, id);
    var k := FirstBlockedExists(c, s.states, i);
    t := Skip(c.g, s, c.order[k]);
    assert SkipStep(c, s, t);
  }

  /** "validated graph stalled" cannot be thrown: an unfinished state always has a step. */
  lemma NeverStalls(c: Config, rank: map<Id, nat>, s: Sched)
    requires ValidConfig(c, rank) && Inv(c, s) && !Done(s)
    ensures exists t :: Step(c, s, t)
  {
    if i :| 0 <= i < |c.order| && Ready(c.g, s.states, c.order[i]) && |s.running| < c.maxActive {
      var t := StartIsEnabled(c, s, i);
    } else if s.running != [] {
      var t := Settle(s, 0, c.exec(s.running[0]));
      assert SettleStep(c, s, t);
      assert Step(c, s, t);
    } else {
      var t := SkipIsEnabled(c, rank, s);
    }
  }

  // ----- every run is short

  lemma {:induction false} DistinctIsShort(p: seq<Id>, q: seq<Id>)
    requires Distinct(p) && forall id | id in p :: id in q
    ensures |p| <= |q|
  {
    if p != [] {
      var last := p[|p| - 1];
      assert last in p;
      var j :| 0 <= j < |q| && q[j] == last;
      var init, rest := p[..|p| - 1], q[..j] + q[j + 1..];
      forall id | id in init
        ensures id in rest
      {
        assert id in p && id != last;
        var i :| 0 <= i < |q| && q[i] == id;
        assert rest[if i < j then i else i - 1] == id;
      }
      DistinctIsShort(init, rest);
    }
  }

  ghost function Progress(s: Sched): nat {
    |s.started| + |s.observed|
  }

  lemma StepProgresses(c: Config, s: Sched, t: Sched)
    requires Step(c, s, t)
    ensures Progress(t) == Progress(s) + 1
  {
  }

  lemma ProgressIsBounded(c: Config, rank: map<Id, nat>, s: Sched)
    requires ValidConfig(c, rank) && Inv(c, s)
    ensures Progress(s) <= 2 * |c.order|
  {
    DistinctIsShort(s.started, c.order);
    DistinctIsShort(s.observed, c.order);
  }

  lemma {:induction false} RunProgress(c: Config, run: seq<Sched>, i: nat)
    requires Run(c, run) && i < |run|
    ensures Progress(run[i]) == i
  {
    if i > 0 {
      RunProgress(c, run, i - 1);
      StepProgresses(c, run[i - 1], run[i]);
    }
  }

  lemma RunExtends(c: Config, run: seq<Sched>, t: Sched)
    requires Run(c, run) && Step(c, run[|run| - 1], t)
    ensures Run(c, run + [t])
  {
    var longer := run + [t];
    forall i | 0 < i < |longer|
      ensures Step(c, longer[i - 1], longer[i])
    {
      if i < |run| {
        assert Step(c, run[i - 1], run[i]);
      }
    }
  }

  /** Termination: a run makes at most two steps per gate, and can be extended until it is done. */
  lemma RunIsShort(c: Config, rank: map<Id, nat>, run: seq<Sched>)
    requires ValidConfig(c, rank) && Run(c, run)
    ensures |run| <= 2 * |c.order| + 1
    ensures !Done(run[|run| - 1]) ==> exists t :: Run(c, run + [t])
  {
    var last := run[|run| - 1];
    assert Inv(c, last) by {
      RunKeepsInv(c, run);
      assert last in run;
    }
    RunProgress(c, run, |run| - 1);
    ProgressIsBounded(c, rank, last);
    if !Done(last) {
      NeverStalls(c, rank, last);
      var t :| Step(c, last, t);
      RunExtends(c, run, t);
    }
  }

  // ----- a finished run solves the equations

  ghost function Statuses(s: Sched): map<Id, Status> {
    map id | id in s.results :: s.results[id].status
  }

  lemma DoneSolves(c: Config, rank: map<Id, nat>, s: Sched)
    requires ValidConfig(c, rank) && Inv(c, s) && Done(s)
    ensures Solves(c.g, c.exec, Statuses(s))
  {
    var st := Statuses(s);
    forall id | id in c.g
      ensures id in st && st[id] == if NeedsPassed(c.g, st, id) then c.exec(id) else Skipped
    {
      SettledStatus(c, s, id);
      if s.states[id] == Settled(Skipped) {
        SkippedHasUnpassedNeed(c, s, id);
      } else {
        LaunchedNeedsPassed(c, s, id);
      }
    }
  }

  lemma SettledStatus(c: Config, s: Sched, id: Id)
    requires Inv(c, s) && Done(s) && id in c.g
    ensures id in Statuses(s) && s.states[id] == Settled(Statuses(s)[id])
  {
  }

  lemma SkippedHasUnpassedNeed(c: Config, s: Sched, id: Id)
    requires Inv(c, s) && Done(s) && id in c.g && s.states[id] == Settled(Skipped)
    ensures !NeedsPassed(c.g, Statuses(s), id)
  {
    var d :| d in c.g[id] && Blocking(s.states, d);
    SettledStatus(c, s, d);
  }

  lemma LaunchedNeedsPassed(c: Config, s: Sched, id: Id)
    requires Inv(c, s) && Done(s) && id in c.g && s.states[id] != Settled(Skipped)
    ensures NeedsPassed(c.g, Statuses(s), id) && s.states[id] == Settled(c.exec(id))
  {
    assert Launched(s.states, id);
    forall d | d in c.g[id]
      ensures d in Statuses(s) && Statuses(s)[d] == Passed
    {
      SettledStatus(c, s, d);
    }
  }

  // ----- the results, reasons included, are the same for every schedule

  /** Where every run stands when its last gate has settled: exactly the doomed gates are pending. */
  ghost function DrainedStates(c: Config): States {
    map id | id in c.g :: if Doomed(c.g, c.exec, id) then Pending else Settled(c.exec(id))
  }

  ghost function DrainedResults(c: Config): map<Id, GateResult> {
    map id | id in c.g && !Doomed(c.g, c.exec, id) :: GateResult(id, c.exec(id), [])
  }

  /** Before the skip phase no gate is skipped and no result carries a reason. */
  ghost predicate NoSkips(s: Sched) {
    && (forall id | id in s.states :: s.states[id] != Settled(Skipped))
    && (forall id | id in s.results :: s.results[id].failedDeps == [])
  }

  ghost predicate Drained(c: Config, s: Sched) {
    s.running == [] && NoneReady(c.order, c.g, s.states)
  }

  lemma {:induction false} DrainedState(c: Config, rank: map<Id, nat>, s: Sched, id: Id)
    requires ValidConfig(c, rank) && Inv(c, s) && NoSkips(s) && Drained(c, s) && id in c.g
    ensures s.states[id] == if Doomed(c.g, c.exec, id) then Pending else Settled(c.exec(id))
    decreases rank[id]
  {
    forall d | Edge(c.g, id, d)
      ensures s.states[d] == Settled(Passed) <==> Expected(c.g, c.exec, d) == Passed
    {
      DrainedState(c, rank, s, d);
    }
    DoomUnfolds(c.g, c.exec, id);
    assert DependenciesPassed(c.g, s.states, id) <==> !Doomed(c.g, c.exec, id) by {
      assert forall d | d in c.g[id] :: Edge(c.g, id, d);
    }
    assert id !in s.running;
    assert !Ready(c.g, s.states, id) by {
      var k :| 0 <= k < |c.order| && c.order[k] == id;
    }
  }

  ghost function PendingSet(states: States): set<Id> {
    set id | id in states && states[id] == Pending
  }

  lemma SkipShrinksPending(states: States, id: Id)
    requires id in states && states[id] == Pending
    ensures PendingSet(states[id := Settled(Skipped)]) < PendingSet(states)
  {
    assert id in PendingSet(states);
  }

  ghost predicate AnyBlocked(c: Config, states: States) {
    exists k :: FirstBlocked(c.order, c.g, states, k)
  }

  /** The skip phase, which leaves the scheduler no choice. */
  ghost function SkipAll(c: Config, states: States, results: map<Id, GateResult>): map<Id, GateResult>
    decreases PendingSet(states)
  {
    if !AnyBlocked(c, states) then results
    else
      var k :| FirstBlocked(c.order, c.g, states, k);
      var id := c.order[k];
      SkipShrinksPending(states, id);
      SkipAll(c, states[id := Settled(Skipped)], results[id := GateResult(id, Skipped, FailedDeps(states, c.g[id]))])
  }

  ghost function FinalResults(c: Config): map<Id, GateResult> {
    SkipAll(c, DrainedStates(c), DrainedResults(c))
  }

  /** During the skip phase, what remains to be skipped is already determined. */
  ghost predicate OnCourse(c: Config, s: Sched) {
    NoSkips(s) || (Drained(c, s) && SkipAll(c, s.states, s.results) == FinalResults(c))
  }

  lemma DrainedMaps(c: Config, rank: map<Id, nat>, s: Sched)
    requires ValidConfig(c, rank) && Inv(c, s) && NoSkips(s) && Drained(c, s)
    ensures s.states == DrainedStates(c) && s.results == DrainedResults(c)
  {
    forall id | id in c.g
      ensures s.states[id] == DrainedStates(c)[id]
    {
      DrainedState(c, rank, s, id);
    }
    assert s.states == DrainedStates(c);
    DrainedResultsFollow(c, s);
  }

  lemma DrainedResultsFollow(c: Config, s: Sched)
    requires ObservedExact(s) && NoSkips(s) && s.states == DrainedStates(c)
    ensures s.results == DrainedResults(c)
  {
    forall id | id in s.results
      ensures s.results[id] == GateResult(id, s.states[id].status, [])
    {
    }
  }

  lemma DrainedIsOnCourse(c: Config, rank: map<Id, nat>, s: Sched)
    requires ValidConfig(c, rank) && Inv(c, s) && OnCourse(c, s) && Drained(c, s)
    ensures SkipAll(c, s.states, s.results) == FinalResults(c)
  {
    if NoSkips(s) {
      DrainedMaps(c, rank, s);
    }
  }

  lemma SkipStaysDrained(c: Config, states: States, id: Id)
    requires NoneReady(c.order, c.g, states) && Blocked(c.g, states, id)
    ensures NoneReady(c.order, c.g, states[id := Settled(Skipped)])
  {
    forall i | 0 <= i < |c.order|
      ensures !Ready(c.g, states[id := Settled(Skipped)], c.order[i])
    {
      assert !Ready(c.g, states, c.order[i]);
    }
  }

  lemma SkipUnfolds(c: Config, s: Sched, k: int)
    requires FirstBlocked(c.order, c.g, s.states, k)
    ensures SkipAll(c, s.states, s.results)
            == SkipAll(c, Skip(c.g, s, c.order[k]).states, Skip(c.g, s, c.order[k]).results)
  {
    assert AnyBlocked(c, s.states);
  }

  lemma SettleStaysOnCourse(c: Config, s: Sched, j: nat)
    requires OnCourse(c, s) && j < |s.running|
    ensures OnCourse(c, Settle(s, j, c.exec(s.running[j])))
  {
    assert c.exec(s.running[j]) != Skipped;
  }

  lemma SkipStaysOnCourse(c: Config, s: Sched, k: int)
    requires Drained(c, s) && FirstBlocked(c.order, c.g, s.states, k)
    requires SkipAll(c, s.states, s.results) == FinalResults(c)
    ensures OnCourse(c, Skip(c.g, s, c.order[k]))
  {
    SkipUnfolds(c, s, k);
    SkipStaysDrained(c, s.states, c.order[k]);
  }

  lemma StartStaysOnCourse(c: Config, s: Sched, t: Sched)
    requires OnCourse(c, s) && StartStep(c, s, t)
    ensures OnCourse(c, t)
  {
    var k :| FirstReady(c.order, c.g, s.states, k) && t == Start(s, c.order[k]);
    assert !Drained(c, s);
  }

  lemma StepStaysOnCourse(c: Config, rank: map<Id, nat>, s: Sched, t: Sched)
    requires ValidConfig(c, rank) && Inv(c, s) && OnCourse(c, s) && Step(c, s, t)
    ensures OnCourse(c, t)
  {
    if StartStep(c, s, t) {
      StartStaysOnCourse(c, s, t);
    } else if SettleStep(c, s, t) {
      var j :| 0 <= j < |s.running| && t == Settle(s, j, c.exec(s.running[j]));
      SettleStaysOnCourse(c, s, j);
    } else {
      DrainedIsOnCourse(c, rank, s);
      var k :| FirstBlocked(c.order, c.g, s.states, k) && t == Skip(c.g, s, c.order[k]);
      SkipStaysOnCourse(c, s, k);
    }
  }

  lemma {:induction false} RunStaysOnCourse(c: Config, rank: map<Id, nat>, run: seq<Sched>, i: nat)
    requires ValidConfig(c, rank) && Run(c, run) && i < |run|
    ensures OnCourse(c, run[i])
  {
    if i > 0 {
      RunStaysOnCourse(c, rank, run, i - 1);
      RunKeepsInv(c, run);
      assert run[i - 1] in run;
      StepStaysOnCourse(c, rank, run[i - 1], run[i]);
    }
  }

  /** Every finished run has the same results: statuses in closed form, and the same reason for every skip. */
  lemma ScheduleIndependence(c: Config, rank: map<Id, nat>, run: seq<Sched>)
    requires ValidConfig(c, rank) && Run(c, run) && Done(run[|run| - 1])
    ensures run[|run| - 1].results == FinalResults(c)
    ensures forall id :: id in FinalResults(c) <==> id in c.g
    ensures forall id | id in c.g :: FinalResults(c)[id].status == Expected(c.g, c.exec, id)
  {
    var last := run[|run| - 1];
    RunKeepsInv(c, run);
    assert last in run;
    RunStaysOnCourse(c, rank, run, |run| - 1);
    assert NoneReady(c.order, c.g, last.states);
    DrainedIsOnCourse(c, rank, last);
    assert !AnyBlocked(c, last.states);
    DoneSolves(c, rank, last);
    forall id | id in c.g
      ensures last.results[id].status == Expected(c.g, c.exec, id)
    {
      SolutionIsExpected(c.g, rank, c.exec, Statuses(last), id);
    }
  }
}
