/**
 What a gate run must produce, independently of any schedule: the status equations,
 their closed form by reachability, and the exit code.
 */
module GateOutcome {
  import opened Graphs
  import opened GateGraph

  datatype Status = Passed | Failed | Skipped

  /** What an executed gate can report; the executor never reports `Skipped`. */
  type Outcome = s: Status | s != Skipped witness Passed

  /** The executor, keyed by the id that identifies a gate of a validated list. */
  type Executor = Id -> Outcome

  /** The equations of a run: an executed gate has its outcome, a gate with an unpassed need is skipped. */
  ghost predicate Solves(g: Graph<Id>, exec: Executor, st: map<Id, Status>) {
    && (forall id :: id in st <==> id in g)
    && (forall id | id in g :: st[id] == if NeedsPassed(g, st, id) then exec(id) else Skipped)
  }

  ghost predicate NeedsPassed(g: Graph<Id>, st: map<Id, Status>, id: Id)
    requires id in g
  {
    forall d | d in g[id] :: d in st && st[d] == Passed
  }

  /** A gate whose executor fails is reachable through one or more needs edges. */
  ghost predicate Doomed(g: Graph<Id>, exec: Executor, id: Id) {
    exists h :: Reaches(g, id, h) && exec(h) == Failed
  }

  ghost function Expected(g: Graph<Id>, exec: Executor, id: Id): Status {
    if Doomed(g, exec, id) then Skipped else exec(id)
  }

  lemma DoomUnfolds(g: Graph<Id>, exec: Executor, id: Id)
    ensures Doomed(g, exec, id) <==> exists d :: Edge(g, id, d) && Expected(g, exec, d) != Passed
  {
    if h :| Reaches(g, id, h) && exec(h) == Failed {
      ReachesUnfold(g, id, h);
      var d :| Edge(g, id, d) && (d == h || Reaches(g, d, h));
      assert Expected(g, exec, d) != Passed;
    }
    if d :| Edge(g, id, d) && Expected(g, exec, d) != Passed {
      if Doomed(g, exec, d) {
        var h :| Reaches(g, d, h) && exec(h) == Failed;
        ReachesUnfold(g, id, h);
        assert Reaches(g, id, h);
      } else {
        ReachesUnfold(g, id, d);
        assert Reaches(g, id, d) && exec(d) == Failed;
      }
    }
  }

  /** The equations have at most one solution, and it is the closed form. */
  lemma {:induction false} SolutionIsExpected(g: Graph<Id>, rank: map<Id, nat>, exec: Executor, st: map<Id, Status>,
                                              id: Id)
    requires Ranked(g, rank) && Closed(g) && Solves(g, exec, st) && id in g
    ensures st[id] == Expected(g, exec, id)
    decreases rank[id]
  {
    forall d | Edge(g, id, d)
      ensures d in st && st[d] == Expected(g, exec, d)
    {
      SolutionIsExpected(g, rank, exec, st, d);
    }
    DoomUnfolds(g, exec, id);
    assert NeedsPassed(g, st, id) <==> forall d | Edge(g, id, d) :: st[d] == Passed;
  }

  /** The closed form does solve the equations. */
  lemma ExpectedSolves(g: Graph<Id>, exec: Executor)
    requires Closed(g)
    ensures Solves(g, exec, map id | id in g :: Expected(g, exec, id))
  {
    var st := map id | id in g :: Expected(g, exec, id);
    forall id | id in g
      ensures st[id] == if NeedsPassed(g, st, id) then exec(id) else Skipped
    {
      DoomUnfolds(g, exec, id);
      assert forall d | d in g[id] :: Edge(g, id, d);
      assert NeedsPassed(g, st, id) <==> forall d | Edge(g, id, d) :: Expected(g, exec, d) == Passed;
    }
  }

  /** A gate is skipped exactly when a gate that really ran and failed is reachable from it. */
  lemma {:induction false} SkippedIffObservedFailure(g: Graph<Id>, rank: map<Id, nat>, exec: Executor, st: map<Id,
                                                     Status>, id: Id)
    requires Ranked(g, rank) && Closed(g) && Solves(g, exec, st) && id in g
    ensures st[id] == Skipped <==> exists h :: h in g && Reaches(g, id, h) && st[h] == Failed
    decreases rank[id]
  {
    if st[id] == Skipped {
      var d :| d in g[id] && !(d in st && st[d] == Passed);
      assert Edge(g, id, d);
      ReachesUnfold(g, id, d);
      if st[d] == Skipped {
        SkippedIffObservedFailure(g, rank, exec, st, d);
        var h :| h in g && Reaches(g, d, h) && st[h] == Failed;
        ReachesUnfold(g, id, h);
      }
    }
    if h :| h in g && Reaches(g, id, h) && st[h] == Failed {
      SolutionIsExpected(g, rank, exec, st, h);
      SolutionIsExpected(g, rank, exec, st, id);
      assert Doomed(g, exec, id);
    }
  }

  /** A gate and everything it stands on pass. */
  ghost predicate StandsOnPassed(g: Graph<Id>, exec: Executor, id: Id) {
    exec(id) == Passed && forall h | Reaches(g, id, h) :: exec(h) == Passed
  }

  lemma PassedIffStandsOnPassed(g: Graph<Id>, rank: map<Id, nat>, exec: Executor, st: map<Id, Status>, id: Id)
    requires Ranked(g, rank) && Closed(g) && Solves(g, exec, st) && id in g
    ensures st[id] == Passed <==> StandsOnPassed(g, exec, id)
  {
    SolutionIsExpected(g, rank, exec, st, id);
  }
}
