/**
 A pool of workers sharing one counter. Code between two awaits is atomic, so a worker's
 step is: store the awaited result, then claim the next index and start on it, or finish.
 */
module WorkerPool {
  import opened Wrappers

  datatype Worker = NotStarted | Running(index: nat) | Finished

  /** `calls` lists the indices handed to the linter, in order. */
  datatype Pool<R> = Pool(next: nat, workers: seq<Worker>, results: seq<Option<R>>, calls: seq<nat>)

  function Initial<R>(targets: nat, concurrency: nat): Pool<R> {
    Pool(0, seq(concurrency, _ => NotStarted), seq(targets, _ => None), [])
  }

  predicate CanStep<R>(p: Pool<R>, w: nat) {
    w < |p.workers| && !p.workers[w].Finished?
  }

  function Store<R>(p: Pool<R>, worker: Worker, result: nat -> R): seq<Option<R>> {
    if worker.Running? && worker.index < |p.results| then p.results[worker.index := Some(result(worker.index))]
      else p.results
  }

  function Step<R>(p: Pool<R>, w: nat, result: nat -> R): Pool<R>
    requires CanStep(p, w)
  {
    var results := Store(p, p.workers[w], result);
    if p.next < |p.results| then
      Pool(p.next + 1, p.workers[w := Running(p.next)], results, p.calls + [p.next])
    else
      Pool(p.next + 1, p.workers[w := Finished], results, p.calls)
  }

  /** One interleaving: which worker's await resolves next. */
  ghost predicate Possible<R>(p: Pool<R>, schedule: seq<nat>, result: nat -> R)
    decreases |schedule|
  {
    schedule == [] || (CanStep(p, schedule[0]) && Possible(Step(p, schedule[0], result), schedule[1..], result))
  }

  function Run<R>(p: Pool<R>, schedule: seq<nat>, result: nat -> R): Pool<R>
    requires Possible(p, schedule, result)
    decreases |schedule|
  {
    if schedule == [] then p else Run(Step(p, schedule[0], result), schedule[1..], result)
  }

  function CountFinished(workers: seq<Worker>): nat {
    if workers == [] then 0 else (if workers[0].Finished? then 1 else 0) + CountFinished(workers[1..])
  }

  function CountRunning(workers: seq<Worker>): nat {
    if workers == [] then 0 else (if workers[0].Running? then 1 else 0) + CountRunning(workers[1..])
  }

  function CountStored<R>(results: seq<Option<R>>): nat {
    if results == [] then 0 else (if results[0].Some? then 1 else 0) + CountStored(results[1..])
  }

  ghost predicate AllFinished<R>(p: Pool<R>) {
    forall w | 0 <= w < |p.workers| :: p.workers[w].Finished?
  }

  // ----- the invariant

  ghost predicate Working<R>(p: Pool<R>, i: nat) {
    exists w :: 0 <= w < |p.workers| && p.workers[w] == Running(i)
  }

  /** Every claimed index was handed out once, in order. */
  ghost predicate CallsInOrder<R>(p: Pool<R>) {
    |p.calls| == (if p.next < |p.results| then p.next else |p.results|) && forall i | 0 <= i < |p.calls| ::
      p.calls[i] == i
  }

  /** No two workers have the same target, and none has one already stored. */
  ghost predicate Exclusive<R>(p: Pool<R>) {
    && (forall w | 0 <= w < |p.workers| && p.workers[w].Running? ::
          p.workers[w].index < |p.calls| && p.workers[w].index < |p.results| && p.results[p.workers[w].index].None?)
    && (forall v, w | 0 <= v < w < |p.workers| && p.workers[v].Running? && p.workers[w].Running? ::
          p.workers[v].index != p.workers[w].index)
  }

  /** Nothing handed out is lost, and only the linter's own answer is stored. */
  ghost predicate Accounted<R>(p: Pool<R>, result: nat -> R) {
    forall i | 0 <= i < |p.results| ::
      && (p.results[i].Some? ==> i < |p.calls| && p.results[i].value == result(i))
      && (i < |p.calls| ==> p.results[i].Some? || Working(p, i))
  }

  ghost predicate Inv<R>(p: Pool<R>, result: nat -> R) {
    && CallsInOrder(p) && Exclusive(p) && Accounted(p, result)
    && CountFinished(p.workers) == (if p.next <= |p.results| then 0 else p.next - |p.results|)
    && |p.calls| == CountStored(p.results) + CountRunning(p.workers)
  }

  lemma {:induction false} CountUpdate(workers: seq<Worker>, w: nat, x: Worker)
    requires w < |workers|
    ensures CountFinished(workers[w := x])
         == CountFinished(workers) - (if workers[w].Finished? then 1 else 0) + (if x.Finished? then 1 else 0)
    ensures CountRunning(workers[w := x])
         == CountRunning(workers) - (if workers[w].Running? then 1 else 0) + (if x.Running? then 1 else 0)
  {
    if w > 0 {
      CountUpdate(workers[1..], w - 1, x);
      assert workers[w := x][1..] == workers[1..][w - 1 := x];
    } else {
      assert workers[w := x][1..] == workers[1..];
    }
  }

  lemma {:induction false} CountStoredUpdate<R>(results: seq<Option<R>>, i: nat, r: R)
    requires i < |results| && results[i].None?
    ensures CountStored(results[i := Some(r)]) == CountStored(results) + 1
  {
    if i > 0 {
      CountStoredUpdate(results[1..], i - 1, r);
      assert results[i := Some(r)][1..] == results[1..][i - 1 := Some(r)];
    } else {
      assert results[i := Some(r)][1..] == results[1..];
    }
  }

  lemma StepKeepsAccounted<R>(p: Pool<R>, w: nat, result: nat -> R)
    requires CanStep(p, w) && CallsInOrder(p) && Exclusive(p) && Accounted(p, result)
    ensures Accounted(Step(p, w, result), result)
  {
    var q := Step(p, w, result);
    forall i | 0 <= i < |q.results| && i < |q.calls| && q.results[i].None?
      ensures Working(q, i)
    {
      if i < |p.calls| {
        var v :| 0 <= v < |p.workers| && p.workers[v] == Running(i);
        assert v != w && q.workers[v] == Running(i);
      } else {
        assert q.workers[w] == Running(i);
      }
    }
  }

  lemma StepKeepsExclusive<R>(p: Pool<R>, w: nat, result: nat -> R)
    requires CanStep(p, w) && CallsInOrder(p) && Exclusive(p) && Accounted(p, result)
    ensures CallsInOrder(Step(p, w, result)) && Exclusive(Step(p, w, result))
  {
  }

  lemma StepKeepsInv<R>(p: Pool<R>, w: nat, result: nat -> R)
    requires CanStep(p, w) && Inv(p, result)
    ensures Inv(Step(p, w, result), result)
  {
    StepKeepsAccounted(p, w, result);
    StepKeepsExclusive(p, w, result);
    var q := Step(p, w, result);
    CountUpdate(p.workers, w, q.workers[w]);
    if p.workers[w].Running? {
      CountStoredUpdate(p.results, p.workers[w].index, result(p.workers[w].index));
    }
  }

  lemma {:induction false} InitialCounts(workers: seq<Worker>)
    requires forall w | 0 <= w < |workers| :: workers[w] == NotStarted
    ensures CountFinished(workers) == 0 && CountRunning(workers) == 0
  {
    if workers != [] {
      InitialCounts(workers[1..]);
    }
  }

  lemma {:induction false} InitialStored<R>(results: seq<Option<R>>)
    requires forall i | 0 <= i < |results| :: results[i].None?
    ensures CountStored(results) == 0
  {
    if results != [] {
      InitialStored(results[1..]);
    }
  }

  lemma InitialInv<R>(targets: nat, concurrency: nat, result: nat -> R)
    ensures Inv(Initial<R>(targets, concurrency), result)
  {
    InitialCounts(Initial<R>(targets, concurrency).workers);
    InitialStored(Initial<R>(targets, concurrency).results);
  }

  lemma {:induction false} RunKeepsInv<R>(p: Pool<R>, schedule: seq<nat>, result: nat -> R)
    requires Inv(p, result) && Possible(p, schedule, result)
    ensures var q := Run(p, schedule, result);
            Inv(q, result) && q.next == p.next + |schedule| && |q.workers| == |p.workers| && |q.results| == |p.results|
    decreases |schedule|
  {
    if schedule != [] {
      StepKeepsInv(p, schedule[0], result);
      RunKeepsInv(Step(p, schedule[0], result), schedule[1..], result);
    }
  }

  // ----- whole runs

  lemma {:induction false} FinishedBound(workers: seq<Worker>)
    ensures CountFinished(workers) <= |workers|
    ensures CountFinished(workers) == |workers| <==> forall w | 0 <= w < |workers| :: workers[w].Finished?
    ensures CountRunning(workers) + CountFinished(workers) <= |workers|
  {
    if workers != [] {
      FinishedBound(workers[1..]);
      if forall w | 0 <= w < |workers[1..]| :: workers[1..][w].Finished? {
        assert forall w | 1 <= w < |workers| :: workers[w] == workers[1..][w - 1];
      }
    }
  }

  /** At every moment of every interleaving, started = stored + in flight, and at most `concurrency` are in flight. */
  lemma InFlightBound<R>(targets: nat, concurrency: nat, schedule: seq<nat>, result: nat -> R)
    requires Possible(Initial<R>(targets, concurrency), schedule, result)
    ensures var q := Run(Initial<R>(targets, concurrency), schedule, result);
            && |q.calls| - CountStored(q.results) == CountRunning(q.workers) <= concurrency
            && (forall i, j | 0 <= i < j < |q.calls| :: q.calls[i] != q.calls[j])
  {
    InitialInv(targets, concurrency, result);
    RunKeepsInv(Initial<R>(targets, concurrency), schedule, result);
    FinishedBound(Run(Initial<R>(targets, concurrency), schedule, result).workers);
  }

  /** Every slot the join reads holds its own target's result. */
  ghost predicate Filled<R>(results: seq<Option<R>>, result: nat -> R) {
    forall i | 0 <= i < |results| :: results[i] == Some(result(i))
  }

  /** Every index was handed out exactly once. */
  ghost predicate OnceEach(calls: seq<nat>, targets: nat) {
    |calls| == targets && forall i | 0 <= i < targets :: calls[i] == i
  }

  lemma FinishedMeansDone<R>(p: Pool<R>, result: nat -> R)
    requires Inv(p, result) && AllFinished(p) && (p.workers != [] || p.results == [])
    ensures p.next == |p.results| + |p.workers| && Filled(p.results, result) && OnceEach(p.calls, |p.results|)
  {
    FinishedBound(p.workers);
    assert |p.calls| == |p.results|;
    forall i | 0 <= i < |p.results|
      ensures p.results[i] == Some(result(i))
    {
      assert !Working(p, i);
    }
  }

  /**
   Every interleaving of at least one worker: after exactly `targets + concurrency` steps, never before,
   all workers have finished; every target was then linted exactly once and every slot holds its result.
   */
  lemma EveryInterleavingFillsEverySlot<R>(targets: nat, concurrency: nat, schedule: seq<nat>, result: nat -> R)
    requires concurrency > 0 || targets == 0
    requires Possible(Initial<R>(targets, concurrency), schedule, result)
    ensures var q := Run(Initial<R>(targets, concurrency), schedule, result);
            && |schedule| <= targets + concurrency
            && (AllFinished(q) <==> |schedule| == targets + concurrency)
            && (AllFinished(q) ==>
                  && |q.results| == targets && |q.calls| == targets
                  && forall i | 0 <= i < targets :: q.results[i] == Some(result(i)) && q.calls[i] == i)
  {
    InitialInv(targets, concurrency, result);
    RunKeepsInv(Initial<R>(targets, concurrency), schedule, result);
    var q := Run(Initial<R>(targets, concurrency), schedule, result);
    FinishedBound(q.workers);
    if AllFinished(q) {
      FinishedMeansDone(q, result);
    }
  }

  lemma NextBound<R>(p: Pool<R>, result: nat -> R)
    requires Inv(p, result)
    ensures p.next <= |p.results| + |p.workers|
  {
    FinishedBound(p.workers);
  }

  // ----- the loop

  datatype PoolError = MissingResult(index: nat)

  /** `await Promise.all(...)`, then the join; `:|` chooses whose await resolves. */
  method RunAll<R>(targets: nat, concurrency: nat, result: nat -> R) returns (outcome: Result<seq<R>, PoolError>)
    ensures outcome.Success? <==> concurrency > 0 || targets == 0
    ensures outcome.Success?
            ==> |outcome.value| == targets && forall i | 0 <= i < targets :: outcome.value[i] == result(i)
    ensures outcome.Failure? ==> outcome.error == MissingResult(0)
  {
    var next: nat := 0;
    var workers := seq(concurrency, _ => NotStarted);
    var results := new Option<R>[targets](_ => None);
    ghost var pool := Initial<R>(targets, concurrency);
    InitialInv(targets, concurrency, result);
    while exists w :: 0 <= w < |workers| && !workers[w].Finished?
      invariant pool.next == next && pool.workers == workers && pool.results == results[..]
      invariant |workers| == concurrency && next <= targets + concurrency && (concurrency == 0 ==> next == 0)
      invariant Inv(pool, result)
      decreases targets + concurrency - next
    {
      var w :| 0 <= w < |workers| && !workers[w].Finished?;
      StepKeepsInv(pool, w, result);
      NextBound(Step(pool, w, result), result);
      pool := Step(pool, w, result);
      if workers[w].Running? {
        results[workers[w].index] := Some(result(workers[w].index));
      }
      var index := next;
      next := next + 1;
      workers := workers[w := if index < targets then Running(index) else Finished];
    }
    if concurrency > 0 || targets == 0 {
      FinishedMeansDone(pool, result);
    }
    outcome := Join(results[..]);
  }

  /** Every slot must be filled; the first empty one is reported. */
  method Join<R>(results: seq<Option<R>>) returns (outcome: Result<seq<R>, PoolError>)
    ensures outcome.Success? <==> forall i | 0 <= i < |results| :: results[i].Some?
    ensures outcome.Success?
            ==> |outcome.value| == |results| && forall i | 0 <= i < |results| :: results[i] == Some(outcome.value[i])
    ensures outcome.Failure? ==> outcome.error.index < |results| && results[outcome.error.index].None?
                                 && forall i | 0 <= i < outcome.error.index :: results[i].Some?
  {
    var values := [];
    for i := 0 to |results|
      invariant |values| == i && forall j | 0 <= j < i :: results[j] == Some(values[j])
    {
      if results[i].None? {
        return Failure(MissingResult(i));
      }
      values := values + [results[i].value];
    }
    return Success(values);
  }
}
