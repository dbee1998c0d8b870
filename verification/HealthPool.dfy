/** The health coordinator's worker pool: several workers that share one queue of targets, in any interleaving. */
module HealthPool {
  import opened Numbers
  import opened Text
  import opened Sorting

  datatype HealthState = Healthy | Degraded | Unknown | Unreachable | Disabled

  datatype Target = Target(id: string, hostname: string, port: int, useTls: bool)

  datatype Outcome = Outcome(id: string, ok: bool, latencyMs: Option<int>, state: HealthState, error: Option<string>)

  /** `classifyHealth` */
  function ClassifyHealth(ok: bool, latencyMs: Option<int>, threshold: int): HealthState {
    if !ok then Unreachable
    else if latencyMs.Some? && latencyMs.value > threshold then Degraded
    else Healthy
  }

  /** What the network did with a probe. */
  datatype Answer = Connected(latencyMs: int) | Failed(error: string)

  /** What `probeTarget` reports. */
  function ProbeTarget(target: Target, answer: Answer, threshold: int): Outcome {
    match answer
    case Connected(ms) => Outcome(target.id, true, Some(ms), ClassifyHealth(true, Some(ms), threshold), None)
    case Failed(error) => Outcome(target.id, false, None, Unreachable, Some(error[..Min(|error|, 200)]))
  }

  datatype Worker = Idle | Probing(target: Target) | Done

  /** A result with the target it is for. */
  datatype Result = Result(target: Target, outcome: Outcome)

  /** The queue as the request gave it may hold `null`. */
  datatype Pool = Pool(queue: seq<Option<Target>>, workers: seq<Worker>, results: seq<Result>)

  /** `Math.min(Math.max(concurrency ?? 6, 1), 12)` */
  function Clamped(concurrency: Option<int>): int { Min(Max(concurrency.GetOr(6), 1), 12) }

  function Start(targets: seq<Option<Target>>, concurrency: Option<int>): Pool {
    Pool(targets, seq(Min(Clamped(concurrency), |targets|), _ => Idle), [])
  }

  /** A worker takes the next target, or returns; or its probe is answered. */
  datatype Step = Take(worker: nat) | Finish(worker: nat, answer: Answer)

  predicate Possible(p: Pool, step: Step) {
    step.worker < |p.workers| && if step.Take? then p.workers[step.worker] == Idle else p.workers[step.worker].Probing?
  }

  function Next(p: Pool, step: Step, threshold: int): Pool
    requires Possible(p, step)
  {
    var w := step.worker;
    match step
    case Take(_) =>
      if p.queue == [] then p.(workers := p.workers[w := Done])
      else if p.queue[0].None? then Pool(p.queue[1..], p.workers[w := Done], p.results)
      else Pool(p.queue[1..], p.workers[w := Probing(p.queue[0].value)], p.results)
    case Finish(_, answer) =>
      var target := p.workers[w].target;
      Pool(p.queue, p.workers[w := Idle], p.results + [Result(target, ProbeTarget(target, answer, threshold))])
  }

  predicate IsRun(run: seq<Pool>, steps: seq<Step>, targets: seq<Option<Target>>, concurrency: Option<int>,
      threshold: int) {
    && |run| == |steps| + 1 && run[0] == Start(targets, concurrency)
    && forall i | 0 <= i < |steps| :: Possible(run[i], steps[i]) && run[i + 1] == Next(run[i], steps[i], threshold)
  }

  /** `Promise.all(workers)` */
  predicate Finished(p: Pool) { EachDone(p.workers) }

  // ---------------------------------------------------------------- counting

  function One(b: bool): nat { if b then 1 else 0 }

  /** How many workers are probing a target. */
  function Flight(workers: seq<Worker>, x: Target): nat {
    if workers == [] then 0 else One(workers[0] == Probing(x)) + Flight(workers[1..], x)
  }

  /** How many results there are for a target. */
  function Probed(results: seq<Result>, x: Target): nat {
    if results == [] then 0 else Probed(results[..|results| - 1], x) + One(results[|results| - 1].target == x)
  }

  /** How many times a target is in a part of the queue. */
  function Given(queue: seq<Option<Target>>, x: Target): nat {
    if queue == [] then 0 else Given(queue[..|queue| - 1], x) + One(queue[|queue| - 1] == Some(x))
  }

  function Nulls(queue: seq<Option<Target>>): nat {
    if queue == [] then 0 else Nulls(queue[..|queue| - 1]) + One(queue[|queue| - 1].None?)
  }

  function Active(workers: seq<Worker>): nat {
    if workers == [] then 0 else One(workers[0].Probing?) + Active(workers[1..])
  }

  function Stopped(workers: seq<Worker>): nat {
    if workers == [] then 0 else One(workers[0] == Done) + Stopped(workers[1..])
  }

  function Waiting(workers: seq<Worker>): nat {
    if workers == [] then 0 else One(workers[0] == Idle) + Waiting(workers[1..])
  }

  lemma {:induction false} ChangeFlight(workers: seq<Worker>, w: nat, to: Worker, x: Target)
    requires w < |workers|
    ensures Flight(workers[w := to], x) + One(workers[w] == Probing(x)) == Flight(workers, x) + One(to == Probing(x))
  {
    var rest, changed := workers[1..], workers[w := to];
    if w == 0 {
      assert changed[1..] == rest;
    } else {
      ChangeFlight(rest, w - 1, to, x);
      assert changed[1..] == rest[w - 1 := to];
    }
  }

  lemma {:induction false} ChangeCounts(workers: seq<Worker>, w: nat, to: Worker)
    requires w < |workers|
    ensures Stopped(workers[w := to]) + One(workers[w] == Done) == Stopped(workers) + One(to == Done)
    ensures Waiting(workers[w := to]) + One(workers[w] == Idle) == Waiting(workers) + One(to == Idle)
    ensures Active(workers[w := to]) + One(workers[w].Probing?) == Active(workers) + One(to.Probing?)
  {
    var rest, changed := workers[1..], workers[w := to];
    if w == 0 {
      assert changed[1..] == rest;
    } else {
      ChangeCounts(rest, w - 1, to);
      assert changed[1..] == rest[w - 1 := to];
    }
  }

  lemma {:induction false} Busy(workers: seq<Worker>)
    ensures Active(workers) + Stopped(workers) + Waiting(workers) == |workers|
  {
    if workers != [] { Busy(workers[1..]); }
  }

  predicate EachDone(workers: seq<Worker>) { forall i | 0 <= i < |workers| :: workers[i] == Done }

  lemma {:induction false} AllStopped(workers: seq<Worker>, x: Target)
    requires EachDone(workers)
    ensures Stopped(workers) == |workers| && Active(workers) == 0 && Flight(workers, x) == 0
  {
    if workers != [] { AllStopped(workers[1..], x); }
  }

  lemma {:induction false} AllWaiting(n: nat, x: Target)
    ensures var ws := seq(n, _ => Idle); Stopped(ws) == 0 && Active(ws) == 0 && Flight(ws, x) == 0 && Waiting(ws) == n
  {
    if n > 0 {
      AllWaiting(n - 1, x);
      assert seq(n, _ => Idle)[1..] == seq(n - 1, _ => Idle);
    }
  }

  lemma {:induction false} TakenOne(queue: seq<Option<Target>>, k: nat, x: Target)
    requires k < |queue|
    ensures Given(queue[..k + 1], x) == Given(queue[..k], x) + One(queue[k] == Some(x))
    ensures Nulls(queue[..k + 1]) == Nulls(queue[..k]) + One(queue[k].None?)
  {
    assert queue[..k + 1][..k] == queue[..k];
  }

  lemma {:induction false} GivenConcat(a: seq<Option<Target>>, b: seq<Option<Target>>, x: Target)
    ensures Given(a + b, x) == Given(a, x) + Given(b, x) && Nulls(a + b) == Nulls(a) + Nulls(b)
  {
    if b == [] {
      assert a + b == a;
    } else {
      var n := |b| - 1;
      GivenConcat(a, b[..n], x);
      assert (a + b)[..|a + b| - 1] == a + b[..n];
    }
  }

  // ---------------------------------------------------------------- the invariant

  function TakenCount(p: Pool, targets: seq<Option<Target>>): int { |targets| - |p.queue| }

  /** A result that some answer of the network explains. */
  ghost predicate Genuine(r: Result, threshold: int) {
    exists answer :: r.outcome == ProbeTarget(r.target, answer, threshold)
  }

  /** Every target stands behind fewer than `n` `null`s. */
  predicate BehindFewer(taken: seq<Option<Target>>, n: nat) { forall j | 0 <= j < |taken| :: Nulls(taken[..j]) < n }

  lemma {:induction false} OneBehindFewer(taken: seq<Option<Target>>, next: Option<Target>, n: nat)
    requires BehindFewer(taken, n) && Nulls(taken) < n
    ensures BehindFewer(taken + [next], n)
  {
    var after := taken + [next];
    forall j | 0 <= j < |after| ensures Nulls(after[..j]) < n {
      assert after[..j] == if j < |taken| then taken[..j] else taken;
    }
  }

  /** The queue is what is left of the input; a worker has stopped for every `null` taken, and more have only stopped
      when nothing is left; what was taken stood behind fewer `null`s than there are workers. */
  ghost predicate Inv(p: Pool, targets: seq<Option<Target>>, threshold: int) {
    var k := TakenCount(p, targets);
    && 0 <= k && p.queue == targets[k..]
    && Active(p.workers) + |p.results| + Nulls(targets[..k]) == k
    && Nulls(targets[..k]) <= Stopped(p.workers)
    && (p.queue != [] ==> Nulls(targets[..k]) == Stopped(p.workers))
    && BehindFewer(targets[..k], |p.workers|)
    && forall r | r in p.results :: Genuine(r, threshold)
  }

  /** Each target taken from the queue is being probed or has a result. */
  predicate Tracked(p: Pool, targets: seq<Option<Target>>, x: Target)
    requires 0 <= TakenCount(p, targets)
  {
    Flight(p.workers, x) + Probed(p.results, x) == Given(targets[..TakenCount(p, targets)], x)
  }

  lemma {:induction false} TakeTracks(p: Pool, w: nat, targets: seq<Option<Target>>, threshold: int, x: Target)
    requires Inv(p, targets, threshold) && Tracked(p, targets, x) && Possible(p, Take(w)) && p.queue != []
    ensures var t := Next(p, Take(w), threshold); TakenCount(t, targets) >= 0 && Tracked(t, targets, x)
  {
    var k := TakenCount(p, targets);
    ChangeFlight(p.workers, w, Next(p, Take(w), threshold).workers[w], x);
    TakenOne(targets, k, x);
    assert p.queue[0] == targets[k];
  }

  lemma {:induction false} TakeQueued(p: Pool, w: nat, targets: seq<Option<Target>>, threshold: int)
    requires Inv(p, targets, threshold) && Possible(p, Take(w)) && p.queue != []
    ensures Inv(Next(p, Take(w), threshold), targets, threshold)
  {
    var t := Next(p, Take(w), threshold);
    var k := TakenCount(p, targets);
    ChangeCounts(p.workers, w, t.workers[w]);
    Busy(p.workers);
    assert p.queue[0] == targets[k] && t.queue == targets[k + 1..];
    TakenOne(targets, k, Target("", "", 0, false));
    OneBehindFewer(targets[..k], targets[k], |p.workers|);
    assert targets[..k] + [targets[k]] == targets[..k + 1];
  }

  lemma {:induction false} TakeKeeps(p: Pool, w: nat, targets: seq<Option<Target>>, threshold: int, x: Target)
    requires Inv(p, targets, threshold) && Tracked(p, targets, x) && Possible(p, Take(w))
    ensures var t := Next(p, Take(w), threshold); Inv(t, targets, threshold) && Tracked(t, targets, x)
  {
    if p.queue == [] {
      ChangeFlight(p.workers, w, Done, x);
      ChangeCounts(p.workers, w, Done);
    } else {
      TakeTracks(p, w, targets, threshold, x);
      TakeQueued(p, w, targets, threshold);
    }
  }

  lemma {:induction false} FinishKeeps(p: Pool, w: nat, answer: Answer, targets: seq<Option<Target>>, threshold: int,
      x: Target)
    requires Inv(p, targets, threshold) && Tracked(p, targets, x) && Possible(p, Finish(w, answer))
    ensures var t := Next(p, Finish(w, answer), threshold); Inv(t, targets, threshold) && Tracked(t, targets, x)
  {
    var target := p.workers[w].target;
    var r := Result(target, ProbeTarget(target, answer, threshold));
    ChangeFlight(p.workers, w, Idle, x);
    ChangeCounts(p.workers, w, Idle);
    assert Genuine(r, threshold);
  }

  lemma {:induction false} RunKeeps(run: seq<Pool>, steps: seq<Step>, targets: seq<Option<Target>>,
      concurrency: Option<int>, threshold: int, i: nat, x: Target)
    requires IsRun(run, steps, targets, concurrency, threshold) && i < |run|
    ensures Inv(run[i], targets, threshold) && Tracked(run[i], targets, x)
            && |run[i].workers| == Min(Clamped(concurrency), |targets|)
  {
    if i == 0 {
      AllWaiting(Min(Clamped(concurrency), |targets|), x);
      assert targets[..0] == [];
    } else {
      RunKeeps(run, steps, targets, concurrency, threshold, i - 1, x);
      assert Possible(run[i - 1], steps[i - 1]) && run[i] == Next(run[i - 1], steps[i - 1], threshold);
      match steps[i - 1]
      case Take(w) => TakeKeeps(run[i - 1], w, targets, threshold, x);
      case Finish(w, answer) => FinishKeeps(run[i - 1], w, answer, targets, threshold, x);
    }
  }

  // ---------------------------------------------------------------- every interleaving

  /** In every state of every interleaving no target is lost or taken twice, and at most `min(concurrency, n)` are being
      probed. */
  lemma {:induction false} Conserved(run: seq<Pool>, steps: seq<Step>, targets: seq<Option<Target>>,
      concurrency: Option<int>, threshold: int, i: nat, x: Target)
    requires IsRun(run, steps, targets, concurrency, threshold) && i < |run|
    ensures Given(run[i].queue, x) + Flight(run[i].workers, x) + Probed(run[i].results, x) == Given(targets, x)
    ensures Active(run[i].workers) <= Min(Clamped(concurrency), |targets|)
  {
    RunKeeps(run, steps, targets, concurrency, threshold, i, x);
    var k := TakenCount(run[i], targets);
    GivenConcat(targets[..k], targets[k..], x);
    assert targets[..k] + targets[k..] == targets;
    Busy(run[i].workers);
  }

  /** What is left to do. */
  function Work(p: Pool): nat { 3 * |p.queue| + 2 * Active(p.workers) + Waiting(p.workers) }

  /** Every step does some of it. */
  lemma {:induction false} StepsDoWork(p: Pool, step: Step, threshold: int)
    requires Possible(p, step)
    ensures Work(Next(p, step, threshold)) < Work(p)
  {
    ChangeCounts(p.workers, step.worker, Next(p, step, threshold).workers[step.worker]);
  }

  /** No run is longer than the work at the start. */
  lemma {:induction false} RunsEnd(run: seq<Pool>, steps: seq<Step>, targets: seq<Option<Target>>,
      concurrency: Option<int>, threshold: int, i: nat)
    requires IsRun(run, steps, targets, concurrency, threshold) && i < |run|
    ensures i + Work(run[i]) <= 3 * |targets| + Min(Clamped(concurrency), |targets|)
  {
    if i == 0 {
      AllWaiting(Min(Clamped(concurrency), |targets|), Target("", "", 0, false));
    } else {
      RunsEnd(run, steps, targets, concurrency, threshold, i - 1);
      StepsDoWork(run[i - 1], steps[i - 1], threshold);
    }
  }

  /** A pool that cannot go on has finished. */
  lemma {:induction false} NeverStuck(p: Pool)
    requires !Finished(p)
    ensures exists step :: Possible(p, step)
  {
    var i :| 0 <= i < |p.workers| && p.workers[i] != Done;
    assert if p.workers[i] == Idle then Possible(p, Take(i)) else Possible(p, Finish(i, Failed("timeout")));
  }

  /** A position some worker takes: fewer `null`s stand before it than there are workers. */
  predicate InReach(targets: seq<Option<Target>>, concurrency: Option<int>, j: nat)
    requires j < |targets|
  {
    Nulls(targets[..j]) < Min(Clamped(concurrency), |targets|)
  }

  lemma {:induction false} FinishedAt(p: Pool, targets: seq<Option<Target>>, threshold: int, x: Target, j: nat)
    requires Inv(p, targets, threshold) && Tracked(p, targets, x) && Finished(p) && j < |targets|
    ensures Probed(p.results, x) == Given(targets[..TakenCount(p, targets)], x)
    ensures j < TakenCount(p, targets) <==> Nulls(targets[..j]) < |p.workers|
  {
    var k := TakenCount(p, targets);
    AllStopped(p.workers, x);
    if j < k {
      assert targets[..k][..j] == targets[..j];
    } else {
      GivenConcat(targets[..k], targets[k..j], x);
      assert targets[..k] + targets[k..j] == targets[..j];
    }
  }

  lemma {:induction false} GivenNone(queue: seq<Option<Target>>, x: Target)
    ensures Given(queue, x) == 0 <==> Some(x) !in queue
  {
    if queue != [] {
      var n := |queue| - 1;
      GivenNone(queue[..n], x);
      assert queue == queue[..n] + [queue[n]];
    }
  }

  /** When all workers have returned, exactly the positions up to and with the `null` that stops the last worker were
      taken, and each target there has a result as often as it was given there. */
  lemma {:induction false} ProbedOnce(run: seq<Pool>, steps: seq<Step>, targets: seq<Option<Target>>,
      concurrency: Option<int>, threshold: int, x: Target) returns (k: nat)
    requires IsRun(run, steps, targets, concurrency, threshold) && Finished(run[|steps|])
    ensures k <= |targets| && Probed(run[|steps|].results, x) == Given(targets[..k], x)
    ensures |run[|steps|].results| + Nulls(targets[..k]) == k
    ensures forall j: nat | j < |targets| :: j < k <==> InReach(targets, concurrency, j)
  {
    var last := run[|steps|];
    RunKeeps(run, steps, targets, concurrency, threshold, |steps|, x);
    AllStopped(last.workers, x);
    k := TakenCount(last, targets);
    forall j: nat | j < |targets| ensures j < k <==> InReach(targets, concurrency, j) {
      FinishedAt(last, targets, threshold, x, j);
    }
  }

  /** A target is probed as often as it was given if and only if it never stands behind the `null` that stops the last
      worker. */
  lemma {:induction false} ProbedIff(run: seq<Pool>, steps: seq<Step>, targets: seq<Option<Target>>,
      concurrency: Option<int>, threshold: int, x: Target)
    requires IsRun(run, steps, targets, concurrency, threshold) && Finished(run[|steps|])
    ensures Probed(run[|steps|].results, x) == Given(targets, x)
       <==> forall j: nat | j < |targets| && targets[j] == Some(x) :: InReach(targets, concurrency, j)
  {
    var k := ProbedOnce(run, steps, targets, concurrency, threshold, x);
    GivenConcat(targets[..k], targets[k..], x);
    GivenNone(targets[k..], x);
    assert targets[..k] + targets[k..] == targets;
    InRest(targets, k, x);
    assert forall j: nat | j < |targets| :: InReach(targets, concurrency, j) <==> j < k;
  }

  lemma {:induction false} InRest(targets: seq<Option<Target>>, k: nat, x: Target)
    requires k <= |targets|
    ensures Some(x) in targets[k..] <==> exists j: nat | j < |targets| && targets[j] == Some(x) :: j >= k
  {
    if Some(x) in targets[k..] {
      var i :| 0 <= i < |targets[k..]| && targets[k..][i] == Some(x);
      assert targets[k + i] == Some(x);
    }
    if j: nat :| j < |targets| && targets[j] == Some(x) && j >= k { assert targets[k..][j - k] == Some(x); }
  }

  // ---------------------------------------------------------------- the summary

  datatype Summary = Summary(checked: nat, healthy: nat, degraded: nat, unreachable: nat)

  function IsState(state: HealthState): Result -> bool { (r: Result) => r.outcome.state == state }

  /** The counts of `fetch`. */
  function Summarize(results: seq<Result>): Summary {
    Summary(|results|, |Filter(results, IsState(Healthy))|, |Filter(results, IsState(Degraded))|,
        |Filter(results, IsState(Unreachable))|)
  }

  lemma {:induction false} ThreeStates(results: seq<Result>, threshold: int)
    requires forall r | r in results :: Genuine(r, threshold)
    ensures var s := Summarize(results); s.healthy + s.degraded + s.unreachable == s.checked
  {
    if results != [] {
      var r := results[0];
      assert r in results;
      var answer :| r.outcome == ProbeTarget(r.target, answer, threshold);
      forall q | q in results[1..] ensures q in results {}
      ThreeStates(results[1..], threshold);
    }
  }

  lemma {:induction false} NoneBlocked(targets: seq<Option<Target>>, concurrency: Option<int>, j: nat)
    requires Nulls(targets) == 0 && j < |targets|
    ensures InReach(targets, concurrency, j)
  {
    GivenConcat(targets[..j], targets[j..], Target("", "", 0, false));
    assert targets[..j] + targets[j..] == targets;
  }

  lemma {:induction false} AllTaken(run: seq<Pool>, steps: seq<Step>, targets: seq<Option<Target>>,
      concurrency: Option<int>,
      threshold: int, x: Target)
    requires IsRun(run, steps, targets, concurrency, threshold) && Finished(run[|steps|]) && Nulls(targets) == 0
    ensures Probed(run[|steps|].results, x) == Given(targets, x) && |run[|steps|].results| == |targets|
  {
    var k := ProbedOnce(run, steps, targets, concurrency, threshold, x);
    if targets != [] { NoneBlocked(targets, concurrency, |targets| - 1); }
    assert targets[..|targets|] == targets;
  }

  /** A request without `null`s: when the pool has finished, every target has as many results as it was given, and every
      result is counted under exactly one state. */
  lemma {:induction false} SummaryComplete(run: seq<Pool>, steps: seq<Step>, targets: seq<Option<Target>>,
      concurrency: Option<int>, threshold: int, x: Target)
    requires IsRun(run, steps, targets, concurrency, threshold) && Finished(run[|steps|]) && Nulls(targets) == 0
    ensures Probed(run[|steps|].results, x) == Given(targets, x)
    ensures var s := Summarize(run[|steps|].results); s.healthy + s.degraded + s.unreachable == s.checked == |targets|
  {
    AllTaken(run, steps, targets, concurrency, threshold, x);
    RunKeeps(run, steps, targets, concurrency, threshold, |steps|, x);
    ThreeStates(run[|steps|].results, threshold);
  }

  // ---------------------------------------------------------------- what is reported

  /** The answers of the network, in the order in which they came. */
  function Answers(steps: seq<Step>): seq<Answer> {
    if steps == [] then []
    else
      var last := steps[|steps| - 1];
      Answers(steps[..|steps| - 1]) + if last.Finish? then [last.answer] else []
  }

  /** A connection within the threshold, and a slower one. */
  predicate InTime(a: Answer, threshold: int) { a.Connected? && a.latencyMs <= threshold }

  predicate TooSlow(a: Answer, threshold: int) { a.Connected? && a.latencyMs > threshold }

  /** What a result says about its target: healthy within the threshold, degraded above it, and unreachable, with the
      first 200 characters of the error, if no connection was made. */
  predicate Reports(r: Result, a: Answer, threshold: int) {
    && r.outcome.id == r.target.id && r.outcome.ok == a.Connected?
    && (r.outcome.state == Healthy <==> InTime(a, threshold))
    && (r.outcome.state == Degraded <==> TooSlow(a, threshold))
    && (r.outcome.state == Unreachable <==> a.Failed?)
    && (a.Connected? ==> r.outcome.latencyMs == Some(a.latencyMs) && r.outcome.error == None)
    && (a.Failed? ==> r.outcome.latencyMs == None && r.outcome.error.Some? && r.outcome.error.value <= a.error
                      && (|a.error| <= 200 ==> r.outcome.error.value == a.error)
                      && (|a.error| > 200 ==> |r.outcome.error.value| == 200))
  }

  lemma {:induction false} ProbeReports(target: Target, answer: Answer, threshold: int)
    ensures Reports(Result(target, ProbeTarget(target, answer, threshold)), answer, threshold)
  {
  }

  /** In every state of every interleaving each answer that has come has its result, which reports it. */
  lemma {:induction false} ResultsReport(run: seq<Pool>, steps: seq<Step>, targets: seq<Option<Target>>,
      concurrency: Option<int>, threshold: int, i: nat)
    requires IsRun(run, steps, targets, concurrency, threshold) && i < |run|
    ensures var answers := Answers(steps[..i]);
            |run[i].results| == |answers|
            && forall j | 0 <= j < |answers| :: Reports(run[i].results[j], answers[j], threshold)
  {
    if i > 0 {
      ResultsReport(run, steps, targets, concurrency, threshold, i - 1);
      var p, step := run[i - 1], steps[i - 1];
      assert Possible(p, step) && run[i] == Next(p, step, threshold) && steps[..i][..i - 1] == steps[..i - 1];
      if step.Finish? { ProbeReports(p.workers[step.worker].target, step.answer, threshold); }
    }
  }

  function CountAnswers(answers: seq<Answer>, p: Answer -> bool): nat { |Filter(answers, p)| }

  lemma {:induction false} SameCount(results: seq<Result>, answers: seq<Answer>, state: HealthState, p: Answer -> bool)
    requires |results| == |answers|
    requires forall j | 0 <= j < |results| :: results[j].outcome.state == state <==> p(answers[j])
    ensures |Filter(results, IsState(state))| == CountAnswers(answers, p)
  {
    if results != [] { SameCount(results[1..], answers[1..], state, p); }
  }

  /** The summary counts the answers by their kind. */
  lemma {:induction false} SummaryCounts(run: seq<Pool>, steps: seq<Step>, targets: seq<Option<Target>>,
      concurrency: Option<int>, threshold: int)
    requires IsRun(run, steps, targets, concurrency, threshold)
    ensures var s, answers := Summarize(run[|steps|].results), Answers(steps);
            && s.checked == |answers| && s.healthy == CountAnswers(answers, a => InTime(a, threshold))
            && s.degraded == CountAnswers(answers, a => TooSlow(a, threshold))
            && s.unreachable == CountAnswers(answers, (a: Answer) => a.Failed?)
  {
    var results, answers := run[|steps|].results, Answers(steps);
    ResultsReport(run, steps, targets, concurrency, threshold, |steps|);
    assert steps[..|steps|] == steps;
    forall j | 0 <= j < |answers| ensures Reports(results[j], answers[j], threshold) {}
    SameCount(results, answers, Healthy, a => InTime(a, threshold));
    SameCount(results, answers, Degraded, a => TooSlow(a, threshold));
    SameCount(results, answers, Unreachable, (a: Answer) => a.Failed?);
  }

  /** As many workers start as are asked for, from one to twelve, six if nothing is asked, and no more than there are
      targets. */
  lemma {:induction false} WorkersStarted(targets: seq<Option<Target>>, concurrency: Option<int>)
    ensures var n := |Start(targets, concurrency).workers|;
            && n <= |targets| && n <= 12 && (targets != [] ==> n >= 1)
            && (concurrency == None ==> n == Min(6, |targets|))
            && (concurrency.Some? && 1 <= concurrency.value <= 12 ==> n == Min(concurrency.value, |targets|))
            && (concurrency.Some? && concurrency.value < 1 ==> n <= 1)
            && (concurrency.Some? && concurrency.value > 12 ==> n == Min(12, |targets|))
  {
  }

  // ---------------------------------------------------------------- the workers as they run

  /** One call of `runBatch`: the queue and the results that its workers share. */
  class Batch {
    var queue: seq<Option<Target>>
    var workers: seq<Worker>
    var results: seq<Result>
    const threshold: int

    function State(): Pool
      reads this
    {
      Pool(queue, workers, results)
    }

    constructor (targets: seq<Option<Target>>, concurrency: Option<int>, threshold: int)
      ensures State() == Start(targets, concurrency) && this.threshold == threshold
    {
      this.threshold := threshold;
      queue, results := targets, [];
      workers := seq(Min(Min(Max(concurrency.GetOr(6), 1), 12), |targets|), _ => Idle);
    }

    /** `queue.shift()`, and what the worker does with it. */
    method TakeNext(w: nat)
      requires Possible(State(), Take(w))
      modifies this`queue, this`workers
      ensures State() == Next(old(State()), Take(w), threshold)
    {
      if queue == [] {
        workers := workers[w := Done];
        return;
      }
      var target := queue[0];
      queue := queue[1..];
      workers := workers[w := if target.None? then Done else Probing(target.value)];
    }

    /** `results.push` when the probe is answered. */
    method PushResult(w: nat, answer: Answer)
      requires Possible(State(), Finish(w, answer))
      modifies this`results, this`workers
      ensures State() == Next(old(State()), Finish(w, answer), threshold)
    {
      var target := workers[w].target;
      results := results + [Result(target, ProbeTarget(target, answer, threshold))];
      workers := workers[w := Idle];
    }
  }
}
