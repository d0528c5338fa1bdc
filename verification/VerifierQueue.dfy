/** Serialising verification requests on a promise tail, and the retries of one request (HttpFieldVerifier.ts). */
module VerifierQueue {

  /** How a request ends for its caller. */
  datatype Outcome<+R> = Ok(result: R) | Failed(message: string)

  /** A promise; the tail promises resolve without a value. */
  datatype Promise<+R> = Pending | Settled(outcome: Outcome<R>) | Done

  /** One call of verify: the tail it waits for, its own run, the tail it leaves, and the promise its caller holds. */
  datatype Job = Job(after: nat, run: nat, next: nat, caller: nat, started: bool)

  datatype State<R> = State(promises: seq<Promise<R>>, queueTail: nat, jobs: seq<Job>)

  /** A fresh verifier: its tail is a resolved promise. */
  function Initial<R>(): State<R> {
    State([Done], 0, [])
  }

  /** verify: chain the run onto the tail, the settling of the caller onto the run, and move the tail there. */
  function Called<R>(s: State<R>): State<R> {
    var n := |s.promises|;
    State(s.promises + [Pending, Pending, Pending], n + 1, s.jobs + [Job(s.queueTail, n, n + 1, n + 2, false)])
  }

  class HttpFieldVerifier<R> {
    var promises: seq<Promise<R>>
    var queueTail: nat
    var jobs: seq<Job>

    function Value(): State<R>
      reads this
    {
      State(promises, queueTail, jobs)
    }

    constructor ()
      ensures Value() == Initial()
    {
      promises, queueTail, jobs := [Done], 0, [];
    }

    method Verify() returns (caller: nat)
      modifies this
      ensures Value() == Called(old(Value())) && caller == old(|promises|) + 2
    {
      var run, next := |promises|, |promises| + 1;
      caller := |promises| + 2;
      promises := promises + [Pending, Pending, Pending];
      jobs := jobs + [Job(queueTail, run, next, caller, false)];
      queueTail := next;
    }
  }

  /** What can happen next: a call, a run that starts, a run that ends, or the settling of a caller. */
  datatype Step<+R> = Call | Start(k: nat) | Finish(k: nat, outcome: Outcome<R>) | React(k: nat)

  ghost predicate Enabled<R>(s: State<R>, e: Step<R>) {
    match e
    case Call => true
    case Start(k) => k < |s.jobs| && !s.jobs[k].started && s.jobs[k].after < |s.promises| &&
      !s.promises[s.jobs[k].after].Pending?
    case Finish(k, _) => k < |s.jobs| && s.jobs[k].started && s.jobs[k].run < |s.promises| &&
      s.promises[s.jobs[k].run].Pending?
    case React(k) =>
      && k < |s.jobs| && s.jobs[k].run < |s.promises| && s.promises[s.jobs[k].run].Settled?
      && s.jobs[k].next < |s.promises| && s.jobs[k].caller < |s.promises| && s.promises[s.jobs[k].next].Pending?
  }

  ghost function Taken<R>(s: State<R>, e: Step<R>): State<R>
    requires Enabled(s, e)
  {
    match e
    case Call => Called(s)
    case Start(k) => s.(jobs := s.jobs[k := s.jobs[k].(started := true)])
    case Finish(k, outcome) => s.(promises := s.promises[s.jobs[k].run := Settled(outcome)])
    case React(k) => s.(promises := s.promises[s.jobs[k].caller := s.promises[s.jobs[k].run]][s.jobs[k].next := Done])
  }

  /** A run over time: every step where it is enabled, in any interleaving. */
  ghost predicate Reaches<R>(s: State<R>, steps: seq<Step<R>>, end: State<R>)
    decreases |steps|
  {
    if steps == [] then end == s
    else Enabled(s, steps[0]) && Reaches(Taken(s, steps[0]), steps[1..], end)
  }

  /** A request is in flight: started, its run not yet settled. */
  ghost predicate InFlight<R>(s: State<R>, k: nat)
    requires k < |s.jobs| && s.jobs[k].run < |s.promises|
  {
    s.jobs[k].started && s.promises[s.jobs[k].run].Pending?
  }

  /** How the promises of the jobs hang together. */
  ghost predicate Chained<R>(s: State<R>) {
    && |s.promises| == 3 * |s.jobs| + 1
    && (forall k :: 0 <= k < |s.jobs| ==>
      s.jobs[k].run == 3 * k + 1 && s.jobs[k].next == 3 * k + 2 && s.jobs[k].caller == 3 * k + 3)
    && (forall k :: 0 <= k < |s.jobs| ==> s.jobs[k].after == if k == 0 then 0 else 3 * k - 1)
    && s.queueTail == (if s.jobs == [] then 0 else 3 * |s.jobs| - 1)
    && s.promises[0] == Done
  }

  /** The three stages of a job, in order; the caller gets the run's outcome. */
  ghost predicate Staged<R>(s: State<R>, k: nat)
    requires Chained(s) && k < |s.jobs|
  {
    var run, next, caller := s.promises[3 * k + 1], s.promises[3 * k + 2], s.promises[3 * k + 3];
    && !run.Done? && !next.Settled? && !caller.Done?
    && (!run.Pending? ==> s.jobs[k].started)
    && (next.Pending? <==> caller.Pending?)
    && (next.Done? ==> caller == run)
    && (s.jobs[k].started && k > 0 ==> s.promises[3 * k - 1].Done?)
  }

  ghost predicate Inv<R>(s: State<R>) {
    Chained(s) && forall k :: 0 <= k < |s.jobs| ==> Staged(s, k)
  }

  lemma CallKeepsInv<R>(s: State<R>)
    requires Inv(s)
    ensures Inv(Called(s))
  {
    var t := Called(s);
    assert forall i :: 0 <= i < |s.promises| ==> t.promises[i] == s.promises[i];
    forall k | 0 <= k < |t.jobs|
      ensures Staged(t, k)
    {
      if k < |s.jobs| { assert Staged(s, k); }
    }
  }

  lemma StepKeepsChain<R>(s: State<R>, e: Step<R>)
    requires Inv(s) && Enabled(s, e) && !e.Call?
    ensures Chained(Taken(s, e))
  {
    assert Staged(s, e.k);
  }

  lemma StepKeepsStages<R>(s: State<R>, e: Step<R>, k: nat)
    requires Inv(s) && Enabled(s, e) && !e.Call? && Chained(Taken(s, e)) && k < |s.jobs|
    ensures Staged(Taken(s, e), k)
  {
    assert Staged(s, k) && Staged(s, e.k);
    if k > 0 { assert Staged(s, k - 1); }
  }

  lemma StepKeepsInv<R>(s: State<R>, e: Step<R>)
    requires Inv(s) && Enabled(s, e)
    ensures Inv(Taken(s, e))
  {
    var t := Taken(s, e);
    if e == Call {
      CallKeepsInv(s);
    } else {
      StepKeepsChain(s, e);
      forall k | 0 <= k < |t.jobs|
        ensures Staged(t, k)
      {
        StepKeepsStages(s, e, k);
      }
    }
  }

  lemma {:induction false} ReachKeepsInv<R>(s: State<R>, steps: seq<Step<R>>, end: State<R>)
    requires Inv(s) && Reaches(s, steps, end)
    ensures Inv(end)
    decreases |steps|
  {
    if steps != [] {
      StepKeepsInv(s, steps[0]);
      ReachKeepsInv(Taken(s, steps[0]), steps[1..], end);
    }
  }

  /** A started request has all its predecessors fully settled. */
  lemma {:induction false} StartedAfterAll<R>(s: State<R>, k: nat, j: nat)
    requires Inv(s) && j < k < |s.jobs| && s.jobs[k].started
    ensures s.promises[s.jobs[j].next].Done? && s.promises[s.jobs[j].caller] == s.promises[s.jobs[j].run] &&
      s.jobs[j].started
    decreases k
  {
    assert Staged(s, k) && Staged(s, k - 1);
    if j < k - 1 { StartedAfterAll(s, k - 1, j); }
  }

  /** Main result: in every interleaving at most one request is in flight, requests start in arrival order,
      and whoever is settled has the outcome of its own run. */
  lemma SerialInEveryInterleaving<R>(steps: seq<Step<R>>, end: State<R>)
    requires Reaches(Initial<R>(), steps, end)
    ensures Inv(end)
    ensures forall j, k :: 0 <= j < k < |end.jobs| && end.jobs[k].started ==> end.jobs[j].started && !InFlight(end, j)
    ensures forall j, k :: 0 <= j < |end.jobs| && 0 <= k < |end.jobs| && InFlight(end, j) && InFlight(end, k) ==> j == k
    ensures forall k :: 0 <= k < |end.jobs| && !end.promises[end.jobs[k].caller].Pending? ==>
              end.promises[end.jobs[k].caller] == end.promises[end.jobs[k].run]
  {
    ReachKeepsInv(Initial<R>(), steps, end);
    forall j, k | 0 <= j < k < |end.jobs| && end.jobs[k].started
      ensures end.jobs[j].started && !InFlight(end, j)
    {
      StartedAfterAll(end, k, j);
      assert Staged(end, j);
    }
    forall k | 0 <= k < |end.jobs| && !end.promises[end.jobs[k].caller].Pending?
      ensures end.promises[end.jobs[k].caller] == end.promises[end.jobs[k].run]
    {
      assert Staged(end, k);
    }
  }

  /** Main result: a settled caller is never settled again, whatever happens later. */
  lemma {:induction false} SettledOnce<R>(s: State<R>, steps: seq<Step<R>>, end: State<R>, k: nat)
    requires Inv(s) && Reaches(s, steps, end)
    requires k < |s.jobs| && !s.promises[s.jobs[k].caller].Pending?
    ensures k < |end.jobs| && end.jobs[k].caller == s.jobs[k].caller
    ensures s.jobs[k].caller < |end.promises| && end.promises[s.jobs[k].caller] == s.promises[s.jobs[k].caller]
    decreases |steps|
  {
    if steps != [] {
      StepKeepsInv(s, steps[0]);
      assert Staged(s, k);
      if !steps[0].Call? { assert Staged(s, steps[0].k); }
      SettledOnce(Taken(s, steps[0]), steps[1..], end, k);
    }
  }

  /** Main result: nothing blocks: while a caller waits, the oldest waiting request can be taken one stage further. */
  lemma SomeoneMoves<R>(s: State<R>, k: nat, outcome: Outcome<R>)
    requires Inv(s) && k < |s.jobs| && s.promises[s.jobs[k].caller].Pending?
    requires forall j :: 0 <= j < k ==> !s.promises[s.jobs[j].caller].Pending?
    ensures Enabled(s, Start(k)) || Enabled(s, Finish(k, outcome)) || Enabled(s, React(k))
  {
    assert Staged(s, k);
    if k > 0 { assert Staged(s, k - 1); }
  }

  // ---------- complete runs ----------

  function Calls<R>(steps: seq<Step<R>>): nat {
    if steps == [] then 0 else (if steps[0].Call? then 1 else 0) + Calls(steps[1..])
  }

  /** How often the caller of request `k` is settled. */
  function Settlings<R>(steps: seq<Step<R>>, k: nat): nat {
    if steps == [] then 0 else (if steps[0].React? && steps[0].k == k then 1 else 0) + Settlings(steps[1..], k)
  }

  /** The steps that the requests have behind them, of three each. */
  ghost function StageOf<R>(s: State<R>, k: nat): nat
    requires Chained(s) && k < |s.jobs|
  {
    (if s.jobs[k].started then 1 else 0) + (if s.promises[3 * k + 1].Pending? then 0 else 1)
    + (if s.promises[3 * k + 3].Pending? then 0 else 1)
  }

  ghost function Stages<R>(s: State<R>, n: nat): nat
    requires Chained(s) && n <= |s.jobs|
  {
    if n == 0 then 0 else Stages(s, n - 1) + StageOf(s, n - 1)
  }

  lemma {:induction false} StagesBounded<R>(s: State<R>, n: nat)
    requires Chained(s) && n <= |s.jobs|
    ensures Stages(s, n) <= 3 * n
  {
    if n > 0 { StagesBounded(s, n - 1); }
  }

  /** Two states that differ in the stage of request `k` at most. */
  lemma {:induction false} StagesDiffer<R>(s: State<R>, t: State<R>, k: nat, n: nat)
    requires Chained(s) && Chained(t) && n <= |s.jobs| && n <= |t.jobs|
    requires forall j :: 0 <= j < n && j != k ==> StageOf(s, j) == StageOf(t, j)
    ensures Stages(t, n) - Stages(s, n) == if k < n then StageOf(t, k) - StageOf(s, k) else 0
  {
    if n > 0 { StagesDiffer(s, t, k, n - 1); }
  }

  /** A step takes its own request one stage further and no other; a call brings one without any. */
  lemma StepStage<R>(s: State<R>, e: Step<R>, j: nat)
    requires Inv(s) && Enabled(s, e) && Chained(Taken(s, e)) && j < |Taken(s, e).jobs|
    ensures StageOf(Taken(s, e), j) ==
      (if j < |s.jobs| then StageOf(s, j) else 0) + (if !e.Call? && e.k == j then 1 else 0)
  {
    if j < |s.jobs| { assert Staged(s, j); }
    if !e.Call? { assert Staged(s, e.k); }
  }

  lemma StepAdvances<R>(s: State<R>, e: Step<R>)
    requires Inv(s) && Enabled(s, e) && Chained(Taken(s, e))
    ensures var t := Taken(s, e);
      Stages(t, |t.jobs|) == Stages(s, |s.jobs|) + (if e.Call? then 0 else 1)
  {
    var t := Taken(s, e);
    forall j | 0 <= j < |t.jobs|
      ensures StageOf(t, j) == (if j < |s.jobs| then StageOf(s, j) else 0) + (if !e.Call? && e.k == j then 1 else 0)
    {
      StepStage(s, e, j);
    }
    StagesDiffer(s, t, if e.Call? then |t.jobs| else e.k, |s.jobs|);
  }

  /** Every step other than a call completes a stage, so there are at most three to a call. */
  lemma {:induction false} StepsAreStages<R>(s: State<R>, steps: seq<Step<R>>, end: State<R>)
    requires Inv(s) && Reaches(s, steps, end)
    ensures Inv(end) && |end.jobs| == |s.jobs| + Calls(steps)
    ensures |steps| == Calls(steps) + Stages(end, |end.jobs|) - Stages(s, |s.jobs|)
    decreases |steps|
  {
    if steps != [] {
      StepKeepsInv(s, steps[0]);
      StepAdvances(s, steps[0]);
      StepsAreStages(Taken(s, steps[0]), steps[1..], end);
    }
  }

  ghost predicate IsSettled<R>(s: State<R>, k: nat) {
    k < |s.jobs| && s.jobs[k].caller < |s.promises| && !s.promises[s.jobs[k].caller].Pending?
  }

  lemma StepSettles<R>(s: State<R>, e: Step<R>, k: nat)
    requires Inv(s) && Enabled(s, e)
    ensures IsSettled(Taken(s, e), k) <==> IsSettled(s, k) || (e.React? && e.k == k)
    ensures e.React? && e.k == k ==> !IsSettled(s, k)
  {
    if k < |s.jobs| { assert Staged(s, k); }
    if !e.Call? { assert Staged(s, e.k); }
  }

  lemma {:induction false} SettlingsCounted<R>(s: State<R>, steps: seq<Step<R>>, end: State<R>, k: nat)
    requires Inv(s) && Reaches(s, steps, end)
    ensures Settlings(steps, k) == (if IsSettled(end, k) then 1 else 0) - (if IsSettled(s, k) then 1 else 0)
    decreases |steps|
  {
    if steps != [] {
      StepKeepsInv(s, steps[0]);
      StepSettles(s, steps[0], k);
      SettlingsCounted(Taken(s, steps[0]), steps[1..], end, k);
    }
  }

  /** Nothing but a further call can happen. */
  ghost predicate Complete<R(!new)>(s: State<R>) {
    forall e: Step<R> :: Enabled(s, e) ==> e.Call?
  }

  lemma {:induction false} CompleteSettles<R(!new)>(s: State<R>, k: nat)
    requires Inv(s) && k <= |s.jobs| && Complete(s)
    ensures forall j :: 0 <= j < k ==> IsSettled(s, j)
  {
    if k > 0 {
      CompleteSettles(s, k - 1);
      if !IsSettled(s, k - 1) {
        var start: Step<R>, finish: Step<R>, react: Step<R> := Start(k - 1), Finish(k - 1, Failed("")), React(k - 1);
        forall j | 0 <= j < k - 1
          ensures !s.promises[s.jobs[j].caller].Pending?
        {
          assert IsSettled(s, j);
        }
        SomeoneMoves(s, k - 1, Failed(""));
        assert Enabled(s, start) || Enabled(s, finish) || Enabled(s, react);
      }
    }
  }

  lemma OwnOutcome<R>(s: State<R>, k: nat)
    requires Inv(s) && k < |s.jobs| && IsSettled(s, k)
    ensures s.promises[s.jobs[k].caller].Settled? && s.promises[s.jobs[k].caller] == s.promises[s.jobs[k].run]
  {
    assert Staged(s, k);
  }

  /** Main result: in every interleaving that is run to its end each request is settled by exactly one step with the
      outcome of its own run, and that end is reached: a run has at most three steps for each call beside the call
      itself. */
  lemma SettledExactlyOnce<R(!new)>(steps: seq<Step<R>>, end: State<R>)
    requires Reaches(Initial<R>(), steps, end)
    ensures Inv(end) && |end.jobs| == Calls(steps) && |steps| <= 4 * Calls(steps)
    ensures forall k :: 0 <= k ==> Settlings(steps, k) == if IsSettled(end, k) then 1 else 0
    ensures Complete(end) ==> forall k :: 0 <= k < Calls(steps) ==>
              Settlings(steps, k) == 1 && end.promises[end.jobs[k].caller].Settled?
              && end.promises[end.jobs[k].caller] == end.promises[end.jobs[k].run]
  {
    StepsAreStages(Initial<R>(), steps, end);
    StagesBounded(end, |end.jobs|);
    forall k: nat
      ensures Settlings(steps, k) == if IsSettled(end, k) then 1 else 0
    {
      SettlingsCounted(Initial<R>(), steps, end, k);
    }
    if Complete(end) {
      CompleteSettles(end, |end.jobs|);
      forall k | 0 <= k < |end.jobs|
        ensures end.promises[end.jobs[k].caller].Settled? &&
          end.promises[end.jobs[k].caller] == end.promises[end.jobs[k].run]
      {
        OwnOutcome(end, k);
      }
    }
  }

  // ---------- the attempts of one request ----------

  datatype Attempt<+R> = Success(value: R) | Failure(message: string)

  const MAX_RETRIES: nat := 3

  /** What the service would answer: to each attempt, and to the health probe before each retry. */
  datatype Service<!R> = Service(answer: nat -> Attempt<R>, healthy: nat -> bool, isConnectionError: string -> bool)

  predicate Retryable<R>(service: Service<R>, a: nat) {
    service.answer(a).Failure? && service.isConnectionError(service.answer(a).message)
  }

  /** Main result: between one and three posts, retried only after connection errors and a good health probe; the last
      answer decides. */
  method VerifySerial<R>(service: Service<R>) returns (outcome: Outcome<R>, posts: seq<nat>)
    ensures 1 <= |posts| <= MAX_RETRIES && posts[0] == 0
    ensures forall i, j :: 0 <= i < j < |posts| ==> posts[i] < posts[j] < MAX_RETRIES
    ensures forall i :: 0 <= i < |posts| - 1 ==> Retryable(service, posts[i])
    ensures forall a :: 0 < a < MAX_RETRIES && a in posts ==> service.healthy(a)
    ensures forall a :: 0 < a < MAX_RETRIES && a !in posts ==>
      !service.healthy(a) || (a > posts[|posts| - 1] && !Retryable(service, posts[|posts| - 1]))
    ensures outcome == match service.answer(posts[|posts| - 1])
                       case Success(value) => Ok(value)
                       case Failure(message) => Failed(message)
  {
    posts := [];
    var lastError := "unknown";
    for attempt := 0 to MAX_RETRIES
      invariant attempt > 0 ==> posts != [] && posts[0] == 0
      invariant |posts| <= attempt
      invariant forall i, j :: 0 <= i < j < |posts| ==> posts[i] < posts[j]
      invariant forall i :: 0 <= i < |posts| ==> posts[i] < attempt && Retryable(service, posts[i])
      invariant forall a :: 0 < a < attempt ==> (a in posts <==> service.healthy(a))
      invariant posts != [] ==> service.answer(posts[|posts| - 1]) == Failure(lastError)
    {
      if attempt > 0 {
        if !service.healthy(attempt) {
          continue;
        }
      }
      var result := service.answer(attempt);
      ghost var before := posts;
      posts := posts + [attempt];
      assert forall a :: a in posts <==> a in before || a == attempt;
      match result {
        case Success(value) => return Ok(value), posts;
        case Failure(message) =>
          lastError := message;
          if !service.isConnectionError(message) {
            break;
          }
      }
    }
    outcome := Failed(lastError);
  }
}
