/**
 * Requests of one HTTP client overlapping in any way, all sharing its circuit breaker.
 *
 * A request alternates between waiting for its next attempt, being inside the session's
 * request, and, for a transient status, reading the body.  Every await of the source is a
 * possible switch to another request.
 */
module ClientRuns {
  import opened Wrappers
  import opened CircuitBreaker
  import opened BreakerRuns
  import opened HttpClient

  datatype Progress = Waiting | Sending | Reading(status: int) | Finished(outcome: Outcome)

  // One call of `request`; sent counts its calls of the session, replies are what came of those
  // that are over.
  datatype Job = Job(retryable: bool, sent: nat, replies: seq<Reply>, progress: Progress)

  // gauge is HTTP_CLIENT_IN_FLIGHT; steps are the breaker steps taken so far.
  datatype System = System(jobs: map<nat, Job>, gauge: int, sent: nat, world: World, steps: History<Event>)

  datatype Action =
    | Submit(id: nat, retryable: bool)
    | Try(id: nat, at: real)                        // the next attempt's precheck, then the call
    | Answer(id: nat, at: real, reply: Reply)       // the session's request returns or raises
    | Body(id: nat, at: real, fault: Option<NetworkFault>)  // response.text() returns or raises
    | Abandon(id: nat)                              // cancelled while waiting for the next attempt

  function InitialSystem(start: real): System { System(map[], 0, 0, Start(start), Nothing) }

  function Progressed(y: System, id: nat, p: Progress): System
    requires id in y.jobs
  {
    y.(jobs := y.jobs[id := y.jobs[id].(progress := p)])
  }

  function BreakerStep(c: Config, y: System, e: Event): System {
    y.(world := Step(c, y.world, e), steps := Then(y.steps, e))
  }

  // The attempt of job id is over: tell the breaker, then retry or finish.
  function Conclude(c: Config, maxRetries: int, y: System, id: nat, at: real, reply: Reply): System
    requires id in y.jobs
  {
    var job := y.jobs[id];
    var outcome := Settle(job.retryable, reply);
    var again := TriesAgain(outcome) && job.sent < AttemptLimit(job.retryable, maxRetries);
    var job' := job.(replies := job.replies + [reply], progress := if again then Waiting else Finished(outcome));
    BreakerStep(c, y, Complete(at, EndingOf(outcome))).(jobs := y.jobs[id := job'])
  }

  predicate Possible(y: System, a: Action) {
    match a
    case Submit(id, _) => id !in y.jobs
    case Try(id, at) => id in y.jobs && y.jobs[id].progress == Waiting && y.world.now <= at
    case Answer(id, at, _) => id in y.jobs && y.jobs[id].progress == Sending && y.world.now <= at
    case Body(id, at, _) => id in y.jobs && y.jobs[id].progress.Reading? && y.world.now <= at
    case Abandon(id) => id in y.jobs && y.jobs[id].progress == Waiting
  }

  function Act(c: Config, maxRetries: int, y: System, a: Action): System
    requires Possible(y, a)
  {
    match a
    case Submit(id, retryable) => y.(jobs := y.jobs[id := Job(retryable, 0, [], Waiting)])
    case Try(id, at) =>
      var y' := BreakerStep(c, y, Precheck(at));
      if Admits(c, y.world.breaker, at)
      then
        var job := y.jobs[id];
        y'.(jobs := y.jobs[id := job.(sent := job.sent + 1, progress := Sending)],
            gauge := y.gauge + 1, sent := y.sent + 1)
      else Progressed(y', id, Finished(Threw(BreakerOpen)))
    case Answer(id, at, reply) =>
      var y' := y.(gauge := y.gauge - 1);
      if reply.Response? && IsTransientStatus(reply.status) && y.jobs[id].retryable
      then Progressed(y', id, Reading(reply.status))
      else Conclude(c, maxRetries, y', id, at, reply)
    case Body(id, at, fault) =>
      Conclude(c, maxRetries, y, id, at, Response(y.jobs[id].progress.status, fault))
    case Abandon(id) => Progressed(y, id, Finished(Threw(Network(CancelledFault))))
  }

  // The system after a history; an action that is not possible when its turn comes is no step.
  function After(c: Config, maxRetries: int, start: real, actions: History<Action>): System {
    match actions
    case Nothing => InitialSystem(start)
    case Then(past, a) =>
      var y := After(c, maxRetries, start, past);
      if Possible(y, a) then Act(c, maxRetries, y, a) else y
  }

  // Whether the request with this id was submitted, and as retryable or not.
  function Submitted(actions: History<Action>, id: nat): Option<bool> {
    match actions
    case Nothing => None
    case Then(past, a) =>
      var before := Submitted(past, id);
      if before.None? && a.Submit? && a.id == id then Some(a.retryable) else before
  }

  predicate IsOpen(p: Progress) { p == Sending || p.Reading? }

  function SendingJobs(y: System): set<nat> { set id | id in y.jobs && y.jobs[id].progress == Sending }

  // Jobs whose coroutine the breaker has invoked and not yet seen end.
  function OpenJobs(y: System): set<nat> { set id | id in y.jobs && IsOpen(y.jobs[id].progress) }

  predicate AllRetried(retryable: bool, replies: seq<Reply>) {
    forall i :: 0 <= i < |replies| ==> TriesAgain(Settle(retryable, replies[i]))
  }

  // What one job may look like at any moment.  It has one reply for every call that is over, and
  // all of them asked for another attempt unless the last one finished it: a job that finished
  // otherwise was refused by the breaker or cancelled between two attempts.
  predicate JobOk(maxRetries: int, job: Job) {
    var limit := AttemptLimit(job.retryable, maxRetries);
    match job.progress
    case Waiting => |job.replies| == job.sent < limit && AllRetried(job.retryable, job.replies)
    case Sending => |job.replies| + 1 == job.sent <= limit && AllRetried(job.retryable, job.replies)
    case Reading(status) =>
      && |job.replies| + 1 == job.sent <= limit && AllRetried(job.retryable, job.replies)
      && job.retryable && IsTransientStatus(status)
    case Finished(outcome) =>
      && |job.replies| == job.sent
      && if Ends(job.retryable, limit, job.replies, job.sent)
         then outcome == Settle(job.retryable, job.replies[job.sent - 1])
         else
           && job.sent < limit && AllRetried(job.retryable, job.replies)
           && outcome in {Threw(BreakerOpen), Threw(Network(CancelledFault))}
  }

  predicate JobsOk(maxRetries: int, y: System) { forall id :: id in y.jobs ==> JobOk(maxRetries, y.jobs[id]) }

  predicate CountsOk(y: System) {
    y.gauge == |SendingJobs(y)| && y.world.inFlight == |OpenJobs(y)| && y.sent == y.world.invoked
  }

  lemma ActKeepsJobs(c: Config, maxRetries: int, y: System, a: Action)
    requires Possible(y, a) && JobsOk(maxRetries, y)
    ensures JobsOk(maxRetries, Act(c, maxRetries, y, a))
  {
    var y' := Act(c, maxRetries, y, a);
    assert forall id :: id in y'.jobs ==> id == a.id || (id in y.jobs && y'.jobs[id] == y.jobs[id]);
    assert JobOk(maxRetries, y'.jobs[a.id]);
  }

  lemma SizeAfterChange(s: set<nat>, s': set<nat>, id: nat, inside: bool)
    requires forall x :: x != id ==> (x in s' <==> x in s)
    requires id in s' <==> inside
    ensures |s'| == |s| - (if id in s then 1 else 0) + (if inside then 1 else 0)
  {
    var others := s - {id};
    assert s == if id in s then others + {id} else others;
    assert s' == if inside then others + {id} else others;
  }

  lemma CountAfterUpdate(y: System, y': System, id: nat, job: Job)
    requires y'.jobs == y.jobs[id := job]
    ensures var was := if id in y.jobs then y.jobs[id].progress else Waiting;
            && |SendingJobs(y')| == |SendingJobs(y)| - (if was == Sending then 1 else 0)
                                    + (if job.progress == Sending then 1 else 0)
            && |OpenJobs(y')| == |OpenJobs(y)| - (if IsOpen(was) then 1 else 0)
                                 + (if IsOpen(job.progress) then 1 else 0)
  {
    SizeAfterChange(SendingJobs(y), SendingJobs(y'), id, job.progress == Sending);
    SizeAfterChange(OpenJobs(y), OpenJobs(y'), id, IsOpen(job.progress));
  }

  lemma ActKeepsCounts(c: Config, maxRetries: int, y: System, a: Action)
    requires Possible(y, a) && CountsOk(y)
    ensures CountsOk(Act(c, maxRetries, y, a))
  {
    var y' := Act(c, maxRetries, y, a);
    var job := y'.jobs[a.id];
    assert y'.jobs == y.jobs[a.id := job];
    CountAfterUpdate(y, y', a.id, job);
  }

  // In every interleaving: the in-flight gauge is the number of requests inside the session,
  // the breaker's run is one of BreakerRuns with exactly the open requests in flight, and every
  // request makes the attempts the retry rule asks for on its own replies, and no other: it
  // finishes with the outcome of the reply that ends the rule, or cut short before that.
  lemma {:induction false} EveryInterleaving(c: Config, maxRetries: int, start: real, actions: History<Action>)
    ensures var y := After(c, maxRetries, start, actions);
            && y.gauge == |SendingJobs(y)|
            && y.world.inFlight == |OpenJobs(y)|
            && y.sent == y.world.invoked
            && y.world == Run(c, start, y.steps)
            && forall id :: id in y.jobs ==> JobOk(maxRetries, y.jobs[id])
  {
    if actions.Nothing? {
    } else {
      EveryInterleaving(c, maxRetries, start, actions.past);
      var y := After(c, maxRetries, start, actions.past);
      if Possible(y, actions.last) {
        ActKeepsJobs(c, maxRetries, y, actions.last);
        ActKeepsCounts(c, maxRetries, y, actions.last);
      }
    }
  }

  // The jobs are the submitted requests, each retryable as it was submitted.
  lemma {:induction false} JobsAsSubmitted(
    c: Config, maxRetries: int, start: real, actions: History<Action>, id: nat)
    ensures var jobs := After(c, maxRetries, start, actions).jobs;
            Submitted(actions, id) == if id in jobs then Some(jobs[id].retryable) else None
  {
    if actions.Nothing? {
    } else {
      JobsAsSubmitted(c, maxRetries, start, actions.past, id);
    }
  }

  // A retried status is out of the gauge but still inside the breaker until its body is read,
  // and only then is the attempt a failure of the breaker.
  lemma BodyIsReadInsideTheBreaker(c: Config, maxRetries: int, y: System, id: nat, at: real, reply: Reply)
    requires Possible(y, Answer(id, at, reply)) && reply.Response?
    ensures var y' := Act(c, maxRetries, y, Answer(id, at, reply));
            && y'.gauge == y.gauge - 1
            && if y.jobs[id].retryable && reply.status in {408, 425, 429, 500, 502, 503, 504}
               then y'.world == y.world && y'.jobs[id].progress == Reading(reply.status)
               else y'.world.inFlight == y.world.inFlight - 1 && y'.world.breaker == State(0, 0.0, Closed)
  {}

  // ---------------------------------------------------------------- the outage bound for clients

  // At most n requests are ever inside the breaker, and no attempt succeeds.
  predicate Failing(c: Config, maxRetries: int, start: real, n: nat, actions: History<Action>) {
    match actions
    case Nothing => true
    case Then(past, a) =>
      && Failing(c, maxRetries, start, n, past)
      && |OpenJobs(After(c, maxRetries, start, actions))| <= n
      && (a.Answer? && a.id in After(c, maxRetries, start, past).jobs ==>
            !Settle(After(c, maxRetries, start, past).jobs[a.id].retryable, a.reply).Answered?)
  }

  lemma OneBreakerStep(c: Config, maxRetries: int, n: nat, start: real, y: System, a: Action)
    requires Possible(y, a) && CountsOk(y) && y.world == Run(c, start, y.steps) && Outage(c, start, n, y.steps)
    requires JobsOk(maxRetries, y)
    requires |OpenJobs(Act(c, maxRetries, y, a))| <= n
    requires a.Answer? ==> !Settle(y.jobs[a.id].retryable, a.reply).Answered?
    ensures Outage(c, start, n, Act(c, maxRetries, y, a).steps)
  {
    ActKeepsCounts(c, maxRetries, y, a);
    assert a.Answer? || a.Body? ==> a.id in OpenJobs(y);
  }

  lemma {:induction false} FailingIsOutage(c: Config, maxRetries: int, start: real, n: nat, actions: History<Action>)
    requires Failing(c, maxRetries, start, n, actions)
    ensures Outage(c, start, n, After(c, maxRetries, start, actions).steps)
  {
    if actions.Nothing? {
    } else {
      FailingIsOutage(c, maxRetries, start, n, actions.past);
      var y := After(c, maxRetries, start, actions.past);
      if Possible(y, actions.last) {
        EveryInterleaving(c, maxRetries, start, actions.past);
        OneBreakerStep(c, maxRetries, n, start, y, actions.last);
      }
    }
  }

  // While the service is down, all overlapping requests of a client together, with all their
  // retries, call it no more often than the breaker's bound.
  lemma ClientOutageLoad(c: Config, maxRetries: int, start: real, n: nat, actions: History<Action>, t: real)
    requires c.Valid() && Failing(c, maxRetries, start, n, actions)
    requires After(c, maxRetries, start, actions).world.now <= start + t
    ensures var y := After(c, maxRetries, start, actions);
            y.sent <= c.threshold - 1 + n + n * (t / c.resetTimeout).Floor + y.world.cancelled
  {
    FailingIsOutage(c, maxRetries, start, n, actions);
    EveryInterleaving(c, maxRetries, start, actions);
    OutageLoadBound(c, start, n, After(c, maxRetries, start, actions).steps, t);
  }

  // ---------------------------------------------------------------- one request by itself

  // The steps of one attempt when no other request interferes.
  function PlayAttempt(c: Config, maxRetries: int, y: System, id: nat, a: Attempt): System
    requires Possible(y, Try(id, a.start)) && a.start <= a.end
  {
    var tried := Act(c, maxRetries, y, Try(id, a.start));
    if tried.jobs[id].progress != Sending then tried
    else
      var answered := Act(c, maxRetries, tried, Answer(id, a.end, a.reply));
      if !answered.jobs[id].progress.Reading? then answered
      else Act(c, maxRetries, answered, Body(id, a.end, a.reply.body))
  }

  // What one attempt of a job does to the job and the breaker.
  predicate OneTurn(c: Config, maxRetries: int, job: Job, s: State, a: Attempt, job': Job, s': State) {
    if !Admits(c, s, a.start) then job' == job.(progress := Finished(Threw(BreakerOpen))) && s' == s
    else
      var outcome := Settle(job.retryable, a.reply);
      var again := TriesAgain(outcome) && job.sent + 1 < AttemptLimit(job.retryable, maxRetries);
      && job' == Job(job.retryable, job.sent + 1, job.replies + [a.reply], if again then Waiting else Finished(outcome))
      && s' == AfterEnding(c, AfterPrecheck(c, s, a.start), EndingOf(outcome), a.end)
  }

  lemma AttemptIsOneTurn(c: Config, maxRetries: int, y: System, id: nat, a: Attempt)
    requires Possible(y, Try(id, a.start)) && a.start <= a.end
    ensures var y' := PlayAttempt(c, maxRetries, y, id, a);
            && id in y'.jobs && y'.world.now <= a.end
            && OneTurn(c, maxRetries, y.jobs[id], y.world.breaker, a, y'.jobs[id], y'.world.breaker)
  {}

  // The attempts of a request in time order.
  predicate InTime(script: seq<Attempt>) {
    && (forall i :: 0 <= i < |script| ==> script[i].start <= script[i].end)
    && (forall i {:trigger script[i]} :: 0 <= i && i + 1 < |script| ==> script[i].end <= script[i + 1].start)
  }

  function Play(c: Config, maxRetries: int, y: System, id: nat, script: seq<Attempt>, i: nat): System
    requires InTime(script) && i < |script|
    requires Possible(y, Try(id, script[i].start))
    decreases |script| - i
  {
    var y' := PlayAttempt(c, maxRetries, y, id, script[i]);
    AttemptIsOneTurn(c, maxRetries, y, id, script[i]);
    if y'.jobs[id].progress == Waiting && i + 1 < |script|
    then Play(c, maxRetries, y', id, script, i + 1)
    else y'
  }

  // The job and the breaker are where the retry loop ends.
  predicate EndsAs(job: Job, s: State, r: Trail) {
    job.progress == Finished(r.outcome) && job.sent == r.calls && s == r.breaker
  }

  lemma TurnIsRetry(
    c: Config, maxRetries: int, job: Job, s: State, script: seq<Attempt>, i: nat, job': Job, s': State)
    requires job.sent == i < AttemptLimit(job.retryable, maxRetries) <= |script|
    requires OneTurn(c, maxRetries, job, s, script[i], job', s')
    ensures var limit := AttemptLimit(job.retryable, maxRetries);
            var r := Retry(c, s, job.retryable, limit, script, i);
            if job'.progress == Waiting
            then i + 1 < limit && r == Retry(c, s', job.retryable, limit, script, i + 1)
            else EndsAs(job', s', r)
  {}

  // Left alone, a job of this machine is the retry loop of HttpClient: same outcome, same number
  // of calls, same breaker.
  lemma {:induction false} AloneIsTheRetryLoop(
    c: Config, maxRetries: int, y: System, id: nat, script: seq<Attempt>, i: nat)
    requires InTime(script) && i < |script| && Possible(y, Try(id, script[i].start))
    requires y.jobs[id].sent == i
    requires i < AttemptLimit(y.jobs[id].retryable, maxRetries) <= |script|
    ensures var limit := AttemptLimit(y.jobs[id].retryable, maxRetries);
            var y' := Play(c, maxRetries, y, id, script, i);
            id in y'.jobs &&
            EndsAs(y'.jobs[id], y'.world.breaker,
                   Retry(c, y.world.breaker, y.jobs[id].retryable, limit, script, i))
    decreases |script| - i
  {
    AttemptIsOneTurn(c, maxRetries, y, id, script[i]);
    var y' := PlayAttempt(c, maxRetries, y, id, script[i]);
    TurnIsRetry(c, maxRetries, y.jobs[id], y.world.breaker, script, i, y'.jobs[id], y'.world.breaker);
    if y'.jobs[id].progress == Waiting {
      AloneIsTheRetryLoop(c, maxRetries, y', id, script, i + 1);
    }
  }
}
