/**
 * Every interleaving of overlapping calls on one circuit breaker.
 *
 * A run is a history of atomic steps in any order; any number of calls may sit between their
 * precheck and their completion.  The log records what each step answered.
 */
module BreakerRuns {
  import opened Arithmetic
  import opened Wrappers

  import opened CircuitBreaker

  datatype Event = Precheck(at: real) | Complete(at: real, ending: Ending)

  datatype Entry = Admitted(at: real) | Refused(at: real) | Ended(at: real, ending: Ending)

  // inFlight counts the calls whose coroutine has been invoked and has not ended, invoked all
  // calls of the coroutine so far, cancelled those that ended by cancellation.
  datatype World = World(
    breaker: State, now: real, inFlight: int, invoked: nat, cancelled: nat, log: History<Entry>)

  function Start(at: real): World { World(FRESH, at, 0, 0, 0, Nothing) }

  function Step(c: Config, w: World, e: Event): World {
    match e
    case Precheck(at) =>
      if Admits(c, w.breaker, at)
      then w.(breaker := AfterPrecheck(c, w.breaker, at), now := at, inFlight := w.inFlight + 1,
              invoked := w.invoked + 1, log := Then(w.log, Admitted(at)))
      else w.(now := at, log := Then(w.log, Refused(at)))
    case Complete(at, ending) =>
      w.(breaker := AfterEnding(c, w.breaker, ending, at), now := at, inFlight := w.inFlight - 1,
         cancelled := w.cancelled + (if ending == Cancelled then 1 else 0), log := Then(w.log, Ended(at, ending)))
  }

  function Run(c: Config, start: real, es: History<Event>): World {
    match es
    case Nothing => Start(start)
    case Then(past, e) => Step(c, Run(c, start, past), e)
  }

  // The clock never runs backwards, and only an invoked call can end.
  predicate Enabled(w: World, e: Event) {
    w.now <= e.at && (e.Complete? ==> w.inFlight > 0)
  }

  // Runs with at most n calls in flight at any moment.
  predicate Capped(c: Config, start: real, n: nat, es: History<Event>) {
    match es
    case Nothing => true
    case Then(past, e) =>
      Capped(c, start, n, past) && Enabled(Run(c, start, past), e) && Run(c, start, es).inFlight <= n
  }

  predicate NoneEndsBy(es: History<Event>, ending: Ending) {
    es.Then? ==> NoneEndsBy(es.past, ending) && (es.last.Complete? ==> es.last.ending != ending)
  }

  // ---------------------------------------------------------------- the breaker and its log

  // Failures since the last success.
  function Streak(log: History<Entry>): nat {
    match log
    case Nothing => 0
    case Then(past, Ended(_, Returned)) => 0
    case Then(past, Ended(_, Raised)) => Streak(past) + 1
    case Then(past, _) => Streak(past)
  }

  function LastFailure(log: History<Entry>): Option<real> {
    match log
    case Nothing => None
    case Then(past, Ended(at, Raised)) => Some(at)
    case Then(past, _) => LastFailure(past)
  }

  // Some precheck was admitted since the last failure.
  predicate Probed(log: History<Entry>) {
    match log
    case Nothing => false
    case Then(past, Ended(_, Raised)) => false
    case Then(past, Admitted(_)) => true
    case Then(past, _) => Probed(past)
  }

  // The three fields are determined by the log alone, for every history of steps.
  lemma {:induction false} StateIsAFunctionOfTheLog(c: Config, start: real, es: History<Event>)
    requires c.Valid()
    ensures var w := Run(c, start, es);
            && w.breaker.failures == Streak(w.log)
            && (w.breaker.phase == Closed <==> Streak(w.log) < c.threshold)
            && (w.breaker.phase != Closed ==> LastFailure(w.log) == Some(w.breaker.openedAt))
            && (w.breaker.phase == HalfOpen <==> Streak(w.log) >= c.threshold && Probed(w.log))
  {
    if es.Nothing? {
    } else {
      StateIsAFunctionOfTheLog(c, start, es.past);
    }
  }

  // When a precheck is refused, read off the log: the failures since the last success reached
  // the threshold, the latest of them is younger than the reset timeout, and no call was
  // admitted since.
  lemma RefusedExactlyWhen(c: Config, start: real, es: History<Event>, t: real)
    requires c.Valid()
    ensures var w := Run(c, start, es);
            !Admits(c, w.breaker, t) <==>
              && Streak(w.log) >= c.threshold
              && !Probed(w.log)
              && LastFailure(w.log).Some?
              && t - LastFailure(w.log).value < c.resetTimeout
  {
    StateIsAFunctionOfTheLog(c, start, es);
  }

  // No failure was logged later than t.
  predicate QuietSince(log: History<Entry>, t: real) {
    log.Then? ==> QuietSince(log.past, t) && (log.last.Ended? && log.last.ending == Raised ==> log.last.at <= t)
  }

  lemma {:induction false} QuietBoundsLastFailure(log: History<Entry>, t: real)
    requires QuietSince(log, t) && LastFailure(log).Some?
    ensures LastFailure(log).value <= t
  {
    if log.last.Ended? && log.last.ending == Raised {
    } else {
      QuietBoundsLastFailure(log.past, t);
    }
  }

  // The breaker never wedges: in every reachable state, after any cancellations, a call is
  // admitted once every logged failure is at least the reset timeout old.
  lemma NeverWedges(c: Config, start: real, es: History<Event>, t: real)
    requires c.Valid() && QuietSince(Run(c, start, es).log, t - c.resetTimeout)
    ensures Admits(c, Run(c, start, es).breaker, t)
  {
    RefusedExactlyWhen(c, start, es, t);
    var log := Run(c, start, es).log;
    if LastFailure(log).Some? {
      QuietBoundsLastFailure(log, t - c.resetTimeout);
    }
  }

  // ---------------------------------------------------------------- refused calls stutter

  // The run with every refused precheck taken out.
  function EraseRefused(c: Config, start: real, es: History<Event>): History<Event> {
    match es
    case Nothing => Nothing
    case Then(past, e) =>
      if e.Precheck? && !Admits(c, Run(c, start, past).breaker, e.at)
      then EraseRefused(c, start, past)
      else Then(EraseRefused(c, start, past), e)
  }

  function WithoutRefusals(log: History<Entry>): History<Entry> {
    match log
    case Nothing => Nothing
    case Then(past, entry) => if entry.Refused? then WithoutRefusals(past) else Then(WithoutRefusals(past), entry)
  }

  // Erasing the refused calls changes no later state, no admission and no completion.
  lemma {:induction false} RefusedCallsStutter(c: Config, start: real, es: History<Event>)
    ensures var w := Run(c, start, es);
            var w' := Run(c, start, EraseRefused(c, start, es));
            w'.(now := w.now) == w.(log := WithoutRefusals(w.log))
  {
    if es.Nothing? {
    } else {
      RefusedCallsStutter(c, start, es.past);
    }
  }

  // ---------------------------------------------------------------- load during an outage

  // Capped runs in which no call succeeds.
  predicate Outage(c: Config, start: real, n: nat, es: History<Event>) {
    Capped(c, start, n, es) && NoneEndsBy(es, Returned)
  }

  predicate Reopens(c: Config, w: World, e: Event) {
    e.Precheck? && w.breaker.phase == Open && Admits(c, w.breaker, e.at)
  }

  // How often the run moved from OPEN to HALF_OPEN.
  function Reopenings(c: Config, start: real, es: History<Event>): nat {
    match es
    case Nothing => 0
    case Then(past, e) => Reopenings(c, start, past) + if Reopens(c, Run(c, start, past), e) then 1 else 0
  }

  // What holds after k reopenings, where quota stands for n * k and due for the earliest time
  // the k-th reopening could have happened.
  predicate OutageInvariant(c: Config, n: nat, quota: nat, due: real, w: World) {
    && 0 <= w.inFlight <= n
    && due <= w.now
    && (w.breaker.phase == Closed ==>
          w.breaker.failures < c.threshold && w.invoked == w.breaker.failures + w.inFlight + w.cancelled)
    && (w.breaker.phase != Closed ==> w.breaker.failures >= c.threshold)
    && (w.breaker.phase == Open ==>
          due <= w.breaker.openedAt <= w.now && w.invoked <= c.threshold - 1 + n + quota + w.cancelled)
    && (w.breaker.phase == HalfOpen ==> w.invoked <= c.threshold - 1 + quota + w.inFlight + w.cancelled)
  }

  // A probe period starts at least one reset timeout after the previous one, and admits no more
  // calls than may be in flight plus those cancelled.
  lemma OutageStep(c: Config, n: nat, quota: nat, due: real, w: World, e: Event)
    requires c.Valid() && OutageInvariant(c, n, quota, due, w)
    requires Enabled(w, e) && (e.Complete? ==> e.ending != Returned) && Step(c, w, e).inFlight <= n
    ensures if Reopens(c, w, e)
            then OutageInvariant(c, n, quota + n, due + c.resetTimeout, Step(c, w, e))
            else OutageInvariant(c, n, quota, due, Step(c, w, e))
  {}

  function Due(start: real, r: real, k: nat): real { if k == 0 then start else Due(start, r, k - 1) + r }

  lemma {:induction false} DueIsProduct(start: real, r: real, k: nat)
    ensures Due(start, r, k) == start + k as real * r
  {
    if k == 0 {
    } else {
      DueIsProduct(start, r, k - 1);
      assert k as real * r == (k - 1) as real * r + r;
    }
  }

  lemma {:induction false} OutageKeepsInvariant(c: Config, start: real, n: nat, es: History<Event>)
    requires c.Valid() && Outage(c, start, n, es)
    ensures var k := Reopenings(c, start, es);
            OutageInvariant(c, n, Times(n, k), Due(start, c.resetTimeout, k), Run(c, start, es))
  {
    if es.Nothing? {
    } else {
      OutageKeepsInvariant(c, start, n, es.past);
      var k := Reopenings(c, start, es.past);
      OutageStep(c, n, Times(n, k), Due(start, c.resetTimeout, k), Run(c, start, es.past), es.last);
    }
  }

  lemma FloorOfQuotient(k: nat, r: real, t: real)
    requires r > 0.0 && k as real * r <= t
    ensures k <= (t / r).Floor
  {
    var q := t / r;
    assert q * r == t;
    assert (q - k as real) * r >= 0.0;
    assert q - k as real >= 0.0;
  }

  lemma QuotaWithin(n: nat, start: real, r: real, k: nat, t: real)
    requires r > 0.0 && Due(start, r, k) <= start + t
    ensures Times(n, k) <= n * (t / r).Floor
  {
    TimesIsProduct(n, k);
    DueIsProduct(start, r, k);
    FloorOfQuotient(k, r, t);
    var m := (t / r).Floor;
    assert n * (m - k) >= 0;
  }

  // In the first t time units of an outage, however the calls overlap, the wrapped coroutine is
  // invoked at most threshold - 1 + n + n * floor(t / reset timeout) times, plus once for each
  // cancelled call.
  lemma OutageLoadBound(c: Config, start: real, n: nat, es: History<Event>, t: real)
    requires c.Valid() && Outage(c, start, n, es) && Run(c, start, es).now <= start + t
    ensures var w := Run(c, start, es);
            w.invoked <= c.threshold - 1 + n + n * (t / c.resetTimeout).Floor + w.cancelled
  {
    OutageKeepsInvariant(c, start, n, es);
    QuotaWithin(n, start, c.resetTimeout, Reopenings(c, start, es), t);
  }

  // ---------------------------------------------------------------- the bound is attained

  function Repeat(es: History<Event>, e: Event, m: nat): History<Event> {
    if m == 0 then es else Then(Repeat(es, e, m - 1), e)
  }

  // m calls, each over before the next begins.
  function Sequential(es: History<Event>, at: real, ending: Ending, m: nat): History<Event> {
    if m == 0 then es else Then(Then(Sequential(es, at, ending, m - 1), Precheck(at)), Complete(at, ending))
  }

  // n calls at once, all of which fail.
  function Burst(es: History<Event>, at: real, n: nat): History<Event> {
    Repeat(Repeat(es, Precheck(at), n), Complete(at, Raised), n)
  }

  // x cancelled calls, threshold - 1 failures one by one, and a burst; then a burst of probes
  // every time the reset timeout has just passed.
  function Saturating(c: Config, start: real, n: nat, x: nat, k: nat): History<Event>
    requires c.Valid()
  {
    if k == 0
    then Burst(Sequential(Sequential(Nothing, start, Cancelled, x), start, Raised, c.threshold - 1), start, n)
    else Burst(Saturating(c, start, n, x, k - 1), Due(start, c.resetTimeout, k), n)
  }

  lemma {:induction false} RunPrechecks(c: Config, start: real, n: nat, es: History<Event>, at: real, m: nat)
    requires Outage(c, start, n, es)
    requires var w := Run(c, start, es);
             w.now <= at && 0 <= w.inFlight && w.inFlight + m <= n && Admits(c, w.breaker, at)
    ensures var es' := Repeat(es, Precheck(at), m);
            var w, w' := Run(c, start, es), Run(c, start, es');
            && Outage(c, start, n, es')
            && w'.(log := w.log, now := w.now) == w.(
                 breaker := if m == 0 then w.breaker else AfterPrecheck(c, w.breaker, at),
                 inFlight := w.inFlight + m, invoked := w.invoked + m)
            && w'.now <= at
  {
    if m == 0 {
    } else {
      RunPrechecks(c, start, n, es, at, m - 1);
    }
  }

  lemma {:induction false} RunFailures(c: Config, start: real, n: nat, es: History<Event>, at: real, m: nat)
    requires Outage(c, start, n, es)
    requires var w := Run(c, start, es); w.now <= at && m <= w.inFlight <= n
    ensures var es' := Repeat(es, Complete(at, Raised), m);
            var w, w' := Run(c, start, es), Run(c, start, es');
            && Outage(c, start, n, es')
            && w'.breaker.failures == w.breaker.failures + m
            && (m > 0 && w'.breaker.failures >= c.threshold ==> w'.breaker.phase == Open && w'.breaker.openedAt == at)
            && w'.(log := w.log, now := w.now, breaker := w.breaker) == w.(inFlight := w.inFlight - m)
            && w'.now == if m == 0 then w.now else at
  {
    if m == 0 {
    } else {
      RunFailures(c, start, n, es, at, m - 1);
    }
  }

  lemma {:induction false} RunSequential(
    c: Config, start: real, n: nat, es: History<Event>, at: real, ending: Ending, m: nat)
    requires n > 0 && ending != Returned && Outage(c, start, n, es)
    requires var w := Run(c, start, es);
             && w.now <= at && w.inFlight == 0 && w.breaker.phase == Closed
             && (ending == Raised ==> w.breaker.failures + m < c.threshold)
    ensures var es' := Sequential(es, at, ending, m);
            var w, w' := Run(c, start, es), Run(c, start, es');
            && Outage(c, start, n, es')
            && w'.(log := w.log, now := w.now) == w.(
                 breaker := w.breaker.(failures := w.breaker.failures + if ending == Raised then m else 0),
                 invoked := w.invoked + m,
                 cancelled := w.cancelled + if ending == Cancelled then m else 0)
            && w'.now <= at
  {
    if m == 0 {
    } else {
      RunSequential(c, start, n, es, at, ending, m - 1);
    }
  }

  // What the saturating run has reached after a burst at time due.
  predicate Saturated(c: Config, n: nat, x: nat, quota: int, due: real, w: World) {
    && w.breaker.phase == Open && w.breaker.openedAt == due && w.breaker.failures >= c.threshold
    && w.inFlight == 0 && w.now == due
    && w.invoked == c.threshold - 1 + n + quota + x && w.cancelled == x
  }

  lemma RunBurst(c: Config, start: real, n: nat, es: History<Event>, at: real)
    requires n > 0 && Outage(c, start, n, es)
    requires var w := Run(c, start, es);
             && w.now <= at && w.inFlight == 0 && w.breaker.failures + n >= c.threshold
             && Admits(c, w.breaker, at)
    ensures var es' := Burst(es, at, n);
            var w, w' := Run(c, start, es), Run(c, start, es');
            && Outage(c, start, n, es')
            && Saturated(c, n, w.cancelled, w.invoked - (c.threshold - 1) - w.cancelled, at, w')
  {
    RunPrechecks(c, start, n, es, at, n);
    RunFailures(c, start, n, Repeat(es, Precheck(at), n), at, n);
  }

  lemma {:induction false} RunSaturating(c: Config, start: real, n: nat, x: nat, k: nat)
    requires c.Valid() && n > 0
    ensures var es := Saturating(c, start, n, x, k);
            && Outage(c, start, n, es)
            && Saturated(c, n, x, Times(n, k), Due(start, c.resetTimeout, k), Run(c, start, es))
  {
    if k == 0 {
      var one := Sequential(Nothing, start, Cancelled, x);
      RunSequential(c, start, n, Nothing, start, Cancelled, x);
      RunSequential(c, start, n, one, start, Raised, c.threshold - 1);
      RunBurst(c, start, n, Sequential(one, start, Raised, c.threshold - 1), start);
    } else {
      RunSaturating(c, start, n, x, k - 1);
      RunBurst(c, start, n, Saturating(c, start, n, x, k - 1), Due(start, c.resetTimeout, k));
    }
  }

  // For every number n of calls in flight, every number x of cancellations and every length of
  // k whole reset timeouts, some outage invokes the coroutine as often as the bound allows.
  lemma OutageLoadBoundIsAttained(c: Config, start: real, n: nat, x: nat, k: nat)
    requires c.Valid() && n > 0
    ensures exists es :: var w := Run(c, start, es);
              && Outage(c, start, n, es)
              && w.now == start + k as real * c.resetTimeout
              && w.cancelled == x
              && w.invoked == c.threshold - 1 + n + n * k + x
  {
    RunSaturating(c, start, n, x, k);
    TimesIsProduct(n, k);
    DueIsProduct(start, c.resetTimeout, k);
  }

  // ---------------------------------------------------------------- the documented single probe

  // Calls admitted in the current HALF_OPEN period.
  function Probes(c: Config, start: real, es: History<Event>): nat {
    match es
    case Nothing => 0
    case Then(past, e) =>
      if Run(c, start, es).breaker.phase != HalfOpen then 0
      else Probes(c, start, past) + Run(c, start, es).invoked - Run(c, start, past).invoked
  }

  // Calls that ended by cancellation in the current HALF_OPEN period.
  function ProbesCancelled(c: Config, start: real, es: History<Event>): nat {
    match es
    case Nothing => 0
    case Then(past, e) =>
      if Run(c, start, es).breaker.phase != HalfOpen then 0
      else ProbesCancelled(c, start, past) + Run(c, start, es).cancelled - Run(c, start, past).cancelled
  }

  // However the calls overlap, one HALF_OPEN period admits no more of them than are still in
  // flight or were cancelled in it: a probe that returns or raises ends the period.
  lemma {:induction false} ProbesBound(c: Config, start: real, n: nat, es: History<Event>)
    requires c.Valid() && Capped(c, start, n, es)
    ensures Probes(c, start, es) <= Run(c, start, es).inFlight + ProbesCancelled(c, start, es)
  {
    if es.Nothing? {
    } else {
      ProbesBound(c, start, n, es.past);
      StateIsAFunctionOfTheLog(c, start, es.past);
    }
  }

  lemma {:induction false} NoneCancelled(c: Config, start: real, es: History<Event>)
    requires NoneEndsBy(es, Cancelled)
    ensures Run(c, start, es).cancelled == 0 && ProbesCancelled(c, start, es) == 0
  {
    if es.Nothing? {
    } else {
      NoneCancelled(c, start, es.past);
    }
  }

  lemma {:induction false} NothingInFlight(c: Config, start: real, es: History<Event>)
    requires Capped(c, start, 0, es)
    ensures Run(c, start, es).inFlight == 0 && NoneEndsBy(es, Cancelled)
  {
    if es.Nothing? {
    } else {
      NothingInFlight(c, start, es.past);
    }
  }

  lemma {:induction false} RepeatNeverCancels(es: History<Event>, e: Event, m: nat)
    requires NoneEndsBy(es, Cancelled) && (e.Complete? ==> e.ending != Cancelled)
    ensures NoneEndsBy(Repeat(es, e, m), Cancelled)
  {
    if m == 0 {
    } else {
      RepeatNeverCancels(es, e, m - 1);
    }
  }

  lemma {:induction false} SequentialNeverCancels(at: real, m: nat)
    ensures NoneEndsBy(Sequential(Nothing, at, Raised, m), Cancelled)
  {
    if m == 0 {
    } else {
      SequentialNeverCancels(at, m - 1);
    }
  }

  lemma SaturatingNeverCancels(c: Config, n: nat)
    requires c.Valid()
    ensures NoneEndsBy(Saturating(c, 0.0, n, 0, 0), Cancelled)
  {
    var failed := Sequential(Nothing, 0.0, Raised, c.threshold - 1);
    SequentialNeverCancels(0.0, c.threshold - 1);
    RepeatNeverCancels(failed, Precheck(0.0), n);
    RepeatNeverCancels(Repeat(failed, Precheck(0.0), n), Complete(0.0, Raised), n);
  }

  // With two calls in flight, both are admitted in one HALF_OPEN period.
  lemma TwoProbes(c: Config, n: nat)
    requires c.Valid() && n >= 2
    ensures exists es: History<Event> ::
              Capped(c, 0.0, n, es) && NoneEndsBy(es, Cancelled) && Probes(c, 0.0, es) == 2
  {
    RunSaturating(c, 0.0, n, 0, 0);
    SaturatingNeverCancels(c, n);
    var es := Saturating(c, 0.0, n, 0, 0);
    var probe := Precheck(c.resetTimeout);
    assert Probes(c, 0.0, es) == 0;
    assert Probes(c, 0.0, Then(es, probe)) == 1;
    var two := Then(Then(es, probe), probe);
    assert Probes(c, 0.0, two) == 2;
    assert NoneEndsBy(two, Cancelled);
    assert Capped(c, 0.0, n, two);
  }

  // Without any overlap, a cancelled probe leaves the breaker half open for the next one.
  lemma ProbeAfterCancellation(c: Config, n: nat)
    requires c.Valid() && n >= 1
    ensures exists es: History<Event> :: Capped(c, 0.0, n, es) && Probes(c, 0.0, es) == 2
  {
    RunSaturating(c, 0.0, n, 0, 0);
    var es := Saturating(c, 0.0, n, 0, 0);
    var probe := Precheck(c.resetTimeout);
    var one := Then(es, probe);
    assert Probes(c, 0.0, es) == 0;
    assert Probes(c, 0.0, one) == 1 && Capped(c, 0.0, n, one);
    var cancelled := Then(one, Complete(c.resetTimeout, Cancelled));
    assert Probes(c, 0.0, cancelled) == 1 && Capped(c, 0.0, n, cancelled);
    var two := Then(cancelled, probe);
    assert Probes(c, 0.0, two) == 2 && Capped(c, 0.0, n, two);
  }

  // The module's documentation promises a single probe per HALF_OPEN period.  The code admits
  // every caller until one returns or raises, and a cancelled call does neither.  With at most n
  // calls in flight the promise holds in all runs exactly when no call can be made, or when
  // calls never overlap and are never cancelled.
  lemma SingleProbeExactlyWhen(c: Config, n: nat, cancels: bool)
    requires c.Valid()
    ensures (forall start: real, es: History<Event> ::
               Capped(c, start, n, es) && (cancels || NoneEndsBy(es, Cancelled)) ==> Probes(c, start, es) <= 1)
            <==> n == 0 || (n == 1 && !cancels)
  {
    if n == 0 || (n == 1 && !cancels) {
      forall start: real, es: History<Event> | Capped(c, start, n, es) && (cancels || NoneEndsBy(es, Cancelled))
        ensures Probes(c, start, es) <= 1
      {
        if n == 0 { NothingInFlight(c, start, es); }
        NoneCancelled(c, start, es);
        ProbesBound(c, start, n, es);
      }
    } else if n >= 2 {
      TwoProbes(c, n);
    } else {
      ProbeAfterCancellation(c, n);
    }
  }
}
