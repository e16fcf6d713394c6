/**
 * The retry loop of src/helpers_core/http/client.py, driven through its circuit breaker.
 *
 * One attempt of the loop is described by when its precheck and its end happen and by what the
 * aiohttp session replies.  tenacity with reraise=True re-raises the last exception, so its own
 * RetryError never surfaces.
 */
module HttpClient {
  import opened Wrappers
  import opened CircuitBreaker

  // Exceptions of the session and of reading a body.
  datatype NetworkFault = ConnectionFault | ServerTimeout | TimeoutFault | OtherFault(code: int) | CancelledFault

  // Exceptions of `request`.
  datatype Fault = Network(cause: NetworkFault) | BadStatus(status: int) | BreakerOpen | NotStarted

  // What one call of the session yields: a status line, with the fault if its body cannot be
  // read, or a fault.
  datatype Reply = Response(status: int, body: Option<NetworkFault>) | Failed(fault: NetworkFault)

  datatype Outcome = Answered(status: int) | Threw(fault: Fault)

  datatype Attempt = Attempt(start: real, end: real, reply: Reply)

  predicate IsTransientStatus(status: int) { status in {408, 425, 429, 500, 502, 503, 504} }

  function UpperChar(ch: char): char { if 'a' <= ch <= 'z' then ch - 'a' + 'A' else ch }

  function Upper(s: string): string { if s == "" then "" else [UpperChar(s[0])] + Upper(s[1..]) }

  predicate IsIdempotent(verb: string) { Upper(verb) in {"GET", "HEAD", "OPTIONS", "PUT", "DELETE"} }

  // The exceptions tenacity retries; CircuitBreakerOpen is not among them.
  predicate IsRetried(fault: Fault) {
    || fault.BadStatus?
    || (fault.Network? && (fault.cause.ConnectionFault? || fault.cause.ServerTimeout? || fault.cause.TimeoutFault?))
  }

  // What _do_call makes of a reply.
  function Settle(retryable: bool, reply: Reply): Outcome {
    match reply
    case Failed(fault) => Threw(Network(fault))
    case Response(status, body) =>
      if IsTransientStatus(status) && retryable
      then if body.Some? then Threw(Network(body.value)) else Threw(BadStatus(status))
      else Answered(status)
  }

  function EndingOf(outcome: Outcome): Ending {
    match outcome
    case Answered(_) => Returned
    case Threw(Network(CancelledFault)) => Cancelled
    case Threw(_) => Raised
  }

  predicate TriesAgain(outcome: Outcome) { outcome.Threw? && IsRetried(outcome.fault) }

  // stop_after_attempt(limit) still makes the first attempt when limit is not positive.
  function AttemptLimit(retryable: bool, maxRetries: int): (limit: nat)
    ensures limit >= 1
  {
    if retryable && maxRetries > 0 then maxRetries + 1 else 1
  }

  datatype Trail = Trail(outcome: Outcome, calls: nat, breaker: State)

  // The loop from attempt number i on.
  function Retry(c: Config, s: State, retryable: bool, limit: nat, script: seq<Attempt>, i: nat): Trail
    requires i < limit <= |script|
    decreases limit - i
  {
    var a := script[i];
    if !Admits(c, s, a.start) then Trail(Threw(BreakerOpen), i, s)
    else
      var outcome := Settle(retryable, a.reply);
      var s' := AfterEnding(c, AfterPrecheck(c, s, a.start), EndingOf(outcome), a.end);
      if TriesAgain(outcome) && i + 1 < limit
      then Retry(c, s', retryable, limit, script, i + 1)
      else Trail(outcome, i + 1, s')
  }

  class Client {
    const breaker: Breaker
    const maxRetries: int
    var started: bool
    var inFlight: int
    // HTTP_CLIENT_REQUESTS by method and status.
    var requests: map<(string, int), int>

    constructor (breaker: Breaker, maxRetries: int)
      ensures this.breaker == breaker && this.maxRetries == maxRetries
      ensures !started && inFlight == 0 && requests == map[]
    {
      this.breaker, this.maxRetries := breaker, maxRetries;
      started, inFlight, requests := false, 0, map[];
    }

    method DoCall(verb: string, reply: Reply) returns (outcome: Outcome)
      modifies this`inFlight, this`requests
      ensures outcome == Settle(IsIdempotent(verb), reply)
      ensures inFlight == old(inFlight)
      ensures requests == Counted(old(requests), verb, reply)
    {
      inFlight := inFlight + 1;
      inFlight := inFlight - 1;
      match reply {
        case Failed(fault) =>
          outcome := Threw(Network(fault));
        case Response(status, body) =>
          var series := (Upper(verb), status);
          requests := requests[series := if series in requests then requests[series] + 1 else 1];
          if IsTransientStatus(status) && IsIdempotent(verb) {
            match body {
              case Some(fault) => outcome := Threw(Network(fault));
              case None => outcome := Threw(BadStatus(status));
            }
          } else {
            outcome := Answered(status);
          }
      }
    }

    method Request(verb: string, script: seq<Attempt>) returns (outcome: Outcome, calls: nat)
      requires breaker.Valid()
      requires |script| >= AttemptLimit(IsIdempotent(verb), maxRetries)
      modifies this`inFlight, this`requests, breaker
      ensures breaker.Valid() && inFlight == old(inFlight)
      ensures !started ==> outcome == Threw(NotStarted) && calls == 0 && breaker.Value() == old(breaker.Value())
      ensures started ==>
                var limit := AttemptLimit(IsIdempotent(verb), maxRetries);
                Trail(outcome, calls, breaker.Value()) ==
                  Retry(breaker.config, old(breaker.Value()), IsIdempotent(verb), limit, script, 0)
      ensures calls <= |script| && requests == CountedAll(old(requests), verb, script[..calls])
    {
      calls := 0;
      if !started {
        return Threw(NotStarted), 0;
      }
      var retryable := IsIdempotent(verb);
      var limit := AttemptLimit(retryable, maxRetries);
      while true
        invariant calls < limit && started && breaker.Valid() && inFlight == old(inFlight)
        invariant Retry(breaker.config, old(breaker.Value()), retryable, limit, script, 0) ==
                  Retry(breaker.config, breaker.Value(), retryable, limit, script, calls)
        invariant requests == CountedAll(old(requests), verb, script[..calls])
        decreases limit - calls
      {
        var a := script[calls];
        var admitted := breaker.Precheck(a.start);
        if !admitted {
          return Threw(BreakerOpen), calls;
        }
        outcome := DoCall(verb, a.reply);
        match EndingOf(outcome) {
          case Returned => breaker.OnSuccess();
          case Raised => breaker.OnFailure(a.end);
          case Cancelled =>
        }
        assert script[..calls + 1] == script[..calls] + [a];
        calls := calls + 1;
        if !(TriesAgain(outcome) && calls < limit) {
          return outcome, calls;
        }
      }
    }
  }

  function Counted(requests: map<(string, int), int>, verb: string, reply: Reply): map<(string, int), int> {
    if reply.Failed? then requests
    else
      var series := (Upper(verb), reply.status);
      requests[series := if series in requests then requests[series] + 1 else 1]
  }

  function CountedAll(requests: map<(string, int), int>, verb: string, made: seq<Attempt>): map<(string, int), int> {
    if made == [] then requests
    else Counted(CountedAll(requests, verb, made[..|made| - 1]), verb, made[|made| - 1].reply)
  }

  // ---------------------------------------------------------------- what a request means

  // The reply that ends the request when the breaker admits every attempt: the first that is not
  // retried, or the last one allowed.
  predicate Ends(retryable: bool, limit: nat, replies: seq<Reply>, n: nat) {
    && 1 <= n <= limit && n <= |replies|
    && (forall i :: 0 <= i < n - 1 ==> TriesAgain(Settle(retryable, replies[i])))
    && (n == limit || !TriesAgain(Settle(retryable, replies[n - 1])))
  }

  function Replies(script: seq<Attempt>): seq<Reply> {
    seq(|script|, i requires 0 <= i < |script| => script[i].reply)
  }

  // The request is the longest run of admitted attempts that the retry rule asks for: either it
  // ends as the rule says, or the breaker cut it short while the rule wanted another attempt.
  lemma {:induction false} RequestRefinesRetryRule(
    c: Config, s: State, retryable: bool, limit: nat, script: seq<Attempt>, i: nat)
    requires i < limit <= |script|
    requires forall j :: 0 <= j < i ==> TriesAgain(Settle(retryable, script[j].reply))
    ensures var r := Retry(c, s, retryable, limit, script, i);
            && i <= r.calls <= limit
            && if r.outcome == Threw(BreakerOpen)
               then r.calls < limit && forall j :: 0 <= j < r.calls ==> TriesAgain(Settle(retryable, script[j].reply))
               else
                 && Ends(retryable, limit, Replies(script), r.calls)
                 && r.outcome == Settle(retryable, script[r.calls - 1].reply)
    decreases limit - i
  {
    var a := script[i];
    if Admits(c, s, a.start) {
      var outcome := Settle(retryable, a.reply);
      if TriesAgain(outcome) && i + 1 < limit {
        var s' := AfterEnding(c, AfterPrecheck(c, s, a.start), EndingOf(outcome), a.end);
        RequestRefinesRetryRule(c, s', retryable, limit, script, i + 1);
      }
    }
  }

  // Whatever the replies, exactly one attempt ends the request.
  lemma {:induction false} ExactlyOneAttemptEnds(retryable: bool, limit: nat, replies: seq<Reply>, i: nat)
    requires i < limit <= |replies|
    requires forall j :: 0 <= j < i ==> TriesAgain(Settle(retryable, replies[j]))
    ensures exists n ::
              Ends(retryable, limit, replies, n) && forall m :: Ends(retryable, limit, replies, m) ==> m == n
    decreases limit - i
  {
    if TriesAgain(Settle(retryable, replies[i])) && i + 1 < limit {
      ExactlyOneAttemptEnds(retryable, limit, replies, i + 1);
    } else {
      assert Ends(retryable, limit, replies, i + 1);
    }
  }

  // An idempotent method never hands a transient status to its caller; any other method makes
  // at most one network call.
  lemma RequestGuarantees(c: Config, s: State, verb: string, maxRetries: int, script: seq<Attempt>)
    requires AttemptLimit(IsIdempotent(verb), maxRetries) <= |script|
    ensures var retryable := IsIdempotent(verb);
            var r := Retry(c, s, retryable, AttemptLimit(retryable, maxRetries), script, 0);
            && (retryable && r.outcome.Answered? ==> !IsTransientStatus(r.outcome.status))
            && (!retryable ==> r.calls <= 1)
  {
    var retryable := IsIdempotent(verb);
    RequestRefinesRetryRule(c, s, retryable, AttemptLimit(retryable, maxRetries), script, 0);
  }

  // ---------------------------------------------------------------- retries against the breaker

  // Between the end of an attempt and the next precheck less than the reset timeout passes.
  predicate ShortPauses(c: Config, limit: nat, script: seq<Attempt>)
    requires limit <= |script|
  {
    forall i {:trigger script[i]} :: 0 <= i && i + 1 < limit ==> script[i + 1].start - script[i].end < c.resetTimeout
  }

  // What a request that made n calls of an open-ended budget leaves in the failure counter.
  function FailuresAfter(failures: nat, n: nat, last: Outcome): nat
    requires n >= 1
  {
    match EndingOf(last)
    case Returned => 0
    case Raised => failures + n
    case Cancelled => failures + n - 1
  }

  lemma {:induction false} RetryFromClosed(
    c: Config, s: State, retryable: bool, limit: nat, script: seq<Attempt>, i: nat, n: nat)
    requires c.Valid() && i < limit <= |script|
    requires Ends(retryable, limit, Replies(script), n) && i < n
    requires s.failures < c.threshold && s.phase == Closed
    requires n - i <= c.threshold - s.failures || ShortPauses(c, limit, script)
    ensures var r := Retry(c, s, retryable, limit, script, i);
            var room := c.threshold - s.failures;
            var last := Settle(retryable, script[n - 1].reply);
            && (if n - i <= room
                then r.calls == n && r.outcome == last && r.breaker.failures == FailuresAfter(s.failures, n - i, last)
                else r.calls == i + room && r.outcome == Threw(BreakerOpen) && r.breaker.failures == c.threshold)
            && r.breaker.phase == (if r.breaker.failures >= c.threshold then Open else Closed)
    decreases limit - i
  {
    var a := script[i];
    var outcome := Settle(retryable, a.reply);
    if i + 1 < n {
      assert Replies(script)[i] == a.reply && TriesAgain(outcome);
      var s' := AfterFailure(c, s, a.end);
      if s'.phase == Closed {
        RetryFromClosed(c, s', retryable, limit, script, i + 1, n);
      } else {
        assert script[i + 1].start - script[i].end < c.resetTimeout;
      }
    }
  }

  // A request that starts with the breaker closed after f failures makes exactly
  // min(n, threshold - f) network calls, where the retry rule alone would make n, if it pauses
  // less than the reset timeout between attempts or all n fit anyway.  It ends as the retry rule
  // says exactly when that many calls fit under the threshold, and with CircuitBreakerOpen
  // otherwise.  A success clears the failure counter, a cancellation leaves its call uncounted,
  // and the breaker ends open exactly when the counter reached the threshold.
  lemma RequestOnClosedBreaker(c: Config, s: State, retryable: bool, limit: nat, script: seq<Attempt>, n: nat)
    requires c.Valid() && limit <= |script|
    requires Ends(retryable, limit, Replies(script), n)
    requires s.failures < c.threshold && s.phase == Closed
    requires n <= c.threshold - s.failures || ShortPauses(c, limit, script)
    ensures var r := Retry(c, s, retryable, limit, script, 0);
            var room := c.threshold - s.failures;
            var last := Settle(retryable, script[n - 1].reply);
            && r.calls == (if n <= room then n else room)
            && r.outcome == (if n <= room then last else Threw(BreakerOpen))
            && r.breaker.failures == (if n <= room then FailuresAfter(s.failures, n, last) else c.threshold)
            && r.breaker.phase == (if r.breaker.failures >= c.threshold then Open else Closed)
  {
    RetryFromClosed(c, s, retryable, limit, script, 0, n);
  }

  // How many calls in a row the breaker lets through when all of them fail.
  function Room(c: Config, s: State, start: real): nat
    requires c.Valid()
  {
    if s.failures < c.threshold then c.threshold - s.failures else if Admits(c, s, start) then 1 else 0
  }

  // The same from every state the breaker can be in: open, it lets no call through before the
  // reset timeout and one probe after it, and half open one.
  lemma RequestOnAnyBreaker(c: Config, s: State, retryable: bool, limit: nat, script: seq<Attempt>, n: nat)
    requires c.Valid() && 1 <= limit <= |script|
    requires Ends(retryable, limit, Replies(script), n)
    requires s.phase == Closed <==> s.failures < c.threshold
    requires n <= Room(c, s, script[0].start) || ShortPauses(c, limit, script)
    ensures var r := Retry(c, s, retryable, limit, script, 0);
            var room := Room(c, s, script[0].start);
            var last := Settle(retryable, script[n - 1].reply);
            && r.calls == (if n <= room then n else room)
            && r.outcome == (if n <= room then last else Threw(BreakerOpen))
            && r.breaker.failures == (if n <= room then FailuresAfter(s.failures, n, last) else s.failures + room)
            && (r.breaker.phase == Closed <==> r.breaker.failures < c.threshold)
  {
    if s.phase == Closed {
      RequestOnClosedBreaker(c, s, retryable, limit, script, n);
    } else if n > 1 && Admits(c, s, script[0].start) {
      assert Replies(script)[0] == script[0].reply;
      assert script[1].start - script[0].end < c.resetTimeout by {
        assert script[0 + 1].start - script[0].end < c.resetTimeout;
      }
    }
  }

  // wait_exponential_jitter(initial=0.2, max=5.0)
  const BACKOFF_CAP := 5.0

  // ---------------------------------------------------------------- requests in the words of HTTP

  // The same letters, those of `name` being capitals, whatever their case.
  predicate Spells(s: string, name: string) {
    |s| == |name| && forall i :: 0 <= i < |s| ==> s[i] == name[i] || s[i] as int == name[i] as int + 32
  }

  lemma {:induction false} UpperLetters(s: string)
    ensures |Upper(s)| == |s| && forall i :: 0 <= i < |s| ==> Upper(s)[i] == UpperChar(s[i])
  {
    if s == "" {
    } else {
      UpperLetters(s[1..]);
    }
  }

  lemma UpperSpells(s: string, name: string)
    requires forall i :: 0 <= i < |name| ==> 'A' <= name[i] <= 'Z'
    ensures Upper(s) == name <==> Spells(s, name)
  {
    UpperLetters(s);
    if Upper(s) == name {
      assert forall i :: 0 <= i < |s| ==> UpperChar(s[i]) == name[i];
    }
  }

  predicate NamesIdempotent(verb: string) {
    || Spells(verb, "GET") || Spells(verb, "HEAD") || Spells(verb, "OPTIONS")
    || Spells(verb, "PUT") || Spells(verb, "DELETE")
  }

  // GET, HEAD, OPTIONS, PUT and DELETE are retried, in whatever case they are given; no other
  // method is.
  lemma IdempotentExactlyWhen(verb: string)
    ensures IsIdempotent(verb) <==> NamesIdempotent(verb)
  {
    UpperSpells(verb, "GET");
    UpperSpells(verb, "HEAD");
    UpperSpells(verb, "OPTIONS");
    UpperSpells(verb, "PUT");
    UpperSpells(verb, "DELETE");
  }

  // A reply after which the service is asked again: it was not reached, did not answer in time,
  // or answered with one of seven statuses and a body that does not say otherwise.
  predicate Transient(reply: Reply) {
    match reply
    case Failed(fault) => fault in {ConnectionFault, ServerTimeout, TimeoutFault}
    case Response(status, body) =>
      && status in {408, 425, 429, 500, 502, 503, 504}
      && (body.Some? ==> body.value in {ConnectionFault, ServerTimeout, TimeoutFault})
  }

  // The exception of an attempt without a usable answer.
  function ErrorOf(reply: Reply): Fault {
    match reply
    case Failed(fault) => Network(fault)
    case Response(status, Some(fault)) => Network(fault)
    case Response(status, None) => BadStatus(status)
  }

  predicate IsCancelled(reply: Reply) { ErrorOf(reply) == Network(CancelledFault) }

  function Attempts(verb: string, maxRetries: int): nat {
    if NamesIdempotent(verb) && maxRetries > 0 then maxRetries + 1 else 1
  }

  // An idempotent request asks again after every transient reply while attempts are left.  It
  // returns the first response with any other status, which clears the breaker's counter; any
  // other last reply is raised as its own exception and every call counts as a failure of the
  // breaker, except one that was cancelled.
  lemma {:induction false} IdempotentRequest(
    c: Config, s: State, verb: string, maxRetries: int, script: seq<Attempt>, n: nat)
    requires c.Valid() && NamesIdempotent(verb) && 1 <= n <= Attempts(verb, maxRetries) <= |script|
    requires forall i :: 0 <= i < n - 1 ==> Transient(script[i].reply)
    requires n == Attempts(verb, maxRetries) || !Transient(script[n - 1].reply)
    requires (s.phase == Closed <==> s.failures < c.threshold) && n <= Room(c, s, script[0].start)
    ensures var r := Retry(c, s, IsIdempotent(verb), AttemptLimit(IsIdempotent(verb), maxRetries), script, 0);
            var last := script[n - 1].reply;
            && r.calls == n
            && if last.Response? && last.status !in {408, 425, 429, 500, 502, 503, 504}
               then r.outcome == Answered(last.status) && r.breaker == State(0, 0.0, Closed)
               else
                 && r.outcome == Threw(ErrorOf(last))
                 && r.breaker.failures == s.failures + n - (if IsCancelled(last) then 1 else 0)
  {
    IdempotentExactlyWhen(verb);
    var limit := Attempts(verb, maxRetries);
    assert forall i :: 0 <= i < n ==> Replies(script)[i] == script[i].reply;
    assert Ends(true, limit, Replies(script), n);
    RequestOnAnyBreaker(c, s, true, limit, script, n);
    AnswerClears(c, s, true, limit, script, 0);
  }

  // A request that ends with an answer leaves a fresh breaker.
  lemma {:induction false} AnswerClears(
    c: Config, s: State, retryable: bool, limit: nat, script: seq<Attempt>, i: nat)
    requires i < limit <= |script|
    ensures var r := Retry(c, s, retryable, limit, script, i);
            r.outcome.Answered? ==> r.breaker == State(0, 0.0, Closed)
    decreases limit - i
  {
    var a := script[i];
    var outcome := Settle(retryable, a.reply);
    if Admits(c, s, a.start) && TriesAgain(outcome) && i + 1 < limit {
      var s' := AfterEnding(c, AfterPrecheck(c, s, a.start), EndingOf(outcome), a.end);
      AnswerClears(c, s', retryable, limit, script, i + 1);
    }
  }

  // Any other method is called once, and every status, transient or not, is its answer.
  lemma {:induction false} OtherRequest(
    c: Config, s: State, verb: string, maxRetries: int, script: seq<Attempt>)
    requires c.Valid() && !NamesIdempotent(verb)
    requires |script| >= AttemptLimit(IsIdempotent(verb), maxRetries) && Admits(c, s, script[0].start)
    ensures var r := Retry(c, s, IsIdempotent(verb), AttemptLimit(IsIdempotent(verb), maxRetries), script, 0);
            && r.calls == 1
            && match script[0].reply
               case Response(status, _) => r.outcome == Answered(status) && r.breaker == State(0, 0.0, Closed)
               case Failed(fault) =>
                 && r.outcome == Threw(Network(fault))
                 && r.breaker.failures == s.failures + (if fault == CancelledFault then 0 else 1)
  {
    IdempotentExactlyWhen(verb);
  }

  // When every attempt fails transiently and the reset timeout exceeds the backoff cap, an
  // idempotent request makes min(max_retries + 1, threshold - f) calls, and leaves the breaker
  // open exactly when they reach the threshold.
  lemma {:induction false} TransientFailuresOnly(
    c: Config, s: State, verb: string, maxRetries: int, script: seq<Attempt>)
    requires c.Valid() && NamesIdempotent(verb) && Attempts(verb, maxRetries) <= |script|
    requires BACKOFF_CAP < c.resetTimeout
    requires forall i {:trigger script[i]} :: 0 <= i && i + 1 < Attempts(verb, maxRetries) ==>
               script[i + 1].start <= script[i].end + BACKOFF_CAP
    requires forall i :: 0 <= i < Attempts(verb, maxRetries) ==> Transient(script[i].reply)
    requires s.failures < c.threshold && s.phase == Closed
    ensures var attempts := Attempts(verb, maxRetries);
            var room := c.threshold - s.failures;
            var r := Retry(c, s, IsIdempotent(verb), AttemptLimit(IsIdempotent(verb), maxRetries), script, 0);
            && r.calls == (if attempts <= room then attempts else room)
            && r.outcome == Threw(if attempts <= room then ErrorOf(script[attempts - 1].reply) else BreakerOpen)
            && (r.breaker.phase == Open <==> attempts >= room)
  {
    IdempotentExactlyWhen(verb);
    var limit := Attempts(verb, maxRetries);
    assert Ends(true, limit, Replies(script), limit);
    RequestOnClosedBreaker(c, s, true, limit, script, limit);
  }

  // ---------------------------------------------------------------- the request counter

  function Series(requests: map<(string, int), int>, verb: string, status: int): int {
    if (verb, status) in requests then requests[(verb, status)] else 0
  }

  function ResponsesWith(made: seq<Attempt>, status: int): nat {
    if made == [] then 0
    else
      var reply := made[|made| - 1].reply;
      ResponsesWith(made[..|made| - 1], status) + if reply.Response? && reply.status == status then 1 else 0
  }

  // Every series grows by the responses with its method, in capitals, and its status: retried
  // ones included, calls without a response not.
  lemma {:induction false} SeriesCountResponses(
    requests: map<(string, int), int>, verb: string, made: seq<Attempt>, name: string, status: int)
    ensures Series(CountedAll(requests, verb, made), name, status) ==
            Series(requests, name, status) + if Upper(verb) == name then ResponsesWith(made, status) else 0
  {
    if made == [] {
    } else {
      SeriesCountResponses(requests, verb, made[..|made| - 1], name, status);
    }
  }
}
