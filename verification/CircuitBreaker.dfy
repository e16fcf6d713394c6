/**
 * The circuit breaker of src/helpers_core/http/circuit_breaker.py.
 *
 * No critical section of the source awaits while it holds the lock, so each one is a single
 * atomic step.  The steps are functions on the breaker's three fields; the class updates those
 * fields in place and is proved against the functions.  BreakerRuns.dfy proves what every
 * interleaving of the steps keeps.
 */
module CircuitBreaker {
  import opened Wrappers

  datatype Phase = Closed | Open | HalfOpen

  datatype Config = Config(threshold: int, resetTimeout: real) {
    predicate Valid() { threshold > 0 && resetTimeout > 0.0 }
  }

  datatype State = State(failures: nat, openedAt: real, phase: Phase)

  const FRESH := State(0, 0.0, Closed)

  // What a caller of _precheck learns: false stands for CircuitBreakerOpen.
  predicate Admits(c: Config, s: State, now: real) {
    s.phase == Open ==> now - s.openedAt >= c.resetTimeout
  }

  function AfterPrecheck(c: Config, s: State, now: real): State {
    if s.phase == Open && Admits(c, s, now) then s.(phase := HalfOpen) else s
  }

  function AfterFailure(c: Config, s: State, now: real): State {
    var failures := s.failures + 1;
    if failures >= c.threshold then State(failures, now, Open) else s.(failures := failures)
  }

  // How the wrapped coroutine ends.  Cancellation is a BaseException, which neither the except
  // clause nor the else clause of `call` sees.
  datatype Ending = Returned | Raised | Cancelled

  function AfterEnding(c: Config, s: State, ending: Ending, now: real): State {
    match ending
    case Returned => FRESH
    case Raised => AfterFailure(c, s, now)
    case Cancelled => s
  }

  class Breaker {
    const config: Config
    var failures: int
    var openedAt: real
    var phase: Phase

    ghost predicate Valid()
      reads this
    {
      config.Valid() && failures >= 0
    }

    ghost function Value(): State
      reads this
      requires Valid()
    {
      State(failures, openedAt, phase)
    }

    constructor (config: Config)
      requires config.Valid()
      ensures Valid() && this.config == config && Value() == State(0, 0.0, Closed)
    {
      this.config := config;
      failures, openedAt, phase := 0, 0.0, Closed;
    }

    // The source's __init__, which rejects non-positive parameters with ValueError.
    static method Create(threshold: int, resetTimeout: real) returns (r: Result<Breaker, string>)
      ensures r.Success? <==> threshold > 0 && resetTimeout > 0.0
      ensures r.Success? ==> fresh(r.value) && r.value.Valid() && r.value.Value() == FRESH
      ensures r.Success? ==> r.value.config == Config(threshold, resetTimeout)
      ensures threshold <= 0 ==> r == Failure("failure_threshold must be positive")
      ensures threshold > 0 && resetTimeout <= 0.0 ==> r == Failure("reset_timeout must be positive")
    {
      if threshold <= 0 {
        return Failure("failure_threshold must be positive");
      }
      if resetTimeout <= 0.0 {
        return Failure("reset_timeout must be positive");
      }
      var b := new Breaker(Config(threshold, resetTimeout));
      return Success(b);
    }

    method OnSuccess()
      requires Valid()
      modifies this
      ensures Valid() && Value() == State(0, 0.0, Closed)
    {
      failures, openedAt, phase := 0, 0.0, Closed;
    }

    method OnFailure(now: real)
      requires Valid()
      modifies this
      ensures Valid() && Value() == AfterFailure(config, old(Value()), now)
    {
      failures := failures + 1;
      if failures >= config.threshold {
        phase := Open;
        openedAt := now;
      }
    }

    method Precheck(now: real) returns (admitted: bool)
      requires Valid()
      modifies this
      ensures Valid() && Value() == AfterPrecheck(config, old(Value()), now)
      ensures admitted == Admits(config, old(Value()), now)
    {
      if phase == Open {
        if now - openedAt >= config.resetTimeout {
          phase := HalfOpen;
        } else {
          return false;
        }
      }
      return true;
    }

    // One isolated call: the precheck at `start`, the wrapped coroutine ending at `end`.
    method Call(start: real, ending: Ending, end: real) returns (admitted: bool)
      requires Valid()
      modifies this
      ensures Valid()
      ensures admitted == Admits(config, old(Value()), start)
      ensures Value() == if admitted
                         then AfterEnding(config, AfterPrecheck(config, old(Value()), start), ending, end)
                         else old(Value())
    {
      admitted := Precheck(start);
      if admitted {
        match ending {
          case Returned => OnSuccess();
          case Raised => OnFailure(end);
          case Cancelled =>
        }
      }
    }
  }
}
