/**
 * The update pipeline of src/helpers_core/telegram/: error accounting around throttling around
 * the database session around the handler, as bootstrap.py stacks them.
 *
 * The database is any type of state; a handler is its effect on it.
 */
module Middleware {
  import opened Wrappers
  import opened RateLimiter
  import opened RedisKeys
  import opened LimiterFleet

  // How a piece of the pipeline ends.  Cancelled is a BaseException, which no handler here sees.
  datatype Ending = Done | TelegramError | Error | Cancelled

  // One update: the sender the throttling middleware finds in its event (None unless the event
  // has a from_user) and when it comes, what its handler would do, and whether Redis and the
  // commit work.
  datatype Update<!S> = Update(
    user: Option<int>, at: int, tie: bool, redisUp: bool, effect: S -> S, handler: Ending, commits: bool)

  // TELEGRAM_UPDATES of one bot, by outcome.
  datatype Counters = Counters(ok: nat, telegramError: nat, error: nat, throttled: nat)

  // The committed database with the transaction a session works in.
  class Database<S> {
    var committed: S
    var working: S

    constructor (initial: S)
      ensures committed == initial && working == initial
    {
      committed, working := initial, initial;
    }
  }

  class Pipeline<S> {
    const limiter: RedisRateLimiter
    const db: Database<S>
    var counters: Counters

    constructor (limiter: RedisRateLimiter, db: Database<S>)
      ensures this.limiter == limiter && this.db == db && counters == Counters(0, 0, 0, 0)
    {
      this.limiter, this.db, counters := limiter, db, Counters(0, 0, 0, 0);
    }

    // DbSessionMiddleware around the handler.
    method HandleInSession(u: Update<S>) returns (ending: Ending)
      modifies db
      ensures ending == SessionEnding(u)
      ensures db.committed == if SessionEnding(u) == Done then u.effect(old(db.committed)) else old(db.committed)
    {
      db.working := db.committed;
      db.working := u.effect(db.working);
      match u.handler {
        case Done =>
          if !u.commits {
            return Error;
          }
          db.committed := db.working;
        case _ =>
          db.working := db.committed;
      }
      ending := u.handler;
    }

    // ThrottlingMiddleware around the session.
    method Throttle(u: Update<S>) returns (ending: Ending)
      modifies db, limiter.redis, this`counters
      ensures var before := Value(old(counters), old(db.committed), old(limiter.redis.cells));
              var after := Throttled(limiter.policy, limiter.prefix, before, u);
              ending == after.1 && Value(counters, db.committed, limiter.redis.cells) == after.0
    {
      if u.user.None? {
        ending := HandleInSession(u);
        return;
      }
      if !u.redisUp {
        return Error;
      }
      var decision := limiter.Hit("u:" + Decimal(u.user.value), u.at, u.tie);
      if decision.allowed {
        ending := HandleInSession(u);
      } else {
        counters := counters.(throttled := counters.throttled + 1);
        ending := Done;
      }
    }

    // ErrorLoggingMiddleware around everything.
    method Process(u: Update<S>)
      modifies db, limiter.redis, this`counters
      ensures Value(counters, db.committed, limiter.redis.cells) ==
              Step(limiter.policy, limiter.prefix,
                   Value(old(counters), old(db.committed), old(limiter.redis.cells)), u)
    {
      var ending := Throttle(u);
      match ending {
        case Done => counters := counters.(ok := counters.ok + 1);
        case TelegramError => counters := counters.(telegramError := counters.telegramError + 1);
        case Error => counters := counters.(error := counters.error + 1);
        case Cancelled =>
      }
    }
  }

  // ---------------------------------------------------------------- the pipeline on values

  datatype Value<S> = Value(counters: Counters, committed: S, cells: map<string, Cell>)

  function SessionEnding<S>(u: Update<S>): Ending { if u.handler == Done && !u.commits then Error else u.handler }

  function InSession<S>(v: Value<S>, u: Update<S>): Value<S> {
    if SessionEnding(u) == Done then v.(committed := u.effect(v.committed)) else v
  }

  function Throttled<S>(p: Policy, prefix: string, v: Value<S>, u: Update<S>): (Value<S>, Ending) {
    if u.user.None? then (InSession(v, u), SessionEnding(u))
    else if !u.redisUp then (v, Error)
    else
      var key := prefix + ("u:" + Decimal(u.user.value));
      var cell := Script(p.window, CellOf(v.cells, key), u.at, u.tie);
      var hit := v.(cells := v.cells[key := cell]);
      if Decide(p, cell).allowed then (InSession(hit, u), SessionEnding(u))
      else (hit.(counters := hit.counters.(throttled := hit.counters.throttled + 1)), Done)
  }

  function Count(c: Counters, ending: Ending): Counters {
    match ending
    case Done => c.(ok := c.ok + 1)
    case TelegramError => c.(telegramError := c.telegramError + 1)
    case Error => c.(error := c.error + 1)
    case Cancelled => c
  }

  function Step<S>(p: Policy, prefix: string, v: Value<S>, u: Update<S>): Value<S> {
    var (after, ending) := Throttled(p, prefix, v, u);
    after.(counters := Count(after.counters, ending))
  }

  function Run<S>(p: Policy, prefix: string, initial: S, us: History<Update<S>>): Value<S> {
    match us
    case Nothing => Value(Counters(0, 0, 0, 0), initial, map[])
    case Then(past, u) => Step(p, prefix, Run(p, prefix, initial, past), u)
  }

  // ---------------------------------------------------------------- what a run of updates means

  // The prefix bootstrap.py gives a bot's limiter.
  function Prefix(bot: string): string { "rl:" + bot + ":" }

  // The limiter hits of a run: updates with a known sender, while Redis answers.
  function HitsOf<S>(bot: string, us: History<Update<S>>): History<Hit> {
    match us
    case Nothing => Nothing
    case Then(past, u) =>
      if u.user.Some? && u.redisUp then Then(HitsOf(bot, past), Hit(bot, u.user.value, u.at, u.tie))
      else HitsOf(bot, past)
  }

  // Does the last update reach its handler?  Only the limiter's hits decide.
  predicate Handled<S>(policies: Policies, bot: string, us: History<Update<S>>)
    requires us.Then?
  {
    us.last.user.None? || (us.last.redisUp && LastAllowed(policies, HitsOf(bot, us)))
  }

  // The effects, in order, of the updates that were handled, whose handler returned and whose
  // commit succeeded.
  function Committed<S>(policies: Policies, bot: string, initial: S, us: History<Update<S>>): S {
    match us
    case Nothing => initial
    case Then(past, u) =>
      var before := Committed(policies, bot, initial, past);
      if Handled(policies, bot, us) && u.handler == Done && u.commits then u.effect(before) else before
  }

  // The hit of the last update was denied.
  predicate Denied<S>(policies: Policies, bot: string, us: History<Update<S>>)
    requires us.Then?
  {
    us.last.user.Some? && us.last.redisUp && !LastAllowed(policies, HitsOf(bot, us))
  }

  // How the last update moves each counter, from what happened to it.
  function Tick<S>(policies: Policies, bot: string, c: Counters, us: History<Update<S>>): Counters
    requires us.Then?
  {
    var u := us.last;
    var handled := Handled(policies, bot, us);
    var denied := Denied(policies, bot, us);
    var saved := handled && u.handler == Done && u.commits;
    var failed := if handled then u.handler == Error || (u.handler == Done && !u.commits) else !denied;
    Counters(
      c.ok + (if denied || saved then 1 else 0),
      c.telegramError + (if handled && u.handler == TelegramError then 1 else 0),
      c.error + (if failed then 1 else 0),
      c.throttled + (if denied then 1 else 0))
  }

  // Reference: each counter on its own.
  function Expected<S>(policies: Policies, bot: string, us: History<Update<S>>): Counters {
    if us.Nothing? then Counters(0, 0, 0, 0) else Tick(policies, bot, Expected(policies, bot, us.past), us)
  }

  function Length<T>(h: History<T>): nat { if h.Nothing? then 0 else Length(h.past) + 1 }

  // Updates whose handler was run and cancelled.
  function Cancellations<S>(policies: Policies, bot: string, us: History<Update<S>>): nat {
    match us
    case Nothing => 0
    case Then(past, u) =>
      Cancellations(policies, bot, past) + if Handled(policies, bot, us) && u.handler == Cancelled then 1 else 0
  }

  lemma LimiterKeyHasPrefix(bot: string, user: int)
    ensures Prefix(bot) + ("u:" + Decimal(user)) == LimiterKey(bot, user)
  {}

  lemma {:induction false} RunHitsTheFleetStore<S>(policies: Policies, bot: string, initial: S, us: History<Update<S>>)
    ensures Run(policies(bot), Prefix(bot), initial, us).cells == StoreAfter(policies, HitsOf(bot, us))
  {
    if us.Nothing? {
    } else {
      RunHitsTheFleetStore(policies, bot, initial, us.past);
      if us.last.user.Some? { LimiterKeyHasPrefix(bot, us.last.user.value); }
    }
  }

  lemma PipelineStep<S>(policies: Policies, bot: string, v: Value<S>, us: History<Update<S>>)
    requires us.Then? && v.cells == StoreAfter(policies, HitsOf(bot, us.past))
    ensures var v' := Step(policies(bot), Prefix(bot), v, us.last);
            && v'.counters == Tick(policies, bot, v.counters, us)
            && v'.committed == if Handled(policies, bot, us) && us.last.handler == Done && us.last.commits
                               then us.last.effect(v.committed) else v.committed
  {
    if us.last.user.Some? { LimiterKeyHasPrefix(bot, us.last.user.value); }
  }

  // Every counter counts exactly its updates, a denied one as ok as well as throttled; together
  // ok, telegram_error and error miss only the cancelled ones; and the database holds exactly
  // the effects of the handled updates whose handler and commit both succeeded.
  lemma {:induction false} PipelineRun<S>(policies: Policies, bot: string, initial: S, us: History<Update<S>>)
    ensures var v := Run(policies(bot), Prefix(bot), initial, us);
            && v.counters == Expected(policies, bot, us)
            && v.counters.ok + v.counters.telegramError + v.counters.error + Cancellations(policies, bot, us)
               == Length(us)
            && v.counters.throttled <= v.counters.ok
            && v.committed == Committed(policies, bot, initial, us)
  {
    if us.Nothing? {
    } else {
      PipelineRun(policies, bot, initial, us.past);
      RunHitsTheFleetStore(policies, bot, initial, us.past);
      PipelineStep(policies, bot, Run(policies(bot), Prefix(bot), initial, us.past), us);
    }
  }

  predicate Ordered<S>(us: History<Update<S>>) {
    us.Then? && us.past.Then? ==> Ordered(us.past) && us.past.last.at <= us.last.at
  }

  // Updates of one user with from <= at < to that reached their handler.
  function HandledFor<S>(policies: Policies, bot: string, us: History<Update<S>>, user: int, from: int, to: int): nat {
    match us
    case Nothing => 0
    case Then(past, u) =>
      HandledFor(policies, bot, past, user, from, to) +
      if u.user == Some(user) && from <= u.at < to && Handled(policies, bot, us) then 1 else 0
  }

  lemma {:induction false} HandledAreAllowed<S>(
    policies: Policies, bot: string, us: History<Update<S>>, user: int, from: int, to: int)
    ensures HandledFor(policies, bot, us, user, from, to) ==
            AllowedFor(policies, HitsOf(bot, us), bot, user, from, to)
  {
    if us.Nothing? {
    } else {
      HandledAreAllowed(policies, bot, us.past, user, from, to);
    }
  }

  lemma {:induction false} HitsInOrder<S>(bot: string, us: History<Update<S>>)
    requires Ordered(us)
    ensures InOrder(HitsOf(bot, us))
    ensures HitsOf(bot, us).Then? ==> us.Then? && HitsOf(bot, us).last.at <= us.last.at
  {
    if us.Nothing? {
    } else {
      HitsInOrder(bot, us.past);
    }
  }

  // However many replicas process a bot's updates, no user gets more than
  // (m + 1) * limit - 1 of those that name the user handled within m windows.
  lemma HandlersAreThrottled<S>(
    policies: Policies, bot: string, us: History<Update<S>>, user: int, from: int, m: nat)
    requires policies(bot).Valid() && Ordered(us) && m >= 1
    ensures HandledFor(policies, bot, us, user, from, from + m * policies(bot).window) <=
            (m + 1) * policies(bot).limit - 1
  {
    HandledAreAllowed(policies, bot, us, user, from, from + m * policies(bot).window);
    HitsInOrder(bot, us);
    FleetSlidingBound(policies, HitsOf(bot, us), bot, user, from, m);
  }
  predicate NoneIdentified<S>(us: History<Update<S>>) {
    us.Then? ==> NoneIdentified(us.past) && us.last.user.None?
  }

  // What the handlers would commit without any limiter.
  function Unthrottled<S>(initial: S, us: History<Update<S>>): S {
    match us
    case Nothing => initial
    case Then(past, u) =>
      var before := Unthrottled(initial, past);
      if u.handler == Done && u.commits then u.effect(before) else before
  }

  // Events without a from_user are never throttled, whatever the policy.  bootstrap.py registers
  // the middleware for the event of aiogram's dispatcher.update, the Update itself, which has no
  // such attribute: as wired there, the limiter is never asked.
  lemma {:induction false} UnidentifiedUpdatesPass<S>(
    policies: Policies, bot: string, initial: S, us: History<Update<S>>)
    requires NoneIdentified(us)
    ensures var v := Run(policies(bot), Prefix(bot), initial, us);
            v.cells == map[] && v.counters.throttled == 0 && v.committed == Unthrottled(initial, us)
  {
    if us.Nothing? {
    } else {
      UnidentifiedUpdatesPass(policies, bot, initial, us.past);
    }
  }
}
