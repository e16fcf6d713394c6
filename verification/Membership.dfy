/**
 * The cached membership check of src/helpers_core/telegram/subs_check.py.
 *
 * The class is one isolated call.  The machine below it interleaves any number of calls for one
 * chat and user: each of the three awaits (the cache read, the lookup, the cache write) is a
 * separate step.  Times are in milliseconds; at the instant a key expires it may be seen or not.
 */
module Membership {
  import opened Wrappers
  import opened RateLimiter
  import opened RedisKeys

  predicate IsMember(status: string) {
    status in {"creator", "administrator", "member", "restricted"} && status !in {"left", "kicked"}
  }

  datatype Entry = Entry(value: string, expiry: int)

  function EntryFor(subscribed: bool, at: int, ttl: int): Entry {
    Entry(if subscribed then "1" else "0", at + ttl)
  }

  // What a read of the key returns.
  function Read(entry: Option<Entry>, at: int, tie: bool): Option<string> {
    if entry.Some? && !Lapsed(entry.value.expiry, at, tie) then Some(entry.value.value) else None
  }

  class SubscriptionChecker {
    // The entries of the shared Redis under this checker's keys.
    var cache: map<string, Entry>
    const ttl: int

    constructor (ttl: int)
      ensures cache == map[] && this.ttl == ttl
    {
      cache, this.ttl := map[], ttl;
    }

    ghost function EntryOf(chat: string, user: int): Option<Entry>
      reads this
    {
      var key := MembershipKey(chat, user);
      if key in cache then Some(cache[key]) else None
    }

    // One call, reading the cache at `start` and writing it at `end`; status is Telegram's
    // reply, None a TelegramAPIError.
    method IsSubscribed(chat: string, user: int, start: int, tie: bool, status: Option<string>, end: int)
      returns (subscribed: bool)
      modifies this
      ensures var cached := Read(old(EntryOf(chat, user)), start, tie);
              && (cached.Some? ==> subscribed == (cached.value == "1") && cache == old(cache))
              && (cached.None? && status.None? ==> !subscribed && cache == old(cache))
              && (cached.None? && status.Some? ==>
                    && (subscribed <==> status.value in {"creator", "administrator", "member", "restricted"})
                    && EntryOf(chat, user) == Some(Entry(if subscribed then "1" else "0", end + ttl)))
      // No other chat or user is affected.
      ensures forall c: string, u: int :: (c, u) != (chat, user) ==> EntryOf(c, u) == old(EntryOf(c, u))
    {
      var key := MembershipKey(chat, user);
      if key in cache && !Lapsed(cache[key].expiry, start, tie) {
        return cache[key].value == "1";
      }
      match status {
        case None =>
          return false;
        case Some(s) =>
          subscribed := s in {"creator", "administrator", "member", "restricted"} && s !in {"left", "kicked"};
          cache := cache[key := EntryFor(subscribed, end, ttl)];
          forall c: string, u: int | (c, u) != (chat, user) ensures EntryOf(c, u) == old(EntryOf(c, u)) {
            if MembershipKey(c, u) == key { MembershipKeyIsInjective(c, u, chat, user); }
          }
      }
    }
  }

  // ---------------------------------------------------------------- overlapping checks

  // A check that missed the cache: waiting for Telegram since `issued`, or about to write what
  // Telegram saw.
  datatype Check = Asking(issued: int) | Writing(issued: int, subscribed: bool)

  datatype Answer = Answer(at: int, subscribed: bool, failed: bool)

  datatype State = State(now: int, entry: Option<Entry>, checks: map<nat, Check>, answers: History<Answer>)

  const EMPTY_CACHE := State(0, None, map[], Nothing)

  datatype Event =
    | Begin(id: nat, at: int, tie: bool)             // read the cache
    | Reply(id: nat, at: int, seenAt: int)           // Telegram's answer, true at seenAt
    | ApiError(id: nat, at: int)                     // TelegramAPIError
    | Write(id: nat, at: int)                        // store the answer and return it
    | Drop(id: nat, at: int)                         // cancelled, or any other exception

  // Telegram's own record of the user's status over time.
  type Truth = int -> string

  predicate Enabled(s: State, delay: int, e: Event) {
    && s.now <= e.at
    && match e
       case Begin(id, _, _) => id !in s.checks
       case Reply(id, at, seenAt) => id in s.checks && s.checks[id].Asking? && s.checks[id].issued <= seenAt <= at
       case ApiError(id, _) => id in s.checks && s.checks[id].Asking?
       case Write(id, at) => id in s.checks && s.checks[id].Writing? && at - s.checks[id].issued <= delay
       case Drop(id, _) => id in s.checks
  }

  function Step(truth: Truth, ttl: int, s: State, e: Event): State {
    match e
    case Begin(id, at, tie) =>
      var cached := Read(s.entry, at, tie);
      if cached.Some?
      then s.(now := at, answers := Then(s.answers, Answer(at, cached.value == "1", false)))
      else s.(now := at, checks := s.checks[id := Asking(at)])
    case Reply(id, at, seenAt) =>
      if id !in s.checks then s
      else s.(now := at, checks := s.checks[id := Writing(s.checks[id].issued, IsMember(truth(seenAt)))])
    case ApiError(id, at) =>
      s.(now := at, checks := s.checks - {id}, answers := Then(s.answers, Answer(at, false, true)))
    case Write(id, at) =>
      if id !in s.checks || !s.checks[id].Writing? then s
      else
        var subscribed := s.checks[id].subscribed;
        s.(now := at, entry := Some(EntryFor(subscribed, at, ttl)), checks := s.checks - {id},
           answers := Then(s.answers, Answer(at, subscribed, false)))
    case Drop(id, at) => s.(now := at, checks := s.checks - {id})
  }

  function Run(truth: Truth, ttl: int, es: History<Event>): State {
    match es
    case Nothing => EMPTY_CACHE
    case Then(past, e) => Step(truth, ttl, Run(truth, ttl, past), e)
  }

  // Runs in which at most `delay` passes between issuing a lookup and writing its answer.
  predicate Prompt(truth: Truth, ttl: int, delay: int, es: History<Event>) {
    es.Then? ==> Prompt(truth, ttl, delay, es.past) && Enabled(Run(truth, ttl, es.past), delay, es.last)
  }

  // At some instant of [from, to] Telegram's status was one of a subscriber, or was none.
  predicate HeldWithin(truth: Truth, subscribed: bool, from: int, to: int) {
    exists u :: from <= u <= to && (truth(u) in {"creator", "administrator", "member", "restricted"}) == subscribed
  }

  predicate AnswersFresh(truth: Truth, staleness: int, answers: History<Answer>) {
    answers.Then? ==>
      && AnswersFresh(truth, staleness, answers.past)
      && (var a := answers.last; a.failed || HeldWithin(truth, a.subscribed, a.at - staleness, a.at))
  }

  predicate EntryFresh(truth: Truth, ttl: int, delay: int, entry: Entry) {
    HeldWithin(truth, entry.value == "1", entry.expiry - ttl - delay, entry.expiry - ttl)
  }

  // Under any interleaving an answer that is no API error is true only if the user was creator,
  // administrator, member or restricted at some instant of the last ttl + delay, and false only
  // if the user was none of them then; so is whatever the cache holds.  An API error never
  // enters it.
  lemma {:induction false} StalenessIsBounded(truth: Truth, ttl: int, delay: int, es: History<Event>)
    requires ttl >= 0 && delay >= 0 && Prompt(truth, ttl, delay, es)
    ensures var s := Run(truth, ttl, es);
            && (s.entry.Some? ==> s.entry.value.expiry <= s.now + ttl && EntryFresh(truth, ttl, delay, s.entry.value))
            && (forall id :: id in s.checks && s.checks[id].Writing? ==>
                  HeldWithin(truth, s.checks[id].subscribed, s.checks[id].issued, s.now))
            && AnswersFresh(truth, ttl + delay, s.answers)
  {
    if es.Nothing? {
    } else {
      StalenessIsBounded(truth, ttl, delay, es.past);
      StepStaysFresh(truth, ttl, delay, Run(truth, ttl, es.past), es.last);
    }
  }

  predicate StateFresh(truth: Truth, ttl: int, delay: int, s: State) {
    && (s.entry.Some? ==> s.entry.value.expiry <= s.now + ttl && EntryFresh(truth, ttl, delay, s.entry.value))
    && (forall id :: id in s.checks && s.checks[id].Writing? ==>
          HeldWithin(truth, s.checks[id].subscribed, s.checks[id].issued, s.now))
  }

  lemma Widen(truth: Truth, subscribed: bool, from: int, to: int, from': int, to': int)
    requires HeldWithin(truth, subscribed, from, to) && from' <= from && to <= to'
    ensures HeldWithin(truth, subscribed, from', to')
  {
    var u :| from <= u <= to && (truth(u) in {"creator", "administrator", "member", "restricted"}) == subscribed;
    assert from' <= u <= to';
  }

  lemma StepStaysFresh(truth: Truth, ttl: int, delay: int, s: State, e: Event)
    requires ttl >= 0 && delay >= 0 && StateFresh(truth, ttl, delay, s) && Enabled(s, delay, e)
    requires AnswersFresh(truth, ttl + delay, s.answers)
    ensures var s' := Step(truth, ttl, s, e);
            StateFresh(truth, ttl, delay, s') && AnswersFresh(truth, ttl + delay, s'.answers)
  {
    var s' := Step(truth, ttl, s, e);
    forall id | id in s'.checks && s'.checks[id].Writing?
      ensures HeldWithin(truth, s'.checks[id].subscribed, s'.checks[id].issued, s'.now)
    {
      if e.Reply? && id == e.id {
        assert s.checks[id].issued <= e.seenAt <= e.at;
      } else {
        Widen(truth, s.checks[id].subscribed, s.checks[id].issued, s.now, s.checks[id].issued, s'.now);
      }
    }
    match e
    case Begin(_, at, tie) =>
      if Read(s.entry, at, tie).Some? {
        var expiry := s.entry.value.expiry;
        Widen(truth, s.entry.value.value == "1", expiry - ttl - delay, expiry - ttl, at - ttl - delay, at);
      }
    case Write(id, at) =>
      var check := s.checks[id];
      Widen(truth, check.subscribed, check.issued, s.now, at - delay, at);
      Widen(truth, check.subscribed, check.issued, s.now, at - ttl - delay, at);
    case _ =>
  }

  // The bound cannot be improved: a lookup answered at once and written `delay` later is still
  // returned ttl + delay after the user has left.
  lemma StalenessIsAttained(ttl: int, delay: int)
    requires ttl > 0 && delay >= 0
    ensures exists truth: Truth, es :: Prompt(truth, ttl, delay, es)
              && var answers := Run(truth, ttl, es).answers;
              && answers.Then? && !answers.last.failed
              && !HeldWithin(truth, answers.last.subscribed, answers.last.at - ttl - delay + 1, answers.last.at)
  {
    var truth: Truth := u => if u <= 0 then "member" else "left";
    var h1 := Then(Nothing, Begin(0, 0, false));
    var h2 := Then(h1, Reply(0, 0, 0));
    var h3 := Then(h2, Write(0, delay));
    var h4 := Then(h3, Begin(1, delay + ttl, false));
    assert Run(truth, ttl, h1) == State(0, None, map[0 := Asking(0)], Nothing);
    assert Run(truth, ttl, h2) == State(0, None, map[0 := Writing(0, true)], Nothing);
    var stored := Run(truth, ttl, h3);
    assert stored == State(delay, Some(Entry("1", delay + ttl)), map[], Then(Nothing, Answer(delay, true, false)));
    assert Run(truth, ttl, h4).answers.last == Answer(delay + ttl, true, false);
    assert Prompt(truth, ttl, delay, h1);
    assert Prompt(truth, ttl, delay, h2);
    assert Prompt(truth, ttl, delay, h3);
    assert Prompt(truth, ttl, delay, h4);
  }
}
