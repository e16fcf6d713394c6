/**
 * All replicas of all bots hitting one shared Redis, as wired in bootstrap.py: each bot has its
 * own limiter and key prefix, and every hit is one atomic script on the shared store.
 */
module LimiterFleet {
  import opened Wrappers
  import opened RateLimiter
  import opened RedisKeys

  datatype Hit = Hit(bot: string, user: int, at: int, tie: bool)

  type Policies = string -> Policy

  function StoreAfter(policies: Policies, hits: History<Hit>): map<string, Cell> {
    match hits
    case Nothing => map[]
    case Then(past, h) =>
      var cells := StoreAfter(policies, past);
      var key := LimiterKey(h.bot, h.user);
      cells[key := Script(policies(h.bot).window, CellOf(cells, key), h.at, h.tie)]
  }

  // The hits of one user of one bot.
  function Project(hits: History<Hit>, bot: string, user: int): History<Touch> {
    match hits
    case Nothing => Nothing
    case Then(past, h) =>
      if h.bot == bot && h.user == user then Then(Project(past, bot, user), Touch(h.at, h.tie))
      else Project(past, bot, user)
  }

  predicate InOrder(hits: History<Hit>) {
    hits.Then? && hits.past.Then? ==> InOrder(hits.past) && hits.past.last.at <= hits.last.at
  }

  // However the hits interleave, each user of each bot sees a limiter of its own: its key holds
  // exactly what its own hits alone would have left there.
  lemma {:induction false} UsersAreIndependent(policies: Policies, hits: History<Hit>, bot: string, user: int)
    ensures CellOf(StoreAfter(policies, hits), LimiterKey(bot, user)) ==
            CellAfter(policies(bot).window, Project(hits, bot, user))
  {
    if hits.Nothing? {
    } else {
      UsersAreIndependent(policies, hits.past, bot, user);
      var h := hits.last;
      if LimiterKey(h.bot, h.user) == LimiterKey(bot, user) {
        LimiterKeyIsInjective(h.bot, h.user, bot, user);
      }
    }
  }

  // Nothing else is ever stored, and every stored counter dies within one window.
  lemma {:induction false} StoreHoldsOnlyLiveWindows(policies: Policies, hits: History<Hit>, key: string)
    requires forall bot :: policies(bot).Valid()
    requires InOrder(hits) && key in StoreAfter(policies, hits)
    ensures hits.Then?
    ensures exists bot, user :: key == LimiterKey(bot, user)
              && StoreAfter(policies, hits)[key].expiry.Some?
              && StoreAfter(policies, hits)[key].expiry.value <= hits.last.at + policies(bot).window
  {
    var bot, user := WhoseKey(policies, hits, key);
    UsersAreIndependent(policies, hits, bot, user);
    ProjectInOrder(hits, bot, user);
    var ts := Project(hits, bot, user);
    CellIsTheAnchor(policies(bot), ts);
    AnchorNotAfter(policies(bot), ts);
  }

  lemma {:induction false} WhoseKey(policies: Policies, hits: History<Hit>, key: string)
    returns (bot: string, user: int)
    requires key in StoreAfter(policies, hits)
    ensures key == LimiterKey(bot, user)
  {
    if LimiterKey(hits.last.bot, hits.last.user) == key {
      bot, user := hits.last.bot, hits.last.user;
    } else {
      bot, user := WhoseKey(policies, hits.past, key);
    }
  }

  lemma {:induction false} ProjectInOrder(hits: History<Hit>, bot: string, user: int)
    requires InOrder(hits)
    ensures Chronological(Project(hits, bot, user))
    ensures Project(hits, bot, user).Then? ==> hits.Then? && LastTime(Project(hits, bot, user)) <= hits.last.at
  {
    if hits.Nothing? {
    } else {
      ProjectInOrder(hits.past, bot, user);
    }
  }

  // The decision the last hit received from the shared store.
  predicate LastAllowed(policies: Policies, hits: History<Hit>)
    requires hits.Then?
  {
    var key := LimiterKey(hits.last.bot, hits.last.user);
    Decide(policies(hits.last.bot), StoreAfter(policies, hits)[key]).allowed
  }

  // Allowed hits of one user with from <= at < to, as decided by the shared store.
  function AllowedFor(policies: Policies, hits: History<Hit>, bot: string, user: int, from: int, to: int): nat {
    match hits
    case Nothing => 0
    case Then(past, h) =>
      AllowedFor(policies, past, bot, user, from, to) +
      if h.bot == bot && h.user == user && from <= h.at < to && LastAllowed(policies, hits) then 1 else 0
  }

  lemma {:induction false} AllowedForIsLocal(
    policies: Policies, hits: History<Hit>, bot: string, user: int, from: int, to: int)
    ensures AllowedFor(policies, hits, bot, user, from, to) ==
            AllowedIn(policies(bot), Project(hits, bot, user), from, to)
  {
    if hits.Nothing? {
    } else {
      AllowedForIsLocal(policies, hits.past, bot, user, from, to);
      UsersAreIndependent(policies, hits, bot, user);
    }
  }

  // The limit is per user of a bot whatever the number of replicas: no interval of m windows
  // admits more than (m + 1) * limit - 1 updates of one user.
  lemma FleetSlidingBound(policies: Policies, hits: History<Hit>, bot: string, user: int, from: int, m: nat)
    requires policies(bot).Valid() && InOrder(hits) && m >= 1
    ensures AllowedFor(policies, hits, bot, user, from, from + m * policies(bot).window) <=
            (m + 1) * policies(bot).limit - 1
  {
    AllowedForIsLocal(policies, hits, bot, user, from, from + m * policies(bot).window);
    ProjectInOrder(hits, bot, user);
    SlidingBound(policies(bot), Project(hits, bot, user), from, m);
  }
}
