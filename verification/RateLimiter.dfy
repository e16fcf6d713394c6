/**
 * The fixed-window limiter of src/helpers_core/cache/throttler.py on a shared Redis.
 *
 * Time is in milliseconds.  A key outlives its expiry instant never and dies before it never;
 * at the instant itself either may happen, and each operation says which (`tie`).  Nothing is
 * evicted.  Any replica may run the script; it is one atomic step.
 */
module RateLimiter {
  import opened Arithmetic
  import opened Wrappers

  datatype Cell = Cell(count: int, expiry: Option<int>)

  datatype Policy = Policy(limit: int, window: int) {
    predicate Valid() { limit > 0 && window > 0 }
  }

  datatype Decision = Decision(allowed: bool, current: int, limit: int)

  // Has the key lapsed when it is touched at this time?
  predicate Lapsed(expiry: int, at: int, tie: bool) { at > expiry || (at == expiry && tie) }

  function LiveCell(cell: Option<Cell>, at: int, tie: bool): Option<Cell> {
    match cell
    case Some(Cell(_, Some(expiry))) => if Lapsed(expiry, at, tie) then None else cell
    case _ => cell
  }

  // The Lua script on its own key: INCR, and PEXPIRE when the counter has just become 1.
  function Script(window: int, cell: Option<Cell>, at: int, tie: bool): Cell {
    match LiveCell(cell, at, tie)
    case None => Cell(1, Some(at + window))
    case Some(live) => if live.count + 1 == 1 then Cell(1, Some(at + window)) else live.(count := live.count + 1)
  }

  function Decide(p: Policy, cell: Cell): Decision { Decision(cell.count <= p.limit, cell.count, p.limit) }

  function CellOf(cells: map<string, Cell>, key: string): Option<Cell> {
    if key in cells then Some(cells[key]) else None
  }

  class Redis {
    var cells: map<string, Cell>

    constructor ()
      ensures cells == map[]
    {
      cells := map[];
    }

    method Incr(key: string, at: int, tie: bool) returns (current: int)
      modifies this
      ensures var live := LiveCell(CellOf(old(cells), key), at, tie);
              && current == (if live.Some? then live.value.count else 0) + 1
              && cells == old(cells)[key := Cell(current, if live.Some? then live.value.expiry else None)]
    {
      var expiry := None;
      current := 0;
      if key in cells {
        var cell := cells[key];
        if !(cell.expiry.Some? && Lapsed(cell.expiry.value, at, tie)) {
          current, expiry := cell.count, cell.expiry;
        }
      }
      current := current + 1;
      cells := cells[key := Cell(current, expiry)];
    }

    method PExpire(key: string, milliseconds: int, at: int)
      modifies this
      ensures cells == if key in old(cells)
                       then old(cells)[key := old(cells)[key].(expiry := Some(at + milliseconds))]
                       else old(cells)
    {
      if key in cells {
        cells := cells[key := cells[key].(expiry := Some(at + milliseconds))];
      }
    }
  }

  class RedisRateLimiter {
    const redis: Redis
    const policy: Policy
    const prefix: string

    constructor (redis: Redis, policy: Policy, prefix: string)
      ensures this.redis == redis && this.policy == policy && this.prefix == prefix
    {
      this.redis, this.policy, this.prefix := redis, policy, prefix;
    }

    // The source's __init__, which rejects non-positive parameters with ValueError.
    static method Create(redis: Redis, limit: int, windowSeconds: int, prefix: string)
      returns (r: Result<RedisRateLimiter, string>)
      ensures r.Success? <==> limit > 0 && windowSeconds > 0
      ensures r.Success? ==>
                fresh(r.value) && r.value.redis == redis && r.value.prefix == prefix
                && r.value.policy == Policy(limit, windowSeconds * 1000) && r.value.policy.Valid()
      ensures limit <= 0 ==> r == Failure("limit must be positive")
      ensures limit > 0 && windowSeconds <= 0 ==> r == Failure("window_seconds must be positive")
    {
      if limit <= 0 {
        return Failure("limit must be positive");
      }
      if windowSeconds <= 0 {
        return Failure("window_seconds must be positive");
      }
      var limiter := new RedisRateLimiter(redis, Policy(limit, windowSeconds * 1000), prefix);
      return Success(limiter);
    }

    method Hit(key: string, at: int, tie: bool) returns (d: Decision)
      modifies redis
      ensures var cell := Script(policy.window, CellOf(old(redis.cells), prefix + key), at, tie);
              redis.cells == old(redis.cells)[prefix + key := cell] && d == Decide(policy, cell)
    {
      var current := redis.Incr(prefix + key, at, tie);
      if current == 1 {
        redis.PExpire(prefix + key, policy.window, at);
      }
      d := Decision(current <= policy.limit, current, policy.limit);
    }
  }

  // ---------------------------------------------------------------- one key over a whole run

  datatype Touch = Touch(at: int, tie: bool)

  function CellAfter(window: int, ts: History<Touch>): Option<Cell> {
    match ts
    case Nothing => None
    case Then(past, t) => Some(Script(window, CellAfter(window, past), t.at, t.tie))
  }

  predicate Allowed(p: Policy, ts: History<Touch>)
    requires ts.Then?
  {
    Decide(p, CellAfter(p.window, ts).value).allowed
  }

  function LastTime(ts: History<Touch>): int
    requires ts.Then?
  {
    ts.last.at
  }

  predicate Chronological(ts: History<Touch>) {
    ts.Then? && ts.past.Then? ==> Chronological(ts.past) && LastTime(ts.past) <= ts.last.at
  }

  // Reference: when the window opened that the last hit falls in, and the hit's rank there.  A hit
  // opens a window when it is the first, or comes after its predecessor's window has lapsed.
  datatype Anchor = Anchor(since: int, rank: nat)

  function AnchorOf(window: int, ts: History<Touch>): Anchor
    requires ts.Then?
  {
    if ts.past.Nothing? then Anchor(ts.last.at, 1)
    else
      var a := AnchorOf(window, ts.past);
      var ends := a.since + window;
      if ts.last.at > ends || (ts.last.at == ends && ts.last.tie) then Anchor(ts.last.at, 1)
      else Anchor(a.since, a.rank + 1)
  }

  // The stored counter and expiry are those of the window the last hit falls in, so exactly the
  // first `limit` hits of each window are allowed, and a denied hit never moves the expiry.
  lemma {:induction false} CellIsTheAnchor(p: Policy, ts: History<Touch>)
    requires ts.Then?
    ensures var a := AnchorOf(p.window, ts);
            && a.rank >= 1
            && CellAfter(p.window, ts) == Some(Cell(a.rank, Some(a.since + p.window)))
            && (Allowed(p, ts) <==> a.rank <= p.limit)
  {
    if ts.past.Nothing? {
    } else {
      CellIsTheAnchor(p, ts.past);
    }
  }

  // What the caller is told: whether the hit's rank is within the limit, the rank, and the limit.
  lemma DecisionIsTheRank(p: Policy, ts: History<Touch>)
    requires ts.Then?
    ensures var a := AnchorOf(p.window, ts);
            Decide(p, CellAfter(p.window, ts).value) == Decision(a.rank <= p.limit, a.rank, p.limit)
  {
    CellIsTheAnchor(p, ts);
  }

  // The expiry never lies more than one window ahead, and the next hit after it is allowed
  // however many were denied before.
  lemma {:induction false} ExpiryWithinWindow(p: Policy, ts: History<Touch>, t: Touch)
    requires p.Valid() && ts.Then? && Chronological(ts)
    ensures var expiry := CellAfter(p.window, ts).value.expiry;
            && expiry.Some?
            && expiry.value <= LastTime(ts) + p.window
            && (Lapsed(expiry.value, t.at, t.tie) ==> Allowed(p, Then(ts, t)))
  {
    CellIsTheAnchor(p, ts);
    AnchorNotAfter(p, ts);
  }

  lemma {:induction false} AnchorNotAfter(p: Policy, ts: History<Touch>)
    requires ts.Then? && Chronological(ts)
    ensures AnchorOf(p.window, ts).since <= LastTime(ts)
  {
    if ts.past.Nothing? {
    } else {
      AnchorNotAfter(p, ts.past);
    }
  }

  // ---------------------------------------------------------------- sliding bound

  // Allowed hits with from <= at < to.
  function AllowedIn(p: Policy, ts: History<Touch>, from: int, to: int): nat {
    match ts
    case Nothing => 0
    case Then(past, t) =>
      AllowedIn(p, past, from, to) + if from <= t.at < to && Allowed(p, ts) then 1 else 0
  }

  function Min(a: int, b: int): int { if a <= b then a else b }

  // Windows since inside [from, to) so far.
  function WindowsIn(p: Policy, ts: History<Touch>, from: int, to: int): nat {
    match ts
    case Nothing => 0
    case Then(past, t) =>
      WindowsIn(p, past, from, to) + if from <= t.at < to && AnchorOf(p.window, ts).rank == 1 then 1 else 0
  }

  // Windows open at least one window length apart; the window that was open when the interval
  // begins has spent one of its hits before it.
  lemma {:induction false} SlidingInvariant(p: Policy, ts: History<Touch>, from: int, to: int)
    requires p.Valid() && Chronological(ts) && ts.Then? && LastTime(ts) < to
    ensures var a := AnchorOf(p.window, ts);
            var k := WindowsIn(p, ts, from, to);
            var n := AllowedIn(p, ts, from, to);
            && a.since <= LastTime(ts)
            && (LastTime(ts) < from ==> k == 0 && n == 0)
            && (a.since < from ==> k == 0 && n <= Min(a.rank, p.limit) - 1)
            && (a.since >= from ==>
                  && k >= 1 && from + Times(p.window, k - 1) <= a.since
                  && n <= p.limit - 1 + Times(p.limit, k - 1) + Min(a.rank, p.limit))
  {
    CellIsTheAnchor(p, ts);
    if ts.past.Nothing? {
    } else {
      SlidingInvariant(p, ts.past, from, to);
    }
  }

  lemma {:induction false} AllowedBefore(p: Policy, ts: History<Touch>, from: int, to: int)
    requires Chronological(ts)
    ensures exists us :: Chronological(us) && (us.Then? ==> LastTime(us) < to)
                         && AllowedIn(p, us, from, to) == AllowedIn(p, ts, from, to)
  {
    if ts.Then? && LastTime(ts) >= to {
      AllowedBefore(p, ts.past, from, to);
    }
  }

  lemma FewWindows(p: Policy, k: nat, m: nat)
    requires p.Valid() && k >= 1 && Times(p.window, k - 1) < Times(p.window, m)
    ensures k <= m && Times(p.limit, k) <= Times(p.limit, m)
  {
    if m <= k - 1 { TimesIsMonotone(p.window, m, k - 1); }
    TimesIsMonotone(p.limit, k, m);
  }

  lemma SlidingBoundByWindows(p: Policy, ts: History<Touch>, from: int, m: nat)
    requires p.Valid() && Chronological(ts) && m >= 1
    ensures AllowedIn(p, ts, from, from + Times(p.window, m)) <= Times(p.limit, m + 1) - 1
  {
    var to := from + Times(p.window, m);
    AllowedBefore(p, ts, from, to);
    var us :| Chronological(us) && (us.Then? ==> LastTime(us) < to)
              && AllowedIn(p, us, from, to) == AllowedIn(p, ts, from, to);
    TimesIsMonotone(p.limit, 0, m);
    if us.Then? {
      SlidingInvariant(p, us, from, to);
      if AnchorOf(p.window, us).since >= from {
        FewWindows(p, WindowsIn(p, us, from, to), m);
      }
    }
  }

  // Whatever the hits and whichever replicas make them, no half-open interval of m windows
  // contains more than (m + 1) * limit - 1 allowed hits.
  lemma SlidingBound(p: Policy, ts: History<Touch>, from: int, m: nat)
    requires p.Valid() && Chronological(ts) && m >= 1
    ensures AllowedIn(p, ts, from, from + m * p.window) <= (m + 1) * p.limit - 1
  {
    SlidingBoundByWindows(p, ts, from, m);
    assert Times(p.window, m) == m * p.window by { TimesIsProduct(p.window, m); }
    assert Times(p.limit, m + 1) == (m + 1) * p.limit by { TimesIsProduct(p.limit, m + 1); }
  }

  // ---------------------------------------------------------------- the sliding bound is attained

  predicate NoTies(ts: History<Touch>) { ts.Then? ==> NoTies(ts.past) && !ts.last.tie }

  function Flood(ts: History<Touch>, at: int, n: nat): History<Touch> {
    if n == 0 then ts else Then(Flood(ts, at, n - 1), Touch(at, false))
  }

  // The first instant at which a window can follow another: its expiry, if ties lapse.
  function Period(p: Policy, tie: bool): int { p.window + if tie then 0 else 1 }

  // One hit, the rest of its window's allowance just before the window lapses, and then a full
  // allowance as soon as each of the next k windows can open.
  function Drift(p: Policy, tie: bool, k: nat): History<Touch>
    requires p.Valid()
  {
    if k == 0
    then Flood(Then(Nothing, Touch(0, false)), p.window - 1, p.limit - 1)
    else
      var at := Times(Period(p, tie), k);
      Flood(Then(Drift(p, tie, k - 1), Touch(at, tie)), at, p.limit - 1)
  }

  // A flood fills the rest of the window that is open.
  lemma {:induction false} FloodFills(p: Policy, ts: History<Touch>, at: int, n: nat, from: int, to: int)
    requires p.Valid() && ts.Then? && Chronological(ts) && LastTime(ts) <= at && from <= at < to
    requires var a := AnchorOf(p.window, ts); at < a.since + p.window && a.rank + n <= p.limit
    ensures var ts' := Flood(ts, at, n);
            var a := AnchorOf(p.window, ts);
            && ts'.Then? && Chronological(ts') && LastTime(ts') <= at && (NoTies(ts) ==> NoTies(ts'))
            && AnchorOf(p.window, ts') == Anchor(a.since, a.rank + n)
            && AllowedIn(p, ts', from, to) == AllowedIn(p, ts, from, to) + n
  {
    if n == 0 {
    } else {
      FloodFills(p, ts, at, n - 1, from, to);
      CellIsTheAnchor(p, Flood(ts, at, n));
    }
  }

  lemma {:induction false} DriftFills(p: Policy, tie: bool, k: nat, to: int)
    requires p.Valid() && p.window > 1 && p.window - 1 < to && Times(Period(p, tie), k) < to
    ensures var ts := Drift(p, tie, k);
            && ts.Then? && Chronological(ts) && (tie || NoTies(ts))
            && AnchorOf(p.window, ts) == Anchor(Times(Period(p, tie), k), p.limit)
            && LastTime(ts) <= Times(Period(p, tie), k) + p.window - 1
            && AllowedIn(p, ts, p.window - 1, to) == p.limit - 1 + Times(p.limit, k)
  {
    if k == 0 {
      var first := Then(Nothing, Touch(0, false));
      assert AnchorOf(p.window, first) == Anchor(0, 1);
      FloodFills(p, first, p.window - 1, p.limit - 1, p.window - 1, to);
    } else {
      DriftFills(p, tie, k - 1, to);
      var at := Times(Period(p, tie), k);
      var next := Then(Drift(p, tie, k - 1), Touch(at, tie));
      CellIsTheAnchor(p, next);
      FloodFills(p, next, at, p.limit - 1, p.window - 1, to);
    }
  }

  lemma DriftFits(p: Policy, tie: bool, m: nat)
    requires p.window > 1 && m >= 1 && (tie || m < p.window - 1)
    ensures 0 <= m * p.window && Times(Period(p, tie), m) < p.window - 1 + m * p.window
  {
    assert m * p.window >= 0;
    TimesIsProduct(Period(p, tie), m);
    if tie {
      assert p.window * m == m * p.window;
    } else {
      assert (p.window + 1) * m == m * p.window + m;
    }
  }

  // For every number m of windows some hits attain the bound; without a hit at an expiry instant
  // they still do as long as m is below the window length in milliseconds.  A window of one
  // millisecond, which whole seconds exclude, leaves no room before its expiry.
  lemma SlidingBoundIsAttained(p: Policy, tie: bool, m: nat)
    requires p.Valid() && p.window > 1 && m >= 1 && (tie || m < p.window - 1)
    ensures exists ts :: Chronological(ts) && (tie || NoTies(ts))
              && AllowedIn(p, ts, p.window - 1, p.window - 1 + m * p.window) == (m + 1) * p.limit - 1
  {
    var from := p.window - 1;
    var to := from + m * p.window;
    DriftFits(p, tie, m);
    DriftFills(p, tie, m, to);
    assert p.limit - 1 + Times(p.limit, m) == (m + 1) * p.limit - 1 by {
      TimesIsProduct(p.limit, m);
      assert (m + 1) * p.limit == p.limit * m + p.limit;
    }
  }

  // At most `limit` allowed hits in the interval of one window length that begins here.
  predicate SlidesAt(p: Policy, ts: History<Touch>, from: int) {
    AllowedIn(p, ts, from, from + p.window) <= p.limit
  }

  // The limiter is the sliding window its documentation calls it, in every interval of one
  // window length, exactly when the limit is 1.
  lemma SlidingWindowExactlyWhen(p: Policy)
    requires p.Valid() && p.window > 1
    ensures (forall ts, from :: Chronological(ts) ==> SlidesAt(p, ts, from)) <==> p.limit == 1
  {
    if p.limit == 1 {
      forall ts, from | Chronological(ts) ensures SlidesAt(p, ts, from) {
        SlidingBound(p, ts, from, 1);
      }
    } else {
      SlidingBoundIsAttained(p, true, 1);
      var from := p.window - 1;
      var ts :| Chronological(ts) && AllowedIn(p, ts, from, from + 1 * p.window) == (1 + 1) * p.limit - 1;
      assert !SlidesAt(p, ts, from);
    }
  }
}
