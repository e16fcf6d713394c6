/**
 * When the dispatcher, ticking every 60 seconds (src/worker/tasks.py), fires a task:
 * _current_minute, the exact time comparison of list_due and the rules of _task_should_fire over
 * whole days, weeks and months.
 */
module Schedule {
  import opened Arithmetic
  import opened Wrappers

  import opened Calendar
  import opened Dispatcher

  // _current_minute, t seconds after midnight UTC of day 0.
  function CurrentMinute(t: int): TimeOfDay { TimeOfDay((t / 3600) % 24, (t / 60) % 60, 0, 0) }

  // Tick i of a beat started at second s, delivered delay(i) seconds late.
  function TickTime(s: nat, delay: nat -> nat, i: nat): nat { s + 60 * i + delay(i) }

  // Consecutive ticks fall into consecutive minutes exactly when no delay carries a tick over a
  // minute boundary.
  lemma MinutesConsecutiveExactlyWhen(s: nat, delay: nat -> nat)
    ensures (forall i: nat :: TickTime(s, delay, i) / 60 == s / 60 + i)
            <==> (forall i: nat :: s % 60 + delay(i) < 60)
  {
    if forall i: nat :: TickTime(s, delay, i) / 60 == s / 60 + i {
      forall i: nat ensures s % 60 + delay(i) < 60 {
        assert TickTime(s, delay, i) / 60 == s / 60 + i;
      }
    }
    if forall i: nat :: s % 60 + delay(i) < 60 {
      forall i: nat ensures TickTime(s, delay, i) / 60 == s / 60 + i {
        assert s % 60 + delay(i) < 60;
        assert TickTime(s, delay, i) == 60 * (s / 60 + i) + (s % 60 + delay(i));
      }
    }
  }

  predicate IsTime(t: TimeOfDay) {
    0 <= t.hour < 24 && 0 <= t.minute < 60 && 0 <= t.second < 60 && 0 <= t.microsecond < 1000000
  }

  predicate IsWholeMinute(t: TimeOfDay) { t.second == 0 && t.microsecond == 0 }

  function MinuteOfDay(t: TimeOfDay): int { 60 * t.hour + t.minute }

  lemma HourAndMinute(t: int)
    ensures (t / 3600) % 24 == ((t / 60) % 1440) / 60 && (t / 60) % 60 == ((t / 60) % 1440) % 60
  {
    var q := t / 60;
    var h := q / 60;
    DivisionIsUnique(t, 3600, h, 60 * (q % 60) + t % 60);
    DivisionIsUnique(q, 1440, h / 24, 60 * (h % 24) + q % 60);
    DivisionIsUnique(q % 1440, 60, h % 24, q % 60);
  }

  lemma MatchesOneMinuteOfTheDay(t: int, time: TimeOfDay)
    requires IsTime(time)
    ensures CurrentMinute(t) == time <==> IsWholeMinute(time) && (t / 60) % 1440 == MinuteOfDay(time)
  {
    HourAndMinute(t);
    DivisionIsUnique(MinuteOfDay(time), 60, time.hour, time.minute);
    var minute := (t / 60) % 1440;
    assert minute == 60 * (minute / 60) + minute % 60;
  }

  type Rule = CalendarDate -> bool

  function RuleOf(task: Task): Rule { (day: CalendarDate) => ShouldFire(task, day) == Some(true) }

  // Does the run at second t, counted from midnight of day d0, notify the task?
  predicate FiresAt(task: Task, d0: CalendarDate, t: nat) {
    Due(task, CurrentMinute(t)) && RuleOf(task)(Later(d0, t / 86400))
  }

  // Ticks i < n that notify the task.
  function Firings(task: Task, d0: CalendarDate, s: nat, delay: nat -> nat, n: nat): nat {
    if n == 0 then 0
    else Firings(task, d0, s, delay, n - 1) + if FiresAt(task, d0, TickTime(s, delay, n - 1)) then 1 else 0
  }

  // Days j < k, counted from d, that a rule picks.
  function CountDays(rule: Rule, d: CalendarDate, k: nat): nat {
    if k == 0 then 0 else CountDays(rule, d, k - 1) + if rule(Later(d, k - 1)) then 1 else 0
  }

  function FireDays(task: Task, d: CalendarDate, k: nat): nat { CountDays(RuleOf(task), d, k) }

  // Does a run in minute q, counted from midnight of day d0, notify the task?
  predicate FiresInMinute(task: Task, d0: CalendarDate, q: nat) {
    IsWholeMinute(task.time) && q % 1440 == MinuteOfDay(task.time) && RuleOf(task)(Later(d0, q / 1440))
  }

  // Minutes before minute q that notify the task.
  function MinuteFirings(task: Task, d0: CalendarDate, q: nat): nat {
    if q == 0 then 0 else MinuteFirings(task, d0, q - 1) + if FiresInMinute(task, d0, q - 1) then 1 else 0
  }

  lemma TickFires(task: Task, d0: CalendarDate, s: nat, delay: nat -> nat, i: nat)
    requires IsTime(task.time) && task.active && s % 60 + delay(i) < 60
    ensures FiresAt(task, d0, TickTime(s, delay, i)) <==> FiresInMinute(task, d0, s / 60 + i)
  {
    var t := TickTime(s, delay, i);
    assert t == 60 * (s / 60 + i) + (s % 60 + delay(i));
    assert t / 60 == s / 60 + i;
    assert t / 86400 == (s / 60 + i) / 1440;
    MatchesOneMinuteOfTheDay(t, task.time);
  }

  lemma {:induction false} FiringsAreMinutes(task: Task, d0: CalendarDate, s: nat, delay: nat -> nat, n: nat)
    requires IsTime(task.time) && task.active
    requires forall i: nat :: s % 60 + delay(i) < 60
    ensures Firings(task, d0, s, delay, n) ==
            MinuteFirings(task, d0, s / 60 + n) - MinuteFirings(task, d0, s / 60)
  {
    if n == 0 {
    } else {
      FiringsAreMinutes(task, d0, s, delay, n - 1);
      TickFires(task, d0, s, delay, n - 1);
    }
  }

  lemma {:induction false} FiringsWithinDay(task: Task, d0: CalendarDate, j: nat, n: nat)
    requires IsTime(task.time) && n <= 1440
    ensures MinuteFirings(task, d0, 1440 * j + n) ==
            MinuteFirings(task, d0, 1440 * j) +
            if IsWholeMinute(task.time) && MinuteOfDay(task.time) < n && RuleOf(task)(Later(d0, j)) then 1 else 0
  {
    if n == 0 {
    } else {
      FiringsWithinDay(task, d0, j, n - 1);
      var q := 1440 * j + n - 1;
      assert q / 1440 == j && q % 1440 == n - 1;
    }
  }

  lemma {:induction false} FiringsOfWholeDays(task: Task, d0: CalendarDate, k: nat)
    requires IsTime(task.time)
    ensures MinuteFirings(task, d0, 1440 * k) == if IsWholeMinute(task.time) then FireDays(task, d0, k) else 0
  {
    if k == 0 {
    } else {
      FiringsOfWholeDays(task, d0, k - 1);
      FiringsWithinDay(task, d0, k - 1, 1440);
      assert 1440 * (k - 1) + 1440 == 1440 * k;
    }
  }

  lemma {:induction false} CountDaysAdd(rule: Rule, d: CalendarDate, a: nat, b: nat)
    ensures CountDays(rule, d, a + b) == CountDays(rule, d, a) + CountDays(rule, Later(d, a), b)
  {
    if b == 0 {
    } else {
      CountDaysAdd(rule, d, a, b - 1);
      LaterAdds(d, a, b - 1);
    }
  }

  // The day of the first minute from minute q on that is the task's.
  function FirstDay(task: Task, q: nat): nat { q / 1440 + if q % 1440 <= MinuteOfDay(task.time) then 0 else 1 }

  // The days of d0 whose minute of the task lies before minute b of day j.
  lemma MinutesUntil(task: Task, d0: CalendarDate, j: nat, b: nat)
    requires IsTime(task.time) && b < 1440
    ensures MinuteFirings(task, d0, 1440 * j + b) ==
            if !IsWholeMinute(task.time) then 0
            else FireDays(task, d0, j + if b <= MinuteOfDay(task.time) then 0 else 1)
  {
    FiringsWithinDay(task, d0, j, b);
    FiringsOfWholeDays(task, d0, j);
  }

  lemma MinutesOfWholeDays(task: Task, d0: CalendarDate, q: nat, k: nat)
    requires IsTime(task.time)
    ensures MinuteFirings(task, d0, q + 1440 * k) - MinuteFirings(task, d0, q) ==
            if IsWholeMinute(task.time) then FireDays(task, Later(d0, FirstDay(task, q)), k) else 0
  {
    var a, b := q / 1440, q % 1440;
    assert q == 1440 * a + b && q + 1440 * k == 1440 * (a + k) + b;
    MinutesUntil(task, d0, a, b);
    MinutesUntil(task, d0, a + k, b);
    CountDaysAdd(RuleOf(task), d0, FirstDay(task, q), k);
  }

  // While no tick is delayed over a minute boundary, the 1440 * k ticks of k days, at whatever
  // second s the beat was started, fire an active task exactly once on each of k consecutive days
  // its rule picks if its time is a whole minute, and never otherwise: list_due compares the full
  // time, not hour and minute as documented.
  lemma OneFiringPerDay(task: Task, d0: CalendarDate, s: nat, delay: nat -> nat, k: nat)
    requires IsTime(task.time) && task.active
    requires forall i: nat :: s % 60 + delay(i) < 60
    ensures Firings(task, d0, s, delay, 1440 * k) ==
            if IsWholeMinute(task.time) then FireDays(task, Later(d0, FirstDay(task, s / 60)), k) else 0
  {
    FiringsAreMinutes(task, d0, s, delay, 1440 * k);
    MinutesOfWholeDays(task, d0, s / 60, k);
  }

  // ---------------------------------------------------------------- which days the rules pick

  lemma {:induction false} EveryDay(rule: Rule, d: CalendarDate, k: nat)
    requires forall day: CalendarDate :: rule(day)
    ensures CountDays(rule, d, k) == k
  {
    if k == 0 {
    } else {
      EveryDay(rule, d, k - 1);
    }
  }

  lemma DailyFiresEveryDay(task: Task, d: CalendarDate, k: nat)
    requires task.kind == Daily
    ensures FireDays(task, d, k) == k
  {
    EveryDay(RuleOf(task), d, k);
  }

  lemma UnknownKindsNeverFire(task: Task, d: CalendarDate, k: nat)
    requires task.kind.UnknownKind?
    ensures FireDays(task, d, k) == 0
  {
    NoDay(RuleOf(task), d, k);
  }

  lemma {:induction false} NoDay(rule: Rule, d: CalendarDate, k: nat)
    requires forall day: CalendarDate :: !rule(day)
    ensures CountDays(rule, d, k) == 0
  {
    if k == 0 {
    } else {
      NoDay(rule, d, k - 1);
    }
  }

  lemma WeeklyRule(task: Task, d: CalendarDate, n: nat)
    requires task.kind == Weekly
    ensures RuleOf(task)(Later(d, n)) <==> task.dayOfWeek == Number((Ordinal(d) + 6 + n) % 7 + 1)
  {
    OrdinalOfLater(d, n);
  }

  lemma {:induction false} RuleCountsResidues(rule: Rule, d: CalendarDate, k: nat, q: int, r: int)
    requires forall n: nat :: n < k ==> (rule(Later(d, n)) <==> (q + n) % 7 == r)
    ensures CountDays(rule, d, k) == CountResidue(q, k, 7, r)
  {
    if k == 0 {
    } else {
      RuleCountsResidues(rule, d, k - 1, q, r);
    }
  }

  lemma WeeklyCountsResidues(task: Task, d: CalendarDate, k: nat)
    requires task.kind == Weekly && task.dayOfWeek.Number?
    ensures FireDays(task, d, k) == CountResidue(Ordinal(d) + 6, k, 7, task.dayOfWeek.n - 1)
  {
    forall n: nat | n < k
      ensures RuleOf(task)(Later(d, n)) <==> (Ordinal(d) + 6 + n) % 7 == task.dayOfWeek.n - 1
    {
      WeeklyRule(task, d, n);
    }
    RuleCountsResidues(RuleOf(task), d, k, Ordinal(d) + 6, task.dayOfWeek.n - 1);
  }

  // Day 1 is Monday: n days after Thursday, 1 January 1970, a weekly task fires exactly if its
  // day_of_week is (n + 3) % 7 + 1.
  lemma WeekdayNumbers(task: Task, n: nat)
    requires task.kind == Weekly
    ensures RuleOf(task)(Later(Date(1970, 1, 1), n)) <==> task.dayOfWeek == Number((n + 3) % 7 + 1)
  {
    EpochOrdinal();
    assert n + 3 == 7 * ((n + 3) / 7) + (n + 3) % 7;
    DivisionIsUnique(719163 + 6 + n, 7, 102738 + (n + 3) / 7, (n + 3) % 7);
    WeeklyRule(task, Date(1970, 1, 1), n);
  }

  // A weekly task with a day_of_week from 1 to 7 fires on exactly one of any 7 consecutive days;
  // with any other number, none at all or unreadable data it fires on none.
  lemma WeeklyFiresOncePerWeek(task: Task, d: CalendarDate, weeks: nat)
    requires task.kind == Weekly
    ensures FireDays(task, d, weeks * 7) == if task.dayOfWeek.Number? && 1 <= task.dayOfWeek.n <= 7 then weeks else 0
  {
    if task.dayOfWeek.Number? {
      WeeklyCountsResidues(task, d, weeks * 7);
      if 1 <= task.dayOfWeek.n <= 7 {
        EachResidueOncePerPeriod(Ordinal(d) + 6, weeks, 7, task.dayOfWeek.n - 1);
      } else {
        OtherResiduesNever(Ordinal(d) + 6, weeks * 7, 7, task.dayOfWeek.n - 1);
      }
    } else {
      NoDay(RuleOf(task), d, weeks * 7);
    }
  }

  lemma {:induction false} OneDayOfTheMonth(rule: Rule, n: int, year: int, month: int, k: nat)
    requires forall day: CalendarDate :: rule(day) <==> day.day == n
    requires year >= 1 && 1 <= month <= 12 && k <= DaysIn(year, month)
    ensures CountDays(rule, Date(year, month, 1), k) == if 1 <= n <= k then 1 else 0
  {
    if k == 0 {
    } else {
      OneDayOfTheMonth(rule, n, year, month, k - 1);
      WithinMonth(year, month, k - 1);
    }
  }

  // The days of n whole months, and how many of those months have at least `day` days.
  function DaysInMonths(year: int, month: int, n: nat): nat
    requires 1 <= month <= 12
    decreases n
  {
    if n == 0 then 0 else var (y, m) := NextMonth(year, month); DaysIn(year, month) + DaysInMonths(y, m, n - 1)
  }

  function MonthsReaching(day: int, year: int, month: int, n: nat): nat
    requires 1 <= month <= 12
    decreases n
  {
    if n == 0 then 0
    else
      var (y, m) := NextMonth(year, month);
      (if 1 <= day <= DaysIn(year, month) then 1 else 0) + MonthsReaching(day, y, m, n - 1)
  }

  lemma MonthThenRest(rule: Rule, n: int, year: int, month: int, rest: nat)
    requires forall day: CalendarDate :: rule(day) <==> day.day == n
    requires year >= 1 && 1 <= month <= 12
    ensures var (y, m) := NextMonth(year, month);
            CountDays(rule, Date(year, month, 1), DaysIn(year, month) + rest) ==
            (if 1 <= n <= DaysIn(year, month) then 1 else 0) + CountDays(rule, Date(y, m, 1), rest)
  {
    OneDayOfTheMonth(rule, n, year, month, DaysIn(year, month));
    MonthEnds(year, month);
    CountDaysAdd(rule, Date(year, month, 1), DaysIn(year, month), rest);
  }

  lemma {:induction false} MonthlyFires(task: Task, year: int, month: int, n: nat)
    requires task.kind == Monthly && task.dayOfMonth.Number? && year >= 1 && 1 <= month <= 12
    ensures FireDays(task, Date(year, month, 1), DaysInMonths(year, month, n)) ==
            MonthsReaching(task.dayOfMonth.n, year, month, n)
    decreases n
  {
    if n == 0 {
    } else {
      var (y, m) := NextMonth(year, month);
      MonthlyFires(task, y, m, n - 1);
      MonthThenRest(RuleOf(task), task.dayOfMonth.n, year, month, DaysInMonths(y, m, n - 1));
    }
  }

  // Over whole months a monthly task fires once in every month that has its day_of_month, and
  // never without a number there.
  lemma {:induction false} MonthlyFiresOncePerLongMonth(task: Task, year: int, month: int, n: nat)
    requires task.kind == Monthly && year >= 1 && 1 <= month <= 12
    ensures FireDays(task, Date(year, month, 1), DaysInMonths(year, month, n)) ==
            if task.dayOfMonth.Number? then MonthsReaching(task.dayOfMonth.n, year, month, n) else 0
  {
    if task.dayOfMonth.Number? {
      MonthlyFires(task, year, month, n);
    } else {
      NoDay(RuleOf(task), Date(year, month, 1), DaysInMonths(year, month, n));
    }
  }

  lemma {:induction false} YearsOnlyGrow(d: CalendarDate, a: nat, b: nat)
    requires a <= b
    ensures Later(d, a).year <= Later(d, b).year
  {
    if a == b {
    } else {
      YearsOnlyGrow(d, a, b - 1);
    }
  }

  lemma DistinctDaysRenderApart(d: CalendarDate, j: nat, k: nat)
    requires j < k && Later(d, k).year <= 9999
    ensures IsoFormat(Later(d, j)) != IsoFormat(Later(d, k))
  {
    YearsOnlyGrow(d, j, k);
    OrdinalOfLater(d, j);
    OrdinalOfLater(d, k);
    if IsoFormat(Later(d, j)) == IsoFormat(Later(d, k)) {
      IsoFormatIsInjective(Later(d, j), Later(d, k));
    }
  }

  // The rule picks the day j days after d.
  predicate Picks(rule: Rule, d: CalendarDate, j: nat) { rule(Later(d, j)) }

  lemma {:induction false} SomeDay(rule: Rule, d: CalendarDate, k: nat)
    ensures CountDays(rule, d, k) > 0 <==> exists j: nat :: j < k && Picks(rule, d, j)
  {
    if k == 0 {
    } else {
      SomeDay(rule, d, k - 1);
      if Picks(rule, d, k - 1) {
        assert CountDays(rule, d, k) > 0;
      } else {
        assert forall j: nat :: j < k && Picks(rule, d, j) ==> j < k - 1;
      }
    }
  }

  lemma {:induction false} AtMostOneDay(rule: Rule, d: CalendarDate, k: nat)
    requires forall i: nat, j: nat :: i < j < k ==> !(Picks(rule, d, i) && Picks(rule, d, j))
    ensures CountDays(rule, d, k) <= 1
  {
    if k == 0 {
    } else {
      AtMostOneDay(rule, d, k - 1);
      SomeDay(rule, d, k - 1);
      assert Picks(rule, d, k - 1) <==> rule(Later(d, k - 1));
    }
  }

  // The task's text names the day j days after d.
  predicate Names(task: Task, d: CalendarDate, j: nat) { task.date == Some(IsoFormat(Later(d, j))) }

  lemma OncePicksTheNamedDay(task: Task, d: CalendarDate, j: nat)
    requires task.kind == Once
    ensures Picks(RuleOf(task), d, j) <==> Names(task, d, j)
  {}

  lemma OnceNamesOneDay(task: Task, d: CalendarDate, i: nat, j: nat, k: nat)
    requires i < j < k && Later(d, k).year <= 9999
    ensures !(Names(task, d, i) && Names(task, d, j))
  {
    YearsOnlyGrow(d, j, k);
    DistinctDaysRenderApart(d, i, j);
  }

  // A one-time task fires on at most one day: on the day its text names, if the span has it.
  lemma OnceFiresAtMostOnce(task: Task, d: CalendarDate, k: nat)
    requires task.kind == Once && Later(d, k).year <= 9999
    ensures FireDays(task, d, k) <= 1
    ensures FireDays(task, d, k) == 1 <==> exists j: nat :: j < k && Names(task, d, j)
  {
    var rule := RuleOf(task);
    forall j: nat ensures Picks(rule, d, j) <==> Names(task, d, j) {
      OncePicksTheNamedDay(task, d, j);
    }
    forall i: nat, j: nat | i < j < k ensures !(Picks(rule, d, i) && Picks(rule, d, j)) {
      OnceNamesOneDay(task, d, i, j, k);
    }
    AtMostOneDay(rule, d, k);
    SomeDay(rule, d, k);
  }
}
