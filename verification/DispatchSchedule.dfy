/**
 * What the beat makes of the dispatcher: histories whose i-th run is tick i, and the messages
 * they send.  A run that Celery repeats because it failed is an extra run, so these histories
 * have none.
 */
module DispatchSchedule {
  import opened Wrappers

  import opened Calendar
  import opened Dispatcher
  import opened DispatchHistory
  import opened Schedule

  function Runs(h: History<Event>): nat {
    match h
    case Nothing => 0
    case Then(past, e) => Runs(past) + if e.Ran? then 1 else 0
  }

  // Run i reads the clock at tick i, and on the same day when the task has its turn.
  predicate OnSchedule(h: History<Event>, id: nat, d0: CalendarDate, s: nat, delay: nat -> nat) {
    h.Then? ==>
      && OnSchedule(h.past, id, d0, s, delay)
      && (h.last.Ran? ==>
            var t := TickTime(s, delay, Runs(h.past));
            h.last.run.now == CurrentMinute(t) && h.last.run.world(id).today == Later(d0, t / 86400))
  }

  // No run is cut short, and every message for the task goes through.
  predicate Undisturbed(initial: Rows, h: History<Event>, id: nat) {
    h.Then? ==>
      && Undisturbed(initial, h.past, id)
      && (h.last.Ran? ==> !CutShort(TableAfter(initial, h.past), h.last.run) && h.last.run.world(id).sends)
  }

  // A recurring task gets one message for every tick that fires it: a commit that fails takes
  // none back.
  lemma {:induction false} SendsAreFirings(
    initial: Rows, h: History<Event>, id: nat, d0: CalendarDate, s: nat, delay: nat -> nat)
    requires RowsOk(initial) && IsHistory(initial, h) && Undisturbed(initial, h, id)
    requires OnSchedule(h, id, d0, s, delay)
    requires id in initial && initial[id].kind != Once
    ensures Sends(h, id) == Firings(initial[id], d0, s, delay, Runs(h))
  {
    if h.Nothing? {
    } else {
      SendsAreFirings(initial, h.past, id, d0, s, delay);
      OriginInTheTable(initial, h.past, id);
      RecurringTasksNeverChange(initial, h.past, id);
      if h.last.Ran? {
        SentWhenItFires(TableAfter(initial, h.past), h.last.run, id, d0, TickTime(s, delay, Runs(h.past)));
      }
    }
  }

  // Over the runs of k days an active recurring task gets exactly one message on each of k
  // consecutive days its rule picks, if its time is a whole minute, and none otherwise.
  lemma OneMessagePerDay(
    initial: Rows, h: History<Event>, id: nat, d0: CalendarDate, s: nat, delay: nat -> nat, k: nat)
    requires RowsOk(initial) && IsHistory(initial, h) && Undisturbed(initial, h, id)
    requires OnSchedule(h, id, d0, s, delay) && Runs(h) == 1440 * k
    requires forall i: nat :: s % 60 + delay(i) < 60
    requires id in initial && initial[id].kind != Once && initial[id].active && IsTime(initial[id].time)
    ensures var task := initial[id];
            Sends(h, id) ==
            if IsWholeMinute(task.time) then FireDays(task, Later(d0, FirstDay(task, s / 60)), k) else 0
  {
    SendsAreFirings(initial, h, id, d0, s, delay);
    OneFiringPerDay(initial[id], d0, s, delay, k);
  }

  // A run that is not cut short sends a task exactly at a tick that fires it.
  lemma SentWhenItFires(rows: Rows, run: Run, id: nat, d0: CalendarDate, t: nat)
    requires id in rows && rows[id].id == id && Happens(rows, Ran(run)) && !CutShort(rows, run)
    requires run.now == CurrentMinute(t) && run.world(id).today == Later(d0, t / 86400) && run.world(id).sends
    ensures id in run.sent <==> FiresAt(rows[id], d0, t)
  {}

  lemma OnceWithoutRollbacks(initial: Rows, h: History<Event>, id: nat)
    requires RowsOk(initial) && IsHistory(initial, h) && Rollbacks(initial, h) == 0
    requires id in initial && initial[id].kind == Once && initial[id].active
    ensures var rows := TableAfter(initial, h);
            id in rows && rows[id] == initial[id].(active := Sends(h, id) == 0) && Sends(h, id) <= 1
  {
    OriginInTheTable(initial, h, id);
    TasksKeepTheirOrigin(initial, h, id);
    OnceSendsAddUp(initial, h, id);
    LostSendsAreRollbacks(initial, h, id);
  }

  // Every run sends the task exactly if its tick fires it and no run did before.
  predicate SentAtFirst(h: History<Event>, id: nat, task: Task, d0: CalendarDate, s: nat, delay: nat -> nat) {
    h.Then? ==>
      && SentAtFirst(h.past, id, task, d0, s, delay)
      && (h.last.Ran? ==>
            (id in h.last.run.sent <==>
             Sends(h.past, id) == 0 && FiresAt(task, d0, TickTime(s, delay, Runs(h.past)))))
  }

  // When nothing rolls back, a one-time task gets its message at the first tick that fires it
  // and never another.
  lemma {:induction false} OnceIsSentAtItsFirstFiring(
    initial: Rows, h: History<Event>, id: nat, d0: CalendarDate, s: nat, delay: nat -> nat)
    requires RowsOk(initial) && IsHistory(initial, h) && Undisturbed(initial, h, id)
    requires OnSchedule(h, id, d0, s, delay) && Rollbacks(initial, h) == 0
    requires id in initial && initial[id].kind == Once && initial[id].active
    ensures SentAtFirst(h, id, initial[id], d0, s, delay)
  {
    if h.Nothing? {
    } else {
      OnceIsSentAtItsFirstFiring(initial, h.past, id, d0, s, delay);
      OnceWithoutRollbacks(initial, h.past, id);
      if h.last.Ran? {
        SentWhenItFires(TableAfter(initial, h.past), h.last.run, id, d0, TickTime(s, delay, Runs(h.past)));
      }
    }
  }

  lemma {:induction false} SentIfAnyFires(
    h: History<Event>, id: nat, task: Task, d0: CalendarDate, s: nat, delay: nat -> nat)
    requires SentAtFirst(h, id, task, d0, s, delay)
    ensures Sends(h, id) == if Firings(task, d0, s, delay, Runs(h)) > 0 then 1 else 0
  {
    if h.Nothing? {
    } else {
      SentIfAnyFires(h.past, id, task, d0, s, delay);
    }
  }

  // Over the runs of k days without a rollback, an active one-time task of a whole minute gets
  // one message if one of k consecutive days is the one its text names, and otherwise none.
  lemma OneMessageOnTheNamedDay(
    initial: Rows, h: History<Event>, id: nat, d0: CalendarDate, s: nat, delay: nat -> nat, k: nat)
    requires RowsOk(initial) && IsHistory(initial, h) && Undisturbed(initial, h, id)
    requires OnSchedule(h, id, d0, s, delay) && Rollbacks(initial, h) == 0 && Runs(h) == 1440 * k
    requires forall i: nat :: s % 60 + delay(i) < 60
    requires id in initial && initial[id].kind == Once && initial[id].active
    requires IsTime(initial[id].time) && IsWholeMinute(initial[id].time)
    requires Later(Later(d0, FirstDay(initial[id], s / 60)), k).year <= 9999
    ensures var first := Later(d0, FirstDay(initial[id], s / 60));
            Sends(h, id) == if exists j: nat :: j < k && Names(initial[id], first, j) then 1 else 0
  {
    OnceIsSentAtItsFirstFiring(initial, h, id, d0, s, delay);
    SentIfAnyFires(h, id, initial[id], d0, s, delay);
    OneFiringPerDay(initial[id], d0, s, delay, k);
    OnceFiresAtMostOnce(initial[id], Later(d0, FirstDay(initial[id], s / 60)), k);
  }
}
