/**
 * Any number of dispatch runs one after the other, with tasks added in between: what they send
 * and what they leave in the table.
 */
module DispatchHistory {
  import opened Wrappers
  import opened Calendar
  import opened Dispatcher

  // One dispatch run as Dispatcher.Dispatch specifies it; sent holds the tasks it notified.
  datatype Run = Run(now: TimeOfDay, world: World, commits: bool, sent: set<nat>)

  datatype Event = Ran(run: Run) | Added(task: Task)

  // The loop ends early: unreadable data, or a deactivation that fails to flush.
  predicate CutShort(rows: Rows, run: Run) { Aborts(rows, run.now, run.world) || Breaks(rows, run.now, run.world) }

  predicate RollsBack(rows: Rows, run: Run) { CutShort(rows, run) || !run.commits }

  function RowsAfterRun(rows: Rows, run: Run): Rows {
    if RollsBack(rows, run) then rows else RowsAfter(rows, run.now, run.world)
  }

  function TableAfter(initial: Rows, h: History<Event>): Rows {
    match h
    case Nothing => initial
    case Then(past, Ran(run)) => RowsAfterRun(TableAfter(initial, past), run)
    case Then(past, Added(task)) => TableAfter(initial, past)[task.id := task]
  }

  // A run cut short has notified some of the tasks, every other run all of them; a new task
  // takes a fresh id.
  predicate Happens(rows: Rows, e: Event) {
    match e
    case Ran(run) =>
      if CutShort(rows, run)
      then run.sent <= Notified(rows, run.now, run.world)
      else run.sent == Notified(rows, run.now, run.world)
    case Added(task) => task.id !in rows
  }

  predicate IsHistory(initial: Rows, h: History<Event>) {
    h.Then? ==> IsHistory(initial, h.past) && Happens(TableAfter(initial, h.past), h.last)
  }

  // Every dispatch by the method is such an event.
  method DispatchOnce(session: Session, now: TimeOfDay, world: World, commits: bool) returns (run: Run)
    requires session.view == session.committed && RowsOk(session.view) && !session.broken
    modifies session
    ensures Happens(old(session.committed), Ran(run))
    ensures session.committed == RowsAfterRun(old(session.committed), run)
    ensures run.now == now && run.world == world && run.commits == commits
  {
    var r, messages := Dispatch(session, true, now, world, commits);
    run := Run(now, world, commits, set id | id in messages);
  }

  function Sends(h: History<Event>, id: nat): nat {
    match h
    case Nothing => 0
    case Then(past, e) => Sends(past, id) + if e.Ran? && id in e.run.sent then 1 else 0
  }

  // Runs that sent the task and then rolled back.
  function LostSends(initial: Rows, h: History<Event>, id: nat): nat {
    match h
    case Nothing => 0
    case Then(past, e) =>
      LostSends(initial, past, id) +
      if e.Ran? && id in e.run.sent && RollsBack(TableAfter(initial, past), e.run) then 1 else 0
  }

  // The task as it first stood in the table: from the start, or when it was added.
  function Origin(initial: Rows, h: History<Event>, id: nat): Option<Task> {
    match h
    case Nothing => if id in initial then Some(initial[id]) else None
    case Then(past, e) =>
      var origin := Origin(initial, past, id);
      if origin.None? && e.Added? && e.task.id == id then Some(e.task) else origin
  }

  // Tasks come into the table by being added and never leave it, and a run changes nothing of
  // one but that it is active.
  lemma {:induction false} TasksKeepTheirOrigin(initial: Rows, h: History<Event>, id: nat)
    requires RowsOk(initial) && IsHistory(initial, h)
    ensures var rows, origin := TableAfter(initial, h), Origin(initial, h, id);
            && RowsOk(rows)
            && (id in rows <==> origin.Some?)
            && (id in rows ==> rows[id].(active := origin.value.active) == origin.value)
            && (id !in rows ==> Sends(h, id) == 0)
  {
    if h.Nothing? {
    } else {
      TasksKeepTheirOrigin(initial, h.past, id);
    }
  }

  lemma {:induction false} OriginInTheTable(initial: Rows, h: History<Event>, id: nat)
    requires id in initial
    ensures Origin(initial, h, id) == Some(initial[id])
  {
    if h.Nothing? {
    } else {
      OriginInTheTable(initial, h.past, id);
    }
  }

  // Every send of a one-time task but one was lost to a rollback: the row is inactive exactly
  // from the one that was not.
  lemma {:induction false} OnceSendsAddUp(initial: Rows, h: History<Event>, id: nat)
    requires RowsOk(initial) && IsHistory(initial, h)
    requires var origin := Origin(initial, h, id); origin.Some? && origin.value.kind == Once && origin.value.active
    ensures var rows := TableAfter(initial, h);
            id in rows && Sends(h, id) == LostSends(initial, h, id) + (if rows[id].active then 0 else 1)
  {
    TasksKeepTheirOrigin(initial, h, id);
    if h.Nothing? {
    } else {
      TasksKeepTheirOrigin(initial, h.past, id);
      if Origin(initial, h.past, id).Some? {
        OnceSendsAddUp(initial, h.past, id);
      } else {
        LostSendsAreSends(initial, h.past, id);
      }
    }
  }

  lemma {:induction false} LostSendsAreSends(initial: Rows, h: History<Event>, id: nat)
    ensures LostSends(initial, h, id) <= Sends(h, id)
  {
    if h.Nothing? {
    } else {
      LostSendsAreSends(initial, h.past, id);
    }
  }

  function Rollbacks(initial: Rows, h: History<Event>): nat {
    match h
    case Nothing => 0
    case Then(past, e) =>
      Rollbacks(initial, past) + if e.Ran? && RollsBack(TableAfter(initial, past), e.run) then 1 else 0
  }

  lemma {:induction false} LostSendsAreRollbacks(initial: Rows, h: History<Event>, id: nat)
    ensures LostSends(initial, h, id) <= Rollbacks(initial, h)
  {
    if h.Nothing? {
    } else {
      LostSendsAreRollbacks(initial, h.past, id);
    }
  }

  // A one-time task is sent at most once more often than runs roll back.
  lemma OnceAtMostOncePlusRollbacks(initial: Rows, h: History<Event>, id: nat)
    requires RowsOk(initial) && IsHistory(initial, h)
    requires var origin := Origin(initial, h, id); origin.Some? && origin.value.kind == Once && origin.value.active
    ensures Sends(h, id) <= 1 + Rollbacks(initial, h)
  {
    OnceSendsAddUp(initial, h, id);
    LostSendsAreRollbacks(initial, h, id);
  }

  function Again(run: Run, n: nat): History<Event> { if n == 0 then Nothing else Then(Again(run, n - 1), Ran(run)) }

  lemma {:induction false} RepeatedRollbacks(rows: Rows, run: Run, id: nat, n: nat)
    requires Happens(rows, Ran(run)) && RollsBack(rows, run) && id in run.sent
    ensures var h := Again(run, n);
            && IsHistory(rows, h) && TableAfter(rows, h) == rows
            && Sends(h, id) == n && Rollbacks(rows, h) == n
  {
    if n == 0 {
    } else {
      RepeatedRollbacks(rows, run, id, n - 1);
    }
  }

  // The bound is attained: a commit that fails n times sends the message n times too often.
  lemma OnceBoundIsAttained(rows: Rows, id: nat, world: World, n: nat)
    requires RowsOk(rows) && id in rows && rows[id].kind == Once && rows[id].active && Delivered(rows[id], world)
    requires !Aborts(rows, rows[id].time, world) && !Breaks(rows, rows[id].time, world)
    ensures exists h :: IsHistory(rows, h) && Rollbacks(rows, h) == n && Sends(h, id) == n + 1
  {
    var run := Run(rows[id].time, world, false, Notified(rows, rows[id].time, world));
    RepeatedRollbacks(rows, run, id, n);
    var h := Then(Again(run, n), Ran(run.(commits := true)));
    assert IsHistory(rows, h) && Rollbacks(rows, h) == n && Sends(h, id) == n + 1;
  }

  // Retired for good: once a committed run has sent and deactivated the task, no later history
  // sends it.
  lemma {:induction false} InactiveForever(initial: Rows, h: History<Event>, id: nat)
    requires RowsOk(initial) && IsHistory(initial, h)
    requires id in initial && !initial[id].active
    ensures RowsOk(TableAfter(initial, h))
    ensures id in TableAfter(initial, h) && TableAfter(initial, h)[id] == initial[id] && Sends(h, id) == 0
  {
    if h.Nothing? {
    } else {
      InactiveForever(initial, h.past, id);
    }
  }

  // Recurring tasks are never touched.
  lemma {:induction false} RecurringTasksNeverChange(initial: Rows, h: History<Event>, id: nat)
    requires RowsOk(initial) && IsHistory(initial, h)
    requires var origin := Origin(initial, h, id); origin.Some? && origin.value.kind != Once
    ensures id in TableAfter(initial, h) && Some(TableAfter(initial, h)[id]) == Origin(initial, h, id)
  {
    TasksKeepTheirOrigin(initial, h, id);
    if h.Nothing? {
    } else {
      TasksKeepTheirOrigin(initial, h.past, id);
      if Origin(initial, h.past, id).Some? { RecurringTasksNeverChange(initial, h.past, id); }
    }
  }
}
