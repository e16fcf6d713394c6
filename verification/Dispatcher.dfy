/**
 * Task notifications: src/worker/runtime.py with TaskRepository.list_due and deactivate, inside
 * the transaction of session_scope.
 */
module Dispatcher {
  import opened Wrappers
  import opened Calendar

  // The column holds a string; anything but the four known kinds never fires.
  datatype Kind = Daily | Weekly | Monthly | Once | UnknownKind(name: string)

  // A value of the task's JSON data as int(data.get(name, 0)) sees it.
  datatype Field = Missing | Number(n: int) | Unreadable

  datatype Task = Task(
    id: nat, active: bool, time: TimeOfDay, kind: Kind, dayOfWeek: Field, dayOfMonth: Field, date: Option<string>)

  type Rows = map<nat, Task>

  // None when int() raises.
  function IntOf(f: Field): Option<int> {
    match f
    case Missing => Some(0)
    case Number(n) => Some(n)
    case Unreadable => None
  }

  // _task_should_fire; None when it raises.
  function ShouldFire(task: Task, today: CalendarDate): Option<bool> {
    match task.kind
    case Daily => Some(true)
    case Weekly =>
      var n := IntOf(task.dayOfWeek);
      if n.Some? then Some(Weekday(today) + 1 == n.value) else None
    case Monthly =>
      var n := IntOf(task.dayOfMonth);
      if n.Some? then Some(today.day == n.value) else None
    case Once => Some(task.date == Some(IsoFormat(today)))
    case UnknownKind(_) => Some(false)
  }

  // What one run meets when a task's turn comes: the date then on the clock, whether sending
  // succeeds, and whether the flush of a deactivation does.
  datatype Turn = Turn(today: CalendarDate, sends: bool, flushes: bool)

  type World = nat -> Turn

  predicate Due(task: Task, now: TimeOfDay) { task.active && task.time == now }

  predicate Malformed(task: Task, world: World) { ShouldFire(task, world(task.id).today).None? }

  predicate Delivered(task: Task, world: World) {
    ShouldFire(task, world(task.id).today) == Some(true) && world(task.id).sends
  }

  // The message of a one-time task goes out and the flush of its deactivation fails.
  predicate Breaking(task: Task, world: World) {
    Delivered(task, world) && task.kind == Once && !world(task.id).flushes
  }

  // ---------------------------------------------------------------- reference: a run task by task

  predicate RowsOk(rows: Rows) { forall id :: id in rows ==> rows[id].id == id }

  // Some due task has unreadable data, so _task_should_fire raises out of the loop.
  predicate Aborts(rows: Rows, now: TimeOfDay, world: World) {
    exists id :: id in rows && Due(rows[id], now) && Malformed(rows[id], world)
  }

  // Some deactivation of the run fails to flush.
  predicate Breaks(rows: Rows, now: TimeOfDay, world: World) {
    exists id :: id in rows && Due(rows[id], now) && Breaking(rows[id], world)
  }

  predicate AsksForUnreadable(task: Task) {
    (task.kind == Weekly && task.dayOfWeek == Unreadable) || (task.kind == Monthly && task.dayOfMonth == Unreadable)
  }

  // Only a weekly task whose day_of_week, or a monthly task whose day_of_month, is unreadable
  // aborts a run: an unknown kind or a missing value merely never fires.
  lemma AbortsExactlyWhen(rows: Rows, now: TimeOfDay, world: World)
    ensures Aborts(rows, now, world) <==>
              exists id :: id in rows && rows[id].active && rows[id].time == now && AsksForUnreadable(rows[id])
  {
    assert forall id :: id in rows ==> (Malformed(rows[id], world) <==> AsksForUnreadable(rows[id]));
  }

  // The tasks whose message goes out, each judged on its own.
  function Notified(rows: Rows, now: TimeOfDay, world: World): set<nat> {
    set id | id in rows && Due(rows[id], now) && Delivered(rows[id], world)
  }

  predicate Retires(task: Task, now: TimeOfDay, world: World) {
    Due(task, now) && Delivered(task, world) && task.kind == Once
  }

  function RowsAfter(rows: Rows, now: TimeOfDay, world: World): Rows {
    map id | id in rows :: if Retires(rows[id], now, world) then rows[id].(active := false) else rows[id]
  }

  // A listing of the due tasks in whatever order the database chooses.
  predicate IsListing(rows: Rows, now: TimeOfDay, due: seq<Task>) {
    && (forall i :: 0 <= i < |due| ==> due[i].id in rows && rows[due[i].id] == due[i] && Due(due[i], now))
    && (forall i, j :: 0 <= i < j < |due| ==> due[i].id != due[j].id)
    && (forall id :: id in rows && Due(rows[id], now) ==> rows[id] in due)
  }

  // ---------------------------------------------------------------- the session and the loop

  // The database and one open session: what is committed, what the session sees, and whether a
  // flush of it failed.  SQLAlchemy rolls the transaction of such a session back, expires the rows
  // it loaded and raises PendingRollbackError on every further use until it is rolled back.
  class Session {
    var committed: Rows
    var view: Rows
    var broken: bool

    constructor (rows: Rows)
      ensures committed == view == rows && !broken
    {
      committed, view, broken := rows, rows, false;
    }

    method ListDue(now: TimeOfDay) returns (due: seq<Task>)
      requires RowsOk(view)
      ensures IsListing(view, now, due)
    {
      due := [];
      var rest := view.Keys;
      while rest != {}
        invariant rest <= view.Keys
        invariant forall i :: 0 <= i < |due| ==>
                    due[i].id in view && due[i].id !in rest && view[due[i].id] == due[i] && Due(due[i], now)
        invariant forall i, j :: 0 <= i < j < |due| ==> due[i].id != due[j].id
        invariant forall id :: id in view && id !in rest && Due(view[id], now) ==> view[id] in due
      {
        var id :| id in rest;
        rest := rest - {id};
        if Due(view[id], now) {
          due := due + [view[id]];
        }
      }
    }

    method Deactivate(id: nat, flushes: bool) returns (ok: bool)
      modifies this`view, this`broken
      ensures ok <==> !old(broken) && (id in old(view) ==> flushes)
      ensures broken == !ok
      ensures view == if !ok then committed
                      else if id in old(view) then old(view)[id := old(view)[id].(active := false)] else old(view)
    {
      if broken {
        view := committed;
        return false;
      }
      ok := true;
      if id in view {
        view := view[id := view[id].(active := false)];
        if !flushes {
          view, broken, ok := committed, true, false;
        }
      }
    }

    method Rollback()
      modifies this`view, this`broken
      ensures view == committed && !broken
    {
      view, broken := committed, false;
    }

    method Commit(works: bool) returns (ok: bool)
      modifies this`committed
      ensures ok == (works && !broken)
      ensures committed == if ok then view else old(committed)
    {
      ok := works && !broken;
      if ok {
        committed := view;
      }
    }
  }

  // What a delivered message leaves of the view.
  function Handled(view: Rows, task: Task): Rows {
    if task.kind == Once && task.id in view then view[task.id := view[task.id].(active := false)] else view
  }

  // The messages and the view after the first i listed tasks had their turn.
  function MessagesAfter(due: seq<Task>, world: World, i: nat): seq<nat>
    requires i <= |due|
  {
    if i == 0 then []
    else MessagesAfter(due, world, i - 1) + if Delivered(due[i - 1], world) then [due[i - 1].id] else []
  }

  function ViewAfter(view: Rows, due: seq<Task>, world: World, i: nat): Rows
    requires i <= |due|
  {
    if i == 0 then view
    else
      var before := ViewAfter(view, due, world, i - 1);
      if Delivered(due[i - 1], world) then Handled(before, due[i - 1]) else before
  }

  // The ids of the first i listed tasks.
  function Seen(due: seq<Task>, i: nat): set<nat>
    requires i <= |due|
  {
    if i == 0 then {} else Seen(due, i - 1) + {due[i - 1].id}
  }

  lemma {:induction false} SeenMeans(due: seq<Task>, i: nat, id: nat)
    requires i <= |due|
    ensures id in Seen(due, i) <==> exists j :: 0 <= j < i && due[j].id == id
  {
    if i == 0 {
    } else {
      SeenMeans(due, i - 1, id);
    }
  }

  // The next task listed is a due row that had no turn yet.
  lemma NextTurn(rows: Rows, now: TimeOfDay, due: seq<Task>, i: nat)
    requires IsListing(rows, now, due) && i < |due|
    ensures due[i].id in rows && rows[due[i].id] == due[i] && Due(due[i], now)
    ensures due[i].id !in Seen(due, i)
  {
    SeenMeans(due, i, due[i].id);
  }

  lemma AllSeen(rows: Rows, now: TimeOfDay, due: seq<Task>)
    requires RowsOk(rows) && IsListing(rows, now, due)
    ensures forall id :: id in rows && Due(rows[id], now) ==> id in Seen(due, |due|)
  {
    forall id | id in rows && Due(rows[id], now) ensures id in Seen(due, |due|) {
      SeenMeans(due, |due|, id);
    }
  }

  predicate Distinct(messages: seq<nat>) { forall j, k :: 0 <= j < k < |messages| ==> messages[j] != messages[k] }

  lemma Appended(messages: seq<nat>, id: nat)
    requires Distinct(messages) && id !in messages
    ensures Distinct(messages + [id]) && forall x :: x in messages + [id] <==> x in messages || x == id
  {}

  // Each task is judged by its own turn only, whatever the order of the listing.
  lemma {:induction false} MessagesAreTheDelivered(rows: Rows, now: TimeOfDay, due: seq<Task>, world: World, i: nat)
    requires IsListing(rows, now, due) && i <= |due|
    ensures var messages := MessagesAfter(due, world, i);
            && Distinct(messages)
            && (forall id :: id in messages <==> id in Seen(due, i) && id in Notified(rows, now, world))
  {
    if i == 0 {
    } else {
      MessagesAreTheDelivered(rows, now, due, world, i - 1);
      NextTurn(rows, now, due, i - 1);
      Appended(MessagesAfter(due, world, i - 1), due[i - 1].id);
    }
  }

  // The row as it should be once the tasks in `done` had their turn.
  function RowAfter(row: Task, done: set<nat>, now: TimeOfDay, world: World): Task {
    if row.id in done && Retires(row, now, world) then row.(active := false) else row
  }

  lemma {:induction false} RowRetires(
    rows: Rows, now: TimeOfDay, due: seq<Task>, world: World, i: nat, id: nat)
    requires RowsOk(rows) && IsListing(rows, now, due) && i <= |due| && id in rows
    ensures id in ViewAfter(rows, due, world, i)
    ensures ViewAfter(rows, due, world, i)[id] == RowAfter(rows[id], Seen(due, i), now, world)
  {
    if i == 0 {
    } else {
      RowRetires(rows, now, due, world, i - 1, id);
      NextTurn(rows, now, due, i - 1);
    }
  }

  lemma {:induction false} ViewKeepsIds(rows: Rows, due: seq<Task>, world: World, i: nat)
    requires i <= |due|
    ensures ViewAfter(rows, due, world, i).Keys == rows.Keys
  {
    if i == 0 {
    } else {
      ViewKeepsIds(rows, due, world, i - 1);
    }
  }

  // After all turns exactly the delivered one-time tasks are retired.
  lemma ViewRetiresTheDelivered(rows: Rows, now: TimeOfDay, due: seq<Task>, world: World)
    requires RowsOk(rows) && IsListing(rows, now, due)
    ensures ViewAfter(rows, due, world, |due|) == RowsAfter(rows, now, world)
  {
    ViewKeepsIds(rows, due, world, |due|);
    AllSeen(rows, now, due);
    forall id | id in rows ensures ViewAfter(rows, due, world, |due|)[id] == RowsAfter(rows, now, world)[id] {
      RowRetires(rows, now, due, world, |due|, id);
    }
  }

  // The body of the try statement for one firing task.  The send counts whatever follows; an
  // exception of the deactivation is caught, but its session is then broken.
  method Deliver(session: Session, task: Task, world: World) returns (sent: bool)
    requires !session.broken && task.id in session.view
    modifies session`view, session`broken
    ensures sent == world(task.id).sends
    ensures session.broken <==> sent && task.kind == Once && !world(task.id).flushes
    ensures session.view == if session.broken then session.committed
                            else if sent then Handled(old(session.view), task) else old(session.view)
  {
    sent := world(task.id).sends;
    if sent && task.kind == Once {
      var _ := session.Deactivate(task.id, world(task.id).flushes);
    }
  }

  // The loop over the listed tasks: `turns` of them have their turn, all unless the next one's
  // data is unreadable or the last one's deactivation broke the session.  In a broken session the
  // rows are expired, so the next read of one raises out of the loop: task.id in the log call.
  method NotifyAll(session: Session, due: seq<Task>, world: World) returns (turns: nat, sent: nat, messages: seq<nat>)
    requires !session.broken && forall j :: 0 <= j < |due| ==> due[j].id in session.view
    modifies session`view, session`broken
    ensures sent == |messages|
    ensures turns <= |due| && (turns < |due| && !session.broken ==> Malformed(due[turns], world))
    ensures forall j :: 0 <= j < turns ==> !Malformed(due[j], world)
    ensures session.broken ==> turns > 0 && Breaking(due[turns - 1], world)
    ensures forall j :: 0 <= j < turns && Breaking(due[j], world) ==> session.broken && j == turns - 1
    ensures messages == MessagesAfter(due, world, turns)
    ensures !session.broken ==> session.view == ViewAfter(old(session.view), due, world, turns)
  {
    messages, sent, turns := [], 0, 0;
    while turns < |due| && !session.broken
      invariant turns <= |due| && sent == |messages|
      invariant forall j :: 0 <= j < turns ==> !Malformed(due[j], world)
      invariant session.broken ==> turns > 0 && Breaking(due[turns - 1], world)
      invariant forall j :: 0 <= j < turns && Breaking(due[j], world) ==> session.broken && j == turns - 1
      invariant messages == MessagesAfter(due, world, turns)
      invariant !session.broken ==> session.view == ViewAfter(old(session.view), due, world, turns)
      decreases |due| - turns
    {
      var task := due[turns];
      var fires := ShouldFire(task, world(task.id).today);
      if fires.None? {
        return;
      }
      ViewKeepsIds(old(session.view), due, world, turns);
      if fires.value {
        var delivered := Deliver(session, task, world);
        if delivered {
          messages := messages + [task.id];
          sent := sent + 1;
        }
      }
      turns := turns + 1;
    }
  }

  // The loop over a listing of the due tasks is cut short exactly in a run that aborts or breaks.
  lemma CutShortExactlyWhen(rows: Rows, now: TimeOfDay, due: seq<Task>, world: World, turns: nat, broken: bool)
    requires IsListing(rows, now, due) && turns <= |due|
    requires turns < |due| && !broken ==> Malformed(due[turns], world)
    requires forall j :: 0 <= j < turns ==> !Malformed(due[j], world)
    requires broken ==> turns > 0 && Breaking(due[turns - 1], world)
    requires forall j :: 0 <= j < turns && Breaking(due[j], world) ==> broken
    ensures turns < |due| || broken <==> Aborts(rows, now, world) || Breaks(rows, now, world)
  {
    if broken {
      assert Breaking(rows[due[turns - 1].id], world);
    } else if turns < |due| {
      assert Malformed(rows[due[turns].id], world);
    }
  }

  // dispatch_due_task_notifications.  messages records whom Telegram was told about, in order.
  method Dispatch(session: Session, hasToken: bool, now: TimeOfDay, world: World, commits: bool)
    returns (r: Result<nat, string>, messages: seq<nat>)
    requires session.view == session.committed && RowsOk(session.view) && !session.broken
    modifies session
    ensures !session.broken
    ensures Distinct(messages)
    ensures !hasToken ==> r == Success(0) && messages == [] && session.committed == old(session.committed)
    ensures hasToken ==>
              var rows := old(session.view);
              && (r.Failure? <==> Aborts(rows, now, world) || Breaks(rows, now, world) || !commits)
              && (forall id :: id in messages ==> id in Notified(rows, now, world))
              && (!Aborts(rows, now, world) && !Breaks(rows, now, world) ==>
                    forall id :: id in Notified(rows, now, world) ==> id in messages)
    ensures r.Success? ==> r.value == |messages|
    ensures session.committed ==
              if hasToken && r.Success? then RowsAfter(old(session.view), now, world) else old(session.committed)
  {
    if !hasToken {
      return Success(0), [];
    }
    ghost var rows := session.view;
    var due := session.ListDue(now);
    var turns, sent;
    turns, sent, messages := NotifyAll(session, due, world);
    MessagesAreTheDelivered(rows, now, due, world, turns);
    CutShortExactlyWhen(rows, now, due, world, turns, session.broken);
    if turns < |due| || session.broken {
      session.Rollback();
      return Failure("the loop raised"), messages;
    }
    AllSeen(rows, now, due);
    ViewRetiresTheDelivered(rows, now, due, world);
    var committed := session.Commit(commits);
    if !committed {
      session.Rollback();
      return Failure("the commit raised"), messages;
    }
    r := Success(sent);
  }
}
