/**
  What the scheduler's operations answer and do, said of task ids and their states
  alone, without slots.
 */
module TaskLaws {
  import opened Arithmetic
  import opened Bytes
  import opened Scheduler

  /** There is a task with that id, in that state. */
  ghost predicate Has(s: State, id: nat, state: TaskState) {
    exists i: nat :: At(s.tasks, i, id, state)
  }

  predicate At(tasks: Tasks, i: nat, id: nat, state: TaskState) {
    i < |tasks| && tasks[i].Some? && tasks[i].value.id == id && tasks[i].value.state == state
  }

  ghost predicate Known(s: State, id: nat) {
    exists state: TaskState :: Has(s, id, state)
  }

  lemma {:induction false} HasAt(s: State, i: nat, id: nat, state: TaskState)
    requires IdsOk(s) && i < |s.tasks| && s.tasks[i].Some? && s.tasks[i].value.id == id
    ensures Has(s, id, state) <==> s.tasks[i].value.state == state
    ensures Known(s, id)
  {
    assert At(s.tasks, i, id, s.tasks[i].value.state);
    if Has(s, id, state) {
      var j: nat :| At(s.tasks, j, id, state);
      assert j == i;
    }
    assert Has(s, id, s.tasks[i].value.state);
  }

  lemma {:induction false} FindIs(s: State, id: nat)
    requires IdsOk(s)
    ensures FindTask(s.tasks, id, 0).Some? <==> Known(s, id)
    ensures forall i: nat :: i < |s.tasks| && s.tasks[i].Some? && s.tasks[i].value.id == id ==> FindTask(s.tasks, id, 0) == Some(i)
  {
    FindFirst(s.tasks, id, 0);
    if FindTask(s.tasks, id, 0).Some? {
      HasAt(s, FindTask(s.tasks, id, 0).value, id, Ready);
    }
    if Known(s, id) {
      var state: TaskState :| Has(s, id, state);
      var i: nat :| At(s.tasks, i, id, state);
    }
  }

  lemma {:induction false} FindFirst(tasks: Tasks, id: nat, i: nat)
    ensures FindTask(tasks, id, i).None? ==> forall j: nat :: i <= j < |tasks| && tasks[j].Some? ==> tasks[j].value.id != id
    decreases |tasks| - i
  {
    if i < |tasks| && !(tasks[i].Some? && tasks[i].value.id == id) {
      FindFirst(tasks, id, i + 1);
    }
  }

  /** The tables hold the same tasks, but for one slot. */
  lemma {:induction false} OneChanged(s: State, r: State, i: nat, x: nat, id: nat, state: TaskState)
    requires IdsOk(s) && IdsOk(r) && i < |s.tasks| && s.tasks[i].Some? && s.tasks[i].value.id == id
    requires |r.tasks| == |s.tasks| && r.tasks[i].Some? && r.tasks[i].value.id == id
    requires forall j: nat :: j < |s.tasks| && j != i ==> r.tasks[j] == s.tasks[j]
    ensures Has(r, x, state) <==> if x == id then state == r.tasks[i].value.state else Has(s, x, state)
  {
    HasAt(r, i, id, state);
    if x != id {
      if Has(s, x, state) {
        var j: nat :| At(s.tasks, j, x, state);
        assert At(r.tasks, j, x, state);
      }
      if Has(r, x, state) {
        var j: nat :| At(r.tasks, j, x, state);
        assert At(s.tasks, j, x, state);
      }
    }
  }

  // ---------- stopping, waking, ending, reaping, spawning ----------

  /** Sleep, block and exit of the current task: it is the one that runs, and no other notices. */
  lemma {:induction false} StopExactly(s: State, state: TaskState, x: nat, other: TaskState)
    requires Inv(s) && !state.Running?
    ensures var (r, answer) := Stopped(s, state);
      && (answer == Ok(x) <==> Has(s, x, Running))
      && (answer.Err? <==> forall id: nat :: !Has(s, id, Running)) && (answer.Err? ==> answer.error == NoCurrentTask && r == s)
      && (answer.Ok? ==> (Has(r, x, other) <==> if answer.value == x then other == state else Has(s, x, other)))
  {
    hide Has;
    StoppedKeeps(s, state);
    var (r, answer) := Stopped(s, state);
    if s.current.Some? {
      var i := s.current.value;
      var id := s.tasks[i].value.id;
      HasAt(s, i, id, Running);
      OneChanged(s, r, i, x, id, other);
      RunsHere(s, x);
    } else {
      forall id: nat ensures !Has(s, id, Running) { RunsHere(s, id); }
    }
  }

  /** The running task is the current one. */
  lemma {:induction false} RunsHere(s: State, id: nat)
    requires OneRunning(s)
    ensures Has(s, id, Running) <==> IdAt(s.tasks, s.current) == Some(id)
  {
    if Has(s, id, Running) {
      var i: nat :| At(s.tasks, i, id, Running);
      assert Is(s.tasks, i, Running);
    }
    if IdAt(s.tasks, s.current) == Some(id) {
      assert At(s.tasks, s.current.value, id, Running);
    }
  }

  predicate Dormant(state: TaskState) {
    state.Blocked? || state.Sleeping?
  }

  /** `wake`: a blocked or sleeping task becomes ready, nothing else happens. */
  lemma {:induction false} WakeExactly(s: State, id: nat, x: nat, state: TaskState)
    requires Inv(s)
    ensures var (r, answer) := WokenTask(s, id);
      && answer == (if Known(s, id) then Ok(()) else Err(TaskNotFound))
      && (Has(r, x, state) <==>
            if x == id && state == Ready then Has(s, id, Ready) || exists old': TaskState :: Has(s, id, old') && Dormant(old')
            else Has(s, x, state) && !(x == id && Dormant(state)))
  {
    hide Has, Known, FindTask;
    WokenTaskKeeps(s, id);
    FindIs(s, id);
    var (r, answer) := WokenTask(s, id);
    match FindTask(s.tasks, id, 0) {
      case None =>
        forall st: TaskState ensures !Has(s, id, st) { KnownHas(s, id, st); }
      case Some(i) =>
        var was := s.tasks[i].value.state;
        forall st: TaskState ensures Has(s, id, st) <==> st == was { HasAt(s, i, id, st); }
        assert Has(s, id, was);
        OneChanged(s, r, i, x, id, state);
    }
  }

  lemma KnownHas(s: State, id: nat, state: TaskState)
    ensures Has(s, id, state) ==> Known(s, id)
  {
    hide Has;
  }

  /** `exit_task`: whatever the task was doing, it has ended; if it ran, nothing runs. */
  lemma {:induction false} ExitExactly(s: State, id: nat, status: int, x: nat, state: TaskState)
    requires Inv(s)
    ensures var (r, answer) := ExitedTask(s, id, status);
      && answer == (if Known(s, id) then Ok(()) else Err(TaskNotFound))
      && (Has(r, x, state) <==> if x == id && Known(s, id) then state == Exited(status) else Has(s, x, state))
  {
    hide Has, Known, FindTask;
    ExitedTaskKeeps(s, id, status);
    FindIs(s, id);
    var (r, answer) := ExitedTask(s, id, status);
    if FindTask(s.tasks, id, 0).Some? {
      OneChanged(s, r, FindTask(s.tasks, id, 0).value, x, id, state);
    }
  }

  /** `reap`: hands out a task that has ended, which is then gone; the others stay. */
  lemma {:induction false} ReapExactly(s: State, id: nat, x: nat, state: TaskState)
    requires Inv(s)
    ensures var (r, answer) := Reaped(s, id);
      && (answer.Ok? <==> exists status: int :: Has(s, id, Exited(status)))
      && (answer.Ok? ==> answer.value.id == id && Has(s, id, answer.value.state))
      && (answer.Err? ==> answer.error == TaskNotFound && r == s)
      && (answer.Ok? ==> (Has(r, x, state) <==> x != id && Has(s, x, state)))
  {
    hide FindTask, Known;
    FindIs(s, id);
    var (r, answer) := Reaped(s, id);
    match FindTask(s.tasks, id, 0) {
      case None =>
        forall st: TaskState ensures !Has(s, id, st) { KnownHas(s, id, st); }
      case Some(i) =>
        var was := s.tasks[i].value.state;
        forall st: TaskState ensures Has(s, id, st) <==> st == was { HasAt(s, i, id, st); }
        if answer.Ok? {
          assert Has(s, id, Exited(was.status));
          if x != id && Has(s, x, state) {
            var j: nat :| At(s.tasks, j, x, state);
            assert At(r.tasks, j, x, state);
          }
          if Has(r, x, state) {
            var j: nat :| At(r.tasks, j, x, state);
            assert At(s.tasks, j, x, state);
          }
        }
    }
  }

  /** `spawn`: a ready task under a number no task has, exactly when a slot is free. */
  lemma {:induction false} SpawnExactly(s: State, processId: nat, x: nat, state: TaskState)
    requires Inv(s)
    ensures var (r, answer) := Spawned(s, processId);
      && (answer.Err? <==> forall i :: 0 <= i < |s.tasks| ==> s.tasks[i].Some?) && (answer.Err? ==> answer.error == Full && r == s)
      && (answer.Ok? ==> !Known(s, answer.value))
      && (answer.Ok? ==> (Has(r, x, state) <==> if x == answer.value then state == Ready else Has(s, x, state)))
  {
    hide FreeSlot;
    FreeFirst(s.tasks, 0);
    var (r, answer) := Spawned(s, processId);
    if answer.Ok? {
      var i := FreeSlot(s.tasks, 0).value;
      assert At(r.tasks, i, answer.value, Ready);
      forall st: TaskState ensures !Has(s, s.nextId, st) {}
      if x != answer.value && Has(s, x, state) {
        var j: nat :| At(s.tasks, j, x, state);
        assert At(r.tasks, j, x, state);
      }
      if Has(r, x, state) {
        var j: nat :| At(r.tasks, j, x, state);
        assert j != i ==> At(s.tasks, j, x, state);
      }
    }
  }

  lemma {:induction false} FreeFirst(tasks: Tasks, i: nat)
    ensures FreeSlot(tasks, i).None? <==> forall j :: i <= j < |tasks| ==> tasks[j].Some?
    decreases |tasks| - i
  {
    if i < |tasks| && tasks[i].Some? {
      FreeFirst(tasks, i + 1);
    }
  }

  // ---------- scheduling ----------

  /** The task could run at `now`. */
  predicate Due(state: TaskState, now: nat) {
    state.Ready? || state.Running? || (state.Sleeping? && state.wakeTick <= now)
  }

  /** Who is to run, by the decision. */
  function Chosen(d: Decision): Option<nat> {
    match d
    case Idle => None
    case Continue(x) => Some(x)
    case Switch(_, n) => Some(n)
  }

  ghost predicate RunsAs(s: State, id: Option<nat>) {
    match id
    case None => forall x: nat :: !Has(s, x, Running)
    case Some(x) => Has(s, x, Running)
  }

  /** The decision is the truth about who ran and who runs. */
  ghost predicate Reports(s: State, r: State, d: Decision) {
    && (d.Idle? <==> RunsAs(r, None))
    && (forall x: nat :: d == Continue(x) <==> RunsAs(s, Some(x)) && RunsAs(r, Some(x)))
    && (forall p: Option<nat>, n: nat :: d == Switch(p, n) <==> RunsAs(s, p) && RunsAs(r, Some(n)) && p != Some(n))
  }

  lemma {:induction false} RunsCurrent(s: State, id: Option<nat>)
    requires OneRunning(s)
    ensures RunsAs(s, id) <==> IdAt(s.tasks, s.current) == id
  {
    hide Has;
    match id {
      case Some(x) => RunsHere(s, x);
      case None =>
        forall x: nat ensures Has(s, x, Running) <==> IdAt(s.tasks, s.current) == Some(x) { RunsHere(s, x); }
    }
  }

  lemma {:induction false} ReportsCurrent(s: State, r: State, d: Decision)
    requires OneRunning(s) && OneRunning(r)
    requires var before, after := IdAt(s.tasks, s.current), IdAt(r.tasks, r.current);
      d == if after.None? then Idle else if before == after then Continue(after.value) else Switch(before, after.value)
    ensures Reports(s, r, d)
  {
    hide RunsAs, OneRunning, IdAt;
    forall id: Option<nat> ensures RunsAs(s, id) <==> IdAt(s.tasks, s.current) == id { RunsCurrent(s, id); }
    forall id: Option<nat> ensures RunsAs(r, id) <==> IdAt(r.tasks, r.current) == id { RunsCurrent(r, id); }
  }

  /** What becomes of a task that is not chosen. */
  function Rest(state: TaskState, now: nat): TaskState {
    if Due(state, now) then Ready else state
  }

  /** Slot by slot, what `schedule` searches. */
  lemma {:induction false} RestedAt(s: State, now: nat, i: nat)
    requires OneRunning(s) && i < |s.tasks| && s.tasks[i].Some?
    ensures var t := Rested(s, now); |t| == |s.tasks| && t[i] == Some(s.tasks[i].value.(state := Rest(s.tasks[i].value.state, now)))
  {
    hide Woken;
    if s.tasks[i].value.state.Running? {
      assert Is(s.tasks, i, Running);
    }
  }

  lemma {:induction false} NoneReady(tasks: Tasks, start: nat, i: nat)
    requires ReadyFrom(tasks, start).None? && start < |tasks|
    ensures !Is(tasks, i, Ready)
  {
    hide ReadyOffset, Place;
    ReadyOffsetIs(tasks, start, 0);
    if i < |tasks| {
      var k := Surrounds(start, i, |tasks|);
      assert !Is(tasks, Place(start, k, |tasks|), Ready);
    }
  }

  /** Every slot is met going round. */
  lemma Surrounds(start: nat, i: nat, n: nat) returns (k: nat)
    requires start < n && i < n
    ensures k < n && Place(start, k, n) == i
  {
    k := if i >= start then i - start else i + n - start;
    DivModUnique(start + k, n, if i >= start then 0 else 1, i);
  }

  /**
    `schedule`: the decision is true, it is `Idle` exactly when no task is due, the
    chosen task was due and runs, and every other keeps its state or is ready if due.
   */
  lemma {:induction false} ScheduleExactly(s: State, now: nat, id: nat, was: TaskState)
    requires OneRunning(s) && IdsOk(s) && Has(s, id, was)
    ensures var (r, d) := Scheduled(s, now);
      && Reports(s, r, d)
      && Has(r, id, if Chosen(d) == Some(id) then Running else Rest(was, now))
      && (Chosen(d) == Some(id) ==> Due(was, now)) && (d.Idle? ==> !Due(was, now))
  {
    hide Has, Woken, ReadyFrom, Reports, Rested, OneRunning, IdsOk;
    var (r, d) := Scheduled(s, now);
    var tasks := Rested(s, now);
    ScheduledKeeps(s, now);
    ReadyFromIs(tasks, Start(s));
    ScheduleReports(s, now);
    var i := SlotOf(s, id, was);
    RestedAt(s, now, i);
    HasAt(r, i, id, if Chosen(d) == Some(id) then Running else Rest(was, now));
    if d.Idle? {
      CurrentRuns(s);
      NoneReady(tasks, Start(s), i);
    } else {
      ChosenSlot(s, now, i);
    }
  }

  lemma {:induction false} SlotOf(s: State, id: nat, state: TaskState) returns (i: nat)
    requires Has(s, id, state)
    ensures At(s.tasks, i, id, state)
  {
    i :| At(s.tasks, i, id, state);
  }

  lemma {:induction false} ScheduleReports(s: State, now: nat)
    requires OneRunning(s) && IdsOk(s)
    ensures Reports(s, Scheduled(s, now).0, Scheduled(s, now).1)
  {
    hide Woken, ReadyFrom, Reports, Rested, IdsOk;
    ScheduledKeeps(s, now);
    ReadyFromIs(Rested(s, now), Start(s));
    ReportsCurrent(s, Scheduled(s, now).0, Scheduled(s, now).1);
  }

  /** The slot chosen holds the task chosen. */
  lemma {:induction false} ChosenSlot(s: State, now: nat, i: nat)
    requires OneRunning(s) && IdsOk(s) && i < |s.tasks| && s.tasks[i].Some? && !Scheduled(s, now).1.Idle?
    ensures Chosen(Scheduled(s, now).1) == Some(s.tasks[i].value.id) <==> ReadyFrom(Rested(s, now), Start(s)) == Some(i)
    ensures ReadyFrom(Rested(s, now), Start(s)) == Some(i) ==> Rest(s.tasks[i].value.state, now) == Ready
  {
    hide Woken, ReadyFrom, Rested, OneRunning;
    var tasks, next := Rested(s, now), ReadyFrom(Rested(s, now), Start(s));
    ReadyFromIs(tasks, Start(s));
    RestedKeeps(s, now);
    RestedAt(s, now, i);
    var j := next.value;
    assert s.tasks[j].Some? && tasks[j].value.id == s.tasks[j].value.id;
  }

  // ---------- ticking ----------

  /** `tick` is `schedule` when the quantum is used up or nothing runs. */
  predicate Yields(s: State) {
    s.current.None? || s.remaining <= 1
  }

  /**
    `tick`: the decision is true; within its quantum the running task goes on and only
    sleepers that are due are disturbed, otherwise every task fares as under `schedule`.
   */
  lemma {:induction false} TickExactly(s: State, now: nat, id: nat, was: TaskState)
    requires Inv(s) && Has(s, id, was)
    ensures var (r, d) := Ticked(s, now);
      && Reports(s, r, d)
      && Has(r, id, if Chosen(d) == Some(id) then Running else if was.Sleeping? || Yields(s) then Rest(was, now) else was)
      && (Chosen(d) == Some(id) ==> Due(was, now)) && (d.Idle? ==> !Due(was, now))
      && (!Yields(s) ==> r.remaining == s.remaining - 1 && (Chosen(d) == Some(id) <==> was == Running))
  {
    hide Has, Woken, Reports, Scheduled, OneRunning, IdsOk;
    var woken := s.(tasks := Woken(s.tasks, now));
    var less := woken.(remaining := if s.remaining > 0 then s.remaining - 1 else 0);
    WokenKeeps(s, now);
    SameButRemaining(woken, less);
    CurrentRuns(s);
    CurrentRuns(woken);
    var i := SlotOf(s, id, was);
    var next := if was.Sleeping? then Rest(was, now) else was;
    WokenAt(s.tasks, now, i);
    HasAt(woken, i, id, next);
    HasAt(less, i, id, next);
    assert Rest(next, now) == Rest(was, now);
    ReportsAlike(s, now, less);
    if s.current.None? {
      ScheduleExactly(woken, now, id, next);
      ReportsAlike(s, now, woken);
      SameReports(s, woken, Ticked(s, now).0, Ticked(s, now).1);
    } else if less.remaining == 0 {
      ScheduleExactly(less, now, id, next);
      SameReports(s, less, Ticked(s, now).0, Ticked(s, now).1);
    } else {
      ReportsCurrent(s, less, Ticked(s, now).1);
      RunsHere(s, id);
      HasAt(s, i, id, Running);
    }
  }

  lemma WokenAt(tasks: Tasks, now: nat, i: nat)
    requires i < |tasks| && tasks[i].Some?
    ensures var t, w := tasks[i].value, Woken(tasks, now);
      |w| == |tasks| && w[i] == Some(t.(state := if t.state.Sleeping? then Rest(t.state, now) else t.state))
  {
    hide Woken;
  }

  /** The same tasks run, whatever sleepers were woken. */
  lemma {:induction false} ReportsAlike(s: State, now: nat, w: State)
    requires OneRunning(s) && w.tasks == Woken(s.tasks, now) && w.current == s.current && OneRunning(w)
    ensures IdAt(w.tasks, w.current) == IdAt(s.tasks, s.current)
  {
    hide Woken;
  }

  lemma {:induction false} SameReports(s: State, w: State, r: State, d: Decision)
    requires OneRunning(s) && OneRunning(w) && IdAt(w.tasks, w.current) == IdAt(s.tasks, s.current) && Reports(w, r, d)
    ensures Reports(s, r, d)
  {
    hide RunsAs, OneRunning, IdAt;
    forall id: Option<nat> ensures RunsAs(s, id) <==> RunsAs(w, id) {
      RunsCurrent(s, id);
      RunsCurrent(w, id);
    }
  }

  // ---------- whole runs ----------

  /** The operation lets a task in `state` be. */
  predicate Spares(op: Op, id: nat, state: TaskState) {
    match op
    case Schedule(now) => !Due(state, now)
    case Tick(now) => !Due(state, now)
    case Wake(x) => x != id || state.Exited?
    case ExitTask(x, _) => x != id
    case Reap(x) => x != id || !state.Exited?
    case _ => true
  }

  lemma {:induction false} StepSpares(s: State, op: Op, id: nat, state: TaskState)
    requires Inv(s) && Has(s, id, state) && !state.Ready? && !state.Running? && Spares(op, id, state)
    requires op.Spawn? ==> s.nextId + 1 < 0x1_0000_0000
    ensures Has(Apply(s, op), id, state)
  {
    hide Has, Inv, Scheduled, Ticked, Stopped, WokenTask, ExitedTask, Reaped, Spawned, Reports;
    InvParts(s);
    OneState(s, id, state);
    match op {
      case Schedule(now) => ScheduleExactly(s, now, id, state);
      case Tick(now) => TickExactly(s, now, id, state);
      case Sleep(wakeTick) => StopSpares(s, Sleeping(wakeTick), id, state);
      case Block => StopSpares(s, Blocked, id, state);
      case ExitCurrent(status) => StopSpares(s, Exited(status), id, state);
      case Wake(x) => WakeExactly(s, x, id, state);
      case ExitTask(x, status) => ExitExactly(s, x, status, id, state);
      case Reap(x) => ReapExactly(s, x, id, state);
      case Spawn(processId) =>
        SpawnExactly(s, processId, id, state);
        KnownHas(s, id, state);
    }
  }

  lemma InvParts(s: State)
    requires Inv(s)
    ensures OneRunning(s) && IdsOk(s)
  {
  }

  lemma {:induction false} OneState(s: State, id: nat, state: TaskState)
    requires IdsOk(s) && Has(s, id, state)
    ensures forall other: TaskState :: Has(s, id, other) ==> other == state
  {
    hide Has;
    var i := SlotOf(s, id, state);
    forall other: TaskState ensures Has(s, id, other) <==> other == state { HasAt(s, i, id, other); }
  }

  lemma {:induction false} StopSpares(s: State, next: TaskState, id: nat, state: TaskState)
    requires Inv(s) && !next.Running? && Has(s, id, state) && !state.Running?
    ensures Has(Stopped(s, next).0, id, state)
  {
    hide Has, Inv, Stopped;
    InvParts(s);
    OneState(s, id, state);
    StopExactly(s, next, id, state);
  }

  /**
    A blocked task stays blocked until it is woken or ended, a sleeping one also until
    a schedule or tick at its wake tick or later, and one that ended until it is reaped:
    whatever else happens, none of them runs.
   */
  lemma {:induction false} StaysAsleep(s: State, ops: seq<Op>, id: nat, state: TaskState)
    requires Inv(s) && IdsLast(s, ops) && Has(s, id, state) && !state.Ready? && !state.Running?
    requires forall k :: 0 <= k < |ops| ==> Spares(ops[k], id, state)
    ensures Has(Final(s, ops), id, state)
    decreases |ops|
  {
    hide Has, Inv, Apply, Spares;
    if ops != [] {
      var front := ops[..|ops| - 1];
      FrontIdsLast(s, ops);
      RunKeeps(s, front);
      StaysAsleep(s, front, id, state);
      assert Spares(ops[|ops| - 1], id, state);
      assert ops[|ops| - 1].Spawn? ==> Final(s, front).nextId + 1 < 0x1_0000_0000;
      StepSpares(Final(s, front), ops[|ops| - 1], id, state);
    }
  }

  /** From its wake tick on, a sleeper is ready or runs after the next schedule or tick. */
  lemma {:induction false} SleeperWakes(s: State, id: nat, wakeTick: nat, now: nat)
    requires Inv(s) && Has(s, id, Sleeping(wakeTick)) && wakeTick <= now
    ensures Has(Scheduled(s, now).0, id, Ready) || Has(Scheduled(s, now).0, id, Running)
    ensures Has(Ticked(s, now).0, id, Ready) || Has(Ticked(s, now).0, id, Running)
  {
    hide Has, Scheduled, Ticked, Reports;
    ScheduleExactly(s, now, id, Sleeping(wakeTick));
    TickExactly(s, now, id, Sleeping(wakeTick));
  }

  /** In every reachable state both decisions are true. */
  lemma {:induction false} ReachableReports(capacity: nat, quantum: nat, ops: seq<Op>, now: nat)
    requires IdsLast(Initial(capacity, quantum), ops)
    ensures var s := Final(Initial(capacity, quantum), ops);
      Reports(s, Scheduled(s, now).0, Scheduled(s, now).1) && Reports(s, Ticked(s, now).0, Ticked(s, now).1)
  {
    hide Final, IdsLast, Scheduled, Ticked, Reports;
    RunKeeps(Initial(capacity, quantum), ops);
    var s := Final(Initial(capacity, quantum), ops);
    ScheduleReports(s, now);
    TickReports(s, now);
  }

  lemma {:induction false} TickReports(s: State, now: nat)
    requires Inv(s)
    ensures Reports(s, Ticked(s, now).0, Ticked(s, now).1)
  {
    hide Woken, Reports, Scheduled, OneRunning, IdsOk;
    var woken := s.(tasks := Woken(s.tasks, now));
    var less := woken.(remaining := if s.remaining > 0 then s.remaining - 1 else 0);
    WokenKeeps(s, now);
    SameButRemaining(woken, less);
    CurrentRuns(s);
    CurrentRuns(woken);
    ReportsAlike(s, now, less);
    ReportsAlike(s, now, woken);
    if s.current.None? {
      ScheduleReports(woken, now);
      SameReports(s, woken, Ticked(s, now).0, Ticked(s, now).1);
    } else if less.remaining == 0 {
      ScheduleReports(less, now);
      SameReports(s, less, Ticked(s, now).0, Ticked(s, now).1);
    } else {
      ReportsCurrent(s, less, Ticked(s, now).1);
    }
  }
}
