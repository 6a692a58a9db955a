/**
  Round-robin scheduling as functions on the task table: what every operation keeps,
  and how long a ready task can wait.
 */
module Scheduler {
  import opened Arithmetic
  import opened Bytes

  datatype TaskState = Ready | Running | Sleeping(wakeTick: nat) | Blocked | Exited(status: int)
  datatype Task = Task(id: nat, processId: nat, state: TaskState)
  datatype SchedulerError = Full | NoCurrentTask | TaskNotFound
  datatype Result<+T> = Ok(value: T) | Err(error: SchedulerError)
  datatype Decision = Continue(id: nat) | Switch(previous: Option<nat>, next: nat) | Idle

  type Tasks = seq<Option<Task>>

  datatype State = State(tasks: Tasks, nextId: nat, current: Option<nat>, quantum: nat, remaining: nat)

  predicate Is(tasks: Tasks, i: nat, state: TaskState) {
    i < |tasks| && tasks[i].Some? && tasks[i].value.state == state
  }

  function WithState(tasks: Tasks, i: nat, state: TaskState): (r: Tasks)
    requires i < |tasks| && tasks[i].Some?
    ensures |r| == |tasks|
  {
    tasks[i := Some(tasks[i].value.(state := state))]
  }

  // ---------- the operations ----------

  function Awake(t: Option<Task>, now: nat): Option<Task> {
    if t.Some? && t.value.state.Sleeping? && t.value.state.wakeTick <= now then Some(t.value.(state := Ready)) else t
  }

  /** `wake_sleepers`. */
  function Woken(tasks: Tasks, now: nat): (r: Tasks)
    ensures |r| == |tasks| && forall i :: 0 <= i < |tasks| ==> r[i] == Awake(tasks[i], now)
  {
    if tasks == [] then [] else Woken(tasks[..|tasks| - 1], now) + [Awake(tasks[|tasks| - 1], now)]
  }

  /** The slot `k` places on from `start`, going round. */
  function Place(start: nat, k: nat, n: nat): (i: nat)
    requires n > 0
    ensures i < n
  {
    (start + k) % n
  }

  /** How many places from `start` on the first ready task is, `offset` or more. */
  function ReadyOffset(tasks: Tasks, start: nat, offset: nat): Option<nat>
    decreases |tasks| - offset
  {
    if offset >= |tasks| then None
    else if Is(tasks, Place(start, offset, |tasks|), Ready) then Some(offset)
    else ReadyOffset(tasks, start, offset + 1)
  }

  /** `find_ready_from`. */
  function ReadyFrom(tasks: Tasks, start: nat): (r: Option<nat>)
    ensures r.Some? ==> r.value < |tasks|
  {
    var k := ReadyOffset(tasks, start, 0);
    if k.Some? && tasks != [] then Some(Place(start, k.value, |tasks|)) else None
  }

  function IdAt(tasks: Tasks, i: Option<nat>): Option<nat> {
    if i.Some? && i.value < |tasks| && tasks[i.value].Some? then Some(tasks[i.value].value.id) else None
  }

  /** The table `schedule` searches: sleepers woken, the running task put back. */
  function Rested(s: State, now: nat): (r: Tasks)
    ensures |r| == |s.tasks|
  {
    var woken := Woken(s.tasks, now);
    if s.current.Some? && Is(woken, s.current.value, Running) then WithState(woken, s.current.value, Ready) else woken
  }

  function Start(s: State): nat {
    if s.current.Some? && s.tasks != [] then (s.current.value + 1) % |s.tasks| else 0
  }

  function Scheduled(s: State, now: nat): (State, Decision) {
    var tasks := Rested(s, now);
    var next := ReadyFrom(tasks, Start(s));
    if next.None? || tasks[next.value].None? then (s.(tasks := tasks, current := None), Idle)
    else
      var previous, id := IdAt(s.tasks, s.current), tasks[next.value].value.id;
      (s.(tasks := WithState(tasks, next.value, Running), current := next, remaining := s.quantum),
       if previous == Some(id) then Continue(id) else Switch(previous, id))
  }

  function Ticked(s: State, now: nat): (State, Decision) {
    var woken := s.(tasks := Woken(s.tasks, now));
    if woken.current.None? then Scheduled(woken, now)
    else if woken.current.value >= |woken.tasks| || woken.tasks[woken.current.value].None? then Scheduled(woken.(current := None), now)
    else if !Is(woken.tasks, woken.current.value, Running) then Scheduled(woken, now)
    else
      var less := woken.(remaining := if woken.remaining > 0 then woken.remaining - 1 else 0);
      if less.remaining == 0 then Scheduled(less, now) else (less, Continue(less.tasks[less.current.value].value.id))
  }

  /** `sleep_current`, `block_current` and `exit_current`. */
  function Stopped(s: State, state: TaskState): (State, Result<nat>) {
    if s.current.None? || s.current.value >= |s.tasks| || s.tasks[s.current.value].None? then (s, Err(NoCurrentTask))
    else (s.(tasks := WithState(s.tasks, s.current.value, state), current := None), Ok(s.tasks[s.current.value].value.id))
  }

  /** The first task with that id. */
  function FindTask(tasks: Tasks, id: nat, i: nat): (r: Option<nat>)
    ensures r.Some? ==> i <= r.value < |tasks| && tasks[r.value].Some? && tasks[r.value].value.id == id
    decreases |tasks| - i
  {
    if i >= |tasks| then None
    else if tasks[i].Some? && tasks[i].value.id == id then Some(i)
    else FindTask(tasks, id, i + 1)
  }

  function WokenTask(s: State, id: nat): (State, Result<()>) {
    match FindTask(s.tasks, id, 0)
    case None => (s, Err(TaskNotFound))
    case Some(i) =>
      var state := s.tasks[i].value.state;
      (if state.Blocked? || state.Sleeping? then s.(tasks := WithState(s.tasks, i, Ready)) else s, Ok(()))
  }

  function ExitedTask(s: State, id: nat, status: int): (State, Result<()>) {
    match FindTask(s.tasks, id, 0)
    case None => (s, Err(TaskNotFound))
    case Some(i) =>
      var tasks := WithState(s.tasks, i, Exited(status));
      (s.(tasks := tasks, current := if IdAt(tasks, s.current) == Some(id) then None else s.current), Ok(()))
  }

  function Reaped(s: State, id: nat): (State, Result<Task>) {
    match FindTask(s.tasks, id, 0)
    case None => (s, Err(TaskNotFound))
    case Some(i) =>
      if s.tasks[i].value.state.Exited? then (s.(tasks := s.tasks[i := None]), Ok(s.tasks[i].value)) else (s, Err(TaskNotFound))
  }

  function FreeSlot(tasks: Tasks, i: nat): (r: Option<nat>)
    ensures r.Some? ==> i <= r.value < |tasks| && tasks[r.value].None?
    decreases |tasks| - i
  {
    if i >= |tasks| then None else if tasks[i].None? then Some(i) else FreeSlot(tasks, i + 1)
  }

  function Spawned(s: State, processId: nat): (State, Result<nat>) {
    match FreeSlot(s.tasks, 0)
    case None => (s, Err(Full))
    case Some(i) =>
      (s.(tasks := s.tasks[i := Some(Task(s.nextId, processId, Ready))], nextId := if s.nextId + 1 >= 0x1_0000_0000 then 1 else s.nextId + 1),
       Ok(s.nextId))
  }

  // ---------- what every operation keeps ----------

  /** The current slot is the only one running. */
  ghost predicate OneRunning(s: State) {
    && (s.current.Some? ==> Is(s.tasks, s.current.value, Running))
    && forall i: nat :: Is(s.tasks, i, Running) ==> s.current == Some(i)
  }

  /** Ids are handed out once, as long as the counter has not come round. */
  ghost predicate IdsOk(s: State) {
    && (forall i: nat, j: nat :: i < j < |s.tasks| && s.tasks[i].Some? && s.tasks[j].Some? ==> s.tasks[i].value.id != s.tasks[j].value.id)
    && forall i: nat :: i < |s.tasks| && s.tasks[i].Some? ==> s.tasks[i].value.id < s.nextId
  }

  ghost predicate Inv(s: State) {
    OneRunning(s) && IdsOk(s) && if s.quantum == 0 then s.remaining == 0 else 0 < s.remaining <= s.quantum
  }

  datatype Op = Schedule(now: nat) | Tick(now: nat) | Sleep(wakeTick: nat) | Block | ExitCurrent(status: int)
    | Wake(id: nat) | ExitTask(id: nat, status: int) | Reap(id: nat) | Spawn(processId: nat)

  function Apply(s: State, op: Op): State {
    match op
    case Schedule(now) => Scheduled(s, now).0
    case Tick(now) => Ticked(s, now).0
    case Sleep(wakeTick) => Stopped(s, Sleeping(wakeTick)).0
    case Block => Stopped(s, Blocked).0
    case ExitCurrent(status) => Stopped(s, Exited(status)).0
    case Wake(id) => WokenTask(s, id).0
    case ExitTask(id, status) => ExitedTask(s, id, status).0
    case Reap(id) => Reaped(s, id).0
    case Spawn(processId) => Spawned(s, processId).0
  }

  lemma {:induction false} ReadyOffsetIs(tasks: Tasks, start: nat, offset: nat)
    requires tasks != []
    ensures var r := ReadyOffset(tasks, start, offset);
      && (r.Some? ==> offset <= r.value < |tasks| && Is(tasks, Place(start, r.value, |tasks|), Ready))
      && (forall k: nat :: offset <= k < (if r.Some? then r.value else |tasks|) ==> !Is(tasks, Place(start, k, |tasks|), Ready))
    decreases |tasks| - offset
  {
    hide Place;
    if offset < |tasks| && !Is(tasks, Place(start, offset, |tasks|), Ready) {
      ReadyOffsetIs(tasks, start, offset + 1);
    }
  }

  lemma {:induction false} ReadyFromIs(tasks: Tasks, start: nat)
    ensures ReadyFrom(tasks, start).Some? ==> Is(tasks, ReadyFrom(tasks, start).value, Ready)
  {
    hide Place, ReadyOffset;
    if tasks != [] {
      ReadyOffsetIs(tasks, start, 0);
    }
  }

  /** `schedule` keeps the invariant; with a current task it always picks one. */
  lemma {:induction false} ScheduledKeeps(s: State, now: nat)
    requires OneRunning(s) && IdsOk(s)
    ensures var r := Scheduled(s, now).0;
      && OneRunning(r) && IdsOk(r) && r.quantum == s.quantum
      && (r.current.Some? ==> r.remaining == s.quantum) && (r.current.None? ==> r.remaining == s.remaining)
      && (s.current.Some? ==> r.current.Some?)
  {
    hide Woken, ReadyFrom, IdAt, Rested, IdsOk;
    var tasks := Rested(s, now);
    ReadyFromIs(tasks, Start(s));
    RestedKeeps(s, now);
    RestedReady(s, now);
    if s.current.Some? {
      FoundAgain(tasks, s.current.value);
    }
    var r := Scheduled(s, now).0;
    IdsKept(s, r);
    forall i: nat ensures Is(r.tasks, i, Running) ==> r.current == Some(i) {
      assert !Is(tasks, i, Running);
    }
  }

  /** Going round once comes back to where it started. */
  lemma {:induction false} FoundAgain(tasks: Tasks, c: nat)
    requires Is(tasks, c, Ready)
    ensures ReadyFrom(tasks, (c + 1) % |tasks|).Some?
  {
    hide ReadyOffset, Place;
    var n := |tasks|;
    ReadyOffsetIs(tasks, (c + 1) % n, 0);
    Ahead(c, n - 1, n);
    assert Is(tasks, Place((c + 1) % n, n - 1, n), Ready);
  }

  /** The same tasks, whatever their states. */
  ghost predicate SameIds(a: Tasks, b: Tasks) {
    |a| == |b| && forall i: nat :: i < |a| ==> (a[i].Some? <==> b[i].Some?) && (a[i].Some? ==> a[i].value.id == b[i].value.id)
  }

  /** Nothing runs in the table that is searched, and ids stay. */
  lemma {:induction false} RestedKeeps(s: State, now: nat)
    requires OneRunning(s)
    ensures forall i: nat :: !Is(Rested(s, now), i, Running)
    ensures SameIds(s.tasks, Rested(s, now))
  {
    hide Woken;
    var woken := Woken(s.tasks, now);
    forall i: nat ensures !Is(Rested(s, now), i, Running) {
      assert Is(woken, i, Running) <==> Is(s.tasks, i, Running);
    }
    assert SameIds(s.tasks, woken);
  }

  lemma IdsKept(s: State, r: State)
    requires IdsOk(s) && SameIds(s.tasks, r.tasks) && r.nextId == s.nextId
    ensures IdsOk(r)
  {
  }

  /** The task that ran is ready in the table that is searched. */
  lemma {:induction false} RestedReady(s: State, now: nat)
    requires OneRunning(s)
    ensures s.current.Some? ==> Is(Rested(s, now), s.current.value, Ready)
    ensures forall i: nat :: Is(Woken(s.tasks, now), i, Ready) ==> Is(Rested(s, now), i, Ready)
  {
    hide Woken;
  }

  lemma {:induction false} WokenKeeps(s: State, now: nat)
    requires OneRunning(s) && IdsOk(s)
    ensures var w := s.(tasks := Woken(s.tasks, now)); OneRunning(w) && IdsOk(w)
  {
    hide Woken;
    var woken := Woken(s.tasks, now);
    forall i: nat ensures Is(woken, i, Running) <==> Is(s.tasks, i, Running) {}
  }

  lemma {:induction false} TickedKeeps(s: State, now: nat)
    requires Inv(s)
    ensures Inv(Ticked(s, now).0)
  {
    hide Woken, Scheduled, OneRunning, IdsOk;
    var woken := s.(tasks := Woken(s.tasks, now));
    WokenKeeps(s, now);
    CurrentRuns(woken);
    if s.current.None? {
      ScheduledKeeps(woken, now);
    } else {
      var less := woken.(remaining := if s.remaining > 0 then s.remaining - 1 else 0);
      SameButRemaining(woken, less);
      ScheduledKeeps(less, now);
    }
  }

  lemma CurrentRuns(s: State)
    requires OneRunning(s)
    ensures s.current.Some? ==> Is(s.tasks, s.current.value, Running)
  {
  }

  lemma SameButRemaining(s: State, r: State)
    requires OneRunning(s) && IdsOk(s) && r == s.(remaining := r.remaining, quantum := r.quantum)
    ensures OneRunning(r) && IdsOk(r)
  {
  }

  lemma {:induction false} StoppedKeeps(s: State, state: TaskState)
    requires Inv(s) && !state.Running?
    ensures Inv(Stopped(s, state).0)
  {
  }

  lemma {:induction false} WokenTaskKeeps(s: State, id: nat)
    requires Inv(s)
    ensures Inv(WokenTask(s, id).0)
  {
    hide FindTask;
  }

  lemma {:induction false} ExitedTaskKeeps(s: State, id: nat, status: int)
    requires Inv(s)
    ensures Inv(ExitedTask(s, id, status).0)
  {
    hide FindTask;
  }

  lemma {:induction false} ReapedKeeps(s: State, id: nat)
    requires Inv(s)
    ensures Inv(Reaped(s, id).0)
  {
    hide FindTask;
  }

  lemma {:induction false} SpawnedKeeps(s: State, processId: nat)
    requires Inv(s) && s.nextId + 1 < 0x1_0000_0000
    ensures Inv(Spawned(s, processId).0)
  {
    hide FreeSlot;
  }

  /** Every operation keeps the invariant, until the id counter comes round. */
  lemma {:induction false} ApplyKeeps(s: State, op: Op)
    requires Inv(s) && (op.Spawn? ==> s.nextId + 1 < 0x1_0000_0000)
    ensures Inv(Apply(s, op))
  {
    hide Scheduled, Ticked, Stopped, WokenTask, ExitedTask, Reaped, Spawned;
    match op {
      case Schedule(now) => ScheduledKeeps(s, now);
      case Tick(now) => TickedKeeps(s, now);
      case Sleep(wakeTick) => StoppedKeeps(s, Sleeping(wakeTick));
      case Block => StoppedKeeps(s, Blocked);
      case ExitCurrent(status) => StoppedKeeps(s, Exited(status));
      case Wake(id) => WokenTaskKeeps(s, id);
      case ExitTask(id, status) => ExitedTaskKeeps(s, id, status);
      case Reap(id) => ReapedKeeps(s, id);
      case Spawn(processId) => SpawnedKeeps(s, processId);
    }
  }

  // ---------- waiting ----------

  /** Places from slot `a` on to slot `b`, going round. */
  function Distance(a: nat, b: nat, n: nat): nat
    requires a < n && b < n
  {
    if a <= b then b - a else b + n - a
  }

  lemma {:induction false} Ahead(c: nat, k: nat, n: nat)
    requires c < n && k < n
    ensures Place((c + 1) % n, k, n) == if c + 1 + k < n then c + 1 + k else c + 1 + k - n
  {
    if c + 1 < n {
      DivModUnique(c + 1, n, 0, c + 1);
    } else {
      DivModUnique(c + 1, n, 1, 0);
    }
    var x := (c + 1) % n + k;
    if x < n {
      DivModUnique(x, n, 0, x);
    } else {
      DivModUnique(x, n, 1, x - n);
    }
  }

  /** Searching on from `c` finds task `i`, or one that is nearer. */
  lemma {:induction false} NearerFirst(tasks: Tasks, c: nat, i: nat)
    requires c < |tasks| && Is(tasks, i, Ready) && i != c
    ensures var r := ReadyFrom(tasks, (c + 1) % |tasks|);
      && r.Some? && r.value < |tasks|
      && (r.value == i || Distance(r.value, i, |tasks|) < Distance(c, i, |tasks|))
  {
    hide ReadyOffset, Place;
    var n := |tasks|;
    var start, d := (c + 1) % n, Distance(c, i, n) - 1;
    ReadyOffsetIs(tasks, start, 0);
    Ahead(c, d, n);
    assert Is(tasks, Place(start, d, n), Ready);
    Ahead(c, ReadyOffset(tasks, start, 0).value, n);
  }

  /** Each `schedule` runs the waiting task or comes strictly closer to it. */
  lemma {:induction false} Closer(s: State, now: nat, i: nat)
    requires OneRunning(s) && IdsOk(s) && s.current.Some? && Is(s.tasks, i, Ready)
    ensures var r := Scheduled(s, now).0;
      && r.current.Some? && r.current.value < |s.tasks| && s.current.value < |s.tasks| && |r.tasks| == |s.tasks|
      && (r.current.value == i || Distance(r.current.value, i, |s.tasks|) < Distance(s.current.value, i, |s.tasks|))
      && (r.current.value != i ==> Is(r.tasks, i, Ready))
  {
    hide Woken, ReadyFrom, IdAt, Rested, Distance;
    StillReady(s, now, i);
    ReadyFromIs(Rested(s, now), Start(s));
    NearerFirst(Rested(s, now), s.current.value, i);
  }

  lemma StillReady(s: State, now: nat, i: nat)
    requires OneRunning(s) && Is(s.tasks, i, Ready)
    ensures Is(Rested(s, now), i, Ready)
    ensures s.current.Some? ==> s.current.value != i
  {
    hide Woken;
  }

  /** How many more ticks the task in slot `i` may have to wait. */
  function Wait(s: State, i: nat): nat
    requires s.current.Some? && s.current.value < |s.tasks| && i < |s.tasks|
  {
    var d := Distance(s.current.value, i, |s.tasks|);
    (if d > 0 then d - 1 else 0) * s.quantum + s.remaining
  }

  /** Slot `i` waits behind a running task. */
  ghost predicate Waiting(s: State, i: nat) {
    Inv(s) && s.quantum > 0 && s.current.Some? && s.current.value < |s.tasks| && Is(s.tasks, i, Ready)
  }

  lemma {:induction false} WaitBound(s: State, i: nat)
    requires Waiting(s, i)
    ensures 0 < Wait(s, i) <= (|s.tasks| - 1) * s.quantum
  {
    var d := Distance(s.current.value, i, |s.tasks|);
    assert s.current.value != i;
    assert 0 < d < |s.tasks|;
    MulMono(d, |s.tasks| - 1, s.quantum);
    Distributes(s.quantum, d);
    assert (d - 1) * s.quantum == s.quantum * (d - 1);
  }

  /** A `schedule` runs the task or shortens its wait. */
  lemma {:induction false} ScheduleShortens(s: State, now: nat, i: nat)
    requires OneRunning(s) && IdsOk(s) && s.quantum > 0 && s.current.Some? && Is(s.tasks, i, Ready)
    ensures var r := Scheduled(s, now).0;
      && r.current.Some? && r.current.value < |r.tasks| && |r.tasks| == |s.tasks| && s.current.value < |s.tasks|
      && (r.current.value != i ==> Waiting(r, i) && Wait(r, i) + s.remaining <= Wait(s, i))
  {
    hide Scheduled, OneRunning, IdsOk;
    ScheduledKeeps(s, now);
    Closer(s, now, i);
    var r := Scheduled(s, now).0;
    if r.current.value != i {
      var d, e := Distance(s.current.value, i, |s.tasks|), Distance(r.current.value, i, |s.tasks|);
      MulMono(e, d - 1, s.quantum);
      Distributes(s.quantum, e);
      assert (e - 1) * s.quantum == s.quantum * (e - 1) && e * s.quantum == s.quantum * e;
    }
  }

  /** A `tick` runs the task or shortens its wait by one. */
  lemma {:induction false} TickShortens(s: State, now: nat, i: nat)
    requires Waiting(s, i)
    ensures var r := Ticked(s, now).0;
      && r.current.Some? && r.current.value < |r.tasks| && |r.tasks| == |s.tasks|
      && (r.current.value != i ==> Waiting(r, i) && Wait(r, i) + 1 <= Wait(s, i))
  {
    hide Scheduled, OneRunning, IdsOk, Woken;
    TickedKeeps(s, now);
    var woken := s.(tasks := Woken(s.tasks, now));
    WokenKeeps(s, now);
    CurrentRuns(woken);
    var less := woken.(remaining := s.remaining - 1);
    SameButRemaining(woken, less);
    if less.remaining == 0 {
      ScheduleShortens(less, now, i);
    }
  }

  /** What can happen while the current task is left alone. */
  predicate LeavesCurrent(s: State, op: Op) {
    match op
    case Schedule(_) | Tick(_) | Wake(_) | Reap(_) | Spawn(_) => true
    case ExitTask(id, _) => IdAt(s.tasks, s.current) != Some(id)
    case _ => false
  }

  /** Other operations leave the wait as it is, as long as the task stays ready. */
  lemma {:induction false} OthersKeepWait(s: State, op: Op, i: nat)
    requires Waiting(s, i) && LeavesCurrent(s, op) && !op.Schedule? && !op.Tick? && (op.Spawn? ==> s.nextId + 1 < 0x1_0000_0000)
    requires Is(Apply(s, op).tasks, i, Ready)
    ensures Waiting(Apply(s, op), i) && |Apply(s, op).tasks| == |s.tasks| && Wait(Apply(s, op), i) == Wait(s, i)
  {
    hide FindTask, FreeSlot, Inv;
    ApplyKeeps(s, op);
    var r := Apply(s, op);
    assert r.current == s.current && r.remaining == s.remaining && r.quantum == s.quantum;
  }

  // ---------- whole runs ----------

  function Final(s: State, ops: seq<Op>): State {
    if ops == [] then s else Apply(Final(s, ops[..|ops| - 1]), ops[|ops| - 1])
  }

  /** `with_quantum`: no tasks yet. */
  function Initial(capacity: nat, quantum: nat): State {
    State(seq(capacity, i => None), 1, None, quantum, quantum)
  }

  /** The id counter does not come round during the run. */
  ghost predicate IdsLast(s: State, ops: seq<Op>) {
    forall k: nat :: k < |ops| && ops[k].Spawn? ==> Final(s, ops[..k]).nextId + 1 < 0x1_0000_0000
  }

  lemma {:induction false} RunKeeps(s: State, ops: seq<Op>)
    requires Inv(s) && IdsLast(s, ops)
    ensures Inv(Final(s, ops))
  {
    hide Inv, Apply;
    if ops != [] {
      var front := ops[..|ops| - 1];
      forall k: nat | k < |front| ensures front[k] == ops[k] && front[..k] == ops[..k] {}
      assert IdsLast(s, front);
      RunKeeps(s, front);
      ApplyKeeps(Final(s, front), ops[|ops| - 1]);
    }
  }

  /** In every reachable state the current task is the running one, and the only one. */
  lemma {:induction false} ReachableOneRunning(capacity: nat, quantum: nat, ops: seq<Op>, i: nat)
    requires IdsLast(Initial(capacity, quantum), ops)
    ensures var s := Final(Initial(capacity, quantum), ops); s.current == Some(i) <==> Is(s.tasks, i, Running)
  {
    hide Final, IdsLast;
    RunKeeps(Initial(capacity, quantum), ops);
  }

  /** Schedules and ticks in a run. */
  function Turns(ops: seq<Op>): nat {
    if ops == [] then 0 else Turns(ops[..|ops| - 1]) + if ops[|ops| - 1].Schedule? || ops[|ops| - 1].Tick? then 1 else 0
  }

  /** A run that leaves current tasks alone and in which slot `i` stays ready without ever running. */
  ghost predicate Starved(s: State, ops: seq<Op>, i: nat) {
    forall k: nat :: k < |ops| ==>
      var at := Final(s, ops[..k]);
      LeavesCurrent(at, ops[k]) && Is(Apply(at, ops[k]).tasks, i, Ready) && (ops[k].Spawn? ==> at.nextId + 1 < 0x1_0000_0000)
  }

  /** No task waits for (TASKS - 1) * quantum ticks or schedules. */
  lemma {:induction false} BoundedWaiting(s: State, ops: seq<Op>, i: nat)
    requires Waiting(s, i) && Starved(s, ops, i)
    ensures Turns(ops) < (|s.tasks| - 1) * s.quantum
  {
    WaitShrinks(s, ops, i);
    WaitBound(s, i);
    WaitBound(Final(s, ops), i);
  }

  lemma {:induction false} WaitShrinks(s: State, ops: seq<Op>, i: nat)
    requires Waiting(s, i) && Starved(s, ops, i)
    ensures Waiting(Final(s, ops), i) && |Final(s, ops).tasks| == |s.tasks| && Wait(Final(s, ops), i) + Turns(ops) <= Wait(s, i)
    decreases |ops|
  {
    hide Waiting, Apply, Wait, LeavesCurrent;
    if ops != [] {
      var front, op := ops[..|ops| - 1], ops[|ops| - 1];
      forall k: nat | k < |front| ensures front[k] == ops[k] && front[..k] == ops[..k] {}
      assert Starved(s, front, i);
      WaitShrinks(s, front, i);
      OneTurn(Final(s, front), op, i);
    }
  }

  lemma {:induction false} OneTurn(s: State, op: Op, i: nat)
    requires Waiting(s, i) && LeavesCurrent(s, op) && Is(Apply(s, op).tasks, i, Ready) && (op.Spawn? ==> s.nextId + 1 < 0x1_0000_0000)
    ensures Waiting(Apply(s, op), i) && |Apply(s, op).tasks| == |s.tasks|
    ensures Wait(Apply(s, op), i) + (if op.Schedule? || op.Tick? then 1 else 0) <= Wait(s, i)
  {
    hide Scheduled, Ticked;
    ApplyKeeps(s, op);
    if op.Schedule? {
      ScheduleShortens(s, op.now, i);
      NotRunning(Apply(s, op), i);
    } else if op.Tick? {
      TickShortens(s, op.now, i);
      NotRunning(Apply(s, op), i);
    } else {
      OthersKeepWait(s, op, i);
    }
  }

  lemma NotRunning(s: State, i: nat)
    requires OneRunning(s) && Is(s.tasks, i, Ready)
    ensures s.current != Some(i)
  {
  }

  /** Calls of `schedule` in a run. */
  function Schedules(ops: seq<Op>): nat {
    if ops == [] then 0 else Schedules(ops[..|ops| - 1]) + if ops[|ops| - 1].Schedule? then 1 else 0
  }

  /** No task waits for TASKS - 1 schedules. */
  lemma {:induction false} BoundedSchedules(s: State, ops: seq<Op>, i: nat)
    requires Waiting(s, i) && Starved(s, ops, i)
    ensures Schedules(ops) < |s.tasks| - 1
  {
    hide Final, Starved, Inv, Distance;
    DistanceShrinks(s, ops, i);
    WaitingDistance(s, i);
    WaitingDistance(Final(s, ops), i);
  }

  lemma WaitingDistance(s: State, i: nat)
    requires Waiting(s, i)
    ensures 0 < Distance(s.current.value, i, |s.tasks|) < |s.tasks|
  {
    NotRunning(s, i);
  }

  lemma {:induction false} DistanceShrinks(s: State, ops: seq<Op>, i: nat)
    requires Waiting(s, i) && Starved(s, ops, i)
    ensures Waiting(Final(s, ops), i) && |Final(s, ops).tasks| == |s.tasks|
    ensures Distance(Final(s, ops).current.value, i, |s.tasks|) + Schedules(ops) <= Distance(s.current.value, i, |s.tasks|)
    decreases |ops|
  {
    hide Apply, LeavesCurrent, Inv, Distance;
    if ops != [] {
      var front, op := ops[..|ops| - 1], ops[|ops| - 1];
      forall k: nat | k < |front| ensures front[k] == ops[k] && front[..k] == ops[..k] {}
      assert Starved(s, front, i);
      DistanceShrinks(s, front, i);
      OneTurn(Final(s, front), op, i);
      OneStepNearer(Final(s, front), op, i);
    }
  }

  lemma {:induction false} OneStepNearer(s: State, op: Op, i: nat)
    requires Waiting(s, i) && LeavesCurrent(s, op) && Is(Apply(s, op).tasks, i, Ready) && (op.Spawn? ==> s.nextId + 1 < 0x1_0000_0000)
    requires Waiting(Apply(s, op), i) && |Apply(s, op).tasks| == |s.tasks|
    ensures Distance(Apply(s, op).current.value, i, |s.tasks|) + (if op.Schedule? then 1 else 0) <= Distance(s.current.value, i, |s.tasks|)
  {
    hide Scheduled, Woken, FindTask, FreeSlot, Distance;
    NotRunning(Apply(s, op), i);
    if op.Schedule? {
      Closer(s, op.now, i);
    } else if op.Tick? {
      var woken := s.(tasks := Woken(s.tasks, op.now));
      WokenKeeps(s, op.now);
      CurrentRuns(woken);
      var less := woken.(remaining := s.remaining - 1);
      SameButRemaining(woken, less);
      if less.remaining == 0 {
        Closer(less, op.now, i);
      }
    } else {
      assert Apply(s, op).current == s.current;
    }
  }

  // ---------- all runs ----------

  /** The operation takes the processor from the current task without passing it on. */
  predicate Stops(s: State, op: Op) {
    s.current.Some? && Apply(s, op).current.None?
  }

  /** How often a current task was stopped. */
  function StopCount(s: State, ops: seq<Op>): nat {
    if ops == [] then 0
    else StopCount(s, ops[..|ops| - 1]) + if Stops(Final(s, ops[..|ops| - 1]), ops[|ops| - 1]) then 1 else 0
  }

  /** A run in which slot `i` stays ready without ever running. */
  ghost predicate Neglected(s: State, ops: seq<Op>, i: nat) {
    forall k: nat :: k < |ops| ==>
      var at := Final(s, ops[..k]);
      Is(Apply(at, ops[k]).tasks, i, Ready) && (ops[k].Spawn? ==> at.nextId + 1 < 0x1_0000_0000)
  }

  /** One more than the longest wait behind a running task. */
  function Round(s: State): nat {
    (if s.tasks == [] then 0 else |s.tasks| - 1) * (if s.quantum == 0 then 1 else s.quantum) + 1
  }

  function Potential(s: State, i: nat): nat {
    if s.current.Some? && s.current.value < |s.tasks| && i < |s.tasks| then Wait(s, i) else Round(s)
  }

  lemma {:induction false} FoundFromStart(tasks: Tasks, i: nat)
    requires Is(tasks, i, Ready)
    ensures ReadyFrom(tasks, 0).Some?
  {
    hide ReadyOffset, Place;
    ReadyOffsetIs(tasks, 0, 0);
    assert Place(0, i, |tasks|) == i by { PlaceFromStart(i, |tasks|); }
  }

  lemma PlaceFromStart(i: nat, n: nat)
    requires i < n
    ensures Place(0, i, n) == i
  {
  }

  /** Without a current task, `schedule` finds one. */
  lemma {:induction false} ScheduleFinds(s: State, now: nat, i: nat)
    requires Inv(s) && s.current.None? && Is(s.tasks, i, Ready)
    ensures var r := Scheduled(s, now).0;
      r.current.Some? && Inv(r) && |r.tasks| == |s.tasks| && r.quantum == s.quantum && r.current.value < |r.tasks|
  {
    hide Woken, ReadyFrom, IdAt, Rested, OneRunning, IdsOk;
    ScheduledKeeps(s, now);
    StillReady(s, now, i);
    FoundFromStart(Rested(s, now), i);
    ReadyFromIs(Rested(s, now), Start(s));
  }

  lemma {:induction false} TickFinds(s: State, now: nat, i: nat)
    requires Inv(s) && s.current.None? && Is(s.tasks, i, Ready)
    ensures var r := Ticked(s, now).0;
      r.current.Some? && Inv(r) && |r.tasks| == |s.tasks| && r.quantum == s.quantum && r.current.value < |r.tasks|
  {
    hide Woken, Scheduled, OneRunning, IdsOk;
    WokenKeeps(s, now);
    ScheduleFinds(s.(tasks := Woken(s.tasks, now)), now, i);
  }

  lemma {:induction false} PotentialBound(s: State, i: nat)
    requires Inv(s) && s.quantum > 0 && Is(s.tasks, i, Ready)
    ensures 0 < Potential(s, i) <= Round(s)
    ensures s.current.Some? ==> Waiting(s, i) && Potential(s, i) < Round(s)
  {
    hide Wait, IdsOk;
    if s.current.Some? {
      WaitBound(s, i);
    }
  }

  /** Every turn uses up one unit, and only stopping a task gives new ones. */
  lemma {:induction false} PotentialStep(s: State, op: Op, i: nat)
    requires Inv(s) && s.quantum > 0 && Is(s.tasks, i, Ready) && Is(Apply(s, op).tasks, i, Ready)
    requires op.Spawn? ==> s.nextId + 1 < 0x1_0000_0000
    ensures Inv(Apply(s, op)) && Apply(s, op).quantum == s.quantum && Round(Apply(s, op)) == Round(s)
    ensures Potential(Apply(s, op), i) + (if op.Schedule? || op.Tick? then 1 else 0)
            <= Potential(s, i) + (if Stops(s, op) then Round(s) else 0)
  {
    hide Inv, Scheduled, Ticked, Wait, Round, FindTask, FreeSlot;
    ApplyKeeps(s, op);
    SameRound(s, op, i);
    PotentialBound(s, i);
    PotentialBound(Apply(s, op), i);
    if s.current.Some? {
      if LeavesCurrent(s, op) {
        OneTurn(s, op, i);
        PotentialIsWait(s, i);
        PotentialIsWait(Apply(s, op), i);
      } else {
        StoppedNow(s, op);
      }
    } else if op.Schedule? {
      ScheduleFinds(s, op.now, i);
    } else if op.Tick? {
      TickFinds(s, op.now, i);
    } else {
      assert Apply(s, op).current.None?;
    }
  }

  lemma PotentialIsWait(s: State, i: nat)
    requires Waiting(s, i)
    ensures Potential(s, i) == Wait(s, i)
  {
  }

  lemma {:induction false} StoppedNow(s: State, op: Op)
    requires Inv(s) && s.current.Some? && !LeavesCurrent(s, op)
    ensures Stops(s, op)
  {
    hide IdsOk;
    CurrentRuns(s);
    if op.ExitTask? {
      FindCurrent(s, op.id);
    }
  }

  lemma {:induction false} FindCurrent(s: State, id: nat)
    requires Inv(s) && s.current.Some? && IdAt(s.tasks, s.current) == Some(id)
    ensures FindTask(s.tasks, id, 0).Some?
    ensures forall state :: IdAt(WithState(s.tasks, FindTask(s.tasks, id, 0).value, state), s.current) == Some(id)
  {
    FoundTask(s.tasks, id, 0, s.current.value);
  }

  lemma {:induction false} FoundTask(tasks: Tasks, id: nat, k: nat, i: nat)
    requires k <= i < |tasks| && tasks[i].Some? && tasks[i].value.id == id
    ensures FindTask(tasks, id, k).Some?
    decreases i - k
  {
    if k < i {
      FoundTask(tasks, id, k + 1, i);
    }
  }

  lemma {:induction false} SameRound(s: State, op: Op, i: nat)
    requires Inv(s)
    ensures |Apply(s, op).tasks| == |s.tasks| && Apply(s, op).quantum == s.quantum && Round(Apply(s, op)) == Round(s)
  {
    hide Inv, Woken, ReadyFrom, FindTask, FreeSlot;
  }

  /**
    Over any run, a task that stays ready waits for fewer turns than make up one round,
    and another for each time a current task was stopped; whether or not one runs to begin with.
   */
  lemma {:induction false} BoundedByStops(s: State, ops: seq<Op>, i: nat)
    requires Inv(s) && Is(s.tasks, i, Ready) && Neglected(s, ops, i)
    ensures Turns(ops) < (StopCount(s, ops) + 1) * Round(s)
  {
    hide Inv, Round, Neglected, StopCount;
    var z := if s.quantum == 0 then AtOne(s) else s;
    if s.quantum == 0 {
      NeglectedAtOne(s, ops, i);
      ZeroIsOne(s, ops);
      AtOneRound(s);
    }
    PotentialShrinks(z, ops, i);
    PotentialBound(z, i);
    PotentialBound(Final(z, ops), i);
    MulPlusOne(StopCount(s, ops), Round(s));
  }

  // ---------- a quantum of zero ----------

  /** The same state with a quantum of one tick. */
  function AtOne(s: State): State {
    s.(quantum := 1, remaining := 1)
  }

  lemma AtOneRound(s: State)
    requires Inv(s) && s.quantum == 0
    ensures Inv(AtOne(s)) && Round(AtOne(s)) == Round(s)
  {
  }

  lemma {:induction false} ScheduledAtOne(s: State, now: nat)
    requires s.quantum == 0
    ensures Scheduled(AtOne(s), now) == (AtOne(Scheduled(s, now).0), Scheduled(s, now).1) && Scheduled(s, now).0.quantum == 0
  {
    hide Woken, ReadyFrom, IdAt, WithState;
    assert Rested(AtOne(s), now) == Rested(s, now) && Start(AtOne(s)) == Start(s);
  }

  lemma {:induction false} TickedAtOne(s: State, now: nat)
    requires Inv(s) && s.quantum == 0
    ensures Ticked(AtOne(s), now) == (AtOne(Ticked(s, now).0), Ticked(s, now).1) && Ticked(s, now).0.quantum == 0
  {
    hide Woken, Scheduled, OneRunning, IdsOk;
    var woken := s.(tasks := Woken(s.tasks, now));
    ScheduledAtOne(woken, now);
    ScheduledAtOne(woken.(current := None), now);
    SameButRest(woken, now);
    WokenKeeps(s, now);
    CurrentRuns(woken);
    SameButRemaining(woken, AtOne(woken).(remaining := 0));
    ScheduledKeeps(AtOne(woken).(remaining := 0), now);
  }

  /** What is left of the quantum does not matter to `schedule`, if it finds a task. */
  lemma {:induction false} SameButRest(s: State, now: nat)
    requires s.quantum == 0 && s.remaining == 0
    ensures Scheduled(AtOne(s).(remaining := 0), now).1 == Scheduled(s, now).1
    ensures Scheduled(AtOne(s).(remaining := 0), now).0.current.Some? ==>
      Scheduled(AtOne(s).(remaining := 0), now).0 == AtOne(Scheduled(s, now).0)
  {
  }

  lemma {:induction false} StepAtOne(s: State, op: Op)
    requires Inv(s) && s.quantum == 0
    ensures Apply(AtOne(s), op) == AtOne(Apply(s, op)) && Apply(s, op).quantum == 0 && Stops(AtOne(s), op) == Stops(s, op)
    ensures op.Tick? ==> Ticked(AtOne(s), op.now).1 == Ticked(s, op.now).1
  {
    hide Scheduled, Ticked, FindTask, FreeSlot, OneRunning, IdsOk;
    match op {
      case Schedule(now) => ScheduledAtOne(s, now);
      case Tick(now) => TickedAtOne(s, now);
      case _ =>
    }
  }

  /** `with_quantum(0)` behaves as a quantum of one tick does: every tick schedules. */
  lemma {:induction false} ZeroIsOne(s: State, ops: seq<Op>)
    requires Inv(s) && s.quantum == 0 && IdsLast(s, ops)
    ensures Final(AtOne(s), ops) == AtOne(Final(s, ops)) && Inv(Final(s, ops)) && Final(s, ops).quantum == 0
    ensures StopCount(AtOne(s), ops) == StopCount(s, ops)
    decreases |ops|
  {
    hide Inv, Apply, Stops, AtOne;
    if ops != [] {
      var front := ops[..|ops| - 1];
      FrontIdsLast(s, ops);
      ZeroIsOne(s, front);
      RunKeeps(s, ops);
      StepAtOne(Final(s, front), ops[|ops| - 1]);
    }
  }

  lemma FrontIdsLast(s: State, ops: seq<Op>)
    requires ops != [] && IdsLast(s, ops)
    ensures IdsLast(s, ops[..|ops| - 1])
  {
    hide Final;
    var front := ops[..|ops| - 1];
    forall k: nat | k < |front| && front[k].Spawn? ensures Final(s, front[..k]).nextId + 1 < 0x1_0000_0000 {
      assert front[..k] == ops[..k];
    }
  }

  lemma {:induction false} NeglectedAtOne(s: State, ops: seq<Op>, i: nat)
    requires Inv(s) && s.quantum == 0 && Neglected(s, ops, i)
    ensures IdsLast(s, ops) && Neglected(AtOne(s), ops, i)
  {
    hide Inv, Apply, Final;
    forall k: nat | k < |ops|
      ensures Final(AtOne(s), ops[..k]) == AtOne(Final(s, ops[..k])) && Apply(Final(AtOne(s), ops[..k]), ops[k]) == AtOne(Apply(Final(s, ops[..k]), ops[k]))
    {
      PrefixIdsLast(s, ops, i, k);
      ZeroIsOne(s, ops[..k]);
      StepAtOne(Final(s, ops[..k]), ops[k]);
    }
  }

  lemma PrefixIdsLast(s: State, ops: seq<Op>, i: nat, k: nat)
    requires Neglected(s, ops, i) && k <= |ops|
    ensures IdsLast(s, ops[..k])
  {
    hide Final, Apply;
    forall j: nat | j < k && ops[..k][j].Spawn? ensures Final(s, ops[..k][..j]).nextId + 1 < 0x1_0000_0000 {
      assert ops[..k][..j] == ops[..j];
    }
  }

  lemma {:induction false} PotentialShrinks(s: State, ops: seq<Op>, i: nat)
    requires Inv(s) && s.quantum > 0 && Is(s.tasks, i, Ready) && Neglected(s, ops, i)
    ensures var f := Final(s, ops); Inv(f) && f.quantum > 0 && Is(f.tasks, i, Ready) && Round(f) == Round(s)
    ensures Potential(Final(s, ops), i) + Turns(ops) <= Potential(s, i) + StopCount(s, ops) * Round(s)
    decreases |ops|
  {
    hide Inv, Apply, Potential, Round;
    if ops != [] {
      var front, op := ops[..|ops| - 1], ops[|ops| - 1];
      forall k: nat | k < |front| ensures front[k] == ops[k] && front[..k] == ops[..k] {}
      assert Neglected(s, front, i);
      PotentialShrinks(s, front, i);
      PotentialStep(Final(s, front), op, i);
      MulPlusOne(StopCount(s, front), Round(s));
    }
  }

  // ---------- why the current task must be left alone ----------

  /** Two ready tasks, none running. */
  function TwoReady(quantum: nat): State {
    State([Some(Task(1, 1, Ready)), Some(Task(2, 2, Ready))], 3, None, quantum, quantum)
  }

  /** The first task runs, blocks, and is woken; over and over. */
  function BlockingRounds(rounds: nat): seq<Op> {
    if rounds == 0 then [] else BlockingRounds(rounds - 1) + [Schedule(0)] + [Block] + [Wake(1)]
  }

  /** Without a current task the search starts over at slot 0, and the second task starves. */
  lemma {:induction false} BlockingStarves(quantum: nat, rounds: nat)
    ensures Final(TwoReady(quantum), BlockingRounds(rounds)) == TwoReady(quantum) && Schedules(BlockingRounds(rounds)) == rounds
    ensures Is(Scheduled(TwoReady(quantum), 0).0.tasks, 1, Ready) && Inv(TwoReady(quantum))
    ensures TwoReady(quantum) == Final(Initial(2, quantum), [Spawn(1), Spawn(2)])
  {
    hide Apply, Scheduled, Final, Schedules, TwoReady, Inv;
    var s := TwoReady(quantum);
    TwoSpawned(quantum);
    RoundOf(quantum);
    TwoReadyOk(quantum);
    NoOps(s);
    if rounds > 0 {
      BlockingStarves(quantum, rounds - 1);
      var a := BlockingRounds(rounds - 1);
      FinalStep(s, a, Schedule(0));
      FinalStep(s, a + [Schedule(0)], Block);
      FinalStep(s, a + [Schedule(0)] + [Block], Wake(1));
    }
  }

  lemma {:induction false} TwoSpawned(quantum: nat)
    ensures TwoReady(quantum) == Final(Initial(2, quantum), [Spawn(1), Spawn(2)])
  {
    hide Apply, Final;
    var s, a := Initial(2, quantum), [Spawn(1)];
    NoOps(s);
    FinalStep(s, [], Spawn(1));
    FinalStep(s, a, Spawn(2));
    assert [] + [Spawn(1)] == a && a + [Spawn(2)] == [Spawn(1), Spawn(2)];
    SpawnsBoth(quantum);
  }

  lemma SpawnsBoth(quantum: nat)
    ensures Apply(Apply(Initial(2, quantum), Spawn(1)), Spawn(2)) == TwoReady(quantum)
  {
    var s := Initial(2, quantum);
    assert FreeSlot(s.tasks, 0) == Some(0);
    var a := Apply(s, Spawn(1));
    assert a.tasks[0].Some? && a.tasks[1].None?;
    assert FreeSlot(a.tasks, 1) == Some(1) && FreeSlot(a.tasks, 0) == Some(1);
    assert Apply(a, Spawn(2)).tasks == TwoReady(quantum).tasks;
  }

  lemma TwoReadyOk(quantum: nat)
    ensures Inv(TwoReady(quantum))
  {
  }

  lemma NoOps(s: State)
    ensures Final(s, []) == s && Schedules([]) == 0
  {
  }

  lemma FinalStep(s: State, ops: seq<Op>, op: Op)
    ensures Final(s, ops + [op]) == Apply(Final(s, ops), op)
    ensures Schedules(ops + [op]) == Schedules(ops) + if op.Schedule? then 1 else 0
  {
    assert (ops + [op])[..|ops|] == ops;
  }

  lemma {:induction false} RoundOf(quantum: nat)
    ensures var s := TwoReady(quantum);
      && Is(Scheduled(s, 0).0.tasks, 1, Ready)
      && Apply(Apply(Apply(s, Schedule(0)), Block), Wake(1)) == s
  {
    var s := TwoReady(quantum);
    assert Woken(s.tasks, 0) == s.tasks;
    assert ReadyOffset(s.tasks, 0, 0) == Some(0);
    var a := Apply(s, Schedule(0));
    assert a.tasks == [Some(Task(1, 1, Running)), s.tasks[1]] && a.current == Some(0);
    var b := Apply(a, Block);
    assert b.tasks == [Some(Task(1, 1, Blocked)), s.tasks[1]] && b.current == None;
    assert FindTask(b.tasks, 1, 0) == Some(0);
  }
}
