/**
  The scheduler over its in-place task table.
 */
module RoundRobin {
  import opened Bytes
  import opened Scheduler

  /** `context_switches` counts the decisions that switch, and saturates. */
  function Counted(switches: nat, d: Decision): nat {
    if d.Switch? && switches < 0xffff_ffff_ffff_ffff then switches + 1 else switches
  }

  class RoundRobinScheduler {
    const tasks: array<Option<Task>>
    var nextId: nat
    var current: Option<nat>
    const quantum: nat
    var remaining: nat
    var switches: nat

    ghost function S(): State
      reads this, tasks
    {
      State(tasks[..], nextId, current, quantum, remaining)
    }

    ghost predicate Valid()
      reads this, tasks
    {
      Inv(S())
    }

    constructor (slots: nat, ticks: nat)
      ensures Valid() && fresh(tasks) && S() == Initial(slots, ticks)
    {
      tasks := new Option<Task>[slots](_ => None);
      nextId := 1;
      current := None;
      quantum := ticks;
      remaining := ticks;
      switches := 0;
      new;
      assert tasks[..] == seq(slots, _ => None);
    }

    method WakeSleepers(now: nat)
      modifies tasks
      ensures tasks[..] == Woken(old(tasks[..]), now)
    {
      for i := 0 to tasks.Length
        invariant forall j :: 0 <= j < i ==> tasks[j] == Awake(old(tasks[..])[j], now)
        invariant forall j :: i <= j < tasks.Length ==> tasks[j] == old(tasks[..])[j]
      {
        if tasks[i].Some? && tasks[i].value.state.Sleeping? && tasks[i].value.state.wakeTick <= now {
          tasks[i] := Some(tasks[i].value.(state := Ready));
        }
      }
    }

    method FindReadyFrom(start: nat) returns (r: Option<nat>)
      ensures r == ReadyFrom(tasks[..], start)
    {
      hide Place;
      if tasks.Length == 0 {
        return None;
      }
      for offset := 0 to tasks.Length
        invariant ReadyOffset(tasks[..], start, offset) == ReadyOffset(tasks[..], start, 0)
      {
        var index := Place(start, offset, tasks.Length);
        if tasks[index].Some? && tasks[index].value.state == Ready {
          return Some(index);
        }
      }
      r := None;
    }

    method ScheduleNext(now: nat) returns (d: Decision)
      requires OneRunning(S()) && IdsOk(S())
      modifies this, tasks
      ensures (S(), d) == Scheduled(old(S()), now) && OneRunning(S()) && IdsOk(S())
      ensures switches == Counted(old(switches), d)
    {
      hide Woken, ReadyOffset, Place, OneRunning, IdsOk;
      ghost var before := S();
      CurrentRuns(before);
      ScheduledKeeps(before, now);
      WakeSleepers(now);
      var previous := if current.Some? then Some(tasks[current.value].value.id) else None;
      if current.Some? && tasks[current.value].Some? && tasks[current.value].value.state == Running {
        tasks[current.value] := Some(tasks[current.value].value.(state := Ready));
      }
      assert tasks[..] == Rested(before, now);
      var start := if current.Some? then (current.value + 1) % tasks.Length else 0;
      var next := FindReadyFrom(start);
      ReadyFromIs(tasks[..], start);
      if next.None? {
        current := None;
        return Idle;
      }
      var id := tasks[next.value].value.id;
      tasks[next.value] := Some(tasks[next.value].value.(state := Running));
      current := next;
      remaining := quantum;
      if previous == Some(id) {
        d := Continue(id);
      } else {
        switches := if switches < 0xffff_ffff_ffff_ffff then switches + 1 else switches;
        d := Switch(previous, id);
      }
    }

    method TickOnce(now: nat) returns (d: Decision)
      requires Valid()
      modifies this, tasks
      ensures Valid() && (S(), d) == Ticked(old(S()), now)
      ensures switches == Counted(old(switches), d)
    {
      hide Woken, Scheduled, OneRunning, IdsOk;
      ghost var before := S();
      TickedKeeps(before, now);
      WokenKeeps(before, now);
      WakeSleepers(now);
      CurrentRuns(S());
      if current.None? {
        d := ScheduleNext(now);
        return;
      }
      SameButRemaining(S(), S().(remaining := if remaining > 0 then remaining - 1 else 0));
      remaining := if remaining > 0 then remaining - 1 else 0;
      if remaining == 0 {
        d := ScheduleNext(now);
      } else {
        d := Continue(tasks[current.value].value.id);
      }
    }

    /** `sleep_current`, `block_current`, `exit_current`: the current task stops. */
    method StopCurrent(state: TaskState) returns (r: Result<nat>)
      requires Valid() && !state.Running?
      modifies this, tasks
      ensures Valid() && (S(), r) == Stopped(old(S()), state)
    {
      StoppedKeeps(S(), state);
      if current.None? {
        return Err(NoCurrentTask);
      }
      var index := current.value;
      var id := tasks[index].value.id;
      tasks[index] := Some(tasks[index].value.(state := state));
      current := None;
      r := Ok(id);
    }

    method Position(id: nat) returns (r: Option<nat>)
      ensures r == FindTask(tasks[..], id, 0)
    {
      for i := 0 to tasks.Length
        invariant FindTask(tasks[..], id, i) == FindTask(tasks[..], id, 0)
      {
        if tasks[i].Some? && tasks[i].value.id == id {
          return Some(i);
        }
      }
      r := None;
    }

    method WakeTask(id: nat) returns (r: Result<()>)
      requires Valid()
      modifies tasks
      ensures Valid() && (S(), r) == WokenTask(old(S()), id)
    {
      hide FindTask;
      WokenTaskKeeps(S(), id);
      var slot := Position(id);
      if slot.None? {
        return Err(TaskNotFound);
      }
      var task := tasks[slot.value].value;
      if task.state.Blocked? || task.state.Sleeping? {
        tasks[slot.value] := Some(task.(state := Ready));
      }
      r := Ok(());
    }

    method ExitTaskById(id: nat, status: int) returns (r: Result<()>)
      requires Valid()
      modifies this, tasks
      ensures Valid() && (S(), r) == ExitedTask(old(S()), id, status)
    {
      hide FindTask;
      ExitedTaskKeeps(S(), id, status);
      var slot := Position(id);
      if slot.None? {
        return Err(TaskNotFound);
      }
      tasks[slot.value] := Some(tasks[slot.value].value.(state := Exited(status)));
      if current.Some? && tasks[current.value].Some? && tasks[current.value].value.id == id {
        current := None;
      }
      r := Ok(());
    }

    method ReapTask(id: nat) returns (r: Result<Task>)
      requires Valid()
      modifies tasks
      ensures Valid() && (S(), r) == Reaped(old(S()), id)
    {
      hide FindTask;
      ReapedKeeps(S(), id);
      var slot := Position(id);
      if slot.None? {
        return Err(TaskNotFound);
      }
      var task := tasks[slot.value].value;
      if !task.state.Exited? {
        return Err(TaskNotFound);
      }
      tasks[slot.value] := None;
      r := Ok(task);
    }

    method SpawnTask(processId: nat) returns (r: Result<nat>)
      requires Valid()
      modifies this, tasks
      ensures (S(), r) == Spawned(old(S()), processId)
      ensures old(nextId) + 1 < 0x1_0000_0000 ==> Valid()
    {
      if nextId + 1 < 0x1_0000_0000 {
        SpawnedKeeps(S(), processId);
      }
      for slot := 0 to tasks.Length
        invariant S() == old(S()) && FreeSlot(tasks[..], slot) == FreeSlot(tasks[..], 0)
      {
        if tasks[slot].None? {
          var id := nextId;
          nextId := if nextId + 1 >= 0x1_0000_0000 then 1 else nextId + 1;
          tasks[slot] := Some(Task(id, processId, Ready));
          return Ok(id);
        }
      }
      r := Err(Full);
    }
  }
}
