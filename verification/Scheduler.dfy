/** The scheduler: its task table and flags, changed in place by every call, and dispatches that run task entries. */
module Scheduler {
  import opened SchedulerSpec
  import opened SchedulerCalls

  const DISPATCH_BUDGET := 32
  const INITIAL_CAPACITY := 32
  const TWO_TO_THE_31 := 0x8000_0000
  const TWO_TO_THE_64 := 0x1_0000_0000_0000_0000

  /** How many tasks the table has room for once it has grown. */
  function Grown(capacity: nat): nat {
    if capacity == 0 then INITIAL_CAPACITY else if capacity >= TWO_TO_THE_31 then capacity + 1 else capacity * 2
  }

  /**
   Where a table of `size` tasks lies now, after any number of calls: where it was if it fits there, and elsewhere if it
   had to grow once. After several growths the first block may have come back.
   */
  predicate Placed(capacity: nat, block: nat, size: nat, capacity': nat, block': nat) {
    && (size <= capacity ==> capacity' == capacity && block' == block)
    && (capacity < size <= Grown(capacity) ==> capacity' == Grown(capacity) && block' != block)
  }

  class Scheduler {
    var tasks: seq<Task>
    var current: nat
    var resched: bool
    var live: nat
    var dispatching: bool
    var online: bool
    /** How many tasks the table's block has room for, and the block's address. */
    var capacity: nat
    var block: nat
    ghost var log: seq<Happening>
    ghost var entered: nat

    ghost function View(): Table
      reads this
    {
      Table(tasks, current, resched, live)
    }

    ghost predicate Ok()
      reads this
    {
      (online ==> tasks != []) && (tasks != [] ==> SchedulerSpec.Valid(View())) && |tasks| <= capacity
    }

    constructor ()
      ensures Ok() && tasks == [] && !dispatching && !online
    {
      tasks, current, resched, live, dispatching, online := [], 0, false, 0, false, false;
      capacity, block := 0, 0;
      log, entered := [], 0;
    }

    /** clks_scheduler_init; `room` says whether the table could be allocated. */
    method Init(room: bool)
      modifies this
      ensures Ok() && online == room && !dispatching
      ensures if room then View() == Table([Task(Running, 1, 1, 0, false, 0)], 0, false, 1) else tasks == []
    {
      tasks, current, resched, live, dispatching, online := [], 0, false, 0, false, false;
      capacity := 0;
      var reserved := Reserve(INITIAL_CAPACITY, room);
      if reserved {
        tasks := [NewTask(1, false).(state := Running)];
        live := 1;
        online := true;
        assert tasks == [Task(Running, 1, 1, 0, false, 0)] && tasks[..0] == [];
        assert Used(tasks) == Used(tasks[..0]) + 1;
      }
    }

    /**
     clks_sched_reserve_tasks; `room` says whether a larger block can be allocated. It can lie anywhere but where the
     table is now, which is given back only afterwards.
     */
    method Reserve(min: nat, room: bool) returns (ok: bool)
      modifies this`capacity, this`block
      ensures (ok <==> min <= old(capacity) || room) && (ok ==> min <= capacity)
      ensures if min <= old(capacity) || !room then capacity == old(capacity) && block == old(block)
              else capacity > old(capacity) && block != old(block)
      ensures ok ==> Placed(old(capacity), old(block), min, capacity, block)
      ensures room && old(capacity) == 0 && 0 < min <= 32 ==> capacity == 32
      ensures room && old(capacity) < TWO_TO_THE_31 && old(capacity) < min <= 2 * old(capacity) ==>
        capacity == 2 * old(capacity)
    {
      if min <= capacity {
        return true;
      }
      var grown := if capacity == 0 then INITIAL_CAPACITY else capacity;
      while grown < min
        invariant grown >= capacity && grown > 0
        invariant min > Grown(capacity) || grown in {capacity, INITIAL_CAPACITY, Grown(capacity)}
        invariant min <= Grown(capacity) && grown != Grown(capacity) ==> grown == capacity
        decreases min - grown
      {
        if grown >= TWO_TO_THE_31 {
          grown := min;
          break;
        }
        grown := grown * 2;
      }
      if room {
        capacity := grown;
        var elsewhere: int := *;
        block := if elsewhere < 0 || elsewhere == block then block + 1 else elsewhere;
      }
      return room;
    }

    /** clks_sched_wake_sleepers */
    method WakeSleepers(tick: nat)
      modifies this`tasks, this`log
      ensures View() == Wake(old(View()), tick) && log == old(log) + [At(tick)]
      ensures AllAwake(old(tasks), tasks, tick)
      ensures SleepersKept(old(tasks), tasks, log, |old(log)|)
    {
      ghost var was := View();
      for i := 0 to |tasks|
        invariant |tasks| == |was.tasks| && log == old(log)
        invariant forall j :: 0 <= j < |tasks| ==> tasks[j] == if j < i then Woken(was.tasks[j], tick) else was.tasks[j]
      {
        var t := tasks[i];
        if t.state == Sleeping && tick >= t.wake {
          tasks := tasks[i := t.(wake := 0, state := Ready, remaining := t.slice)];
        }
      }
      log := log + [At(tick)];
      WakeIs(was.tasks, tick);
      assert tasks == WakeAll(was.tasks, tick);
      SchedulerCalls.WakeSleepers(was, tick, old(log));
    }

    /** clks_sched_next_runnable_task; the scan's last step looks at `from` itself. */
    method NextRunnable(from: nat) returns (next: nat)
      requires from < |tasks|
      ensures next == Next(tasks, from, 1)
    {
      next := 0;
      for i := 1 to |tasks| + 1
        invariant Next(tasks, from, 1) == Next(tasks, from, i)
      {
        AroundIs(from, i, |tasks|);
        var idx := (from + i) % |tasks|;
        if Runnable(tasks[idx]) {
          next := idx;
          return;
        }
      }
    }

    /** clks_sched_switch_to */
    method Switch(next: nat)
      requires current < |tasks|
      modifies this`tasks, this`current
      ensures View() == if next < old(|tasks|) then SwitchTo(old(View()), next) else old(View())
    {
      if next >= |tasks| || next == current {
        return;
      }
      if tasks[current].state == Running {
        tasks := tasks[current := tasks[current].(state := Ready)];
      }
      current := next;
      tasks := tasks[next := tasks[next].(state := Running)];
      if tasks[next].remaining == 0 {
        tasks := tasks[next := tasks[next].(remaining := tasks[next].slice)];
      }
    }

    /** clks_sched_account_current_tick */
    method AccountTick()
      requires current < |tasks|
      modifies this`tasks, this`resched
      ensures View() == Account(old(View()))
    {
      if !StateRunnable(tasks[current]) {
        return;
      }
      if tasks[current].remaining > 0 {
        tasks := tasks[current := tasks[current].(remaining := tasks[current].remaining - 1)];
      }
      if tasks[current].remaining == 0 {
        resched := true;
      }
    }

    /** clks_sched_maybe_reschedule */
    method MaybeReschedule()
      requires current < |tasks|
      modifies this`tasks, this`current, this`resched
      ensures View() == Reschedule(old(View()))
    {
      if !resched {
        return;
      }
      resched := false;
      var next := NextRunnable(current);
      tasks := tasks[current := tasks[current].(remaining := tasks[current].slice)];
      hide Next;
      Switch(next);
    }

    /** clks_scheduler_on_timer_tick: inside a dispatch it only wakes sleepers. */
    method OnTimerTick(tick: nat)
      requires Ok()
      modifies this`tasks, this`current, this`resched, this`log
      ensures Ok() && old(log) <= log && SleepersKept(old(tasks), tasks, log, |old(log)|)
      ensures old(tasks) != [] ==> View() == if dispatching then Wake(old(View()), tick) else Tick(old(View()), tick)
      ensures old(tasks) == [] ==> View() == old(View())
      ensures forall i :: 0 <= i < |tasks| ==> !Due(tasks[i], tick)
    {
      if |tasks| == 0 {
        return;
      }
      hide Account;
      hide Reschedule;
      hide Wake;
      hide SleepersKept;
      hide SchedulerSpec.Valid;
      ghost var was, log0 := View(), log;
      CurrentInside(was);
      WakeSleepers(tick);
      SameCount(was, tick);
      NoneDue(was, tick);
      hide Due;
      if dispatching {
        return;
      }
      AccountTick();
      MaybeReschedule();
      TickSleepers(was, tick, log, |log0|);
    }

    /** What any call may do to a sleeping task, and to the record of it. */
    twostate predicate Step()
      reads this
    {
      && Ok() && dispatching == old(dispatching) && online == old(online) && old(log) <= log
      && Placed(old(capacity), old(block), |tasks|, capacity, block)
      && SleepersKept(old(tasks), tasks, log, |old(log)|) && (tasks == [] <==> old(tasks) == [])
    }

    /** Records that a call was carried out. */
    ghost method Applied(op: Op, was: Table)
      requires was.tasks != [] && SchedulerSpec.Valid(was) && Proper(op) && View() == Apply(was, op)
      requires |tasks| <= capacity
      modifies this`log
      ensures Ok() && log == old(log) + TouchedBy(op) && SleepersKept(was.tasks, tasks, log, |old(log)|)
    {
      ApplyKeeps(was, op);
      ApplySleepers(was, op, log);
      hide Apply;
      log := log + TouchedBy(op);
    }

    /**
     clks_scheduler_add_task_internal; `room` says whether a larger block can be allocated for a full table, which then
     moves.
     */
    method AddTask(slice: nat, entry: bool, room: bool) returns (ok: bool, id: nat)
      requires Ok()
      modifies this`tasks, this`live, this`capacity, this`block, this`log
      ensures Step()
      ensures var add := Add(slice, entry, room || |old(tasks)| < old(capacity));
        && (ok <==> online && Accepted(old(View()), add))
        && View() == (if ok then Apply(old(View()), add) else old(View()))
        && (block != old(block) <==> |tasks| > old(capacity))
      ensures id == if ok then FreeSlot(old(tasks), 1) else 0xFFFF_FFFF
    {
      hide FreeSlot;
      hide SchedulerSpec.Valid;
      hide SleepersKept;
      ghost var was, op := View(), Add(slice, entry, room || |tasks| < capacity);
      AddIs(was, op);
      hide Apply;
      hide Accepted;
      SleepersKeptSame(tasks, log);
      ok, id := false, 0xFFFF_FFFF;
      if !online {
        return;
      }
      var found, slot := FreeTaskSlot(room);
      if !found {
        return;
      }
      var ticks := if slice < 1 then 1 else slice;
      tasks := tasks[slot := Task(Ready, ticks, ticks, 0, entry, 0)];
      live := live + 1;
      ok, id := true, slot;
      assert tasks == Put(old(tasks), slot, NewTask(slice, entry));
      Applied(op, was);
    }

    /** clks_sched_find_free_task_slot; a new slot is an empty one behind the others. */
    method FreeTaskSlot(room: bool) returns (ok: bool, slot: nat)
      requires Ok() && tasks != []
      modifies this`tasks, this`capacity, this`block
      ensures slot == FreeSlot(old(tasks), 1) && |tasks| <= capacity
      ensures Placed(old(capacity), old(block), |tasks|, capacity, block)
      ensures ok <==> slot < |old(tasks)| || room || |old(tasks)| < old(capacity)
      ensures tasks == if ok && slot == |old(tasks)| then old(tasks) + [EMPTY] else old(tasks)
      ensures block != old(block) <==> |tasks| > old(capacity)
    {
      ok, slot := true, 1;
      while slot < |tasks| && tasks[slot].state != Unused
        invariant slot <= |tasks| && FreeSlot(tasks, 1) == FreeSlot(tasks, slot)
      {
        slot := slot + 1;
      }
      if slot == |tasks| {
        ok := Reserve(|tasks| + 1, room);
        if ok {
          tasks := tasks + [EMPTY];
        }
      }
    }

    /** clks_scheduler_remove_task */
    method RemoveTask(id: nat) returns (ok: bool)
      requires Ok()
      modifies this`tasks, this`live, this`current, this`resched, this`log
      ensures Step()
      ensures ok <==> Accepted(old(View()), Remove(id))
      ensures View() == Apply(old(View()), Remove(id))
    {
      if id == 0 || id >= |tasks| || tasks[id].state == Unused {
        return false;
      }
      tasks := tasks[id := EMPTY];
      if live > 0 {
        live := live - 1;
      }
      if current == id {
        current := 0;
        resched := true;
      }
      Applied(Remove(id), old(View()));
      return true;
    }

    /** clks_scheduler_yield_task */
    method YieldTask(id: nat) returns (ok: bool)
      requires Ok()
      modifies this`tasks, this`resched, this`log
      ensures Step()
      ensures ok <==> Accepted(old(View()), Yield(id))
      ensures View() == Apply(old(View()), Yield(id))
    {
      if id >= |tasks| || tasks[id].state == Unused {
        return false;
      }
      if StateRunnable(tasks[id]) {
        tasks := tasks[id := tasks[id].(remaining := 0)];
        if current == id {
          resched := true;
        }
      }
      Applied(Yield(id), old(View()));
      return true;
    }

    /** clks_scheduler_yield_current */
    method YieldCurrent()
      requires Ok()
      modifies this`tasks, this`resched, this`log
      ensures Step()
      ensures old(tasks) != [] ==> View() == Apply(old(View()), Yield(old(current)))
    {
      if |tasks| == 0 {
        return;
      }
      if StateRunnable(tasks[current]) {
        tasks := tasks[current := tasks[current].(remaining := 0)];
        resched := true;
      }
      Applied(Yield(current), old(View()));
    }

    /** clks_scheduler_sleep_current_until: the idle task and a task without an entry stay awake. */
    method SleepCurrentUntil(wake: nat) returns (ok: bool)
      requires Ok()
      modifies this`tasks, this`resched, this`log
      ensures Step()
      ensures ok <==> old(tasks) != [] && old(current) != 0 && old(tasks)[old(current)].entry
      ensures View() == if ok then Apply(old(View()), SleepUntil(old(current), wake)) else old(View())
    {
      if |tasks| == 0 || current == 0 || !tasks[current].entry {
        return false;
      }
      tasks := tasks[current := tasks[current].(state := Sleeping, wake := wake, remaining := tasks[current].slice)];
      resched := true;
      Applied(SleepUntil(current, wake), old(View()));
      return true;
    }

    /** clks_scheduler_sleep_task_until */
    method SleepTaskUntil(id: nat, wake: nat) returns (ok: bool)
      requires Ok()
      modifies this`tasks, this`resched, this`log
      ensures Step()
      ensures ok <==> Accepted(old(View()), SleepUntil(id, wake))
      ensures View() == Apply(old(View()), SleepUntil(id, wake))
    {
      if id == 0 || id >= |tasks| || tasks[id].state == Unused {
        return false;
      }
      tasks := tasks[id := tasks[id].(state := Sleeping, wake := wake, remaining := tasks[id].slice)];
      if current == id {
        resched := true;
      }
      Applied(SleepUntil(id, wake), old(View()));
      return true;
    }

    /** clks_scheduler_sleep_current_ticks: the wake tick wraps at 2^64. */
    method SleepCurrentTicks(ticks: nat, now: nat) returns (ok: bool)
      requires Ok()
      modifies this`tasks, this`resched, this`log
      ensures Step()
      ensures ok <==> ticks == 0 || (old(tasks) != [] && old(current) != 0 && old(tasks)[old(current)].entry)
      ensures old(tasks) != [] && ok ==>
        View() == Apply(old(View()),
          if ticks == 0 then Yield(old(current)) else SleepUntil(old(current), (now + ticks) % TWO_TO_THE_64))
      ensures !ok ==> View() == old(View())
    {
      if ticks == 0 {
        YieldCurrent();
        return true;
      }
      ok := SleepCurrentUntil((now + ticks) % TWO_TO_THE_64);
    }

    /** clks_scheduler_sleep_task_ticks */
    method SleepTaskTicks(id: nat, ticks: nat, now: nat) returns (ok: bool)
      requires Ok()
      modifies this`tasks, this`resched, this`log
      ensures Step()
      ensures var op := if ticks == 0 then Yield(id) else SleepUntil(id, (now + ticks) % TWO_TO_THE_64);
        (ok <==> Accepted(old(View()), op)) && View() == Apply(old(View()), op)
    {
      if ticks == 0 {
        ok := YieldTask(id);
      } else {
        ok := SleepTaskUntil(id, (now + ticks) % TWO_TO_THE_64);
      }
    }

    /** clks_scheduler_set_task_state */
    method SetTaskState(id: nat, asked: State) returns (ok: bool)
      requires Ok()
      modifies this`tasks, this`resched, this`log
      ensures asked != Unused || !ok ==> Step()
      ensures ok <==> Accepted(old(View()), SetState(id, asked))
      ensures View() == Apply(old(View()), SetState(id, asked))
    {
      if id >= |tasks| || tasks[id].state == Unused {
        return false;
      }
      if id == 0 && asked != Ready && asked != Running {
        return false;
      }
      var state := if asked == Running && id != current then Ready else asked;
      tasks := tasks[id := tasks[id].(state := state)];
      if current == id && !StateRunnable(tasks[id]) {
        resched := true;
      }
      if asked != Unused {
        Applied(SetState(id, asked), old(View()));
      }
      return true;
    }

    /** clks_scheduler_wake_task */
    method WakeTask(id: nat) returns (ok: bool)
      requires Ok()
      modifies this`tasks, this`log
      ensures Step()
      ensures ok <==> Accepted(old(View()), WakeUp(id))
      ensures View() == Apply(old(View()), WakeUp(id))
    {
      if id >= |tasks| || tasks[id].state == Unused || tasks[id].state == Zombie {
        return false;
      }
      tasks := tasks[id := tasks[id].(state := Ready, wake := 0)];
      if tasks[id].remaining == 0 {
        tasks := tasks[id := tasks[id].(remaining := tasks[id].slice)];
      }
      Applied(WakeUp(id), old(View()));
      return true;
    }

    /** One call made by a task's entry: any operation of the interface, with any arguments. */
    method AnyCall()
      requires Ok() && dispatching
      modifies this
      ensures Step() && entered == old(entered)
      decreases 0, 5
    {
      var choice: nat := *;
      var id: nat := *;
      var n: nat := *;
      var now: nat := *;
      var flag: bool := *;
      var room: bool := *;
      var state: State := *;
      var ok;
      if choice == 0 {
        OnTimerTick(now);
      } else if choice == 1 {
        ok, id := AddTask(n, flag, room);
      } else if choice == 2 {
        ok := RemoveTask(id);
      } else if choice == 3 {
        YieldCurrent();
      } else if choice == 4 {
        ok := YieldTask(id);
      } else if choice == 5 {
        ok := SleepCurrentTicks(n, now);
      } else if choice == 6 {
        ok := SleepTaskTicks(id, n, now);
      } else if choice == 7 && state != Unused {
        ok := SetTaskState(id, state);
      } else if choice == 8 {
        ok := WakeTask(id);
      } else if choice == 9 {
        DispatchCurrent(now);
      } else if choice == 10 {
        DispatchReady(now);
      } else if choice == 11 {
        ok := SleepCurrentUntil(n);
      } else {
        ok := SleepTaskUntil(id, n);
      }
    }

    /** A task's entry: any number of calls. */
    method Entry()
      requires Ok() && dispatching
      modifies this
      ensures Step() && entered == old(entered)
      decreases 0, 6
    {
      var calls: int := *;
      while calls > 0
        invariant Step() && entered == old(entered)
      {
        calls := calls - 1;
        ghost var tasks0, log0 := tasks, log;
        AnyCall();
        SleepersKeptTwice(old(tasks), tasks0, tasks, log0, log, |old(log)|, |log0|);
      }
    }

    /** clks_sched_run_task up to the entry. */
    method BeginRun(id: nat)
      requires Ok() && id < |tasks| && Runnable(tasks[id])
      modifies this`tasks, this`current
      ensures Ok() && View() == Begin(old(View()), id) && SleepersKept(old(tasks), tasks, log, |log|)
    {
      ghost var was := View();
      if tasks[id].state == Ready {
        Switch(id);
      }
      tasks := tasks[id := tasks[id].(state := Running, runs := tasks[id].runs + 1)];
      assert View() == Begin(was, id);
      hide Begin;
      BeginKeeps(was, id);
      BeginSleepers(was, id, log, |log|);
    }

    /** clks_sched_run_task behind the entry; `kept` is the table that its task pointer leads to. */
    method EndRun(id: nat, kept: nat)
      requires Ok() && id < |tasks|
      modifies this`tasks, this`current, this`resched
      ensures Ok() && View() == End(old(View()), id, block != kept) && SleepersKept(old(tasks), tasks, log, |log|)
    {
      ghost var was := View();
      if block == kept {
        if tasks[id].state == Running {
          tasks := tasks[id := tasks[id].(state := Ready)];
        }
        assert tasks == was.tasks[id := Paused(was.tasks[id])];
      }
      MaybeReschedule();
      EndKeeps(was, id, block != kept);
      EndSleepers(was, id, block != kept, log, |log|);
      hide Reschedule;
    }

    /** Runs the entry with the dispatch flag up. */
    method CallEntry(id: nat)
      requires Ok() && tasks != [] && !dispatching
      modifies this
      ensures Step() && entered == old(entered) + 1 && old(log) + [Entered(id)] <= log
      decreases 1, 0
    {
      log, entered := log + [Entered(id)], entered + 1;
      ghost var log1 := log;
      dispatching := true;
      Entry();
      dispatching := false;
      SleepersKeptTwice(old(tasks), old(tasks), tasks, old(log), log, |old(log)|, |log1|);
    }

    /**
     clks_sched_run_task: `mid` is the table when the entry is called, `back` when it returns. A task that comes back
     RUNNING with no reschedule pending should be READY afterwards. It is left RUNNING exactly if the table lies
     elsewhere by then, which is so if it had to grow once and cannot be if all its tasks fit where it was.
     */
    method RunTask(id: nat) returns (ghost mid: Table, ghost back: Table)
      requires Ok() && !dispatching
      modifies this
      ensures Step()
      ensures if id < |old(tasks)| && Runnable(old(tasks)[id])
              then Ran(old(View()), mid, back, View(), id, block != old(block)) && entered == old(entered) + 1
                   && old(log) + [Entered(id)] <= log
              else View() == old(View()) && log == old(log) && entered == old(entered)
      ensures id < |old(tasks)| && Runnable(old(tasks)[id]) && back.tasks[id].state == Running && !back.resched ==>
        && tasks[id].state == (if block != old(block) then Running else Ready)
        && (|tasks| <= Grown(old(capacity)) ==> (tasks[id].state == Running <==> |tasks| > old(capacity)))
      decreases 1, 1
    {
      hide SleepersKept;
      hide Begin;
      hide End;
      hide Runnable;
      hide SchedulerSpec.Valid;
      mid, back := View(), View();
      SleepersKeptSame(tasks, log);
      if id >= |tasks| || !Runnable(tasks[id]) {
        return;
      }
      CurrentInside(View());
      BeginRun(id);
      CountGrows(old(tasks), tasks, log, |log|);
      mid := View();
      ghost var log1 := log;
      var kept := block;
      CallEntry(id);
      CountGrows(mid.tasks, tasks, log, |log1|);
      back := View();
      CurrentInside(back);
      EndRun(id, kept);
      CountGrows(back.tasks, tasks, log, |log|);
      LeftRunning(back, id, block != kept);
      SleepersKeptTwice(old(tasks), mid.tasks, back.tasks, log1, log, |log1|, |log1|);
      SleepersKeptTwice(old(tasks), back.tasks, tasks, log, log, |log1|, |log|);
    }

    /**
     clks_scheduler_dispatch_current: after a look at the clock and a pending reschedule, the entry of the current task
     is called if it can run, and nothing more is done if it cannot.
     */
    method DispatchCurrent(tick: nat)
      requires Ok()
      modifies this
      ensures Step() && old(entered) <= entered <= old(entered) + 1
      ensures dispatching ==> View() == old(View()) && log == old(log) && entered == old(entered)
      ensures !dispatching && old(tasks) != [] ==> Looked(old(View()), tick)
      ensures old(tasks) != [] && NoneRunnable(WakeAll(old(tasks), tick)) ==> entered == old(entered)
      decreases if dispatching then 0 else 1, 2
    {
      hide Reschedule;
      hide SleepersKept;
      hide SchedulerSpec.Valid;
      SleepersKeptSame(tasks, log);
      if |tasks| == 0 || dispatching {
        return;
      }
      ghost var was := View();
      NoneRunnableAfter(was, tick);
      WakeThenReschedule(tick);
      ghost var tasks1, log1 := tasks, log;
      ghost var mid, back := RunTask(current);
      hide *;
      SleepersKeptTwice(old(tasks), tasks1, tasks, log1, log, |old(log)|, |log1|);
    }

    /** What happened since the clock was looked at in table `was`: the current task was entered if it can run. */
    twostate predicate Looked(was: Table, tick: nat)
      requires was.current < |was.tasks|
      reads this
    {
      var s := Reschedule(Wake(was, tick));
      if Runnable(s.tasks[s.current])
      then entered == old(entered) + 1 && old(log) + [At(tick), Entered(s.current)] <= log
      else entered == old(entered) && log == old(log) + [At(tick)] && View() == s
    }

    method WakeThenReschedule(tick: nat)
      requires Ok() && tasks != []
      modifies this`tasks, this`current, this`resched, this`log
      ensures Step() && View() == Reschedule(Wake(old(View()), tick)) && current < |tasks|
      ensures log == old(log) + [At(tick)] && forall i :: 0 <= i < |tasks| ==> !Due(tasks[i], tick)
    {
      ghost var was := View();
      WakeSleepers(tick);
      WakeKeeps(was, tick);
      MaybeReschedule();
      RescheduleKeeps(Wake(was, tick));
      NoneDueLater(was, tick);
      RescheduleSleepers(Wake(was, tick), log, |old(log)|);
      hide Reschedule;
      hide Wake;
      hide Due;
      SleepersKeptTwice(was.tasks, Wake(was, tick).tasks, tasks, log, log, |old(log)|, |old(log)|);
    }

    /**
     clks_scheduler_dispatch_ready: after a look at the clock at most 32 entries are called, and at least one if any
     task can run, beginning with the nearest, the current task itself coming first.
     */
    method DispatchReady(tick: nat)
      requires Ok()
      modifies this
      ensures Step() && old(entered) <= entered <= old(entered) + DISPATCH_BUDGET
      ensures dispatching ==> View() == old(View()) && log == old(log) && entered == old(entered)
      ensures !dispatching && old(tasks) != [] ==>
        (entered > old(entered) <==> !NoneRunnable(WakeAll(old(tasks), tick)))
      ensures !dispatching && old(tasks) != [] ==> old(log) + [At(tick)] <= log
      ensures !dispatching && old(tasks) != [] && NoneRunnable(WakeAll(old(tasks), tick)) ==>
        View() == Reschedule(Wake(old(View()), tick))
      ensures entered > old(entered) ==>
        NearestFirst(WakeAll(old(tasks), tick), old(current), old(log) + [At(tick)], log)
      decreases if dispatching then 0 else 1, 4
    {
      if |tasks| == 0 || dispatching {
        return;
      }
      ghost var was := View();
      WakeSleepers(tick);
      WakeKeeps(was, tick);
      ghost var tasks1, log1 := tasks, log;
      assert tasks == WakeAll(was.tasks, tick);
      WokenTwice(was.tasks, tick);
      var budget := RunReady();
      hide *;
      SleepersKeptTwice(was.tasks, tasks1, tasks, log1, log, |old(log)|, |log1|);
      if budget == DISPATCH_BUDGET {
        ghost var tasks2, log2 := tasks, log;
        NoneDispatched(was, tick);
        DispatchCurrent(tick);
        SleepersKeptTwice(was.tasks, tasks2, tasks, log2, log, |old(log)|, |log2|);
      }
    }

    /** One turn of the loop of clks_scheduler_dispatch_ready. */
    method RunAt(i: nat) returns (ran: bool)
      requires Ok() && i < |tasks| && !dispatching
      modifies this
      ensures Step() && old(current) < |old(tasks)|
      ensures var next := Around(old(current), i, |old(tasks)|);
        && (ran <==> Runnable(old(tasks)[next]))
        && if ran then entered == old(entered) + 1 && old(log) + [Entered(next)] <= log
           else View() == old(View()) && log == old(log) && entered == old(entered)
      decreases 1, 2
    {
      hide SleepersKept;
      ghost var was := View();
      SleepersKeptSame(tasks, log);
      CurrentInside(was);
      AroundIs(current, i, |tasks|);
      var idx := (current + i) % |tasks|;
      ran := idx != 0 && Runnable(tasks[idx]);
      assert ran <==> Runnable(tasks[idx]);
      hide SchedulerSpec.Valid;
      hide Around;
      if ran {
        ghost var mid, back := RunTask(idx);
      }
    }

    /** The loop of clks_scheduler_dispatch_ready; its place moves with the current task. */
    method RunReady() returns (budget: nat)
      requires Ok() && tasks != [] && !dispatching
      modifies this
      ensures Step() && budget <= DISPATCH_BUDGET && entered == old(entered) + (DISPATCH_BUDGET - budget)
      ensures budget == DISPATCH_BUDGET ==> View() == old(View()) && NoneRunnable(tasks)
      ensures NoneRunnable(old(tasks)) ==> budget == DISPATCH_BUDGET
      ensures if budget == DISPATCH_BUDGET then log == old(log)
              else NearestFirst(old(tasks), old(current), old(log), log)
      decreases 1, 3
    {
      hide SleepersKept;
      hide NearestFirst;
      hide NoneAhead;
      hide NoneRunnable;
      hide Around;
      hide SchedulerSpec.Valid;
      budget := DISPATCH_BUDGET;
      var i := 0;
      ghost var was := View();
      SleepersKeptSame(tasks, log);
      CurrentInside(was);
      NoneAheadYet(tasks, current);
      while i < |tasks| && budget > 0
        invariant Step() && i <= |tasks| && budget <= DISPATCH_BUDGET
                  && entered == old(entered) + (DISPATCH_BUDGET - budget)
        invariant budget == DISPATCH_BUDGET ==> View() == was && log == old(log) && NoneAhead(tasks, current, i)
        invariant NoneRunnable(was.tasks) ==> budget == DISPATCH_BUDGET
        invariant budget < DISPATCH_BUDGET ==> NearestFirst(was.tasks, was.current, old(log), log)
        decreases budget, |tasks| - i
      {
        ghost var s, log1 := View(), log;
        CurrentInside(s);
        var ran := RunAt(i);
        CountGrows(s.tasks, tasks, log, |log1|);
        SleepersKeptTwice(was.tasks, s.tasks, tasks, log1, log, |old(log)|, |log1|);
        if budget == DISPATCH_BUDGET {
          OneAhead(s.tasks, s.current, i, log1, log);
        } else {
          NearestLater(was.tasks, was.current, old(log), log1, log);
        }
        budget := if ran then budget - 1 else budget;
        i := i + 1;
      }
      if budget == DISPATCH_BUDGET {
        AllAhead(tasks, current);
      }
    }
  }

  /** A task was entered at `mid` and returned at `back`; `moved` says that the table moved in between. */
  predicate Ran(s: Table, mid: Table, back: Table, s': Table, id: nat, moved: bool) {
    && s.current < |s.tasks| && id < |s.tasks| && mid == Begin(s, id)
    && back.current < |back.tasks| && id < |back.tasks| && s' == End(back, id, moved)
  }

  predicate NoneRunnable(tasks: seq<Task>) { forall i :: 0 <= i < |tasks| ==> !Runnable(tasks[i]) }

  predicate NoneAhead(tasks: seq<Task>, from: nat, d: nat)
    requires from < |tasks| && d <= |tasks|
  {
    forall e :: 0 <= e < d ==> !Runnable(tasks[Around(from, e, |tasks|)])
  }

  /** The first thing that happened was that the task `d` places after `from` was entered, the nearest that can run. */
  predicate NearestAt(tasks: seq<Task>, from: nat, log: seq<Happening>, log': seq<Happening>, d: nat) {
    && from < |tasks| && d < |tasks| && NoneAhead(tasks, from, d) && Runnable(tasks[Around(from, d, |tasks|)])
    && log + [Entered(Around(from, d, |tasks|))] <= log'
  }

  ghost predicate NearestFirst(tasks: seq<Task>, from: nat, log: seq<Happening>, log': seq<Happening>) {
    exists d: nat :: NearestAt(tasks, from, log, log', d)
  }

  lemma NoneAheadYet(tasks: seq<Task>, from: nat)
    requires from < |tasks|
    ensures NoneAhead(tasks, from, 0)
  {
  }

  /** The scan is one place further: it has entered the task there, or found that it cannot run. */
  lemma OneAhead(tasks: seq<Task>, from: nat, d: nat, log: seq<Happening>, log': seq<Happening>)
    requires from < |tasks| && d < |tasks| && NoneAhead(tasks, from, d)
    ensures if Runnable(tasks[Around(from, d, |tasks|)])
            then !NoneRunnable(tasks)
                 && (log + [Entered(Around(from, d, |tasks|))] <= log' ==> NearestFirst(tasks, from, log, log'))
            else NoneAhead(tasks, from, d + 1)
  {
    assert log + [Entered(Around(from, d, |tasks|))] <= log' && Runnable(tasks[Around(from, d, |tasks|)]) ==>
        NearestAt(tasks, from, log, log', d);
  }

  lemma NearestLater(tasks: seq<Task>, from: nat, log: seq<Happening>, log': seq<Happening>, log'': seq<Happening>)
    requires NearestFirst(tasks, from, log, log') && log' <= log''
    ensures NearestFirst(tasks, from, log, log'')
  {
    var d: nat :| NearestAt(tasks, from, log, log', d);
    assert NearestAt(tasks, from, log, log'', d);
  }

  lemma AllAhead(tasks: seq<Task>, from: nat)
    requires from < |tasks| && NoneAhead(tasks, from, |tasks|)
    ensures NoneRunnable(tasks)
  {
    forall i | 0 <= i < |tasks| ensures !Runnable(tasks[i]) {
      var e := if i >= from then i - from else i + |tasks| - from;
      assert Around(from, e, |tasks|) == i;
    }
  }

  lemma NoneRunnableAfter(s: Table, tick: nat)
    requires SchedulerSpec.Valid(s)
    ensures s.current < |s.tasks|
    ensures var s' := Reschedule(Wake(s, tick));
      s'.current < |s'.tasks| && (NoneRunnable(WakeAll(s.tasks, tick)) ==> !Runnable(s'.tasks[s'.current]))
  {
    NextRunsOrIdles(Wake(s, tick).tasks, s.current, 1);
    hide Next;
  }

  /** A pending reschedule carried out after a look at the clock leaves no sleeper past its time. */
  lemma NoneDueLater(s: Table, tick: nat)
    requires SchedulerSpec.Valid(s)
    ensures var s' := Reschedule(Wake(s, tick)); forall i :: 0 <= i < |s'.tasks| ==> !Due(s'.tasks[i], tick)
  {
    WakeIs(s.tasks, tick);
    WakeKeeps(s, tick);
    NextRunsOrIdles(Wake(s, tick).tasks, s.current, 1);
    RescheduleStates(Wake(s, tick));
    hide Reschedule;
    hide Next;
    hide Used;
  }

  lemma WokenTwice(tasks: seq<Task>, tick: nat)
    ensures WakeAll(WakeAll(tasks, tick), tick) == WakeAll(tasks, tick)
  {
  }

  /** A second look at the clock at the same tick changes nothing, and with nobody to run only a reschedule is left. */
  lemma NoneDispatched(s: Table, tick: nat)
    requires SchedulerSpec.Valid(s)
    ensures Wake(Wake(s, tick), tick) == Wake(s, tick) && s.current < |Wake(s, tick).tasks|
    ensures NoneRunnable(WakeAll(s.tasks, tick)) ==>
      var s' := Reschedule(Wake(s, tick)); s'.current < |s'.tasks| && !Runnable(s'.tasks[s'.current])
  {
    WokenTwice(s.tasks, tick);
    NoneRunnableAfter(s, tick);
    hide Reschedule;
    hide SchedulerSpec.Valid;
  }

  lemma NoneDue(s: Table, tick: nat)
    requires SchedulerSpec.Valid(s)
    ensures forall i :: 0 <= i < |Wake(s, tick).tasks| ==> !Due(Wake(s, tick).tasks[i], tick)
    ensures forall i :: 0 <= i < |Tick(s, tick).tasks| ==> !Due(Tick(s, tick).tasks[i], tick)
  {
    WakeIs(s.tasks, tick);
    SameCount(s, tick);
    hide SchedulerSpec.Valid;
    hide Reschedule;
    hide Account;
    forall i | 0 <= i < |Tick(s, tick).tasks| ensures !Due(Tick(s, tick).tasks[i], tick) {
      TickWakes(s, tick, i);
    }
  }

  lemma CurrentInside(s: Table)
    requires SchedulerSpec.Valid(s)
    ensures s.current < |s.tasks|
  {
  }

  /** Behind the look at the clock, a tick wakes and runs no sleeper. */
  lemma TickSleepers(s: Table, tick: nat, log: seq<Happening>, from: nat)
    requires SchedulerSpec.Valid(s) && SleepersKept(s.tasks, Wake(s, tick).tasks, log, from) && from <= |log|
    ensures SleepersKept(s.tasks, Tick(s, tick).tasks, log, from) && SchedulerSpec.Valid(Tick(s, tick))
  {
    hide SleepersKept;
    SameCount(s, tick);
    var woken := Wake(s, tick);
    var counted := Account(woken);
    hide SchedulerSpec.Valid;
    hide Account;
    hide Reschedule;
    hide Wake;
    RescheduleKeeps(counted);
    AccountSleepers(woken, log, from);
    RescheduleSleepers(counted, log, from);
    SleepersKeptTwice(s.tasks, woken.tasks, counted.tasks, log, log, from, from);
    SleepersKeptTwice(s.tasks, counted.tasks, Reschedule(counted).tasks, log, log, from, from);
  }

  lemma CountGrows(tasks: seq<Task>, tasks': seq<Task>, log: seq<Happening>, from: nat)
    requires SleepersKept(tasks, tasks', log, from)
    ensures |tasks| <= |tasks'|
  {
  }

  /** A tick keeps the size of the table. */
  lemma SameCount(s: Table, tick: nat)
    requires SchedulerSpec.Valid(s)
    ensures var woken := Wake(s, tick);
      && |woken.tasks| == |s.tasks| && woken.current < |s.tasks| && SchedulerSpec.Valid(woken)
      && (var counted := Account(woken);
          && |counted.tasks| == |s.tasks| && counted.current < |s.tasks| && SchedulerSpec.Valid(counted)
          && |Reschedule(counted).tasks| == |s.tasks|)
  {
    WakeKeeps(s, tick);
    AccountKeeps(Wake(s, tick));
    hide Used;
    hide Next;
  }

  lemma AddIs(s: Table, op: Op)
    requires op.Add?
    ensures Accepted(s, op) <==> |s.tasks| > 0 && (FreeSlot(s.tasks, 1) < |s.tasks| || op.room)
    ensures Accepted(s, op) ==>
      Apply(s, op) == s.(tasks := Put(s.tasks, FreeSlot(s.tasks, 1), NewTask(op.slice, op.entry)), live := s.live + 1)
  {
  }

  lemma SleepersKeptSame(tasks: seq<Task>, log: seq<Happening>)
    ensures SleepersKept(tasks, tasks, log, |log|)
  {
  }
}
