/** The scheduler as a value: what one timer tick, one dispatch and each call do to the task table. */
module SchedulerSpec {

  datatype State = Unused | Ready | Running | Blocked | Sleeping | WaitingChild | BlockedIo | Stopped | Zombie

  /** struct clks_task_descriptor, without its name and its statistics other than run_count. */
  datatype Task = Task(state: State, slice: nat, remaining: nat, wake: nat, entry: bool, runs: nat)

  const EMPTY := Task(Unused, 0, 0, 0, false, 0)

  datatype Table = Table(tasks: seq<Task>, current: nat, resched: bool, live: nat)

  predicate StateRunnable(t: Task) { t.state == Ready || t.state == Running }

  predicate Runnable(t: Task) { t.entry && StateRunnable(t) }

  predicate TaskOk(t: Task) {
    if t.state == Unused then t == EMPTY else t.remaining <= t.slice && t.slice >= 1
  }

  /** The number of used slots. */
  function Used(tasks: seq<Task>): nat {
    if tasks == [] then 0 else Used(tasks[..|tasks| - 1]) + if tasks[|tasks| - 1].state == Unused then 0 else 1
  }

  /**
   What holds between any two steps: at most the current task is RUNNING, slot 0 (the idle task) stays READY or
   RUNNING and has no entry, and a current task that cannot run has a reschedule pending.
   */
  predicate Valid(s: Table) {
    && s.current < |s.tasks| && TasksOk(s.tasks) && OnlyRuns(s.tasks, s.current)
    && StateRunnable(s.tasks[0]) && !s.tasks[0].entry
    && s.tasks[s.current].state != Unused && (StateRunnable(s.tasks[s.current]) || s.resched)
    && s.live == Used(s.tasks)
  }

  predicate TasksOk(tasks: seq<Task>) { forall i :: 0 <= i < |tasks| ==> TaskOk(tasks[i]) }

  predicate OnlyRuns(tasks: seq<Task>, current: nat) {
    forall i :: 0 <= i < |tasks| && tasks[i].state == Running ==> i == current
  }

  lemma {:induction false} UsedUpdate(tasks: seq<Task>, i: nat, t: Task)
    requires i < |tasks|
    ensures Used(tasks[i := t]) == Used(tasks) - (if tasks[i].state == Unused then 0 else 1) + (if t.state == Unused
            then 0 else 1)
  {
    var n := |tasks| - 1;
    if i < n {
      UsedUpdate(tasks[..n], i, t);
      assert tasks[i := t][..n] == tasks[..n][i := t];
    } else {
      assert tasks[i := t][..n] == tasks[..n];
    }
  }

  lemma {:induction false} UsedSame(tasks: seq<Task>, tasks': seq<Task>)
    requires |tasks'| == |tasks|
             && forall i :: 0 <= i < |tasks| ==> (tasks[i].state == Unused <==> tasks'[i].state == Unused)
    ensures Used(tasks') == Used(tasks)
  {
    if tasks != [] {
      UsedSame(tasks[..|tasks| - 1], tasks'[..|tasks| - 1]);
    }
  }

  // ---------- waking ----------

  function Woken(t: Task, tick: nat): Task {
    if t.state == Sleeping && t.wake <= tick then t.(wake := 0, state := Ready, remaining := t.slice) else t
  }

  function WakeAll(tasks: seq<Task>, tick: nat): (woken: seq<Task>)
    ensures |woken| == |tasks|
  {
    seq(|tasks|, i requires 0 <= i < |tasks| => Woken(tasks[i], tick))
  }

  function Wake(s: Table, tick: nat): Table { s.(tasks := WakeAll(s.tasks, tick)) }

  /** A sleeper whose time has come. */
  predicate Due(t: Task, tick: nat) { t.state == Sleeping && t.wake <= tick }

  /** A sleeper is awake, with its whole slice before it and no wake time any more. */
  predicate Rested(t: Task, t': Task) {
    StateRunnable(t') && t'.wake == 0 && t'.remaining == t'.slice == t.slice && t'.entry == t.entry && t'.runs == t.runs
  }

  /** A look at the clock: every sleeper whose time has come is READY, every other task is as it was. */
  ghost predicate AllAwake(tasks: seq<Task>, tasks': seq<Task>, tick: nat) {
    && |tasks'| == |tasks|
    && forall i :: 0 <= i < |tasks| ==>
         && !Due(tasks'[i], tick)
         && (if Due(tasks[i], tick) then tasks'[i].state == Ready && Rested(tasks[i], tasks'[i])
             else tasks'[i] == tasks[i])
  }

  lemma WakeIs(tasks: seq<Task>, tick: nat)
    ensures AllAwake(tasks, WakeAll(tasks, tick), tick)
  {
  }

  lemma WakeKeeps(s: Table, tick: nat)
    requires Valid(s)
    ensures Valid(Wake(s, tick))
  {
    UsedSame(s.tasks, WakeAll(s.tasks, tick));
  }

  // ---------- choosing and switching ----------

  /** The slot `d` places after `from`, around the table. */
  function Around(from: nat, d: nat, n: nat): nat { if from + d < n then from + d else from + d - n }

  lemma AroundIs(from: nat, d: nat, n: nat)
    requires from < n && d <= n
    ensures Around(from, d, n) == (from + d) % n
  {
    if from + d >= n {
      assert (from + d) == n + (from + d - n);
      ModMinus(from + d - n, n);
    }
  }

  lemma ModMinus(a: nat, n: nat)
    requires a <= n && n > 0
    ensures (n + a) % n == if a == n then 0 else a
  {
    if a == n {
      assert n + a == 2 * n + 0;
      assert (2 * n) % n == 0;
    }
  }

  /** The first runnable slot from place `d` after `from` on, and slot 0 if there is none. */
  function Next(tasks: seq<Task>, from: nat, d: nat): (next: nat)
    requires from < |tasks| && 1 <= d
    ensures next < |tasks|
    decreases |tasks| + 1 - d
  {
    if d > |tasks| then 0
    else if Runnable(tasks[Around(from, d, |tasks|)]) then Around(from, d, |tasks|)
    else Next(tasks, from, d + 1)
  }

  /** The chosen task is the nearest runnable one around the table, the starting slot itself coming last. */
  lemma {:induction false} NextIsNearest(tasks: seq<Task>, from: nat, d: nat, e: nat)
    requires from < |tasks| && 1 <= d <= e <= |tasks| && Runnable(tasks[Around(from, e, |tasks|)])
    ensures exists f :: d <= f <= e && Next(tasks, from, d) == Around(from, f, |tasks|)
                        && Runnable(tasks[Around(from, f, |tasks|)])
    decreases e - d
  {
    if d < e && !Runnable(tasks[Around(from, d, |tasks|)]) {
      NextIsNearest(tasks, from, d + 1, e);
    }
  }

  lemma {:induction false} NextRunsOrIdles(tasks: seq<Task>, from: nat, d: nat)
    requires from < |tasks| && 1 <= d
    ensures Runnable(tasks[Next(tasks, from, d)]) || Next(tasks, from, d) == 0
    decreases |tasks| + 1 - d
  {
    if d <= |tasks| {
      NextRunsOrIdles(tasks, from, d + 1);
    }
  }

  lemma {:induction false} SameNext(tasks: seq<Task>, tasks': seq<Task>, from: nat, d: nat)
    requires |tasks'| == |tasks| && forall i :: 0 <= i < |tasks| ==> (Runnable(tasks'[i]) <==> Runnable(tasks[i]))
    requires from < |tasks| && 1 <= d
    ensures Next(tasks', from, d) == Next(tasks, from, d)
    decreases |tasks| + 1 - d
  {
    if d <= |tasks| {
      SameNext(tasks, tasks', from, d + 1);
    }
  }

  function Paused(t: Task): Task { if t.state == Running then t.(state := Ready) else t }

  function Resumed(t: Task): Task {
    t.(state := Running, remaining := if t.remaining == 0 then t.slice else t.remaining)
  }

  function SwitchTo(s: Table, next: nat): Table
    requires s.current < |s.tasks| && next < |s.tasks|
  {
    if next == s.current then s
    else s.(tasks := s.tasks[s.current := Paused(s.tasks[s.current])][next := Resumed(s.tasks[next])], current := next)
  }

  function Reschedule(s: Table): Table
    requires s.current < |s.tasks|
  {
    if !s.resched then s
    else
      var t := s.tasks[s.current];
      SwitchTo(s.(resched := false, tasks := s.tasks[s.current := t.(remaining := t.slice)]),
        Next(s.tasks, s.current, 1))
  }

  lemma SwitchKeeps(s: Table, next: nat)
    requires Valid(s) && next < |s.tasks| && StateRunnable(s.tasks[next])
    ensures Valid(SwitchTo(s, next))
  {
    if next != s.current {
      UsedSame(s.tasks, SwitchTo(s, next).tasks);
    }
  }

  /** The task that is switched to is RUNNING, with ticks of its slice left, and the one that is left is not. */
  lemma SwitchRuns(s: Table, next: nat)
    requires Valid(s) && next < |s.tasks| && StateRunnable(s.tasks[next]) && next != s.current
    ensures var s' := SwitchTo(s, next);
      && s'.current == next && s'.tasks[next].state == Running && 1 <= s'.tasks[next].remaining <= s.tasks[next].slice
      && (s.tasks[next].remaining > 0 ==> s'.tasks[next].remaining == s.tasks[next].remaining)
      && s'.tasks[s.current].state != Running && SameState(s.tasks[s.current], s'.tasks[s.current])
  {
    assert TaskOk(s.tasks[next]);
    hide Used;
  }

  /** After the pending reschedule is carried out, the current task can run. */
  lemma RescheduleKeeps(s: Table)
    requires Valid(s)
    ensures Valid(Reschedule(s)) && StateRunnable(Reschedule(s).tasks[Reschedule(s).current])
  {
    hide Next;
    hide Used;
    if s.resched {
      NextRunsOrIdles(s.tasks, s.current, 1);
      UsedSame(s.tasks, Reschedule(s).tasks);
    }
  }

  // ---------- one tick ----------

  function Accounted(t: Task): Task { if t.remaining > 0 then t.(remaining := t.remaining - 1) else t }

  function Account(s: Table): Table
    requires s.current < |s.tasks|
  {
    var t := s.tasks[s.current];
    if !StateRunnable(t) then s
    else s.(tasks := s.tasks[s.current := Accounted(t)], resched := s.resched || t.remaining <= 1)
  }

  /** clks_scheduler_on_timer_tick outside a dispatch */
  function Tick(s: Table, tick: nat): Table
    requires s.current < |s.tasks|
  {
    Reschedule(Account(Wake(s, tick)))
  }

  lemma AccountKeeps(s: Table)
    requires Valid(s)
    ensures Valid(Account(s))
  {
    if StateRunnable(s.tasks[s.current]) {
      UsedSame(s.tasks, Account(s).tasks);
    }
  }

  /** READY and RUNNING are one state to everybody but the scheduler. */
  predicate SameState(t: Task, t': Task) { t'.state == t.state || (StateRunnable(t) && StateRunnable(t')) }

  /** What switching leaves of a task: all but READY for RUNNING, and a whole slice where it had one or is left. */
  ghost predicate OnlySwitched(tasks: seq<Task>, tasks': seq<Task>, left: int) {
    && |tasks'| == |tasks|
    && forall i :: 0 <= i < |tasks| ==>
         && SameState(tasks[i], tasks'[i]) && tasks'[i].wake == tasks[i].wake && tasks'[i].entry == tasks[i].entry
         && tasks'[i].slice == tasks[i].slice && tasks'[i].runs == tasks[i].runs
         && (tasks[i].remaining == tasks[i].slice || i == left ==> tasks'[i].remaining == tasks[i].slice)
  }

  lemma RescheduleStates(s: Table)
    requires s.current < |s.tasks| && StateRunnable(s.tasks[Next(s.tasks, s.current, 1)])
    ensures OnlySwitched(s.tasks, Reschedule(s).tasks, if s.resched then s.current else -1)
  {
    hide Next;
  }

  /** Switching and counting ticks wake nobody and put nobody to sleep. */
  lemma WokenStates(s: Table, tick: nat)
    requires Valid(s)
    ensures var s1 := Account(Wake(s, tick));
      && |s1.tasks| == |s.tasks| && s1.current == s.current < |s.tasks|
      && OnlySwitched(s1.tasks, Reschedule(s1).tasks, if s1.resched then s.current else -1)
      && (!StateRunnable(s.tasks[s.current]) ==> s1.resched)
  {
    WakeIs(s.tasks, tick);
    var s1 := Account(Wake(s, tick));
    NextRunsOrIdles(s1.tasks, s.current, 1);
    assert StateRunnable(s1.tasks[0]);
    RescheduleStates(s1);
    hide Used;
    hide Next;
    hide Reschedule;
    hide OnlySwitched;
  }

  /**
   After a tick at `tick` no task is asleep past its time. A sleeper whose time has come is READY, or RUNNING if it was
   chosen at once, with its whole slice before it; every other task keeps its wake time, and its state but for READY and
   RUNNING.
   */
  lemma TickWakes(s: Table, tick: nat, i: nat)
    requires Valid(s) && i < |s.tasks|
    ensures var t, t' := s.tasks[i], Tick(s, tick).tasks[i];
      && |Tick(s, tick).tasks| == |s.tasks| && !Due(t', tick)
      && (if Due(t, tick) then Rested(t, t')
          else SameState(t, t') && t'.wake == t.wake && t'.slice == t.slice && t'.entry == t.entry)
  {
    WakeIs(s.tasks, tick);
    WokenStates(s, tick);
    hide Reschedule;
    hide Valid;
    hide WakeAll;
  }

  lemma TickKeeps(s: Table, tick: nat)
    requires Valid(s)
    ensures Valid(Tick(s, tick))
  {
    hide Valid;
    WakeKeeps(s, tick);
    AccountKeeps(Wake(s, tick));
    RescheduleKeeps(Account(Wake(s, tick)));
  }
}
