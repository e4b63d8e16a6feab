/** The scheduler's calls as one step function, and the rule every step keeps for sleeping tasks. */
module SchedulerCalls {
  import opened SchedulerSpec

  datatype Op =
    | Yield(id: nat)
    | SleepUntil(id: nat, wake: nat)
    | SetState(id: nat, state: State)
    | WakeUp(id: nat)
    | Add(slice: nat, entry: bool, room: bool)
    | Remove(id: nat)

  predicate SlotUsed(s: Table, id: nat) { id < |s.tasks| && s.tasks[id].state != Unused }

  /** The first unused slot from `i` on, and one behind the table if there is none. */
  function FreeSlot(tasks: seq<Task>, i: nat): (slot: nat)
    requires i <= |tasks|
    ensures i <= slot <= |tasks| && (slot < |tasks| ==> tasks[slot].state == Unused)
    ensures forall j :: i <= j < slot ==> tasks[j].state != Unused
    decreases |tasks| - i
  {
    if i == |tasks| || tasks[i].state == Unused then i else FreeSlot(tasks, i + 1)
  }

  /** Whether the call returns true. */
  predicate Accepted(s: Table, op: Op) {
    match op
    case Yield(id) => SlotUsed(s, id)
    case SleepUntil(id, _) => id != 0 && SlotUsed(s, id)
    case SetState(id, state) => SlotUsed(s, id) && (id == 0 ==> state in {Ready, Running})
    case WakeUp(id) => SlotUsed(s, id) && s.tasks[id].state != Zombie
    case Add(_, _, room) => |s.tasks| > 0 && (FreeSlot(s.tasks, 1) < |s.tasks| || room)
    case Remove(id) => id != 0 && SlotUsed(s, id)
  }

  function Yielded(t: Task): Task { if StateRunnable(t) then t.(remaining := 0) else t }

  function NewTask(slice: nat, entry: bool): Task {
    var ticks := if slice < 1 then 1 else slice;
    Task(Ready, ticks, ticks, 0, entry, 0)
  }

  function Put(tasks: seq<Task>, slot: nat, t: Task): seq<Task>
    requires slot <= |tasks|
  {
    if slot < |tasks| then tasks[slot := t] else tasks + [t]
  }

  function Apply(s: Table, op: Op): Table {
    if !Accepted(s, op) then s
    else
      match op
      case Yield(id) =>
        s.(tasks := s.tasks[id := Yielded(s.tasks[id])],
           resched := s.resched || (id == s.current && StateRunnable(s.tasks[id])))
      case SleepUntil(id, wake) =>
        var t := s.tasks[id];
        s.(tasks := s.tasks[id := t.(state := Sleeping, wake := wake, remaining := t.slice)],
           resched := s.resched || id == s.current)
      case SetState(id, state) =>
        var t := s.tasks[id].(state := if state == Running && id != s.current then Ready else state);
        s.(tasks := s.tasks[id := t], resched := s.resched || (id == s.current && !StateRunnable(t)))
      case WakeUp(id) =>
        var t := s.tasks[id];
        s.(tasks := s.tasks[id := t.(state := Ready, wake := 0,
          remaining := if t.remaining == 0 then t.slice else t.remaining)])
      case Add(slice, entry, room) =>
        s.(tasks := Put(s.tasks, FreeSlot(s.tasks, 1), NewTask(slice, entry)), live := s.live + 1)
      case Remove(id) =>
        s.(tasks := s.tasks[id := EMPTY], live := if s.live > 0 then s.live - 1 else 0,
           resched := s.resched || id == s.current, current := if id == s.current then 0 else s.current)
  }

  /** A caller never sets a slot to UNUSED directly. */
  predicate Proper(op: Op) { op.SetState? ==> op.state != Unused }

  lemma OneTaskKeeps(s: Table, s': Table, id: nat)
    requires Valid(s) && id < |s.tasks| == |s'.tasks| && s'.tasks == s.tasks[id := s'.tasks[id]] && TaskOk(s'.tasks[id])
    requires s'.current == s.current && s'.live == s.live && (s.resched ==> s'.resched)
    requires s'.tasks[id].state != Unused && s.tasks[id].state != Unused && s'.tasks[id].entry == s.tasks[id].entry
    requires s'.tasks[id].state == Running ==> id == s.current
    requires id == 0 ==> StateRunnable(s'.tasks[id])
    requires id == s.current ==> StateRunnable(s'.tasks[id]) || s'.resched
    ensures Valid(s')
  {
    UsedSame(s.tasks, s'.tasks);
  }

  lemma UsedPositive(tasks: seq<Task>, i: nat)
    requires i < |tasks| && tasks[i].state != Unused
    ensures Used(tasks) > 0
  {
    UsedUpdate(tasks, i, EMPTY);
  }

  lemma AddKeeps(s: Table, op: Op)
    requires Valid(s) && op.Add? && Accepted(s, op)
    ensures Valid(Apply(s, op))
  {
    var slot := FreeSlot(s.tasks, 1);
    hide FreeSlot;
    if slot < |s.tasks| {
      UsedUpdate(s.tasks, slot, NewTask(op.slice, op.entry));
    } else {
      assert (s.tasks + [NewTask(op.slice, op.entry)])[..|s.tasks|] == s.tasks;
    }
  }

  lemma RemoveKeeps(s: Table, op: Op)
    requires Valid(s) && op.Remove? && Accepted(s, op)
    ensures Valid(Apply(s, op))
  {
    UsedUpdate(s.tasks, op.id, EMPTY);
    UsedPositive(s.tasks, op.id);
    hide Used;
  }

  /** Every call keeps what holds between steps. */
  lemma ApplyKeeps(s: Table, op: Op)
    requires Valid(s) && Proper(op)
    ensures Valid(Apply(s, op))
  {
    if Accepted(s, op) {
      match op
      case Add(_, _, _) => AddKeeps(s, op);
      case Remove(_) => RemoveKeeps(s, op);
      case _ =>
        assert TaskOk(s.tasks[op.id]);
        hide Used;
        OneTaskKeeps(s, Apply(s, op), op.id);
    }
  }

  /** Setting a used slot to UNUSED leaves it counted as live; every other call keeps what holds between steps. */
  lemma ApplyKeepsIff(s: Table, op: Op)
    requires Valid(s)
    ensures Valid(Apply(s, op)) <==> Proper(op) || !Accepted(s, op)
  {
    if Proper(op) {
      ApplyKeeps(s, op);
    } else if Accepted(s, op) {
      UsedUpdate(s.tasks, op.id, s.tasks[op.id].(state := Unused));
      hide Used;
    }
  }

  // ---------- what the calls are for ----------

  /** Only slot `id` changes, and nobody else becomes current. */
  predicate OnlyTask(s: Table, s': Table, id: nat) {
    && |s'.tasks| == |s.tasks| && s'.current == s.current && s'.live == s.live
    && forall i :: 0 <= i < |s.tasks| && i != id ==> s'.tasks[i] == s.tasks[i]
  }

  /**
   A task put to sleep stays asleep at every look at the clock before its time and is READY at any later one. Woken
   earlier by a call, it is READY as well; either way it has its whole slice before it and its count of runs kept.
   */
  lemma SleepsUntil(s: Table, id: nat, wake: nat, tick: nat)
    requires Valid(s) && Accepted(s, SleepUntil(id, wake))
    ensures var s' := Apply(s, SleepUntil(id, wake));
      && OnlyTask(s, s', id) && s'.tasks[id].state == Sleeping
      && (if tick < wake then Wake(s', tick).tasks[id] == s'.tasks[id]
          else Rested(s.tasks[id], Wake(s', tick).tasks[id]))
      && Accepted(s', WakeUp(id)) && Rested(s.tasks[id], Apply(s', WakeUp(id)).tasks[id])
      && (id == s.current ==> s'.resched)
  {
    hide Used;
  }

  /**
   A current task that yields gives way to the nearest other task that can run, and has a whole slice when its turn
   comes again; so has any other task that is told to yield.
   */
  lemma GivesWay(s: Table, id: nat)
    requires Valid(s) && Accepted(s, Yield(id)) && StateRunnable(s.tasks[id])
    ensures var s' := Apply(s, Yield(id));
      && OnlyTask(s, s', id) && SameState(s.tasks[id], s'.tasks[id])
      && (if id == s.current
          then Reschedule(s').current == Next(s.tasks, id, 1)
               && Reschedule(s').tasks[id].remaining == s.tasks[id].slice
          else s'.resched == s.resched && SwitchTo(s', id).tasks[id].remaining == s.tasks[id].slice)
  {
    if id == s.current {
      SameNext(s.tasks, Apply(s, Yield(id)).tasks, id, 1);
    }
    hide Next;
    hide Used;
  }

  /** The nearest other task that can run is chosen, whoever it is. */
  lemma {:induction false} OtherChosen(tasks: seq<Task>, from: nat, d: nat, k: nat)
    requires from < |tasks| && k < |tasks| && k != from && Runnable(tasks[k])
    requires 1 <= d < |tasks| && forall e :: 1 <= e < d ==> Around(from, e, |tasks|) != k
    ensures Next(tasks, from, d) != from && Runnable(tasks[Next(tasks, from, d)])
    decreases |tasks| - d
  {
    var e := if k > from then k - from else k + |tasks| - from;
    assert Around(from, e, |tasks|) == k;
    if !Runnable(tasks[Around(from, d, |tasks|)]) {
      OtherChosen(tasks, from, d + 1, k);
    }
  }

  /** A call that wakes a task leaves it able to run, with ticks of its slice left and no wake time. */
  lemma WakesUp(s: Table, id: nat)
    requires Valid(s) && Accepted(s, WakeUp(id))
    ensures var s' := Apply(s, WakeUp(id)); var t := s'.tasks[id];
      && OnlyTask(s, s', id) && StateRunnable(t) && t.wake == 0 && 1 <= t.remaining <= t.slice == s.tasks[id].slice
      && t.entry == s.tasks[id].entry && (s.tasks[id].remaining > 0 ==> t.remaining == s.tasks[id].remaining)
  {
    assert TaskOk(s.tasks[id]);
    hide Used;
  }

  /** A call that wakes is refused for a zombie and for a free slot only, and changes nothing then. */
  lemma NotWoken(s: Table, id: nat)
    requires Valid(s) && id < |s.tasks|
    ensures !Accepted(s, WakeUp(id)) <==> s.tasks[id].state == Zombie || s.tasks[id] == EMPTY
    ensures !Accepted(s, WakeUp(id)) ==> Apply(s, WakeUp(id)) == s
  {
    assert TaskOk(s.tasks[id]);
    hide Used;
  }

  /**
   A state that is set is there afterwards, READY standing for RUNNING except for the current task, and a current task
   that can no longer run loses the processor at the next reschedule.
   */
  lemma StateIsSet(s: Table, id: nat, state: State)
    requires Valid(s) && Accepted(s, SetState(id, state)) && state != Unused
    ensures var s' := Apply(s, SetState(id, state)); var t := s'.tasks[id];
      && OnlyTask(s, s', id) && t == s.tasks[id].(state := t.state)
      && (t.state == state || (state == Running && t.state == Ready)) && (t.state == Running ==> id == s.current)
      && (id == s.current && state != Ready && state != Running ==> Reschedule(s').current != id)
      && ((id != s.current || state in {Ready, Running}) ==> s'.resched == s.resched)
  {
    var s' := Apply(s, SetState(id, state));
    ApplyKeeps(s, SetState(id, state));
    RescheduleKeeps(s');
    if id == s.current && state != Ready && state != Running {
      NextRunsOrIdles(s'.tasks, id, 1);
    }
    hide Next;
    hide Used;
  }

  /** A new task can run exactly if it has an entry, with a slice of at least one tick; nothing else changes. */
  lemma IsAdded(s: Table, slice: nat, entry: bool, room: bool)
    requires Valid(s) && Accepted(s, Add(slice, entry, room))
    ensures var s' := Apply(s, Add(slice, entry, room)); var id := FreeSlot(s.tasks, 1);
      && id != 0 && id < |s'.tasks| && !SlotUsed(s, id) && SlotUsed(s', id) && s'.live == s.live + 1
      && s'.current == s.current && s'.resched == s.resched
      && (Runnable(s'.tasks[id]) <==> entry) && s'.tasks[id].state == Ready && s'.tasks[id].runs == 0
      && s'.tasks[id].remaining == s'.tasks[id].slice >= 1 && (slice >= 1 ==> s'.tasks[id].slice == slice)
      && (slice == 0 ==> s'.tasks[id].slice == 1)
      && |s'.tasks| == (if id < |s.tasks| then |s.tasks| else |s.tasks| + 1)
      && forall i :: 0 <= i < |s.tasks| && i != id ==> s'.tasks[i] == s.tasks[i]
  {
    hide Used;
    hide FreeSlot;
  }

  /** A removed task is gone, and the slot can be taken again; if it was current, the idle task takes its place. */
  lemma IsRemoved(s: Table, id: nat)
    requires Valid(s) && Accepted(s, Remove(id))
    ensures var s' := Apply(s, Remove(id));
      && |s'.tasks| == |s.tasks| && !SlotUsed(s', id) && s'.live + 1 == s.live && FreeSlot(s'.tasks, 1) <= id
      && (if id == s.current then s'.current == 0 && s'.resched else s'.current == s.current && s'.resched == s.resched)
      && forall i :: 0 <= i < |s.tasks| && i != id ==> s'.tasks[i] == s.tasks[i]
  {
    UsedPositive(s.tasks, id);
    hide Used;
    var s' := Apply(s, Remove(id));
    assert s'.tasks[id].state == Unused;
  }

  // ---------- running a task ----------

  /** clks_sched_run_task up to the task's entry. */
  function Begin(s: Table, id: nat): Table
    requires s.current < |s.tasks| && id < |s.tasks|
  {
    var s1 := if s.tasks[id].state == Ready then SwitchTo(s, id) else s;
    s1.(tasks := s1.tasks[id := s1.tasks[id].(state := Running, runs := s1.tasks[id].runs + 1)])
  }

  /**
   clks_sched_run_task from the return of the task's entry on. If the table has moved meanwhile, the pointer that the
   function kept leads to the old one, and the new one is left as it is.
   */
  function End(s: Table, id: nat, moved: bool): Table
    requires s.current < |s.tasks| && id < |s.tasks|
  {
    Reschedule(if moved then s else s.(tasks := s.tasks[id := Paused(s.tasks[id])]))
  }

  /** A task that comes back RUNNING and is not rescheduled. */
  lemma LeftRunning(s: Table, id: nat, moved: bool)
    requires Valid(s) && id < |s.tasks|
    ensures id < |End(s, id, moved).tasks|
    ensures s.tasks[id].state == Running && !s.resched ==>
      End(s, id, moved).tasks[id].state == (if moved then Running else Ready)
  {
  }

  /** A task is entered RUNNING and current, and counted; of the others one at most goes from RUNNING to READY. */
  lemma BeginRuns(s: Table, id: nat)
    requires Valid(s) && id < |s.tasks| && Runnable(s.tasks[id])
    ensures var s' := Begin(s, id);
      && |s'.tasks| == |s.tasks| && s'.live == s.live && s'.resched == s.resched && s'.current == id
      && s'.tasks[id].state == Running && s'.tasks[id].runs == s.tasks[id].runs + 1
      && s'.tasks[id].slice == s.tasks[id].slice && s'.tasks[id].entry
      && (s.tasks[id].remaining > 0 ==> s'.tasks[id].remaining == s.tasks[id].remaining)
      && (id != s.current ==> s'.tasks[id].remaining > 0)
      && forall i :: 0 <= i < |s.tasks| && i != id ==>
           SameState(s.tasks[i], s'.tasks[i]) && s'.tasks[i] == s.tasks[i].(state := s'.tasks[i].state)
  {
    assert TaskOk(s.tasks[id]);
    hide Used;
  }

  lemma BeginKeeps(s: Table, id: nat)
    requires Valid(s) && id < |s.tasks| && Runnable(s.tasks[id])
    ensures Valid(Begin(s, id)) && Begin(s, id).current == id && Begin(s, id).tasks[id].state == Running
  {
    SwitchKeeps(s, id);
    var s1 := if s.tasks[id].state == Ready then SwitchTo(s, id) else s;
    assert s1.current == id && |s1.tasks| == |s.tasks| && StateRunnable(s1.tasks[id]) && TaskOk(s1.tasks[id]);
    hide SwitchTo;
    hide Used;
    OneTaskKeeps(s1, Begin(s, id), id);
  }

  lemma EndKeeps(s: Table, id: nat, moved: bool)
    requires Valid(s) && id < |s.tasks|
    ensures var s' := End(s, id, moved); Valid(s') && StateRunnable(s'.tasks[s'.current])
  {
    var s1 := s.(tasks := s.tasks[id := Paused(s.tasks[id])]);
    assert TaskOk(s.tasks[id]);
    if s.tasks[id].state == Running {
      OneTaskKeeps(s, s1, id);
    } else {
      assert s1.tasks == s.tasks;
    }
    hide Valid;
    RescheduleKeeps(if moved then s else s1);
    hide Reschedule;
  }

  // ---------- sleeping ----------

  /** What happened: the clock was looked at, a call named a task, or a task's entry was entered. */
  datatype Happening = At(tick: nat) | Touched(id: nat) | Entered(id: nat)

  predicate Excuses(h: Happening, id: nat, wake: nat) {
    (h.At? && wake <= h.tick) || (h.Touched? && h.id == id)
  }

  /** From place `from` of the log on, the clock reached `wake` or somebody named the task. */
  ghost predicate Excused(log: seq<Happening>, from: nat, id: nat, wake: nat) {
    exists k :: from <= k < |log| && Excuses(log[k], id, wake)
  }

  predicate SameSleep(t: Task, t': Task) { t'.state == t.state && t'.wake == t.wake && t'.runs == t.runs }

  /** Nothing sleeping was woken or run before its time, unless a call named it. */
  ghost predicate SleepersKept(tasks: seq<Task>, tasks': seq<Task>, log: seq<Happening>, from: nat) {
    && |tasks| <= |tasks'|
    && forall i :: 0 <= i < |tasks| && tasks[i].state == Sleeping
                   ==> SameSleep(tasks[i], tasks'[i]) || Excused(log, from, i, tasks[i].wake)
  }

  lemma SleepersKeptTwice(a: seq<Task>, b: seq<Task>, c: seq<Task>, log: seq<Happening>, log': seq<Happening>,
                          from: nat, mid: nat)
    requires SleepersKept(a, b, log, from) && SleepersKept(b, c, log', mid) && log <= log' && from <= mid
    ensures SleepersKept(a, c, log', from)
  {
    forall i | 0 <= i < |a| && a[i].state == Sleeping
      ensures SameSleep(a[i], c[i]) || Excused(log', from, i, a[i].wake)
    {
      if Excused(log, from, i, a[i].wake) {
        var k :| from <= k < |log| && Excuses(log[k], i, a[i].wake);
        assert Excuses(log'[k], i, a[i].wake);
      }
    }
  }

  function TouchedBy(op: Op): seq<Happening> { if op.Add? then [] else [Touched(op.id)] }

  lemma ApplySleepers(s: Table, op: Op, log: seq<Happening>)
    requires Valid(s)
    ensures SleepersKept(s.tasks, Apply(s, op).tasks, log + TouchedBy(op), |log|)
  {
    if !op.Add? {
      var all := log + [Touched(op.id)];
      assert all[|log|] == Touched(op.id);
      forall i | 0 <= i < |s.tasks| && s.tasks[i].state == Sleeping
        ensures SameSleep(s.tasks[i], Apply(s, op).tasks[i]) || Excused(all, |log|, i, s.tasks[i].wake)
      {
        if i == op.id {
          assert Excuses(all[|log|], i, s.tasks[i].wake);
        }
      }
    }
    hide Used;
  }

  lemma WakeSleepers(s: Table, tick: nat, log: seq<Happening>)
    ensures SleepersKept(s.tasks, Wake(s, tick).tasks, log + [At(tick)], |log|)
  {
    var all := log + [At(tick)];
    assert all[|log|] == At(tick);
    forall i | 0 <= i < |s.tasks| && s.tasks[i].state == Sleeping
      ensures SameSleep(s.tasks[i], Wake(s, tick).tasks[i]) || Excused(all, |log|, i, s.tasks[i].wake)
    {
      assert s.tasks[i].wake <= tick ==> Excuses(all[|log|], i, s.tasks[i].wake);
    }
  }

  lemma RescheduleSleepers(s: Table, log: seq<Happening>, from: nat)
    requires Valid(s)
    ensures SleepersKept(s.tasks, Reschedule(s).tasks, log, from)
  {
    NextRunsOrIdles(s.tasks, s.current, 1);
    hide Next;
    hide Used;
  }

  lemma AccountSleepers(s: Table, log: seq<Happening>, from: nat)
    requires s.current < |s.tasks|
    ensures SleepersKept(s.tasks, Account(s).tasks, log, from)
  {
  }

  lemma BeginSleepers(s: Table, id: nat, log: seq<Happening>, from: nat)
    requires Valid(s) && id < |s.tasks| && Runnable(s.tasks[id])
    ensures SleepersKept(s.tasks, Begin(s, id).tasks, log, from)
  {
    hide Used;
  }

  lemma EndSleepers(s: Table, id: nat, moved: bool, log: seq<Happening>, from: nat)
    requires Valid(s) && id < |s.tasks|
    ensures SleepersKept(s.tasks, End(s, id, moved).tasks, log, from)
  {
    var s1 := s.(tasks := s.tasks[id := Paused(s.tasks[id])]);
    assert TaskOk(s.tasks[id]);
    if s.tasks[id].state == Running {
      OneTaskKeeps(s, s1, id);
    } else {
      assert s1.tasks == s.tasks;
    }
    RescheduleSleepers(if moved then s else s1, log, from);
    hide Reschedule;
    hide Used;
  }
}
