/** Bounded waiting: under timer ticks alone every runnable task gets its turn within the sum of all time slices. */
module SchedulerWaiting {
  import opened SchedulerSpec

  function Ticks(s: Table, ticks: seq<nat>): (end: Table)
    requires Valid(s)
    ensures Valid(end)
    decreases |ticks|
  {
    if ticks == [] then s
    else
      TickKeeps(s, ticks[0]);
      Ticks(Tick(s, ticks[0]), ticks[1..])
  }

  /** The slot `d` places before `k`, around the table. */
  function Back(k: nat, d: nat, n: nat): int { if k >= d then k - d else k + n - d }

  function Distance(from: nat, k: nat, n: nat): int { if k >= from then k - from else k + n - from }

  /** The time slices of the `d` tasks before `k`. */
  function Before(tasks: seq<Task>, k: nat, d: nat): nat
    requires k < |tasks| && d <= |tasks|
  {
    if d == 0 then 0 else Before(tasks, k, d - 1) + tasks[Back(k, d, |tasks|)].slice
  }

  /** The ticks after which the current task is sure to be left. */
  function Cost(s: Table): nat
    requires s.current < |s.tasks|
  {
    var t := s.tasks[s.current];
    if s.resched || !StateRunnable(t) || t.remaining == 0 then 1 else t.remaining
  }

  /** How long `k` still has to wait at most: the current task's rest, then a full slice of each task in between. */
  function Wait(s: Table, k: nat): nat
    requires s.current < |s.tasks| && k < |s.tasks|
  {
    if s.current == k then 0
    else Cost(s) + Before(s.tasks, k, Distance(s.current, k, |s.tasks|) - 1)
  }

  function Slices(tasks: seq<Task>): nat {
    if tasks == [] then 0 else tasks[0].slice + Slices(tasks[1..])
  }

  lemma {:induction false} SlicesConcat(a: seq<Task>, b: seq<Task>)
    ensures Slices(a + b) == Slices(a) + Slices(b)
  {
    if a == [] {
      assert a + b == b;
    } else {
      SlicesConcat(a[1..], b);
      assert (a + b)[1..] == a[1..] + b;
    }
  }

  lemma {:induction false} BeforeIsSum(tasks: seq<Task>, k: nat, d: nat)
    requires k < |tasks| && d <= |tasks|
    ensures Before(tasks, k, d) == if d <= k then Slices(tasks[k - d..k])
            else Slices(tasks[..k]) + Slices(tasks[k + |tasks| - d..])
  {
    if d > 0 {
      BeforeIsSum(tasks, k, d - 1);
      var i := Back(k, d, |tasks|);
      if d <= k {
        assert tasks[i..k][1..] == tasks[k - (d - 1)..k];
      } else {
        assert tasks[i..][1..] == tasks[i + 1..];
        if d == k + 1 {
          assert tasks[i + 1..] == [] && tasks[k - k..k] == tasks[..k];
        }
      }
    }
  }

  lemma {:induction false} BeforeGrows(tasks: seq<Task>, k: nat, d: nat, e: nat)
    requires k < |tasks| && d <= e <= |tasks|
    ensures Before(tasks, k, d) <= Before(tasks, k, e)
  {
    if d < e {
      BeforeGrows(tasks, k, d, e - 1);
    }
  }

  predicate SameSlices(tasks: seq<Task>, tasks': seq<Task>) {
    |tasks'| == |tasks| && forall i :: 0 <= i < |tasks| ==> tasks'[i].slice == tasks[i].slice
  }

  lemma {:induction false} BeforeSame(tasks: seq<Task>, tasks': seq<Task>, k: nat, d: nat)
    requires SameSlices(tasks, tasks') && k < |tasks| && d <= |tasks|
    ensures Before(tasks', k, d) == Before(tasks, k, d)
  {
    if d > 0 {
      BeforeSame(tasks, tasks', k, d - 1);
    }
  }

  lemma BeforeAll(tasks: seq<Task>, k: nat)
    requires k < |tasks|
    ensures Before(tasks, k, |tasks|) == Slices(tasks)
  {
    BeforeIsSum(tasks, k, |tasks|);
    SlicesConcat(tasks[..k], tasks[k..]);
    assert tasks[..k] + tasks[k..] == tasks;
  }

  /** The wait is never longer than all time slices together. */
  lemma WaitBounded(s: Table, k: nat)
    requires Valid(s) && k < |s.tasks|
    ensures Wait(s, k) <= Slices(s.tasks)
  {
    if s.current != k {
      var e := Distance(s.current, k, |s.tasks|);
      assert Before(s.tasks, k, e) == Before(s.tasks, k, e - 1) + s.tasks[s.current].slice;
      assert TaskOk(s.tasks[s.current]);
      assert Cost(s) <= s.tasks[s.current].slice by { hide Before; }
      hide Cost;
      hide Valid;
      BeforeGrows(s.tasks, k, e, |s.tasks|);
      BeforeAll(s.tasks, k);
      hide Slices;
      hide Before;
    }
  }

  lemma OnTheWay(from: nat, k: nat, n: nat, f: nat)
    requires from < n && k < n && from != k && 1 <= f <= Distance(from, k, n)
    ensures var next := Around(from, f, n);
      && next < n && next != from && (next == k <==> f == Distance(from, k, n))
      && (next != k ==> Distance(next, k, n) == Distance(from, k, n) - f && Back(k, Distance(next, k, n), n) == next)
    ensures Around(from, Distance(from, k, n), n) == k && Distance(from, k, n) < n
  {
  }

  lemma Switched(s: Table)
    requires s.current < |s.tasks| && TasksOk(s.tasks) && s.resched && Next(s.tasks, s.current, 1) != s.current
    requires Runnable(s.tasks[Next(s.tasks, s.current, 1)])
    ensures var s' := Reschedule(s);
      && s'.current == Next(s.tasks, s.current, 1) && SameSlices(s.tasks, s'.tasks) && KeepsRunnable(s.tasks, s'.tasks)
      && Cost(s') <= s.tasks[s'.current].slice
  {
    hide Next;
  }

  predicate KeepsRunnable(tasks: seq<Task>, tasks': seq<Task>) {
    |tasks'| == |tasks| && forall i :: 0 <= i < |tasks| && Runnable(tasks[i]) ==> Runnable(tasks'[i])
  }

  /** Having moved on to a task on the way to `k`, with at most a slice of that task to wait for. */
  lemma ShorterWait(s: Table, s': Table, k: nat, f: nat)
    requires s.current < |s.tasks| == |s'.tasks| && k < |s.tasks| && k != s.current && SameSlices(s.tasks, s'.tasks)
    requires 1 <= f <= Distance(s.current, k, |s.tasks|) && s'.current == Around(s.current, f, |s.tasks|) < |s.tasks|
    requires Cost(s') <= s.tasks[s'.current].slice
    ensures Wait(s', k) <= Before(s.tasks, k, Distance(s.current, k, |s.tasks|) - 1)
  {
    var e := Distance(s.current, k, |s.tasks|);
    OnTheWay(s.current, k, |s.tasks|, f);
    hide Distance;
    hide Around;
    hide Cost;
    if s'.current != k {
      assert Before(s.tasks, k, e - f) == Before(s.tasks, k, e - f - 1) + s.tasks[s'.current].slice;
      hide Back;
      hide Before;
      BeforeSame(s.tasks, s'.tasks, k, e - f - 1);
      BeforeGrows(s.tasks, k, e - f, e - 1);
    }
  }

  lemma SwitchApproaches(s: Table, k: nat)
    requires s.current < |s.tasks| && TasksOk(s.tasks) && s.resched && k < |s.tasks| && k != s.current
             && Runnable(s.tasks[k])
    ensures var s' := Reschedule(s);
      && s'.current < |s'.tasks| == |s.tasks| && KeepsRunnable(s.tasks, s'.tasks) && SameSlices(s.tasks, s'.tasks)
      && Wait(s', k) <= Before(s.tasks, k, Distance(s.current, k, |s.tasks|) - 1)
  {
    var n, e := |s.tasks|, Distance(s.current, k, |s.tasks|);
    OnTheWay(s.current, k, n, 1);
    NextIsNearest(s.tasks, s.current, 1, e);
    var f :| 1 <= f <= e && Next(s.tasks, s.current, 1) == Around(s.current, f, n)
      && Runnable(s.tasks[Around(s.current, f, n)]);
    OnTheWay(s.current, k, n, f);
    hide Distance;
    hide Around;
    Switched(s);
    hide *;
    ShorterWait(s, Reschedule(s), k, f);
  }

  lemma WokenAndAccounted(s: Table, tick: nat)
    requires Valid(s)
    ensures var s1 := Account(Wake(s, tick));
      && s1.current == s.current && SameSlices(s.tasks, s1.tasks) && KeepsRunnable(s.tasks, s1.tasks)
      && (!s1.resched ==> Cost(s1) < Cost(s)) && TasksOk(s1.tasks)
  {
    hide Used;
  }

  lemma CurrentInside(s: Table)
    requires Valid(s)
    ensures s.current < |s.tasks|
  {
  }

  /** Each tick brings a waiting runnable task strictly nearer, whatever sleepers the tick wakes. */
  lemma TickApproaches(s: Table, tick: nat, k: nat)
    requires Valid(s) && k < |s.tasks| && k != s.current && Runnable(s.tasks[k])
    ensures var s' := Tick(s, tick);
      s'.current < |s'.tasks| == |s.tasks| && Runnable(s'.tasks[k]) && Wait(s', k) < Wait(s, k)
  {
    hide Next;
    hide Wait;
    hide Before;
    hide Cost;
    hide Valid;
    CurrentInside(s);
    var s1 := Account(Wake(s, tick));
    hide Account;
    hide Wake;
    WokenAndAccounted(s, tick);
    assert !s1.resched ==> Reschedule(s1) == s1;
    hide Reschedule;
    assert Runnable(s1.tasks[k]);
    hide Runnable;
    CloserThan(s, s1, k);
    if s1.resched {
      SwitchApproaches(s1, k);
    }
  }

  lemma CloserThan(s: Table, s1: Table, k: nat)
    requires s1.current == s.current < |s.tasks| && SameSlices(s.tasks, s1.tasks) && k < |s.tasks| && k != s.current
    ensures Cost(s1) < Cost(s) ==> Wait(s1, k) < Wait(s, k)
    ensures Before(s1.tasks, k, Distance(s.current, k, |s.tasks|) - 1) < Wait(s, k)
  {
    BeforeSame(s.tasks, s1.tasks, k, Distance(s.current, k, |s.tasks|) - 1);
    hide Before;
  }

  /** After `j` of the ticks it is the turn of `k`, and it can run. */
  predicate GetsItsTurn(s: Table, k: nat, ticks: seq<nat>, j: nat)
    requires Valid(s)
  {
    j <= |ticks| &&
      var end := Ticks(s, ticks[..j]);
      end.current == k && k < |end.tasks| && Runnable(end.tasks[k])
  }

  lemma {:induction false} Reached(s: Table, k: nat, ticks: seq<nat>)
    requires Valid(s) && k < |s.tasks| && Runnable(s.tasks[k]) && Wait(s, k) <= |ticks|
    ensures exists j: nat :: j <= Wait(s, k) && j <= |ticks| && GetsItsTurn(s, k, ticks, j)
    decreases Wait(s, k)
  {
    if s.current == k {
      assert GetsItsTurn(s, k, ticks, 0);
    } else {
      TickApproaches(s, ticks[0], k);
      TickKeeps(s, ticks[0]);
      var s' := Tick(s, ticks[0]);
      hide Tick;
      assert Wait(s, k) > 0;
      hide Wait;
      hide Valid;
      Reached(s', k, ticks[1..]);
      var j: nat :| j <= Wait(s', k) && j <= |ticks[1..]| && GetsItsTurn(s', k, ticks[1..], j);
      OneTickFirst(s, ticks, j);
      assert GetsItsTurn(s, k, ticks, j + 1);
    }
  }

  lemma OneTickFirst(s: Table, ticks: seq<nat>, j: nat)
    requires Valid(s) && j < |ticks| && Valid(Tick(s, ticks[0]))
    ensures Ticks(s, ticks[..j + 1]) == Ticks(Tick(s, ticks[0]), ticks[1..][..j])
  {
    assert ticks[..j + 1][0] == ticks[0] && ticks[..j + 1][1..] == ticks[1..][..j];
    hide Tick;
  }

  /**
   Outside dispatches and without further calls, every runnable task with an entry becomes the current one within as
   many ticks as all time slices add up to, even if sleepers wake meanwhile.
   */
  lemma BoundedWaiting(s: Table, k: nat, ticks: seq<nat>)
    requires Valid(s) && k < |s.tasks| && Runnable(s.tasks[k]) && |ticks| >= Slices(s.tasks)
    ensures exists j: nat :: j <= Slices(s.tasks) && GetsItsTurn(s, k, ticks, j)
  {
    WaitBounded(s, k);
    Reached(s, k, ticks);
  }

  lemma {:induction false} SlicesSame(tasks: seq<Task>, tasks': seq<Task>)
    requires SameSlices(tasks, tasks')
    ensures Slices(tasks') == Slices(tasks)
  {
    if tasks != [] {
      SlicesSame(tasks[1..], tasks'[1..]);
    }
  }

  lemma TickSlices(s: Table, tick: nat)
    requires Valid(s)
    ensures SameSlices(s.tasks, Tick(s, tick).tasks)
  {
    hide Tick;
    hide Valid;
    TickCount(s, tick);
    forall i | 0 <= i < |s.tasks| ensures Tick(s, tick).tasks[i].slice == s.tasks[i].slice {
      TickWakes(s, tick, i);
    }
  }

  lemma TickCount(s: Table, tick: nat)
    requires Valid(s)
    ensures s.current < |s.tasks| && |Tick(s, tick).tasks| == |s.tasks|
  {
    TickWakes(s, tick, 0);
  }

  /** Task `k` sleeps, has an entry, and its time comes with tick number `p`. */
  predicate SleepsThrough(s: Table, k: nat, ticks: seq<nat>, p: nat) {
    && k < |s.tasks| && s.tasks[k].state == Sleeping && s.tasks[k].entry && p < |ticks| && s.tasks[k].wake <= ticks[p]
    && forall i :: 0 <= i < p ==> ticks[i] < s.tasks[k].wake
  }

  predicate Asleep(t: Task, t': Task) { t'.state == Sleeping && t'.wake == t.wake && t'.entry == t.entry }

  lemma SleeperTick(s: Table, tick: nat, k: nat)
    requires Valid(s) && k < |s.tasks| && s.tasks[k].state == Sleeping
    ensures var s' := Tick(s, tick);
      && Valid(s') && |s'.tasks| == |s.tasks| && Slices(s'.tasks) == Slices(s.tasks)
      && (if s.tasks[k].wake > tick then Asleep(s.tasks[k], s'.tasks[k]) else StateRunnable(s'.tasks[k]))
      && s'.tasks[k].entry == s.tasks[k].entry
  {
    hide Tick;
    hide Valid;
    CurrentInside(s);
    TickKeeps(s, tick);
    TickWakes(s, tick, k);
    TickSlices(s, tick);
    SlicesSame(s.tasks, Tick(s, tick).tasks);
    hide Slices;
  }

  /** Until its time has come, a sleeper sleeps. */
  lemma {:induction false} SleepsOn(s: Table, k: nat, ticks: seq<nat>, j: nat)
    requires Valid(s) && k < |s.tasks| && s.tasks[k].state == Sleeping && j <= |ticks|
    requires forall i :: 0 <= i < j ==> ticks[i] < s.tasks[k].wake
    ensures var end := Ticks(s, ticks[..j]); k < |end.tasks| && Asleep(s.tasks[k], end.tasks[k])
    decreases j
  {
    hide Tick;
    hide Valid;
    CurrentInside(s);
    if j > 0 {
      var s' := Tick(s, ticks[0]);
      SleeperTick(s, ticks[0], k);
      SleepsOn(s', k, ticks[1..], j - 1);
      OneTickFirst(s, ticks, j - 1);
    }
  }

  lemma {:induction false} TurnComes(s: Table, k: nat, ticks: seq<nat>, p: nat) returns (j: nat)
    requires Valid(s) && SleepsThrough(s, k, ticks, p) && |ticks| > p + Slices(s.tasks)
    ensures p < j <= p + 1 + Slices(s.tasks) && GetsItsTurn(s, k, ticks, j)
    decreases p
  {
    hide Tick;
    hide Valid;
    hide Ticks;
    hide GetsItsTurn;
    hide Slices;
    CurrentInside(s);
    SleeperTick(s, ticks[0], k);
    var s' := Tick(s, ticks[0]);
    if p == 0 {
      BoundedWaiting(s', k, ticks[1..]);
      j :| j <= Slices(s'.tasks) && GetsItsTurn(s', k, ticks[1..], j);
    } else {
      j := TurnComes(s', k, ticks[1..], p - 1);
    }
    TurnOneLater(s, k, ticks, j);
    j := j + 1;
  }

  /**
   A sleeper with an entry sleeps until its time has come, and then becomes the current task, and one that can run,
   within as many further ticks as all time slices add up to.
   */
  lemma SleeperWaiting(s: Table, k: nat, ticks: seq<nat>, p: nat)
    requires Valid(s) && SleepsThrough(s, k, ticks, p) && |ticks| > p + Slices(s.tasks)
    ensures forall j :: 0 <= j <= p ==>
              var end := Ticks(s, ticks[..j]); k < |end.tasks| && Asleep(s.tasks[k], end.tasks[k])
    ensures exists j: nat :: p < j <= p + 1 + Slices(s.tasks) && GetsItsTurn(s, k, ticks, j)
  {
    hide Valid;
    hide Ticks;
    hide GetsItsTurn;
    hide Slices;
    hide Asleep;
    var turn := TurnComes(s, k, ticks, p);
    forall j | 0 <= j <= p
      ensures var end := Ticks(s, ticks[..j]); k < |end.tasks| && Asleep(s.tasks[k], end.tasks[k])
    {
      SleepsOn(s, k, ticks, j);
    }
  }

  lemma TurnOneLater(s: Table, k: nat, ticks: seq<nat>, j: nat)
    requires Valid(s) && ticks != [] && Valid(Tick(s, ticks[0])) && GetsItsTurn(Tick(s, ticks[0]), k, ticks[1..], j)
    ensures GetsItsTurn(s, k, ticks, j + 1)
  {
    hide Tick;
    hide Valid;
    OneTickFirst(s, ticks, j);
  }

  // ---------- time slices ----------

  /** The current task can run, has `rest` ticks of its slice left, and nobody has asked for a reschedule. */
  predicate InItsSlice(s: Table, rest: nat) {
    && s.current < |s.tasks| && StateRunnable(s.tasks[s.current]) && s.tasks[s.current].remaining == rest && !s.resched
  }

  /** A tick within the slice. */
  lemma TickInSlice(s: Table, tick: nat)
    requires Valid(s) && InItsSlice(s, s.tasks[s.current].remaining) && s.tasks[s.current].remaining > 1
    ensures Tick(s, tick).current == s.current && InItsSlice(Tick(s, tick), s.tasks[s.current].remaining - 1)
    ensures Tick(s, tick).tasks[s.current].state == s.tasks[s.current].state
  {
    WakeIs(s.tasks, tick);
  }

  /** The tick that ends the slice: the nearest task that can run takes over. */
  lemma TickEndsSlice(s: Table, tick: nat)
    requires Valid(s) && InItsSlice(s, s.tasks[s.current].remaining) && s.tasks[s.current].remaining <= 1
    ensures Tick(s, tick).current == Next(WakeAll(s.tasks, tick), s.current, 1) && !Tick(s, tick).resched
    ensures Tick(s, tick).tasks[s.current].remaining == s.tasks[s.current].slice
  {
    var woken := WakeAll(s.tasks, tick);
    WakeIs(s.tasks, tick);
    assert TaskOk(s.tasks[s.current]);
    SameNext(woken, Account(Wake(s, tick)).tasks, s.current, 1);
    hide Next;
  }

  /** With ticks alone, a task keeps its turn for all of its slice but the tick that ends it. */
  lemma {:induction false} SliceIsKept(s: Table, ticks: seq<nat>)
    requires Valid(s) && InItsSlice(s, s.tasks[s.current].remaining) && |ticks| < s.tasks[s.current].remaining
    ensures var end := Ticks(s, ticks);
      end.current == s.current && InItsSlice(end, s.tasks[s.current].remaining - |ticks|)
    decreases |ticks|
  {
    if ticks != [] {
      TickInSlice(s, ticks[0]);
      TickKeeps(s, ticks[0]);
      hide Tick;
      hide Valid;
      SliceIsKept(Tick(s, ticks[0]), ticks[1..]);
    }
  }
}
