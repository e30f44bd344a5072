/**
  The cooperative scheduler of common/sched.c on one CPU: schedule_task,
  process_task_repeat and run_tasks.  Running a task's function is an entry
  in the log of the CPU.
 */
module Sched {
  import opened Wrappers
  import opened Sequences

  const TASK_REPEAT_LOOP: nat := 0
  const TASK_REPEAT_ONCE: nat := 1

  const EEXIST := 17

  datatype TaskState = New | Ready | Scheduled | Running | Done

  datatype Task = Task(id: nat, repeat: nat, state: TaskState, execCount: nat)

  /** What run_tasks can handle; it calls BUG() for a task in any other state. */
  predicate Runnable(t: Task) {
    t.state.Scheduled? || t.state.Done?
  }

  predicate AllRunnable(q: seq<Task>) {
    forall i :: 0 <= i < |q| ==> Runnable(q[i])
  }

  /** One visit of run_tasks: run_task, or process_task_repeat, which may destroy the task. */
  function Visit(t: Task): Option<Task> {
    if t.state.Scheduled? then Some(t.(state := Done, execCount := t.execCount + 1))
    else if t.repeat == TASK_REPEAT_ONCE then None
    else if t.repeat == TASK_REPEAT_LOOP then Some(t.(state := Scheduled))
    else Some(t.(repeat := t.repeat - 1, state := Scheduled))
  }

  function Kept(t: Option<Task>): seq<Task> {
    if t.Some? then [t.value] else []
  }

  function Logged(t: Task): seq<nat> {
    if t.state.Scheduled? then [t.id] else []
  }

  // ---- passes over the queue -------------------------------------------

  /** The queue after one pass over it, and the tasks that ran. */
  function Pass(q: seq<Task>): seq<Task> {
    if q == [] then [] else Kept(Visit(q[0])) + Pass(q[1..])
  }

  function Ran(q: seq<Task>): seq<nat> {
    if q == [] then [] else Logged(q[0]) + Ran(q[1..])
  }

  function Passes(q: seq<Task>, n: nat): seq<Task>
    decreases n
  {
    if n == 0 then q else Passes(Pass(q), n - 1)
  }

  function Log(q: seq<Task>, n: nat): seq<nat>
    decreases n
  {
    if n == 0 then [] else Ran(q) + Log(Pass(q), n - 1)
  }

  lemma {:induction false} PassSplit(a: seq<Task>, b: seq<Task>)
    ensures Pass(a + b) == Pass(a) + Pass(b)
  {
    if a == [] {
      assert a + b == b;
    } else {
      assert (a + b)[1..] == a[1..] + b;
      PassSplit(a[1..], b);
      Assoc(Kept(Visit(a[0])), Pass(a[1..]), Pass(b));
    }
  }

  lemma {:induction false} RanSplit(a: seq<Task>, b: seq<Task>)
    ensures Ran(a + b) == Ran(a) + Ran(b)
  {
    if a == [] {
      assert a + b == b;
    } else {
      assert (a + b)[1..] == a[1..] + b;
      RanSplit(a[1..], b);
      Assoc(Logged(a[0]), Ran(a[1..]), Ran(b));
    }
  }

  lemma {:induction false} PassesSplit(a: seq<Task>, b: seq<Task>, n: nat)
    ensures Passes(a + b, n) == Passes(a, n) + Passes(b, n)
    decreases n
  {
    if n > 0 {
      PassSplit(a, b);
      PassesSplit(Pass(a), Pass(b), n - 1);
    }
  }

  lemma {:induction false} PassesMore(q: seq<Task>, n: nat)
    ensures Passes(q, n + 1) == Pass(Passes(q, n)) && Log(q, n + 1) == Log(q, n) + Ran(Passes(q, n))
    decreases n
  {
    if n > 0 {
      PassesMore(Pass(q), n - 1);
      Assoc(Ran(q), Log(Pass(q), n - 1), Ran(Passes(q, n)));
    }
  }

  lemma FirstPass(q: seq<Task>)
    ensures Passes(q, 1) == Pass(q) && Log(q, 1) == Ran(q)
  {
    PassesMore(q, 0);
  }

  lemma {:induction false} NothingLeft(n: nat)
    ensures Passes([], n) == [] && Log([], n) == []
    decreases n
  {
    if n > 0 {
      NothingLeft(n - 1);
    }
  }

  lemma {:induction false} PassRunnable(q: seq<Task>)
    requires AllRunnable(q)
    ensures AllRunnable(Pass(q))
  {
    if q != [] {
      PassRunnable(q[1..]);
    }
  }

  // ---- what becomes of one task ----------------------------------------

  /** How often a task that does not loop will still run. */
  function Owes(t: Task): nat {
    if t.state.Done? then (if t.repeat == 0 then 0 else t.repeat - 1) else t.repeat
  }

  /** After how many visits it is destroyed. */
  function Due(t: Task): nat {
    2 * Owes(t) + (if t.state.Done? then 1 else 0)
  }

  /** How often it runs in the next `n` visits. */
  function RunsIn(t: Task, n: nat): nat {
    var turns := (n + (if t.state.Scheduled? then 1 else 0)) / 2;
    if t.repeat == TASK_REPEAT_LOOP || turns < Owes(t) then turns else Owes(t)
  }

  function Times(log: seq<nat>, id: nat): nat {
    if log == [] then 0 else (if log[0] == id then 1 else 0) + Times(log[1..], id)
  }

  lemma {:induction false} TimesSplit(a: seq<nat>, b: seq<nat>, id: nat)
    ensures Times(a + b, id) == Times(a, id) + Times(b, id)
  {
    if a == [] {
      assert a + b == b;
    } else {
      assert (a + b)[1..] == a[1..] + b;
      TimesSplit(a[1..], b, id);
    }
  }

  lemma PassOfOne(t: Task)
    ensures Pass([t]) == Kept(Visit(t)) && Ran([t]) == Logged(t)
  {
    assert [t][1..] == [];
  }

  /** One visit brings a task one step closer to its end. */
  lemma OneVisit(t: Task, n: nat)
    requires Runnable(t) && n > 0
    ensures Visit(t).None? ==> t.repeat != TASK_REPEAT_LOOP && Due(t) == 1 && RunsIn(t, n) == 0 && Logged(t) == []
    ensures Visit(t).Some? ==>
      var u := Visit(t).value;
      && Runnable(u) && u.id == t.id && (u.repeat == TASK_REPEAT_LOOP <==> t.repeat == TASK_REPEAT_LOOP)
      && (t.repeat != TASK_REPEAT_LOOP ==> Due(t) == Due(u) + 1)
      && RunsIn(t, n) == |Logged(t)| + RunsIn(u, n - 1) && u.execCount == t.execCount + |Logged(t)|
  {
  }

  /** A task alone: when it is gone, and how often it has run by then. */
  lemma {:induction false} OneTask(t: Task, n: nat)
    requires Runnable(t)
    ensures Passes([t], n) == [] <==> t.repeat != TASK_REPEAT_LOOP && Due(t) <= n
    ensures forall u :: u in Passes([t], n) ==> u.id == t.id && u.execCount == t.execCount + RunsIn(t, n)
    decreases n
  {
    if n > 0 {
      PassOfOne(t);
      OneVisit(t, n);
      if Visit(t).None? {
        NothingLeft(n - 1);
      } else {
        OneTask(Visit(t).value, n - 1);
      }
    }
  }

  lemma {:induction false} OneTaskLog(t: Task, n: nat, id: nat)
    requires Runnable(t)
    ensures Times(Log([t], n), id) == if id == t.id then RunsIn(t, n) else 0
    decreases n
  {
    if n > 0 {
      PassOfOne(t);
      OneVisit(t, n);
      TimesSplit(Logged(t), Log(Pass([t]), n - 1), id);
      if Visit(t).None? {
        NothingLeft(n - 1);
      } else {
        OneTaskLog(Visit(t).value, n - 1, id);
      }
    }
  }

  // ---- all tasks -------------------------------------------------------

  predicate NoneLoops(q: seq<Task>) {
    forall i :: 0 <= i < |q| ==> q[i].repeat != TASK_REPEAT_LOOP
  }

  predicate AllDue(q: seq<Task>, n: nat) {
    forall i :: 0 <= i < |q| ==> Due(q[i]) <= n
  }

  /** The queue is empty after `n` passes exactly if no task loops and all are due by then. */
  lemma {:induction false} Finishes(q: seq<Task>, n: nat)
    requires AllRunnable(q)
    ensures Passes(q, n) == [] <==> NoneLoops(q) && AllDue(q, n)
  {
    if q == [] {
      NothingLeft(n);
    } else {
      assert q == [q[0]] + q[1..];
      PassesSplit([q[0]], q[1..], n);
      OneTask(q[0], n);
      Finishes(q[1..], n);
    }
  }

  lemma {:induction false} LastDue(q: seq<Task>) returns (n: nat)
    ensures AllDue(q, n)
  {
    n := 0;
    if q != [] {
      var m := LastDue(q[1..]);
      n := if m < Due(q[0]) then Due(q[0]) else m;
    }
  }

  /** The visits still to come. */
  function Left(q: seq<Task>): nat {
    if q == [] then 0 else Due(q[0]) + Left(q[1..])
  }

  /** A pass makes one of them for each task in the queue. */
  lemma {:induction false} PassNearer(q: seq<Task>)
    requires AllRunnable(q) && NoneLoops(q)
    ensures NoneLoops(Pass(q)) && Left(Pass(q)) + |q| == Left(q)
  {
    if q != [] {
      OneVisit(q[0], 1);
      PassNearer(q[1..]);
      if Visit(q[0]).Some? {
        assert Pass(q)[1..] == Pass(q[1..]);
      } else {
        assert Pass(q) == Pass(q[1..]);
      }
    }
  }

  ghost predicate Ends(q: seq<Task>) {
    exists n :: Passes(q, n) == []
  }

  /** run_tasks comes to an end exactly if no task was set to loop. */
  lemma EndsIffNoneLoops(q: seq<Task>)
    requires AllRunnable(q)
    ensures Ends(q) <==> NoneLoops(q)
  {
    var n := LastDue(q);
    Finishes(q, n);
    if Ends(q) {
      var m :| Passes(q, m) == [];
      Finishes(q, m);
    }
  }

  ghost predicate Distinct(q: seq<Task>) {
    forall i, j :: 0 <= i < j < |q| ==> q[i].id != q[j].id
  }

  /** How often a task runs in `n` passes, pass by pass. */
  function TimesIn(q: seq<Task>, n: nat, id: nat): nat
    decreases n
  {
    if n == 0 then 0 else Times(Ran(q), id) + TimesIn(Pass(q), n - 1, id)
  }

  lemma {:induction false} LogTimes(q: seq<Task>, n: nat, id: nat)
    ensures Times(Log(q, n), id) == TimesIn(q, n, id)
    decreases n
  {
    if n > 0 {
      TimesSplit(Ran(q), Log(Pass(q), n - 1), id);
      LogTimes(Pass(q), n - 1, id);
    }
  }

  lemma {:induction false} TimesInSplit(a: seq<Task>, b: seq<Task>, all: seq<Task>, n: nat, id: nat)
    requires all == a + b
    ensures TimesIn(all, n, id) == TimesIn(a, n, id) + TimesIn(b, n, id)
    decreases n
  {
    if n > 0 {
      PassSplit(a, b);
      RanTimes(a, b, all, id);
      TimesInSplit(Pass(a), Pass(b), Pass(all), n - 1, id);
    }
  }

  lemma RanTimes(a: seq<Task>, b: seq<Task>, all: seq<Task>, id: nat)
    requires all == a + b
    ensures Times(Ran(all), id) == Times(Ran(a), id) + Times(Ran(b), id)
  {
    RanSplit(a, b);
    TimesSplit(Ran(a), Ran(b), id);
  }

  /** The runs of a queue are those of its first task and of the others. */
  lemma LogSplit(q: seq<Task>, n: nat, id: nat)
    requires q != []
    ensures Times(Log(q, n), id) == Times(Log([q[0]], n), id) + Times(Log(q[1..], n), id)
  {
    LogTimes(q, n, id);
    LogTimes([q[0]], n, id);
    LogTimes(q[1..], n, id);
    TimesInSplit([q[0]], q[1..], q, n, id);
  }

  lemma {:induction false} NotInLog(q: seq<Task>, n: nat, id: nat)
    requires AllRunnable(q) && forall i :: 0 <= i < |q| ==> q[i].id != id
    ensures Times(Log(q, n), id) == 0
  {
    if q == [] {
      NothingLeft(n);
    } else {
      LogSplit(q, n, id);
      OneTaskLog(q[0], n, id);
      NotInLog(q[1..], n, id);
    }
  }

  /**
    In `n` passes every task runs every other pass, as long as it owes runs:
    with the same number of repeats no task gets ahead of another.
   */
  lemma {:induction false} RunsOf(q: seq<Task>, n: nat, i: nat)
    requires AllRunnable(q) && Distinct(q) && i < |q|
    ensures Times(Log(q, n), q[i].id) == RunsIn(q[i], n)
  {
    LogSplit(q, n, q[i].id);
    OneTaskLog(q[0], n, q[i].id);
    if i == 0 {
      NotInLog(q[1..], n, q[0].id);
    } else {
      RunsOf(q[1..], n, i - 1);
    }
  }

  /** Once the queue is empty, each task has run exactly as often as it was asked to. */
  lemma RanAsAsked(q: seq<Task>, n: nat, i: nat)
    requires AllRunnable(q) && Distinct(q) && i < |q| && Passes(q, n) == []
    ensures Times(Log(q, n), q[i].id) == Owes(q[i])
  {
    Finishes(q, n);
    RunsOf(q, n, i);
  }

  // ---- the CPU ---------------------------------------------------------

  class Cpu {
    var queue: seq<Task>
    /** The tasks that ran, in order. */
    ghost var log: seq<nat>

    /** All tasks in the queue are scheduled or done, so that run_tasks does not call BUG(). */
    ghost predicate Valid()
      reads this
    {
      AllRunnable(queue)
    }

    constructor ()
      ensures Valid() && queue == [] && log == []
    {
      queue, log := [], [];
    }

    /** The inner loop of run_tasks: one pass over the queue, in place. */
    method OnePass()
      requires Valid()
      modifies this
      ensures Valid() && queue == Pass(old(queue)) && log == old(log) + Ran(old(queue))
    {
      var i := 0;
      ghost var rest := queue;
      while i < |queue|
        invariant i <= |queue| && AllRunnable(rest) && queue[i..] == rest
        invariant queue[..i] + Pass(rest) == Pass(old(queue)) && log + Ran(rest) == old(log) + Ran(old(queue))
        decreases |rest|
      {
        ghost var done, log0 := queue[..i], log;
        i := VisitAt(i);
        Assoc(done, Kept(Visit(rest[0])), Pass(rest[1..]));
        Assoc(log0, Logged(rest[0]), Ran(rest[1..]));
        rest := rest[1..];
      }
      assert rest == [] && queue[..i] == queue;
      assert queue == Pass(old(queue));
      PassRunnable(old(queue));
    }

    /** The task at `i`, and where the loop goes on. */
    method VisitAt(i: nat) returns (next: nat)
      requires i < |queue| && Runnable(queue[i])
      modifies this
      ensures i <= next <= |queue| && queue[next..] == old(queue)[i + 1..]
      ensures queue[..next] == old(queue)[..i] + Kept(Visit(old(queue)[i]))
      ensures log == old(log) + Logged(old(queue)[i])
    {
      var t := queue[i];
      next := i + 1;
      match t.state {
        case Done =>
          if t.repeat == TASK_REPEAT_ONCE {
            queue := queue[..i] + queue[i + 1..];
            next := i;
          } else if t.repeat == TASK_REPEAT_LOOP {
            queue := queue[i := t.(state := Scheduled)];
          } else {
            queue := queue[i := t.(repeat := t.repeat - 1, state := Scheduled)];
          }
        case Scheduled =>
          log := log + [t.id];
          queue := queue[i := t.(state := Done, execCount := t.execCount + 1)];
      }
    }

    /**
      run_tasks, watched for up to `limit` passes: with a task that loops it
      goes on for ever.
     */
    method RunTasks(limit: nat) returns (finished: bool)
      requires Valid() && limit > 0
      modifies this
      ensures Valid() && queue == Passes(old(queue), limit) && log == old(log) + Log(old(queue), limit)
      ensures finished <==> NoneLoops(old(queue)) && AllDue(old(queue), limit)
    {
      OnePass();
      var n := 1;
      FirstPass(old(queue));
      while n < limit && queue != []
        invariant Valid() && 1 <= n <= limit
        invariant queue == Passes(old(queue), n) && log == old(log) + Log(old(queue), n)
      {
        ghost var q := queue;
        OnePass();
        PassesMore(old(queue), n);
        Assoc(old(log), Log(old(queue), n), Ran(q));
        n := n + 1;
      }
      finished := queue == [];
      if finished {
        StaysEmpty(old(queue), n, limit);
      }
      Finishes(old(queue), limit);
    }

    /**
      run_tasks where no task loops: it comes to an end, with the queue empty
      and each task run as often as it was asked to.
     */
    method RunToEnd() returns (ghost n: nat)
      requires Valid() && NoneLoops(queue)
      modifies this
      ensures queue == [] && Passes(old(queue), n) == [] && log == old(log) + Log(old(queue), n)
      ensures Distinct(old(queue)) ==> forall i :: 0 <= i < |old(queue)| ==>
        Times(Log(old(queue), n), old(queue)[i].id) == Owes(old(queue)[i])
    {
      PassNearer(queue);
      OnePass();
      n := 1;
      FirstPass(old(queue));
      while queue != []
        invariant Valid() && NoneLoops(queue)
        invariant queue == Passes(old(queue), n) && log == old(log) + Log(old(queue), n)
        decreases Left(queue)
      {
        ghost var q := queue;
        PassNearer(q);
        OnePass();
        PassesMore(old(queue), n);
        Assoc(old(log), Log(old(queue), n), Ran(q));
        n := n + 1;
      }
      if Distinct(old(queue)) {
        forall i | 0 <= i < |old(queue)|
          ensures Times(Log(old(queue), n), old(queue)[i].id) == Owes(old(queue)[i])
        {
          RanAsAsked(old(queue), n, i);
        }
      }
    }
  }

  /** schedule_task; with a CPU its ASSERT stops the kernel unless the task is ready. */
  method ScheduleTask(t: Task, cpu: Cpu?) returns (stopped: bool, err: int)
    requires cpu != null ==> cpu.Valid()
    modifies cpu
    ensures cpu == null ==> !stopped && err == -EEXIST
    ensures cpu != null ==> cpu.Valid() && (stopped <==> !t.state.Ready?) && (!stopped ==> err == 0)
    ensures cpu != null ==> cpu.log == old(cpu.log)
    ensures cpu != null ==>
      cpu.queue == if stopped then old(cpu.queue) else old(cpu.queue) + [t.(state := Scheduled)]
  {
    stopped, err := false, 0;
    if cpu == null {
      err := -EEXIST;
      return;
    }
    stopped := !t.state.Ready?;
    if !stopped {
      cpu.queue := cpu.queue + [t.(state := Scheduled)];
    }
  }

  lemma {:induction false} StaysEmpty(q: seq<Task>, n: nat, m: nat)
    requires n <= m && Passes(q, n) == []
    ensures Passes(q, m) == [] && Log(q, m) == Log(q, n)
    decreases m - n
  {
    if n < m {
      PassesMore(q, n);
      StaysEmpty(q, n + 1, m);
    }
  }
}
