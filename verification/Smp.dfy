/**
  execute_tasks of include/sched.h over all CPUs: unblock_all_cpus,
  run_tasks on every CPU and wait_for_all_cpus of common/cpu.c, as a state
  machine over the accesses to the run state and the queues.  Tasks are
  scheduled before the run.  A CPU may visit the tasks of its queue in any
  order here, which includes the order of its passes.
 */
module Smp {
  import opened Wrappers
  import opened Sched

  /** Where an application processor stands in its endless calls of run_tasks. */
  datatype ApPc = Blocked | Unblocked | Looping | Leaving

  /** Where the boot processor stands in execute_tasks; CPU 0 is the boot processor. */
  datatype BspPc = Unblocking(k: nat) | OwnTasks | Waiting(k: nat) | SawFinished(k: nat) | Returned

  datatype CpuState = CpuState(pc: ApPc, unblocked: bool, finished: bool, queue: seq<Task>, log: seq<nat>)

  datatype State = State(bsp: BspPc, cpus: seq<CpuState>)

  datatype Event =
    | Unblock
    | BspVisit(i: nat)
    | BspLeave
    | SkipBsp
    | TestFinished
    | TestQueue
    | ApStart(c: nat)
    | ApUnfinish(c: nat)
    | ApVisit(c: nat, i: nat)
    | ApBlock(c: nat)
    | ApFinish(c: nat)

  /** The task at `i` is visited by the loop of run_tasks. */
  function Visited(c: CpuState, i: nat): CpuState
    requires i < |c.queue|
  {
    c.(queue := c.queue[..i] + Kept(Visit(c.queue[i])) + c.queue[i + 1..], log := c.log + Logged(c.queue[i]))
  }

  predicate ApAt(s: State, c: nat, pc: ApPc) {
    0 < c < |s.cpus| && s.cpus[c].pc == pc
  }

  predicate Enabled(s: State, e: Event) {
    |s.cpus| > 0 &&
    match e
    case Unblock => s.bsp.Unblocking?
    case BspVisit(i) => s.bsp.OwnTasks? && i < |s.cpus[0].queue|
    case BspLeave => s.bsp.OwnTasks? && s.cpus[0].queue == []
    case SkipBsp => s.bsp.Waiting? && (s.bsp.k == 0 || s.bsp.k >= |s.cpus|)
    case TestFinished => s.bsp.Waiting? && 0 < s.bsp.k < |s.cpus|
    case TestQueue => s.bsp.SawFinished? && 0 < s.bsp.k < |s.cpus|
    case ApStart(c) => ApAt(s, c, Blocked) && s.cpus[c].unblocked
    case ApUnfinish(c) => ApAt(s, c, Unblocked)
    case ApVisit(c, i) => ApAt(s, c, Looping) && i < |s.cpus[c].queue|
    case ApBlock(c) => ApAt(s, c, Looping) && s.cpus[c].queue == []
    case ApFinish(c) => ApAt(s, c, Leaving)
  }

  function Put(s: State, c: nat, cpu: CpuState): State
    requires c < |s.cpus|
  {
    s.(cpus := s.cpus[c := cpu])
  }

  function Step(s: State, e: Event): State
    requires Enabled(s, e)
  {
    match e
    case Unblock =>
      if s.bsp.k < |s.cpus|
      then Put(s, s.bsp.k, s.cpus[s.bsp.k].(unblocked := true)).(bsp := Unblocking(s.bsp.k + 1))
      else Put(s, 0, s.cpus[0].(finished := false)).(bsp := OwnTasks)
    case BspVisit(i) => Put(s, 0, Visited(s.cpus[0], i))
    case BspLeave => Put(s, 0, s.cpus[0].(finished := true)).(bsp := Waiting(0))
    case SkipBsp => s.(bsp := if s.bsp.k == 0 then Waiting(1) else Returned)
    case TestFinished => if s.cpus[s.bsp.k].finished then s.(bsp := SawFinished(s.bsp.k)) else s
    case TestQueue => s.(bsp := Waiting(if s.cpus[s.bsp.k].queue == [] then s.bsp.k + 1 else s.bsp.k))
    case ApStart(c) => Put(s, c, s.cpus[c].(pc := Unblocked))
    case ApUnfinish(c) => Put(s, c, s.cpus[c].(pc := Looping, finished := false))
    case ApVisit(c, i) => Put(s, c, Visited(s.cpus[c], i))
    case ApBlock(c) => Put(s, c, s.cpus[c].(pc := Leaving, unblocked := false))
    case ApFinish(c) => Put(s, c, s.cpus[c].(pc := Blocked, finished := true))
  }

  predicate Runs(s: State, events: seq<Event>)
    decreases |events|
  {
    events == [] || (Enabled(s, events[0]) && Runs(Step(s, events[0]), events[1..]))
  }

  function After(s: State, events: seq<Event>): State
    requires Runs(s, events)
    decreases |events|
  {
    if events == [] then s else After(Step(s, events[0]), events[1..])
  }

  // ---- one CPU ---------------------------------------------------------

  /** How often tasks with this number still have to run. */
  function Outstanding(q: seq<Task>, id: nat): nat {
    if q == [] then 0 else (if q[0].id == id then Owes(q[0]) else 0) + Outstanding(q[1..], id)
  }

  lemma {:induction false} OutstandingSplit(a: seq<Task>, b: seq<Task>, id: nat)
    ensures Outstanding(a + b, id) == Outstanding(a, id) + Outstanding(b, id)
  {
    if a == [] {
      assert a + b == b;
    } else {
      assert (a + b)[1..] == a[1..] + b;
      OutstandingSplit(a[1..], b, id);
    }
  }

  ghost predicate Balanced(q0: seq<Task>, cpu: CpuState) {
    forall id {:trigger Outstanding(cpu.queue, id)} ::
      Times(cpu.log, id) + Outstanding(cpu.queue, id) == Outstanding(q0, id)
  }

  /**
    What a CPU keeps, from the queue `q0` it started with: runs done and runs
    owed make up the runs asked for, and a task that loops never leaves.
   */
  ghost predicate CpuKeeps(q0: seq<Task>, cpu: CpuState) {
    && AllRunnable(cpu.queue)
    && if NoneLoops(q0) then NoneLoops(cpu.queue) && Balanced(q0, cpu) else !NoneLoops(cpu.queue)
  }

  lemma VisitOwes(t: Task, id: nat)
    requires Runnable(t) && t.repeat != TASK_REPEAT_LOOP
    ensures Times(Logged(t), id) + Outstanding(Kept(Visit(t)), id) == Outstanding([t], id)
  {
    assert [t][1..] == [] && (Visit(t).Some? ==> Kept(Visit(t))[1..] == []);
    assert t.state.Scheduled? ==> Logged(t)[1..] == [];
  }

  lemma VisitBalances(q0: seq<Task>, cpu: CpuState, i: nat, id: nat)
    requires AllRunnable(cpu.queue) && NoneLoops(cpu.queue) && Balanced(q0, cpu) && i < |cpu.queue|
    ensures Times(Visited(cpu, i).log, id) + Outstanding(Visited(cpu, i).queue, id) == Outstanding(q0, id)
  {
    var a, t, b := cpu.queue[..i], cpu.queue[i], cpu.queue[i + 1..];
    assert cpu.queue == a + [t] + b;
    VisitOwes(t, id);
    TimesSplit(cpu.log, Logged(t), id);
    OutstandingSplit(a + [t], b, id);
    OutstandingSplit(a, [t], id);
    OutstandingSplit(a + Kept(Visit(t)), b, id);
    OutstandingSplit(a, Kept(Visit(t)), id);
  }

  lemma VisitKeepsLoops(q: seq<Task>, i: nat)
    requires AllRunnable(q) && i < |q|
    ensures var q' := q[..i] + Kept(Visit(q[i])) + q[i + 1..]; AllRunnable(q') && (NoneLoops(q') <==> NoneLoops(q))
  {
    var q' := q[..i] + Kept(Visit(q[i])) + q[i + 1..];
    if !NoneLoops(q) {
      var j :| 0 <= j < |q| && q[j].repeat == TASK_REPEAT_LOOP;
      assert q'[if j <= i then j else j - 1 + |Kept(Visit(q[i]))|].repeat == TASK_REPEAT_LOOP;
    }
  }

  lemma VisitKeeps(q0: seq<Task>, cpu: CpuState, i: nat)
    requires CpuKeeps(q0, cpu) && i < |cpu.queue|
    ensures CpuKeeps(q0, Visited(cpu, i))
  {
    VisitKeepsLoops(cpu.queue, i);
    if NoneLoops(q0) {
      forall id ensures Times(Visited(cpu, i).log, id) + Outstanding(Visited(cpu, i).queue, id) == Outstanding(q0, id) {
        VisitBalances(q0, cpu, i, id);
      }
    }
  }

  // ---- all CPUs --------------------------------------------------------

  /** The queues the boot processor knows to be empty. */
  predicate Seen(bsp: BspPc, c: nat) {
    match bsp
    case Unblocking(_) => false
    case OwnTasks => false
    case Waiting(k) => c == 0 || c < k
    case SawFinished(k) => c == 0 || c < k
    case Returned => true
  }

  ghost predicate Inv(queues: seq<seq<Task>>, s: State) {
    && |s.cpus| == |queues| > 0
    && (forall c :: 0 <= c < |s.cpus| ==> CpuKeeps(queues[c], s.cpus[c]))
    && forall c :: 0 <= c < |s.cpus| && Seen(s.bsp, c) ==> s.cpus[c].queue == []
  }

  lemma PutKeeps(queues: seq<seq<Task>>, s: State, c: nat, cpu: CpuState)
    requires Inv(queues, s) && c < |s.cpus| && CpuKeeps(queues[c], cpu) && (Seen(s.bsp, c) ==> cpu.queue == [])
    ensures Inv(queues, Put(s, c, cpu))
  {
  }

  /** The run state does not matter for what a CPU keeps. */
  lemma FlagsKeep(queues: seq<seq<Task>>, s: State, c: nat, cpu: CpuState)
    requires Inv(queues, s) && c < |s.cpus| && cpu.queue == s.cpus[c].queue && cpu.log == s.cpus[c].log
    ensures Inv(queues, Put(s, c, cpu))
  {
    assert CpuKeeps(queues[c], s.cpus[c]);
    PutKeeps(queues, s, c, cpu);
  }

  lemma StepKeeps(queues: seq<seq<Task>>, s: State, e: Event)
    requires Inv(queues, s) && Enabled(s, e)
    ensures Inv(queues, Step(s, e))
  {
    match e {
      case Unblock =>
        var k := if s.bsp.k < |s.cpus| then s.bsp.k else 0;
        FlagsKeep(queues, s, k, Step(s, e).cpus[k]);
      case BspVisit(i) =>
        VisitKeeps(queues[0], s.cpus[0], i);
        PutKeeps(queues, s, 0, Visited(s.cpus[0], i));
      case BspLeave => FlagsKeep(queues, s, 0, Step(s, e).cpus[0]);
      case SkipBsp =>
      case TestFinished =>
      case TestQueue =>
      case ApVisit(c, i) =>
        VisitKeeps(queues[c], s.cpus[c], i);
        PutKeeps(queues, s, c, Visited(s.cpus[c], i));
      case _ => FlagsKeep(queues, s, e.c, Step(s, e).cpus[e.c]);
    }
  }

  lemma {:induction false} RunKeeps(queues: seq<seq<Task>>, s: State, events: seq<Event>)
    requires Inv(queues, s) && Runs(s, events)
    ensures Inv(queues, After(s, events))
    decreases |events|
  {
    if events != [] {
      StepKeeps(queues, s, events[0]);
      RunKeeps(queues, Step(s, events[0]), events[1..]);
    }
  }

  /** Before execute_tasks: queues of scheduled or finished tasks, and any run state. */
  ghost predicate Start(queues: seq<seq<Task>>, s: State) {
    && s.bsp == Unblocking(0) && |s.cpus| == |queues| > 0
    && forall c :: 0 <= c < |queues| ==>
         AllRunnable(queues[c]) && s.cpus[c].queue == queues[c] && s.cpus[c].log == []
  }

  lemma StartKeeps(queues: seq<seq<Task>>, s: State)
    requires Start(queues, s)
    ensures Inv(queues, s)
  {
    forall c | 0 <= c < |s.cpus| ensures CpuKeeps(queues[c], s.cpus[c]) {
    }
  }

  lemma {:induction false} OutstandingOf(q: seq<Task>, i: nat)
    requires Distinct(q) && i < |q|
    ensures Outstanding(q, q[i].id) == Owes(q[i])
  {
    if i == 0 {
      NobodyOwes(q[1..], q[0].id);
    } else {
      OutstandingOf(q[1..], i - 1);
    }
  }

  lemma {:induction false} NobodyOwes(q: seq<Task>, id: nat)
    requires forall i :: 0 <= i < |q| ==> q[i].id != id
    ensures Outstanding(q, id) == 0
  {
    if q != [] {
      NobodyOwes(q[1..], id);
    }
  }

  /**
    However the CPUs interleave, and whatever their run state was before:
    once execute_tasks returns, every queue is empty, no task was set to loop,
    and every task of every CPU has run exactly as often as it was asked to.
   */
  lemma AllTasksDone(queues: seq<seq<Task>>, s: State, events: seq<Event>, c: nat, i: nat)
    requires Start(queues, s) && Runs(s, events) && After(s, events).bsp == Returned
    requires c < |queues| && Distinct(queues[c]) && i < |queues[c]|
    ensures |After(s, events).cpus| == |queues| && After(s, events).cpus[c].queue == []
    ensures NoneLoops(queues[c]) && Times(After(s, events).cpus[c].log, queues[c][i].id) == Owes(queues[c][i])
  {
    StartKeeps(queues, s);
    RunKeeps(queues, s, events);
    var cpu := After(s, events).cpus[c];
    assert CpuKeeps(queues[c], cpu) && Seen(After(s, events).bsp, c);
    OutstandingOf(queues[c], i);
    assert Outstanding(cpu.queue, queues[c][i].id) == 0;
  }
}
