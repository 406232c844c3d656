/** The uniprocessor scheduler, wait queues and semaphores of kernel/sched.c and
    kernel/semaphore.c as a system of atomic steps. A step is one region that
    runs with interrupts off, up to and including a task switch inside it. */
module SchedModel {
  import opened Common

  type Task = nat

  datatype TaskState = Running | Ready | Sleeping | Zombie

  /** Where a task that is not running will go on: in ordinary code, or inside
      the wait loop of sem_P on the given semaphore. */
  datatype Pc = Normal | InP(sem: nat)

  /** A wait queue. If it belongs to a semaphore, also the counter, and how many
      P and V operations have completed since it was set up with `init`. */
  datatype Queue =
    | Plain(waiters: seq<Task>)
    | Sem(waiters: seq<Task>, val: int, init: nat, ps: nat, vs: nat)

  datatype State = State(
    idle: Task,
    cur: Task,
    runq: seq<Task>,
    delq: seq<Task>,
    queues: seq<Queue>,
    st: map<Task, TaskState>,  // live tasks
    pc: map<Task, Pc>,
    fresh_: set<Task>,         // created and never run yet: they do not start inside sched()
    freed: seq<Task>)          // whose pages were given back, in order

  // ----- sched()

  /** The list rotation of get_next_task: a running task at the head goes to the tail. */
  function Rotate(s: State): State {
    if s.runq != [] && s.runq[0] == s.cur then s.(runq := s.runq[1..] + [s.cur]) else s
  }

  /** What get_next_task returns, after the rotation. */
  function NextTask(s: State): Task { if s.runq == [] then s.idle else s.runq[0] }

  function FlushDelq(s: State): State {
    s.(delq := [], freed := s.freed + s.delq, st := s.st - (set t | t in s.delq), pc := s.pc - (set t | t in s.delq))
  }

  function Sched(s0: State): State
    requires s0.cur in s0.st
  {
    var s := Rotate(s0);
    var next := NextTask(s);
    if next == s.cur then s else
    var st1 := if s.st[s.cur].Running? then s.st[s.cur := Ready] else s.st;
    var s1 := s.(st := st1[next := Running], cur := next);
    if next in s.fresh_ then s1.(fresh_ := s1.fresh_ - {next}) else
    if s1.delq != [] then FlushDelq(s1) else s1
  }

  // ----- the other primitives

  function ToRunq(s: State, t: Task): State { s.(st := s.st[t := Ready], runq := s.runq + [t]) }

  /** sleep_on up to its call of sched(). */
  function Block(s: State, q: nat): State
    requires q < |s.queues|
  {
    s.(st := s.st[s.cur := Sleeping],
       runq := Remove(s.runq, s.cur),
       queues := s.queues[q := s.queues[q].(waiters := s.queues[q].waiters + [s.cur])])
  }

  function SleepOn(s: State, q: nat): State
    requires q < |s.queues|
  {
    Sched(Block(s, q))
  }

  function WakeUp(s: State, q: nat): State
    requires q < |s.queues|
    decreases |s.queues[q].waiters|
  {
    if s.queues[q].waiters == [] then s else WakeUp(WakeOne(s, q), q)
  }

  function WakeOne(s: State, q: nat): State
    requires q < |s.queues|
  {
    var w := s.queues[q].waiters;
    if w == [] then s else
    ToRunq(s.(queues := s.queues[q := s.queues[q].(waiters := w[1..])]), w[0])
  }

  function SemV(s: State, q: nat): State
    requires q < |s.queues| && s.queues[q].Sem?
  {
    var s1 := s.(queues := s.queues[q := s.queues[q].(val := s.queues[q].val + 1, vs := s.queues[q].vs + 1)]);
    if s1.queues[q].val > 0 then WakeOne(s1, q) else s1
  }

  /** One evaluation of the loop test of sem_P by the current task, and what follows it. */
  function TryP(s: State, q: nat): State
    requires q < |s.queues| && s.queues[q].Sem?
  {
    if s.queues[q].val <= 0 then SleepOn(s.(pc := s.pc[s.cur := InP(q)]), q)
    else s.(pc := s.pc[s.cur := Normal],
            queues := s.queues[q := s.queues[q].(val := s.queues[q].val - 1, ps := s.queues[q].ps + 1)])
  }

  /** do_exit up to the point where interrupts are enabled again. */
  function ExitBegin(s: State): State {
    s.(runq := Remove(s.runq, s.cur), delq := s.delq + [s.cur], st := s.st[s.cur := Zombie])
  }

  function Fork(s: State, t: Task): State {
    ToRunq(s.(pc := s.pc[t := Normal], fresh_ := s.fresh_ + {t}), t)
  }

  // ----- steps

  datatype Step =
    | DoSched            // a timer or other interrupt, or the call of sched() in do_exit
    | DoP(q: nat)        // sem_P entered
    | DoRecheck          // sem_P resumed after sleep_on: interrupts are still off
    | DoV(q: nat)
    | DoSleep(q: nat)    // a driver's sleep_on
    | DoWakeUp(q: nat)   // by a task or an interrupt handler
    | DoFork(t: Task)
    | DoExit

  /** The current task is an ordinary task in ordinary code. */
  predicate Free(s: State) {
    s.cur != s.idle && s.cur in s.st && s.st[s.cur].Running? && s.cur in s.pc && s.pc[s.cur].Normal?
  }

  predicate Enabled(s: State, e: Step) {
    && s.cur in s.st && s.cur in s.pc
    && match e
       case DoSched => s.pc[s.cur].Normal?
       case DoP(q) => Free(s) && q < |s.queues| && s.queues[q].Sem?
       case DoRecheck => s.pc[s.cur].InP? && s.pc[s.cur].sem < |s.queues| && s.queues[s.pc[s.cur].sem].Sem?
       case DoV(q) => s.pc[s.cur].Normal? && q < |s.queues| && s.queues[q].Sem?
       case DoSleep(q) => Free(s) && q < |s.queues| && s.queues[q].Plain?
       case DoWakeUp(q) => s.pc[s.cur].Normal? && q < |s.queues|
       case DoFork(t) => s.pc[s.cur].Normal? && !s.st[s.cur].Zombie? && t !in s.st && t !in s.freed
       case DoExit => Free(s)
  }

  function Next(s: State, e: Step): State
    requires Enabled(s, e)
  {
    match e
    case DoSched => Sched(s)
    case DoP(q) => TryP(s, q)
    case DoRecheck => TryP(s, s.pc[s.cur].sem)
    case DoV(q) => SemV(s, q)
    case DoSleep(q) => SleepOn(s, q)
    case DoWakeUp(q) => WakeUp(s, q)
    case DoFork(t) => Fork(s, t)
    case DoExit => ExitBegin(s)
  }
}
