/** The laws of the scheduler and of semaphores, over every run from boot: all interleavings
    of tasks and interrupts. */
module SchedLaws {
  import opened Common
  import opened SchedModel
  import opened SchedInv
  import opened Semaphores
  import opened SchedRuns

  /** s is a state of a run that starts at boot. */
  ghost predicate Reached(ss: seq<State>, es: seq<Step>, i: nat) { Run(ss, es) && Init(ss[0]) && i < |ss| }

  lemma ReachedSafe(ss: seq<State>, es: seq<Step>, i: nat)
    requires Reached(ss, es, i)
    ensures Safe(ss[i])
  {
    RunsAreSafe(ss, es);
  }

  // ----- where tasks are

  /** Every live task but the idle one is on exactly one list, and its state field says which kind. */
  lemma OnOneList(ss: seq<State>, es: seq<Step>, i: nat, t: Task)
    requires Reached(ss, es, i) && t in ss[i].st && t != ss[i].idle
    ensures var s := ss[i];
            && Places(s, t) == 1
            && (s.st[t].Zombie? <==> t in s.delq) && (s.st[t].Sleeping? <==> Waits(s, t))
            && (s.st[t].Running? || s.st[t].Ready? <==> t in s.runq)
  {
    ReachedSafe(ss, es, i);
    PlacedOnce(ss[i], t);
  }

  /** The current task, unless it is exiting, is the one and only RUNNING task, and heads the run queue unless idle. */
  lemma OnlyCurrentRuns(ss: seq<State>, es: seq<Step>, i: nat, t: Task)
    requires Reached(ss, es, i) && t in ss[i].st
    ensures var s := ss[i];
            && s.cur in s.st && (s.st[t].Running? <==> t == s.cur && !s.st[s.cur].Zombie?) && t !in s.freed
            && (s.cur == s.idle || s.st[s.cur].Zombie? || (s.runq != [] && s.runq[0] == s.cur))
  {
    ReachedSafe(ss, es, i);
  }

  // ----- calls of sched()

  /** The state in which a step calls sched(): at once, or after the task has put itself to sleep. */
  function AtSched(s: State, e: Step): State
    requires Enabled(s, e) && Calls(s, e) == 1
  {
    match e
    case DoSched => s
    case DoSleep(q) => Block(s, q)
    case DoP(q) => Block(s.(pc := s.pc[s.cur := InP(q)]), q)
    case DoRecheck => Block(s.(pc := s.pc[s.cur := InP(s.pc[s.cur].sem)]), s.pc[s.cur].sem)
  }

  lemma BlockedMid(s: State, q: nat)
    requires Inv(s) && s.cur != s.idle && s.st[s.cur].Running? && q < |s.queues|
    ensures Mid(Block(s.(pc := s.pc[s.cur := InP(q)]), q))
  {
    PcKeeps(s, s.pc[s.cur := InP(q)]);
    BlockKeeps(s.(pc := s.pc[s.cur := InP(q)]), q);
  }

  lemma CallsSched(s: State, e: Step)
    requires Safe(s) && Enabled(s, e) && Calls(s, e) == 1
    ensures Mid(AtSched(s, e)) && Next(s, e) == Sched(AtSched(s, e))
  {
    match e
    case DoSched =>
    case DoSleep(q) => BlockKeeps(s, q);
    case DoP(q) => BlockedMid(s, q);
    case DoRecheck => RecheckFacts(s); BlockedMid(s, s.pc[s.cur].sem);
  }

  /** BUG_ON at kernel/sched.c:178 and :187: at every call of sched() in every run, the task that
      get_next_task returns is not asleep, and every task on the delete queue is a zombie, also
      after the switch. */
  lemma AssertionsHold(ss: seq<State>, es: seq<Step>, i: nat)
    requires Reached(ss, es, i) && i < |es| && Calls(ss[i], es[i]) == 1
    ensures var m := AtSched(ss[i], es[i]); var n := NextTask(Rotate(m));
            && ss[i + 1] == Sched(m) && n in m.st && !m.st[n].Sleeping?
            && forall t :: t in m.delq ==> t in m.st && m.st[t].Zombie? && t != n
  {
    ReachedSafe(ss, es, i);
    CallsSched(ss[i], es[i]);
    NextMayRun(AtSched(ss[i], es[i]));
  }

  // ----- semaphores

  /** A semaphore's counter is its initial value minus completed P plus completed V, and not negative. */
  lemma SemaphoreExact(ss: seq<State>, es: seq<Step>, i: nat, q: nat)
    requires Reached(ss, es, i) && q < |ss[i].queues| && ss[i].queues[q].Sem?
    ensures var c := ss[i].queues[q]; c.val == c.init - c.ps + c.vs && c.val >= 0
  {
    ReachedSafe(ss, es, i);
    assert Exact(ss[i].queues[q]);
  }

  /** A task never sleeps on a free semaphore unless enough others, runnable, are about to take it. */
  lemma NoLostWakeup(ss: seq<State>, es: seq<Step>, i: nat, q: nat)
    requires Reached(ss, es, i) && q < |ss[i].queues| && ss[i].queues[q].Sem? && ss[i].queues[q].waiters != []
    ensures |Woken(ss[i], q)| >= ss[i].queues[q].val
    ensures forall t :: t in Woken(ss[i], q) ==> t in ss[i].runq
    ensures ss[i].queues[q].val > 0 ==> exists t :: t in ss[i].runq && t in Woken(ss[i], q)
  {
    ReachedSafe(ss, es, i);
    var s := ss[i];
    forall t | t in Woken(s, q) ensures t in s.runq { assert Looping(s, t, q); }
    if s.queues[q].val > 0 {
      assert Woken(s, q) != {};
      var t :| t in Woken(s, q);
    }
  }

  /** The step is the end of a sem_P on q. */
  predicate Takes(s: State, e: Step, q: nat)
    requires Enabled(s, e)
  {
    match e
    case DoP(p) => p == q && s.queues[q].val > 0
    case DoRecheck => s.pc[s.cur].sem == q && s.queues[q].val > 0
    case _ => false
  }

  lemma {:induction false} WakeUpCounter(s: State, p: nat, q: nat)
    requires p < |s.queues| && q < |s.queues| && s.queues[q].Sem?
    ensures var r := WakeUp(s, p);
            && |r.queues| == |s.queues| && r.queues[q].Sem?
            && r.queues[q].val == s.queues[q].val && r.queues[q].init == s.queues[q].init
    decreases |s.queues[p].waiters|
  {
    if s.queues[p].waiters != [] { WakeUpCounter(WakeOne(s, p), p, q); }
  }

  lemma StepCounter(s: State, e: Step, q: nat)
    requires Enabled(s, e) && q < |s.queues| && s.queues[q].Sem?
    ensures var r := Next(s, e);
            && |r.queues| == |s.queues| && r.queues[q].Sem? && r.queues[q].init == s.queues[q].init
            && r.queues[q].val == s.queues[q].val + (if e == DoV(q) then 1 else 0) - (if Takes(s, e, q) then 1 else 0)
  {
    match e
    case DoSched => SchedFrame(s);
    case DoSleep(p) => SchedFrame(Block(s, p));
    case DoP(p) => if s.queues[p].val <= 0 { SchedFrame(Block(s.(pc := s.pc[s.cur := InP(p)]), p)); }
    case DoRecheck =>
      var p := s.pc[s.cur].sem;
      if s.queues[p].val <= 0 { SchedFrame(Block(s.(pc := s.pc[s.cur := InP(p)]), p)); }
    case DoWakeUp(p) => WakeUpCounter(s, p, q);
    case _ =>
  }

  /** Who has taken semaphore q and not given it back, after n steps. */
  function Holders(ss: seq<State>, es: seq<Step>, q: nat, n: nat): multiset<Task>
    requires Run(ss, es) && n < |ss|
  {
    if n == 0 then multiset{} else
    var h, s, e := Holders(ss, es, q, n - 1), ss[n - 1], es[n - 1];
    if Takes(s, e, q) then h + multiset{s.cur} else if e == DoV(q) then h - multiset{s.cur} else h
  }

  /** Only holders give the semaphore back. */
  predicate Disciplined(ss: seq<State>, es: seq<Step>, q: nat)
    requires Run(ss, es)
  {
    forall k :: 0 <= k < |es| && es[k] == DoV(q) ==> ss[k].cur in Holders(ss, es, q, k)
  }

  /** Used as a lock, a semaphore has as many holders as its counter is short of its initial value: with
      initial value 1 never two, in any interleaving, and none exactly when it is free. */
  lemma {:induction false} MutualExclusion(ss: seq<State>, es: seq<Step>, q: nat, n: nat)
    requires Reached(ss, es, n) && q < |ss[0].queues| && ss[0].queues[q].Sem? && Disciplined(ss, es, q)
    ensures q < |ss[n].queues| && ss[n].queues[q].Sem? && ss[n].queues[q].init == ss[0].queues[q].init
    ensures |Holders(ss, es, q, n)| == ss[0].queues[q].init - ss[n].queues[q].val <= ss[0].queues[q].init
  {
    if n > 0 {
      MutualExclusion(ss, es, q, n - 1);
      RunStep(ss, es, n - 1);
      StepCounter(ss[n - 1], es[n - 1], q);
    }
    SemaphoreExact(ss, es, n, q);
  }

  // ----- wait queues

  /** The step puts the current task to sleep on queue q. */
  predicate Joins(s: State, e: Step, q: nat)
    requires Enabled(s, e)
  {
    match e
    case DoSleep(p) => p == q
    case DoP(p) => p == q && s.queues[q].val <= 0
    case DoRecheck => s.pc[s.cur].sem == q && s.queues[q].val <= 0
    case _ => false
  }

  /** What every step does to every queue: a sleeper joins at the end, V takes the first out, wake_up all. */
  lemma StepWaiters(s: State, e: Step, q: nat)
    requires Safe(s) && Enabled(s, e) && q < |s.queues|
    ensures |Next(s, e).queues| == |s.queues| && (Next(s, e).queues[q].Sem? <==> s.queues[q].Sem?)
    ensures var w, w' := s.queues[q].waiters, Next(s, e).queues[q].waiters;
            if Joins(s, e, q) then w' == w + [s.cur]
            else if e == DoV(q) then w' == (if w == [] then [] else w[1..])
            else if e == DoWakeUp(q) then w' == [] else w' == w
    ensures e == DoV(q) && s.queues[q].waiters != [] ==>
              var t, r := s.queues[q].waiters[0], Next(s, e); r.runq == s.runq + [t] && t in r.st && r.st[t].Ready?
  {
    match e
    case DoSched => SchedFrame(s);
    case DoSleep(p) => SchedFrame(Block(s, p));
    case DoP(p) => if s.queues[p].val <= 0 { SchedFrame(Block(s.(pc := s.pc[s.cur := InP(p)]), p)); }
    case DoRecheck =>
      var p := s.pc[s.cur].sem;
      if s.queues[p].val <= 0 { SchedFrame(Block(s.(pc := s.pc[s.cur := InP(p)]), p)); }
    case DoWakeUp(p) => WakeUpMoves(s, p);
    case DoV(p) => assert Exact(s.queues[p]);
    case _ =>
  }

  predicate Asleep(s: State, q: nat, t: Task) { q < |s.queues| && s.queues[q].Plain? && t in s.queues[q].waiters }

  lemma AsleepStep(ss: seq<State>, es: seq<Step>, m: nat, q: nat, t: Task)
    requires Reached(ss, es, m + 1) && Asleep(ss[m], q, t) && es[m] != DoWakeUp(q)
    ensures Asleep(ss[m + 1], q, t)
  {
    ReachedSafe(ss, es, m);
    RunStep(ss, es, m);
    StepWaiters(ss[m], es[m], q);
  }

  /** A task asleep on a plain queue stays there until the next wake_up of that queue. */
  lemma StaysAsleep(ss: seq<State>, es: seq<Step>, i: nat, j: nat, q: nat, t: Task)
    requires Reached(ss, es, j) && i <= j && Asleep(ss[i], q, t) && forall k :: i <= k < j ==> es[k] != DoWakeUp(q)
    ensures Asleep(ss[j], q, t) && t in ss[j].st && ss[j].st[t].Sleeping?
  {
    var b := seq(|ss|, m requires 0 <= m < |ss| => Asleep(ss[m], q, t));
    forall m | i <= m < j && b[m] ensures b[m + 1] { AsleepStep(ss, es, m, q, t); }
    Stays(b, i, j);
    ReachedSafe(ss, es, j);
  }

  /** And then it is runnable, behind those that were. */
  lemma WakeUpWakes(ss: seq<State>, es: seq<Step>, i: nat, k: nat, q: nat, t: Task)
    requires Reached(ss, es, k + 1) && i <= k && Asleep(ss[i], q, t)
    requires es[k] == DoWakeUp(q) && forall m :: i <= m < k ==> es[m] != DoWakeUp(q)
    ensures t in ss[k + 1].runq && t in ss[k + 1].st && ss[k + 1].st[t].Ready? && !Waits(ss[k + 1], t)
    ensures q < |ss[k].queues| && ss[k + 1].runq == ss[k].runq + ss[k].queues[q].waiters
    ensures q < |ss[k + 1].queues| && ss[k + 1].queues[q].waiters == []
  {
    StaysAsleep(ss, es, i, k, q, t);
    RunStep(ss, es, k);
    WakeUpMoves(ss[k], q);
    ReachedSafe(ss, es, k + 1);
  }

  /** sleep_on on a plain queue, in every run: the caller is asleep on it until the next wake_up of that queue... */
  lemma SleepHolds(ss: seq<State>, es: seq<Step>, i: nat, j: nat, q: nat)
    requires Reached(ss, es, j) && i < j && es[i] == DoSleep(q) && forall m :: i < m < j ==> es[m] != DoWakeUp(q)
    ensures Asleep(ss[j], q, ss[i].cur) && ss[i].cur in ss[j].st && ss[j].st[ss[i].cur].Sleeping?
  {
    SleepJoins(ss, es, i, q);
    StaysAsleep(ss, es, i + 1, j, q, ss[i].cur);
  }

  /** ...and runnable right after it. */
  lemma SleepEnds(ss: seq<State>, es: seq<Step>, i: nat, k: nat, q: nat)
    requires Reached(ss, es, k + 1) && i < k && es[i] == DoSleep(q)
    requires es[k] == DoWakeUp(q) && forall m :: i < m < k ==> es[m] != DoWakeUp(q)
    ensures var t, s := ss[i].cur, ss[k + 1]; t in s.runq && t in s.st && s.st[t].Ready?
  {
    SleepJoins(ss, es, i, q);
    WakeUpWakes(ss, es, i + 1, k, q, ss[i].cur);
  }

  lemma SleepJoins(ss: seq<State>, es: seq<Step>, i: nat, q: nat)
    requires Reached(ss, es, i + 1) && es[i] == DoSleep(q)
    ensures q < |ss[i].queues| && q < |ss[i + 1].queues| && ss[i + 1].queues[q].Plain?
    ensures ss[i + 1].queues[q].waiters == ss[i].queues[q].waiters + [ss[i].cur]
  {
    RunStep(ss, es, i);
    ReachedSafe(ss, es, i);
    StepWaiters(ss[i], es[i], q);
  }

  /** How many times V has been done on q. */
  function Vs(es: seq<Step>, i: nat, j: nat, q: nat): nat
    requires i <= j <= |es|
    decreases j
  {
    if i == j then 0 else Vs(es, i, j - 1, q) + if es[j - 1] == DoV(q) then 1 else 0
  }

  /** Who stays on a queue keeps its place, or moves up one if `up`. */
  predicate Shifts(w: seq<Task>, w': seq<Task>, up: bool) {
    forall x :: 0 <= x < |w| && w[x] in w' ==>
      (up ==> x > 0) && x - (if up then 1 else 0) < |w'| && w'[x - (if up then 1 else 0)] == w[x]
  }

  lemma StepShifts(s: State, e: Step, q: nat)
    requires Safe(s) && Enabled(s, e) && q < |s.queues|
    ensures q < |Next(s, e).queues| && Shifts(s.queues[q].waiters, Next(s, e).queues[q].waiters, e == DoV(q))
  {
    StepWaiters(s, e, q);
    if s.queues[q].waiters != [] { NoDupTail(s.queues[q].waiters); }
  }

  lemma {:induction false} ShiftRun(ws: seq<seq<Task>>, es: seq<Step>, q: nat, i: nat, j: nat, k: nat)
    requires |ws| == |es| + 1 && i <= j <= |es| && k < |ws[i]|
    requires forall m :: i <= m < j ==> Shifts(ws[m], ws[m + 1], es[m] == DoV(q))
    requires forall m :: i <= m <= j ==> ws[i][k] in ws[m]
    ensures Vs(es, i, j, q) <= k && k - Vs(es, i, j, q) < |ws[j]| && ws[j][k - Vs(es, i, j, q)] == ws[i][k]
    decreases j
  {
    if i < j {
      ShiftRun(ws, es, q, i, j - 1, k);
      assert Shifts(ws[j - 1], ws[j], es[j - 1] == DoV(q));
    }
  }

  function Waiters(s: State, q: nat): seq<Task> { if q < |s.queues| then s.queues[q].waiters else [] }

  lemma WaitersShift(ss: seq<State>, es: seq<Step>, m: nat, q: nat)
    requires Reached(ss, es, m + 1)
    ensures Shifts(Waiters(ss[m], q), Waiters(ss[m + 1], q), es[m] == DoV(q))
    ensures |ss[m + 1].queues| >= |ss[m].queues|
  {
    ReachedSafe(ss, es, m);
    RunStep(ss, es, m);
    if q < |ss[m].queues| { StepShifts(ss[m], es[m], q); }
    if ss[m].queues != [] { StepWaiters(ss[m], es[m], 0); }
  }

  /** First come, first served: who waits at index k of a semaphore's queue is off it, for a time at least,
      once k+1 V have been done. */
  lemma FirstComeFirstServed(ss: seq<State>, es: seq<Step>, i: nat, j: nat, q: nat, k: nat)
    requires Reached(ss, es, j) && i <= j && q < |ss[i].queues| && k < |ss[i].queues[q].waiters|
    requires Vs(es, i, j, q) > k
    ensures exists m :: i <= m <= j && q < |ss[m].queues| && ss[i].queues[q].waiters[k] !in ss[m].queues[q].waiters
  {
    var ws := seq(|ss|, m requires 0 <= m < |ss| => Waiters(ss[m], q));
    forall m | 0 <= m < |es|
      ensures Shifts(ws[m], ws[m + 1], es[m] == DoV(q)) && |ss[m + 1].queues| >= |ss[m].queues|
    {
      WaitersShift(ss, es, m, q);
    }
    QueuesStay(ss, i, j);
    if forall m :: i <= m <= j ==> ws[i][k] in ws[m] { ShiftRun(ws, es, q, i, j, k); }
    var m :| i <= m <= j && ws[i][k] !in ws[m];
  }

  lemma {:induction false} QueuesStay(ss: seq<State>, i: nat, j: nat)
    requires i <= j < |ss| && forall m :: i <= m < j ==> |ss[m + 1].queues| >= |ss[m].queues|
    ensures forall m :: i <= m <= j ==> |ss[m].queues| >= |ss[i].queues|
    decreases j
  {
    if i < j {
      QueuesStay(ss, i, j - 1);
      assert |ss[j - 1 + 1].queues| >= |ss[j - 1].queues|;
    }
  }

  // ----- death

  /** A task that has exited and been switched away from never runs again, and is freed at most once. */
  lemma TheDeadStayDead(ss: seq<State>, es: seq<Step>, i: nat, j: nat, t: Task)
    requires Reached(ss, es, j) && i <= j && Gone(ss[i], t)
    ensures Gone(ss[j], t) && t != ss[j].cur && Occurs(ss[j].freed, t) <= 1
  {
    InitSafe(ss[0]);
    GoneForGood(ss, es, i, j, t);
    ReachedSafe(ss, es, j);
    GoneFacts(ss[j], t);
  }

  /** The step switches to a task that has run before: that task goes on inside sched() and empties the
      delete queue. A new task starts elsewhere. */
  predicate Flushes(s: State, e: Step)
    requires Enabled(s, e)
  {
    Calls(s, e) == 1 && var m := AtSched(s, e); var n := NextTask(Rotate(m)); n != m.cur && n !in m.fresh_
  }

  lemma SchedFrees(m: State, t: Task)
    requires Mid(m) && t in m.delq && t !in m.freed
    ensures t in Sched(m).freed <==> NextTask(Rotate(m)) != m.cur && NextTask(Rotate(m)) !in m.fresh_
  {
    assert Rotate(m).delq == m.delq && Rotate(m).freed == m.freed && Rotate(m).fresh_ == m.fresh_;
  }

  lemma AtSchedKeeps(s: State, e: Step, t: Task)
    requires Inv(s) && Enabled(s, e) && Calls(s, e) == 1
    ensures AtSched(s, e).delq == s.delq && AtSched(s, e).freed == s.freed && AtSched(s, e).fresh_ == s.fresh_
  {
  }

  lemma OtherStepsFreeNothing(s: State, e: Step)
    requires Enabled(s, e) && Calls(s, e) != 1
    ensures Next(s, e).freed == s.freed
  {
    if e.DoWakeUp? { WakeUpFreed(s, e.q); }
  }

  /** The task has exited: it waits on the delete queue, if only for its own last call of sched(), or is freed. */
  predicate Exited(s: State, t: Task) { t in s.freed || (t in s.st && s.st[t].Zombie?) }

  lemma ExitedStep(s: State, e: Step, t: Task)
    requires Safe(s) && Enabled(s, e) && Exited(s, t)
    ensures Exited(Next(s, e), t)
  {
    FreedGrows(s, e);
    if t !in s.freed { ZombieStep(s, e, t); }
  }

  lemma ExitedForGood(ss: seq<State>, es: seq<Step>, i: nat, j: nat, t: Task)
    requires Reached(ss, es, j) && i <= j && Exited(ss[i], t)
    ensures Exited(ss[j], t)
  {
    var b := seq(|ss|, m requires 0 <= m < |ss| => Exited(ss[m], t));
    forall m | i <= m < j && b[m] ensures b[m + 1] { ExitedNext(ss, es, m, t); }
    Stays(b, i, j);
  }

  lemma ExitedNext(ss: seq<State>, es: seq<Step>, m: nat, t: Task)
    requires Reached(ss, es, m + 1) && Exited(ss[m], t)
    ensures Exited(ss[m + 1], t)
  {
    ReachedSafe(ss, es, m);
    RunStep(ss, es, m);
    ExitedStep(ss[m], es[m], t);
  }

  /** A call of sched() leaves every task that has exited, also the one that makes the call. */
  lemma SchedLeaves(s: State, e: Step, t: Task)
    requires Safe(s) && Enabled(s, e) && Calls(s, e) == 1 && Exited(s, t)
    ensures Gone(Next(s, e), t)
  {
    if t in s.freed {
      FreedGrows(s, e);
    } else {
      CallsSched(s, e);
      if e.DoRecheck? { RecheckFacts(s); }
      SchedZombies(AtSched(s, e), t);
    }
  }

  /** From the first call of sched() after its exit on, a task is never current again. */
  lemma NeverRunsAgain(ss: seq<State>, es: seq<Step>, i: nat, k: nat, j: nat, t: Task)
    requires Reached(ss, es, j) && i <= k < j && Exited(ss[i], t) && Calls(ss[k], es[k]) == 1
    ensures t != ss[j].cur && Gone(ss[j], t)
  {
    ExitedForGood(ss, es, i, k, t);
    ReachedSafe(ss, es, k);
    RunStep(ss, es, k);
    SchedLeaves(ss[k], es[k], t);
    TheDeadStayDead(ss, es, k + 1, j, t);
  }

  lemma StepFrees(s: State, e: Step, t: Task)
    requires Safe(s) && Enabled(s, e) && Exited(s, t) && t !in s.freed
    ensures t in Next(s, e).freed <==> Flushes(s, e)
  {
    if Calls(s, e) == 1 {
      CallsSched(s, e);
      AtSchedKeeps(s, e, t);
      SchedFrees(AtSched(s, e), t);
    } else {
      OtherStepsFreeNothing(s, e);
    }
  }

  /** Some step from i up to j, exclusive, switches to a task that has run before. */
  predicate Flushed(ss: seq<State>, es: seq<Step>, i: nat, j: nat)
    requires Run(ss, es) && i <= j <= |es|
  {
    exists k :: i <= k < j && Flushes(ss[k], es[k])
  }

  /** Exactly when a task that has exited is freed, and then exactly once: at the first switch to a task
      that has run before, be it its own last switch. While only new tasks are switched to, nothing is freed. */
  lemma {:induction false} FreedOnce(ss: seq<State>, es: seq<Step>, i: nat, j: nat, t: Task)
    requires Reached(ss, es, j) && i <= j && t in ss[i].st && ss[i].st[t].Zombie?
    ensures Occurs(ss[j].freed, t) == if Flushed(ss, es, i, j) then 1 else 0
    decreases j
  {
    if i < j {
      FreedOnce(ss, es, i, j - 1, t);
      FreedNext(ss, es, i, j, t, Occurs(ss[j - 1].freed, t));
    } else {
      ReachedSafe(ss, es, j);
      OccursAbsent(ss[j].freed, t);
    }
  }

  lemma FreedNext(ss: seq<State>, es: seq<Step>, i: nat, j: nat, t: Task, n: nat)
    requires Reached(ss, es, j) && i < j && Exited(ss[i], t) && n == Occurs(ss[j - 1].freed, t)
    requires n == if Flushed(ss, es, i, j - 1) then 1 else 0
    ensures Occurs(ss[j].freed, t) == if Flushed(ss, es, i, j) then 1 else 0
  {
    FreedAt(ss, es, i, j - 1, t);
    FlushedStep(ss, es, i, j);
  }

  lemma FlushedStep(ss: seq<State>, es: seq<Step>, i: nat, j: nat)
    requires Run(ss, es) && i < j <= |es|
    ensures Flushed(ss, es, i, j) <==> Flushed(ss, es, i, j - 1) || Flushes(ss[j - 1], es[j - 1])
  {
  }

  lemma FreedAt(ss: seq<State>, es: seq<Step>, i: nat, m: nat, t: Task)
    requires Reached(ss, es, m + 1) && i <= m && Exited(ss[i], t)
    ensures Occurs(ss[m + 1].freed, t) == if Occurs(ss[m].freed, t) == 1 || Flushes(ss[m], es[m]) then 1 else 0
  {
    ExitedForGood(ss, es, i, m, t);
    ReachedSafe(ss, es, m);
    RunStep(ss, es, m);
    OneStepFrees(ss[m], es[m], t);
  }

  lemma OneStepFrees(s: State, e: Step, t: Task)
    requires Safe(s) && Enabled(s, e) && Exited(s, t)
    ensures Occurs(s.freed, t) <= 1
    ensures Occurs(Next(s, e).freed, t) == if Occurs(s.freed, t) == 1 || Flushes(s, e) then 1 else 0
  {
    StepKeeps(s, e);
    FreedGrows(s, e);
    OccursOnce(s.freed, t);
    OccursOnce(Next(s, e).freed, t);
    if t !in s.freed { StepFrees(s, e, t); }
  }

  lemma NoCallNoSwitch(s: State, e: Step)
    requires Enabled(s, e) && Calls(s, e) != 1
    ensures Next(s, e).cur == s.cur
  {
    if e.DoWakeUp? { WakeUpGrows(s, e.q); }
  }

  lemma {:induction false} StaysCurrent(ss: seq<State>, es: seq<Step>, i: nat, j: nat)
    requires Run(ss, es) && i <= j <= |es| && forall k :: i <= k < j ==> Calls(ss[k], es[k]) != 1
    ensures ss[j].cur == ss[i].cur
    decreases j
  {
    if i < j {
      StaysCurrent(ss, es, i, j - 1);
      NoCallNoSwitch(ss[j - 1], es[j - 1]);
    }
  }

  /** The whole of do_exit, in every run: the task that exits at step i is freed by step j if and only if
      some switch in between goes to a task that has run before, and then once; and it is current until the
      next call of sched(), and never again from then on. */
  lemma ExitEnds(ss: seq<State>, es: seq<Step>, i: nat, j: nat)
    requires Reached(ss, es, j) && i < j && es[i] == DoExit
    ensures var t := ss[i].cur;
            && Occurs(ss[j].freed, t) == (if Flushed(ss, es, i + 1, j) then 1 else 0)
            && (t == ss[j].cur <==> forall k :: i < k < j ==> Calls(ss[k], es[k]) != 1)
  {
    var t := ss[i].cur;
    RunStep(ss, es, i);
    FreedOnce(ss, es, i + 1, j, t);
    if k :| i < k < j && Calls(ss[k], es[k]) == 1 {
      NeverRunsAgain(ss, es, i + 1, k, j, t);
    } else {
      StaysCurrent(ss, es, i + 1, j);
    }
  }

  // ----- runs that free nothing

  function Idle(): State { State(0, 0, [], [], [], map[0 := Running], map[0 := Normal], {}, []) }

  /** Tasks 1 to n are dead, task n+1 runs, and nothing has been freed. */
  function Dead(n: nat): State {
    State(0, n + 1, [n + 1], seq(n, i => i + 1), [],
          Fates(n), map t | t in Fates(n) :: Normal, {}, [])
  }

  function Fates(n: nat): map<Task, TaskState> { map t | 0 <= t <= n + 1 :: StateOf(n, t) }

  function StateOf(n: nat, t: Task): TaskState { if t == 0 then Ready else if t <= n then Zombie else Running }

  lemma Extend(ss: seq<State>, es: seq<Step>, e: Step)
    requires Run(ss, es) && Enabled(ss[|ss| - 1], e)
    ensures Run(ss + [Next(ss[|ss| - 1], e)], es + [e])
  {
    var ss', es' := ss + [Next(ss[|ss| - 1], e)], es + [e];
    forall i | 0 <= i < |es'| ensures Enabled(ss'[i], es'[i]) && ss'[i + 1] == Next(ss'[i], es'[i]) {
      if i < |es| { RunStep(ss, es, i); }
    }
  }

  lemma FirstTask()
    ensures Enabled(Idle(), DoFork(1)) && Enabled(Next(Idle(), DoFork(1)), DoSched)
    ensures Next(Next(Idle(), DoFork(1)), DoSched) == Dead(0)
  {
    var r, d := Next(Next(Idle(), DoFork(1)), DoSched), Dead(0);
    assert r.st == d.st && r.pc == d.pc;
  }

  /** The running task forks the next one and exits; the next one is new. */
  lemma NextDies(n: nat)
    ensures Enabled(Dead(n), DoFork(n + 2)) && Enabled(Next(Dead(n), DoFork(n + 2)), DoExit)
    ensures var b := Next(Next(Dead(n), DoFork(n + 2)), DoExit); Enabled(b, DoSched) && Next(b, DoSched) == Dead(n + 1)
  {
    var b := Dying(n);
    DyingIs(n);
    var r, d := Next(b, DoSched), Dead(n + 1);
    assert r.st == d.st && r.pc == d.pc;
  }

  /** Task n+1 has left the run queue to the new task n+2. */
  function Dying(n: nat): State {
    Dead(n).(runq := [n + 2], delq := Dead(n + 1).delq, fresh_ := {n + 2},
             st := Fates(n)[n + 1 := Zombie][n + 2 := Ready], pc := Dead(n).pc[n + 2 := Normal])
  }

  lemma DyingIs(n: nat)
    ensures Enabled(Dead(n), DoFork(n + 2)) && Enabled(Next(Dead(n), DoFork(n + 2)), DoExit)
    ensures Next(Next(Dead(n), DoFork(n + 2)), DoExit) == Dying(n)
  {
    var a := Next(Dead(n), DoFork(n + 2));
    RemoveHead(a.runq, n + 1);
    var b, d := Next(a, DoExit), Dying(n);
    assert b.runq == d.runq && b.delq == d.delq && b.st == d.st && b.pc == d.pc && b.fresh_ == d.fresh_;
  }

  /** For every n there is a run from boot after which n tasks are dead and none has been freed. */
  lemma {:induction false} NewTasksFreeNothing(n: nat) returns (ss: seq<State>, es: seq<Step>)
    ensures Run(ss, es) && Init(ss[0]) && ss[|ss| - 1] == Dead(n)
    ensures forall t :: 1 <= t <= n ==> Gone(Dead(n), t) && t !in Dead(n).freed
  {
    if n == 0 {
      FirstTask();
      ss, es := [Idle()], [];
      Extend(ss, es, DoFork(1));
      ss, es := ss + [Next(Idle(), DoFork(1))], es + [DoFork(1)];
      Extend(ss, es, DoSched);
      ss, es := ss + [Dead(0)], es + [DoSched];
    } else {
      ss, es := NewTasksFreeNothing(n - 1);
      ss, es := OneMore(n - 1, ss, es);
    }
  }

  lemma OneMore(n: nat, ss0: seq<State>, es0: seq<Step>) returns (ss: seq<State>, es: seq<Step>)
    requires Run(ss0, es0) && ss0[|ss0| - 1] == Dead(n)
    ensures Run(ss, es) && ss[0] == ss0[0] && ss[|ss| - 1] == Dead(n + 1)
  {
    NextDies(n);
    var a := Next(Dead(n), DoFork(n + 2));
    Extend(ss0, es0, DoFork(n + 2));
    ss, es := ss0 + [a], es0 + [DoFork(n + 2)];
    Extend(ss, es, DoExit);
    ss, es := ss + [Next(a, DoExit)], es + [DoExit];
    Extend(ss, es, DoSched);
    ss, es := ss + [Dead(n + 1)], es + [DoSched];
  }
}
