/** kernel/sched.c and kernel/semaphore.c as code that updates the run queue, the
    delete queue, the wait queues and task states in place. Each method does
    what the step of the same name in SchedModel says. */
module Sched {
  import opened Common
  import opened SchedModel
  import opened SchedInv
  import opened Semaphores
  import opened SchedRuns

  class Kernel {
    var idle: Task
    var cur: Task
    var runq: seq<Task>
    var delq: seq<Task>
    var queues: seq<Queue>
    var st: map<Task, TaskState>
    var pc: map<Task, Pc>
    var fresh_: set<Task>
    var freed: seq<Task>

    ghost function Abs(): State
      reads this
    {
      State(idle, cur, runq, delq, queues, st, pc, fresh_, freed)
    }

    constructor (idle: Task, queues: seq<Queue>)
      requires forall q :: 0 <= q < |queues| ==>
                 queues[q].waiters == [] &&
                 (queues[q].Sem? ==> queues[q].val == queues[q].init && queues[q].ps == 0 == queues[q].vs)
      ensures Init(Abs()) && this.queues == queues
    {
      this.idle, cur, runq, delq := idle, idle, [], [];
      this.queues := queues;
      st, pc, fresh_, freed := map[idle := Running], map[idle := Normal], {}, [];
    }

    /** task_to_runq: a task that was on no list is ready and on the run queue, behind everyone already
        there; every other task is where it was. */
    method TaskToRunq(t: Task)
      modifies this`st, this`runq
      ensures Abs() == ToRunq(old(Abs()), t)
      ensures Places(Abs(), t) == old(Places(Abs(), t)) + 1
      ensures forall u :: u != t ==> Places(Abs(), u) == old(Places(Abs(), u))
      ensures t !in old(runq) ==> Index(runq, t) == |old(runq)|
    {
      st := st[t := Ready];
      runq := runq + [t];
      forall u ensures Places(ToRunq(old(Abs()), t), u) == old(Places(Abs(), u)) + if t == u then 1 else 0 {
        ToRunqPlaces(old(Abs()), t, u);
      }
      ToRunqPlaces(old(Abs()), t, t);
    }

    /** The new state is what a step of the model makes of the old one, and still safe. */
    twostate predicate Steps(e: Step)
      reads this
    {
      old(Safe(Abs()) && Enabled(Abs(), e)) ==> Safe(Abs()) && Abs() == Next(old(Abs()), e)
    }

    /** list_del of the current task, which is on the run queue. */
    method TakeOffRunq(t: Task)
      modifies this`runq
      ensures runq == Remove(old(runq), t)
    {
      runq := Remove(runq, t);
    }

    method GetNextTask() returns (ret: Task)
      requires Mid(Abs())
      modifies this`runq
      ensures Abs() == Rotate(old(Abs())) && ret == NextTask(Abs())
      ensures ret in st && !st[ret].Sleeping?
    {
      NextMayRun(Abs());
      if runq == [] {
        ret := idle;
      } else {
        ret := runq[0];
        if cur == ret {
          runq := runq[1..] + [cur];
          ret := runq[0];
        }
      }
      assert st[ret] != Sleeping;  // BUG_ON(ret->state == TASK_SLEEPING)
    }

    method FlushDelq()
      requires NoDup(delq) && forall t :: t in delq ==> t in st && st[t].Zombie?
      modifies this`delq, this`freed, this`st, this`pc
      ensures Abs() == SchedModel.FlushDelq(old(Abs()))
    {
      ghost var all, n := delq, 0;
      ghost var st0, pc0, freed0 := st, pc, freed;
      while delq != []
        invariant 0 <= n <= |all| && delq == all[n..] && freed == freed0 + all[..n]
        invariant st == st0 - (set t | t in all[..n]) && pc == pc0 - (set t | t in all[..n])
        decreases |delq|
      {
        var tsk := delq[0];
        NotYet(all, n);
        assert tsk in all;
        assert st[tsk] == Zombie;  // BUG_ON(tsk->state != TASK_ZOMBIE)
        assert all[..n + 1] == all[..n] + [tsk];
        delq := delq[1..];
        freed := freed + [tsk];
        st := st - {tsk};
        pc := pc - {tsk};
        n := n + 1;
      }
      assert all[..n] == all;
    }

    method Sched()
      requires Mid(Abs())
      modifies this
      ensures Abs() == SchedModel.Sched(old(Abs())) && Inv(Abs()) && Steps(DoSched)
    {
      if Safe(Abs()) && Enabled(Abs(), DoSched) { StepKeeps(Abs(), DoSched); }
      SwitchNext();
    }

    /** The body of sched(). */
    method SwitchNext()
      requires Mid(Abs())
      modifies this
      ensures Abs() == SchedModel.Sched(old(Abs())) && Inv(Abs())
    {
      SchedKeeps(Abs());
      ghost var s0 := Abs();
      var next := GetNextTask();
      if cur == next {
        return;
      }
      if st[cur] == Running {
        st := st[cur := Ready];
      }
      st := st[next := Running];
      cur := next;
      // switch_task: a task that has run before goes on behind it, a new one elsewhere
      if next in fresh_ {
        fresh_ := fresh_ - {next};
      } else if delq != [] {
        DelqAfterSwitch(s0);
        FlushDelq();
      }
    }

    method SleepOn(q: nat)
      requires Inv(Abs()) && cur != idle && st[cur].Running? && q < |queues|
      modifies this
      ensures Abs() == SchedModel.SleepOn(old(Abs()), q) && Inv(Abs()) && Steps(DoSleep(q))
    {
      if Safe(Abs()) && Enabled(Abs(), DoSleep(q)) { StepKeeps(Abs(), DoSleep(q)); }
      BlockKeeps(Abs(), q);
      Enqueue(q);
      Sched();
    }

    /** sleep_on up to its call of sched(). */
    method Enqueue(q: nat)
      requires q < |queues|
      modifies this
      ensures Abs() == Block(old(Abs()), q)
    {
      st := st[cur := Sleeping];
      TakeOffRunq(cur);
      queues := queues[q := queues[q].(waiters := queues[q].waiters + [cur])];
    }

    method WakeOne(q: nat)
      requires q < |queues|
      modifies this`queues, this`st, this`runq
      ensures Abs() == SchedModel.WakeOne(old(Abs()), q)
      ensures old(Safe(Abs())) ==> Safe(Abs())
      ensures var w := old(queues[q].waiters); Moves(old(Abs()), Abs(), q, if w == [] then [] else w[..1])
    {
      WakeOneMoves(Abs(), q);
      if Safe(Abs()) { WakeOneKeeps(Abs(), q); WakeOneSem(Abs(), q); }
      if queues[q].waiters == [] {
        return;
      }
      var tsk := queues[q].waiters[0];
      queues := queues[q := queues[q].(waiters := queues[q].waiters[1..])];
      TaskToRunq(tsk);
    }

    method WakeUp(q: nat)
      requires q < |queues|
      modifies this`queues, this`st, this`runq
      ensures Abs() == SchedModel.WakeUp(old(Abs()), q) && Steps(DoWakeUp(q))
      ensures Moves(old(Abs()), Abs(), q, old(queues[q].waiters)) && queues[q].waiters == []
    {
      WakeUpMoves(Abs(), q);
      if Safe(Abs()) && Enabled(Abs(), DoWakeUp(q)) { StepKeeps(Abs(), DoWakeUp(q)); }
      while queues[q].waiters != []
        invariant q < |queues| && SchedModel.WakeUp(Abs(), q) == SchedModel.WakeUp(old(Abs()), q)
        decreases |queues[q].waiters|
      {
        var t := queues[q].waiters[0];
        queues := queues[q := queues[q].(waiters := queues[q].waiters[1..])];
        TaskToRunq(t);
      }
    }

    method SemV(q: nat)
      requires q < |queues| && queues[q].Sem?
      modifies this`queues, this`st, this`runq
      ensures Abs() == SchedModel.SemV(old(Abs()), q) && Steps(DoV(q))
    {
      if Safe(Abs()) && Enabled(Abs(), DoV(q)) { StepKeeps(Abs(), DoV(q)); }
      queues := queues[q := queues[q].(val := queues[q].val + 1, vs := queues[q].vs + 1)];
      if queues[q].val > 0 {
        WakeOne(q);
      }
    }

    /** One turn of the loop of sem_P: either it ends with the semaphore taken, or the caller sleeps. */
    method SemP(q: nat) returns (taken: bool)
      requires Inv(Abs()) && cur != idle && st[cur].Running? && q < |queues| && queues[q].Sem?
      modifies this
      ensures Abs() == TryP(old(Abs()), q) && Inv(Abs())
      ensures Steps(DoP(q)) && (old(cur in pc && pc[cur] == InP(q)) ==> Steps(DoRecheck))
      ensures taken <==> old(queues[q].val) > 0
    {
      if Safe(Abs()) && Enabled(Abs(), DoP(q)) { StepKeeps(Abs(), DoP(q)); }
      if Safe(Abs()) && Enabled(Abs(), DoRecheck) { StepKeeps(Abs(), DoRecheck); }
      taken := TakeOrSleep(q);
    }

    method TakeOrSleep(q: nat) returns (taken: bool)
      requires Inv(Abs()) && cur != idle && st[cur].Running? && q < |queues| && queues[q].Sem?
      modifies this
      ensures Abs() == TryP(old(Abs()), q) && Inv(Abs())
      ensures taken <==> old(queues[q].val) > 0
    {
      TryPKeeps(Abs(), q);
      if queues[q].val <= 0 {
        pc := pc[cur := InP(q)];
        PcKeeps(old(Abs()), pc);
        SleepOn(q);
        return false;
      }
      pc := pc[cur := Normal];
      queues := queues[q := queues[q].(val := queues[q].val - 1, ps := queues[q].ps + 1)];
      return true;
    }

    /** do_exit before its call of sched(). */
    method DoExit()
      modifies this`runq, this`delq, this`st
      ensures Abs() == ExitBegin(old(Abs())) && Steps(SchedModel.DoExit)
    {
      if Safe(Abs()) && Enabled(Abs(), SchedModel.DoExit) { StepKeeps(Abs(), SchedModel.DoExit); }
      TakeOffRunq(cur);
      delq := delq + [cur];
      st := st[cur := Zombie];
    }

    /** kernel_thread and fork: the new task is put on the run queue. */
    method NewTask(t: Task)
      modifies this`st, this`pc, this`fresh_, this`runq
      ensures Abs() == Fork(old(Abs()), t) && Steps(DoFork(t))
    {
      if Safe(Abs()) && Enabled(Abs(), DoFork(t)) { StepKeeps(Abs(), DoFork(t)); }
      pc := pc[t := Normal];
      fresh_ := fresh_ + {t};
      TaskToRunq(t);
    }
  }

  lemma NotYet(s: seq<Task>, n: nat)
    requires NoDup(s) && n < |s|
    ensures s[n] !in s[..n]
  {
  }

  lemma DelqAfterSwitch(s: State)
    requires Mid(s)
    ensures var r := Rotate(s);
            NoDup(s.delq) && forall t :: t in s.delq ==> t in s.st && s.st[t].Zombie? && t != NextTask(r)
  {
    NextMayRun(s);
    RotateMembers(s);
    if Rotate(s).runq != [] { assert NextTask(Rotate(s)) in Rotate(s).runq; }
  }
}
