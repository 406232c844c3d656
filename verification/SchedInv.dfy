/** What every step of the scheduler keeps: where each task is, and what its state says. */
module SchedInv {
  import opened Common
  import opened SchedModel

  predicate Waits(s: State, t: Task) { exists q :: 0 <= q < |s.queues| && t in s.queues[q].waiters }

  /** No task is twice on a list, and no list holds the idle task. */
  predicate Lists(s: State) {
    && NoDup(s.runq) && NoDup(s.delq) && s.idle !in s.runq && s.idle !in s.delq
    && (forall q :: 0 <= q < |s.queues| ==> NoDup(s.queues[q].waiters) && s.idle !in s.queues[q].waiters)
    && (forall q, r, t :: 0 <= q < r < |s.queues| && t in s.queues[q].waiters ==> t !in s.queues[r].waiters)
  }

  /** A task's state field names the kind of list it is on. */
  predicate States(s: State) {
    && s.idle in s.st && s.cur in s.st
    && (s.st[s.idle] == if s.cur == s.idle then Running else Ready)
    && (forall t :: t in s.runq ==> t in s.st && s.st[t] == if t == s.cur then Running else Ready)
    && (forall t :: t in s.delq ==> t in s.st && s.st[t].Zombie?)
    && (forall q, t :: 0 <= q < |s.queues| && t in s.queues[q].waiters ==> t in s.st && s.st[t].Sleeping?)
  }

  /** Every task but the idle one is on some list. */
  predicate Placed(s: State) {
    forall t :: t in s.st && t != s.idle ==>
      match s.st[t]
      case Running => t in s.runq
      case Ready => t in s.runq
      case Sleeping => Waits(s, t)
      case Zombie => t in s.delq
  }

  /** Tasks that never ran are runnable, not running; freed tasks are gone, each freed once. */
  predicate Births(s: State) {
    && (forall t :: t in s.fresh_ ==> t in s.runq && t != s.cur)
    && NoDup(s.freed) && (forall t :: t in s.freed ==> t !in s.st)
  }

  /** Inside a step the current task may be on its way to sleep. */
  predicate Mid(s: State) {
    && Lists(s) && States(s) && Placed(s) && Births(s)
    && (s.cur == s.idle || (s.runq != [] && s.runq[0] == s.cur) || s.st[s.cur].Zombie? || s.st[s.cur].Sleeping?)
  }

  /** At step boundaries: the current task is idle, the head of the run queue, or exiting. */
  predicate Inv(s: State) {
    Mid(s) && !s.st[s.cur].Sleeping?
  }

  // ----- sequences

  lemma NoDupConcat(a: seq<Task>, b: seq<Task>)
    requires NoDup(a) && NoDup(b) && forall t :: t in a ==> t !in b
    ensures NoDup(a + b)
  {
    var s := a + b;
    forall i, j | 0 <= i < j < |s| ensures s[i] != s[j] {
      if i < |a| <= j { assert a[i] in a; assert b[j - |a|] in b; }
    }
  }

  // ----- the primitives

  lemma RotateKeeps(s: State)
    requires Mid(s)
    ensures Mid(Rotate(s)) || (s.runq != [] && s.runq[0] == s.cur)
    ensures var r := Rotate(s); Lists(r) && States(r) && Placed(r) && Births(r) && r.cur == s.cur
    ensures forall t :: t in Rotate(s).runq <==> t in s.runq
  {
    if s.runq != [] && s.runq[0] == s.cur {
      NoDupTail(s.runq);
      NoDupSnoc(s.runq[1..], s.cur);
      var r := s.runq[1..] + [s.cur];
      assert forall t :: t in r <==> t in s.runq;
    }
  }

  lemma FlushKeeps(s: State)
    requires Mid(s) && !s.st[s.cur].Zombie?
    ensures Mid(FlushDelq(s))
  {
    NoDupConcat(s.freed, s.delq);
    WaitsSame(s, FlushDelq(s));
  }

  /** Switching from the current task to the first runnable one. */
  function Switch(s: State): State
    requires s.cur in s.st
  {
    var st1 := if s.st[s.cur].Running? then s.st[s.cur := Ready] else s.st;
    s.(st := st1[NextTask(s) := Running], cur := NextTask(s))
  }

  lemma WaitsSame(s: State, r: State)
    requires |s.queues| == |r.queues|
    requires forall q :: 0 <= q < |s.queues| ==> s.queues[q].waiters == r.queues[q].waiters
    ensures forall t :: Waits(s, t) <==> Waits(r, t)
  {
    forall t ensures Waits(s, t) <==> Waits(r, t) {
      if Waits(s, t) {
        var q :| 0 <= q < |s.queues| && t in s.queues[q].waiters;
        assert t in r.queues[q].waiters;
      }
      if Waits(r, t) {
        var q :| 0 <= q < |r.queues| && t in r.queues[q].waiters;
        assert t in s.queues[q].waiters;
      }
    }
  }

  lemma SwitchStates(s: State)
    requires Lists(s) && States(s) && NextTask(s) != s.cur
    ensures States(Switch(s)) && NextTask(s) in s.st
  {
    var next := NextTask(s);
    if s.runq != [] { assert next in s.runq; }
  }

  lemma SwitchPlaced(s: State)
    requires Lists(s) && States(s) && Placed(s) && NextTask(s) != s.cur && NextTask(s) in s.st
    ensures Placed(Switch(s))
  {
    var next := NextTask(s);
    if s.runq != [] { assert next in s.runq; }
    WaitsSame(s, Switch(s));
  }

  lemma SwitchKeeps(s: State)
    requires Lists(s) && States(s) && Placed(s) && Births(s) && NextTask(s) != s.cur
    requires NextTask(s) !in s.fresh_
    ensures Inv(Switch(s))
  {
    SwitchStates(s);
    SwitchPlaced(s);
  }

  lemma SwitchFreshKeeps(s: State)
    requires Lists(s) && States(s) && Placed(s) && Births(s) && NextTask(s) != s.cur && NextTask(s) in s.fresh_
    ensures Inv(Switch(s).(fresh_ := s.fresh_ - {NextTask(s)}))
  {
    var s1 := s.(fresh_ := s.fresh_ - {NextTask(s)});
    WaitsSame(s, s1);
    SwitchKeeps(s1);
  }

  /** sched() always ends with a task that may run, whatever the current task was doing. */
  lemma SchedKeeps(s: State)
    requires Mid(s)
    ensures Inv(Sched(s))
    ensures !s.st[s.cur].Running? ==> Sched(s).cur != s.cur
  {
    RotateKeeps(s);
    var r := Rotate(s);
    if NextTask(r) == s.cur {
      assert s.cur == s.idle || (r.runq != [] && r.runq[0] == s.cur);
    } else if NextTask(r) in r.fresh_ {
      SwitchFreshKeeps(r);
    } else {
      SwitchKeeps(r);
      if Switch(r).delq != [] { FlushKeeps(Switch(r)); }
    }
  }

  lemma BlockKeeps(s: State, q: nat)
    requires Inv(s) && s.cur != s.idle && s.st[s.cur].Running? && q < |s.queues|
    ensures Mid(Block(s, q)) && Block(s, q).st[s.cur].Sleeping?
  {
    RemoveHead(s.runq, s.cur);
    NoDupTail(s.runq);
    var r, w := Block(s, q), s.queues[q].waiters;
    NoDupSnoc(w, s.cur);
    assert s.cur in r.queues[q].waiters;
    forall t | t in r.st && t != r.idle && r.st[t].Sleeping? ensures Waits(r, t) {
      if t != s.cur {
        var p :| 0 <= p < |s.queues| && t in s.queues[p].waiters;
        assert t in r.queues[p].waiters;
      }
    }
  }

  lemma WakeOneKeeps(s: State, q: nat)
    requires Inv(s) && q < |s.queues|
    ensures Inv(WakeOne(s, q)) && WakeOne(s, q).cur == s.cur
  {
    var w := s.queues[q].waiters;
    if w != [] {
      WakeOneLists(s, q);
      WakeOnePlaced(s, q);
    }
  }

  lemma WakeOneLists(s: State, q: nat)
    requires Inv(s) && q < |s.queues| && s.queues[q].waiters != []
    ensures Lists(WakeOne(s, q)) && States(WakeOne(s, q))
  {
    var w := s.queues[q].waiters;
    NoDupTail(w);
    assert w[0] in w;
    NoDupSnoc(s.runq, w[0]);
  }

  lemma WakeOnePlaced(s: State, q: nat)
    requires Inv(s) && q < |s.queues| && s.queues[q].waiters != []
    ensures Placed(WakeOne(s, q))
  {
    var r, w := WakeOne(s, q), s.queues[q].waiters;
    NoDupTail(w);
    forall t | t in r.st && t != r.idle && r.st[t].Sleeping? ensures Waits(r, t) {
      assert t != w[0];
      var p :| 0 <= p < |s.queues| && t in s.queues[p].waiters;
      assert t in r.queues[p].waiters;
    }
  }

  lemma {:induction false} WakeUpKeeps(s: State, q: nat)
    requires Inv(s) && q < |s.queues|
    ensures Inv(WakeUp(s, q)) && WakeUp(s, q).cur == s.cur
    decreases |s.queues[q].waiters|
  {
    if s.queues[q].waiters != [] {
      WakeOneKeeps(s, q);
      WakeUpKeeps(WakeOne(s, q), q);
    }
  }

  lemma ExitKeeps(s: State)
    requires Inv(s) && s.cur != s.idle && s.st[s.cur].Running?
    ensures Inv(ExitBegin(s))
  {
    RemoveHead(s.runq, s.cur);
    NoDupTail(s.runq);
    NoDupSnoc(s.delq, s.cur);
    var r := ExitBegin(s);
    WaitsSame(s, r);
  }

  lemma ForkKeeps(s: State, t: Task)
    requires Inv(s) && t !in s.st && t !in s.freed
    ensures Inv(Fork(s, t))
  {
    NoDupSnoc(s.runq, t);
    ForkPlaced(s, t);
  }

  lemma ForkPlaced(s: State, t: Task)
    requires Placed(s) && t !in s.st
    ensures Placed(Fork(s, t))
  {
    WaitsSame(s, Fork(s, t));
  }

  /** A state with every task in the same place. */
  lemma SamePlaces(s: State, r: State)
    requires Inv(s) && |s.queues| == |r.queues|
    requires forall q :: 0 <= q < |s.queues| ==> s.queues[q].waiters == r.queues[q].waiters
    requires r.runq == s.runq && r.delq == s.delq && r.st == s.st && r.cur == s.cur && r.idle == s.idle
    requires r.fresh_ == s.fresh_ && r.freed == s.freed
    ensures Inv(r)
  {
    WaitsSame(s, r);
  }

  /** Changing only a semaphore's counters moves no task. */
  lemma CountersKeep(s: State, q: nat, c: Queue)
    requires Inv(s) && q < |s.queues| && s.queues[q].Sem? && c.Sem? && c.waiters == s.queues[q].waiters
    ensures Inv(s.(queues := s.queues[q := c]))
  {
    SamePlaces(s, s.(queues := s.queues[q := c]));
  }

  lemma PcKeeps(s: State, pc: map<Task, Pc>)
    requires Inv(s)
    ensures Inv(s.(pc := pc))
  {
    SamePlaces(s, s.(pc := pc));
  }

  lemma TryPKeeps(s: State, q: nat)
    requires Inv(s) && s.cur != s.idle && s.st[s.cur].Running? && q < |s.queues| && s.queues[q].Sem?
    ensures Inv(TryP(s, q))
  {
    if s.queues[q].val <= 0 { TryPSleeps(s, q); } else { TryPTakes(s, q); }
  }

  lemma TryPSleeps(s: State, q: nat)
    requires Inv(s) && s.cur != s.idle && s.st[s.cur].Running? && q < |s.queues| && s.queues[q].Sem?
             && s.queues[q].val <= 0
    ensures Inv(TryP(s, q))
  {
    var s1 := s.(pc := s.pc[s.cur := InP(q)]);
    PcKeeps(s, s1.pc);
    SleepOnKeeps(s1, q);
  }

  lemma SleepOnKeeps(s: State, q: nat)
    requires Inv(s) && s.cur != s.idle && s.st[s.cur].Running? && q < |s.queues|
    ensures Inv(SleepOn(s, q))
  {
    BlockKeeps(s, q);
    SchedKeeps(Block(s, q));
  }

  lemma TryPTakes(s: State, q: nat)
    requires Inv(s) && q < |s.queues| && s.queues[q].Sem? && s.queues[q].val > 0
    ensures Inv(TryP(s, q))
  {
    SamePlaces(s, TryP(s, q));
  }
}
