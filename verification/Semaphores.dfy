/** Semaphores: the counter is exact and never negative, and no wake-up is lost. */
module Semaphores {
  import opened Common
  import opened SchedModel
  import opened SchedInv

  /** Task t is inside the wait loop of sem_P on semaphore q. */
  predicate Looping(s: State, t: Task, q: nat) { t in s.pc && s.pc[t] == InP(q) }

  /** Tasks taken off the semaphore's queue that have not yet looked at the counter again. */
  function Woken(s: State, q: nat): set<Task>
    requires q < |s.queues|
  {
    set t | t in s.pc && Looping(s, t, q) && t !in s.queues[q].waiters
  }

  /** A waiter goes on where its queue says. */
  predicate WaitersGoOn(s: State) {
    forall q, t :: 0 <= q < |s.queues| && t in s.queues[q].waiters ==>
      if s.queues[q].Sem? then Looping(s, t, q) else t in s.pc && s.pc[t].Normal?
  }

  /** A task in the wait loop waits there or is runnable. */
  ghost predicate LoopersPlaced(s: State) {
    forall t, q: nat :: Looping(s, t, q) ==>
      q < |s.queues| && s.queues[q].Sem? && (t in s.queues[q].waiters || t in s.runq)
  }

  ghost predicate Pcs(s: State) { s.pc.Keys == s.st.Keys && WaitersGoOn(s) && LoopersPlaced(s) }

  predicate Exact(c: Queue)
    requires c.Sem?
  {
    c.val == c.init - c.ps + c.vs && c.val >= 0
  }

  /** The heart of it: while tasks wait, at least `val` others are on their way to the counter. */
  predicate Counts(s: State) {
    forall q :: 0 <= q < |s.queues| && s.queues[q].Sem? ==>
      Exact(s.queues[q]) && (s.queues[q].waiters != [] ==> |Woken(s, q)| >= s.queues[q].val)
  }

  ghost predicate SemInv(s: State) { Pcs(s) && Counts(s) }

  /** A running task is on the run queue, once, and waits nowhere. */
  ghost predicate CurFree(s: State) {
    && s.cur in s.st
    && (forall t :: t in s.runq ==> t == s.cur || t in Remove(s.runq, s.cur))
    && forall q :: 0 <= q < |s.queues| ==> s.cur !in s.queues[q].waiters
  }

  lemma CurIsFree(s: State)
    requires Inv(s) && s.cur != s.idle && s.st[s.cur].Running?
    ensures CurFree(s) && s.cur in s.runq
  {
    RemoveHead(s.runq, s.cur);
    NoDupTail(s.runq);
  }

  // ----- task switches

  lemma CountsSame(s: State, r: State)
    requires Counts(s) && r.queues == s.queues
    requires forall t, q :: Looping(s, t, q) <==> Looping(r, t, q)
    ensures Counts(r)
  {
    forall q | 0 <= q < |s.queues| ensures Woken(r, q) == Woken(s, q) {
    }
  }

  lemma RotateMembers(s: State)
    ensures forall t :: t in Rotate(s).runq <==> t in s.runq
  {
    if s.runq != [] && s.runq[0] == s.cur {
      assert s.runq == [s.cur] + s.runq[1..];
    }
  }

  /** sched() touches no queue of waiters and forgets only tasks on the delete queue. */
  lemma SchedFrame(s: State)
    requires s.cur in s.st
    ensures var r := Sched(s); r.queues == s.queues && (forall t :: t in r.runq <==> t in s.runq)
    ensures var r := Sched(s);
            r.pc == s.pc || r.pc == s.pc - (set t | t in s.delq)
  {
    RotateMembers(s);
  }

  lemma DelqNotLooping(s: State)
    requires Lists(s) && States(s) && Pcs(s)
    ensures forall t, q :: t in s.delq ==> !Looping(s, t, q)
  {
  }

  lemma SchedKeepsSem(s: State)
    requires Mid(s) && SemInv(s)
    ensures SemInv(Sched(s))
  {
    SchedFrame(s);
    SchedLooping(s);
    NextExists(s);
    CountsSame(s, Sched(s));
    SchedWaiters(s);
    SchedKeys(s);
  }

  /** Who is in a wait loop does not change. */
  lemma SchedLooping(s: State)
    requires Mid(s) && Pcs(s)
    ensures forall t, q :: Looping(s, t, q) <==> Looping(Sched(s), t, q)
  {
    SchedFrame(s);
    DelqNotLooping(s);
  }

  lemma SchedWaiters(s: State)
    requires Mid(s) && Pcs(s)
    ensures WaitersGoOn(Sched(s))
  {
    SchedFrame(s);
    SchedLooping(s);
    WaitersNotZombies(s);
  }

  lemma NextExists(s: State)
    requires States(s)
    ensures NextTask(Rotate(s)) in s.st
  {
    RotateMembers(s);
    if Rotate(s).runq != [] { assert NextTask(Rotate(s)) in Rotate(s).runq; }
  }

  lemma WaitersNotZombies(s: State)
    requires States(s)
    ensures forall q, t :: 0 <= q < |s.queues| && t in s.queues[q].waiters ==> t !in s.delq
  {
  }

  lemma SchedKeys(s: State)
    requires s.cur in s.st && NextTask(Rotate(s)) in s.st && s.pc.Keys == s.st.Keys
    ensures Sched(s).pc.Keys == Sched(s).st.Keys
  {
  }

  // ----- sem_P

  lemma BlockPcs(s: State, q: nat, p: Pc)
    requires CurFree(s) && Pcs(s) && q < |s.queues|
    requires if s.queues[q].Sem? then p == InP(q) else p.Normal?
    ensures Pcs(Block(s.(pc := s.pc[s.cur := p]), q))
  {
    var r := Block(s.(pc := s.pc[s.cur := p]), q);
    assert r.queues[q].waiters == s.queues[q].waiters + [s.cur];
    assert s.cur in r.queues[q].waiters;
    forall t, k: nat | Looping(r, t, k)
      ensures k < |r.queues| && r.queues[k].Sem? && (t in r.queues[k].waiters || t in r.runq)
    {
      if t != s.cur {
        assert Looping(s, t, k);
        assert t in s.queues[k].waiters ==> t in r.queues[k].waiters;
      }
    }
  }

  lemma BlockCounts(s: State, q: nat, p: Pc)
    requires CurFree(s) && Counts(s) && q < |s.queues| && s.cur in s.pc
    requires s.pc[s.cur] == Normal || s.pc[s.cur] == p
    requires if s.queues[q].Sem? then p == InP(q) && s.queues[q].val == 0 else p.Normal?
    ensures Counts(Block(s.(pc := s.pc[s.cur := p]), q))
  {
    var r := Block(s.(pc := s.pc[s.cur := p]), q);
    forall k | 0 <= k < |r.queues| && k != q ensures Woken(r, k) == Woken(s, k) {
      assert forall t :: Looping(r, t, k) <==> Looping(s, t, k);
    }
  }

  /** The current task takes the semaphore. */
  lemma TakeSem(s: State, q: nat)
    requires CurFree(s) && SemInv(s) && q < |s.queues| && s.queues[q].Sem?
    requires s.pc[s.cur] == Normal || s.pc[s.cur] == InP(q)
    requires s.queues[q].val > 0
    ensures SemInv(TryP(s, q))
  {
    var r := TryP(s, q);
    assert forall t, k :: Looping(r, t, k) <==> Looping(s, t, k) && t != s.cur;
    assert Woken(r, q) == Woken(s, q) - {s.cur};
    forall k | 0 <= k < |r.queues| && k != q ensures Woken(r, k) == Woken(s, k) {
    }
  }

  lemma TryPKeepsSem(s: State, q: nat)
    requires Inv(s) && SemInv(s) && s.cur != s.idle && s.st[s.cur].Running? && q < |s.queues| && s.queues[q].Sem?
    requires s.pc[s.cur] == Normal || s.pc[s.cur] == InP(q)
    ensures SemInv(TryP(s, q))
  {
    CurIsFree(s);
    if s.queues[q].val <= 0 {
      var s1 := s.(pc := s.pc[s.cur := InP(q)]);
      BlockPcs(s, q, InP(q));
      BlockCounts(s, q, InP(q));
      PcKeeps(s, s1.pc);
      BlockKeeps(s1, q);
      SchedKeepsSem(Block(s1, q));
    } else {
      TakeSem(s, q);
    }
  }

  // ----- waking

  /** Only the first waiter moves, and it becomes one of the woken. */
  lemma WakeOnePcs(s: State, q: nat)
    requires Pcs(s) && q < |s.queues| && NoDup(s.queues[q].waiters)
    requires forall t :: t in s.queues[q].waiters ==> t in s.st
    ensures Pcs(WakeOne(s, q))
  {
    var r, w := WakeOne(s, q), s.queues[q].waiters;
    if w != [] {
      NoDupTail(w);
      assert w[0] in w;
      assert r.pc == s.pc;
      assert forall t, k :: Looping(r, t, k) <==> Looping(s, t, k);
    }
  }

  /** The counter may have gone up by one just before. */
  lemma WakeOneCounts(s: State, q: nat, c: Queue)
    requires Counts(s) && WaitersGoOn(s) && q < |s.queues| && s.queues[q].Sem? && NoDup(s.queues[q].waiters)
    requires c.Sem? && c.waiters == s.queues[q].waiters && Exact(c) && c.val <= s.queues[q].val + 1
    ensures Counts(WakeOne(s.(queues := s.queues[q := c]), q))
  {
    var r, w := WakeOne(s.(queues := s.queues[q := c]), q), c.waiters;
    assert forall t, k :: Looping(r, t, k) <==> Looping(s, t, k);
    if w != [] {
      NoDupTail(w);
      assert w[0] in w;
      assert Looping(s, w[0], q);
      assert Woken(r, q) == Woken(s, q) + {w[0]};
    }
    forall k | 0 <= k < |r.queues| && k != q ensures Woken(r, k) == Woken(s, k) {
    }
  }

  lemma WakePlainCounts(s: State, q: nat)
    requires Counts(s) && q < |s.queues| && s.queues[q].Plain?
    ensures Counts(WakeOne(s, q))
  {
    var r := WakeOne(s, q);
    assert forall t, k :: Looping(r, t, k) <==> Looping(s, t, k);
    forall k | 0 <= k < |r.queues| && k != q ensures Woken(r, k) == Woken(s, k) {
    }
  }

  lemma CountersPcs(s: State, q: nat, c: Queue)
    requires Pcs(s) && q < |s.queues| && s.queues[q].Sem? && c.Sem? && c.waiters == s.queues[q].waiters
    ensures Pcs(s.(queues := s.queues[q := c]))
  {
    var r := s.(queues := s.queues[q := c]);
    assert forall t, k :: Looping(r, t, k) <==> Looping(s, t, k);
  }

  lemma SemVKeeps(s: State, q: nat)
    requires Inv(s) && SemInv(s) && q < |s.queues| && s.queues[q].Sem?
    ensures Inv(SemV(s, q)) && SemInv(SemV(s, q))
  {
    SemVPlaces(s, q);
    SemVCounts(s, q);
  }

  lemma SemVPlaces(s: State, q: nat)
    requires Inv(s) && q < |s.queues| && s.queues[q].Sem?
    ensures Inv(SemV(s, q))
  {
    var c := s.queues[q].(val := s.queues[q].val + 1, vs := s.queues[q].vs + 1);
    CountersKeep(s, q, c);
    WakeOneKeeps(s.(queues := s.queues[q := c]), q);
  }

  lemma SemVCounts(s: State, q: nat)
    requires Inv(s) && SemInv(s) && q < |s.queues| && s.queues[q].Sem?
    ensures SemInv(SemV(s, q))
  {
    var c := s.queues[q].(val := s.queues[q].val + 1, vs := s.queues[q].vs + 1);
    var s1 := s.(queues := s.queues[q := c]);
    CountersPcs(s, q, c);
    WakeOnePcs(s1, q);
    WakeOneCounts(s, q, c);
  }

  lemma {:induction false} WakeUpSem(s: State, q: nat)
    requires Inv(s) && SemInv(s) && q < |s.queues|
    ensures SemInv(WakeUp(s, q))
    decreases |s.queues[q].waiters|
  {
    if s.queues[q].waiters != [] {
      WakeOneKeeps(s, q);
      WakeOneSem(s, q);
      WakeUpSem(WakeOne(s, q), q);
    }
  }

  lemma WakeOneSem(s: State, q: nat)
    requires Inv(s) && SemInv(s) && q < |s.queues|
    ensures SemInv(WakeOne(s, q))
  {
    WakeOnePcs(s, q);
    if s.queues[q].Sem? {
      assert s.(queues := s.queues[q := s.queues[q]]) == s;
      WakeOneCounts(s, q, s.queues[q]);
    } else {
      WakePlainCounts(s, q);
    }
  }

  // ----- birth and death

  lemma ExitSem(s: State)
    requires CurFree(s) && SemInv(s) && s.cur in s.pc && s.pc[s.cur].Normal?
    ensures SemInv(ExitBegin(s))
  {
    var r := ExitBegin(s);
    assert forall t, q :: Looping(r, t, q) <==> Looping(s, t, q);
    CountsSame(s, r);
  }

  lemma ForkSem(s: State, t: Task)
    requires SemInv(s) && t !in s.st
    ensures SemInv(Fork(s, t))
  {
    var r := Fork(s, t);
    assert forall u, q :: Looping(r, u, q) <==> Looping(s, u, q);
    CountsSame(s, r);
  }

  lemma SleepKeeps(s: State, q: nat)
    requires Inv(s) && SemInv(s) && Free(s) && q < |s.queues| && s.queues[q].Plain?
    ensures Inv(SleepOn(s, q)) && SemInv(SleepOn(s, q))
  {
    CurIsFree(s);
    assert s.(pc := s.pc[s.cur := Normal]) == s;
    BlockKeeps(s, q);
    BlockPcs(s, q, Normal);
    BlockCounts(s, q, Normal);
    SchedKeeps(Block(s, q));
    SchedKeepsSem(Block(s, q));
  }

  lemma RecheckFacts(s: State)
    requires Inv(s) && SemInv(s) && Enabled(s, DoRecheck)
    ensures s.cur != s.idle && s.st[s.cur].Running?
  {
    assert Looping(s, s.cur, s.pc[s.cur].sem);
  }

  /** Every step keeps both invariants. */
  lemma StepKeeps(s: State, e: Step)
    requires Inv(s) && SemInv(s) && Enabled(s, e)
    ensures Inv(Next(s, e)) && SemInv(Next(s, e))
  {
    match e
    case DoSched => SchedKeeps(s); SchedKeepsSem(s);
    case DoP(q) => TryPKeeps(s, q); TryPKeepsSem(s, q);
    case DoRecheck => RecheckFacts(s); TryPKeeps(s, s.pc[s.cur].sem); TryPKeepsSem(s, s.pc[s.cur].sem);
    case DoV(q) => SemVKeeps(s, q);
    case DoSleep(q) => SleepKeeps(s, q);
    case DoWakeUp(q) => WakeUpKeeps(s, q); WakeUpSem(s, q);
    case DoFork(t) => ForkKeeps(s, t); ForkSem(s, t);
    case DoExit => CurIsFree(s); ExitKeeps(s); ExitSem(s);
  }
}
