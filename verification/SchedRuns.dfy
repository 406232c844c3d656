/** What holds in every run of the scheduler, over all interleavings of tasks and interrupts. */
module SchedRuns {
  import opened Common
  import opened SchedModel
  import opened SchedInv
  import opened Semaphores

  /** After sched_init: the idle task runs, every queue is empty. */
  predicate Init(s: State) {
    && s.cur == s.idle && s.runq == [] && s.delq == [] && s.freed == [] && s.fresh_ == {}
    && s.st == map[s.idle := Running] && s.pc == map[s.idle := Normal]
    && forall q :: 0 <= q < |s.queues| ==>
         s.queues[q].waiters == [] &&
         (s.queues[q].Sem? ==> s.queues[q].val == s.queues[q].init && s.queues[q].ps == 0 == s.queues[q].vs)
  }

  predicate Run(ss: seq<State>, es: seq<Step>) {
    && |ss| == |es| + 1
    && forall i :: 0 <= i < |es| ==> Enabled(ss[i], es[i]) && ss[i + 1] == Next(ss[i], es[i])
  }

  ghost predicate Safe(s: State) { Inv(s) && SemInv(s) }

  lemma InitSafe(s: State)
    requires Init(s)
    ensures Safe(s)
  {
    assert forall t, q :: !Looping(s, t, q);
  }

  lemma {:induction false} RunsKeepSafe(ss: seq<State>, es: seq<Step>, i: nat)
    requires Run(ss, es) && Safe(ss[0]) && i < |ss|
    ensures Safe(ss[i])
  {
    if i > 0 {
      RunsKeepSafe(ss, es, i - 1);
      StepKeeps(ss[i - 1], es[i - 1]);
    }
  }

  /** Both invariants hold in every state of every run. */
  lemma RunsAreSafe(ss: seq<State>, es: seq<Step>)
    requires Run(ss, es) && Init(ss[0])
    ensures forall i :: 0 <= i < |ss| ==> Safe(ss[i])
  {
    InitSafe(ss[0]);
    forall i | 0 <= i < |ss| ensures Safe(ss[i]) {
      RunsKeepSafe(ss, es, i);
    }
  }

  // ----- what safety means for a single state

  function Occurs(s: seq<Task>, t: Task): nat {
    if s == [] then 0 else (if s[0] == t then 1 else 0) + Occurs(s[1..], t)
  }

  function OccursWaiting(queues: seq<Queue>, t: Task): nat {
    if queues == [] then 0 else Occurs(queues[0].waiters, t) + OccursWaiting(queues[1..], t)
  }

  /** On how many lists, and how often, a task is. */
  function Places(s: State, t: Task): nat {
    Occurs(s.runq, t) + Occurs(s.delq, t) + OccursWaiting(s.queues, t)
  }

  lemma {:induction false} OccursOnce(s: seq<Task>, t: Task)
    requires NoDup(s)
    ensures Occurs(s, t) == if t in s then 1 else 0
  {
    if s != [] { NoDupTail(s); OccursOnce(s[1..], t); }
  }

  lemma {:induction false} OccursNowhere(queues: seq<Queue>, t: Task)
    requires forall q :: 0 <= q < |queues| ==> t !in queues[q].waiters
    ensures OccursWaiting(queues, t) == 0
  {
    if queues != [] {
      OccursAbsent(queues[0].waiters, t);
      OccursNowhere(queues[1..], t);
    }
  }

  lemma {:induction false} OccursAbsent(s: seq<Task>, t: Task)
    requires t !in s
    ensures Occurs(s, t) == 0
  {
    if s != [] { OccursAbsent(s[1..], t); }
  }

  lemma {:induction false} OccursAt(queues: seq<Queue>, t: Task, q: nat)
    requires q < |queues| && t in queues[q].waiters && NoDup(queues[q].waiters)
    requires forall p :: 0 <= p < |queues| && p != q ==> t !in queues[p].waiters
    ensures OccursWaiting(queues, t) == 1
  {
    if q == 0 {
      OccursOnce(queues[0].waiters, t);
      OccursNowhere(queues[1..], t);
    } else {
      OccursAbsent(queues[0].waiters, t);
      assert queues[1..][q - 1] == queues[q];
      OccursAt(queues[1..], t, q - 1);
    }
  }

  lemma PlacedOnce(s: State, t: Task)
    requires Inv(s) && t in s.st && t != s.idle
    ensures Places(s, t) == 1
    ensures s.st[t].Zombie? <==> t in s.delq
    ensures s.st[t].Sleeping? <==> Waits(s, t)
    ensures s.st[t].Running? || s.st[t].Ready? <==> t in s.runq
  {
    OccursOnce(s.runq, t);
    OccursOnce(s.delq, t);
    if s.st[t].Sleeping? {
      var q :| 0 <= q < |s.queues| && t in s.queues[q].waiters;
      OccursAt(s.queues, t, q);
    } else {
      OccursNowhere(s.queues, t);
    }
  }

  /** Wherever sched() is called from, the next task may run, and it is not on the delete queue. */
  lemma NextMayRun(s: State)
    requires Mid(s)
    ensures var n := NextTask(Rotate(s)); n in s.st && !s.st[n].Sleeping? && !s.st[n].Zombie?
    ensures forall t :: t in s.delq ==> t in s.st && s.st[t].Zombie? && t != NextTask(Rotate(s))
  {
    NextExists(s);
    RotateMembers(s);
    var r := Rotate(s);
    if r.runq != [] { assert r.runq[0] in r.runq; assert r.runq[0] in s.runq; }
  }

  // ----- putting a task on the run queue

  lemma {:induction false} OccursSnoc(s: seq<Task>, t: Task, u: Task)
    ensures Occurs(s + [t], u) == Occurs(s, u) + if t == u then 1 else 0
  {
    if s == [] { assert [t][1..] == []; } else { assert (s + [t])[1..] == s[1..] + [t]; OccursSnoc(s[1..], t, u); }
  }

  lemma {:induction false} IndexSnoc(s: seq<Task>, t: Task)
    requires t !in s
    ensures Index(s + [t], t) == |s|
  {
    if s != [] { assert (s + [t])[1..] == s[1..] + [t]; IndexSnoc(s[1..], t); }
  }

  /** A task that was on no list is on one list now, behind every runnable task; all others stay where they were. */
  lemma ToRunqPlaces(s: State, t: Task, u: Task)
    ensures Places(ToRunq(s, t), u) == Places(s, u) + if t == u then 1 else 0
    ensures t !in s.runq ==> Index(ToRunq(s, t).runq, t) == |s.runq|
  {
    OccursSnoc(s.runq, t, u);
    if t !in s.runq { IndexSnoc(s.runq, t); }
  }

  // ----- waking

  /** r is s with the tasks in w, and nothing else, moved from the front of queue q to the end of the run queue. */
  ghost predicate Moves(s: State, r: State, q: nat, w: seq<Task>)
    requires q < |s.queues|
  {
    && w <= s.queues[q].waiters && r.queues == s.queues[q := s.queues[q].(waiters := s.queues[q].waiters[|w|..])]
    && r.runq == s.runq + w
    && (forall t :: t in w ==> t in r.st && r.st[t].Ready?)
    && (forall t :: t !in w ==> (t in r.st <==> t in s.st) && (t in s.st ==> r.st[t] == s.st[t]))
    && r.idle == s.idle && r.cur == s.cur && r.delq == s.delq && r.pc == s.pc
    && r.fresh_ == s.fresh_ && r.freed == s.freed
  }

  /** wake_one moves the first waiter, if there is one. */
  lemma WakeOneMoves(s: State, q: nat)
    requires q < |s.queues|
    ensures var w := s.queues[q].waiters; Moves(s, WakeOne(s, q), q, if w == [] then [] else w[..1])
  {
    var w := s.queues[q].waiters;
    if w == [] { assert w[0..] == w && s.runq + [] == s.runq; } else { assert w[..1] == [w[0]]; }
  }

  /** wake_up moves every waiter, in order. */
  lemma {:induction false} WakeUpMoves(s: State, q: nat)
    requires q < |s.queues|
    ensures Moves(s, WakeUp(s, q), q, s.queues[q].waiters)
    decreases |s.queues[q].waiters|
  {
    var w := s.queues[q].waiters;
    if w == [] { assert w[0..] == w && s.runq + [] == s.runq; } else {
      WakeOneMoves(s, q);
      WakeUpMoves(WakeOne(s, q), q);
      MovesOn(s, WakeOne(s, q), WakeUp(s, q), q);
    }
  }

  lemma MovesOn(s: State, m: State, r: State, q: nat)
    requires q < |s.queues| && q < |m.queues| && s.queues[q].waiters != []
    requires Moves(s, m, q, s.queues[q].waiters[..1]) && Moves(m, r, q, m.queues[q].waiters)
    ensures Moves(s, r, q, s.queues[q].waiters)
  {
    var w := s.queues[q].waiters;
    assert w == w[..1] + w[1..] && w[|w|..] == w[1..][|w| - 1..];
    assert s.runq + w[..1] + w[1..] == s.runq + w;
  }

  // ----- death

  /** A zombie stays one until its page is freed, and once switched away from is never current again. */
  lemma ZombieStep(s: State, e: Step, t: Task)
    requires Safe(s) && Enabled(s, e) && t in s.st && s.st[t].Zombie?
    ensures var r := Next(s, e);
            && (t in r.st ==> r.st[t].Zombie?) && (t !in r.st ==> t in r.freed)
            && (t != s.cur ==> t != r.cur)
  {
    StepKeeps(s, e);
    if e.DoSched? {
      RotateMembers(s);
      NextExists(s);
      SchedZombies(s, t);
    } else if e.DoRecheck? {
      RecheckFacts(s);
      TryPZombies(s, s.pc[s.cur].sem, t);
    } else if e.DoP? {
      TryPZombies(s, e.q, t);
    } else if e.DoSleep? {
      BlockKeeps(s, e.q);
      SchedZombies(Block(s, e.q), t);
    } else if e.DoWakeUp? {
      WakeUpZombies(s, e.q, t);
    } else if e.DoV? {
      var c := s.queues[e.q].(val := s.queues[e.q].val + 1, vs := s.queues[e.q].vs + 1);
      CountersKeep(s, e.q, c);
      WakeOneZombies(s.(queues := s.queues[e.q := c]), e.q, t);
    }
  }

  lemma SchedZombies(s: State, t: Task)
    requires Mid(s) && t in s.st && s.st[t].Zombie?
    ensures var r := Sched(s);
            && (t in r.st ==> r.st[t].Zombie?) && (t !in r.st ==> t in r.freed)
            && t != r.cur && s.freed <= r.freed
  {
    RotateMembers(s);
    NextExists(s);
    var n := NextTask(Rotate(s));
    if Rotate(s).runq != [] { assert n in Rotate(s).runq; assert n in s.runq; }
    assert n != t;
  }

  lemma TryPZombies(s: State, q: nat, t: Task)
    requires Inv(s) && q < |s.queues| && s.queues[q].Sem? && s.cur != s.idle && s.st[s.cur].Running?
    requires t in s.st && s.st[t].Zombie?
    ensures var r := TryP(s, q);
            (t in r.st ==> r.st[t].Zombie?) && (t !in r.st ==> t in r.freed) && t != r.cur
  {
    if s.queues[q].val <= 0 {
      var s1 := s.(pc := s.pc[s.cur := InP(q)]);
      PcKeeps(s, s1.pc);
      BlockKeeps(s1, q);
      SchedZombies(Block(s1, q), t);
    }
  }

  lemma WakeOneZombies(s: State, q: nat, t: Task)
    requires Inv(s) && q < |s.queues| && t in s.st && s.st[t].Zombie?
    ensures var r := WakeOne(s, q); t in r.st && r.st[t].Zombie? && r.cur == s.cur && r.freed == s.freed
  {
    var w := s.queues[q].waiters;
    if w != [] { assert w[0] in w; }
  }

  lemma {:induction false} WakeUpZombies(s: State, q: nat, t: Task)
    requires Inv(s) && q < |s.queues| && t in s.st && s.st[t].Zombie?
    ensures var r := WakeUp(s, q); t in r.st && r.st[t].Zombie? && r.cur == s.cur && r.freed == s.freed
    decreases |s.queues[q].waiters|
  {
    if s.queues[q].waiters != [] {
      WakeOneZombies(s, q, t);
      WakeOneKeeps(s, q);
      WakeUpZombies(WakeOne(s, q), q, t);
    }
  }

  lemma {:induction false} WakeUpFreed(s: State, q: nat)
    requires q < |s.queues|
    ensures WakeUp(s, q).freed == s.freed
    decreases |s.queues[q].waiters|
  {
    if s.queues[q].waiters != [] { WakeUpFreed(WakeOne(s, q), q); }
  }

  lemma FreedGrows(s: State, e: Step)
    requires Enabled(s, e)
    ensures s.freed <= Next(s, e).freed
  {
    if e.DoWakeUp? { WakeUpFreed(s, e.q); }
    else if e.DoSched? { SchedFreed(s); }
    else if e.DoSleep? { SchedFreed(Block(s, e.q)); }
    else if e.DoP? { TryPFreed(s, e.q); }
    else if e.DoRecheck? { TryPFreed(s, s.pc[s.cur].sem); }
  }

  lemma SchedFreed(s: State)
    requires s.cur in s.st
    ensures s.freed <= Sched(s).freed
  {
  }

  lemma TryPFreed(s: State, q: nat)
    requires q < |s.queues| && s.queues[q].Sem? && s.cur in s.st
    ensures s.freed <= TryP(s, q).freed
  {
    if s.queues[q].val <= 0 { SchedFreed(Block(s.(pc := s.pc[s.cur := InP(q)]), q)); }
  }

  /** Dead and switched away from: waiting on the delete queue, or freed. */
  predicate Gone(s: State, t: Task) { t in s.freed || (t in s.st && s.st[t].Zombie? && t != s.cur) }

  lemma GoneStep(s: State, e: Step, t: Task)
    requires Safe(s) && Enabled(s, e) && Gone(s, t)
    ensures Gone(Next(s, e), t)
  {
    FreedGrows(s, e);
    if t !in s.freed { ZombieStep(s, e, t); }
  }

  /** Once dead and switched away from, always. */
  lemma GoneForGood(ss: seq<State>, es: seq<Step>, i: nat, j: nat, t: Task)
    requires Run(ss, es) && Safe(ss[0]) && i <= j < |ss| && Gone(ss[i], t)
    ensures Gone(ss[j], t)
  {
    var b := seq(|ss|, m requires 0 <= m < |ss| => Gone(ss[m], t));
    forall m | i <= m < j && b[m] ensures b[m + 1] {
      RunsKeepSafe(ss, es, m);
      GoneNext(ss, es, m, t);
    }
    Stays(b, i, j);
  }

  lemma GoneNext(ss: seq<State>, es: seq<Step>, i: nat, t: Task)
    requires Run(ss, es) && i < |es| && Safe(ss[i]) && Gone(ss[i], t)
    ensures Gone(ss[i + 1], t)
  {
    RunStep(ss, es, i);
    GoneStep(ss[i], es[i], t);
  }

  lemma RunStep(ss: seq<State>, es: seq<Step>, i: nat)
    requires Run(ss, es) && i < |es|
    ensures Enabled(ss[i], es[i]) && ss[i + 1] == Next(ss[i], es[i])
  {
  }

  lemma GoneFacts(s: State, t: Task)
    requires Safe(s) && Gone(s, t)
    ensures t != s.cur && Occurs(s.freed, t) <= 1
  {
    OccursOnce(s.freed, t);
  }

  // ----- bounded waiting

  function Index(s: seq<Task>, t: Task): (k: nat)
    requires t in s
    ensures k < |s| && s[k] == t
  {
    if s[0] == t then 0 else 1 + Index(s[1..], t)
  }

  lemma IndexIs(s: seq<Task>, k: nat)
    requires NoDup(s) && k < |s|
    ensures Index(s, s[k]) == k
  {
  }

  /** How many calls of sched() until t runs: its place, plus one if the running task is not at the head. */
  function Rank(s: State, t: Task): nat
    requires t in s.runq
  {
    Index(s.runq, t) + if s.runq[0] == s.cur then 0 else 1
  }

  /** Calls of sched() that a step makes. */
  function Calls(s: State, e: Step): nat
    requires Enabled(s, e)
  {
    match e
    case DoSched => 1
    case DoSleep(_) => 1
    case DoP(q) => if s.queues[q].val <= 0 then 1 else 0
    case DoRecheck => if s.queues[s.pc[s.cur].sem].val <= 0 then 1 else 0
    case _ => 0
  }

  lemma SchedRank(s: State, t: Task)
    requires Mid(s) && t in s.runq && t != s.cur
    ensures t in Sched(s).runq && Rank(Sched(s), t) + 1 <= Rank(s, t)
  {
    RotateMembers(s);
    NextExists(s);
    var k, r := Index(s.runq, t), Sched(s);
    if s.runq[0] == s.cur {
      assert r.runq == s.runq[1..] + [s.cur];
      assert r.runq[k - 1] == t;
      RotateKeeps(s);
      IndexIs(r.runq, k - 1);
    } else {
      assert r.runq == s.runq;
    }
  }

  lemma BlockRank(s: State, q: nat, t: Task)
    requires Inv(s) && s.cur != s.idle && s.st[s.cur].Running? && q < |s.queues| && t in s.runq && t != s.cur
    ensures var r := SleepOn(s, q); t in r.runq && Rank(r, t) + 1 <= Rank(s, t)
  {
    BlockKeeps(s, q);
    RemoveHead(s.runq, s.cur);
    var b, k := Block(s, q), Index(s.runq, t);
    assert b.runq[k - 1] == t;
    IndexIs(b.runq, k - 1);
    SchedRank(b, t);
    NoDupTail(s.runq);
    assert b.runq[0] != s.cur;
  }

  lemma GrowRank(s: State, r: State, t: Task)
    requires NoDup(r.runq) && s.runq <= r.runq && t in s.runq && r.cur == s.cur
    ensures t in r.runq && Rank(r, t) == Rank(s, t)
  {
    var k := Index(s.runq, t);
    assert r.runq[k] == t;
    IndexIs(r.runq, k);
  }

  lemma {:induction false} WakeUpGrows(s: State, q: nat)
    requires q < |s.queues|
    ensures s.runq <= WakeUp(s, q).runq && WakeUp(s, q).cur == s.cur
    decreases |s.queues[q].waiters|
  {
    if s.queues[q].waiters != [] { WakeUpGrows(WakeOne(s, q), q); }
  }

  lemma ExitRank(s: State, t: Task)
    requires Inv(s) && s.cur != s.idle && s.st[s.cur].Running? && t in s.runq && t != s.cur
    ensures t in ExitBegin(s).runq && Rank(ExitBegin(s), t) <= Rank(s, t)
  {
    ExitKeeps(s);
    RemoveHead(s.runq, s.cur);
    var b, k := ExitBegin(s), Index(s.runq, t);
    assert b.runq[k - 1] == t;
    IndexIs(b.runq, k - 1);
  }

  lemma TryPRank(s: State, q: nat, t: Task)
    requires Inv(s) && s.cur != s.idle && s.st[s.cur].Running? && q < |s.queues| && s.queues[q].Sem?
    requires t in s.runq && t != s.cur
    ensures var r := TryP(s, q); t in r.runq && Rank(r, t) + (if s.queues[q].val <= 0 then 1 else 0) <= Rank(s, t)
  {
    if s.queues[q].val <= 0 {
      var s1 := s.(pc := s.pc[s.cur := InP(q)]);
      PcKeeps(s, s1.pc);
      BlockRank(s1, q, t);
    }
  }

  /** No step moves a waiting task back, and every call of sched() moves it forward. */
  lemma StepRank(s: State, e: Step, t: Task)
    requires Safe(s) && Enabled(s, e) && t in s.runq && t != s.cur
    ensures t in Next(s, e).runq && Rank(Next(s, e), t) + Calls(s, e) <= Rank(s, t)
  {
    StepKeeps(s, e);
    match e
    case DoSched => SchedRank(s, t);
    case DoP(q) => TryPRank(s, q, t);
    case DoRecheck => RecheckFacts(s); TryPRank(s, s.pc[s.cur].sem, t);
    case DoV(q) => GrowRank(s, Next(s, e), t);
    case DoSleep(q) => BlockRank(s, q, t);
    case DoWakeUp(q) => WakeUpGrows(s, q); GrowRank(s, Next(s, e), t);
    case DoFork(u) => GrowRank(s, Next(s, e), t);
    case DoExit => ExitRank(s, t);
  }

  function TotalCalls(ss: seq<State>, es: seq<Step>): nat
    requires Run(ss, es)
  {
    if es == [] then 0 else Calls(ss[0], es[0]) + TotalCalls(ss[1..], es[1..])
  }

  /** A task at index k of the run queue runs after at most k+1 calls of sched(),
      whatever sleeps, exits, wakes and forks happen in between. */
  lemma {:induction false} BoundedWaiting(ss: seq<State>, es: seq<Step>, t: Task)
    requires Run(ss, es) && Safe(ss[0]) && t in ss[0].runq
    requires TotalCalls(ss, es) >= Index(ss[0].runq, t) + 1
    ensures exists i :: 0 <= i < |ss| && ss[i].cur == t
  {
    var i := RunsSoon(ss, es, t);
  }

  lemma {:induction false} RunsSoon(ss: seq<State>, es: seq<Step>, t: Task) returns (i: nat)
    requires Run(ss, es) && Safe(ss[0]) && t in ss[0].runq
    requires TotalCalls(ss, es) >= Rank(ss[0], t)
    ensures i < |ss| && ss[i].cur == t
    decreases |es|
  {
    if ss[0].cur == t {
      return 0;
    }
    StepRank(ss[0], es[0], t);
    StepKeeps(ss[0], es[0]);
    i := RunsSoon(ss[1..], es[1..], t);
    i := i + 1;
  }
}
