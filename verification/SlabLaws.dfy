/** The laws of the allocators, over every run of allocations, frees, writes and page requests from boot. */
module SlabLaws {
  import opened Common
  import opened SlabModel
  import opened SlabInv
  import opened SlabRuns

  /** hs[i] is a heap of a run that starts at boot. */
  predicate Reached(hs: seq<Heap>, ops: seq<Op>, i: nat) { Run(hs, ops) && Boot(hs[0]) && i < |hs| }

  // ----- sizes

  /** The size that objcache_init was called with for cache c, among the first i operations. */
  function Requested(ops: seq<Op>, i: nat, c: CacheId): nat
    requires i <= |ops|
  {
    if i == 0 then 0
    else if ops[i - 1].DoNewCache? && ops[i - 1].c == c then ops[i - 1].sz
    else Requested(ops, i - 1, c)
  }

  lemma StepAt(hs: seq<Heap>, ops: seq<Op>, i: nat)
    requires Reached(hs, ops, i + 1)
    ensures Inv(hs[i]) && Enabled(hs[i], ops[i]) && Next(hs[i], ops[i]).Ok? && hs[i + 1] == Next(hs[i], ops[i]).heap
  {
    RunsKeepInv(hs, ops);
  }

  /** In every run: an object of a cache has the size asked for, or that of a pointer if that is more, and
      as many are in a page as fit. */
  lemma {:induction false} CacheSizes(hs: seq<Heap>, ops: seq<Op>, i: nat, c: CacheId)
    requires Reached(hs, ops, i) && c in hs[i].cache
    ensures var n, o := Requested(ops, i, c), hs[i].cache[c];
            0 < n <= PAGE_SIZE && o.sz == (if n < 4 then 4 else n) && o.num == PAGE_SIZE / o.sz
  {
    if i > 0 {
      StepAt(hs, ops, i - 1);
      StepSizes(hs[i - 1], ops[i - 1], c);
      if c in hs[i - 1].cache { CacheSizes(hs, ops, i - 1, c); }
    }
  }

  /** Operation i makes cache c if it is asked to, and never takes it away. */
  predicate Lasts(hs: seq<Heap>, ops: seq<Op>, i: nat, c: CacheId)
    requires i < |ops| && |hs| == |ops| + 1
  {
    && (ops[i].DoNewCache? && ops[i].c == c ==> c !in hs[i].cache && c in hs[i + 1].cache)
    && (c in hs[i].cache ==> c in hs[i + 1].cache)
  }

  lemma {:induction false} LastsOn(hs: seq<Heap>, ops: seq<Op>, m: nat, i: nat)
    requires m < i <= |ops| && |hs| == |ops| + 1 && ops[m].DoNewCache?
    requires forall x :: 0 <= x < |ops| ==> Lasts(hs, ops, x, ops[m].c)
    ensures ops[m].c in hs[i].cache && Requested(ops, i, ops[m].c) == ops[m].sz
  {
    assert Lasts(hs, ops, i - 1, ops[m].c);
    if m < i - 1 { LastsOn(hs, ops, m, i - 1); }
  }

  /** Every cache that was asked for is there from then on, for the size asked for. */
  lemma CacheStays(hs: seq<Heap>, ops: seq<Op>, m: nat, i: nat)
    requires Reached(hs, ops, i) && m < i && ops[m].DoNewCache?
    ensures ops[m].c in hs[i].cache && Requested(ops, i, ops[m].c) == ops[m].sz
  {
    forall x | 0 <= x < |ops| ensures Lasts(hs, ops, x, ops[m].c) {
      StepAt(hs, ops, x);
      StepSizes(hs[x], ops[x], ops[m].c);
    }
    LastsOn(hs, ops, m, i);
  }

  // ----- objects and pages

  /** Objects in use do not overlap, for the sizes asked for, and each lies inside a page that its own cache owns. */
  lemma LiveDisjoint(hs: seq<Heap>, ops: seq<Op>, i: nat, f: Frame, k: nat, g: Frame, j: nat)
    requires Reached(hs, ops, i) && IsLive(hs[i], f, k) && IsLive(hs[i], g, j)
    ensures var h := hs[i];
            && h.slab[f].cache in h.cache && h.slab[g].cache in h.cache
            && var n, m := Requested(ops, i, h.slab[f].cache), Requested(ops, i, h.slab[g].cache);
            && var a, b := Slot(f, h.cache[h.slab[f].cache].sz, k), Slot(g, h.cache[h.slab[g].cache].sz, j);
            && 0 < n && Base(f) <= a && a + n <= Base(f) + PAGE_SIZE
            && f < |h.page| && h.page[f] == Page(1, SlabPage) && f !in h.freeq && FrameOf(a) == f
            && ((f, k) != (g, j) ==> a + n <= b || b + m <= a)
  {
    RunsKeepInv(hs, ops);
    LiveApart(hs[i], f, k, g, j);
    CacheSizes(hs, ops, i, hs[i].slab[f].cache);
    CacheSizes(hs, ops, i, hs[i].slab[g].cache);
  }

  /** In use + freed + never used is the number of objects that fit a page; the free list repeats
      nothing; and the lists a slab is on follow from its state. */
  lemma SlabAccounts(hs: seq<Heap>, ops: seq<Op>, i: nat, f: Frame)
    requires Reached(hs, ops, i) && f in hs[i].slab
    ensures hs[i].slab[f].cache in hs[i].cache
    ensures var s, o := hs[i].slab[f], hs[i].cache[hs[i].slab[f].cache];
            && s.bump <= o.num && s.inuse + |s.free| + (o.num - s.bump) == o.num && 0 < s.inuse
            && NoDup(s.free) && s.inuse == |s.live| && (forall k :: k in s.free ==> k !in s.live)
            && (s.inuse == o.num <==> f in o.full)
            && (s.inuse < o.num && o.cur != At(f) <==> f in o.partials && o.cur != At(f))
            && (f in o.full ==> f !in o.partials && o.cur != At(f))
  {
    RunsKeepInv(hs, ops);
    SlabCounts(hs[i], f);
  }

  /** A frame that is not reserved is on the free list, exactly once, if and only if its count is 0; it is
      then no slab; and the count of free pages is the length of the list. */
  lemma PagesAccounted(hs: seq<Heap>, ops: seq<Op>, i: nat, f: Frame)
    requires Reached(hs, ops, i) && f < |hs[i].page| && !hs[i].page[f].kind.Reserved?
    ensures var h := hs[i];
            && (f in h.freeq <==> h.page[f].count == 0) && NoDup(h.freeq)
            && (f in h.freeq ==> f !in h.slab) && h.nrFree == |h.freeq|
  {
    RunsKeepInv(hs, ops);
    PageCounts(hs[i], f);
  }

  /** A cache takes a page, or the allocator gives up, only when every object of every slab of it is in use. */
  lemma PageOnlyWhenFull(hs: seq<Heap>, ops: seq<Op>, i: nat, c: CacheId)
    requires Reached(hs, ops, i) && c in hs[i].cache
    ensures CanAlloc(hs[i], c)
    ensures Alloc(hs[i], c).Panic? <==> hs[i].freeq == [] && AllFull(hs[i], c)
    ensures Alloc(hs[i], c).Ok? && Alloc(hs[i], c).heap.freeq != hs[i].freeq ==> AllFull(hs[i], c)
  {
    RunsKeepInv(hs, ops);
    StepDefined(hs[i], DoAlloc(c));
    AllocFails(hs[i], c);
    if Alloc(hs[i], c).Ok? && Alloc(hs[i], c).heap.freeq != hs[i].freeq {
      forall f | f in hs[i].slab && hs[i].slab[f].cache == c ensures hs[i].slab[f].live == Below(hs[i].cache[c].num) {
        NewPageOnlyWhenFull(hs[i], c, f);
      }
    }
  }

  /** The guard at kernel/memchunk.c:313 fires for an object in use exactly when the object starts where
      o_ptr_end points: then it is the first of its page, in a cache whose objects fill pages exactly. */
  lemma GuardExact(hs: seq<Heap>, ops: seq<Op>, i: nat, f: Frame, k: nat)
    requires Reached(hs, ops, i) && IsLive(hs[i], f, k)
    ensures var h := hs[i];
            && CanFree(h, f) && var o := h.cache[h.slab[f].cache];
            && (FreeObj(h, f, k).Panic? <==> Slot(f, o.sz, k) == o.ptrEnd)
            && (FreeObj(h, f, k).Panic? ==> k == 0 && o.sz * o.num == PAGE_SIZE)
  {
    RunsKeepInv(hs, ops);
    StepDefined(hs[i], DoFree(f, k));
    GuardAt(hs[i], f, k);
    if FreeObj(hs[i], f, k).Panic? { GuardOnlyFirst(hs[i], f, k); }
  }

  /** The other assertions of do_cache_free hold: the slab is in use, not over-full, and, when its free
      list is empty, either current or full (lines 311, 312 and 324). */
  lemma AssertionsHold(hs: seq<Heap>, ops: seq<Op>, i: nat, f: Frame, k: nat)
    requires Reached(hs, ops, i) && IsLive(hs[i], f, k)
    ensures hs[i].slab[f].cache in hs[i].cache && f < |hs[i].page|
    ensures var s, o := hs[i].slab[f], hs[i].cache[hs[i].slab[f].cache];
            s.inuse != 0 && s.inuse <= o.num && (s.freeList == NULL && o.cur != At(f) ==> s.inuse == o.num)
    ensures hs[i].page[f] == Page(1, SlabPage)
  {
    RunsKeepInv(hs, ops);
    LiveApart(hs[i], f, k, f, k);
    FreeAsserts(hs[i], f, k);
  }

  // ----- the guard does fire

  function ExampleBoot(): Heap { Heap([Page(0, Free), Page(0, Free)], [0, 1], 2, map[], map[], map[]) }

  function Example0(): Heap {
    Heap([Page(0, Free), Page(0, Free)], [0, 1], 2, map[0 := Cache(4096, 1, NULL, NULL, None, [], [])], map[], map[])
  }

  function Example1(): Heap {
    Heap([Page(1, SlabPage), Page(0, Free)], [1], 1, map[0 := Cache(4096, 1, Base(1), Base(1), None, [], [0])],
         map[0 := Slab(0, NULL, 1, {0}, [], 1)], map[Base(0) := POISON])
  }

  function Example2(): Heap {
    Heap([Page(1, SlabPage), Page(1, SlabPage)], [], 0, map[0 := Cache(4096, 1, Base(2), Base(2), None, [], [1, 0])],
         map[0 := Slab(0, NULL, 1, {0}, [], 1), 1 := Slab(0, NULL, 1, {0}, [], 1)],
         map[Base(0) := POISON, Base(1) := POISON])
  }

  function Example3(): Heap {
    Heap([Page(0, Free), Page(1, SlabPage)], [0], 1, map[0 := Cache(4096, 1, Base(2), Base(2), None, [], [1])],
         map[1 := Slab(0, NULL, 1, {0}, [], 1)], map[Base(0) := NULL, Base(1) := POISON])
  }

  function Example4(): Heap {
    Heap([Page(1, SlabPage), Page(1, SlabPage)], [], 0, map[0 := Cache(4096, 1, Base(1), Base(1), None, [], [0, 1])],
         map[0 := Slab(0, NULL, 1, {0}, [], 1), 1 := Slab(0, NULL, 1, {0}, [], 1)],
         map[Base(0) := POISON, Base(1) := POISON])
  }

  lemma ExampleFirst()
    ensures Enabled(Example0(), DoAlloc(0)) && Next(Example0(), DoAlloc(0)) == Ok(Example1(), Base(0))
  {
    var h, e, n := Example0(), Example1(), NewSlab(Example0(), 0);
    var r := AllocFast(n, 0).heap;
    assert BumpedSlab(n.slab[0]).live == {0};
    assert r.slab == e.slab;
    assert Remove([], 0) == [];
    assert r.cache[0].full == e.cache[0].full && r.cache[0].partials == [];
    assert r.cache[0] == e.cache[0];
    assert r.cache == e.cache && r.word == e.word && r.freeq == e.freeq;
    assert r.page == e.page;
    assert CanAlloc(h, 0) && Alloc(h, 0) == AllocFast(n, 0);
  }

  lemma ExampleSecond()
    ensures Enabled(Example1(), DoAlloc(0)) && Next(Example1(), DoAlloc(0)) == Ok(Example2(), Base(1))
  {
    var h, e, n := Example1(), Example2(), NewSlab(Example1(), 0);
    var r := AllocFast(n, 0).heap;
    assert BumpedSlab(n.slab[1]).live == {0};
    assert r.slab == e.slab;
    assert Remove([0], 1) == [0] + Remove([], 1);
    assert r.cache[0].full == e.cache[0].full && r.cache[0].partials == [];
    assert r.cache[0] == e.cache[0];
    assert r.cache == e.cache && r.word == e.word && r.freeq == e.freeq;
    assert r.page == e.page;
    assert CanAlloc(h, 0) && Alloc(h, 0) == AllocFast(n, 0);
  }

  /** In the middle of the third step: the object is on its slab's free list. */
  function Example2Pushed(): Heap {
    Heap([Page(1, SlabPage), Page(1, SlabPage)], [], 0, map[0 := Cache(4096, 1, Base(2), Base(2), None, [0], [1])],
         map[0 := Slab(0, Base(0), 0, {}, [0], 1), 1 := Slab(0, NULL, 1, {0}, [], 1)],
         map[Base(0) := NULL, Base(1) := POISON])
  }

  lemma ExamplePush()
    ensures PushFree(Example2(), 0, 0, 0, Base(0)) == Example2Pushed()
  {
    var h, e := PushFree(Example2(), 0, 0, 0, Base(0)), Example2Pushed();
    assert Remove([1, 0], 0) == [1] + Remove([0], 0) == [1];
    assert h.cache[0] == e.cache[0];
    assert h.slab[0] == e.slab[0];
    assert h.cache == e.cache && h.slab == e.slab && h.word == e.word;
  }

  lemma ExampleDrop()
    ensures DropSlab(Example2Pushed(), 0, 0) == Example3()
  {
    var r, e := DropSlab(Example2Pushed(), 0, 0), Example3();
    assert Remove([0], 0) == [] && Remove([1], 0) == [1] + Remove([], 0);
    assert r.cache[0] == e.cache[0];
    assert r.cache == e.cache && r.slab == e.slab;
    assert r.page == e.page;
  }

  lemma ExampleThird()
    ensures Enabled(Example2(), DoFree(0, 0)) && Next(Example2(), DoFree(0, 0)) == Ok(Example3(), Base(0))
  {
    ExamplePush();
    ExampleDrop();
    assert CanFree(Example2(), 0);
  }

  /** In the middle of the fourth step: the page is the current slab again. */
  function Example3New(): Heap {
    Heap([Page(1, SlabPage), Page(1, SlabPage)], [], 0, map[0 := Cache(4096, 1, Base(0), Base(1), At(0), [], [1])],
         map[0 := Slab(0, NULL, 0, {}, [], 0), 1 := Slab(0, NULL, 1, {0}, [], 1)],
         map[Base(0) := NULL, Base(1) := POISON])
  }

  lemma ExampleNew()
    ensures NewSlab(Example3(), 0) == Example3New()
  {
    var n, e := NewSlab(Example3(), 0), Example3New();
    assert n.page == e.page;
    assert n.cache == e.cache && n.slab == e.slab;
  }

  lemma ExampleBump()
    ensures AllocFast(Example3New(), 0) == Ok(Example4(), Base(0))
  {
    var r, e := AllocFast(Example3New(), 0).heap, Example4();
    assert Remove([1], 0) == [1] + Remove([], 0);
    assert BumpedSlab(Example3New().slab[0]).live == {0};
    assert r.slab == e.slab && r.word == e.word;
    assert r.cache[0] == e.cache[0];
    assert r.cache == e.cache;
  }

  lemma ExampleFourth()
    ensures Enabled(Example3(), DoAlloc(0)) && Next(Example3(), DoAlloc(0)) == Ok(Example4(), Base(0))
  {
    ExampleNew();
    ExampleBump();
    assert CanAlloc(Example3(), 0);
  }

  /** From boot: a cache of page-sized objects; two of them; free the first, allocate again into its
      page, and freeing the second, which is perfectly in use, panics: o_ptr_end now points at it. */
  lemma GuardFires() returns (hs: seq<Heap>, ops: seq<Op>)
    ensures Reached(hs, ops, 5) && ops == [DoNewCache(0, 4096), DoAlloc(0), DoAlloc(0), DoFree(0, 0), DoAlloc(0)]
    ensures Enabled(hs[5], DoFree(1, 0)) && Next(hs[5], DoFree(1, 0)).Panic? && CanFree(hs[5], 1)
  {
    hs, ops := ReachThird();
    ExampleFourth();
    hs, ops := Extend(hs, ops, DoAlloc(0), Example4());
    ExamplePanics();
  }

  lemma ExampleFrom()
    ensures Boot(ExampleBoot()) && Enabled(ExampleBoot(), DoNewCache(0, 4096))
    ensures Next(ExampleBoot(), DoNewCache(0, 4096)) == Ok(Example0(), NULL)
  {
  }

  lemma ReachFirst() returns (hs: seq<Heap>, ops: seq<Op>)
    ensures Reached(hs, ops, 2) && ops == [DoNewCache(0, 4096), DoAlloc(0)] && hs[2] == Example1()
  {
    ExampleFrom();
    hs, ops := Extend([ExampleBoot()], [], DoNewCache(0, 4096), Example0());
    ExampleFirst();
    hs, ops := Extend(hs, ops, DoAlloc(0), Example1());
  }

  lemma ReachThird() returns (hs: seq<Heap>, ops: seq<Op>)
    ensures Reached(hs, ops, 4) && ops == [DoNewCache(0, 4096), DoAlloc(0), DoAlloc(0), DoFree(0, 0)]
            && hs[4] == Example3()
  {
    hs, ops := ReachFirst();
    ExampleSecond();
    hs, ops := Extend(hs, ops, DoAlloc(0), Example2());
    ExampleThird();
    hs, ops := Extend(hs, ops, DoFree(0, 0), Example3());
  }

  lemma Extend(hs: seq<Heap>, ops: seq<Op>, op: Op, h: Heap) returns (hs': seq<Heap>, ops': seq<Op>)
    requires Reached(hs, ops, |ops|) && Enabled(hs[|ops|], op) && Next(hs[|ops|], op).Ok?
             && Next(hs[|ops|], op).heap == h
    ensures ops' == ops + [op] && Reached(hs', ops', |ops'|) && hs'[|ops'|] == h
  {
    hs', ops' := hs + [h], ops + [op];
    forall i | 0 <= i < |ops'|
      ensures Enabled(hs'[i], ops'[i]) && Next(hs'[i], ops'[i]).Ok? && hs'[i + 1] == Next(hs'[i], ops'[i]).heap
    {
      if i < |ops| { assert hs'[i] == hs[i] && hs'[i + 1] == hs[i + 1] && ops'[i] == ops[i]; }
    }
  }

  lemma ExamplePanics()
    ensures Enabled(Example4(), DoFree(1, 0)) && Next(Example4(), DoFree(1, 0)).Panic? && CanFree(Example4(), 1)
  {
  }
}
