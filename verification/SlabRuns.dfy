/** What holds in every run of allocations and frees on any number of caches. */
module SlabRuns {
  import opened Common
  import opened SlabModel
  import opened SlabInv

  datatype Op =
    | DoAlloc(c: CacheId)
    | DoFree(f: Frame, k: nat)                        // the object in slot k of slab f
    | DoWrite(f: Frame, k: nat, off: nat, v: nat)     // a client writes a word of an object it holds
    | DoTakePage                                      // another user of the page allocator
    | DoPutPage(f: Frame)
    | DoNewCache(c: CacheId, sz: nat)

  predicate IsLive(h: Heap, f: Frame, k: nat) { f in h.slab && k in h.slab[f].live }

  /** What the callers must respect: they free and write only what they hold. */
  predicate Enabled(h: Heap, op: Op) {
    match op
    case DoAlloc(c) => c in h.cache
    case DoFree(f, k) => IsLive(h, f, k)
    case DoWrite(f, k, off, v) =>
      IsLive(h, f, k) && h.slab[f].cache in h.cache && off + 4 <= h.cache[h.slab[f].cache].sz
    case DoTakePage => h.freeq != []
    case DoPutPage(f) => f < |h.page| && h.page[f].count == 1 && !h.page[f].kind.Reserved? && f !in h.slab
    case DoNewCache(c, sz) => c !in h.cache && 0 < sz <= PAGE_SIZE
  }

  /** One step. Where the C code would follow a bad pointer there is no next heap; see StepDefined. */
  function Next(h: Heap, op: Op): Outcome
    requires Enabled(h, op)
  {
    match op
    case DoAlloc(c) => if CanAlloc(h, c) then Alloc(h, c) else Panic
    case DoFree(f, k) => if CanFree(h, f) then FreeObj(h, f, k) else Panic
    case DoWrite(f, k, off, v) =>
      var a := Slot(f, h.cache[h.slab[f].cache].sz, k) + off;
      Ok(h.(word := h.word[a := v]), a)
    case DoTakePage => if h.freeq[0] < |h.page| then Ok(TakePage(h), Base(h.freeq[0])) else Panic
    case DoPutPage(f) => Ok(PutPage(h, f), Base(f))
    case DoNewCache(c, sz) => Ok(h.(cache := h.cache[c := NewCache(sz)]), NULL)
  }

  lemma StepDefined(h: Heap, op: Op)
    requires Inv(h) && Enabled(h, op)
    ensures op.DoAlloc? ==> CanAlloc(h, op.c)
    ensures op.DoFree? ==> CanFree(h, op.f)
    ensures op.DoTakePage? ==> h.freeq[0] < |h.page|
  {
    if op.DoAlloc? { AllocPaths(h, op.c); }
    if op.DoFree? { PushKeeps(h, op.f, op.k); }
    if op.DoTakePage? { assert h.freeq[0] in h.freeq; }
  }

  // ----- what a step does to the objects in use

  predicate Adds(h: Heap, h': Heap, f: Frame, k: nat, c: CacheId) {
    && !IsLive(h, f, k) && IsLive(h', f, k) && h'.slab[f].cache == c
    && (forall g | g in h.slab :: g in h'.slab && h'.slab[g].cache == h.slab[g].cache)
    && (forall g | g in h.slab :: h.slab[g].live <= h'.slab[g].live)
    && (forall g | g in h'.slab :: forall j | j in h'.slab[g].live :: IsLive(h, g, j) || (g == f && j == k))
  }

  lemma PartialEffect(h: Heap, c: CacheId, f: Frame)
    requires Inv(h) && c in h.cache && f in h.slab && h.slab[f].cache == c && h.slab[f].free != []
    ensures var k := h.slab[f].free[0]; k < h.cache[c].num && Adds(h, AllocFromPartial(h, c, f).heap, f, k, c)
  {
    var k := h.slab[f].free[0];
    assert k in h.slab[f].free;
    assert SlabAt(h, f);
  }

  lemma FastEffect(h: Heap, c: CacheId, x: Maybe)
    requires Mid(h, x) && c in h.cache && h.cache[c].cur.At? && h.cache[c].cur.frame in h.slab
    ensures var f := h.cache[c].cur.frame;
            && h.slab[f].bump < h.cache[c].num && h.slab[f].cache == c
            && Adds(h, AllocFast(h, c).heap, f, h.slab[f].bump, c)
  {
    var f := h.cache[c].cur.frame;
    assert CacheOk(h, c, h.cache[c]) && SlabAt(h, f);
    assert h.slab[f].bump !in h.slab[f].live;
  }

  lemma SlowEffect(h: Heap, c: CacheId)
    requires Inv(h) && c in h.cache && h.cache[c].cur.None? && h.freeq != [] && h.freeq[0] < |h.page|
    ensures Inv(AllocSlow(h, c).heap) && AllocSlow(h, c).addr == Slot(h.freeq[0], h.cache[c].sz, 0)
    ensures 0 < h.cache[c].num && Adds(h, AllocSlow(h, c).heap, h.freeq[0], 0, c)
  {
    var f := h.freeq[0];
    NewSlabKeeps(h, c);
    FastEffect(NewSlab(h, c), c, At(f));
    AllocFastKeeps(NewSlab(h, c), c, At(f));
  }

  /** A successful allocation hands out one object that was not in use, and touches no other. */
  lemma AllocEffect(h: Heap, c: CacheId) returns (f: Frame, k: nat)
    requires Inv(h) && c in h.cache && CanAlloc(h, c) && Alloc(h, c).Ok?
    ensures Inv(Alloc(h, c).heap)
    ensures Alloc(h, c).addr == Slot(f, h.cache[c].sz, k) && k < h.cache[c].num
    ensures Adds(h, Alloc(h, c).heap, f, k, c)
  {
    AllocPaths(h, c);
    var o := h.cache[c];
    if o.partials != [] && h.slab[o.partials[0]].freeList != NULL {
      f, k := o.partials[0], h.slab[o.partials[0]].free[0];
      PartialEffect(h, c, f);
      AllocFromPartialKeeps(h, c, f);
    } else if o.ptr + o.sz <= o.ptrEnd {
      f, k := o.cur.frame, h.slab[o.cur.frame].bump;
      FastMeansNoneFreed(h, c);
      FastEffect(h, c, None);
      AllocFastKeeps(h, c, None);
    } else {
      f, k := h.freeq[0], 0;
      SlowEffect(h, c);
    }
  }

  /** A page is taken, and the allocator gives up, only when every object of every slab of the cache is in use. */
  lemma NewPageOnlyWhenFull(h: Heap, c: CacheId, f: Frame)
    requires Inv(h) && CanAlloc(h, c) && f in h.slab && h.slab[f].cache == c
    requires Alloc(h, c).Panic? || Alloc(h, c).heap.freeq != h.freeq
    ensures f in h.cache[c].full && h.slab[f].live == Below(h.cache[c].num)
    ensures h.cache[c].partials == [] && h.cache[c].cur.None?
  {
    SlowMeansAllFull(h, c, f);
  }

  /** Every object of every slab of cache c is in use. */
  predicate AllFull(h: Heap, c: CacheId)
    requires c in h.cache
  {
    forall f :: f in h.slab && h.slab[f].cache == c ==> h.slab[f].live == Below(h.cache[c].num)
  }

  /** The allocator gives up if and only if there is no free page and no free object in any slab of the cache. */
  lemma AllocFails(h: Heap, c: CacheId)
    requires Inv(h) && CanAlloc(h, c)
    ensures Alloc(h, c).Panic? <==> h.freeq == [] && AllFull(h, c)
  {
    if Alloc(h, c).Panic? {
      forall f | f in h.slab && h.slab[f].cache == c ensures h.slab[f].live == Below(h.cache[c].num) {
        NewPageOnlyWhenFull(h, c, f);
      }
    }
    if h.freeq == [] && AllFull(h, c) { FullFails(h, c); }
  }

  lemma FullFails(h: Heap, c: CacheId)
    requires Inv(h) && CanAlloc(h, c) && h.freeq == [] && AllFull(h, c)
    ensures Alloc(h, c).Panic?
  {
    AllocPaths(h, c);
    var o := h.cache[c];
    if o.partials != [] && h.slab[o.partials[0]].freeList != NULL {
      NotFull(h, c, o.partials[0]);
    } else if o.cur.At? {
      assert CacheOk(h, c, o);
      NotFull(h, c, o.cur.frame);
    }
  }

  /** A slab whose objects are all in use has none on its free list, and is not current. */
  lemma NotFull(h: Heap, c: CacheId, f: Frame)
    requires Inv(h) && c in h.cache && f in h.slab && h.slab[f].cache == c && h.slab[f].live == Below(h.cache[c].num)
    ensures h.slab[f].free == [] && h.cache[c].cur != At(f)
  {
    SlabCounts(h, f);
  }

  predicate Takes(h: Heap, h': Heap, f: Frame, k: nat) {
    && IsLive(h, f, k) && !IsLive(h', f, k)
    && (forall g | g in h'.slab ::
          g in h.slab && h'.slab[g].cache == h.slab[g].cache && h'.slab[g].live <= h.slab[g].live)
    && (forall g | g in h.slab :: forall j | j in h.slab[g].live :: IsLive(h', g, j) || (g == f && j == k))
  }

  lemma PushEffect(h: Heap, c: CacheId, f: Frame, k: nat, obj: Addr)
    requires c in h.cache && IsLive(h, f, k) && h.slab[f].inuse > 0
    ensures Takes(h, PushFree(h, c, f, k, obj), f, k)
  {
  }

  /** A free that gets past the guard takes exactly that object out of use; its page goes back with the last one. */
  lemma FreeEffect(h: Heap, f: Frame, k: nat)
    requires Inv(h) && IsLive(h, f, k) && CanFree(h, f) && FreeObj(h, f, k).Ok?
    ensures Inv(FreeObj(h, f, k).heap)
    ensures Takes(h, FreeObj(h, f, k).heap, f, k)
    ensures f in FreeObj(h, f, k).heap.slab <==> h.slab[f].inuse > 1
  {
    PushKeeps(h, f, k);
    var c := h.slab[f].cache;
    var obj := Slot(f, h.cache[c].sz, k);
    var h1 := PushFree(h, c, f, k, obj);
    PushEffect(h, c, f, k, obj);
    if h1.slab[f].inuse == 0 {
      DropKeeps(h1, c, f);
      LastObject(h1, f);
    } else {
      NoneUnused(h1, f);
    }
  }

  lemma LastObject(h: Heap, f: Frame)
    requires f in h.slab && SlabsOk(h) && h.slab[f].inuse == 0
    ensures h.slab[f].live == {}
  {
    assert SlabAt(h, f);
  }

  lemma NoneUnused(h: Heap, f: Frame)
    requires Mid(h, At(f)) && f in h.slab && h.slab[f].inuse > 0
    ensures Inv(h)
  {
  }

  /** A client writing inside its own object disturbs no free list. */
  lemma WriteSlab(h: Heap, f: Frame, k: nat, off: nat, v: nat)
    requires CachesOk(h) && SlabsOk(h) && Enabled(h, DoWrite(f, k, off, v))
    ensures var a := Slot(f, h.cache[h.slab[f].cache].sz, k) + off;
            InPage(f, a) && SlabOk(h.cache[h.slab[f].cache], h.word[a := v], f, h.slab[f])
  {
    var c := h.slab[f].cache;
    var o, s := h.cache[c], h.slab[f];
    var a := Slot(f, o.sz, k) + off;
    assert CacheOk(h, c, o) && SlabAt(h, f);
    SlotRange(f, o.sz, o.num, k);
    forall j | j in s.free ensures Slot(f, o.sz, j) != a {
      if j < k { SlotOrder(f, o.sz, j, k); } else { SlotOrder(f, o.sz, k, j); }
    }
    LinkedFrame(h.word, h.word[a := v], s.freeList, f, o.sz, s.free);
  }

  lemma WriteKeeps(h: Heap, f: Frame, k: nat, off: nat, v: nat)
    requires Inv(h) && Enabled(h, DoWrite(f, k, off, v))
    ensures Inv(Next(h, DoWrite(f, k, off, v)).heap)
  {
    WriteSlab(h, f, k, off, v);
    var c := h.slab[f].cache;
    var o, a := h.cache[c], Slot(f, h.cache[c].sz, k) + off;
    assert CacheOk(h, c, o);
    UpdateKeeps(h, None, c, o, f, h.slab[f], a, v, None);
    assert h.slab[f := h.slab[f]] == h.slab && h.cache[c := o] == h.cache;
    assert Updated(h, c, o, f, h.slab[f], a, v) == h.(word := h.word[a := v]);
  }

  lemma OnlyPagesChange(h: Heap, h': Heap)
    requires CachesOk(h) && SlabsOk(h) && h'.cache == h.cache && h'.slab == h.slab && h'.word == h.word
    ensures CachesOk(h') && SlabsOk(h')
  {
    forall g | g in h'.slab ensures SlabAt(h', g) { assert SlabAt(h, g); }
    forall d | d in h'.cache ensures CacheOk(h', d, h'.cache[d]) { assert CacheOk(h, d, h.cache[d]); }
  }

  lemma TakePageKeeps(h: Heap)
    requires Inv(h) && h.freeq != [] && h.freeq[0] < |h.page|
    ensures Inv(TakePage(h))
  {
    assert h.freeq[0] in h.freeq;
    NoDupTail(h.freeq);
    OnlyPagesChange(h, TakePage(h));
  }

  lemma PutPageKeeps(h: Heap, f: Frame)
    requires Inv(h) && Enabled(h, DoPutPage(f))
    ensures Inv(PutPage(h, f))
  {
    NoDupSnoc(h.freeq, f);
    OnlyPagesChange(h, PutPage(h, f));
  }

  lemma NewCacheKeeps(h: Heap, c: CacheId, sz: nat)
    requires Inv(h) && Enabled(h, DoNewCache(c, sz))
    ensures Inv(Next(h, DoNewCache(c, sz)).heap)
  {
    var h' := h.(cache := h.cache[c := NewCache(sz)]);
    forall g | g in h'.slab ensures SlabAt(h', g) { assert SlabAt(h, g); }
    forall d | d in h'.cache ensures CacheOk(h', d, h'.cache[d]) {
      if d != c { assert CacheOk(h, d, h.cache[d]); }
    }
  }

  lemma StepKeeps(h: Heap, op: Op)
    requires Inv(h) && Enabled(h, op) && Next(h, op).Ok?
    ensures Inv(Next(h, op).heap)
  {
    StepDefined(h, op);
    match op
    case DoAlloc(c) => var f, k := AllocEffect(h, c);
    case DoFree(f, k) => FreeEffect(h, f, k);
    case DoWrite(f, k, off, v) => WriteKeeps(h, f, k, off, v);
    case DoTakePage => TakePageKeeps(h);
    case DoPutPage(f) => PutPageKeeps(h, f);
    case DoNewCache(c, sz) => NewCacheKeeps(h, c, sz);
  }

  /** No operation changes the object size of a cache, and only objcache_init makes caches. */
  lemma StepSizes(h: Heap, op: Op, c: CacheId)
    requires Inv(h) && Enabled(h, op) && Next(h, op).Ok?
    ensures var h' := Next(h, op).heap;
            && (c in h.cache ==> c in h'.cache && h'.cache[c].sz == h.cache[c].sz && h'.cache[c].num == h.cache[c].num)
            && (c in h'.cache && c !in h.cache ==> op.DoNewCache? && op.c == c)
            && (op.DoNewCache? && op.c == c ==>
                  && c !in h.cache && c in h'.cache && 0 < op.sz <= PAGE_SIZE
                  && h'.cache[c].sz == (if op.sz < 4 then 4 else op.sz)
                  && h'.cache[c].num == PAGE_SIZE / h'.cache[c].sz)
  {
    StepDefined(h, op);
  }

  /** Before the first cache is made: every frame that is not reserved is free. */
  predicate Boot(h: Heap) {
    PagesOk(h) && h.cache == map[] && h.slab == map[]
  }

  predicate Run(hs: seq<Heap>, ops: seq<Op>) {
    && |hs| == |ops| + 1
    && forall i :: 0 <= i < |ops| ==>
         Enabled(hs[i], ops[i]) && Next(hs[i], ops[i]).Ok? && hs[i + 1] == Next(hs[i], ops[i]).heap
  }

  lemma {:induction false} RunReaches(hs: seq<Heap>, ops: seq<Op>, i: nat)
    requires Run(hs, ops) && Inv(hs[0]) && i < |hs|
    ensures Inv(hs[i])
  {
    if i > 0 {
      RunReaches(hs, ops, i - 1);
      StepKeeps(hs[i - 1], ops[i - 1]);
    }
  }

  /** Every heap that a run from boot arrives at satisfies the invariant. */
  lemma RunsKeepInv(hs: seq<Heap>, ops: seq<Op>)
    requires Run(hs, ops) && Boot(hs[0])
    ensures forall i :: 0 <= i < |hs| ==> Inv(hs[i])
  {
    forall i | 0 <= i < |hs| ensures Inv(hs[i]) { RunReaches(hs, ops, i); }
  }

  // ----- what the invariant means

  /** Objects in use do not overlap, and each lies inside a page that its own cache owns. */
  lemma LiveApart(h: Heap, f: Frame, k: nat, g: Frame, j: nat)
    requires Inv(h) && IsLive(h, f, k) && IsLive(h, g, j)
    ensures h.slab[f].cache in h.cache && h.slab[g].cache in h.cache
    ensures var sz := h.cache[h.slab[f].cache].sz;
            && Base(f) <= Slot(f, sz, k) && Slot(f, sz, k) + sz <= Base(f) + PAGE_SIZE
            && f < |h.page| && h.page[f] == Page(1, SlabPage) && f !in h.freeq
            && FrameOf(Slot(f, sz, k)) == f
    ensures var sz, sz' := h.cache[h.slab[f].cache].sz, h.cache[h.slab[g].cache].sz;
            (f, k) != (g, j) ==>
              Slot(f, sz, k) + sz <= Slot(g, sz', j) || Slot(g, sz', j) + sz' <= Slot(f, sz, k)
  {
    assert SlabAt(h, f) && SlabAt(h, g);
    var o, o' := h.cache[h.slab[f].cache], h.cache[h.slab[g].cache];
    assert CacheOk(h, h.slab[f].cache, o) && CacheOk(h, h.slab[g].cache, o');
    SlotRange(f, o.sz, o.num, k);
    SlotRange(g, o'.sz, o'.num, j);
    if f != g { FramesApart(f, g); }
    else if j < k { SlotOrder(f, o.sz, j, k); }
    else if k < j { SlotOrder(f, o.sz, k, j); }
  }

  /** In use + freed + never used is the number of objects that fit a page; the free list repeats
      nothing; and the lists a slab is on follow from its state. */
  lemma SlabCounts(h: Heap, f: Frame)
    requires Inv(h) && f in h.slab
    ensures h.slab[f].cache in h.cache
    ensures var s, o := h.slab[f], h.cache[h.slab[f].cache];
            && s.bump <= o.num && s.inuse + |s.free| + (o.num - s.bump) == o.num && 0 < s.inuse
            && NoDup(s.free) && s.inuse == |s.live| && (forall k :: k in s.free ==> k !in s.live)
            && (s.inuse == o.num <==> f in o.full)
            && (s.inuse < o.num && o.cur != At(f) <==> f in o.partials && o.cur != At(f))
            && (f in o.full ==> f !in o.partials && o.cur != At(f))
  {
    assert SlabAt(h, f);
    Accounting(h.slab[f]);
  }

  /** No frame is both free and used, the count of free pages is exact, and each is on the list once. */
  lemma PageCounts(h: Heap, f: Frame)
    requires Inv(h) && f < |h.page| && !h.page[f].kind.Reserved?
    ensures f in h.freeq <==> h.page[f].count == 0
    ensures f in h.freeq ==>
              f !in h.slab && exists i :: 0 <= i < |h.freeq| && h.freeq[i] == f &&
                                forall j :: 0 <= j < |h.freeq| && h.freeq[j] == f ==> j == i
    ensures h.nrFree == |h.freeq|
  {
    if f in h.freeq {
      var i :| 0 <= i < |h.freeq| && h.freeq[i] == f;
      assert forall j :: 0 <= j < |h.freeq| && h.freeq[j] == f ==> j == i;
    }
  }

  // ----- the assertions of do_cache_free

  /** The guard at kernel/memchunk.c:313 fires for an object in use exactly when the object
      starts where o_ptr_end points. */
  lemma GuardAt(h: Heap, f: Frame, k: nat)
    requires Inv(h) && IsLive(h, f, k) && CanFree(h, f)
    ensures FreeObj(h, f, k).Panic? <==> Slot(f, h.cache[h.slab[f].cache].sz, k) == h.cache[h.slab[f].cache].ptrEnd
  {
    var c := h.slab[f].cache;
    var o, obj := h.cache[c], Slot(f, h.cache[c].sz, k);
    assert CacheOk(h, c, o) && SlabAt(h, f);
    SlotRange(f, o.sz, o.num, k);
    if o.cur.At? {
      var g := o.cur.frame;
      assert SlabAt(h, g);
      SlotRange(g, o.sz, o.num, h.slab[g].bump);
      if g != f { FramesApart(f, g); }
      else { SlotOrder(f, o.sz, k, h.slab[g].bump); }
    }
  }

  lemma EndArithmetic(f: nat, x: nat, y: nat)
    requires y < x <= PAGE_SIZE && (f * PAGE_SIZE + y - x) % PAGE_SIZE == 0
    ensures y == 0 && x == PAGE_SIZE
  {
    var z := x - y;
    assert (f * PAGE_SIZE - z) % PAGE_SIZE == 0;
    assert (-z) % PAGE_SIZE == 0;
  }

  /** It can only be the first object of its page, in a cache whose objects fill pages exactly. */
  lemma GuardOnlyFirst(h: Heap, f: Frame, k: nat)
    requires Inv(h) && IsLive(h, f, k) && CanFree(h, f) && FreeObj(h, f, k).Panic?
    ensures k == 0 && h.cache[h.slab[f].cache].sz * h.cache[h.slab[f].cache].num == PAGE_SIZE
  {
    GuardAt(h, f, k);
    var c := h.slab[f].cache;
    var o := h.cache[c];
    assert CacheOk(h, c, o) && SlabAt(h, f);
    FirstOfPage(o, f, k);
  }

  lemma FirstOfPage(o: Cache, f: Frame, k: nat)
    requires 4 <= o.sz <= PAGE_SIZE && o.num == PAGE_SIZE / o.sz && EndOk(o) && k < o.num
             && Slot(f, o.sz, k) == o.ptrEnd
    ensures k == 0 && o.sz * o.num == PAGE_SIZE
  {
    SlotRange(f, o.sz, o.num, k);
    SlotOrder(f, o.sz, k, o.num);
    assert o.sz * o.num == o.num * o.sz;
    EndArithmetic(f, o.sz * o.num, k * o.sz);
  }

  /** The other assertions hold: the slab is in use, not over-full, and, when its free list is
      empty, either current or full (lines 311, 312 and 324). */
  lemma FreeAsserts(h: Heap, f: Frame, k: nat)
    requires Inv(h) && IsLive(h, f, k)
    ensures h.slab[f].cache in h.cache
    ensures var s, o := h.slab[f], h.cache[h.slab[f].cache];
            s.inuse != 0 && s.inuse <= o.num && (s.freeList == NULL && o.cur != At(f) ==> s.inuse == o.num)
    ensures h.page[f].kind == SlabPage && h.page[f].count == 1
  {
    assert SlabAt(h, f);
    SlabCounts(h, f);
    var o := h.cache[h.slab[f].cache];
    FreeListFacts(h.word, h.slab[f].freeList, f, o.sz, h.slab[f].free);
  }
}
