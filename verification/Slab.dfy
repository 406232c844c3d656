/** kernel/memchunk.c, kernel/buddy.c and kernel/kmalloc.c as code that updates
    caches, slabs, free lists and page counts in place. Each method does what the
    function of the same name in SlabModel says. */
module Slab {
  import opened Common
  import Digits
  import opened SlabModel
  import opened SlabInv
  import opened SlabRuns

  datatype Made = Done | NoCache | BugOn

  class Memory {
    var page: seq<Page>
    var freeq: seq<Frame>
    var nrFree: int
    var cache: map<CacheId, Cache>
    var slab: map<Frame, SlabModel.Slab>
    var word: map<Addr, nat>

    ghost function Abs(): Heap
      reads this
    {
      Heap(page, freeq, nrFree, cache, slab, word)
    }

    /** alloc_pages: the first free page, or nothing. */
    method AllocPage() returns (ok: bool, f: Frame)
      requires freeq != [] ==> freeq[0] < |page|
      modifies this`freeq, this`nrFree, this`page
      ensures ok <==> old(freeq) != []
      ensures ok ==> old(freeq) == [f] + freeq && nrFree == old(nrFree) - 1 && Abs() == TakePage(old(Abs()))
      ensures !ok ==> Abs() == old(Abs())
    {
      if freeq == [] {
        return false, 0;
      }
      f := freeq[0];
      freeq := freeq[1..];
      nrFree := nrFree - 1;
      page := page[f := page[f].(count := page[f].count + 1)];
      ok := true;
    }

    /** free_pages. */
    method FreePage(f: Frame)
      requires f < |page| && page[f].count > 0
      modifies this`freeq, this`nrFree, this`page
      ensures freeq == old(freeq) + [f] && nrFree == old(nrFree) + 1 && Abs() == PutPage(old(Abs()), f)
      ensures page == old(page)[f := Page(old(page)[f].count - 1, PageType.Free)]
    {
      page := page[f := page[f].(kind := PageType.Free)];
      page := page[f := page[f].(count := page[f].count - 1)];
      freeq := freeq + [f];
      nrFree := nrFree + 1;
    }

    method AllocFromPartial(c: CacheId, f: Frame) returns (ret: Addr)
      requires c in cache && f in slab && slab[f].free != [] && slab[f].freeList in word
      modifies this`slab, this`cache, this`word
      ensures Ok(Abs(), ret) == SlabModel.AllocFromPartial(old(Abs()), c, f)
    {
      ret := slab[f].freeList;
      slab := slab[f := slab[f].(freeList := word[ret], live := slab[f].live + {slab[f].free[0]},
                                 free := slab[f].free[1..])];
      slab := slab[f := slab[f].(inuse := slab[f].inuse + 1)];
      if slab[f].freeList == NULL && cache[c].cur != At(f) {
        cache := cache[c := cache[c].(partials := Remove(cache[c].partials, f),
                                      full := [f] + Remove(cache[c].full, f))];
      } else {
        assert cache == cache[c := cache[c]];
      }
      word := word[ret := POISON];
    }

    method AllocFast(c: CacheId) returns (ret: Addr)
      requires c in cache && cache[c].cur.At? && cache[c].cur.frame in slab
      modifies this`slab, this`cache, this`word
      ensures Ok(Abs(), ret) == SlabModel.AllocFast(old(Abs()), c)
    {
      var f := cache[c].cur.frame;
      ghost var o := cache[c];
      ret := cache[c].ptr;
      cache := cache[c := cache[c].(ptr := cache[c].ptr + cache[c].sz)];
      slab := slab[f := slab[f].(inuse := slab[f].inuse + 1, live := slab[f].live + {slab[f].bump},
                                 bump := slab[f].bump + 1)];
      if slab[f].inuse == cache[c].num && slab[f].freeList == NULL {
        cache := cache[c := cache[c].(partials := Remove(cache[c].partials, f),
                                      full := [f] + Remove(cache[c].full, f))];
        cache := cache[c := cache[c].(cur := None)];
      }
      assert cache[c] == BumpedCache(o, f, old(slab)[f]) && slab[f] == BumpedSlab(old(slab)[f]);
      word := word[ret := POISON];
    }

    method AllocSlow(c: CacheId) returns (r: Outcome)
      requires c in cache && (freeq != [] ==> freeq[0] < |page|)
      modifies this
      ensures r == SlabModel.AllocSlow(old(Abs()), c)
      ensures Abs() == if r.Ok? then r.heap else old(Abs())
    {
      var ok, f := AllocPage();
      if !ok {
        return Panic;  // BUG_ON(NULL == pptr)
      }
      page := page[f := page[f].(kind := SlabPage)];
      var o := cache[c];
      cache := cache[c := o.(cur := At(f), ptr := Base(f), ptrEnd := Base(f) + o.sz * o.num)];
      slab := slab[f := SlabModel.Slab(c, NULL, 0, {}, [], 0)];
      var ret := AllocFast(c);
      r := Ok(Heap(page, freeq, nrFree, cache, slab, word), ret);
    }

    /** do_alloc, under memsem. */
    method Alloc(c: CacheId) returns (r: Outcome)
      requires Inv(Abs()) && c in cache
      modifies this
      ensures CanAlloc(old(Abs()), c) && r == SlabModel.Alloc(old(Abs()), c)
      ensures Abs() == (if r.Ok? then r.heap else old(Abs())) && Inv(Abs())
      ensures r.Ok? ==> exists f: Frame, k: nat ::
                r.addr == Slot(f, old(cache)[c].sz, k) && Adds(old(Abs()), Abs(), f, k, c)
    {
      AllocPaths(Abs(), c);
      if SlabModel.Alloc(Abs(), c).Ok? { var f, k := AllocEffect(Abs(), c); }
      var o := cache[c];
      if o.partials != [] && slab[o.partials[0]].freeList != NULL {
        FirstWord(Abs(), o.partials[0]);
        var ret := AllocFromPartial(c, o.partials[0]);
        r := Ok(Heap(page, freeq, nrFree, cache, slab, word), ret);
      } else if o.ptr + o.sz <= o.ptrEnd {
        var ret := AllocFast(c);
        r := Ok(Heap(page, freeq, nrFree, cache, slab, word), ret);
      } else {
        r := AllocSlow(c);
      }
    }

    /** objcache_init. `c` is the name of the new cache, `self` whether there is memory for its record. */
    method ObjcacheInit(c: CacheId, sz: nat, self: bool) returns (r: Made)
      requires Inv(Abs()) && c !in cache
      modifies this`cache
      ensures Inv(Abs())
      ensures r.BugOn? <==> sz > PAGE_SIZE
      ensures r.NoCache? <==> sz == 0 || (!self && sz <= PAGE_SIZE)
      ensures !r.Done? ==> cache == old(cache)
      ensures r.Done? ==> c in cache && cache == old(cache)[c := cache[c]]
      ensures r.Done? ==> cache[c].sz == (if sz < 4 then 4 else sz) && cache[c].num == PAGE_SIZE / cache[c].sz
    {
      if sz > PAGE_SIZE {
        return BugOn;
      }
      if sz == 0 || !self {
        return NoCache;
      }
      NewCacheKeeps(Abs(), c, sz);
      var objSz := if sz < 4 then 4 else sz;
      cache := cache[c := Cache(objSz, PAGE_SIZE / objSz, NULL, NULL, None, [], [])];
      r := Done;
    }

    /** objcache_free: `k`, the slot the object is in, serves only the bookkeeping. */
    method Free(obj: Addr, k: nat) returns (ok: bool)
      requires Inv(Abs()) && obj >= PAGE_OFFSET && IsLive(Abs(), FrameOf(obj), k)
      requires slab[FrameOf(obj)].cache in cache && obj == Slot(FrameOf(obj), cache[slab[FrameOf(obj)].cache].sz, k)
      modifies this
      ensures ok <==> obj != old(cache[slab[FrameOf(obj)].cache].ptrEnd)
      ensures Inv(Abs()) && if ok then Takes(old(Abs()), Abs(), FrameOf(obj), k) else Abs() == old(Abs())
    {
      var f := FrameOf(obj);
      var c := slab[f].cache;
      StepDefined(Abs(), DoFree(f, k));
      GuardAt(Abs(), f, k);
      FreeAsserts(Abs(), f, k);
      assert slab[f].inuse != 0 && slab[f].inuse <= cache[c].num;
      if cache[c].ptr <= obj <= cache[c].ptrEnd {
        return false;  // BUG_ON at line 313
      }
      FreeEffect(Abs(), f, k);
      Push(obj, c, f, k);
      if slab[f].inuse == 0 {
        Drop(c, f);
      }
      ok := true;
    }

    /** The object goes to the front of its slab's free list. */
    method Push(obj: Addr, c: CacheId, f: Frame, k: nat)
      requires c in cache && f in slab && slab[f].inuse > 0
      requires slab[f].freeList == NULL && cache[c].cur != At(f) ==> slab[f].inuse == cache[c].num
      modifies this`cache, this`slab, this`word
      ensures Abs() == PushFree(old(Abs()), c, f, k, obj)
    {
      if slab[f].freeList == NULL {
        assert At(f) == cache[c].cur || slab[f].inuse == cache[c].num;  // BUG_ON at line 324
        cache := cache[c := cache[c].(partials := [f] + Remove(cache[c].partials, f),
                                      full := Remove(cache[c].full, f))];
      } else {
        assert cache == cache[c := cache[c]];
      }
      word := word[obj := slab[f].freeList];
      slab := slab[f := slab[f].(freeList := obj, inuse := slab[f].inuse - 1, live := slab[f].live - {k},
                                 free := [k] + slab[f].free)];
    }

    /** An unused slab leaves its cache and its page goes back. */
    method Drop(c: CacheId, f: Frame)
      requires c in cache && f in slab && f < |page| && page[f].count > 0
      modifies this
      ensures Abs() == DropSlab(old(Abs()), c, f)
    {
      ghost var o := cache[c];
      cache := cache[c := cache[c].(partials := Remove(cache[c].partials, f), full := Remove(cache[c].full, f))];
      if cache[c].cur == At(f) {
        cache := cache[c := cache[c].(ptr := NULL, ptrEnd := NULL, cur := None)];
      }
      assert cache[c] == DroppedCache(o, f);
      slab := slab - {f};
      FreePage(f);
    }
  }

  lemma FirstWord(h: Heap, f: Frame)
    requires Inv(h) && f in h.slab && h.slab[f].freeList != NULL
    ensures h.slab[f].freeList in h.word
  {
    assert SlabAt(h, f);
    FreeListFacts(h.word, h.slab[f].freeList, f, h.cache[h.slab[f].cache].sz, h.slab[f].free);
  }

  // ----- kernel/kmalloc.c

  const NR_CACHE: nat := 11

  /** Size of the i-th general purpose cache. */
  function ClassSize(i: nat): nat { 4 * Pow2(i) }

  /** The search loop of kmalloc: the least size class that is big enough. */
  method SizeClass(n: nat) returns (i: nat)
    ensures i <= NR_CACHE
    ensures i < NR_CACHE ==> n <= ClassSize(i)
    ensures forall j :: 0 <= j < i ==> ClassSize(j) < n
    ensures i == NR_CACHE <==> n > PAGE_SIZE
  {
    var sz := 4;
    i := 0;
    LargestClass();
    while i < NR_CACHE
      invariant 0 <= i <= NR_CACHE && sz == ClassSize(i)
      invariant forall j :: 0 <= j < i ==> ClassSize(j) < n
    {
      if n <= sz {
        ClassMono(i, NR_CACHE - 1);
        return;
      }
      i := i + 1;
      sz := sz * 2;
    }
  }

  lemma LargestClass()
    ensures ClassSize(NR_CACHE - 1) == PAGE_SIZE
  {
    assert Pow2(10) == 2 * Pow2(9) == 4 * Pow2(8) == 8 * Pow2(7);
    assert Pow2(7) == 2 * Pow2(6) == 4 * Pow2(5) == 8 * Pow2(4);
    assert Pow2(4) == 2 * Pow2(3) == 4 * Pow2(2) == 8 * Pow2(1);
  }

  lemma {:induction false} ClassMono(i: nat, j: nat)
    requires i <= j
    ensures ClassSize(i) <= ClassSize(j)
    decreases j
  {
    if i < j { ClassMono(i, j - 1); }
  }

  lemma ClassValues(i: nat)
    requires i < NR_CACHE
    ensures ClassSize(i) in {4, 8, 16, 32, 64, 128, 256, 512, 1024, 2048, 4096}
  {
    assert ClassSize(0) == 4 && ClassSize(1) == 8 && ClassSize(2) == 16;
    assert ClassSize(3) == 2 * ClassSize(2) && ClassSize(4) == 2 * ClassSize(3) && ClassSize(5) == 2 * ClassSize(4);
    assert ClassSize(6) == 2 * ClassSize(5) && ClassSize(7) == 2 * ClassSize(6) && ClassSize(8) == 2 * ClassSize(7);
    assert ClassSize(9) == 2 * ClassSize(8) && ClassSize(10) == 2 * ClassSize(9);
  }

  lemma SlotAligned(f: Frame, sz: nat, k: nat)
    requires sz in {4, 8, 16, 32, 64, 128, 256, 512, 1024, 2048, 4096}
    ensures Slot(f, sz, k) % sz == 0 && sz * (PAGE_SIZE / sz) == PAGE_SIZE
  {
    PageDivides(sz);
    var m := PAGE_SIZE / sz;
    Factor(FIRST_FRAME + f, sz, m, k);
    Digits.DivIs(Slot(f, sz, k), sz, (FIRST_FRAME + f) * m + k, 0);
  }

  const FIRST_FRAME: nat := PAGE_OFFSET / PAGE_SIZE

  lemma PageDivides(sz: nat)
    requires sz in {4, 8, 16, 32, 64, 128, 256, 512, 1024, 2048, 4096}
    ensures sz * (PAGE_SIZE / sz) == PAGE_SIZE
  {
  }

  lemma Factor(f: nat, sz: nat, m: nat, k: nat)
    ensures f * (sz * m) + k * sz == sz * (f * m + k)
  {
    assert f * (sz * m) == sz * (f * m);
  }

  /** Every object of a size class is aligned to the class, and a page holds a whole number of them. */
  lemma ClassAligned(i: nat, f: Frame, k: nat)
    requires i < NR_CACHE
    ensures Slot(f, ClassSize(i), k) % ClassSize(i) == 0
    ensures ClassSize(i) * (PAGE_SIZE / ClassSize(i)) == PAGE_SIZE
  {
    ClassValues(i);
    SlotAligned(f, ClassSize(i), k);
  }

  /** The general purpose caches are there, one for each class. */
  predicate General(cache: map<CacheId, Cache>, general: seq<CacheId>) {
    && |general| == NR_CACHE
    && forall i :: 0 <= i < NR_CACHE ==> general[i] in cache && cache[general[i]].sz == ClassSize(i)
  }

  /** _kmalloc_init: what kmalloc relies on. */
  method KmallocInit(m: Memory, general: seq<CacheId>)
    requires Inv(m.Abs()) && |general| == NR_CACHE
    requires NoDup(general) && forall i :: 0 <= i < NR_CACHE ==> general[i] !in m.cache
    modifies m`cache
    ensures Inv(m.Abs()) && General(m.cache, general)
    ensures forall c :: c in old(m.cache) ==> c in m.cache && m.cache[c] == old(m.cache)[c]
  {
    var sz, i := 4, 0;
    LargestClass();
    while i < NR_CACHE
      invariant 0 <= i <= NR_CACHE && sz == ClassSize(i) && Inv(m.Abs())
      invariant forall k :: i <= k < NR_CACHE ==> general[k] !in m.cache
      invariant forall k :: 0 <= k < i ==> general[k] in m.cache && m.cache[general[k]].sz == ClassSize(k)
      invariant forall c :: c in old(m.cache) ==> c in m.cache && m.cache[c] == old(m.cache)[c]
    {
      ClassMono(i, NR_CACHE - 1);
      var r := m.ObjcacheInit(general[i], sz, true);
      i := i + 1;
      sz := sz * 2;
    }
  }

  /** kmalloc: a block of the least class i that fits, aligned to its size; nothing beyond a page. The
      allocator gives up only for want of a free page and of a free object of that class. */
  method Kmalloc(m: Memory, general: seq<CacheId>, n: nat) returns (fits: bool, ghost i: nat, r: Outcome)
    requires Inv(m.Abs()) && General(m.cache, general)
    modifies m
    ensures Inv(m.Abs()) && General(m.cache, general)
    ensures fits <==> n <= PAGE_SIZE
    ensures !fits ==> m.Abs() == old(m.Abs())
    ensures fits ==> i < NR_CACHE && n <= ClassSize(i) && (i > 0 ==> ClassSize(i - 1) < n)
    ensures fits ==> (r.Panic? <==> old(m.freeq) == [] && AllFull(old(m.Abs()), general[i]))
    ensures fits && r.Ok? ==> exists f: Frame, k: nat ::
              && r.addr == Slot(f, ClassSize(i), k) && r.addr % ClassSize(i) == 0
              && Adds(old(m.Abs()), m.Abs(), f, k, general[i])
  {
    var c := SizeClass(n);
    i := c;
    if c == NR_CACHE {
      return false, c, Panic;  // kmalloc returns NULL
    }
    fits := true;
    StepDefined(m.Abs(), DoAlloc(general[c]));
    AllocFails(m.Abs(), general[c]);
    r := m.Alloc(general[c]);
    if r.Ok? {
      forall x | 0 <= x < NR_CACHE ensures general[x] in m.cache && m.cache[general[x]].sz == ClassSize(x) {
        StepSizes(old(m.Abs()), DoAlloc(general[c]), general[x]);
      }
      ghost var f: Frame, k: nat :| r.addr == Slot(f, old(m.cache)[general[i]].sz, k)
          && Adds(old(m.Abs()), m.Abs(), f, k, general[i]);
      ClassAligned(i, f, k);
      assert i > 0 ==> ClassSize(i - 1) < n;
    }
  }
}
