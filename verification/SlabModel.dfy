/** The slab allocator of kernel/memchunk.c on top of the page allocator of
    kernel/buddy.c: caches, slabs with their intrusive free lists, page frames. */
module SlabModel {
  import opened Common

  const POISON: nat := 0xa5a5_a5a5

  type Frame = nat
  type Addr = nat
  type CacheId = nat

  /** page_address */
  function Base(f: Frame): Addr { PAGE_OFFSET + f * PAGE_SIZE }

  /** virt_to_page */
  function FrameOf(a: Addr): int { (a - PAGE_OFFSET) / PAGE_SIZE }

  /** Address of the k-th object of a slab. */
  function Slot(f: Frame, sz: nat, k: nat): Addr { Base(f) + k * sz }

  datatype Maybe = None | At(frame: Frame)

  datatype PageType = Free | Reserved | SlabPage | Other

  datatype Page = Page(count: nat, kind: PageType)

  /** struct _objcache */
  datatype Cache = Cache(sz: nat, num: nat, ptr: Addr, ptrEnd: Addr, cur: Maybe, partials: seq<Frame>, full: seq<Frame>)

  /** struct slab_hdr, and three facts the C code does not store: which slots are
      in use, which are on the free list (first one first), and how many the bump
      pointer has passed. */
  datatype Slab = Slab(cache: CacheId, freeList: Addr, inuse: nat, live: set<nat>, free: seq<nat>, bump: nat)

  datatype Heap = Heap(
    page: seq<Page>,
    freeq: seq<Frame>,           // free_list[1] of kernel/buddy.c
    nrFree: int,                 // nr_freepages
    cache: map<CacheId, Cache>,
    slab: map<Frame, Slab>,
    word: map<Addr, nat>)        // the first word of objects, where the free lists run

  datatype Outcome = Ok(heap: Heap, addr: Addr) | Panic

  // ----- kernel/buddy.c

  function TakePage(h: Heap): Heap
    requires h.freeq != [] && h.freeq[0] < |h.page|
  {
    var f := h.freeq[0];
    h.(freeq := h.freeq[1..], nrFree := h.nrFree - 1, page := h.page[f := h.page[f].(count := h.page[f].count + 1)])
  }

  function PutPage(h: Heap, f: Frame): Heap
    requires f < |h.page| && h.page[f].count > 0
  {
    h.(freeq := h.freeq + [f], nrFree := h.nrFree + 1,
       page := h.page[f := Page(h.page[f].count - 1, Free)])
  }

  // ----- kernel/memchunk.c

  /** A heap in which one slab, its cache record and one word have changed. */
  function Updated(h: Heap, c: CacheId, o': Cache, f: Frame, s': Slab, a: Addr, v: nat): Heap {
    h.(slab := h.slab[f := s'], cache := h.cache[c := o'], word := h.word[a := v])
  }

  /** A slab after its first free slot has been taken; `next` is the rest of its free list. */
  function PoppedSlab(s: Slab, next: Addr): Slab
    requires s.free != []
  {
    s.(freeList := next, inuse := s.inuse + 1, live := s.live + {s.free[0]}, free := s.free[1..])
  }

  function PoppedCache(o: Cache, f: Frame, next: Addr): Cache {
    if next == NULL && o.cur != At(f)
    then o.(partials := Remove(o.partials, f), full := [f] + Remove(o.full, f)) else o
  }

  /** alloc_from_partial. */
  function AllocFromPartial(h: Heap, c: CacheId, f: Frame): Outcome
    requires c in h.cache && f in h.slab && h.slab[f].free != []
  {
    var s := h.slab[f];
    var next := if s.freeList in h.word then h.word[s.freeList] else NULL;
    Ok(Updated(h, c, PoppedCache(h.cache[c], f, next), f, PoppedSlab(s, next), s.freeList, POISON), s.freeList)
  }

  function BumpedSlab(s: Slab): Slab { s.(inuse := s.inuse + 1, live := s.live + {s.bump}, bump := s.bump + 1) }

  function BumpedCache(o: Cache, f: Frame, s: Slab): Cache {
    var o1 := o.(ptr := o.ptr + o.sz);
    if s.inuse + 1 == o.num && s.freeList == NULL
    then o1.(partials := Remove(o.partials, f), full := [f] + Remove(o.full, f), cur := None) else o1
  }

  /** alloc_fast: the object at the bump pointer. */
  function AllocFast(h: Heap, c: CacheId): Outcome
    requires c in h.cache && h.cache[c].cur.At? && h.cache[c].cur.frame in h.slab
  {
    var o := h.cache[c];
    var f := o.cur.frame;
    Ok(Updated(h, c, BumpedCache(o, f, h.slab[f]), f, BumpedSlab(h.slab[f]), o.ptr, POISON), o.ptr)
  }

  /** memchunk_get and the set-up of the new current slab. */
  function NewSlab(h: Heap, c: CacheId): Heap
    requires c in h.cache && h.freeq != [] && h.freeq[0] < |h.page|
  {
    var f, o, h1 := h.freeq[0], h.cache[c], TakePage(h);
    h1.(page := h1.page[f := h1.page[f].(kind := SlabPage)],
        slab := h1.slab[f := Slab(c, NULL, 0, {}, [], 0)],
        cache := h1.cache[c := o.(cur := At(f), ptr := Base(f), ptrEnd := Base(f) + o.sz * o.num)])
  }

  function AllocSlow(h: Heap, c: CacheId): Outcome
    requires c in h.cache && (h.freeq != [] ==> h.freeq[0] < |h.page|)
  {
    if h.freeq == [] then Panic else AllocFast(NewSlab(h, c), c)
  }

  /** The pointers that do_alloc follows lead somewhere. */
  predicate CanAlloc(h: Heap, c: CacheId) {
    && c in h.cache && (h.freeq != [] ==> h.freeq[0] < |h.page|)
    && var o := h.cache[c];
    && (o.partials != [] ==> o.partials[0] in h.slab)
    && (o.partials != [] && h.slab[o.partials[0]].freeList != NULL ==> h.slab[o.partials[0]].free != [])
    && (o.ptr + o.sz <= o.ptrEnd ==> o.cur.At? && o.cur.frame in h.slab)
  }

  /** do_alloc. */
  function Alloc(h: Heap, c: CacheId): Outcome
    requires CanAlloc(h, c)
  {
    var o := h.cache[c];
    if o.partials != [] && h.slab[o.partials[0]].freeList != NULL then AllocFromPartial(h, c, o.partials[0])
    else if o.ptr + o.sz <= o.ptrEnd then AllocFast(h, c)
    else AllocSlow(h, c)
  }

  /** A slab after slot k, at address obj, has been put at the front of its free list. */
  function PushedSlab(s: Slab, k: nat, obj: Addr): Slab
    requires s.inuse > 0
  {
    s.(freeList := obj, inuse := s.inuse - 1, live := s.live - {k}, free := [k] + s.free)
  }

  function PushedCache(o: Cache, f: Frame, s: Slab): Cache {
    if s.freeList == NULL
    then o.(partials := [f] + Remove(o.partials, f), full := Remove(o.full, f)) else o
  }

  function PushFree(h: Heap, c: CacheId, f: Frame, k: nat, obj: Addr): Heap
    requires c in h.cache && f in h.slab && h.slab[f].inuse > 0
  {
    var s := h.slab[f];
    Updated(h, c, PushedCache(h.cache[c], f, s), f, PushedSlab(s, k, obj), obj, s.freeList)
  }

  function DroppedCache(o: Cache, f: Frame): Cache {
    var o1 := o.(partials := Remove(o.partials, f), full := Remove(o.full, f));
    if o.cur == At(f) then o1.(ptr := NULL, ptrEnd := NULL, cur := None) else o1
  }

  /** Give a slab without objects back to the page allocator. */
  function DropSlab(h: Heap, c: CacheId, f: Frame): Heap
    requires c in h.cache && f in h.slab && f < |h.page| && h.page[f].count > 0
  {
    PutPage(h.(cache := h.cache[c := DroppedCache(h.cache[c], f)], slab := h.slab - {f}), f)
  }

  predicate CanFree(h: Heap, f: Frame) {
    f in h.slab && h.slab[f].cache in h.cache && h.slab[f].inuse > 0 && f < |h.page| && h.page[f].count > 0
  }

  /** do_cache_free of the object at slot k of slab f, guard of line 313 included. */
  function FreeObj(h: Heap, f: Frame, k: nat): Outcome
    requires CanFree(h, f)
  {
    var c := h.slab[f].cache;
    var o := h.cache[c];
    var obj := Slot(f, o.sz, k);
    if o.ptr <= obj <= o.ptrEnd then Panic else
    var h1 := PushFree(h, c, f, k, obj);
    Ok(if h1.slab[f].inuse == 0 then DropSlab(h1, c, f) else h1, obj)
  }

  /** objcache_init: a cache without slabs, for objects of at least a pointer's size. */
  function NewCache(sz: nat): Cache
    requires 0 < sz <= PAGE_SIZE
  {
    var sz' := if sz < 4 then 4 else sz;
    Cache(sz', PAGE_SIZE / sz', NULL, NULL, None, [], [])
  }
}
