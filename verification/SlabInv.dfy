/** What every allocation and every free keeps. */
module SlabInv {
  import opened Common
  import opened SlabModel

  /** The free list of a slab runs through the first words of exactly these slots, in this order. */
  predicate Linked(word: map<Addr, nat>, p: Addr, f: Frame, sz: nat, free: seq<nat>)
    decreases |free|
  {
    if free == [] then p == NULL
    else p == Slot(f, sz, free[0]) && p in word && Linked(word, word[p], f, sz, free[1..])
  }

  /** Every slot below the bump pointer is in use or on the free list, not both; none above it is either. */
  predicate Slots(s: Slab) {
    && NoDup(s.free) && s.inuse == |s.live|
    && (forall k :: k in s.live ==> k < s.bump && k !in s.free)
    && (forall k :: k in s.free ==> k < s.bump)
    && (forall k: nat :: k < s.bump ==> k in s.live || k in s.free)
  }

  predicate Bumped(o: Cache, f: Frame, s: Slab) {
    if o.cur == At(f) then o.ptr == Slot(f, o.sz, s.bump) && o.ptrEnd == Slot(f, o.sz, o.num) && s.bump < o.num
    else s.bump == o.num
  }

  /** The list that holds a slab is determined by its free list; the current slab
      may be on no list, and may stay on the partial list with an empty free list. */
  predicate Listed(o: Cache, f: Frame, s: Slab) {
    if o.cur == At(f) then f !in o.full && (s.free != [] ==> f in o.partials)
    else if s.free == [] then f in o.full && f !in o.partials
    else f in o.partials && f !in o.full
  }

  predicate SlabOk(o: Cache, word: map<Addr, nat>, f: Frame, s: Slab) {
    Slots(s) && Bumped(o, f, s) && Listed(o, f, s) && Linked(word, s.freeList, f, o.sz, s.free)
  }

  predicate CacheOk(h: Heap, c: CacheId, o: Cache) {
    && 4 <= o.sz <= PAGE_SIZE && o.num == PAGE_SIZE / o.sz
    && NoDup(o.partials) && NoDup(o.full)
    && (forall f :: f in o.partials ==> f in h.slab && h.slab[f].cache == c)
    && (forall f :: f in o.full ==> f in h.slab && h.slab[f].cache == c)
    && (if o.cur.At? then o.cur.frame in h.slab && h.slab[o.cur.frame].cache == c else o.ptr == o.ptrEnd)
    && EndOk(o)
  }

  /** o_ptr_end is null or the end of the last object that fits a page, perhaps of a page long given back. */
  predicate EndOk(o: Cache) {
    o.ptrEnd != NULL ==>
      o.ptrEnd >= PAGE_OFFSET + o.sz * o.num && (o.ptrEnd - PAGE_OFFSET - o.sz * o.num) % PAGE_SIZE == 0
  }

  /** A frame that is not reserved is on the free list, once, exactly when its count is 0. */
  predicate PagesOk(h: Heap) {
    && NoDup(h.freeq) && h.nrFree == |h.freeq|
    && (forall f :: f in h.freeq ==> f < |h.page| && h.page[f].count == 0)
    && (forall f :: 0 <= f < |h.page| && h.page[f].count == 0 && !h.page[f].kind.Reserved? ==> f in h.freeq)
    && (forall f :: f in h.freeq ==> !h.page[f].kind.Reserved?)
    && (forall f :: f in h.slab ==> f < |h.page| && h.page[f] == Page(1, SlabPage))
  }

  predicate CachesOk(h: Heap) {
    forall c {:trigger CacheOk(h, c, h.cache[c])} :: c in h.cache ==> CacheOk(h, c, h.cache[c])
  }

  predicate SlabAt(h: Heap, f: Frame)
    requires f in h.slab
  {
    h.slab[f].cache in h.cache && SlabOk(h.cache[h.slab[f].cache], h.word, f, h.slab[f])
  }

  predicate SlabsOk(h: Heap) { forall f {:trigger SlabAt(h, f)} :: f in h.slab ==> SlabAt(h, f) }

  /** No slab is kept without an object in use, but one that is just being set up or dropped. */
  predicate Used(h: Heap, x: Maybe) { forall f :: f in h.slab && h.slab[f].inuse == 0 ==> x == At(f) }

  predicate Mid(h: Heap, x: Maybe) { PagesOk(h) && CachesOk(h) && SlabsOk(h) && Used(h, x) }

  predicate Inv(h: Heap) { Mid(h, None) }

  // ----- addresses

  lemma SlotRange(f: Frame, sz: nat, num: nat, k: nat)
    requires 4 <= sz <= PAGE_SIZE && num == PAGE_SIZE / sz && k < num
    ensures Base(f) <= Slot(f, sz, k) && Slot(f, sz, k) + sz <= Slot(f, sz, num) <= Base(f) + PAGE_SIZE
    ensures num >= 1
  {
    assert k * sz + sz == (k + 1) * sz;
    MulMono(k + 1, num, sz);
    assert num * sz <= PAGE_SIZE;
  }

  lemma MulMono(a: nat, b: nat, m: nat)
    requires a <= b
    ensures a * m <= b * m
  {
  }

  lemma SlotOrder(f: Frame, sz: nat, j: nat, k: nat)
    requires j < k
    ensures Slot(f, sz, j) + sz <= Slot(f, sz, k)
  {
    MulMono(j + 1, k, sz);
    assert (j + 1) * sz == j * sz + sz;
  }

  lemma FramesApart(f: Frame, g: Frame)
    requires f != g
    ensures Base(f) + PAGE_SIZE <= Base(g) || Base(g) + PAGE_SIZE <= Base(f)
  {
    if f < g { MulMono(f + 1, g, PAGE_SIZE); } else { MulMono(g + 1, f, PAGE_SIZE); }
  }

  predicate InPage(f: Frame, a: Addr) { Base(f) <= a < Base(f) + PAGE_SIZE }

  // ----- framing

  /** A free list survives writes that miss its slots. */
  lemma {:induction false} LinkedFrame(word: map<Addr, nat>, word': map<Addr, nat>, p: Addr, f: Frame, sz: nat,
                                       free: seq<nat>)
    requires Linked(word, p, f, sz, free)
    requires forall k :: k in free && Slot(f, sz, k) in word ==>
               Slot(f, sz, k) in word' && word'[Slot(f, sz, k)] == word[Slot(f, sz, k)]
    ensures Linked(word', p, f, sz, free)
    decreases |free|
  {
    if free != [] { assert free[0] in free; LinkedFrame(word, word', word[p], f, sz, free[1..]); }
  }

  lemma OtherPage(word: map<Addr, nat>, a: Addr, v: nat, p: Addr, f: Frame, o: Cache, s: Slab)
    requires 4 <= o.sz <= PAGE_SIZE && o.num == PAGE_SIZE / o.sz && s.bump <= o.num && Slots(s)
    requires Linked(word, p, f, o.sz, s.free) && !InPage(f, a)
    ensures Linked(word[a := v], p, f, o.sz, s.free)
  {
    forall k | k in s.free ensures Slot(f, o.sz, k) != a { SlotRange(f, o.sz, o.num, k); }
    LinkedFrame(word, word[a := v], p, f, o.sz, s.free);
  }

  /** A slab that an operation on slab f does not touch stays as it was. */
  lemma OtherSlab(o: Cache, o': Cache, word: map<Addr, nat>, a: Addr, v: nat, f: Frame, g: Frame, s: Slab)
    requires f != g && SlabOk(o, word, g, s) && InPage(f, a)
    requires 4 <= o.sz <= PAGE_SIZE && o.num == PAGE_SIZE / o.sz && o'.sz == o.sz && o'.num == o.num
    requires o'.cur == At(g) <==> o.cur == At(g)
    requires o.cur == At(g) ==> o'.ptr == o.ptr && o'.ptrEnd == o.ptrEnd
    requires (g in o'.partials <==> g in o.partials) && (g in o'.full <==> g in o.full)
    ensures SlabOk(o', word[a := v], g, s)
  {
    FramesApart(f, g);
    OtherPage(word, a, v, s.freeList, g, o, s);
  }

  // ----- lists

  /** Moving slab f to the front of the full list, or of the partial list, moves no other slab. */
  lemma Moved(o: Cache, f: Frame)
    requires NoDup(o.partials) && NoDup(o.full)
    ensures NoDup(Remove(o.partials, f)) && NoDup(Remove(o.full, f))
    ensures NoDup([f] + Remove(o.full, f)) && NoDup([f] + Remove(o.partials, f))
    ensures forall g :: g in Remove(o.partials, f) <==> g in o.partials && g != f
    ensures forall g :: g in Remove(o.full, f) <==> g in o.full && g != f
    ensures forall g :: g in [f] + Remove(o.full, f) <==> g == f || g in o.full
    ensures forall g :: g in [f] + Remove(o.partials, f) <==> g == f || g in o.partials
  {
    RemoveFacts(o.partials, f);
    RemoveFacts(o.full, f);
    NoDupCons(f, Remove(o.full, f));
    NoDupCons(f, Remove(o.partials, f));
  }

  // ----- one slab changes

  /** The new cache record differs from the old one only in where slab f is and,
      if f is the current slab, in the bump pointer. */
  ghost predicate SameButFor(o: Cache, o': Cache, f: Frame) {
    && o'.sz == o.sz && o'.num == o.num && NoDup(o'.partials) && NoDup(o'.full)
    && (forall g :: g != f ==> (g in o'.partials <==> g in o.partials) && (g in o'.full <==> g in o.full))
    && (o.cur != At(f) ==> o'.cur == o.cur && o'.ptr == o.ptr && o'.ptrEnd == o.ptrEnd)
    && (o.cur == At(f) ==> o'.cur == o.cur || (o'.cur.None? && o'.ptr == o'.ptrEnd))
    && o'.ptrEnd == o.ptrEnd
  }

  lemma UpdateCaches(h: Heap, c: CacheId, o': Cache, f: Frame, s': Slab, a: Addr, v: nat)
    requires CachesOk(h) && c in h.cache && f in h.slab && h.slab[f].cache == c && s'.cache == c
    requires SameButFor(h.cache[c], o', f)
    ensures CachesOk(Updated(h, c, o', f, s', a, v))
  {
    var h' := Updated(h, c, o', f, s', a, v);
    forall d | d in h'.cache ensures CacheOk(h', d, h'.cache[d]) {
      assert CacheOk(h, d, h.cache[d]);
    }
  }

  lemma UpdateSlabs(h: Heap, c: CacheId, o': Cache, f: Frame, s': Slab, a: Addr, v: nat)
    requires CachesOk(h) && SlabsOk(h) && c in h.cache && f in h.slab && h.slab[f].cache == c && s'.cache == c
    requires SameButFor(h.cache[c], o', f) && InPage(f, a)
    requires SlabOk(o', h.word[a := v], f, s')
    ensures SlabsOk(Updated(h, c, o', f, s', a, v))
  {
    var h' := Updated(h, c, o', f, s', a, v);
    forall g | g in h'.slab ensures SlabAt(h', g) {
      if g != f {
        var d := h.slab[g].cache;
        assert SlabAt(h, g) && CacheOk(h, d, h.cache[d]);
        OtherSlab(h.cache[d], h'.cache[d], h.word, a, v, f, g, h.slab[g]);
      }
    }
  }

  lemma SamePages(h: Heap, h': Heap)
    requires PagesOk(h) && h'.page == h.page && h'.freeq == h.freeq && h'.nrFree == h.nrFree
             && h'.slab.Keys == h.slab.Keys
    ensures PagesOk(h')
  {
  }

  lemma UpdateUsed(h: Heap, h': Heap, x: Maybe, f: Frame, s': Slab, x': Maybe)
    requires Used(h, x) && f in h.slab && h'.slab == h.slab[f := s'] && (x.At? ==> x.frame == f)
    requires s'.inuse == 0 ==> x' == At(f)
    ensures Used(h', x')
  {
  }

  lemma UpdateKeeps(h: Heap, x: Maybe, c: CacheId, o': Cache, f: Frame, s': Slab, a: Addr, v: nat, x': Maybe)
    requires Mid(h, x) && c in h.cache && f in h.slab && h.slab[f].cache == c && s'.cache == c
    requires SameButFor(h.cache[c], o', f) && InPage(f, a)
    requires SlabOk(o', h.word[a := v], f, s')
    requires x.At? ==> x.frame == f
    requires s'.inuse == 0 ==> x' == At(f)
    ensures Mid(Updated(h, c, o', f, s', a, v), x')
  {
    UpdateCaches(h, c, o', f, s', a, v);
    UpdateSlabs(h, c, o', f, s', a, v);
    SamePages(h, Updated(h, c, o', f, s', a, v));
    UpdateUsed(h, Updated(h, c, o', f, s', a, v), x, f, s', x');
  }

  // ----- allocation

  lemma FreeListFacts(word: map<Addr, nat>, p: Addr, f: Frame, sz: nat, free: seq<nat>)
    requires Linked(word, p, f, sz, free)
    ensures p == NULL <==> free == []
    ensures free != [] ==> p == Slot(f, sz, free[0]) && p in word
  {
  }

  lemma PopSlots(s: Slab)
    requires Slots(s) && s.free != []
    ensures Slots(s.(inuse := s.inuse + 1, live := s.live + {s.free[0]}, free := s.free[1..]))
  {
    NoDupTail(s.free);
    assert s.free[0] in s.free;
  }

  /** Popping leaves the rest of the list linked, though the popped word is overwritten. */
  lemma PopLinked(word: map<Addr, nat>, v: nat, p: Addr, f: Frame, sz: nat, free: seq<nat>)
    requires Linked(word, p, f, sz, free) && free != [] && NoDup(free) && sz > 0
    ensures Linked(word[p := v], word[p], f, sz, free[1..])
  {
    NoDupTail(free);
    forall k | k in free[1..] ensures Slot(f, sz, k) != p {
      if k < free[0] { SlotOrder(f, sz, k, free[0]); } else { SlotOrder(f, sz, free[0], k); }
    }
    LinkedFrame(word, word[p := v], word[p], f, sz, free[1..]);
  }

  /** A slab whose free list runs out goes to the full list, unless it is the current one. */
  lemma PopOk(o: Cache, word: map<Addr, nat>, f: Frame, s: Slab)
    requires SlabOk(o, word, f, s) && s.free != [] && o.sz > 0 && NoDup(o.partials) && NoDup(o.full)
    ensures s.freeList in word
    ensures SlabOk(PoppedCache(o, f, word[s.freeList]), word[s.freeList := POISON], f, PoppedSlab(s, word[s.freeList]))
    ensures SameButFor(o, PoppedCache(o, f, word[s.freeList]), f)
  {
    FreeListFacts(word, s.freeList, f, o.sz, s.free);
    PopSlots(s);
    PopLinked(word, POISON, s.freeList, f, o.sz, s.free);
    NextNull(word, s.freeList, f, o.sz, s.free);
    Moved(o, f);
  }

  lemma AllocFromPartialKeeps(h: Heap, c: CacheId, f: Frame)
    requires Inv(h) && c in h.cache && f in h.slab && h.slab[f].cache == c && h.slab[f].free != []
    ensures Inv(AllocFromPartial(h, c, f).heap)
    ensures AllocFromPartial(h, c, f).addr == Slot(f, h.cache[c].sz, h.slab[f].free[0])
  {
    var o, s := h.cache[c], h.slab[f];
    assert CacheOk(h, c, o) && SlabAt(h, f);
    PopOk(o, h.word, f, s);
    FreeListFacts(h.word, s.freeList, f, o.sz, s.free);
    assert s.free[0] in s.free;
    SlotRange(f, o.sz, o.num, s.free[0]);
    var next := h.word[s.freeList];
    UpdateKeeps(h, None, c, PoppedCache(o, f, next), f, PoppedSlab(s, next), s.freeList, POISON, None);
  }

  lemma NextNull(word: map<Addr, nat>, p: Addr, f: Frame, sz: nat, free: seq<nat>)
    requires Linked(word, p, f, sz, free) && free != []
    ensures word[p] == NULL <==> free[1..] == []
  {
    assert Linked(word, word[p], f, sz, free[1..]);
  }

  lemma BumpSlots(s: Slab)
    requires Slots(s)
    ensures Slots(s.(inuse := s.inuse + 1, live := s.live + {s.bump}, bump := s.bump + 1))
  {
    assert s.bump !in s.live;
  }

  lemma BumpLinked(word: map<Addr, nat>, v: nat, p: Addr, f: Frame, sz: nat, s: Slab)
    requires Linked(word, p, f, sz, s.free) && Slots(s) && sz > 0
    ensures Linked(word[Slot(f, sz, s.bump) := v], p, f, sz, s.free)
  {
    forall k | k in s.free ensures Slot(f, sz, k) != Slot(f, sz, s.bump) { SlotOrder(f, sz, k, s.bump); }
    LinkedFrame(word, word[Slot(f, sz, s.bump) := v], p, f, sz, s.free);
  }

  function Below(n: nat): (r: set<nat>)
    ensures |r| == n && forall k: nat :: k in r <==> k < n
  {
    if n == 0 then {} else Below(n - 1) + {n - 1}
  }

  function Elements(s: seq<nat>): (r: set<nat>)
    ensures forall k :: k in r <==> k in s
  {
    if s == [] then {} else {s[0]} + Elements(s[1..])
  }

  lemma {:induction false} ElementsCard(s: seq<nat>)
    requires NoDup(s)
    ensures |Elements(s)| == |s|
  {
    if s != [] {
      NoDupTail(s);
      ElementsCard(s[1..]);
    }
  }

  /** In use plus free is what the bump pointer has passed. */
  lemma Accounting(s: Slab)
    requires Slots(s)
    ensures s.inuse + |s.free| == s.bump
  {
    ElementsCard(s.free);
    assert Below(s.bump) == s.live + Elements(s.free);
    assert s.live !! Elements(s.free);
  }

  /** The bump pointer moves one object on; at the end of the page the slab is full and no longer current. */
  lemma BumpOk(o: Cache, word: map<Addr, nat>, f: Frame, s: Slab)
    requires SlabOk(o, word, f, s) && o.cur == At(f) && s.free == [] && o.sz > 0
    requires NoDup(o.partials) && NoDup(o.full)
    ensures SlabOk(BumpedCache(o, f, s), word[o.ptr := POISON], f, BumpedSlab(s))
    ensures SameButFor(o, BumpedCache(o, f, s), f)
  {
    BumpSlots(s);
    BumpLinked(word, POISON, s.freeList, f, o.sz, s);
    Moved(o, f);
    Accounting(BumpedSlab(s));
    assert (s.bump + 1) * o.sz == s.bump * o.sz + o.sz;
  }

  lemma AllocFastKeeps(h: Heap, c: CacheId, x: Maybe)
    requires Mid(h, x) && c in h.cache && h.cache[c].cur.At?
    requires h.cache[c].cur.frame in h.slab && h.slab[h.cache[c].cur.frame].free == []
    requires x.At? ==> x == h.cache[c].cur
    ensures Inv(AllocFast(h, c).heap)
    ensures AllocFast(h, c).addr == Slot(h.cache[c].cur.frame, h.cache[c].sz, h.slab[h.cache[c].cur.frame].bump)
  {
    var o := h.cache[c];
    var f := o.cur.frame;
    var s := h.slab[f];
    assert CacheOk(h, c, o) && SlabAt(h, f);
    BumpOk(o, h.word, f, s);
    SlotRange(f, o.sz, o.num, s.bump);
    UpdateKeeps(h, x, c, BumpedCache(o, f, s), f, BumpedSlab(s), o.ptr, POISON, None);
  }

  lemma NewSlabCaches(h: Heap, c: CacheId)
    requires CachesOk(h) && c in h.cache && h.freeq != [] && h.freeq[0] < |h.page| && h.freeq[0] !in h.slab
    ensures CachesOk(NewSlab(h, c))
  {
    var h' := NewSlab(h, c);
    forall d | d in h'.cache ensures CacheOk(h', d, h'.cache[d]) {
      assert CacheOk(h, d, h.cache[d]);
    }
  }

  lemma NewSlabSlabs(h: Heap, c: CacheId)
    requires CachesOk(h) && SlabsOk(h) && c in h.cache && h.cache[c].cur.None?
    requires h.freeq != [] && h.freeq[0] < |h.page| && h.freeq[0] !in h.slab
    ensures SlabsOk(NewSlab(h, c))
  {
    var h', f, o := NewSlab(h, c), h.freeq[0], h.cache[c];
    assert CacheOk(h, c, o);
    forall g | g in h'.slab ensures SlabAt(h', g) {
      if g != f {
        assert SlabAt(h, g);
        var d := h.slab[g].cache;
        SameSlab(h.cache[d], h'.cache[d], h.word, g, h.slab[g]);
      } else {
        FreshSlab(h'.cache[c], h.word, f, h'.slab[f]);
      }
    }
  }

  lemma SameSlab(o: Cache, o': Cache, word: map<Addr, nat>, g: Frame, s: Slab)
    requires SlabOk(o, word, g, s) && o'.sz == o.sz && o'.num == o.num
    requires o'.cur == At(g) <==> o.cur == At(g)
    requires o.cur == At(g) ==> o'.ptr == o.ptr && o'.ptrEnd == o.ptrEnd
    requires (g in o'.partials <==> g in o.partials) && (g in o'.full <==> g in o.full)
    ensures SlabOk(o', word, g, s)
  {
  }

  lemma FreshSlab(o: Cache, word: map<Addr, nat>, f: Frame, s: Slab)
    requires s.freeList == NULL && s.inuse == 0 && s.live == {} && s.free == [] && s.bump == 0
    requires 4 <= o.sz <= PAGE_SIZE && o.num == PAGE_SIZE / o.sz && o.cur == At(f) && f !in o.full
    requires o.ptr == Base(f) && o.ptrEnd == Base(f) + o.sz * o.num
    ensures SlabOk(o, word, f, s)
  {
    SlotRange(f, o.sz, o.num, 0);
  }

  lemma NewSlabKeeps(h: Heap, c: CacheId)
    requires Inv(h) && c in h.cache && h.cache[c].cur.None? && h.freeq != []
    ensures h.freeq[0] in h.freeq && h.freeq[0] < |h.page| && h.freeq[0] !in h.slab
    ensures var h', f := NewSlab(h, c), h.freeq[0]; Mid(h', At(f)) && f in h'.slab
  {
    assert h.freeq[0] in h.freeq;
    NewSlabPages(h, c);
    NewSlabCaches(h, c);
    NewSlabSlabs(h, c);
  }

  lemma NewSlabPages(h: Heap, c: CacheId)
    requires PagesOk(h) && c in h.cache && h.freeq != [] && h.freeq[0] in h.freeq
    ensures PagesOk(NewSlab(h, c))
  {
    NoDupTail(h.freeq);
  }

  // ----- which path an allocation takes

  /** The first partial slab has an empty free list only if it is the current slab. */
  lemma AllocPaths(h: Heap, c: CacheId)
    requires Inv(h) && c in h.cache
    ensures h.freeq != [] ==> h.freeq[0] < |h.page|
    ensures var o := h.cache[c];
            && (o.partials != [] ==> o.partials[0] in h.slab && h.slab[o.partials[0]].cache == c)
            && (o.partials != [] && h.slab[o.partials[0]].freeList != NULL ==> h.slab[o.partials[0]].free != [])
            && (o.partials != [] && h.slab[o.partials[0]].freeList == NULL ==> o.cur == At(o.partials[0]))
            && (o.ptr + o.sz <= o.ptrEnd <==> o.cur.At?)
            && (o.cur.At? ==> o.cur.frame in h.slab)
  {
    var o := h.cache[c];
    assert CacheOk(h, c, o);
    if h.freeq != [] { assert h.freeq[0] in h.freeq; }
    if o.partials != [] {
      var g := o.partials[0];
      assert g in o.partials;
      assert SlabAt(h, g);
      FreeListFacts(h.word, h.slab[g].freeList, g, o.sz, h.slab[g].free);
    }
    if o.cur.At? {
      assert SlabAt(h, o.cur.frame);
      SlotRange(o.cur.frame, o.sz, o.num, h.slab[o.cur.frame].bump);
    }
  }

  /** The bump pointer is used only while the current slab has no freed object. */
  lemma FastMeansNoneFreed(h: Heap, c: CacheId)
    requires Inv(h) && c in h.cache && h.cache[c].cur.At? && h.cache[c].cur.frame in h.slab
    requires var o := h.cache[c];
             o.partials != [] ==> o.partials[0] in h.slab && h.slab[o.partials[0]].freeList == NULL
    ensures h.slab[h.cache[c].cur.frame].free == []
  {
    AllocPaths(h, c);
    var o := h.cache[c];
    assert SlabAt(h, o.cur.frame);
    assert CacheOk(h, c, o);
    if o.partials != [] {
      FreeListFacts(h.word, h.slab[o.cur.frame].freeList, o.cur.frame, o.sz, h.slab[o.cur.frame].free);
    }
  }

  /** A cache takes a new page only when no slab of it has a free object left. */
  lemma SlowMeansAllFull(h: Heap, c: CacheId, f: Frame)
    requires Inv(h) && c in h.cache && f in h.slab && h.slab[f].cache == c
    requires var o := h.cache[c];
             && (o.partials != [] ==> o.partials[0] in h.slab && h.slab[o.partials[0]].freeList == NULL)
             && o.ptr + o.sz > o.ptrEnd
    ensures h.cache[c].partials == [] && h.cache[c].cur.None?
    ensures f in h.cache[c].full && h.slab[f].inuse == h.cache[c].num && h.slab[f].free == []
    ensures h.slab[f].live == Below(h.cache[c].num)
  {
    AllocPaths(h, c);
    var s := h.slab[f];
    assert SlabAt(h, f);
    Accounting(s);
    assert forall k: nat :: k in s.live <==> k in Below(h.cache[c].num);
  }

  // ----- freeing

  lemma PushSlots(s: Slab, k: nat, obj: Addr)
    requires Slots(s) && k in s.live
    ensures s.inuse > 0 && Slots(PushedSlab(s, k, obj))
  {
    NoDupCons(k, s.free);
    assert |s.live| == |s.live - {k}| + 1;
    var s' := PushedSlab(s, k, obj);
    assert forall j: nat :: j < s.bump ==> j in s'.live || j in s'.free;
  }

  /** The first object freed in a slab puts it on the partial list. */
  lemma PushOk(o: Cache, word: map<Addr, nat>, f: Frame, s: Slab, k: nat)
    requires SlabOk(o, word, f, s) && k in s.live && o.sz > 0 && NoDup(o.partials) && NoDup(o.full)
    ensures s.inuse > 0
    ensures var obj := Slot(f, o.sz, k);
            && SlabOk(PushedCache(o, f, s), word[obj := s.freeList], f, PushedSlab(s, k, obj))
            && SameButFor(o, PushedCache(o, f, s), f)
  {
    var obj := Slot(f, o.sz, k);
    PushSlots(s, k, obj);
    FreeListFacts(word, s.freeList, f, o.sz, s.free);
    Moved(o, f);
    var word' := word[obj := s.freeList];
    forall j | j in s.free ensures Slot(f, o.sz, j) != obj {
      if j < k { SlotOrder(f, o.sz, j, k); } else { SlotOrder(f, o.sz, k, j); }
    }
    LinkedFrame(word, word', s.freeList, f, o.sz, s.free);
    assert ([k] + s.free)[1..] == s.free;
  }

  lemma PushKeeps(h: Heap, f: Frame, k: nat)
    requires Inv(h) && f in h.slab && k in h.slab[f].live
    ensures h.slab[f].cache in h.cache && h.slab[f].inuse > 0
    ensures var c := h.slab[f].cache; Mid(PushFree(h, c, f, k, Slot(f, h.cache[c].sz, k)), At(f))
  {
    assert SlabAt(h, f);
    var c, s := h.slab[f].cache, h.slab[f];
    var o := h.cache[c];
    assert CacheOk(h, c, o);
    PushOk(o, h.word, f, s, k);
    SlotRange(f, o.sz, o.num, k);
    UpdateKeeps(h, None, c, PushedCache(o, f, s), f, PushedSlab(s, k, Slot(f, o.sz, k)), Slot(f, o.sz, k), s.freeList,
                At(f));
  }

  lemma DropPages(h: Heap, c: CacheId, f: Frame)
    requires PagesOk(h) && c in h.cache && f in h.slab
    ensures f < |h.page| && h.page[f].count > 0 && PagesOk(DropSlab(h, c, f))
  {
    NoDupSnoc(h.freeq, f);
  }

  lemma DropCaches(h: Heap, c: CacheId, f: Frame)
    requires CachesOk(h) && c in h.cache && f in h.slab && h.slab[f].cache == c && f < |h.page| && h.page[f].count > 0
    ensures CachesOk(DropSlab(h, c, f))
  {
    var h', o := DropSlab(h, c, f), h.cache[c];
    assert CacheOk(h, c, o);
    Moved(o, f);
    forall d | d in h'.cache ensures CacheOk(h', d, h'.cache[d]) {
      assert CacheOk(h, d, h.cache[d]);
    }
  }

  lemma DropSlabs(h: Heap, c: CacheId, f: Frame)
    requires CachesOk(h) && SlabsOk(h) && c in h.cache && f in h.slab && h.slab[f].cache == c
    requires f < |h.page| && h.page[f].count > 0
    ensures SlabsOk(DropSlab(h, c, f))
  {
    var h', o := DropSlab(h, c, f), h.cache[c];
    assert CacheOk(h, c, o);
    Moved(o, f);
    forall g | g in h'.slab ensures SlabAt(h', g) {
      assert SlabAt(h, g);
      var d := h.slab[g].cache;
      SameSlab(h.cache[d], h'.cache[d], h.word, g, h.slab[g]);
    }
  }

  lemma DropKeeps(h: Heap, c: CacheId, f: Frame)
    requires Mid(h, At(f)) && c in h.cache && f in h.slab && h.slab[f].cache == c
    ensures f < |h.page| && h.page[f].count > 0 && Inv(DropSlab(h, c, f))
  {
    DropPages(h, c, f);
    DropCaches(h, c, f);
    DropSlabs(h, c, f);
  }
}
