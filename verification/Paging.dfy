/** Demand paging: mm_pagefault of kernel/mm.c, over the areas of a context, the page
    caches of its files and its page tables. A page is named by its frame number. */
module Paging {
  import opened Common
  import opened RbShape
  import opened Ext2
  import RbWalk
  import Vma
  import PageCache
  import PageTable

  datatype Fault = Handled(frame: Ptr) | Refused | BugOn

  /** The offset in the file that a fault at va asks for. */
  function Offset(a: Vma.Area, va: nat): nat
    requires a.begin <= va
  {
    (a.off + Vma.RoundDown(va - a.begin)) % TWO32
  }

  /** A page directory and its tables. */
  datatype Space = Space(pgd: PageTable.Table, tables: PageTable.Tables) {
    predicate Ok() { |pgd| == PageTable.NR_PDE }

    /** The translation of address x. */
    function At(x: nat): PageTable.Mapping
      requires Ok() && x < TWO32
    {
      PageTable.Walk(pgd, tables, x)
    }

    /** User code may write at x. */
    predicate Writes(x: nat)
      requires Ok() && x < TWO32
    {
      At(x).Mapped? && At(x).write && At(x).user
    }
  }

  /** A handled fault maps its page and no other; any other outcome leaves the tables alone. */
  ghost predicate Translates(va: nat, prot: set<Vma.Prot>, r: Fault, s: Space, s': Space) {
    && s.Ok() && s'.Ok()
    && if !r.Handled? then s' == s else
       forall x {:trigger s'.At(x)} :: 0 <= x < TWO32 ==>
         s'.At(x) == if x / PAGE_SIZE == va / PAGE_SIZE then PageTable.Mapped(r.frame, Vma.ProtWrite in prot, true)
                     else s.At(x)
  }

  function Zeros(): seq<Byte> { seq(PAGE_SIZE, _ => 0) }

  class Process {
    const ctx: Vma.Context
    const space: PageTable.AddressSpace
    const files: map<nat, PageCache.Cache>   // by inode number
    var anon: map<Ptr, seq<Byte>>            // pages of anonymous areas

    constructor (ctx: Vma.Context, space: PageTable.AddressSpace, files: map<nat, PageCache.Cache>)
      ensures this.ctx == ctx && this.space == space && this.files == files && anon == map[]
    {
      this.ctx, this.space, this.files, anon := ctx, space, files, map[];
    }

    ghost function Tables(): Space
      reads space
    {
      Space(space.pgd, space.tables)
    }

    /** The area that lookup_vma finds for va, or null. */
    ghost function At(va: nat): Ptr
      reads ctx, ctx.tree
    {
      RbWalk.Reach(Vma.CompareAddr(ctx.area, va), ctx.tree.tree)
    }

    /** The page cache of an area's file. */
    ghost function Pages(a: Vma.Area): set<object> {
      if a.back.FileOf? && a.back.ino in files then {files[a.back.ino], files[a.back.ino].tree} else {}
    }

    /** The page cache a fault at va goes through. */
    ghost function Involved(va: nat): set<object>
      reads ctx, ctx.tree
    {
      if At(va) in ctx.area then Pages(ctx.area[At(va)]) else {}
    }

    ghost predicate CacheReady(a: Vma.Area)
      reads Pages(a)
    {
      a.back.FileOf? ==> a.back.ino in files && files[a.back.ino].Valid() && files[a.back.ino].tree != ctx.tree
    }

    ghost predicate Valid(va: nat)
      reads this, ctx, ctx.tree, space, Involved(va)
    {
      ctx.Valid() && space.Valid() && (At(va) in ctx.area ==> CacheReady(ctx.area[At(va)]))
    }

    /** The cached pages of an area's file. */
    ghost function Cached(a: Vma.Area): PageCache.Pages
      reads Pages(a)
    {
      if a.back.FileOf? && a.back.ino in files then files[a.back.ino].Abs()
      else PageCache.Pages(map[], map[], map[], map[])
    }

    /** What fetching the page of area a at va does to cached and anonymous pages. */
    ghost predicate Fetches(a: Vma.Area, va: nat, prot: set<Vma.Prot>, page: Ptr, bad: set<nat>, g: Fault,
                            s: PageCache.Pages, s': PageCache.Pages, z: map<Ptr, seq<Byte>>, z': map<Ptr, seq<Byte>>)
      requires a.begin <= va
    {
      if !Permits(a, prot) then g == Refused && s' == s && z' == z
      else if a.back.Anonymous? then s' == s && GetsZeros(page, g, z, z')
      else z' == z && a.back.ino in files && GetsPage(files[a.back.ino], Offset(a, va), page, bad, g, s, s')
    }

    /** From a file: what the page cache answers. */
    ghost predicate GetsPage(c: PageCache.Cache, o: nat, page: Ptr, bad: set<nat>, g: Fault,
                             s: PageCache.Pages, s': PageCache.Pages)
    {
      && PageCache.Reply(c.disk, c.file, s, s', AsResult(g), o, page, bad)
      && (g.Handled? <==> PageCache.Served(c.disk, c.file, s, o, page, bad))
      && (g.BugOn? <==> PageCache.Asserts(c.file, s, o, page))
    }

    /** map_page_to_ctx can map va. */
    ghost predicate Mappable(va: nat, hasTable: bool)
      requires space.Valid() && va < TWO32
      reads space
    {
      va < PAGE_OFFSET && (hasTable || PageTable.Present(space.pgd[PageTable.Dir(va)]))
    }

    /** mm_pagefault. `page` and `table` are what alloc_page gives for the data and for a page
        table, and `bad` the disk blocks that cannot be read now. `p` is the area that lookup_vma
        finds, and `g` what fetching its page gives. */
    method PageFault(va: nat, prot: set<Vma.Prot>, page: Ptr, bad: set<nat>, hasTable: bool, table: nat)
      returns (r: Fault, ghost p: Ptr, ghost g: Fault)
      requires Valid(va) && va < TWO32 && page !in anon
      requires forall i :: i in files ==> page !in files[i].pcOff
      requires hasTable ==> space.Unused(table)
      modifies this, space, Involved(va)
      ensures unchanged(ctx) && unchanged(ctx.tree) && space.Valid()
      ensures p == old(At(va)) && Vma.Found(ctx.area, va, p) && (p != NULL ==> CacheReady(ctx.area[p]))
      ensures p == NULL ==> r == g == Refused && anon == old(anon)
      ensures p != NULL ==>
                var a := ctx.area[p]; Fetches(a, va, prot, page, bad, g, old(Cached(a)), Cached(a), old(anon), anon)
      ensures (r.Handled? <==> g.Handled? && old(Mappable(va, hasTable))) && (r.Handled? ==> r == g)
      ensures r.BugOn? <==> g.BugOn? || (g.Handled? && va >= PAGE_OFFSET)
      ensures FaultStep(ctx.area, p, va, prot, r, old(Tables()), Tables())
      ensures p != NULL && (forall x :: x in ctx.area[p].prot ==> x !in prot) ==>
                r == Refused && Cached(ctx.area[p]) == old(Cached(ctx.area[p])) && anon == old(anon)
      ensures p != NULL && ctx.area[p].back.Anonymous? && r.Handled? ==>
                r.frame == page && page in anon && |anon[page]| == PAGE_SIZE && forall b :: b in anon[page] ==> b == 0
    {
      var q := ctx.Lookup(va);
      p := q;
      if q == NULL {
        return Refused, q, Refused;
      }
      r, g := ServeAt(q, va, prot, page, bad, hasTable, table);
      PermitsExact(ctx.area[q], prot);
    }

    /** The same for the area that lookup_vma has found. */
    method ServeAt(q: Ptr, va: nat, prot: set<Vma.Prot>, page: Ptr, bad: set<nat>, hasTable: bool, table: nat)
      returns (r: Fault, ghost g: Fault)
      requires Valid(va) && va < TWO32 && q == At(va) && q in ctx.area && ctx.area[q].begin <= va
      requires forall i :: i in files ==> page !in files[i].pcOff
      requires hasTable ==> space.Unused(table)
      modifies this, space, Involved(va)
      ensures unchanged(ctx) && unchanged(ctx.tree) && space.Valid() && CacheReady(ctx.area[q])
      ensures var a := ctx.area[q]; Fetches(a, va, prot, page, bad, g, old(Cached(a)), Cached(a), old(anon), anon)
      ensures (r.Handled? <==> g.Handled? && old(Mappable(va, hasTable))) && (r.Handled? ==> r == g)
      ensures r.BugOn? <==> g.BugOn? || (g.Handled? && va >= PAGE_OFFSET)
      ensures Translates(va, prot, r, old(Tables()), Tables())
    {
      assert ctx !in Pages(ctx.area[q]) && ctx.tree !in Pages(ctx.area[q]);
      r, g := Serve(ctx.area[q], va, prot, page, bad, hasTable, table);
    }

    /** The part of mm_pagefault after the lookup. */
    method Serve(a: Vma.Area, va: nat, prot: set<Vma.Prot>, page: Ptr, bad: set<nat>, hasTable: bool, table: nat)
      returns (r: Fault, ghost g: Fault)
      requires CacheReady(a) && a.begin <= va < TWO32 && space.Valid()
      requires forall i :: i in files ==> page !in files[i].pcOff
      requires hasTable ==> space.Unused(table)
      modifies this, space, Pages(a)
      ensures CacheReady(a) && space.Valid()
      ensures Fetches(a, va, prot, page, bad, g, old(Cached(a)), Cached(a), old(anon), anon)
      ensures (r.Handled? <==> g.Handled? && old(Mappable(va, hasTable))) && (r.Handled? ==> r == g)
      ensures r.BugOn? <==> g.BugOn? || (g.Handled? && va >= PAGE_OFFSET)
      ensures Translates(va, prot, r, old(Tables()), Tables())
    {
      if !Permits(a, prot) {
        return Refused, Refused;
      }
      var f := FetchPage(a, va, prot, page, bad);
      g := f;
      assert space.pgd == old(space.pgd) && space.tables == old(space.tables);
      r := MapIn(f, va, prot, hasTable, table);
    }

    method MapIn(g: Fault, va: nat, prot: set<Vma.Prot>, hasTable: bool, table: nat) returns (r: Fault)
      requires va < TWO32 && space.Valid() && (hasTable ==> space.Unused(table))
      modifies space
      ensures space.Valid() && Translates(va, prot, r, old(Tables()), Tables())
      ensures (r.Handled? <==> g.Handled? && old(Mappable(va, hasTable))) && (r.Handled? ==> r == g)
      ensures r.BugOn? <==> g.BugOn? || (g.Handled? && va >= PAGE_OFFSET)
    {
      r := g;
      if r.Handled? {
        RoundSame(va);
        var m := space.MapPage(r.frame, Vma.RoundDown(va), Vma.ProtWrite in prot, hasTable, table);
        match m {
          case Done =>
          case NoMemory => r := Refused;
          case BugOn => r := BugOn;
        }
      }
    }

    /** The page itself: from the page cache of the file, or a new page of zeros. */
    method FetchPage(a: Vma.Area, va: nat, prot: set<Vma.Prot>, page: Ptr, bad: set<nat>) returns (g: Fault)
      requires Permits(a, prot) && CacheReady(a) && a.begin <= va && forall i :: i in files ==> page !in files[i].pcOff
      modifies this, Pages(a)
      ensures CacheReady(a) && Fetches(a, va, prot, page, bad, g, old(Cached(a)), Cached(a), old(anon), anon)
    {
      if a.back.FileOf? {
        var res := files[a.back.ino].ReadPage(Offset(a, va), page, bad);
        match res {
          case Page(q) => g := Handled(q);
          case NoPage => g := Refused;
          case BugOn => g := BugOn;
        }
      } else {
        if page == NULL {
          return Refused;
        }
        anon := anon[page := Zeros()];
        g := Handled(page);
      }
    }

    /** End to end: q is an area set up for a part of file ino, and the lookup answers right at va, an
        address of it. Then every address x of a page that is handled is mapped to one frame, which shows at
        x the byte of the file at off + (x - va0), zero past the end of the file. Only what lies behind a
        block that failed when the page was read is missing, and shows as zero. */
    method FaultInFile(q: Ptr, ghost v: Vma.Mapping, ino: nat, va: nat, prot: set<Vma.Prot>,
                       page: Ptr, bad: set<nat>, hasTable: bool, table: nat) returns (r: Fault)
      requires Valid(va) && page !in anon && ino in files
      requires AsksFor(v, ino, va) && (exists x :: x in v.prot && x in prot) && Holds(q, Vma.NewArea(v), va)
      requires forall i :: i in files ==> page !in files[i].pcOff
      requires hasTable ==> space.Unused(table)
      modifies this, space, Involved(va)
      ensures space.Valid() && old(At(va)) == q && files[ino].Valid()
      ensures var c := files[ino];
              Brings(c, v, va, page, bad, old(Mappable(va, hasTable)), r, old(c.Abs()), c.Abs())
      ensures Translates(va, prot, r, old(Tables()), Tables())
    {
      AskedMaps(v, ino, va);
      PermitsExact(Vma.NewArea(v), prot);
      Covered(q, va);
      ghost var c, pages := files[ino], files[ino].Abs();
      ghost var p, g;
      r, p, g := PageFault(va, prot, page, bad, hasTable, table);
      ShowsFile(c, pages, c.Abs(), g, page, bad, v, ino, va);
    }

    /** q is area a, and lookup_vma answers right at va. */
    ghost predicate Holds(q: Ptr, a: Vma.Area, va: nat)
      reads ctx, ctx.tree
    {
      q in ctx.area && ctx.area[q] == a && Vma.EndsCovered(ctx.area, ctx.tree.tree, va)
    }

    /** Where the lookup answers right, the area it finds is the one that contains the address. */
    lemma Covered(q: Ptr, va: nat)
      requires ctx.Valid() && Vma.EndsCovered(ctx.area, ctx.tree.tree, va)
      requires q in ctx.area && Vma.Contains(ctx.area[q], va)
      ensures At(va) == q
    {
      Vma.LookupExact(ctx.area, ctx.tree.tree, va);
      if At(va) != NULL { Vma.OneContains(ctx.area, InOrder(ctx.tree.tree), va, At(va), q); }
    }
  }

  predicate Permits(a: Vma.Area, prot: set<Vma.Prot>) { a.prot * prot != {} }

  lemma PermitsExact(a: Vma.Area, prot: set<Vma.Prot>)
    ensures Permits(a, prot) <==> exists x :: x in a.prot && x in prot
  {
    if x :| x in a.prot && x in prot { assert x in a.prot * prot; }
    if Permits(a, prot) { var x :| x in a.prot * prot; }
  }

  // ----- areas that may not be written

  /** User code cannot write where an area does not let it. */
  ghost predicate Guarded(m: Vma.Areas, s: Space) {
    s.Ok() && forall q, x :: q in m && 0 <= x < PAGE_OFFSET && Vma.Contains(m[q], x) && Vma.ProtWrite !in m[q].prot ==>
                !s.Writes(x)
  }

  /** A fault at va as mm_pagefault handles it: p is the area that was found. */
  ghost predicate FaultStep(m: Vma.Areas, p: Ptr, va: nat, prot: set<Vma.Prot>, r: Fault, s: Space, s': Space) {
    && va < TWO32 && Translates(va, prot, r, s, s')
    && (r.Handled? ==> va < PAGE_OFFSET && p in m && Vma.Touches(m[p], va) && exists x :: x in m[p].prot && x in prot)
  }

  predicate Aligned(m: Vma.Areas) {
    forall q :: q in m ==> m[q].begin % PAGE_SIZE == 0 && m[q].end % PAGE_SIZE == 0
  }

  lemma WholePages(a: Vma.Area, x: nat, y: nat)
    requires a.begin % PAGE_SIZE == 0 && a.end % PAGE_SIZE == 0 && x / PAGE_SIZE == y / PAGE_SIZE && Vma.Contains(a, x)
    ensures Vma.Contains(a, y)
  {
  }

  /** Exactly when a fault keeps that so: unless a write is let through at an address whose own area forbids it. */
  lemma GuardedExact(m: Vma.Areas, p: Ptr, va: nat, prot: Vma.Prot, r: Fault, s: Space, s': Space)
    requires Aligned(m) && Guarded(m, s) && FaultStep(m, p, va, {prot}, r, s, s')
    ensures Guarded(m, s') <==>
            !(r.Handled? && prot.ProtWrite?
              && exists q :: q in m && Vma.Contains(m[q], va) && Vma.ProtWrite !in m[q].prot)
  {
    if r.Handled? {
      forall q, x | q in m && 0 <= x < PAGE_OFFSET && Vma.Contains(m[q], x) && Vma.ProtWrite !in m[q].prot
        ensures x / PAGE_SIZE == va / PAGE_SIZE ==> Vma.Contains(m[q], va)
        ensures s'.Writes(x) <==> x / PAGE_SIZE == va / PAGE_SIZE && prot.ProtWrite?
      {
        if x / PAGE_SIZE == va / PAGE_SIZE { WholePages(m[q], x, va); }
        assert !s.Writes(x);
      }
      if q :| q in m && Vma.Contains(m[q], va) && Vma.ProtWrite !in m[q].prot {
        assert s'.Writes(va) <==> prot.ProtWrite?;
      }
    }
  }

  /** Where the lookup answers right a fault always keeps it so. */
  lemma RightKeepsGuarded(m: Vma.Areas, t: Tree, va: nat, prot: Vma.Prot, r: Fault, s: Space, s': Space)
    requires Aligned(m) && Vma.Orders(m, InOrder(t)) && Distinct(t) && NULL !in m && Vma.EndsCovered(m, t, va)
    requires Guarded(m, s) && FaultStep(m, RbWalk.Reach(Vma.CompareAddr(m, va), t), va, {prot}, r, s, s')
    ensures Guarded(m, s')
  {
    var p := RbWalk.Reach(Vma.CompareAddr(m, va), t);
    Vma.LookupExact(m, t, va);
    GuardedExact(m, p, va, prot, r, s, s');
    if r.Handled? && prot.ProtWrite? {
      forall q | q in m && Vma.Contains(m[q], va) ensures q == p { Vma.OneContains(m, InOrder(t), va, p, q); }
    }
  }

  /** A fault, and what became of it. */
  datatype Record = Record(va: nat, prot: Vma.Prot, r: Fault)

  /** Over every sequence of faults in a context, each where the lookup answers right. */
  lemma {:induction false} FaultsKeepGuarded(m: Vma.Areas, t: Tree, fs: seq<Record>, ss: seq<Space>)
    requires Aligned(m) && Vma.Orders(m, InOrder(t)) && Distinct(t) && NULL !in m
    requires |ss| == |fs| + 1 && Guarded(m, ss[0])
    requires forall i :: 0 <= i < |fs| ==>
               && Vma.EndsCovered(m, t, fs[i].va)
               && FaultStep(m, RbWalk.Reach(Vma.CompareAddr(m, fs[i].va), t),
                            fs[i].va, {fs[i].prot}, fs[i].r, ss[i], ss[i + 1])
    ensures Guarded(m, ss[|fs|])
  {
    if fs != [] {
      RightKeepsGuarded(m, t, fs[0].va, fs[0].prot, fs[0].r, ss[0], ss[1]);
      FaultsKeepGuarded(m, t, fs[1..], ss[1..]);
    }
  }

  /** A new address space maps nothing for user code. */
  lemma NewGuarded(m: Vma.Areas, s: Space)
    requires s.Ok() && forall d :: 0 <= d < PageTable.KERNEL_PDE ==> !PageTable.Present(s.pgd[d])
    ensures Guarded(m, s)
  {
    forall x | 0 <= x < PAGE_OFFSET ensures !s.Writes(x) { PageTable.DirOf(x); }
  }

  /** An area that may be written, ending where one begins that may not. */
  function Adjacent(): Vma.Areas {
    map[1 := Vma.Area(4096, 8192, {Vma.ProtWrite}, 0, Vma.Anonymous),
        2 := Vma.Area(8192, 12288, {Vma.ProtRead}, 0, Vma.Anonymous)]
  }

  /** Where the lookup is wrong a write can be let through: a fault for a write at the first address of
      area 2 is served from area 1, and then user code can write to area 2. */
  lemma StrayWrite(s: Space, s': Space, f: Ptr)
    ensures var m, t := Adjacent(), Br(Leaf, 1, Black, Br(Leaf, 2, Red, Leaf));
            && RedBlack(t) && Distinct(t) && InOrder(t) == [1, 2] && Vma.Orders(m, [1, 2]) && Aligned(m)
            && RbWalk.Reach(Vma.CompareAddr(m, 8192), t) == 1
    ensures FaultStep(Adjacent(), 1, 8192, {Vma.ProtWrite}, Handled(f), s, s') ==> !Guarded(Adjacent(), s')
  {
    AdjacentShape();
    AdjacentOrder();
    AdjacentReach();
    if FaultStep(Adjacent(), 1, 8192, {Vma.ProtWrite}, Handled(f), s, s') { StrayAt(s, s', f); }
  }

  lemma AdjacentShape()
    ensures var t := Br(Leaf, 1, Black, Br(Leaf, 2, Red, Leaf)); RedBlack(t) && Distinct(t) && InOrder(t) == [1, 2]
  {
    assert InOrder(Br(Leaf, 2, Red, Leaf)) == [2];
  }

  lemma AdjacentOrder()
    ensures Vma.Orders(Adjacent(), [1, 2]) && Aligned(Adjacent())
  {
  }

  lemma AdjacentReach()
    ensures RbWalk.Reach(Vma.CompareAddr(Adjacent(), 8192), Br(Leaf, 1, Black, Br(Leaf, 2, Red, Leaf))) == 1
  {
  }

  lemma StrayAt(s: Space, s': Space, f: Ptr)
    requires Translates(8192, {Vma.ProtWrite}, Handled(f), s, s')
    ensures !Guarded(Adjacent(), s')
  {
    assert s'.At(8192) == PageTable.Mapped(f, true, true);
    assert Vma.Contains(Adjacent()[2], 8192) && s'.Writes(8192);
  }

  /** For an anonymous area: a new page of zeros. */
  predicate GetsZeros(page: Ptr, g: Fault, z: map<Ptr, seq<Byte>>, z': map<Ptr, seq<Byte>>) {
    if page == NULL then g == Refused && z' == z else g == Handled(page) && z' == z[page := Zeros()]
  }

  function AsResult(g: Fault): PageCache.Result {
    match g case Handled(f) => PageCache.Page(f) case Refused => PageCache.NoPage case BugOn => PageCache.BugOn
  }

  /** va lies in the area that v makes of a part of file ino. */
  predicate Maps(v: Vma.Mapping, ino: nat, va: nat) {
    v.Ok() && v.back == Vma.FileOf(ino) && !Vma.Misaligned(v) && Vma.Contains(Vma.NewArea(v), va)
  }

  /** va is one of the addresses that v asks for, of a part of file ino, or another one of its pages. */
  predicate AsksFor(v: Vma.Mapping, ino: nat, va: nat) {
    && v.Ok() && v.back == Vma.FileOf(ino) && !Vma.Misaligned(v)
    && ((Vma.Fits(v) && Vma.Asks(v, va)) || Vma.Contains(Vma.NewArea(v), va))
  }

  lemma AskedMaps(v: Vma.Mapping, ino: nat, va: nat)
    requires AsksFor(v, ino, va)
    ensures Maps(v, ino, va)
  {
    Vma.CoversExact(v);
  }

  /** The address is one of the page of va. */
  predicate SamePage(x: int, va: nat) { 0 <= x < TWO32 && x / PAGE_SIZE == va / PAGE_SIZE }

  /** At every address of the page of va, page p shows the byte of the file at its place, zero past the end. */
  ghost predicate ShowsPage(disk: Disk, f: File, s: PageCache.Pages, p: Ptr, v: Vma.Mapping, va: nat) {
    && p in s.data && |s.data[p]| == PAGE_SIZE
    && forall x {:trigger SamePage(x, va)} :: SamePage(x, va) ==>
      var pos, b := v.Place(x), s.data[p][x % PAGE_SIZE];
      if pos < f.size then ByteIs(disk, f, pos, b) else b == 0
  }

  /** The same up to the first block of the page that failed when it was read, and zero from there on. */
  ghost predicate ShowsPart(disk: Disk, f: File, s: PageCache.Pages, p: Ptr, v: Vma.Mapping, va: nat) {
    && p in s.data && p in s.failed && |s.data[p]| == PAGE_SIZE
    && forall x {:trigger SamePage(x, va)} :: SamePage(x, va) ==>
      var start, pos, b := v.Place(Vma.RoundDown(va)), v.Place(x), s.data[p][x % PAGE_SIZE];
      if pos < f.size && PageCache.Unbroken(disk - s.failed[p], f, start, pos) then ByteIs(disk, f, pos, b) else b == 0
  }

  /** What a fault in an area of a file does: when it is handled, what its page shows, which blocks count as
      failed, and that pages without a failed block stay the rule while blocks can be read. */
  ghost predicate Brings(c: PageCache.Cache, v: Vma.Mapping, va: nat, page: Ptr, bad: set<nat>, mappable: bool,
                         r: Fault, s: PageCache.Pages, s': PageCache.Pages)
  {
    var o := v.Place(Vma.RoundDown(va));
    && (r.Handled? <==> PageCache.Served(c.disk, c.file, s, o, page, bad) && mappable)
    && (r.Handled? ==> ShowsPart(c.disk, c.file, s', r.frame, v, va))
    && (r.Handled? ==> s'.failed == if PageCache.Has(s.off, o) then s.failed else s.failed[r.frame := bad])
    && (PageCache.Whole(c.disk, c.file, s) && PageCache.PageReadable(c.disk - bad, c.file, o) ==>
          && PageCache.Whole(c.disk, c.file, s')
          && (r.Handled? ==> ShowsPage(c.disk, c.file, s', r.frame, v, va)))
  }

  lemma RoundSame(va: nat)
    requires va < TWO32
    ensures Vma.RoundDown(va) / PAGE_SIZE == va / PAGE_SIZE && Vma.RoundDown(va) <= va
    ensures PageTable.Dir(Vma.RoundDown(va)) == PageTable.Dir(va)
            && (Vma.RoundDown(va) < PAGE_OFFSET <==> va < PAGE_OFFSET)
    ensures PageTable.Dir(va) < PageTable.NR_PDE
  {
    PageTable.DirOf(va);
    PageTable.DirOf(Vma.RoundDown(va));
  }

  /** What the page cache answered for a fault at va, seen through the addresses of its page. */
  lemma ShowsFile(c: PageCache.Cache, s: PageCache.Pages, s': PageCache.Pages, g: Fault, page: Ptr, bad: set<nat>,
                  v: Vma.Mapping, ino: nat, va: nat)
    requires Maps(v, ino, va) && PageCache.Contents(c.disk, c.file, s)
    requires PageCache.Reply(c.disk, c.file, s, s', AsResult(g), Offset(Vma.NewArea(v), va), page, bad)
    requires g.Handled? <==> PageCache.Served(c.disk, c.file, s, Offset(Vma.NewArea(v), va), page, bad)
    ensures Brings(c, v, va, page, bad, true, g, s, s')
  {
    var o := Offset(Vma.NewArea(v), va);
    PageOffset(v, ino, va, va);
    PageCache.ReplyKeeps(c.disk, c.file, s, s', AsResult(g), o, page, bad, 0);
    if g.Handled? { AddressesShow(c.disk, c.file, s', g.frame, v, ino, va); }
  }

  lemma AddressesShow(disk: Disk, f: File, s: PageCache.Pages, p: Ptr, v: Vma.Mapping, ino: nat, va: nat)
    requires Maps(v, ino, va) && PageCache.Shows(disk, f, s, v.Place(Vma.RoundDown(va)), p)
    ensures ShowsPart(disk, f, s, p, v, va)
    ensures PageCache.FilePage(disk, f, v.Place(Vma.RoundDown(va)), s.data[p]) ==> ShowsPage(disk, f, s, p, v, va)
  {
    var o := v.Place(Vma.RoundDown(va));
    forall x | SamePage(x, va)
      ensures v.Place(x) == o + x % PAGE_SIZE
      ensures PageCache.ReadByte(disk, s.failed[p], f, o, x % PAGE_SIZE, s.data[p][x % PAGE_SIZE])
    {
      PageOffset(v, ino, va, x);
    }
  }

  /** The offset of the fault is the place of the first address of the page; the others follow it. */
  lemma PageOffset(v: Vma.Mapping, ino: nat, va: nat, x: nat)
    requires Maps(v, ino, va) && SamePage(x, va)
    ensures Offset(Vma.NewArea(v), va) == v.Place(Vma.RoundDown(va))
    ensures v.Place(x) == v.Place(Vma.RoundDown(va)) + x % PAGE_SIZE
  {
    Vma.FaultOffset(v, va);
    Vma.Split(x);
    PageStart(v, va);
    AlignedSum(v.off + Vma.RoundDown(va) - v.va, x % PAGE_SIZE);
  }

  lemma PageStart(v: Vma.Mapping, va: nat)
    requires v.off % PAGE_SIZE == v.va % PAGE_SIZE
    ensures (v.off + Vma.RoundDown(va) - v.va) % PAGE_SIZE == 0
  {
    Vma.Split(v.off);
    Vma.Split(v.va);
  }

  lemma AlignedSum(n: int, j: nat)
    requires n % PAGE_SIZE == 0 && j < PAGE_SIZE
    ensures (n + j) % TWO32 == n % TWO32 + j
  {
    Vma.WordToPage(n);
    RoomOnPage(n % TWO32);
    AddRest(n, j);
  }

  lemma RoomOnPage(r: nat)
    requires r < TWO32 && r % PAGE_SIZE == 0
    ensures r + PAGE_SIZE <= TWO32
  {
  }

  lemma AddRest(n: int, j: nat)
    requires n % TWO32 + j < TWO32
    ensures (n + j) % TWO32 == n % TWO32 + j
  {
    assert n + j == n / TWO32 * TWO32 + (n % TWO32 + j);
  }
}
