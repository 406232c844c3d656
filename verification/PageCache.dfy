/** The page cache of one file: pagecache_file_readpage of kernel/pagecache.c. */
module PageCache {
  import opened Common
  import opened RbShape
  import opened RbTree
  import opened RbWalk
  import opened Keyed
  import opened Ext2

  datatype Result = Page(p: Ptr) | NoPage | BugOn

  /** The page at offset off holds the file there, and zeros past its end. */
  predicate FilePage(disk: Disk, f: File, off: nat, data: seq<Byte>) {
    && |data| == PAGE_SIZE
    && forall j {:trigger data[j]} :: 0 <= j < PAGE_SIZE ==>
         if off + j < f.size then ByteIs(disk, f, off + j, data[j]) else data[j] == 0
  }

  /** Every block of the file from the one of off to the one of pos can be read. */
  predicate Unbroken(disk: Disk, f: File, off: nat, pos: nat) {
    forall x {:trigger Readable(disk, f, x)} :: off / BLOCK <= x <= pos / BLOCK ==> Readable(disk, f, x)
  }

  /** Byte j of a page read at offset off while the blocks in `failed` could not be read: the byte of the
      file if no block up to it failed, and zero behind a failed block and past the end of the file. */
  predicate ReadByte(disk: Disk, failed: set<nat>, f: File, off: nat, j: nat, b: Byte) {
    if off + j < f.size && Unbroken(disk - failed, f, off, off + j) then ByteIs(disk, f, off + j, b) else b == 0
  }

  /** The whole of such a page. */
  predicate ReadAt(disk: Disk, failed: set<nat>, f: File, off: nat, data: seq<Byte>) {
    |data| == PAGE_SIZE && forall j {:trigger data[j]} :: 0 <= j < PAGE_SIZE ==>
        ReadByte(disk, failed, f, off, j, data[j])
  }

  lemma WholePage(disk: Disk, failed: set<nat>, f: File, off: nat, data: seq<Byte>)
    requires ReadAt(disk, failed, f, off, data) && PageReadable(disk - failed, f, off)
    ensures FilePage(disk, f, off, data)
  {
    forall j | 0 <= j < PAGE_SIZE
      ensures if off + j < f.size then ByteIs(disk, f, off + j, data[j]) else data[j] == 0
    {
      assert ReadByte(disk, failed, f, off, j, data[j]);
    }
  }

  /** What a read that ended after n bytes leaves: it ended at the first block that failed. */
  lemma ReadEnds(disk: Disk, failed: set<nat>, f: File, off: nat, buf: seq<Byte>, data: seq<Byte>, n: nat)
    requires off % PAGE_SIZE == 0 && Got(disk - failed, f, buf, off, Wanted(f, PAGE_SIZE, off), n)
    requires |data| == PAGE_SIZE && buf[..n] == data[..n] && forall j :: n <= j < PAGE_SIZE ==> data[j] == 0
    ensures ReadAt(disk, failed, f, off, data)
  {
    forall j | 0 <= j < PAGE_SIZE ensures ReadByte(disk, failed, f, off, j, data[j]) {
      if j < n {
        HeldBefore(disk - failed, f, buf, off, n, j);
        assert data[j] == data[..n][j] == buf[j];
        assert ByteIs(disk - failed, f, off + j, buf[j]);
      } else if off + j < f.size {
        assert !Readable(disk - failed, f, (off + n) / BLOCK);
      }
    }
  }

  lemma HeldBefore(disk: Disk, f: File, buf: seq<Byte>, off: nat, n: nat, j: nat)
    requires off % PAGE_SIZE == 0 && Holds(buf, disk, f, off, n) && j < n
    ensures Unbroken(disk, f, off, off + j)
  {
    forall x | off / BLOCK <= x <= (off + j) / BLOCK ensures Readable(disk, f, x) {
      var k := x * BLOCK - off;
      assert 0 <= k <= j && (off + k) / BLOCK == x;
      assert ByteIs(disk, f, off + k, buf[k]);
    }
  }

  /** Page-sized reads at page boundaries never make the copy length wrap. */
  lemma PageReadsDoNotWrap(f: File, off: nat)
    requires f.size < TWO32 && off < TWO32 && off % PAGE_SIZE == 0
    ensures !Wraps(f, PAGE_SIZE, off)
  {
  }

  method ZeroFrom(buf: array<Byte>, n: nat)
    requires n <= buf.Length
    modifies buf
    ensures buf[..n] == old(buf[..n]) && forall j :: n <= j < buf.Length ==> buf[j] == 0
  {
    var i := n;
    while i < buf.Length
      invariant n <= i <= buf.Length && buf[..n] == old(buf[..n]) && forall j :: n <= j < i ==> buf[j] == 0
    {
      buf[i] := 0;
      i := i + 1;
    }
  }

  /** Every block that holds part of this page of the file can be read. */
  ghost predicate PageReadable(disk: Disk, f: File, off: nat) {
    forall x {:trigger Readable(disk, f, x)} ::
      off / BLOCK <= x && x * BLOCK < off + Wanted(f, PAGE_SIZE, off) ==> Readable(disk, f, x)
  }

  /** A read of a page falls short of nothing if and only if all its blocks can be read. */
  lemma ShortExact(disk: Disk, f: File, off: nat, buf: seq<Byte>, n: nat)
    requires off < f.size && off % PAGE_SIZE == 0 && Got(disk, f, buf, off, Wanted(f, PAGE_SIZE, off), n)
    ensures n == Wanted(f, PAGE_SIZE, off) <==> PageReadable(disk, f, off)
    ensures n > 0 <==> Readable(disk, f, off / BLOCK)
  {
    var want := Wanted(f, PAGE_SIZE, off);
    if n == want {
      AllHeld(disk, f, off, buf, n);
    } else {
      BlockOf(off, n);
      assert !Readable(disk, f, (off + n) / BLOCK);
    }
    if n > 0 { assert ByteIs(disk, f, off + 0, buf[0]); }
  }

  lemma AllHeld(disk: Disk, f: File, off: nat, buf: seq<Byte>, n: nat)
    requires off % PAGE_SIZE == 0 && n == Wanted(f, PAGE_SIZE, off) && Holds(buf, disk, f, off, n)
    ensures PageReadable(disk, f, off)
  {
    forall x | off / BLOCK <= x && x * BLOCK < off + n ensures Readable(disk, f, x) {
      BlockStart(off, x);
      assert ByteIs(disk, f, off + (x * BLOCK - off), buf[x * BLOCK - off]);
    }
  }

  lemma BlockStart(off: nat, x: nat)
    requires off % PAGE_SIZE == 0 && off / BLOCK <= x
    ensures off <= x * BLOCK && x * BLOCK / BLOCK == x
  {
  }

  lemma BlockOf(off: nat, n: nat)
    ensures (off + n) / BLOCK * BLOCK <= off + n && off / BLOCK <= (off + n) / BLOCK
  {
  }

  /** pread of a page gives something: the page begins inside the file, its part of the file ends
      before the last direct block does, and its first block can be read. */
  predicate Fillable(disk: Disk, f: File, off: nat) {
    off < f.size && off + Wanted(f, PAGE_SIZE, off) < NDIR * BLOCK && Readable(disk, f, off / BLOCK)
  }

  lemma FillableMeans(disk: Disk, f: File, off: nat)
    requires f.size < TWO32 && off < TWO32 && off % PAGE_SIZE == 0
    ensures Fillable(disk, f, off) <==>
              && LastBlock(f, PAGE_SIZE, off) < NDIR && off < f.size && off + PAGE_SIZE < TWO32
              && Readable(disk, f, off / BLOCK)
  {
    if off < f.size && off + PAGE_SIZE < TWO32 {
      OrdinaryReadsDoNotWrap(f, PAGE_SIZE, off);
      ClampIsWanted(f, PAGE_SIZE, off);
    }
  }

  /** The fill of a new page: pread of a page, then zeros. `bad` are the blocks that cannot be read now. */
  method Fill(disk: Disk, f: File, off: nat, bad: set<nat>) returns (ok: bool, bug: bool, page: seq<Byte>)
    requires DiskOk(disk) && f.Ok() && off < TWO32 && off % PAGE_SIZE == 0
    ensures bug <==> LastBlock(f, PAGE_SIZE, off) >= NDIR
    ensures ok <==> Fillable(disk - bad, f, off)
    ensures ok ==> ReadAt(disk, bad, f, off, page)
  {
    var buf := new Byte[PAGE_SIZE];
    PageReadsDoNotWrap(f, off);
    FillableMeans(disk - bad, f, off);
    var r := Pread(disk - bad, f, buf, PAGE_SIZE, off);
    ok, bug, page := false, r.Panic?, [];
    if r.Read? && off < f.size && off + PAGE_SIZE < TWO32 { ShortExact(disk - bad, f, off, buf[..], r.copied); }
    if r.Read? && r.copied > 0 {
      ghost var was := buf[..];
      ZeroFrom(buf, r.copied);
      ReadEnds(disk, bad, f, off, was, buf[..], r.copied);
      ok, page := true, buf[..];
    }
  }

  /** The cached pages: offset, bytes, references, and which blocks could not be read when the page was. */
  datatype Pages = Pages(off: Keys, data: map<Ptr, seq<Byte>>, count: map<Ptr, nat>, failed: map<Ptr, set<nat>>)

  /** Every cached page holds the file at its offset, as far as it could be read, and zeros behind. */
  predicate Contents(disk: Disk, f: File, s: Pages) {
    && s.data.Keys == s.off.Keys && s.count.Keys == s.off.Keys && s.failed.Keys == s.off.Keys && NULL !in s.off
    && (forall p :: p in s.off ==> s.off[p] % PAGE_SIZE == 0 && s.count[p] > 0)
    && (forall p {:trigger Shows(disk, f, s, s.off[p], p)} :: p in s.off ==> Shows(disk, f, s, s.off[p], p))
  }

  /** Page p is cached for offset off, and holds what was read there. */
  predicate Shows(disk: Disk, f: File, s: Pages, off: nat, p: Ptr) {
    && p in s.off && p in s.data && p in s.failed
    && s.off[p] == off && ReadAt(disk, s.failed[p], f, off, s.data[p])
  }

  /** No read of a cached page met a block that failed. */
  ghost predicate Whole(disk: Disk, f: File, s: Pages) {
    forall p :: p in s.off ==> p in s.failed && PageReadable(disk - s.failed[p], f, s.off[p])
  }

  function Added(s: Pages, p: Ptr, off: nat, page: seq<Byte>, bad: set<nat>): Pages {
    Pages(s.off[p := off], s.data[p := page], s.count[p := 1], s.failed[p := bad])
  }

  function Counted(s: Pages, p: Ptr): Pages
    requires p in s.count
  {
    s.(count := s.count[p := s.count[p] + 1])
  }

  /** Some page is cached for this offset. */
  predicate Has(keys: Keys, off: nat) { exists q :: q in keys && keys[q] == off }

  lemma AddContents(disk: Disk, f: File, s: Pages, p: Ptr, off: nat, page: seq<Byte>, bad: set<nat>)
    requires Contents(disk, f, s) && p !in s.off && p != NULL && off % PAGE_SIZE == 0 && ReadAt(disk, bad, f, off, page)
    ensures Contents(disk, f, Added(s, p, off, page, bad))
  {
    var s' := Added(s, p, off, page, bad);
    forall q | q in s'.off ensures Shows(disk, f, s', s'.off[q], q) {
      if q != p { assert Shows(disk, f, s, s.off[q], q); }
    }
  }

  lemma CountContents(disk: Disk, f: File, s: Pages, p: Ptr)
    requires Contents(disk, f, s) && p in s.off
    ensures Contents(disk, f, Counted(s, p))
  {
    var s' := Counted(s, p);
    forall q | q in s'.off ensures Shows(disk, f, s', s'.off[q], q) { assert Shows(disk, f, s, s.off[q], q); }
  }

  /** When pagecache_file_readpage returns a page: one is cached, or a free page can be filled. */
  predicate Served(disk: Disk, f: File, s: Pages, off: nat, fresh_: Ptr, bad: set<nat>) {
    off % PAGE_SIZE == 0 && (Has(s.off, off) || (fresh_ != NULL && Fillable(disk - bad, f, off)))
  }

  /** A read of this page goes beyond the direct blocks. */
  predicate Beyond(f: File, off: nat) {
    off + PAGE_SIZE < TWO32 && off + PAGE_SIZE >= NDIR * BLOCK && f.size >= NDIR * BLOCK
  }

  lemma BeyondMeans(f: File, off: nat)
    requires f.size < TWO32 && off < TWO32 && off % PAGE_SIZE == 0
    ensures Beyond(f, off) <==> LastBlock(f, PAGE_SIZE, off) >= NDIR
  {
  }

  /** When its assertions fail, the one of ext2_pread included. */
  predicate Asserts(f: File, s: Pages, off: nat, fresh_: Ptr) {
    off % PAGE_SIZE != 0 || (!Has(s.off, off) && fresh_ != NULL && Beyond(f, off))
  }

  /** What a call of pagecache_file_readpage returns and changes: the page that has this offset, with
      one more reference; or one page more, read with the blocks in `bad` failing; or nothing. */
  ghost predicate Reply(disk: Disk, f: File, s: Pages, s': Pages, r: Result, off: nat, fresh_: Ptr, bad: set<nat>) {
    if !r.Page? then s' == s else
    && Shows(disk, f, s', off, r.p)
    && if Has(s.off, off) then r.p in s.count && s' == Counted(s, r.p)
       else r.p == fresh_ && r.p !in s.off && s' == Added(s, r.p, off, s'.data[r.p], bad)
  }

  /** No call changes a page that is cached, and while blocks can be read every page is whole. */
  lemma ReplyKeeps(disk: Disk, f: File, s: Pages, s': Pages, r: Result, off: nat, fresh_: Ptr, bad: set<nat>, q: Ptr)
    requires Contents(disk, f, s) && Reply(disk, f, s, s', r, off, fresh_, bad)
    ensures q in s.off ==> q in s'.off && q in s'.data && q in s'.failed
    ensures q in s.off ==> s'.off[q] == s.off[q] && s'.data[q] == s.data[q] && s'.failed[q] == s.failed[q]
    ensures q in s.off ==> q in s'.count && s'.count[q] == s.count[q] + if r == Page(q) then 1 else 0
    ensures q in s'.off && q !in s.off ==> r == Page(q) && q in s'.count && s'.count[q] == 1 && s'.failed[q] == bad
    ensures Whole(disk, f, s) && (Has(s.off, off) || PageReadable(disk - bad, f, off)) ==> Whole(disk, f, s')
    ensures Whole(disk, f, s') && r.Page? ==> FilePage(disk, f, off, s'.data[r.p])
  {
    if Whole(disk, f, s') && r.Page? { WholePage(disk, s'.failed[r.p], f, off, s'.data[r.p]); }
  }

  /** A hit answers with the page as it is. */
  lemma HitReply(disk: Disk, f: File, s: Pages, p: Ptr, off: nat, fresh_: Ptr, bad: set<nat>)
    requires Contents(disk, f, s) && p in s.off && s.off[p] == off
    ensures Reply(disk, f, s, Counted(s, p), Page(p), off, fresh_, bad)
  {
    assert Shows(disk, f, s, s.off[p], p);
  }

  class Cache {
    const file: File
    const disk: Disk
    const tree: RbRoot
    var pcOff: Keys                        // pc_off of every cached page
    var data: map<Ptr, seq<Byte>>
    var count: map<Ptr, nat>
    ghost var failed: map<Ptr, set<nat>>

    ghost function Abs(): Pages
      reads this
    {
      Pages(pcOff, data, count, failed)
    }

    ghost predicate Valid()
      reads this, tree
    {
      && file.Ok() && DiskOk(disk) && Contents(disk, file, Abs())
      && tree.Valid() && RedBlack(tree.tree) && Orders(pcOff, InOrder(tree.tree))
    }

    constructor (file: File, disk: Disk)
      requires file.Ok() && DiskOk(disk)
      ensures Valid() && fresh(tree) && Abs() == Pages(map[], map[], map[], map[])
      ensures this.file == file && this.disk == disk
    {
      this.file, this.disk := file, disk;
      tree := new RbRoot();
      pcOff, data, count, failed := map[], map[], map[], map[];
    }

    /** The descent of pagecache_file_readpage. */
    method Lookup(off: nat) returns (found: Ptr, parent: Ptr, side: Side, ghost z: Path)
      requires Valid()
      ensures found != NULL ==> found in pcOff && pcOff[found] == off
      ensures found == NULL ==> !Has(pcOff, off)
      ensures found == NULL ==> Plug(z, Leaf) == tree.tree && parent == Hole(z) && (z.Step? ==> side == z.side)
      ensures found == NULL ==> All(Compare(pcOff, off), Greater, Before(z)) && All(Compare(pcOff, off), Less, After(z))
    {
      OrderGuides(pcOff, InOrder(tree.tree), off);
      var steps;
      found, parent, side, steps, z := tree.Descend(Compare(pcOff, off));
      if found == NULL { SlotMeansAbsent(pcOff, z, off); }
    }

    /** A hit: one more reference to the page. */
    method TakeRef(p: Ptr)
      requires Valid() && p in pcOff
      modifies this`count
      ensures Valid() && p in old(count) && Abs() == Counted(old(Abs()), p)
    {
      CountContents(disk, file, Abs(), p);
      count := count[p := count[p] + 1];
      assert Abs() == Counted(old(Abs()), p);
    }

    /** pagecache_file_readpage. `fresh_` is what alloc_page returns. */
    method ReadPage(off: nat, fresh_: Ptr, bad: set<nat>) returns (r: Result)
      requires Valid() && off < TWO32 && fresh_ !in pcOff
      modifies this, tree
      ensures Valid() && Reply(disk, file, old(Abs()), Abs(), r, off, fresh_, bad)
      ensures r.Page? <==> Served(disk, file, old(Abs()), off, fresh_, bad)
      ensures r.BugOn? <==> Asserts(file, old(Abs()), off, fresh_)
    {
      if off % PAGE_SIZE != 0 {
        return BugOn;
      }
      var found, parent, side, z := Lookup(off);
      if found != NULL {
        HitReply(disk, file, Abs(), found, off, fresh_, bad);
        TakeRef(found);
        return Page(found);
      }
      r := Miss(off, fresh_, bad, parent, side, z);
    }

    /** The second half of pagecache_file_readpage: no cached page has this offset. */
    method Miss(off: nat, fresh_: Ptr, bad: set<nat>, parent: Ptr, side: Side, ghost z: Path) returns (r: Result)
      requires Valid() && off < TWO32 && off % PAGE_SIZE == 0 && fresh_ !in pcOff && !Has(pcOff, off)
      requires Plug(z, Leaf) == tree.tree && parent == Hole(z) && (z.Step? ==> side == z.side)
      requires All(Compare(pcOff, off), Greater, Before(z)) && All(Compare(pcOff, off), Less, After(z))
      modifies this, tree
      ensures Valid() && Reply(disk, file, old(Abs()), Abs(), r, off, fresh_, bad)
      ensures r.Page? <==> Served(disk, file, old(Abs()), off, fresh_, bad)
      ensures r.BugOn? <==> Asserts(file, old(Abs()), off, fresh_)
    {
      if fresh_ == NULL {
        return NoPage;
      }
      BeyondMeans(file, off);
      var ok, bug, page := Fill(disk, file, off, bad);
      if bug {
        return BugOn;
      }
      if !ok {
        return NoPage;
      }
      Add(off, fresh_, page, bad, parent, side, z);
      r := Page(fresh_);
    }

    /** A filled page is linked where the descent ended. */
    method Add(off: nat, p: Ptr, page: seq<Byte>, ghost bad: set<nat>, parent: Ptr, side: Side, ghost z: Path)
      requires Valid() && off % PAGE_SIZE == 0 && p !in pcOff && p != NULL && ReadAt(disk, bad, file, off, page)
      requires Plug(z, Leaf) == tree.tree && parent == Hole(z) && (z.Step? ==> side == z.side)
      requires All(Compare(pcOff, off), Greater, Before(z)) && All(Compare(pcOff, off), Less, After(z))
      modifies this, tree
      ensures Valid() && Abs() == Added(old(Abs()), p, off, page, bad)
    {
      SlotKeepsOrder(pcOff, z, p, off);
      AddContents(disk, file, Abs(), p, off, page, bad);
      tree.Insert(p, parent, side, z);
      pcOff := pcOff[p := off];
      data := data[p := page];
      count := count[p := 1];
      failed := failed[p := bad];
      assert Abs() == Added(old(Abs()), p, off, page, bad);
    }
  }
}
