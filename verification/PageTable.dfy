/** Two-level page tables: setup_new_ctx and map_page_to_ctx of arch-ia32/mm.c, read
    through the address translation of 32-bit paging (Intel SDM volume 3A, section 4.3). */
module PageTable {
  import opened Common

  const NR_PDE: nat := 1024
  const NR_PTE: nat := 1024
  const KERNEL_PDE: nat := 768

  type Frame = nat
  type Table = seq<nat>
  type Tables = map<Frame, Table>

  function Dir(va: nat): nat { va / 0x40_0000 }

  function Tbl(va: nat): nat { va / PAGE_SIZE % NR_PTE }

  // ----- entries: frame number above, flags in the low twelve bits

  predicate Present(e: nat) { e % 2 == 1 }

  predicate Writable(e: nat) { e / 2 % 2 == 1 }

  predicate User(e: nat) { e / 4 % 2 == 1 }

  function FrameOf(e: nat): Frame { e / PAGE_SIZE }

  /** pa | PDE_PRESENT | PDE_RW | PDE_USER */
  function Pde(f: Frame): nat { f * PAGE_SIZE + 7 }

  /** pa | PTE_PRESENT | PTE_USER, and PTE_RW if the page may be written */
  function Pte(f: Frame, write: bool): nat { f * PAGE_SIZE + if write then 7 else 5 }

  /** On a page-aligned address the bitwise ors of the C code are additions. */
  lemma FlagsByOr(pa: bv32)
    requires pa & 0xfff == 0
    ensures pa | 7 == pa + 7 && pa | 5 == pa + 5
  {
  }

  lemma EntryParts(f: Frame, write: bool)
    ensures FrameOf(Pde(f)) == f && Present(Pde(f)) && Writable(Pde(f)) && User(Pde(f))
    ensures FrameOf(Pte(f, write)) == f && Present(Pte(f, write)) && User(Pte(f, write))
            && (Writable(Pte(f, write)) <==> write)
  {
    LowBits(f, 3);
    LowBits(f, 2);
  }

  /** The flags are in their places: present, write and user from bit 0 on. */
  lemma EntryFlags(f: Frame, write: bool)
    ensures Pde(f) % 8 == 7 && Pte(f, write) % 8 == if write then 7 else 5
  {
    LowThree(f, 7);
    LowThree(f, 5);
  }

  lemma LowThree(f: nat, r: nat)
    requires r < 8
    ensures (f * 4096 + r) % 8 == r
  {
    var h := f * 512;
    assert f * 4096 + r == 8 * h + r;
  }

  /** Entries whose lowest bit is set, with b in the other flag bits. */
  lemma LowBits(f: nat, b: nat)
    requires 2 <= b < 4
    ensures var e := f * 4096 + (2 * b + 1); e / 4096 == f && e % 2 == 1 && e / 2 % 2 == b % 2 && e / 4 % 2 == 1
  {
    var e := f * 4096 + (2 * b + 1);
    Half(e, f * 2048 + b, 1);
    Half(f * 2048 + b, f * 1024 + 1, b - 2);
    Half(f * 1024 + 1, f * 512, 1);
    assert e / 4 == e / 2 / 2;
  }

  lemma Half(n: nat, h: nat, r: nat)
    requires n == 2 * h + r && r < 2
    ensures n / 2 == h && n % 2 == r
  {
  }

  // ----- translation

  datatype Mapping = Unmapped | Mapped(frame: Frame, write: bool, user: bool)

  function Walk(pgd: Table, tables: Tables, va: nat): Mapping
    requires |pgd| == NR_PDE && va < TWO32
  {
    var pde := pgd[Dir(va)];
    if !Present(pde) || FrameOf(pde) !in tables || Tbl(va) >= |tables[FrameOf(pde)]| then Unmapped else
    var pte := tables[FrameOf(pde)][Tbl(va)];
    if !Present(pte) then Unmapped
    else Mapped(FrameOf(pte), Writable(pde) && Writable(pte), User(pde) && User(pte))
  }

  /** Every table that a user entry of the directory names is there, writable for user code, and
      named by no other entry. */
  predicate Owned(pgd: Table, tables: Tables) {
    && |pgd| == NR_PDE
    && (forall d :: 0 <= d < KERNEL_PDE && Present(pgd[d]) ==>
          FrameOf(pgd[d]) in tables && |tables[FrameOf(pgd[d])]| == NR_PTE && Writable(pgd[d]) && User(pgd[d]))
    && (forall d, e :: 0 <= d < KERNEL_PDE && 0 <= e < NR_PDE && d != e && Present(pgd[d]) && Present(pgd[e]) ==>
          FrameOf(pgd[d]) != FrameOf(pgd[e]))
  }

  lemma SameEntry(va: nat, addr: nat)
    requires va < TWO32 && addr < TWO32
    ensures Dir(va) == Dir(addr) && Tbl(va) == Tbl(addr) <==> va / PAGE_SIZE == addr / PAGE_SIZE
    ensures Dir(va) < NR_PDE && Tbl(va) < NR_PTE
    ensures addr < PAGE_OFFSET <==> Dir(addr) < KERNEL_PDE
  {
    DirOf(va);
    DirOf(addr);
    SameParts(va / PAGE_SIZE, addr / PAGE_SIZE);
  }

  lemma DirOf(va: nat)
    requires va < TWO32
    ensures Dir(va) == va / PAGE_SIZE / NR_PTE && Dir(va) < NR_PDE && (va < PAGE_OFFSET <==> Dir(va) < KERNEL_PDE)
  {
  }

  /** The two indexes and the place in the page make up the address, ten, ten and twelve bits of it. */
  lemma AddressParts(va: nat)
    requires va < TWO32
    ensures va == Dir(va) * 0x40_0000 + Tbl(va) * 0x1000 + va % 0x1000
    ensures Dir(va) < 0x400 && Tbl(va) < 0x400
  {
    DirOf(va);
  }

  lemma SameParts(x: nat, y: nat)
    ensures x / NR_PTE == y / NR_PTE && x % NR_PTE == y % NR_PTE <==> x == y
    ensures x % NR_PTE < NR_PTE
  {
  }

  /** A zeroed table put under an absent entry changes no translation. */
  lemma NewTableKeeps(pgd: Table, tables: Tables, d: nat, f: Frame, t: Table, va: nat)
    requires Owned(pgd, tables) && d < KERNEL_PDE && !Present(pgd[d]) && f !in tables && va < TWO32
    requires forall e :: 0 <= e < NR_PDE && Present(pgd[e]) ==> FrameOf(pgd[e]) != f
    requires |t| == NR_PTE && forall i :: 0 <= i < NR_PTE ==> t[i] == 0
    ensures Walk(pgd[d := Pde(f)], tables[f := t], va) == Walk(pgd, tables, va)
  {
    EntryParts(f, true);
    SameEntry(va, va);
  }

  lemma NewTableOwned(pgd: Table, tables: Tables, d: nat, f: Frame, t: Table)
    requires Owned(pgd, tables) && d < KERNEL_PDE && !Present(pgd[d]) && f !in tables && |t| == NR_PTE
    requires forall e :: 0 <= e < NR_PDE && Present(pgd[e]) ==> FrameOf(pgd[e]) != f
    ensures Owned(pgd[d := Pde(f)], tables[f := t])
  {
    EntryParts(f, true);
  }

  function SetEntry(tables: Tables, g: Frame, i: nat, e: nat): Tables
    requires g in tables && i < |tables[g]|
  {
    var t: Table := tables[g][i := e]; tables[g := t]
  }

  /** Writing one entry of one table changes the translation of one page. */
  lemma EntrySet(pgd: Table, tables: Tables, addr: nat, f: Frame, write: bool, va: nat)
    requires Owned(pgd, tables) && addr < PAGE_OFFSET && Present(pgd[Dir(addr)]) && va < TWO32
    ensures var g := FrameOf(pgd[Dir(addr)]);
            && g in tables && Tbl(addr) < |tables[g]|
            && var tables' := SetEntry(tables, g, Tbl(addr), Pte(f, write));
            && Owned(pgd, tables')
            && Walk(pgd, tables', va) ==
                 if va / PAGE_SIZE == addr / PAGE_SIZE then Mapped(f, write, true) else Walk(pgd, tables, va)
  {
    SameEntry(va, addr);
    SameEntry(addr, addr);
    EntryParts(f, write);
  }

  datatype Outcome = Done | NoMemory | BugOn

  class AddressSpace {
    var pgd: Table
    var tables: Tables

    ghost predicate Valid()
      reads this
    {
      Owned(pgd, tables)
    }

    /** Frame f is free to become a table. */
    ghost predicate Unused(f: Frame)
      requires Valid()
      reads this
    {
      f !in tables && forall e :: 0 <= e < NR_PDE && Present(pgd[e]) ==> FrameOf(pgd[e]) != f
    }

    /** setup_new_ctx: the directory starts as a copy of the kernel's, whose user half is empty. */
    constructor (kpgd: Table, tables: Tables)
      requires |kpgd| == NR_PDE && forall d :: 0 <= d < KERNEL_PDE ==> !Present(kpgd[d])
      ensures Valid() && pgd == kpgd && this.tables == tables
    {
      this.pgd := seq(NR_PDE, _ => 0);
      this.tables := tables;
      new;
      var i := 0;
      while i < NR_PDE
        invariant 0 <= i <= NR_PDE && |pgd| == NR_PDE && pgd[..i] == kpgd[..i] && this.tables == tables
      {
        pgd := pgd[i := kpgd[i]];
        i := i + 1;
      }
      assert pgd == pgd[..NR_PDE] && kpgd == kpgd[..NR_PDE];
    }

    /** map_page_to_ctx. `fresh_` is the frame alloc_page would give for a new table, if any. */
    method MapPage(f: Frame, addr: nat, write: bool, hasFresh: bool, fresh_: Frame) returns (r: Outcome)
      requires Valid() && addr < TWO32
      requires hasFresh ==> Unused(fresh_)
      modifies this
      ensures Valid()
      ensures r.BugOn? <==> addr >= PAGE_OFFSET
      ensures r.NoMemory? <==> addr < PAGE_OFFSET && !Present(old(pgd)[Dir(addr)]) && !hasFresh
      ensures !r.Done? ==> pgd == old(pgd) && tables == old(tables)
      ensures r.Done? ==> forall va {:trigger Walk(pgd, tables, va)} :: 0 <= va < TWO32 ==>
                Walk(pgd, tables, va) ==
                  if va / PAGE_SIZE == addr / PAGE_SIZE then Mapped(f, write, true) else old(Walk(pgd, tables, va))
      ensures forall d :: KERNEL_PDE <= d < NR_PDE ==> pgd[d] == old(pgd)[d]
    {
      if addr >= PAGE_OFFSET {
        return BugOn;
      }
      SameEntry(addr, addr);
      if !Present(pgd[Dir(addr)]) {
        if !hasFresh {
          return NoMemory;
        }
        AddTable(Dir(addr), fresh_);
      }
      ghost var tables1 := tables;
      var pt := FrameOf(pgd[Dir(addr)]);
      forall va | 0 <= va < TWO32
        ensures pt in tables && Tbl(addr) < |tables[pt]|
        ensures var tables' := SetEntry(tables, pt, Tbl(addr), Pte(f, write));
                Owned(pgd, tables') && Walk(pgd, tables', va) ==
                  if va / PAGE_SIZE == addr / PAGE_SIZE then Mapped(f, write, true) else Walk(pgd, tables, va)
      {
        EntrySet(pgd, tables, addr, f, write, va);
      }
      EntrySet(pgd, tables, addr, f, write, addr);
      tables := SetEntry(tables, pt, Tbl(addr), Pte(f, write));
      r := Done;
    }

    /** The part of map_page_to_ctx that allocates and clears a table. */
    method AddTable(d: nat, f: Frame)
      requires Valid() && d < KERNEL_PDE && !Present(pgd[d]) && Unused(f)
      modifies this
      ensures Valid() && Present(pgd[d]) && pgd == old(pgd)[d := Pde(f)]
      ensures forall va {:trigger Walk(pgd, tables, va)} :: 0 <= va < TWO32 ==>
              Walk(pgd, tables, va) == old(Walk(pgd, tables, va))
    {
      var t := seq(NR_PTE, _ => 0);
      forall va | 0 <= va < TWO32 ensures Walk(pgd[d := Pde(f)], tables[f := t], va) == Walk(pgd, tables, va) {
        NewTableKeeps(pgd, tables, d, f, t, va);
      }
      NewTableOwned(pgd, tables, d, f, t);
      EntryParts(f, true);
      tables := tables[f := t];
      pgd := pgd[d := Pde(f)];
    }
  }
}
