/** The areas of a memory context: lookup_vma, vma_insert and setup_vma of kernel/mm.c. */
module Vma {
  import opened Common
  import opened RbShape
  import opened RbTree
  import opened RbWalk

  datatype Prot = ProtRead | ProtExec | ProtWrite

  /** File inode, or none for an anonymous area. */
  datatype Backing = Anonymous | FileOf(ino: nat)

  datatype Area = Area(begin: nat, end: nat, prot: set<Prot>, off: nat, back: Backing)

  type Areas = map<Ptr, Area>

  /** The arguments of setup_vma: `len` bytes at va, for a file from offset off on. */
  datatype Mapping = Mapping(va: nat, len: nat, prot: set<Prot>, back: Backing, off: nat) {
    predicate Ok() { va < TWO32 && len < TWO32 && off < TWO32 }

    /** The place in the file of address x, in 32 bits. */
    function Place(x: nat): nat { (off + x - va) % TWO32 }
  }

  function RoundDown(va: nat): nat { va / PAGE_SIZE * PAGE_SIZE }

  /** va_round_up, in 32 bits. */
  function RoundUp(va: nat): nat { (va + PAGE_SIZE - 1) % TWO32 / PAGE_SIZE * PAGE_SIZE }

  /** Areas in order of address, none overlapping the next. */
  predicate Sorted(m: Areas, s: seq<Ptr>) {
    forall i, j :: 0 <= i < j < |s| && s[i] in m && s[j] in m ==> m[s[i]].end <= m[s[j]].begin
  }

  /** s lists the areas, each before those that begin at its end or later. */
  predicate Listed(m: Areas, s: seq<Ptr>) {
    (forall p :: p in s ==> p in m) && (forall p :: p in m ==> p in s) && Sorted(m, s)
  }

  /** s lists the areas by address, and they do not overlap. */
  predicate Orders(m: Areas, s: seq<Ptr>) {
    Listed(m, s) && forall p :: p in m ==> m[p].begin <= m[p].end
  }

  /** lookup_vma: the end of an area counts as inside. */
  function CompareAddr(m: Areas, va: nat): Ptr -> Order {
    p => if p !in m then Equal else if va < m[p].begin then Less else if va > m[p].end then Greater else Equal
  }

  /** vma_insert: the end of an area counts as outside. */
  function CompareArea(m: Areas, a: Area): Ptr -> Order {
    p => if p !in m then Equal else if a.end <= m[p].begin then Less else if a.begin >= m[p].end then Greater else Equal
  }

  predicate Touches(a: Area, va: nat) { a.begin <= va <= a.end }

  predicate Contains(a: Area, va: nat) { a.begin <= va < a.end }

  /** Some area is in the way of a. */
  predicate Clashes(m: Areas, a: Area) { exists q :: q in m && Overlaps(a, m[q]) }

  /** Offset and address of a file mapping are at different places of their pages. */
  predicate Misaligned(v: Mapping) { v.back.FileOf? && v.off % PAGE_SIZE != v.va % PAGE_SIZE }

  predicate Overlaps(a: Area, b: Area) { a.end > b.begin && a.begin < b.end }

  lemma AddrGuides(m: Areas, s: seq<Ptr>, va: nat)
    requires Orders(m, s)
    ensures Guides(CompareAddr(m, va), s)
  {
    var cmp := CompareAddr(m, va);
    forall i, j | 0 <= i < j < |s|
      ensures (cmp(s[i]).Less? ==> cmp(s[j]).Less?) && (cmp(s[j]).Greater? ==> cmp(s[i]).Greater?)
    {
      assert s[i] in s && s[j] in s;
    }
  }

  lemma AreaGuides(m: Areas, s: seq<Ptr>, a: Area)
    requires Orders(m, s)
    ensures Guides(CompareArea(m, a), s)
  {
    var cmp := CompareArea(m, a);
    forall i, j | 0 <= i < j < |s|
      ensures (cmp(s[i]).Less? ==> cmp(s[j]).Less?) && (cmp(s[j]).Greater? ==> cmp(s[i]).Greater?)
    {
      assert s[i] in s && s[j] in s;
    }
  }

  lemma NoneEqual(m: Areas, z: Path, cmp: Ptr -> Order)
    requires Listed(m, InOrder(Plug(z, Leaf))) && All(cmp, Greater, Before(z)) && All(cmp, Less, After(z))
    ensures forall p :: p in m ==> !cmp(p).Equal?
  {
    SlotOrder(z);
    forall p | p in m ensures !cmp(p).Equal? {
      assert p in Before(z) + After(z);
    }
  }

  lemma InsertListed(m: Areas, a: seq<Ptr>, b: seq<Ptr>, p: Ptr, n: Area)
    requires Listed(m, a + b) && p !in m
    requires All(CompareArea(m, n), Greater, a) && All(CompareArea(m, n), Less, b)
    ensures Listed(m[p := n], a + [p] + b)
  {
    var m', s, t, cmp := m[p := n], a + b, a + [p] + b, CompareArea(m, n);
    assert t[|a|] == p;
    forall q | q in t ensures q in m' {
      if q != p { assert q in s; }
    }
    forall q | q in m' ensures q in t {
      if q != p { assert q in s; }
    }
    forall i | 0 <= i < |a| ensures a[i] in m && m[a[i]].end <= n.begin {
      assert a[i] in s && cmp(a[i]).Greater?;
    }
    forall i | 0 <= i < |b| ensures b[i] in m && n.end <= m[b[i]].begin {
      assert b[i] in s && cmp(b[i]).Less?;
    }
    InsertSorted(m, a, b, p, n);
  }

  lemma InsertSorted(m: Areas, a: seq<Ptr>, b: seq<Ptr>, p: Ptr, n: Area)
    requires Sorted(m, a + b) && p !in m
    requires forall i :: 0 <= i < |a| ==> a[i] in m && m[a[i]].end <= n.begin
    requires forall i :: 0 <= i < |b| ==> b[i] in m && n.end <= m[b[i]].begin
    ensures Sorted(m[p := n], a + [p] + b)
  {
    var s, t := a + b, a + [p] + b;
    forall i, j | 0 <= i < j < |t| ensures m[p := n][t[i]].end <= m[p := n][t[j]].begin {
      var i', j' := if i < |a| then i else i - 1, if j < |a| then j else j - 1;
      if i != |a| { assert t[i] == s[i']; }
      if j != |a| { assert t[j] == s[j']; }
    }
  }

  lemma SlotKeepsOrder(m: Areas, z: Path, p: Ptr, n: Area)
    requires Listed(m, InOrder(Plug(z, Leaf))) && p !in m
    requires All(CompareArea(m, n), Greater, Before(z)) && All(CompareArea(m, n), Less, After(z))
    ensures Listed(m[p := n], Before(z) + [p] + After(z)) && p !in Nodes(Plug(z, Leaf))
  {
    SlotOrder(z);
    InOrderNodes(Plug(z, Leaf));
    InsertListed(m, Before(z), After(z), p, n);
  }

  lemma UprightExact(m: Areas, s: seq<Ptr>, p: Ptr, n: Area, t: seq<Ptr>)
    requires Orders(m, s) && p !in m && Listed(m[p := n], t)
    ensures Orders(m[p := n], t) <==> n.begin <= n.end
  {
    assert m[p := n][p] == n;
  }

  // ----- what lookup_vma means

  /** p is the answer one expects: the area that contains va, or null when none does. */
  predicate Answers(m: Areas, va: nat, p: Ptr) {
    if p == NULL then forall q :: q in m ==> !Contains(m[q], va) else p in m && Contains(m[p], va)
  }

  /** What lookup_vma guarantees. */
  predicate Found(m: Areas, va: nat, p: Ptr) {
    if p == NULL then forall q :: q in m ==> !Touches(m[q], va) else p in m && Touches(m[p], va)
  }

  /** Away from the ends of areas the lookup is right. */
  lemma LookupRight(m: Areas, va: nat, p: Ptr)
    requires Found(m, va, p) && forall q :: q in m ==> m[q].end != va
    ensures Answers(m, va, p)
  {
  }

  /** At the end of an area, where no other begins, it is always wrong. */
  lemma LookupWrong(m: Areas, s: seq<Ptr>, va: nat, p: Ptr, a: Ptr)
    requires Orders(m, s) && NULL !in m && Found(m, va, p) && a in m && m[a].end == va
    requires forall q :: q in m ==> !Contains(m[q], va)
    ensures !Answers(m, va, p)
  {
    assert Touches(m[a], va);
  }

  /** Areas never overlap, so at most one contains an address. */
  lemma OneContains(m: Areas, s: seq<Ptr>, va: nat, p: Ptr, q: Ptr)
    requires Orders(m, s) && p in m && q in m && Contains(m[p], va) && Contains(m[q], va)
    ensures p == q
  {
    var i :| 0 <= i < |s| && s[i] == p;
    var j :| 0 <= j < |s| && s[j] == q;
  }

  /** Where two areas meet, the answer depends on the shape of the tree: same areas, same
      order, both trees red-black, different answers. */
  lemma AdjacentEitherWay()
    ensures var m := map[1 := Area(0, 4096, {}, 0, Anonymous), 2 := Area(4096, 8192, {}, 0, Anonymous)];
            var t, u := Br(Leaf, 1, Black, Br(Leaf, 2, Red, Leaf)), Br(Br(Leaf, 1, Red, Leaf), 2, Black, Leaf);
            && RedBlack(t) && RedBlack(u) && InOrder(t) == InOrder(u) == [1, 2] && Orders(m, [1, 2])
            && Reach(CompareAddr(m, 4096), t) == 1 && !Answers(m, 4096, 1)
            && Reach(CompareAddr(m, 4096), u) == 2 && Answers(m, 4096, 2)
  {
    assert InOrder(Br(Leaf, 2, Red, Leaf)) == [2] && InOrder(Br(Leaf, 1, Red, Leaf)) == [1];
  }

  /** Every area that ends at va has, above it in the tree, one that begins there and is not empty. */
  predicate EndsCovered(m: Areas, t: Tree, va: nat) {
    forall a :: a in m && m[a].end == va ==> exists b :: b in m && Contains(m[b], va) && Below(t, b, a)
  }

  /** The lookup is right, for every address and every tree of areas, empty ones included, if and
      only if the areas that end at the address all stand below the one that contains it. */
  lemma LookupExact(m: Areas, t: Tree, va: nat)
    requires Orders(m, InOrder(t)) && Distinct(t) && NULL !in m
    ensures var p := Reach(CompareAddr(m, va), t);
            Found(m, va, p) && (Answers(m, va, p) <==> EndsCovered(m, t, va))
  {
    var p := Reach(CompareAddr(m, va), t);
    ReachFound(m, t, va);
    if Answers(m, va, p) { AnswerCovers(m, t, va, p); }
    if EndsCovered(m, t, va) { CoversAnswer(m, t, va, p); }
  }

  lemma ReachFound(m: Areas, t: Tree, va: nat)
    requires Orders(m, InOrder(t)) && Distinct(t) && NULL !in m
    ensures Found(m, va, Reach(CompareAddr(m, va), t))
  {
    var p := Reach(CompareAddr(m, va), t);
    ReachIn(CompareAddr(m, va), t);
    InOrderNodes(t);
    forall a | a in m && Touches(m[a], va) ensures p != NULL {
      HitBelow(m, t, va, a);
      BelowIn(t, p, a);
    }
  }

  lemma HitBelow(m: Areas, t: Tree, va: nat, a: Ptr)
    requires Orders(m, InOrder(t)) && Distinct(t) && a in m && Touches(m[a], va)
    ensures Below(t, Reach(CompareAddr(m, va), t), a)
  {
    AddrGuides(m, InOrder(t), va);
    InOrderNodes(t);
    assert a in InOrder(t);
    FirstHit(CompareAddr(m, va), t, a);
  }

  lemma AnswerCovers(m: Areas, t: Tree, va: nat, p: Ptr)
    requires Orders(m, InOrder(t)) && Distinct(t) && NULL !in m && p == Reach(CompareAddr(m, va), t)
    requires Found(m, va, p) && Answers(m, va, p)
    ensures EndsCovered(m, t, va)
  {
    forall a | a in m && m[a].end == va ensures exists b :: b in m && Contains(m[b], va) && Below(t, b, a) {
      assert Touches(m[a], va);
      HitBelow(m, t, va, a);
    }
  }

  lemma CoversAnswer(m: Areas, t: Tree, va: nat, p: Ptr)
    requires Orders(m, InOrder(t)) && Distinct(t) && NULL !in m && p == Reach(CompareAddr(m, va), t)
    requires Found(m, va, p) && EndsCovered(m, t, va)
    ensures Answers(m, va, p)
  {
    if p != NULL && !Contains(m[p], va) {
      var b :| b in m && Contains(m[b], va) && Below(t, b, p);
      HitBelow(m, t, va, b);
      BelowAntisymmetric(t, b, p);
    }
  }

  /** The area begins at or before va, and ends before it. */
  predicate Past(a: Area, va: nat) { a.begin <= va && a.end < va }

  /** Every area in whose right subtree q stands is past va. */
  predicate Clear(m: Areas, t: Tree, va: nat, q: Ptr) {
    forall n :: n in m && RightBelow(t, n, q) ==> Past(m[n], va)
  }

  /** For every tree of areas, also of such as end before they begin: the area that contains the address
      is found if and only if those it stands to the right of, in the tree, are all past the address. */
  lemma {:induction false} FoundExact(m: Areas, t: Tree, va: nat, q: Ptr)
    requires Distinct(t) && Sorted(m, InOrder(t)) && (forall n :: n in Nodes(t) ==> n in m)
    requires q in Nodes(t) && Contains(m[q], va)
    ensures Reach(CompareAddr(m, va), t) == q <==> Clear(m, t, va, q)
  {
    var cmp := CompareAddr(m, va);
    RightBelowRoot(t, q);
    if q in Nodes(t.left) {
      SortedSides(m, t, q);
      FoundExact(m, t.left, va, q);
    } else if q in Nodes(t.right) {
      SortedSides(m, t, q);
      if cmp(t.node).Greater? {
        FoundExact(m, t.right, va, q);
      } else {
        ReachIn(cmp, t.left);
        assert RightBelow(t, t.node, q) && !Past(m[t.node], va);
        RootIn(t);
      }
    }
  }

  lemma SortedSides(m: Areas, t: Tree, q: Ptr)
    requires t.Br? && Sorted(m, InOrder(t)) && t.node in m && q in m
    ensures Sorted(m, InOrder(t.left)) && Sorted(m, InOrder(t.right))
    ensures q in Nodes(t.left) ==> m[q].end <= m[t.node].begin
    ensures q in Nodes(t.right) ==> m[t.node].end <= m[q].begin
  {
    InOrderNodes(t.left);
    InOrderNodes(t.right);
    SortedAround(m, InOrder(t.left), t.node, InOrder(t.right));
  }

  lemma SortedAround(m: Areas, l: seq<Ptr>, n: Ptr, r: seq<Ptr>)
    requires Sorted(m, l + [n] + r) && n in m
    ensures Sorted(m, l) && forall q :: q in l && q in m ==> m[q].end <= m[n].begin
    ensures Sorted(m, r) && forall q :: q in r && q in m ==> m[n].end <= m[q].begin
  {
    var s := l + [n] + r;
    forall i | 0 <= i < |l| ensures l[i] == s[i] { }
    forall i | 0 <= i < |r| ensures r[i] == s[|l| + 1 + i] { }
    assert s[|l|] == n;
  }

  /** Which nodes q stands to the right of, seen from the root. */
  lemma RightBelowRoot(t: Tree, q: Ptr)
    requires Distinct(t) && q in Nodes(t)
    ensures t.node == q ==> forall n :: !RightBelow(t, n, q)
    ensures q in Nodes(t.left) ==> forall n :: RightBelow(t, n, q) <==> RightBelow(t.left, n, q)
    ensures q in Nodes(t.right) ==> forall n :: RightBelow(t, n, q) <==> n == t.node || RightBelow(t.right, n, q)
  {
    forall n ensures RightBelow(t.left, n, q) ==> q in Nodes(t.left) && n in Nodes(t.left) {
      if RightBelow(t.left, n, q) { RightBelowIn(t.left, n, q); }
    }
    forall n ensures RightBelow(t.right, n, q) ==> q in Nodes(t.right) && n in Nodes(t.right) {
      if RightBelow(t.right, n, q) { RightBelowIn(t.right, n, q); }
    }
  }

  // ----- the tree of areas

  datatype Outcome = Done | NoMemory | BugOn

  class Context {
    var area: Areas
    const tree: RbRoot

    /** The tree holds the areas, page by page. */
    ghost predicate Linked()
      reads this, tree
    {
      && NULL !in area && (forall p :: p in area ==> area[p].begin % PAGE_SIZE == 0 && area[p].end % PAGE_SIZE == 0)
      && tree.Valid() && RedBlack(tree.tree) && Listed(area, InOrder(tree.tree))
    }

    /** And no area ends before it begins, so that they are in order of address and do not overlap. */
    ghost predicate Valid()
      reads this, tree
    {
      Linked() && Orders(area, InOrder(tree.tree))
    }

    constructor ()
      ensures Valid() && area == map[] && fresh(tree)
    {
      area := map[];
      tree := new RbRoot();
    }

    method Lookup(va: nat) returns (p: Ptr)
      requires Linked()
      ensures p == Reach(CompareAddr(area, va), tree.tree) && (p != NULL ==> p in area && Touches(area[p], va))
      ensures forall q :: q in area && Contains(area[q], va) ==> (p == q <==> Clear(area, tree.tree, va, q))
      ensures Valid() ==> Found(area, va, p) && (Answers(area, va, p) <==> EndsCovered(area, tree.tree, va))
    {
      p := tree.Find(CompareAddr(area, va));
      ReachIn(CompareAddr(area, va), tree.tree);
      InOrderNodes(tree.tree);
      forall q | q in area && Contains(area[q], va) ensures p == q <==> Clear(area, tree.tree, va, q) {
        FoundExact(area, tree.tree, va, q);
      }
      if Orders(area, InOrder(tree.tree)) { LookupExact(area, tree.tree, va); }
    }

    /** The descent of vma_insert. */
    method Search(a: Area) returns (found: Ptr, parent: Ptr, side: Side, ghost z: Path)
      requires Valid()
      ensures found != NULL ==> found in area && Overlaps(a, area[found])
      ensures found == NULL ==> forall q :: q in area ==> !Overlaps(a, area[q])
      ensures found == NULL ==> Plug(z, Leaf) == tree.tree && parent == Hole(z) && (z.Step? ==> side == z.side)
      ensures found == NULL ==>
                All(CompareArea(area, a), Greater, Before(z)) && All(CompareArea(area, a), Less, After(z))
    {
      AreaGuides(area, InOrder(tree.tree), a);
      var steps;
      found, parent, side, steps, z := tree.Descend(CompareArea(area, a));
      if found == NULL { NoneEqual(area, z, CompareArea(area, a)); NoOverlap(a); }
    }

    /** vma_insert: a new area that overlaps none, or a failed assertion. */
    method Insert(p: Ptr, a: Area) returns (ok: bool)
      requires Valid() && p !in area && p != NULL
      requires a.begin % PAGE_SIZE == 0 && a.end % PAGE_SIZE == 0
      modifies this`area, tree
      ensures Linked() && (Valid() <==> !ok || a.begin <= a.end)
      ensures area == if ok then old(area)[p := a] else old(area)
      ensures ok <==> !Clashes(old(area), a)
    {
      var found, parent, side, z := Search(a);
      if found != NULL {
        return false;
      }
      SlotKeepsOrder(area, z, p, a);
      UprightExact(area, InOrder(tree.tree), p, a, Before(z) + [p] + After(z));
      tree.Insert(p, parent, side, z);
      area := area[p := a];
      ok := true;
    }

    lemma NoOverlap(a: Area)
      requires forall p :: p in area ==> !CompareArea(area, a)(p).Equal?
      ensures forall q :: q in area ==> !Overlaps(a, area[q])
    {
      forall q | q in area ensures !Overlaps(a, area[q]) { assert !CompareArea(area, a)(q).Equal?; }
    }

    /** setup_vma. `fresh_` is what the object cache returns. An area that reaches the end of the address
        space is linked although it ends before it begins. */
    method Setup(v: Mapping, fresh_: Ptr) returns (r: Outcome)
      requires Valid() && v.Ok() && fresh_ !in area
      modifies this`area, tree
      ensures Linked() && (Valid() <==> !(r.Done? && Inverts(v)))
      ensures r.NoMemory? <==> fresh_ == NULL
      ensures r.BugOn? <==> fresh_ != NULL && (Misaligned(v) || Clashes(old(area), NewArea(v)))
      ensures area == if r.Done? then old(area)[fresh_ := NewArea(v)] else old(area)
      ensures r.Done? ==> area[fresh_].prot == v.prot && area[fresh_].back == v.back
      ensures r.Done? && Fits(v) ==> Valid() && forall x: nat :: Asks(v, x) ==> Contains(area[fresh_], x)
    {
      CoversExact(v);
      if Fits(v) { FitsUpright(v); }
      if fresh_ == NULL {
        return NoMemory;
      }
      var bug, a := Fill(v);
      if bug {
        return BugOn;
      }
      var ok := Insert(fresh_, a);
      r := if ok then Done else BugOn;
    }
  }

  /** The fields of the new area, and the assertion on its offset. */
  method Fill(v: Mapping) returns (bug: bool, a: Area)
    requires v.Ok()
    ensures bug <==> Misaligned(v)
    ensures a == NewArea(v) && a.begin % PAGE_SIZE == 0 && a.end % PAGE_SIZE == 0
    ensures a.end < a.begin <==> Inverts(v)
  {
    var begin, end := RoundDown(v.va), RoundUp(v.va + v.len);
    RoundFacts(v);
    InvertsExact(v);
    var vmaOff := 0;
    if v.back.FileOf? {
      vmaOff := (v.off - (v.va - begin)) % TWO32;
    }
    bug, a := vmaOff % PAGE_SIZE != 0, Area(begin, end, v.prot, vmaOff, v.back);
  }

  lemma RoundFacts(v: Mapping)
    requires v.Ok()
    ensures RoundDown(v.va) % PAGE_SIZE == 0 && RoundUp(v.va + v.len) % PAGE_SIZE == 0
    ensures (v.off - (v.va - RoundDown(v.va))) % TWO32 % PAGE_SIZE == 0 <==> v.off % PAGE_SIZE == v.va % PAGE_SIZE
  {
    Split(v.va);
    WordToPage(v.off - v.va % PAGE_SIZE);
    SamePlace(v.off, v.va % PAGE_SIZE);
    RoundedUp(v.va + v.len);
  }

  lemma WordToPage(x: int)
    ensures x % TWO32 % PAGE_SIZE == x % PAGE_SIZE
  {
    assert x == x / TWO32 * TWO32 + x % TWO32;
  }

  lemma SamePlace(x: nat, d: nat)
    requires d < PAGE_SIZE
    ensures (x - d) % PAGE_SIZE == 0 <==> x % PAGE_SIZE == d
  {
  }

  lemma RoundedUp(x: nat)
    ensures RoundUp(x) % PAGE_SIZE == 0
  {
  }

  /** The area setup_vma makes. */
  function NewArea(v: Mapping): Area {
    Area(RoundDown(v.va), RoundUp(v.va + v.len), v.prot,
         if v.back.FileOf? then (v.off - (v.va - RoundDown(v.va))) % TWO32 else 0, v.back)
  }

  // ----- what is covered

  /** The request and its last page end below 2^32. */
  predicate Fits(v: Mapping) { v.va + v.len + PAGE_SIZE <= TWO32 }

  /** Address x is one of those asked for. */
  predicate Asks(v: Mapping, x: int) { v.va <= x < v.va + v.len }

  /** The new area covers what was asked for if and only if that fits: for all arguments. */
  lemma CoversExact(v: Mapping)
    requires v.Ok()
    ensures (forall x: nat :: Asks(v, x) ==> Contains(NewArea(v), x)) <==> Fits(v) || v.len == 0
  {
    Split(v.va);
    var y := v.va + v.len + PAGE_SIZE - 1;
    RoundBelow(y % TWO32);
    if Fits(v) {
      assert y % TWO32 == y;
    } else if v.len > 0 {
      assert y % TWO32 <= y - TWO32;
      assert Asks(v, v.va + v.len - 1);
    }
  }

  /** And then it is the least run of pages that does: each of its addresses is on the page of one that was
      asked for. */
  lemma CoversLeast(v: Mapping, x: nat) returns (y: nat)
    requires v.Ok() && Fits(v) && v.len > 0 && Contains(NewArea(v), x)
    ensures Asks(v, y) && y / PAGE_SIZE == x / PAGE_SIZE
  {
    y := if x < v.va then v.va else if x < v.va + v.len then x else v.va + v.len - 1;
    RoundBelow(v.va + v.len + PAGE_SIZE - 1);
    Split(v.va);
    SamePage(x, y, v);
  }

  lemma SamePage(x: nat, y: nat, v: Mapping)
    requires RoundDown(v.va) <= x < RoundDown(v.va + v.len + PAGE_SIZE - 1) && v.len > 0
    requires y == if x < v.va then v.va else if x < v.va + v.len then x else v.va + v.len - 1
    ensures y / PAGE_SIZE == x / PAGE_SIZE
  {
    var p, q := v.va / PAGE_SIZE, (v.va + v.len + PAGE_SIZE - 1) / PAGE_SIZE;
    if x < v.va { assert p * PAGE_SIZE <= x < p * PAGE_SIZE + PAGE_SIZE; }
    else if x >= v.va + v.len { assert (q - 1) * PAGE_SIZE < v.va + v.len <= x < q * PAGE_SIZE; }
  }

  lemma RoundBelow(y: nat)
    ensures RoundDown(y) <= y < RoundDown(y) + PAGE_SIZE
  {
  }

  lemma FitsUpright(v: Mapping)
    requires v.Ok() && Fits(v)
    ensures !Inverts(v)
  {
    RoundBelow(v.va);
    RoundBelow(v.va % PAGE_SIZE + v.len + PAGE_SIZE - 1);
    Split(v.va);
  }

  /** Areas that overlap in the sense of vma_insert, none of them empty, are those that share an address. */
  lemma OverlapsExact(a: Area, b: Area)
    requires a.begin < a.end && b.begin < b.end
    ensures Overlaps(a, b) <==> exists x :: Contains(a, x) && Contains(b, x)
  {
    var x := if a.begin < b.begin then b.begin else a.begin;
    if Overlaps(a, b) { assert Contains(a, x) && Contains(b, x); }
  }

  // ----- areas at the end of the address space

  /** The size of the area, rounded to pages in 32 bits, reaches from its begin to 2^32 or beyond. */
  predicate Inverts(v: Mapping) { RoundDown(v.va) + RoundUp(v.va % PAGE_SIZE + v.len) >= TWO32 }

  /** These, and only these, are the areas that end before they begin. */
  lemma InvertsExact(v: Mapping)
    requires v.Ok()
    ensures NewArea(v).end < NewArea(v).begin <==> Inverts(v)
  {
    var b, d := RoundDown(v.va), v.va % PAGE_SIZE + v.len + PAGE_SIZE - 1;
    Split(v.va);
    assert v.va + v.len + PAGE_SIZE - 1 == b + d;
    AddWord(b, d);
    WrapsBelow(b, d % TWO32);
  }

  lemma AddWord(b: nat, d: nat)
    ensures (b + d) % TWO32 == (b + d % TWO32) % TWO32
  {
    assert d == d / TWO32 * TWO32 + d % TWO32;
  }

  lemma WrapsBelow(b: nat, n: nat)
    requires b % PAGE_SIZE == 0 && b < TWO32 && n < TWO32
    ensures RoundDown((b + n) % TWO32) < b <==> b + RoundDown(n) >= TWO32
  {
    RoundSum(b, n);
    if b + n >= TWO32 {
      assert (b + n) % TWO32 == b + n - TWO32;
      RoundSum(TWO32, b + n - TWO32);
    }
  }

  lemma RoundSum(b: nat, n: nat)
    requires b % PAGE_SIZE == 0
    ensures RoundDown(b + n) == b + RoundDown(n)
  {
  }

  /** An example of the harm: areas 1 and 2 are in order, 3 reaches round the end of the address space and
      is linked between them. In every red-black tree of the three, area 2 can not be found any more. */
  lemma InvertedHides(t: Tree)
    requires RedBlack(t) && InOrder(t) == [1, 3, 2]
    ensures var m := map[1 := Area(0, 4096, {}, 0, Anonymous), 2 := Area(8192, 12288, {}, 0, Anonymous)];
            var v := Mapping(0xFFFF_F000, 8193, {}, Anonymous, 0);
            && v.Ok() && Inverts(v) && Orders(m, [1, 2]) && !Clashes(m, NewArea(v))
            && CompareArea(m, NewArea(v))(1).Greater? && CompareArea(m, NewArea(v))(2).Less?
            && forall x :: Contains(m[2], x) ==> Reach(CompareAddr(m[3 := NewArea(v)], x), t) == NULL
  {
    MiddleRoots(t, 1, 3, 2);
  }

  /** A red-black tree of three nodes has the middle one at its root. */
  lemma MiddleRoots(t: Tree, a: Ptr, b: Ptr, c: Ptr)
    requires RedBlack(t) && InOrder(t) == [a, b, c]
    ensures t.Br? && t.left.Br? && t.right.Br? && t.left.left == t.left.right == t.right.left == t.right.right == Leaf
    ensures t.node == b && t.left.node == a && t.right.node == c
  {
    var l, r := InOrder(t.left), InOrder(t.right);
    assert InOrder(t) == l + [t.node] + r;
    if l == [] { Shallow(t.right); } else if r == [] { Shallow(t.left); }
    assert |l| == |r| == 1;
    assert l[0] == InOrder(t)[0] && t.node == InOrder(t)[1] && r[0] == InOrder(t)[2];
    OneNode(t.left);
    OneNode(t.right);
  }

  lemma Shallow(t: Tree)
    requires Balanced(t) && NoRedRed(t) && BlackHeight(t) == 0
    ensures |InOrder(t)| <= 1
  {
    if t.Br? { assert t.left.Leaf? && t.right.Leaf?; }
  }

  lemma OneNode(t: Tree)
    requires |InOrder(t)| == 1
    ensures t.Br? && t.left == t.right == Leaf && t.node == InOrder(t)[0]
  {
    assert |InOrder(t)| == |InOrder(t.left)| + 1 + |InOrder(t.right)|;
  }

  // ----- the offset of a fault

  /** Page by page, the area holds the file as if off were mapped at va: the offset that
      mm_pagefault computes for an address is off plus the distance of its page from va. */
  lemma FaultOffset(v: Mapping, x: nat)
    requires v.Ok() && v.back.FileOf? && !Misaligned(v) && Contains(NewArea(v), x)
    ensures var a := NewArea(v);
            && a.off % PAGE_SIZE == 0
            && a.off + RoundDown(x - a.begin) == v.off + (RoundDown(x) - v.va)
  {
    var a := NewArea(v);
    Split(v.va);
    Split(v.off);
    assert a.off == RoundDown(v.off);
    RoundShift(x, a.begin);
  }

  lemma Split(va: nat)
    ensures va == RoundDown(va) + va % PAGE_SIZE && RoundDown(va) % PAGE_SIZE == 0
  {
  }

  lemma RoundShift(x: nat, b: nat)
    requires b <= x && b % PAGE_SIZE == 0
    ensures RoundDown(x - b) == RoundDown(x) - b
  {
  }
}
