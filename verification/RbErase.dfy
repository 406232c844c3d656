/** Taking a node out of the tree: its successor moves into its place. */
module RbErase {
  import opened Common
  import opened RbShape
  import opened RbHeap
  import opened RbRepair

  // ----- the leftmost node of a subtree

  /** The way down the left spine of t, which hangs at the end of path z. */
  function MinPath(z: Path, t: Tree): Path
    requires t.Br?
    decreases t
  {
    if t.left.Leaf? then z else MinPath(Step(z, Left, t.node, t.color, t.right), t.left)
  }

  function MinTree(t: Tree): (m: Tree)
    requires t.Br?
    ensures m.Br? && m.left.Leaf?
  {
    if t.left.Leaf? then t else MinTree(t.left)
  }

  function RemoveMin(t: Tree): Tree
    requires t.Br?
  {
    if t.left.Leaf? then t.right else Br(RemoveMin(t.left), t.node, t.color, t.right)
  }

  lemma {:induction false} MinFocus(h: Cells, root: Ptr, z: Path, t: Tree)
    requires t.Br?
    ensures Focus(h, root, z, t) <==> Focus(h, root, MinPath(z, t), MinTree(t))
    ensures Focus(h, root, z, RemoveMin(t)) <==> Focus(h, root, MinPath(z, t), MinTree(t).right)
    ensures Plug(MinPath(z, t), MinTree(t)) == Plug(z, t)
    ensures Plug(MinPath(z, t), MinTree(t).right) == Plug(z, RemoveMin(t))
    decreases t
  {
    if t.left.Br? {
      Zip(h, root, z, Left, t.left, t.node, t.color, t.right);
      Zip(h, root, z, Left, RemoveMin(t.left), t.node, t.color, t.right);
      MinFocus(h, root, Step(z, Left, t.node, t.color, t.right), t.left);
    }
  }

  lemma {:induction false} MinOrder(t: Tree)
    requires t.Br?
    ensures InOrder(t) == [MinTree(t).node] + InOrder(RemoveMin(t))
    ensures Nodes(t) == Nodes(RemoveMin(t)) + {MinTree(t).node}
    ensures Distinct(t) ==> MinTree(t).node !in Nodes(RemoveMin(t)) && MinTree(t).node != NULL
  {
    if t.left.Br? { MinOrder(t.left); }
  }

  lemma {:induction false} MinDistinct(t: Tree)
    requires t.Br? && Distinct(t)
    ensures Distinct(MinTree(t)) && Nodes(MinTree(t)) <= Nodes(t)
  {
    if t.left.Br? { MinDistinct(t.left); }
  }

  lemma SpliceColors(z: Path, s: Side, t: Tree, n: Ptr, c: Color)
    requires RedBlack(Plug(z, Mk(s, t, n, c, Leaf)))
    ensures c.Black? ==> Erasing(z, t, InOrder(Plug(z, t)))
    ensures c.Red? ==> RedBlack(Plug(z, t))
  {
    PlugRedBlack(z, Mk(s, t, n, c, Leaf));
    MkColors(s, t, n, c, Leaf);
    PlugRedBlack(z, t);
  }

  predicate CanTransplant(h: Cells, v: Ptr, y: Ptr) {
    && v in h && y in h && v != y && v != NULL && y != NULL && h[y].left == NULL
    && var p, l, r, c, q := h[v].parent, h[v].left, h[v].right, h[y].right, h[y].parent;
    && (p != NULL ==> p in h && p !in {v, y, l, r, q, c})
    && l in h && l !in {NULL, v, y, r, q, c}
    && r in h && r !in {NULL, v, c}
    && (c != NULL ==> c in h && c !in {v, y, q} && h[c].parent == y)
    && q in h && q !in {NULL, y}
    && (q == v <==> r == y)
    && (q != v ==> h[q].left == y)
  }

  /** The cells before and after y, the leftmost node right of v, moves to v's place. */
  predicate Transplanted(h: Cells, h': Cells, v: Ptr, y: Ptr)
    requires CanTransplant(h, v, y)
  {
    var p, l, r, c, q := h[v].parent, h[v].left, h[v].right, h[y].right, h[y].parent;
    && h'.Keys == h.Keys
    && h'[y] == h[v].(right := if q == v then c else r)
    && (p != NULL ==> h'[p] == h[p].WithChild(SlotOf(h[p], Left, v), y))
    && h'[l] == h[l].(parent := y)
    && (q != v && q == r ==> h'[r] == h[r].(left := c, parent := y))
    && (q != v && q != r ==> h'[q] == h[q].(left := c) && h'[r] == h[r].(parent := y))
    && (c != NULL ==> h'[c] == h[c].(parent := if q == v then y else q))
    && forall n :: n in h && n !in {v, y, p, l, r, c, q} ==> h'[n] == h[n]
  }

  predicate CanUnhook(h: Cells, v: Ptr, y: Ptr, c: Ptr, q: Ptr) {
    && v in h && y in h && q in h && (c != NULL ==> c in h) && h[v].right in h
    && v !in {y, q, c} && y !in {q, c, h[v].right} && c != q && h[v].right !in {v, c}
  }

  /** The child c of y goes to y's parent q, and v's right subtree to y. */
  predicate Unhooked(h: Cells, h': Cells, v: Ptr, y: Ptr, c: Ptr, q: Ptr)
    requires CanUnhook(h, v, y, c, q)
  {
    var r := h[v].right;
    && h'.Keys == h.Keys && h'[y] == h[y].(right := r)
    && (c != NULL ==> h'[c] == h[c].(parent := q))
    && (q == r ==> h'[r] == h[r].(left := c, parent := y))
    && (q != r ==> h'[q] == h[q].(left := c) && h'[r] == h[r].(parent := y))
    && forall n :: n in h && n !in {y, c, q, r} ==> h'[n] == h[n]
  }

  /** y takes over parent, colour and left subtree of v. */
  function Seated(h: Cells, v: Ptr, y: Ptr): Cells
    requires v in h && y in h && h[v].left in h
  {
    var h1 := h[y := h[y].(parent := h[v].parent, color := h[v].color, left := h[v].left)];
    h1[h[v].left := h1[h[v].left].(parent := y)]
  }

  /** What ReplaceChild has done to the cells. */
  predicate Linked(h: Cells, h1: Cells, v: Ptr, y: Ptr)
    requires v in h
  {
    var p := h[v].parent;
    && (p != NULL ==> p in h && h1 == h[p := h[p].WithChild(SlotOf(h[p], Left, v), y)])
    && (p == NULL ==> h1 == h)
  }

  lemma LinkedFacts(h: Cells, h1: Cells, v: Ptr, y: Ptr)
    requires CanTransplant(h, v, y) && Linked(h, h1, v, y)
    ensures v in h1 && y in h1 && h1[v] == h[v] && h1[y] == h[y] && h[v].left in h1
    ensures h[y].parent != v ==> CanUnhook(h1, v, y, h[y].right, h[y].parent)
  {
  }

  lemma SeatNear(h: Cells, h1: Cells, v: Ptr, y: Ptr)
    requires CanTransplant(h, v, y) && h[y].parent == v && Linked(h, h1, v, y)
    ensures Transplanted(h, Seated(h1, v, y), v, y)
  {
  }

  lemma SeatFar(h: Cells, h1: Cells, h2: Cells, v: Ptr, y: Ptr)
    requires CanTransplant(h, v, y) && h[y].parent != v && Linked(h, h1, v, y)
    requires CanUnhook(h1, v, y, h[y].right, h[y].parent) && Unhooked(h1, h2, v, y, h[y].right, h[y].parent)
    ensures h[v].left in h2 && v in h2 && h2[v] == h[v] && Transplanted(h, Seated(h2, v, y), v, y)
  {
  }

  /** Bypassing y and then putting it in the place of v. */
  function TransplantCells(h: Cells, v: Ptr, y: Ptr): (h': Cells)
    requires CanTransplant(h, v, y)
    ensures h'.Keys == h.Keys
  {
    ReplaceCells(SpliceCells(h, y, h[y].right), v, y)
  }

  lemma TransplantNear(h: Cells, h': Cells, v: Ptr, y: Ptr)
    requires CanTransplant(h, v, y) && Transplanted(h, h', v, y) && h[y].parent == v
    ensures forall n :: n in h && n != v && n != NULL ==> h'[n] == TransplantCells(h, v, y)[n]
  {
    var h1 := SpliceCells(h, y, h[y].right);
    assert h1[v] == h[v].(right := h[y].right);
    var h2 := ReplaceCells(h1, v, y);
    forall n | n in h && n != v && n != NULL ensures h'[n] == h2[n] {
      ReplaceEffect(h1, v, y, {n} - {y, h1[v].parent, h1[v].left, h1[v].right});
    }
  }

  lemma TransplantFar(h: Cells, h': Cells, v: Ptr, y: Ptr)
    requires CanTransplant(h, v, y) && Transplanted(h, h', v, y) && h[y].parent != v
    ensures forall n :: n in h && n != v && n != NULL ==> h'[n] == TransplantCells(h, v, y)[n]
  {
    forall n | n in h && n != v && n != NULL ensures h'[n] == TransplantCells(h, v, y)[n] {
      TransplantFarAt(h, h', v, y, n);
    }
  }

  lemma TransplantFarAt(h: Cells, h': Cells, v: Ptr, y: Ptr, n: Ptr)
    requires CanTransplant(h, v, y) && Transplanted(h, h', v, y) && h[y].parent != v && n in h && n != v && n != NULL
    ensures h'[n] == TransplantCells(h, v, y)[n]
  {
    var h1 := SpliceCells(h, y, h[y].right);
    assert h1[v] == h[v];
    ReplaceEffect(h1, v, y, {n} - {y, h1[v].parent, h1[v].left, h1[v].right});
  }

  lemma TransplantAgree(h: Cells, h': Cells, v: Ptr, y: Ptr, s: set<Ptr>)
    requires CanTransplant(h, v, y) && Transplanted(h, h', v, y) && v !in s && NULL !in s
    ensures Agree(TransplantCells(h, v, y), h', s)
  {
    if h[y].parent == v { TransplantNear(h, h', v, y); } else { TransplantFar(h, h', v, y); }
  }

  lemma SpineView(h: Cells, z: Path, t: Tree)
    requires Distinct(t) && t.Br? && Holds(h, t, Hole(z))
    ensures t.node in h && h[t.node].left == RootOf(t.left) && (t.left.Br? <==> RootOf(t.left) != NULL)
  {
    RootIn(t.left);
  }

  /** What the cell of the leftmost node of t says. */
  lemma {:induction false} SpineFacts(h: Cells, t: Tree, p: Ptr)
    requires Holds(h, t, p) && Distinct(t) && t.Br?
    ensures var m := MinTree(t); var y, q := m.node, if m.node in h then h[m.node].parent else NULL;
            && y in h && y in Nodes(t) && y != NULL && h[y] == Cell(q, m.color, NULL, RootOf(m.right))
            && (m.right.Br? ==> m.right.node in h && h[m.right.node].parent == y && m.right.node in Nodes(t))
            && RootOf(m.right) != t.node && RootOf(m.right) != y
            && (t.left.Leaf? ==> q == p && y == t.node)
            && (t.left.Br? ==>
                  && q in Nodes(t) && q in h && q != NULL && h[q].left == y
                  && q != y && y != t.node && RootOf(m.right) != q)
    decreases t
  {
    if t.left.Br? {
      SpineFacts(h, t.left, t.node);
      MinDistinct(t.left);
      RootIn(MinTree(t).right);
    } else {
      RootIn(t.right);
      assert Holds(h, t.right, t.node);
    }
  }

  lemma TransplantReady(h: Cells, root: Ptr, z: Path, l: Tree, v: Ptr, c: Color, r: Tree)
    requires Focus(h, root, z, Br(l, v, c, r)) && l.Br? && r.Br?
    ensures CanTransplant(h, v, MinTree(r).node)
  {
    ReplaceView(h, root, z, l, v, c, r);
    SpineFacts(h, r, v);
    MinDistinct(r);
    RootIn(l); RootIn(r); HoleIn(z); RootIn(MinTree(r).right);
  }

  lemma {:induction false} MinHole(z: Path, z': Path, t: Tree)
    requires t.Br?
    ensures Hole(MinPath(z, t)) == if t.left.Leaf? then Hole(z) else Hole(MinPath(z', t))
    decreases t
  {
    if t.left.Br? {
      MinHole(Step(z, Left, t.node, t.color, t.right), Step(z', Left, t.node, t.color, t.right), t.left);
    }
  }

  /** Bypassing the successor takes it out of the right subtree. */
  lemma BypassDone(h: Cells, root: Ptr, z: Path, l: Tree, v: Ptr, c: Color, r: Tree)
    requires Focus(h, root, z, Br(l, v, c, r)) && r.Br? && CanTransplant(h, v, MinTree(r).node)
    ensures h[MinTree(r).node].right == RootOf(MinTree(r).right) && h[MinTree(r).node].color == MinTree(r).color
    ensures Focus(SpliceCells(h, MinTree(r).node, h[MinTree(r).node].right), root, z, Br(l, v, c, RemoveMin(r)))
  {
    var y, m := MinTree(r).node, MinTree(r);
    var base, zy := Step(z, Right, v, c, l), MinPath(Step(z, Right, v, c, l), r);
    Zip(h, root, z, Right, r, v, c, l);
    MinFocus(h, root, base, r);
    assert m == Mk(Right, m.right, y, m.color, Leaf);
    Spliced(h, root, zy, Right, m.right, y, m.color);
    MinStep(base, r);
    var h1 := SpliceCells(h, y, RootOf(m.right));
    MinFocus(h1, root, base, r);
    Zip(h1, root, z, Right, RemoveMin(r), v, c, l);
  }

  /** The successor in v's place, with itself gone from the right subtree. */
  lemma TransplantTree(h: Cells, h': Cells, root: Ptr, root': Ptr, z: Path, l: Tree, v: Ptr, c: Color, r: Tree)
    requires Focus(h, root, z, Br(l, v, c, r)) && r.Br?
    requires CanTransplant(h, v, MinTree(r).node) && Transplanted(h, h', v, MinTree(r).node)
    requires root' == if z.Top? then MinTree(r).node else root
    ensures Focus(h', root', z, Br(l, MinTree(r).node, c, RemoveMin(r)))
  {
    var y, r' := MinTree(r).node, RemoveMin(r);
    BypassDone(h, root, z, l, v, c, r);
    var h1 := SpliceCells(h, y, h[y].right);
    MinOrder(r);
    Replaced(h1, root, z, l, v, c, r', y);
    RootIn(l); RootIn(r'); HoleIn(z);
    TransplantAgree(h, h', v, y, PathNodes(z));
    TransplantAgree(h, h', v, y, Nodes(Br(l, y, c, r')));
    FocusFrame(ReplaceCells(h1, v, y), h', root', z, Br(l, y, c, r'));
  }

  /** After the successor has moved, the focus is on the child it left behind. */
  lemma TransplantDone(h: Cells, h': Cells, root: Ptr, root': Ptr, z: Path, l: Tree, v: Ptr, c: Color, r: Tree)
    requires Focus(h, root, z, Br(l, v, c, r)) && r.Br?
    requires CanTransplant(h, v, MinTree(r).node) && Transplanted(h, h', v, MinTree(r).node)
    requires root' == if h[v].parent == NULL then MinTree(r).node else root
    ensures var y := MinTree(r).node; var z' := MinPath(Step(z, Right, y, c, l), r);
            && Focus(h', root', z', MinTree(r).right)
            && h[y].right == RootOf(MinTree(r).right) && h[y].color == MinTree(r).color
            && Hole(z') == if h[y].parent == v then y else h[y].parent
  {
    var y, base := MinTree(r).node, Step(z, Right, v, c, l);
    HoleIn(z);
    TransplantTree(h, h', root, root', z, l, v, c, r);
    Zip(h', root', z, Right, RemoveMin(r), y, c, l);
    MinFocus(h', root', Step(z, Right, y, c, l), r);
    SpineFacts(h, r, v);
    MinHole(Step(z, Right, y, c, l), base, r);
    Zip(h, root, z, Right, r, v, c, l);
    MinFocus(h, root, base, r);
  }

  lemma {:induction false} MinStep(z: Path, t: Tree)
    requires t.Br? && z.Step?
    ensures MinPath(z, t).Step?
    decreases t
  {
    if t.left.Br? { MinStep(Step(z, Left, t.node, t.color, t.right), t.left); }
  }

  lemma TransplantColors(z: Path, l: Tree, v: Ptr, c: Color, r: Tree)
    requires r.Br? && RedBlack(Plug(z, Br(l, v, c, r)))
    ensures var m := MinTree(r); var z' := MinPath(Step(z, Right, m.node, c, l), r);
            && (m.color.Black? ==> Erasing(z', m.right, InOrder(Plug(z', m.right))))
            && (m.color.Red? ==> RedBlack(Plug(z', m.right)))
  {
    var m := MinTree(r);
    var base := Step(z, Right, m.node, c, l);
    PlugRedBlack(z, Br(l, v, c, r));
    PlugRedBlack(z, Br(l, m.node, c, r));
    MinFocus(map[], NULL, base, r);
    assert m == Mk(Right, m.right, m.node, m.color, Leaf);
    SpliceColors(MinPath(base, r), Right, m.right, m.node, m.color);
  }

  lemma Regroup(p: seq<Ptr>, a: seq<Ptr>, n: Ptr, b: seq<Ptr>, q: seq<Ptr>)
    ensures p + (a + [n] + b) + q == (p + a) + [n] + (b + q)
  {
  }

  lemma TransplantOrder(z: Path, l: Tree, c: Color, r: Tree)
    requires r.Br?
    ensures InOrder(Plug(MinPath(Step(z, Right, MinTree(r).node, c, l), r), MinTree(r).right)) ==
            (Before(z) + InOrder(l)) + (InOrder(r) + After(z))
  {
    var y, r' := MinTree(r).node, RemoveMin(r);
    MinFocus(map[], NULL, Step(z, Right, y, c, l), r);
    PlugInOrder(z, Br(l, y, c, r'));
    MinOrder(r);
    Regroup(Before(z), InOrder(l), y, InOrder(r'), After(z));
  }

  lemma SplitAt(s: seq<Ptr>, a: seq<Ptr>, n: Ptr, b: seq<Ptr>, i: nat)
    requires s == a + [n] + b && i < |s| && s[i] == n
    requires forall i, j :: 0 <= i < j < |s| ==> s[i] != s[j]
    ensures i == |a| && s[..i] == a && s[i + 1..] == b
  {
    assert s[|a|] == n;
  }

  /** Where a node in focus stands in the order. */
  lemma FocusOrder(z: Path, l: Tree, n: Ptr, c: Color, r: Tree, i: nat, s: seq<Ptr>)
    requires Distinct(Plug(z, Br(l, n, c, r))) && s == InOrder(Plug(z, Br(l, n, c, r))) && i < |s| && s[i] == n
    ensures i == |Before(z) + InOrder(l)| && s[..i] == Before(z) + InOrder(l) && s[i + 1..] == InOrder(r) + After(z)
  {
    PlugInOrder(z, Br(l, n, c, r));
    InOrderInjective(Plug(z, Br(l, n, c, r)));
    Regroup(Before(z), InOrder(l), n, InOrder(r), After(z));
    SplitAt(s, Before(z) + InOrder(l), n, InOrder(r) + After(z), i);
  }

  lemma Gap(p: seq<Ptr>, a: seq<Ptr>, b: seq<Ptr>, q: seq<Ptr>)
    ensures a == [] ==> p + b + q == (p + a) + (b + q)
    ensures b == [] ==> p + a + q == (p + a) + (b + q)
  {
    if a == [] { assert p + a == p; }
    if b == [] { assert b + q == q; }
  }

  lemma OneChildOrder(z: Path, l: Tree, r: Tree)
    ensures l.Leaf? ==> InOrder(Plug(z, r)) == (Before(z) + InOrder(l)) + (InOrder(r) + After(z))
    ensures r.Leaf? ==> InOrder(Plug(z, l)) == (Before(z) + InOrder(l)) + (InOrder(r) + After(z))
  {
    PlugInOrder(z, r);
    PlugInOrder(z, l);
    Gap(Before(z), InOrder(l), InOrder(r), After(z));
  }
}
