/** How a tree lies in memory: the cell of every node, what it means for a path
    and a subtree to be laid out in the cells, and the effect on that layout of
    the pointer surgery that kernel/rbtree.c does. */
module RbHeap {
  import opened Common
  import opened RbShape

  /** struct rb_node: the packed parent/colour word is kept as its two parts. */
  datatype Cell = Cell(parent: Ptr, color: Color, left: Ptr, right: Ptr) {
    function Child(s: Side): Ptr { if s.Left? then left else right }

    function WithChild(s: Side, c: Ptr): Cell {
      if s.Left? then this.(left := c) else this.(right := c)
    }
  }

  type Cells = map<Ptr, Cell>

  function MkCell(p: Ptr, c: Color, s: Side, near: Ptr, far: Ptr): Cell {
    if s.Left? then Cell(p, c, near, far) else Cell(p, c, far, near)
  }

  /** Subtree t lies in h below parent p, links both ways and colours right. */
  predicate Holds(h: Cells, t: Tree, p: Ptr) {
    match t
    case Leaf => true
    case Br(l, n, c, r) =>
      n in h && h[n] == Cell(p, c, RootOf(l), RootOf(r)) && Holds(h, l, n) && Holds(h, r, n)
  }

  /** Path z lies in h, and the link at its lower end holds pointer c. */
  predicate PathHolds(h: Cells, root: Ptr, z: Path, c: Ptr) {
    match z
    case Top => root == c
    case Step(up, s, n, col, sib) =>
      && n in h && h[n] == MkCell(Hole(up), col, s, c, RootOf(sib))
      && Holds(h, sib, n) && PathHolds(h, root, up, n)
  }

  /** The tree Plug(z, t) lies in h under `root`, seen from its subtree t. */
  predicate Focus(h: Cells, root: Ptr, z: Path, t: Tree) {
    && PathDistinct(z) && Distinct(t) && PathNodes(z) !! Nodes(t)
    && PathHolds(h, root, z, RootOf(t)) && Holds(h, t, Hole(z))
  }

  predicate Agree(h: Cells, h': Cells, s: set<Ptr>) {
    forall n :: n in s && n in h ==> n in h' && h'[n] == h[n]
  }

  // ----- framing

  lemma {:induction false} HoldsFrame(h: Cells, h': Cells, t: Tree, p: Ptr)
    requires Holds(h, t, p) && Agree(h, h', Nodes(t))
    ensures Holds(h', t, p)
  {
    match t
    case Leaf =>
    case Br(l, n, _, r) => HoldsFrame(h, h', l, n); HoldsFrame(h, h', r, n);
  }

  lemma {:induction false} PathFrame(h: Cells, h': Cells, root: Ptr, z: Path, c: Ptr)
    requires PathHolds(h, root, z, c) && Agree(h, h', PathNodes(z))
    ensures PathHolds(h', root, z, c)
  {
    match z
    case Top =>
    case Step(up, _, n, _, sib) => HoldsFrame(h, h', sib, n); PathFrame(h, h', root, up, n);
  }

  lemma FocusFrame(h: Cells, h': Cells, root: Ptr, z: Path, t: Tree)
    requires Focus(h, root, z, t) && Agree(h, h', PathNodes(z)) && Agree(h, h', Nodes(t))
    ensures Focus(h', root, z, t)
  {
    HoldsFrame(h, h', t, Hole(z));
    PathFrame(h, h', root, z, RootOf(t));
  }

  lemma MkHolds(h: Cells, s: Side, near: Tree, n: Ptr, c: Color, far: Tree, p: Ptr)
    ensures Holds(h, Mk(s, near, n, c, far), p) <==>
              && n in h && h[n] == MkCell(p, c, s, RootOf(near), RootOf(far))
              && Holds(h, near, n) && Holds(h, far, n)
  {
  }

  /** Redirecting the parent link of a subtree's root re-parents the subtree. */
  lemma Reparent(h: Cells, h': Cells, t: Tree, p: Ptr, p': Ptr)
    requires Holds(h, t, p) && Distinct(t)
    requires t.Br? ==> t.node in h' && h'[t.node] == h[t.node].(parent := p')
    requires Agree(h, h', Nodes(t) - {RootOf(t)})
    ensures Holds(h', t, p')
  {
    if t.Br? {
      HoldsFrame(h, h', t.left, t.node);
      HoldsFrame(h, h', t.right, t.node);
    }
  }

  /** Redirecting the child link at a path's end re-targets the path. */
  lemma Retarget(h: Cells, h': Cells, root: Ptr, root': Ptr, z: Path, c: Ptr, c': Ptr)
    requires PathHolds(h, root, z, c) && PathDistinct(z)
    requires z.Step? ==> z.node in h' && h'[z.node] == h[z.node].WithChild(z.side, c') && root' == root
    requires z.Top? ==> root' == c'
    requires Agree(h, h', PathNodes(z) - {Hole(z)})
    ensures PathHolds(h', root', z, c')
  {
    if z.Step? {
      HoldsFrame(h, h', z.sib, z.node);
      PathFrame(h, h', root, z.up, z.node);
    }
  }

  // ----- moving the focus

  lemma Zip(h: Cells, root: Ptr, up: Path, s: Side, t: Tree, n: Ptr, c: Color, sib: Tree)
    ensures Focus(h, root, Step(up, s, n, c, sib), t) <==> Focus(h, root, up, Mk(s, t, n, c, sib))
  {
    MkFacts(s, t, n, c, sib);
    MkHolds(h, s, t, n, c, sib, Hole(up));
  }

  /** Seen from anywhere it is the same tree. */
  lemma {:induction false} Rezip(h: Cells, root: Ptr, z: Path, t: Tree)
    ensures Focus(h, root, z, t) <==> Focus(h, root, Top, Plug(z, t))
  {
    match z
    case Top =>
    case Step(up, s, n, c, sib) =>
      Zip(h, root, up, s, t, n, c, sib);
      Rezip(h, root, up, Mk(s, t, n, c, sib));
  }

  /** Every node of a tree can be brought into focus. */
  lemma {:induction false} Seek(h: Cells, root: Ptr, z: Path, t: Tree, x: Ptr)
    returns (z': Path, l: Tree, c: Color, r: Tree)
    requires Focus(h, root, z, t) && x in Nodes(t)
    ensures Focus(h, root, z', Br(l, x, c, r)) && Plug(z', Br(l, x, c, r)) == Plug(z, t)
    decreases t
  {
    if x == t.node {
      return z, t.left, t.color, t.right;
    } else if x in Nodes(t.left) {
      Zip(h, root, z, Left, t.left, t.node, t.color, t.right);
      z', l, c, r := Seek(h, root, Step(z, Left, t.node, t.color, t.right), t.left, x);
    } else {
      Zip(h, root, z, Right, t.right, t.node, t.color, t.left);
      z', l, c, r := Seek(h, root, Step(z, Right, t.node, t.color, t.left), t.right, x);
    }
  }

  // ----- changing the colour of the node in focus

  lemma Recolored(h: Cells, root: Ptr, z: Path, s: Side, near: Tree, n: Ptr, c: Color, far: Tree, c': Color)
    requires Focus(h, root, z, Mk(s, near, n, c, far))
    ensures n in h && Focus(h[n := h[n].(color := c')], root, z, Mk(s, near, n, c', far))
  {
    var h' := h[n := h[n].(color := c')];
    MkFacts(s, near, n, c, far); MkFacts(s, near, n, c', far);
    MkHolds(h, s, near, n, c, far, Hole(z)); MkHolds(h', s, near, n, c', far, Hole(z));
    HoldsFrame(h, h', near, n);
    HoldsFrame(h, h', far, n);
    PathFrame(h, h', root, z, n);
  }

  // ----- rotation

  /** The child slot of a cell that pointer n is in, side s being tried first. */
  function SlotOf(c: Cell, s: Side, n: Ptr): Side { if c.Child(s) == n then s else s.Opp() }

  lemma SlotOnPath(h: Cells, root: Ptr, z: Path, s: Side, n: Ptr)
    requires PathHolds(h, root, z, n) && PathDistinct(z) && z.Step? && n !in PathNodes(z) && n != NULL
    ensures SlotOf(h[z.node], s, n) == z.side
  {
    RootIn(z.sib);
  }

  /** Reading the parent of the node in focus. */
  lemma ParentView(h: Cells, root: Ptr, z: Path, t: Tree)
    requires Focus(h, root, z, t)
    ensures t.Br? ==> t.node != NULL && t.node in h && h[t.node].parent == Hole(z) && h[t.node].color == t.color
    ensures z.Step? ==> z.node != NULL && z.node in h && h[z.node].parent == Hole(z.up) && h[z.node].color == z.color
    ensures z.Step? ==> h[z.node].Child(z.side) == RootOf(t) && h[z.node].Child(z.side.Opp()) == RootOf(z.sib)
    ensures z.Step? ==> (RootOf(z.sib) == RootOf(t) <==> z.sib.Leaf? && t.Leaf?)
  {
    RootIn(t);
    HoleIn(z);
    if z.Step? { RootIn(z.sib); }
  }

  /** Reading parent, grandparent and uncle of the node in focus. */
  lemma FamilyView(h: Cells, root: Ptr, z: Path, t: Tree)
    requires Focus(h, root, z, t) && t.Br? && z.Step? && z.up.Step?
    ensures t.node in h && h[t.node].parent == z.node && z.node in h && h[z.node].parent == z.up.node && z.up.node in h
    ensures forall s :: h[z.node].Child(s) == t.node <==> s == z.side
    ensures forall s :: h[z.up.node].Child(s) == z.node <==> s == z.up.side
    ensures h[z.up.node].Child(z.up.side.Opp()) == RootOf(z.up.sib)
    ensures RootOf(z.up.sib) == NULL <==> z.up.sib.Leaf?
    ensures z.up.sib.Br? ==> z.up.sib.node in h && h[z.up.sib.node].color == z.up.sib.color
    ensures Focus(h, root, z.up.up, Mk(z.up.side, Mk(z.side, t, z.node, z.color, z.sib), z.up.node, z.up.color,
                                       z.up.sib))
  {
    var p := Mk(z.side, t, z.node, z.color, z.sib);
    Zip(h, root, z.up, z.side, t, z.node, z.color, z.sib);
    Zip(h, root, z.up.up, z.up.side, p, z.up.node, z.up.color, z.up.sib);
    ParentView(h, root, z, t);
    ParentView(h, root, z.up, p);
    RootIn(z.up.sib);
  }

  /** Reading the sibling of the subtree in focus, and its children. */
  lemma SiblingView(h: Cells, root: Ptr, z: Path, t: Tree)
    requires Focus(h, root, z, t) && z.Step? && z.sib.Br?
    ensures z.node != NULL && z.node in h && h[z.node].parent == Hole(z.up) && h[z.node].color == z.color
    ensures forall s :: h[z.node].Child(s) == RootOf(t) <==> s == z.side
    ensures h[z.node].Child(z.side.Opp()) == z.sib.node && z.sib.node in h && h[z.sib.node].color == z.sib.color
    ensures forall s :: h[z.sib.node].Child(s) == RootOf(Near(s, z.sib))
    ensures forall s :: RootOf(Near(s, z.sib)) == NULL <==> Near(s, z.sib).Leaf?
    ensures forall s :: Near(s, z.sib).Br? ==>
                RootOf(Near(s, z.sib)) in h && h[RootOf(Near(s, z.sib))].color == Near(s, z.sib).color
    ensures Focus(h, root, z.up, Mk(z.side, t, z.node, z.color, z.sib))
  {
    ParentView(h, root, z, t);
    Zip(h, root, z.up, z.side, t, z.node, z.color, z.sib);
    RootIn(z.sib.left);
    RootIn(z.sib.right);
    assert Holds(h, z.sib.left, z.sib.node) && Holds(h, z.sib.right, z.sib.node);
  }

  lemma NodeView(h: Cells, root: Ptr, z: Path, t: Tree)
    requires Focus(h, root, z, t)
    ensures RootOf(t) == NULL <==> t.Leaf?
    ensures t.Br? ==> t.node in h && h[t.node].color == t.color
    ensures RootOf(t) == root <==> z.Top?
  {
    RootIn(t);
    if z.Step? { RootOnPath(h, root, z, RootOf(t)); }
  }

  lemma {:induction false} RootOnPath(h: Cells, root: Ptr, z: Path, c: Ptr)
    requires PathHolds(h, root, z, c) && PathDistinct(z) && z.Step?
    ensures root in PathNodes(z) && root != NULL
  {
    if z.up.Step? { RootOnPath(h, root, z.up, z.node); }
  }

  /** Reading a child of the node in focus, and moving the focus to it. */
  lemma ChildView(h: Cells, root: Ptr, z: Path, t: Tree, s: Side)
    requires Focus(h, root, z, t) && t.Br?
    ensures t.node in h && h[t.node].Child(s) == RootOf(Near(s, t))
    ensures RootOf(Near(s, t)) == NULL <==> Near(s, t).Leaf?
    ensures Focus(h, root, Step(z, s, t.node, t.color, Near(s.Opp(), t)), Near(s, t))
    ensures Plug(Step(z, s, t.node, t.color, Near(s.Opp(), t)), Near(s, t)) == Plug(z, t)
  {
    MkNear(s, t);
    Zip(h, root, z, s, Near(s, t), t.node, t.color, Near(s.Opp(), t));
    RootIn(Near(s, t));
  }

  predicate CanRotate(h: Cells, node: Ptr, side: Side) {
    && node in h && h[node].Child(side.Opp()) in h
    && var other, parent := h[node].Child(side.Opp()), h[node].parent;
    && var inner := h[other].Child(side);
    && node != other && (parent != NULL ==> parent in h && parent != node && parent != other && parent != inner)
    && (inner != NULL ==> inner in h && inner != node && inner != other)
  }

  /** The cells before and after __rb_rotate(node, root, side). */
  predicate Rotated(h: Cells, h': Cells, root: Ptr, root': Ptr, node: Ptr, side: Side)
    requires CanRotate(h, node, side)
  {
    var other, parent := h[node].Child(side.Opp()), h[node].parent;
    var inner := h[other].Child(side);
    && h'.Keys == h.Keys
    && h'[node] == h[node].WithChild(side.Opp(), inner).(parent := other)
    && h'[other] == h[other].WithChild(side, node).(parent := parent)
    && (inner != NULL ==> h'[inner] == h[inner].(parent := node))
    && (parent != NULL ==> h'[parent] == h[parent].WithChild(SlotOf(h[parent], side, node), other))
    && root' == (if parent == NULL then other else root)
    && forall n :: n in h && n != node && n != other && n != inner && n != parent ==> h'[n] == h[n]
  }

  lemma RotatedAgree(h: Cells, h': Cells, root: Ptr, root': Ptr, node: Ptr, side: Side, s: set<Ptr>)
    requires CanRotate(h, node, side) && Rotated(h, h', root, root', node, side)
    requires node !in s && h[node].Child(side.Opp()) !in s && h[node].parent !in s
    requires h[h[node].Child(side.Opp())].Child(side) !in s
    ensures Agree(h, h', s)
  {
  }

  lemma RotatePath(h: Cells, h': Cells, root: Ptr, root': Ptr, z: Path, side: Side, node: Ptr)
    requires PathDistinct(z) && PathHolds(h, root, z, node) && node != NULL
    requires CanRotate(h, node, side) && Rotated(h, h', root, root', node, side)
    requires h[node].parent == Hole(z) && node !in PathNodes(z) && h[node].Child(side.Opp()) !in PathNodes(z)
    requires h[h[node].Child(side.Opp())].Child(side) !in PathNodes(z)
    ensures PathHolds(h', root', z, h[node].Child(side.Opp()))
  {
    HoleIn(z);
    RotatedAgree(h, h', root, root', node, side, PathNodes(z) - {Hole(z)});
    if z.Step? { SlotOnPath(h, root, z, side, node); }
    Retarget(h, h', root, root', z, node, h[node].Child(side.Opp()));
  }

  lemma RotateSubtrees(h: Cells, h': Cells, root: Ptr, root': Ptr, side: Side,
                       a: Tree, node: Ptr, b: Tree, other: Ptr, c: Tree)
    requires Distinct(a) && Distinct(b) && Distinct(c)
    requires node !in Nodes(a) && node !in Nodes(b) && node !in Nodes(c)
    requires other !in Nodes(a) && other !in Nodes(b) && other !in Nodes(c)
    requires Nodes(a) !! Nodes(b) && Nodes(b) !! Nodes(c)
    requires Holds(h, a, node) && Holds(h, b, other) && Holds(h, c, other)
    requires CanRotate(h, node, side) && Rotated(h, h', root, root', node, side)
    requires h[node].Child(side.Opp()) == other && h[other].Child(side) == RootOf(b)
    requires h[node].parent !in Nodes(a) && h[node].parent !in Nodes(b) && h[node].parent !in Nodes(c)
    ensures Holds(h', a, node) && Holds(h', b, node) && Holds(h', c, other)
  {
    RootIn(a); RootIn(b); RootIn(c);
    RotatedAgree(h, h', root, root', node, side, Nodes(a));
    RotatedAgree(h, h', root, root', node, side, Nodes(c));
    RotatedAgree(h, h', root, root', node, side, Nodes(b) - {RootOf(b)});
    HoldsFrame(h, h', a, node);
    HoldsFrame(h, h', c, other);
    Reparent(h, h', b, other, node);
  }

  lemma RotateBefore(h: Cells, root: Ptr, z: Path, side: Side,
                     a: Tree, node: Ptr, nc: Color, b: Tree, other: Ptr, oc: Color, c: Tree)
    requires Focus(h, root, z, Mk(side, a, node, nc, Mk(side, b, other, oc, c)))
    ensures CanRotate(h, node, side)
  {
    MkFacts(side, b, other, oc, c);
    MkFacts(side, a, node, nc, Mk(side, b, other, oc, c));
    MkHolds(h, side, a, node, nc, Mk(side, b, other, oc, c), Hole(z));
    MkHolds(h, side, b, other, oc, c, node);
  }

  /** (a node (b other c)) becomes ((a node b) other c), mirrored for Right. */
  lemma RotateAfter(h: Cells, h': Cells, root: Ptr, root': Ptr, z: Path, side: Side,
                    a: Tree, node: Ptr, nc: Color, b: Tree, other: Ptr, oc: Color, c: Tree)
    requires Focus(h, root, z, Mk(side, a, node, nc, Mk(side, b, other, oc, c)))
    requires CanRotate(h, node, side) && Rotated(h, h', root, root', node, side)
    ensures Focus(h', root', z, Mk(side, Mk(side, a, node, nc, b), other, oc, c))
  {
    MkFacts(side, b, other, oc, c);
    MkFacts(side, a, node, nc, Mk(side, b, other, oc, c));
    MkHolds(h, side, a, node, nc, Mk(side, b, other, oc, c), Hole(z));
    MkHolds(h, side, b, other, oc, c, node);
    RootIn(b); HoleIn(z); RootIn(a); RootIn(c);
    RotateSubtrees(h, h', root, root', side, a, node, b, other, c);
    RotatePath(h, h', root, root', z, side, node);
    MkFacts(side, a, node, nc, b);
    MkFacts(side, Mk(side, a, node, nc, b), other, oc, c);
    MkHolds(h', side, a, node, nc, b, other);
    MkHolds(h', side, Mk(side, a, node, nc, b), other, oc, c, Hole(z));
  }

  // ----- taking a node with at most one child out of the tree

  /** The cells after `node` is bypassed: its only child, if any, takes its place. */
  function SpliceCells(h: Cells, node: Ptr, child: Ptr): (h': Cells)
    requires node in h && (child != NULL ==> child in h) && (h[node].parent != NULL ==> h[node].parent in h)
    ensures h'.Keys == h.Keys
  {
    var parent := h[node].parent;
    var h1 := if child != NULL then h[child := h[child].(parent := parent)] else h;
    if parent != NULL then h1[parent := h1[parent].WithChild(SlotOf(h1[parent], Left, node), child)] else h1
  }

  lemma Spliced(h: Cells, root: Ptr, z: Path, s: Side, t: Tree, n: Ptr, c: Color)
    requires Focus(h, root, z, Mk(s, t, n, c, Leaf))
    ensures n in h && n != NULL && h[n].parent == Hole(z) && h[n].color == c && h[n].Child(s) == RootOf(t)
            && h[n].Child(s.Opp()) == NULL
    ensures (RootOf(t) != NULL ==> RootOf(t) in h) && (Hole(z) != NULL ==> Hole(z) in h)
    ensures Focus(SpliceCells(h, n, RootOf(t)), if z.Top? then RootOf(t) else root, z, t)
  {
    MkFacts(s, t, n, c, Leaf);
    MkHolds(h, s, t, n, c, Leaf, Hole(z));
    RootIn(t); HoleIn(z);
    var h' := SpliceCells(h, n, RootOf(t));
    if z.Step? { SlotOnPath(h, root, z, Left, n); }
    Reparent(h, h', t, n, Hole(z));
    Retarget(h, h', root, if z.Top? then RootOf(t) else root, z, n, RootOf(t));
  }

  // ----- putting another node in a node's place

  /** The cells after rb_replace_node(v, y). */
  function ReplaceCells(h: Cells, v: Ptr, y: Ptr): (h': Cells)
    requires CanReplace(h, v)
    ensures h'.Keys == h.Keys + {y}
  {
    var c := h[v];
    var h1 := if c.parent != NULL then h[c.parent := h[c.parent].WithChild(SlotOf(h[c.parent], Left, v), y)] else h;
    var h2 := if c.left != NULL then h1[c.left := h1[c.left].(parent := y)] else h1;
    var h3 := if c.right != NULL then h2[c.right := h2[c.right].(parent := y)] else h2;
    h3[y := h3[v]]
  }

  predicate CanReplace(h: Cells, v: Ptr) {
    && v in h && (h[v].parent != NULL ==> h[v].parent in h)
    && (h[v].left != NULL ==> h[v].left in h) && (h[v].right != NULL ==> h[v].right in h)
  }

  lemma ReplaceEffect(h: Cells, v: Ptr, y: Ptr, s: set<Ptr>)
    requires CanReplace(h, v) && v != y && y !in s
    requires var c := h[v]; c.parent !in {v, y} && c.left !in {v, y} && c.right !in {v, y}
    requires var c := h[v]; c.parent != NULL ==> c.parent != c.left && c.parent != c.right
    requires var c := h[v]; c.left != NULL ==> c.left != c.right
    requires h[v].parent !in s && h[v].left !in s && h[v].right !in s
    ensures var c, h' := h[v], ReplaceCells(h, v, y);
            && h'[y] == c
            && (c.parent != NULL ==> h'[c.parent] == h[c.parent].WithChild(SlotOf(h[c.parent], Left, v), y))
            && (c.left != NULL ==> h'[c.left] == h[c.left].(parent := y))
            && (c.right != NULL ==> h'[c.right] == h[c.right].(parent := y))
            && Agree(h, h', s)
  {
  }

  lemma ReplaceView(h: Cells, root: Ptr, z: Path, l: Tree, v: Ptr, c: Color, r: Tree)
    requires Focus(h, root, z, Br(l, v, c, r))
    ensures CanReplace(h, v) && h[v] == Cell(Hole(z), c, RootOf(l), RootOf(r))
    ensures z.Step? ==> SlotOf(h[z.node], Left, v) == z.side
  {
    RootIn(l); RootIn(r); HoleIn(z);
    assert Holds(h, l, v) && Holds(h, r, v);
    if z.Step? { SlotOnPath(h, root, z, Left, v); }
  }

  lemma Replaced(h: Cells, root: Ptr, z: Path, l: Tree, v: Ptr, c: Color, r: Tree, y: Ptr)
    requires Focus(h, root, z, Br(l, v, c, r))
    requires y != NULL && y !in PathNodes(z) && y !in Nodes(l) && y !in Nodes(r) && y != v
    ensures CanReplace(h, v)
    ensures Focus(ReplaceCells(h, v, y), if z.Top? then y else root, z, Br(l, y, c, r))
  {
    ReplaceView(h, root, z, l, v, c, r);
    RootIn(l); RootIn(r); HoleIn(z);
    var h' := ReplaceCells(h, v, y);
    ReplaceEffect(h, v, y, Nodes(l) - {RootOf(l)});
    ReplaceEffect(h, v, y, Nodes(r) - {RootOf(r)});
    ReplaceEffect(h, v, y, PathNodes(z) - {Hole(z)});
    Reparent(h, h', l, v, y);
    Reparent(h, h', r, v, y);
    Retarget(h, h', root, if z.Top? then y else root, z, v, y);
  }
}
