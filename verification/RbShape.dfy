/** Red-black trees as values: trees of node pointers, and the zipper that the
    repair loops of kernel/rbtree.c walk along. Nothing here knows about memory. */
module RbShape {
  import opened Common

  datatype Color = Red | Black

  datatype Side = Left | Right {
    function Opp(): Side { if Left? then Right else Left }
  }

  datatype Tree = Leaf | Br(left: Tree, node: Ptr, color: Color, right: Tree)

  /** The way from a subtree up to the root: each step names the side the
      subtree is on, the node above it, and that node's other subtree. */
  datatype Path = Top | Step(up: Path, side: Side, node: Ptr, color: Color, sib: Tree)

  /** A branch whose `s` subtree is `near` and whose other subtree is `far`. */
  function Mk(s: Side, near: Tree, n: Ptr, c: Color, far: Tree): Tree {
    if s.Left? then Br(near, n, c, far) else Br(far, n, c, near)
  }

  /** The subtree on side `s` of a branch. */
  function Near(s: Side, t: Tree): Tree
    requires t.Br?
  {
    if s.Left? then t.left else t.right
  }

  lemma MkNear(s: Side, t: Tree)
    requires t.Br?
    ensures t == Mk(s, Near(s, t), t.node, t.color, Near(s.Opp(), t))
  {
  }

  function Plug(z: Path, t: Tree): Tree {
    match z
    case Top => t
    case Step(up, s, n, c, sib) => Plug(up, Mk(s, t, n, c, sib))
  }

  lemma {:induction false} PlugBr(z: Path, t: Tree)
    requires t.Br?
    ensures Plug(z, t).Br?
  {
    if z.Step? { PlugBr(z.up, Mk(z.side, t, z.node, z.color, z.sib)); }
  }

  function RootOf(t: Tree): Ptr { if t.Leaf? then NULL else t.node }

  function Hole(z: Path): Ptr { if z.Top? then NULL else z.node }

  function Len(z: Path): nat { if z.Top? then 0 else 1 + Len(z.up) }

  // ----- node sets

  function Nodes(t: Tree): set<Ptr> {
    match t
    case Leaf => {}
    case Br(l, n, _, r) => Nodes(l) + {n} + Nodes(r)
  }

  function PathNodes(z: Path): set<Ptr> {
    match z
    case Top => {}
    case Step(up, _, n, _, sib) => PathNodes(up) + {n} + Nodes(sib)
  }

  /** No node occurs twice and none is the null pointer. */
  predicate Distinct(t: Tree) {
    match t
    case Leaf => true
    case Br(l, n, _, r) =>
      n != NULL && n !in Nodes(l) && n !in Nodes(r) && Nodes(l) !! Nodes(r) && Distinct(l) && Distinct(r)
  }

  predicate PathDistinct(z: Path) {
    match z
    case Top => true
    case Step(up, _, n, _, sib) =>
      && n != NULL && n !in PathNodes(up) && n !in Nodes(sib)
      && Nodes(sib) !! PathNodes(up) && Distinct(sib) && PathDistinct(up)
  }

  lemma MkFacts(s: Side, near: Tree, n: Ptr, c: Color, far: Tree)
    ensures Nodes(Mk(s, near, n, c, far)) == Nodes(near) + {n} + Nodes(far)
    ensures Distinct(Mk(s, near, n, c, far)) <==>
              n != NULL && n !in Nodes(near) && n !in Nodes(far) && Nodes(near) !! Nodes(far)
              && Distinct(near) && Distinct(far)
    ensures RootOf(Mk(s, near, n, c, far)) == n
  {
  }

  lemma RootIn(t: Tree)
    requires Distinct(t)
    ensures RootOf(t) == NULL <==> t.Leaf?
    ensures RootOf(t) != NULL ==> RootOf(t) in Nodes(t)
    ensures NULL !in Nodes(t)
  {
  }

  lemma HoleIn(z: Path)
    requires PathDistinct(z)
    ensures Hole(z) == NULL <==> z.Top?
    ensures z.Step? ==> Hole(z) in PathNodes(z)
    ensures NULL !in PathNodes(z)
  {
    if z.Step? { RootIn(z.sib); }
  }

  // ----- in-order sequence

  function InOrder(t: Tree): seq<Ptr> {
    match t
    case Leaf => []
    case Br(l, n, _, r) => InOrder(l) + [n] + InOrder(r)
  }

  /** The nodes visited before, respectively after, the subtree at the hole. */
  function Before(z: Path): seq<Ptr> {
    match z
    case Top => []
    case Step(up, s, n, _, sib) => if s.Left? then Before(up) else Before(up) + InOrder(sib) + [n]
  }

  function After(z: Path): seq<Ptr> {
    match z
    case Top => []
    case Step(up, s, n, _, sib) => if s.Left? then [n] + InOrder(sib) + After(up) else After(up)
  }

  lemma {:induction false} PlugInOrder(z: Path, t: Tree)
    ensures InOrder(Plug(z, t)) == Before(z) + InOrder(t) + After(z)
  {
    match z
    case Top =>
    case Step(up, s, n, c, sib) => PlugInOrder(up, Mk(s, t, n, c, sib));
  }

  /** An empty slot divides the order of the tree in two. */
  lemma SlotOrder(z: Path)
    ensures InOrder(Plug(z, Leaf)) == Before(z) + After(z)
  {
    PlugInOrder(z, Leaf);
    assert Before(z) + [] == Before(z);
  }

  lemma {:induction false} InOrderNodes(t: Tree)
    ensures forall n :: n in InOrder(t) <==> n in Nodes(t)
  {
    match t
    case Leaf =>
    case Br(l, n, _, r) => InOrderNodes(l); InOrderNodes(r);
  }

  /** In a tree without repeated nodes every node has one position. */
  lemma {:induction false} InOrderInjective(t: Tree)
    requires Distinct(t)
    ensures forall i, j :: 0 <= i < j < |InOrder(t)| ==> InOrder(t)[i] != InOrder(t)[j]
  {
    match t
    case Leaf =>
    case Br(l, n, _, r) =>
      InOrderInjective(l); InOrderInjective(r);
      InOrderNodes(l); InOrderNodes(r);
      var a, b, s := InOrder(l), InOrder(r), InOrder(t);
      forall i, j | 0 <= i < j < |s| ensures s[i] != s[j] {
        if i < |a| { assert s[i] in a; } else if i > |a| { assert s[i] == b[i - |a| - 1]; }
        if j < |a| { assert s[j] in a; } else if j > |a| { assert s[j] == b[j - |a| - 1]; assert s[j] in b; }
      }
  }

  lemma {:induction false} PlugNodes(z: Path, t: Tree)
    ensures Nodes(Plug(z, t)) == PathNodes(z) + Nodes(t)
  {
    match z
    case Top =>
    case Step(up, s, n, c, sib) => PlugNodes(up, Mk(s, t, n, c, sib)); MkFacts(s, t, n, c, sib);
  }

  // ----- colouring and balance

  predicate IsRed(t: Tree) { t.Br? && t.color.Red? }

  function Weight(c: Color): nat { if c.Black? then 1 else 0 }

  /** Number of black nodes down the left spine. */
  function BlackHeight(t: Tree): nat {
    if t.Leaf? then 0 else BlackHeight(t.left) + Weight(t.color)
  }

  /** Every way down from a node passes the same number of black nodes. */
  predicate Balanced(t: Tree) {
    t.Br? ==> BlackHeight(t.left) == BlackHeight(t.right) && Balanced(t.left) && Balanced(t.right)
  }

  predicate NoRedRed(t: Tree) {
    t.Br? ==> (t.color.Red? ==> !IsRed(t.left) && !IsRed(t.right)) && NoRedRed(t.left) && NoRedRed(t.right)
  }

  predicate RedBlack(t: Tree) { !IsRed(t) && Balanced(t) && NoRedRed(t) }

  /** Plugging a balanced tree of black height k keeps the whole balanced. */
  predicate PathBalanced(z: Path, k: nat) {
    match z
    case Top => true
    case Step(up, _, _, c, sib) => BlackHeight(sib) == k && Balanced(sib) && PathBalanced(up, k + Weight(c))
  }

  /** The path has no red-red edge of its own and its top node is black. */
  predicate PathNoRedRed(z: Path) {
    match z
    case Top => true
    case Step(up, _, _, c, sib) =>
      && NoRedRed(sib) && PathNoRedRed(up)
      && (c.Red? ==> !IsRed(sib) && up.Step? && up.color.Black?)
  }

  /** A red subtree may be plugged here. */
  predicate BlackHole(z: Path) { z.Step? && z.color.Black? }

  lemma {:induction false} PlugRedBlack(z: Path, t: Tree)
    ensures RedBlack(Plug(z, t)) <==>
              && PathBalanced(z, BlackHeight(t)) && PathNoRedRed(z)
              && Balanced(t) && NoRedRed(t) && (IsRed(t) ==> BlackHole(z))
  {
    match z
    case Top =>
    case Step(up, s, n, c, sib) => PlugRedBlack(up, Mk(s, t, n, c, sib));
  }

  // ----- size and height

  function Size(t: Tree): nat { if t.Leaf? then 0 else Size(t.left) + 1 + Size(t.right) }

  function Max(a: nat, b: nat): nat { if a < b then b else a }

  function Height(t: Tree): nat { if t.Leaf? then 0 else 1 + Max(Height(t.left), Height(t.right)) }

  lemma {:induction false} Pow2Mono(a: nat, b: nat)
    requires a <= b
    ensures Pow2(a) <= Pow2(b)
    decreases b
  {
    if a < b { Pow2Mono(a, b - 1); }
  }

  lemma {:induction false} HeightByBlack(t: Tree)
    requires Balanced(t) && NoRedRed(t)
    ensures Height(t) <= 2 * BlackHeight(t) + (if IsRed(t) then 1 else 0)
    ensures Size(t) + 1 >= Pow2(BlackHeight(t))
  {
    if t.Br? {
      HeightByBlack(t.left);
      HeightByBlack(t.right);
    }
  }

  /** Height is at most 2*log2(n+1): if the tree is at least h high it has at
      least 2^(h/2) - 1 nodes (h/2 rounded up). */
  lemma HeightBound(t: Tree)
    requires RedBlack(t)
    ensures Size(t) + 1 >= Pow2((Height(t) + 1) / 2)
  {
    HeightByBlack(t);
    Pow2Mono((Height(t) + 1) / 2, BlackHeight(t));
  }

  lemma {:induction false} SizeInOrder(t: Tree)
    ensures |InOrder(t)| == Size(t)
  {
    if t.Br? { SizeInOrder(t.left); SizeInOrder(t.right); }
  }
}
