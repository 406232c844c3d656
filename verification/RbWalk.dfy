/** Reading a tree without changing it: the ends of the order, single steps along
    it, and the guided descent that every index built on the tree performs. */
module RbWalk {
  import opened Common
  import opened RbShape
  import opened RbHeap

  // ----- the order seen from one side

  /** The j-th element of s counted from its `d` end. */
  function From(d: Side, s: seq<Ptr>, j: nat): Ptr
    requires j < |s|
  {
    if d.Left? then s[j] else s[|s| - 1 - j]
  }

  /** How many nodes lie on the `d` side of the subtree at the hole. */
  function Beside(d: Side, z: Path): nat { if d.Left? then |Before(z)| else |After(z)| }

  lemma BesideStep(d: Side, up: Path, s: Side, n: Ptr, c: Color, sib: Tree)
    ensures Beside(d, Step(up, s, n, c, sib)) == if s == d then Beside(d, up) else Beside(d, up) + Size(sib) + 1
  {
    SizeInOrder(sib);
  }

  /** Nothing on the `d` side of its root: the root is the `d` end of the subtree. */
  lemma EndHere(d: Side, z: Path, t: Tree)
    requires t.Br? && Near(d, t).Leaf?
    ensures Beside(d, z) < |InOrder(Plug(z, t))| && From(d, InOrder(Plug(z, t)), Beside(d, z)) == t.node
  {
    PlugInOrder(z, t);
    var s, m := InOrder(Plug(z, t)), InOrder(t);
    if d.Left? {
      assert m[0] == t.node;
      assert s[|Before(z)|] == m[0];
    } else {
      assert m[|m| - 1] == t.node;
      assert s[|Before(z)| + |m| - 1] == m[|m| - 1];
    }
  }

  /** The node above, when the subtree hangs on its `d` side, comes next. */
  lemma AboveNext(d: Side, z: Path, t: Tree)
    requires z.Step? && z.side == d
    ensures var s, k := InOrder(Plug(z, t)), Beside(d, z) + Size(t); k < |s| && From(d, s, k) == z.node
  {
    PlugInOrder(z, t);
    SizeInOrder(t);
    var s := InOrder(Plug(z, t));
    if d.Left? {
      assert s[|Before(z)| + |InOrder(t)|] == After(z)[0];
    } else {
      assert s[|Before(z)| - 1] == Before(z)[|Before(z)| - 1];
    }
  }

  lemma AllSeen(d: Side, t: Tree)
    ensures Beside(d, Top) + Size(t) == |InOrder(Plug(Top, t))|
  {
    SizeInOrder(t);
  }

  lemma Position(d: Side, z: Path, t: Tree, j: nat)
    requires t.Br? && Distinct(Plug(z, t)) && j < |InOrder(Plug(z, t))| && From(d, InOrder(Plug(z, t)), j) == t.node
    ensures j == Beside(d, z) + Size(Near(d, t))
  {
    PlugInOrder(z, t);
    InOrderInjective(Plug(z, t));
    SizeInOrder(t.left); SizeInOrder(t.right);
    var s := InOrder(Plug(z, t));
    assert InOrder(t)[|InOrder(t.left)|] == t.node;
    assert s[|Before(z)| + |InOrder(t.left)|] == t.node;
    assert |s| == |Before(z)| + |InOrder(t.left)| + 1 + |InOrder(t.right)| + |After(z)|;
  }

  // ----- guided descent

  datatype Order = Less | Equal | Greater

  /** Going left at n means that what is looked for comes before n, and so on:
      the answers along the order are Greater..., Equal..., Less... */
  predicate Guides(cmp: Ptr -> Order, s: seq<Ptr>) {
    forall i, j :: 0 <= i < j < |s| ==>
      (cmp(s[i]).Less? ==> cmp(s[j]).Less?) && (cmp(s[j]).Greater? ==> cmp(s[i]).Greater?)
  }

  /** The node at which a descent through t ends, null if at an empty slot. */
  function Reach(cmp: Ptr -> Order, t: Tree): Ptr {
    if t.Leaf? then NULL
    else match cmp(t.node) case Less => Reach(cmp, t.left) case Greater => Reach(cmp, t.right) case Equal => t.node
  }

  predicate All(cmp: Ptr -> Order, o: Order, s: seq<Ptr>) { forall n :: n in s ==> cmp(n) == o }

  /** Where the order says Less everything after says Less, where it says Greater everything before. */
  lemma GuidesSides(cmp: Ptr -> Order, a: seq<Ptr>, l: seq<Ptr>, n: Ptr, r: seq<Ptr>, b: seq<Ptr>)
    requires Guides(cmp, a + (l + [n] + r) + b)
    ensures cmp(n).Less? ==> All(cmp, Less, r)
    ensures cmp(n).Greater? ==> All(cmp, Greater, l)
  {
    var q, k := a + (l + [n] + r) + b, |a| + |l|;
    assert q[k] == n;
    forall j | 0 <= j < |r| ensures cmp(n).Less? ==> cmp(r[j]).Less? { assert q[k + 1 + j] == r[j]; }
    forall j | 0 <= j < |l| ensures cmp(n).Greater? ==> cmp(l[j]).Greater? { assert q[|a| + j] == l[j]; }
  }

  /** a stands in the subtree of b. */
  predicate Below(t: Tree, b: Ptr, a: Ptr) {
    t.Br? && if t.node == b then a in Nodes(t) else Below(t.left, b, a) || Below(t.right, b, a)
  }

  /** a stands in the right subtree of b. */
  predicate RightBelow(t: Tree, b: Ptr, a: Ptr) {
    t.Br? && if t.node == b then a in Nodes(t.right) else RightBelow(t.left, b, a) || RightBelow(t.right, b, a)
  }

  lemma {:induction false} RightBelowIn(t: Tree, b: Ptr, a: Ptr)
    requires RightBelow(t, b, a)
    ensures a in Nodes(t) && b in Nodes(t)
  {
    if t.node != b {
      if RightBelow(t.left, b, a) { RightBelowIn(t.left, b, a); } else { RightBelowIn(t.right, b, a); }
    }
  }

  lemma {:induction false} BelowIn(t: Tree, b: Ptr, a: Ptr)
    requires Below(t, b, a)
    ensures a in Nodes(t) && b in Nodes(t)
  {
    if t.node != b {
      if Below(t.left, b, a) { BelowIn(t.left, b, a); } else { BelowIn(t.right, b, a); }
    }
  }

  lemma {:induction false} BelowAntisymmetric(t: Tree, a: Ptr, b: Ptr)
    requires Distinct(t) && Below(t, a, b) && Below(t, b, a)
    ensures a == b
  {
    if a != b {
      var u := if t.node == a then b else a;
      var v := if t.node == a then a else b;
      if Below(t.left, u, v) { BelowIn(t.left, u, v); } else { BelowIn(t.right, u, v); }
      if t.node != a && t.node != b {
        if Below(t.left, b, a) { BelowIn(t.left, b, a); } else { BelowIn(t.right, b, a); }
        BelowAntisymmetric(if a in Nodes(t.left) then t.left else t.right, a, b);
      }
    }
  }

  lemma GuidesPart(cmp: Ptr -> Order, a: seq<Ptr>, s: seq<Ptr>, b: seq<Ptr>)
    requires Guides(cmp, a + s + b)
    ensures Guides(cmp, s)
  {
    var q := a + s + b;
    forall i | 0 <= i < |s| ensures s[i] == q[|a| + i] { }
  }

  /** A descent ends at the highest of the nodes that compare equal: all others are below it. */
  lemma {:induction false} FirstHit(cmp: Ptr -> Order, t: Tree, n: Ptr)
    requires Distinct(t) && Guides(cmp, InOrder(t)) && n in Nodes(t) && cmp(n).Equal?
    ensures Below(t, Reach(cmp, t), n) && cmp(Reach(cmp, t)).Equal?
  {
    GuidesBranches(cmp, t);
    match cmp(t.node) {
      case Equal =>
      case Less => FirstHit(cmp, t.left, n); BelowIn(t.left, Reach(cmp, t), n);
      case Greater => FirstHit(cmp, t.right, n); BelowIn(t.right, Reach(cmp, t), n);
    }
  }

  lemma GuidesBranches(cmp: Ptr -> Order, t: Tree)
    requires t.Br? && Guides(cmp, InOrder(t))
    ensures Guides(cmp, InOrder(t.left)) && Guides(cmp, InOrder(t.right))
    ensures cmp(t.node).Less? ==> forall n :: n in Nodes(t.right) ==> cmp(n).Less?
    ensures cmp(t.node).Greater? ==> forall n :: n in Nodes(t.left) ==> cmp(n).Greater?
  {
    var l, r := InOrder(t.left), InOrder(t.right);
    assert InOrder(t) == [] + (l + [t.node] + r) + [];
    GuidesSides(cmp, [], l, t.node, r, []);
    assert InOrder(t) == [] + l + ([t.node] + r);
    GuidesPart(cmp, [], l, [t.node] + r);
    assert InOrder(t) == (l + [t.node]) + r + [];
    GuidesPart(cmp, l + [t.node], r, []);
    InOrderNodes(t.left); InOrderNodes(t.right);
  }

  lemma {:induction false} ReachIn(cmp: Ptr -> Order, t: Tree)
    ensures Reach(cmp, t) == NULL || (Reach(cmp, t) in Nodes(t) && cmp(Reach(cmp, t)).Equal?)
  {
    if t.Br? { ReachIn(cmp, t.left); ReachIn(cmp, t.right); }
  }

  lemma DescendStep(cmp: Ptr -> Order, z: Path, t: Tree, s: Side)
    requires t.Br? && Guides(cmp, InOrder(Plug(z, t))) && cmp(t.node) == (if s.Left? then Less else Greater)
    requires All(cmp, Greater, Before(z)) && All(cmp, Less, After(z))
    ensures var z' := Step(z, s, t.node, t.color, Near(s.Opp(), t));
            && Plug(z', Near(s, t)) == Plug(z, t)
            && All(cmp, Greater, Before(z')) && All(cmp, Less, After(z'))
  {
    PlugInOrder(z, t);
    GuidesSides(cmp, Before(z), InOrder(t.left), t.node, InOrder(t.right), After(z));
  }
}
