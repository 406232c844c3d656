/** What the repair loops of insertion and erasure keep, case by case, as facts
    about trees: the in-order sequence, balance and colouring. */
module RbRepair {
  import opened Common
  import opened RbShape

  /** The side a node hangs on only decides the order of the three parts. */
  lemma MkFlip(s: Side, near: Tree, n: Ptr, c: Color, far: Tree)
    ensures Mk(s, near, n, c, far) == Mk(s.Opp(), far, n, c, near)
    ensures s.Opp().Opp() == s
  {
  }

  lemma MkOrder(s: Side, near: Tree, n: Ptr, c: Color, far: Tree)
    ensures InOrder(Mk(s, near, n, c, far)) ==
            if s.Left? then InOrder(near) + [n] + InOrder(far) else InOrder(far) + [n] + InOrder(near)
  {
  }

  lemma MkColors(s: Side, near: Tree, n: Ptr, c: Color, far: Tree)
    ensures IsRed(Mk(s, near, n, c, far)) <==> c.Red?
    ensures Balanced(Mk(s, near, n, c, far)) <==>
              BlackHeight(near) == BlackHeight(far) && Balanced(near) && Balanced(far)
    ensures BlackHeight(near) == BlackHeight(far) ==>
              BlackHeight(Mk(s, near, n, c, far)) == BlackHeight(near) + Weight(c)
    ensures NoRedRed(Mk(s, near, n, c, far)) <==>
              (c.Red? ==> !IsRed(near) && !IsRed(far)) && NoRedRed(near) && NoRedRed(far)
  {
  }

  /** Colours apart, a rotation keeps the order of the nodes. */
  lemma RotateOrder(s: Side, a: Tree, n: Ptr, nc: Color, b: Tree, o: Ptr, oc: Color, c: Tree, nc': Color, oc': Color)
    ensures InOrder(Mk(s, a, n, nc, Mk(s, b, o, oc, c))) == InOrder(Mk(s, Mk(s, a, n, nc', b), o, oc', c))
  {
    MkOrder(s, b, o, oc, c); MkOrder(s, a, n, nc, Mk(s, b, o, oc, c));
    MkOrder(s, a, n, nc', b); MkOrder(s, Mk(s, a, n, nc', b), o, oc', c);
    var x, y, w := InOrder(a), InOrder(b), InOrder(c);
    if s.Left? {
      assert x + [n] + (y + [o] + w) == (x + [n] + y) + [o] + w;
    } else {
      assert (w + [o] + y) + [n] + x == w + [o] + (y + [n] + x);
    }
  }

  lemma SameOrder(z: Path, t: Tree, t': Tree)
    requires InOrder(t) == InOrder(t')
    ensures InOrder(Plug(z, t)) == InOrder(Plug(z, t'))
  {
    PlugInOrder(z, t);
    PlugInOrder(z, t');
  }

  /** A rotation anywhere in a tree keeps the order of all its nodes. */
  lemma RotateKeepsOrder(z: Path, s: Side, a: Tree, n: Ptr, nc: Color, b: Tree, o: Ptr, oc: Color, c: Tree,
                         nc': Color, oc': Color)
    ensures InOrder(Plug(z, Mk(s, a, n, nc, Mk(s, b, o, oc, c)))) ==
            InOrder(Plug(z, Mk(s, Mk(s, a, n, nc', b), o, oc', c)))
  {
    RotateOrder(s, a, n, nc, b, o, oc, c, nc', oc');
    SameOrder(z, Mk(s, a, n, nc, Mk(s, b, o, oc, c)), Mk(s, Mk(s, a, n, nc', b), o, oc', c));
  }

  // ----- insertion: all is well but that the red tree t may sit under a red node

  predicate Inserting(z: Path, t: Tree, q: seq<Ptr>) {
    && IsRed(t) && Balanced(t) && NoRedRed(t)
    && PathBalanced(z, BlackHeight(t)) && PathNoRedRed(z)
    && InOrder(Plug(z, t)) == q
  }

  lemma InsertRecolorKeeps(z: Path, s: Side, s': Side, t: Tree, p: Ptr, sib: Tree, g: Ptr, u: Tree, q: seq<Ptr>)
    requires Inserting(Step(Step(z, s, g, Black, u), s', p, Red, sib), t, q) && IsRed(u)
    ensures Inserting(z, Mk(s, Mk(s', t, p, Black, sib), g, Red, u.(color := Black)), q)
  {
    var up, k := Step(z, s, g, Black, u), BlackHeight(t);
    assert PathBalanced(up, k) && PathNoRedRed(up) && PathBalanced(z, k + 1);
    assert Plug(Step(up, s', p, Red, sib), t) == Plug(z, Mk(s, Mk(s', t, p, Red, sib), g, Black, u));
    var p0, p1, u1 := Mk(s', t, p, Red, sib), Mk(s', t, p, Black, sib), u.(color := Black);
    MkOrder(s', t, p, Red, sib); MkOrder(s', t, p, Black, sib);
    MkOrder(s, p0, g, Black, u); MkOrder(s, p1, g, Red, u1);
    SameOrder(z, Mk(s, p0, g, Black, u), Mk(s, p1, g, Red, u1));
    MkColors(s', t, p, Black, sib); MkColors(s, p1, g, Red, u1);
  }

  lemma InsertRotateKeeps(z: Path, s: Side, t: Tree, p: Ptr, sib: Tree, g: Ptr, u: Tree, q: seq<Ptr>)
    requires Inserting(Step(Step(z, s, g, Black, u), s, p, Red, sib), t, q) && !IsRed(u)
    ensures Inserting(Step(z, s, p, Black, Mk(s, sib, g, Red, u)), t, q)
  {
    var up, k := Step(z, s, g, Black, u), BlackHeight(t);
    assert PathBalanced(up, k) && PathNoRedRed(up) && PathBalanced(z, k + 1);
    assert Plug(Step(up, s, p, Red, sib), t) == Plug(z, Mk(s, Mk(s, t, p, Red, sib), g, Black, u));
    RotateKeepsOrder(z, s, t, p, Black, sib, g, Red, u, Red, Black);
    MkColors(s, sib, g, Red, u);
  }

  lemma InsertUnbendKeeps(z: Path, s: Side, p: Ptr, sib: Tree, g: Ptr, u: Tree, a: Tree, n: Ptr, b: Tree, q: seq<Ptr>)
    requires Inserting(Step(Step(z, s, g, Black, u), s.Opp(), p, Red, sib), Mk(s, a, n, Red, b), q)
    ensures Inserting(Step(Step(z, s, g, Black, u), s, n, Red, b), Mk(s, sib, p, Red, a), q)
  {
    MkFlip(s.Opp(), Mk(s, a, n, Red, b), p, Red, sib);
    RotateKeepsOrder(Step(z, s, g, Black, u), s, sib, p, Red, a, n, Red, b, Red, Red);
    MkColors(s, a, n, Red, b); MkColors(s, sib, p, Red, a);
  }

  lemma InsertDone(z: Path, t: Tree, q: seq<Ptr>)
    requires Inserting(z, t, q) && !(z.Step? && z.color.Red?)
    ensures z.Step? ==> RedBlack(Plug(z, t)) && InOrder(Plug(z, t)) == q
    ensures z.Top? ==> RedBlack(t.(color := Black)) && InOrder(t.(color := Black)) == q
  {
    PlugRedBlack(z, t);
  }

  // ----- erasure: the subtree t is one black node short

  function Blacken(t: Tree): Tree { if t.Br? then t.(color := Black) else t }

  /** Only the root of t may be part of a red-red edge, and then it is red itself. */
  predicate Erasing(z: Path, t: Tree, q: seq<Ptr>) {
    && Balanced(t) && NoRedRed(Blacken(t))
    && PathBalanced(z, BlackHeight(t) + 1) && PathNoRedRed(z)
    && InOrder(Plug(z, t)) == q
  }

  /** The repair loop never meets a missing sibling. */
  lemma SiblingExists(z: Path, t: Tree, q: seq<Ptr>)
    requires Erasing(z, t, q) && z.Step?
    ensures z.sib.Br? && Balanced(z.sib) && BlackHeight(z.sib) == BlackHeight(t) + 1 && NoRedRed(z.sib)
    ensures IsRed(z.sib) ==> z.color.Black?
    ensures IsRed(z.sib) ==> Near(z.side, z.sib).Br? && !IsRed(Near(z.side, z.sib))
  {
  }

  lemma EraseRedSiblingKeeps(z: Path, s: Side, t: Tree, p: Ptr, ol: Tree, o: Ptr, or: Tree, q: seq<Ptr>)
    requires Erasing(Step(z, s, p, Black, Mk(s, ol, o, Red, or)), t, q)
    ensures Erasing(Step(Step(z, s, o, Black, or), s, p, Red, ol), t, q)
  {
    var k := BlackHeight(t) + 1;
    MkColors(s, ol, o, Red, or);
    assert PathBalanced(z, k + 1);
    assert PathBalanced(Step(z, s, o, Black, or), k);
    RotateKeepsOrder(z, s, t, p, Black, ol, o, Red, or, Red, Black);
    assert Plug(Step(Step(z, s, o, Black, or), s, p, Red, ol), t) == Plug(z, Mk(s, Mk(s, t, p, Red, ol), o, Black, or));
  }

  lemma EraseRecolorKeeps(z: Path, s: Side, t: Tree, p: Ptr, pc: Color, ol: Tree, o: Ptr, or: Tree, q: seq<Ptr>)
    requires Erasing(Step(z, s, p, pc, Mk(s, ol, o, Black, or)), t, q) && !IsRed(t) && !IsRed(ol) && !IsRed(or)
    ensures Erasing(z, Mk(s, t, p, pc, Mk(s, ol, o, Red, or)), q)
  {
    MkColors(s, ol, o, Black, or); MkColors(s, ol, o, Red, or);
    MkColors(s, t, p, pc, Mk(s, ol, o, Red, or)); MkColors(s, t, p, Black, Mk(s, ol, o, Red, or));
    MkOrder(s, ol, o, Black, or); MkOrder(s, ol, o, Red, or);
    MkOrder(s, t, p, pc, Mk(s, ol, o, Black, or)); MkOrder(s, t, p, pc, Mk(s, ol, o, Red, or));
    SameOrder(z, Mk(s, t, p, pc, Mk(s, ol, o, Black, or)), Mk(s, t, p, pc, Mk(s, ol, o, Red, or)));
    assert Blacken(Mk(s, t, p, pc, Mk(s, ol, o, Red, or))) == Mk(s, t, p, Black, Mk(s, ol, o, Red, or));
  }

  /** Red near nephew, black far one: the sibling's far child becomes red. */
  lemma EraseUnbendKeeps(z: Path, s: Side, t: Tree, p: Ptr, pc: Color, a: Tree, m: Ptr, b: Tree, o: Ptr, or: Tree,
                         q: seq<Ptr>)
    requires Erasing(Step(z, s, p, pc, Mk(s, Mk(s, a, m, Red, b), o, Black, or)), t, q) && !IsRed(or)
    ensures Erasing(Step(z, s, p, pc, Mk(s, a, m, Black, Mk(s, b, o, Red, or))), t, q)
  {
    MkColors(s, a, m, Red, b); MkColors(s, Mk(s, a, m, Red, b), o, Black, or);
    MkColors(s, b, o, Red, or); MkColors(s, a, m, Black, Mk(s, b, o, Red, or));
    RotateOrder(s, a, m, Black, b, o, Red, or, Red, Black);
    var x, y := Mk(s, Mk(s, a, m, Red, b), o, Black, or), Mk(s, a, m, Black, Mk(s, b, o, Red, or));
    MkOrder(s, t, p, pc, x); MkOrder(s, t, p, pc, y);
    SameOrder(z, Mk(s, t, p, pc, x), Mk(s, t, p, pc, y));
  }

  /** Red far nephew: one rotation ends the repair with a red-black tree. */
  lemma EraseRotateEnds(z: Path, s: Side, t: Tree, p: Ptr, pc: Color, ol: Tree, o: Ptr, or: Tree, q: seq<Ptr>)
    requires Erasing(Step(z, s, p, pc, Mk(s, ol, o, Black, or)), t, q) && !IsRed(t) && IsRed(or)
    ensures var u := Plug(z, Mk(s, Mk(s, t, p, Black, ol), o, pc, Blacken(or)));
            RedBlack(u) && InOrder(u) == q
  {
    var l := Mk(s, t, p, Black, ol);
    MkColors(s, ol, o, Black, or); MkColors(s, t, p, Black, ol); MkColors(s, l, o, pc, Blacken(or));
    RotateOrder(s, t, p, pc, ol, o, Black, or, Black, pc);
    MkOrder(s, l, o, pc, or); MkOrder(s, l, o, pc, Blacken(or));
    SameOrder(z, Mk(s, t, p, pc, Mk(s, ol, o, Black, or)), Mk(s, l, o, pc, Blacken(or)));
    PlugRedBlack(z, Mk(s, l, o, pc, Blacken(or)));
  }

  lemma EraseDone(z: Path, t: Tree, q: seq<Ptr>)
    requires Erasing(z, t, q) && (z.Top? || IsRed(t))
    ensures RedBlack(Plug(z, Blacken(t))) && InOrder(Plug(z, Blacken(t))) == q
  {
    SameOrder(z, t, Blacken(t));
    PlugRedBlack(z, Blacken(t));
  }

  /** Turns left in the repair loop: it stops at a red node, and otherwise climbs. */
  function Repair(z: Path, t: Tree): nat { if IsRed(t) then 0 else Len(z) + 1 }

  lemma BlackRoot(u: Tree)
    requires RedBlack(u)
    ensures Erasing(Top, u, InOrder(u))
  {
  }
}
