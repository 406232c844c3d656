/** The red-black tree of kernel/rbtree.c, as code that rewrites cells in place. */
module RbTree {
  import opened Common
  import opened RbShape
  import opened RbHeap
  import opened RbRepair
  import opened RbErase
  import opened RbWalk

  class RbRoot {
    var cell: Cells   // every struct rb_node, by address
    var root: Ptr     // root->rb_node
    ghost var tree: Tree

    ghost predicate Valid()
      reads this
    {
      Focus(cell, root, Top, tree)
    }

    constructor ()
      ensures Valid() && tree == Leaf && cell == map[]
    {
      cell, root, tree := map[], NULL, Leaf;
    }

    method SetColor(n: Ptr, c: Color)
      requires n in cell
      modifies this`cell
      ensures cell == old(cell)[n := old(cell)[n].(color := c)]
    {
      cell := cell[n := cell[n].(color := c)];
    }

    /** Makes the link that held `node` hold `other` instead. */
    method ReplaceChild(parent: Ptr, node: Ptr, other: Ptr, side: Side)
      requires parent != NULL ==> parent in cell
      modifies this`cell, this`root
      ensures parent != NULL ==>
                cell == old(cell)[parent := old(cell)[parent].WithChild(SlotOf(old(cell)[parent], side, node), other)]
      ensures parent == NULL ==> cell == old(cell)
      ensures root == if parent == NULL then other else old(root)
    {
      if parent != NULL {
        if node == cell[parent].Child(side) {
          cell := cell[parent := cell[parent].WithChild(side, other)];
        } else {
          cell := cell[parent := cell[parent].WithChild(side.Opp(), other)];
        }
      } else {
        root := other;
      }
    }

    method Rotate(node: Ptr, side: Side)
      requires CanRotate(cell, node, side)
      modifies this`cell, this`root
      ensures Rotated(old(cell), cell, old(root), root, node, side)
    {
      var other := cell[node].Child(side.Opp());
      var parent := cell[node].parent;
      var inner := cell[other].Child(side);
      cell := cell[node := cell[node].WithChild(side.Opp(), inner)];
      if inner != NULL {
        cell := cell[inner := cell[inner].(parent := node)];
      }
      cell := cell[other := cell[other].WithChild(side, node)];
      cell := cell[other := cell[other].(parent := parent)];
      ReplaceChild(parent, node, other, side);
      cell := cell[node := cell[node].(parent := other)];
    }

    /** Rotate, told which trees hang around the two nodes. */
    method RotateAt(node: Ptr, side: Side, ghost z: Path, ghost a: Tree, ghost nc: Color,
                    ghost b: Tree, ghost other: Ptr, ghost oc: Color, ghost c: Tree)
      requires Focus(cell, root, z, Mk(side, a, node, nc, Mk(side, b, other, oc, c)))
      modifies this`cell, this`root
      ensures Focus(cell, root, z, Mk(side, Mk(side, a, node, nc, b), other, oc, c))
      ensures cell.Keys == old(cell).Keys
    {
      RotateBefore(cell, root, z, side, a, node, nc, b, other, oc, c);
      Rotate(node, side);
      RotateAfter(old(cell), cell, old(root), root, z, side, a, node, nc, b, other, oc, c);
    }

    method RecolorAt(n: Ptr, c': Color, ghost z: Path, ghost s: Side, ghost near: Tree, ghost c: Color, ghost far: Tree)
      requires Focus(cell, root, z, Mk(s, near, n, c, far))
      modifies this`cell
      ensures Focus(cell, root, z, Mk(s, near, n, c', far))
      ensures cell.Keys == old(cell).Keys
    {
      Recolored(cell, root, z, s, near, n, c, far, c');
      SetColor(n, c');
    }

    // ----- insertion

    /** A red uncle: parent and uncle turn black, the grandparent red. */
    method InsertRecolor(parent: Ptr, gparent: Ptr, uncle: Ptr, ghost z: Path, ghost s: Side, ghost s': Side,
                         ghost t: Tree, ghost sib: Tree, ghost ul: Tree, ghost ur: Tree)
      requires Focus(cell, root, z, Mk(s, Mk(s', t, parent, Red, sib), gparent, Black, Br(ul, uncle, Red, ur)))
      modifies this`cell
      ensures Focus(cell, root, z, Mk(s, Mk(s', t, parent, Black, sib), gparent, Red, Br(ul, uncle, Black, ur)))
      ensures cell.Keys == old(cell).Keys
    {
      ghost var p, p' := Mk(s', t, parent, Red, sib), Mk(s', t, parent, Black, sib);
      ghost var u, u' := Br(ul, uncle, Red, ur), Br(ul, uncle, Black, ur);
      Zip(cell, root, z, s.Opp(), u, gparent, Black, p);
      RecolorAt(uncle, Black, Step(z, s.Opp(), gparent, Black, p), Left, ul, Red, ur);
      Zip(cell, root, z, s.Opp(), u', gparent, Black, p);
      Zip(cell, root, z, s, p, gparent, Black, u');
      RecolorAt(parent, Black, Step(z, s, gparent, Black, u'), s', t, Red, sib);
      Zip(cell, root, z, s, p', gparent, Black, u');
      RecolorAt(gparent, Red, z, s, p', Black, u');
    }

    /** Outer grandchild, black uncle: parent becomes black and takes the grandparent's place. */
    method InsertRotate(parent: Ptr, gparent: Ptr, side: Side, ghost z: Path,
                        ghost t: Tree, ghost sib: Tree, ghost u: Tree)
      requires Focus(cell, root, z, Mk(side, Mk(side, t, parent, Red, sib), gparent, Black, u))
      modifies this`cell, this`root
      ensures Focus(cell, root, z, Mk(side, t, parent, Black, Mk(side, sib, gparent, Red, u)))
      ensures cell.Keys == old(cell).Keys
    {
      ghost var p, p' := Mk(side, t, parent, Red, sib), Mk(side, t, parent, Black, sib);
      Zip(cell, root, z, side, p, gparent, Black, u);
      RecolorAt(parent, Black, Step(z, side, gparent, Black, u), side, t, Red, sib);
      Zip(cell, root, z, side, p', gparent, Black, u);
      RecolorAt(gparent, Red, z, side, p', Black, u);
      MkFlip(side, t, parent, Black, sib);
      MkFlip(side, p', gparent, Red, u);
      RotateAt(gparent, side.Opp(), z, u, Red, sib, parent, Black, t);
      MkFlip(side, sib, gparent, Red, u);
      MkFlip(side, t, parent, Black, Mk(side, sib, gparent, Red, u));
    }

    /** Inner grandchild: rotated to the outside, so that node and parent swap roles. */
    method InsertUnbend(node: Ptr, parent: Ptr, side: Side, ghost z: Path, ghost gparent: Ptr, ghost u: Tree,
                        ghost sib: Tree, ghost a: Tree, ghost b: Tree)
      requires Focus(cell, root, z, Mk(side, Mk(side, sib, parent, Red, Mk(side, a, node, Red, b)), gparent, Black, u))
      modifies this`cell, this`root
      ensures Focus(cell, root, z, Mk(side, Mk(side, Mk(side, sib, parent, Red, a), node, Red, b), gparent, Black, u))
      ensures cell.Keys == old(cell).Keys
    {
      Zip(cell, root, z, side, Mk(side, sib, parent, Red, Mk(side, a, node, Red, b)), gparent, Black, u);
      RotateAt(parent, side, Step(z, side, gparent, Black, u), sib, Red, a, node, Red, b);
      Zip(cell, root, z, side, Mk(side, Mk(side, sib, parent, Red, a), node, Red, b), gparent, Black, u);
    }

    /** One turn of the loop of rb_insert_color: the parent of the red node is red. */
    method InsertStep(n0: Ptr, ghost z0: Path, ghost t0: Tree, ghost q: seq<Ptr>)
      returns (node: Ptr, ghost z: Path, ghost t: Tree)
      requires Focus(cell, root, z0, t0) && RootOf(t0) == n0 && Inserting(z0, t0, q)
      requires z0.Step? && z0.color.Red?
      modifies this`cell, this`root
      ensures Focus(cell, root, z, t) && RootOf(t) == node && Inserting(z, t, q) && Len(z) < Len(z0)
      ensures cell.Keys == old(cell).Keys
    {
      node, z, t := n0, z0, t0;
      FamilyView(cell, root, z, t);
      var parent := cell[node].parent;
      var gparent := cell[parent].parent;
      ghost var s', sib, zz, u := z.side, z.sib, z.up.up, z.up.sib;
      var side := if parent == cell[gparent].Child(Left) then Left else Right;
      assert z == Step(Step(zz, side, gparent, Black, u), s', parent, Red, sib);
      var uncle := cell[gparent].Child(side.Opp());
      if uncle != NULL && cell[uncle].color.Red? {
        InsertRecolor(parent, gparent, uncle, zz, side, s', t, sib, u.left, u.right);
        InsertRecolorKeeps(zz, side, s', t, parent, sib, gparent, u, q);
        node := gparent;
        z, t := zz, Mk(side, Mk(s', t, parent, Black, sib), gparent, Red, u.(color := Black));
      } else {
        if cell[parent].Child(side.Opp()) == node {
          ghost var a, b := Near(side, t), Near(side.Opp(), t);
          MkFlip(s', t, parent, Red, sib);
          InsertUnbend(node, parent, side, zz, gparent, u, sib, a, b);
          InsertUnbendKeeps(zz, side, parent, sib, gparent, u, a, node, b, q);
          t, sib := Mk(side, sib, parent, Red, a), b;
          parent, node := node, parent;
        }
        InsertRotate(parent, gparent, side, zz, t, sib, u);
        InsertRotateKeeps(zz, side, t, parent, sib, gparent, u, q);
        z := Step(zz, side, parent, Black, Mk(side, sib, gparent, Red, u));
        Zip(cell, root, zz, side, t, parent, Black, Mk(side, sib, gparent, Red, u));
      }
    }

    /** rb_insert_color on a red leaf just linked below the end of path z0. */
    method InsertColor(n0: Ptr, ghost z0: Path)
      requires Focus(cell, root, z0, Br(Leaf, n0, Red, Leaf)) && RedBlack(Plug(z0, Leaf))
      modifies this
      ensures Valid() && RedBlack(tree) && InOrder(tree) == Before(z0) + [n0] + After(z0)
      ensures cell.Keys == old(cell).Keys
    {
      var node := n0;
      ghost var z, t := z0, Br(Leaf, n0, Red, Leaf);
      ghost var q := InOrder(Plug(z, t));
      PlugRedBlack(z, Leaf);
      PlugInOrder(z, t);
      ParentView(cell, root, z, t);
      while cell[node].parent != NULL && cell[cell[node].parent].color.Red?
        invariant InsertLoop(node, z, t, q) && cell.Keys == old(cell).Keys
        decreases Len(z)
      {
        node, z, t := InsertTurn(node, z, t, q);
      }
      BlackenRoot(z, t, q);
    }

    ghost predicate InsertLoop(node: Ptr, z: Path, t: Tree, q: seq<Ptr>)
      reads this
    {
      && Focus(cell, root, z, t) && RootOf(t) == node && Inserting(z, t, q)
      && node in cell && cell[node].parent == Hole(z)
      && (z.Step? ==> z.node != NULL && z.node in cell && cell[z.node].color == z.color)
    }

    method InsertTurn(n0: Ptr, ghost z0: Path, ghost t0: Tree, ghost q: seq<Ptr>)
      returns (node: Ptr, ghost z: Path, ghost t: Tree)
      requires InsertLoop(n0, z0, t0, q) && z0.Step? && z0.color.Red?
      modifies this`cell, this`root
      ensures InsertLoop(node, z, t, q) && Len(z) < Len(z0) && cell.Keys == old(cell).Keys
    {
      node, z, t := InsertStep(n0, z0, t0, q);
      ParentView(cell, root, z, t);
    }

    method BlackenRoot(ghost z: Path, ghost t: Tree, ghost q: seq<Ptr>)
      requires Focus(cell, root, z, t) && Inserting(z, t, q) && (z.Top? || z.color.Black?)
      modifies this
      ensures Valid() && RedBlack(tree) && InOrder(tree) == q
      ensures cell.Keys == old(cell).Keys
    {
      InsertDone(z, t, q);
      PlugBr(z, t);
      Rezip(cell, root, z, t);
      tree := Plug(z, t);
      RecolorAt(root, Black, Top, Left, tree.left, tree.color, tree.right);
      tree := tree.(color := Black);
    }

    // ----- erasure

    /** A red sibling: rotated above the parent, so that the sibling is black. */
    method EraseRedSibling(parent: Ptr, other: Ptr, side: Side, ghost z: Path,
                           ghost t: Tree, ghost ol: Tree, ghost or: Tree)
      requires Focus(cell, root, z, Mk(side, t, parent, Black, Mk(side, ol, other, Red, or)))
      modifies this`cell, this`root
      ensures Focus(cell, root, z, Mk(side, Mk(side, t, parent, Red, ol), other, Black, or))
      ensures cell.Keys == old(cell).Keys
    {
      ghost var o, o' := Mk(side, ol, other, Red, or), Mk(side, ol, other, Black, or);
      MkFlip(side, t, parent, Black, o); MkFlip(side, t, parent, Black, o');
      Zip(cell, root, z, side.Opp(), o, parent, Black, t);
      RecolorAt(other, Black, Step(z, side.Opp(), parent, Black, t), side, ol, Red, or);
      Zip(cell, root, z, side.Opp(), o', parent, Black, t);
      RecolorAt(parent, Red, z, side, t, Black, o');
      RotateAt(parent, side, z, t, Red, ol, other, Black, or);
    }

    /** Both nephews black: the sibling turns red. */
    method EraseRecolor(other: Ptr, ghost side: Side, ghost z: Path, ghost t: Tree, ghost parent: Ptr, ghost pc: Color,
                        ghost ol: Tree, ghost or: Tree)
      requires Focus(cell, root, z, Mk(side, t, parent, pc, Mk(side, ol, other, Black, or)))
      modifies this`cell
      ensures Focus(cell, root, z, Mk(side, t, parent, pc, Mk(side, ol, other, Red, or)))
      ensures cell.Keys == old(cell).Keys
    {
      ghost var o, o' := Mk(side, ol, other, Black, or), Mk(side, ol, other, Red, or);
      MkFlip(side, t, parent, pc, o); MkFlip(side, t, parent, pc, o');
      Zip(cell, root, z, side.Opp(), o, parent, pc, t);
      RecolorAt(other, Red, Step(z, side.Opp(), parent, pc, t), side, ol, Black, or);
      Zip(cell, root, z, side.Opp(), o', parent, pc, t);
    }

    /** Only the near nephew red: it is rotated above the sibling. */
    method EraseUnbend(other: Ptr, near: Ptr, side: Side, ghost z: Path, ghost t: Tree, ghost parent: Ptr,
                       ghost pc: Color,
                       ghost a: Tree, ghost b: Tree, ghost or: Tree)
      requires Focus(cell, root, z, Mk(side, t, parent, pc, Mk(side, Mk(side, a, near, Red, b), other, Black, or)))
      modifies this`cell, this`root
      ensures Focus(cell, root, z, Mk(side, t, parent, pc, Mk(side, a, near, Black, Mk(side, b, other, Red, or))))
      ensures cell.Keys == old(cell).Keys
    {
      ghost var m := Mk(side, a, near, Red, b);
      ghost var o := Mk(side, m, other, Black, or);
      ghost var o' := Mk(side, a, near, Black, Mk(side, b, other, Red, or));
      ghost var zo := Step(z, side.Opp(), parent, pc, t);
      MkFlip(side, t, parent, pc, o); MkFlip(side, t, parent, pc, o');
      Zip(cell, root, z, side.Opp(), o, parent, pc, t);
      SetColor2(near, other, side, zo, a, b, or);
      MkFlip(side, a, near, Black, b);
      MkFlip(side, Mk(side, a, near, Black, b), other, Red, or);
      RotateAt(other, side.Opp(), zo, or, Red, b, near, Black, a);
      MkFlip(side, b, other, Red, or);
      MkFlip(side, a, near, Black, Mk(side, b, other, Red, or));
      Zip(cell, root, z, side.Opp(), o', parent, pc, t);
    }

    method SetColor2(near: Ptr, other: Ptr, ghost side: Side, ghost z: Path, ghost a: Tree, ghost b: Tree,
                     ghost or: Tree)
      requires Focus(cell, root, z, Mk(side, Mk(side, a, near, Red, b), other, Black, or))
      modifies this`cell
      ensures Focus(cell, root, z, Mk(side, Mk(side, a, near, Black, b), other, Red, or))
      ensures cell.Keys == old(cell).Keys
    {
      ghost var m, m' := Mk(side, a, near, Red, b), Mk(side, a, near, Black, b);
      Zip(cell, root, z, side, m, other, Black, or);
      RecolorAt(near, Black, Step(z, side, other, Black, or), side, a, Red, b);
      Zip(cell, root, z, side, m', other, Black, or);
      RecolorAt(other, Red, z, side, m', Black, or);
    }

    /** A red far nephew: the sibling takes the parent's place and colour. */
    method EraseRotate(parent: Ptr, other: Ptr, far: Ptr, side: Side, ghost z: Path, ghost t: Tree, ghost pc: Color,
                       ghost ol: Tree, ghost or: Tree)
      requires Focus(cell, root, z, Mk(side, t, parent, pc, Mk(side, ol, other, Black, or)))
      requires or.Br? && or.node == far && parent in cell && cell[parent].color == pc
      modifies this`cell, this`root
      ensures Focus(cell, root, z, Mk(side, Mk(side, t, parent, Black, ol), other, pc, Blacken(or)))
      ensures cell.Keys == old(cell).Keys
    {
      ghost var o, o1, o2 := Mk(side, ol, other, Black, or), Mk(side, ol, other, pc, or),
          Mk(side, ol, other, pc, Blacken(or));
      var c := cell[parent].color;
      MkFlip(side, t, parent, pc, o); MkFlip(side, t, parent, pc, o1);
      Zip(cell, root, z, side.Opp(), o, parent, pc, t);
      RecolorAt(other, c, Step(z, side.Opp(), parent, pc, t), side, ol, Black, or);
      Zip(cell, root, z, side.Opp(), o1, parent, pc, t);
      RecolorAt(parent, Black, z, side, t, pc, o1);
      MkFlip(side, t, parent, Black, o1); MkFlip(side, t, parent, Black, o2);
      Zip(cell, root, z, side.Opp(), o1, parent, Black, t);
      ghost var zo := Step(z, side.Opp(), parent, Black, t);
      MkFlip(side, ol, other, pc, or); MkFlip(side, ol, other, pc, Blacken(or));
      Zip(cell, root, zo, side.Opp(), or, other, pc, ol);
      RecolorAt(far, Black, Step(zo, side.Opp(), other, pc, ol), Left, or.left, or.color, or.right);
      Zip(cell, root, zo, side.Opp(), Blacken(or), other, pc, ol);
      Zip(cell, root, z, side.Opp(), o2, parent, Black, t);
      RotateAt(parent, side, z, t, Black, ol, other, pc, Blacken(or));
    }

    /** The part of one repair turn that needs a black sibling. */
    method EraseBlackSibling(parent: Ptr, other0: Ptr, side: Side, ghost z0: Path, ghost t0: Tree, ghost q: seq<Ptr>)
      returns (node: Ptr, parent': Ptr, ghost z: Path, ghost t: Tree)
      requires Focus(cell, root, z0, t0) && Erasing(z0, t0, q) && !IsRed(t0)
      requires z0.Step? && z0.node == parent && z0.side == side && z0.sib.Br? && z0.sib.node == other0
               && z0.sib.color.Black?
      modifies this`cell, this`root
      ensures Focus(cell, root, z, t) && Erasing(z, t, q) && node == RootOf(t) && parent' == Hole(z)
      ensures cell.Keys == old(cell).Keys
      ensures z.Top? || (z == z0.up && t.Br? && t.color == z0.color)
    {
      var other := other0;
      SiblingExists(z0, t0, q);
      SiblingView(cell, root, z0, t0);
      ghost var zz, sib, pc := z0.up, z0.sib, z0.color;
      MkNear(side, sib);
      ghost var ol, or := Near(side, sib), Near(side.Opp(), sib);
      assert z0 == Step(zz, side, parent, pc, Mk(side, ol, other, Black, or));
      var far := cell[other].Child(side.Opp());
      var near := cell[other].Child(side);
      if (near == NULL || cell[near].color.Black?) && (far == NULL || cell[far].color.Black?) {
        EraseRecolor(other, side, zz, t0, parent, pc, ol, or);
        EraseRecolorKeeps(zz, side, t0, parent, pc, ol, other, or, q);
        z, t := zz, Mk(side, t0, parent, pc, Mk(side, ol, other, Red, or));
        ParentView(cell, root, z, t);
        node := parent;
        parent' := cell[node].parent;
      } else {
        if far == NULL || cell[far].color.Black? {
          MkNear(side, ol);
          ghost var a, b := Near(side, ol), Near(side.Opp(), ol);
          EraseUnbend(other, near, side, zz, t0, parent, pc, a, b, or);
          EraseUnbendKeeps(zz, side, t0, parent, pc, a, near, b, other, or, q);
          ol, or := a, Mk(side, b, other, Red, or);
          z := Step(zz, side, parent, pc, Mk(side, ol, near, Black, or));
          Zip(cell, root, zz, side, t0, parent, pc, Mk(side, ol, near, Black, or));
          ParentView(cell, root, z, t0);
          other := cell[parent].Child(side.Opp());
        }
        EraseFinish(parent, other, side, zz, t0, pc, ol, or, q);
        node := root;
        parent' := NULL;
        z, t := Top, Plug(zz, Mk(side, Mk(side, t0, parent, Black, ol), other, pc, Blacken(or)));
      }
    }

    method EraseFinish(parent: Ptr, other: Ptr, side: Side, ghost z: Path, ghost t: Tree, ghost pc: Color,
                       ghost ol: Tree, ghost or: Tree, ghost q: seq<Ptr>)
      requires Focus(cell, root, z, Mk(side, t, parent, pc, Mk(side, ol, other, Black, or)))
      requires IsRed(or) && !IsRed(t)
      requires Erasing(Step(z, side, parent, pc, Mk(side, ol, other, Black, or)), t, q)
      modifies this`cell, this`root
      ensures var u := Plug(z, Mk(side, Mk(side, t, parent, Black, ol), other, pc, Blacken(or)));
              Focus(cell, root, Top, u) && Erasing(Top, u, q) && root == RootOf(u)
      ensures cell.Keys == old(cell).Keys
    {
      MkHolds(cell, side, t, parent, pc, Mk(side, ol, other, Black, or), Hole(z));
      MkHolds(cell, side, ol, other, Black, or, parent);
      EraseRotate(parent, other, cell[other].Child(side.Opp()), side, z, t, pc, ol, or);
      EraseRotateEnds(z, side, t, parent, pc, ol, other, or, q);
      Rezip(cell, root, z, Mk(side, Mk(side, t, parent, Black, ol), other, pc, Blacken(or)));
      BlackRoot(Plug(z, Mk(side, Mk(side, t, parent, Black, ol), other, pc, Blacken(or))));
    }

    /** One turn of the loop of __rb_erase_color: the subtree at `node` is short and not red. */
    method EraseStep(n0: Ptr, p0: Ptr, ghost z0: Path, ghost t0: Tree, ghost q: seq<Ptr>)
      returns (node: Ptr, parent: Ptr, ghost z: Path, ghost t: Tree)
      requires Focus(cell, root, z0, t0) && n0 == RootOf(t0) && p0 == Hole(z0) && Erasing(z0, t0, q)
      requires z0.Step? && !IsRed(t0)
      modifies this`cell, this`root
      ensures Focus(cell, root, z, t) && node == RootOf(t) && parent == Hole(z) && Erasing(z, t, q)
      ensures cell.Keys == old(cell).Keys
      ensures Repair(z, t) < Repair(z0, t0)
    {
      ghost var z1 := z0;
      SiblingExists(z0, t0, q);
      SiblingView(cell, root, z0, t0);
      var side := if cell[p0].Child(Left) == n0 then Left else Right;
      var other := cell[p0].Child(side.Opp());
      if cell[other].color.Red? {
        ghost var sib, zz := z0.sib, z0.up;
        MkNear(side, sib);
        ghost var ol, or := Near(side, sib), Near(side.Opp(), sib);
        assert z0 == Step(zz, side, p0, Black, Mk(side, ol, other, Red, or));
        EraseRedSibling(p0, other, side, zz, t0, ol, or);
        EraseRedSiblingKeeps(zz, side, t0, p0, ol, other, or, q);
        z1 := Step(Step(zz, side, other, Black, or), side, p0, Red, ol);
        Zip(cell, root, zz, side, Mk(side, t0, p0, Red, ol), other, Black, or);
        Zip(cell, root, z1.up, side, t0, p0, Red, ol);
        ParentView(cell, root, z1, t0);
        other := cell[p0].Child(side.Opp());
      }
      node, parent, z, t := EraseBlackSibling(p0, other, side, z1, t0, q);
    }

    /** __rb_erase_color(node, parent, root). */
    method EraseColor(n0: Ptr, p0: Ptr, ghost z0: Path, ghost t0: Tree)
      requires Focus(cell, root, z0, t0) && n0 == RootOf(t0) && p0 == Hole(z0)
      requires Erasing(z0, t0, InOrder(Plug(z0, t0)))
      modifies this
      ensures Valid() && RedBlack(tree) && InOrder(tree) == InOrder(Plug(z0, t0))
      ensures cell.Keys == old(cell).Keys
    {
      var node, parent := n0, p0;
      ghost var z, t, q := z0, t0, InOrder(Plug(z0, t0));
      NodeView(cell, root, z, t);
      while (node == NULL || cell[node].color.Black?) && node != root
        invariant Focus(cell, root, z, t) && node == RootOf(t) && parent == Hole(z) && Erasing(z, t, q)
        invariant cell.Keys == old(cell).Keys
        invariant node == NULL <==> t.Leaf?
        invariant node != NULL ==> node in cell && cell[node].color == t.color
        invariant node == root <==> z.Top?
        decreases Repair(z, t)
      {
        node, parent, z, t := EraseStep(node, parent, z, t, q);
        NodeView(cell, root, z, t);
      }
      EraseDone(z, t, q);
      if node != NULL {
        RecolorAt(node, Black, z, Left, t.left, t.color, t.right);
      }
      Rezip(cell, root, z, Blacken(t));
      tree := Plug(z, Blacken(t));
    }

    /** Takes out a node with at most one child, on side s. */
    method EraseOne(node: Ptr, child: Ptr, ghost z: Path, ghost s: Side, ghost t: Tree, ghost c: Color)
      requires Focus(cell, root, z, Mk(s, t, node, c, Leaf)) && child == RootOf(t)
      requires RedBlack(Plug(z, Mk(s, t, node, c, Leaf)))
      modifies this
      ensures Valid() && RedBlack(tree) && InOrder(tree) == InOrder(Plug(z, t))
      ensures cell.Keys == old(cell).Keys
    {
      Spliced(cell, root, z, s, t, node, c);
      SpliceColors(z, s, t, node, c);
      HoleIn(z);
      var parent := cell[node].parent;
      var color := cell[node].color;
      if child != NULL {
        cell := cell[child := cell[child].(parent := parent)];
      }
      ReplaceChild(parent, node, child, Left);
      if color.Black? {
        EraseColor(child, parent, z, t);
      } else {
        Rezip(cell, root, z, t);
        tree := Plug(z, t);
      }
    }

    /** Hands the successor's child to the successor's parent, and the victim's right subtree to the successor. */
    method Unhook(victim: Ptr, node: Ptr, child: Ptr, parent: Ptr)
      requires CanUnhook(cell, victim, node, child, parent)
      modifies this`cell
      ensures Unhooked(old(cell), cell, victim, node, child, parent)
    {
      if child != NULL {
        cell := cell[child := cell[child].(parent := parent)];
      }
      cell := cell[parent := cell[parent].(left := child)];
      cell := cell[node := cell[node].(right := cell[victim].right)];
      cell := cell[cell[victim].right := cell[cell[victim].right].(parent := node)];
    }

    /** Moves the successor `node` of `victim` into its place, and the successor's child into the successor's. */
    method Transplant(victim: Ptr, node: Ptr) returns (child: Ptr, parent: Ptr, color: Color)
      requires CanTransplant(cell, victim, node)
      modifies this`cell, this`root
      ensures child == old(cell)[node].right && color == old(cell)[node].color
      ensures parent == if old(cell)[node].parent == victim then node else old(cell)[node].parent
      ensures root == if old(cell)[victim].parent == NULL then node else old(root)
      ensures Transplanted(old(cell), cell, victim, node)
    {
      ReplaceChild(cell[victim].parent, victim, node, Left);
      child := cell[node].right;
      parent := cell[node].parent;
      color := cell[node].color;
      ghost var h1 := cell;
      LinkedFacts(old(cell), h1, victim, node);
      if parent == victim {
        parent := node;
        SeatNear(old(cell), h1, victim, node);
      } else {
        Unhook(victim, node, child, parent);
        SeatFar(old(cell), h1, cell, victim, node);
      }
      Seat(victim, node);
    }

    /** The successor takes over parent, colour and left subtree of the victim. */
    method Seat(victim: Ptr, node: Ptr)
      requires victim in cell && node in cell && victim != node && cell[victim].left in cell
               && cell[victim].left !in {victim, node}
      modifies this`cell
      ensures cell == Seated(old(cell), victim, node)
    {
      cell := cell[node := cell[node].(parent := cell[victim].parent, color := cell[victim].color)];
      cell := cell[node := cell[node].(left := cell[victim].left)];
      cell := cell[cell[victim].left := cell[cell[victim].left].(parent := node)];
    }

    /** Takes out a node with two children. */
    method EraseTwo(victim: Ptr, ghost z: Path, ghost l: Tree, ghost c: Color, ghost r: Tree)
      requires Focus(cell, root, z, Br(l, victim, c, r)) && l.Br? && r.Br? && RedBlack(Plug(z, Br(l, victim, c, r)))
      modifies this
      ensures Valid() && RedBlack(tree) && InOrder(tree) == (Before(z) + InOrder(l)) + (InOrder(r) + After(z))
      ensures cell.Keys == old(cell).Keys
    {
      var node := cell[victim].right;
      Zip(cell, root, z, Right, r, victim, c, l);
      node := Leftmost(node, Step(z, Right, victim, c, l), r);
      ghost var rest := MinTree(r).right;
      TransplantReady(cell, root, z, l, victim, c, r);
      var child, parent, color := Transplant(victim, node);
      TransplantDone(old(cell), cell, old(root), root, z, l, victim, c, r);
      ghost var z' := MinPath(Step(z, Right, node, c, l), r);
      TransplantColors(z, l, victim, c, r);
      TransplantOrder(z, l, c, r);
      if color.Black? {
        EraseColor(child, parent, z', rest);
      } else {
        Rezip(cell, root, z', rest);
        tree := Plug(z', rest);
      }
    }

    /** The loop of rb_erase that looks for the successor. */
    method Leftmost(start: Ptr, ghost z: Path, ghost t: Tree) returns (node: Ptr)
      requires Focus(cell, root, z, t) && t.Br? && start == t.node
      ensures node == MinTree(t).node
    {
      node := start;
      ghost var zz, tt := z, t;
      SpineView(cell, zz, tt);
      while cell[node].left != NULL
        invariant Focus(cell, root, zz, tt) && tt.Br? && node == tt.node && node in cell && MinTree(tt) == MinTree(t)
        invariant cell[node].left == RootOf(tt.left) && (tt.left.Br? <==> RootOf(tt.left) != NULL)
        decreases tt
      {
        node := cell[node].left;
        Zip(cell, root, zz, Left, tt.left, tt.node, tt.color, tt.right);
        zz, tt := Step(zz, Left, tt.node, tt.color, tt.right), tt.left;
        SpineView(cell, zz, tt);
      }
    }

    /** rb_erase. `i` is where the node stands in the order. */
    method Erase(node: Ptr, ghost i: nat)
      requires Valid() && RedBlack(tree) && i < |InOrder(tree)| && InOrder(tree)[i] == node
      modifies this
      ensures Valid() && RedBlack(tree)
      ensures InOrder(tree) == old(InOrder(tree))[..i] + old(InOrder(tree))[i + 1..]
      ensures cell.Keys == old(cell).Keys
    {
      InOrderNodes(tree);
      ghost var z, l, c, r := Seek(cell, root, Top, tree, node);
      FocusOrder(z, l, node, c, r, i, InOrder(tree));
      OneChildOrder(z, l, r);
      ReplaceView(cell, root, z, l, node, c, r);
      RootIn(l); RootIn(r);
      if cell[node].left == NULL {
        EraseOne(node, cell[node].right, z, Right, r, c);
      } else if cell[node].right == NULL {
        EraseOne(node, cell[node].left, z, Left, l, c);
      } else {
        EraseTwo(node, z, l, c, r);
      }
    }

    // ----- linking and replacing

    /** rb_link_node: `side` of `parent`, or the root pointer, is the slot that rb_link points to. */
    method LinkNode(node: Ptr, parent: Ptr, side: Side, ghost z: Path)
      requires Focus(cell, root, z, Leaf) && parent == Hole(z) && (z.Step? ==> side == z.side)
      requires node != NULL && node !in PathNodes(z)
      modifies this`cell, this`root
      ensures Focus(cell, root, z, Br(Leaf, node, Red, Leaf))
      ensures cell.Keys == old(cell).Keys + {node}
    {
      HoleIn(z);
      ParentView(cell, root, z, Leaf);
      cell := cell[node := Cell(parent, Red, NULL, NULL)];
      if parent == NULL {
        root := node;
      } else {
        cell := cell[parent := cell[parent].WithChild(side, node)];
      }
      Retarget(old(cell), cell, old(root), root, z, NULL, node);
    }

    /** rb_link_node followed by rb_insert_color, as every index does it. */
    method Insert(node: Ptr, parent: Ptr, side: Side, ghost z: Path)
      requires Valid() && RedBlack(tree) && Plug(z, Leaf) == tree
      requires parent == Hole(z) && (z.Step? ==> side == z.side)
      requires node != NULL && node !in Nodes(tree)
      modifies this
      ensures Valid() && RedBlack(tree) && InOrder(tree) == Before(z) + [node] + After(z)
      ensures cell.Keys == old(cell).Keys + {node}
    {
      Rezip(cell, root, z, Leaf);
      PlugNodes(z, Leaf);
      LinkNode(node, parent, side, z);
      InsertColor(node, z);
    }

    /** rb_replace_node. */
    method ReplaceNode(victim: Ptr, new_: Ptr, ghost i: nat)
      requires Valid() && i < |InOrder(tree)| && InOrder(tree)[i] == victim
      requires new_ != NULL && new_ !in Nodes(tree)
      modifies this
      ensures Valid() && tree == Renamed(old(tree), victim, new_)
      ensures InOrder(tree) == old(InOrder(tree))[i := new_] && RedBlack(tree) == old(RedBlack(tree))
    {
      InOrderNodes(tree);
      ghost var z, l, c, r := Seek(cell, root, Top, tree, victim);
      ReplaceOrder(z, l, victim, c, r, new_, i);
      ReplaceColors(z, l, victim, c, r, new_);
      ReplaceShape(cell, root, z, l, victim, c, r, new_);
      PlugNodes(z, Br(l, victim, c, r));
      Replaced(cell, root, z, l, victim, c, r, new_);
      ReplaceView(cell, root, z, l, victim, c, r);
      HoleIn(z);
      var parent := cell[victim].parent;
      ReplaceChild(parent, victim, new_, Left);
      if cell[victim].left != NULL {
        cell := cell[cell[victim].left := cell[cell[victim].left].(parent := new_)];
      }
      if cell[victim].right != NULL {
        cell := cell[cell[victim].right := cell[cell[victim].right].(parent := new_)];
      }
      cell := cell[new_ := cell[victim]];
      Rezip(cell, root, z, Br(l, new_, c, r));
      tree := Plug(z, Br(l, new_, c, r));
    }

    // ----- walking

    /** rb_first (side Left) and rb_last (side Right). */
    method End(side: Side) returns (n: Ptr)
      requires Valid()
      ensures InOrder(tree) == [] ==> n == NULL
      ensures InOrder(tree) != [] ==> n == From(side, InOrder(tree), 0)
    {
      n := root;
      RootIn(tree);
      if n == NULL {
        return;
      }
      n := Extreme(n, side, Top, tree);
    }

    /** Down the `side` links from a node to the last one. */
    method Extreme(n0: Ptr, side: Side, ghost z0: Path, ghost t0: Tree) returns (n: Ptr)
      requires Focus(cell, root, z0, t0) && t0.Br? && n0 == t0.node
      ensures var s := InOrder(Plug(z0, t0)); Beside(side, z0) < |s| && n == From(side, s, Beside(side, z0))
    {
      n := n0;
      ghost var z, t := z0, t0;
      ChildView(cell, root, z, t, side);
      while cell[n].Child(side) != NULL
        invariant Focus(cell, root, z, t) && t.Br? && n == t.node && n in cell
        invariant Plug(z, t) == Plug(z0, t0) && Beside(side, z) == Beside(side, z0)
        invariant cell[n].Child(side) == RootOf(Near(side, t))
        invariant cell[n].Child(side) == NULL <==> Near(side, t).Leaf?
        decreases t
      {
        n := cell[n].Child(side);
        BesideStep(side, z, side, t.node, t.color, Near(side.Opp(), t));
        z, t := Step(z, side, t.node, t.color, Near(side.Opp(), t)), Near(side, t);
        ChildView(cell, root, z, t, side);
      }
      EndHere(side, z, t);
    }

    /** Up from a subtree that has been passed to the first node it hangs on the `side` of. */
    method Climb(node0: Ptr, side: Side, ghost z0: Path, ghost t0: Tree) returns (r: Ptr)
      requires Focus(cell, root, z0, t0) && RootOf(t0) == node0 && t0.Br?
      ensures var s, k := InOrder(Plug(z0, t0)), Beside(side, z0) + Size(t0);
              r == if k < |s| then From(side, s, k) else NULL
    {
      var node := node0;
      ghost var z, t := z0, t0;
      FamilySlot(cell, root, z, t);
      while cell[node].parent != NULL && node == cell[cell[node].parent].Child(side.Opp())
        invariant Focus(cell, root, z, t) && t.Br? && t.node == node && Plug(z, t) == Plug(z0, t0)
        invariant Beside(side, z) + Size(t) == Beside(side, z0) + Size(t0)
        invariant node in cell && cell[node].parent == Hole(z)
        invariant z.Step? ==> z.node != NULL && z.node in cell
        invariant z.Step? ==> forall s :: cell[z.node].Child(s) == node <==> s == z.side
        decreases Len(z)
      {
        BesideStep(side, z.up, z.side, z.node, z.color, z.sib);
        Zip(cell, root, z.up, z.side, t, z.node, z.color, z.sib);
        MkSize(z.side, t, z.node, z.color, z.sib);
        node := cell[node].parent;
        z, t := z.up, Mk(z.side, t, z.node, z.color, z.sib);
        FamilySlot(cell, root, z, t);
      }
      if z.Top? { AllSeen(side, t); } else { AboveNext(side, z, t); }
      r := cell[node].parent;
    }

    /** rb_next (side Left: the order counted from the left) and rb_prev (side Right). */
    method Follow(node: Ptr, side: Side, ghost j: nat) returns (r: Ptr)
      requires Valid() && j < |InOrder(tree)| && From(side, InOrder(tree), j) == node
      ensures r == if j + 1 < |InOrder(tree)| then From(side, InOrder(tree), j + 1) else NULL
    {
      InOrderNodes(tree);
      ghost var z, a, c, b := Seek(cell, root, Top, tree, node);
      ghost var t := Br(a, node, c, b);
      Position(side, z, t, j);
      FamilySlot(cell, root, z, t);
      if cell[node].parent == node {
        return NULL;
      }
      ChildView(cell, root, z, t, side.Opp());
      BesideStep(side, z, side.Opp(), node, c, Near(side, t));
      if cell[node].Child(side.Opp()) != NULL {
        r := Extreme(cell[node].Child(side.Opp()), side, Step(z, side.Opp(), node, c, Near(side, t)),
                     Near(side.Opp(), t));
      } else {
        r := Climb(node, side, z, t);
      }
    }

    /** Starting at rb_first and stepping with rb_next visits every node once, in order. */
    method Traverse() returns (visited: seq<Ptr>)
      requires Valid()
      ensures visited == InOrder(tree)
    {
      visited := [];
      NoNull(tree);
      var n := End(Left);
      while n != NULL
        invariant |visited| <= |InOrder(tree)| && visited == InOrder(tree)[..|visited|]
        invariant n == if |visited| < |InOrder(tree)| then InOrder(tree)[|visited|] else NULL
        decreases |InOrder(tree)| - |visited|
      {
        var next := Follow(n, Left, |visited|);
        visited := visited + [n];
        n := next;
      }
    }

    /** rb_prev undoes rb_next, and rb_next rb_prev, wherever the first step yields a node. */
    method ThereAndBack(node: Ptr, side: Side, ghost j: nat) returns (there: Ptr, back: Ptr)
      requires Valid() && j < |InOrder(tree)| && From(side, InOrder(tree), j) == node
      ensures there == NULL <==> j + 1 == |InOrder(tree)|
      ensures there != NULL ==> back == node
    {
      NoNull(tree);
      there := Follow(node, side, j);
      back := NULL;
      if there != NULL {
        back := Follow(there, side.Opp(), |InOrder(tree)| - 2 - j);
      }
    }

    // ----- search

    /** One turn of that descent: to the child on the side where the comparison points. */
    method DescendTo(cmp: Ptr -> Order, n: Ptr, ghost z: Path, ghost t: Tree) returns (side: Side, child: Ptr)
      requires Focus(cell, root, z, t) && t.Br? && n == t.node && Guides(cmp, InOrder(Plug(z, t))) && !cmp(n).Equal?
      requires All(cmp, Greater, Before(z)) && All(cmp, Less, After(z))
      ensures side == if cmp(n).Less? then Left else Right
      ensures child == RootOf(Near(side, t)) && (child == NULL <==> Near(side, t).Leaf?)
      ensures var z' := Step(z, side, t.node, t.color, Near(side.Opp(), t));
              && Focus(cell, root, z', Near(side, t)) && Plug(z', Near(side, t)) == Plug(z, t)
              && All(cmp, Greater, Before(z')) && All(cmp, Less, After(z'))
    {
      side := if cmp(n).Less? then Left else Right;
      ChildView(cell, root, z, t, side);
      DescendStep(cmp, z, t, side);
      child := cell[n].Child(side);
    }

    /** The descent of fs/inode.c, kernel/pagecache.c and kernel/mm.c: either a
        node that compares equal, or the empty slot where it would belong. */
    method Descend(cmp: Ptr -> Order) returns (found: Ptr, parent: Ptr, side: Side, steps: nat, ghost z: Path)
      requires Valid() && Guides(cmp, InOrder(tree))
      ensures found == Reach(cmp, tree)
      ensures found != NULL ==> found in InOrder(tree) && cmp(found).Equal?
      ensures found == NULL ==> Plug(z, Leaf) == tree && parent == Hole(z) && (z.Step? ==> side == z.side)
      ensures found == NULL ==> All(cmp, Greater, Before(z)) && All(cmp, Less, After(z))
      ensures RedBlack(tree) ==> Pow2((steps + 1) / 2) <= |InOrder(tree)| + 1
    {
      var n := root;
      parent, side, steps, z := NULL, Left, 0, Top;
      ghost var t := tree;
      RootIn(tree);
      while n != NULL
        invariant Focus(cell, root, z, t) && Plug(z, t) == tree && n == RootOf(t) && (n == NULL <==> t.Leaf?)
        invariant parent == Hole(z) && (z.Step? ==> side == z.side)
        invariant All(cmp, Greater, Before(z)) && All(cmp, Less, After(z))
        invariant steps + Height(t) <= Height(tree) && Reach(cmp, t) == Reach(cmp, tree)
        decreases t
      {
        parent := n;
        steps := steps + 1;
        if cmp(n).Equal? {
          FoundHere(z, t);
          StepsBound(tree, steps);
          return n, parent, side, steps, z;
        }
        side, n := DescendTo(cmp, n, z, t);
        z, t := Step(z, side, t.node, t.color, Near(side.Opp(), t)), Near(side, t);
      }
      found := NULL;
      StepsBound(tree, steps);
    }

    /** The same descent where the answers need not follow the order: it goes where it is sent. */
    method Find(cmp: Ptr -> Order) returns (found: Ptr)
      requires Valid()
      ensures found == Reach(cmp, tree)
    {
      found := root;
      ghost var z, t := Top, tree;
      RootIn(tree);
      while found != NULL && !cmp(found).Equal?
        invariant Focus(cell, root, z, t) && found == RootOf(t) && (found == NULL <==> t.Leaf?)
        invariant Reach(cmp, t) == Reach(cmp, tree)
        decreases t
      {
        var side := if cmp(found).Less? then Left else Right;
        ChildView(cell, root, z, t, side);
        found := cell[found].Child(side);
        z, t := Step(z, side, t.node, t.color, Near(side.Opp(), t)), Near(side, t);
      }
    }
  }

  lemma NoNull(t: Tree)
    requires Distinct(t)
    ensures NULL !in InOrder(t)
  {
    RootIn(t);
    InOrderNodes(t);
  }

  lemma MkSize(s: Side, near: Tree, n: Ptr, c: Color, far: Tree)
    ensures Size(Mk(s, near, n, c, far)) == Size(near) + 1 + Size(far)
  {
  }

  lemma SwapOne(a: seq<Ptr>, v: Ptr, b: seq<Ptr>, y: Ptr)
    ensures (a + [v] + b)[|a| := y] == a + [y] + b
  {
  }

  lemma ReplaceOrder(z: Path, l: Tree, v: Ptr, c: Color, r: Tree, y: Ptr, i: nat)
    requires var t := Plug(z, Br(l, v, c, r)); Distinct(t) && i < |InOrder(t)| && InOrder(t)[i] == v
    ensures InOrder(Plug(z, Br(l, y, c, r))) == InOrder(Plug(z, Br(l, v, c, r)))[i := y]
  {
    FocusOrder(z, l, v, c, r, i, InOrder(Plug(z, Br(l, v, c, r))));
    PlugInOrder(z, Br(l, v, c, r));
    PlugInOrder(z, Br(l, y, c, r));
    Regroup(Before(z), InOrder(l), v, InOrder(r), After(z));
    Regroup(Before(z), InOrder(l), y, InOrder(r), After(z));
    SwapOne(Before(z) + InOrder(l), v, InOrder(r) + After(z), y);
  }

  lemma ReplaceColors(z: Path, l: Tree, v: Ptr, c: Color, r: Tree, y: Ptr)
    ensures RedBlack(Plug(z, Br(l, y, c, r))) == RedBlack(Plug(z, Br(l, v, c, r)))
  {
    PlugRedBlack(z, Br(l, v, c, r));
    PlugRedBlack(z, Br(l, y, c, r));
  }

  /** The same tree, shape and colours, with y in the place of v. */
  function Renamed(t: Tree, v: Ptr, y: Ptr): Tree {
    match t
    case Leaf => Leaf
    case Br(l, n, c, r) => Br(Renamed(l, v, y), if n == v then y else n, c, Renamed(r, v, y))
  }

  lemma {:induction false} RenamedAbsent(t: Tree, v: Ptr, y: Ptr)
    requires v !in Nodes(t)
    ensures Renamed(t, v, y) == t
  {
    if t.Br? { RenamedAbsent(t.left, v, y); RenamedAbsent(t.right, v, y); }
  }

  lemma {:induction false} RenamedPlug(z: Path, t: Tree, v: Ptr, y: Ptr)
    requires v !in PathNodes(z)
    ensures Renamed(Plug(z, t), v, y) == Plug(z, Renamed(t, v, y))
  {
    if z.Step? {
      RenamedAbsent(z.sib, v, y);
      assert Renamed(Mk(z.side, t, z.node, z.color, z.sib), v, y) ==
          Mk(z.side, Renamed(t, v, y), z.node, z.color, z.sib);
      RenamedPlug(z.up, Mk(z.side, t, z.node, z.color, z.sib), v, y);
    }
  }

  lemma ReplaceShape(h: Cells, root: Ptr, z: Path, l: Tree, v: Ptr, c: Color, r: Tree, y: Ptr)
    requires Focus(h, root, z, Br(l, v, c, r))
    ensures Renamed(Plug(z, Br(l, v, c, r)), v, y) == Plug(z, Br(l, y, c, r))
  {
    RenamedAbsent(l, v, y);
    RenamedAbsent(r, v, y);
    RenamedPlug(z, Br(l, v, c, r), v, y);
  }

  /** Which slot of its parent the node in focus is in, and that no node is its own parent. */
  lemma FamilySlot(h: Cells, root: Ptr, z: Path, t: Tree)
    requires Focus(h, root, z, t) && t.Br?
    ensures t.node in h && h[t.node].parent == Hole(z) && Hole(z) != t.node
    ensures z.Step? ==> z.node != NULL && z.node in h
    ensures z.Step? ==> forall s :: h[z.node].Child(s) == t.node <==> s == z.side
  {
    ParentView(h, root, z, t);
    HoleIn(z);
  }

  lemma FoundHere(z: Path, t: Tree)
    requires t.Br?
    ensures t.node in InOrder(Plug(z, t))
  {
    PlugNodes(z, t);
    InOrderNodes(Plug(z, t));
  }

  lemma StepsBound(t: Tree, steps: nat)
    requires steps <= Height(t)
    ensures RedBlack(t) ==> Pow2((steps + 1) / 2) <= |InOrder(t)| + 1
  {
    if RedBlack(t) {
      HeightBound(t);
      SizeInOrder(t);
      Pow2Mono((steps + 1) / 2, (Height(t) + 1) / 2);
    }
  }
}
