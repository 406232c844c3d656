/** The inode cache of fs/inode.c: one red-black index per superblock, reference
    counts, and the list of inodes that nobody holds. Each operation is one step
    under slacksem; the decrement in iput is taken as part of its step. */
module InodeCache {
  import opened Common
  import opened RbShape
  import opened RbTree
  import opened RbWalk
  import opened Keyed

  datatype Inode = Inode(ino: nat, sb: nat, count: nat)

  type Inodes = map<Ptr, Inode>

  /** The inode numbers cached for superblock k. */
  function Numbers(m: Inodes, k: nat): Keys { map p | p in m && m[p].sb == k :: m[p].ino }

  /** The slack list holds exactly the inodes with count 0, each once. */
  predicate SlackOk(m: Inodes, slack: seq<Ptr>) {
    && NoDup(slack) && (forall p :: p in slack ==> p in m && m[p].count == 0)
    && (forall p :: p in m && m[p].count == 0 ==> p in slack)
  }

  lemma NewNumber(m: Inodes, k: nat, p: Ptr, n: Inode)
    requires p !in m
    ensures Numbers(m[p := n], k) == if n.sb == k then Numbers(m, k)[p := n.ino] else Numbers(m, k)
  {
  }

  /** A reference count is no part of any index. */
  lemma SameNumbers(m: Inodes, k: nat, p: Ptr, c: nat)
    requires p in m
    ensures Numbers(m[p := m[p].(count := c)], k) == Numbers(m, k)
  {
  }

  lemma LessNumber(m: Inodes, k: nat, p: Ptr)
    requires p in m
    ensures Numbers(m - {p}, k) == if m[p].sb == k then Numbers(m, k) - {p} else Numbers(m, k)
  {
  }

  // ----- the slack list

  lemma PutSlack(m: Inodes, slack: seq<Ptr>, p: Ptr, c: nat)
    requires SlackOk(m, slack) && p in m && m[p].count > 0
    ensures SlackOk(m[p := m[p].(count := c)], if c == 0 then slack + [p] else slack)
  {
    assert p !in slack;
  }

  lemma TakeSlack(m: Inodes, slack: seq<Ptr>)
    requires SlackOk(m, slack) && slack != []
    ensures SlackOk(m - {slack[0]}, slack[1..])
  {
    assert slack == [slack[0]] + slack[1..];
  }

  lemma AddSlack(m: Inodes, slack: seq<Ptr>, p: Ptr, n: Inode)
    requires SlackOk(m, slack) && p !in m && n.count > 0
    ensures SlackOk(m[p := n], slack)
  {
  }

  // ----- the cache

  /** An index in memory is a red-black tree over the cached inodes of superblock k. */
  ghost predicate IndexAt(m: Inodes, k: nat, r: RbRoot)
    reads r
  {
    r.Valid() && RedBlack(r.tree) && Orders(Numbers(m, k), InOrder(r.tree))
  }

  class Cache {
    var inode: Inodes
    var slack: seq<Ptr>
    const sb: seq<RbRoot>

    ghost predicate Valid()
      reads this, sb
    {
      && (forall i, j :: 0 <= i < j < |sb| ==> sb[i] != sb[j])
      && (forall k {:trigger IndexAt(inode, k, sb[k])} :: 0 <= k < |sb| ==> IndexAt(inode, k, sb[k]))
      && (forall p :: p in inode ==> inode[p].sb < |sb| && p != NULL)
      && SlackOk(inode, slack)
    }

    constructor (sb: seq<RbRoot>)
      requires forall i, j :: 0 <= i < j < |sb| ==> sb[i] != sb[j]
      requires forall k :: 0 <= k < |sb| ==> sb[k].Valid() && sb[k].tree == Leaf
      ensures Valid() && inode == map[] && slack == [] && this.sb == sb
    {
      this.sb, inode, slack := sb, map[], [];
    }

    /** The cached inode with a given superblock and number. */
    ghost predicate Cached(k: nat, ino: nat, p: Ptr)
      reads this
    {
      p in inode && inode[p].sb == k && inode[p].ino == ino
    }

    /** The descent of iget: the inode, or the slot where it would belong. */
    method Lookup(k: nat, ino: nat) returns (found: Ptr, parent: Ptr, side: Side, ghost z: Path)
      requires Valid() && k < |sb|
      ensures found != NULL ==> Cached(k, ino, found)
      ensures found == NULL ==> forall q :: !Cached(k, ino, q)
      ensures found == NULL ==> Plug(z, Leaf) == sb[k].tree && parent == Hole(z) && (z.Step? ==> side == z.side)
      ensures found == NULL ==>
                && All(Compare(Numbers(inode, k), ino), Greater, Before(z))
                && All(Compare(Numbers(inode, k), ino), Less, After(z))
    {
      assert IndexAt(inode, k, sb[k]);
      var keys := Numbers(inode, k);
      OrderGuides(keys, InOrder(sb[k].tree), ino);
      var steps;
      found, parent, side, steps, z := sb[k].Descend(Compare(keys, ino));
      if found == NULL { SlotMeansAbsent(keys, z, ino); Absent(k, ino); }
    }

    lemma Absent(k: nat, ino: nat)
      requires forall p :: p in Numbers(inode, k) ==> Numbers(inode, k)[p] != ino
      ensures forall q :: !Cached(k, ino, q)
    {
      forall q ensures !Cached(k, ino, q) {
        if q in inode && inode[q].sb == k { assert q in Numbers(inode, k); }
      }
    }

    /** iget. `fresh_` is what the object cache returns, null if it has nothing;
        `readable` whether the file system can read the inode. */
    method Iget(k: nat, ino: nat, fresh_: Ptr, readable: bool) returns (p: Ptr)
      requires Valid() && k < |sb| && fresh_ !in inode
      modifies this, sb[k]
      ensures Valid()
      ensures (exists q :: old(Cached(k, ino, q))) ==>
                old(Cached(k, ino, p)) && inode == old(inode)[p := old(inode)[p].(count := old(inode)[p].count + 1)]
      ensures (forall q :: !old(Cached(k, ino, q))) ==>
                if fresh_ != NULL && readable then p == fresh_ && inode == old(inode)[p := Inode(ino, k, 1)]
                else p == NULL && inode == old(inode) && slack == old(slack)
      ensures p != NULL ==> slack == Remove(old(slack), p)
    {
      var found, parent, side, z := Lookup(k, ino);
      if found != NULL {
        assert old(Cached(k, ino, found));
        TakeRef(found);
        return found;
      }
      assert forall q :: old(Cached(k, ino, q)) == Cached(k, ino, q);
      if fresh_ == NULL || !readable {
        return NULL;
      }
      AddNew(k, ino, fresh_, parent, side, z);
      p := fresh_;
    }

    /** The hit of iget: one more reference, off the slack list. */
    method TakeRef(p: Ptr)
      requires Valid() && p in inode
      modifies this`inode, this`slack
      ensures Valid()
      ensures inode == old(inode)[p := old(inode)[p].(count := old(inode)[p].count + 1)]
      ensures slack == Remove(old(slack), p)
    {
      RemoveFacts(slack, p);
      Recount(p, inode[p].count + 1);
      inode := inode[p := inode[p].(count := inode[p].count + 1)];
      slack := Remove(slack, p);
    }

    /** A reference count is no part of any index. */
    lemma Recount(p: Ptr, c: nat)
      requires Valid() && p in inode
      ensures forall k {:trigger sb[k]} :: 0 <= k < |sb| ==> IndexAt(inode[p := inode[p].(count := c)], k, sb[k])
    {
      forall k | 0 <= k < |sb| ensures IndexAt(inode[p := inode[p].(count := c)], k, sb[k]) {
        assert IndexAt(inode, k, sb[k]);
        SameNumbers(inode, k, p, c);
      }
    }

    /** The miss of iget: the new inode is linked where the descent ended. */
    method AddNew(k: nat, ino: nat, p: Ptr, parent: Ptr, side: Side, ghost z: Path)
      requires Valid() && k < |sb| && p !in inode && p != NULL
      requires Plug(z, Leaf) == sb[k].tree && parent == Hole(z) && (z.Step? ==> side == z.side)
      requires All(Compare(Numbers(inode, k), ino), Greater, Before(z))
               && All(Compare(Numbers(inode, k), ino), Less, After(z))
      modifies this`inode, sb[k]
      ensures Valid() && inode == old(inode)[p := Inode(ino, k, 1)] && slack == Remove(old(slack), p)
    {
      assert IndexAt(inode, k, sb[k]);
      ghost var m' := inode[p := Inode(ino, k, 1)];
      SlotKeepsOrder(Numbers(inode, k), z, p, ino);
      NewNumber(inode, k, p, Inode(ino, k, 1));
      OthersAfterInsert(k, p, Inode(ino, k, 1));
      RemoveHead(slack, p);
      AddSlack(inode, slack, p, Inode(ino, k, 1));
      sb[k].Insert(p, parent, side, z);
      inode := inode[p := Inode(ino, k, 1)];
      forall j | 0 <= j < |sb| ensures IndexAt(inode, j, sb[j]) {
        if j != k { assert old(IndexAt(m', j, sb[j])); }
      }
    }

    lemma OthersAfterInsert(k: nat, p: Ptr, n: Inode)
      requires Valid() && k < |sb| && p !in inode && n.sb == k
      ensures forall j {:trigger IndexAt(inode[p := n], j, sb[j])} :: 0 <= j < |sb| && j != k ==>
              IndexAt(inode[p := n], j, sb[j])
    {
      forall j | 0 <= j < |sb| && j != k ensures IndexAt(inode[p := n], j, sb[j]) {
        assert IndexAt(inode, j, sb[j]);
        NewNumber(inode, j, p, n);
      }
    }

    /** iref on an inode that is held. */
    method Iref(p: Ptr)
      requires Valid() && p in inode && inode[p].count > 0
      modifies this`inode
      ensures Valid() && inode == old(inode)[p := old(inode)[p].(count := old(inode)[p].count + 1)]
    {
      Recount(p, inode[p].count + 1);
      inode := inode[p := inode[p].(count := inode[p].count + 1)];
    }

    /** iput, and inode_free when the last reference goes. */
    method Iput(p: Ptr)
      requires Valid() && p in inode && inode[p].count > 0
      modifies this`inode, this`slack
      ensures Valid() && inode == old(inode)[p := old(inode)[p].(count := old(inode)[p].count - 1)]
      ensures slack == if inode[p].count == 0 then old(slack) + [p] else old(slack)
    {
      Recount(p, inode[p].count - 1);
      PutSlack(inode, slack, p, inode[p].count - 1);
      inode := inode[p := inode[p].(count := inode[p].count - 1)];
      forall k | 0 <= k < |sb| ensures IndexAt(inode, k, sb[k]) {
      }
      if inode[p].count == 0 {
        slack := slack + [p];
      }
    }

    lemma OthersAfterErase(k: nat, p: Ptr)
      requires Valid() && p in inode && inode[p].sb == k
      ensures forall j {:trigger IndexAt(inode - {p}, j, sb[j])} :: 0 <= j < |sb| && j != k ==>
              IndexAt(inode - {p}, j, sb[j])
    {
      forall j | 0 <= j < |sb| && j != k ensures IndexAt(inode - {p}, j, sb[j]) {
        assert IndexAt(inode, j, sb[j]);
        LessNumber(inode, j, p);
      }
    }

    /** __inode_free of the first inode on the slack list. */
    method FreeFirst()
      requires Valid() && slack != []
      modifies this`inode, this`slack, sb
      ensures Valid() && slack == old(slack)[1..] && inode == old(inode) - {old(slack)[0]}
    {
      var p := slack[0];
      assert p in slack;
      var k := inode[p].sb;
      assert IndexAt(inode, k, sb[k]);
      ghost var s := InOrder(sb[k].tree);
      assert p in Numbers(inode, k) && p in s;
      ghost var i :| 0 <= i < |s| && s[i] == p;
      ghost var m' := inode - {p};
      EraseOrders(Numbers(inode, k), s, i);
      LessNumber(inode, k, p);
      OthersAfterErase(k, p);
      TakeSlack(inode, slack);
      sb[k].Erase(p, i);
      slack := slack[1..];
      inode := inode - {p};
      forall j | 0 <= j < |sb| ensures IndexAt(inode, j, sb[j]) {
        if j != k { assert old(IndexAt(m', j, sb[j])); }
      }
    }

    /** _squeeze_inode_cache: exactly the inodes nobody holds go, from list and index. */
    method Squeeze()
      requires Valid()
      modifies this`inode, this`slack, sb
      ensures Valid() && slack == []
      ensures inode == map p | p in old(inode) && old(inode)[p].count > 0 :: old(inode)[p]
    {
      ghost var held := map p | p in inode && inode[p].count > 0 :: inode[p];
      while slack != []
        invariant Valid()
        invariant held == map p | p in inode && inode[p].count > 0 :: inode[p]
        decreases |slack|
      {
        assert slack[0] in slack;
        FreeFirst();
      }
      assert inode == held;
    }
  }

  /** At most one inode is cached for a superblock and number. */
  lemma OneInode(c: Cache, k: nat, ino: nat, p: Ptr, q: Ptr)
    requires c.Valid() && k < |c.sb| && c.Cached(k, ino, p) && c.Cached(k, ino, q)
    ensures p == q
  {
    assert IndexAt(c.inode, k, c.sb[k]);
    assert p in Numbers(c.inode, k) && q in Numbers(c.inode, k);
    UniqueKeys(Numbers(c.inode, k), InOrder(c.sb[k].tree), p, q);
  }
}
