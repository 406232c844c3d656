/** Indexes by a number: what the search-and-link loops of the inode cache and the
    page cache rely on. The order of the tree is a finite map from keys to nodes. */
module Keyed {
  import opened Common
  import opened RbShape
  import opened RbWalk

  type Keys = map<Ptr, nat>

  /** s lists the nodes that have keys, by increasing key. */
  predicate Orders(keys: Keys, s: seq<Ptr>) {
    && (forall p :: p in s ==> p in keys) && (forall p :: p in keys ==> p in s)
    && (forall i, j :: 0 <= i < j < |s| && s[i] in keys && s[j] in keys ==> keys[s[i]] < keys[s[j]])
  }

  /** The three-way comparison of the loops with the key looked for. */
  function Compare(keys: Keys, x: nat): Ptr -> Order {
    p => if p !in keys then Equal else if x < keys[p] then Less else if x > keys[p] then Greater else Equal
  }

  lemma OrderGuides(keys: Keys, s: seq<Ptr>, x: nat)
    requires Orders(keys, s)
    ensures Guides(Compare(keys, x), s)
  {
    var cmp := Compare(keys, x);
    forall i, j | 0 <= i < j < |s|
      ensures (cmp(s[i]).Less? ==> cmp(s[j]).Less?) && (cmp(s[j]).Greater? ==> cmp(s[i]).Greater?)
    {
      assert s[i] in s && s[j] in s;
    }
  }

  /** No two nodes have the same key. */
  lemma UniqueKeys(keys: Keys, s: seq<Ptr>, p: Ptr, q: Ptr)
    requires Orders(keys, s) && p in keys && q in keys && keys[p] == keys[q]
    ensures p == q
  {
    var i :| 0 <= i < |s| && s[i] == p;
    var j :| 0 <= j < |s| && s[j] == q;
  }

  /** Searching ends at an empty slot only if the key is not there. */
  lemma NotFoundMeansAbsent(keys: Keys, a: seq<Ptr>, b: seq<Ptr>, x: nat)
    requires Orders(keys, a + b) && All(Compare(keys, x), Greater, a) && All(Compare(keys, x), Less, b)
    ensures forall p :: p in keys ==> keys[p] != x
  {
    forall p | p in keys ensures keys[p] != x {
      assert p in a + b;
      if p in a { assert Compare(keys, x)(p).Greater?; } else { assert p in b; assert Compare(keys, x)(p).Less?; }
    }
  }

  /** Linking at that slot keeps the order. */
  lemma InsertOrders(keys: Keys, a: seq<Ptr>, b: seq<Ptr>, p: Ptr, x: nat)
    requires Orders(keys, a + b) && p !in keys
    requires All(Compare(keys, x), Greater, a) && All(Compare(keys, x), Less, b)
    ensures Orders(keys[p := x], a + [p] + b)
  {
    var keys', s, t, cmp := keys[p := x], a + b, a + [p] + b, Compare(keys, x);
    forall q | q in t ensures q in keys' {
      if q != p { assert q in s; }
    }
    forall q | q in keys' ensures q in t {
      if q != p { assert q in s; } else { assert t[|a|] == p; }
    }
    forall i, j | 0 <= i < j < |t| ensures keys'[t[i]] < keys'[t[j]] {
      if i < |a| { assert t[i] in a; assert cmp(t[i]).Greater?; assert a[i] == s[i]; }
      else if i > |a| { assert t[i] == s[i - 1]; assert s[i - 1] in s; }
      if j < |a| { assert a[j] == s[j]; }
      else if j > |a| {
        assert t[j] == b[j - |a| - 1];
        assert t[j] in b;
        assert cmp(t[j]).Less?;
        assert t[j] == s[j - 1];
      }
    }
  }

  lemma SlotMeansAbsent(keys: Keys, z: Path, x: nat)
    requires Orders(keys, InOrder(Plug(z, Leaf)))
    requires All(Compare(keys, x), Greater, Before(z)) && All(Compare(keys, x), Less, After(z))
    ensures forall p :: p in keys ==> keys[p] != x
  {
    SlotOrder(z);
    NotFoundMeansAbsent(keys, Before(z), After(z), x);
  }

  lemma SlotKeepsOrder(keys: Keys, z: Path, p: Ptr, x: nat)
    requires Orders(keys, InOrder(Plug(z, Leaf))) && p !in keys
    requires All(Compare(keys, x), Greater, Before(z)) && All(Compare(keys, x), Less, After(z))
    ensures Orders(keys[p := x], Before(z) + [p] + After(z)) && p !in Nodes(Plug(z, Leaf))
  {
    SlotOrder(z);
    InOrderNodes(Plug(z, Leaf));
    InsertOrders(keys, Before(z), After(z), p, x);
  }

  // ----- taking a node out

  function Dropped(s: seq<Ptr>, i: nat): seq<Ptr>
    requires i < |s|
  {
    s[..i] + s[i + 1..]
  }

  lemma DroppedAt(s: seq<Ptr>, i: nat, x: nat)
    requires i < |s| && x < |s| - 1
    ensures |Dropped(s, i)| == |s| - 1 && Dropped(s, i)[x] == s[if x < i then x else x + 1]
  {
  }

  lemma Apart(keys: Keys, s: seq<Ptr>, i: nat, j: nat)
    requires Orders(keys, s) && i < |s| && j < |s| && i != j
    ensures s[i] != s[j] && s[j] in keys
  {
    assert s[i] in s && s[j] in s;
    if i < j { assert keys[s[i]] < keys[s[j]]; } else { assert keys[s[j]] < keys[s[i]]; }
  }

  lemma EraseMembers(keys: Keys, s: seq<Ptr>, i: nat)
    requires Orders(keys, s) && i < |s|
    ensures forall q :: q in Dropped(s, i) <==> q in s && q != s[i]
  {
    var t := Dropped(s, i);
    forall q | q in t ensures q in s && q != s[i] {
      var x :| 0 <= x < |t| && t[x] == q;
      DroppedAt(s, i, x);
      Apart(keys, s, i, if x < i then x else x + 1);
    }
    forall q | q in s && q != s[i] ensures q in t {
      var x :| 0 <= x < |s| && s[x] == q;
      DroppedAt(s, i, if x < i then x else x - 1);
    }
  }

  lemma EraseOrders(keys: Keys, s: seq<Ptr>, i: nat)
    requires Orders(keys, s) && i < |s|
    ensures Orders(keys - {s[i]}, Dropped(s, i))
  {
    EraseMembers(keys, s, i);
    var t, keys' := Dropped(s, i), keys - {s[i]};
    forall x, y | 0 <= x < y < |t| && t[x] in keys' && t[y] in keys' ensures keys'[t[x]] < keys'[t[y]] {
      DroppedAt(s, i, x);
      DroppedAt(s, i, y);
    }
  }
}
