/** The circular lists of include/scaraOS/list.h: rewriting links in place does to a list
    what the operations of the other modules do to a sequence. */
module Lists {
  import opened Common
  import SchedModel

  datatype Link = Link(next: Ptr, prev: Ptr)

  type Links = map<Ptr, Link>

  function Succ(i: nat, n: nat): nat { if i + 1 < n then i + 1 else 0 }

  function Pred(i: nat, n: nat): int { if i > 0 then i - 1 else n - 1 }

  predicate LinkAt(h: Links, c: seq<Ptr>, i: nat)
    requires i < |c|
  {
    c[i] in h && h[c[i]] == Link(c[Succ(i, |c|)], c[Pred(i, |c|)])
  }

  /** Following next from c[0] goes through c and back; prev goes the other way. */
  predicate Ring(h: Links, c: seq<Ptr>) {
    && c != [] && NoDup(c) && (forall x :: x in c ==> x in h)
    && forall i {:trigger LinkAt(h, c, i)} :: 0 <= i < |c| ==> LinkAt(h, c, i)
  }

  /** _list_add */
  function Insert(h: Links, n: Ptr, p: Ptr, q: Ptr): Links
    requires p in h && q in h
  {
    var h1 := h[q := h[q].(prev := n)];
    var h2 := h1[n := Link(q, p)];
    h2[p := h2[p].(next := n)]
  }

  /** list_del_internal */
  function Bypass(h: Links, p: Ptr, q: Ptr): Links
    requires p in h && q in h
  {
    var h1 := h[q := h[q].(prev := p)];
    h1[p := h1[p].(next := q)]
  }

  lemma InsertRing(h: Links, c: seq<Ptr>, k: nat, n: Ptr)
    requires Ring(h, c) && k < |c| && n !in c
    ensures Ring(Insert(h, n, c[k], c[Succ(k, |c|)]), c[..k + 1] + [n] + c[k + 1..])
  {
    var h', d := Insert(h, n, c[k], c[Succ(k, |c|)]), c[..k + 1] + [n] + c[k + 1..];
    InsertNoDup(c, k, n);
    forall i | 0 <= i < |d| ensures LinkAt(h', d, i) { InsertLink(h, c, k, n, i); }
  }

  lemma InsertNoDup(c: seq<Ptr>, k: nat, n: Ptr)
    requires NoDup(c) && k < |c| && n !in c
    ensures var d := c[..k + 1] + [n] + c[k + 1..]; NoDup(d) && forall x :: x in d ==> x == n || x in c
  {
    var d := c[..k + 1] + [n] + c[k + 1..];
    forall i | 0 <= i < |d| ensures d[i] == if i <= k then c[i] else if i == k + 1 then n else c[i - 1] {
      InsertIndex(c, k, n, i);
    }
  }

  lemma InsertLink(h: Links, c: seq<Ptr>, k: nat, n: Ptr, i: nat)
    requires Ring(h, c) && k < |c| && n !in c && i <= |c|
    ensures LinkAt(Insert(h, n, c[k], c[Succ(k, |c|)]), c[..k + 1] + [n] + c[k + 1..], i)
  {
    assert LinkAt(h, c, k) && LinkAt(h, c, Succ(k, |c|));
    InsertIndex(c, k, n, i);
    InsertIndex(c, k, n, Succ(i, |c| + 1));
    InsertIndex(c, k, n, Pred(i, |c| + 1));
    if i < k { assert LinkAt(h, c, i); } else if i > k + 1 { assert LinkAt(h, c, i - 1); }
  }

  lemma InsertIndex(c: seq<Ptr>, k: nat, n: Ptr, i: nat)
    requires k < |c| && i <= |c|
    ensures (c[..k + 1] + [n] + c[k + 1..])[i] == if i <= k then c[i] else if i == k + 1 then n else c[i - 1]
  {
  }

  lemma BypassRing(h: Links, c: seq<Ptr>, k: nat)
    requires Ring(h, c) && 0 < k < |c|
    ensures Ring(Bypass(h, c[k - 1], c[Succ(k, |c|)]), c[..k] + c[k + 1..])
  {
    var h', d := Bypass(h, c[k - 1], c[Succ(k, |c|)]), c[..k] + c[k + 1..];
    forall i | 0 <= i < |d| ensures LinkAt(h', d, i) { BypassLink(h, c, k, i); }
  }

  lemma BypassLink(h: Links, c: seq<Ptr>, k: nat, i: nat)
    requires Ring(h, c) && 0 < k < |c| && i + 1 < |c|
    ensures LinkAt(Bypass(h, c[k - 1], c[Succ(k, |c|)]), c[..k] + c[k + 1..], i)
  {
    assert LinkAt(h, c, k - 1) && LinkAt(h, c, Succ(k, |c|));
    var j := if i < k then i else i + 1;
    assert (c[..k] + c[k + 1..])[i] == c[j] && LinkAt(h, c, j);
  }

  lemma RingFrame(h: Links, h': Links, c: seq<Ptr>)
    requires Ring(h, c) && forall x :: x in c ==> x in h' && (x in h ==> h'[x] == h[x])
    ensures Ring(h', c)
  {
    forall i | 0 <= i < |c| ensures LinkAt(h', c, i) { assert c[i] in c && LinkAt(h, c, i); }
  }

  // ----- all the lists of a heap

  type Heads = map<Ptr, seq<Ptr>>

  /** The list at head p; a detached entry is an empty list of its own. */
  function Cycle(m: Heads, p: Ptr): seq<Ptr>
    requires p in m
  {
    [p] + m[p]
  }

  /** Every head is on its own ring, and no link is on two rings. */
  ghost predicate All(h: Links, m: Heads) {
    && (forall p {:trigger Cycle(m, p)} :: p in m ==> Ring(h, Cycle(m, p)))
    && (forall p, q, x {:trigger x in Cycle(m, p), x in Cycle(m, q)} ::
          p in m && q in m && x in Cycle(m, p) && x in Cycle(m, q) ==> p == q)
  }

  /** n is on no list. */
  ghost predicate Free(m: Heads, n: Ptr) {
    forall p {:trigger Cycle(m, p)} :: p in m ==> n !in Cycle(m, p)
  }

  lemma InsertSeq(p: Ptr, s: seq<Ptr>, k: nat, n: Ptr)
    requires k <= |s|
    ensures var c := [p] + s; [p] + (s[..k] + [n] + s[k..]) == c[..k + 1] + [n] + c[k + 1..]
  {
  }

  lemma CutSeq(p: Ptr, s: seq<Ptr>, k: nat)
    requires k < |s|
    ensures var c := [p] + s; [p] + (s[..k] + s[k + 1..]) == c[..k + 1] + c[k + 2..]
  {
    var c := [p] + s;
    assert c[..k + 1] == [p] + s[..k] && c[k + 2..] == s[k + 1..];
  }

  lemma AddKeeps(h: Links, m: Heads, p: Ptr, k: nat, n: Ptr)
    requires All(h, m) && p in m && k <= |m[p]| && Free(m, n)
    requires Ring(h, Cycle(m, p))
    ensures var c := Cycle(m, p); All(Insert(h, n, c[k], c[Succ(k, |c|)]), m[p := m[p][..k] + [n] + m[p][k..]])
  {
    var c := Cycle(m, p);
    var h', m' := Insert(h, n, c[k], c[Succ(k, |c|)]), m[p := m[p][..k] + [n] + m[p][k..]];
    assert Ring(h, c);
    InsertRing(h, c, k, n);
    InsertSeq(p, m[p], k, n);
    assert forall x :: x in Cycle(m', p) <==> x == n || x in c;
    forall q | q in m' ensures Ring(h', Cycle(m', q)) {
      if q != p {
        assert Cycle(m', q) == Cycle(m, q);
        assert c[k] in c && c[Succ(k, |c|)] in c;
        assert Ring(h, Cycle(m, q));
        RingFrame(h, h', Cycle(m, q));
      }
    }
    forall q, r, x | q in m' && r in m' && x in Cycle(m', q) && x in Cycle(m', r) ensures q == r {
      assert q != p ==> Cycle(m', q) == Cycle(m, q);
      assert r != p ==> Cycle(m', r) == Cycle(m, r);
    }
  }

  lemma CutKeeps(h: Links, m: Heads, p: Ptr, k: nat)
    requires All(h, m) && p in m && k < |m[p]|
    requires Ring(h, Cycle(m, p))
    ensures var c := Cycle(m, p); var m' := m[p := m[p][..k] + m[p][k + 1..]];
            All(Bypass(h, c[k], c[Succ(k + 1, |c|)]), m') && Free(m', m[p][k])
  {
    var c, e := Cycle(m, p), m[p][k];
    var h', m' := Bypass(h, c[k], c[Succ(k + 1, |c|)]), m[p := m[p][..k] + m[p][k + 1..]];
    assert Ring(h, c);
    BypassRing(h, c, k + 1);
    CutSeq(p, m[p], k);
    assert c[k + 1] == e;
    forall q | q in m' ensures Ring(h', Cycle(m', q)) && e !in Cycle(m', q) {
      if q != p {
        assert Cycle(m', q) == Cycle(m, q);
        assert c[k] in c && c[Succ(k + 1, |c|)] in c && e in c;
        assert Ring(h, Cycle(m, q));
        RingFrame(h, h', Cycle(m, q));
      }
    }
    forall q, r, x | q in m' && r in m' && x in Cycle(m', q) && x in Cycle(m', r) ensures q == r {
      assert q != p ==> Cycle(m', q) == Cycle(m, q);
      assert r != p ==> Cycle(m', r) == Cycle(m, r);
      assert x in Cycle(m', p) ==> x in c;
    }
  }

  lemma InitKeeps(h: Links, m: Heads, n: Ptr)
    requires All(h, m) && Free(m, n)
    ensures All(h[n := Link(n, n)], m[n := []])
  {
    var h', m' := h[n := Link(n, n)], m[n := []];
    assert n in m ==> n in Cycle(m, n);
    forall q | q in m' ensures Ring(h', Cycle(m', q)) {
      if q != n {
        assert Cycle(m', q) == Cycle(m, q);
        RingFrame(h, h', Cycle(m, q));
      }
    }
    forall q, r, x | q in m' && r in m' && x in Cycle(m', q) && x in Cycle(m', r) ensures q == r {
      assert q != n ==> Cycle(m', q) == Cycle(m, q);
      assert r != n ==> Cycle(m', r) == Cycle(m, r);
    }
  }

  class ListHeap {
    var link: Links
    ghost var list: Heads

    ghost predicate Valid()
      reads this
    {
      All(link, list)
    }

    constructor ()
      ensures Valid() && list == map[]
    {
      link, list := map[], map[];
    }

    /** INIT_LIST_HEAD of something that is on no list. */
    method Init(p: Ptr)
      requires Valid() && Free(list, p)
      modifies this
      ensures Valid() && list == old(list)[p := []]
    {
      InitKeeps(link, list, p);
      link := link[p := Link(p, p)];
      list := list[p := []];
    }

    method AddBetween(n: Ptr, prev: Ptr, next: Ptr)
      requires prev in link && next in link
      modifies this`link
      ensures link == Insert(old(link), n, prev, next)
    {
      link := link[next := link[next].(prev := n)];
      link := link[n := Link(next, prev)];
      link := link[prev := link[prev].(next := n)];
    }

    /** list_add: new first entry. */
    method Add(n: Ptr, head: Ptr)
      requires Valid() && head in list && Free(list, n)
      modifies this
      ensures Valid() && list == old(list)[head := [n] + old(list)[head]]
    {
      ghost var c := Cycle(list, head);
      assert Ring(link, c) && c[0] == head;
      assert LinkAt(link, c, 0) && LinkAt(link, c, Succ(0, |c|));
      AddKeeps(link, list, head, 0, n);
      assert list[head][..0] + [n] + list[head][0..] == [n] + list[head];
      AddBetween(n, head, link[head].next);
      list := list[head := [n] + list[head]];
    }

    /** list_add_tail: new last entry. */
    method AddTail(n: Ptr, head: Ptr)
      requires Valid() && head in list && Free(list, n)
      modifies this
      ensures Valid() && list == old(list)[head := old(list)[head] + [n]]
    {
      ghost var c, k := Cycle(list, head), |list[head]|;
      assert Ring(link, c) && c[0] == head;
      assert LinkAt(link, c, 0) && LinkAt(link, c, k) && Succ(k, |c|) == 0;
      AddKeeps(link, list, head, k, n);
      assert list[head][..k] + [n] + list[head][k..] == list[head] + [n];
      AddBetween(n, link[head].prev, head);
      list := list[head := list[head] + [n]];
    }

    /** list_del_internal on entry number k of a list. */
    method Unlink(e: Ptr, ghost head: Ptr, ghost k: nat)
      requires Valid() && head in list && k < |list[head]| && list[head][k] == e
      modifies this
      ensures Valid() && list == old(list)[head := old(list)[head][..k] + old(list)[head][k + 1..]] && Free(list, e)
      ensures e in link
    {
      ghost var c := Cycle(list, head);
      assert Ring(link, c) && c[k + 1] == e;
      assert LinkAt(link, c, k + 1) && LinkAt(link, c, k) && LinkAt(link, c, Succ(k + 1, |c|));
      CutKeeps(link, list, head, k);
      var prev, next := link[e].prev, link[e].next;
      link := link[next := link[next].(prev := prev)];
      link := link[prev := link[prev].(next := next)];
      list := list[head := list[head][..k] + list[head][k + 1..]];
    }

    /** list_del: the entry leaves its list and is detached. */
    method Del(e: Ptr, ghost head: Ptr, ghost k: nat)
      requires Valid() && head in list && k < |list[head]| && list[head][k] == e
      modifies this
      ensures Valid() && list == old(list)[head := old(list)[head][..k] + old(list)[head][k + 1..]][e := []]
    {
      Unlink(e, head, k);
      Init(e);
    }

    /** list_del of a detached entry changes nothing. */
    method DelDetached(e: Ptr)
      requires Valid() && e in list && list[e] == []
      modifies this
      ensures Valid() && link == old(link) && list == old(list)
    {
      assert Ring(link, Cycle(list, e)) && Cycle(list, e)[0] == e;
      assert LinkAt(link, Cycle(list, e), 0);
      var prev, next := link[e].prev, link[e].next;
      link := link[next := link[next].(prev := prev)];
      link := link[prev := link[prev].(next := next)];
      link := link[e := Link(e, e)];
      assert link == old(link);
    }

    /** list_move: out of one list, to the front of another or the same. */
    method Move(e: Ptr, to: Ptr, ghost head: Ptr, ghost k: nat)
      requires Valid() && head in list && k < |list[head]| && list[head][k] == e && to in list
      modifies this
      ensures Valid()
      ensures var m := old(list)[head := old(list)[head][..k] + old(list)[head][k + 1..]]; list == m[to := [e] + m[to]]
    {
      Unlink(e, head, k);
      Add(e, to);
    }

    /** list_move_tail: out of one list, to the end of another or the same. */
    method MoveTail(e: Ptr, to: Ptr, ghost head: Ptr, ghost k: nat)
      requires Valid() && head in list && k < |list[head]| && list[head][k] == e && to in list
      modifies this
      ensures Valid()
      ensures var m := old(list)[head := old(list)[head][..k] + old(list)[head][k + 1..]]; list == m[to := m[to] + [e]]
    {
      Unlink(e, head, k);
      AddTail(e, to);
    }

    method Empty(head: Ptr) returns (b: bool)
      requires Valid() && head in list
      ensures b <==> list[head] == []
    {
      ghost var c := Cycle(list, head);
      assert Ring(link, c) && c[0] == head;
      assert LinkAt(link, c, 0) && (|c| > 1 ==> c[1] == list[head][0] != c[0]);
      b := link[head].next == head;
    }

    /** list_entry(head->next): the first entry, or the head itself. */
    method First(head: Ptr) returns (e: Ptr)
      requires Valid() && head in list
      ensures e == if list[head] == [] then head else list[head][0]
    {
      ghost var c := Cycle(list, head);
      assert Ring(link, c) && c[0] == head;
      assert LinkAt(link, c, 0);
      e := link[head].next;
    }

    /** get_next_task on the ring of the run queue: what Rotate and NextTask do on the sequence. For an empty
        queue the head itself is returned, and the idle task runs. */
    method NextTaskEntry(head: Ptr, current: Ptr, ghost s: SchedModel.State) returns (e: Ptr)
      requires Valid() && head in list && s.runq == list[head] && s.cur == current
      modifies this
      ensures Valid() && list == old(list)[head := SchedModel.Rotate(s).runq]
      ensures e == if s.runq == [] then head else SchedModel.NextTask(SchedModel.Rotate(s))
    {
      e := First(head);
      var empty := Empty(head);
      if !empty && e == current {
        MoveTail(e, head, head, 0);
        assert s.runq[..0] + s.runq[1..] == s.runq[1..];
        e := First(head);
      }
    }
  }
}
