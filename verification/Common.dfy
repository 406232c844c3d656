/** What several parts of the kernel share: the machine's constants, and queues as
    sequences without repetition. */
module Common {
  /** A pointer; NULL is the C null pointer. */
  type Ptr = nat
  const NULL: Ptr := 0

  const PAGE_SIZE: nat := 4096
  const PAGE_OFFSET: nat := 0xc000_0000
  const TWO32: nat := 0x1_0000_0000

  function Pow2(n: nat): (r: nat)
    ensures r >= 1
  {
    if n == 0 then 1 else 2 * Pow2(n - 1)
  }

  /** What each step keeps, holds on. */
  lemma {:induction false} Stays(b: seq<bool>, i: nat, j: nat)
    requires i <= j < |b| && b[i] && forall m :: i <= m < j && b[m] ==> b[m + 1]
    ensures b[j]
    decreases j
  {
    if i < j { Stays(b, i, j - 1); }
  }

  predicate NoDup(s: seq<nat>) { forall i, j :: 0 <= i < j < |s| ==> s[i] != s[j] }

  /** list_del: the first occurrence goes. */
  function Remove(s: seq<nat>, x: nat): seq<nat> {
    if s == [] then [] else if s[0] == x then s[1..] else [s[0]] + Remove(s[1..], x)
  }

  lemma {:induction false} RemoveFacts(s: seq<nat>, x: nat)
    requires NoDup(s)
    ensures NoDup(Remove(s, x)) && x !in Remove(s, x)
    ensures forall y :: y in Remove(s, x) <==> y in s && y != x
  {
    if s != [] {
      assert s == [s[0]] + s[1..];
      RemoveFacts(s[1..], x);
      var r := Remove(s[1..], x);
      if s[0] != x { NoDupCons(s[0], r); }
    }
  }

  /** All others stay, in their order. */
  lemma {:induction false} RemoveAt(s: seq<nat>, k: nat)
    requires NoDup(s) && k < |s|
    ensures Remove(s, s[k]) == s[..k] + s[k + 1..]
  {
    if k > 0 {
      NoDupTail(s);
      RemoveAt(s[1..], k - 1);
      SlicesOf(s, k);
    }
  }

  lemma SlicesOf(s: seq<nat>, k: nat)
    requires 0 < k < |s|
    ensures s[1..][k - 1] == s[k] && [s[0]] + (s[1..][..k - 1] + s[1..][k..]) == s[..k] + s[k + 1..]
  {
    assert [s[0]] + s[1..][..k - 1] == s[..k] && s[1..][k..] == s[k + 1..];
  }

  lemma {:induction false} RemoveHead(s: seq<nat>, x: nat)
    ensures x !in s ==> Remove(s, x) == s
    ensures s != [] && s[0] == x ==> Remove(s, x) == s[1..]
  {
    if s != [] && s[0] != x { RemoveHead(s[1..], x); assert s == [s[0]] + s[1..]; }
  }

  lemma NoDupCons(x: nat, s: seq<nat>)
    requires NoDup(s) && x !in s
    ensures NoDup([x] + s) && forall y :: y in [x] + s <==> y == x || y in s
  {
  }

  lemma NoDupSnoc(s: seq<nat>, x: nat)
    requires NoDup(s) && x !in s
    ensures NoDup(s + [x]) && forall y :: y in s + [x] <==> y == x || y in s
  {
  }

  lemma NoDupTail(s: seq<nat>)
    requires NoDup(s) && s != []
    ensures NoDup(s[1..]) && s[0] !in s[1..] && forall y :: y in s <==> y == s[0] || y in s[1..]
  {
    assert s == [s[0]] + s[1..];
  }
}
