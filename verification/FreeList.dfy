/** The doubly linked list of free blocks (memalloc/README.org, Figures 7.2 and
    7.3).  Links are kept per block address; `order` is the list they spell. */
module FreeList {
  import opened Heap

  datatype Links = Links(head: Addr, next: map<Addr, Addr>, prev: map<Addr, Addr>)

  function At(order: seq<Addr>, i: int): Addr { if 0 <= i < |order| then order[i] else NULL }

  ghost predicate Distinct(order: seq<Addr>) {
    forall i, j :: 0 <= i < j < |order| ==> order[i] != order[j]
  }

  /** Running off the list is the only way to meet NULL. */
  lemma AtEnd(order: seq<Addr>, i: int)
    requires NULL !in order
    ensures At(order, i) == NULL <==> !(0 <= i < |order|)
    ensures 0 <= i < |order| ==> At(order, i) in order
  {}

  /** The i-th block in the order is linked to its neighbours. */
  ghost predicate LinkedAt(l: Links, order: seq<Addr>, i: int) {
    0 <= i < |order| ==>
      && order[i] in l.next && l.next[order[i]] == At(order, i + 1)
      && order[i] in l.prev && l.prev[order[i]] == At(order, i - 1)
  }

  /** Both directions of linking agree with one order of distinct addresses. */
  ghost predicate Spells(l: Links, order: seq<Addr>) {
    && Distinct(order) && NULL !in order
    && l.next.Keys == l.prev.Keys
    && (forall a :: a in l.next <==> a in order)
    && l.head == At(order, 0)
    && (forall i {:trigger LinkedAt(l, order, i)} :: LinkedAt(l, order, i))
  }

  /** Put a block at the front of the list. */
  function Push(l: Links, a: Addr): Links {
    var prev := l.prev[a := NULL];
    Links(a, l.next[a := l.head], if l.head != NULL then prev[l.head := a] else prev)
  }

  lemma PushSpells(l: Links, order: seq<Addr>, a: Addr)
    requires Spells(l, order) && a != NULL && a !in order
    ensures Spells(Push(l, a), [a] + order)
  {
    var order' := [a] + order;
    var l' := Push(l, a);
    if order != [] { assert order[0] in order; }
    forall i ensures LinkedAt(l', order', i) {
      if 0 < i < |order'| {
        assert LinkedAt(l, order, i - 1);
        assert order'[i] == order[i - 1] && order[i - 1] in order;
      }
    }
  }

  /** Take a block out of the list, joining its neighbours. */
  function Remove(l: Links, a: Addr): Links
    requires a in l.next && a in l.prev
  {
    var before, after := l.prev[a], l.next[a];
    var next := if before != NULL then l.next[before := after] else l.next;
    var prev := if after != NULL then l.prev[after := before] else l.prev;
    Links(if before == NULL then after else l.head, next - {a}, prev - {a})
  }

  function Without(order: seq<Addr>, k: nat): seq<Addr>
    requires k < |order|
  {
    order[..k] + order[k + 1..]
  }

  lemma WithoutAt(order: seq<Addr>, k: nat, i: int)
    requires k < |order|
    ensures At(Without(order, k), i) == if i < k then At(order, i) else At(order, i + 1)
  {}

  lemma WithoutMembers(order: seq<Addr>, k: nat, x: Addr)
    requires Distinct(order) && k < |order|
    ensures x in Without(order, k) <==> x in order && x != order[k]
  {}

  /** Only the neighbours of the block taken out are linked anew. */
  lemma RemoveLinks(l: Links, order: seq<Addr>, k: nat, j: nat)
    requires Spells(l, order) && k < |order| && j < |order| && j != k
    ensures var l' := Remove(l, order[k]);
            && order[j] in l'.next && order[j] in l'.prev
            && l'.next[order[j]] == At(order, if j + 1 == k then k + 1 else j + 1)
            && l'.prev[order[j]] == At(order, if j - 1 == k then k - 1 else j - 1)
  {
    assert LinkedAt(l, order, j) && LinkedAt(l, order, k);
    assert order[j] != order[k];
    if k > 0 { assert order[k - 1] != NULL && (order[j] == order[k - 1] <==> j == k - 1); }
    if k + 1 < |order| { assert order[k + 1] != NULL && (order[j] == order[k + 1] <==> j == k + 1); }
  }

  lemma RemoveLinkedAt(l: Links, order: seq<Addr>, k: nat, i: int)
    requires Spells(l, order) && k < |order|
    ensures LinkedAt(Remove(l, order[k]), Without(order, k), i)
  {
    if 0 <= i < |Without(order, k)| {
      RemoveLinks(l, order, k, if i < k then i else i + 1);
      WithoutAt(order, k, i);
      WithoutAt(order, k, i + 1);
      WithoutAt(order, k, i - 1);
    }
  }

  lemma RemoveSpells(l: Links, order: seq<Addr>, k: nat, l': Links, order': seq<Addr>)
    requires Spells(l, order) && k < |order| && l' == Remove(l, order[k]) && order' == Without(order, k)
    ensures Spells(l', order')
  {
    forall x ensures (x in l'.next <==> x in order') && (x in l'.prev <==> x in order') {
      WithoutMembers(order, k, x);
      RemoveKeys(l, order, k, x);
    }
    forall i ensures LinkedAt(l', order', i) {
      RemoveLinkedAt(l, order, k, i);
    }
    assert LinkedAt(l, order, k);
    WithoutAt(order, k, 0);
    WithoutDistinct(order, k);
  }

  lemma RemoveKeys(l: Links, order: seq<Addr>, k: nat, x: Addr)
    requires Spells(l, order) && k < |order|
    ensures var l' := Remove(l, order[k]);
            (x in l'.next <==> x in order && x != order[k]) && (x in l'.prev <==> x in order && x != order[k])
  {
    assert LinkedAt(l, order, k);
    if k > 0 { assert order[k - 1] in order; }
    if k + 1 < |order| { assert order[k + 1] in order; }
  }

  lemma RemoveKeySet(l: Links, order: seq<Addr>, k: nat)
    requires Spells(l, order) && k < |order|
    ensures Remove(l, order[k]).next.Keys == l.next.Keys - {order[k]}
  {
    forall x ensures x in Remove(l, order[k]).next <==> x in l.next && x != order[k] {
      RemoveKeys(l, order, k, x);
    }
  }

  lemma WithoutDistinct(order: seq<Addr>, k: nat)
    requires Distinct(order) && NULL !in order && k < |order|
    ensures Distinct(Without(order, k)) && NULL !in Without(order, k)
  {}
}
