/** The circular doubly linked list of include/list.h: the head is a node like any other, and a list
    consists of the head followed by its elements. */
module Rings {

  class Link<T> {
    var next: Link<T>
    var prev: Link<T>
    var data: T

    /** A list head pointing at itself. */
    constructor (value: T)
      ensures next == this && prev == this && data == value
    {
      next, prev, data := this, this, value;
    }
  }

  function Succ(i: nat, n: nat): nat
    requires i < n
  {
    if i + 1 == n then 0 else i + 1
  }

  function Pred(i: nat, n: nat): nat
    requires i < n
  {
    if i == 0 then n - 1 else i - 1
  }

  predicate Distinct<X(==)>(xs: seq<X>) {
    forall i, j :: 0 <= i < j < |xs| ==> xs[i] != xs[j]
  }

  /** The nodes, in `next` order, form one ring, and `prev` runs backwards around it. */
  ghost predicate Ring<T>(ns: seq<Link<T>>)
    reads (set n | n in ns)`next, (set n | n in ns)`prev
  {
    && |ns| > 0 && Distinct(ns)
    && (forall i {:trigger ns[i].next} :: 0 <= i < |ns| ==> ns[i].next == ns[Succ(i, |ns|)])
    && (forall i {:trigger ns[i].prev} :: 0 <= i < |ns| ==> ns[i].prev == ns[Pred(i, |ns|)])
  }

  function Without<X>(xs: seq<X>, k: nat): seq<X>
    requires k < |xs|
  {
    xs[..k] + xs[k + 1..]
  }

  /** `linkList`: the element goes in before the head, which is after the last element. */
  method LinkList<T>(list: Link<T>, element: Link<T>, ghost ns: seq<Link<T>>)
    requires Ring(ns) && list == ns[0] && element !in ns
    modifies list`prev, list.prev`next, element`next, element`prev
    ensures Ring(ns + [element])
  {
    var last := list.prev;
    assert last == ns[|ns| - 1];
    last.next := element;
    element.next := list;
    element.prev := list.prev;
    list.prev := element;
  }

  /** `unlinkList`: the node leaves the ring; its own pointers keep their values. */
  method UnlinkList<T>(element: Link<T>, ghost ns: seq<Link<T>>, ghost k: nat)
    requires Ring(ns) && k < |ns| && ns[k] == element && |ns| > 1
    modifies element.prev`next, element.next`prev
    ensures Ring(Without(ns, k))
    ensures element.next == old(element.next) && element.prev == old(element.prev)
  {
    ghost var n, ks := |ns|, Without(ns, k);
    assert element.prev == ns[Pred(k, n)] && element.next == ns[Succ(k, n)];
    WithoutDistinct(ns, k);
    element.prev.next := element.next;
    element.next.prev := element.prev;
    forall i | 0 <= i < n - 1 ensures ks[i].next == ks[Succ(i, n - 1)] {
      ghost var m := Succ(i, n - 1);
      Kept(ns, k, i);
      Kept(ns, k, m);
      assert Before(k, m) == if Succ(Before(k, i), n) == k then Succ(k, n) else Succ(Before(k, i), n);
    }
    forall i | 0 <= i < n - 1 ensures ks[i].prev == ks[Pred(i, n - 1)] {
      ghost var m := Pred(i, n - 1);
      Kept(ns, k, i);
      Kept(ns, k, m);
      assert Before(k, m) == if Pred(Before(k, i), n) == k then Pred(k, n) else Pred(Before(k, i), n);
    }
  }

  lemma WithoutDistinct<X>(xs: seq<X>, k: nat)
    requires Distinct(xs) && k < |xs|
    ensures Distinct(Without(xs, k))
    ensures forall x :: x in Without(xs, k) <==> x in xs && x != xs[k]
  {
    assert xs == xs[..k] + ([xs[k]] + xs[k + 1..]);
  }

  /** Where the element at `i` was before the one at `k` left. */
  function Before(k: nat, i: nat): nat {
    if i < k then i else i + 1
  }

  lemma Kept<X>(xs: seq<X>, k: nat, i: nat)
    requires k < |xs| && i < |xs| - 1
    ensures Without(xs, k)[i] == xs[Before(k, i)]
  {
  }

  /** `listLength`: the number of elements, the head not counted. */
  method ListLength<T>(list: Link<T>, ghost ns: seq<Link<T>>) returns (length: nat)
    requires Ring(ns) && list == ns[0]
    ensures length == |ns| - 1
  {
    length := 0;
    var element := list.next;
    while element != list
      invariant length < |ns| && element == ns[Succ(length, |ns|)]
      decreases |ns| - length
    {
      length := length + 1;
      element := element.next;
    }
  }
}
