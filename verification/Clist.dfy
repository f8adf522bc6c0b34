/**
 The doubly linked list the mempool keeps its queues in (github.com/cometbft/cometbft/libs/clist,
 used in app/mempool/mempool_fifo.go), for sequential use. A list stands for the sequence of its
 elements; appending and unlinking change the pointers in place.
 */
module Clist {

  class Element<T> {
    const value: T
    var prev: Element?<T>
    var next: Element?<T>

    constructor (value: T)
      ensures this.value == value && prev == null && next == null
    {
      this.value, prev, next := value, null, null;
    }
  }

  ghost predicate Distinct<T(!new)>(q: seq<Element<T>>) {
    forall i, j :: 0 <= i < j < |q| ==> q[i] != q[j]
  }

  /** A sequence without one of its positions. */
  function Without<T>(q: seq<T>, i: nat): seq<T>
    requires i < |q|
  {
    q[..i] + q[i + 1..]
  }

  /** The element at a position, or null beside the sequence. */
  ghost function At<T>(q: seq<Element<T>>, i: int): Element?<T> {
    if 0 <= i < |q| then q[i] else null
  }

  lemma DistinctPush<T(!new)>(q: seq<Element<T>>, e: Element<T>)
    requires Distinct(q) && e !in q
    ensures Distinct(q + [e])
    ensures forall i :: 0 <= i < |q| ==> (q[i] == q[|q| - 1] <==> i == |q| - 1)
  {
  }

  lemma AtPush<T(!new)>(q: seq<Element<T>>, e: Element<T>, i: int)
    ensures At(q + [e], i) == if i == |q| then e else At(q, i)
  {
  }

  lemma AtWithin<T>(q: seq<Element<T>>, i: nat)
    requires i <= |q|
    ensures At(q, i) == null <==> i == |q|
    ensures i < |q| ==> At(q, i) == q[i]
  {
  }

  lemma AtEnd<T>(q: seq<Element<T>>)
    ensures At(q, -1) == At(q, |q|) == null
    ensures At(q, |q| - 1) == (if q == [] then null else q[|q| - 1])
  {
  }

  lemma DistinctWithout<T(!new)>(q: seq<Element<T>>, k: nat)
    requires Distinct(q) && k < |q|
    ensures Distinct(Without(q, k)) && |Without(q, k)| == |q| - 1
  {
  }

  lemma AtWithout<T(!new)>(q: seq<Element<T>>, k: nat, i: int)
    requires k < |q|
    ensures At(Without(q, k), i) == At(q, if i < k then i else i + 1)
    ensures 0 <= i < |Without(q, k)| ==> Without(q, k)[i] == q[if i < k then i else i + 1]
  {
  }

  class List<T(!new)> {
    var head: Element?<T>
    var tail: Element?<T>
    var len: nat
    ghost var nodes: seq<Element<T>>

    /** The pointers link the nodes in order, in both directions. */
    ghost predicate Valid()
      reads this, nodes
    {
      && len == |nodes| && Distinct(nodes)
      && head == At(nodes, 0) && tail == At(nodes, |nodes| - 1)
      && (forall i :: 0 <= i < |nodes| ==> nodes[i].prev == At(nodes, i - 1))
      && (forall i :: 0 <= i < |nodes| ==> nodes[i].next == At(nodes, i + 1))
    }

    constructor ()
      ensures Valid() && nodes == []
    {
      head, tail, len, nodes := null, null, 0, [];
    }

    /** A list that is left alone stays as it is. */
    twostate lemma Untouched()
      requires old(Valid()) && unchanged(this) && forall e :: e in old(nodes) ==> unchanged(e)
      ensures Valid()
    {
      hide Distinct, At;
      assert forall i :: 0 <= i < |nodes| ==> nodes[i] in nodes;
    }

    method PushBack(value: T) returns (e: Element<T>)
      requires Valid()
      modifies this, nodes
      ensures Valid() && nodes == old(nodes) + [e]
      ensures fresh(e) && e.value == value
    {
      hide Distinct, At;
      ghost var was := nodes;
      e := new Element(value);
      DistinctPush(was, e);
      AtEnd(was);
      if tail == null {
        head := e;
      } else {
        e.prev := tail;
        tail.next := e;
      }
      tail := e;
      len := len + 1;
      nodes := nodes + [e];
      AtPush(was, e, 0);
      AtPush(was, e, |was|);
      forall i | 0 <= i < |nodes| ensures nodes[i].prev == At(nodes, i - 1) && nodes[i].next == At(nodes, i + 1) {
        AtPush(was, e, i - 1);
        AtPush(was, e, i + 1);
        AtEnd(nodes);
        assert i < |was| ==> nodes[i] == was[i];
      }
    }

    /** Joins the next pointers past position k: of its predecessor, or of the list itself. */
    method SkipForward(prev: Element?<T>, next: Element?<T>, ghost k: nat)
      requires Distinct(nodes) && k < |nodes| && prev == At(nodes, k - 1)
      modifies `head, nodes`next
      ensures head == if k == 0 then next else old(head)
      ensures forall j :: 0 <= j < |nodes| ==> nodes[j].next == if j == k - 1 then next else old(nodes[j].next)
    {
      if prev == null {
        head := next;
      } else {
        prev.next := next;
      }
    }

    /** Joins the prev pointers past position k. */
    method SkipBackward(prev: Element?<T>, next: Element?<T>, ghost k: nat)
      requires Distinct(nodes) && k < |nodes| && next == At(nodes, k + 1)
      modifies `tail, nodes`prev
      ensures tail == if k == |nodes| - 1 then prev else old(tail)
      ensures forall j :: 0 <= j < |nodes| ==> nodes[j].prev == if j == k + 1 then prev else old(nodes[j].prev)
    {
      if next == null {
        tail := prev;
      } else {
        next.prev := prev;
      }
    }

    lemma Rejoined(was: seq<Element<T>>, k: nat)
      requires Distinct(was) && k < |was| && nodes == Without(was, k) && len == |nodes|
      requires head == At(was, if k == 0 then 1 else 0)
      requires tail == At(was, if k == |was| - 1 then k - 1 else |was| - 1)
      requires forall j :: 0 <= j < |was| ==> was[j].next == At(was, if j == k - 1 then k + 1 else j + 1)
      requires forall j :: 0 <= j < |was| ==> was[j].prev == At(was, if j == k + 1 then k - 1 else j - 1)
      ensures Valid()
    {
      hide At, Distinct, Without;
      DistinctWithout(was, k);
      AtWithout(was, k, 0);
      AtWithout(was, k, |nodes| - 1);
      forall i | 0 <= i < |nodes| ensures nodes[i].prev == At(nodes, i - 1) && nodes[i].next == At(nodes, i + 1) {
        AtWithout(was, k, i - 1);
        AtWithout(was, k, i);
        AtWithout(was, k, i + 1);
      }
    }

    /** Unlinks an element: its neighbours, or the ends of the list, are joined past it. */
    method Remove(e: Element<T>) returns (ghost k: nat)
      requires Valid() && e in nodes
      modifies this, nodes
      ensures k < |old(nodes)| && old(nodes)[k] == e
      ensures Valid() && nodes == Without(old(nodes), k)
    {
      hide Distinct, At;
      k :| 0 <= k < |nodes| && nodes[k] == e;
      var prev, next := e.prev, e.next;
      SkipForward(prev, next, k);
      SkipBackward(prev, next, k);
      len := len - 1;
      nodes := Without(nodes, k);
      Rejoined(old(nodes), k);
    }
  }
}
