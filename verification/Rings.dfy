/** The circular doubly linked list that threads the keys of an AVL tree, starting at the tree. */
module Rings {

  /** A list element.  `value` is what keys are compared by; that of the list head is never used. */
  class L2elem {
    const value: int
    var next: L2elem
    var prev: L2elem

    /** An element that is alone in its list. */
    constructor (value: int)
      ensures this.value == value && next == this && prev == this
    {
      this.value := value;
      next, prev := this, this;
    }

    method LinkAfter(after: L2elem, ghost ring: seq<L2elem>, ghost i: nat)
      requires IsRing(ring) && i < |ring| && ring[i] == after && this !in ring
      modifies this, after, after.next
      ensures IsRing(Put(ring, i + 1, this))
    {
      RingNext(ring, i);
      next := after.next;
      next.prev := this;
      prev := after;
      after.next := this;
      ghost var more := Put(ring, i + 1, this);
      forall j: nat ensures Joined(more, j) { assert old(Joined(ring, if j <= i then j else j - 1)); }
    }

    method LinkBefore(before: L2elem, ghost ring: seq<L2elem>, ghost i: nat)
      requires IsRing(ring) && 0 < i < |ring| && ring[i] == before && this !in ring
      modifies this, before, before.prev
      ensures IsRing(Put(ring, i, this))
    {
      RingNext(ring, i - 1);
      prev := before.prev;
      prev.next := this;
      next := before;
      before.prev := this;
      ghost var more := Put(ring, i, this);
      forall j: nat ensures Joined(more, j) { assert old(Joined(ring, if j < i then j else j - 1)); }
    }

    method Unlink(ghost ring: seq<L2elem>, ghost i: nat)
      requires IsRing(ring) && 0 < i < |ring| && ring[i] == this
      modifies next, prev
      ensures IsRing(Drop(ring, i))
    {
      RingNext(ring, i - 1);
      RingNext(ring, i);
      prev.next := next;
      next.prev := prev;
      ghost var less := Drop(ring, i);
      forall j: nat ensures Joined(less, j) { assert old(Joined(ring, if j < i then j else j + 1)); }
    }
  }

  function Put<T>(s: seq<T>, i: nat, x: T): seq<T>
    requires i <= |s|
  {
    s[..i] + [x] + s[i..]
  }

  function Drop<T>(s: seq<T>, i: nat): seq<T>
    requires i < |s|
  {
    s[..i] + s[i + 1..]
  }

  /** The index after `i`, going round. */
  function Succ<T>(s: seq<T>, i: nat): nat
    requires i < |s|
    ensures Succ(s, i) < |s|
  {
    if i + 1 < |s| then i + 1 else 0
  }

  ghost predicate NoTwice(ring: seq<L2elem>) { forall i, j :: 0 <= i < j < |ring| ==> ring[i] != ring[j] }

  ghost predicate Joined(ring: seq<L2elem>, i: nat)
    reads ring
  {
    i < |ring| ==> ring[i].next == ring[Succ(ring, i)] && ring[Succ(ring, i)].prev == ring[i]
  }

  /** Following `next` from the first element goes through `ring` and back to it, and `prev` is the
      other way round. */
  ghost predicate IsRing(ring: seq<L2elem>)
    reads ring
  {
    && ring != [] && NoTwice(ring)
    && forall i: nat {:trigger Joined(ring, i)} :: Joined(ring, i)
  }

  lemma RingNext(ring: seq<L2elem>, i: nat)
    requires IsRing(ring) && i < |ring|
    ensures ring[i].next == ring[Succ(ring, i)] && ring[Succ(ring, i)].prev == ring[i]
  {
    assert Joined(ring, i);
  }
}
