/** The queue's elements and the list.h primitives the queue is built on.

    A `struct list_head` used as a queue head is modelled by a `Queue` whose field `elems`
    lists the elements from head->next round to head->prev; the circular links and the
    sentinel are not represented. Each primitive is given the contract it has on that
    sequence. */
module ListHead {
  import opened CStrings

  /** element_t: a node owning a copy of its string. Its identity is the object. */
  class Element {
    const value: CString

    /** Allocates a node holding a copy of s (the strdup of the inserts). */
    constructor (s: CString)
      ensures value == s
    {
      value := s;
    }
  }

  /** cmp: orders two elements by strcmp of their values, that is lexicographically. */
  function Cmp(a: Element, b: Element): (r: int)
    ensures r == 0 <==> a.value == b.value
    ensures r < 0 <==> LexLess(a.value, b.value)
    ensures r > 0 <==> LexLess(b.value, a.value)
  {
    StrcmpIsLexicographic(a.value, b.value);
    StrcmpIsLexicographic(b.value, a.value);
    StrcmpSwap(a.value, b.value);
    Strcmp(a.value, b.value)
  }

  /** A list head used as a queue. */
  class Queue {
    var elems: seq<Element>

    /** LIST_HEAD / INIT_LIST_HEAD on a new head. */
    constructor ()
      ensures elems == []
    {
      elems := [];
    }

    /** list_empty */
    predicate IsEmpty()
      reads this
    {
      elems == []
    }

    /** list_is_singular */
    predicate IsSingular()
      reads this
    {
      |elems| == 1
    }

    /** INIT_LIST_HEAD: the head is made empty again (the nodes it linked are not touched). */
    method Init()
      modifies this
      ensures elems == []
    {
      elems := [];
    }

    /** list_add(e, head): links e right after the head. */
    method Add(e: Element)
      modifies this
      ensures elems == [e] + old(elems)
    {
      elems := [e] + elems;
    }

    /** list_add_tail(e, head): links e right before the head. */
    method AddTail(e: Element)
      modifies this
      ensures elems == old(elems) + [e]
    {
      elems := elems + [e];
    }

    /** list_del on the node at position i. */
    method Del(i: nat)
      requires i < |elems|
      modifies this
      ensures elems == old(elems[..i] + elems[i + 1..])
    {
      elems := elems[..i] + elems[i + 1..];
    }

    /** list_move(node, dst) within one list: the node at position i is unlinked and linked
        again right after the node at position d, or right after the head when d == -1. */
    method Move(i: nat, d: int)
      requires -1 <= d < i < |elems|
      modifies this
      ensures elems == old(elems[..d + 1] + [elems[i]] + elems[d + 1..i] + elems[i + 1..])
    {
      elems := elems[..d + 1] + [elems[i]] + elems[d + 1..i] + elems[i + 1..];
    }

    /** list_move_tail(node, dst): the node at position i leaves this list for the tail of dst. */
    method MoveTail(i: nat, dst: Queue)
      requires i < |elems| && dst != this
      modifies this, dst
      ensures elems == old(elems[..i] + elems[i + 1..])
      ensures dst.elems == old(dst.elems) + [old(elems[i])]
    {
      dst.elems := dst.elems + [elems[i]];
      elems := elems[..i] + elems[i + 1..];
    }

    /** list_splice(src, this): src's nodes are linked in after this head. src's own head is
        left as it was; the caller re-initialises or drops it. */
    method Splice(src: Queue)
      requires src != this
      modifies this
      ensures elems == src.elems + old(elems)
    {
      elems := src.elems + elems;
    }

    /** list_cut_position(dst, this, node): the nodes from the first up to and including the
        one at position i move to dst, whose former contents are discarded. */
    method CutPosition(dst: Queue, i: nat)
      requires i < |elems| && dst != this
      modifies this, dst
      ensures dst.elems == old(elems[..i + 1])
      ensures elems == old(elems[i + 1..])
    {
      dst.elems := elems[..i + 1];
      elems := elems[i + 1..];
    }
  }

  /** The chain of queue_contex_t entries handed to q_merge, each reduced to the queue it
      references (its q field). */
  class Chain {
    const queues: seq<Queue>

    constructor (qs: seq<Queue>)
      ensures queues == qs
    {
      queues := qs;
    }

    /** The chain holds at least one entry, and no queue twice. */
    predicate Valid() {
      |queues| >= 1 && Distinct(queues)
    }
  }

  /** No queue occurs twice in qs. */
  predicate Distinct(qs: seq<Queue>) {
    forall a, b | 0 <= a < b < |qs| :: qs[a] != qs[b]
  }
}
