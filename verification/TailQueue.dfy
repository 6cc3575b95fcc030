/** The TAILQ macros of kernel/lib/queue.h on real pointers. */
module TailQueue {
  import opened Sequences

  /**
   * A head or an entry: two pointers of the same shape. In a head they are `tqh_first` and `tqh_last`, in an
   * entry `tqe_next` and `tqe_prev`; the address of a `next` field stands for the link that holds it. An entry
   * carries the fields of the structure it is embedded in; those of a head are not used.
   */
  class Link<T> {
    var next: Link?<T>
    var back: Link?<T>
    var item: T

    constructor (item: T)
      ensures this.item == item && next == null && back == null
    {
      next, back := null, null;
      this.item := item;
    }
  }

  ghost predicate Distinct<T>(q: seq<T>)
  {
    forall i, j :: 0 <= i < j < |q| ==> q[i] != q[j]
  }

  /** As below, but the last entry may point anywhere. */
  ghost predicate OpenForward<T>(links: seq<Link<T>>)
    reads links`next, links`back
  {
    && links != [] && Distinct(links)
    && (forall i {:trigger links[i].next} :: 0 <= i < |links| - 1 ==> links[i].next == links[i + 1])
    && links[0].back == links[|links| - 1]
  }

  ghost predicate OpenChain<T>(links: seq<Link<T>>)
    reads links`next, links`back
  {
    && OpenForward(links)
    && (forall i {:trigger links[i].back} :: 1 <= i < |links| ==> links[i].back == links[i - 1])
  }

  /** The forward links of a queue, its head first: they visit exactly its entries and end there. */
  ghost predicate Forward<T>(links: seq<Link<T>>)
    reads links`next, links`back
  {
    OpenForward(links) && links[|links| - 1].next == null
  }

  /** A well formed queue, its head first: the back pointers mirror the forward ones. */
  ghost predicate Chain<T>(links: seq<Link<T>>)
    reads links`next, links`back
  {
    OpenChain(links) && links[|links| - 1].next == null
  }

  method Init<T>(head: Link<T>)
    modifies head`next, head`back
    ensures Chain([head])
  {
    head.next := null;
    head.back := head;
  }

  method InsertHead<T>(head: Link<T>, elm: Link<T>, ghost links: seq<Link<T>>)
    requires Chain(links) && head == links[0] && elm !in links
    modifies head`next, head`back, elm`next, elm`back, (if head.next == null then {} else {head.next})`back
    ensures Chain([head, elm] + links[1..])
  {
    elm.next := head.next;
    if elm.next != null {
      head.next.back := elm;
    } else {
      head.back := elm;
    }
    head.next := elm;
    elm.back := head;
  }

  /**
   * The writes are stated for any links. On a queue that does not hold the entry they append it; when the entry is
   * the last one already, and `tqh_last` addresses its own `next` field, they make it point to itself.
   */
  method InsertTail<T>(head: Link<T>, elm: Link<T>, ghost links: seq<Link<T>>)
    requires head.back != null && elm != head
    modifies head`back, elm`next, elm`back, head.back`next
    ensures elm.back == old(head.back) && head.back == elm
    ensures old(head.back).next == elm
    ensures old(head.back) != elm ==> elm.next == null
    ensures old(OpenChain(links)) && head == links[0] && elm !in links ==> Chain(links + [elm])
    ensures old(OpenForward(links)) && head == links[0] && elm !in links ==> Forward(links + [elm])
    ensures old(OpenForward(links)) && head == links[0] && elm == links[|links| - 1] ==>
        OpenForward(links) && elm.next == elm.back == elm
  {
    elm.next := null;
    elm.back := head.back;
    head.back.next := elm;
    head.back := elm;
  }

  method InsertAfter<T>(head: Link<T>, listelm: Link<T>, elm: Link<T>, ghost links: seq<Link<T>>, ghost i: nat)
    requires Chain(links) && head == links[0] && 1 <= i < |links| && listelm == links[i] && elm !in links
    modifies head`back, listelm`next, elm`next, elm`back, (if listelm.next == null then {} else {listelm.next})`back
    ensures Chain(links[..i + 1] + [elm] + links[i + 1..])
  {
    elm.next := listelm.next;
    if elm.next != null {
      elm.next.back := elm;
    } else {
      head.back := elm;
    }
    listelm.next := elm;
    elm.back := listelm;
  }

  method InsertBefore<T>(listelm: Link<T>, elm: Link<T>, ghost links: seq<Link<T>>, ghost i: nat)
    requires Chain(links) && 1 <= i < |links| && listelm == links[i] && elm !in links
    modifies listelm`back, elm`next, elm`back, {links[i - 1]}`next
    ensures Chain(links[..i] + [elm] + links[i..])
  {
    elm.back := listelm.back;
    elm.next := listelm;
    listelm.back.next := elm;
    listelm.back := elm;
  }

  /** The writes are stated for any links; on a queue they take the entry out, wherever it is. */
  method Remove<T>(head: Link<T>, elm: Link<T>, ghost links: seq<Link<T>>, ghost i: nat)
    requires elm.back != null && elm != head
    modifies head`back, elm.back`next, (if elm.next == null then {} else {elm.next})`back
    ensures old(elm.back).next == old(elm.next)
    ensures old(elm.next) == null ==> head.back == old(elm.back)
    ensures old(elm.next) != null ==> old(elm.next).back == old(elm.back)
    ensures old(elm.next) != null && old(elm.next) != head ==> head.back == old(head.back)
    ensures old(Chain(links)) && head == links[0] && 1 <= i < |links| && elm == links[i] ==>
        Chain(links[..i] + links[i + 1..])
  {
    if elm.next != null {
      elm.next.back := elm.back;
    } else {
      head.back := elm.back;
    }
    elm.back.next := elm.next;
  }

  method Concat<T>(head1: Link<T>, head2: Link<T>, ghost links1: seq<Link<T>>, ghost links2: seq<Link<T>>)
    requires Chain(links1) && head1 == links1[0] && Chain(links2) && head2 == links2[0]
    requires forall i, j :: 0 <= i < |links1| && 0 <= j < |links2| ==> links1[i] != links2[j]
    modifies head1`back, head2`next, head2`back
    modifies {links1[|links1| - 1]}`next, (if head2.next == null then {} else {head2.next})`back
    ensures Chain(links1 + links2[1..]) && Chain([head2])
  {
    if head2.next != null {
      head1.back.next := head2.next;
      head2.next.back := head1.back;
      head1.back := head2.back;
      Init(head2);
    } else {
      assert links2 == [head2] && links1 + links2[1..] == links1;
    }
  }

  /** `TAILQ_LAST` and `TAILQ_PREV`: the link behind a back pointer is read as if it were a head. */
  method Last<T>(head: Link<T>, ghost links: seq<Link<T>>) returns (r: Link?<T>)
    requires Chain(links) && head == links[0]
    ensures r == if |links| == 1 then null else links[|links| - 1]
  {
    r := head.back.back.next;
  }

  method Prev<T>(elm: Link<T>, ghost links: seq<Link<T>>, ghost i: nat) returns (r: Link?<T>)
    requires Chain(links) && 1 <= i < |links| && elm == links[i]
    ensures r == if i == 1 then null else links[i - 1]
  {
    r := elm.back.back.next;
  }

  /** `TAILQ_FOREACH`: the entries in order, then NULL. */
  method Foreach<T>(head: Link<T>, ghost links: seq<Link<T>>) returns (visited: seq<Link<T>>)
    requires Forward(links) && head == links[0]
    ensures visited == links[1..]
  {
    visited := [];
    var elm := head.next;
    while elm != null
      invariant |visited| < |links| && visited == links[1..|visited| + 1]
      invariant elm == links[|visited|].next
      decreases |links| - |visited|
    {
      visited := visited + [elm];
      elm := elm.next;
    }
  }

  /** `TAILQ_FOREACH_REVERSE`: exactly the entries of the forward traversal, last first, then NULL. */
  method ForeachReverse<T>(head: Link<T>, ghost links: seq<Link<T>>) returns (visited: seq<Link<T>>)
    requires Chain(links) && head == links[0]
    ensures visited == Reversed(links[1..])
  {
    visited := [];
    var elm := Last(head, links);
    ghost var i: nat := |links|;
    while elm != null
      invariant 1 <= i <= |links| && visited == Reversed(links[i..])
      invariant elm == if i == 1 then null else links[i - 1]
      decreases i
    {
      assert links[i - 1..][1..] == links[i..];
      visited := visited + [elm];
      elm := Prev(elm, links, i - 1);
      i := i - 1;
    }
  }
}
