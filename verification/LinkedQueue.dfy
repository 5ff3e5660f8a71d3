/**
 The intrusive linked queue shared by the thread packages and the message table:
 elements carry their own next pointer, the queue keeps head, tail and a count.
 */
module LinkedQueue {
  import opened Words

  /** A queue element: the link, and whatever the element type holds besides. */
  class Node<T> {
    var next: Node?<T>
    var data: T

    constructor (data: T)
      ensures this.data == data && next == null
    {
      this.data := data;
      next := null;
    }
  }

  ghost predicate Distinct<A>(s: seq<A>) {
    forall i, j :: 0 <= i < j < |s| ==> s[i] != s[j]
  }

  class Queue<T> {
    var head: Node?<T>
    var tail: Node?<T>
    var cnt: uint32

    /** The elements, front to back. */
    ghost var Nodes: seq<Node<T>>

    /** The chain from head visits exactly these distinct nodes, ends at tail, and cnt counts them. */
    ghost predicate Valid()
      reads this, Nodes`next
    {
      && cnt == |Nodes| % TWO_32
      && Distinct(Nodes)
      && (Nodes == [] ==> head == null && tail == null)
      && (Nodes != [] ==> head == Nodes[0] && tail == Nodes[|Nodes| - 1] && tail.next == null)
      && forall i :: 0 <= i < |Nodes| - 1 ==> Nodes[i].next == Nodes[i + 1]
    }

    /** Q_init */
    constructor ()
      ensures Valid() && Nodes == []
    {
      head, tail, cnt, Nodes := null, null, 0, [];
    }

    /** Assignment of the whole struct: another queue header for the same chain of nodes. */
    constructor CopyOf(q: Queue<T>)
      requires q.Valid()
      ensures Valid() && Nodes == q.Nodes
    {
      head, tail, cnt, Nodes := q.head, q.tail, q.cnt, q.Nodes;
    }

    /** Q_empty: the assertions in it hold. */
    method Empty() returns (b: bool)
      requires Valid()
      ensures b <==> Nodes == []
    {
      if head != null {
        return false;
      }
      assert cnt == 0;
      assert tail == null;
      return true;
    }

    /** Q_pop: the front element, or null; the link of the removed node is left as it was. */
    method Pop() returns (e: Node?<T>)
      requires Valid()
      modifies this
      ensures Valid()
      ensures if old(Nodes) == [] then e == null && Nodes == []
              else e == old(Nodes)[0] && Nodes == old(Nodes)[1..]
      ensures forall q: Queue<T> :: old(allocated(q)) && old(q.Valid()) && old(Apart(this, [], q)) ==> Kept(q)
    {
      e := head;
      if e == null {
        var empty := Empty();
        assert empty;
        return;
      }
      CountDown(|Nodes|);
      cnt := (cnt - 1) % TWO_32;
      head := e.next;
      if head == null {
        tail := null;
      }
      Nodes := Nodes[1..];
    }

    /** Q_append */
    method Append(e: Node<T>)
      requires Valid() && e !in Nodes
      modifies this, Nodes`next, e`next
      ensures Valid() && Nodes == old(Nodes) + [e]
      ensures forall q: Queue<T> :: old(allocated(q)) && old(q.Valid()) && old(Apart(this, [e], q)) ==> Kept(q)
    {
      assert tail != null ==> tail in Nodes;
      e.next := null;
      CountUp(|Nodes|);
      cnt := (cnt + 1) % TWO_32;
      if tail == null {
        tail := e;
        head := e;
      } else {
        tail.next := e;
        tail := e;
      }
      Nodes := Nodes + [e];
    }

    /** Q_push */
    method Push(e: Node<T>)
      requires Valid() && e !in Nodes
      modifies this, e`next
      ensures Valid() && Nodes == [e] + old(Nodes)
      ensures forall q: Queue<T> :: old(allocated(q)) && old(q.Valid()) && old(Apart(this, [e], q)) ==> Kept(q)
    {
      CountUp(|Nodes|);
      cnt := (cnt + 1) % TWO_32;
      e.next := head;
      head := e;
      if tail == null {
        tail := e;
      }
      Nodes := [e] + Nodes;
    }

    /** Q_insert_after: behind e, or in front of everything when e is null. */
    method InsertAfter(e: Node?<T>, eNew: Node<T>)
      requires Valid() && eNew !in Nodes
      requires e != null ==> e in Nodes
      modifies this, Nodes`next, eNew`next
      ensures Valid()
      ensures e == null ==> Nodes == [eNew] + old(Nodes)
      ensures e != null ==>
        var k := Position(old(Nodes), e) + 1;
        Nodes == old(Nodes)[..k] + [eNew] + old(Nodes)[k..]
      ensures forall q: Queue<T> :: old(allocated(q)) && old(q.Valid()) && old(Apart(this, [eNew], q)) ==> Kept(q)
    {
      if e == null {
        Push(eNew);
      } else if tail == e {
        OnlyPosition(Nodes, e, |Nodes| - 1);
        Append(eNew);
      } else {
        InsertInside(e, eNew);
      }
    }

    /** The last branch of Q_insert_after */
    method InsertInside(e: Node<T>, eNew: Node<T>)
      requires Valid() && eNew !in Nodes && e in Nodes && tail != e
      modifies this, e`next, eNew`next
      ensures var k := Position(old(Nodes), e) + 1;
        Valid() && Nodes == old(Nodes)[..k] + [eNew] + old(Nodes)[k..]
      ensures forall q: Queue<T> :: old(allocated(q)) && old(q.Valid()) && old(Apart(this, [eNew], q)) ==> Kept(q)
    {
      ghost var nodes := Nodes;
      ghost var k := Position(nodes, e) + 1;
      CountUp(|nodes|);
      cnt := (cnt + 1) % TWO_32;
      eNew.next := e.next;
      e.next := eNew;
      Nodes := nodes[..k] + [eNew] + nodes[k..];
      DistinctWith(nodes, k, eNew);
      hide Distinct;
      forall i | 0 <= i < |Nodes| - 1
        ensures Nodes[i].next == Nodes[i + 1]
      {
        InsertedAt(nodes, k, eNew, i);
        InsertedAt(nodes, k, eNew, i + 1);
        if i + 1 < k {
          OtherPlace(nodes, e, i);
        } else if i > k {
          OtherPlace(nodes, e, i - 1);
        }
      }
      InsertedAt(nodes, k, eNew, 0);
      InsertedAt(nodes, k, eNew, |nodes|);
      assert forall q: Queue<T> :: old(allocated(q)) && old(q.Valid()) && old(Apart(this, [eNew], q)) ==>
        q.Nodes == old(q.Nodes) && forall n :: n in q.Nodes ==> n != e && n != eNew;
    }
  }

  /** Where an element is in a sequence. */
  ghost function Position<A>(s: seq<A>, a: A): (k: nat)
    requires a in s
    ensures k < |s| && s[k] == a
  {
    var k :| 0 <= k < |s| && s[k] == a;
    k
  }

  lemma OnlyPosition<A>(s: seq<A>, a: A, i: nat)
    requires Distinct(s) && i < |s| && s[i] == a
    ensures Position(s, a) == i
  {}

  lemma OtherPlace<A>(s: seq<A>, a: A, i: nat)
    requires Distinct(s) && a in s && i < |s| && i != Position(s, a)
    ensures s[i] != a
  {}

  lemma InsertedAt<A>(s: seq<A>, k: nat, a: A, i: nat)
    requires k <= |s| && i <= |s|
    ensures (s[..k] + [a] + s[k..])[i] == if i < k then s[i] else if i == k then a else s[i - 1]
  {}

  lemma DistinctWith<A>(s: seq<A>, k: nat, a: A)
    requires Distinct(s) && a !in s && k <= |s|
    ensures Distinct(s[..k] + [a] + s[k..])
  {}

  /** A queue is determined by its own fields and its nodes' links: what touches neither leaves it as it was. */
  twostate lemma Untouched<T>(q: Queue<T>)
    requires old(q.Valid()) && unchanged(q)
    requires forall n :: n in q.Nodes ==> n.next == old(n.next)
    ensures Kept(q)
  {}

  /** The other queue shares no node with q, nor any of the nodes about to join it. */
  ghost predicate Apart<T>(q: Queue<T>, joining: seq<Node<T>>, other: Queue<T>)
    reads q, other
  {
    other != q && forall n :: n in other.Nodes ==> n !in q.Nodes && n !in joining
  }

  /** The queue is as it was. */
  twostate predicate Kept<T>(q: Queue<T>)
    reads q, q.Nodes`next
  {
    q.Valid() && q.Nodes == old(q.Nodes)
  }

  /** The element k links behind n. */
  ghost function Follow<T>(n: Node?<T>, k: nat): Node?<T>
    reads *
    decreases k
  {
    if k == 0 || n == null then n else Follow(n.next, k - 1)
  }

  /** Walking the links from head meets the queue's elements in order, the tail last, and then ends. */
  lemma {:induction false} WalkFromHead<T>(q: Queue<T>, i: nat, k: nat)
    requires q.Valid() && i + k <= |q.Nodes|
    ensures Follow(if i < |q.Nodes| then q.Nodes[i] else null, k) == if i + k < |q.Nodes| then q.Nodes[i + k] else null
    ensures i == 0 ==> Follow(q.head, k) == if k < |q.Nodes| then q.Nodes[k] else null
    decreases k
  {
    if k > 0 {
      WalkFromHead(q, i + 1, k - 1);
    }
  }
}
