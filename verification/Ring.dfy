/** The circular FIFO queue, used from one side at a time. */
module Ring {
  import opened Words
  import opened Options

  /** Slots, the next slot to write, and the next slot to read. One slot always stays free. */
  datatype Ring<T> = Ring(buf: seq<T>, head: nat, tail: nat) {
    ghost predicate Valid() {
      head < |buf| && tail < |buf|
    }

    function Count(): (n: nat)
      requires Valid()
      ensures n < |buf|
    {
      if head >= tail then head - tail else head + |buf| - tail
    }

    /** The slot of the i-th oldest element. */
    function Place(i: nat): (k: nat)
      requires Valid() && i < |buf|
      ensures k < |buf|
    {
      if tail + i < |buf| then tail + i else tail + i - |buf|
    }

    /** The queued elements, oldest first. */
    function Contents(): (s: seq<T>)
      requires Valid()
      ensures |s| == Count()
    {
      seq(Count(), i requires 0 <= i < Count() => buf[Place(i)])
    }

    predicate Full()
      requires Valid()
    {
      Slot(head + 1, |buf|) == tail
    }
  }

  /** cq_push: false when the queue is full. */
  function Push<T>(r: Ring<T>, x: T): (p: (Ring<T>, bool))
    requires r.Valid()
    ensures p.0.Valid() && |p.0.buf| == |r.buf|
  {
    if r.Full() then (r, false) else (Ring(r.buf[r.head := x], Slot(r.head + 1, |r.buf|), r.tail), true)
  }

  /** cq_pop_nonblock: nothing when the queue is empty. */
  function Pop<T>(r: Ring<T>): (p: (Ring<T>, Option<T>))
    requires r.Valid()
    ensures p.0.Valid() && |p.0.buf| == |r.buf|
  {
    if r.head == r.tail then (r, None) else (r.(tail := Slot(r.tail + 1, |r.buf|)), Some(r.buf[r.tail]))
  }

  lemma PushAppends<T>(r: Ring<T>, x: T)
    requires r.Valid()
    ensures Push(r, x).1 <==> r.Count() < |r.buf| - 1
    ensures Push(r, x).0.Contents() == if Push(r, x).1 then r.Contents() + [x] else r.Contents()
  {
    NextSlot(r.head, |r.buf|);
  }

  lemma PopTakesFirst<T>(r: Ring<T>)
    requires r.Valid()
    ensures Pop(r).1.Some? <==> r.Contents() != []
    ensures r.Contents() != [] ==> r.Contents() == [Pop(r).1.value] + Pop(r).0.Contents()
    ensures r.Contents() == [] ==> Pop(r).0 == r
  {
    NextSlot(r.tail, |r.buf|);
  }

  /** cq_nelem: the 32-bit difference of the pointers, reduced to the table size. */
  function Nelem(head: uint32, tail: uint32, n: nat): (k: nat)
    requires n > 0
    ensures k < n
  {
    Slot(Unsigned(head - tail), n)
  }

  /** The wrapped difference is the element count unless the pointers have crossed and the size does not divide 2^32. */
  lemma NelemExact<T>(r: Ring<T>)
    requires r.Valid() && |r.buf| < TWO_32
    ensures Nelem(r.head, r.tail, |r.buf|) == r.Count() <==> r.head >= r.tail || TWO_32 % |r.buf| == 0
  {
    hide Slot, Unsigned;
    var n, c := |r.buf|, r.Count();
    WrappedDifference(r.head, r.tail);
    if r.head >= r.tail {
      SlotNear(c, n);
    } else {
      var rest := TWO_32 % n;
      CrossedDifference(c, n);
      SlotNear(c + rest, n);
    }
  }

  lemma WrappedDifference(head: uint32, tail: uint32)
    ensures Unsigned(head - tail) == if head >= tail then head - tail else TWO_32 + head - tail
  {
    ModNear(head - tail, TWO_32);
  }

  lemma CrossedDifference(c: nat, n: nat)
    requires 0 < c < n <= TWO_32
    ensures Slot(TWO_32 + c - n, n) == Slot(c + TWO_32 % n, n)
  {
    ModMultiple(TWO_32 + c - n, n, 1);
    ModAdd(TWO_32, c, n);
  }

  class CircularQueue<T> {
    var cBuf: array<T>
    var head: nat
    var tail: nat

    /** The pointers are in range and CQ_N divides 2^32, so that pointer differences may wrap. */
    ghost predicate Valid()
      reads this
    {
      head < cBuf.Length && tail < cBuf.Length && cBuf.Length < TWO_32 && TWO_32 % cBuf.Length == 0
    }

    ghost function View(): (r: Ring<T>)
      requires Valid()
      reads this, cBuf
      ensures r.Valid()
    {
      Ring(cBuf[..], head, tail)
    }

    /** cq_init */
    constructor (storage: array<T>)
      requires 0 < storage.Length < TWO_32 && TWO_32 % storage.Length == 0
      ensures Valid() && cBuf == storage && View().Contents() == []
    {
      cBuf := storage;
      head, tail := 0, 0;
    }

    /** cq_empty */
    predicate Empty()
      reads this
    {
      head == tail
    }

    /** cq_full */
    predicate Full()
      requires cBuf.Length > 0
      reads this
    {
      Slot(head + 1, cBuf.Length) == tail
    }

    /** cq_nelem, by reading both pointers */
    method NumElements() returns (n: nat)
      requires Valid()
      ensures n == |View().Contents()|
    {
      NelemExact(View());
      n := Nelem(head, tail, cBuf.Length);
    }

    /** cq_nspace */
    method NumSpace() returns (n: nat)
      requires Valid()
      ensures n == cBuf.Length - 1 - |View().Contents()|
      ensures n == 0 <==> Full()
    {
      NextSlot(head, cBuf.Length);
      var k := NumElements();
      n := cBuf.Length - 1 - k;
    }

    /** cq_push */
    method PushOne(x: T) returns (ok: bool)
      requires Valid()
      modifies this`head, cBuf
      ensures Valid() && (View(), ok) == Push(old(View()), x)
      ensures ok <==> |old(View().Contents())| < cBuf.Length - 1
      ensures View().Contents() == if ok then old(View().Contents()) + [x] else old(View().Contents())
    {
      PushAppends(View(), x);
      if Full() {
        return false;
      }
      var h := head;
      var space := NumSpace();
      assert space > 0;
      cBuf[h] := x;
      head := Slot(h + 1, cBuf.Length);
      return true;
    }

    /** cq_pop_nonblock */
    method PopNonblock() returns (e: Option<T>)
      requires Valid()
      modifies this`tail
      ensures Valid() && (View(), e) == Pop(old(View()))
      ensures e.Some? <==> old(View().Contents()) != []
      ensures if e.Some? then old(View().Contents()) == [e.value] + View().Contents()
              else View().Contents() == old(View().Contents())
    {
      PopTakesFirst(View());
      if Empty() {
        return None;
      }
      var t := tail;
      e := Some(cBuf[t]);
      tail := Slot(t + 1, cBuf.Length);
    }

    /** cq_peek */
    method Peek() returns (e: Option<T>)
      requires Valid()
      ensures e == if View().Contents() == [] then None else Some(View().Contents()[0])
    {
      if Empty() {
        return None;
      }
      return Some(cBuf[tail]);
    }

    /**
     cq_pop_n while nothing is being pushed: the loop of cq_pop waits only when the queue
     has run empty. With interrupts off the source panics there; that is a false here.
     */
    method PopN(data: array<T>, n: nat) returns (ok: bool)
      requires Valid() && n <= data.Length && data != cBuf
      modifies this`tail, data
      ensures Valid() && cBuf[..] == old(cBuf[..])
      ensures ok <==> n <= |old(View().Contents())|
      ensures var k := if ok then n else |old(View().Contents())|;
              && View().Contents() == old(View().Contents())[k..]
              && data[..k] == old(View().Contents())[..k] && data[k..] == old(data[k..])
    {
      hide Ring.Contents, Pop, Slot;
      ghost var all, before := View().Contents(), data[..];
      assert all[0..] == all && all[..0] + before[0..] == before;
      for i := 0 to n
        invariant Valid() && i <= |all| && View().Contents() == all[i..]
        invariant data[..] == all[..i] + before[i..]
        invariant cBuf[..] == old(cBuf[..])
      {
        var e := PopNonblock();
        if e.None? {
          return false;
        }
        TakenOver(all, before, i, e.value, View().Contents());
        data[i] := e.value;
      }
      return true;
    }

    /** cq_pop_n_noblk: all n elements or none. */
    method PopNNonblock(data: array<T>, n: nat) returns (ok: bool)
      requires Valid() && n <= data.Length && data != cBuf
      modifies this`tail, data
      ensures Valid() && cBuf[..] == old(cBuf[..])
      ensures ok <==> n <= |old(View().Contents())|
      ensures ok ==> View().Contents() == old(View().Contents())[n..]
                     && data[..n] == old(View().Contents())[..n] && data[n..] == old(data[n..])
      ensures !ok ==> tail == old(tail) && data[..] == old(data[..])
    {
      var k := NumElements();
      if k < n {
        return false;
      }
      ok := PopN(data, n);
    }

    /** cq_peek_n: like a pop of n elements, but the queue is left as it was. */
    method PeekN(data: array<T>, n: nat) returns (ok: bool)
      requires Valid() && n <= data.Length && data != cBuf
      modifies this`tail, data
      ensures Valid() && View() == old(View())
      ensures ok <==> n <= |View().Contents()|
      ensures ok ==> data[..n] == View().Contents()[..n] && data[n..] == old(data[n..])
      ensures !ok ==> data[..] == old(data[..])
    {
      var sz := NumElements();
      if n > sz {
        return false;
      }
      var t := tail;
      var popped := PopNNonblock(data, n);
      if !popped {
        assert false;
      }
      tail := t;
      assert View() == old(View());
      var again := NumElements();
      assert sz == again;
      return true;
    }

    /** cq_push_n: all elements or none; the panic inside the loop is unreachable. */
    method PushN(data: array<T>) returns (ok: bool)
      requires Valid() && data.Length > 0 && data != cBuf
      modifies this`head, cBuf
      ensures Valid()
      ensures ok <==> |old(View().Contents())| + data.Length <= cBuf.Length - 1
      ensures View().Contents() == if ok then old(View().Contents()) + data[..] else old(View().Contents())
    {
      var space := NumSpace();
      if space < data.Length {
        return false;
      }
      ghost var before := View().Contents();
      for i := 0 to data.Length
        invariant Valid() && View().Contents() == before + data[..i]
      {
        var pushed := PushOne(data[i]);
        assert pushed;
        assert data[..i + 1] == data[..i] + [data[i]];
      }
      assert data[..data.Length] == data[..];
      return true;
    }

    /** cq_ckpt */
    function Checkpoint(): nat
      reads this
    {
      tail
    }

    /** cq_restore */
    method Restore(ckpt: nat)
      requires Valid() && ckpt < cBuf.Length
      modifies this`tail
      ensures Valid() && View() == old(View()).(tail := ckpt)
    {
      tail := ckpt;
    }
  }

  /** The i-th element moves from the front of what is left to the end of what is copied. */
  lemma TakenOver<T>(all: seq<T>, before: seq<T>, i: nat, e: T, rest: seq<T>)
    requires i < |all| && i < |before| && all[i..] == [e] + rest
    ensures rest == all[i + 1..]
    ensures (all[..i] + before[i..])[i := e] == all[..i + 1] + before[i + 1..]
  {
    assert e == all[i..][0] && rest == all[i..][1..];
  }

  /** Elements pushed together come back together, behind those that were there, and leave the queue empty. */
  method RoundTrip<T>(q: CircularQueue<T>, data: array<T>, out: array<T>) returns (ok: bool)
    requires q.Valid() && data.Length > 0 && data != q.cBuf && out != q.cBuf && out != data
    requires out.Length == |q.View().Contents()| + data.Length
    modifies q, q.cBuf, out
    ensures ok <==> out.Length < q.cBuf.Length
    ensures ok ==> q.Valid() && q.View().Contents() == [] && out[..] == old(q.View().Contents()) + data[..]
  {
    ok := q.PushN(data);
    if ok {
      var popped := q.PopNNonblock(out, out.Length);
      assert popped;
      assert out[..out.Length] == out[..];
    }
  }

  // ----- checkpoints

  /** Elements popped after a checkpoint are back after the restore. */
  method PopThenRestore<T>(q: CircularQueue<T>, data: array<T>, n: nat) returns (ok: bool)
    requires q.Valid() && n <= data.Length && data != q.cBuf
    modifies q`tail, data
    ensures q.Valid() && q.View() == old(q.View())
    ensures ok <==> n <= |q.View().Contents()|
    ensures ok ==> data[..n] == q.View().Contents()[..n]
  {
    var ckpt := q.Checkpoint();
    ok := q.PopNNonblock(data, n);
    q.Restore(ckpt);
  }

  datatype Op<T> = PushOp(x: T) | PopOp

  /** A run of pushes and pops: the final queue and the elements that were accepted. */
  function Run<T>(r: Ring<T>, ops: seq<Op<T>>): (p: (Ring<T>, seq<T>))
    requires r.Valid()
    ensures p.0.Valid() && |p.0.buf| == |r.buf|
    decreases |ops|
  {
    if ops == [] then (r, [])
    else
      var n := |ops| - 1;
      var (r', pushed) := Run(r, ops[..n]);
      match ops[n]
      case PopOp => (Pop(r').0, pushed)
      case PushOp(x) => var (r'', ok) := Push(r', x); (r'', if ok then pushed + [x] else pushed)
  }

  /**
   Restoring a checkpoint brings back every element popped since, and keeps every
   element pushed since, exactly when all of them together still fit.
   */
  lemma {:induction false} RestoreBringsBack<T>(r: Ring<T>, ops: seq<Op<T>>)
    requires r.Valid()
    ensures var (r', pushed) := Run(r, ops);
            r'.(tail := r.tail).Contents() == r.Contents() + pushed <==> r.Count() + |pushed| < |r.buf|
    decreases |ops|
  {
    hide Push, Pop, Ring.Contents, Ring.Count;
    if ops == [] {
      assert r.(tail := r.tail) == r;
      assert r.Contents() + [] == r.Contents();
    } else {
      var n := |ops| - 1;
      RestoreBringsBack(r, ops[..n]);
      var (r', pushed) := Run(r, ops[..n]);
      match ops[n]
      case PopOp => PopMovesTail(r');
      case PushOp(x) =>
        PushMovesHead(r', r.tail, x);
        assert r.Contents() + (pushed + [x]) == r.Contents() + pushed + [x];
    }
  }

  lemma PopMovesTail<T>(r: Ring<T>)
    requires r.Valid()
    ensures Pop(r).0 == r.(tail := Pop(r).0.tail)
  {}

  /** A push seen from another tail: one more element, unless that makes head meet the tail. */
  lemma PushMovesHead<T>(r: Ring<T>, tail: nat, x: T)
    requires r.Valid() && tail < |r.buf|
    ensures var before, after := r.(tail := tail), Push(r, x).0.(tail := tail);
            if !Push(r, x).1 then after == before
            else if before.Count() < |r.buf| - 1 then after.Contents() == before.Contents() + [x]
            else |after.Contents()| == 0
  {
    NextSlot(r.head, |r.buf|);
  }
}
