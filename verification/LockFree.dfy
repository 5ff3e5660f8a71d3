/**
 The circular queue shared by one producer (an interrupt handler that calls cq_push)
 and one consumer (the main program that calls cq_pop_nonblock), without locks. Each
 call is cut into its accesses to shared memory, and these interleave in any order.
 Each test is one step: it reads both pointers, but its own side's cannot change meanwhile.
 */
module LockFree {
  import opened Words
  import opened Options
  import opened Ring

  /** Where cq_push is. */
  datatype Producer<T> = Idle | Tested(x: T) | Checked(x: T) | Written(x: T)

  /** Where cq_pop_nonblock is. */
  datatype Consumer<T> = Resting | NonEmpty | Read(e: T)

  /** The shared queue, both program counters, and what has been pushed and popped so far. */
  datatype State<T> = State(q: Ring<T>, prod: Producer<T>, cons: Consumer<T>, pushed: seq<T>, popped: seq<T>)

  datatype Action<T> =
    | BeginPush(x: T)   // cq_full; a full queue makes the call return 0
    | AssertSpace       // assert(cq_nspace(c) > 0)
    | WriteSlot         // c_buf[head] = x
    | PublishHead       // head = (head + 1) % CQ_N
    | BeginPop          // cq_empty; an empty queue makes the call return 0
    | ReadSlot          // *e = c_buf[tail]
    | PublishTail       // tail = (tail + 1) % CQ_N

  function Space<T>(q: Ring<T>): int
    requires q.Valid() && |q.buf| < TWO_32
  {
    |q.buf| - 1 - Nelem(q.head, q.tail, |q.buf|)
  }

  /** One step of either side; nothing when that side is somewhere else, or when its assertion fails. */
  function Step<T>(s: State<T>, a: Action<T>): (r: Option<State<T>>)
    requires s.q.Valid() && |s.q.buf| < TWO_32
    ensures r.Some? ==> r.value.q.Valid() && |r.value.q.buf| == |s.q.buf|
  {
    var n := |s.q.buf|;
    match a
    case BeginPush(x) =>
      if !s.prod.Idle? then None else if s.q.Full() then Some(s) else Some(s.(prod := Tested(x)))
    case AssertSpace =>
      if !s.prod.Tested? || Space(s.q) <= 0 then None else Some(s.(prod := Checked(s.prod.x)))
    case WriteSlot =>
      if !s.prod.Checked? then None
      else Some(s.(q := s.q.(buf := s.q.buf[s.q.head := s.prod.x]), prod := Written(s.prod.x)))
    case PublishHead =>
      if !s.prod.Written? then None
      else Some(s.(q := s.q.(head := Slot(s.q.head + 1, n)), prod := Idle, pushed := s.pushed + [s.prod.x]))
    case BeginPop =>
      if !s.cons.Resting? then None else if s.q.head == s.q.tail then Some(s) else Some(s.(cons := NonEmpty))
    case ReadSlot =>
      if !s.cons.NonEmpty? then None else Some(s.(cons := Read(s.q.buf[s.q.tail])))
    case PublishTail =>
      if !s.cons.Read? then None
      else Some(s.(q := s.q.(tail := Slot(s.q.tail + 1, n)), cons := Resting, popped := s.popped + [s.cons.e]))
  }

  /** The state after all of the actions, if every one of them was possible. */
  function Run<T>(s: State<T>, actions: seq<Action<T>>): (r: Option<State<T>>)
    requires s.q.Valid() && |s.q.buf| < TWO_32
    ensures r.Some? ==> r.value.q.Valid() && |r.value.q.buf| == |s.q.buf|
    decreases |actions|
  {
    if actions == [] then Some(s)
    else
      var r := Step(s, actions[0]);
      if r.None? then None else Run(r.value, actions[1..])
  }

  ghost predicate Initial<T>(s: State<T>) {
    && s.q.Valid() && |s.q.buf| < TWO_32 && TWO_32 % |s.q.buf| == 0
    && s.q.head == s.q.tail && s.prod == Idle && s.cons == Resting && s.pushed == [] && s.popped == []
  }

  ghost predicate Reachable<T(!new)>(s: State<T>) {
    exists s0: State<T>, actions :: Initial(s0) && Run(s0, actions) == Some(s)
  }

  ghost predicate Inv<T>(s: State<T>) {
    && s.q.Valid() && |s.q.buf| < TWO_32 && TWO_32 % |s.q.buf| == 0
    && s.pushed == s.popped + s.q.Contents()
    && (!s.prod.Idle? ==> !s.q.Full())
    && (s.prod.Written? ==> s.q.buf[s.q.head] == s.prod.x)
    && (!s.cons.Resting? ==> s.q.head != s.q.tail)
    && (s.cons.Read? ==> s.cons.e == s.q.buf[s.q.tail])
  }

  lemma FullMeansCount<T>(q: Ring<T>)
    requires q.Valid()
    ensures q.Full() <==> q.Count() == |q.buf| - 1
  {
    NextSlot(q.head, |q.buf|);
  }

  /** A step of one side never disturbs what the other side is counting on. */
  lemma StepKeepsInv<T>(s: State<T>, a: Action<T>)
    requires Inv(s) && Step(s, a).Some?
    ensures Inv(Step(s, a).value)
  {
    match a
    case WriteSlot => WriteKeepsInv(s);
    case PublishHead => PublishHeadKeepsInv(s);
    case PublishTail => PublishTailKeepsInv(s);
    case _ =>
      hide Slot, Ring.Contents;
  }

  lemma WriteKeepsInv<T>(s: State<T>)
    requires Inv(s) && Step(s, WriteSlot).Some?
    ensures Inv(Step(s, WriteSlot).value)
  {
    assert Step(s, WriteSlot).value.q.Contents() == s.q.Contents();
    hide Slot, Ring.Contents;
  }

  lemma PublishHeadKeepsInv<T>(s: State<T>)
    requires Inv(s) && Step(s, PublishHead).Some?
    ensures Inv(Step(s, PublishHead).value)
  {
    hide Slot;
    NextSlot(s.q.head, |s.q.buf|);
    assert Step(s, PublishHead).value.q.Contents() == s.q.Contents() + [s.prod.x];
    hide Ring.Contents;
  }

  lemma PublishTailKeepsInv<T>(s: State<T>)
    requires Inv(s) && Step(s, PublishTail).Some?
    ensures Inv(Step(s, PublishTail).value)
  {
    hide Slot, Ring.Contents;
    var s' := Step(s, PublishTail).value;
    NextSlot(s.q.tail, |s.q.buf|);
    PopTakesFirst(s.q);
    assert s.q.Contents() == [s.cons.e] + s'.q.Contents();
    FullMeansCount(s.q);
    FullMeansCount(s'.q);
  }

  lemma {:induction false} RunKeepsInv<T>(s: State<T>, actions: seq<Action<T>>)
    requires Inv(s) && Run(s, actions).Some?
    ensures Inv(Run(s, actions).value)
    decreases |actions|
  {
    if actions != [] {
      StepKeepsInv(s, actions[0]);
      RunKeepsInv(Step(s, actions[0]).value, actions[1..]);
    }
  }

  /** In every interleaving the popped values are the pushed values, in order, less what is still queued. */
  lemma PoppedInOrder<T(!new)>(s: State<T>)
    requires Reachable(s)
    ensures s.q.Valid() && s.pushed == s.popped + s.q.Contents()
    ensures s.popped <= s.pushed
  {
    ReachableInv(s);
  }

  lemma ReachableInv<T(!new)>(s: State<T>)
    requires Reachable(s)
    ensures Inv(s)
  {
    var s0: State<T>, actions :| Initial(s0) && Run(s0, actions) == Some(s);
    RunKeepsInv(s0, actions);
  }

  /**
   The values pushed and not yet popped are in their slots before and after the producer
   writes its own, which is none of them.
   */
  lemma NoUnreadSlotOverwritten<T(!new)>(s: State<T>)
    requires Reachable(s) && s.prod.Checked?
    ensures s.q.Valid() && |s.popped| <= |s.pushed| < |s.popped| + |s.q.buf|
    ensures forall i :: |s.popped| <= i < |s.pushed| ==>
      var k := s.q.Place(i - |s.popped|);
      k != s.q.head && s.q.buf[k] == s.pushed[i] && Step(s, WriteSlot).value.q.buf[k] == s.pushed[i]
  {
    ReachableInv(s);
    forall i | |s.popped| <= i < |s.pushed|
      ensures var k := s.q.Place(i - |s.popped|);
              k != s.q.head && s.q.buf[k] == s.pushed[i]
    {
      assert s.pushed[i] == s.q.Contents()[i - |s.popped|];
    }
  }

  /** Whatever the consumer did since the full test, the producer's assertion holds, so no run is stopped by it. */
  lemma AssertionHolds<T(!new)>(s: State<T>)
    requires Reachable(s) && s.prod.Tested?
    ensures s.q.Valid() && |s.q.buf| < TWO_32 && Space(s.q) > 0
    ensures Step(s, AssertSpace).Some?
  {
    ReachableInv(s);
    FullMeansCount(s.q);
    NelemExact(s.q);
  }

  /** The value a pop is about to return is the oldest one not yet returned. */
  lemma ReadIsOldest<T(!new)>(s: State<T>)
    requires Reachable(s) && s.cons.Read?
    ensures |s.popped| < |s.pushed| && s.cons.e == s.pushed[|s.popped|]
  {
    ReachableInv(s);
  }

  // ----- whole calls

  predicate ByProducer<T>(a: Action<T>) {
    a.BeginPush? || a.AssertSpace? || a.WriteSlot? || a.PublishHead?
  }

  predicate Producers<T>(actions: seq<Action<T>>) {
    forall i :: 0 <= i < |actions| ==> ByProducer(actions[i])
  }

  predicate Consumers<T>(actions: seq<Action<T>>) {
    forall i :: 0 <= i < |actions| ==> !ByProducer(actions[i])
  }

  /** The test at the start of a pop ends the call if and only if the queue is empty at that moment. */
  lemma PopRefused<T(!new)>(s: State<T>)
    requires Reachable(s) && s.cons.Resting?
    ensures Step(s, BeginPop) == Some(s.(cons := if s.q.Contents() == [] then Resting else NonEmpty))
  {
    ReachableInv(s);
  }

  /** The test at the start of a push ends the call if and only if all slots but one are in use at that moment. */
  lemma PushRefused<T(!new)>(s: State<T>, x: T)
    requires Reachable(s) && s.prod.Idle?
    ensures Step(s, BeginPush(x)) == Some(s.(prod := if |s.q.Contents()| == |s.q.buf| - 1 then Idle else Tested(x)))
  {
    ReachableInv(s);
    FullMeansCount(s.q);
  }

  /** The same state with the consumer at another place, and the value it holds. */
  lemma ProducerAlone<T>(s: State<T>, cons: Consumer<T>, a: Action<T>)
    requires s.q.Valid() && |s.q.buf| < TWO_32 && ByProducer(a)
    ensures var r, r' := Step(s, a), Step(s.(cons := cons), a);
            && (r.Some? <==> r'.Some?)
            && (r.Some? ==> r'.value == r.value.(cons := cons) && r.value.cons == s.cons)
            && (r.Some? ==> r.value.popped == s.popped && r.value.q.tail == s.q.tail && s.pushed <= r.value.pushed)
  {
    hide Slot, Space;
  }

  /** Producer steps do not see where the consumer is, and leave it there. */
  lemma {:induction false} ProducersAlone<T>(s: State<T>, cons: Consumer<T>, actions: seq<Action<T>>)
    requires s.q.Valid() && |s.q.buf| < TWO_32 && Producers(actions)
    ensures var r, r' := Run(s, actions), Run(s.(cons := cons), actions);
            && (r.Some? <==> r'.Some?)
            && (r.Some? ==> r'.value == r.value.(cons := cons) && r.value.cons == s.cons)
            && (r.Some? ==> r.value.popped == s.popped && r.value.q.tail == s.q.tail && s.pushed <= r.value.pushed)
    decreases |actions|
  {
    hide Step;
    if actions != [] {
      assert ByProducer(actions[0]);
      ProducerAlone(s, cons, actions[0]);
      var r := Step(s, actions[0]);
      if r.Some? {
        ProducersAlone(r.value, cons, actions[1..]);
      }
    }
  }

  lemma {:induction false} RunConcat<T>(s: State<T>, a: seq<Action<T>>, b: seq<Action<T>>)
    requires s.q.Valid() && |s.q.buf| < TWO_32
    ensures Run(s, a + b) == var r := Run(s, a); if r.None? then None else Run(r.value, b)
    decreases |a|
  {
    hide Step;
    if a == [] {
      assert a + b == b;
    } else {
      assert (a + b)[0] == a[0] && (a + b)[1..] == a[1..] + b;
      var r := Step(s, a[0]);
      if r.Some? {
        RunConcat(r.value, a[1..], b);
      }
    }
  }

  lemma RunOne<T>(s: State<T>, a: Action<T>, b: seq<Action<T>>)
    requires s.q.Valid() && |s.q.buf| < TWO_32
    ensures Run(s, [a] + b) == var r := Step(s, a); if r.None? then None else Run(r.value, b)
  {
    hide Step;
    assert ([a] + b)[0] == a && ([a] + b)[1..] == b;
  }

  lemma RunJust<T>(s: State<T>, a: Action<T>)
    requires s.q.Valid() && |s.q.buf| < TWO_32
    ensures Run(s, [a]) == Step(s, a)
  {
    hide Step;
    RunOne(s, a, []);
    assert [a] + [] == [a];
  }

  function PopSteps<T>(p1: seq<Action<T>>, p2: seq<Action<T>>): seq<Action<T>> {
    [BeginPop] + (p1 + ([ReadSlot] + (p2 + [PublishTail])))
  }

  /** What producer steps leave of a queue that was not empty. */
  lemma FirstStays<T>(s: State<T>, p: seq<Action<T>>)
    requires Inv(s) && s.q.Contents() != [] && Producers(p) && Run(s, p).Some?
    ensures var t := Run(s, p).value;
            && Inv(t) && t.cons == s.cons && t.q.tail == s.q.tail && s.q.Contents() <= t.q.Contents()
            && t.q.buf[t.q.tail] == s.q.Contents()[0] && t.q.head != t.q.tail
  {
    hide Step;
    ProducersAlone(s, s.cons, p);
    RunKeepsInv(s, p);
    var t := Run(s, p).value;
    assert t.q.Contents() == t.pushed[|t.popped|..] && s.q.Contents() == s.pushed[|s.popped|..];
    assert t.q.buf[t.q.tail] == t.q.Contents()[0];
  }

  /**
   A pop from a queue that is not empty, in its three steps and with any producer steps
   between them: it is as if the producer steps had come first and then one undivided
   pop, and what comes out is the element that was first when the call began.
   */
  lemma PopCall<T(!new)>(s: State<T>, p1: seq<Action<T>>, p2: seq<Action<T>>)
    requires Reachable(s) && s.cons.Resting? && s.q.Contents() != [] && Producers(p1) && Producers(p2)
    ensures var r, t := Run(s, PopSteps(p1, p2)), Run(s, p1 + p2);
            && (r.Some? <==> t.Some?)
            && (r.Some? ==> Pop(t.value.q).1 == Some(s.q.Contents()[0]))
            && (r.Some? ==> r.value == t.value.(q := Pop(t.value.q).0, popped := s.popped + [s.q.Contents()[0]]))
  {
    hide Step, Run, Ring.Contents, Slot;
    ReachableInv(s);
    PopRefused(s);
    RunConcat(s, p1, p2);
    var s1 := s.(cons := NonEmpty);
    RunOne(s, BeginPop, p1 + ([ReadSlot] + (p2 + [PublishTail])));
    RunConcat(s1, p1, [ReadSlot] + (p2 + [PublishTail]));
    ProducersAlone(s, NonEmpty, p1);
    if Run(s, p1).Some? {
      var a := Run(s, p1).value;
      FirstStays(s, p1);
      ReadFirst(a.(cons := NonEmpty));
      var e := a.q.buf[a.q.tail];
      RunOne(a.(cons := NonEmpty), ReadSlot, p2 + [PublishTail]);
      RunConcat(a.(cons := Read(e)), p2, [PublishTail]);
      ProducersAlone(a, Read(e), p2);
      if Run(a, p2).Some? {
        FirstStays(a, p2);
        var b := Run(a, p2).value;
        RunJust(b.(cons := Read(e)), PublishTail);
        PublishPops(b, e);
      }
    }
  }

  lemma ReadFirst<T>(s: State<T>)
    requires s.q.Valid() && |s.q.buf| < TWO_32 && s.cons == NonEmpty
    ensures Step(s, ReadSlot) == Some(s.(cons := Read(s.q.buf[s.q.tail])))
  {}

  lemma PublishPops<T>(s: State<T>, e: T)
    requires s.q.Valid() && |s.q.buf| < TWO_32 && s.cons.Resting?
    requires s.q.head != s.q.tail && s.q.buf[s.q.tail] == e
    ensures Pop(s.q).1 == Some(e)
    ensures Step(s.(cons := Read(e)), PublishTail) == Some(s.(q := Pop(s.q).0, popped := s.popped + [e]))
  {
    hide Slot;
  }

  // ----- the same for a push

  /** The same state with the producer at another place, and its value in the slot at head. */
  function Writing<T>(s: State<T>, prod: Producer<T>, x: T, written: bool): State<T>
    requires s.q.Valid()
  {
    s.(prod := prod, q := if written then s.q.(buf := s.q.buf[s.q.head := x]) else s.q)
  }

  /** Consumer steps do not see where the producer is, nor what it has written. */
  lemma ConsumerAlone<T>(s: State<T>, prod: Producer<T>, x: T, written: bool, a: Action<T>)
    requires Inv(s) && !ByProducer(a)
    ensures var r, r' := Step(s, a), Step(Writing(s, prod, x, written), a);
            && (r.Some? <==> r'.Some?)
            && (r.Some? ==> r'.value == Writing(r.value, prod, x, written) && r.value.prod == s.prod)
            && (r.Some? ==> r.value.pushed == s.pushed && r.value.q.head == s.q.head)
            && (r.Some? && !s.q.Full() ==> !r.value.q.Full())
  {
    NextSlot(s.q.tail, |s.q.buf|);
    NextSlot(s.q.head, |s.q.buf|);
    hide Slot, Ring.Contents;
  }

  lemma {:induction false} ConsumersAlone<T>(s: State<T>, prod: Producer<T>, x: T, written: bool,
                                             actions: seq<Action<T>>)
    requires Inv(s) && Consumers(actions)
    ensures Writing(s, prod, x, written).q.Valid()
    ensures var r, r' := Run(s, actions), Run(Writing(s, prod, x, written), actions);
            && (r.Some? <==> r'.Some?)
            && (r.Some? ==> r'.value == Writing(r.value, prod, x, written) && r.value.prod == s.prod)
            && (r.Some? ==> r.value.pushed == s.pushed && r.value.q.head == s.q.head && Inv(r.value))
            && (r.Some? && !s.q.Full() ==> !r.value.q.Full())
    decreases |actions|
  {
    hide Step, Ring.Full, Inv;
    InvBasics(s);
    if actions != [] {
      assert !ByProducer(actions[0]);
      ConsumerAlone(s, prod, x, written, actions[0]);
      var r := Step(s, actions[0]);
      if r.Some? {
        StepKeepsInv(s, actions[0]);
        ConsumersAlone(r.value, prod, x, written, actions[1..]);
      }
    }
  }

  lemma InvBasics<T>(s: State<T>)
    requires Inv(s)
    ensures s.q.Valid() && |s.q.buf| < TWO_32
  {}

  function PushSteps<T>(x: T, c1: seq<Action<T>>, c2: seq<Action<T>>, c3: seq<Action<T>>): seq<Action<T>> {
    [BeginPush(x)] + (c1 + ([AssertSpace] + (c2 + ([WriteSlot] + (c3 + [PublishHead])))))
  }

  lemma SpaceLeft<T>(s: State<T>)
    requires Inv(s) && !s.q.Full()
    ensures Space(s.q) > 0
  {
    FullMeansCount(s.q);
    NelemExact(s.q);
  }

  /** One step of the producer, with the consumer anywhere. */
  lemma ProducerSteps<T>(s: State<T>, x: T)
    requires Inv(s) && !s.q.Full() && s.prod.Idle?
    ensures Step(s.(prod := Tested(x)), AssertSpace) == Some(s.(prod := Checked(x)))
    ensures Step(s.(prod := Checked(x)), WriteSlot) == Some(Writing(s, Written(x), x, true))
    ensures Writing(s, Written(x), x, true).q.Valid()
    ensures Push(s.q, x).1
    ensures Step(Writing(s, Written(x), x, true), PublishHead) ==
            Some(s.(q := Push(s.q, x).0, pushed := s.pushed + [x]))
  {
    SpaceLeft(s);
    hide Slot, Ring.Contents, Nelem;
  }

  /**
   A push to a queue that is not full, in its four steps and with any consumer steps
   between them: it is as if the consumer steps had come first and then one undivided
   push of x, which succeeds.
   */
  lemma PushCall<T(!new)>(s: State<T>, x: T, c1: seq<Action<T>>, c2: seq<Action<T>>, c3: seq<Action<T>>)
    requires Reachable(s) && s.prod.Idle? && |s.q.Contents()| != |s.q.buf| - 1
    requires Consumers(c1) && Consumers(c2) && Consumers(c3)
    ensures var r, t := Run(s, PushSteps(x, c1, c2, c3)), Run(s, c1 + (c2 + c3));
            && (r.Some? <==> t.Some?)
            && (r.Some? ==> Push(t.value.q, x).1)
            && (r.Some? ==> r.value == t.value.(q := Push(t.value.q, x).0, pushed := s.pushed + [x]))
  {
    hide Step, Run, Ring.Contents, Slot, Inv, Ring.Full;
    ReachableInv(s);
    InvBasics(s);
    PushRefused(s, x);
    FullMeansLength(s);
    RunConcat(s, c1, c2 + c3);
    var rest3 := [WriteSlot] + (c3 + [PublishHead]);
    var rest2 := [AssertSpace] + (c2 + rest3);
    RunOne(s, BeginPush(x), c1 + rest2);
    RunConcat(s.(prod := Tested(x)), c1, rest2);
    ConsumersAlone(s, Tested(x), x, false, c1);
    if Run(s, c1).Some? {
      var a := Run(s, c1).value;
      InvBasics(a);
      ProducerSteps(a, x);
      RunConcat(a, c2, c3);
      RunOne(a.(prod := Tested(x)), AssertSpace, c2 + rest3);
      RunConcat(a.(prod := Checked(x)), c2, rest3);
      ConsumersAlone(a, Checked(x), x, false, c2);
      if Run(a, c2).Some? {
        var b := Run(a, c2).value;
        InvBasics(b);
        ProducerSteps(b, x);
        RunOne(b.(prod := Checked(x)), WriteSlot, c3 + [PublishHead]);
        RunConcat(Writing(b, Written(x), x, true), c3, [PublishHead]);
        ConsumersAlone(b, Written(x), x, true, c3);
        if Run(b, c3).Some? {
          var c := Run(b, c3).value;
          InvBasics(c);
          ProducerSteps(c, x);
          RunJust(Writing(c, Written(x), x, true), PublishHead);
        }
      }
    }
  }

  lemma FullMeansLength<T>(s: State<T>)
    requires Inv(s)
    ensures s.q.Full() <==> |s.q.Contents()| == |s.q.buf| - 1
  {
    FullMeansCount(s.q);
  }
}
