/**
 The bookkeeping of the thread packages: a FIFO run queue, a pool of freed blocks, the
 current thread and the scheduler's own block. Blocks are identified by reference; a
 context switch is the change of the current thread.
 */
module Threads {
  import opened Words
  import opened Options

  datatype Package<B(==)> = Package(
    runq: seq<B>, freeq: seq<B>, cur: Option<B>, scheduler: Option<B>,
    tid: uint32, nalloced: uint32, tids: map<B, uint32>)
  {
    /** A forked thread is running, as opposed to the program that called rpi_thread_start. */
    predicate Running() {
      cur.Some? && cur != scheduler
    }

    /** Every block, once for each place it is in. */
    ghost function Census(): multiset<B> {
      multiset(runq) + multiset(freeq) + (if Running() then multiset{cur.value} else multiset{})
      + (if scheduler.Some? then multiset{scheduler.value} else multiset{})
    }

    /** Each allocated block is in exactly one place, and nalloced counts the blocks. */
    ghost predicate Conserved() {
      && Census() == multiset(tids.Keys)
      && nalloced == |tids.Keys| % TWO_32
      && (cur.Some? ==> scheduler.Some?)
    }
  }

  /** What static initialisation gives. */
  function Initial<B>(): Package<B> {
    Package([], [], None, None, 1, 0, map[])
  }

  /** kmalloc, which is asked only when no freed block is left, never hands out a block twice. */
  predicate Unused<B>(p: Package<B>, spare: B) {
    p.freeq == [] ==> spare !in p.tids
  }

  /** th_alloc: a freed block if there is one, otherwise `spare` from kmalloc; either way a new tid. */
  function Alloc<B>(p: Package<B>, spare: B): (r: (Package<B>, B))
    ensures r.0.runq == p.runq && r.0.cur == p.cur && r.0.scheduler == p.scheduler
  {
    var b := if p.freeq == [] then spare else p.freeq[0];
    (p.(freeq := if p.freeq == [] then [] else p.freeq[1..],
        nalloced := if p.freeq == [] then (p.nalloced + 1) % TWO_32 else p.nalloced,
        tids := p.tids[b := p.tid],
        tid := (p.tid + 1) % TWO_32), b)
  }

  /** rpi_fork */
  function Fork<B>(p: Package<B>, spare: B): Package<B> {
    var (p', b) := Alloc(p, spare);
    p'.(runq := p'.runq + [b])
  }

  /** rpi_exit of the cooperative package */
  function Exit<B>(p: Package<B>): Package<B>
    requires p.cur.Some?
  {
    var p' := p.(freeq := [p.cur.value] + p.freeq);
    if p.runq == [] then p'.(cur := p.scheduler) else p'.(cur := Some(p.runq[0]), runq := p.runq[1..])
  }

  /** rpi_yield of the cooperative package */
  function Yield<B>(p: Package<B>): Package<B>
    requires p.cur.Some?
  {
    if p.runq == [] then p else p.(cur := Some(p.runq[0]), runq := p.runq[1..] + [p.cur.value])
  }

  /** rpi_thread_start of the cooperative package */
  function Start<B>(p: Package<B>, spare: B): Package<B> {
    if p.runq == [] then p
    else
      var p' := if p.scheduler.Some? then p else var (q, b) := Alloc(p, spare); q.(scheduler := Some(b));
      p'.(cur := Some(p'.runq[0]), runq := p'.runq[1..])
  }

  // ----- runs

  datatype Op<B> = ForkOp(spare: B) | YieldOp | ExitOp | StartOp(spare: B)

  /** Yield and exit are for threads, start is for the main program. */
  predicate Allowed<B>(p: Package<B>, op: Op<B>) {
    match op
    case ForkOp(spare) => Unused(p, spare)
    case StartOp(spare) => Unused(p, spare) && !p.Running()
    case _ => p.Running()
  }

  function Do<B>(p: Package<B>, op: Op<B>): Package<B>
    requires Allowed(p, op)
  {
    match op
    case ForkOp(spare) => Fork(p, spare)
    case YieldOp => Yield(p)
    case ExitOp => Exit(p)
    case StartOp(spare) => Start(p, spare)
  }

  ghost predicate AllowedRun<B>(p: Package<B>, ops: seq<Op<B>>)
    decreases |ops|
  {
    ops != [] ==> Allowed(p, ops[0]) && AllowedRun(Do(p, ops[0]), ops[1..])
  }

  ghost function Run<B>(p: Package<B>, ops: seq<Op<B>>): Package<B>
    requires AllowedRun(p, ops)
    decreases |ops|
  {
    if ops == [] then p else Run(Do(p, ops[0]), ops[1..])
  }

  // ----- conservation of blocks

  lemma FirstOf<B>(s: seq<B>)
    requires s != []
    ensures multiset(s) == multiset{s[0]} + multiset(s[1..])
  {
    assert s == [s[0]] + s[1..];
  }

  /** A new block is in no place yet; all the others are where they were. */
  lemma AllocConserves<B>(p: Package<B>, spare: B)
    requires p.Conserved() && Unused(p, spare)
    ensures var (q, b) := Alloc(p, spare);
            && b !in q.Census()
            && q.Census() + multiset{b} == multiset(q.tids.Keys)
            && q.nalloced == |q.tids.Keys| % TWO_32
  {
    if p.freeq == [] {
      NewKey(p.tids, spare, p.tid);
      CountUp(|p.tids.Keys|);
      assert Alloc(p, spare).0.Census() == p.Census();
    } else {
      ReusedBlock(p, spare);
    }
  }

  lemma ReusedBlock<B>(p: Package<B>, spare: B)
    requires p.Conserved() && p.freeq != []
    ensures var (q, b) := Alloc(p, spare);
            q.Census() + multiset{b} == p.Census() && p.Census()[b] == 1 && q.tids.Keys == p.tids.Keys
  {
    FirstOf(p.freeq);
    var b := p.freeq[0];
    assert b in p.Census();
    assert multiset(p.tids.Keys)[b] == 1;
    assert p.tids[b := p.tid].Keys == p.tids.Keys;
  }

  lemma NewKey<B>(m: map<B, uint32>, b: B, t: uint32)
    requires b !in m
    ensures m[b := t].Keys == m.Keys + {b} && |m[b := t].Keys| == |m.Keys| + 1
    ensures multiset(m[b := t].Keys) == multiset(m.Keys) + multiset{b}
  {}

  lemma ForkConserves<B>(p: Package<B>, spare: B)
    requires p.Conserved() && Unused(p, spare)
    ensures Fork(p, spare).Conserved()
  {
    AllocConserves(p, spare);
    var (q, b) := Alloc(p, spare);
    assert Fork(p, spare).Census() == q.Census() + multiset{b};
  }

  /** Taking the front of the run queue as current thread. */
  lemma SwitchConserves<B>(p: Package<B>)
    requires p.Conserved() && !p.Running() && p.scheduler.Some? && p.runq != []
    ensures p.(cur := Some(p.runq[0]), runq := p.runq[1..]).Conserved()
    ensures p.(cur := Some(p.runq[0]), runq := p.runq[1..]).Running()
  {
    FirstOf(p.runq);
    var b := p.runq[0];
    assert p.Census()[b] == multiset(p.tids.Keys)[b] == 1;
    assert p.scheduler != Some(b);
  }

  /** Putting the current thread's block somewhere else, with the scheduler in its place. */
  lemma LeaveConserves<B>(p: Package<B>, q: Package<B>)
    requires p.Conserved() && p.Running()
    requires q == p.(cur := p.scheduler, runq := p.runq + [p.cur.value])
          || q == p.(cur := p.scheduler, freeq := [p.cur.value] + p.freeq)
    ensures q.Conserved() && !q.Running()
  {}

  lemma DoConserves<B>(p: Package<B>, op: Op<B>)
    requires p.Conserved() && Allowed(p, op)
    ensures Do(p, op).Conserved()
  {
    match op
    case ForkOp(spare) => ForkConserves(p, spare);
    case YieldOp =>
      if p.runq != [] {
        var q := p.(cur := p.scheduler, runq := p.runq + [p.cur.value]);
        LeaveConserves(p, q);
        SwitchConserves(q);
        assert q.runq[1..] == p.runq[1..] + [p.cur.value];
      }
    case ExitOp =>
      var q := p.(cur := p.scheduler, freeq := [p.cur.value] + p.freeq);
      LeaveConserves(p, q);
      if p.runq != [] {
        SwitchConserves(q);
      }
    case StartOp(spare) => StartConserves(p, spare);
  }

  lemma StartConserves<B>(p: Package<B>, spare: B)
    requires p.Conserved() && Unused(p, spare) && !p.Running()
    ensures Start(p, spare).Conserved()
  {
    if p.runq != [] {
      if p.scheduler.None? {
        WithScheduler(p, spare);
        SwitchConserves(Alloc(p, spare).0.(scheduler := Some(Alloc(p, spare).1)));
      } else {
        SwitchConserves(p);
      }
    }
  }

  lemma WithScheduler<B>(p: Package<B>, spare: B)
    requires p.Conserved() && Unused(p, spare) && p.scheduler.None?
    ensures var (q, b) := Alloc(p, spare);
            var r := q.(scheduler := Some(b));
            r.Conserved() && !r.Running() && r.runq == p.runq
  {
    AllocConserves(p, spare);
    var (q, b) := Alloc(p, spare);
    assert q.(scheduler := Some(b)).Census() == q.Census() + multiset{b};
  }

  /** Over every run of fork, yield, exit and start, each block stays in exactly one place. */
  lemma {:induction false} RunConserves<B>(p: Package<B>, ops: seq<Op<B>>)
    requires p.Conserved() && AllowedRun(p, ops)
    ensures Run(p, ops).Conserved()
    decreases |ops|
  {
    if ops != [] {
      DoConserves(p, ops[0]);
      RunConserves(Do(p, ops[0]), ops[1..]);
    }
  }

  // ----- thread ids

  /** th_alloc calls made by a run. */
  ghost function Allocs<B>(p: Package<B>, ops: seq<Op<B>>): nat
    requires AllowedRun(p, ops)
    decreases |ops|
  {
    if ops == [] then 0
    else
      (if ops[0].ForkOp? || (ops[0].StartOp? && p.runq != [] && p.scheduler.None?) then 1 else 0)
      + Allocs(Do(p, ops[0]), ops[1..])
  }

  /** The number of the allocation that handed out a tid, while the counter has not come round. */
  function Serial(tid: uint32): nat {
    (tid - 1) % TWO_32
  }

  /** After n allocations: every tid comes from one of them, and no two blocks share one. */
  ghost predicate TidsUnique<B>(p: Package<B>, n: nat) {
    && p.tid == (1 + n) % TWO_32
    && (forall b :: b in p.tids ==> Serial(p.tids[b]) < n)
    && forall b, c :: b in p.tids && c in p.tids && b != c ==> p.tids[b] != p.tids[c]
  }

  lemma AllocKeepsTids<B>(p: Package<B>, spare: B, n: nat)
    requires TidsUnique(p, n) && n < TWO_32
    ensures TidsUnique(Alloc(p, spare).0, n + 1)
  {
    assert Serial(p.tid) == n;
  }

  /** Up to 2^32 allocations, no two blocks carry the same tid. */
  lemma {:induction false} RunKeepsTids<B>(p: Package<B>, ops: seq<Op<B>>, n: nat)
    requires TidsUnique(p, n) && AllowedRun(p, ops) && n + Allocs(p, ops) <= TWO_32
    ensures TidsUnique(Run(p, ops), n + Allocs(p, ops))
    decreases |ops|
  {
    hide Alloc;
    if ops != [] {
      var p' := Do(p, ops[0]);
      match ops[0]
      case ForkOp(spare) =>
        AllocKeepsTids(p, spare, n);
        RunKeepsTids(p', ops[1..], n + 1);
      case StartOp(spare) =>
        if p.runq != [] && p.scheduler.None? {
          AllocKeepsTids(p, spare, n);
          RunKeepsTids(p', ops[1..], n + 1);
        } else {
          RunKeepsTids(p', ops[1..], n);
        }
      case _ => RunKeepsTids(p', ops[1..], n);
    }
  }

  lemma InitialHolds<B>()
    ensures Initial<B>().Conserved() && TidsUnique(Initial<B>(), 0)
  {
    assert Initial<B>().Census() == multiset{};
  }

  /** Every run of a new system: blocks conserved, and tids unique up to 2^32 allocations. */
  lemma EveryRun<B>(ops: seq<Op<B>>)
    requires AllowedRun(Initial(), ops)
    ensures Run(Initial(), ops).Conserved()
    ensures Allocs(Initial(), ops) <= TWO_32 ==> TidsUnique(Run(Initial(), ops), Allocs(Initial(), ops))
  {
    InitialHolds<B>();
    hide Initial, TidsUnique, Run, Allocs, AllowedRun, Package.Conserved;
    RunConserves(Initial(), ops);
    if Allocs(Initial(), ops) <= TWO_32 {
      RunKeepsTids(Initial(), ops, 0);
    }
  }

  /** The state of a new system after forking n threads on new blocks 0, 1, ..., n - 1. */
  function Forks(n: nat): Package<nat> {
    if n == 0 then Initial() else Fork(Forks(n - 1), n - 1)
  }

  function NthTid(n: nat): uint32 {
    (1 + n) % TWO_32
  }

  lemma NextTid(n: nat)
    ensures (NthTid(n) + 1) % TWO_32 == NthTid(n + 1)
  {}

  lemma {:induction false} ForksTids(n: nat)
    ensures Forks(n).freeq == [] && Forks(n).tid == NthTid(n)
    ensures forall b :: b in Forks(n).tids <==> 0 <= b < n
    ensures forall b :: 0 <= b < n ==> Forks(n).tids[b] == NthTid(b)
  {
    hide NthTid;
    if n == 0 {
      NthTidFirst();
    } else {
      ForksTids(n - 1);
      NextTid(n - 1);
    }
  }

  lemma NthTidFirst()
    ensures NthTid(0) == 1
  {}

  lemma NthTidsDiffer(b: nat, c: nat)
    requires b < c < TWO_32
    ensures NthTid(b) != NthTid(c)
  {}

  lemma NthTidRepeats()
    ensures NthTid(0) == NthTid(TWO_32)
  {}

  ghost predicate AllTidsDiffer(p: Package<nat>) {
    forall b, c :: b in p.tids && c in p.tids && b != c ==> p.tids[b] != p.tids[c]
  }

  /** The bound is exact: n simultaneous threads have n different tids if and only if n is at most 2^32. */
  lemma TidsWrap(n: nat)
    ensures AllTidsDiffer(Forks(n)) <==> n <= TWO_32
  {
    hide NthTid;
    ForksTids(n);
    var t := Forks(n).tids;
    if n > TWO_32 {
      NthTidRepeats();
      assert t[0] == t[TWO_32];
    } else {
      forall b, c | b in t && c in t && b != c
        ensures t[b] != t[c]
      {
        if b < c {
          NthTidsDiffer(b, c);
        } else {
          NthTidsDiffer(c, b);
        }
      }
    }
  }

  // ----- bounded waiting

  function Switches<B>(ops: seq<Op<B>>): nat {
    if ops == [] then 0 else (if ops[0].YieldOp? || ops[0].ExitOp? then 1 else 0) + Switches(ops[1..])
  }

  /**
   A thread at position i of the run queue moves up one position with each yield or
   exit, whatever is forked in between, and becomes current with number i + 1.
   */
  lemma {:induction false} WaitsItsTurn<B>(p: Package<B>, ops: seq<Op<B>>, i: nat)
    requires i < |p.runq| && AllowedRun(p, ops)
    requires forall op :: op in ops ==> !op.StartOp?
    ensures var q, k := Run(p, ops), Switches(ops);
            && (k <= i ==> i - k < |q.runq| && q.runq[i - k] == p.runq[i])
            && (k == i + 1 ==> q.cur == Some(p.runq[i]))
    decreases |ops|
  {
    hide Alloc;
    if ops != [] {
      var p' := Do(p, ops[0]);
      assert forall op :: op in ops[1..] ==> op in ops;
      if ops[0].ForkOp? {
        WaitsItsTurn(p', ops[1..], i);
      } else if i > 0 {
        assert p'.runq[i - 1] == p.runq[i];
        assert Switches(ops[1..]) == Switches(ops) - 1;
        WaitsItsTurn(p', ops[1..], i - 1);
      } else if Switches(ops) == 1 {
        ForksKeepCurrent(p', ops[1..]);
      }
    }
  }

  lemma {:induction false} ForksKeepCurrent<B>(p: Package<B>, ops: seq<Op<B>>)
    requires AllowedRun(p, ops) && Switches(ops) == 0
    requires forall op :: op in ops ==> !op.StartOp?
    ensures Run(p, ops).cur == p.cur
    decreases |ops|
  {
    hide Alloc;
    if ops != [] {
      assert forall op :: op in ops[1..] ==> op in ops;
      ForksKeepCurrent(Do(p, ops[0]), ops[1..]);
    }
  }

  /** The runnable threads, the current one first. */
  function Order<B>(p: Package<B>): seq<B>
    requires p.cur.Some?
  {
    [p.cur.value] + p.runq
  }

  function Yields<B>(p: Package<B>, n: nat): (q: Package<B>)
    requires p.cur.Some?
    ensures q.cur.Some?
    decreases n
  {
    if n == 0 then p else Yields(Yield(p), n - 1)
  }

  /** k yields rotate the order by k places. */
  lemma {:induction false} YieldsRotate<B>(p: Package<B>, k: nat)
    requires p.cur.Some? && k <= |Order(p)|
    ensures Order(Yields(p, k)) == Order(p)[k..] + Order(p)[..k]
    ensures Yields(p, k) == p.(cur := Yields(p, k).cur, runq := Yields(p, k).runq)
    decreases k
  {
    hide Yield, Order;
    if k > 0 {
      YieldsRotateBack(p, k - 1);
      YieldsRotate(p, k - 1);
      YieldRotates(Yields(p, k - 1));
      RotateOnce(Order(p), k - 1);
    } else {
      assert Order(p)[0..] + Order(p)[..0] == Order(p);
    }
  }

  lemma YieldRotates<B>(p: Package<B>)
    requires p.cur.Some?
    ensures Order(Yield(p)) == Order(p)[1..] + [Order(p)[0]]
    ensures Yield(p) == p.(cur := Yield(p).cur, runq := Yield(p).runq)
  {}

  lemma RotateOnce<A>(s: seq<A>, k: nat)
    requires k < |s|
    ensures var r := s[k..] + s[..k];
            r[1..] + [r[0]] == s[k + 1..] + s[..k + 1]
  {}

  lemma {:induction false} YieldsRotateBack<B>(p: Package<B>, k: nat)
    requires p.cur.Some?
    ensures Yields(p, k + 1) == Yield(Yields(p, k))
    decreases k
  {
    if k > 0 {
      YieldsRotateBack(Yield(p), k - 1);
    }
  }

  /** With n runnable threads, n yields bring the whole system back to where it was. */
  lemma FullRound<B>(p: Package<B>)
    requires p.cur.Some?
    ensures Yields(p, |p.runq| + 1) == p
  {
    YieldsRotate(p, |p.runq| + 1);
    var o := Order(p);
    assert o[|o|..] + o[..|o|] == o;
    var q := Yields(p, |p.runq| + 1);
    assert q.runq == Order(q)[1..] == p.runq;
  }

  // ----- from start to the last exit

  function Reversed<A>(s: seq<A>): (r: seq<A>)
    ensures |r| == |s|
  {
    if s == [] then [] else [s[|s| - 1]] + Reversed(s[..|s| - 1])
  }

  lemma ReversedPush<A>(s: seq<A>, a: A)
    ensures Reversed(s + [a]) == [a] + Reversed(s)
  {
    assert (s + [a])[..|s|] == s;
  }

  function Exits<B>(p: Package<B>, n: nat): (q: Package<B>)
    requires p.cur.Some? && p.scheduler.Some?
    ensures q.cur.Some? && q.scheduler == p.scheduler
  {
    if n == 0 then p else Exit(Exits(p, n - 1))
  }

  /** Threads that only exit run in the order of the queue, and their blocks are freed last in, first out. */
  lemma {:induction false} ExitsInOrder<B>(p: Package<B>, k: nat)
    requires p.cur.Some? && p.scheduler.Some? && k <= |p.runq|
    ensures Exits(p, k) == p.(cur := Some(Order(p)[k]), runq := p.runq[k..], freeq := Reversed(Order(p)[..k]) + p.freeq)
    decreases k
  {
    hide Reversed;
    var o := Order(p);
    if k == 0 {
      NothingReversed<B>();
      assert p.runq[0..] == p.runq && [] + p.freeq == p.freeq;
    } else {
      ExitsInOrder(p, k - 1);
      FreedNext(o, k - 1, p.freeq);
      assert p.runq[k - 1..][1..] == p.runq[k..];
    }
  }

  lemma NothingReversed<A>()
    ensures Reversed<A>([]) == []
  {}

  /** When all of them have exited, the scheduler is back and every block is free. */
  lemma AllExit<B>(p: Package<B>)
    requires p.cur.Some? && p.scheduler.Some?
    ensures Exits(p, |p.runq| + 1) == p.(cur := p.scheduler, runq := [], freeq := Reversed(Order(p)) + p.freeq)
  {
    hide Reversed;
    var n, o := |p.runq|, Order(p);
    ExitsInOrder(p, n);
    FreedNext(o, n, p.freeq);
    assert o[..n + 1] == o;
    var q := Exits(p, n);
    assert q.runq == [] && q.cur == Some(o[n]);
    hide Order, Exits;
    LastExit(p, n);
  }

  lemma LastExit<B>(p: Package<B>, n: nat)
    requires p.cur.Some? && p.scheduler.Some? && Exits(p, n).runq == []
    ensures var q := Exits(p, n);
            Exits(p, n + 1) == q.(cur := p.scheduler, freeq := [q.cur.value] + q.freeq)
  {}

  lemma FreedNext<A>(s: seq<A>, k: nat, freed: seq<A>)
    requires k < |s|
    ensures [s[k]] + (Reversed(s[..k]) + freed) == Reversed(s[..k + 1]) + freed
  {
    assert s[..k + 1] == s[..k] + [s[k]];
    ReversedPush(s[..k], s[k]);
  }

  /** The block of the thread that exits is the next one to be handed out again. */
  lemma ExitedReusedFirst<B>(p: Package<B>, spare: B)
    requires p.cur.Some?
    ensures var (q, b) := Alloc(Exit(p), spare);
            b == p.cur.value && q.freeq == p.freeq && q.nalloced == p.nalloced && q.tids == p.tids[b := p.tid]
  {}

  /** Starting runs the first thread of the queue; only the first start allocates. */
  lemma StartRunsFirst<B>(p: Package<B>, spare: B)
    ensures var q := Start(p, spare);
            && (p.runq == [] ==> q == p)
            && (p.runq != [] ==> Order(q) == p.runq && q.scheduler.Some?)
            && (p.runq != [] && p.scheduler.Some? ==> q == p.(cur := q.cur, runq := q.runq))
            && (p.runq != [] && p.scheduler.None? && p.freeq == [] ==> q.scheduler == Some(spare))
  {}

  /** A start from the main program and the exits of all threads end in the main program, ready for another round. */
  lemma StartToEnd<B>(p: Package<B>, spare: B)
    requires p.runq != [] && p.scheduler.Some?
    ensures var q := Exits(Start(p, spare), |p.runq|);
            q == p.(cur := p.scheduler, runq := [], freeq := Reversed(p.runq) + p.freeq) && !q.Running()
  {
    StartRunsFirst(p, spare);
    AllExit(Start(p, spare));
  }
}
