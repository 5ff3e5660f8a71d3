/**
 The thread packages on their real data structures: thread blocks linked into a run
 queue and a free queue. Every call is proved to do what the value-level operations of
 Threads and Preemptive say, so their results about runs apply to it.
 */
module ThreadBlocks {
  import opened Words
  import opened Options
  import opened Threads
  import opened LinkedQueue
  import Preemptive

  /** The parts of a thread block the packages look at: the id, and what the thread is to run. */
  datatype Thread = Thread(tid: uint32, fn: int, arg: int)

  type Block = Node<Thread>

  function Known(b: Node?<Thread>): Option<Block> {
    if b == null then None else Some(b)
  }

  /** The preemptive system while a thread runs with interrupts on. */
  function InThread(p: Package<Block>): Preemptive.System<Block> {
    Preemptive.System(p, Preemptive.InThread(true))
  }

  class ThreadPackage {
    const runq: Queue<Thread>
    const freeq: Queue<Thread>
    var cur: Node?<Thread>
    var scheduler: Node?<Thread>
    var tid: uint32
    var nalloced: uint32

    /** Every block th_alloc has obtained, with the tid it carries. */
    ghost var tids: map<Block, uint32>

    ghost predicate Linked()
      reads this`tids, runq, freeq, runq.Nodes`next, freeq.Nodes`next, tids.Keys`data
    {
      && runq != freeq && runq.Valid() && freeq.Valid()
      && (forall b :: b in tids ==> b.data.tid == tids[b])
    }

    ghost predicate Valid()
      reads this, runq, freeq, runq.Nodes`next, freeq.Nodes`next, tids.Keys`data
    {
      Linked() && View().Conserved()
    }

    ghost function View(): Package<Block>
      reads this, runq, freeq
    {
      Package(runq.Nodes, freeq.Nodes, Known(cur), Known(scheduler), tid, nalloced, tids)
    }

    constructor ()
      ensures Valid() && View() == Initial()
    {
      runq := new Queue<Thread>();
      freeq := new Queue<Thread>();
      cur, scheduler, tid, nalloced, tids := null, null, 1, 0, map[];
      new;
      assert View() == Initial();
    }

    // The calls on the two queues. Blocks keep their tids.

    /** Q_append(&runq, b) */
    method Enqueue(b: Block)
      requires Linked() && b !in runq.Nodes && b !in freeq.Nodes
      requires forall c :: c in runq.Nodes ==> c !in freeq.Nodes
      modifies runq, runq.Nodes`next, b`next
      ensures Linked() && runq.Nodes == old(runq.Nodes) + [b] && freeq.Nodes == old(freeq.Nodes)
    {
      hide Queue.Valid, Distinct;
      label before:
      runq.Append(b);
      Untouched@before(freeq);
    }

    /** Q_pop(&runq) */
    method Dequeue() returns (b: Block)
      requires Linked() && runq.Nodes != []
      modifies runq
      ensures Linked() && b == old(runq.Nodes)[0]
      ensures runq.Nodes == old(runq.Nodes)[1..] && freeq.Nodes == old(freeq.Nodes)
    {
      hide Queue.Valid, Distinct;
      label before:
      var popped := runq.Pop();
      Untouched@before(freeq);
      b := popped;
    }

    /** Q_push(&freeq, b) */
    method Release(b: Block)
      requires Linked() && b !in runq.Nodes && b !in freeq.Nodes
      modifies freeq, b`next
      ensures Linked() && freeq.Nodes == [b] + old(freeq.Nodes) && runq.Nodes == old(runq.Nodes)
    {
      hide Queue.Valid, Distinct;
      label before:
      freeq.Push(b);
      Untouched@before(runq);
    }

    /** Q_pop(&freeq) */
    method Reuse() returns (b: Node?<Thread>)
      requires Linked()
      modifies freeq
      ensures Linked() && runq.Nodes == old(runq.Nodes)
      ensures if old(freeq.Nodes) == [] then b == null && freeq.Nodes == []
              else b == old(freeq.Nodes)[0] && freeq.Nodes == old(freeq.Nodes)[1..]
    {
      hide Queue.Valid, Distinct;
      label before:
      b := freeq.Pop();
      Untouched@before(runq);
    }

    /** Q_empty(&runq) */
    method NoneRunnable() returns (empty: bool)
      requires Linked()
      ensures empty <==> runq.Nodes == []
    {
      empty := runq.Empty();
    }

    /** t->fn = code; t->arg = arg */
    method SetCode(t: Block, fn: int, arg: int)
      requires Linked()
      modifies t`data
      ensures Linked() && t.data == Thread(old(t.data.tid), fn, arg)
    {
      hide Queue.Valid, Distinct;
      t.data := t.data.(fn := fn, arg := arg);
    }

    /** t->tid = tid++ */
    method Number(t: Block)
      requires Linked()
      modifies this`tid, this`tids, t`data
      ensures Linked() && tids == old(tids)[t := old(tid)] && tid == (old(tid) + 1) % TWO_32
      ensures t.data == old(t.data).(tid := old(tid))
    {
      hide Queue.Valid, Distinct;
      t.data := t.data.(tid := tid);
      tids := tids[t := tid];
      tid := (tid + 1) % TWO_32;
    }

    /** th_alloc */
    method ThAlloc() returns (t: Block)
      requires Valid()
      modifies this, freeq, tids.Keys`data
      ensures Linked() && t.data.tid == old(tid)
      ensures Unused(old(View()), t) && (View(), t) == Alloc(old(View()), t)
      ensures t !in old(tids) ==> fresh(t)
    {
      hide Linked, Package.Conserved, Package.Census;
      PlacedOnce(View());
      var popped := Reuse();
      if popped == null {
        t := new Node<Thread>(Thread(0, 0, 0));
        nalloced := (nalloced + 1) % TWO_32;
      } else {
        t := popped;
      }
      Number(t);
    }

    /** rpi_fork: the new block runs fn(arg) and waits at the end of the run queue. */
    method Fork(fn: int, arg: int) returns (t: Block)
      requires Valid()
      modifies this, runq, freeq, tids.Keys
      ensures Valid() && View() == Threads.Fork(old(View()), t)
      ensures t !in old(tids) ==> fresh(t)
      ensures t.data == Thread(old(tid), fn, arg)
    {
      hide Linked, Package.Conserved, Package.Census;
      ghost var before := View();
      PlacedOnce(before);
      t := ThAlloc();
      NewBlockNowhere(before, t);
      SetCode(t, fn, arg);
      Enqueue(t);
    }

    /** rpi_yield of both packages, up to the switch to the new current thread; false when there is none. */
    method Yield() returns (switched: bool)
      requires Valid() && View().Running()
      modifies this, runq, tids.Keys`next
      ensures Valid() && switched == (old(runq.Nodes) != [])
      ensures View() == Threads.Yield(old(View()))
    {
      hide Linked, Package.Conserved, Package.Census;
      var empty := NoneRunnable();
      if empty {
        return false;
      }
      ghost var before := View();
      PlacedOnce(before);
      DoConserves(before, YieldOp);
      Enqueue(cur);
      YieldByAppending(before);
      cur := Dequeue();
      assert View() == Threads.Yield(before);
      return true;
    }

    // ----- the cooperative package

    /** rpi_exit, up to the switch to the new current thread */
    method CooperativeExit()
      requires Valid() && View().Running()
      modifies this, runq, freeq, tids.Keys`next
      ensures Valid() && View() == Threads.Exit(old(View()))
    {
      hide Linked, Package.Conserved, Package.Census;
      ghost var before := View();
      PlacedOnce(before);
      DoConserves(before, ExitOp);
      Release(cur);
      var empty := NoneRunnable();
      if empty {
        cur := scheduler;
      } else {
        cur := Dequeue();
      }
      assert View() == Threads.Exit(before);
    }

    /** rpi_thread_start, up to the switch to the first thread */
    method CooperativeStart()
      requires Valid() && !View().Running()
      modifies this, runq, freeq, tids.Keys
      ensures Valid()
      ensures old(runq.Nodes) == [] ==> View() == old(View())
      ensures old(runq.Nodes) != [] ==> scheduler != null && View() == Start(old(View()), scheduler)
    {
      hide Linked, Package.Conserved, Package.Census;
      var empty := NoneRunnable();
      if empty {
        return;
      }
      ghost var before := View();
      if scheduler == null {
        scheduler := ThAlloc();
      }
      StartsWith(before, scheduler);
      cur := Dequeue();
      assert View() == Start(before, scheduler);
    }

    // ----- the preemptive package

    /** save_context, up to entering the scheduler thread; the queue is never empty at the test in it */
    method SaveContext()
      requires Valid() && View().Running()
      modifies this, runq, tids.Keys`next
      ensures Valid()
      ensures View() == Preemptive.Do(InThread(old(View())), Preemptive.TimerStep).pkg
    {
      hide Linked, Package.Conserved, Package.Census;
      ghost var before := View();
      PlacedOnce(before);
      Enqueue(cur);
      var empty := NoneRunnable();
      assert !empty;
      cur := scheduler;
      LeaveConserves(before, View());
    }

    /** rpi_exit, up to the switch to the scheduler thread */
    method PreemptiveExit()
      requires Valid() && View().Running()
      modifies this, freeq, tids.Keys`next
      ensures Valid()
      ensures View() == Preemptive.Do(InThread(old(View())), Preemptive.ExitStep).pkg
    {
      hide Linked, Package.Conserved, Package.Census;
      ghost var before := View();
      PlacedOnce(before);
      Release(cur);
      var empty := NoneRunnable();
      if empty {
        cur := scheduler;
      } else {
        cur := scheduler;
      }
      LeaveConserves(before, View());
    }

    /** One evaluation of threadSched's loop condition, and the body up to its switch. */
    method ScheduleNext() returns (found: bool)
      requires Valid() && View().cur.Some? && View().cur == View().scheduler
      modifies this, runq
      ensures Valid() && found == (old(runq.Nodes) != [])
      ensures var s := Preemptive.System(old(View()), Preemptive.InScheduler);
              View() == Preemptive.Do(s, Preemptive.ScheduleStep).pkg
    {
      hide Linked, Package.Conserved, Package.Census;
      var empty := NoneRunnable();
      if empty {
        return false;
      }
      SwitchConserves(View());
      cur := Dequeue();
      return true;
    }

    /** rpi_forkSched: like rpi_fork, but the block is put on no queue. */
    method ForkSched(code: int, arg: int) returns (t: Block)
      requires Valid()
      modifies this, freeq, tids.Keys`data
      ensures Linked() && t.data == Thread(old(tid), code, arg)
      ensures Unused(old(View()), t) && (View(), t) == Alloc(old(View()), t)
      ensures t !in old(tids) ==> fresh(t)
    {
      hide Linked, Package.Conserved, Package.Census;
      t := ThAlloc();
      SetCode(t, code, arg);
    }

    /** rpi_thread_start: the scheduler gets a block of its own that is on no queue, and is entered. */
    method PreemptiveStart(code: int, arg: int)
      requires Valid() && cur == null && scheduler == null
      modifies this, runq, freeq, tids.Keys
      ensures Valid()
      ensures old(runq.Nodes) == [] ==> View() == old(View())
      ensures old(runq.Nodes) != [] ==>
        scheduler != null && Unused(old(View()), scheduler) && scheduler.data == Thread(old(tid), code, arg)
        && var s := Preemptive.System(old(View()), Preemptive.MainProgram);
           View() == Preemptive.Do(s, Preemptive.StartStep(scheduler)).pkg
    {
      hide Linked, Package.Conserved, Package.Census;
      var empty := NoneRunnable();
      if empty {
        return;
      }
      ghost var before := View();
      scheduler := ForkSched(code, arg);
      Preemptive.SchedulerEntered(before, scheduler);
      cur := scheduler;
    }
  }

  /** What is left of rpi_thread_start once there is a scheduler block. */
  lemma StartsWith(p: Package<Block>, b: Block)
    requires p.Conserved() && !p.Running() && p.runq != []
    requires p.scheduler.None? ==> Unused(p, b) && Alloc(p, b).1 == b
    requires p.scheduler.Some? ==> p.scheduler.value == b
    ensures Start(p, b).Conserved()
    ensures var q := if p.scheduler.Some? then p else Alloc(p, b).0.(scheduler := Some(b));
            Start(p, b) == q.(cur := Some(q.runq[0]), runq := q.runq[1..])
  {
    hide Package.Conserved, Package.Census, Alloc;
    if p.scheduler.None? {
      StartConserves(p, b);
    } else {
      SwitchConserves(p);
    }
  }

  lemma YieldByAppending(p: Package<Block>)
    requires p.cur.Some? && p.runq != []
    ensures (p.runq + [p.cur.value])[0] == p.runq[0]
    ensures (p.runq + [p.cur.value])[1..] == p.runq[1..] + [p.cur.value]
  {}

  /** What conservation says about single blocks. */
  lemma PlacedOnce(p: Package<Block>)
    requires p.Conserved()
    ensures forall b :: b in p.runq ==> b !in p.freeq && b in p.tids
    ensures forall b :: b in p.freeq ==> b in p.tids
    ensures p.Running() ==> p.cur.value !in p.runq && p.cur.value !in p.freeq && p.cur.value in p.tids
  {
    forall b | b in p.Census()
      ensures p.Census()[b] == 1 && b in p.tids
    {
      assert multiset(p.tids.Keys)[b] == 1;
    }
    forall b | b in p.runq
      ensures b !in p.freeq && b in p.tids
    {
      assert b in multiset(p.runq) && b in p.Census();
      assert b in p.freeq ==> b in multiset(p.freeq);
    }
    forall b | b in p.freeq
      ensures b in p.tids
    {
      assert b in multiset(p.freeq) && b in p.Census();
    }
  }

  lemma NewBlockNowhere(p: Package<Block>, t: Block)
    requires p.Conserved() && Unused(p, t) && Alloc(p, t).1 == t
    ensures Threads.Fork(p, t).Conserved() && t !in p.runq && t !in Alloc(p, t).0.freeq
  {
    AllocConserves(p, t);
    ForkConserves(p, t);
    var q := Alloc(p, t).0;
    assert t in q.runq ==> t in multiset(q.runq);
    assert t in q.freeq ==> t in multiset(q.freeq);
  }
}
