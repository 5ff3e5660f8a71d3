/**
 The preemptive thread package. A timer interrupt puts the current thread at the end
 of the run queue and enters the scheduler thread, whose loop picks the next one; an
 exiting thread enters the scheduler as well. It is proved to do to the run queue and
 the current thread what the cooperative package does.
 */
module Preemptive {
  import opened Options
  import opened Threads

  /** What the processor is executing. Interrupts are off in the scheduler thread. */
  datatype Mode = MainProgram | InThread(interrupts: bool) | InScheduler | Rebooted

  datatype System<B(==)> = System(pkg: Package<B>, mode: Mode) {
    ghost predicate Valid() {
      && pkg.Conserved()
      && match mode
         case MainProgram => pkg.cur.None? && pkg.scheduler.None?
         case InThread(_) => pkg.Running()
         case InScheduler => pkg.cur.Some? && pkg.cur == pkg.scheduler
         case Rebooted => pkg.cur.Some? && pkg.cur == pkg.scheduler && pkg.runq == []
    }
  }

  datatype Step<B> =
    | ForkStep(spare: B)
    | StartStep(spare: B)   // rpi_thread_start
    | TimerStep             // save_context, from the interrupt handler
    | YieldStep             // rpi_yield
    | ExitStep              // rpi_exit
    | ScheduleStep          // one evaluation of threadSched's loop condition, and the body if it holds

  predicate Enabled<B>(s: System<B>, step: Step<B>) {
    && (s.mode.InThread? ==> s.pkg.cur.Some?)
    && match step
    case ForkStep(spare) => Unused(s.pkg, spare) && (s.mode.MainProgram? || s.mode.InThread?)
    case StartStep(spare) => Unused(s.pkg, spare) && s.mode.MainProgram?
    case TimerStep => s.mode.InThread? && s.mode.interrupts
    case ScheduleStep => s.mode.InScheduler?
    case _ => s.mode.InThread?
  }

  function Do<B>(s: System<B>, step: Step<B>): System<B>
    requires Enabled(s, step)
  {
    var p := s.pkg;
    match step
    case ForkStep(spare) => s.(pkg := Fork(p, spare))
    case StartStep(spare) =>
      if p.runq == [] then s
      else
        var (q, b) := Alloc(p, spare);
        System(q.(scheduler := Some(b), cur := Some(b)), InScheduler)
    case TimerStep =>
      System(SaveContext(p), InScheduler)
    case YieldStep =>
      // interrupts are turned off first; on an empty run queue the call returns with them off
      if p.runq == [] then s.(mode := InThread(false))
      else
        var q := p.runq + [p.cur.value];
        System(p.(cur := Some(q[0]), runq := q[1..]), InThread(true))
    case ExitStep =>
      System(p.(freeq := [p.cur.value] + p.freeq, cur := p.scheduler), InScheduler)
    case ScheduleStep =>
      if p.runq == [] then s.(mode := Rebooted)
      else System(p.(cur := Some(p.runq[0]), runq := p.runq[1..]), InThread(true))
  }

  // ----- refinement of the cooperative package

  /** The cooperative state: a scheduler that has been entered will take the front of the run queue. */
  function Abstract<B>(s: System<B>): Package<B> {
    if s.mode.InScheduler? && s.pkg.runq != []
    then s.pkg.(cur := Some(s.pkg.runq[0]), runq := s.pkg.runq[1..])
    else s.pkg
  }

  /** A timer interrupt is a cooperative yield; the scheduler's own step is not visible. */
  function AbstractStep<B>(step: Step<B>): (ops: seq<Op<B>>)
    ensures |ops| <= 1
  {
    match step
    case ForkStep(spare) => [ForkOp(spare)]
    case StartStep(spare) => [StartOp(spare)]
    case TimerStep => [YieldOp]
    case YieldStep => [YieldOp]
    case ExitStep => [ExitOp]
    case ScheduleStep => []
  }

  function AbstractSteps<B>(steps: seq<Step<B>>): seq<Op<B>> {
    if steps == [] then [] else AbstractStep(steps[0]) + AbstractSteps(steps[1..])
  }

  /** Each step keeps every block in one place. */
  lemma StepKeepsValid<B>(s: System<B>, step: Step<B>)
    requires s.Valid() && Enabled(s, step)
    ensures Do(s, step).Valid()
  {
    hide Alloc, Package.Census, Package.Conserved;
    var p, t := s.pkg, Do(s, step);
    SchedulerKnown(p);
    match step
    case ForkStep(spare) => ForkConserves(p, spare);
    case StartStep(spare) =>
      if p.runq != [] {
        SchedulerEntered(p, spare);
      }
    case TimerStep => LeaveConserves(p, t.pkg);
    case YieldStep =>
      if p.runq != [] {
        var q := p.(runq := p.runq + [p.cur.value], cur := p.scheduler);
        LeaveConserves(p, q);
        SwitchConserves(q);
      }
    case ExitStep => LeaveConserves(p, t.pkg);
    case ScheduleStep =>
      if p.runq != [] {
        SwitchConserves(p);
      }
  }

  lemma SchedulerKnown<B>(p: Package<B>)
    requires p.Conserved()
    ensures p.cur.Some? ==> p.scheduler.Some?
  {}

  lemma SchedulerEntered<B>(p: Package<B>, spare: B)
    requires p.Conserved() && Unused(p, spare) && p.scheduler.None?
    ensures var (q, b) := Alloc(p, spare);
            q.(scheduler := Some(b), cur := Some(b)).Conserved()
  {
    WithScheduler(p, spare);
    var (q, b) := Alloc(p, spare);
    assert q.(scheduler := Some(b), cur := Some(b)).Census() == q.(scheduler := Some(b)).Census();
  }

  /**
   Each step does to the cooperative state what the matching cooperative operation
   does, down to the empty run queue, and the scheduler's own step does nothing to it.
   */
  lemma StepSimulates<B>(s: System<B>, step: Step<B>)
    requires s.Valid() && Enabled(s, step)
    ensures var ops := AbstractStep(step);
            if ops == [] then Abstract(Do(s, step)) == Abstract(s)
            else Allowed(Abstract(s), ops[0]) && Threads.Do(Abstract(s), ops[0]) == Abstract(Do(s, step))
  {
    hide Alloc, Package.Census;
    if (step.TimerStep? || step.YieldStep?) {
      YieldByScheduler(s.pkg);
    }
  }

  /** Appending the current thread and then popping is a yield, whether or not the queue was empty. */
  lemma YieldByScheduler<B>(p: Package<B>)
    requires p.cur.Some?
    ensures var q := p.runq + [p.cur.value];
            p.(cur := Some(q[0]), runq := q[1..]) == Yield(p)
  {
    var q := p.runq + [p.cur.value];
    if p.runq == [] {
      assert q[1..] == [];
    } else {
      assert q[1..] == p.runq[1..] + [p.cur.value];
    }
  }

  ghost predicate EnabledRun<B>(s: System<B>, steps: seq<Step<B>>)
    requires s.Valid()
    decreases |steps|
  {
    steps == [] ||
    (Enabled(s, steps[0]) && (StepKeepsValid(s, steps[0]); EnabledRun(Do(s, steps[0]), steps[1..])))
  }

  ghost function Run<B>(s: System<B>, steps: seq<Step<B>>): (t: System<B>)
    requires s.Valid() && EnabledRun(s, steps)
    ensures t.Valid()
    decreases |steps|
  {
    if steps == [] then s else
    StepKeepsValid(s, steps[0]);
    Run(Do(s, steps[0]), steps[1..])
  }

  /** Every run of the preemptive package is, block for block, a run of the cooperative one. */
  lemma {:induction false} RunRefines<B>(s: System<B>, steps: seq<Step<B>>)
    requires s.Valid() && EnabledRun(s, steps)
    ensures AllowedRun(Abstract(s), AbstractSteps(steps))
    ensures Threads.Run(Abstract(s), AbstractSteps(steps)) == Abstract(Run(s, steps))
    decreases |steps|
  {
    hide Do, Threads.Do, Enabled, Allowed, Abstract, AbstractStep, System.Valid;
    if steps != [] {
      StepKeepsValid(s, steps[0]);
      StepSimulates(s, steps[0]);
      RunRefines(Do(s, steps[0]), steps[1..]);
      var first, rest := AbstractStep(steps[0]), AbstractSteps(steps[1..]);
      if first == [] {
        assert first + rest == rest;
      } else {
        assert (first + rest)[0] == first[0] && (first + rest)[1..] == rest;
      }
    }
  }

  /** The system before anything has been forked. */
  function NewSystem<B>(): (s: System<B>)
    ensures s.Valid()
  {
    InitialHolds<B>();
    System(Initial(), MainProgram)
  }

  /** A preemptive system from its start: the same states as a cooperative system from its start. */
  lemma EveryRunRefines<B>(steps: seq<Step<B>>)
    requires EnabledRun(NewSystem(), steps)
    ensures AllowedRun(Initial(), AbstractSteps(steps))
    ensures Threads.Run(Initial(), AbstractSteps(steps)) == Abstract(Run(NewSystem(), steps))
    ensures Run(NewSystem(), steps).pkg.Conserved()
  {
    RunRefines(NewSystem(), steps);
  }

  /**
   Preemption keeps the bound on waiting: position i moves up with each switch, and runs
   with switch number i + 1, timer or not.
   */
  lemma PreemptiveWaitsItsTurn<B>(s: System<B>, steps: seq<Step<B>>, i: nat)
    requires s.Valid() && EnabledRun(s, steps) && i < |Abstract(s).runq|
    requires forall step :: step in steps ==> !step.StartStep?
    ensures var p, q, k := Abstract(s), Abstract(Run(s, steps)), Switches(AbstractSteps(steps));
            && (k <= i ==> i - k < |q.runq| && q.runq[i - k] == p.runq[i])
            && (k == i + 1 ==> q.cur == Some(p.runq[i]))
  {
    hide AllowedRun, EnabledRun, AbstractStep, AbstractSteps, Switches, System.Valid, Abstract;
    RunRefines(s, steps);
    AbstractOps(steps);
    WaitsItsTurn(Abstract(s), AbstractSteps(steps), i);
  }

  lemma {:induction false} AbstractOps<B>(steps: seq<Step<B>>)
    requires forall step :: step in steps ==> !step.StartStep?
    ensures forall op :: op in AbstractSteps(steps) ==> !op.StartOp?
  {
    hide AbstractStep;
    if steps != [] {
      assert forall step :: step in steps[1..] ==> step in steps;
      AbstractOps(steps[1..]);
      NotStart(steps[0]);
      var first, rest := AbstractStep(steps[0]), AbstractSteps(steps[1..]);
      assert forall op :: op in first + rest ==> op in first || op in rest;
    }
  }

  lemma NotStart<B>(step: Step<B>)
    requires !step.StartStep?
    ensures forall op :: op in AbstractStep(step) ==> !op.StartOp?
  {}

  // ----- why the scheduler must not be interrupted

  /** What save_context does to the package, whichever thread the timer has interrupted. */
  function SaveContext<B>(p: Package<B>): Package<B>
    requires p.cur.Some?
  {
    p.(runq := p.runq + [p.cur.value], cur := p.scheduler)
  }

  /**
   save_context keeps every block in one place if and only if it has interrupted a
   forked thread; the scheduler's own block would be on the run queue as well.
   */
  lemma SaveContextConserves<B>(p: Package<B>)
    requires p.Conserved() && p.cur.Some?
    ensures SaveContext(p).Conserved() <==> p.Running()
  {
    var q := SaveContext(p);
    if p.Running() {
      LeaveConserves(p, q);
    } else {
      var b := p.scheduler.value;
      assert multiset(q.runq)[b] >= 1;
      assert q.Census()[b] >= 2;
      assert multiset(q.tids.Keys)[b] <= 1;
    }
  }

  // ----- the one difference

  /** rpi_yield returns to a running thread with interrupts on exactly when it had another thread to switch to. */
  lemma YieldInterrupts<B>(s: System<B>)
    requires s.Valid() && s.mode.InThread?
    ensures Do(s, YieldStep) == System(Yield(s.pkg), InThread(s.pkg.runq != []))
  {
    YieldByScheduler(s.pkg);
  }

  /** Interrupts are off in a thread now and after each of the steps. */
  ghost predicate StaysOff<B>(s: System<B>, steps: seq<Step<B>>)
    requires s.Valid() && EnabledRun(s, steps)
    decreases |steps|
  {
    && s.mode == InThread(false)
    && (steps == [] || (StepKeepsValid(s, steps[0]); StaysOff(Do(s, steps[0]), steps[1..])))
  }

  /** The thread gives up the processor: it exits, or yields while another one is runnable. */
  predicate GivesUp<B>(s: System<B>, step: Step<B>) {
    step.ExitStep? || (step.YieldStep? && s.pkg.runq != [])
  }

  ghost predicate GivesUpIn<B>(s: System<B>, steps: seq<Step<B>>)
    requires s.Valid() && EnabledRun(s, steps)
    decreases |steps|
  {
    steps != [] && (GivesUp(s, steps[0]) || (StepKeepsValid(s, steps[0]); GivesUpIn(Do(s, steps[0]), steps[1..])))
  }

  lemma {:induction false} OffUntilGivenUp<B>(s: System<B>, steps: seq<Step<B>>)
    requires s.Valid() && s.mode == InThread(false) && EnabledRun(s, steps)
    ensures StaysOff(s, steps) <==> !GivesUpIn(s, steps)
    ensures StaysOff(s, steps) ==> TimerStep !in steps
    decreases |steps|
  {
    hide System.Valid, Alloc;
    if steps != [] {
      var step := steps[0];
      StepKeepsValid(s, step);
      var t := Do(s, step);
      if GivesUp(s, step) {
        assert t.mode != InThread(false);
      } else {
        assert t.mode == InThread(false);
        OffUntilGivenUp(t, steps[1..]);
      }
      assert steps == [step] + steps[1..];
    }
  }

  function Yielded<B>(s: System<B>): (t: System<B>)
    requires s.Valid() && s.mode.InThread?
    ensures t.Valid()
  {
    StepKeepsValid(s, YieldStep);
    Do(s, YieldStep)
  }

  /**
   rpi_yield on an empty run queue turns interrupts off for good: they stay off, and no
   timer interrupt comes, exactly as long as the thread neither exits nor yields while
   another thread is runnable. Further lone yields do not help.
   */
  lemma LoneYieldStopsTimer<B>(s: System<B>, steps: seq<Step<B>>)
    requires s.Valid() && s.mode.InThread? && s.pkg.runq == [] && EnabledRun(Yielded(s), steps)
    ensures StaysOff(Yielded(s), steps) <==> !GivesUpIn(Yielded(s), steps)
    ensures StaysOff(Yielded(s), steps) ==> TimerStep !in steps
  {
    YieldInterrupts(s);
    OffUntilGivenUp(Yielded(s), steps);
  }
}
