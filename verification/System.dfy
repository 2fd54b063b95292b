/**
 * Scheduler and memory together: every process step with the memory operation that the
 * same code performs, interleaved with what running processes do to their memory.
 */
module System {
  import P = Processes
  import PI = ProcessInvariants
  import PT = ProcessTheorems
  import M = Memory
  import MS = MemorySteps
  import MT = MemoryTheorems

  datatype Sys = Sys(ps: P.State, vm: M.Vm)

  /** A kernel call that schedules, or anything else that the running process does to memory. */
  datatype Event = Call(e: P.Step) | Touch(m: MS.Step)

  /** Steps that create, end or switch no process. */
  predicate IsLocal(m: MS.Step) {
    m.Brk? || m.KernelBrk? || m.Exec? || m.StoreUser? || m.StoreStack?
  }

  /** The memory operation that goes with a process step from ps to ps'. */
  ghost predicate Follows(ps: P.State, e: P.Step, vm: M.Vm, ps': P.State, vm': M.Vm)
    requires M.Shaped(vm) && ps.curr in ps.procs
  {
    if e.Fork? then MS.Next(vm, MS.Fork(e.child), vm')
    else if e.Exit? then MS.Next(vm, MS.Exit(ps'.curr), vm')
    else if !PT.Switches(ps, e) || (ps.curr == ps.idle && P.Requeued(ps) == []) then vm' == vm
    else MS.Next(vm, MS.Switch(ps'.curr), vm')
  }

  ghost predicate Next(s: Sys, ev: Event, s': Sys)
    requires M.Shaped(s.vm) && s.ps.curr in s.ps.procs
  {
    match ev
    case Call(e) =>
      P.Enabled(s.ps, e) && P.Take(s.ps, e) == P.Ok(s'.ps) && Follows(s.ps, e, s.vm, s'.ps, s'.vm)
    case Touch(m) =>
      s'.ps == s.ps && IsLocal(m) && MS.Next(s.vm, m, s'.vm)
  }

  /** Both sides agree on who runs, and exactly the live processes have an address space. */
  ghost predicate Matched(s: Sys) {
    && s.vm.curr == s.ps.curr
    && forall p :: p in s.vm.spaces <==> PI.Live(s.ps, p)
  }

  ghost predicate Good(s: Sys) {
    PI.Inv(s.ps) && M.Inv(s.vm) && Matched(s)
  }

  lemma SomebodyRuns(s: P.State)
    requires PI.Inv(s)
    ensures PI.Live(s, s.curr)
  {
  }

  /** A call of the scheduler neither creates nor ends a process. */
  lemma LiveAfterSwitch(b: P.State)
    requires P.SwitchToNext(b).Ok?
    ensures forall p :: PI.Live(P.SwitchToNext(b).state, p) <==> PI.Live(b, p)
    ensures b.curr == b.idle && P.Requeued(b) == [] ==> P.SwitchToNext(b).state.curr == b.curr
  {
    PT.SwitchEffect(b);
  }

  lemma LiveAfterFork(s: P.State, child: P.Pid)
    requires PI.Inv(s) && child !in s.procs && P.ForkStep(s, child).Ok?
    ensures var s' := P.ForkStep(s, child).state;
      s'.curr == s.curr && forall p :: PI.Live(s', p) <==> PI.Live(s, p) || p == child
  {
    PI.OnePlace(s, child);
  }

  lemma LiveAfterLeave(s: P.State, status: int)
    requires PI.Inv(s) && s.curr != s.idle && P.Leave(s, status).Ok?
    ensures forall p :: PI.Live(P.Leave(s, status).state, p) <==> PI.Live(s, p) && p != s.curr
  {
    PI.ParentOfRunning(s);
  }

  lemma LiveAfterWait(s: P.State)
    requires PI.Inv(s) && P.WaitStep(s).Ok?
    ensures forall p :: PI.Live(P.WaitStep(s).state, p) <==> PI.Live(s, p)
    ensures !PT.Switches(s, P.Wait) ==> P.WaitStep(s).state.curr == s.curr
  {
    hide P.SwitchToNext;
    if PT.Switches(s, P.Wait) {
      LiveAfterSwitch(P.Block(s));
    }
  }

  /** Which processes are alive after a step, and that a step without a switch keeps the running one. */
  lemma LiveAfter(s: P.State, e: P.Step)
    requires PI.Inv(s) && P.Enabled(s, e)
    ensures P.Take(s, e).Ok? && PI.Inv(P.Take(s, e).state)
    ensures var s' := P.Take(s, e).state;
      match e
      case Fork(child) =>
        !PI.Live(s, child) && s'.curr == s.curr
        && forall p :: PI.Live(s', p) <==> PI.Live(s, p) || p == child
      case Exit(_) =>
        s'.curr != s.curr && forall p :: PI.Live(s', p) <==> PI.Live(s, p) && p != s.curr
      case _ => forall p :: PI.Live(s', p) <==> PI.Live(s, p)
    ensures (e.Tick? || e.Wait?) && (!PT.Switches(s, e) || (s.curr == s.idle && P.Requeued(s) == [])) ==>
      P.Take(s, e).state.curr == s.curr
  {
    PI.StepSafe(s, e);
    var s' := P.Take(s, e).state;
    SomebodyRuns(s');
    hide PI.Inv, P.SwitchToNext, P.ForkStep, P.WaitStep, P.Leave, P.Requeued;
    match e
    case Tick => LiveAfterSwitch(s);
    case Fork(child) => LiveAfterFork(s, child);
    case Exit(status) =>
      LiveAfterLeave(s, status);
      LiveAfterSwitch(P.Leave(s, status).state);
    case Wait => LiveAfterWait(s);
  }

  /** The memory operation of every enabled process step finds the processes it needs. */
  lemma MemoryIsReady(s: Sys, e: P.Step)
    requires Good(s) && P.Enabled(s.ps, e)
    ensures P.Take(s.ps, e).Ok?
    ensures e.Fork? ==> e.child !in s.vm.spaces
    ensures P.Take(s.ps, e).state.curr in s.vm.spaces || e.Fork?
    ensures e.Exit? ==> P.Take(s.ps, e).state.curr != s.vm.curr
  {
    LiveAfter(s.ps, e);
    SomebodyRuns(P.Take(s.ps, e).state);
  }

  lemma LocalKeepsSpaces(vm: M.Vm, m: MS.Step, vm': M.Vm)
    requires M.Shaped(vm) && IsLocal(m) && MS.Next(vm, m, vm')
    ensures vm'.curr == vm.curr && vm'.spaces.Keys == vm.spaces.Keys
  {
  }

  /** The one call after which the memory invariant is lost. */
  predicate Overruns(ev: Event) {
    ev.Touch? && MS.Overruns(ev.m)
  }

  lemma StepMatches(s: Sys, ev: Event, s': Sys)
    requires Good(s) && Next(s, ev, s')
    ensures Matched(s')
  {
    hide P.Take, PT.Switches, P.Requeued, M.Grows, M.CopiesPages, M.CopiesStack;
    match ev
    case Touch(m) => LocalKeepsSpaces(s.vm, m, s'.vm);
    case Call(e) => LiveAfter(s.ps, e);
  }

  lemma StepKeeps(s: Sys, ev: Event, s': Sys)
    requires Good(s) && Next(s, ev, s')
    ensures Good(s') <==> !Overruns(ev)
  {
    StepMatches(s, ev, s');
    hide M.Inv, PI.Inv, Matched, MS.Next;
    match ev
    case Touch(m) => MS.NextKeeps(s.vm, m, s'.vm);
    case Call(e) =>
      LiveAfter(s.ps, e);
      match e
      case Fork(child) => MS.NextKeeps(s.vm, MS.Fork(child), s'.vm);
      case Exit(_) => MS.NextKeeps(s.vm, MS.Exit(s'.ps.curr), s'.vm);
      case _ => if s'.vm != s.vm { MS.NextKeeps(s.vm, MS.Switch(s'.ps.curr), s'.vm); }
  }

  // ------------------------------------------------------------ whole runs

  ghost predicate IsRun(run: seq<Sys>, events: seq<Event>) {
    && |run| == |events| + 1
    && forall i {:trigger events[i]} :: 0 <= i < |events| ==>
        M.Shaped(run[i].vm) && run[i].ps.curr in run[i].ps.procs && Next(run[i], events[i], run[i + 1])
  }

  /** KernelStart: idle runs in its one page, init waits and has been cloned from idle. */
  ghost predicate Started(s: Sys, idle: P.Pid, init: P.Pid) {
    && idle != init && s.ps == P.Boot(idle, init)
    && MS.Started(s.vm, idle, init)
  }

  lemma StartIsGood(s: Sys, idle: P.Pid, init: P.Pid)
    requires Started(s, idle, init)
    ensures Good(s)
  {
    hide M.Inv, PI.Inv, M.Grows, M.CopiesPages, M.CopiesStack;
    var vm :| MS.Booted(vm, idle) && M.Shaped(vm) && MS.Next(vm, MS.Boot(init), s.vm);
    MS.BootKeeps(vm, idle);
    MS.NextKeeps(vm, MS.Boot(init), s.vm);
    PI.BootKeeps(idle, init);
  }

  /**
   * In every state of every run from KernelStart without overrun the invariants of scheduler and memory hold,
   * and exactly the live processes have an address space and a kernel stack.
   */
  lemma {:induction false} RunIsGood(run: seq<Sys>, events: seq<Event>, idle: P.Pid, init: P.Pid, n: nat)
    requires IsRun(run, events) && Started(run[0], idle, init) && n <= |events|
    requires forall i :: 0 <= i < n ==> !Overruns(events[i])
    ensures Good(run[n])
  {
    if n == 0 {
      StartIsGood(run[0], idle, init);
    } else {
      RunIsGood(run, events, idle, init, n - 1);
      assert Next(run[n - 1], events[n - 1], run[n]);
      StepKeeps(run[n - 1], events[n - 1], run[n]);
    }
  }

  lemma StepIsolates(s: Sys, ev: Event, s': Sys, p: P.Pid)
    requires Good(s) && Next(s, ev, s') && PI.Live(s.ps, p) && p != s.ps.curr
    ensures M.Shaped(s'.vm) && MT.Untouched(s.vm, s'.vm, p)
  {
    match ev
    case Touch(m) => MT.StepIsolates(s.vm, m, s'.vm, p);
    case Call(e) =>
      match e
      case Fork(child) => MT.StepIsolates(s.vm, MS.Fork(child), s'.vm, p);
      case Exit(_) => MT.StepIsolates(s.vm, MS.Exit(s'.ps.curr), s'.vm, p);
      case _ =>
        if s'.vm == s.vm { MT.UntouchedRefl(s.vm, p); }
        else { MT.StepIsolates(s.vm, MS.Switch(s'.ps.curr), s'.vm, p); }
  }

  /** A process that does not run stays alive, and nobody touches its pages. */
  lemma StepLeaves(s: Sys, ev: Event, s': Sys, p: P.Pid)
    requires Good(s) && Next(s, ev, s') && PI.Live(s.ps, p) && p != s.ps.curr
    ensures PI.Live(s'.ps, p) && M.Shaped(s'.vm) && MT.Untouched(s.vm, s'.vm, p)
  {
    StepIsolates(s, ev, s', p);
    hide M.Inv, MS.Next, MT.Untouched, P.Take;
    if ev.Call? {
      LiveAfter(s.ps, ev.e);
    }
  }

  lemma GoodLeaves(s: Sys, p: P.Pid)
    requires Good(s)
    ensures M.Shaped(s.vm) && MT.Untouched(s.vm, s.vm, p)
  {
    MT.UntouchedRefl(s.vm, p);
  }

  lemma RunHasShape(run: seq<Sys>, events: seq<Event>, n: nat)
    requires IsRun(run, events) && n <= |events|
    ensures |run| == |events| + 1
  {
  }

  lemma StepOf(run: seq<Sys>, events: seq<Event>, n: nat)
    requires IsRun(run, events) && n < |events|
    ensures M.Shaped(run[n].vm) && run[n].ps.curr in run[n].ps.procs && Next(run[n], events[n], run[n + 1])
  {
    hide Next;
    var ev := events[n];
  }

  /**
   * A process that is preempted, blocked in Wait or not yet started finds, when it is
   * dispatched, the kernel stack and the Region 1 pages that it had, whatever calls and
   * stores the others have made in between. It cannot die while it does not run.
   */
  lemma {:induction false} DispatchedAsLeft(run: seq<Sys>, events: seq<Event>, idle: P.Pid, init: P.Pid,
                                            m: nat, n: nat, p: P.Pid)
    requires IsRun(run, events) && Started(run[0], idle, init) && m <= n <= |events|
    requires forall i :: 0 <= i < n ==> !Overruns(events[i])
    requires PI.Live(run[m].ps, p) && forall i {:trigger run[i]} :: m <= i < n ==> run[i].ps.curr != p
    ensures PI.Live(run[n].ps, p)
    ensures M.Shaped(run[m].vm) && M.Shaped(run[n].vm) && MT.Untouched(run[m].vm, run[n].vm, p)
    decreases n
  {
    hide *;
    RunHasShape(run, events, n);
    RunIsGood(run, events, idle, init, m);
    if m == n {
      GoodLeaves(run[m], p);
    } else {
      DispatchedAsLeft(run, events, idle, init, m, n - 1, p);
      RunIsGood(run, events, idle, init, n - 1);
      StepOf(run, events, n - 1);
      StepLeaves(run[n - 1], events[n - 1], run[n], p);
      MT.UntouchedTwice(run[m].vm, run[n - 1].vm, run[n].vm, p);
    }
  }
}
