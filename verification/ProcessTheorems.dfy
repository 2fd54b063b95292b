/** What the scheduler and the fork, exit and wait calls promise over whole runs. */
module ProcessTheorems {
  import opened Fifo
  import opened Processes
  import opened ProcessInvariants

  // ------------------------------------------------------------ places

  /** A created process is idle, or exactly one of running, ready, blocked and defunct. */
  lemma ExactlyOnePlace(s: State, p: Pid)
    requires Reachable(s) && p in s.procs
    ensures p == s.idle ==> p !in s.ready && p !in s.blocked && p !in s.defunct
    ensures p != s.idle ==>
      multiset(s.ready)[p] + multiset(s.blocked)[p] + multiset(s.defunct)[p]
      + (if p == s.curr then 1 else 0) == 1
  {
    ReachableInv(s);
    OnePlace(s, p);
    assert Placed(s)[p] == if p == s.idle then 0 else 1;
  }

  /** Child queues and parent pointers agree in both directions. */
  lemma ChildIffAliveWithParent(s: State, p: Pid, c: Pid)
    requires Reachable(s) && Live(s, p)
    ensures c in s.procs[p].children <==> Live(s, c) && s.procs[c].parent == Some(p)
    ensures NoDup(s.procs[p].children)
  {
    ReachableInv(s);
    assert Kin(s, p);
  }

  // ------------------------------------------------------------ the shape of a step

  /** The steps that end in switch_to_next_ready_process. */
  predicate Switches(s: State, e: Step)
    requires s.curr in s.procs
  {
    match e
    case Tick => true
    case Fork(_) => false
    case Exit(_) => true
    case Wait => s.procs[s.curr].children != [] && s.procs[s.curr].deceased == []
  }

  /** The state in which such a step calls the scheduler. */
  function BeforeSwitch(s: State, e: Step): State
    requires s.curr in s.procs
  {
    match e
    case Tick => s
    case Fork(_) => s
    case Exit(status) => if Leave(s, status).Ok? then Leave(s, status).state else s
    case Wait => Block(s)
  }

  lemma SwitchEffect(b: State)
    requires SwitchToNext(b).Ok?
    ensures var s', d := SwitchToNext(b).state, Dispatch(b);
            && s'.curr == d.curr && s'.idle == b.idle
            && s'.ready == d.ready && s'.blocked == b.blocked && s'.defunct == b.defunct
            && s'.procs.Keys == b.procs.Keys
  {
  }

  /** The current process and the ready queue come from the scheduler, called in a good state b. */
  ghost predicate Scheduled(s: State, b: State, s': State) {
    && Base(b) && SwitchToNext(b) == Ok(s')
    && b.curr == s.curr && b.idle == s.idle && s.ready <= b.ready
    && s'.curr == Dispatch(b).curr && s'.ready == Dispatch(b).ready && s'.idle == s.idle
  }

  lemma CallsScheduler(s: State, b: State)
    requires Base(b) && SwitchToNext(b).Ok?
    requires b.curr == s.curr && b.idle == s.idle && s.ready <= b.ready
    ensures Scheduled(s, b, SwitchToNext(b).state)
  {
    hide Base;
    SwitchEffect(b);
  }

  /** A step keeps the order of the ready queue, adds at its tail, and takes its head if it switches. */
  lemma StepShape(s: State, e: Step)
    requires Inv(s) && Enabled(s, e)
    ensures Take(s, e).Ok?
    ensures Switches(s, e) ==> Scheduled(s, BeforeSwitch(s, e), Take(s, e).state)
    ensures !Switches(s, e) ==>
      var s' := Take(s, e).state;
      s'.curr == s.curr && s'.curr != s.idle && s'.idle == s.idle && s.ready <= s'.ready
  {
    StepSafe(s, e);
    hide SwitchToNext, Base, Scheduled, Leave, Reap;
    match e
    case Tick =>
      CallsScheduler(s, s);
    case Fork(_) =>
    case Exit(status) =>
      LeaveKeeps(s, status);
      CallsScheduler(s, Leave(s, status).state);
    case Wait =>
      if Switches(s, e) {
        BlockKeeps(s);
        CallsScheduler(s, Block(s));
      } else {
        ReapStays(s);
      }
  }

  lemma ReapStays(s: State)
    requires s.curr in s.procs
    ensures Reap(s).Ok? ==>
      Reap(s).state == s.(procs := Reap(s).state.procs)
  {
  }

  // ------------------------------------------------------------ progress

  /** From any live process a chain of live children leads to one that is not blocked. */
  lemma {:induction false} Progress(s: State, p: Pid) returns (r: Pid)
    requires Inv(s) && Live(s, p) && p != s.idle
    ensures Live(s, r) && r != s.idle && (r == s.curr || r in s.ready)
    decreases |s.procs| - s.procs[p].birth
  {
    OnePlace(s, p);
    assert Descends(s, p) && Waits(s, p);
    if p in s.blocked {
      var c := s.procs[p].children[0];
      assert c in s.procs[p].children;
      assert Kin(s, p) && Descends(s, c);
      r := Progress(s, c);
    } else {
      r := p;
    }
  }

  /** While any process other than idle is alive, one of them runs or is ready. */
  lemma SomebodyCanRun(s: State, p: Pid) returns (r: Pid)
    requires Reachable(s) && Live(s, p) && p != s.idle
    ensures Live(s, r) && r != s.idle && (r == s.curr || r in s.ready)
  {
    ReachableInv(s);
    r := Progress(s, p);
  }

  lemma ReadyEmptyWhenIdle(s: State, e: Step)
    requires Inv(s) && Enabled(s, e)
    ensures Take(s, e).Ok?
    ensures Take(s, e).state.curr == s.idle ==> Take(s, e).state.ready == []
    ensures Take(s, e).state.idle == s.idle
  {
    StepSafe(s, e);
    StepShape(s, e);
    if Switches(s, e) {
      OnePlace(BeforeSwitch(s, e), s.idle);
    }
  }

  /** The scheduler falls back to idle only when no other process is alive. */
  lemma IdleOnlyWhenAllAreDead(s: State, e: Step, p: Pid)
    requires Reachable(s) && Enabled(s, e)
    ensures Take(s, e).Ok?
    ensures Take(s, e).state.curr == s.idle && Live(Take(s, e).state, p) ==> p == s.idle
  {
    ReachableInv(s);
    StepSafe(s, e);
    ReadyEmptyWhenIdle(s, e);
    var s' := Take(s, e).state;
    if s'.curr == s.idle && Live(s', p) && p != s.idle {
      var r := Progress(s', p);
      assert false;
    }
  }

  // ------------------------------------------------------------ bounded waiting

  /** Number of scheduler dispatches in a run. */
  function Dispatches(s: State, steps: seq<Step>): nat
    decreases |steps|
  {
    if steps == [] || s.curr !in s.procs || Take(s, steps[0]).Crash? then 0
    else (if Switches(s, steps[0]) then 1 else 0) + Dispatches(Take(s, steps[0]).state, steps[1..])
  }

  /** One step moves a ready process forward by one place exactly when it dispatches. */
  lemma MovesUp(s: State, e: Step, i: nat)
    requires Inv(s) && Enabled(s, e) && i < |s.ready|
    ensures Take(s, e).Ok?
    ensures var s' := Take(s, e).state;
            if !Switches(s, e) then i < |s'.ready| && s'.ready[i] == s.ready[i]
            else if i == 0 then s'.curr == s.ready[0]
            else i - 1 < |s'.ready| && s'.ready[i - 1] == s.ready[i]
  {
    StepShape(s, e);
    if Switches(s, e) {
      var b := BeforeSwitch(s, e);
      assert Requeued(b)[i] == b.ready[i] == s.ready[i];
    }
  }

  lemma {:induction false} StaysInLine(s: State, steps: seq<Step>, i: nat)
    requires Inv(s) && EnabledRun(s, steps) && i < |s.ready| && Dispatches(s, steps) <= i
    ensures Run(s, steps).Ok?
    ensures var s', d := Run(s, steps).state, Dispatches(s, steps);
            i - d < |s'.ready| && s'.ready[i - d] == s.ready[i]
    decreases |steps|
  {
    hide Take, Switches, Enabled, Base;
    if steps != [] {
      StepSafe(s, steps[0]);
      MovesUp(s, steps[0], i);
      var s1 := Take(s, steps[0]).state;
      StaysInLine(s1, steps[1..], if Switches(s, steps[0]) then i - 1 else i);
    }
  }

  /** A process at index i of the ready queue runs right after dispatch number i + 1, never earlier. */
  lemma BoundedWaiting(s: State, before: seq<Step>, e: Step, i: nat)
    requires Reachable(s) && i < |s.ready|
    requires EnabledRun(s, before) && Dispatches(s, before) == i
    requires Run(s, before).Ok? ==> Enabled(Run(s, before).state, e)
    ensures Run(s, before).Ok? && Run(s, before).state.curr != s.ready[i]
    ensures var m := Run(s, before).state;
            Take(m, e).Ok? && (Switches(m, e) ==> Take(m, e).state.curr == s.ready[i])
  {
    hide Take, Switches, Base, Run, EnabledRun;
    ReachableInv(s);
    RunSafe(s, before);
    StaysInLine(s, before, i);
    var m := Run(s, before).state;
    ReadyIsNotRunning(m, s.ready[i]);
    MovesUp(m, e, 0);
  }

  lemma ReadyIsNotRunning(s: State, p: Pid)
    requires Inv(s) && p in s.ready
    ensures p != s.curr
  {
    OnePlace(s, p);
  }

  // ------------------------------------------------------------ wait

  /** Whoever is blocked has nothing to reap and a live child that was born later. */
  lemma BlockedHasLiveChild(s: State, p: Pid) returns (c: Pid)
    requires Reachable(s) && p in s.blocked
    ensures Live(s, p) && s.procs[p].deceased == []
    ensures c in s.procs[p].children && Live(s, c) && s.procs[c].parent == Some(p)
    ensures s.procs[p].birth < s.procs[c].birth
  {
    ReachableInv(s);
    OnePlace(s, p);
    assert Waits(s, p) && Kin(s, p);
    c := s.procs[p].children[0];
    assert c in s.procs[p].children;
    assert Descends(s, c);
  }

  /**
   * Between the call of the scheduler in b and the end of the step in s', a process
   * dispatched inside Wait has taken its first deceased child with its exit code.
   */
  ghost predicate Collected(b: State, s': State) {
    && s'.curr in b.procs && s'.curr in s'.procs
    && (b.procs[s'.curr].cont == InWait ==>
          var q := b.procs[s'.curr].deceased;
          && q != [] && q[0] in b.procs
          && s'.procs[s'.curr].response == WaitReturned(q[0], b.procs[q[0]].exitCode)
          && s'.procs[s'.curr].deceased == q[1..])
  }

  lemma ResumedWaiter(b: State)
    requires Base(b) && SwitchToNext(b).Ok?
    ensures Collected(b, SwitchToNext(b).state)
  {
    SwitchEffect(b);
    DispatchKeeps(b);
    var d := Dispatch(b);
    assert Waits(d, d.curr) && Waits(d, d.idle) && Descends(d, d.idle) && Booked(d, d.curr);
    if d.procs[d.curr].cont == InWait {
      assert d.procs[d.curr].deceased[0] in d.procs[d.curr].deceased;
    }
  }

  /** A process that sleeps in Wait and is dispatched gets a child, never the error. */
  lemma WokenWaiterReaps(s: State, e: Step)
    requires Reachable(s) && Enabled(s, e)
    ensures Take(s, e).Ok?
    ensures s.curr in s.procs
    ensures Switches(s, e) ==> Collected(BeforeSwitch(s, e), Take(s, e).state)
  {
    hide Collected, Base, Take, Switches;
    ReachableInv(s);
    StepShape(s, e);
    if Switches(s, e) {
      ResumedWaiter(BeforeSwitch(s, e));
    }
  }

  /** Wait fails exactly when the caller has no child at all, and otherwise returns or blocks. */
  lemma WaitOutcome(s: State)
    requires Reachable(s) && s.curr != s.idle
    ensures Take(s, Wait).Ok? && s.curr in s.procs
    ensures var me, s' := s.procs[s.curr], Take(s, Wait).state;
      && s.curr in s'.procs
      && (me.children == [] && me.deceased == [] ==>
            s' == s.(procs := s.procs[s.curr := me.(response := WaitError)]))
      && (me.deceased != [] ==>
            && me.deceased[0] in s.procs
            && var child, code := me.deceased[0], s.procs[me.deceased[0]].exitCode;
            s' == s.(procs := s.procs[s.curr := me.(response := WaitReturned(child, code),
                                                    deceased := me.deceased[1..],
                                                    reaped := me.reaped + [(child, code)])]))
      && (me.children != [] && me.deceased == [] ==>
            s.curr in s'.blocked && s'.curr != s.curr)
  {
    ReachableInv(s);
    StepSafe(s, Wait);
    var me := s.procs[s.curr];
    if me.children != [] && me.deceased == [] {
      BlockKeeps(s);
      SwitchEffect(Block(s));
      DispatchPlaces(Block(s));
    }
  }

  /**
   * The children a live process ever had are the live ones, those waiting to be
   * reaped and those reaped; each was reaped at most once, in exit order.
   */
  lemma ChildrenAreConserved(s: State, p: Pid)
    requires Reachable(s) && Live(s, p)
    ensures var me := s.procs[p];
      && multiset(me.forked)
         == multiset(me.children) + multiset(me.deceased) + multiset(Pids(me.reaped))
      && |me.forked| == |me.children| + |me.deceased| + |me.reaped|
      && NoDup(me.forked) && NoDup(Pids(me.exits))
      && me.reaped <= me.exits
      && me.exits == me.reaped + WithCodes(s.procs, me.deceased)
  {
    ReachableInv(s);
    assert Booked(s, p);
    var me := s.procs[p];
    assert Pids(me.exits) == Pids(me.reaped) + me.deceased;
    assert |multiset(me.forked)| == |me.forked|;
    forall c ensures multiset(Pids(me.exits))[c] <= 1 { OccursOnce(me.forked, c); }
    NoDupByCount(Pids(me.exits));
  }

  lemma {:induction false} OccursOnce(q: seq<Pid>, p: Pid)
    requires NoDup(q)
    ensures multiset(q)[p] <= 1
  {
    if q != [] {
      OccursOnce(q[1..], p);
      assert q == [q[0]] + q[1..];
      if q[0] == p {
        assert p !in q[1..];
        assert p !in multiset(q[1..]);
      }
    }
  }

  // ------------------------------------------------------------ what a step leaves alone

  /** Defunct processes stay defunct and nothing writes to their process blocks. */
  ghost predicate DeadStayDead(s: State, s': State) {
    && s.defunct <= s'.defunct
    && forall p :: p in s.defunct && p in s.procs ==> p in s'.procs && s'.procs[p] == s.procs[p]
  }

  /** What a process that returns from Wait in state s' is given. */
  function Given(s': State, p: Pid): seq<(Pid, int)> {
    if p in s'.procs && s'.procs[p].response.WaitReturned? then
      [(s'.procs[p].response.child, s'.procs[p].response.code)]
    else []
  }

  /** What the scheduler, called in b, hands to p: something only if p is dispatched inside Wait. */
  function Handed(b: State, s': State, p: Pid): seq<(Pid, int)> {
    if p == s'.curr && p in b.procs && b.procs[p].cont == InWait then Given(s', p) else []
  }

  /** What Wait returns to p in a step: p has slept in Wait and is dispatched, or its call does not block. */
  function Delivered(s: State, e: Step, p: Pid): seq<(Pid, int)>
    requires s.curr in s.procs && Take(s, e).Ok?
  {
    if Switches(s, e) then Handed(BeforeSwitch(s, e), Take(s, e).state, p)
    else if e.Wait? && p == s.curr then Given(Take(s, e).state, p)
    else []
  }

  /** A step of the running process is an exit of a child of p. */
  function ExitOf(s: State, e: Step, p: Pid): seq<(Pid, int)> {
    if e.Exit? && s.curr in s.procs && s.procs[s.curr].parent == Some(p) then [(s.curr, e.status)] else []
  }

  /** The child that p gets in a step: from its own Fork, and for idle init when it first runs. */
  function Born(s: State, e: Step, p: Pid): seq<Pid>
    requires s.curr in s.procs && Take(s, e).Ok?
  {
    if e.Fork? && p == s.curr then [e.child]
    else if Switches(s, e) then Started(BeforeSwitch(s, e), Take(s, e).state, p)
    else []
  }

  function Started(b: State, s': State, p: Pid): seq<Pid> {
    if p == b.idle && s'.curr in b.procs && b.procs[s'.curr].cont == FirstRun then [s'.curr] else []
  }

  /** The log of what Wait has returned to a process grows by exactly what Wait returns to it. */
  ghost predicate Returns(s: State, e: Step, s': State)
    requires s.curr in s.procs && Take(s, e) == Ok(s')
  {
    forall p :: p in s.procs ==> p in s'.procs && s'.procs[p].reaped == s.procs[p].reaped + Delivered(s, e, p)
  }

  /** The exits a live process has seen grow by exactly the exits of its children. */
  ghost predicate Records(s: State, e: Step, s': State) {
    forall p :: p in s.procs ==>
      && p in s'.procs
      && s'.procs[p].exits == s.procs[p].exits + (if Live(s, p) then ExitOf(s, e, p) else [])
  }

  /** The children a process ever got grow by exactly its own forks, and by init for idle. */
  ghost predicate Begets(s: State, e: Step, s': State)
    requires s.curr in s.procs && Take(s, e) == Ok(s')
  {
    forall p :: p in s.procs ==> p in s'.procs && s'.procs[p].forked == s.procs[p].forked + Born(s, e, p)
  }

  // the same for the part of a step that is a call of the scheduler in b

  ghost predicate SwitchReturns(b: State, s': State) {
    forall p :: p in b.procs ==> p in s'.procs && s'.procs[p].reaped == b.procs[p].reaped + Handed(b, s', p)
  }

  ghost predicate SwitchBegets(b: State, s': State) {
    forall p :: p in b.procs ==> p in s'.procs && s'.procs[p].forked == b.procs[p].forked + Started(b, s', p)
  }

  /** Up to the call of the scheduler nothing is returned and nobody is born. */
  ghost predicate LogsKept(s: State, b: State) {
    forall p :: p in s.procs ==>
      p in b.procs && b.procs[p].reaped == s.procs[p].reaped && b.procs[p].forked == s.procs[p].forked
  }

  lemma ResumeLogs(d: State)
    requires d.curr in d.procs && Resume(d).Ok?
    requires d.procs[d.curr].cont == InWait ==> d.procs[d.curr].deceased != []
    ensures SwitchReturns(d, Resume(d).state) && SwitchBegets(d, Resume(d).state)
  {
  }

  lemma ResumeLeaves(d: State)
    requires d.curr in d.procs && d.curr !in d.defunct && d.idle !in d.defunct && Resume(d).Ok?
    ensures DeadStayDead(d, Resume(d).state) && Records(d, Tick, Resume(d).state)
  {
  }

  lemma SwitchHistory(b: State)
    requires Base(b) && SwitchToNext(b).Ok?
    ensures DeadStayDead(b, SwitchToNext(b).state) && Records(b, Tick, SwitchToNext(b).state)
    ensures SwitchReturns(b, SwitchToNext(b).state) && SwitchBegets(b, SwitchToNext(b).state)
  {
    Dispatchable(b);
    hide Base, Resume, Dispatch;
    if b.curr != b.idle || Requeued(b) != [] {
      ResumeLogs(Dispatch(b));
      ResumeLeaves(Dispatch(b));
    }
    hide Requeued, DeadStayDead;
  }

  lemma Dispatchable(b: State)
    requires Base(b) && SwitchToNext(b).Ok?
    ensures var d := Dispatch(b);
      && d.curr in d.procs && d.curr !in d.defunct && d.idle !in d.defunct
      && (d.procs[d.curr].cont == InWait ==> d.procs[d.curr].deceased != [])
      && d == b.(curr := d.curr, ready := d.ready) && b.idle in b.procs && b.procs[b.idle].cont == User
  {
    DispatchKeeps(b);
    IdleIsNowhere(b);
    var d := Dispatch(b);
    assert Waits(d, d.curr) && Descends(b, b.idle);
  }

  lemma IdleIsNowhere(s: State)
    requires Base(s)
    ensures s.idle in s.procs && s.idle !in s.ready && s.idle !in s.blocked && s.idle !in s.defunct
  {
    OnePlace(s, s.idle);
  }

  lemma LeaveHistory(s: State, status: int)
    requires Inv(s) && s.curr != s.idle && Leave(s, status).Ok?
    ensures var b := Leave(s, status).state;
      DeadStayDead(s, b) && Records(s, Exit(status), b) && LogsKept(s, b)
  {
    ParentOfRunning(s);
  }

  lemma BlockHistory(s: State)
    requires Inv(s)
    ensures DeadStayDead(s, Block(s)) && Records(s, Wait, Block(s)) && LogsKept(s, Block(s))
  {
  }

  lemma HistoryComposes(s: State, e: Step, b: State, s': State)
    requires DeadStayDead(s, b) && DeadStayDead(b, s') && Records(s, e, b) && Records(b, Tick, s')
    ensures DeadStayDead(s, s') && Records(s, e, s')
  {
    assert forall p :: p in s.defunct ==> p in b.defunct;
  }

  /** The logs of a step that ends in the scheduler. */
  lemma SwitchLogs(s: State, e: Step)
    requires s.curr in s.procs && Switches(s, e) && Take(s, e).Ok?
    requires var b, s' := BeforeSwitch(s, e), Take(s, e).state;
      LogsKept(s, b) && SwitchReturns(b, s') && SwitchBegets(b, s')
    ensures Returns(s, e, Take(s, e).state) && Begets(s, e, Take(s, e).state)
  {
    hide Take, BeforeSwitch;
  }

  lemma WaitAtOnceLeaves(s: State)
    requires Inv(s) && !Switches(s, Wait) && Take(s, Wait).Ok?
    ensures DeadStayDead(s, Take(s, Wait).state) && Records(s, Wait, Take(s, Wait).state)
  {
  }

  lemma WaitAtOnceLogs(s: State)
    requires Inv(s) && !Switches(s, Wait) && Take(s, Wait).Ok?
    ensures Returns(s, Wait, Take(s, Wait).state) && Begets(s, Wait, Take(s, Wait).state)
  {
  }

  lemma ForkHistory(s: State, child: Pid)
    requires Inv(s) && child !in s.procs && Take(s, Fork(child)).Ok?
    ensures var s' := Take(s, Fork(child)).state;
      && DeadStayDead(s, s') && Returns(s, Fork(child), s')
      && Records(s, Fork(child), s') && Begets(s, Fork(child), s')
  {
    OnePlace(s, child);
  }

  /** Every step leaves dead processes alone and books each birth, exit and reaped child exactly once. */
  lemma StepHistory(s: State, e: Step)
    requires Reachable(s) && Enabled(s, e)
    ensures s.curr in s.procs && Take(s, e).Ok?
    ensures var s' := Take(s, e).state;
            DeadStayDead(s, s') && Returns(s, e, s') && Records(s, e, s') && Begets(s, e, s')
  {
    ReachableInv(s);
    StepSafe(s, e);
    hide SwitchToNext, Leave, Reap, Base, Records, Returns, Begets, SwitchReturns, SwitchBegets, LogsKept, DeadStayDead;
    match e
    case Tick =>
      SwitchHistory(s);
      NothingDone(s);
      SwitchLogs(s, e);
    case Fork(child) => ForkHistory(s, child);
    case Exit(status) =>
      LeaveKeeps(s, status);
      LeaveHistory(s, status);
      SwitchHistory(Leave(s, status).state);
      HistoryComposes(s, e, Leave(s, status).state, Take(s, e).state);
      SwitchLogs(s, e);
    case Wait =>
      if Switches(s, e) {
        BlockKeeps(s);
        BlockHistory(s);
        SwitchHistory(Block(s));
        HistoryComposes(s, e, Block(s), Take(s, e).state);
        SwitchLogs(s, e);
      } else {
        WaitAtOnceLeaves(s);
        WaitAtOnceLogs(s);
      }
  }

  lemma NothingDone(s: State)
    ensures LogsKept(s, s)
  {
  }

  // ------------------------------------------------------------ what Wait returns over a run

  /** Everything Wait returns to p in a run, in order. */
  function DeliveredOver(s: State, steps: seq<Step>, p: Pid): seq<(Pid, int)>
    decreases |steps|
  {
    if steps == [] || s.curr !in s.procs || Take(s, steps[0]).Crash? then []
    else Delivered(s, steps[0], p) + DeliveredOver(Take(s, steps[0]).state, steps[1..], p)
  }

  /** The exits of children of p in a run, each with its status, in order. */
  function ExitsOver(s: State, steps: seq<Step>, p: Pid): seq<(Pid, int)>
    decreases |steps|
  {
    if steps == [] || Take(s, steps[0]).Crash? then []
    else ExitOf(s, steps[0], p) + ExitsOver(Take(s, steps[0]).state, steps[1..], p)
  }

  lemma {:induction false} LogsOver(s: State, steps: seq<Step>, p: Pid)
    requires Reachable(s) && EnabledRun(s, steps) && p in s.procs
    ensures Run(s, steps).Ok? && Reachable(Run(s, steps).state)
    ensures var s' := Run(s, steps).state;
      && p in s'.procs && (p in s.defunct ==> p in s'.defunct)
      && s'.procs[p].reaped == s.procs[p].reaped + DeliveredOver(s, steps, p)
      && (Live(s', p) ==> s'.procs[p].exits == s.procs[p].exits + ExitsOver(s, steps, p))
    decreases |steps|
  {
    hide Take, Enabled, Delivered, ExitOf, Reachable, Live;
    if steps != [] {
      var e, rest := steps[0], steps[1..];
      OneStepLogs(s, e, p);
      var s1 := Take(s, e).state;
      LogsOver(s1, rest, p);
      var s' := Run(s1, rest).state;
      AddsUp(s.procs[p].reaped, Delivered(s, e, p), DeliveredOver(s1, rest, p));
      StillLive(s, s1, p);
      StillLive(s1, s', p);
      AddsUp(s.procs[p].exits, ExitOf(s, e, p), ExitsOver(s1, rest, p));
      hide Run, EnabledRun;
    } else {
      AddsUp(s.procs[p].reaped, [], []);
      AddsUp(s.procs[p].exits, [], []);
    }
  }

  lemma OneStepLogs(s: State, e: Step, p: Pid)
    requires Reachable(s) && Enabled(s, e) && p in s.procs
    ensures s.curr in s.procs && Take(s, e).Ok? && Reachable(Take(s, e).state)
    ensures var s' := Take(s, e).state;
      && p in s'.procs && (p in s.defunct ==> p in s'.defunct)
      && s'.procs[p].reaped == s.procs[p].reaped + Delivered(s, e, p)
      && (Live(s, p) ==> s'.procs[p].exits == s.procs[p].exits + ExitOf(s, e, p))
  {
    StepHistory(s, e);
    ReachableStep(s, e);
    hide Take, Enabled, Delivered, ExitOf, Reachable;
  }

  lemma StillLive(s: State, s': State, p: Pid)
    requires p in s.procs && p in s'.procs && (p in s.defunct ==> p in s'.defunct)
    ensures Live(s', p) ==> Live(s, p)
  {
  }

  lemma AddsUp<T>(a: seq<T>, b: seq<T>, c: seq<T>)
    ensures a + b + c == a + (b + c) && a + [] == a
  {
  }

  /**
   * Over any run in which p lives, what Wait returns to p is a front part of the exits of its
   * children: first those that were waiting to be reaped, then those of the run, in exit order and
   * with their statuses. No child is returned twice, nor one that was returned before.
   */
  lemma WaitReturnsOnce(s: State, steps: seq<Step>, p: Pid)
    requires Reachable(s) && Live(s, p) && EnabledRun(s, steps)
    requires Run(s, steps).Ok? ==> Live(Run(s, steps).state, p)
    ensures var d := DeliveredOver(s, steps, p);
      && d <= WithCodes(s.procs, s.procs[p].deceased) + ExitsOver(s, steps, p)
      && NoDup(Pids(s.procs[p].reaped + d))
      && Run(s, steps).Ok? && Run(s, steps).state.procs[p].reaped == s.procs[p].reaped + d
  {
    LogsOver(s, steps, p);
    var s' := Run(s, steps).state;
    ChildrenAreConserved(s, p);
    ChildrenAreConserved(s', p);
    hide *;
    FrontOfExits(s.procs[p].reaped, WithCodes(s.procs, s.procs[p].deceased), ExitsOver(s, steps, p),
                 DeliveredOver(s, steps, p), s'.procs[p].exits);
  }

  lemma FrontOfExits(reaped: seq<(Pid, int)>, due: seq<(Pid, int)>, exits: seq<(Pid, int)>, d: seq<(Pid, int)>,
                     all: seq<(Pid, int)>)
    requires all == reaped + due + exits && reaped + d <= all && NoDup(Pids(all))
    ensures d <= due + exits && NoDup(Pids(reaped + d))
  {
    assert all[|reaped|..] == due + exits && (reaped + d)[|reaped|..] == d;
    FrontNoDup(reaped + d, all);
  }

  lemma FrontNoDup(front: seq<(Pid, int)>, all: seq<(Pid, int)>)
    requires front <= all && NoDup(Pids(all))
    ensures NoDup(Pids(front))
  {
    assert forall i :: 0 <= i < |front| ==> Pids(front)[i] == Pids(all)[i];
  }

  /** Over any run a defunct process is never dispatched again and keeps its process block. */
  lemma {:induction false} DefunctForGood(s: State, steps: seq<Step>, p: Pid)
    requires Reachable(s) && EnabledRun(s, steps) && p in s.defunct
    ensures Run(s, steps).Ok? && p in s.procs && p in Run(s, steps).state.procs
    ensures Run(s, steps).state.curr != p && Run(s, steps).state.procs[p] == s.procs[p]
    decreases |steps|
  {
    ReachableInv(s);
    OnePlace(s, p);
    if steps != [] {
      hide Take, Enabled;
      StepHistory(s, steps[0]);
      ReachableStep(s, steps[0]);
      DefunctForGood(Take(s, steps[0]).state, steps[1..], p);
    }
  }

  lemma {:induction false} RunAppend(s: State, steps: seq<Step>, e: Step)
    requires EnabledRun(s, steps) && Run(s, steps).Ok?
    requires Enabled(Run(s, steps).state, e)
    ensures EnabledRun(s, steps + [e])
    ensures Run(s, steps + [e]) == Take(Run(s, steps).state, e)
    decreases |steps|
  {
    hide Take, Enabled;
    var all := steps + [e];
    if steps == [] {
      assert all[1..] == [];
    } else {
      assert all[0] == steps[0] && all[1..] == steps[1..] + [e];
      RunAppend(Take(s, steps[0]).state, steps[1..], e);
    }
  }

  lemma ReachableStep(s: State, e: Step)
    requires Reachable(s) && Enabled(s, e) && Take(s, e).Ok?
    ensures Reachable(Take(s, e).state)
  {
    hide Take, Enabled, Run, EnabledRun;
    var idle, init, steps :|
      idle != init && EnabledRun(Boot(idle, init), steps) && Run(Boot(idle, init), steps) == Ok(s);
    RunAppend(Boot(idle, init), steps, e);
  }

  // ------------------------------------------------------------ fork returns twice

  /** Whoever neither ran before nor runs after a step will continue at the same place. */
  ghost predicate Sleeps(s: State, s': State) {
    forall p :: p in s.procs && p != s.curr && p != s'.curr ==> p in s'.procs && s'.procs[p].cont == s.procs[p].cont
  }

  lemma SwitchSleeps(b: State)
    requires SwitchToNext(b).Ok?
    ensures Sleeps(b, SwitchToNext(b).state)
  {
  }

  lemma LeaveSleeps(s: State, status: int)
    requires s.curr in s.procs && Leave(s, status).Ok?
    ensures var b := Leave(s, status).state;
      b.curr == s.curr && forall p :: p in s.procs ==> p in b.procs && b.procs[p].cont == s.procs[p].cont
  {
  }

  lemma SleepsBefore(s: State, e: Step)
    requires s.curr in s.procs
    ensures forall p :: p in s.procs && p != s.curr ==>
      p in BeforeSwitch(s, e).procs && BeforeSwitch(s, e).procs[p].cont == s.procs[p].cont
  {
    hide Leave;
    if e.Exit? && Leave(s, e.status).Ok? {
      LeaveSleeps(s, e.status);
    }
  }

  lemma StepSleeps(s: State, e: Step)
    requires Inv(s) && Enabled(s, e)
    ensures Take(s, e).Ok? && Sleeps(s, Take(s, e).state)
  {
    StepSafe(s, e);
    if Switches(s, e) {
      SleepsBefore(s, e);
      StepShape(s, e);
      hide SwitchToNext, Leave, Base, BeforeSwitch, Take, Sleeps;
      SwitchSleeps(BeforeSwitch(s, e));
      SleepsThrough(s, BeforeSwitch(s, e), Take(s, e).state);
    } else {
      SleepsAtOnce(s, e);
    }
  }

  lemma SleepsAtOnce(s: State, e: Step)
    requires Inv(s) && Enabled(s, e) && !Switches(s, e) && Take(s, e).Ok?
    ensures Sleeps(s, Take(s, e).state)
  {
  }

  lemma SleepsThrough(s: State, b: State, s': State)
    requires Sleeps(b, s') && b.curr == s.curr
    requires forall p :: p in s.procs && p != s.curr ==> p in b.procs && b.procs[p].cont == s.procs[p].cont
    ensures Sleeps(s, s')
  {
  }

  lemma {:induction false} SleepsInLine(s: State, steps: seq<Step>, i: nat)
    requires Inv(s) && EnabledRun(s, steps) && i < |s.ready| && Dispatches(s, steps) <= i
    ensures Run(s, steps).Ok?
    ensures var p, s' := s.ready[i], Run(s, steps).state;
      p in s.procs && p in s'.procs && s'.procs[p].cont == s.procs[p].cont
    decreases |steps|
  {
    OnePlace(s, s.ready[i]);
    hide Take, Switches, Enabled, Base, Sleeps;
    if steps != [] {
      StepSafe(s, steps[0]);
      MovesUp(s, steps[0], i);
      var s1, j := Take(s, steps[0]).state, if Switches(s, steps[0]) then i - 1 else i;
      SleepsInLine(s1, steps[1..], j);
      StepSleeps(s, steps[0]);
      ReadyIsNotRunning(s, s.ready[i]);
      ReadyIsNotRunning(s1, s1.ready[j]);
      SleepsOn(s, s1, s.ready[i]);
    }
  }

  lemma SleepsOn(s: State, s': State, p: Pid)
    requires Sleeps(s, s') && p in s.procs && p != s.curr && p != s'.curr
    ensures p in s'.procs && s'.procs[p].cont == s.procs[p].cont
  {
  }

  lemma ResumedChild(b: State)
    requires SwitchToNext(b).Ok?
    ensures var s' := SwitchToNext(b).state;
      s'.curr in s'.procs && (s'.curr in b.procs && b.procs[s'.curr].cont == InFork ==>
        b.curr != s'.curr || Requeued(b) != [] ==> s'.procs[s'.curr].response == ForkReturned(0))
  {
  }

  /**
   * Fork returns the child's pid to the parent at once, and 0 to the child when it first runs,
   * which is after as many further dispatches as processes were ready before it.
   */
  lemma ForkReturnsTwice(s: State, child: Pid, before: seq<Step>, e: Step)
    requires Reachable(s) && Enabled(s, Fork(child))
    requires Take(s, Fork(child)).Ok? ==>
      var s1 := Take(s, Fork(child)).state;
      && EnabledRun(s1, before) && Dispatches(s1, before) == |s.ready|
      && (Run(s1, before).Ok? ==> Enabled(Run(s1, before).state, e))
    ensures Take(s, Fork(child)).Ok?
    ensures var s1 := Take(s, Fork(child)).state;
      && s.curr in s1.procs && s1.procs[s.curr].response == ForkReturned(child)
      && Run(s1, before).Ok?
      && var m := Run(s1, before).state;
      && m.curr in m.procs && m.curr != child && Take(m, e).Ok?
      && (Switches(m, e) ==>
            var s2 := Take(m, e).state;
            s2.curr == child && child in s2.procs && s2.procs[child].response == ForkReturned(0))
  {
    ReachableInv(s);
    StepSafe(s, Fork(child));
    ReachableStep(s, Fork(child));
    var s1, i := Take(s, Fork(child)).state, |s.ready|;
    assert s1.ready[i] == child && s1.procs[child].cont == InFork;
    BoundedWaiting(s1, before, e, i);
    SleepsInLine(s1, before, i);
    RunSafe(s1, before);
    var m := Run(s1, before).state;
    hide Take, Run, EnabledRun, Base, BeforeSwitch, SwitchToNext;
    StepShape(m, e);
    if Switches(m, e) {
      SleepsBefore(m, e);
      ResumedChild(BeforeSwitch(m, e));
    }
  }
}
