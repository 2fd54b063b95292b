/**
 * Process life cycle and scheduler as a state machine on values: what one clock
 * tick, fork, exit or wait does to the running process, to the ready, blocked and
 * defunct queues and to the child queues of every process.
 *
 * Each step runs without preemption up to the point where the process that is
 * running afterwards is back in user mode. A process that was switched out in
 * the middle of the kernel carries the place to resume in its saved context.
 */
module Processes {
  import opened Fifo

  type Pid = int

  /** Where a process continues when it is dispatched again. */
  datatype Continuation =
    | User       // interrupted by the clock, or has returned from its last call
    | InFork     // a new child: its copy of the kernel stack is inside KernelFork
    | InWait     // blocked inside KernelWait
    | FirstRun   // init: its copy of the kernel stack is inside KernelStart

  /** What the last kernel call of a process returned. */
  datatype Response =
    | NoResponse
    | ForkReturned(pid: Pid)
    | WaitReturned(child: Pid, code: int)
    | WaitError

  /** The process block, followed by what its past has been (history only). */
  datatype Proc = Proc(
    parent: Option<Pid>,
    children: seq<Pid>,
    deceased: seq<Pid>,
    exitCode: int,
    released: bool,                // child queues closed and page table freed
    cont: Continuation,
    response: Response,
    birth: nat,                    // number of processes created before
    forked: seq<Pid>,              // children it ever got, in order
    exits: seq<(Pid, int)>,        // children that exited while it lived, in order
    reaped: seq<(Pid, int)>)       // what Wait has returned to it, in order

  datatype State = State(
    idle: Pid,
    curr: Pid,
    ready: seq<Pid>,
    blocked: seq<Pid>,
    defunct: seq<Pid>,
    procs: map<Pid, Proc>)

  /** The ways in which kernel code could touch memory it must not touch. */
  datatype Fault =
    | NullParent     // dereferences a null parent pointer
    | Released       // uses queues or a page table that have been freed
    | NotFound       // a process is not among its parent's children
    | NoSuchProcess  // follows a pointer to something that is no process block

  datatype Outcome = Ok(state: State) | Crash(fault: Fault)

  datatype Step = Tick | Fork(child: Pid) | Exit(status: int) | Wait

  /** search_pcb with a given key */
  function SamePid(p: Pid): Pid -> bool {
    (q: Pid) => q == p
  }

  function NewProc(birth: nat, cont: Continuation): Proc {
    Proc(None, [], [], 0, false, cont, NoResponse, birth, [], [], [])
  }

  /** KernelStart: idle is current, init waits in the ready queue. */
  function Boot(idle: Pid, init: Pid): State {
    State(idle, idle, [init], [], [],
          map[idle := NewProc(0, User), init := NewProc(1, FirstRun)])
  }

  // ---------------------------------------------------------------- scheduler

  predicate Parked(s: State) {
    s.curr == s.idle || s.curr in s.blocked || s.curr in s.defunct
  }

  /** The ready queue once a current process that can go on is put at its tail. */
  function Requeued(s: State): seq<Pid> {
    if Parked(s) then s.ready else s.ready + [s.curr]
  }

  /** The queue work of switch_to_next_ready_process. */
  function Dispatch(s: State): State {
    var ready := Requeued(s);
    if ready == [] then s.(curr := s.idle)
    else s.(curr := ready[0], ready := ready[1..])
  }

  function SwitchToNext(s: State): Outcome {
    var d := Dispatch(s);
    if d.curr !in d.procs then Crash(NoSuchProcess)
    else if s.curr == s.idle && Requeued(s) == [] then Ok(s)
    else if d.procs[d.curr].released then Crash(Released)
    else Resume(d)
  }

  /** The dispatched process continues from its saved kernel context. */
  function Resume(s: State): Outcome
    requires s.curr in s.procs
  {
    var me := s.procs[s.curr].(cont := User);
    match s.procs[s.curr].cont
    case User => Ok(s)
    case InFork => Ok(s.(procs := s.procs[s.curr := me.(response := ForkReturned(0))]))
    case InWait => Reap(s.(procs := s.procs[s.curr := me]))
    case FirstRun => Adopt(s.(procs := s.procs[s.curr := me]))
  }

  /** Init attaches itself to idle. */
  function Adopt(s: State): Outcome
    requires s.curr in s.procs
  {
    if s.idle !in s.procs then Crash(NoSuchProcess)
    else if s.procs[s.idle].released then Crash(Released)
    else
      var me := s.procs[s.curr].(parent := Some(s.idle));
      var procs := s.procs[s.curr := me];
      var idle := procs[s.idle];
      Ok(s.(procs := procs[s.idle := idle.(children := idle.children + [s.curr],
                                           forked := idle.forked + [s.curr])]))
  }

  // -------------------------------------------------------------------- fork

  function ForkStep(s: State, child: Pid): Outcome
    requires s.curr in s.procs
  {
    var me := s.procs[s.curr];
    if me.released then Crash(Released)
    else
      var parent := me.(children := me.children + [child],
                        forked := me.forked + [child],
                        response := ForkReturned(child));
      var newPcb := NewProc(|s.procs|, InFork).(parent := Some(s.curr));
      Ok(s.(ready := s.ready + [child],
            procs := s.procs[s.curr := parent][child := newPcb]))
  }

  // -------------------------------------------------------------------- exit

  /** The current process, as KernelExit leaves it when its parent is alive. */
  function ExitedProc(s: State, status: int): Proc
    requires s.curr in s.procs
  {
    s.procs[s.curr].(exitCode := status, released := true)
  }

  /** KernelExit before its last queue operation, with a parent that is not defunct. */
  function ReportExit(s: State, parent: Pid, status: int): Outcome
    requires s.curr in s.procs && parent in s.procs
  {
    var procs := s.procs[s.curr := ExitedProc(s, status)];
    var p := procs[parent];
    if p.released then Crash(Released)
    else if Search(p.children, SamePid(s.curr)).None? then Crash(NotFound)
    else
      var p' := p.(children := Without(p.children, SamePid(s.curr)),
                   deceased := p.deceased + [s.curr],
                   exits := p.exits + [(s.curr, status)]);
      var woken := Search(s.blocked, SamePid(parent));
      Ok(s.(blocked := Without(s.blocked, SamePid(parent)),
            ready := if woken.Some? then s.ready + [woken.value] else s.ready,
            procs := procs[parent := p']))
  }

  /** KernelExit up to the switch. */
  function Leave(s: State, status: int): Outcome
    requires s.curr in s.procs
  {
    var me := s.procs[s.curr];
    if me.parent.None? then Crash(NullParent)
    else if me.parent.value !in s.procs then Crash(NoSuchProcess)
    else if me.parent.value in s.defunct then Ok(s.(defunct := s.defunct + [s.curr]))
    else if me.released then Crash(Released)
    else
      var r := ReportExit(s, me.parent.value, status);
      if r.Crash? then r else Ok(r.state.(defunct := s.defunct + [s.curr]))
  }

  function ExitStep(s: State, status: int): Outcome
    requires s.curr in s.procs
  {
    var r := Leave(s, status);
    if r.Crash? then r else SwitchToNext(r.state)
  }

  // -------------------------------------------------------------------- wait

  /** Takes the first deceased child, or reports the error when there is none. */
  function Reap(s: State): Outcome
    requires s.curr in s.procs
  {
    var me := s.procs[s.curr];
    if me.released then Crash(Released)
    else if me.deceased == [] then Ok(s.(procs := s.procs[s.curr := me.(response := WaitError)]))
    else if me.deceased[0] !in s.procs then Crash(NoSuchProcess)
    else
      var child := me.deceased[0];
      var code := s.procs[child].exitCode;
      Ok(s.(procs := s.procs[s.curr := me.(deceased := me.deceased[1..],
                                           reaped := me.reaped + [(child, code)],
                                           response := WaitReturned(child, code))]))
  }

  /** The caller of KernelWait goes to the blocked queue. */
  function Block(s: State): State
    requires s.curr in s.procs
  {
    s.(blocked := s.blocked + [s.curr],
       procs := s.procs[s.curr := s.procs[s.curr].(cont := InWait)])
  }

  function WaitStep(s: State): Outcome
    requires s.curr in s.procs
  {
    var me := s.procs[s.curr];
    if me.released then Crash(Released)
    else if me.children == [] || me.deceased != [] then Reap(s)
    else SwitchToNext(Block(s))
  }

  // -------------------------------------------------------------------- runs

  /** Idle only pauses, so calls come from other processes; a new pid is fresh. */
  predicate Enabled(s: State, e: Step) {
    e.Tick? || (s.curr != s.idle && (e.Fork? ==> e.child !in s.procs))
  }

  function Take(s: State, e: Step): Outcome {
    if s.curr !in s.procs then Crash(NoSuchProcess)
    else
      match e
      case Tick => SwitchToNext(s)
      case Fork(child) => ForkStep(s, child)
      case Exit(status) => ExitStep(s, status)
      case Wait => WaitStep(s)
  }

  function Run(s: State, steps: seq<Step>): Outcome
    decreases |steps|
  {
    if steps == [] then Ok(s)
    else
      var r := Take(s, steps[0]);
      if r.Crash? then r else Run(r.state, steps[1..])
  }

  predicate EnabledRun(s: State, steps: seq<Step>)
    decreases |steps|
  {
    steps != [] ==>
      && Enabled(s, steps[0])
      && (Take(s, steps[0]).Ok? ==> EnabledRun(Take(s, steps[0]).state, steps[1..]))
  }

  ghost predicate Reachable(s: State) {
    exists idle: Pid, init: Pid, steps: seq<Step> ::
      idle != init && EnabledRun(Boot(idle, init), steps) && Run(Boot(idle, init), steps) == Ok(s)
  }
}
