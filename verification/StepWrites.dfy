/** Which fields of which process blocks a step writes, and what it does to the blocked and the defunct queue. */
module StepWrites {
  import opened Fifo
  import opened Processes
  import opened ProcessInvariants
  import opened ProcessTheorems

  /** The running process exits and its parent, p, is alive. */
  predicate ExitsUnder(s: State, e: Step, p: Pid) {
    e.Exit? && s.curr in s.procs && s.procs[s.curr].parent == Some(p) && p !in s.defunct
  }

  predicate Orphan(s: State)
    requires s.curr in s.procs
  {
    s.procs[s.curr].parent.None? || s.procs[s.curr].parent.value in s.defunct
  }

  function Others(q: seq<Pid>, p: Pid): seq<Pid> {
    if q == [] then [] else (if q[0] == p then [] else [q[0]]) + Others(q[1..], p)
  }

  /** The exit code is recorded and queues and page table are given up by one's own exit only, under a live parent. */
  predicate KeepsFate(s: State, e: Step, p: Pid, me: Proc, me': Proc) {
    && me'.birth == me.birth
    && if e.Exit? && p == s.curr && s.curr in s.procs && !Orphan(s) then me'.exitCode == e.status && me'.released
       else me'.exitCode == me.exitCode && me'.released == me.released
  }

  /** Child queues: an exiting child goes from the live to the tail of the deceased, and Wait takes from the head. */
  predicate MovesChildren(s: State, e: Step, p: Pid, me: Proc, me': Proc, born: seq<Pid>, delivered: nat) {
    var left := if ExitsUnder(s, e, p) then Others(me.children, s.curr) else me.children;
    var dead := if ExitsUnder(s, e, p) then me.deceased + [s.curr] else me.deceased;
    me'.children == left + born && delivered <= |dead| && me'.deceased == dead[delivered..]
  }

  /** Only init changes its parent, when it first runs. */
  predicate KeepsParent(s: State, p: Pid, me: Proc, me': Proc, adopted: seq<Pid>) {
    me'.parent == if p in adopted then Some(s.idle) else me.parent
  }

  lemma {:induction false} OthersIs(q: seq<Pid>, p: Pid)
    requires NoDup(q)
    ensures Others(q, p) == Without(q, SamePid(p))
  {
    if q != [] {
      hide Without;
      OthersIs(q[1..], p);
      if q[0] == p {
        NoneHere(q[1..], p);
        WithoutFirst(q, p);
      } else {
        WithoutLater(q, p);
      }
    } else {
      FindIs(q, SamePid(p), 0);
    }
  }

  lemma WithoutFirst(q: seq<Pid>, p: Pid)
    requires q != [] && q[0] == p
    ensures Without(q, SamePid(p)) == q[1..]
  {
    FindIs(q, SamePid(p), 0);
    assert q[..0] + q[1..] == q[1..];
  }

  lemma WithoutLater(q: seq<Pid>, p: Pid)
    requires q != [] && q[0] != p
    ensures Without(q, SamePid(p)) == [q[0]] + Without(q[1..], SamePid(p))
  {
    var i := Find(q[1..], SamePid(p));
    FindIs(q, SamePid(p), i + 1);
    hide Find, SamePid;
    DropShifted(q, i);
  }

  lemma DropShifted(q: seq<Pid>, i: nat)
    requires q != [] && i <= |q| - 1
    ensures [q[0]] + q[1..] == q
    ensures i < |q| - 1 ==> q[..i + 1] + q[i + 2..] == [q[0]] + (q[1..][..i] + q[1..][i + 1..])
  {
  }

  lemma {:induction false} NoneHere(q: seq<Pid>, p: Pid)
    requires p !in q
    ensures Others(q, p) == q
  {
    if q != [] {
      NoneHere(q[1..], p);
      assert q == [q[0]] + q[1..];
    }
  }

  // ------------------------------------------------------------ the part of a step that is the scheduler

  /** What a dispatch in b does to the block of p. */
  predicate SwitchWrites(b: State, s': State, p: Pid, me: Proc, me': Proc) {
    && me'.birth == me.birth && me'.exitCode == me.exitCode && me'.released == me.released
    && me'.children == me.children + Started(b, s', p)
    && |Handed(b, s', p)| <= |me.deceased| && me'.deceased == me.deceased[|Handed(b, s', p)|..]
    && me'.parent == if p in Started(b, s', b.idle) then Some(b.idle) else me.parent
  }

  lemma ResumeWrites(d: State, p: Pid)
    requires d.curr in d.procs && Resume(d).Ok? && p in d.procs && d.idle in d.procs && d.procs[d.idle].cont == User
    requires d.procs[d.curr].cont == InWait ==> d.procs[d.curr].deceased != []
    ensures var s' := Resume(d).state; p in s'.procs && SwitchWrites(d, s', p, d.procs[p], s'.procs[p])
  {
  }

  lemma DispatchWrites(b: State, p: Pid)
    requires Base(b) && SwitchToNext(b).Ok? && p in b.procs
    ensures var s' := SwitchToNext(b).state;
      && p in s'.procs && SwitchWrites(b, s', p, b.procs[p], s'.procs[p])
      && s'.blocked == b.blocked && s'.defunct == b.defunct
  {
    Dispatchable(b);
    SwitchEffect(b);
    hide Base, Resume, Dispatch;
    if b.curr != b.idle || Requeued(b) != [] {
      ResumeWrites(Dispatch(b), p);
    }
  }

  // ------------------------------------------------------------ the part before it

  lemma LeaveWrites(s: State, status: int, p: Pid)
    requires Inv(s) && s.curr != s.idle && Leave(s, status).Ok? && p in s.procs
    ensures var b, e := Leave(s, status).state, Exit(status);
      && p in b.procs && b.curr == s.curr && b.idle == s.idle
      && KeepsFate(s, e, p, s.procs[p], b.procs[p])
      && MovesChildren(s, e, p, s.procs[p], b.procs[p], [], 0)
      && b.procs[p].parent == s.procs[p].parent
      && b.defunct == s.defunct + [s.curr]
      && b.blocked == (if Orphan(s) then s.blocked else Without(s.blocked, SamePid(s.procs[s.curr].parent.value)))
  {
    ParentOfRunning(s);
    if ExitsUnder(s, Exit(status), p) {
      assert Kin(s, p);
      OthersIs(s.procs[p].children, s.curr);
    }
    var parent := s.procs[s.curr].parent.value;
    hide Base, Without, Search, Others;
  }

  // ------------------------------------------------------------ whole steps

  /** What a step does to the queues of waiting and dead processes. */
  ghost predicate MovesQueues(s: State, e: Step, s': State)
    requires s.curr in s.procs
  {
    && s'.defunct == (if e.Exit? then s.defunct + [s.curr] else s.defunct)
    && s'.blocked ==
         if e.Wait? && Switches(s, e) then s.blocked + [s.curr]
         else if e.Exit? && !Orphan(s) then Without(s.blocked, SamePid(s.procs[s.curr].parent.value))
         else s.blocked
  }

  /** Init, when the step lets it run for the first time. */
  function Adopted(s: State, e: Step): seq<Pid>
    requires s.curr in s.procs && Take(s, e).Ok?
  {
    if Switches(s, e) then Started(BeforeSwitch(s, e), Take(s, e).state, s.idle) else []
  }

  ghost predicate WritesBlock(s: State, e: Step, p: Pid)
    requires s.curr in s.procs && Take(s, e).Ok? && p in s.procs
  {
    var s' := Take(s, e).state;
    && p in s'.procs
    && KeepsFate(s, e, p, s.procs[p], s'.procs[p])
    && MovesChildren(s, e, p, s.procs[p], s'.procs[p], Born(s, e, p), |Delivered(s, e, p)|)
    && KeepsParent(s, p, s.procs[p], s'.procs[p], Adopted(s, e))
  }

  /** A step without a switch: fork, or a wait that does not block. */
  lemma StaysWrites(s: State, e: Step, p: Pid)
    requires Inv(s) && Enabled(s, e) && !Switches(s, e) && Take(s, e).Ok? && p in s.procs
    ensures WritesBlock(s, e, p) && MovesQueues(s, e, Take(s, e).state)
  {
    hide Base;
  }

  /** The two parts of a step with a switch put together. */
  lemma PartsWrite(s: State, e: Step, b: State, p: Pid)
    requires s.curr in s.procs && Switches(s, e) && !e.Fork? && b == BeforeSwitch(s, e) && Take(s, e).Ok?
    requires p in s.procs && p in b.procs && p in Take(s, e).state.procs && b.idle == s.idle
    requires KeepsFate(s, e, p, s.procs[p], b.procs[p])
    requires MovesChildren(s, e, p, s.procs[p], b.procs[p], [], 0) && b.procs[p].parent == s.procs[p].parent
    requires SwitchWrites(b, Take(s, e).state, p, b.procs[p], Take(s, e).state.procs[p])
    ensures WritesBlock(s, e, p)
  {
    hide Take, BeforeSwitch, Switches, Others, Orphan, Started, Handed, ExitsUnder;
  }

  /**
   * Every step writes exactly this: its own exit sets a process's code and releases its queues, under a live
   * parent only; child queues change by births, exits and what wait returns; only init changes its parent; and
   * the blocked and defunct queues change at the tail, apart from a parent that is woken.
   */
  lemma StepWritesExactly(s: State, e: Step, p: Pid)
    requires Reachable(s) && Enabled(s, e) && p in s.procs
    ensures s.curr in s.procs && Take(s, e).Ok?
    ensures WritesBlock(s, e, p) && MovesQueues(s, e, Take(s, e).state)
  {
    ReachableInv(s);
    StepSafe(s, e);
    if !Switches(s, e) {
      hide *;
      StaysWrites(s, e, p);
    } else {
      match e
      case Tick => TickWrites(s, p);
      case Exit(status) => ExitWrites(s, status, p);
      case Wait => BlockingWrites(s, p);
    }
  }

  lemma TickWrites(s: State, p: Pid)
    requires Inv(s) && p in s.procs && Take(s, Tick).Ok?
    ensures WritesBlock(s, Tick, p) && MovesQueues(s, Tick, Take(s, Tick).state)
  {
    hide SwitchToNext, Base, WritesBlock, SwitchWrites, KeepsFate, MovesChildren, Orphan;
    NothingWritten(s, Tick, p);
    DispatchWrites(s, p);
    PartsWrite(s, Tick, s, p);
  }

  lemma ExitWrites(s: State, status: int, p: Pid)
    requires Inv(s) && s.curr != s.idle && p in s.procs && Take(s, Exit(status)).Ok?
    ensures WritesBlock(s, Exit(status), p) && MovesQueues(s, Exit(status), Take(s, Exit(status)).state)
  {
    hide SwitchToNext, Leave, Base, WritesBlock, SwitchWrites, KeepsFate, MovesChildren, Orphan;
    LeaveKeeps(s, status);
    LeaveWrites(s, status, p);
    DispatchWrites(Leave(s, status).state, p);
    PartsWrite(s, Exit(status), Leave(s, status).state, p);
  }

  lemma BlockingWrites(s: State, p: Pid)
    requires Inv(s) && s.curr != s.idle && p in s.procs && Take(s, Wait).Ok? && Switches(s, Wait)
    ensures WritesBlock(s, Wait, p) && MovesQueues(s, Wait, Take(s, Wait).state)
  {
    hide SwitchToNext, Reap, Base, WritesBlock, SwitchWrites, KeepsFate, MovesChildren, Orphan;
    BlockKeeps(s);
    BlockWrites(s, p);
    DispatchWrites(Block(s), p);
    PartsWrite(s, Wait, Block(s), p);
  }

  lemma NothingWritten(s: State, e: Step, p: Pid)
    requires p in s.procs && !e.Exit?
    ensures KeepsFate(s, e, p, s.procs[p], s.procs[p]) && MovesChildren(s, e, p, s.procs[p], s.procs[p], [], 0)
  {
  }

  lemma BlockWrites(s: State, p: Pid)
    requires s.curr in s.procs && p in s.procs
    ensures var b := Block(s);
      && p in b.procs && KeepsFate(s, Wait, p, s.procs[p], b.procs[p])
      && MovesChildren(s, Wait, p, s.procs[p], b.procs[p], [], 0) && b.procs[p].parent == s.procs[p].parent
  {
  }

  /** A new child starts with nothing, in the kernel, under the process that forked it. */
  lemma ForkMakes(s: State, child: Pid)
    requires Reachable(s) && Enabled(s, Fork(child))
    ensures Take(s, Fork(child)).Ok?
    ensures var s' := Take(s, Fork(child)).state;
      && s'.procs.Keys == s.procs.Keys + {child} && s'.ready == s.ready + [child]
      && var c := s'.procs[child];
      && c.parent == Some(s.curr) && c.children == [] && c.deceased == [] && !c.released && c.exitCode == 0
      && c.cont == InFork && c.response == NoResponse && c.birth == |s.procs|
  {
    ReachableInv(s);
    StepSafe(s, Fork(child));
  }
}
