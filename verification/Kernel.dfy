/**
 * The kernel of sample/process_coord_syscalls.c and sample/kernel_context.c on
 * process blocks in the heap. Every method is tied to the step of module
 * Processes that it performs, and keeps that module's invariant.
 */
module KernelObjects {
  import opened Fifo
  import opened Processes
  import opened ProcessInvariants

  /** pcb_t. The fields after response are history and exist for the specification only. */
  class Pcb {
    const pid: Pid
    var parent: Pcb?
    var children: seq<Pcb>
    var deceased: seq<Pcb>
    var exitCode: int
    var cont: Continuation
    var response: Response
    ghost var released: bool
    ghost var birth: nat
    ghost var forked: seq<Pid>
    ghost var exits: seq<(Pid, int)>
    ghost var reaped: seq<(Pid, int)>

    /** create_process, as far as scheduling is concerned */
    constructor (pid: Pid, cont: Continuation, ghost birth: nat)
      ensures this.pid == pid && Value() == NewProc(birth, cont)
      ensures parent == null && children == [] && deceased == []
    {
      this.pid := pid;
      parent := null;
      children, deceased := [], [];
      exitCode := 0;
      this.cont := cont;
      response := NoResponse;
      released := false;
      this.birth := birth;
      forked, exits, reaped := [], [], [];
    }

    ghost function Value(): Proc
      reads this
    {
      Proc(if parent == null then None else Some(parent.pid),
           Ids(children), Ids(deceased), exitCode, released, cont, response,
           birth, forked, exits, reaped)
    }

    /** qclose on both child queues and free on the page table: allowed once. */
    ghost method Release()
      requires !released
      modifies this`released
      ensures released
    {
      released := true;
    }
  }

  function Ids(q: seq<Pcb>): seq<Pid> {
    seq(|q|, i requires 0 <= i < |q| => q[i].pid)
  }

  lemma IdsParts(q: seq<Pcb>, b: Pcb)
    ensures Ids(q + [b]) == Ids(q) + [b.pid]
    ensures q != [] ==> Ids(q)[0] == q[0].pid && Ids(q[1..]) == Ids(q)[1..]
  {
  }

  /** search_pcb on process blocks */
  function HasPid(p: Pid): Pcb -> bool {
    (b: Pcb) => b.pid == p
  }

  /** Searching blocks by pid is searching pids. */
  lemma IdsFindIndex(q: seq<Pcb>, p: Pid)
    ensures Find(q, HasPid(p)) == Find(Ids(q), SamePid(p))
  {
    var i := Find(q, HasPid(p));
    forall k | 0 <= k < i ensures !SamePid(p)(Ids(q)[k]) {
      assert !HasPid(p)(q[k]);
    }
    FindIs(Ids(q), SamePid(p), i);
  }

  lemma IdsSplit(q: seq<Pcb>, i: nat)
    requires i < |q|
    ensures Ids(q[..i] + q[i + 1..]) == Ids(q)[..i] + Ids(q)[i + 1..]
    ensures Ids(q)[i] == q[i].pid
  {
  }

  lemma IdsContain(q: seq<Pcb>, p: Pid)
    ensures p in Ids(q) <==> Find(Ids(q), SamePid(p)) < |q|
  {
    var j := Find(Ids(q), SamePid(p));
    if p in Ids(q) {
      var k :| 0 <= k < |q| && Ids(q)[k] == p;
      assert SamePid(p)(Ids(q)[k]);
    }
  }

  lemma IdsFind(q: seq<Pcb>, p: Pid)
    ensures Ids(Without(q, HasPid(p))) == Without(Ids(q), SamePid(p))
    ensures Search(q, HasPid(p)).Some? <==> p in Ids(q)
    ensures match Search(q, HasPid(p))
            case Some(b) => b in q && b.pid == p && Search(Ids(q), SamePid(p)) == Some(p)
            case None => Search(Ids(q), SamePid(p)) == None
    ensures forall b {:trigger b in Without(q, HasPid(p))} :: b in Without(q, HasPid(p)) ==> b in q
  {
    IdsFindIndex(q, p);
    IdsContain(q, p);
    hide Find, Ids;
    var i := Find(q, HasPid(p));
    if i < |q| {
      assert HasPid(p)(q[i]);
      IdsSplit(q, i);
    }
  }

  /** create_process and KCCopy: one more process block, and it will resume inside KernelFork. */
  ghost function Created(s: State, child: Pid, birth: nat): State {
    s.(procs := s.procs[child := NewProc(birth, InFork)])
  }

  /** What the parent does after KCCopy. */
  ghost function Linked(s: State, child: Pid): State
    requires s.curr in s.procs && child in s.procs
  {
    var me := s.procs[s.curr];
    var procs := s.procs[child := s.procs[child].(parent := Some(s.curr))];
    s.(procs := procs[s.curr := me.(children := me.children + [child],
                                    forked := me.forked + [child],
                                    response := ForkReturned(child))])
  }

  lemma ForkUnfolds(s: State, child: Pid, c: State)
    requires s.curr in s.procs && child !in s.procs && !s.procs[s.curr].released
    requires c == Created(s, child, |s.procs|)
    ensures Take(s, Fork(child)) == Ok(Linked(c.(ready := s.ready + [child]), child))
  {
    assert Linked(c.(ready := s.ready + [child]), child).procs == ForkStep(s, child).state.procs;
  }

  lemma ExitUnfolds(s: State, status: int, b: State)
    requires s.curr in s.procs && Leave(s, status) == Ok(b)
    ensures Take(s, Exit(status)) == SwitchToNext(b)
  {
  }

  lemma WaitUnfolds(s: State)
    requires Inv(s)
    ensures Take(s, Wait) == if s.procs[s.curr].children == [] || s.procs[s.curr].deceased != [] then Reap(s)
                             else SwitchToNext(Block(s))
  {
    assert Kin(s, s.curr);
  }

  lemma ReapUnfolds(s: State)
    requires s.curr in s.procs && Reap(s).Ok?
    ensures var me := s.procs[s.curr];
      && !me.released
      && if me.deceased == [] then Reap(s).state == s.(procs := s.procs[s.curr := me.(response := WaitError)])
         else
           var child := me.deceased[0];
           && child in s.procs
           && var code := s.procs[child].exitCode;
              Reap(s).state == s.(procs := s.procs[s.curr := me.(deceased := me.deceased[1..],
                reaped := me.reaped + [(child, code)], response := WaitReturned(child, code))])
  {
  }

  class Kernel {
    const idle: Pcb
    var curr: Pcb
    var ready: seq<Pcb>
    var blocked: seq<Pcb>
    var defunct: seq<Pcb>
    ghost var table: map<Pid, Pcb>

    ghost predicate IsKnown(b: Pcb)
      reads this
    {
      b.pid in table && table[b.pid] == b
    }

    ghost predicate Known(q: seq<Pcb>)
      reads this
    {
      forall i :: 0 <= i < |q| ==> IsKnown(q[i])
    }

    ghost predicate KnownBlock(b: Pcb)
      reads this, b
    {
      && Known(b.children) && Known(b.deceased)
      && (b.parent != null ==> IsKnown(b.parent))
    }

    /** All process blocks that can be reached are the registered ones. */
    ghost predicate Valid()
      reads this, table.Values
    {
      && (forall p :: p in table ==> table[p].pid == p)
      && IsKnown(idle) && IsKnown(curr) && Known(ready) && Known(blocked) && Known(defunct)
      && (forall p :: p in table ==> KnownBlock(table[p]))
    }

    ghost function Abs(): State
      reads this, table.Values
    {
      State(idle.pid, curr.pid, Ids(ready), Ids(blocked), Ids(defunct),
            map p | p in table :: table[p].Value())
    }

    /** The process part of KernelStart: idle runs, init is ready. */
    constructor (idlePid: Pid, initPid: Pid)
      requires idlePid != initPid
      ensures Valid() && fresh(table.Values)
      ensures Abs() == Boot(idlePid, initPid) && Inv(Abs())
    {
      var idlePcb := new Pcb(idlePid, User, 0);
      var initPcb := new Pcb(initPid, FirstRun, 1);
      idle := idlePcb;
      curr := idlePcb;
      ready := [initPcb];
      blocked, defunct := [], [];
      table := map[idlePid := idlePcb, initPid := initPcb];
      new;
      assert Ids([initPcb]) == [initPid];
      BootKeeps(idlePid, initPid);
    }

    /** One process block was written: the others, and what is known about them, are as before. */
    twostate lemma OneWritten(b: Pcb)
      requires old(Valid()) && table == old(table) && IsKnown(b)
      requires forall p :: p in table && p != b.pid ==> unchanged(table[p])
      ensures Abs().procs == old(Abs()).procs[b.pid := b.Value()]
      ensures KnownBlock(b) ==> forall p :: p in table ==> KnownBlock(table[p])
    {
      OthersKnown(b);
      OthersSame(b);
      ProcsWritten(b);
      hide *;
      forall p | KnownBlock(b) && p in table ensures KnownBlock(table[p]) {
        assert p == b.pid ==> table[p] == b by { OwnBlock(b); }
      }
    }

    twostate lemma OwnBlock(b: Pcb)
      requires IsKnown(b)
      ensures b.pid in table && table[b.pid] == b
    {
    }

    twostate lemma ProcsWritten(b: Pcb)
      requires table == old(table) && b.pid in table && table[b.pid] == b
      requires forall p :: p in table && p != b.pid ==> table[p].Value() == old(table[p].Value())
      ensures Abs().procs == old(Abs()).procs[b.pid := b.Value()]
    {
      hide Ids, Pcb.Value;
    }

    twostate lemma OthersSame(b: Pcb)
      requires old(Valid()) && table == old(table) && IsKnown(b)
      requires forall p :: p in table && p != b.pid ==> unchanged(table[p])
      ensures forall p :: p in table && p != b.pid ==> table[p].Value() == old(table[p].Value())
    {
    }

    /** Only queues of the kernel were written: no process block, nor what is known about them, has changed. */
    twostate lemma QueuesWritten()
      requires old(Valid()) && table == old(table) && forall p :: p in table ==> unchanged(table[p])
      ensures Abs().procs == old(Abs()).procs
      ensures forall p :: p in table ==> KnownBlock(table[p])
    {
      forall p | p in table ensures KnownBlock(table[p]) && table[p].Value() == old(table[p].Value()) {
        assert old(KnownBlock(table[p]));
      }
    }

    twostate lemma OthersKnown(b: Pcb)
      requires old(Valid()) && table == old(table) && IsKnown(b)
      requires forall p :: p in table && p != b.pid ==> unchanged(table[p])
      ensures forall p :: p in table && p != b.pid ==> KnownBlock(table[p])
    {
      forall p | p in table && p != b.pid ensures KnownBlock(table[p]) {
        assert old(KnownBlock(table[p]));
      }
    }

    /** qget on the deceased children, and the result of Wait. */
    method ReapFirst()
      requires Valid() && Reap(Abs()).Ok?
      modifies curr
      ensures Valid() && Abs() == Reap(old(Abs())).state
    {
      ghost var s := Abs();
      ReapUnfolds(s);
      hide Reap;
      assert KnownBlock(curr);
      if curr.deceased == [] {
        curr.response := WaitError;
      } else {
        var firstChild := curr.deceased[0];
        IdsParts(curr.deceased, curr);
        assert IsKnown(firstChild);
        curr.deceased := curr.deceased[1..];
        curr.response := WaitReturned(firstChild.pid, firstChild.exitCode);
        curr.reaped := curr.reaped + [(firstChild.pid, firstChild.exitCode)];
      }
      OneWritten(curr);
    }

    /** The tail of KernelStart that init runs: it becomes a child of idle. */
    method AttachToIdle()
      requires Valid() && Adopt(Abs()).Ok?
      modifies curr, idle
      ensures Valid() && Abs() == Adopt(old(Abs())).state
    {
      ghost var s := Abs();
      assert KnownBlock(curr);
      curr.parent := idle;
      OneWritten(curr);
      ghost var s1 := s.(procs := s.procs[curr.pid := s.procs[curr.pid].(parent := Some(idle.pid))]);
      assert Valid() && Abs() == s1;
      AppendToIdle();
    }

    /** qput on idle's children */
    method AppendToIdle()
      requires Valid()
      modifies idle
      ensures Valid() && table == old(table)
      ensures Abs() == old(Abs()).(procs := old(Abs()).procs[idle.pid := old(idle.Value()).(
                children := Ids(old(idle.children)) + [curr.pid],
                forked := old(idle.forked) + [curr.pid])])
    {
      assert KnownBlock(idle);
      IdsParts(idle.children, curr);
      idle.children := idle.children + [curr];
      idle.forked := idle.forked + [curr.pid];
      OneWritten(idle);
    }

    /** The process that was just dispatched continues inside the kernel where it was switched out. */
    method ResumeCurrent()
      requires Valid() && Resume(Abs()).Ok?
      modifies curr, idle
      ensures Valid() && Abs() == Resume(old(Abs())).state
    {
      hide Reap, Adopt;
      var at := curr.cont;
      if at == User {
        return;
      }
      assert KnownBlock(curr);
      curr.cont := User;
      if at == InFork {
        curr.response := ForkReturned(0);
      }
      OneWritten(curr);
      if at == InWait {
        ReapFirst();
      } else if at == FirstRun {
        AttachToIdle();
      }
    }

    /** Requeues the current process if it can go on, then takes the head of the ready queue. */
    method RequeueAndTake() returns (nextPcb: Pcb?)
      requires Valid()
      modifies this`ready
      ensures Valid() && table == old(table)
      ensures var q := Requeued(old(Abs()));
        && (nextPcb == null <==> q == [])
        && (nextPcb != null ==> IsKnown(nextPcb) && nextPcb.pid == q[0])
        && Abs() == old(Abs()).(ready := if q == [] then [] else q[1..])
    {
      Requeue();
      nextPcb := TakeReady();
    }

    method Requeue()
      requires Valid()
      modifies this`ready
      ensures Valid() && table == old(table)
      ensures Abs() == old(Abs()).(ready := Requeued(old(Abs())))
    {
      IdsFind(blocked, curr.pid);
      IdsFind(defunct, curr.pid);
      var isBlocked := Search(blocked, HasPid(curr.pid)).Some?;
      var isDefunct := Search(defunct, HasPid(curr.pid)).Some?;
      if curr.pid != idle.pid && !isBlocked && !isDefunct {
        PutReady(curr);
      }
    }

    /** qget on the ready queue */
    method TakeReady() returns (nextPcb: Pcb?)
      requires Valid()
      modifies this`ready
      ensures Valid() && table == old(table)
      ensures var q := old(Abs()).ready;
        && (nextPcb == null <==> q == [])
        && (nextPcb != null ==> IsKnown(nextPcb) && nextPcb.pid == q[0])
        && Abs() == old(Abs()).(ready := if q == [] then [] else q[1..])
    {
      if ready == [] {
        return null;
      }
      IdsParts(ready, curr);
      nextPcb := ready[0];
      ready := ready[1..];
      QueuesWritten();
    }

    method SwitchToNextReadyProcess()
      requires Valid() && SwitchToNext(Abs()).Ok?
      modifies this, table.Values
      ensures Valid() && table == old(table)
      ensures Abs() == SwitchToNext(old(Abs())).state
    {
      hide Resume;
      var nextPcb := RequeueAndTake();
      if curr.pid == idle.pid && nextPcb == null {
        return;
      }
      if curr.pid != idle.pid && nextPcb == null {
        nextPcb := idle;
      }
      assert !nextPcb.released;  // its page table is loaded here
      curr := nextPcb;
      assert Abs() == Dispatch(old(Abs()));
      ResumeCurrent();
    }

    // ------------------------------------------------------------ kernel calls

    method TrapClock()
      requires Valid() && Inv(Abs())
      modifies this, table.Values
      ensures Valid() && Inv(Abs()) && table == old(table)
      ensures Ok(Abs()) == Take(old(Abs()), Tick)
    {
      StepSafe(Abs(), Tick);
      hide Inv, SwitchToNext;
      SwitchToNextReadyProcess();
    }

    /** create_process followed by KCCopy: the child will resume inside KernelFork. */
    method CreateProcess(pid: Pid) returns (newPcb: Pcb)
      requires Valid() && pid !in table
      modifies this`table
      ensures Valid() && fresh(newPcb) && newPcb.pid == pid && IsKnown(newPcb)
      ensures table == old(table)[pid := newPcb] && curr == old(curr) && ready == old(ready)
      ensures Abs() == Created(old(Abs()), pid, |old(table)|)
    {
      newPcb := new Pcb(pid, InFork, |table|);
      table := table[pid := newPcb];
      Registered(newPcb);
      RegisteredValue(newPcb);
    }

    /** One more process block is registered, and nothing else has changed. */
    twostate lemma Registered(new b: Pcb)
      requires old(Valid()) && b.pid !in old(table) && table == old(table)[b.pid := b] && fresh(b)
      requires unchanged(this`curr, this`ready, this`blocked, this`defunct)
      requires forall p :: p in old(table) ==> unchanged(table[p])
      requires b.parent == null && b.children == [] && b.deceased == []
      ensures Valid()
    {
      forall p | p in old(table) ensures KnownBlock(table[p]) {
        assert old(KnownBlock(table[p]));
      }
    }

    twostate lemma RegisteredValue(new b: Pcb)
      requires old(Valid()) && b.pid !in old(table) && table == old(table)[b.pid := b] && fresh(b)
      requires forall p :: p in old(table) ==> unchanged(table[p])
      ensures Abs().procs == old(Abs()).procs[b.pid := b.Value()]
    {
      forall p | p in old(table) ensures table[p].Value() == old(table[p].Value()) {}
    }

    method KernelFork(pid: Pid)
      requires Valid() && Inv(Abs()) && curr.pid != idle.pid
      requires pid !in table
      modifies this, curr
      ensures Valid() && Inv(Abs())
      ensures pid in table && fresh(table[pid]) && table == old(table)[pid := table[pid]]
      ensures Ok(Abs()) == Take(old(Abs()), Fork(pid))
    {
      ghost var was := Abs();
      StepSafe(was, Fork(pid));
      assert was.procs.Keys == table.Keys;
      ForkUnfolds(was, pid, Created(was, pid, |table|));
      hide Inv, Take, Created, Linked;
      var newPcb := CreateProcess(pid);
      PutReady(newPcb);
      AddChild(newPcb);
    }

    /** qput on the ready queue */
    method PutReady(b: Pcb)
      requires Valid() && IsKnown(b)
      modifies this`ready
      ensures Valid() && table == old(table)
      ensures Abs() == old(Abs()).(ready := old(Abs()).ready + [b.pid])
    {
      IdsParts(ready, b);
      ready := ready + [b];
      QueuesWritten();
    }

    /** qput on the defunct queue */
    method PutDefunct(b: Pcb)
      requires Valid() && IsKnown(b)
      modifies this`defunct
      ensures Valid() && table == old(table)
      ensures Abs() == old(Abs()).(defunct := old(Abs()).defunct + [b.pid])
    {
      IdsParts(defunct, b);
      defunct := defunct + [b];
      QueuesWritten();
    }

    /** The part of KernelFork that only the parent runs. */
    method AddChild(child: Pcb)
      requires Valid() && IsKnown(child) && child != curr
      modifies curr, child
      ensures Valid() && table == old(table)
      ensures Abs() == Linked(old(Abs()), child.pid)
    {
      LinkParent(child);
      AppendChild(child);
    }

    method LinkParent(child: Pcb)
      requires Valid() && IsKnown(child)
      modifies child
      ensures Valid() && table == old(table)
      ensures var s, c := old(Abs()), old(child.Value());
        Abs() == s.(procs := s.procs[child.pid := c.(parent := Some(curr.pid))])
    {
      assert KnownBlock(child);
      child.parent := curr;
      OneWritten(child);
    }

    /** qput on the children, and what fork returns to the parent */
    method AppendChild(child: Pcb)
      requires Valid() && IsKnown(child)
      modifies curr
      ensures Valid() && table == old(table)
      ensures Abs() == old(Abs()).(procs := old(Abs()).procs[curr.pid := old(curr.Value()).(
                children := Ids(old(curr.children)) + [child.pid],
                forked := old(curr.forked) + [child.pid],
                response := ForkReturned(child.pid))])
    {
      assert KnownBlock(curr);
      IdsParts(curr.children, child);
      curr.children := curr.children + [child];
      curr.forked := curr.forked + [child.pid];
      curr.response := ForkReturned(child.pid);
      OneWritten(curr);
    }

    /** Exit code and resources of the current process. */
    method ReleaseCurrent(status: int)
      requires Valid() && !curr.released
      modifies curr
      ensures Valid()
      ensures Abs() == old(Abs()).(procs := old(Abs()).procs[curr.pid := ExitedProc(old(Abs()), status)])
    {
      assert KnownBlock(curr);
      curr.exitCode := status;
      curr.Release();
      OneWritten(curr);
    }

    /** The current process moves from its parent's children to the deceased ones. */
    method MoveToDeceased(parent: Pcb, status: int)
      requires Valid() && IsKnown(parent) && !parent.released
      modifies parent
      ensures Valid()
      ensures Abs() == old(Abs()).(procs := old(Abs()).procs[parent.pid := old(parent.Value()).(
                children := Without(Ids(old(parent.children)), SamePid(curr.pid)),
                deceased := Ids(old(parent.deceased)) + [curr.pid],
                exits := old(parent.exits) + [(curr.pid, status)])])
    {
      assert KnownBlock(parent);
      IdsFind(parent.children, curr.pid);
      IdsParts(parent.deceased, curr);
      parent.children := Without(parent.children, HasPid(curr.pid));
      parent.deceased := parent.deceased + [curr];
      parent.exits := parent.exits + [(curr.pid, status)];
      assert Known(parent.children) by {
        forall i | 0 <= i < |parent.children| ensures IsKnown(parent.children[i]) {
          assert parent.children[i] in old(parent.children);
        }
      }
      OneWritten(parent);
    }

    /** If the parent sleeps in Wait it becomes ready. */
    method Wake(parent: Pcb)
      requires Valid()
      modifies this`blocked, this`ready
      ensures Valid()
      ensures Abs() == old(Abs()).(
                blocked := Without(Ids(old(blocked)), SamePid(parent.pid)),
                ready := if Search(Ids(old(blocked)), SamePid(parent.pid)).Some? then Ids(old(ready)) + [parent.pid]
                         else Ids(old(ready)))
    {
      IdsFind(blocked, parent.pid);
      var inBlockedQueue := Search(blocked, HasPid(parent.pid));
      blocked := Without(blocked, HasPid(parent.pid));
      assert Known(blocked) by {
        forall i | 0 <= i < |blocked| ensures IsKnown(blocked[i]) {
          assert blocked[i] in old(blocked);
        }
      }
      if inBlockedQueue.Some? {
        PutReady(inBlockedQueue.value);
      }
    }

    /** KernelExit of a process whose parent is alive, up to its last queue operation. */
    method ReportToParent(parent: Pcb, status: int)
      requires Valid() && IsKnown(parent) && parent != curr
      requires ReportExit(Abs(), parent.pid, status).Ok? && !curr.released
      modifies this`blocked, this`ready, curr, parent
      ensures Valid()
      ensures Ok(Abs()) == ReportExit(old(Abs()), parent.pid, status)
    {
      ReleaseCurrent(status);
      assert !parent.released;
      MoveToDeceased(parent, status);
      Wake(parent);
    }

    /** KernelExit up to the switch. */
    method LeaveCurrent(status: int)
      requires Valid() && Leave(Abs(), status).Ok? && curr.parent != curr
      modifies this`blocked, this`ready, this`defunct, table.Values
      ensures Valid() && curr == old(curr) && table == old(table)
      ensures Ok(Abs()) == Leave(old(Abs()), status)
    {
      hide ReportExit;
      var parent := curr.parent;
      assert KnownBlock(curr);
      var inDefunctQueue := None;
      if parent != null {
        IdsFind(defunct, parent.pid);
        inDefunctQueue := Search(defunct, HasPid(parent.pid));
      }
      if inDefunctQueue.None? {
        ReportToParent(parent, status);
      }
      PutDefunct(curr);
    }

    method KernelExit(status: int)
      requires Valid() && Inv(Abs()) && curr.pid != idle.pid
      modifies this, table.Values
      ensures Valid() && Inv(Abs()) && table == old(table)
      ensures Ok(Abs()) == Take(old(Abs()), Exit(status))
    {
      ghost var was := Abs();
      StepSafe(was, Exit(status));
      ParentOfRunning(was);
      LeaveRuns(was, status);
      ExitUnfolds(was, status, Leave(was, status).state);
      hide Inv, SwitchToNext, Leave, Take;
      LeaveCurrent(status);
      SwitchToNextReadyProcess();
    }

    method KernelWait()
      requires Valid() && Inv(Abs()) && curr.pid != idle.pid
      modifies this, table.Values
      ensures Valid() && Inv(Abs()) && table == old(table)
      ensures Ok(Abs()) == Take(old(Abs()), Wait)
    {
      hide Inv, SwitchToNext, Reap, Take, Block;
      ghost var was := Abs();
      StepSafe(was, Wait);
      WaitUnfolds(was);
      assert Ids(curr.children) == was.procs[curr.pid].children && Ids(curr.deceased) == was.procs[curr.pid].deceased;
      if curr.children == [] || curr.deceased != [] {
        ReapFirst();
      } else {
        SleepInWait();
      }
    }

    method SleepInWait()
      requires Valid() && SwitchToNext(Block(Abs())).Ok?
      modifies this, table.Values
      ensures Valid() && table == old(table)
      ensures Abs() == SwitchToNext(Block(old(Abs()))).state
    {
      hide SwitchToNext, Block;
      BlockCurrent();
      SwitchToNextReadyProcess();
    }

    method BlockCurrent()
      requires Valid()
      modifies this`blocked, curr
      ensures Valid() && table == old(table) && curr == old(curr)
      ensures Abs() == Block(old(Abs()))
    {
      PutBlocked();
      MarkWaiting();
    }

    /** qput on the blocked queue */
    method PutBlocked()
      requires Valid()
      modifies this`blocked
      ensures Valid() && table == old(table)
      ensures Abs() == old(Abs()).(blocked := old(Abs()).blocked + [curr.pid])
    {
      IdsParts(blocked, curr);
      blocked := blocked + [curr];
      QueuesWritten();
    }

    /** The saved kernel context of the caller lies inside KernelWait. */
    method MarkWaiting()
      requires Valid()
      modifies curr
      ensures Valid() && table == old(table)
      ensures Abs() == old(Abs()).(procs := old(Abs()).procs[curr.pid := old(curr.Value()).(cont := InWait)])
    {
      assert KnownBlock(curr);
      curr.cont := InWait;
      OneWritten(curr);
    }
  }
}
