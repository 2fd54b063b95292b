/** What every step of the process life cycle keeps, and that no step goes wrong. */
module ProcessInvariants {
  import opened Fifo
  import opened Processes

  ghost predicate Live(s: State, p: Pid) {
    p in s.procs && p !in s.defunct
  }

  ghost predicate NoDup<T(!new)>(q: seq<T>) {
    forall i, j :: 0 <= i < j < |q| ==> q[i] != q[j]
  }

  // ------------------------------------------------------------ the invariant

  /** Where each process is: once in one queue, or running. */
  ghost function Placed(s: State): multiset<Pid> {
    multiset(s.ready) + multiset(s.blocked) + multiset(s.defunct)
    + (if Parked(s) then multiset{} else multiset{s.curr})
  }

  /** Every created process but idle is in exactly one place, exactly once. */
  ghost predicate Partition(s: State) {
    && s.idle in s.procs
    && s.curr in s.procs
    && Placed(s) == multiset(s.procs.Keys - {s.idle})
  }

  /** A parent is older than its child; only idle and a process that has not run have none. */
  ghost predicate Descends(s: State, c: Pid) {
    c in s.procs ==>
      var me := s.procs[c];
      && me.birth < |s.procs|
      && (c == s.idle ==> me.parent == None && me.cont == User)
      && (match me.parent
          case None =>
            c == s.idle || (me.cont == FirstRun && s.idle in s.procs && s.procs[s.idle].birth < me.birth)
          case Some(p) =>
            me.cont != FirstRun && p in s.procs && s.procs[p].birth < me.birth)
  }

  /** The child queue of a live process and the parent pointers of live processes agree. */
  ghost predicate Kin(s: State, p: Pid) {
    Live(s, p) ==>
      && !s.procs[p].released
      && NoDup(s.procs[p].children)
      && (forall c :: c in s.procs[p].children <==> Live(s, c) && s.procs[c].parent == Some(p))
  }

  /** Pids paired with the exit codes recorded in their process blocks. */
  ghost function WithCodes(procs: map<Pid, Proc>, q: seq<Pid>): seq<(Pid, int)> {
    seq(|q|, i requires 0 <= i < |q| =>
      (q[i], if q[i] in procs then procs[q[i]].exitCode else 0))
  }

  ghost function Pids(log: seq<(Pid, int)>): seq<Pid> {
    seq(|log|, i requires 0 <= i < |log| => log[i].0)
  }

  /**
   * The exits of children are what was reaped followed by what still waits to be
   * reaped, in exit order; children are forked once and are alive or have exited.
   */
  ghost predicate Booked(s: State, p: Pid) {
    Live(s, p) ==>
      var me := s.procs[p];
      && (forall c :: c in me.deceased ==> c in s.defunct && c in s.procs)
      && me.exits == me.reaped + WithCodes(s.procs, me.deceased)
      && multiset(me.forked) == multiset(me.children) + multiset(Pids(me.exits))
      && NoDup(me.forked)
      && (forall c :: c in me.forked ==> c in s.procs && s.procs[c].parent == Some(p))
  }

  /** Who is blocked sleeps in Wait with a live child; who was woken has something to reap. */
  ghost predicate Waits(s: State, p: Pid) {
    && (p in s.blocked ==>
          && p in s.procs
          && s.procs[p].cont == InWait
          && s.procs[p].deceased == []
          && s.procs[p].children != [])
    && (Live(s, p) && s.procs[p].cont == InWait && p !in s.blocked ==>
          s.procs[p].deceased != [])
  }

  ghost predicate Lineage(s: State) {
    forall p {:trigger Descends(s, p)} :: Descends(s, p)
  }

  ghost predicate Family(s: State) {
    forall p {:trigger Kin(s, p)} :: Kin(s, p)
  }

  ghost predicate Ledger(s: State) {
    forall p {:trigger Booked(s, p)} :: Booked(s, p)
  }

  ghost predicate Waiters(s: State) {
    forall p {:trigger Waits(s, p)} :: Waits(s, p)
  }

  ghost predicate Base(s: State) {
    Partition(s) && Lineage(s) && Family(s) && Ledger(s) && Waiters(s)
  }

  /** The current process is in user mode and in none of the waiting queues. */
  ghost predicate Running(s: State) {
    && s.curr in s.procs
    && s.procs[s.curr].cont == User
    && s.curr !in s.blocked && s.curr !in s.defunct
  }

  ghost predicate Inv(s: State) {
    Base(s) && Running(s)
  }

  // ------------------------------------------------------------ boot

  lemma BootKeeps(idle: Pid, init: Pid)
    requires idle != init
    ensures Inv(Boot(idle, init))
  {
    var s := Boot(idle, init);
    assert s.procs.Keys - {idle} == {init};
    assert multiset(s.ready) == multiset{init};
    assert |s.procs| == 2;
  }

  // ------------------------------------------------------------ dispatch

  /** A process is in at most one queue; idle is in none. */
  lemma OnePlace(s: State, p: Pid)
    requires Partition(s)
    ensures p == s.idle ==> p !in s.ready && p !in s.blocked && p !in s.defunct
    ensures p in s.ready ==> p !in s.blocked && p !in s.defunct && (p == s.curr ==> Parked(s))
    ensures p in s.blocked ==> p !in s.defunct
    ensures p in s.ready || p in s.blocked || p in s.defunct ==> p in s.procs
    ensures p in s.procs && p != s.idle ==>
      p in s.ready || p in s.blocked || p in s.defunct || (p == s.curr && !Parked(s))
    ensures multiset(s.ready)[p] <= 1 && multiset(s.blocked)[p] <= 1
  {
    assert Placed(s)[p] <= 1;
    assert Placed(s)[s.idle] == 0;
    assert multiset(s.ready)[p] + multiset(s.blocked)[p] + multiset(s.defunct)[p] <= Placed(s)[p];
    assert p in s.ready <==> multiset(s.ready)[p] > 0;
    assert p in s.blocked <==> multiset(s.blocked)[p] > 0;
    assert p in s.defunct <==> multiset(s.defunct)[p] > 0;
  }

  lemma DispatchPlaces(s: State)
    requires Partition(s)
    ensures Partition(Dispatch(s))
    ensures Dispatch(s).curr !in s.blocked && Dispatch(s).curr !in s.defunct
  {
    var d := Dispatch(s);
    var ready := Requeued(s);
    OnePlace(s, s.idle);
    assert multiset(ready) == multiset(s.ready) + (if Parked(s) then multiset{} else multiset{s.curr});
    assert Placed(s) == multiset(ready) + multiset(s.blocked) + multiset(s.defunct);
    if ready == [] {
      assert d.ready == [] && Parked(d);
    } else {
      assert ready == [ready[0]] + ready[1..];
      assert multiset(ready) == multiset{ready[0]} + multiset(d.ready);
      OnePlace(s, ready[0]);
      assert ready[0] in s.ready || (ready[0] == s.curr && !Parked(s));
      assert !Parked(d);
    }
  }

  lemma DispatchKeeps(s: State)
    requires Base(s)
    ensures Base(Dispatch(s))
    ensures Dispatch(s).curr !in s.blocked && Dispatch(s).curr !in s.defunct
  {
    var d := Dispatch(s);
    DispatchPlaces(s);
    forall p ensures Descends(d, p) { assert Descends(s, p); }
    forall p ensures Kin(d, p) { assert Kin(s, p); assert forall c :: Live(d, c) == Live(s, c); }
    forall p ensures Booked(d, p) { assert Booked(s, p); }
    forall p ensures Waits(d, p) { assert Waits(s, p); }
  }

  // ------------------------------------------------------------ resuming

  /**
   * Two states whose process blocks differ only in continuation, response and
   * birth-independent bookkeeping of nobody: kinship and books carry over.
   */
  ghost predicate SameKin(s: State, s': State) {
    && s'.idle == s.idle && s'.defunct == s.defunct
    && s'.procs.Keys == s.procs.Keys && |s'.procs| == |s.procs|
    && forall p {:trigger s'.procs[p]} {:trigger s.procs[p]} :: p in s.procs ==>
        s'.procs[p].(cont := User, response := NoResponse)
        == s.procs[p].(cont := User, response := NoResponse)
  }

  lemma SameCodes(procs: map<Pid, Proc>, procs': map<Pid, Proc>, q: seq<Pid>)
    requires forall c :: c in q ==> c in procs && c in procs' && procs[c].exitCode == procs'[c].exitCode
    ensures WithCodes(procs, q) == WithCodes(procs', q)
  {
    forall i | 0 <= i < |q| ensures WithCodes(procs, q)[i] == WithCodes(procs', q)[i] {
      var c := q[i];
      assert c in q;
    }
  }

  lemma SameKinKeeps(s: State, s': State)
    requires Family(s) && Ledger(s) && SameKin(s, s')
    ensures Family(s') && Ledger(s')
  {
    forall p ensures Kin(s', p) {
      assert Kin(s, p);
      assert forall c :: Live(s', c) == Live(s, c);
    }
    forall p ensures Booked(s', p) {
      assert Booked(s, p);
      if Live(s, p) {
        SameCodes(s.procs, s'.procs, s.procs[p].deceased);
      }
    }
  }

  /** The current process is no longer in the middle of the kernel. */
  ghost predicate Returned(s: State, s': State) {
    && s.curr in s.procs && s'.curr == s.curr && s'.idle == s.idle
    && s'.ready == s.ready && s'.blocked == s.blocked && s'.defunct == s.defunct
    && exists r :: s'.procs == s.procs[s.curr := s.procs[s.curr].(cont := User, response := r)]
  }

  lemma ReturnKeeps(s: State, s': State)
    requires Base(s) && Returned(s, s')
    requires s.curr !in s.blocked && s.curr !in s.defunct
    requires s.procs[s.curr].cont != FirstRun
    ensures Inv(s')
  {
    assert s'.procs.Keys == s.procs.Keys;
    SameKinKeeps(s, s');
    forall p ensures Descends(s', p) { assert Descends(s, p); }
    forall p ensures Waits(s', p) { assert Waits(s, p); }
  }

  // ------------------------------------------------------------ reaping

  lemma ReapBooks(s: State)
    requires s.curr in s.procs && Live(s, s.curr) && s.procs[s.curr].deceased != []
    requires Booked(s, s.curr) && Reap(s).Ok?
    ensures Booked(Reap(s).state, s.curr)
  {
    var me := s.procs[s.curr];
    var s' := Reap(s).state;
    var me' := s'.procs[s.curr];
    assert me.deceased == [me.deceased[0]] + me'.deceased;
    assert forall c :: c in me'.deceased ==> c in me.deceased;
    SameCodes(s.procs, s'.procs, me'.deceased);
    assert WithCodes(s.procs, me.deceased)
        == [(me.deceased[0], s.procs[me.deceased[0]].exitCode)] + WithCodes(s.procs, me'.deceased);
  }

  lemma ReapKeeps(s: State)
    requires Base(s) && s.curr in s.procs && s.procs[s.curr].cont == User
    requires s.curr !in s.blocked && s.curr !in s.defunct
    ensures Reap(s).Ok? && Inv(Reap(s).state)
  {
    assert Kin(s, s.curr);
    assert Booked(s, s.curr);
    var me := s.procs[s.curr];
    if me.deceased == [] {
      ReturnKeeps(s, Reap(s).state);
    } else {
      var child := me.deceased[0];
      assert child in me.deceased && child in s.procs;
      var s' := Reap(s).state;
      assert s'.procs.Keys == s.procs.Keys;
      forall p ensures Descends(s', p) { assert Descends(s, p); }
      forall p ensures Kin(s', p) { assert Kin(s, p); assert forall c :: Live(s', c) == Live(s, c); }
      forall p ensures Waits(s', p) { assert Waits(s, p); }
      forall p ensures Booked(s', p) {
        assert Booked(s, p);
        if p == s.curr {
          ReapBooks(s);
        } else if Live(s, p) {
          SameCodes(s.procs, s'.procs, s.procs[p].deceased);
        }
      }
    }
  }

  // ------------------------------------------------------------ first run of init

  lemma AdoptBooksOfIdle(s: State, s': State)
    requires Booked(s, s.idle) && Live(s, s.curr) && s.curr != s.idle && s.idle in s.procs
    requires s.procs[s.curr].parent == None && Adopt(s) == Ok(s')
    ensures Booked(s', s.idle)
  {
    var me, me' := s.procs[s.idle], s'.procs[s.idle];
    if Live(s, s.idle) {
      SameCodes(s.procs, s'.procs, me.deceased);
      assert multiset(me'.forked) == multiset(me.forked) + multiset{s.curr};
      assert multiset(me'.children) == multiset(me.children) + multiset{s.curr};
      assert s.curr !in me.forked;
    }
  }

  lemma AdoptBooks(s: State, s': State)
    requires Ledger(s) && Live(s, s.curr) && s.curr != s.idle && s.idle in s.procs
    requires s.procs[s.curr].parent == None && Adopt(s) == Ok(s')
    ensures Ledger(s')
  {
    assert s'.procs.Keys == s.procs.Keys;
    forall p ensures Booked(s', p) {
      assert Booked(s, p);
      if p == s.idle {
        AdoptBooksOfIdle(s, s');
      } else if Live(s, p) {
        SameCodes(s.procs, s'.procs, s.procs[p].deceased);
      }
    }
  }

  lemma AdoptKin(s: State, s': State)
    requires Family(s) && Live(s, s.curr) && Live(s, s.idle) && s.curr != s.idle
    requires s.procs[s.curr].parent == None && Adopt(s) == Ok(s')
    ensures Family(s')
  {
    assert s'.procs.Keys == s.procs.Keys;
    forall p ensures Kin(s', p) {
      assert Kin(s, p);
      assert forall c :: Live(s', c) == Live(s, c);
    }
  }

  lemma AdoptLineage(s: State, s': State)
    requires Lineage(s) && s.curr in s.procs && s.idle in s.procs && s.curr != s.idle
    requires s.procs[s.idle].birth < s.procs[s.curr].birth
    requires Adopt(s.(procs := s.procs[s.curr := s.procs[s.curr].(cont := User)])) == Ok(s')
    ensures Lineage(s')
  {
    assert s'.procs.Keys == s.procs.Keys;
    assert |s'.procs| == |s'.procs.Keys| == |s.procs|;
    forall p ensures Descends(s', p) { assert Descends(s, p); }
  }

  lemma AdoptWaits(s: State, s': State)
    requires Waiters(s) && s.curr in s.procs && s.procs[s.curr].cont == FirstRun
    requires Adopt(s.(procs := s.procs[s.curr := s.procs[s.curr].(cont := User)])) == Ok(s')
    ensures Waiters(s')
  {
    forall p ensures Waits(s', p) { assert Waits(s, p); }
  }

  lemma AdoptKeeps(s: State, s1: State)
    requires Base(s) && s.curr in s.procs && s.procs[s.curr].cont == FirstRun
    requires s1 == s.(procs := s.procs[s.curr := s.procs[s.curr].(cont := User)])
    requires s.curr !in s.blocked && s.curr !in s.defunct
    ensures Adopt(s1).Ok? && Inv(Adopt(s1).state)
  {
    OnePlace(s, s.idle);
    assert Descends(s, s.idle) && Descends(s, s.curr) && Kin(s, s.idle);
    var s' := Adopt(s1).state;
    assert s1.procs.Keys == s.procs.Keys && s'.procs.Keys == s.procs.Keys;
    SameKinKeeps(s, s1);
    AdoptBooks(s1, s');
    AdoptKin(s1, s');
    AdoptLineage(s, s');
    AdoptWaits(s, s');
  }

  lemma ResumeKeeps(s: State)
    requires Base(s) && s.curr in s.procs
    requires s.curr !in s.blocked && s.curr !in s.defunct
    ensures Resume(s).Ok? && Inv(Resume(s).state)
  {
    var me := s.procs[s.curr];
    var s1 := s.(procs := s.procs[s.curr := me.(cont := User)]);
    match me.cont
    case User =>
    case InFork =>
      ReturnKeeps(s, Resume(s).state);
    case InWait =>
      assert s1.procs == s.procs[s.curr := me.(cont := User, response := me.response)];
      ReturnKeeps(s, s1);
      ReapKeeps(s1);
    case FirstRun =>
      AdoptKeeps(s, s1);
  }

  lemma SwitchKeeps(s: State)
    requires Base(s)
    ensures SwitchToNext(s).Ok? && Base(SwitchToNext(s).state)
    ensures s.curr != s.idle || Running(s) ==> Inv(SwitchToNext(s).state)
  {
    DispatchKeeps(s);
    var d := Dispatch(s);
    assert Kin(d, d.curr);
    if s.curr == s.idle && Requeued(s) == [] {
      assert d == s;
    } else {
      ResumeKeeps(d);
    }
  }

  // ------------------------------------------------------------ blocking

  lemma BlockKeeps(s: State)
    requires Inv(s) && s.curr != s.idle
    requires s.procs[s.curr].children != [] && s.procs[s.curr].deceased == []
    ensures Base(Block(s)) && Block(s).curr == s.curr && Block(s).idle == s.idle
  {
    var s' := Block(s);
    assert s'.procs.Keys == s.procs.Keys;
    assert multiset(s'.blocked) == multiset(s.blocked) + multiset{s.curr};
    SameKinKeeps(s, s');
    forall p ensures Descends(s', p) { assert Descends(s, p); }
    forall p ensures Waits(s', p) { assert Waits(s, p); }
  }

  // ------------------------------------------------------------ fork

  lemma ForkKin(s: State, child: Pid)
    requires Family(s) && Lineage(s) && Live(s, s.curr) && child !in s.procs && child !in s.defunct
    requires ForkStep(s, child).Ok?
    ensures Family(ForkStep(s, child).state)
  {
    var s' := ForkStep(s, child).state;
    assert s'.procs.Keys == s.procs.Keys + {child};
    forall p ensures Kin(s', p) {
      assert Kin(s, p);
      assert forall c :: Live(s', c) <==> Live(s, c) || c == child;
      if p == child {
        forall c | Live(s', c) ensures s'.procs[c].parent != Some(child) {
          assert Descends(s, c);
        }
      } else if p == s.curr && Live(s', p) {
        assert forall c :: c in s'.procs[p].children <==> c in s.procs[p].children || c == child;
      }
    }
  }

  lemma ForkBooks(s: State, child: Pid)
    requires Ledger(s) && Live(s, s.curr) && child !in s.procs && child !in s.defunct
    requires ForkStep(s, child).Ok?
    ensures Ledger(ForkStep(s, child).state)
  {
    var s' := ForkStep(s, child).state;
    forall p ensures Booked(s', p) {
      assert Booked(s, p);
      if Live(s, p) {
        SameCodes(s.procs, s'.procs, s.procs[p].deceased);
      }
    }
  }

  lemma ForkPlaces(s: State, child: Pid)
    requires Partition(s) && Running(s) && child !in s.procs && s.curr != s.idle
    requires ForkStep(s, child).Ok?
    ensures Partition(ForkStep(s, child).state)
  {
    var s' := ForkStep(s, child).state;
    var all := s.procs.Keys - {s.idle};
    assert s'.procs.Keys - {s.idle} == all + {child};
    assert multiset(all + {child}) == multiset(all) + multiset{child};
    assert multiset(s'.ready) == multiset(s.ready) + multiset{child};
  }

  lemma ForkKeeps(s: State, child: Pid)
    requires Inv(s) && child !in s.procs && s.curr != s.idle
    ensures ForkStep(s, child).Ok? && Inv(ForkStep(s, child).state)
  {
    assert Kin(s, s.curr);
    OnePlace(s, child);
    OnePlace(s, s.curr);
    var s' := ForkStep(s, child).state;
    assert s'.procs.Keys == s.procs.Keys + {child};
    assert |s'.procs| == |s'.procs.Keys| == |s.procs.Keys| + 1;
    ForkPlaces(s, child);
    ForkKin(s, child);
    ForkBooks(s, child);
    forall p ensures Descends(s', p) { assert Descends(s, p) && Descends(s, s.curr); }
    forall p ensures Waits(s', p) { assert Waits(s, p); }
  }

  // ------------------------------------------------------------ exit

  lemma WithoutOnce(q: seq<Pid>, p: Pid)
    requires NoDup(q)
    ensures NoDup(Without(q, SamePid(p)))
    ensures forall c :: c in Without(q, SamePid(p)) <==> c in q && c != p
    ensures Search(q, SamePid(p)) == if p in q then Some(p) else None
  {
    var i := Find(q, SamePid(p));
    if i < |q| {
      assert q[i] == p;
      var w := Without(q, SamePid(p));
      assert forall k :: 0 <= k < |w| ==> w[k] == q[if k < i then k else k + 1];
      forall c | c in q && c != p ensures c in w {
        var k :| 0 <= k < |q| && q[k] == c;
        assert w[if k < i then k else k - 1] == c;
      }
    }
  }

  /** KernelExit of a process whose parent is alive, up to the switch. */
  ghost predicate Reports(s: State, parent: Pid, status: int, s': State) {
    && Inv(s) && s.curr != s.idle
    && s.procs[s.curr].parent == Some(parent) && Live(s, parent)
    && Leave(s, status) == Ok(s')
  }

  lemma ParentOfRunning(s: State)
    requires Inv(s) && s.curr != s.idle
    ensures s.procs[s.curr].parent.Some?
    ensures var p := s.procs[s.curr].parent.value;
            && p in s.procs && p != s.curr
            && (Live(s, p) ==> s.curr in s.procs[p].children && !s.procs[p].released)
  {
    assert Descends(s, s.curr);
    var p := s.procs[s.curr].parent.value;
    assert Kin(s, p);
    assert Live(s, s.curr);
  }

  lemma LeaveRuns(s: State, status: int)
    requires Inv(s) && s.curr != s.idle
    ensures Leave(s, status).Ok?
  {
    ParentOfRunning(s);
    assert Kin(s, s.curr);
    var p := s.procs[s.curr].parent.value;
    if Live(s, p) {
      assert Kin(s, p);
      WithoutOnce(s.procs[p].children, s.curr);
    }
  }

  lemma NoDupByCount(q: seq<Pid>)
    requires forall p :: multiset(q)[p] <= 1
    ensures NoDup(q)
  {
    forall i, j | 0 <= i < j < |q| ensures q[i] != q[j] {
      var p, rest := q[i], q[i + 1..];
      assert q == q[..i] + [p] + rest;
      assert multiset(q) == multiset(q[..i]) + multiset{p} + multiset(rest);
      assert multiset(q)[p] == 1 && multiset(rest)[p] == 0;
      assert q[j] == rest[j - i - 1];
      assert rest[j - i - 1] in multiset(rest);
    }
  }

  lemma BlockedOnce(s: State)
    requires Inv(s)
    ensures NoDup(s.blocked)
  {
    forall p ensures multiset(s.blocked)[p] <= 1 { OnePlace(s, p); }
    NoDupByCount(s.blocked);
  }

  lemma ReportQueues(s: State, parent: Pid, status: int, s': State)
    requires Reports(s, parent, status, s')
    ensures forall p :: p in s'.blocked <==> p in s.blocked && p != parent
    ensures forall p :: p in s'.defunct <==> p in s.defunct || p == s.curr
    ensures multiset(s'.ready) + multiset(s'.blocked) == multiset(s.ready) + multiset(s.blocked)
    ensures multiset(s'.defunct) == multiset(s.defunct) + multiset{s.curr}
  {
    hide Base, NoDup;
    ParentOfRunning(s);
    BlockedOnce(s);
    WithoutOnce(s.blocked, parent);
    WithoutMultiset(s.blocked, SamePid(parent));
  }

  lemma ReportPlaces(s: State, parent: Pid, status: int, s': State)
    requires Reports(s, parent, status, s')
    ensures Partition(s') && Parked(s')
    ensures forall p :: p in s'.blocked <==> p in s.blocked && p != parent
    ensures forall p :: p in s'.defunct <==> p in s.defunct || p == s.curr
  {
    ReportQueues(s, parent, status, s');
    ParentOfRunning(s);
    assert s'.procs.Keys == s.procs.Keys;
  }

  lemma ReportWaits(s: State, parent: Pid, status: int, s': State)
    requires Reports(s, parent, status, s')
    requires forall p :: p in s'.blocked <==> p in s.blocked && p != parent
    requires forall p :: p in s'.defunct <==> p in s.defunct || p == s.curr
    ensures Waiters(s')
  {
    ParentOfRunning(s);
    forall p ensures Waits(s', p) { assert Waits(s, p); }
  }

  lemma ReportLineage(s: State, parent: Pid, status: int, s': State)
    requires Reports(s, parent, status, s')
    ensures Lineage(s')
  {
    ParentOfRunning(s);
    assert s'.procs.Keys == s.procs.Keys;
    assert |s'.procs| == |s'.procs.Keys| == |s.procs|;
    forall p ensures Descends(s', p) { assert Descends(s, p); }
  }

  lemma ReportKin(s: State, parent: Pid, status: int, s': State)
    requires Reports(s, parent, status, s')
    requires forall p :: p in s'.defunct <==> p in s.defunct || p == s.curr
    ensures Family(s')
  {
    ParentOfRunning(s);
    assert s'.procs.Keys == s.procs.Keys;
    assert Kin(s, parent);
    WithoutOnce(s.procs[parent].children, s.curr);
    forall p ensures Kin(s', p) {
      assert Kin(s, p);
      assert forall c :: Live(s', c) <==> Live(s, c) && c != s.curr;
    }
  }

  lemma ReportBooksOfParent(s: State, parent: Pid, status: int, s': State)
    requires Reports(s, parent, status, s')
    requires forall p :: p in s'.defunct <==> p in s.defunct || p == s.curr
    ensures Booked(s', parent)
  {
    ParentOfRunning(s);
    assert Kin(s, parent) && Booked(s, parent);
    var me := s.procs[parent];
    WithoutOnce(me.children, s.curr);
    WithoutMultiset(me.children, SamePid(s.curr));
    ParentAfter(s, parent, status, s');
    hide Leave, Find, Without, Search, Kin, WithCodes, Pids, Inv;
    SameCodes(s.procs, s'.procs, me.deceased);
    LogsAppended(s'.procs, me.deceased, s.curr, me.exits, status);
    MovesOne(multiset(me.forked), multiset(me.children), multiset(Without(me.children, SamePid(s.curr))),
             Pids(me.exits), s.curr);
  }

  /** What an exit leaves in the process blocks, as far as the logs are concerned. */
  lemma ParentAfter(s: State, parent: Pid, status: int, s': State)
    requires Reports(s, parent, status, s')
    ensures var me := s.procs[parent];
      && parent != s.curr && s'.procs.Keys == s.procs.Keys
      && s'.procs[parent] == me.(children := Without(me.children, SamePid(s.curr)),
                                 deceased := me.deceased + [s.curr],
                                 exits := me.exits + [(s.curr, status)])
      && s'.procs[s.curr].exitCode == status
      && forall p :: p in s.procs ==>
          && s'.procs[p].parent == s.procs[p].parent
          && (p != s.curr ==> s'.procs[p].exitCode == s.procs[p].exitCode)
  {
    ParentOfRunning(s);
  }

  lemma MovesOne(all: multiset<Pid>, live: multiset<Pid>, live': multiset<Pid>, dead: seq<Pid>, p: Pid)
    requires all == live + multiset(dead) && live == live' + multiset{p}
    ensures all == live' + multiset(dead + [p])
  {
    assert multiset(dead + [p]) == multiset(dead) + multiset{p};
  }

  lemma LogsAppended(procs: map<Pid, Proc>, q: seq<Pid>, p: Pid, log: seq<(Pid, int)>, code: int)
    requires p in procs
    ensures WithCodes(procs, q + [p]) == WithCodes(procs, q) + [(p, procs[p].exitCode)]
    ensures Pids(log + [(p, code)]) == Pids(log) + [p]
  {
  }

  lemma ReportBooks(s: State, parent: Pid, status: int, s': State)
    requires Reports(s, parent, status, s')
    requires forall p :: p in s'.defunct <==> p in s.defunct || p == s.curr
    ensures Ledger(s')
  {
    ParentOfRunning(s);
    forall p ensures Booked(s', p) {
      assert Booked(s, p);
      if p == parent {
        ReportBooksOfParent(s, parent, status, s');
      } else if Live(s', p) {
        SameCodes(s.procs, s'.procs, s.procs[p].deceased);
      }
    }
  }

  lemma OrphanKeeps(s: State, status: int)
    requires Inv(s) && s.curr != s.idle
    requires s.procs[s.curr].parent.Some? && s.procs[s.curr].parent.value in s.defunct
    requires Leave(s, status).Ok?
    ensures Base(Leave(s, status).state)
  {
    ParentOfRunning(s);
    var s' := Leave(s, status).state;
    assert multiset(s'.defunct) == multiset(s.defunct) + multiset{s.curr};
    forall p ensures Descends(s', p) { assert Descends(s, p); }
    forall p ensures Waits(s', p) { assert Waits(s, p); }
    forall p ensures Kin(s', p) {
      assert Kin(s, p);
      assert forall c :: Live(s', c) <==> Live(s, c) && c != s.curr;
    }
    forall p ensures Booked(s', p) { assert Booked(s, p); }
  }

  lemma LeaveKeeps(s: State, status: int)
    requires Inv(s) && s.curr != s.idle
    ensures Leave(s, status).Ok? && Base(Leave(s, status).state)
    ensures Leave(s, status).state.curr == s.curr && Leave(s, status).state.idle == s.idle
    ensures s.ready <= Leave(s, status).state.ready
  {
    ParentOfRunning(s);
    LeaveRuns(s, status);
    var parent := s.procs[s.curr].parent.value;
    var s' := Leave(s, status).state;
    if parent in s.defunct {
      OrphanKeeps(s, status);
    } else {
      ReportPlaces(s, parent, status, s');
      ReportKin(s, parent, status, s');
      ReportBooks(s, parent, status, s');
      ReportLineage(s, parent, status, s');
      ReportWaits(s, parent, status, s');
    }
  }

  // ------------------------------------------------------------ every step, every run

  lemma TickKeeps(s: State)
    requires Inv(s)
    ensures SwitchToNext(s).Ok? && Inv(SwitchToNext(s).state)
  {
    hide SwitchToNext;
    SwitchKeeps(s);
  }

  lemma ExitKeeps(s: State, status: int)
    requires Inv(s) && s.curr != s.idle
    ensures ExitStep(s, status).Ok? && Inv(ExitStep(s, status).state)
  {
    hide SwitchToNext, Leave, Base;
    LeaveKeeps(s, status);
    SwitchKeeps(Leave(s, status).state);
  }

  lemma WaitKeeps(s: State)
    requires Inv(s) && s.curr != s.idle
    ensures WaitStep(s).Ok? && Inv(WaitStep(s).state)
  {
    hide SwitchToNext, Block, Reap;
    assert Kin(s, s.curr);
    var me := s.procs[s.curr];
    if me.children == [] || me.deceased != [] {
      ReapKeeps(s);
    } else {
      BlockKeeps(s);
      SwitchKeeps(Block(s));
    }
  }

  /** In a good state no enabled step goes wrong, and the next state is good. */
  lemma StepSafe(s: State, e: Step)
    requires Inv(s) && Enabled(s, e)
    ensures Take(s, e).Ok? && Inv(Take(s, e).state)
  {
    hide SwitchToNext, ForkStep, ExitStep, WaitStep, Base;
    match e
    case Tick => TickKeeps(s);
    case Fork(child) => ForkKeeps(s, child);
    case Exit(status) => ExitKeeps(s, status);
    case Wait => WaitKeeps(s);
  }

  lemma {:induction false} RunSafe(s: State, steps: seq<Step>)
    requires Inv(s) && EnabledRun(s, steps)
    ensures Run(s, steps).Ok? && Inv(Run(s, steps).state)
    decreases |steps|
  {
    if steps != [] {
      StepSafe(s, steps[0]);
      RunSafe(Take(s, steps[0]).state, steps[1..]);
    }
  }

  /** From boot no run of enabled steps uses a null parent, a freed object or an empty child queue. */
  lemma KernelNeverFaults(idle: Pid, init: Pid, steps: seq<Step>)
    requires idle != init && EnabledRun(Boot(idle, init), steps)
    ensures Run(Boot(idle, init), steps).Ok? && Inv(Run(Boot(idle, init), steps).state)
  {
    BootKeeps(idle, init);
    RunSafe(Boot(idle, init), steps);
  }

  lemma ReachableInv(s: State)
    requires Reachable(s)
    ensures Inv(s)
  {
    var idle, init, steps :|
      idle != init && EnabledRun(Boot(idle, init), steps) && Run(Boot(idle, init), steps) == Ok(s);
    KernelNeverFaults(idle, init, steps);
  }
}
