/** Frame exclusivity, isolation and kernel stacks over whole runs of the memory system. */
module MemoryTheorems {
  import opened Memory
  import opened ProgramLayout
  import opened MemorySteps

  // ------------------------------------------------------------ runs

  /** A run: each state follows from the one before by the step of the same index. */
  ghost predicate IsRun(run: seq<Vm>, steps: seq<Step>) {
    && |run| == |steps| + 1
    && forall i {:trigger steps[i]} :: 0 <= i < |steps| ==> Shaped(run[i]) && Next(run[i], steps[i], run[i + 1])
  }

  /** None of the first n steps takes the kernel break into the pages used to copy. */
  predicate NoOverrun(steps: seq<Step>, n: nat)
    requires n <= |steps|
  {
    forall i :: 0 <= i < n ==> !Overruns(steps[i])
  }

  lemma {:induction false} RunKeeps(run: seq<Vm>, steps: seq<Step>, n: nat)
    requires IsRun(run, steps) && Inv(run[0]) && n <= |steps| && NoOverrun(steps, n)
    ensures Inv(run[n])
  {
    hide Inv, Next, Shaped, Overruns;
    if n > 0 {
      RunKeeps(run, steps, n - 1);
      assert Next(run[n - 1], steps[n - 1], run[n]);
      NextKeeps(run[n - 1], steps[n - 1], run[n]);
    }
  }

  /** The invariant holds all along a run exactly when no step overruns. */
  lemma {:induction false} RunKeepsExactly(run: seq<Vm>, steps: seq<Step>, n: nat)
    requires IsRun(run, steps) && Inv(run[0]) && n <= |steps|
    ensures (forall k {:trigger run[k]} :: 0 <= k <= n ==> Inv(run[k])) <==> NoOverrun(steps, n)
  {
    hide Inv, Next, Shaped, Overruns;
    if n > 0 {
      RunKeepsExactly(run, steps, n - 1);
      assert Next(run[n - 1], steps[n - 1], run[n]);
      if NoOverrun(steps, n - 1) {
        NextKeeps(run[n - 1], steps[n - 1], run[n]);
      }
    }
  }

  /** Over any run from boot without overrun no frame backs two pages, and every mapped page's frame is marked used. */
  lemma FramesAreExclusive(run: seq<Vm>, steps: seq<Step>, idle: Pid, n: nat, x: Slot, y: Slot)
    requires IsRun(run, steps) && Booted(run[0], idle) && n <= |steps| && NoOverrun(steps, n)
    ensures Shaped(run[n])
    ensures Mapped(run[n], x) ==> Frame(run[n], x) < |run[n].used| && run[n].used[Frame(run[n], x)]
    ensures Mapped(run[n], x) && Mapped(run[n], y) && x != y ==> Frame(run[n], x) != Frame(run[n], y)
  {
    BootKeeps(run[0], idle);
    RunKeeps(run, steps, n);
  }

  // ------------------------------------------------------------ isolation

  /** Every page of p is mapped with the same entry and has the same contents. */
  ghost predicate Untouched(s: Vm, s': Vm, p: Pid)
    requires Shaped(s) && Shaped(s')
  {
    forall x {:trigger OwnedBy(x, p)} :: OwnedBy(x, p) ==>
      EntryOf(s', x) == EntryOf(s, x) && SamePage(s, x, s', x)
  }

  lemma SpawnIsolates(s: Vm, child: Pid, src: seq<Pte>, s': Vm, p: Pid)
    requires Inv(s) && Spawns(s, child, src, s') && p in s.spaces
    ensures Shaped(s') && Untouched(s, s', p)
  {
    forall x | OwnedBy(x, p) ensures EntryOf(s', x) == EntryOf(s, x) && SamePage(s, x, s', x) {
      assert EntryOf(s', x) == EntryOf(s, x);
      assert Mapped(s, x) ==> s.used[Frame(s, x)];
    }
  }

  lemma SwitchIsolates(s: Vm, next: Pid, p: Pid)
    requires Inv(s) && next in s.spaces
    ensures Shaped(Switched(s, next)) && Untouched(s, Switched(s, next), p)
    ensures next != s.curr && p != s.curr ==> Shaped(Exited(s, next)) && Untouched(s, Exited(s, next), p)
  {
    SwitchEntries(s, next);
    var s' := Switched(s, next);
    forall x | OwnedBy(x, p)
      ensures EntryOf(s', x) == EntryOf(s, x) && SamePage(s, x, s', x)
      ensures next != s.curr && p != s.curr ==>
        EntryOf(Exited(s, next), x) == EntryOf(s, x) && SamePage(s, x, Exited(s, next), x)
    {
      assert EntryOf(s', x) == EntryOf(s, x);
      assert Mapped(s, x) ==> s.used[Frame(s, x)];
    }
  }

  /** A step that only rewrites the running process's or the kernel's table touches nobody else. */
  lemma TablesIsolate(s: Vm, s': Vm, p: Pid)
    requires Inv(s) && Shaped(s') && s'.phys == s.phys
    requires forall x {:trigger OwnedBy(x, p)} :: OwnedBy(x, p) ==> EntryOf(s', x) == EntryOf(s, x)
    ensures Untouched(s, s', p)
  {
    forall x | OwnedBy(x, p) ensures SamePage(s, x, s', x) {
      assert EntryOf(s', x) == EntryOf(s, x);
      assert Mapped(s, x) ==> s.used[Frame(s, x)];
    }
  }

  lemma StoreIsolates(s: Vm, y: Slot, off: nat, b: Byte, p: Pid)
    requires Inv(s) && Mapped(s, y) && !OwnedBy(y, p) && off < PAGESIZE && Frame(s, y) < |s.phys|
    ensures var s' := Stored(s, Frame(s, y), off, b);
            Shaped(s') && Untouched(s, s', p)
  {
    var s' := Stored(s, Frame(s, y), off, b);
    StoreKeeps(s, Frame(s, y), off, b);
    forall x | OwnedBy(x, p) ensures EntryOf(s', x) == EntryOf(s, x) && SamePage(s, x, s', x) {
      assert EntryOf(s', x) == EntryOf(s, x);
      assert Mapped(s, x) ==> s.used[Frame(s, x)] && Frame(s, x) != Frame(s, y);
    }
  }

  /** No step of the running process changes a page of another process. */
  lemma StepIsolates(s: Vm, e: Step, s': Vm, p: Pid)
    requires Inv(s) && Next(s, e, s') && p in s.spaces && p != s.curr
    ensures Shaped(s') && Untouched(s, s', p)
  {
    hide Exclusive, Marked, Stacked, Breaks, Spawns, Switched, Exited, Untouched;
    match e
    case Fork(child) => SpawnIsolates(s, child, s.spaces[s.curr].table, s', p);
    case Boot(child) => SpawnIsolates(s, child, NoPages(), s', p);
    case Switch(next) => SwitchIsolates(s, next, p);
    case Exit(next) => SwitchIsolates(s, next, p);
    case Brk(addr) => NextShaped(s, e, s'); TablesIsolate(s, s', p);
    case KernelBrk(addr) => NextShaped(s, e, s'); TablesIsolate(s, s', p);
    case Exec(li, args) => NextShaped(s, e, s'); TablesIsolate(s, s', p);
    case StoreUser(vpn, off, b) => StoreIsolates(s, UserPage(s.curr, vpn), off, b, p);
    case StoreStack(i, off, b) => StoreIsolates(s, StackPage(s.curr, i), off, b, p);
  }

  lemma UntouchedTwice(s: Vm, m: Vm, s': Vm, p: Pid)
    requires Shaped(s) && Shaped(m) && Shaped(s')
    requires Untouched(s, m, p) && Untouched(m, s', p)
    ensures Untouched(s, s', p)
  {
    forall x | OwnedBy(x, p) ensures EntryOf(s', x) == EntryOf(s, x) && SamePage(s, x, s', x) {
      assert EntryOf(m, x) == EntryOf(s, x) && SamePage(s, x, m, x) && SamePage(m, x, s', x);
    }
  }

  /**
   * A process that is switched out finds its kernel stack and its Region 1 pages as it
   * left them, whatever the others do in the meantime, up to and including its dispatch.
   */
  lemma {:induction false} SwitchedOutUnchanged(run: seq<Vm>, steps: seq<Step>, m: nat, n: nat, p: Pid)
    requires IsRun(run, steps) && Inv(run[0]) && m <= n <= |steps| && NoOverrun(steps, n)
    requires forall i {:trigger run[i]} :: m <= i < n ==> p in run[i].spaces && run[i].curr != p
    ensures Shaped(run[m]) && Shaped(run[n]) && Untouched(run[m], run[n], p)
    decreases n
  {
    hide Exclusive, Marked, Stacked, Breaks, Untouched, Next;
    RunKeeps(run, steps, m);
    if m == n {
      UntouchedRefl(run[m], p);
    } else {
      SwitchedOutUnchanged(run, steps, m, n - 1, p);
      RunKeeps(run, steps, n - 1);
      assert Next(run[n - 1], steps[n - 1], run[n]);
      StepIsolates(run[n - 1], steps[n - 1], run[n], p);
      UntouchedTwice(run[m], run[n - 1], run[n], p);
    }
  }

  lemma UntouchedRefl(s: Vm, p: Pid)
    requires Inv(s)
    ensures Untouched(s, s, p)
  {
    TablesIsolate(s, s, p);
  }

  // ------------------------------------------------------------ fork

  /**
   * The child's pages equal the parent's in validity, protection and contents, its kernel
   * stack is the parent's at the copy, the parent is untouched, no frame is shared, and
   * the pages used to copy end invalid.
   */
  lemma ForkIsEqualAndIsolated(s: Vm, child: Pid, s': Vm)
    requires Inv(s) && Next(s, Fork(child), s')
    ensures Shaped(s') && child in s'.spaces && child != s.curr
    ensures forall v :: SamePage(s, UserPage(s.curr, v), s', UserPage(child, v))
    ensures forall i :: 0 <= i < 2 ==>
      && Mapped(s, StackPage(s.curr, i)) && Mapped(s', StackPage(child, i))
      && Frame(s, StackPage(s.curr, i)) < |s.phys| && Frame(s', StackPage(child, i)) < |s'.phys|
      && Content(s', StackPage(child, i)) == Content(s, StackPage(s.curr, i))
      && EntryOf(s', StackPage(child, i)).prot == PROT_RW
    ensures Untouched(s, s', s.curr)
    ensures forall x, y {:trigger OwnedBy(x, s.curr), OwnedBy(y, child)} ::
      OwnedBy(x, s.curr) && OwnedBy(y, child) && Mapped(s', x) && Mapped(s', y) ==> Frame(s', x) != Frame(s', y)
    ensures !s'.kpt[SCRATCH_VPN].valid && !s'.kpt[SCRATCH_VPN + 1].valid
  {
    NextKeeps(s, Fork(child), s');
    SpawnIsolates(s, child, s.spaces[s.curr].table, s', s.curr);
    forall v ensures SamePage(s, UserPage(s.curr, v), s', UserPage(child, v)) {
      assert Mapped(s, UserPage(s.curr, v)) ==> s.used[Frame(s, UserPage(s.curr, v))];
    }
    assert Mapped(s, StackPage(s.curr, 0)) && Mapped(s, StackPage(s.curr, 1));
    forall x, y | OwnedBy(x, s.curr) && OwnedBy(y, child) && Mapped(s', x) && Mapped(s', y)
      ensures Frame(s', x) != Frame(s', y)
    {
      assert x != y;
    }
  }

  // ------------------------------------------------------------ kernel stacks

  /** After a switch the two stack slots of the kernel page table hold the next process's own stack. */
  lemma StackSlotsFollow(s: Vm, next: Pid, s': Vm)
    requires Inv(s) && Next(s, Switch(next), s')
    ensures s'.curr == next
    ensures s'.kpt[STACK_VPN + 1] == StackOf(s, next).page0 && s'.kpt[STACK_VPN] == StackOf(s, next).page1
    ensures Shaped(s') && forall p :: p in s.spaces ==> p in s'.spaces && StackOf(s', p) == StackOf(s, p)
    ensures forall p :: Untouched(s, s', p)
  {
    forall p ensures Untouched(s, s', p) { SwitchIsolates(s, next, p); }
  }

  /** No step of any process changes which frames hold the kernel stack of p. */
  lemma StackStays(s: Vm, e: Step, s': Vm, p: Pid)
    requires Inv(s) && Next(s, e, s') && p in s.spaces && p in s'.spaces
    ensures Shaped(s') && StackOf(s', p) == StackOf(s, p)
  {
    hide Exclusive, Marked, Stacked, Grows, CopiesPages, CopiesStack, LoadsTable, UpToPage, DownToPage;
    NextShaped(s, e, s');
    match e
    case KernelBrk(addr) =>
      var r :| SetsKernelBrk(s, addr, r, s');
      StackAboveBreak(s, addr, r, s');
    case _ =>
  }

  /** The kernel break never reaches the stack slots. */
  lemma StackAboveBreak(s: Vm, addr: nat, r: int, s': Vm)
    requires Shaped(s) && Breaks(s) && SetsKernelBrk(s, addr, r, s')
    ensures |s'.kpt| == MAX_PT_LEN && s'.kpt[STACK_VPN] == s.kpt[STACK_VPN]
    ensures s'.kpt[STACK_VPN + 1] == s.kpt[STACK_VPN + 1]
  {
    assert addr < VMEM_0_LIMIT - 3 * PAGESIZE ==> UpToPage(addr) <= STACK_VPN * PAGESIZE;
  }

  /**
   * Over any run in which p lives, through its own steps and those of others, its kernel stack is in the
   * same two frames; so whenever p runs the two slots of the kernel page table hold p's own entries.
   */
  lemma {:induction false} StackStaysOver(run: seq<Vm>, steps: seq<Step>, m: nat, n: nat, p: Pid)
    requires IsRun(run, steps) && Inv(run[0]) && m <= n <= |steps| && NoOverrun(steps, n)
    requires forall i {:trigger run[i]} :: m <= i <= n ==> p in run[i].spaces
    ensures Shaped(run[m]) && Shaped(run[n]) && StackOf(run[n], p) == StackOf(run[m], p)
    ensures run[n].curr == p ==>
      KStack(run[n].kpt[STACK_VPN + 1], run[n].kpt[STACK_VPN]) == StackOf(run[m], p)
    decreases n
  {
    hide Exclusive, Marked, Stacked, Breaks, Next;
    RunKeeps(run, steps, m);
    if m < n {
      StackStaysOver(run, steps, m, n - 1, p);
      RunKeeps(run, steps, n - 1);
      assert Next(run[n - 1], steps[n - 1], run[n]);
      StackStays(run[n - 1], steps[n - 1], run[n], p);
    }
  }

  /** From a fork on that is the stack that the fork gave to the child, in frames of its own. */
  lemma ForkedStackStays(run: seq<Vm>, steps: seq<Step>, m: nat, n: nat, child: Pid)
    requires IsRun(run, steps) && Inv(run[0]) && m < n <= |steps| && NoOverrun(steps, n)
    requires steps[m] == Fork(child) && forall i {:trigger run[i]} :: m < i <= n ==> child in run[i].spaces
    ensures Shaped(run[m]) && Shaped(run[m + 1]) && Shaped(run[n])
    ensures StackOf(run[n], child) == run[m + 1].spaces[child].kstack
    ensures var k := run[m + 1].spaces[child].kstack;
      Free(run[m].used, k.page0.pfn) && Free(run[m].used, k.page1.pfn) && k.page0.pfn != k.page1.pfn
    ensures run[n].curr == child ==>
      KStack(run[n].kpt[STACK_VPN + 1], run[n].kpt[STACK_VPN]) == run[m + 1].spaces[child].kstack
  {
    hide Exclusive, Marked, Stacked, Breaks, Grows, CopiesPages;
    assert Next(run[m], steps[m], run[m + 1]);
    StackStaysOver(run, steps, m + 1, n, child);
  }

  // ------------------------------------------------------------ heap and stack

  /** The layout of a loaded program, with the page that keeps heap and stack apart. */
  ghost predicate Apart(m: Space)
    requires |m.table| == MAX_PT_LEN
  {
    Laid(m) && m.sp < VMEM_1_LIMIT
  }

  lemma BrkApart(s: Vm, addr: nat, r: int, s': Vm)
    requires Inv(s) && s.spaces[s.curr].brk >= VMEM_1_BASE && SetsBrk(s, addr, r, s')
    requires Apart(s.spaces[s.curr])
    ensures s.curr in s'.spaces && |s'.spaces[s.curr].table| == MAX_PT_LEN && Apart(s'.spaces[s.curr])
  {
    UpAligned(addr);
    var me := s.spaces[s.curr];
    if VMEM_1_BASE <= UpToPage(addr) <= DownToPage(me.sp) {
      hide UpToPage;
      var me' := s'.spaces[s.curr];
      forall v | 0 <= v < MAX_PT_LEN
        ensures me'.table[v].valid <==> v < HeapPages(me') || v > (me.sp - VMEM_1_BASE) / PAGESIZE
      {
        assert me.table[v].valid <==> v < HeapPages(me) || v > (me.sp - VMEM_1_BASE) / PAGESIZE;
      }
    }
  }

  /** Once a process has loaded a program, no step of any process breaks its layout. */
  lemma LayoutStays(s: Vm, e: Step, s': Vm, p: Pid)
    requires Inv(s) && Next(s, e, s') && p in s.spaces && p in s'.spaces
    requires Apart(s.spaces[p])
    ensures Shaped(s') && Apart(s'.spaces[p])
  {
    hide Exclusive, Marked, Stacked, Breaks, Grows, CopiesPages, CopiesStack, UnmapsRange, MapsRange, LoadsTable,
         UpToPage, DownToPage;
    NextShaped(s, e, s');
    match e
    case Fork(_) =>
    case Boot(_) =>
    case Switch(_) =>
    case Exit(_) =>
    case Brk(addr) =>
      if p == s.curr {
        var r :| SetsBrk(s, addr, r, s');
        BrkApart(s, addr, r, s');
      }
    case KernelBrk(_) =>
    case Exec(li, args) =>
      if p == s.curr {
        var r :| Loads(s, li, args, r, s');
        if Fits(li, args) {
          LoadLays(s, li, args, s');
        }
      }
    case StoreUser(_, _, _) =>
    case StoreStack(_, _, _) =>
  }

  /** From an exec on, over any run in which the process lives, its heap and stack stay apart. */
  lemma {:induction false} HeapAndStackStayApart(run: seq<Vm>, steps: seq<Step>, m: nat, n: nat, p: Pid)
    requires IsRun(run, steps) && Inv(run[0]) && m < n <= |steps| && NoOverrun(steps, n)
    requires steps[m].Exec? && run[m].curr == p && Fits(steps[m].li, steps[m].args)
    requires forall i {:trigger run[i]} :: m <= i <= n ==> p in run[i].spaces
    ensures Shaped(run[n]) && Apart(run[n].spaces[p])
    ensures var me := run[n].spaces[p];
      && VMEM_1_BASE <= me.brk <= me.sp < VMEM_1_LIMIT && me.brk % PAGESIZE == 0
      && !me.table[(me.sp - VMEM_1_BASE) / PAGESIZE].valid
      && forall v :: 0 <= v < MAX_PT_LEN ==>
          (me.table[v].valid <==> v < (me.brk - VMEM_1_BASE) / PAGESIZE || v > (me.sp - VMEM_1_BASE) / PAGESIZE)
    decreases n
  {
    hide Exclusive, Marked, Stacked, Breaks, Next;
    RunKeeps(run, steps, n - 1);
    RunKeeps(run, steps, n);
    assert Next(run[n - 1], steps[n - 1], run[n]);
    if n == m + 1 {
      ExecLays(run[m], steps[m].li, steps[m].args, run[n]);
    } else {
      HeapAndStackStayApart(run, steps, m, n - 1, p);
      LayoutStays(run[n - 1], steps[n - 1], run[n], p);
    }
  }

  lemma ExecLays(s: Vm, li: LoadInfo, args: seq<CString>, s': Vm)
    requires Inv(s) && Next(s, Exec(li, args), s') && Fits(li, args)
    ensures Shaped(s') && s.curr in s'.spaces && Apart(s'.spaces[s.curr])
  {
    NextKeeps(s, Exec(li, args), s');
    var r :| Loads(s, li, args, r, s');
    LoadLays(s, li, args, s');
  }
}
