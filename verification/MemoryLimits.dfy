/** Where the memory operations go wrong, on which inputs exactly, and what it costs. */
module MemoryLimits {
  import opened Memory
  import opened MemorySteps
  import opened MemoryTheorems

  // ------------------------------------------------------------ fork and the break

  /**
   * Fork does not copy the break and stack bounds: the child's bounds describe its pages
   * exactly when the parent has no page at all.
   */
  lemma ForkLosesLayout(s: Vm, child: Pid, s': Vm)
    requires Inv(s) && Next(s, Fork(child), s')
    ensures child in s'.spaces && |s'.spaces[child].table| == MAX_PT_LEN
    ensures Laid(s'.spaces[child]) <==> forall v :: 0 <= v < MAX_PT_LEN ==> !s.spaces[s.curr].table[v].valid
  {
    var src, c := s.spaces[s.curr].table, s'.spaces[child];
    assert HeapPages(c) == 0 && (c.sp - VMEM_1_BASE) / PAGESIZE == MAX_PT_LEN;
    assert forall v :: 0 <= v < MAX_PT_LEN ==> c.table[v].valid == src[v].valid;
  }

  /** The number of Region 1 pages below an address that is rounded up. */
  function PagesBelow(addr: nat): int {
    (UpToPage(addr) - VMEM_1_BASE) / PAGESIZE
  }

  /**
   * What that costs: the first break call of a process whose break is still the default one
   * replaces exactly its mapped pages below the new break. Their frames stay marked but back nothing.
   */
  lemma DefaultBreakReplacesPages(s: Vm, addr: nat, s': Vm, v: nat)
    requires Inv(s) && s.spaces[s.curr].brk == VMEM_1_BASE && SetsBrk(s, addr, 0, s')
    requires v < MAX_PT_LEN && s.spaces[s.curr].table[v].valid
    ensures Shaped(s') && s'.curr == s.curr
    ensures var t, t' := s.spaces[s.curr].table, s'.spaces[s.curr].table;
      && (t'[v] != t[v] <==> v < PagesBelow(addr))
      && (v < PagesBelow(addr) ==>
            && t'[v].valid && t'[v].pfn != t[v].pfn
            && t[v].pfn < |s'.used| && s'.used[t[v].pfn]
            && forall x :: Mapped(s', x) ==> Frame(s', x) != t[v].pfn)
  {
    BrkKeeps(s, addr, 0, s');
    var page := UserPage(s.curr, v);
    assert Mapped(s, page);
    if v < PagesBelow(addr) {
      forall x | Mapped(s', x) ensures Frame(s', x) != Frame(s, page) {
        assert EntryOf(s', x) == EntryOf(s, x) || Free(s.used, Frame(s', x));
        if EntryOf(s', x) == EntryOf(s, x) && x != page {
          assert Mapped(s, x);
        }
      }
    }
  }

  /** So a forked child that raises its break loses the copies of its parent's pages below the new break. */
  lemma ForkedChildLosesPages(s: Vm, child: Pid, s1: Vm, s2: Vm, addr: nat, s3: Vm, v: nat)
    requires Inv(s) && Next(s, Fork(child), s1) && Shaped(s1) && Next(s1, Switch(child), s2)
    requires Shaped(s2) && s2.spaces[s2.curr].brk == VMEM_1_BASE && SetsBrk(s2, addr, 0, s3)
    requires v < MAX_PT_LEN && s.spaces[s.curr].table[v].valid && v < PagesBelow(addr)
    ensures s1.spaces[child].brk == VMEM_1_BASE && SamePage(s, UserPage(s.curr, v), s2, UserPage(child, v))
    ensures Shaped(s3) && s3.curr == child
    ensures forall x :: Mapped(s3, x) ==> Frame(s3, x) != Frame(s2, UserPage(child, v))
  {
    hide Inv, Grows, CopiesPages, CopiesStack, SetsBrk, PagesBelow;
    NextKeeps(s, Fork(child), s1);
    NextKeeps(s1, Switch(child), s2);
    ChildsPage(s, child, s1, s2, v);
    DefaultBreakReplacesPages(s2, addr, s3, v);
  }

  lemma ChildsPage(s: Vm, child: Pid, s1: Vm, s2: Vm, v: nat)
    requires Inv(s) && Next(s, Fork(child), s1) && Inv(s1) && Next(s1, Switch(child), s2)
    requires v < MAX_PT_LEN && s.spaces[s.curr].table[v].valid
    ensures Shaped(s2) && SamePage(s, UserPage(s.curr, v), s2, UserPage(child, v))
    ensures s2.curr == child && child in s2.spaces && s2.spaces[child].table[v].valid
  {
    ForkIsEqualAndIsolated(s, child, s1);
    SwitchIsolates(s1, child, child);
    hide Inv, Next, Exclusive, Marked, Stacked, Breaks;
    assert OwnedBy(UserPage(child, v), child);
    assert SamePage(s, UserPage(s.curr, v), s1, UserPage(child, v));
    assert SamePage(s1, UserPage(child, v), s2, UserPage(child, v));
    assert Mapped(s, UserPage(s.curr, v));
    assert s2.curr == child by { StackSlotsFollow(s1, child, s2); }
  }

  // ------------------------------------------------------------ kernel text and data

  /** The first n pages of the kernel, its text and data, are mapped one to one. */
  ghost predicate KernelImage(s: Vm, n: nat) {
    && |s.kpt| == MAX_PT_LEN && n <= SCRATCH_VPN && n * PAGESIZE <= s.kernelBrk
    && forall v :: 0 <= v < n ==> s.kpt[v].valid && s.kpt[v].pfn == v
  }

  lemma BootedImage(s: Vm, idle: Pid)
    requires Booted(s, idle)
    ensures KernelImage(s, s.kernelBrk / PAGESIZE)
  {
  }

  /** A successful kernel break call leaves them exactly when the address lies in or above their last page. */
  lemma KernelImageExact(s: Vm, addr: nat, s': Vm, n: nat)
    requires Inv(s) && KernelImage(s, n) && SetsKernelBrk(s, addr, 0, s')
    ensures KernelImage(s', n) <==> addr > (n - 1) * PAGESIZE
    ensures n > 0 && addr <= (n - 1) * PAGESIZE ==> !s'.kpt[n - 1].valid
  {
    assert s.kernelBrk <= SCRATCH_VPN * PAGESIZE;
    assert addr <= (n - 1) * PAGESIZE ==> UpToPage(addr) <= (n - 1) * PAGESIZE;
    assert addr > (n - 1) * PAGESIZE && addr < VMEM_0_LIMIT ==> UpToPage(addr) >= n * PAGESIZE;
  }

  /** A kernel break call into the first n - 1 pages. */
  predicate CutsImage(e: Step, n: nat) {
    e.KernelBrk? && e.addr <= (n - 1) * PAGESIZE
  }

  lemma StepKeepsImage(s: Vm, e: Step, s': Vm, n: nat)
    requires Inv(s) && KernelImage(s, n) && Next(s, e, s') && !CutsImage(e, n)
    ensures KernelImage(s', n)
  {
    hide Exclusive, Marked, Stacked, Grows, CopiesPages, CopiesStack, LoadsTable;
    match e
    case KernelBrk(addr) =>
      var r :| SetsKernelBrk(s, addr, r, s');
      if r == 0 {
        KernelImageExact(s, addr, s', n);
      }
    case _ =>
  }

  /** Over any run without overrun in which no kernel break call cuts into them, they stay one to one. */
  lemma {:induction false} KernelImageStays(run: seq<Vm>, steps: seq<Step>, n: nat, k: nat)
    requires IsRun(run, steps) && Inv(run[0]) && KernelImage(run[0], n) && k <= |steps| && NoOverrun(steps, k)
    requires forall i :: 0 <= i < k ==> !CutsImage(steps[i], n)
    ensures KernelImage(run[k], n)
    decreases k
  {
    hide Next, Inv, KernelImage, CutsImage, Overruns;
    if k > 0 {
      KernelImageStays(run, steps, n, k - 1);
      RunKeeps(run, steps, k - 1);
      assert Next(run[k - 1], steps[k - 1], run[k]);
      StepKeepsImage(run[k - 1], steps[k - 1], run[k], n);
    }
  }

  /** From boot on: over any run without overrun in which no kernel break call cuts into the kernel of boot. */
  lemma KernelImageFromBoot(run: seq<Vm>, steps: seq<Step>, idle: Pid, k: nat)
    requires IsRun(run, steps) && Booted(run[0], idle) && k <= |steps| && NoOverrun(steps, k)
    requires forall i :: 0 <= i < k ==> !CutsImage(steps[i], run[0].kernelBrk / PAGESIZE)
    ensures KernelImage(run[k], run[0].kernelBrk / PAGESIZE)
  {
    BootKeeps(run[0], idle);
    BootedImage(run[0], idle);
    KernelImageStays(run, steps, run[0].kernelBrk / PAGESIZE, k);
  }

  lemma SameEntries(s: Vm, s': Vm)
    requires Shaped(s) && Shaped(s') && Exclusive(s) && Marked(s) && Stacked(s) && s'.used == s.used
    requires s'.spaces == s.spaces && forall x {:trigger EntryOf(s', x)} :: EntryOf(s', x) == EntryOf(s, x)
    ensures Exclusive(s') && Marked(s') && Stacked(s')
  {
    hide EntryOf;
    forall x ensures Mapped(s', x) == Mapped(s, x) && Frame(s', x) == Frame(s, x) {
      assert EntryOf(s', x) == EntryOf(s, x);
    }
  }

  /** The break after calls before virtual memory is on: each one only records its address, rounded up. */
  function EarlyBreak(brk: nat, addrs: seq<nat>): nat {
    if addrs == [] then brk else UpToPage(addrs[|addrs| - 1])
  }

  lemma EarlyAligned(brk: nat, addrs: seq<nat>)
    requires brk % PAGESIZE == 0
    ensures EarlyBreak(brk, addrs) % PAGESIZE == 0
  {
    if addrs != [] {
      UpAligned(addrs[|addrs| - 1]);
    }
  }

  /**
   * Calls between the building of the kernel page table and the switch to virtual memory: the state in which
   * idle has been created has the invariant if and only if they have not raised the break.
   */
  lemma EarlyBreakExact(s: Vm, idle: Pid, built: nat, late: seq<nat>)
    requires IdleReady(s, idle, built) && s.kernelBrk == EarlyBreak(built, late)
    ensures Inv(s) <==> s.kernelBrk <= built
  {
    var s0 := s.(kernelBrk := built);
    BootKeeps(s0, idle);
    EarlyAligned(built, late);
    assert Shaped(s);
    assert forall x {:trigger EntryOf(s, x)} :: EntryOf(s, x) == EntryOf(s0, x);
    SameEntries(s0, s);
    hide EntryOf, Exclusive, Marked, Stacked;
    if s.kernelBrk > built {
      var v := built / PAGESIZE;
      assert !s.kpt[v].valid || v >= SCRATCH_VPN;
      assert !Breaks(s);
    }
  }

  /**
   * If they have raised it, the first page that they added is not mapped, and idle's stack page gets its frame:
   * addresses were physical when the page was written.
   */
  lemma EarlyHeapIsTaken(s: Vm, idle: Pid, built: nat, late: seq<nat>)
    requires IdleReady(s, idle, built) && s.kernelBrk == EarlyBreak(built, late) > built
    ensures Shaped(s) && built / PAGESIZE < s.kernelBrk / PAGESIZE
    ensures !Mapped(s, KernelPage(built / PAGESIZE))
    ensures Mapped(s, UserPage(idle, MAX_PT_LEN - 1)) && Frame(s, UserPage(idle, MAX_PT_LEN - 1)) == built / PAGESIZE
  {
    EarlyAligned(built, late);
  }

  /**
   * KernelStart sets the break back to the original one after its first allocations. What those had added stays
   * mapped if and only if the calls behind the reset have raised the break as far again.
   */
  lemma ResetExact(s: Vm, idle: Pid, orig: nat, before: seq<nat>, behind: seq<nat>)
    requires orig % PAGESIZE == 0 && IdleReady(s, idle, EarlyBreak(orig, behind))
    requires EarlyBreak(orig, before) <= SCRATCH_VPN * PAGESIZE
    ensures (forall v :: 0 <= v < EarlyBreak(orig, before) / PAGESIZE ==> s.kpt[v].valid)
       <==> EarlyBreak(orig, before) <= EarlyBreak(orig, behind)
  {
    EarlyAligned(orig, before);
    EarlyAligned(orig, behind);
    var top, b := EarlyBreak(orig, before), EarlyBreak(orig, behind);
    hide EarlyBreak;
    if top > b {
      assert b / PAGESIZE < top / PAGESIZE && !KernelMapped(b, b / PAGESIZE);
    }
  }

  // ------------------------------------------------------------ the kernel heap and the pages used to copy

  /** Such an address: the heap then owns a page that the next fork takes away from it. */
  lemma KernelHeapLosesPage(s: Vm, s': Vm, child: Pid, s'': Vm)
    requires Inv(s) && SetsKernelBrk(s, 0xF8001, 0, s')
    requires Shaped(s') && Next(s', Fork(child), s'')
    ensures SCRATCH_VPN < s'.kernelBrk / PAGESIZE && s'.kpt[SCRATCH_VPN].valid
    ensures SCRATCH_VPN < s''.kernelBrk / PAGESIZE && !s''.kpt[SCRATCH_VPN].valid
  {
  }

  /**
   * An overrun, then a fork, then a lower kernel break: frame 0 is given back although it still
   * backs the first page of kernel text, and it is the next frame that anybody gets.
   */
  lemma OverrunFreesText(s: Vm, addr: nat, s1: Vm, child: Pid, s2: Vm, low: nat, s3: Vm)
    requires Inv(s) && KernelImage(s, 1) && Overruns(KernelBrk(addr)) && SetsKernelBrk(s, addr, 0, s1)
    requires Shaped(s1) && Next(s1, Fork(child), s2)
    requires Shaped(s2) && SetsKernelBrk(s2, low, 0, s3) && 0 < low <= SCRATCH_VPN * PAGESIZE
    ensures Shaped(s3) && Mapped(s3, KernelPage(0)) && Frame(s3, KernelPage(0)) == 0
    ensures !s3.used[0] && !Marked(s3)
    ensures forall f, used' :: TookFirst(s3.used, f, used') ==> f == 0
  {
    OverrunThenFork(s, addr, s1, child, s2);
    FrameZeroFreed(s2, low, s3);
  }

  lemma OverrunThenFork(s: Vm, addr: nat, s1: Vm, child: Pid, s2: Vm)
    requires Inv(s) && KernelImage(s, 1) && Overruns(KernelBrk(addr)) && SetsKernelBrk(s, addr, 0, s1)
    requires Shaped(s1) && Next(s1, Fork(child), s2)
    ensures s2.kernelBrk == (SCRATCH_VPN + 1) * PAGESIZE && |s2.used| > 0
    ensures |s2.kpt| == MAX_PT_LEN && s2.kpt[SCRATCH_VPN].pfn == 0 && s2.kpt[0].valid && s2.kpt[0].pfn == 0
  {
    assert Mapped(s, KernelPage(0));
    hide Exclusive, Stacked, CopiesPages, CopiesStack;
    assert UpToPage(addr) == (SCRATCH_VPN + 1) * PAGESIZE;
  }

  lemma FrameZeroFreed(s2: Vm, low: nat, s3: Vm)
    requires Shaped(s2) && s2.kernelBrk == (SCRATCH_VPN + 1) * PAGESIZE && |s2.used| > 0
    requires s2.kpt[SCRATCH_VPN].pfn == 0 && s2.kpt[0].valid && s2.kpt[0].pfn == 0
    requires SetsKernelBrk(s2, low, 0, s3) && 0 < low <= SCRATCH_VPN * PAGESIZE
    ensures Shaped(s3) && Mapped(s3, KernelPage(0)) && Frame(s3, KernelPage(0)) == 0
    ensures !s3.used[0] && !Marked(s3)
  {
    assert UpToPage(low) <= SCRATCH_VPN * PAGESIZE && UpToPage(low) >= PAGESIZE;
    assert EntryOf(s3, KernelPage(0)) == s3.kpt[0] == s2.kpt[0];
    assert Mapped(s3, KernelPage(0));
  }

  /** The next process that grows its heap by a page then shares the frame of kernel text. */
  lemma OverrunSharesFrame(s3: Vm, addr: nat, s4: Vm)
    requires Shaped(s3) && s3.spaces[s3.curr].brk >= VMEM_1_BASE && BrkMapped(s3.spaces[s3.curr])
    requires Mapped(s3, KernelPage(0)) && Frame(s3, KernelPage(0)) == 0 && |s3.used| > 0 && !s3.used[0]
    requires SetsBrk(s3, addr, 0, s4) && UpToPage(addr) == s3.spaces[s3.curr].brk + PAGESIZE
    requires TookFirst(s3.used, s4.spaces[s3.curr].table[HeapPages(s3.spaces[s3.curr])].pfn, s4.used)
    ensures Shaped(s4) && !Exclusive(s4)
  {
    var v := HeapPages(s3.spaces[s3.curr]);
    BrkSpace(s3, addr, 0, s4);
    assert Mapped(s4, KernelPage(0)) && Mapped(s4, UserPage(s3.curr, v));
    assert Frame(s4, KernelPage(0)) == Frame(s4, UserPage(s3.curr, v));
  }
}
