/** Frames that stay marked although nothing is mapped to them: how many each step loses, and over a run. */
module FrameLeaks {
  import opened Memory
  import opened ProgramLayout
  import opened MemorySteps
  import opened FrameCounts
  import opened MemoryTheorems

  /** Some page is mapped to the frame. */
  ghost predicate Backs(s: Vm, f: nat)
    requires Shaped(s)
  {
    exists x {:trigger Mapped(s, x)} :: Mapped(s, x) && Frame(s, x) == f
  }

  /** Marked, so never handed out again, but mapped nowhere. */
  ghost function Leaked(s: Vm): set<nat>
    requires Shaped(s)
  {
    set f | 0 <= f < |s.used| && s.used[f] && !Backs(s, f)
  }

  // ------------------------------------------------------------ steps that lose nothing

  lemma SameEntriesLeakNothing(s: Vm, s': Vm)
    requires Shaped(s) && Shaped(s') && s'.used == s.used
    requires forall x {:trigger EntryOf(s', x)} :: EntryOf(s', x) == EntryOf(s, x)
    ensures Leaked(s') == Leaked(s)
  {
    hide EntryOf;
    forall f ensures Backs(s', f) <==> Backs(s, f) {
      if Backs(s, f) {
        var x :| Mapped(s, x) && Frame(s, x) == f;
        assert EntryOf(s', x) == EntryOf(s, x) && Mapped(s', x);
      }
      if Backs(s', f) {
        var x :| Mapped(s', x) && Frame(s', x) == f;
        assert EntryOf(s', x) == EntryOf(s, x) && Mapped(s, x);
      }
    }
  }

  // ------------------------------------------------------------ fork and boot

  lemma SpawnBacks(s: Vm, child: Pid, src: seq<Pte>, s': Vm, f: nat)
    requires Inv(s) && Spawns(s, child, src, s')
    ensures Shaped(s') && (Backs(s', f) <==> Backs(s, f) || f in OwnFrames(s'.spaces[child]))
  {
    SpawnKeeps(s, child, src, s');
    var c := s'.spaces[child];
    assert Mapped(s', StackPage(child, 0)) && Mapped(s', StackPage(child, 1));
    hide Exclusive, Marked, Stacked, Breaks, Grows, CopiesPages, CopiesStack, TakesFrames;
    if Backs(s', f) {
      var x :| Mapped(s', x) && Frame(s', x) == f;
      SpawnEntries(s, child, src, s', x);
      if x.UserPage? && x.pid == child {
        assert c.table[x.vpn].pfn == f;
      }
    }
    if Backs(s, f) {
      var x :| Mapped(s, x) && Frame(s, x) == f;
      SpawnEntries(s, child, src, s', x);
      assert Mapped(s', x);
    }
    if f in OwnFrames(c) {
      if f in FramesOf(c.table) {
        var v :| 0 <= v < MAX_PT_LEN && c.table[v].valid && c.table[v].pfn == f;
        assert Mapped(s', UserPage(child, v));
      }
    }
  }

  lemma SpawnLeaksFrame(s: Vm, child: Pid, src: seq<Pte>, s': Vm, a: nat, b: nat, f: nat)
    requires Inv(s) && Spawns(s, child, src, s') && TakesFrames(s.used, s'.spaces[child], a, b, s'.used)
    ensures TwoLowest(s.used, a, b) && Shaped(s')
    ensures f in Leaked(s') <==> f in Leaked(s) || f == a || f == b
  {
    var c := s'.spaces[child];
    SpawnBacks(s, child, src, s', f);
    BackedIsMarked(s, f);
    SpawnedOwns(s, child, src, s');
    hide Inv, Spawns, Backs, OwnFrames, Shaped;
    var used1 :| TookTwo(s.used, a, b, used1) && MarksExactly(used1, OwnFrames(c), s'.used);
  }

  /** Every fork loses exactly two frames, the lowest that were free. */
  lemma SpawnLeaks(s: Vm, child: Pid, src: seq<Pte>, s': Vm)
    requires Inv(s) && Spawns(s, child, src, s')
    ensures Shaped(s') && |Leaked(s')| == |Leaked(s)| + 2
    ensures exists a, b :: TwoLowest(s.used, a, b) && Leaked(s') == Leaked(s) + {a, b}
  {
    SpawnKeeps(s, child, src, s');
    var a, b :| TakesFrames(s.used, s'.spaces[child], a, b, s'.used);
    hide Inv, Backs, TakesFrames, Grows, CopiesPages, CopiesStack;
    forall f ensures f in Leaked(s') <==> f in Leaked(s) + {a, b} {
      SpawnLeaksFrame(s, child, src, s', a, b, f);
    }
    SpawnLeaksFrame(s, child, src, s', a, b, a);
    assert Leaked(s') == Leaked(s) + {a, b};
  }

  lemma BackedIsMarked(s: Vm, f: nat)
    requires Inv(s)
    ensures Backs(s, f) ==> f < |s.used| && s.used[f]
  {
  }

  // ------------------------------------------------------------ exit

  /** The frames of a live process: of its pages and of its stack, wherever that is. */
  ghost function LiveFrames(s: Vm, p: Pid): set<nat>
    requires Shaped(s) && p in s.spaces
  {
    FramesOf(s.spaces[p].table) + StackFrames(StackOf(s, p))
  }

  lemma LiveFramesExact(s: Vm, p: Pid, f: nat)
    requires Inv(s) && p in s.spaces
    ensures f in LiveFrames(s, p)
       <==> exists x {:trigger Mapped(s, x)} :: OwnedBy(x, p) && Mapped(s, x) && Frame(s, x) == f
  {
    var t := s.spaces[p].table;
    assert Mapped(s, StackPage(p, 0)) && Mapped(s, StackPage(p, 1));
    if f in FramesOf(t) {
      var v :| 0 <= v < MAX_PT_LEN && t[v].valid && t[v].pfn == f;
      assert Mapped(s, UserPage(p, v));
    }
    if x :| OwnedBy(x, p) && Mapped(s, x) && Frame(s, x) == f {
      if x.UserPage? {
        assert t[x.vpn].pfn == f;
      }
    }
  }

  lemma LiveFramesSize(s: Vm, p: Pid)
    requires Inv(s) && p in s.spaces
    ensures |LiveFrames(s, p)| == ValidCount(s.spaces[p].table, 0, MAX_PT_LEN) + 2
  {
    var t := s.spaces[p].table;
    TableOwns(s, p);
    FramesInSize(t, 0, MAX_PT_LEN);
    assert Mapped(s, StackPage(p, 0)) && Mapped(s, StackPage(p, 1));
    forall v | 0 <= v < MAX_PT_LEN && t[v].valid
      ensures t[v].pfn != StackOf(s, p).page0.pfn && t[v].pfn != StackOf(s, p).page1.pfn
    {
      assert Mapped(s, UserPage(p, v));
    }
  }

  lemma ExitBacks(s: Vm, next: Pid, f: nat)
    requires Inv(s) && next in s.spaces && next != s.curr
    ensures Shaped(Exited(s, next))
    ensures Backs(Exited(s, next), f) <==> Backs(s, f) && f !in LiveFrames(s, s.curr)
  {
    LiveFramesExact(s, s.curr, f);
    ExitSlots(s, next);
    var s' := Exited(s, next);
    hide Exited, LiveFrames, EntryOf;
    if Backs(s', f) {
      var x :| Mapped(s', x) && Frame(s', x) == f;
      assert !OwnedBy(x, s.curr) && EntryOf(s', x) == EntryOf(s, x) && Mapped(s, x);
    }
    if Backs(s, f) && f !in LiveFrames(s, s.curr) {
      var x :| Mapped(s, x) && Frame(s, x) == f;
      assert EntryOf(s', x) == EntryOf(s, x);
      assert Mapped(s', x);
    }
  }

  lemma ExitSlots(s: Vm, next: Pid)
    requires Shaped(s) && next in s.spaces && next != s.curr
    ensures Shaped(Exited(s, next)) && Exited(s, next).used == s.used
    ensures forall x {:trigger EntryOf(Exited(s, next), x)} {:trigger EntryOf(s, x)} ::
      EntryOf(Exited(s, next), x) == if OwnedBy(x, s.curr) then INVALID else EntryOf(s, x)
  {
  }

  /** Exit loses all frames of the process: its pages and its stack. */
  lemma ExitLeaks(s: Vm, next: Pid)
    requires Inv(s) && next in s.spaces && next != s.curr
    ensures Shaped(Exited(s, next)) && Leaked(Exited(s, next)) == Leaked(s) + LiveFrames(s, s.curr)
    ensures |Leaked(Exited(s, next))| == |Leaked(s)| + ValidCount(s.spaces[s.curr].table, 0, MAX_PT_LEN) + 2
  {
    var s', own := Exited(s, next), LiveFrames(s, s.curr);
    ExitSlots(s, next);
    LiveFramesSize(s, s.curr);
    hide Exited, LiveFrames, Shaped;
    forall f ensures f in Leaked(s') <==> f in Leaked(s) + own
             ensures !(f in Leaked(s) && f in own) {
      ExitBacks(s, next, f);
      BackedIsMarked(s, f);
      LiveFramesExact(s, s.curr, f);
    }
    assert Leaked(s') == Leaked(s) + own && Leaked(s) !! own;
  }

  // ------------------------------------------------------------ breaks

  /** Mapping a range over pages that are mapped loses exactly the frames of those. */
  lemma MapBacks(s: Vm, user: bool, t: seq<Pte>, s': Vm, t': seq<Pte>, lo: nat, hi: nat, f: nat)
    requires Inv(s) && TableSwap(s, user, t, s', t') && MapsRange(t, s.used, lo, hi, t', s'.used)
    requires lo <= hi <= if user then MAX_PT_LEN else STACK_VPN
    ensures Backs(s', f) <==> f in FramesIn(t', lo, hi) || (Backs(s, f) && f !in FramesIn(t, lo, hi))
  {
    IndexInverse(s, user);
    if Backs(s', f) {
      var x :| Mapped(s', x) && Frame(s', x) == f;
      var v := Index(s, user, x);
      if !(lo <= v < hi) {
        assert EntryOf(s', x) == EntryOf(s, x) && Mapped(s, x);
        forall w: nat | lo <= w < hi && t[w].valid ensures t[w].pfn != f {
          assert Index(s, user, PageAt(s, user, w)) == w && Mapped(s, PageAt(s, user, w));
        }
      }
    }
    if Backs(s, f) && f !in FramesIn(t, lo, hi) {
      var x :| Mapped(s, x) && Frame(s, x) == f;
      var v := Index(s, user, x);
      assert !(lo <= v < hi) && EntryOf(s', x) == EntryOf(s, x) && Mapped(s', x);
    }
    if f in FramesIn(t', lo, hi) {
      var w: nat :| lo <= w < hi && w < |t'| && t'[w].valid && t'[w].pfn == f;
      assert Index(s, user, PageAt(s, user, w)) == w && Mapped(s', PageAt(s, user, w));
    }
  }

  lemma MapLeaks(s: Vm, user: bool, t: seq<Pte>, s': Vm, t': seq<Pte>, lo: nat, hi: nat)
    requires Inv(s) && TableSwap(s, user, t, s', t') && MapsRange(t, s.used, lo, hi, t', s'.used)
    requires lo <= hi <= (if user then MAX_PT_LEN else STACK_VPN) && Owns(t, s.used, lo, hi)
    requires forall v :: lo <= v < hi && t[v].valid ==> Backs(s, t[v].pfn)
    ensures Leaked(s') == Leaked(s) + FramesIn(t, lo, hi) && Leaked(s) !! FramesIn(t, lo, hi)
    ensures |Leaked(s')| == |Leaked(s)| + ValidCount(t, lo, hi)
  {
    MapsCount(t, s.used, lo, hi, t', s'.used);
    FramesInSize(t, lo, hi);
    forall f ensures f in Leaked(s') <==> f in Leaked(s) + FramesIn(t, lo, hi) {
      MapBacks(s, user, t, s', t', lo, hi, f);
      BackedIsMarked(s, f);
      hide Inv, MapsRange, TableSwap, Backs, FreeCount;
    }
    assert Leaked(s') == Leaked(s) + FramesIn(t, lo, hi);
  }

  /** Unmapping gives every frame back. */
  lemma UnmapLeaks(s: Vm, user: bool, t: seq<Pte>, s': Vm, t': seq<Pte>, lo: nat, hi: nat)
    requires Inv(s) && TableSwap(s, user, t, s', t') && UnmapsRange(t, s.used, lo, hi, t', s'.used)
    requires lo <= hi <= if user then MAX_PT_LEN else STACK_VPN
    requires forall v :: lo <= v < hi ==> Backs(s, t[v].pfn)
    ensures Leaked(s') == Leaked(s)
  {
    forall f ensures f in Leaked(s') <==> f in Leaked(s) {
      UnmapBacks(s, user, t, s', t', lo, hi, f);
      BackedIsMarked(s, f);
    }
  }

  lemma UnmapBacks(s: Vm, user: bool, t: seq<Pte>, s': Vm, t': seq<Pte>, lo: nat, hi: nat, f: nat)
    requires Inv(s) && TableSwap(s, user, t, s', t') && UnmapsRange(t, s.used, lo, hi, t', s'.used)
    requires lo <= hi <= if user then MAX_PT_LEN else STACK_VPN
    ensures Backs(s', f) ==> Backs(s, f)
    ensures Backs(s, f) && f < |s'.used| && s'.used[f] ==> Backs(s', f)
  {
    IndexInverse(s, user);
    if Backs(s', f) {
      var x :| Mapped(s', x) && Frame(s', x) == f;
      assert EntryOf(s', x) == EntryOf(s, x) && Mapped(s, x);
    }
    if Backs(s, f) && f < |s'.used| && s'.used[f] {
      var x :| Mapped(s, x) && Frame(s, x) == f;
      var v := Index(s, user, x);
      assert v >= 0 && lo <= v < hi ==> t[v].pfn == f;
      assert EntryOf(s', x) == EntryOf(s, x) && Mapped(s', x);
    }
  }

  // ------------------------------------------------------------ exec

  lemma LoadBacks(s: Vm, li: LoadInfo, args: seq<CString>, s': Vm, f: nat)
    requires Inv(s) && Fits(li, args) && Loads(s, li, args, 0, s')
    ensures Shaped(s')
    ensures var t, t' := s.spaces[s.curr].table, s'.spaces[s.curr].table;
      Backs(s', f) <==> f in FramesOf(t') || (Backs(s, f) && f !in FramesOf(t))
  {
    IndexInverse(s, true);
    assert Shaped(s');
    var t, t' := s.spaces[s.curr].table, s'.spaces[s.curr].table;
    assert TableSwap(s, true, t, s', t');
    hide Loads;
    if Backs(s', f) {
      var x :| Mapped(s', x) && Frame(s', x) == f;
      var v := Index(s, true, x);
      if v >= 0 {
        assert t'[v].valid && t'[v].pfn == f;
      } else {
        assert EntryOf(s', x) == EntryOf(s, x) && Mapped(s, x);
        forall w: nat | w < MAX_PT_LEN && t[w].valid ensures t[w].pfn != f {
          assert Index(s, true, PageAt(s, true, w)) == w && Mapped(s, PageAt(s, true, w));
        }
      }
    }
    if Backs(s, f) && f !in FramesOf(t) {
      var x :| Mapped(s, x) && Frame(s, x) == f;
      var v := Index(s, true, x);
      assert v < 0 && EntryOf(s', x) == EntryOf(s, x) && Mapped(s', x);
    }
    if f in FramesOf(t') {
      var w: nat :| w < |t'| && t'[w].valid && t'[w].pfn == f;
      assert Index(s, true, PageAt(s, true, w)) == w && Mapped(s', PageAt(s, true, w));
    }
  }

  lemma LoadLeaks(s: Vm, li: LoadInfo, args: seq<CString>, s': Vm)
    requires Inv(s) && Fits(li, args) && Loads(s, li, args, 0, s')
    ensures Shaped(s') && Leaked(s') == Leaked(s)
  {
    var t, t' := s.spaces[s.curr].table, s'.spaces[s.curr].table;
    LoadBacks(s, li, args, s', 0);
    assert MarksExactly(Released(t, s.used), FramesOf(t'), s'.used);
    forall f | 0 <= f < |s.used| ensures Released(t, s.used)[f] <==> s.used[f] && f !in FramesOf(t) {}
    forall f ensures f in Leaked(s') <==> f in Leaked(s) {
      LoadBacks(s, li, args, s', f);
      BackedIsMarked(s, f);
      OldFramesBacked(s, f);
      hide Inv, Loads, Released, FramesIn, Backs;
    }
  }

  lemma OldFramesBacked(s: Vm, f: nat)
    requires Inv(s)
    ensures f in FramesOf(s.spaces[s.curr].table) ==> Backs(s, f)
  {
    var t := s.spaces[s.curr].table;
    if f in FramesOf(t) {
      var w: nat :| w < |t| && t[w].valid && t[w].pfn == f;
      assert Mapped(s, UserPage(s.curr, w));
    }
  }

  // ------------------------------------------------------------ every step, and runs

  /** Number of valid pages that a raised break maps again. */
  ghost function Remapped(t: seq<Pte>, lo: int, hi: int): nat {
    if 0 <= lo <= hi <= |t| then ValidCount(t, lo, hi) else 0
  }

  /** How many frames a step loses. */
  ghost function Loss(s: Vm, e: Step): nat
    requires Shaped(s)
  {
    var me := s.spaces[s.curr];
    match e
    case Fork(_) => 2
    case Boot(_) => 2
    case Exit(_) => ValidCount(me.table, 0, MAX_PT_LEN) + 2
    case Brk(addr) =>
      if VMEM_1_BASE <= UpToPage(addr) <= DownToPage(me.sp) then
        Remapped(me.table, HeapPages(me), (UpToPage(addr) - VMEM_1_BASE) / PAGESIZE)
      else 0
    case KernelBrk(addr) =>
      if s.kernelBrk < addr < VMEM_0_LIMIT - 3 * PAGESIZE then
        Remapped(s.kpt, s.kernelBrk / PAGESIZE, UpToPage(addr) / PAGESIZE)
      else 0
    case _ => 0
  }

  /** The end of a heap moves from page lo to page hi. */
  lemma MoveLeaks(s: Vm, user: bool, t: seq<Pte>, s': Vm, t': seq<Pte>, lo: nat, hi: nat)
    requires Inv(s) && TableSwap(s, user, t, s', t') && Owns(t, s.used, 0, if user then MAX_PT_LEN else STACK_VPN)
    requires lo <= (if user then MAX_PT_LEN else STACK_VPN) && hi <= if user then MAX_PT_LEN else STACK_VPN
    requires |t| == MAX_PT_LEN
    requires forall v :: 0 <= v < (if user then MAX_PT_LEN else STACK_VPN) && t[v].valid ==> Backs(s, t[v].pfn)
    requires forall v :: 0 <= v < lo ==> t[v].valid
    requires if hi < lo then UnmapsRange(t, s.used, hi, lo, t', s'.used) else MapsRange(t, s.used, lo, hi, t', s'.used)
    ensures Leaked(s) <= Leaked(s') && |Leaked(s')| == |Leaked(s)| + Remapped(t, lo, hi)
  {
    hide Inv, Backs, Leaked, TableSwap, MapsRange, UnmapsRange, ValidCount;
    if hi < lo {
      UnmapLeaks(s, user, t, s', t', hi, lo);
    } else {
      MapLeaks(s, user, t, s', t', lo, hi);
    }
  }

  lemma BrkLeaks(s: Vm, addr: nat, r: int, s': Vm)
    requires Inv(s) && s.spaces[s.curr].brk >= VMEM_1_BASE && SetsBrk(s, addr, r, s')
    ensures Shaped(s') && Leaked(s) <= Leaked(s') && |Leaked(s')| == |Leaked(s)| + Loss(s, Brk(addr))
  {
    var me := s.spaces[s.curr];
    if VMEM_1_BASE <= UpToPage(addr) <= DownToPage(me.sp) {
      BrkMoves(s, addr, s');
      TableOwns(s, s.curr);
      forall v | 0 <= v < MAX_PT_LEN && me.table[v].valid ensures Backs(s, me.table[v].pfn) {
        assert Mapped(s, UserPage(s.curr, v));
      }
      var me' := s'.spaces[s.curr];
      hide UpToPage, DownToPage, Inv, Backs, Leaked, TableSwap, SetsBrk, MapsRange, UnmapsRange, Remapped, HeapPages;
      MoveLeaks(s, true, me.table, s', me'.table, HeapPages(me), HeapPages(me'));
    }
  }

  lemma BrkMoves(s: Vm, addr: nat, s': Vm)
    requires Inv(s) && s.spaces[s.curr].brk >= VMEM_1_BASE && SetsBrk(s, addr, 0, s')
    ensures Shaped(s') && s.curr in s'.spaces
    ensures var me, me' := s.spaces[s.curr], s'.spaces[s.curr];
      var lo, hi := HeapPages(me), HeapPages(me');
      && TableSwap(s, true, me.table, s', me'.table) && lo <= MAX_PT_LEN && hi <= MAX_PT_LEN
      && (forall v :: 0 <= v < lo ==> me.table[v].valid)
      && hi == (UpToPage(addr) - VMEM_1_BASE) / PAGESIZE
      && (if hi < lo then UnmapsRange(me.table, s.used, hi, lo, me'.table, s'.used)
          else MapsRange(me.table, s.used, lo, hi, me'.table, s'.used))
  {
    UpAligned(addr);
    hide UpToPage, Exclusive, Marked, Stacked, MapsRange, UnmapsRange;
    assert BrkMapped(s.spaces[s.curr]);
    RangeLength(s, addr, s');
  }

  lemma RangeLength(s: Vm, addr: nat, s': Vm)
    requires Shaped(s) && s.spaces[s.curr].brk >= VMEM_1_BASE && SetsBrk(s, addr, 0, s')
    ensures s.curr in s'.spaces && |s'.spaces[s.curr].table| == MAX_PT_LEN && |s'.used| == |s.used|
  {
  }

  lemma KernelBrkLeaks(s: Vm, addr: nat, r: int, s': Vm)
    requires Inv(s) && SetsKernelBrk(s, addr, r, s')
    ensures Shaped(s') && Leaked(s) <= Leaked(s') && |Leaked(s')| == |Leaked(s)| + Loss(s, KernelBrk(addr))
  {
    if s' != s {
      KernelBrkMoves(s, addr, s');
      TableOwns(s, s.curr);
      forall v | 0 <= v < STACK_VPN && s.kpt[v].valid ensures Backs(s, s.kpt[v].pfn) {
        assert Mapped(s, KernelPage(v));
      }
      hide UpToPage, Inv, Backs, Leaked, TableSwap, MapsRange, UnmapsRange, Remapped;
      MoveLeaks(s, false, s.kpt, s', s'.kpt, s.kernelBrk / PAGESIZE, s'.kernelBrk / PAGESIZE);
    }
  }

  lemma KernelBrkMoves(s: Vm, addr: nat, s': Vm)
    requires Inv(s) && SetsKernelBrk(s, addr, 0, s')
    ensures var lo, hi := s.kernelBrk / PAGESIZE, s'.kernelBrk / PAGESIZE;
      && Shaped(s') && TableSwap(s, false, s.kpt, s', s'.kpt) && lo <= STACK_VPN && hi <= STACK_VPN
      && (forall v :: 0 <= v < lo ==> s.kpt[v].valid)
      && (if hi < lo then UnmapsRange(s.kpt, s.used, hi, lo, s'.kpt, s'.used)
          else MapsRange(s.kpt, s.used, lo, hi, s'.kpt, s'.used))
  {
    UpAligned(addr);
    assert UpToPage(addr) <= STACK_VPN * PAGESIZE;
    assert |s'.kpt| == MAX_PT_LEN && |s'.used| == |s.used|;
    hide Exclusive, Marked, Stacked;
  }

  /** Every step: what is lost stays lost, and exactly so much is lost in addition. */
  lemma StepLeaks(s: Vm, e: Step, s': Vm)
    requires Inv(s) && Next(s, e, s')
    ensures Shaped(s') && Leaked(s) <= Leaked(s') && |Leaked(s')| == |Leaked(s)| + Loss(s, e)
  {
    hide Exclusive, Marked, Stacked, Breaks, Spawns, Switched, Exited, SetsBrk, SetsKernelBrk, Loads, Leaked, EntryOf,
         UpToPage, DownToPage;
    match e
    case Fork(child) => SpawnLeaks(s, child, s.spaces[s.curr].table, s');
    case Boot(child) => SpawnLeaks(s, child, NoPages(), s');
    case Switch(next) =>
      SwitchEntries(s, next);
      SameUsed(s, next);
      SameEntriesLeakNothing(s, s');
    case Exit(next) => ExitLeaks(s, next);
    case Brk(addr) =>
      var r :| SetsBrk(s, addr, r, s');
      BrkLeaks(s, addr, r, s');
    case KernelBrk(addr) =>
      var r :| SetsKernelBrk(s, addr, r, s');
      KernelBrkLeaks(s, addr, r, s');
    case Exec(li, args) =>
      var r :| Loads(s, li, args, r, s');
      ExecLeaks(s, li, args, r, s');
    case StoreUser(vpn, off, b) =>
      StoreKeeps(s, Frame(s, UserPage(s.curr, vpn)), off, b);
      SameEntriesLeakNothing(s, s');
    case StoreStack(i, off, b) =>
      StoreKeeps(s, Frame(s, StackPage(s.curr, i)), off, b);
      SameEntriesLeakNothing(s, s');
  }

  lemma SameUsed(s: Vm, next: Pid)
    requires Shaped(s) && next in s.spaces
    ensures Switched(s, next).used == s.used
  {
  }

  lemma ExecLeaks(s: Vm, li: LoadInfo, args: seq<CString>, r: int, s': Vm)
    requires Inv(s) && Loads(s, li, args, r, s')
    ensures Shaped(s') && Leaked(s') == Leaked(s)
  {
    if Fits(li, args) {
      LoadLeaks(s, li, args, s');
    }
  }

  /** The frames lost in the first n steps of a run. */
  ghost function LossOver(run: seq<Vm>, steps: seq<Step>, n: nat): nat
    requires IsRun(run, steps) && n <= |steps|
  {
    if n == 0 then 0 else LossOver(run, steps, n - 1) + Loss(run[n - 1], steps[n - 1])
  }

  lemma {:induction false} LeaksAddUp(run: seq<Vm>, steps: seq<Step>, n: nat)
    requires IsRun(run, steps) && Inv(run[0]) && n <= |steps| && NoOverrun(steps, n)
    ensures Shaped(run[0]) && Shaped(run[n])
    ensures Leaked(run[0]) <= Leaked(run[n]) && |Leaked(run[n])| == |Leaked(run[0])| + LossOver(run, steps, n)
  {
    hide Exclusive, Marked, Stacked, Breaks, Next, Leaked, Loss;
    if n > 0 {
      LeaksAddUp(run, steps, n - 1);
      RunKeeps(run, steps, n - 1);
      assert Next(run[n - 1], steps[n - 1], run[n]);
      StepLeaks(run[n - 1], steps[n - 1], run[n]);
    }
  }

  /** Every frame that is marked at boot is mapped. */
  lemma BootLeaksNothing(s: Vm, idle: Pid)
    requires Booted(s, idle)
    ensures Shaped(s) && Leaked(s) == {}
  {
    forall f | 0 <= f < |s.used| && s.used[f] ensures Backs(s, f) {
      if f == s.spaces[idle].table[MAX_PT_LEN - 1].pfn {
        assert Mapped(s, UserPage(idle, MAX_PT_LEN - 1));
      } else if f < STACK_VPN {
        assert Mapped(s, KernelPage(f));
      } else {
        assert Mapped(s, StackPage(idle, MAX_PT_LEN - 1 - f));
      }
    }
  }

  /** Over any run from boot the frames that are marked for nothing are exactly the sum of what the steps lose. */
  lemma LeaksFromBoot(run: seq<Vm>, steps: seq<Step>, idle: Pid, n: nat)
    requires IsRun(run, steps) && Booted(run[0], idle) && n <= |steps| && NoOverrun(steps, n)
    ensures Shaped(run[n]) && |Leaked(run[n])| == LossOver(run, steps, n)
  {
    BootKeeps(run[0], idle);
    BootLeaksNothing(run[0], idle);
    LeaksAddUp(run, steps, n);
  }
}
