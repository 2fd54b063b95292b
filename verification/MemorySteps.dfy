/** The steps of the memory system and the invariant they keep. */
module MemorySteps {
  import opened Memory
  import opened ProgramLayout

  // ------------------------------------------------------------ exec

  /** The bitmap after every frame behind a valid entry has been given back. */
  ghost function Released(t: seq<Pte>, used: seq<bool>): seq<bool> {
    seq(|used|, f requires 0 <= f < |used| =>
      used[f] && !exists v :: 0 <= v < |t| && t[v].valid && t[v].pfn == f)
  }

  /** Text, data and stack pages of a program: the pages LoadProgram maps. */
  predicate Loaded(li: LoadInfo, args: seq<CString>, v: int) {
    || TextPage(li) <= v < TextPage(li) + li.tNpg
    || DataPage(li) <= v < DataPage(li) + DataPages(li)
    || MAX_PT_LEN - StackPages(args) <= v < MAX_PT_LEN
  }

  /** Protection that LoadProgram leaves on a page: text is executable, the rest is writable. */
  function LoadedProt(li: LoadInfo, v: int): nat {
    if TextPage(li) <= v < TextPage(li) + li.tNpg then PROT_RX else PROT_RW
  }

  /**
   * The loaded pages have distinct frames that are free once the old pages are gone;
   * every other entry is invalid and keeps its stale frame number.
   */
  ghost predicate LoadsTable(li: LoadInfo, args: seq<CString>, t: seq<Pte>, used: seq<bool>,
                             t': seq<Pte>, used': seq<bool>) {
    && |t'| == |t| == MAX_PT_LEN && |used'| == |used|
    && (forall v :: 0 <= v < MAX_PT_LEN && Loaded(li, args, v) ==>
          && t'[v].valid && t'[v].prot == LoadedProt(li, v)
          && Free(Released(t, used), t'[v].pfn) && used'[t'[v].pfn])
    && (forall v :: 0 <= v < MAX_PT_LEN && !Loaded(li, args, v) ==>
          t'[v] == Pte(false, t[v].prot, t[v].pfn))
    && (forall v, w :: 0 <= v < w < MAX_PT_LEN && Loaded(li, args, v) && Loaded(li, args, w) ==>
          t'[v].pfn != t'[w].pfn)
    && MarksExactly(Released(t, used), FramesOf(t'), used')
  }

  /**
   * LoadProgram on the running process up to the stores into the new pages: the old
   * pages are given back, then text, data and stack pages get frames that are free.
   */
  ghost predicate Loads(s: Vm, li: LoadInfo, args: seq<CString>, r: int, s': Vm)
    requires Shaped(s)
  {
    if !Fits(li, args) then
      r == -1 && s' == s
    else
      && r == 0 && s.curr in s'.spaces
      && var me, me' := s.spaces[s.curr], s'.spaces[s.curr];
      && s' == s.(used := s'.used, spaces := s.spaces[s.curr := me'])
      && me'.kstack == me.kstack
      && me'.brk == (DataPage(li) + DataPages(li) + MAX_PT_LEN) * PAGESIZE
      && me'.sp == (2 * MAX_PT_LEN - 1 - StackPages(args)) * PAGESIZE
      && LoadsTable(li, args, me.table, s.used, me'.table, s'.used)
  }

  // ------------------------------------------------------------ stores

  function Stored(s: Vm, f: nat, off: nat, b: Byte): Vm
    requires f < |s.phys| && off < PAGESIZE
  {
    s.(phys := s.phys[f := s.phys[f][off := b]])
  }

  /** A store through the Region 1 table of the running process. */
  ghost predicate StoresUser(s: Vm, vpn: nat, off: nat, b: Byte, s': Vm)
    requires Shaped(s)
  {
    && Mapped(s, UserPage(s.curr, vpn)) && off < PAGESIZE
    && Frame(s, UserPage(s.curr, vpn)) < |s.phys|
    && s' == Stored(s, Frame(s, UserPage(s.curr, vpn)), off, b)
  }

  /** A store to the kernel stack that is in place. */
  ghost predicate StoresStack(s: Vm, i: nat, off: nat, b: Byte, s': Vm)
    requires Shaped(s)
  {
    && Mapped(s, StackPage(s.curr, i)) && off < PAGESIZE
    && Frame(s, StackPage(s.curr, i)) < |s.phys|
    && s' == Stored(s, Frame(s, StackPage(s.curr, i)), off, b)
  }

  // ------------------------------------------------------------ steps

  datatype Step =
    | Fork(child: Pid)
    | Boot(child: Pid)                                  // init cloned from idle, without pages
    | Switch(next: Pid)
    | Exit(next: Pid)
    | Brk(addr: nat)
    | KernelBrk(addr: nat)
    | Exec(li: LoadInfo, args: seq<CString>)
    | StoreUser(vpn: nat, off: nat, b: Byte)
    | StoreStack(i: nat, off: nat, b: Byte)

  /** A table in which create_process has marked every page invalid. */
  function NoPages(): (t: seq<Pte>)
    ensures |t| == MAX_PT_LEN && forall v :: 0 <= v < |t| ==> t[v] == INVALID
  {
    seq(MAX_PT_LEN, _ => INVALID)
  }

  ghost predicate BrkStep(s: Vm, addr: nat, s': Vm)
    requires Shaped(s)
  {
    s.spaces[s.curr].brk >= VMEM_1_BASE && exists r :: SetsBrk(s, addr, r, s')
  }

  ghost predicate KernelBrkStep(s: Vm, addr: nat, s': Vm)
    requires Shaped(s)
  {
    exists r :: SetsKernelBrk(s, addr, r, s')
  }

  ghost predicate ExecStep(s: Vm, li: LoadInfo, args: seq<CString>, s': Vm)
    requires Shaped(s)
  {
    (Fits(li, args) ==> Linked(li)) && exists r :: Loads(s, li, args, r, s')
  }

  /**
   * What may happen. A call of brk or exec comes from a process other than idle, so
   * its break is set; programs that fit are linked for Yalnix.
   */
  ghost predicate Next(s: Vm, e: Step, s': Vm)
    requires Shaped(s)
  {
    match e
    case Fork(child) => Spawns(s, child, s.spaces[s.curr].table, s')
    case Boot(child) => Spawns(s, child, NoPages(), s')
    case Switch(next) => next in s.spaces && s' == Switched(s, next)
    case Exit(next) => next in s.spaces && next != s.curr && s' == Exited(s, next)
    case Brk(addr) => BrkStep(s, addr, s')
    case KernelBrk(addr) => KernelBrkStep(s, addr, s')
    case Exec(li, args) => ExecStep(s, li, args, s')
    case StoreUser(vpn, off, b) => StoresUser(s, vpn, off, b, s')
    case StoreStack(i, off, b) => StoresStack(s, i, off, b, s')
  }

  // ------------------------------------------------------------ exclusivity

  ghost predicate Kept(s: Vm, s': Vm, x: Slot)
    requires Shaped(s) && Shaped(s')
  {
    Mapped(s, x) && Mapped(s', x) && Frame(s', x) == Frame(s, x)
  }

  ghost predicate Taken(s: Vm, s': Vm, x: Slot)
    requires Shaped(s) && Shaped(s')
  {
    Mapped(s', x) && Free(s.used, Frame(s', x))
  }

  /** Pages keep their frame or take one that was free, and no two take the same. */
  lemma ExclusiveStays(s: Vm, s': Vm)
    requires Shaped(s) && Shaped(s') && Exclusive(s) && Marked(s)
    requires forall x {:trigger Mapped(s', x)} :: Mapped(s', x) ==> Kept(s, s', x) || Taken(s, s', x)
    requires forall x, y {:trigger Taken(s, s', x), Taken(s, s', y)} ::
      x != y && Taken(s, s', x) && Taken(s, s', y) ==> Frame(s', x) != Frame(s', y)
    ensures Exclusive(s')
  {
    forall x, y | x != y && Mapped(s', x) && Mapped(s', y) ensures Frame(s', x) != Frame(s', y) {
      assert Kept(s, s', x) || Taken(s, s', x);
      assert Kept(s, s', y) || Taken(s, s', y);
    }
  }

  /** Only pages of the child take new frames. */
  lemma SpawnEntries(s: Vm, child: Pid, src: seq<Pte>, s': Vm, x: Slot)
    requires Inv(s) && Spawns(s, child, src, s')
    ensures Shaped(s') && (Mapped(s', x) ==> Frame(s', x) < |s'.used| && s'.used[Frame(s', x)])
    ensures if !x.KernelPage? && x.pid == child then Mapped(s', x) ==> Taken(s, s', x)
            else
              && Mapped(s', x) == Mapped(s, x)
              && (Mapped(s', x) ==> EntryOf(s', x) == EntryOf(s, x) && Kept(s, s', x) && !Taken(s, s', x))
  {
    if x.KernelPage? || x.pid != child {
      assert Mapped(s, x) == Mapped(s', x);
    }
  }

  lemma SpawnKeeps(s: Vm, child: Pid, src: seq<Pte>, s': Vm)
    requires Inv(s) && Spawns(s, child, src, s')
    ensures Inv(s')
  {
    assert Shaped(s');
    forall x ensures Mapped(s', x) ==> Frame(s', x) < |s'.used| && s'.used[Frame(s', x)]
             ensures Mapped(s', x) ==> Kept(s, s', x) || Taken(s, s', x) {
      SpawnEntries(s, child, src, s', x);
    }
    forall x, y | x != y && Taken(s, s', x) && Taken(s, s', y) ensures Frame(s', x) != Frame(s', y) {
      SpawnEntries(s, child, src, s', x);
      SpawnEntries(s, child, src, s', y);
    }
    ExclusiveStays(s, s');
    forall p | p in s'.spaces ensures Mapped(s', StackPage(p, 0)) && Mapped(s', StackPage(p, 1)) {
      SpawnEntries(s, child, src, s', StackPage(p, 0));
      SpawnEntries(s, child, src, s', StackPage(p, 1));
      assert p != child ==> Mapped(s, StackPage(p, 0)) && Mapped(s, StackPage(p, 1));
    }
  }

  lemma SwitchEntries(s: Vm, next: Pid)
    requires Shaped(s) && next in s.spaces
    ensures Shaped(Switched(s, next))
    ensures forall x {:trigger EntryOf(s, x)} {:trigger EntryOf(Switched(s, next), x)} ::
      EntryOf(Switched(s, next), x) == EntryOf(s, x)
  {
  }

  lemma SwitchKeeps(s: Vm, next: Pid)
    requires Inv(s) && next in s.spaces
    ensures Inv(Switched(s, next))
  {
    var s' := Switched(s, next);
    SwitchEntries(s, next);
    SwitchBreaks(s, next);
    hide Switched, EntryOf, Breaks;
    assert forall x {:trigger Mapped(s', x)} :: Mapped(s', x) == Mapped(s, x) && Frame(s', x) == Frame(s, x);
    assert forall p {:trigger p in s'.spaces} :: p in s'.spaces ==>
      Mapped(s, StackPage(p, 0)) && Mapped(s, StackPage(p, 1));
  }

  lemma SwitchBreaks(s: Vm, next: Pid)
    requires Shaped(s) && Breaks(s) && next in s.spaces
    ensures var s' := Switched(s, next);
      && Shaped(s') && Breaks(s') && s'.used == s.used && s'.spaces.Keys == s.spaces.Keys
  {
    var s' := Switched(s, next);
    assert forall p {:trigger p in s'.spaces} :: p in s'.spaces ==> BrkMapped(s.spaces[p]);
  }

  lemma ExitEntries(s: Vm, next: Pid)
    requires Shaped(s) && next in s.spaces && next != s.curr
    ensures var s1, s' := Switched(s, next), Exited(s, next);
      && Shaped(s1) && Shaped(s') && s' == s1.(spaces := s1.spaces - {s.curr})
      && (forall x {:trigger EntryOf(s', x)} :: EntryOf(s', x) == EntryOf(s1, x) || EntryOf(s', x) == INVALID)
      && (forall p, i {:trigger StackPage(p, i)} :: p in s'.spaces ==>
            EntryOf(s', StackPage(p, i)) == EntryOf(s1, StackPage(p, i)))
  {
  }

  lemma ExitKeeps(s: Vm, next: Pid)
    requires Inv(s) && next in s.spaces && next != s.curr
    ensures Inv(Exited(s, next))
  {
    SwitchKeeps(s, next);
    ExitEntries(s, next);
    var s1, s' := Switched(s, next), Exited(s, next);
    hide Switched, Exited, EntryOf, BrkMapped;
    ExitFrames(s1, s');
    assert Breaks(s');
    assert forall p {:trigger p in s'.spaces} :: p in s'.spaces ==>
      Mapped(s1, StackPage(p, 0)) && Mapped(s1, StackPage(p, 1));
  }

  lemma ExitFrames(s1: Vm, s': Vm)
    requires Shaped(s1) && Shaped(s') && Exclusive(s1) && Marked(s1) && s'.used == s1.used
    requires forall x {:trigger EntryOf(s', x)} :: EntryOf(s', x) == EntryOf(s1, x) || EntryOf(s', x) == INVALID
    ensures Exclusive(s') && Marked(s')
  {
    hide EntryOf;
    forall x ensures Mapped(s', x) ==> Mapped(s1, x) && Frame(s', x) == Frame(s1, x) {
      assert EntryOf(s', x) == EntryOf(s1, x) || EntryOf(s', x) == INVALID;
    }
  }

  // ------------------------------------------------------------ ranges of pages

  /** The entry of the running process's table, or of the kernel's, that describes page x. */
  function Index(s: Vm, user: bool, x: Slot): int {
    if user && x.UserPage? && x.pid == s.curr && x.vpn < MAX_PT_LEN then x.vpn
    else if !user && x.KernelPage? && x.vpn < STACK_VPN then x.vpn
    else -1
  }

  /** The page that an entry describes. */
  function PageAt(s: Vm, user: bool, v: nat): Slot {
    if user then UserPage(s.curr, v) else KernelPage(v)
  }

  lemma IndexInverse(s: Vm, user: bool)
    ensures forall x {:trigger Index(s, user, x)} :: Index(s, user, x) >= 0 ==> x == PageAt(s, user, Index(s, user, x))
    ensures forall v: nat {:trigger PageAt(s, user, v)} ::
      v < (if user then MAX_PT_LEN else STACK_VPN) ==> Index(s, user, PageAt(s, user, v)) == v
  {
  }

  /** Between s and s' only one page table, t, and the bitmap have changed. */
  ghost predicate TableSwap(s: Vm, user: bool, t: seq<Pte>, s': Vm, t': seq<Pte>)
    requires Shaped(s)
  {
    && Shaped(s') && |t| == |t'| == MAX_PT_LEN
    && s'.curr == s.curr && |s'.used| == |s.used| && s'.phys == s.phys
    && s'.spaces.Keys == s.spaces.Keys
    && (forall x {:trigger EntryOf(s', x)} {:trigger Index(s, user, x)} ::
          var v := Index(s, user, x);
          if v >= 0 then EntryOf(s, x) == t[v] && EntryOf(s', x) == t'[v] else EntryOf(s', x) == EntryOf(s, x))
  }

  lemma MapKeeps(s: Vm, user: bool, t: seq<Pte>, s': Vm, t': seq<Pte>, lo: int, hi: int)
    requires Shaped(s) && Exclusive(s) && Marked(s) && TableSwap(s, user, t, s', t')
    requires MapsRange(t, s.used, lo, hi, t', s'.used)
    ensures Exclusive(s') && Marked(s')
  {
    IndexInverse(s, user);
    forall x | Mapped(s', x)
      ensures Frame(s', x) < |s'.used| && s'.used[Frame(s', x)]
      ensures Kept(s, s', x) || Taken(s, s', x)
      ensures Taken(s, s', x) ==> Index(s, user, x) >= 0 && lo <= Index(s, user, x) < hi
    {
      var v := Index(s, user, x);
      if !(lo <= v < hi) || v < 0 {
        assert EntryOf(s', x) == EntryOf(s, x);
        assert Mapped(s, x);
      }
    }
    forall x, y | x != y && Taken(s, s', x) && Taken(s, s', y) ensures Frame(s', x) != Frame(s', y) {
      assert Mapped(s', x) && Mapped(s', y);
      assert Index(s, user, x) != Index(s, user, y);
    }
    ExclusiveStays(s, s');
  }

  lemma UnmapKeeps(s: Vm, user: bool, t: seq<Pte>, s': Vm, t': seq<Pte>, lo: int, hi: int)
    requires Shaped(s) && Exclusive(s) && Marked(s) && TableSwap(s, user, t, s', t')
    requires UnmapsRange(t, s.used, lo, hi, t', s'.used)
    requires forall v :: 0 <= v < MAX_PT_LEN && lo <= v < hi ==> t[v].valid && (user || v < STACK_VPN)
    ensures Exclusive(s') && Marked(s')
  {
    forall x | Mapped(s', x)
      ensures Kept(s, s', x) && Frame(s', x) < |s'.used| && s'.used[Frame(s', x)]
    {
      var v := Index(s, user, x);
      assert v < 0 || !(lo <= v < hi);
      assert EntryOf(s', x) == EntryOf(s, x) && Mapped(s, x);
      IndexInverse(s, user);
      forall w: nat | w < |t| && lo <= w < hi ensures t[w].pfn != Frame(s, x) {
        assert t[w].valid;
        var y := PageAt(s, user, w);
        assert Index(s, user, y) == w && Mapped(s, y);
      }
    }
    ExclusiveStays(s, s');
  }

  lemma PagesDivide(k: nat)
    ensures (k * PAGESIZE) / PAGESIZE == k && (k * PAGESIZE) % PAGESIZE == 0
  {
  }

  lemma UpAligned(a: nat)
    ensures UpToPage(a) % PAGESIZE == 0
  {
  }

  lemma BrkSpace(s: Vm, addr: nat, r: int, s': Vm)
    requires Shaped(s) && s.spaces[s.curr].brk >= VMEM_1_BASE && BrkMapped(s.spaces[s.curr])
    requires SetsBrk(s, addr, r, s') && r == 0
    ensures Shaped(s') && BrkMapped(s'.spaces[s.curr])
  {
    UpAligned(addr);
    var me, me' := s.spaces[s.curr], s'.spaces[s.curr];
    var lo, hi := HeapPages(me), HeapPages(me');
    forall v | 0 <= v < hi ensures me'.table[v].valid {
      assert v < lo ==> me.table[v].valid;
    }
  }

  lemma BrkKeeps(s: Vm, addr: nat, r: int, s': Vm)
    requires Inv(s) && s.spaces[s.curr].brk >= VMEM_1_BASE && SetsBrk(s, addr, r, s')
    ensures Inv(s')
  {
    var me := s.spaces[s.curr];
    var newBrk := UpToPage(addr);
    if VMEM_1_BASE <= newBrk <= DownToPage(me.sp) {
      hide UpToPage, DownToPage;
      var me' := s'.spaces[s.curr];
      var lo, hi := HeapPages(me), (newBrk - VMEM_1_BASE) / PAGESIZE;
      assert BrkMapped(me);
      BrkSpace(s, addr, r, s');
      assert TableSwap(s, true, me.table, s', me'.table);
      if newBrk < me.brk {
        UnmapKeeps(s, true, me.table, s', me'.table, hi, lo);
      } else {
        MapKeeps(s, true, me.table, s', me'.table, lo, hi);
      }
      OthersStacked(s, s');
    }
  }

  lemma KernelBrkKeeps(s: Vm, addr: nat, r: int, s': Vm)
    requires Inv(s) && UpToPage(addr) <= SCRATCH_VPN * PAGESIZE && SetsKernelBrk(s, addr, r, s')
    ensures Inv(s')
  {
    UpAligned(addr);
    var lo, hi := s.kernelBrk / PAGESIZE, UpToPage(addr) / PAGESIZE;
    if s' != s {
      hide UpToPage;
      assert TableSwap(s, false, s.kpt, s', s'.kpt);
      if addr < s.kernelBrk {
        UnmapKeeps(s, false, s.kpt, s', s'.kpt, hi, lo);
      } else {
        MapKeeps(s, false, s.kpt, s', s'.kpt, lo, hi);
      }
      OthersStacked(s, s');
    }
  }

  /**
   * A successful SetKernelBrk keeps the invariant exactly when the address is at most
   * four pages below the limit; the code's own bound is one page higher.
   */
  lemma KernelBrkExact(s: Vm, addr: nat, s': Vm)
    requires Inv(s) && SetsKernelBrk(s, addr, 0, s')
    ensures Inv(s') <==> addr <= VMEM_0_LIMIT - 4 * PAGESIZE
  {
    if addr <= VMEM_0_LIMIT - 4 * PAGESIZE {
      assert UpToPage(addr) <= SCRATCH_VPN * PAGESIZE;
      KernelBrkKeeps(s, addr, 0, s');
    } else {
      assert UpToPage(addr) == (SCRATCH_VPN + 1) * PAGESIZE;
      assert !Breaks(s');
    }
  }

  lemma KernelBrkOverruns(s: Vm, addr: nat, r: int, s': Vm)
    requires Inv(s) && SetsKernelBrk(s, addr, r, s')
    ensures Inv(s') <==> !(VMEM_0_LIMIT - 4 * PAGESIZE < addr < VMEM_0_LIMIT - 3 * PAGESIZE)
  {
    assert s.kernelBrk <= SCRATCH_VPN * PAGESIZE;
    if r == 0 {
      KernelBrkExact(s, addr, s');
    }
  }

  lemma OthersStacked(s: Vm, s': Vm)
    requires Shaped(s) && Stacked(s) && Shaped(s') && s'.spaces.Keys == s.spaces.Keys
    requires forall p, i :: EntryOf(s', StackPage(p, i)) == EntryOf(s, StackPage(p, i))
    ensures Stacked(s')
  {
  }

  // ------------------------------------------------------------ exec

  function Invalidated(t: seq<Pte>): seq<Pte> {
    seq(|t|, v requires 0 <= v < |t| => Pte(false, t[v].prot, t[v].pfn))
  }

  /** LoadProgram between throwing away the old address space and building the new one. */
  ghost function Torn(s: Vm): Vm
    requires Shaped(s)
  {
    var me := s.spaces[s.curr];
    s.(used := Released(me.table, s.used),
       spaces := s.spaces[s.curr := Space(me.brk, me.sp, Invalidated(me.table), me.kstack)])
  }

  lemma TornKeeps(s: Vm)
    requires Shaped(s) && Exclusive(s) && Marked(s)
    ensures Shaped(Torn(s)) && Exclusive(Torn(s)) && Marked(Torn(s))
    ensures forall x {:trigger EntryOf(Torn(s), x)} :: Index(s, true, x) < 0 ==> EntryOf(Torn(s), x) == EntryOf(s, x)
  {
    var m := Torn(s);
    assert Shaped(m);
    IndexInverse(s, true);
    forall x | Mapped(m, x) ensures Kept(s, m, x) && Frame(m, x) < |m.used| && m.used[Frame(m, x)] {
      assert Index(s, true, x) < 0;
      assert EntryOf(m, x) == EntryOf(s, x) && Mapped(s, x);
      var t := s.spaces[s.curr].table;
      forall v: nat | v < |t| && t[v].valid ensures t[v].pfn != Frame(s, x) {
        var y := PageAt(s, true, v);
        assert Index(s, true, y) == v && Mapped(s, y);
      }
    }
    ExclusiveStays(s, m);
  }

  lemma LoadKeeps(s: Vm, li: LoadInfo, args: seq<CString>, s': Vm)
    requires Inv(s) && Linked(li) && Fits(li, args) && Loads(s, li, args, 0, s')
    ensures Shaped(s') && Exclusive(s') && Marked(s')
    ensures forall x {:trigger EntryOf(s', x)} :: Index(s, true, x) < 0 ==> EntryOf(s', x) == EntryOf(s, x)
  {
    var m := Torn(s);
    TornKeeps(s);
    IndexInverse(s, true);
    var me' := s'.spaces[s.curr];
    forall x | Mapped(s', x)
      ensures Kept(m, s', x) || Taken(m, s', x)
      ensures Frame(s', x) < |s'.used| && s'.used[Frame(s', x)]
      ensures Taken(m, s', x) ==> Index(s, true, x) >= 0 && Loaded(li, args, Index(s, true, x))
    {
      var v := Index(s, true, x);
      if v < 0 {
        assert EntryOf(s', x) == EntryOf(m, x) && Mapped(m, x);
      } else {
        assert EntryOf(s', x) == me'.table[v];
      }
    }
    forall x, y | x != y && Taken(m, s', x) && Taken(m, s', y) ensures Frame(s', x) != Frame(s', y) {
      assert Mapped(s', x) && Mapped(s', y);
      assert Index(s, true, x) != Index(s, true, y);
    }
    ExclusiveStays(m, s');
  }

  /**
   * The layout of a loaded program: exactly the pages below brk and the pages above
   * the page of sp are mapped.
   */
  ghost predicate Laid(m: Space)
    requires |m.table| == MAX_PT_LEN
  {
    && m.brk % PAGESIZE == 0 && m.sp % PAGESIZE == 0
    && VMEM_1_BASE <= m.brk <= m.sp <= VMEM_1_LIMIT
    && forall v :: 0 <= v < MAX_PT_LEN ==>
        (m.table[v].valid <==> v < HeapPages(m) || v > (m.sp - VMEM_1_BASE) / PAGESIZE)
  }

  lemma LoadLays(s: Vm, li: LoadInfo, args: seq<CString>, s': Vm)
    requires Shaped(s) && Linked(li) && Fits(li, args) && Loads(s, li, args, 0, s')
    ensures var me' := s'.spaces[s.curr];
      |me'.table| == MAX_PT_LEN && Laid(me') && BrkMapped(me') && me'.sp < VMEM_1_LIMIT
  {
    GuardPage(li, args);
    var me' := s'.spaces[s.curr];
    PagesDivide(DataPage(li) + DataPages(li) + MAX_PT_LEN);
    PagesDivide(2 * MAX_PT_LEN - 1 - StackPages(args));
    var k, g := DataPage(li) + DataPages(li), MAX_PT_LEN - 1 - StackPages(args);
    assert me'.brk - VMEM_1_BASE == k * PAGESIZE && me'.sp - VMEM_1_BASE == g * PAGESIZE;
    PagesDivide(k);
    PagesDivide(g);
    forall v | 0 <= v < MAX_PT_LEN ensures me'.table[v].valid <==> v < k || v > g {
      assert Loaded(li, args, v) <==> v < k || v > g;
    }
  }

  lemma ExecKeeps(s: Vm, li: LoadInfo, args: seq<CString>, r: int, s': Vm)
    requires Inv(s) && (Fits(li, args) ==> Linked(li)) && Loads(s, li, args, r, s')
    ensures Inv(s')
  {
    if Fits(li, args) {
      LoadKeeps(s, li, args, s');
      LoadLays(s, li, args, s');
      OthersStacked(s, s');
    }
  }

  // ------------------------------------------------------------ stores, and every step

  lemma StoreKeeps(s: Vm, f: nat, off: nat, b: Byte)
    requires Inv(s) && f < |s.phys| && off < PAGESIZE
    ensures Inv(Stored(s, f, off, b))
    ensures forall x {:trigger EntryOf(Stored(s, f, off, b), x)} :: EntryOf(Stored(s, f, off, b), x) == EntryOf(s, x)
  {
    var s' := Stored(s, f, off, b);
    assert Shaped(s');
    assert forall x {:trigger EntryOf(s', x)} :: EntryOf(s', x) == EntryOf(s, x);
    assert forall x {:trigger Mapped(s', x)} :: Mapped(s', x) == Mapped(s, x) && Frame(s', x) == Frame(s, x);
    OthersStacked(s, s');
  }

  /** A kernel break call that the code's guard lets through although it reaches the pages used to copy. */
  predicate Overruns(e: Step) {
    e.KernelBrk? && VMEM_0_LIMIT - 4 * PAGESIZE < e.addr < VMEM_0_LIMIT - 3 * PAGESIZE
  }

  /** Every step keeps the invariant, except exactly such a call. */
  lemma NextKeeps(s: Vm, e: Step, s': Vm)
    requires Inv(s) && Next(s, e, s')
    ensures Inv(s') <==> !Overruns(e)
  {
    hide Exclusive, Marked, Stacked, Breaks, Spawns, Switched, Exited, SetsBrk, SetsKernelBrk, Loads;
    match e
    case Fork(child) => SpawnKeeps(s, child, s.spaces[s.curr].table, s');
    case Boot(child) => SpawnKeeps(s, child, NoPages(), s');
    case Switch(next) => SwitchKeeps(s, next);
    case Exit(next) => ExitKeeps(s, next);
    case Brk(addr) =>
      var r :| SetsBrk(s, addr, r, s');
      BrkKeeps(s, addr, r, s');
    case KernelBrk(addr) =>
      var r :| SetsKernelBrk(s, addr, r, s');
      KernelBrkOverruns(s, addr, r, s');
    case Exec(li, args) =>
      var r :| Loads(s, li, args, r, s');
      ExecKeeps(s, li, args, r, s');
    case StoreUser(vpn, off, b) =>
      StoreKeeps(s, Frame(s, UserPage(s.curr, vpn)), off, b);
    case StoreStack(i, off, b) =>
      StoreKeeps(s, Frame(s, StackPage(s.curr, i)), off, b);
  }

  /** Every step, also one that overruns, leaves a state of the right shape. */
  lemma NextShaped(s: Vm, e: Step, s': Vm)
    requires Inv(s) && Next(s, e, s')
    ensures Shaped(s')
  {
    if !Overruns(e) {
      NextKeeps(s, e, s');
    } else {
      var r :| SetsKernelBrk(s, e.addr, r, s');
    }
  }

  // ------------------------------------------------------------ boot

  /** The pages KernelStart maps: kernel text, data and heap, and the kernel stack. */
  predicate KernelMapped(kernelBrk: nat, v: int) {
    0 <= v * PAGESIZE < kernelBrk || STACK_VPN <= v < MAX_PT_LEN
  }

  /**
   * Kernel pages below the break that was in force when the table was built are mapped one to one; idle, the only
   * process, has one stack page in the first free frame; exactly these frames are marked.
   */
  ghost predicate IdleReady(s: Vm, idle: Pid, built: nat) {
    && |s.kpt| == MAX_PT_LEN && |s.phys| == |s.used| && MAX_PT_LEN < |s.used|
    && built % PAGESIZE == 0 && built / PAGESIZE <= SCRATCH_VPN
    && (forall v :: 0 <= v < MAX_PT_LEN ==> s.kpt[v].pfn == v && s.kpt[v].valid == KernelMapped(built, v))
    && s.curr == idle && s.spaces.Keys == {idle}
    && var t := s.spaces[idle].table;
    && |t| == MAX_PT_LEN && s.spaces[idle].brk == 0 && s.spaces[idle].sp == 0
    && (forall v :: 0 <= v < MAX_PT_LEN - 1 ==> t[v] == INVALID)
    && t[MAX_PT_LEN - 1].valid && t[MAX_PT_LEN - 1].prot == PROT_RW
    && var f := t[MAX_PT_LEN - 1].pfn;
    && f == built / PAGESIZE
    && forall g :: 0 <= g < |s.used| ==> (s.used[g] <==> (g < MAX_PT_LEN && KernelMapped(built, g)) || g == f)
  }

  /** The same when the break has not moved since. */
  ghost predicate Booted(s: Vm, idle: Pid) {
    IdleReady(s, idle, s.kernelBrk)
  }

  /** KernelStart as a whole: init has been cloned from idle. */
  ghost predicate Started(s: Vm, idle: Pid, init: Pid) {
    exists s0 :: Booted(s0, idle) && Shaped(s0) && Next(s0, Boot(init), s)
  }

  lemma StartedBy(s0: Vm, idle: Pid, init: Pid, s: Vm)
    requires Booted(s0, idle) && Shaped(s0) && Spawns(s0, init, NoPages(), s)
    ensures Started(s, idle, init)
  {
    assert Next(s0, Boot(init), s);
  }

  lemma BootKeeps(s: Vm, idle: Pid)
    requires Booted(s, idle)
    ensures Inv(s)
  {
    assert Shaped(s);
    forall x | Mapped(s, x)
      ensures match x
        case KernelPage(v) => Frame(s, x) == v && KernelMapped(s.kernelBrk, v) && v < STACK_VPN
        case UserPage(p, v) => p == idle && v == MAX_PT_LEN - 1 && !KernelMapped(s.kernelBrk, Frame(s, x))
        case StackPage(p, i) => p == idle && i < 2 && Frame(s, x) == STACK_VPN + 1 - i
      ensures Frame(s, x) < |s.used| && s.used[Frame(s, x)]
    {
    }
  }
}
