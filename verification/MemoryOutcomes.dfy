/**
 * When the two break calls and LoadProgram succeed, and what they leave behind, page by page and stated from
 * the addresses alone.
 */
module MemoryOutcomes {
  import opened Memory
  import opened ProgramLayout
  import opened MemorySteps
  import opened FrameCounts

  // ------------------------------------------------------------ rounding

  /** b is the 32-bit address addr rounded up to a page. */
  predicate RoundsUp(addr: nat, b: nat) {
    addr < ADDRESSES && b % PAGESIZE == 0 && addr <= b < addr + PAGESIZE
  }

  /** Only the last page of all wraps around. */
  lemma RoundedIs(addr: nat, b: nat)
    requires RoundsUp(addr, b)
    ensures UpToPage(addr) == if b == ADDRESSES then 0 else b
  {
  }

  // ------------------------------------------------------------ the break of a process

  /** First address of a Region 1 page. */
  function PageStart(v: nat): nat {
    VMEM_1_BASE + v * PAGESIZE
  }

  /** A page that came between the old and the new break: mapped to a frame that was free, or given up. */
  ghost predicate PageRaised(e: Pte, used: seq<bool>, used': seq<bool>) {
    e.valid && e.prot == PROT_RW && e.pfn < |used| && !used[e.pfn] && e.pfn < |used'| && used'[e.pfn]
  }

  ghost predicate PageLowered(e: Pte, e': Pte, used': seq<bool>) {
    e' == Pte(false, PROT_NONE, 0) && e.pfn < |used'| && !used'[e.pfn]
  }

  /** The heap of a process ends at b afterwards; b is the address of the call, rounded up. */
  ghost predicate BrkOutcome(s: Vm, b: nat, r: int, s': Vm)
    requires Shaped(s)
  {
    var me := s.spaces[s.curr];
    if VMEM_1_BASE <= b <= me.sp then
      && r == 0 && s.curr in s'.spaces
      && var me' := s'.spaces[s.curr];
      && s' == s.(used := s'.used, spaces := s.spaces[s.curr := me.(brk := b, table := me'.table)])
      && |me'.table| == MAX_PT_LEN && |s'.used| == |s.used|
      && (forall v {:trigger me'.table[v]} :: 0 <= v < MAX_PT_LEN ==>
            && (PageStart(v) < b ==> me'.table[v].valid)
            && (if b <= PageStart(v) < me.brk then PageLowered(me.table[v], me'.table[v], s'.used)
                else if me.brk <= PageStart(v) < b then PageRaised(me'.table[v], s.used, s'.used)
                else me'.table[v] == me.table[v]))
    else
      r == -1 && s' == s
  }

  lemma BrkDoes(s: Vm, addr: nat, b: nat, r: int, s': Vm)
    requires Inv(s) && s.spaces[s.curr].brk >= VMEM_1_BASE && RoundsUp(addr, b) && SetsBrk(s, addr, r, s')
    ensures BrkOutcome(s, b, r, s')
  {
    var me := s.spaces[s.curr];
    assert BrkMapped(me);
    RoundedIs(addr, b);
    TableOwns(s, s.curr);
    hide UpToPage, Exclusive, Marked, Stacked;
  }

  /** The same for the one address that is addr rounded up, whichever it is. */
  lemma BrkDoesRounded(s: Vm, addr: nat, r: int, s': Vm)
    requires Inv(s) && s.spaces[s.curr].brk >= VMEM_1_BASE && SetsBrk(s, addr, r, s')
    ensures forall b :: RoundsUp(addr, b) ==> BrkOutcome(s, b, r, s')
  {
    assert Shaped(s);
    hide *;
    forall b | RoundsUp(addr, b) ensures BrkOutcome(s, b, r, s') { BrkDoes(s, addr, b, r, s'); }
  }

  /**
   * Raised over pages that were not mapped and lowered again to where it was, the break succeeds both times,
   * and pages, their validity and the number of free frames are as before.
   */
  lemma RaisedAndLowered(s: Vm, up: nat, b: nat, r: int, s': Vm, r': int, s'': Vm)
    requires Inv(s) && s.spaces[s.curr].brk >= VMEM_1_BASE && RoundsUp(up, b) && SetsBrk(s, up, r, s')
    requires s.spaces[s.curr].brk <= b <= s.spaces[s.curr].sp
    requires forall v :: 0 <= v < MAX_PT_LEN && s.spaces[s.curr].brk <= PageStart(v) < b ==>
      s.spaces[s.curr].table[v] == INVALID
    requires s'.curr in s'.spaces && Shaped(s') && s'.spaces[s'.curr].brk >= VMEM_1_BASE
    requires SetsBrk(s', s.spaces[s.curr].brk, r', s'')
    ensures r == 0 && r' == 0 && s''.curr == s.curr && s.curr in s''.spaces
    ensures s''.spaces[s.curr] == s.spaces[s.curr]
    ensures FreeCount(s''.used) == FreeCount(s.used)
  {
    var brk := s.spaces[s.curr].brk;
    assert BrkMapped(s.spaces[s.curr]);
    BrkDoes(s, up, b, r, s');
    BrkKeeps(s, up, r, s');
    assert RoundsUp(brk, brk);
    BrkDoes(s', brk, brk, r', s'');
    BrkCount(s, up, s');
    BrkCount(s', brk, s'');
    hide Inv, FreeCount, SetsBrk;
    assert s''.spaces[s.curr].table == s.spaces[s.curr].table;
  }

  // ------------------------------------------------------------ the kernel break

  ghost predicate KernelBrkOutcome(s: Vm, addr: nat, b: nat, r: int, s': Vm)
    requires Shaped(s)
  {
    if addr < s.kernelBrk || s.kernelBrk < addr < VMEM_0_LIMIT - 3 * PAGESIZE then
      && r == 0
      && s' == s.(used := s'.used, kpt := s'.kpt, kernelBrk := b)
      && |s'.kpt| == MAX_PT_LEN && |s'.used| == |s.used|
      && (forall v {:trigger s'.kpt[v]} :: 0 <= v < MAX_PT_LEN ==>
            && (v * PAGESIZE < b ==> s'.kpt[v].valid)
            && (if b <= v * PAGESIZE < s.kernelBrk then PageLowered(s.kpt[v], s'.kpt[v], s'.used)
                else if s.kernelBrk <= v * PAGESIZE < b then PageRaised(s'.kpt[v], s.used, s'.used)
                else s'.kpt[v] == s.kpt[v]))
    else
      r == -1 && s' == s
  }

  lemma KernelBrkDoes(s: Vm, addr: nat, b: nat, r: int, s': Vm)
    requires Inv(s) && RoundsUp(addr, b) && SetsKernelBrk(s, addr, r, s')
    ensures KernelBrkOutcome(s, addr, b, r, s')
  {
    RoundedIs(addr, b);
    TableOwns(s, s.curr);
    hide UpToPage, Exclusive, Marked, Stacked;
  }

  lemma KernelBrkDoesRounded(s: Vm, addr: nat, r: int, s': Vm)
    requires Inv(s) && SetsKernelBrk(s, addr, r, s')
    ensures forall b :: RoundsUp(addr, b) ==> KernelBrkOutcome(s, addr, b, r, s')
  {
    assert Shaped(s);
    hide *;
    forall b | RoundsUp(addr, b) ensures KernelBrkOutcome(s, addr, b, r, s') { KernelBrkDoes(s, addr, b, r, s'); }
  }

  // ------------------------------------------------------------ exec

  /** Bytes of the arguments, each with its NUL. */
  function TextSize(args: seq<CString>): nat {
    if args == [] then 0 else TextSize(args[..|args| - 1]) + |args[|args| - 1]| + 1
  }

  lemma {:induction false} TextSizeIs(args: seq<CString>)
    ensures TextSize(args) == ArgBytes(args)
  {
    if args != [] {
      TextSizeIs(args[..|args| - 1]);
      BytesAppend(args[..|args| - 1], args[|args| - 1]);
      assert args == args[..|args| - 1] + [args[|args| - 1]];
    }
  }

  lemma {:induction false} BytesAppend(args: seq<CString>, a: CString)
    ensures ArgBytes(args + [a]) == ArgBytes(args) + |a| + 1
  {
    if args == [] {
      assert (args + [a])[1..] == [];
    } else {
      assert (args + [a])[1..] == args[1..] + [a];
      BytesAppend(args[1..], a);
    }
  }

  /**
   * The stack pointer is the highest multiple of 8 that leaves room for the strings, for argc, the argv
   * pointers and the two nulls, and for 32 words between them.
   */
  lemma StackPointerExact(args: seq<CString>)
    ensures var room := TextSize(args) + 4 * (|args| + 3 + 32);
      && StackPointer(args) % 8 == 0
      && StackPointer(args) + room <= VMEM_1_LIMIT < StackPointer(args) + room + 8
  {
    TextSizeIs(args);
  }

  /** End of the data of a linked program. */
  function DataEnd(li: LoadInfo): nat {
    VMEM_1_BASE + (li.tNpg + li.idNpg + li.udNpg) * PAGESIZE
  }

  /** The program is linked to the start of Region 1, its data directly behind its text. */
  predicate LinkedAt(li: LoadInfo) {
    li.tNpg > 0 && li.tVaddr == VMEM_1_BASE && li.idVaddr == VMEM_1_BASE + li.tNpg * PAGESIZE
  }

  /** Some page of Region 1 lies behind the data and wholly below the page of the stack pointer. */
  predicate RoomBetween(li: LoadInfo, sp: int) {
    exists v :: 0 <= v < MAX_PT_LEN
      && DataEnd(li) <= PageStart(v) && PageStart(v) + PAGESIZE <= sp / PAGESIZE * PAGESIZE
  }

  /** Which pages a loaded program has, and with which protection. */
  ghost predicate PageLoaded(li: LoadInfo, sp: int, v: nat, e: Pte, e': Pte, released: seq<bool>, used': seq<bool>) {
    var first := PageStart(v);
    if first < VMEM_1_BASE + li.tNpg * PAGESIZE then
      e'.valid && e'.prot == PROT_RX && FreshFrame(e', released, used')
    else if first < DataEnd(li) || sp / PAGESIZE * PAGESIZE <= first then
      e'.valid && e'.prot == PROT_RW && FreshFrame(e', released, used')
    else
      e' == e.(valid := false)
  }

  /** The frame was free once the old pages had been given back, and is taken now. */
  predicate FreshFrame(e: Pte, released: seq<bool>, used': seq<bool>) {
    e.pfn < |released| && !released[e.pfn] && e.pfn < |used'| && used'[e.pfn]
  }

  ghost predicate LoadOutcome(s: Vm, li: LoadInfo, args: seq<CString>, r: int, s': Vm)
    requires Shaped(s)
  {
    var me, sp := s.spaces[s.curr], StackPointer(args);
    if li.entry >= VMEM_1_BASE && RoomBetween(li, sp) then
      && r == 0 && s.curr in s'.spaces
      && var me' := s'.spaces[s.curr];
      && s' == s.(used := s'.used, spaces := s.spaces[s.curr := me'])
      && me'.kstack == me.kstack && me'.brk == DataEnd(li) && me'.sp == sp / PAGESIZE * PAGESIZE - PAGESIZE
      && |me'.table| == MAX_PT_LEN && |s'.used| == |s.used|
      && (forall v {:trigger me'.table[v]} :: 0 <= v < MAX_PT_LEN ==>
            PageLoaded(li, sp, v, me.table[v], me'.table[v], Released(me.table, s.used), s'.used))
    else
      r == -1 && s' == s
  }

  lemma StackPagesExact(args: seq<CString>)
    ensures StackPages(args) * PAGESIZE == VMEM_1_LIMIT - StackPointer(args) / PAGESIZE * PAGESIZE
  {
    StackPagesCover(args);
  }

  /** A linked program fits if and only if there is room between its data and the page of its stack pointer. */
  lemma FitsExactly(li: LoadInfo, args: seq<CString>)
    requires LinkedAt(li)
    ensures Linked(li) && (Fits(li, args) <==> li.entry >= VMEM_1_BASE && RoomBetween(li, StackPointer(args)))
    ensures TextPage(li) == 0 && DataPage(li) == li.tNpg && DataPages(li) == li.idNpg + li.udNpg
  {
    StackPagesExact(args);
    var n, sp := li.tNpg + li.idNpg + li.udNpg, StackPointer(args);
    assert TextPage(li) == 0 && DataPage(li) == li.tNpg;
    hide StackPages, StackPointer, TextPage, DataPage;
    if Fits(li, args) {
      assert DataEnd(li) <= PageStart(n) && PageStart(n) + PAGESIZE <= sp / PAGESIZE * PAGESIZE;
    }
    if RoomBetween(li, sp) {
      var v :| 0 <= v < MAX_PT_LEN
        && DataEnd(li) <= PageStart(v) && PageStart(v) + PAGESIZE <= sp / PAGESIZE * PAGESIZE;
    }
  }

  lemma LoadDoes(s: Vm, li: LoadInfo, args: seq<CString>, r: int, s': Vm)
    requires Shaped(s) && LinkedAt(li) && Loads(s, li, args, r, s')
    ensures LoadOutcome(s, li, args, r, s')
  {
    FitsExactly(li, args);
    StackPagesExact(args);
    hide StackPages, StackPointer, TextPage, DataPage, Released, RoomBetween, Linked;
    if Fits(li, args) {
      var me, me' := s.spaces[s.curr], s'.spaces[s.curr];
      forall v | 0 <= v < MAX_PT_LEN
        ensures PageLoaded(li, StackPointer(args), v, me.table[v], me'.table[v], Released(me.table, s.used), s'.used)
      {
        assert Loaded(li, args, v) || !Loaded(li, args, v);
      }
    }
  }
}
