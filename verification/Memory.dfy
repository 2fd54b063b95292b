/**
 * Physical frames, page tables and kernel-stack slots on values: what each kernel
 * operation on memory does, that no frame ever backs two pages, and that a process
 * sees only its own pages.
 */
module Memory {

  type Pid = int
  type Byte = x: int | 0 <= x < 256

  const PAGESIZE: nat := 0x2000
  const MAX_PT_LEN: nat := 128
  const VMEM_0_LIMIT: nat := 0x100000
  const VMEM_1_BASE: nat := 0x100000
  const VMEM_1_LIMIT: nat := 0x200000
  const ADDRESSES: nat := 0x1_0000_0000

  // the two kernel-stack pages and the two pages below them, used to copy
  const STACK_VPN: nat := 126
  const SCRATCH_VPN: nat := 124

  const PROT_NONE: nat := 0
  const PROT_RW: nat := 3
  const PROT_RX: nat := 5

  type Page = s: seq<Byte> | |s| == PAGESIZE witness seq(PAGESIZE, _ => 0)

  datatype Pte = Pte(valid: bool, prot: nat, pfn: nat)

  const INVALID: Pte := Pte(false, PROT_NONE, 0)

  /** kernel_stack_t: entry 0 is the page at the limit of region 0, entry 1 the one below. */
  datatype KStack = KStack(page0: Pte, page1: Pte)

  /** memblock_t of a live process */
  datatype Space = Space(brk: nat, sp: nat, table: seq<Pte>, kstack: KStack)

  datatype Vm = Vm(
    used: seq<bool>,          // mem_frames.bit_arr
    kpt: seq<Pte>,            // kernel_page_table
    phys: seq<Page>,          // contents of the frames
    spaces: map<Pid, Space>,  // of the live processes
    curr: Pid,
    kernelBrk: nat)

  /** UP_TO_PAGE and DOWN_TO_PAGE on 32-bit addresses */
  function UpToPage(a: nat): nat {
    (a + (PAGESIZE - 1)) / PAGESIZE * PAGESIZE % ADDRESSES
  }

  function DownToPage(a: nat): nat {
    a / PAGESIZE * PAGESIZE
  }

  // ------------------------------------------------------------ pages and frames

  /** Every page that some page table or saved kernel stack can name. */
  datatype Slot =
    | KernelPage(vpn: nat)
    | UserPage(pid: Pid, vpn: nat)
    | StackPage(pid: Pid, i: nat)

  ghost predicate Shaped(s: Vm) {
    && |s.kpt| == MAX_PT_LEN
    && |s.phys| == |s.used|
    && s.curr in s.spaces
    && forall p :: p in s.spaces ==> |s.spaces[p].table| == MAX_PT_LEN
  }

  /** The kernel stack of the running process is in the kernel page table, the others are saved. */
  ghost function StackOf(s: Vm, p: Pid): KStack
    requires Shaped(s) && p in s.spaces
  {
    if p == s.curr then KStack(s.kpt[STACK_VPN + 1], s.kpt[STACK_VPN]) else s.spaces[p].kstack
  }

  ghost function EntryOf(s: Vm, x: Slot): Pte
    requires Shaped(s)
  {
    match x
    case KernelPage(vpn) => if vpn < STACK_VPN then s.kpt[vpn] else INVALID
    case UserPage(p, vpn) => if p in s.spaces && vpn < MAX_PT_LEN then s.spaces[p].table[vpn] else INVALID
    case StackPage(p, i) =>
      if p in s.spaces && i == 0 then StackOf(s, p).page0
      else if p in s.spaces && i == 1 then StackOf(s, p).page1
      else INVALID
  }

  ghost predicate Mapped(s: Vm, x: Slot)
    requires Shaped(s)
  {
    EntryOf(s, x).valid
  }

  ghost function Frame(s: Vm, x: Slot): nat
    requires Shaped(s)
  {
    EntryOf(s, x).pfn
  }

  // ------------------------------------------------------------ the invariant

  /** No frame backs two distinct pages. */
  ghost predicate Exclusive(s: Vm)
    requires Shaped(s)
  {
    forall x, y {:trigger Mapped(s, x), Mapped(s, y)} ::
      x != y && Mapped(s, x) && Mapped(s, y) ==> Frame(s, x) != Frame(s, y)
  }

  /** The frame of every mapped page exists and is marked used. */
  ghost predicate Marked(s: Vm)
    requires Shaped(s)
  {
    forall x {:trigger Mapped(s, x)} ::
      Mapped(s, x) ==> Frame(s, x) < |s.used| && s.used[Frame(s, x)]
  }

  /** Every live process has both its kernel-stack pages. */
  ghost predicate Stacked(s: Vm)
    requires Shaped(s)
  {
    forall p {:trigger p in s.spaces} :: p in s.spaces ==> Mapped(s, StackPage(p, 0)) && Mapped(s, StackPage(p, 1))
  }

  /** Number of Region 1 pages below brk. */
  function HeapPages(m: Space): nat {
    if m.brk >= VMEM_1_BASE then (m.brk - VMEM_1_BASE) / PAGESIZE else 0
  }

  ghost predicate BrkMapped(m: Space)
    requires |m.table| == MAX_PT_LEN
  {
    && m.brk % PAGESIZE == 0 && HeapPages(m) <= MAX_PT_LEN && m.sp <= VMEM_1_LIMIT
    && forall vpn :: 0 <= vpn < HeapPages(m) ==> m.table[vpn].valid
  }

  /** Everything below a brk is mapped; the pages used to copy are not. */
  ghost predicate Breaks(s: Vm)
    requires Shaped(s)
  {
    && s.kernelBrk % PAGESIZE == 0 && s.kernelBrk / PAGESIZE <= SCRATCH_VPN
    && (forall vpn :: 0 <= vpn < s.kernelBrk / PAGESIZE ==> s.kpt[vpn].valid)
    && !s.kpt[SCRATCH_VPN].valid && !s.kpt[SCRATCH_VPN + 1].valid
    && (forall p {:trigger p in s.spaces} :: p in s.spaces ==> BrkMapped(s.spaces[p]))
  }

  ghost predicate Inv(s: Vm) {
    Shaped(s) && Exclusive(s) && Marked(s) && Stacked(s) && Breaks(s)
  }

  // ------------------------------------------------------------ what processes see

  /** The contents of a mapped page. */
  ghost function Content(s: Vm, x: Slot): Page
    requires Shaped(s) && Mapped(s, x) && Frame(s, x) < |s.phys|
  {
    s.phys[Frame(s, x)]
  }

  /** Page x is mapped with the same protection and contents in both states. */
  ghost predicate SamePage(s: Vm, x: Slot, s': Vm, x': Slot)
    requires Shaped(s) && Shaped(s')
  {
    && Mapped(s, x) == Mapped(s', x')
    && (Mapped(s, x) ==>
          && Frame(s, x) < |s.phys| && Frame(s', x') < |s'.phys|
          && EntryOf(s, x).prot == EntryOf(s', x').prot
          && Content(s, x) == Content(s', x'))
  }

  /** The pages that belong to process p. */
  predicate OwnedBy(x: Slot, p: Pid) {
    (x.UserPage? || x.StackPage?) && x.pid == p
  }

  // ------------------------------------------------------------ mapping and unmapping pages

  predicate Free(used: seq<bool>, f: nat) {
    f < |used| && !used[f]
  }

  /** Nothing that was used is given away or overwritten. */
  ghost predicate Grows(s: Vm, s': Vm) {
    && |s'.used| == |s.used| && |s'.phys| == |s.phys|
    && forall f :: 0 <= f < |s.used| && s.used[f] ==> s'.used[f] && (f < |s.phys| ==> s'.phys[f] == s.phys[f])
  }

  /** first_free_frame_idx: the lowest free frame is taken. */
  ghost predicate TookFirst(used: seq<bool>, f: nat, used': seq<bool>) {
    && Free(used, f)
    && (forall g :: 0 <= g < f ==> used[g])
    && used' == used[f := true]
  }

  /** Entries lo..hi of a table are backed by distinct frames that were free, readable and writable. */
  ghost predicate MapsRange(t: seq<Pte>, used: seq<bool>, lo: int, hi: int, t': seq<Pte>, used': seq<bool>) {
    && |t'| == |t| && |used'| == |used|
    && (forall v :: 0 <= v < |t| && !(lo <= v < hi) ==> t'[v] == t[v])
    && (forall v :: 0 <= v < |t| && lo <= v < hi ==>
          t'[v].valid && t'[v].prot == PROT_RW && Free(used, t'[v].pfn) && used'[t'[v].pfn])
    && (forall v, w :: 0 <= v < w < |t| && lo <= v && w < hi ==> t'[v].pfn != t'[w].pfn)
    && (forall f :: 0 <= f < |used| ==>
          (used'[f] <==> used[f] || exists v :: 0 <= v < |t| && lo <= v < hi && t'[v].pfn == f))
  }

  /** Entries lo..hi of a table are reset and their frames are free again. */
  ghost predicate UnmapsRange(t: seq<Pte>, used: seq<bool>, lo: int, hi: int, t': seq<Pte>, used': seq<bool>) {
    && |t'| == |t| && |used'| == |used|
    && (forall v :: 0 <= v < |t| ==> t'[v] == if lo <= v < hi then INVALID else t[v])
    && (forall f :: 0 <= f < |used| ==>
          (used'[f] <==> used[f] && !exists v :: 0 <= v < |t| && lo <= v < hi && t[v].pfn == f))
  }

  // ------------------------------------------------------------ which frames are marked

  /** The frames behind the valid entries lo..hi of a table. */
  ghost function FramesIn(t: seq<Pte>, lo: nat, hi: nat): set<nat> {
    set v | lo <= v < hi && v < |t| && t[v].valid :: t[v].pfn
  }

  ghost function FramesOf(t: seq<Pte>): set<nat> {
    FramesIn(t, 0, |t|)
  }

  function StackFrames(k: KStack): set<nat> {
    {k.page0.pfn, k.page1.pfn}
  }

  /** The frames of a process: of its pages and of its saved stack. */
  ghost function OwnFrames(c: Space): set<nat> {
    FramesOf(c.table) + StackFrames(c.kstack)
  }

  /** In addition exactly the frames of a set are marked. */
  ghost predicate MarksExactly(used: seq<bool>, fs: set<nat>, used': seq<bool>) {
    |used'| == |used| && forall f :: 0 <= f < |used| ==> (used'[f] <==> used[f] || f in fs)
  }

  ghost predicate TwoLowest(used: seq<bool>, a: nat, b: nat) {
    a < b && Free(used, a) && Free(used, b) && forall g :: 0 <= g < b && g != a ==> used[g]
  }

  /** The two lowest free frames are taken. */
  ghost predicate TookTwo(used: seq<bool>, a: nat, b: nat, used': seq<bool>) {
    TwoLowest(used, a, b) && used' == used[a := true][b := true]
  }

  // ------------------------------------------------------------ fork and boot

  /**
   * The first n pages of a new table are copies of the source pages, in distinct frames
   * that were free; the other entries are invalid.
   */
  ghost predicate CopiesPages(used: seq<bool>, phys: seq<Page>, src: seq<Pte>, n: nat,
                              dst: seq<Pte>, used': seq<bool>, phys': seq<Page>) {
    && |src| == |dst| == MAX_PT_LEN && |used| == |phys| == |used'| == |phys'|
    && (forall v :: 0 <= v < MAX_PT_LEN ==>
          if v < n && src[v].valid then
            && dst[v].valid && dst[v].prot == src[v].prot
            && Free(used, dst[v].pfn) && used'[dst[v].pfn]
            && (src[v].pfn < |phys| ==> phys'[dst[v].pfn] == phys[src[v].pfn])
          else dst[v] == INVALID)
    && (forall v, w :: 0 <= v < w < n && w < MAX_PT_LEN && src[v].valid && src[w].valid ==> dst[v].pfn != dst[w].pfn)
  }

  /** The two pages of a new kernel stack are copies of the current one, in frames that were free. */
  ghost predicate CopiesStack(s: Vm, dst: seq<Pte>, k: KStack, s': Vm)
    requires |s.kpt| == MAX_PT_LEN && |s.used| == |s.phys| == |s'.used| == |s'.phys|
  {
    && k.page0.valid && k.page1.valid && k.page0.prot == k.page1.prot == PROT_RW
    && Free(s.used, k.page0.pfn) && Free(s.used, k.page1.pfn) && k.page0.pfn != k.page1.pfn
    && s'.used[k.page0.pfn] && s'.used[k.page1.pfn]
    && (forall v :: 0 <= v < |dst| && dst[v].valid ==> dst[v].pfn != k.page0.pfn && dst[v].pfn != k.page1.pfn)
    && (s.kpt[STACK_VPN + 1].pfn < |s.phys| ==> s'.phys[k.page0.pfn] == s.phys[s.kpt[STACK_VPN + 1].pfn])
    && (s.kpt[STACK_VPN].pfn < |s.phys| ==> s'.phys[k.page1.pfn] == s.phys[s.kpt[STACK_VPN].pfn])
  }

  /**
   * Marked in addition are exactly the frames of the child's pages and stack and two more, a and b: the stack
   * that create_process takes and KCCopy replaces.
   */
  ghost predicate TakesFrames(used: seq<bool>, c: Space, a: nat, b: nat, used': seq<bool>) {
    && a !in OwnFrames(c) && b !in OwnFrames(c)
    && exists used1 :: TookTwo(used, a, b, used1) && MarksExactly(used1, OwnFrames(c), used')
  }

  /**
   * A process is created, given copies of the pages of table src, and cloned from
   * the running process by KCCopy. Its break and stack bounds are those of a process
   * that has loaded nothing.
   */
  ghost predicate Spawns(s: Vm, child: Pid, src: seq<Pte>, s': Vm)
    requires Shaped(s)
  {
    && child !in s.spaces && child in s'.spaces
    && var c := s'.spaces[child];
    && s'.spaces == s.spaces[child := c]
    && s'.curr == s.curr && s'.kernelBrk == s.kernelBrk
    && c.brk == VMEM_1_BASE && c.sp == VMEM_1_LIMIT
    && |s'.kpt| == MAX_PT_LEN
    && (forall v :: 0 <= v < MAX_PT_LEN && v != SCRATCH_VPN && v != SCRATCH_VPN + 1 ==> s'.kpt[v] == s.kpt[v])
    && !s'.kpt[SCRATCH_VPN].valid && !s'.kpt[SCRATCH_VPN + 1].valid
    && s'.kpt[SCRATCH_VPN].pfn == s'.kpt[SCRATCH_VPN + 1].pfn == 0
    && Grows(s, s')
    && CopiesPages(s.used, s.phys, src, MAX_PT_LEN, c.table, s'.used, s'.phys)
    && CopiesStack(s, c.table, c.kstack, s')
    && exists a, b :: TakesFrames(s.used, c, a, b, s'.used)
  }

  // ------------------------------------------------------------ context switch and exit

  /** KCSwitch: the current kernel stack is saved, then the next one is put in place. */
  ghost function Switched(s: Vm, next: Pid): Vm
    requires Shaped(s) && next in s.spaces
  {
    var saved := s.spaces[s.curr := s.spaces[s.curr].(kstack := StackOf(s, s.curr))];
    s.(spaces := saved,
       kpt := s.kpt[STACK_VPN + 1 := saved[next].kstack.page0][STACK_VPN := saved[next].kstack.page1],
       curr := next)
  }

  /** The running process is gone: its page table is freed, its frames are not. */
  ghost function Exited(s: Vm, next: Pid): Vm
    requires Shaped(s) && next in s.spaces
  {
    var s1 := Switched(s, next);
    s1.(spaces := s1.spaces - {s.curr})
  }

  // ------------------------------------------------------------ breaks

  /** KernelBrk for a process other than idle. */
  ghost predicate SetsBrk(s: Vm, addr: nat, r: int, s': Vm)
    requires Shaped(s) && s.spaces[s.curr].brk >= VMEM_1_BASE
  {
    var me := s.spaces[s.curr];
    var newBrk := UpToPage(addr);
    if !(VMEM_1_BASE <= newBrk <= DownToPage(me.sp)) then
      r == -1 && s' == s
    else
      && s.curr in s'.spaces
      && var me' := s'.spaces[s.curr];
      var lo, hi := HeapPages(me), (newBrk - VMEM_1_BASE) / PAGESIZE;
      && r == 0
      && s' == s.(used := s'.used, spaces := s.spaces[s.curr := me'])
      && me' == me.(brk := newBrk, table := me'.table)
      && (if newBrk < me.brk then UnmapsRange(me.table, s.used, hi, lo, me'.table, s'.used)
          else MapsRange(me.table, s.used, lo, hi, me'.table, s'.used))
  }

  /** SetKernelBrk once virtual memory is on. */
  ghost predicate SetsKernelBrk(s: Vm, addr: nat, r: int, s': Vm)
    requires Shaped(s)
  {
    var newBrk := UpToPage(addr);
    var lo, hi := s.kernelBrk / PAGESIZE, newBrk / PAGESIZE;
    if s.kernelBrk < addr < VMEM_0_LIMIT - 3 * PAGESIZE then
      && r == 0
      && s' == s.(used := s'.used, kpt := s'.kpt, kernelBrk := newBrk)
      && MapsRange(s.kpt, s.used, lo, hi, s'.kpt, s'.used)
    else if addr < s.kernelBrk then
      && r == 0
      && s' == s.(used := s'.used, kpt := s'.kpt, kernelBrk := newBrk)
      && UnmapsRange(s.kpt, s.used, hi, lo, s'.kpt, s'.used)
    else
      r == -1 && s' == s
  }
}
