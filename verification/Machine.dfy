/**
 * The memory side of sample/hardware.c, sample/kernel_context.c, KernelFork and
 * KernelBrk on arrays in the heap: bitmap, page tables and frames are updated in
 * place. Every operation is tied to the relation of module Memory that describes it.
 */
module MachineObjects {
  import opened Memory
  import opened ProgramLayout
  import opened MemorySteps
  import opened FrameCounts
  import opened MemoryOutcomes

  // ------------------------------------------------------------ free frames

  lemma MapsOneMore(t0: seq<Pte>, used0: seq<bool>, lo: nat, k: nat, t: seq<Pte>, used: seq<bool>, f: nat)
    requires lo <= k < |t0| && MapsRange(t0, used0, lo, k, t, used) && Free(used, f)
    ensures MapsRange(t0, used0, lo, k + 1, t[k := Pte(true, PROT_RW, f)], used[f := true])
  {
    var t', used' := t[k := Pte(true, PROT_RW, f)], used[f := true];
    assert t'[k].pfn == f;
    forall g | 0 <= g < |used|
      ensures used'[g] <==> used0[g] || exists v :: 0 <= v < |t0| && lo <= v < k + 1 && t'[v].pfn == g
    {
      if used[g] && !used0[g] {
        var v :| 0 <= v < |t0| && lo <= v < k && t[v].pfn == g;
        assert t'[v].pfn == g;
      }
    }
  }

  lemma CopiesOneMore(used0: seq<bool>, phys0: seq<Page>, src: seq<Pte>, n: nat,
                      dst: seq<Pte>, used: seq<bool>, phys: seq<Page>, f: nat)
    requires CopiesPages(used0, phys0, src, n, dst, used, phys)
    requires n < MAX_PT_LEN && src[n].valid && src[n].pfn < |used| && used0[src[n].pfn]
    requires forall g :: 0 <= g < |used| && used0[g] ==> used[g] && phys[g] == phys0[g]
    requires Free(used, f)
    ensures CopiesPages(used0, phys0, src, n + 1, dst[n := Pte(true, src[n].prot, f)],
                        used[f := true], phys[f := phys[src[n].pfn]])
  {
  }

  /** What the copying loop of KernelFork has done after n pages. */
  ghost predicate Copied(used0: seq<bool>, phys0: seq<Page>, kpt0: seq<Pte>, src: seq<Pte>, n: nat,
                         dst: seq<Pte>, used: seq<bool>, phys: seq<Page>, kpt: seq<Pte>) {
    && n <= MAX_PT_LEN == |src| == |kpt0| == |kpt|
    && CopiesPages(used0, phys0, src, n, dst, used, phys)
    && MarksExactly(used0, FramesOf(dst), used)
    && (forall f :: 0 <= f < |used0| && used0[f] ==> phys[f] == phys0[f])
    && (forall v :: 0 <= v < MAX_PT_LEN && v != SCRATCH_VPN + 1 ==> kpt[v] == kpt0[v])
    && !kpt[SCRATCH_VPN + 1].valid
    && FreeCount(used) == FreeCount(used0) - ValidCount(src, 0, n)
  }

  lemma CopiedNone(used: seq<bool>, phys: seq<Page>, kpt: seq<Pte>, src: seq<Pte>, dst: seq<Pte>)
    requires |src| == |dst| == |kpt| == MAX_PT_LEN && |used| == |phys| && !kpt[SCRATCH_VPN + 1].valid
    requires forall v :: 0 <= v < MAX_PT_LEN ==> dst[v] == INVALID
    ensures Copied(used, phys, kpt, src, 0, dst, used, phys, kpt)
  {
  }

  /** What the next round needs, and that an invalid page needs nothing. */
  lemma CopiedFits(used0: seq<bool>, phys0: seq<Page>, kpt0: seq<Pte>, src: seq<Pte>, n: nat,
                   dst: seq<Pte>, used: seq<bool>, phys: seq<Page>, kpt: seq<Pte>)
    requires Copied(used0, phys0, kpt0, src, n, dst, used, phys, kpt) && n < MAX_PT_LEN
    requires FreeCount(used0) >= ValidCount(src, 0, MAX_PT_LEN)
    ensures src[n].valid ==> FreeCount(used) > 0
    ensures !src[n].valid ==> Copied(used0, phys0, kpt0, src, n + 1, dst, used, phys, kpt)
  {
    ValidSplit(src, 0, n + 1, MAX_PT_LEN);
  }

  lemma CopiedOneMore(used0: seq<bool>, phys0: seq<Page>, kpt0: seq<Pte>, src: seq<Pte>, n: nat,
                      dst: seq<Pte>, used: seq<bool>, phys: seq<Page>, kpt: seq<Pte>, f: nat)
    requires Copied(used0, phys0, kpt0, src, n, dst, used, phys, kpt) && n < MAX_PT_LEN && src[n].valid
    requires src[n].pfn < |used0| && used0[src[n].pfn] && Free(used, f)
    ensures src[n].pfn < |phys| && f < |phys|
    ensures Copied(used0, phys0, kpt0, src, n + 1, dst[n := Pte(true, src[n].prot, f)], used[f := true],
                   phys[f := phys[src[n].pfn]], kpt[SCRATCH_VPN + 1 := INVALID])
  {
    CopiesOneMore(used0, phys0, src, n, dst, used, phys, f);
    MarksOneMore(used0, used, dst, n, src[n].prot, f);
    FreeCountSet(used, f, true);
  }

  lemma MarksOneMore(used0: seq<bool>, used: seq<bool>, t: seq<Pte>, n: nat, prot: nat, f: nat)
    requires MarksExactly(used0, FramesOf(t), used) && Free(used, f) && n < |t| && !t[n].valid
    ensures MarksExactly(used0, FramesOf(t[n := Pte(true, prot, f)]), used[f := true])
  {
    var t' := t[n := Pte(true, prot, f)];
    assert t'[n].pfn == f && f in FramesOf(t');
    forall g ensures g in FramesOf(t') <==> g in FramesOf(t) || g == f {
      if g in FramesOf(t) {
        var v :| 0 <= v < |t| && t[v].valid && t[v].pfn == g;
        assert t'[v] == t[v];
      }
    }
  }

  /** The three allocating parts of a fork one after the other, in terms of bitmap, frames and kernel table. */
  ghost predicate Cloned(used: seq<bool>, phys: seq<Page>, kpt: seq<Pte>, src: seq<Pte>, c: Space,
                         used1: seq<bool>, used2: seq<bool>, phys2: seq<Page>,
                         used': seq<bool>, phys': seq<Page>, kpt': seq<Pte>) {
    && |used| == |phys| == |used1| == |used2| == |phys2| && |kpt| == |kpt'| == MAX_PT_LEN
    && (exists a, b :: TookTwo(used, a, b, used1))
    && CopiesPages(used1, phys, src, MAX_PT_LEN, c.table, used2, phys2)
    && MarksExactly(used1, FramesOf(c.table), used2)
    && (forall f :: 0 <= f < |used| && used1[f] ==> used2[f] && phys2[f] == phys[f])
    && c.brk == VMEM_1_BASE && c.sp == VMEM_1_LIMIT
    && (forall v :: v == STACK_VPN || v == STACK_VPN + 1 ==> kpt[v].pfn < |used| && used[kpt[v].pfn])
    && var k := c.kstack;
    && k.page0.valid && k.page1.valid && k.page0.prot == k.page1.prot == PROT_RW
    && Free(used2, k.page0.pfn) && Free(used2, k.page1.pfn) && k.page0.pfn != k.page1.pfn
    && used' == used2[k.page0.pfn := true][k.page1.pfn := true]
    && phys' == phys2[k.page1.pfn := phys2[kpt[STACK_VPN].pfn]][k.page0.pfn := phys2[kpt[STACK_VPN + 1].pfn]]
    && (forall v :: 0 <= v < MAX_PT_LEN && v != SCRATCH_VPN && v != SCRATCH_VPN + 1 ==> kpt'[v] == kpt[v])
    && !kpt'[SCRATCH_VPN].valid && !kpt'[SCRATCH_VPN + 1].valid
    && kpt'[SCRATCH_VPN].pfn == kpt'[SCRATCH_VPN + 1].pfn == 0
  }

  lemma SpawnedFrom(s: Vm, child: Pid, src: seq<Pte>, c: Space,
                    used1: seq<bool>, used2: seq<bool>, phys2: seq<Page>, s': Vm)
    requires Shaped(s) && Cloned(s.used, s.phys, s.kpt, src, c, used1, used2, phys2, s'.used, s'.phys, s'.kpt)
    requires child !in s.spaces && s'.spaces == s.spaces[child := c]
    requires s'.curr == s.curr && s'.kernelBrk == s.kernelBrk
    ensures Spawns(s, child, src, s')
  {
    assert CopiesPages(s.used, s.phys, src, MAX_PT_LEN, c.table, s'.used, s'.phys);
    assert CopiesStack(s, c.table, c.kstack, s');
    assert Grows(s, s');
    var a, b :| TookTwo(s.used, a, b, used1);
    ClonedTakes(s.used, a, b, used1, src, c, used2, phys2, s.phys, s'.used);
  }

  /** Which frames are marked once everything is done. */
  lemma ClonedTakes(used: seq<bool>, a: nat, b: nat, used1: seq<bool>, src: seq<Pte>, c: Space,
                    used2: seq<bool>, phys2: seq<Page>, phys: seq<Page>, used': seq<bool>)
    requires TookTwo(used, a, b, used1) && CopiesPages(used1, phys, src, MAX_PT_LEN, c.table, used2, phys2)
    requires MarksExactly(used1, FramesOf(c.table), used2)
    requires var k := c.kstack;
      && Free(used2, k.page0.pfn) && Free(used2, k.page1.pfn)
      && used' == used2[k.page0.pfn := true][k.page1.pfn := true]
    ensures TakesFrames(used, c, a, b, used')
  {
    assert MarksExactly(used1, OwnFrames(c), used');
  }

  /** Three ranges mapped one after the other in a table that was torn down. */
  lemma LoadsFrom(li: LoadInfo, args: seq<CString>, t0: seq<Pte>, used0: seq<bool>,
                  t2: seq<Pte>, used2: seq<bool>, t3: seq<Pte>, used3: seq<bool>,
                  t4: seq<Pte>, used4: seq<bool>, t5: seq<Pte>)
    requires |t0| == MAX_PT_LEN && Linked(li) && Fits(li, args)
    requires MapsRange(Invalidated(t0), Released(t0, used0), TextPage(li), TextPage(li) + li.tNpg, t2, used2)
    requires MapsRange(t2, used2, DataPage(li), DataPage(li) + DataPages(li), t3, used3)
    requires MapsRange(t3, used3, MAX_PT_LEN - StackPages(args), MAX_PT_LEN, t4, used4)
    requires |t5| == |t4| && forall v :: 0 <= v < |t4| ==>
      t5[v] == if TextPage(li) <= v < TextPage(li) + li.tNpg then Pte(t4[v].valid, PROT_RX, t4[v].pfn) else t4[v]
    ensures LoadsTable(li, args, t0, used0, t5, used4)
  {
    GuardPage(li, args);
    LoadsMark(Invalidated(t0), Released(t0, used0), TextPage(li), TextPage(li) + li.tNpg, t2, used2,
              DataPage(li) + DataPages(li), t3, used3, MAX_PT_LEN - StackPages(args), t4, used4, t5);
    hide MarksExactly;
  }

  /** Three ranges: the frames behind the valid entries are those that have been marked. */
  lemma LoadsMark(t1: seq<Pte>, used1: seq<bool>, lo: nat, mid: nat, t2: seq<Pte>, used2: seq<bool>,
                  hi: nat, t3: seq<Pte>, used3: seq<bool>, top: nat, t4: seq<Pte>, used4: seq<bool>, t5: seq<Pte>)
    requires lo <= mid <= hi <= top <= |t1| && forall v :: 0 <= v < |t1| ==> !t1[v].valid
    requires MapsRange(t1, used1, lo, mid, t2, used2) && MapsRange(t2, used2, mid, hi, t3, used3)
    requires MapsRange(t3, used3, top, |t1|, t4, used4)
    requires |t5| == |t4| && forall v :: 0 <= v < |t4| ==> t5[v].valid == t4[v].valid && t5[v].pfn == t4[v].pfn
    ensures MarksExactly(used1, FramesOf(t5), used4)
  {
    MapsCount(t1, used1, lo, mid, t2, used2);
    MapsCount(t2, used2, mid, hi, t3, used3);
    MapsCount(t3, used3, top, |t1|, t4, used4);
    FramesSplit(t1, lo, mid, t2, hi, t3, top, t4, t5);
  }

  lemma FramesSplit(t1: seq<Pte>, lo: nat, mid: nat, t2: seq<Pte>, hi: nat, t3: seq<Pte>,
                    top: nat, t4: seq<Pte>, t5: seq<Pte>)
    requires lo <= mid <= hi <= top <= |t1| == |t2| == |t3| == |t4| == |t5|
    requires forall v :: 0 <= v < |t1| ==> !t1[v].valid
    requires forall v :: 0 <= v < |t1| && !(lo <= v < mid) ==> t2[v] == t1[v]
    requires forall v :: 0 <= v < |t1| && !(mid <= v < hi) ==> t3[v] == t2[v]
    requires forall v :: 0 <= v < |t1| && !(top <= v < |t1|) ==> t4[v] == t3[v]
    requires forall v :: 0 <= v < |t1| ==> t5[v].valid == t4[v].valid && t5[v].pfn == t4[v].pfn
    ensures FramesOf(t5) == FramesIn(t2, lo, mid) + FramesIn(t3, mid, hi) + FramesIn(t4, top, |t1|)
  {
    forall f ensures f in FramesOf(t5) <==>
      f in FramesIn(t2, lo, mid) || f in FramesIn(t3, mid, hi) || f in FramesIn(t4, top, |t1|)
    {
      assert forall v :: lo <= v < mid ==> t5[v].valid == t2[v].valid && t5[v].pfn == t2[v].pfn;
      assert forall v :: mid <= v < hi ==> t5[v].valid == t3[v].valid && t5[v].pfn == t3[v].pfn;
    }
  }

  /** memblock_t of one process */
  class MemBlock {
    var brk: nat
    var sp: nat
    const table: array<Pte>
    var kstack: KStack

    /** create_process: every page is invalid. */
    constructor (kstack: KStack)
      ensures fresh(table) && table.Length == MAX_PT_LEN
      ensures brk == VMEM_1_BASE && sp == VMEM_1_LIMIT && this.kstack == kstack
      ensures forall v :: 0 <= v < MAX_PT_LEN ==> table[v] == INVALID
    {
      brk := VMEM_1_BASE;
      sp := VMEM_1_LIMIT;
      this.kstack := kstack;
      table := new Pte[MAX_PT_LEN];
      new;
      for pageId := 0 to MAX_PT_LEN
        invariant brk == VMEM_1_BASE && sp == VMEM_1_LIMIT && this.kstack == kstack
        invariant forall v :: 0 <= v < pageId ==> table[v] == INVALID
      {
        table[pageId] := INVALID;
      }
    }

    /** create_idle_process: only the last page, for the stack; the break was never set. */
    constructor Idle(freeFrame: nat)
      ensures fresh(table) && table.Length == MAX_PT_LEN && brk == 0 && sp == 0
      ensures forall v :: 0 <= v < MAX_PT_LEN ==>
        table[v] == if v == MAX_PT_LEN - 1 then Pte(true, PROT_RW, freeFrame) else INVALID
    {
      brk := 0;
      sp := 0;
      kstack := KStack(INVALID, INVALID);
      table := new Pte[MAX_PT_LEN];
      new;
      for pageId := 0 to MAX_PT_LEN
        invariant brk == 0 && sp == 0
        invariant forall v :: 0 <= v < pageId ==> table[v] == INVALID
      {
        table[pageId] := INVALID;
      }
      table[MAX_PT_LEN - 1] := Pte(true, PROT_RW, freeFrame);
    }

    ghost function Value(): Space
      reads this, table
    {
      Space(brk, sp, table[..], kstack)
    }
  }

  class Machine {
    const bits: array<bool>
    const kpt: array<Pte>
    const phys: array<Page>
    var blocks: map<Pid, MemBlock>
    var curr: Pid
    var kernelBrk: nat
    var vmEnabled: bool

    ghost predicate Valid()
      reads this
    {
      && kpt.Length == MAX_PT_LEN
      && phys.Length == bits.Length
      && curr in blocks
      && (forall p :: p in blocks ==> blocks[p].table.Length == MAX_PT_LEN && blocks[p].table != kpt)
      && (forall p, q :: p in blocks && q in blocks && p != q ==>
            blocks[p] != blocks[q] && blocks[p].table != blocks[q].table)
    }

    ghost function Tables(): set<array<Pte>>
      reads this
    {
      set p | p in blocks :: blocks[p].table
    }

    ghost function Abs(): Vm
      reads this, bits, kpt, phys, blocks.Values, Tables()
    {
      Vm(bits[..], kpt[..], phys[..], map p | p in blocks :: blocks[p].Value(), curr, kernelBrk)
    }

    /** The memory part of KernelStart: kernel page table, bitmap, and the idle process. */
    constructor KernelStart(nFrames: nat, dataStart: nat, dataEnd: nat, origBrk: nat, idle: Pid)
      requires nFrames > MAX_PT_LEN
      requires dataStart <= dataEnd <= origBrk <= SCRATCH_VPN * PAGESIZE && origBrk % PAGESIZE == 0
      ensures Valid() && vmEnabled && Booted(Abs(), idle) && Inv(Abs())
      ensures fresh(bits) && fresh(kpt) && fresh(phys)
      ensures forall p :: p in blocks ==> fresh(blocks[p]) && fresh(blocks[p].table)
      ensures bits.Length == nFrames && kernelBrk == origBrk && blocks.Keys == {idle} && curr == idle
      ensures blocks[idle].brk == 0 && blocks[idle].sp == 0
      ensures FreeCount(bits[..]) == nFrames - origBrk / PAGESIZE - 3
      ensures forall v :: 0 <= v < MAX_PT_LEN ==>
        kpt[v].prot == (if v * PAGESIZE < DownToPage(dataStart) then PROT_RX
                        else if KernelMapped(origBrk, v) then PROT_RW
                        else PROT_NONE)
    {
      bits := new bool[nFrames];
      kpt := new Pte[MAX_PT_LEN];
      phys := new Page[nFrames];
      kernelBrk := origBrk;
      curr := idle;
      blocks := map[];
      vmEnabled := false;
      new;
      for i := 0 to nFrames
        invariant forall f :: 0 <= f < i ==> !bits[f]
        invariant blocks == map[] && curr == idle && kernelBrk == origBrk
      {
        bits[i] := false;
      }
      MapKernel(dataStart, dataEnd);
      vmEnabled := true;
      CreateIdle(origBrk);
      BootKeeps(Abs(), idle);
      BootCount(Abs(), idle);
    }

    /** create_idle_process: one stack page in the first free frame. */
    method CreateIdle(ghost built: nat)
      requires blocks == map[] && kpt.Length == MAX_PT_LEN && phys.Length == bits.Length && MAX_PT_LEN < bits.Length
      requires built % PAGESIZE == 0 && built / PAGESIZE <= SCRATCH_VPN
      requires forall v :: 0 <= v < MAX_PT_LEN ==> kpt[v].pfn == v && kpt[v].valid == KernelMapped(built, v)
      requires forall f :: 0 <= f < bits.Length ==> (bits[f] <==> f < MAX_PT_LEN && KernelMapped(built, f))
      modifies this`blocks, bits
      ensures Valid() && IdleReady(Abs(), curr, built) && blocks.Keys == {curr}
      ensures forall p :: p in blocks ==> fresh(blocks[p]) && fresh(blocks[p].table)
    {
      HasFree(bits[..], MAX_PT_LEN);
      ghost var used := bits[..];
      var freeFrame := FirstFreeFrame();
      FirstBehindKernel(built, used, freeFrame, bits[..]);
      var idleBlock := new MemBlock.Idle(freeFrame);
      blocks := map[curr := idleBlock];
      hide KernelMapped, FreeCount;
      BootedWith(kernelBrk, built, used, freeFrame, kpt[..], phys[..], idleBlock.Value(), curr);
      assert Abs() == Vm(used[freeFrame := true], kpt[..], phys[..], map[curr := idleBlock.Value()], curr, kernelBrk);
    }

    /** The parts of the boot state put together. */
    lemma BootedWith(now: nat, brk: nat, used: seq<bool>, f: nat, kpt: seq<Pte>, phys: seq<Page>, m: Space, idle: Pid)
      requires |kpt| == MAX_PT_LEN < |used| == |phys| && brk % PAGESIZE == 0 && brk / PAGESIZE <= SCRATCH_VPN
      requires forall v :: 0 <= v < MAX_PT_LEN ==> kpt[v].pfn == v && kpt[v].valid == KernelMapped(brk, v)
      requires forall g :: 0 <= g < |used| ==> (used[g] <==> g < MAX_PT_LEN && KernelMapped(brk, g))
      requires f == brk / PAGESIZE
      requires m.brk == 0 && m.sp == 0 && |m.table| == MAX_PT_LEN
      requires forall v :: 0 <= v < MAX_PT_LEN ==>
        m.table[v] == if v == MAX_PT_LEN - 1 then Pte(true, PROT_RW, f) else INVALID
      ensures IdleReady(Vm(used[f := true], kpt, phys, map[idle := m], idle, now), idle, brk)
    {
      hide KernelMapped;
    }

    /** The first frame behind the kernel's is the first free one. */
    lemma FirstBehindKernel(brk: nat, used: seq<bool>, f: nat, used': seq<bool>)
      requires MAX_PT_LEN < |used| && brk % PAGESIZE == 0 && brk / PAGESIZE <= SCRATCH_VPN
      requires forall g :: 0 <= g < |used| ==> (used[g] <==> g < MAX_PT_LEN && KernelMapped(brk, g))
      requires TookFirst(used, f, used')
      ensures f == brk / PAGESIZE
    {
      assert !used[brk / PAGESIZE];
      assert forall g :: 0 <= g < brk / PAGESIZE ==> KernelMapped(brk, g);
    }

    /** The page-table loop of KernelStart: text, data, heap and stack of the kernel, one to one. */
    method MapKernel(dataStart: nat, dataEnd: nat)
      requires kpt.Length == MAX_PT_LEN < bits.Length && forall f :: 0 <= f < bits.Length ==> !bits[f]
      requires dataStart <= dataEnd <= kernelBrk <= SCRATCH_VPN * PAGESIZE && kernelBrk % PAGESIZE == 0
      modifies bits, kpt
      ensures forall v :: 0 <= v < MAX_PT_LEN ==>
        && kpt[v].pfn == v && kpt[v].valid == KernelMapped(kernelBrk, v)
        && kpt[v].prot == (if v * PAGESIZE < DownToPage(dataStart) then PROT_RX
                           else if KernelMapped(kernelBrk, v) then PROT_RW
                           else PROT_NONE)
      ensures forall f :: 0 <= f < bits.Length ==> (bits[f] <==> f < MAX_PT_LEN && KernelMapped(kernelBrk, f))
    {
      for pageId := 0 to MAX_PT_LEN
        invariant forall v :: 0 <= v < pageId ==>
          && kpt[v].pfn == v && kpt[v].valid == KernelMapped(kernelBrk, v)
          && kpt[v].prot == (if v * PAGESIZE < DownToPage(dataStart) then PROT_RX
                             else if KernelMapped(kernelBrk, v) then PROT_RW
                             else PROT_NONE)
        invariant forall f :: 0 <= f < bits.Length ==> (bits[f] <==> f < pageId && KernelMapped(kernelBrk, f))
      {
        var i := pageId * PAGESIZE;
        var entry := Pte(false, PROT_NONE, pageId);
        if i < DownToPage(dataStart) {
          entry := Pte(true, PROT_RX, pageId);
          bits[pageId] := true;
        } else if i < dataEnd {
          entry := Pte(true, PROT_RW, pageId);
          bits[pageId] := true;
        } else if i < kernelBrk {
          entry := Pte(true, PROT_RW, pageId);
          bits[pageId] := true;
        } else if STACK_VPN * PAGESIZE <= i {
          entry := Pte(true, PROT_RW, pageId);
          bits[pageId] := true;
        }
        kpt[pageId] := entry;
      }
    }

    // ------------------------------------------------------------ frames

    method FirstFreeFrame() returns (i: nat)
      requires FreeCount(bits[..]) > 0
      modifies bits
      ensures TookFirst(old(bits[..]), i, bits[..])
      ensures FreeCount(bits[..]) == FreeCount(old(bits[..])) - 1
    {
      SomeFree(bits[..]);
      ghost var f :| 0 <= f < bits.Length && !bits[f];
      i := 0;
      while bits[i]
        invariant i <= f
        invariant forall g :: 0 <= g < i ==> bits[g]
        decreases f - i
      {
        i := i + 1;
      }
      FreeCountSet(bits[..], i, true);
      bits[i] := true;
      assert bits[..] == old(bits[..])[i := true];
    }

    method NewKernelStack() returns (k: KStack)
      requires FreeCount(bits[..]) >= 2
      modifies bits
      ensures k.page0.valid && k.page1.valid && k.page0.prot == k.page1.prot == PROT_RW
      ensures TookTwo(old(bits[..]), k.page0.pfn, k.page1.pfn, bits[..])
      ensures FreeCount(bits[..]) == FreeCount(old(bits[..])) - 2
    {
      var pfn0 := FirstFreeFrame();
      ghost var once := bits[..];
      var pfn1 := FirstFreeFrame();
      assert forall g :: 0 <= g < pfn1 && g != pfn0 ==> once[g] == old(bits[g]);
      k := KStack(Pte(true, PROT_RW, pfn0), Pte(true, PROT_RW, pfn1));
    }

    /** The loops that make pages valid: each takes the first free frame. */
    method MapPages(t: array<Pte>, lo: nat, hi: nat)
      requires lo <= hi <= t.Length && FreeCount(bits[..]) >= hi - lo
      modifies bits, t
      ensures MapsRange(old(t[..]), old(bits[..]), lo, hi, t[..], bits[..])
      ensures FreeCount(bits[..]) == FreeCount(old(bits[..])) - (hi - lo)
    {
      var pageId := lo;
      while pageId < hi
        invariant lo <= pageId <= hi
        invariant MapsRange(old(t[..]), old(bits[..]), lo, pageId, t[..], bits[..])
        invariant FreeCount(bits[..]) == FreeCount(old(bits[..])) - (pageId - lo)
      {
        ghost var prior, used := t[..], bits[..];
        var frame := FirstFreeFrame();
        t[pageId] := Pte(true, PROT_RW, frame);
        assert t[..] == prior[pageId := Pte(true, PROT_RW, frame)];
        MapsOneMore(old(t[..]), old(bits[..]), lo, pageId, prior, used, frame);
        pageId := pageId + 1;
      }
    }

    /** The loops that lower a break: each frame is given back, each entry reset. */
    method UnmapPages(t: array<Pte>, lo: nat, hi: nat)
      requires lo <= hi <= t.Length
      requires forall v :: lo <= v < hi ==> t[v].pfn < bits.Length
      modifies bits, t
      ensures UnmapsRange(old(t[..]), old(bits[..]), lo, hi, t[..], bits[..])
    {
      var pageId := lo;
      while pageId < hi
        invariant lo <= pageId <= hi
        invariant UnmapsRange(old(t[..]), old(bits[..]), lo, pageId, t[..], bits[..])
      {
        bits[t[pageId].pfn] := false;
        t[pageId] := INVALID;
        pageId := pageId + 1;
      }
    }

    // ------------------------------------------------------------ fork

    /** memcpy of one page through two mapped entries */
    method CopyPage(dst: Pte, src: Pte)
      requires dst.valid && src.valid && dst.pfn < phys.Length && src.pfn < phys.Length
      modifies phys
      ensures phys[..] == old(phys[..])[dst.pfn := old(phys[src.pfn])]
    {
      phys[dst.pfn] := phys[src.pfn];
    }

    /** The loop of KernelFork: each valid page is copied through the page below the kernel stack. */
    method CopyAddressSpace(src: array<Pte>, dst: array<Pte>)
      requires kpt.Length == src.Length == dst.Length == MAX_PT_LEN && bits.Length == phys.Length
      requires src != dst && src != kpt && dst != kpt
      requires forall v :: 0 <= v < MAX_PT_LEN ==> dst[v] == INVALID
      requires forall v :: 0 <= v < MAX_PT_LEN && src[v].valid ==> src[v].pfn < bits.Length && bits[src[v].pfn]
      requires !kpt[SCRATCH_VPN + 1].valid && FreeCount(bits[..]) >= ValidCount(src[..], 0, MAX_PT_LEN)
      modifies bits, kpt, phys, dst
      ensures CopiesPages(old(bits[..]), old(phys[..]), src[..], MAX_PT_LEN, dst[..], bits[..], phys[..])
      ensures MarksExactly(old(bits[..]), FramesOf(dst[..]), bits[..])
      ensures forall f :: 0 <= f < bits.Length && old(bits[f]) ==> bits[f] && phys[f] == old(phys[f])
      ensures forall v :: 0 <= v < MAX_PT_LEN && v != SCRATCH_VPN + 1 ==> kpt[v] == old(kpt[v])
      ensures !kpt[SCRATCH_VPN + 1].valid
      ensures FreeCount(bits[..]) == old(FreeCount(bits[..])) - ValidCount(src[..], 0, MAX_PT_LEN)
    {
      CopiedNone(bits[..], phys[..], kpt[..], src[..], dst[..]);
      for vpn := 0 to MAX_PT_LEN
        invariant Copied(old(bits[..]), old(phys[..]), old(kpt[..]), src[..], vpn, dst[..], bits[..], phys[..], kpt[..])
      {
        hide Copied, CopiesPages, MarksExactly, FreeCount, ValidCount;
        ghost var used, ph, k, d := bits[..], phys[..], kpt[..], dst[..];
        CopiedFits(old(bits[..]), old(phys[..]), old(kpt[..]), src[..], vpn, d, used, ph, k);
        if !src[vpn].valid {
          continue;
        }
        var freeIdx := CopyOne(src, dst, vpn);
        CopiedOneMore(old(bits[..]), old(phys[..]), old(kpt[..]), src[..], vpn, d, used, ph, k, freeIdx);
      }
    }

    /** One round of that loop. */
    method CopyOne(src: array<Pte>, dst: array<Pte>, vpn: nat) returns (freeIdx: nat)
      requires kpt.Length == src.Length == dst.Length == MAX_PT_LEN && bits.Length == phys.Length
      requires src != dst && src != kpt && dst != kpt && vpn < MAX_PT_LEN
      requires src[vpn].valid && src[vpn].pfn < bits.Length && FreeCount(bits[..]) > 0
      modifies bits, kpt, phys, dst
      ensures Free(old(bits[..]), freeIdx) && bits[..] == old(bits[..])[freeIdx := true]
      ensures FreeCount(bits[..]) == FreeCount(old(bits[..])) - 1
      ensures dst[..] == old(dst[..])[vpn := Pte(true, src[vpn].prot, freeIdx)]
      ensures phys[..] == old(phys[..])[freeIdx := old(phys[src[vpn].pfn])]
      ensures kpt[..] == old(kpt[..])[SCRATCH_VPN + 1 := INVALID]
    {
      freeIdx := FirstFreeFrame();
      kpt[SCRATCH_VPN + 1] := Pte(true, PROT_RW, freeIdx);
      CopyPage(kpt[SCRATCH_VPN + 1], src[vpn]);
      dst[vpn] := Pte(src[vpn].valid, src[vpn].prot, kpt[SCRATCH_VPN + 1].pfn);
      kpt[SCRATCH_VPN + 1] := INVALID;
    }

    /** KCCopy: the new process gets its own copy of the kernel stack that is in place. */
    method KCCopy(newPcb: MemBlock)
      requires Valid() && FreeCount(bits[..]) >= 2
      requires kpt[STACK_VPN].valid && kpt[STACK_VPN].pfn < bits.Length && bits[kpt[STACK_VPN].pfn]
      requires kpt[STACK_VPN + 1].valid && kpt[STACK_VPN + 1].pfn < bits.Length && bits[kpt[STACK_VPN + 1].pfn]
      modifies bits, kpt, phys, newPcb`kstack
      ensures newPcb.kstack.page0.valid && newPcb.kstack.page1.valid
      ensures newPcb.kstack.page0.prot == newPcb.kstack.page1.prot == PROT_RW
      ensures var k := newPcb.kstack;
        && Free(old(bits[..]), k.page0.pfn) && Free(old(bits[..]), k.page1.pfn) && k.page0.pfn != k.page1.pfn
        && bits[..] == old(bits[..])[k.page0.pfn := true][k.page1.pfn := true]
        && phys[..] == old(phys[..])[k.page1.pfn := old(phys[kpt[STACK_VPN].pfn])]
                                    [k.page0.pfn := old(phys[kpt[STACK_VPN + 1].pfn])]
      ensures forall v :: 0 <= v < MAX_PT_LEN && v != SCRATCH_VPN && v != SCRATCH_VPN + 1 ==> kpt[v] == old(kpt[v])
      ensures !kpt[SCRATCH_VPN].valid && !kpt[SCRATCH_VPN + 1].valid
      ensures kpt[SCRATCH_VPN].pfn == kpt[SCRATCH_VPN + 1].pfn == 0
    {
      var newKStack := NewKernelStack();
      newPcb.kstack := newKStack;
      kpt[SCRATCH_VPN + 1] := newKStack.page0;
      kpt[SCRATCH_VPN] := newKStack.page1;
      CopyPage(kpt[SCRATCH_VPN], kpt[STACK_VPN]);
      CopyPage(kpt[SCRATCH_VPN + 1], kpt[STACK_VPN + 1]);
      kpt[SCRATCH_VPN + 1] := Pte(false, kpt[SCRATCH_VPN + 1].prot, 0);
      kpt[SCRATCH_VPN] := Pte(false, kpt[SCRATCH_VPN].prot, 0);
    }

    /** Nothing but the blocks that are already there, plus the new one. */
    twostate lemma BlockAdded(child: Pid, new b: MemBlock)
      requires old(Valid()) && old(child !in blocks) && blocks == old(blocks)[child := b]
      requires old(forall p :: p in blocks ==> allocated(blocks[p].table))
      requires b.table.Length == MAX_PT_LEN && fresh(b) && fresh(b.table)
      requires forall p :: p in old(blocks) ==> unchanged(blocks[p]) && unchanged(blocks[p].table)
      requires curr == old(curr)
      ensures Valid()
      ensures Abs().spaces == old(Abs()).spaces[child := b.Value()]
    {
      forall p | p in old(blocks) ensures blocks[p].Value() == old(blocks[p].Value()) {}
    }

    /** One new block has been added, with a new table. */
    twostate predicate AddsOnly(child: Pid)
      reads this
    {
      && child in blocks && blocks == old(blocks)[child := blocks[child]] && curr == old(curr)
      && fresh(blocks[child]) && fresh(blocks[child].table)
    }

    /** Everything KernelFork does to memory before the child is linked into the process tables. */
    method CloneProcess(src: array<Pte>) returns (newPcb: MemBlock,
                        ghost used1: seq<bool>, ghost used2: seq<bool>, ghost phys2: seq<Page>)
      requires Valid() && src.Length == MAX_PT_LEN && src != kpt && !kpt[SCRATCH_VPN + 1].valid
      requires FreeCount(bits[..]) >= 4 + ValidCount(src[..], 0, MAX_PT_LEN)
      requires forall v :: 0 <= v < MAX_PT_LEN && src[v].valid ==> src[v].pfn < bits.Length && bits[src[v].pfn]
      requires forall v :: v == STACK_VPN || v == STACK_VPN + 1 ==>
        kpt[v].valid && kpt[v].pfn < bits.Length && bits[kpt[v].pfn]
      modifies bits, kpt, phys
      ensures fresh(newPcb) && fresh(newPcb.table) && newPcb.table.Length == MAX_PT_LEN
      ensures src[..] == old(src[..])
      ensures Cloned(old(bits[..]), old(phys[..]), old(kpt[..]), src[..], newPcb.Value(),
                     used1, used2, phys2, bits[..], phys[..], kpt[..])
    {
      hide CopiesPages, FreeCount, ValidCount;
      var kstack := NewKernelStack();
      newPcb := new MemBlock(kstack);
      used1 := bits[..];
      CopyAddressSpace(src, newPcb.table);
      used2, phys2 := bits[..], phys[..];
      KCCopy(newPcb);
    }

    method KernelFork(child: Pid)
      requires Valid() && Inv(Abs()) && child !in blocks
      requires FreeCount(bits[..]) >= 4 + ValidCount(blocks[curr].table[..], 0, MAX_PT_LEN)
      modifies this`blocks, bits, kpt, phys
      ensures Valid() && Inv(Abs()) && AddsOnly(child)
      ensures Spawns(old(Abs()), child, old(blocks[curr].table[..]), Abs())
      ensures FreeCount(bits[..])
           == FreeCount(old(bits[..])) - 4 - ValidCount(old(blocks[curr].table[..]), 0, MAX_PT_LEN)
    {
      ghost var s := Abs();
      MarkedPages(s);
      assert !s.kpt[SCRATCH_VPN + 1].valid;
      ghost var src := blocks[curr].table[..];
      hide Inv, Cloned, Spawns, FreeCount, ValidCount;
      var c, used1, used2, phys2 := CloneCurrent(child);
      ForkDone(s, child, src, c, used1, used2, phys2, Abs());
    }

    /** The running process is cloned and the clone registered. */
    method CloneCurrent(child: Pid) returns (ghost c: Space, ghost used1: seq<bool>, ghost used2: seq<bool>,
                                             ghost phys2: seq<Page>)
      requires Valid() && child !in blocks && !kpt[SCRATCH_VPN + 1].valid
      requires blocks[curr].table.Length == MAX_PT_LEN && blocks[curr].table != kpt
      requires FreeCount(bits[..]) >= 4 + ValidCount(blocks[curr].table[..], 0, MAX_PT_LEN)
      requires forall v :: 0 <= v < MAX_PT_LEN && blocks[curr].table[v].valid ==>
        blocks[curr].table[v].pfn < bits.Length && bits[blocks[curr].table[v].pfn]
      requires forall v :: v == STACK_VPN || v == STACK_VPN + 1 ==>
        kpt[v].valid && kpt[v].pfn < bits.Length && bits[kpt[v].pfn]
      modifies this`blocks, bits, kpt, phys
      ensures Valid() && AddsOnly(child)
      ensures Abs()
           == old(Abs()).(used := bits[..], kpt := kpt[..], phys := phys[..], spaces := old(Abs()).spaces[child := c])
      ensures Cloned(old(bits[..]), old(phys[..]), old(kpt[..]), old(blocks[curr].table[..]), c,
                     used1, used2, phys2, bits[..], phys[..], kpt[..])
    {
      hide Cloned, FreeCount, ValidCount;
      var newPcb;
      newPcb, used1, used2, phys2 := CloneProcess(blocks[curr].table);
      c := newPcb.Value();
      blocks := blocks[child := newPcb];
      BlockAdded(child, newPcb);
    }

    lemma ForkDone(s: Vm, child: Pid, src: seq<Pte>, c: Space,
                   used1: seq<bool>, used2: seq<bool>, phys2: seq<Page>, s': Vm)
      requires Inv(s) && child !in s.spaces && s'.spaces == s.spaces[child := c]
      requires Cloned(s.used, s.phys, s.kpt, src, c, used1, used2, phys2, s'.used, s'.phys, s'.kpt)
      requires s'.curr == s.curr && s'.kernelBrk == s.kernelBrk
      ensures Spawns(s, child, src, s') && Inv(s')
      ensures |src| == MAX_PT_LEN && FreeCount(s'.used) == FreeCount(s.used) - 4 - ValidCount(src, 0, MAX_PT_LEN)
    {
      SpawnedFrom(s, child, src, c, used1, used2, phys2, s');
      SpawnKeeps(s, child, src, s');
      SpawnCount(s, child, src, s');
    }

    /** A new process without pages, cloned from the running one. */
    method CloneInit() returns (initPcb: MemBlock, ghost used1: seq<bool>)
      requires Valid() && FreeCount(bits[..]) >= 4
      requires forall v :: v == STACK_VPN || v == STACK_VPN + 1 ==>
        kpt[v].valid && kpt[v].pfn < bits.Length && bits[kpt[v].pfn]
      modifies bits, kpt, phys
      ensures fresh(initPcb) && fresh(initPcb.table) && initPcb.table.Length == MAX_PT_LEN
      ensures Cloned(old(bits[..]), old(phys[..]), old(kpt[..]), NoPages(), initPcb.Value(),
                     used1, used1, old(phys[..]), bits[..], phys[..], kpt[..])
    {
      var kstack := NewKernelStack();
      initPcb := new MemBlock(kstack);
      used1 := bits[..];
      KCCopy(initPcb);
      assert initPcb.table[..] == NoPages();
    }

    /** KernelStart makes init: a process without pages, cloned from idle. */
    method CreateInit(child: Pid)
      requires Valid() && Inv(Abs()) && child !in blocks && FreeCount(bits[..]) >= 4
      modifies this`blocks, bits, kpt, phys
      ensures Valid() && Inv(Abs()) && AddsOnly(child) && Spawns(old(Abs()), child, NoPages(), Abs())
      ensures FreeCount(bits[..]) == FreeCount(old(bits[..])) - 4
    {
      ghost var s := Abs();
      MarkedPages(s);
      var initPcb, used1 := CloneInit();
      blocks := blocks[child := initPcb];
      BlockAdded(child, initPcb);
      hide Inv, Cloned, Spawns, FreeCount;
      InitDone(s, child, initPcb.Value(), used1, Abs());
    }

    lemma InitDone(s: Vm, child: Pid, c: Space, used1: seq<bool>, s': Vm)
      requires Inv(s) && child !in s.spaces && s'.spaces == s.spaces[child := c]
      requires Cloned(s.used, s.phys, s.kpt, NoPages(), c, used1, used1, s.phys, s'.used, s'.phys, s'.kpt)
      requires s'.curr == s.curr && s'.kernelBrk == s.kernelBrk
      ensures Spawns(s, child, NoPages(), s') && Inv(s') && FreeCount(s'.used) == FreeCount(s.used) - 4
    {
      NoneValid(NoPages(), 0, MAX_PT_LEN);
      hide *;
      ForkDone(s, child, NoPages(), c, used1, used1, s.phys, s');
    }

    /** The memory part of KernelStart as a whole: idle runs and init has been cloned from it. */
    static method Start(nFrames: nat, dataStart: nat, dataEnd: nat, origBrk: nat, idle: Pid, init: Pid)
        returns (m: Machine)
      requires nFrames > MAX_PT_LEN && nFrames >= origBrk / PAGESIZE + 7 && init != idle
      requires dataStart <= dataEnd <= origBrk <= SCRATCH_VPN * PAGESIZE && origBrk % PAGESIZE == 0
      ensures fresh(m) && m.Valid() && Inv(m.Abs()) && m.blocks.Keys == {idle, init} && m.curr == idle
      ensures FreeCount(m.bits[..]) == nFrames - origBrk / PAGESIZE - 7
      ensures Started(m.Abs(), idle, init)
    {
      m := new Machine.KernelStart(nFrames, dataStart, dataEnd, origBrk, idle);
      ghost var s := m.Abs();
      hide Booted, Inv, FreeCount, Spawns, Started;
      m.CreateInit(init);
      StartedBy(s, idle, init, m.Abs());
    }

    lemma MarkedPages(s: Vm)
      requires Inv(s)
      ensures forall v :: 0 <= v < MAX_PT_LEN && s.spaces[s.curr].table[v].valid ==>
        s.spaces[s.curr].table[v].pfn < |s.used| && s.used[s.spaces[s.curr].table[v].pfn]
      ensures forall v :: v == STACK_VPN || v == STACK_VPN + 1 ==>
        s.kpt[v].valid && s.kpt[v].pfn < |s.used| && s.used[s.kpt[v].pfn]
    {
      forall v | 0 <= v < MAX_PT_LEN && s.spaces[s.curr].table[v].valid
        ensures s.spaces[s.curr].table[v].pfn < |s.used| && s.used[s.spaces[s.curr].table[v].pfn]
      {
        assert Mapped(s, UserPage(s.curr, v));
      }
      assert Mapped(s, StackPage(s.curr, 0)) && Mapped(s, StackPage(s.curr, 1));
    }

    // ------------------------------------------------------------ context switch and exit

    /** One block was written: the others are as before. */
    twostate lemma OneBlockWritten(p: Pid)
      requires old(Valid()) && Valid() && blocks == old(blocks) && p in blocks
      requires forall q :: q in blocks && q != p ==> unchanged(blocks[q]) && unchanged(blocks[q].table)
      ensures Abs().spaces == old(Abs()).spaces[p := blocks[p].Value()]
    {
      forall q | q in blocks && q != p ensures blocks[q].Value() == old(blocks[q].Value()) {}
    }

    /** The dispatch of a process, with KCSwitch. */
    method KCSwitch(next: Pid)
      requires Valid() && next in blocks
      modifies this`curr, kpt, blocks[curr]
      ensures Valid() && Abs() == Switched(old(Abs()), next)
    {
      var currBlock, nextBlock := blocks[curr], blocks[next];
      curr := next;
      currBlock.kstack := KStack(kpt[STACK_VPN + 1], kpt[STACK_VPN]);
      ghost var saved := nextBlock.kstack;
      kpt[STACK_VPN + 1] := nextBlock.kstack.page0;
      kpt[STACK_VPN] := nextBlock.kstack.page1;
      OneBlockWritten(old(curr));
      assert Abs().spaces == Switched(old(Abs()), next).spaces;
      assert Abs().kpt == Switched(old(Abs()), next).kpt;
    }

    /** KernelExit frees the page table of the running process and switches away from it. */
    method RetireCurrent(next: Pid)
      requires Valid() && next in blocks && next != curr
      modifies this`curr, this`blocks, kpt, blocks[curr]
      ensures Valid() && Abs() == Exited(old(Abs()), next) && blocks == old(blocks) - {old(curr)}
    {
      var dead := curr;
      KCSwitch(next);
      blocks := blocks - {dead};
      assert Abs().spaces == Exited(old(Abs()), next).spaces;
    }

    // ------------------------------------------------------------ breaks

    method KernelBrk(addr: nat) returns (r: int)
      requires Valid() && Inv(Abs()) && blocks[curr].brk >= VMEM_1_BASE
      requires UpToPage(addr) <= DownToPage(blocks[curr].sp) ==>
        UpToPage(addr) - blocks[curr].brk <= FreeCount(bits[..]) * PAGESIZE
      modifies bits, blocks[curr], blocks[curr].table
      ensures Valid() && Inv(Abs()) && SetsBrk(old(Abs()), addr, r, Abs())
      ensures forall b :: RoundsUp(addr, b) ==> BrkOutcome(old(Abs()), b, r, Abs())
      ensures FreeCount(bits[..]) == FreeCount(old(bits[..]))
        - (HeapPages(blocks[curr].Value()) - HeapPages(old(blocks[curr].Value())))
    {
      ghost var s := Abs();
      r := TryBrk(addr);
      hide *;
      BrkKeeps(s, addr, r, Abs());
      BrkDoesRounded(s, addr, r, Abs());
      if r == 0 {
        BrkCount(s, addr, Abs());
      }
    }

    /** KernelBrk itself: the bounds, then the move. */
    method TryBrk(addr: nat) returns (r: int)
      requires Valid() && Inv(Abs()) && blocks[curr].brk >= VMEM_1_BASE
      requires UpToPage(addr) <= DownToPage(blocks[curr].sp) ==>
        UpToPage(addr) - blocks[curr].brk <= FreeCount(bits[..]) * PAGESIZE
      modifies bits, blocks[curr], blocks[curr].table
      ensures Valid() && blocks == old(blocks) && curr == old(curr)
      ensures SetsBrk(old(Abs()), addr, r, Abs()) && (r == 0 || (r == -1 && Abs() == old(Abs())))
    {
      ghost var s := Abs();
      MarkedPages(s);
      assert BrkMapped(s.spaces[curr]);
      UpAligned(addr);
      var me := blocks[curr];
      var newBrk := UpToPage(addr);
      if !(VMEM_1_BASE <= newBrk && newBrk <= DownToPage(me.sp)) {
        return -1;
      }
      r := 0;
      hide UpToPage, Inv, MapsRange, UnmapsRange;
      MoveBrk(newBrk);
    }

    /** The break of the running process once its new value has been accepted. */
    method MoveBrk(newBrk: nat)
      requires Valid() && VMEM_1_BASE <= newBrk <= blocks[curr].sp && newBrk % PAGESIZE == 0
      requires blocks[curr].table.Length == MAX_PT_LEN
      requires blocks[curr].brk >= VMEM_1_BASE && BrkMapped(blocks[curr].Value())
      requires newBrk - blocks[curr].brk <= FreeCount(bits[..]) * PAGESIZE
      requires forall v :: 0 <= v < HeapPages(blocks[curr].Value()) ==> blocks[curr].table[v].pfn < bits.Length
      modifies bits, blocks[curr], blocks[curr].table
      ensures Valid() && blocks == old(blocks) && curr == old(curr)
      ensures var s, s' := old(Abs()), Abs();
        var me, me' := s.spaces[curr], s'.spaces[curr];
        var lo, hi := HeapPages(me), (newBrk - VMEM_1_BASE) / PAGESIZE;
        && s' == s.(used := s'.used, spaces := s.spaces[curr := me'])
        && me' == me.(brk := newBrk, table := me'.table)
        && (if newBrk < me.brk then UnmapsRange(me.table, s.used, hi, lo, me'.table, s'.used)
            else MapsRange(me.table, s.used, lo, hi, me'.table, s'.used))
    {
      var me := blocks[curr];
      var oldBrk := me.brk;
      assert HeapPages(me.Value()) == (oldBrk - VMEM_1_BASE) / PAGESIZE;
      assert oldBrk % PAGESIZE == 0;
      hide MapsRange, UnmapsRange;
      me.brk := newBrk;
      MoveHeapEnd(me.table, oldBrk, newBrk);
      OneBlockWritten(curr);
    }

    /** The two loops of KernelBrk, on the pages between the old and the new break. */
    method MoveHeapEnd(t: array<Pte>, oldBrk: nat, newBrk: nat)
      requires VMEM_1_BASE <= oldBrk && VMEM_1_BASE <= newBrk
      requires oldBrk % PAGESIZE == 0 && newBrk % PAGESIZE == 0
      requires (oldBrk - VMEM_1_BASE) / PAGESIZE <= t.Length && (newBrk - VMEM_1_BASE) / PAGESIZE <= t.Length
      requires newBrk - oldBrk <= FreeCount(bits[..]) * PAGESIZE
      requires forall v :: 0 <= v < (oldBrk - VMEM_1_BASE) / PAGESIZE ==> t[v].pfn < bits.Length
      modifies bits, t
      ensures var lo, hi := (oldBrk - VMEM_1_BASE) / PAGESIZE, (newBrk - VMEM_1_BASE) / PAGESIZE;
        if newBrk < oldBrk then UnmapsRange(old(t[..]), old(bits[..]), hi, lo, t[..], bits[..])
        else MapsRange(old(t[..]), old(bits[..]), lo, hi, t[..], bits[..])
    {
      if newBrk < oldBrk {
        UnmapPages(t, newBrk / PAGESIZE - MAX_PT_LEN, oldBrk / PAGESIZE - MAX_PT_LEN);
      } else {
        MapPages(t, oldBrk / PAGESIZE - MAX_PT_LEN, newBrk / PAGESIZE - MAX_PT_LEN);
      }
    }

    method SetKernelBrk(addr: nat) returns (r: int)
      requires vmEnabled ==> Valid() && Inv(Abs())
      requires vmEnabled && kernelBrk < addr < VMEM_0_LIMIT - 3 * PAGESIZE ==>
        UpToPage(addr) - kernelBrk <= FreeCount(bits[..]) * PAGESIZE
      modifies this`kernelBrk, bits, kpt
      ensures !vmEnabled ==>
        r == 0 && kernelBrk == UpToPage(addr) && bits[..] == old(bits[..]) && kpt[..] == old(kpt[..])
      ensures vmEnabled ==> Valid() && SetsKernelBrk(old(Abs()), addr, r, Abs())
      ensures vmEnabled ==> forall b :: RoundsUp(addr, b) ==> KernelBrkOutcome(old(Abs()), addr, b, r, Abs())
      ensures vmEnabled ==> (Inv(Abs()) <==> r == -1 || addr <= VMEM_0_LIMIT - 4 * PAGESIZE)
      ensures vmEnabled ==>
        FreeCount(bits[..]) == FreeCount(old(bits[..])) - (kernelBrk / PAGESIZE - old(kernelBrk) / PAGESIZE)
    {
      if !vmEnabled {
        kernelBrk := UpToPage(addr);
        return 0;
      }
      ghost var s := Abs();
      r := MoveKernelBrk(addr);
      hide *;
      KernelBrkDoesRounded(s, addr, r, Abs());
    }

    /** The branches of SetKernelBrk once virtual memory is on. */
    method MoveKernelBrk(addr: nat) returns (r: int)
      requires Valid() && Inv(Abs())
      requires kernelBrk < addr < VMEM_0_LIMIT - 3 * PAGESIZE ==>
        UpToPage(addr) - kernelBrk <= FreeCount(bits[..]) * PAGESIZE
      modifies this`kernelBrk, bits, kpt
      ensures Valid() && SetsKernelBrk(old(Abs()), addr, r, Abs())
      ensures Inv(Abs()) <==> r == -1 || addr <= VMEM_0_LIMIT - 4 * PAGESIZE
      ensures FreeCount(bits[..])
           == FreeCount(old(bits[..])) - (kernelBrk / PAGESIZE - old(kernelBrk) / PAGESIZE)
    {
      ghost var s := Abs();
      KernelPagesMarked(s);
      hide Inv;
      r := MoveKernelHeap(addr);
      if r == 0 {
        KernelBrkExact(s, addr, Abs());
        KernelBrkCount(s, addr, Abs());
      }
    }

    method MoveKernelHeap(addr: nat) returns (r: int)
      requires Valid() && kernelBrk % PAGESIZE == 0 && kernelBrk / PAGESIZE <= SCRATCH_VPN
      requires forall v :: 0 <= v < kernelBrk / PAGESIZE ==> kpt[v].pfn < bits.Length
      requires kernelBrk < addr < VMEM_0_LIMIT - 3 * PAGESIZE ==>
        UpToPage(addr) - kernelBrk <= FreeCount(bits[..]) * PAGESIZE
      modifies this`kernelBrk, bits, kpt
      ensures Valid() && SetsKernelBrk(old(Abs()), addr, r, Abs()) && (r == 0 || (r == -1 && Abs() == old(Abs())))
    {
      UpAligned(addr);
      hide MapsRange, UnmapsRange;
      var oldBrk := kernelBrk;
      if kernelBrk < addr && addr < VMEM_0_LIMIT - 3 * PAGESIZE {
        kernelBrk := UpToPage(addr);
        MapPages(kpt, oldBrk / PAGESIZE, kernelBrk / PAGESIZE);
      } else if addr < kernelBrk {
        kernelBrk := UpToPage(addr);
        UnmapPages(kpt, kernelBrk / PAGESIZE, oldBrk / PAGESIZE);
      } else {
        return -1;
      }
      r := 0;
      SameBlocks();
    }

    twostate lemma SameBlocks()
      requires old(Valid()) && Valid() && blocks == old(blocks)
      requires forall q :: q in blocks ==> unchanged(blocks[q]) && unchanged(blocks[q].table)
      ensures Abs().spaces == old(Abs()).spaces
    {
      forall q | q in blocks ensures blocks[q].Value() == old(blocks[q].Value()) {}
    }

    lemma KernelPagesMarked(s: Vm)
      requires Inv(s)
      ensures s.kernelBrk % PAGESIZE == 0 && s.kernelBrk / PAGESIZE <= SCRATCH_VPN
      ensures forall v :: 0 <= v < s.kernelBrk / PAGESIZE ==> s.kpt[v].pfn < |s.used|
    {
      forall v | 0 <= v < s.kernelBrk / PAGESIZE ensures s.kpt[v].pfn < |s.used| {
        assert Mapped(s, KernelPage(v));
      }
    }

    // ------------------------------------------------------------ exec

    /** LoadProgram throws the old Region 1 address space away. */
    method TearDown(t: array<Pte>)
      requires forall v :: 0 <= v < t.Length && t[v].valid ==> t[v].pfn < bits.Length
      modifies bits, t
      ensures t[..] == Invalidated(old(t[..]))
      ensures bits[..] == Released(old(t[..]), old(bits[..]))
    {
      ghost var t0, used0 := t[..], bits[..];
      for pageId := 0 to t.Length
        invariant forall v :: 0 <= v < t.Length ==>
          t[v] == if v < pageId then Pte(false, t0[v].prot, t0[v].pfn) else t0[v]
        invariant forall f :: 0 <= f < bits.Length ==>
          (bits[f] <==> used0[f] && !exists v :: 0 <= v < pageId && t0[v].valid && t0[v].pfn == f)
      {
        if t[pageId].valid {
          t[pageId] := Pte(false, t[pageId].prot, t[pageId].pfn);
          bits[t[pageId].pfn] := false;
        }
      }
    }

    /** The text pages become executable and read-only. */
    method ProtectText(t: array<Pte>, lo: nat, hi: nat)
      requires lo <= hi <= t.Length
      modifies t
      ensures forall v :: 0 <= v < t.Length ==>
        t[v] == if lo <= v < hi then Pte(old(t[v]).valid, PROT_RX, old(t[v]).pfn) else old(t[v])
    {
      for pageId := lo to hi
        invariant forall v :: 0 <= v < t.Length ==>
          t[v] == if lo <= v < pageId then Pte(old(t[v]).valid, PROT_RX, old(t[v]).pfn) else old(t[v])
      {
        t[pageId] := Pte(t[pageId].valid, PROT_RX, t[pageId].pfn);
      }
    }

    /** The page-table loops of LoadProgram: text, data, stack, then the protection of text. */
    method BuildAddressSpace(t: array<Pte>, li: LoadInfo, args: seq<CString>)
      requires t.Length == MAX_PT_LEN && Linked(li) && Fits(li, args)
      requires forall v :: 0 <= v < t.Length && t[v].valid ==> t[v].pfn < bits.Length
      requires FreeCount(Released(t[..], bits[..])) >= li.tNpg + DataPages(li) + StackPages(args)
      modifies bits, t
      ensures LoadsTable(li, args, old(t[..]), old(bits[..]), t[..], bits[..])
    {
      GuardPage(li, args);
      hide *;
      ghost var t0, used0 := t[..], bits[..];
      TearDown(t);
      ghost var t2, used2, t3, used3 := MapProgram(t, TextPage(li), DataPage(li), DataPage(li) + DataPages(li),
                                                   MAX_PT_LEN - StackPages(args));
      ghost var t4 := t[..];
      ProtectText(t, TextPage(li), TextPage(li) + li.tNpg);
      LoadsFrom(li, args, t0, used0, t2, used2, t3, used3, t4, bits[..], t[..]);
    }

    /** The three loops that map text, data and stack. */
    method MapProgram(t: array<Pte>, text: nat, data: nat, heap: nat, stack: nat)
        returns (ghost t2: seq<Pte>, ghost used2: seq<bool>, ghost t3: seq<Pte>, ghost used3: seq<bool>)
      requires text <= data <= heap <= stack <= t.Length
      requires FreeCount(bits[..]) >= (data - text) + (heap - data) + (t.Length - stack)
      modifies bits, t
      ensures MapsRange(old(t[..]), old(bits[..]), text, data, t2, used2) && MapsRange(t2, used2, data, heap, t3, used3)
      ensures MapsRange(t3, used3, stack, t.Length, t[..], bits[..])
    {
      hide *;
      MapPages(t, text, data);
      t2, used2 := t[..], bits[..];
      MapPages(t, data, heap);
      t3, used3 := t[..], bits[..];
      MapPages(t, stack, t.Length);
    }

    lemma ExecDone(s: Vm, li: LoadInfo, args: seq<CString>, s': Vm)
      requires Inv(s) && Linked(li) && Fits(li, args) && Loads(s, li, args, 0, s')
      ensures Inv(s')
      ensures FreeCount(s'.used) == FreeCount(s.used) + ValidCount(s.spaces[s.curr].table, 0, MAX_PT_LEN)
                                    - (li.tNpg + DataPages(li) + StackPages(args))
    {
      ExecKeeps(s, li, args, 0, s');
      LoadCount(s, li, args, s');
    }

    method LoadProgram(li: LoadInfo, args: seq<CString>) returns (r: int)
      requires Valid() && Inv(Abs())
      requires Fits(li, args) ==>
        && Linked(li)
        && FreeCount(bits[..]) + ValidCount(blocks[curr].table[..], 0, MAX_PT_LEN)
           >= li.tNpg + DataPages(li) + StackPages(args)
      modifies bits, blocks[curr], blocks[curr].table
      ensures Valid() && Inv(Abs()) && Loads(old(Abs()), li, args, r, Abs())
      ensures LinkedAt(li) ==> LoadOutcome(old(Abs()), li, args, r, Abs())
      ensures FreeCount(bits[..]) == FreeCount(old(bits[..])) +
        if Fits(li, args) then ValidCount(old(blocks[curr].table[..]), 0, MAX_PT_LEN)
                               - (li.tNpg + DataPages(li) + StackPages(args))
        else 0
    {
      ghost var s := Abs();
      r := TryLoad(li, args);
      hide *;
      if LinkedAt(li) {
        LoadDoes(s, li, args, r, Abs());
      }
    }

    /** LoadProgram itself: its checks, then the new address space. */
    method TryLoad(li: LoadInfo, args: seq<CString>) returns (r: int)
      requires Valid() && Inv(Abs())
      requires Fits(li, args) ==>
        && Linked(li)
        && FreeCount(bits[..]) + ValidCount(blocks[curr].table[..], 0, MAX_PT_LEN)
           >= li.tNpg + DataPages(li) + StackPages(args)
      modifies bits, blocks[curr], blocks[curr].table
      ensures Valid() && Inv(Abs()) && Loads(old(Abs()), li, args, r, Abs())
      ensures FreeCount(bits[..]) == FreeCount(old(bits[..])) +
        if Fits(li, args) then ValidCount(old(blocks[curr].table[..]), 0, MAX_PT_LEN)
                               - (li.tNpg + DataPages(li) + StackPages(args))
        else 0
    {
      if li.entry < VMEM_1_BASE {
        return -1;
      }
      if StackPages(args) + DataPage(li) + DataPages(li) >= MAX_PT_LEN {
        return -1;
      }
      r := 0;
      ReplaceProgram(li, args);
    }

    lemma ReadyToLoad(s: Vm, li: LoadInfo, args: seq<CString>)
      requires Inv(s) && Fits(li, args) && Linked(li)
      requires FreeCount(s.used) + ValidCount(s.spaces[s.curr].table, 0, MAX_PT_LEN)
            >= li.tNpg + DataPages(li) + StackPages(args)
      ensures var t := s.spaces[s.curr].table;
        && (forall v :: 0 <= v < |t| && t[v].valid ==> t[v].pfn < |s.used|)
        && FreeCount(Released(t, s.used)) >= li.tNpg + DataPages(li) + StackPages(args)
        && StackPages(args) < MAX_PT_LEN && DataPage(li) + DataPages(li) <= MAX_PT_LEN
    {
      MarkedPages(s);
      GuardPage(li, args);
      TableOwns(s, s.curr);
      ReleasedCount(s.spaces[s.curr].table, s.used);
    }

    /** The part of LoadProgram behind its checks. */
    method ReplaceProgram(li: LoadInfo, args: seq<CString>)
      requires Valid() && Inv(Abs()) && Fits(li, args) && Linked(li)
      requires FreeCount(bits[..]) + ValidCount(blocks[curr].table[..], 0, MAX_PT_LEN)
            >= li.tNpg + DataPages(li) + StackPages(args)
      modifies bits, blocks[curr], blocks[curr].table
      ensures Valid() && Inv(Abs()) && Loads(old(Abs()), li, args, 0, Abs())
      ensures FreeCount(bits[..])
           == FreeCount(old(bits[..])) + ValidCount(old(blocks[curr].table[..]), 0, MAX_PT_LEN)
              - (li.tNpg + DataPages(li) + StackPages(args))
    {
      ghost var s := Abs();
      hide Inv, LoadsTable, FreeCount, ValidCount, Linked, Released;
      ReadyToLoad(s, li, args);
      var proc := blocks[curr];
      BuildAddressSpace(proc.table, li, args);
      proc.brk := (DataPage(li) + DataPages(li) + MAX_PT_LEN) * PAGESIZE;
      proc.sp := (2 * MAX_PT_LEN - 1 - StackPages(args)) * PAGESIZE;
      OneBlockWritten(curr);
      hide Shaped;
      ExecDone(s, li, args, Abs());
    }
  }
}
