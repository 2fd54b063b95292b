/** How many frames each operation takes and gives back. */
module FrameCounts {
  import opened Memory
  import opened ProgramLayout
  import opened MemorySteps

  // ------------------------------------------------------------ free frames

  function FreeCount(used: seq<bool>): nat {
    if used == [] then 0 else (if used[0] then 0 else 1) + FreeCount(used[1..])
  }

  lemma {:induction false} FreeCountSet(used: seq<bool>, f: nat, b: bool)
    requires f < |used|
    ensures FreeCount(used[f := b]) == FreeCount(used) + (if used[f] then 1 else 0) - (if b then 1 else 0)
  {
    if f == 0 {
      assert used[0 := b][1..] == used[1..];
    } else {
      assert used[f := b][1..] == used[1..][f - 1 := b];
      FreeCountSet(used[1..], f - 1, b);
    }
  }

  lemma {:induction false} SomeFree(used: seq<bool>)
    requires FreeCount(used) > 0
    ensures exists f :: 0 <= f < |used| && !used[f]
  {
    if used[0] {
      SomeFree(used[1..]);
      var f :| 0 <= f < |used[1..]| && !used[1..][f];
      assert !used[f + 1];
    } else {
      assert !used[0];
    }
  }

  lemma {:induction false} HasFree(used: seq<bool>, f: nat)
    requires Free(used, f)
    ensures FreeCount(used) > 0
  {
    if f > 0 {
      HasFree(used[1..], f - 1);
    }
  }

  /** Number of valid entries lo..hi. */
  function ValidCount(t: seq<Pte>, lo: nat, hi: nat): nat
    requires lo <= hi <= |t|
  {
    if lo == hi then 0 else ValidCount(t, lo, hi - 1) + (if t[hi - 1].valid then 1 else 0)
  }

  // ------------------------------------------------------------ counting by sets

  ghost function FreeSet(used: seq<bool>): set<nat> {
    set f | 0 <= f < |used| && !used[f]
  }

  lemma {:induction false} FreeCountIsSize(used: seq<bool>)
    ensures FreeCount(used) == |FreeSet(used)|
  {
    if used != [] {
      var front, last := used[..|used| - 1], |used| - 1;
      FreeCountLast(used);
      FreeCountIsSize(front);
      assert FreeSet(used) == FreeSet(front) + if used[last] then {} else {last};
    }
  }

  lemma {:induction false} FreeCountLast(used: seq<bool>)
    requires used != []
    ensures FreeCount(used) == FreeCount(used[..|used| - 1]) + (if used[|used| - 1] then 0 else 1)
  {
    if |used| > 1 {
      FreeCountLast(used[1..]);
      assert used[1..][..|used| - 2] == used[..|used| - 1][1..];
    }
  }

  /** When exactly a set of free frames is marked, that many fewer are free. */
  lemma MarkedCount(used: seq<bool>, fs: set<nat>, used': seq<bool>)
    requires MarksExactly(used, fs, used') && forall f :: f in fs ==> Free(used, f)
    ensures FreeCount(used') == FreeCount(used) - |fs|
  {
    FreeCountIsSize(used);
    FreeCountIsSize(used');
    assert FreeSet(used') == FreeSet(used) - fs && fs <= FreeSet(used);
  }

  ghost predicate DistinctFrames(t: seq<Pte>, lo: nat, hi: nat) {
    forall v, w :: lo <= v < w < hi && w < |t| && t[v].valid && t[w].valid ==> t[v].pfn != t[w].pfn
  }

  lemma {:induction false} FramesInSize(t: seq<Pte>, lo: nat, hi: nat)
    requires lo <= hi <= |t| && DistinctFrames(t, lo, hi)
    ensures |FramesIn(t, lo, hi)| == ValidCount(t, lo, hi)
  {
    if lo < hi {
      FramesInSize(t, lo, hi - 1);
      assert FramesIn(t, lo, hi) == FramesIn(t, lo, hi - 1) + if t[hi - 1].valid then {t[hi - 1].pfn} else {};
    }
  }

  lemma {:induction false} ValidCountAll(t: seq<Pte>, lo: nat, hi: nat)
    requires lo <= hi <= |t| && forall v :: lo <= v < hi ==> t[v].valid
    ensures ValidCount(t, lo, hi) == hi - lo
  {
    if lo < hi {
      ValidCountAll(t, lo, hi - 1);
    }
  }

  lemma {:induction false} NoneValid(t: seq<Pte>, lo: nat, hi: nat)
    requires lo <= hi <= |t| && forall v :: lo <= v < hi ==> !t[v].valid
    ensures ValidCount(t, lo, hi) == 0
  {
    if lo < hi {
      NoneValid(t, lo, hi - 1);
    }
  }

  lemma {:induction false} ValidSplit(t: seq<Pte>, lo: nat, k: nat, hi: nat)
    requires lo <= k <= hi <= |t|
    ensures ValidCount(t, lo, hi) == ValidCount(t, lo, k) + ValidCount(t, k, hi)
  {
    if k < hi {
      ValidSplit(t, lo, k, hi - 1);
    }
  }

  // ------------------------------------------------------------ ranges of pages

  lemma MapsCount(t: seq<Pte>, used: seq<bool>, lo: nat, hi: nat, t': seq<Pte>, used': seq<bool>)
    requires lo <= hi <= |t| && MapsRange(t, used, lo, hi, t', used')
    ensures MarksExactly(used, FramesIn(t', lo, hi), used')
    ensures FreeCount(used') == FreeCount(used) - (hi - lo)
  {
    FramesInSize(t', lo, hi);
    ValidCountAll(t', lo, hi);
    MarkedCount(used, FramesIn(t', lo, hi), used');
  }

  /** The valid entries lo..hi of a table have distinct frames, which are marked. */
  ghost predicate Owns(t: seq<Pte>, used: seq<bool>, lo: nat, hi: nat) {
    && DistinctFrames(t, lo, hi)
    && forall v :: lo <= v < hi && v < |t| && t[v].valid ==> t[v].pfn < |used| && used[t[v].pfn]
  }

  lemma UnmapsCount(t: seq<Pte>, used: seq<bool>, lo: nat, hi: nat, t': seq<Pte>, used': seq<bool>)
    requires lo <= hi <= |t| && UnmapsRange(t, used, lo, hi, t', used') && Owns(t, used, lo, hi)
    requires forall v :: lo <= v < hi ==> t[v].valid
    ensures MarksExactly(used', FramesIn(t, lo, hi), used)
    ensures FreeCount(used') == FreeCount(used) + (hi - lo)
  {
    FramesInSize(t, lo, hi);
    ValidCountAll(t, lo, hi);
    MarkedCount(used', FramesIn(t, lo, hi), used);
  }

  lemma ReleasedCount(t: seq<Pte>, used: seq<bool>)
    requires Owns(t, used, 0, |t|)
    ensures MarksExactly(Released(t, used), FramesIn(t, 0, |t|), used)
    ensures FreeCount(Released(t, used)) == FreeCount(used) + ValidCount(t, 0, |t|)
  {
    FramesInSize(t, 0, |t|);
    MarkedCount(Released(t, used), FramesIn(t, 0, |t|), used);
  }

  /** In a state with the invariant every table owns its frames. */
  lemma TableOwns(s: Vm, p: Pid)
    requires Inv(s) && p in s.spaces
    ensures Owns(s.spaces[p].table, s.used, 0, MAX_PT_LEN)
    ensures Owns(s.kpt, s.used, 0, STACK_VPN)
  {
    var t := s.spaces[p].table;
    forall v, w | 0 <= v < w < MAX_PT_LEN && t[v].valid && t[w].valid ensures t[v].pfn != t[w].pfn {
      assert Mapped(s, UserPage(p, v)) && Mapped(s, UserPage(p, w));
    }
    forall v | 0 <= v < MAX_PT_LEN && t[v].valid ensures t[v].pfn < |s.used| && s.used[t[v].pfn] {
      assert Mapped(s, UserPage(p, v));
    }
    forall v, w | 0 <= v < w < STACK_VPN && s.kpt[v].valid && s.kpt[w].valid ensures s.kpt[v].pfn != s.kpt[w].pfn {
      assert Mapped(s, KernelPage(v)) && Mapped(s, KernelPage(w));
    }
    forall v | 0 <= v < STACK_VPN && s.kpt[v].valid ensures s.kpt[v].pfn < |s.used| && s.used[s.kpt[v].pfn] {
      assert Mapped(s, KernelPage(v));
    }
  }

  // ------------------------------------------------------------ the operations

  lemma OwnSize(c: Space)
    requires DistinctFrames(c.table, 0, |c.table|) && c.kstack.page0.pfn != c.kstack.page1.pfn
    requires FramesOf(c.table) !! StackFrames(c.kstack)
    ensures |OwnFrames(c)| == ValidCount(c.table, 0, |c.table|) + 2
  {
    FramesInSize(c.table, 0, |c.table|);
  }

  /** A new process has as many pages as its source, in frames that were free. */
  lemma SpawnedOwns(s: Vm, child: Pid, src: seq<Pte>, s': Vm)
    requires Shaped(s) && Spawns(s, child, src, s')
    ensures var c := s'.spaces[child];
      && |c.table| == |src| == MAX_PT_LEN && ValidCount(c.table, 0, MAX_PT_LEN) == ValidCount(src, 0, MAX_PT_LEN)
      && DistinctFrames(c.table, 0, MAX_PT_LEN) && c.kstack.page0.pfn != c.kstack.page1.pfn
      && FramesOf(c.table) !! StackFrames(c.kstack)
      && forall f :: f in OwnFrames(c) ==> Free(s.used, f)
  {
    hide TakesFrames, Grows;
    var c := s'.spaces[child];
    SameValid(src, c.table, MAX_PT_LEN);
  }

  lemma TakesCount(used: seq<bool>, c: Space, a: nat, b: nat, used': seq<bool>)
    requires TakesFrames(used, c, a, b, used') && forall f :: f in OwnFrames(c) ==> Free(used, f)
    ensures FreeCount(used') == FreeCount(used) - 2 - |OwnFrames(c)|
  {
    var own := OwnFrames(c);
    var used1 :| TookTwo(used, a, b, used1) && MarksExactly(used1, own, used');
    hide OwnFrames, FramesIn, StackFrames, FreeCount;
    MarkedCount(used, {a, b}, used1);
    MarkedCount(used1, own, used');
  }

  /** Fork and boot: a frame for each page and stack page of the child, and two more. */
  lemma SpawnCount(s: Vm, child: Pid, src: seq<Pte>, s': Vm)
    requires Shaped(s) && Spawns(s, child, src, s')
    ensures |src| == MAX_PT_LEN && FreeCount(s'.used) == FreeCount(s.used) - 4 - ValidCount(src, 0, MAX_PT_LEN)
  {
    SpawnedOwns(s, child, src, s');
    var c := s'.spaces[child];
    OwnSize(c);
    hide OwnFrames, DistinctFrames, CopiesPages, CopiesStack, Grows, TakesFrames, FreeCount, ValidCount;
    var a, b :| TakesFrames(s.used, c, a, b, s'.used);
    TakesCount(s.used, c, a, b, s'.used);
  }

  lemma {:induction false} SameValid(t: seq<Pte>, t': seq<Pte>, n: nat)
    requires n <= |t| && n <= |t'| && forall v :: 0 <= v < n ==> t'[v].valid == t[v].valid
    ensures ValidCount(t', 0, n) == ValidCount(t, 0, n)
  {
    if n > 0 {
      SameValid(t, t', n - 1);
    }
  }

  /** A break call: the pages between the two breaks, with their sign. */
  lemma BrkCount(s: Vm, addr: nat, s': Vm)
    requires Inv(s) && s.spaces[s.curr].brk >= VMEM_1_BASE && SetsBrk(s, addr, 0, s')
    ensures s.curr in s'.spaces
    ensures FreeCount(s'.used) == FreeCount(s.used) - (HeapPages(s'.spaces[s.curr]) - HeapPages(s.spaces[s.curr]))
  {
    var me, me' := s.spaces[s.curr], s'.spaces[s.curr];
    assert BrkMapped(me);
    TableOwns(s, s.curr);
    UpAligned(addr);
    hide Inv, FreeCount, UpToPage, MapsRange, UnmapsRange;
    var lo, hi := HeapPages(me), HeapPages(me');
    if me'.brk < me.brk {
      UnmapsCount(me.table, s.used, hi, lo, me'.table, s'.used);
    } else {
      MapsCount(me.table, s.used, lo, hi, me'.table, s'.used);
    }
  }

  lemma KernelBrkCount(s: Vm, addr: nat, s': Vm)
    requires Inv(s) && SetsKernelBrk(s, addr, 0, s')
    ensures FreeCount(s'.used) == FreeCount(s.used) - (s'.kernelBrk / PAGESIZE - s.kernelBrk / PAGESIZE)
  {
    TableOwns(s, s.curr);
    var lo, hi := s.kernelBrk / PAGESIZE, s'.kernelBrk / PAGESIZE;
    assert UpToPage(addr) <= STACK_VPN * PAGESIZE;
    hide FreeCount, MapsRange, UnmapsRange;
    if addr < s.kernelBrk {
      UnmapsCount(s.kpt, s.used, hi, lo, s'.kpt, s'.used);
    } else {
      MapsCount(s.kpt, s.used, lo, hi, s'.kpt, s'.used);
    }
  }

  /** Exec: the old pages are given back, and each new page takes a frame. */
  lemma LoadCount(s: Vm, li: LoadInfo, args: seq<CString>, s': Vm)
    requires Inv(s) && Linked(li) && Fits(li, args) && Loads(s, li, args, 0, s')
    ensures FreeCount(s'.used) == FreeCount(s.used) + ValidCount(s.spaces[s.curr].table, 0, MAX_PT_LEN)
                                  - (li.tNpg + DataPages(li) + StackPages(args))
  {
    TableOwns(s, s.curr);
    ReleasedCount(s.spaces[s.curr].table, s.used);
    LoadedCount(li, args, s.spaces[s.curr].table, s.used, s'.spaces[s.curr].table, s'.used);
  }

  lemma LoadedCount(li: LoadInfo, args: seq<CString>, t: seq<Pte>, used: seq<bool>, t': seq<Pte>, used': seq<bool>)
    requires Linked(li) && Fits(li, args) && LoadsTable(li, args, t, used, t', used')
    ensures FreeCount(used') == FreeCount(Released(t, used)) - (li.tNpg + DataPages(li) + StackPages(args))
  {
    GuardPage(li, args);
    StackPagesCover(args);
    var k, g := li.tNpg + DataPages(li), MAX_PT_LEN - StackPages(args);
    assert forall v :: 0 <= v < MAX_PT_LEN ==> (t'[v].valid <==> v < k || v >= g);
    hide StackPages, DataPages, Linked, Fits, Released, FreeCount;
    ValidCountAll(t', 0, k);
    NoneValid(t', k, g);
    ValidCountAll(t', g, MAX_PT_LEN);
    ValidSplit(t', 0, k, g);
    ValidSplit(t', 0, g, MAX_PT_LEN);
    FramesInSize(t', 0, MAX_PT_LEN);
    MarkedCount(Released(t, used), FramesOf(t'), used');
  }

  /** Boot: the kernel's pages, its two stack pages and idle's page. */
  lemma BootCount(s: Vm, idle: Pid)
    requires Booted(s, idle)
    ensures FreeCount(s.used) == |s.used| - s.kernelBrk / PAGESIZE - 3
  {
    var f := s.spaces[idle].table[MAX_PT_LEN - 1].pfn;
    var none := seq(|s.used|, _ => false);
    AllFree(none);
    KernelPages(s.kernelBrk);
    hide FreeCount, KernelMapped;
    MarkedCount(none, KernelFrames(s.kernelBrk) + {f}, s.used);
  }

  /** The kernel's frames at boot: it is mapped one to one. */
  ghost function KernelFrames(kernelBrk: nat): set<nat> {
    Below(kernelBrk / PAGESIZE) + {STACK_VPN, STACK_VPN + 1}
  }

  lemma KernelPages(kernelBrk: nat)
    requires kernelBrk % PAGESIZE == 0 && kernelBrk / PAGESIZE <= SCRATCH_VPN
    ensures |KernelFrames(kernelBrk)| == kernelBrk / PAGESIZE + 2
    ensures forall v: nat :: v in KernelFrames(kernelBrk) <==> v < MAX_PT_LEN && KernelMapped(kernelBrk, v)
  {
  }

  ghost function Below(n: nat): (r: set<nat>)
    ensures |r| == n && forall v :: v in r <==> 0 <= v < n
  {
    if n == 0 then {} else Below(n - 1) + {n - 1}
  }

  lemma {:induction false} AllFree(used: seq<bool>)
    requires forall f :: 0 <= f < |used| ==> !used[f]
    ensures FreeCount(used) == |used|
  {
    if used != [] {
      AllFree(used[1..]);
    }
  }
}
