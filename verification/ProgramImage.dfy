/** What a newly loaded program reads through its page table: the argument block of module ArgStack. */
module ProgramImage {
  import opened Memory
  import opened ProgramLayout
  import opened MemorySteps
  import opened ArgStack

  const REGION_1_SIZE: nat := VMEM_1_LIMIT - VMEM_1_BASE

  /** The page of the running process in which byte i of Region 1 lies. */
  ghost function PageOf(s: Vm, i: nat): Slot {
    UserPage(s.curr, i / PAGESIZE)
  }

  /** Byte i of Region 1 can be read and written by the running process. */
  ghost predicate Accessible(s: Vm, i: nat)
    requires Shaped(s)
  {
    i < REGION_1_SIZE && Mapped(s, PageOf(s, i)) && Frame(s, PageOf(s, i)) < |s.phys|
  }

  ghost function ByteAt(s: Vm, i: nat): Byte
    requires Shaped(s)
  {
    if Accessible(s, i) then s.phys[Frame(s, PageOf(s, i))][i % PAGESIZE] else 0
  }

  /** Region 1 as the running process sees it through its page table; 0 stands for what is not mapped. */
  ghost function Seen(s: Vm): (m: seq<Byte>)
    requires Shaped(s)
    ensures |m| == REGION_1_SIZE
  {
    seq(REGION_1_SIZE, i requires 0 <= i < REGION_1_SIZE => ByteAt(s, i))
  }

  // ------------------------------------------------------------ stores through the table

  ghost function StoreAt(s: Vm, i: nat, b: Byte): Vm
    requires Shaped(s) && Accessible(s, i)
  {
    Stored(s, Frame(s, PageOf(s, i)), i % PAGESIZE, b)
  }

  /** A store changes the byte that is addressed and no other one that the process can see. */
  lemma StoreSeen(s: Vm, i: nat, b: Byte)
    requires Inv(s) && Accessible(s, i)
    ensures var s' := StoreAt(s, i, b);
      && Inv(s') && Next(s, StoreUser(i / PAGESIZE, i % PAGESIZE, b), s')
      && s'.curr == s.curr && s'.spaces == s.spaces && |s'.phys| == |s.phys|
      && Seen(s') == Seen(s)[i := b]
  {
    var s', f := StoreAt(s, i, b), Frame(s, PageOf(s, i));
    StoreKeeps(s, f, i % PAGESIZE, b);
    forall j: nat | j < REGION_1_SIZE ensures ByteAt(s', j) == if j == i then b else ByteAt(s, j) {
      assert EntryOf(s', PageOf(s, j)) == EntryOf(s, PageOf(s, j));
      if Accessible(s, j) && j / PAGESIZE != i / PAGESIZE {
        assert PageOf(s, j) != PageOf(s, i);
      } else {
        SameByte(i, j);
      }
    }
    assert Seen(s') == Seen(s)[i := b];
  }

  lemma SameByte(i: nat, j: nat)
    ensures i / PAGESIZE == j / PAGESIZE && i % PAGESIZE == j % PAGESIZE ==> i == j
  {
  }

  /** Stores of bytes from index i of Region 1 on, one after the other. */
  ghost function StoredFrom(s: Vm, i: nat, bytes: seq<Byte>): Vm
    requires Shaped(s)
    decreases |bytes|
  {
    if bytes == [] || !Accessible(s, i) then s
    else
      ShapedAfter(s, i, bytes[0]);
      StoredFrom(StoreAt(s, i, bytes[0]), i + 1, bytes[1..])
  }

  lemma ShapedAfter(s: Vm, i: nat, b: Byte)
    requires Shaped(s) && Accessible(s, i)
    ensures Shaped(StoreAt(s, i, b))
  {
  }

  lemma StillAccessible(s: Vm, s': Vm, lo: nat, hi: nat)
    requires Shaped(s) && Shaped(s') && s'.curr == s.curr && s'.spaces == s.spaces && |s'.phys| == |s.phys|
    requires forall j :: lo <= j < hi ==> Accessible(s, j)
    ensures forall j :: lo <= j < hi ==> Accessible(s', j)
  {
    forall j | lo <= j < hi ensures Accessible(s', j) {
      assert Accessible(s, j);
    }
  }

  lemma {:induction false} StoresSeen(s: Vm, i: nat, bytes: seq<Byte>)
    requires Inv(s) && i + |bytes| <= REGION_1_SIZE
    requires forall j :: i <= j < i + |bytes| ==> Accessible(s, j)
    ensures Inv(StoredFrom(s, i, bytes))
    ensures Seen(StoredFrom(s, i, bytes)) == Seen(s)[..i] + bytes + Seen(s)[i + |bytes|..]
    decreases |bytes|
  {
    if bytes == [] {
      assert Seen(s) == Seen(s)[..i] + [] + Seen(s)[i..];
    } else {
      var s' := StoreAt(s, i, bytes[0]);
      StoreSeen(s, i, bytes[0]);
      StillAccessible(s, s', i + 1, i + |bytes|);
      assert StoredFrom(s, i, bytes) == StoredFrom(s', i + 1, bytes[1..]);
      hide Seen, Inv, Accessible, StoreAt, StoredFrom;
      StoresSeen(s', i + 1, bytes[1..]);
      Spliced(Seen(s), i, bytes);
    }
  }

  lemma Spliced(m: seq<Byte>, i: nat, bytes: seq<Byte>)
    requires bytes != [] && i + |bytes| <= |m|
    ensures var m' := m[i := bytes[0]];
      m'[..i + 1] + bytes[1..] + m'[i + |bytes|..] == m[..i] + bytes + m[i + |bytes|..]
  {
    var m' := m[i := bytes[0]];
    assert m'[..i + 1] == m[..i] + [bytes[0]] && m'[i + |bytes|..] == m[i + |bytes|..];
    assert bytes == [bytes[0]] + bytes[1..];
  }

  // ------------------------------------------------------------ after a load

  /** Everything from the stack pointer to the limit lies in pages that the load has mapped writable. */
  lemma StackAccessible(s: Vm, li: LoadInfo, args: seq<CString>, s': Vm, i: nat)
    requires Inv(s) && Linked(li) && Fits(li, args) && Loads(s, li, args, 0, s')
    requires At(StackPointer(args)) <= i < REGION_1_SIZE
    ensures Inv(s') && Accessible(s', i) && EntryOf(s', PageOf(s', i)).prot == PROT_RW
  {
    ExecKeeps(s, li, args, 0, s');
    GuardPage(li, args);
    StackPagesCover(args);
    var v := i / PAGESIZE;
    assert v >= MAX_PT_LEN - StackPages(args) && v < MAX_PT_LEN;
    assert Loaded(li, args, v);
    assert Mapped(s', PageOf(s', i));
  }

  /**
   * When a program has been loaded and the bytes of the argument block, as BuildArguments leaves
   * them, are stored from the stack pointer on, the program reads that block through its page table.
   */
  lemma ImageThroughTable(s: Vm, li: LoadInfo, args: seq<CString>, s': Vm, m: seq<Byte>)
    requires Inv(s) && Linked(li) && Fits(li, args) && Loads(s, li, args, 0, s')
    requires |m| == REGION_1_SIZE && IsImage(m, args)
    requires Shaped(s') && forall k :: 0 <= k < At(StackPointer(args)) ==> m[k] == Seen(s')[k]
    ensures var i := At(StackPointer(args));
      && 0 <= i <= REGION_1_SIZE
      && var s'' := StoredFrom(s', i, m[i..]);
      Inv(s'') && Seen(s'') == m && IsImage(Seen(s''), args)
  {
    ImageHead(m, args);
    var i := At(StackPointer(args));
    forall j | i <= j < REGION_1_SIZE ensures Accessible(s', j) {
      StackAccessible(s, li, args, s', j);
    }
    ExecKeeps(s, li, args, 0, s');
    hide *;
    StoresSeen(s', i, m[i..]);
    FrontAndBlock(Seen(s'), m, i);
  }

  lemma FrontAndBlock(seen: seq<Byte>, m: seq<Byte>, i: nat)
    requires i <= |m| == |seen| && forall k :: 0 <= k < i ==> m[k] == seen[k]
    ensures seen[..i] + m[i..] + seen[i + |m[i..]|..] == m
  {
  }
}
