/** Where LoadProgram places text, data, stack pages and the argument block. */
module ProgramLayout {
  import opened Memory

  /** A C string: its bytes without the terminating NUL. */
  type CString = s: seq<Byte> | forall i :: 0 <= i < |s| ==> s[i] != 0 witness []

  /** The fields of struct load_info that decide the layout. */
  datatype LoadInfo = LoadInfo(
    entry: Address, tVaddr: Address, tNpg: nat, idVaddr: Address, idNpg: nat, udNpg: nat)

  type Address = x: int | 0 <= x < ADDRESSES

  const WORD: nat := 4
  const POST_ARGV_NULL_SPACE: nat := 0x20
  const INITIAL_STACK_FRAME_SIZE: nat := 0

  /** Bytes of all arguments with their terminators. */
  function ArgBytes(args: seq<CString>): nat {
    if args == [] then 0 else |args[0]| + 1 + ArgBytes(args[1..])
  }

  /** Address of the first argument string. */
  function StringsAt(args: seq<CString>): int {
    VMEM_1_LIMIT - ArgBytes(args)
  }

  /** Address of argc: room for all pointer words, rounded down to a double word. */
  function BlockAt(args: seq<CString>): int {
    (StringsAt(args) - (|args| + 3 + POST_ARGV_NULL_SPACE) * WORD) / 8 * 8
  }

  function StackPointer(args: seq<CString>): int {
    BlockAt(args) - INITIAL_STACK_FRAME_SIZE
  }

  function StackPages(args: seq<CString>): int {
    (VMEM_1_LIMIT - StackPointer(args) / PAGESIZE * PAGESIZE) / PAGESIZE
  }

  /** The page of an address, counted from Region 1; an address below it wraps around. */
  function Region1Page(vaddr: Address): nat {
    (vaddr + (ADDRESSES - VMEM_1_BASE)) % ADDRESSES / PAGESIZE
  }

  function TextPage(li: LoadInfo): nat {
    Region1Page(li.tVaddr)
  }

  function DataPage(li: LoadInfo): nat {
    Region1Page(li.idVaddr)
  }

  function DataPages(li: LoadInfo): nat {
    li.idNpg + li.udNpg
  }

  /** LoadProgram refuses a program that does not leave a page between heap and stack. */
  predicate Fits(li: LoadInfo, args: seq<CString>) {
    li.entry >= VMEM_1_BASE && StackPages(args) + DataPage(li) + DataPages(li) < MAX_PT_LEN
  }

  /** Programs linked for Yalnix: text, which is not empty, starts Region 1 and data follows without a gap. */
  predicate Linked(li: LoadInfo) {
    li.tNpg > 0 && li.tVaddr == VMEM_1_BASE && li.idVaddr == VMEM_1_BASE + li.tNpg * PAGESIZE
  }

  lemma StackPagesCover(args: seq<CString>)
    ensures StackPointer(args) % 8 == 0
    ensures StackPages(args) >= 1
    ensures VMEM_1_LIMIT - StackPages(args) * PAGESIZE <= StackPointer(args)
    ensures StackPointer(args) < StringsAt(args) <= VMEM_1_LIMIT
  {
    RoundedDown(StringsAt(args) - (|args| + 3 + POST_ARGV_NULL_SPACE) * WORD);
    PagesFrom(StackPointer(args));
    hide ArgBytes;
  }

  lemma RoundedDown(a: int)
    ensures a / 8 * 8 <= a && a / 8 * 8 % 8 == 0
  {
  }

  /** The pages from the one of an address up to the limit. */
  lemma PagesFrom(a: int)
    requires a < VMEM_1_LIMIT
    ensures var n := (VMEM_1_LIMIT - a / PAGESIZE * PAGESIZE) / PAGESIZE;
      n >= 1 && VMEM_1_LIMIT - n * PAGESIZE <= a
  {
    var k := a / PAGESIZE;
    assert VMEM_1_LIMIT - k * PAGESIZE == (2 * MAX_PT_LEN - k) * PAGESIZE;
    assert k * PAGESIZE <= a;
  }

  /** A linked program that fits has its first stack page above the first page after its data. */
  lemma GuardPage(li: LoadInfo, args: seq<CString>)
    requires Linked(li) && Fits(li, args)
    ensures TextPage(li) == 0 && DataPage(li) == li.tNpg
    ensures li.tNpg + DataPages(li) < MAX_PT_LEN - StackPages(args)
    ensures 1 <= StackPages(args) < MAX_PT_LEN
  {
    StackPagesCover(args);
    assert (li.tNpg * PAGESIZE) / PAGESIZE == li.tNpg;
  }
}
