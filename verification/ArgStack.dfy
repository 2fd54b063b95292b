/** The argument block that LoadProgram leaves at the top of Region 1. */
module ArgStack {
  import opened Memory
  import opened ProgramLayout

  // ------------------------------------------------------------ strings and words

  /** All arguments one after the other, each with its terminator. */
  function Joined(args: seq<CString>): (s: seq<Byte>)
    ensures |s| == ArgBytes(args)
  {
    if args == [] then [] else args[0] + [0] + Joined(args[1..])
  }

  lemma {:induction false} JoinedAppend(args: seq<CString>, a: CString)
    ensures Joined(args + [a]) == Joined(args) + a + [0]
    ensures ArgBytes(args + [a]) == ArgBytes(args) + |a| + 1
  {
    if args == [] {
      assert args + [a] == [a];
      assert ([a])[1..] == [] && Joined([a]) == a + [0] + [];
    } else {
      assert (args + [a])[0] == args[0] && (args + [a])[1..] == args[1..] + [a];
      JoinedAppend(args[1..], a);
      assert Joined(args) == args[0] + [0] + Joined(args[1..]);
      hide Joined, ArgBytes;
      Reassociate(args[0] + [0], Joined(args[1..]), a, [0]);
    }
  }

  lemma Reassociate(a: seq<Byte>, b: seq<Byte>, c: seq<Byte>, d: seq<Byte>)
    ensures a + (b + c + d) == a + b + c + d
  {
  }

  lemma {:induction false} JoinedSplit(args: seq<CString>, i: nat)
    requires i < |args|
    ensures ArgBytes(args[..i]) + |args[i]| + 1 <= ArgBytes(args)
    ensures Joined(args)[ArgBytes(args[..i])..][..|args[i]| + 1] == args[i] + [0]
    ensures ArgBytes(args[..i + 1]) == ArgBytes(args[..i]) + |args[i]| + 1
    ensures Joined(args[..i + 1]) == Joined(args[..i]) + args[i] + [0]
  {
    assert args[..i + 1] == args[..i] + [args[i]];
    JoinedAppend(args[..i], args[i]);
    if i == 0 {
      assert args[..0] == [];
    } else {
      JoinedSplit(args[1..], i - 1);
      assert args[..i] == [args[0]] + args[1..][..i - 1];
      assert args[..i][1..] == args[1..][..i - 1];
      var n := |args[0]| + 1;
      assert Joined(args)[n..] == Joined(args[1..]);
      assert Joined(args)[ArgBytes(args[..i])..] == Joined(args[1..])[ArgBytes(args[1..][..i - 1])..];
    }
  }

  /** The 32-bit little-endian word at index i. */
  function WordAt(m: seq<Byte>, i: nat): nat
    requires i + WORD <= |m|
  {
    m[i] as int + 0x100 * (m[i + 1] as int) + 0x1_0000 * (m[i + 2] as int) + 0x100_0000 * (m[i + 3] as int)
  }

  lemma WordSame(m: seq<Byte>, m': seq<Byte>, i: nat)
    requires i + WORD <= |m| && i + WORD <= |m'|
    requires forall k :: i <= k < i + WORD ==> m[k] == m'[k]
    ensures WordAt(m, i) == WordAt(m', i)
  {
  }

  // ------------------------------------------------------------ the image

  /** Index of an address in the bytes of Region 1. */
  function At(a: int): int {
    a - VMEM_1_BASE
  }

  /**
   * What a new program finds from index b of Region 1 on: argc, the argv pointers, a null
   * pointer, the null envp pointer and further zeros, then, from index s0 to the end of
   * Region 1, the argument strings. Only the first n arguments are in place.
   */
  ghost predicate Partial(m: seq<Byte>, args: seq<CString>, b: nat, s0: nat, n: nat)
    requires n <= |args|
  {
    var argc := |args|;
    && b + WORD * (argc + 3 + POST_ARGV_NULL_SPACE) <= s0 && s0 + ArgBytes(args) == |m|
    && ArgBytes(args[..n]) <= ArgBytes(args)
    && WordAt(m, b) == argc
    && (forall i :: 0 <= i < n ==> WordAt(m, b + WORD + WORD * i) == VMEM_1_BASE + s0 + ArgBytes(args[..i]))
    && (forall k :: b + WORD * (n + 1) <= k < s0 ==> m[k] == 0)
    && m[s0..s0 + ArgBytes(args[..n])] == Joined(args[..n])
  }

  /** The finished block of LoadProgram. */
  ghost predicate IsImage(m: seq<Byte>, args: seq<CString>) {
    && BlockAt(args) >= VMEM_1_BASE && StringsAt(args) >= VMEM_1_BASE
    && Partial(m, args, At(BlockAt(args)), At(StringsAt(args)), |args|)
  }

  /**
   * For any arguments, also for none: at the stack pointer stands argc, and behind the argv
   * pointers the null that ends them, the null environment, and zeros up to the strings.
   */
  lemma ImageHead(m: seq<Byte>, args: seq<CString>)
    requires |m| == VMEM_1_LIMIT - VMEM_1_BASE && IsImage(m, args)
    ensures StackPointer(args) == BlockAt(args)
    ensures var b := At(StackPointer(args));
      && 0 <= b && b + WORD * (|args| + 3) <= |m|
      && WordAt(m, b) == |args| && m[b] as int == |args| % 0x100
      && WordAt(m, b + WORD + WORD * |args|) == 0 && WordAt(m, b + WORD + WORD * (|args| + 1)) == 0
      && forall k :: b + WORD + WORD * |args| <= k < At(StringsAt(args)) ==> m[k] == 0
  {
    hide BlockAt, StringsAt, Joined, ArgBytes;
  }

  /** In the image argv[i] points to a terminated copy of argument i, and the last ends at the limit. */
  lemma ImageStrings(m: seq<Byte>, args: seq<CString>, i: nat)
    requires |m| == VMEM_1_LIMIT - VMEM_1_BASE && IsImage(m, args) && i < |args|
    ensures var b := At(BlockAt(args));
      && b + WORD * (|args| + 3) <= |m|
      && var p := WordAt(m, b + WORD + WORD * i);
      && BlockAt(args) + WORD * (|args| + 3) <= p <= p + |args[i]| < VMEM_1_LIMIT
      && m[At(p)..At(p) + |args[i]|] == args[i] && m[At(p) + |args[i]|] == 0
      && (i + 1 == |args| ==> p + |args[i]| + 1 == VMEM_1_LIMIT)
      && (i + 1 < |args| ==> WordAt(m, b + WORD + WORD * (i + 1)) == p + |args[i]| + 1)
  {
    JoinedSplit(args, i);
    hide BlockAt, StringsAt, Joined, ArgBytes;
    assert args[..|args|] == args;
    var b, s0 := At(BlockAt(args)), At(StringsAt(args));
    var j, n := ArgBytes(args[..i]), |args[i]|;
    assert WordAt(m, b + WORD + WORD * i) == VMEM_1_BASE + s0 + j;
    StringInside(m, s0, Joined(args), j, args[i]);
  }

  lemma StringInside(m: seq<Byte>, s0: nat, all: seq<Byte>, j: nat, a: CString)
    requires s0 + |all| <= |m| && m[s0..s0 + |all|] == all
    requires j + |a| + 1 <= |all| && all[j..][..|a| + 1] == a + [0]
    ensures m[s0 + j..s0 + j + |a|] == a && m[s0 + j + |a|] == 0
  {
    var t := a + [0];
    forall k | 0 <= k < |t| ensures t[k] == m[s0 + j + k] {
      assert t[k] == all[j..][..|a| + 1][k] == m[s0..s0 + |all|][j + k];
    }
    assert t[|a|] == 0 && forall k :: 0 <= k < |a| ==> t[k] == a[k];
  }

  // ------------------------------------------------------------ building it

  lemma WordSplit(w: nat)
    requires w < ADDRESSES
    ensures w / 0x100_0000 < 0x100
    ensures w == w % 0x100 + 0x100 * (w / 0x100 % 0x100) + 0x1_0000 * (w / 0x1_0000 % 0x100)
                 + 0x100_0000 * (w / 0x100_0000)
  {
    var a, b := w / 0x100, w / 0x1_0000;
    assert w == 0x100 * a + w % 0x100;
    assert b == a / 0x100 && a == 0x100 * b + a % 0x100;
    assert w / 0x100_0000 == b / 0x100 && b == 0x100 * (b / 0x100) + b % 0x100;
  }

  /** *p = w for a 32-bit word */
  method StoreWord(m: array<Byte>, i: nat, w: nat)
    requires i + WORD <= m.Length && w < ADDRESSES
    modifies m
    ensures WordAt(m[..], i) == w
    ensures forall k :: 0 <= k < m.Length && !(i <= k < i + WORD) ==> m[k] == old(m[k])
  {
    WordSplit(w);
    m[i] := w % 0x100;
    m[i + 1] := w / 0x100 % 0x100;
    m[i + 2] := w / 0x1_0000 % 0x100;
    m[i + 3] := w / 0x100_0000;
  }

  /** strcpy of a terminated string; returns its length, as strlen of the copy does. */
  method StrCpy(dst: array<Byte>, at: nat, src: array<Byte>, from: nat, ghost s: CString) returns (n: nat)
    requires dst != src && at + |s| < dst.Length && from + |s| < src.Length
    requires src[from..from + |s|] == s && src[from + |s|] == 0
    modifies dst
    ensures n == |s| && dst[at..at + n] == s && dst[at + n] == 0
    ensures forall k :: 0 <= k < dst.Length && !(at <= k <= at + n) ==> dst[k] == old(dst[k])
  {
    n := 0;
    assert forall k :: 0 <= k < |s| ==> src[from..from + |s|][k] == s[k] && src[from + k] == s[k];
    while src[from + n] != 0
      invariant n <= |s|
      invariant forall k :: 0 <= k < n ==> dst[at + k] == s[k]
      invariant forall k :: 0 <= k < dst.Length && !(at <= k < at + n) ==> dst[k] == old(dst[k])
      decreases |s| - n
    {
      dst[at + n] := src[from + n];
      n := n + 1;
    }
    dst[at + n] := 0;
  }

  /** The loop of LoadProgram that counts the bytes of the arguments. */
  method CountBytes(args: seq<CString>) returns (size: nat)
    ensures size == ArgBytes(args)
  {
    size := 0;
    for i := 0 to |args|
      invariant size == ArgBytes(args[..i])
    {
      assert args[..i + 1] == args[..i] + [args[i]];
      JoinedAppend(args[..i], args[i]);
      size := size + |args[i]| + 1;
    }
    assert args[..|args|] == args;
  }

  /** The loop of LoadProgram that saves the arguments in region 0. */
  method SaveArguments(args: seq<CString>) returns (argbuf: array<Byte>)
    ensures fresh(argbuf) && argbuf[..] == Joined(args)
  {
    var size := CountBytes(args);
    assert args[..|args|] == args;
    argbuf := new Byte[size];
    var cp2 := 0;
    for i := 0 to |args|
      invariant cp2 == ArgBytes(args[..i]) <= size && argbuf[..cp2] == Joined(args[..i])
    {
      JoinedSplit(args, i);
      hide Joined, ArgBytes;
      var src := new Byte[|args[i]| + 1](k requires 0 <= k <= |args[i]| => if k < |args[i]| then args[i][k] else 0);
      ghost var before := argbuf[..cp2];
      var n := StrCpy(argbuf, cp2, src, 0, args[i]);
      assert argbuf[..cp2] == before;
      Extend(argbuf[..], 0, cp2, before, args[i]);
      cp2 := cp2 + n + 1;
    }
    assert argbuf[..size] == argbuf[..];
  }

  /** memset to zero */
  method Clear(m: array<Byte>, from: nat)
    requires from <= m.Length
    modifies m
    ensures forall k :: 0 <= k < m.Length ==> m[k] == if k < from then old(m[k]) else 0
  {
    for i := from to m.Length
      invariant forall k :: 0 <= k < m.Length ==> m[k] == if from <= k < i then 0 else old(m[k])
    {
      m[i] := 0;
    }
  }

  lemma PartialStep(m: seq<Byte>, args: seq<CString>, b: nat, s0: nat, i: nat, m': seq<Byte>)
    requires |m| == |m'| && i < |args| && Partial(m, args, b, s0, i)
    requires var w, p, n := b + WORD + WORD * i, s0 + ArgBytes(args[..i]), |args[i]|;
      && p + n < |m'| && WordAt(m', w) == VMEM_1_BASE + p
      && m'[p..p + n] == args[i] && m'[p + n] == 0
      && (forall k :: 0 <= k < |m| && !(w <= k < w + WORD) && !(p <= k <= p + n) ==> m'[k] == m[k])
    ensures Partial(m', args, b, s0, i + 1)
  {
    JoinedSplit(args, i);
    var p, n := s0 + ArgBytes(args[..i]), |args[i]|;
    PartialWords(m, args, b, s0, i, m');
    SameSlice(m, m', s0, p);
    hide Joined, ArgBytes, WordAt;
    Extend(m', s0, p, Joined(args[..i]), args[i]);
  }

  lemma PartialWords(m: seq<Byte>, args: seq<CString>, b: nat, s0: nat, i: nat, m': seq<Byte>)
    requires |m| == |m'| && i < |args| && Partial(m, args, b, s0, i)
    requires WordAt(m', b + WORD + WORD * i) == VMEM_1_BASE + s0 + ArgBytes(args[..i])
    requires forall k :: 0 <= k < s0 && !(b + WORD + WORD * i <= k < b + WORD + WORD * i + WORD) ==> m'[k] == m[k]
    ensures WordAt(m', b) == |args|
    ensures forall j :: 0 <= j <= i ==> WordAt(m', b + WORD + WORD * j) == VMEM_1_BASE + s0 + ArgBytes(args[..j])
  {
    hide Joined, ArgBytes;
    WordSame(m, m', b);
    forall j | 0 <= j < i
      ensures WordAt(m', b + WORD + WORD * j) == VMEM_1_BASE + s0 + ArgBytes(args[..j])
    {
      WordSame(m, m', b + WORD + WORD * j);
    }
  }

  lemma SameSlice(m: seq<Byte>, m': seq<Byte>, lo: nat, hi: nat)
    requires lo <= hi <= |m| == |m'| && forall k :: lo <= k < hi ==> m'[k] == m[k]
    ensures m'[lo..hi] == m[lo..hi]
  {
  }

  lemma Extend(m: seq<Byte>, s0: nat, p: nat, done: seq<Byte>, a: CString)
    requires s0 <= p && p + |a| < |m| && m[s0..p] == done && m[p..p + |a|] == a && m[p + |a|] == 0
    ensures m[s0..p + |a| + 1] == done + a + [0]
  {
    assert m[s0..p + |a| + 1] == m[s0..p] + m[p..p + |a|] + [m[p + |a|]];
  }

  /** One round of the copying loop: the pointer word, then the string. */
  method PutArgument(m: array<Byte>, args: seq<CString>, argbuf: array<Byte>, ghost b: nat, ghost s0: nat,
                     i: nat, cpp: nat, cp: nat, cp2: nat)
    returns (n: nat)
    requires i < |args| && m != argbuf && Partial(m[..], args, b, s0, i)
    requires VMEM_1_BASE + m.Length < ADDRESSES && argbuf[..] == Joined(args)
    requires cpp == b + WORD + WORD * i && cp == s0 + cp2 && cp2 == ArgBytes(args[..i])
    modifies m
    ensures n == |args[i]| && Partial(m[..], args, b, s0, i + 1)
    ensures forall k :: 0 <= k < b ==> m[k] == old(m[k])
  {
    PartialRoom(m[..], args, b, s0, i);
    hide Joined, ArgBytes, Partial, WordAt;
    StoreWord(m, cpp, VMEM_1_BASE + cp);
    ghost var stored := m[..];
    assert argbuf[cp2..cp2 + |args[i]|] == argbuf[..][cp2..cp2 + |args[i]|];
    n := StrCpy(m, cp, argbuf, cp2, args[i]);
    WordSame(stored, m[..], cpp);
    PartialStep(old(m[..]), args, b, s0, i, m[..]);
  }

  /** Where the next pointer word and the next string go, and what is copied there. */
  lemma PartialRoom(m: seq<Byte>, args: seq<CString>, b: nat, s0: nat, i: nat)
    requires i < |args| && Partial(m, args, b, s0, i)
    ensures var cp2, n := ArgBytes(args[..i]), |args[i]|;
      && b + WORD + WORD * i + WORD <= s0 && s0 + cp2 + n < |m| && cp2 + n < |Joined(args)|
      && Joined(args)[cp2..cp2 + n] == args[i] && Joined(args)[cp2 + n] == 0
  {
    JoinedSplit(args, i);
    hide Joined, ArgBytes;
    var all := Joined(args);
    assert all[0..0 + |all|] == all;
    StringInside(all, 0, all, ArgBytes(args[..i]), args[i]);
  }

  lemma PartialStart(m: seq<Byte>, args: seq<CString>, b: nat, s0: nat)
    requires b + WORD * (|args| + 3 + POST_ARGV_NULL_SPACE) <= s0 && s0 + ArgBytes(args) == |m|
    requires WordAt(m, b) == |args| && forall k :: b + WORD <= k < s0 ==> m[k] == 0
    ensures Partial(m, args, b, s0, 0)
  {
    assert args[..0] == [];
  }

  /** The block, at given indices of Region 1: clearing, argc, the copying loop, the null pointers. */
  method PutBlock(m: array<Byte>, args: seq<CString>, argbuf: array<Byte>, b: nat, s0: nat)
    requires m != argbuf && VMEM_1_BASE + m.Length < ADDRESSES && argbuf[..] == Joined(args)
    requires b + WORD * (|args| + 3 + POST_ARGV_NULL_SPACE) <= s0 && s0 + ArgBytes(args) == m.Length
    modifies m
    ensures Partial(m[..], args, b, s0, |args|)
    ensures forall k :: 0 <= k < b ==> m[k] == old(m[k])
  {
    Clear(m, b);
    StoreWord(m, b, |args|);
    PartialStart(m[..], args, b, s0);
    hide Partial, Joined;
    var cpp := PutArguments(m, args, argbuf, b, s0);
    PutNulls(m, args, b, s0, cpp);
  }

  /** The loop that copies each argument and sets argv. */
  method PutArguments(m: array<Byte>, args: seq<CString>, argbuf: array<Byte>, b: nat, s0: nat) returns (cpp: nat)
    requires m != argbuf && VMEM_1_BASE + m.Length < ADDRESSES && argbuf[..] == Joined(args)
    requires Partial(m[..], args, b, s0, 0)
    modifies m
    ensures cpp == b + WORD + WORD * |args| && Partial(m[..], args, b, s0, |args|)
    ensures forall k :: 0 <= k < b ==> m[k] == old(m[k])
  {
    var cp, cp2 := s0, 0;
    cpp := b + WORD;
    assert args[..0] == [];
    hide Partial, Joined;
    for i := 0 to |args|
      invariant cpp == b + WORD + WORD * i
      invariant cp == s0 + cp2 && cp2 == ArgBytes(args[..i])
      invariant Partial(m[..], args, b, s0, i)
      invariant forall k :: 0 <= k < b ==> m[k] == old(m[k])
    {
      JoinedSplit(args, i);
      var n := PutArgument(m, args, argbuf, b, s0, i, cpp, cp, cp2);
      cpp := cpp + WORD;
      cp := cp + n + 1;
      cp2 := cp2 + n + 1;
    }
  }

  /** The null pointers that end argv and envp. */
  method PutNulls(m: array<Byte>, args: seq<CString>, ghost b: nat, ghost s0: nat, cpp: nat)
    requires Partial(m[..], args, b, s0, |args|) && cpp == b + WORD + WORD * |args|
    modifies m
    ensures Partial(m[..], args, b, s0, |args|)
    ensures forall k :: 0 <= k < b ==> m[k] == old(m[k])
  {
    assert cpp + 2 * WORD <= s0 <= m.Length;
    hide Partial, ArgBytes, Joined;
    ghost var done := m[..];
    StoreWord(m, cpp, 0);
    ghost var once := m[..];
    StoreWord(m, cpp + WORD, 0);
    WordSame(once, m[..], cpp);
    hide WordAt;
    NullsKeep(done, args, b, s0, m[..]);
  }

  /** Storing the two null pointers changes nothing: the block was cleared before. */
  lemma NullsKeep(m: seq<Byte>, args: seq<CString>, b: nat, s0: nat, m': seq<Byte>)
    requires |m'| == |m| && Partial(m, args, b, s0, |args|)
    requires var w := b + WORD + WORD * |args|;
      && WordAt(m', w) == 0 && WordAt(m', w + WORD) == 0
      && forall k :: 0 <= k < |m| && !(w <= k < w + 2 * WORD) ==> m'[k] == m[k]
    ensures Partial(m', args, b, s0, |args|)
  {
    assert m' == m;
  }

  /** LoadProgram's argument block: region 1 above sp, inside the stack pages, holds the image. */
  method BuildArguments(region1: array<Byte>, args: seq<CString>, argbuf: array<Byte>) returns (sp: nat)
    requires region1.Length == VMEM_1_LIMIT - VMEM_1_BASE && region1 != argbuf
    requires StackPages(args) < MAX_PT_LEN && argbuf[..] == Joined(args)
    modifies region1
    ensures sp == StackPointer(args) && sp % 8 == 0
    ensures VMEM_1_LIMIT - StackPages(args) * PAGESIZE <= sp < VMEM_1_LIMIT
    ensures IsImage(region1[..], args)
    ensures forall k :: 0 <= k < At(sp) ==> region1[k] == old(region1[k])
  {
    StackPagesCover(args);
    var cp := StringsAt(args);
    var cpp := BlockAt(args);
    sp := cpp - INITIAL_STACK_FRAME_SIZE;
    PutBlock(region1, args, argbuf, At(cpp), At(cp));
  }
}
