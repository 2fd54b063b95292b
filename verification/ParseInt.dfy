/**
 * The integer parser of etc/yuserlib/common/strntoumax.c and the scan_int branch of vsscanf.c.
 * A char stands for a byte.
 */
module ParseInt {
  import opened PrintInt
  import opened Printf

  const UINT_MAX: nat := 0xFFFF_FFFF
  const RANK_PTR: int := 0x7FFF_FFFF

  /** The space class of ctypes.c: it includes backspace and the no-break space of ISO 8859-1. */
  predicate IsSpace(ch: char) {
    8 <= ch as int <= 13 || ch == ' ' || ch as int == 160
  }

  function DigitVal(ch: char): (d: int)
    ensures -1 <= d < 36
  {
    if '0' <= ch <= '9' then ch as int - '0' as int
    else if 'A' <= ch <= 'Z' then ch as int - 'A' as int + 10
    else if 'a' <= ch <= 'z' then ch as int - 'a' as int + 10
    else -1
  }

  predicate IsDigitOf(ch: char, base: int) {
    0 <= DigitVal(ch) < base
  }

  predicate IsX(ch: char) {
    ch == 'x' || ch == 'X'
  }

  // ------------------------------------------------------------ what a text stands for

  predicate AllSpace(s: string) {
    forall i :: 0 <= i < |s| ==> IsSpace(s[i])
  }

  predicate AllDigits(s: string, base: int) {
    forall i :: 0 <= i < |s| ==> IsDigitOf(s[i], base)
  }

  /** The number that digits in a base stand for, without any bound. */
  function Value(s: string, base: nat): nat
    requires AllDigits(s, base)
  {
    if s == "" then 0 else Value(s[..|s| - 1], base) * base + DigitVal(s[|s| - 1])
  }

  /** A magnitude with its sign, modulo 2^64. */
  function SignedValue(minus: bool, v: int): (r: nat)
    ensures r < UINTMAX_COUNT
  {
    if minus then -v % UINTMAX_COUNT else v % UINTMAX_COUNT
  }

  function SpaceEnd(t: string, i: nat): (e: nat)
    requires i <= |t|
    ensures i <= e <= |t| && AllSpace(t[i..e]) && (e < |t| ==> !IsSpace(t[e]))
    decreases |t| - i
  {
    if i < |t| && IsSpace(t[i]) then
      var e := SpaceEnd(t, i + 1);
      assert t[i..e] == [t[i]] + t[i + 1..e];
      e
    else i
  }

  function DigitEnd(t: string, i: nat, base: int): (e: nat)
    requires i <= |t|
    ensures i <= e <= |t| && AllDigits(t[i..e], base) && (e < |t| ==> !IsDigitOf(t[e], base))
    decreases |t| - i
  {
    if i < |t| && IsDigitOf(t[i], base) then
      var e := DigitEnd(t, i + 1, base);
      assert t[i..e] == [t[i]] + t[i + 1..e];
      e
    else i
  }

  predicate IsSignAt(t: string, i: nat) {
    i < |t| && (t[i] == '-' || t[i] == '+')
  }

  predicate IsHexAt(t: string, i: nat) {
    i + 1 < |t| && t[i] == '0' && IsX(t[i + 1])
  }

  /** The base in force and the first digit, for text that starts after the sign. */
  function AfterPrefix(t: string, i: nat, base: nat): (r: (nat, nat))
    requires i <= |t|
    ensures i <= r.1 <= |t|
  {
    if base == 0 then
      if IsHexAt(t, i) then (16, i + 2)
      else if i < |t| && t[i] == '0' then (8, i + 1)
      else (10, i)
    else if base == 16 && IsHexAt(t, i) then (16, i + 2)
    else (base, i)
  }

  datatype Parsed = Parsed(value: nat, end: nat)

  /** Optional space, optional sign, optional prefix, digits as far as they go. */
  function Parse(t: string, base: nat): (p: Parsed)
    ensures p.end <= |t|
  {
    var i := SpaceEnd(t, 0);
    var j := if IsSignAt(t, i) then i + 1 else i;
    var (b, k) := AfterPrefix(t, j, base);
    var e := DigitEnd(t, k, b);
    Parsed(SignedValue(IsSignAt(t, i) && t[i] == '-', Value(t[k..e], b)), e)
  }

  lemma ParseOf(t: string, base: nat, i: nat, j: nat, b: nat, k: nat, e: nat)
    requires SpaceEnd(t, 0) == i && j == (if IsSignAt(t, i) then i + 1 else i)
    requires AfterPrefix(t, j, base) == (b, k) && DigitEnd(t, k, b) == e
    ensures Parse(t, base) == Parsed(SignedValue(IsSignAt(t, i) && t[i] == '-', Value(t[k..e], b)), e)
  {
    hide SpaceEnd, DigitEnd, AfterPrefix, Value, SignedValue, IsSignAt;
  }

  // ------------------------------------------------------------ strntoumax

  /** The text that strntoumax may read: n bytes, or less when a NUL comes first. */
  function Window(s: string, n: nat): string {
    if n <= |s| then s[..n] else s
  }

  lemma StepValue(s: string, k: nat, p: nat, base: nat, v: nat)
    requires k <= p < |s| && AllDigits(s[k..p], base) && IsDigitOf(s[p], base)
    requires v == Value(s[k..p], base) % UINTMAX_COUNT
    ensures AllDigits(s[k..p + 1], base)
    ensures (v * base + DigitVal(s[p])) % UINTMAX_COUNT == Value(s[k..p + 1], base) % UINTMAX_COUNT
  {
    assert s[k..p + 1] == s[k..p] + [s[p]];
    assert s[k..p + 1][..|s[k..p + 1]| - 1] == s[k..p];
    ModStep(Value(s[k..p], base), base, DigitVal(s[p]), UINTMAX_COUNT);
  }

  lemma ModStep(v: nat, b: nat, d: nat, m: nat)
    requires m > 0
    ensures ((v % m) * b + d) % m == (v * b + d) % m
  {
    var q := v / m;
    assert v == q * m + v % m;
    assert v * b + d == (v % m) * b + d + (q * b) * m by {
      assert v * b == (q * m + v % m) * b == q * m * b + (v % m) * b;
      assert q * m * b == (q * b) * m;
    }
    ModShift((v % m) * b + d, q * b, m);
  }

  lemma ModShift(a: int, k: int, m: int)
    requires m > 0
    ensures (a + k * m) % m == a % m
  {
    assert a == (a / m) * m + a % m;
    assert (a / m + k) * m == (a / m) * m + k * m;
    DivUnique(a + k * m, m, a / m + k, a % m);
  }

  /**
   * strntoumax reads inside n bytes and never past a NUL; the value wraps around
   * modulo 2^64, also under a minus sign.
   */
  method Strntoumax(s: string, base0: nat, n0: nat) returns (result: nat, end: nat)
    requires n0 <= |s| || '\0' in s
    ensures Parsed(result, end) == Parse(Window(s, n0), base0)
  {
    hide DigitEnd, Value, SignedValue;
    ghost var t := Window(s, n0);
    ghost var z :| n0 <= |s| || (0 <= z < |s| && s[z] == '\0');
    var nptr, n, base := 0, n0, base0;
    while n > 0 && IsSpace(s[nptr])
      invariant nptr + n == n0 && nptr <= |t| && (n0 > |s| ==> nptr <= z)
      invariant SpaceEnd(t, nptr) == SpaceEnd(t, 0)
    {
      nptr, n := nptr + 1, n - 1;
    }
    ghost var i := nptr;
    var minus := false;
    if n > 0 {
      var c := s[nptr];
      if c == '-' || c == '+' {
        minus := c == '-';
        nptr, n := nptr + 1, n - 1;
      }
    }
    ghost var j := nptr;
    base, nptr, n := SkipPrefix(s, nptr, n, base0, n0, z);
    ghost var k := nptr;
    hide AfterPrefix, SpaceEnd;
    var v;
    v, end := ReadDigits(s, nptr, n, base, n0, z);
    hide Parse, Window, IsSignAt, AllDigits;
    ParseOf(t, base0, i, j, base, k, end);
    result := if minus then (UINTMAX_COUNT - v) % UINTMAX_COUNT else v;
    Negation(minus, Value(t[k..end], base));
  }

  /** The base prefix. */
  method SkipPrefix(s: string, start: nat, left: nat, base0: nat, ghost n0: nat, ghost z: int)
    returns (base: nat, nptr: nat, n: nat)
    requires n0 <= |s| || (0 <= z < |s| && s[z] == '\0' && start <= z)
    requires start + left == n0 && start <= |Window(s, n0)|
    ensures AfterPrefix(Window(s, n0), start, base0) == (base, nptr)
    ensures nptr + n == n0 && nptr <= |Window(s, n0)| && (n0 > |s| ==> nptr <= z)
  {
    base, nptr, n := base0, start, left;
    if base == 0 {
      if n >= 2 && s[nptr] == '0' && (s[nptr + 1] == 'x' || s[nptr + 1] == 'X') {
        nptr, n, base := nptr + 2, n - 2, 16;
      } else if n >= 1 && s[nptr] == '0' {
        nptr, n, base := nptr + 1, n - 1, 8;
      } else {
        base := 10;
      }
    } else if base == 16 {
      if n >= 2 && s[nptr] == '0' && (s[nptr + 1] == 'x' || s[nptr + 1] == 'X') {
        nptr, n := nptr + 2, n - 2;
      }
    }
  }

  /** The digit loop. */
  method ReadDigits(s: string, start: nat, left: nat, base: nat, ghost n0: nat, ghost z: int)
    returns (v: nat, nptr: nat)
    requires n0 <= |s| || (0 <= z < |s| && s[z] == '\0' && start <= z)
    requires start + left == n0 && start <= |Window(s, n0)|
    ensures var t := Window(s, n0);
      && nptr == DigitEnd(t, start, base) && v == Value(t[start..nptr], base) % UINTMAX_COUNT
  {
    ghost var t := Window(s, n0);
    var n := left;
    v, nptr := 0, start;
    while n > 0 && IsDigitOf(s[nptr], base)
      invariant start <= nptr <= |t| && nptr + n == n0 && (n0 > |s| ==> nptr <= z)
      invariant DigitEnd(t, nptr, base) == DigitEnd(t, start, base)
      invariant AllDigits(t[start..nptr], base) && v == Value(t[start..nptr], base) % UINTMAX_COUNT
    {
      StepValue(t, start, nptr, base, v);
      v := (v * base + DigitVal(s[nptr])) % UINTMAX_COUNT;
      nptr, n := nptr + 1, n - 1;
    }
  }

  /** Unsigned negation of the wrapped magnitude. */
  lemma Negation(minus: bool, v: nat)
    ensures SignedValue(minus, v)
         == (if minus then (UINTMAX_COUNT - v % UINTMAX_COUNT) % UINTMAX_COUNT else v % UINTMAX_COUNT)
  {
  }

  // ------------------------------------------------------------ scan_int

  datatype Bail = BailNone | BailEof | BailErr

  datatype Scan = Scan(bail: Bail, q: nat, converted: nat, stored: seq<nat>)

  /** Values of the C type that a rank stores to; pointers have their own rank. */
  function StoredValues(rank: int): (n: nat)
    ensures n > 0
  {
    if rank == RANK_PTR then 0x1_0000_0000 else ValuesOf(rank)
  }

  /** One integer conversion of NUL-terminated text s; q counts the characters consumed. */
  function ScanOf(s: string, base: nat, width: nat, rank: int, splat: bool, converted: nat): Scan {
    var i := SpaceEnd(s, 0);
    if i == |s| || s[i] == '\0' then Scan(BailEof, i, converted, [])
    else
      var p := Parse(Window(s[i..], width), base);
      if p.end == 0 then Scan(BailErr, i, converted, [])
      else if splat then Scan(BailNone, i + p.end, converted, [])
      else Scan(BailNone, i + p.end, converted + 1, [p.value % StoredValues(rank)])
  }

  /** skipspace stops at the terminating NUL at the latest. */
  method Skipspace(s: string, ghost z: nat, p0: nat) returns (p: nat)
    requires p0 <= z < |s| && s[z] == '\0'
    ensures p0 <= p <= z && AllSpace(s[p0..p]) && !IsSpace(s[p])
  {
    p := p0;
    while IsSpace(s[p])
      invariant p0 <= p <= z && AllSpace(s[p0..p])
      decreases z - p
    {
      assert s[p0..p + 1] == s[p0..p] + [s[p]];
      p := p + 1;
    }
  }

  method ScanInt(s: string, base: nat, width: nat, rank: int, splat: bool, converted0: nat)
    returns (bail: Bail, q: nat, converted: nat, stored: seq<nat>)
    requires '\0' in s
    ensures Scan(bail, q, converted, stored) == ScanOf(s, base, width, rank, splat, converted0)
  {
    hide Parse, Window, StoredValues, SpaceEnd, AllSpace, IsSpace;
    ghost var z :| 0 <= z < |s| && s[z] == '\0';
    bail, converted, stored := BailNone, converted0, [];
    q := Skipspace(s, z, 0);
    SpaceEndIs(s, 0, q);
    if s[q] == '\0' {
      bail := BailEof;
      return;
    }
    assert s[q..][z - q] == '\0';
    var val, qq := Strntoumax(s[q..], base, width);
    if qq == 0 {
      bail := BailErr;
      return;
    }
    q := q + qq;
    if !splat {
      converted := converted + 1;
      stored := [val % StoredValues(rank)];
    }
  }

  // ------------------------------------------------------------ a text in its parts

  /** Text before the number, the number in its parts, and what follows. */
  datatype Numeral = Numeral(space: string, sign: string, prefix: string, digits: string, rest: string)

  function Whole(x: Numeral): string {
    x.space + (x.sign + (x.prefix + (x.digits + x.rest)))
  }

  /** What follows the digits is no digit, nor would it make a lone 0 the start of 0x. */
  predicate Ends(number: string, rest: string, base: nat, b: nat) {
    rest != "" ==> !IsDigitOf(rest[0], b) && !((base == 0 || base == 16) && number == "0" && IsX(rest[0]))
  }

  /** x is a numeral for strntoumax called with a base, its digits being in base b. */
  predicate IsNumeral(x: Numeral, base: nat, b: nat) {
    && AllSpace(x.space) && (x.sign == "" || x.sign == "+" || x.sign == "-")
    && AllDigits(x.digits, b) && Ends(x.prefix + x.digits, x.rest, base, b)
    && (x.prefix + x.digits != "")
    && (if base == 0 then
          || (b == 16 && (x.prefix == "0x" || x.prefix == "0X"))
          || (b == 8 && x.prefix == "0")
          || (b == 10 && x.prefix == "" && x.digits[0] != '0')
        else if base == 16 then b == 16 && (x.prefix == "" || x.prefix == "0x" || x.prefix == "0X")
        else b == base && x.prefix == "")
  }

  lemma SpaceEndIs(t: string, i: nat, e: nat)
    requires i <= e <= |t| && AllSpace(t[i..e]) && (e < |t| ==> !IsSpace(t[e]))
    ensures SpaceEnd(t, i) == e
    decreases e - i
  {
    if i < e {
      assert t[i] == t[i..e][0];
      assert t[i + 1..e] == t[i..e][1..];
      SpaceEndIs(t, i + 1, e);
    }
  }

  lemma DigitEndIs(t: string, i: nat, e: nat, base: int)
    requires i <= e <= |t| && AllDigits(t[i..e], base) && (e < |t| ==> !IsDigitOf(t[e], base))
    ensures DigitEnd(t, i, base) == e
    decreases e - i
  {
    if i < e {
      assert t[i] == t[i..e][0];
      assert t[i + 1..e] == t[i..e][1..];
      DigitEndIs(t, i + 1, e, base);
    }
  }

  /** A numeral is parsed to the value of its digits with its sign, up to the end of the digits. */
  lemma NumeralParses(x: Numeral, base: nat, b: nat)
    requires IsNumeral(x, base, b)
    ensures Parse(Whole(x), base)
         == Parsed(SignedValue(x.sign == "-", Value(x.digits, b)), |Whole(x)| - |x.rest|)
  {
    var i := |x.space|;
    var j := i + |x.sign|;
    var k := j + |x.prefix|;
    var e := k + |x.digits|;
    WholeParts(x, i, j, k, e);
    PartsParse(Whole(x), x, base, b, i, j, k, e);
  }

  /** The parts of x stand in t, with these boundaries. */
  ghost predicate InParts(t: string, x: Numeral, i: nat, j: nat, k: nat, e: nat) {
    && i <= j <= k <= e <= |t| && t[0..i] == x.space && t[i..j] == x.sign && t[j..k] == x.prefix
    && t[k..e] == x.digits && t[e..] == x.rest
  }

  lemma WholeParts(x: Numeral, i: nat, j: nat, k: nat, e: nat)
    requires i == |x.space| && j == i + |x.sign| && k == j + |x.prefix| && e == k + |x.digits|
    ensures InParts(Whole(x), x, i, j, k, e)
  {
  }

  lemma PartsParse(t: string, x: Numeral, base: nat, b: nat, i: nat, j: nat, k: nat, e: nat)
    requires IsNumeral(x, base, b) && InParts(t, x, i, j, k, e)
    ensures Parse(t, base) == Parsed(SignedValue(x.sign == "-", Value(x.digits, b)), |t| - |x.rest|)
  {
    PrefixIs(t, x, base, b, i, j, k, e);
    SignIs(t, x, base, b, i, j, k, e);
    SpaceEndIs(t, 0, i);
    assert e < |t| ==> t[e] == t[e..][0];
    DigitEndIs(t, k, e, b);
    hide *;
    assert e == |t| - |x.rest|;
    ParseOf(t, base, i, j, b, k, e);
  }

  lemma SignIs(t: string, x: Numeral, base: nat, b: nat, i: nat, j: nat, k: nat, e: nat)
    requires IsNumeral(x, base, b) && InParts(t, x, i, j, k, e)
    ensures i < |t| && !IsSpace(t[i]) && (IsSignAt(t, i) && t[i] == '-') == (x.sign == "-")
    ensures j == (if IsSignAt(t, i) then i + 1 else i)
  {
    PrefixIs(t, x, base, b, i, j, k, e);
    if i < j {
      assert t[i] == t[i..j][0];
    }
  }

  lemma PrefixIs(t: string, x: Numeral, base: nat, b: nat, i: nat, j: nat, k: nat, e: nat)
    requires IsNumeral(x, base, b) && InParts(t, x, i, j, k, e)
    ensures AfterPrefix(t, j, base) == (b, k)
    ensures !IsSignAt(t, j) && j < |t| && !IsSpace(t[j])
  {
    if j < k { assert t[j] == t[j..k][0]; }
    if j + 1 < k { assert t[j + 1] == t[j..k][1]; }
    if k < e { assert t[k] == t[k..e][0]; }
    if k + 1 < e { assert t[k + 1] == t[k..e][1]; }
    if e < |t| { assert t[e] == t[e..][0]; }
  }

  /** A numeral without its leading space, as far as a field width lets it through. */
  function Narrowed(x: Numeral, width: nat): Numeral
    requires |x.sign| + |x.prefix| + |x.digits| <= width
  {
    x.(space := "", rest := Window(x.rest, width - (|x.sign| + |x.prefix| + |x.digits|)))
  }

  lemma NarrowedWindow(x: Numeral, width: nat, base: nat, b: nat)
    requires IsNumeral(x, base, b) && |x.sign| + |x.prefix| + |x.digits| <= width
    ensures Window(Whole(x)[|x.space|..], width) == Whole(Narrowed(x, width))
    ensures IsNumeral(Narrowed(x, width), base, b)
  {
    var core, y := x.sign + (x.prefix + x.digits), Narrowed(x, width);
    CoreOfWhole(x, core);
    CoreOfWhole(y, core);
    WindowBehind(core, x.rest, width);
    assert y.rest != "" ==> y.rest[0] == x.rest[0];
  }

  lemma CoreOfWhole(x: Numeral, core: string)
    requires core == x.sign + (x.prefix + x.digits)
    ensures Whole(x)[|x.space|..] == core + x.rest
    ensures x.space == "" ==> Whole(x) == core + x.rest
  {
    assert x.sign + (x.prefix + (x.digits + x.rest)) == core + x.rest;
    assert Whole(x) == x.space + (core + x.rest);
  }

  lemma WindowBehind(core: string, rest: string, width: nat)
    requires |core| <= width
    ensures Window(core + rest, width) == core + Window(rest, width - |core|)
  {
  }

  /**
   * scan_int on a numeral whose number fits the field width: one conversion, the value
   * cut to the type of the rank, and everything up to the end of the digits consumed.
   */
  lemma NumeralScans(x: Numeral, base: nat, b: nat, width: nat, rank: int, converted: nat)
    requires IsNumeral(x, base, b) && |x.sign| + |x.prefix| + |x.digits| <= width
    ensures ScanOf(Whole(x), base, width, rank, false, converted)
         == Scan(BailNone, |Whole(x)| - |x.rest|, converted + 1,
                 [SignedValue(x.sign == "-", Value(x.digits, b)) % StoredValues(rank)])
  {
    var t, i := Whole(x), |x.space|;
    NarrowedWindow(x, width, base, b);
    NumeralParses(Narrowed(x, width), base, b);
    ScanStart(x, base, b);
    hide Value, SignedValue, StoredValues, IsSpace, AllSpace, AllDigits, Parse;
  }

  lemma ScanStart(x: Numeral, base: nat, b: nat)
    requires IsNumeral(x, base, b)
    ensures var i := |x.space|;
      SpaceEnd(Whole(x), 0) == i && i < |Whole(x)| && Whole(x)[i] != '\0'
  {
    var t, i := Whole(x), |x.space|;
    var j := i + |x.sign|;
    var k := j + |x.prefix|;
    WholeParts(x, i, j, k, k + |x.digits|);
    SignIs(t, x, base, b, i, j, k, k + |x.digits|);
    SpaceEndIs(t, 0, i);
    assert Whole(x)[i] == (x.sign + (x.prefix + x.digits))[0];
  }

  /** The part of t that a conversion looks at: from its first byte that is no space, within the field width. */
  function Field(t: string, width: nat): string {
    Window(t[SpaceEnd(t, 0)..], width)
  }

  predicate DigitAt(w: string, i: nat, base: nat) {
    i < |w| && IsDigitOf(w[i], base)
  }

  /** The base for the first digit: base 0 reads decimal unless a 0 comes first. */
  function FirstBase(base: nat): nat {
    if base == 0 then 10 else base
  }

  /** The conversion fails exactly when the field starts with neither a sign nor a digit. */
  lemma FailsExactly(t: string, base: nat, width: nat, rank: int, splat: bool, converted: nat)
    ensures var i, w := SpaceEnd(t, 0), Field(t, width);
      ScanOf(t, base, width, rank, splat, converted).bail == BailErr
      <==> i < |t| && t[i] != '\0' && !IsSignAt(w, 0) && !DigitAt(w, 0, FirstBase(base))
  {
    if SpaceEnd(t, 0) < |t| {
      FieldStart(t, width);
      EndsAtOnce(Field(t, width), base);
      hide Parse, SpaceEnd, Field, Window, AfterPrefix, FirstBase, DigitAt, IsSignAt, StoredValues;
    }
  }

  lemma EndsAtOnce(w: string, base: nat)
    requires SpaceEnd(w, 0) == 0
    ensures Parse(w, base).end == 0 <==> !IsSignAt(w, 0) && !DigitAt(w, 0, FirstBase(base))
    ensures Parse(w, base).end != 0 && DigitsRead(w, base) == 0 <==> Digitless(w, base)
  {
    hide Value, SignedValue;
  }

  lemma FieldStart(t: string, width: nat)
    requires SpaceEnd(t, 0) < |t|
    ensures SpaceEnd(Field(t, width), 0) == 0
  {
    var w := Field(t, width);
    assert w != "" ==> w[0] == t[SpaceEnd(t, 0)];
  }

  /** How many digits a conversion of field w reads, the 0 that stands for base 8 being one. */
  function DigitsRead(w: string, base: nat): nat {
    var j := if IsSignAt(w, 0) then 1 else 0;
    var (b, k) := AfterPrefix(w, j, base);
    DigitEnd(w, k, b) - k + (if base == 0 && b == 8 then 1 else 0)
  }

  /** A sign without a digit behind it, or 0x in base 16 or 0 without a hexadecimal digit behind it. */
  predicate Digitless(w: string, base: nat) {
    var j := if IsSignAt(w, 0) then 1 else 0;
    || (j == 1 && !DigitAt(w, 1, FirstBase(base)))
    || ((base == 0 || base == 16) && IsHexAt(w, j) && !DigitAt(w, j + 2, 16))
  }

  /** A conversion succeeds without having read a digit exactly for such fields. */
  lemma SucceedsDigitless(t: string, base: nat, width: nat, rank: int, splat: bool, converted: nat)
    ensures var i, w := SpaceEnd(t, 0), Field(t, width);
      (ScanOf(t, base, width, rank, splat, converted).bail == BailNone && DigitsRead(w, base) == 0)
      <==> i < |t| && t[i] != '\0' && Digitless(w, base)
  {
    if SpaceEnd(t, 0) < |t| {
      FieldStart(t, width);
      EndsAtOnce(Field(t, width), base);
      hide Parse, SpaceEnd, Field, Window, Digitless, DigitsRead, StoredValues;
    }
  }

  lemma LoneSign(rank: int, converted: nat)
    ensures ScanOf("-x\0", 10, UINT_MAX, rank, false, converted) == Scan(BailNone, 1, converted + 1, [0])
  {
    var t := "-x\0";
    assert t[0..] == t;
    assert SpaceEnd(t, 0) == 0 && Window(t[0..], UINT_MAX) == t;
    assert DigitEnd(t, 1, 10) == 1;
    assert t[1..1] == "";
  }

  lemma BarePrefix(rank: int, converted: nat)
    ensures ScanOf("0xg\0", 16, UINT_MAX, rank, false, converted) == Scan(BailNone, 2, converted + 1, [0])
  {
    var t := "0xg\0";
    assert t[0..] == t;
    assert SpaceEnd(t, 0) == 0 && Window(t[0..], UINT_MAX) == t;
    assert AfterPrefix(t, 0, 16) == (16, 2) && DigitEnd(t, 2, 16) == 2;
    assert t[2..2] == "";
  }
}
