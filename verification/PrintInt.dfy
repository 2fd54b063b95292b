/** What format_int of etc/yuserlib/common/vsnprintf.c prints, as a string without any buffer. */
module PrintInt {

  const UINTMAX_COUNT: nat := 0x1_0000_0000_0000_0000
  const INTMAX_COUNT: nat := 0x8000_0000_0000_0000

  datatype Flags = Flags(zero: bool, minus: bool, plus: bool, tick: bool,
                         space: bool, hash: bool, signed: bool, upper: bool)

  const NO_FLAGS: Flags := Flags(false, false, false, false, false, false, false, false)

  predicate IsBase(base: int) {
    base == 8 || base == 10 || base == 16
  }

  function Repeat(c: char, n: nat): (s: string)
    ensures |s| == n && forall i :: 0 <= i < n ==> s[i] == c
  {
    seq(n, _ => c)
  }

  // ------------------------------------------------------------ digits

  function DigitChar(d: nat, upper: bool): char
    requires d < 16
  {
    if upper then "0123456789ABCDEF"[d] else "0123456789abcdef"[d]
  }

  /** v / base and v % base */
  function Quot(v: nat, base: nat): (q: nat)
    requires base >= 2
    ensures v > 0 ==> q < v
  {
    QuotSmaller(v, base);
    v / base
  }

  lemma QuotSmaller(v: nat, base: nat)
    requires base >= 2
    ensures 0 <= v / base && (v > 0 ==> v / base < v)
  {
    var q := v / base;
    assert v == q * base + v % base;
    assert q * base == 2 * q + q * (base - 2);
    MulNat(q, base - 2);
  }

  lemma MulNat(a: int, b: int)
    requires b >= 0
    ensures a >= 0 ==> a * b >= 0
    ensures a < 0 ==> a * b <= 0
  {
  }

  function Rem(v: nat, base: nat): (r: nat)
    requires base >= 2
    ensures r < base
  {
    v % base
  }

  /** The number of digits of v; zero has none. */
  function DigitCount(v: nat, base: nat): nat
    requires base >= 2
  {
    if v == 0 then 0 else 1 + DigitCount(Quot(v, base), base)
  }

  /** The n low digits of v, most significant first. */
  function Digits(v: nat, base: nat, upper: bool, n: nat): (s: string)
    requires 2 <= base <= 16
    ensures |s| == n
  {
    if n == 0 then "" else Digits(Quot(v, base), base, upper, n - 1) + [DigitChar(Rem(v, base), upper)]
  }

  // ------------------------------------------------------------ tick marks

  /** Digits s with tick marks every t digits from the right, k digits before the next mark. */
  function TickedFrom(s: string, t: nat, k: nat): string
    requires t > 0
  {
    if s == "" then ""
    else if k == 0 then TickedFrom(s[..|s| - 1], t, t - 1) + [s[|s| - 1]] + "_"
    else TickedFrom(s[..|s| - 1], t, k - 1) + [s[|s| - 1]]
  }

  function Ticked(s: string, t: nat): string
    requires t > 0
  {
    TickedFrom(s, t, t)
  }

  function DropTicks(s: string): string {
    if s == "" then "" else DropTicks(s[..|s| - 1]) + (if s[|s| - 1] == '_' then "" else [s[|s| - 1]])
  }

  lemma DropLast(s: string, c: char)
    ensures DropTicks(s + [c]) == DropTicks(s) + (if c == '_' then "" else [c])
  {
    assert (s + [c])[..|s|] == s;
  }

  lemma MulAtLeast(d: int, t: int)
    requires d >= 1 && t > 0
    ensures d * t >= t
  {
  }

  lemma NoMultiple(d: int, t: int)
    requires t > 0 && -t < d * t < t
    ensures d == 0
  {
    if d >= 1 {
      MulAtLeast(d, t);
    } else if d <= -1 {
      MulAtLeast(-d, t);
    }
  }

  lemma DivUnique(n: int, t: int, q: int, r: int)
    requires t > 0 && n == q * t + r && 0 <= r < t
    ensures n / t == q && n % t == r
  {
    var q', r' := n / t, n % t;
    assert n == q' * t + r';
    assert (q' - q) * t == q' * t - q * t;
    NoMultiple(q' - q, t);
  }

  lemma DivStep(n: nat, t: nat)
    requires t > 0
    ensures (n + t) / t == n / t + 1 && (n + t) % t == n % t
  {
    DivUnique(n + t, t, n / t + 1, n % t) by {
      assert n == (n / t) * t + n % t;
      assert (n / t + 1) * t == (n / t) * t + t;
    }
  }

  lemma DivSmall(n: nat, t: nat)
    requires n < t
    ensures n / t == 0 && n % t == n
  {
    DivUnique(n, t, 0, n);
  }

  /** Length of the ticked rest: one mark per full group still to come. */
  lemma {:induction false} TickedFromLength(s: string, t: nat, k: nat)
    requires t > 0 && k <= t
    ensures |TickedFrom(s, t, k)| == |s| + (if |s| <= k then 0 else (|s| - k - 1) / t + 1)
  {
    if s != "" {
      TickedFromLength(s[..|s| - 1], t, if k == 0 then t - 1 else k - 1);
      if k == 0 {
        if |s| > t {
          DivStep(|s| - 1 - t, t);
        } else {
          DivSmall(|s| - 1, t);
        }
      }
    }
  }

  /** The C expression for the number of marks among n digits. */
  function Marks(n: nat, t: nat): nat
    requires n > 0 && t > 0
  {
    DivNat(n - 1, t);
    (n - 1) / t
  }

  lemma DivNat(a: nat, t: nat)
    requires t > 0
    ensures a / t >= 0
  {
  }

  /** One mark per full group that has digits to its left. */
  lemma TickedLength(s: string, t: nat)
    requires t > 0 && s != ""
    ensures |Ticked(s, t)| == |s| + Marks(|s|, t)
  {
    TickedFromLength(s, t, t);
    if |s| > t {
      DivStep(|s| - 1 - t, t);
    } else {
      DivSmall(|s| - 1, t);
    }
  }

  lemma {:induction false} TickedFromMarks(s: string, t: nat, k: nat, j: nat)
    requires t > 0 && k <= t && '_' !in s && j < |TickedFrom(s, t, k)|
    ensures var r := TickedFrom(s, t, k); r[|r| - 1 - j] == '_' <==> (j + t - k) % (t + 1) == t
    ensures TickedFrom(s, t, k)[0] != '_'
    decreases |s|
  {
    var r, last, rest := TickedFrom(s, t, k), s[|s| - 1], s[..|s| - 1];
    assert last != '_' && '_' !in rest;
    if k == 0 {
      var r0 := TickedFrom(rest, t, t - 1);
      assert r == r0 + [last] + "_";
      if rest != "" { TickedFromMarks(rest, t, t - 1, if j >= 2 then j - 2 else 0); }
      if j == 0 {
        DivSmall(t, t + 1);
      } else {
        DivStep(j - 1, t + 1);
        if j == 1 {
          DivSmall(0, t + 1);
        } else {
          assert r[|r| - 1 - j] == r0[|r0| - 1 - (j - 2)];
          assert j - 2 + t - (t - 1) == j - 1;
        }
      }
    } else {
      var r0 := TickedFrom(rest, t, k - 1);
      assert r == r0 + [last];
      if rest != "" { TickedFromMarks(rest, t, k - 1, if j >= 1 then j - 1 else 0); }
      if j == 0 {
        DivSmall(t - k, t + 1);
      } else {
        assert r[|r| - 1 - j] == r0[|r0| - 1 - (j - 1)];
        assert j - 1 + t - (k - 1) == j + t - k;
      }
    }
  }

  lemma {:induction false} DropTicksBack(s: string, t: nat, k: nat)
    requires t > 0 && '_' !in s
    ensures DropTicks(TickedFrom(s, t, k)) == s
  {
    if s != "" {
      var last, rest := s[|s| - 1], s[..|s| - 1];
      assert s == rest + [last] && last in s;
      DropTicksBack(rest, t, if k == 0 then t - 1 else k - 1);
      var r0 := TickedFrom(rest, t, if k == 0 then t - 1 else k - 1);
      DropLast(r0, last);
      if k == 0 {
        DropLast(r0 + [last], '_');
        assert r0 + [last] + "_" == r0 + [last] + ['_'];
      }
    }
  }

  lemma {:induction false} DigitsArePlain(v: nat, base: nat, upper: bool, n: nat)
    requires 2 <= base <= 16
    ensures '_' !in Digits(v, base, upper, n)
  {
    if n > 0 {
      DigitsArePlain(Quot(v, base), base, upper, n - 1);
    }
  }

  /** Without a tick flag the group is the whole number and there are no marks. */
  lemma {:induction false} NoTicks(s: string, t: nat, k: nat)
    requires t > 0 && k >= |s|
    ensures TickedFrom(s, t, k) == s
  {
    if s != "" {
      NoTicks(s[..|s| - 1], t, k - 1);
      assert s == s[..|s| - 1] + [s[|s| - 1]];
    }
  }

  // ------------------------------------------------------------ the whole conversion

  predicate IsNegative(val: nat, f: Flags) {
    f.signed && val >= INTMAX_COUNT
  }

  /** The number that is printed: negation modulo 2^64 for a negative value. */
  function Magnitude(val: nat, f: Flags): nat
    requires val < UINTMAX_COUNT
  {
    if IsNegative(val, f) then UINTMAX_COUNT - val else val
  }

  /** The precision in force: # on octal forces a leading zero. */
  function PrecisionFor(count: nat, f: Flags, base: nat, prec: int): int {
    if f.hash && base == 8 && prec < count + 1 then count + 1 else prec
  }

  /** Digits printed, without tick marks. */
  function NumDigits(v: nat, f: Flags, base: nat, prec: int): (n: nat)
    requires base >= 2
    ensures n >= 1 && n >= DigitCount(v, base) && n >= prec
  {
    var count := DigitCount(v, base);
    var p := PrecisionFor(count, f, base, prec);
    if count < p then p else if v == 0 then 1 else count
  }

  function TickSkip(f: Flags, base: nat, n: nat): nat {
    if f.tick then (if base == 16 then 4 else 3) else n
  }

  function Number(v: nat, f: Flags, base: nat, prec: int): string
    requires 2 <= base <= 16
  {
    var n := NumDigits(v, f, base, prec);
    Ticked(Digits(v, base, f.upper, n), TickSkip(f, base, n))
  }

  function Sign(val: nat, f: Flags): string {
    if IsNegative(val, f) then "-" else if f.plus then "+" else if f.space then " " else ""
  }

  function Prefix(f: Flags, base: nat): string {
    if f.hash && base == 16 then (if f.upper then "0X" else "0x") else ""
  }

  /** Sign, prefix and number: what the field width is compared with. */
  function CoreLength(val: nat, f: Flags, base: nat, prec: int): nat
    requires val < UINTMAX_COUNT && 2 <= base <= 16
  {
    |Sign(val, f)| + |Prefix(f, base)| + |Number(Magnitude(val, f), f, base, prec)|
  }

  function PadLength(val: nat, f: Flags, base: nat, width: int, prec: int): nat
    requires val < UINTMAX_COUNT && 2 <= base <= 16
  {
    var core := CoreLength(val, f, base, prec);
    if width > core then width - core else 0
  }

  function RenderInt(val: nat, f: Flags, base: nat, width: int, prec: int): string
    requires val < UINTMAX_COUNT && 2 <= base <= 16
  {
    var pad := PadLength(val, f, base, width, prec);
    (if !f.minus && !f.zero then Repeat(' ', pad) else "")
    + Sign(val, f) + Prefix(f, base)
    + (if !f.minus && f.zero then Repeat('0', pad) else "")
    + Number(Magnitude(val, f), f, base, prec)
    + (if f.minus then Repeat(' ', pad) else "")
  }

  /** The conversion in the order in which format_int emits it. */
  lemma RenderParts(val: nat, f: Flags, base: nat, width: int, prec: int)
    requires val < UINTMAX_COUNT && 2 <= base <= 16
    ensures var pad := PadLength(val, f, base, width, prec);
      RenderInt(val, f, base, width, prec)
      == (((if !f.minus && !f.zero then Repeat(' ', pad) else "")
           + (Sign(val, f) + Prefix(f, base)))
          + (if !f.minus && f.zero then Repeat('0', pad) else ""))
         + Number(Magnitude(val, f), f, base, prec)
         + (if f.minus then Repeat(' ', pad) else "")
  {
    hide Number, PadLength;
  }

  /** The length law: the field width or everything that has to be printed, whichever is more. */
  lemma RenderLength(val: nat, f: Flags, base: nat, width: int, prec: int)
    requires val < UINTMAX_COUNT && IsBase(base)
    ensures var v := Magnitude(val, f);
      var n := NumDigits(v, f, base, prec);
      var core := |Sign(val, f)| + |Prefix(f, base)| + n + Marks(n, TickSkip(f, base, n));
      |RenderInt(val, f, base, width, prec)| == if width > core then width else core
  {
    var v := Magnitude(val, f);
    var n := NumDigits(v, f, base, prec);
    TickedLength(Digits(v, base, f.upper, n), TickSkip(f, base, n));
    hide Digits, NumDigits, Ticked, Magnitude;
  }

  /** The character at index j from the right stands behind a whole number of groups of t digits and their marks. */
  predicate MarkDue(j: nat, t: nat) {
    j % (t + 1) == t
  }

  /**
   * The layout of a number: marks stand exactly after every skip digits from the right and
   * never first, and without them the digits, zero-padded to the precision, remain.
   */
  lemma NumberLayout(v: nat, f: Flags, base: nat, prec: int, j: nat)
    requires IsBase(base) && j < |Number(v, f, base, prec)|
    ensures var n := NumDigits(v, f, base, prec);
      var s, t := Number(v, f, base, prec), TickSkip(f, base, n);
      && (s[|s| - 1 - j] == '_' <==> MarkDue(j, t))
      && s[0] != '_'
      && DropTicks(s) == Digits(v, base, f.upper, n)
      && (!f.tick ==> s == Digits(v, base, f.upper, n))
  {
    NumberIs(v, f, base, prec);
    hide *;
    var n := NumDigits(v, f, base, prec);
    var d, t := Digits(v, base, f.upper, n), TickSkip(f, base, n);
    DigitsArePlain(v, base, f.upper, n);
    TickedLayout(d, t, j);
  }

  lemma TickedLayout(s: string, t: nat, j: nat)
    requires t > 0 && '_' !in s && j < |Ticked(s, t)|
    ensures var r := Ticked(s, t);
      && (r[|r| - 1 - j] == '_' <==> MarkDue(j, t))
      && r[0] != '_'
      && DropTicks(r) == s
      && (t == |s| ==> r == s)
  {
    TickedMarks(s, t, j);
    DropTicksBack(s, t, t);
    if t == |s| {
      NoTicks(s, t, t);
    }
  }

  lemma NumberIs(v: nat, f: Flags, base: nat, prec: int)
    requires IsBase(base)
    ensures 2 <= base <= 16
    ensures var n := NumDigits(v, f, base, prec);
      var d, t := Digits(v, base, f.upper, n), TickSkip(f, base, n);
      && t > 0 && |d| == n && Number(v, f, base, prec) == Ticked(d, t)
      && (!f.tick ==> t == n)
  {
    hide NumDigits, Digits, TickedFrom;
  }

  lemma TickedMarks(s: string, t: nat, j: nat)
    requires t > 0 && '_' !in s && j < |Ticked(s, t)|
    ensures var r := Ticked(s, t); (r[|r| - 1 - j] == '_' <==> MarkDue(j, t)) && r[0] != '_'
  {
    TickedFromMarks(s, t, t, j);
    assert j + t - t == j;
  }
}
