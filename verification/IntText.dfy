/**
 * The text of an integer conversion in positional notation, and that format_int prints exactly it:
 * which characters the digits are, how many there are, where the marks stand, and how the field is filled.
 */
module IntText {
  import opened PrintInt

  // ------------------------------------------------------------ positional notation

  function Pow(base: nat, n: nat): nat {
    if n == 0 then 1 else base * Pow(base, n - 1)
  }

  lemma PowPositive(base: nat, n: nat)
    requires base >= 1
    ensures Pow(base, n) >= 1
  {
    if n > 0 {
      PowPositive(base, n - 1);
      MulNat(base - 1, Pow(base, n - 1));
      assert base * Pow(base, n - 1) == Pow(base, n - 1) + (base - 1) * Pow(base, n - 1);
    }
  }

  /** Digit i, counted from the right. */
  function DigitOf(v: nat, base: nat, i: nat): (d: nat)
    requires base >= 2
    ensures d < base
  {
    PowPositive(base, i);
    DivNat(v, Pow(base, i));
    v / Pow(base, i) % base
  }

  /** The digits of C: 0 to 9, then A to F or a to f. */
  function Glyph(d: nat, upper: bool): char
    requires d < 16
  {
    (if d < 10 then '0' as int + d else (if upper then 'A' else 'a') as int + d - 10) as char
  }

  /** The n low digits of v, most significant first. */
  function Positional(v: nat, base: nat, upper: bool, n: nat): (s: string)
    requires 2 <= base <= 16
    ensures |s| == n
  {
    seq(n, i requires 0 <= i < n => Glyph(DigitOf(v, base, n - 1 - i), upper))
  }

  lemma GlyphIs(d: nat, upper: bool)
    requires d < 16
    ensures DigitChar(d, upper) == Glyph(d, upper)
  {
  }

  lemma DivDiv(v: nat, b: nat, p: nat)
    requires b > 0 && p > 0
    ensures b * p > 0 && v / b / p == v / (b * p)
  {
    MulNat(p - 1, b);
    assert b * p == b + (p - 1) * b;
    var q, r := v / b, v % b;
    DivNat(v, b);
    var q', r' := q / p, q % p;
    assert v == q * b + r && q == q' * p + r';
    assert q * b == q' * p * b + r' * b;
    assert q' * p * b == q' * (b * p);
    MulNat(r', b);
    MulNat(p - 1 - r', b);
    assert (p - 1 - r') * b == p * b - b - r' * b;
    DivUnique(v, b * p, q', r' * b + r);
  }

  lemma DigitOfQuot(v: nat, base: nat, i: nat)
    requires base >= 2
    ensures DigitOf(v, base, i + 1) == DigitOf(Quot(v, base), base, i)
    ensures DigitOf(v, base, 0) == Rem(v, base)
  {
    PowPositive(base, i);
    DivDiv(v, base, Pow(base, i));
    assert Pow(base, 0) == 1 && v / 1 == v;
  }

  /** The digits that are printed are the ones of positional notation. */
  lemma {:induction false} DigitsPositional(v: nat, base: nat, upper: bool, n: nat)
    requires 2 <= base <= 16
    ensures Digits(v, base, upper, n) == Positional(v, base, upper, n)
  {
    if n > 0 {
      var q := Quot(v, base);
      DigitsPositional(q, base, upper, n - 1);
      var s, p := Digits(v, base, upper, n), Positional(v, base, upper, n);
      forall i | 0 <= i < n ensures s[i] == p[i] {
        if i < n - 1 {
          DigitOfQuot(v, base, n - 2 - i);
          assert s[i] == Digits(q, base, upper, n - 1)[i] == Positional(q, base, upper, n - 1)[i];
        } else {
          DigitOfQuot(v, base, 0);
          GlyphIs(Rem(v, base), upper);
        }
      }
    }
  }

  // ------------------------------------------------------------ how many digits a number has

  lemma PowGrows(base: nat, n: nat)
    requires base >= 2
    ensures Pow(base, n) < Pow(base, n + 1)
  {
    PowPositive(base, n);
    MulNat(base - 2, Pow(base, n));
    assert base * Pow(base, n) == 2 * Pow(base, n) + (base - 2) * Pow(base, n);
  }

  /** The least number of digits, at least n, that v fits into. */
  function LeastFrom(v: nat, base: nat, n: nat): nat
    requires base >= 2
    decreases if v < Pow(base, n) then 0 else v - Pow(base, n) + 1
  {
    PowGrows(base, n);
    if v < Pow(base, n) then n else LeastFrom(v, base, n + 1)
  }

  /** Zero needs none. */
  function Least(v: nat, base: nat): nat
    requires base >= 2
  {
    LeastFrom(v, base, 0)
  }

  lemma LessByQuot(v: nat, base: nat, p: nat)
    requires base >= 2 && p >= 1
    ensures v < base * p <==> Quot(v, base) < p
  {
    var q, r := v / base, v % base;
    assert v == q * base + r;
    if q < p {
      MulNat(p - 1 - q, base);
      assert (p - 1 - q) * base == p * base - base - q * base;
    } else {
      MulNat(q - p, base);
      assert (q - p) * base == q * base - p * base;
    }
  }

  lemma {:induction false} CountExact(v: nat, base: nat, n: nat)
    requires base >= 2
    ensures v < Pow(base, n) <==> n >= DigitCount(v, base)
    decreases n
  {
    if v > 0 && n > 0 {
      CountExact(Quot(v, base), base, n - 1);
      PowPositive(base, n - 1);
      LessByQuot(v, base, Pow(base, n - 1));
    } else if n > 0 {
      PowPositive(base, n);
    }
  }

  lemma {:induction false} LeastFromIs(v: nat, base: nat, n: nat)
    requires base >= 2 && n <= DigitCount(v, base)
    ensures LeastFrom(v, base, n) == DigitCount(v, base)
    decreases DigitCount(v, base) - n
  {
    CountExact(v, base, n);
    if n < DigitCount(v, base) {
      LeastFromIs(v, base, n + 1);
    }
  }

  // ------------------------------------------------------------ marks

  /** Digits with an underscore after every t of them, counted from the right, but none in front. */
  function Grouped(s: string, t: nat): (r: string)
    requires t > 0
  {
    if s == "" then ""
    else
      DivNat(|s| - 1, t);
      var n := |s| + (|s| - 1) / t;
      seq(n, i requires 0 <= i < n => GroupedAt(s, t, n - 1 - i))
  }

  /** The character at index j from the right: j / (t + 1) marks stand behind it. */
  function GroupedAt(s: string, t: nat, j: nat): char
    requires t > 0
  {
    if j % (t + 1) == t then '_'
    else
      var k := |s| - 1 - (j - j / (t + 1));
      if 0 <= k < |s| then s[k] else '_'
  }

  lemma {:induction false} TickedFromAt(s: string, t: nat, k: nat, j: nat)
    requires t > 0 && k <= t && j < |TickedFrom(s, t, k)|
    ensures var r, o := TickedFrom(s, t, k), j + t - k;
      && (o % (t + 1) == t ==> r[|r| - 1 - j] == '_')
      && (o % (t + 1) != t ==> 0 <= j - o / (t + 1) < |s| && r[|r| - 1 - j] == s[|s| - 1 - (j - o / (t + 1))])
    decreases |s|
  {
    var r, last, rest := TickedFrom(s, t, k), s[|s| - 1], s[..|s| - 1];
    if k == 0 {
      var r0 := TickedFrom(rest, t, t - 1);
      assert r == r0 + [last] + "_";
      if j == 0 {
        DivSmall(t, t + 1);
      } else {
        DivStep(j - 1, t + 1);
        if j == 1 {
          DivSmall(0, t + 1);
        } else {
          TickedFromAt(rest, t, t - 1, j - 2);
          assert r[|r| - 1 - j] == r0[|r0| - 1 - (j - 2)];
          assert j - 2 + t - (t - 1) == j - 1;
        }
      }
    } else {
      var r0 := TickedFrom(rest, t, k - 1);
      assert r == r0 + [last];
      if j == 0 {
        DivSmall(t - k, t + 1);
      } else {
        TickedFromAt(rest, t, k - 1, j - 1);
        assert r[|r| - 1 - j] == r0[|r0| - 1 - (j - 1)];
        assert j - 1 + t - (k - 1) == j + t - k;
      }
    }
  }

  lemma TickedIsGrouped(s: string, t: nat)
    requires t > 0
    ensures Ticked(s, t) == Grouped(s, t)
  {
    if s != "" {
      TickedLength(s, t);
      var r, g := Ticked(s, t), Grouped(s, t);
      hide TickedFrom, Marks;
      assert |r| == |g|;
      forall i | 0 <= i < |r| ensures r[i] == g[i] {
        var j := |r| - 1 - i;
        TickedFromAt(s, t, t, j);
        assert j + t - t == j && |r| - 1 - j == i;
        assert g[i] == GroupedAt(s, t, j);
      }
    }
  }

  // ------------------------------------------------------------ the whole conversion

  /** The value that a conversion shows: signed conversions read 64 bits in two's complement. */
  function Reading(val: nat, signed: bool): int {
    if signed && val >= 0x8000_0000_0000_0000 then val - 0x1_0000_0000_0000_0000 else val
  }

  function Abs(v: int): nat {
    if v < 0 then -v else v
  }

  /** Digits shown: what the number needs, one for zero, the precision, and with # on octal one more than needed. */
  function Shown(v: nat, f: Flags, base: nat, prec: int): (n: nat)
    requires base >= 2
    ensures n >= 1
  {
    var needed := Least(v, base);
    var least := if f.hash && base == 8 then needed + 1 else if needed == 0 then 1 else needed;
    if prec > least then prec else least
  }

  /** Sign, prefix and digits in a field, padded with spaces or, behind the prefix, with zeros. */
  function Layout(sign: string, prefix: string, digits: string, width: int, minus: bool, zero: bool): string {
    var core := |sign| + |prefix| + |digits|;
    var pad := if width > core then width - core else 0;
    if minus then sign + prefix + digits + Repeat(' ', pad)
    else if zero then sign + prefix + Repeat('0', pad) + digits
    else Repeat(' ', pad) + sign + prefix + digits
  }

  function SignText(v: int, f: Flags): string {
    if v < 0 then "-" else if f.plus then "+" else if f.space then " " else ""
  }

  function PrefixText(f: Flags, base: nat): string {
    if !f.hash || base != 16 then "" else if f.upper then "0X" else "0x"
  }

  /** Digits, in groups of four in base 16 and of three in the other bases when tick marks are asked for. */
  function NumberText(v: nat, f: Flags, base: nat, prec: int): string
    requires 2 <= base <= 16
  {
    var s := Positional(v, base, f.upper, Shown(v, f, base, prec));
    if !f.tick then s else Grouped(s, if base == 16 then 4 else 3)
  }

  /** Everything that an integer conversion of format_int prints. */
  function IntegerText(val: nat, f: Flags, base: nat, width: int, prec: int): string
    requires 2 <= base <= 16
  {
    var v := Reading(val, f.signed);
    Layout(SignText(v, f), PrefixText(f, base), NumberText(Abs(v), f, base, prec), width, f.minus, f.zero)
  }

  lemma CodeLayout(val: nat, f: Flags, base: nat, width: int, prec: int)
    requires val < UINTMAX_COUNT && 2 <= base <= 16
    ensures RenderInt(val, f, base, width, prec)
         == Layout(Sign(val, f), Prefix(f, base), Number(Magnitude(val, f), f, base, prec), width, f.minus, f.zero)
  {
    hide Sign, Prefix, Number, Magnitude;
    assert Repeat(' ', 0) == "" == Repeat('0', 0);
    var sign, prefix, number := Sign(val, f), Prefix(f, base), Number(Magnitude(val, f), f, base, prec);
    var pad := PadLength(val, f, base, width, prec);
    assert "" + sign == sign && sign + prefix + "" == sign + prefix;
    assert sign + prefix + number + "" == sign + prefix + number;
    assert sign + prefix + Repeat('0', pad) + number + "" == sign + prefix + Repeat('0', pad) + number;
    assert Repeat(' ', pad) + sign + prefix + number + "" == Repeat(' ', pad) + sign + prefix + number;
  }

  lemma ShownIs(v: nat, f: Flags, base: nat, prec: int)
    requires base >= 2
    ensures Shown(v, f, base, prec) == NumDigits(v, f, base, prec)
  {
    LeastFromIs(v, base, 0);
    hide LeastFrom;
  }

  lemma NumberIsText(v: nat, f: Flags, base: nat, prec: int)
    requires 2 <= base <= 16
    ensures Number(v, f, base, prec) == NumberText(v, f, base, prec)
  {
    ShownIs(v, f, base, prec);
    var n := NumDigits(v, f, base, prec);
    var d := Digits(v, base, f.upper, n);
    DigitsPositional(v, base, f.upper, n);
    hide Digits, NumDigits, Shown, Positional, TickedFrom, Grouped;
    if f.tick {
      TickedIsGrouped(d, if base == 16 then 4 else 3);
    } else {
      NoTicks(d, n, n);
    }
  }

  /** format_int prints this text, for every value, base, width, precision and set of flags. */
  lemma PrintsIntegerText(val: nat, f: Flags, base: nat, width: int, prec: int)
    requires val < UINTMAX_COUNT && 2 <= base <= 16
    ensures RenderInt(val, f, base, width, prec) == IntegerText(val, f, base, width, prec)
  {
    CodeLayout(val, f, base, width, prec);
    var v := Reading(val, f.signed);
    assert Magnitude(val, f) == Abs(v) && Sign(val, f) == SignText(v, f) && Prefix(f, base) == PrefixText(f, base);
    NumberIsText(Abs(v), f, base, prec);
    hide RenderInt, Number, NumberText, Layout, Magnitude, Sign, SignText, Prefix, PrefixText;
  }
}
