/** The integer conversions of section 7.21.6.1 of ISO C11, and on which inputs format_int agrees with them. */
module IsoPrint {
  import opened PrintInt
  import opened IntText

  // ------------------------------------------------------------ the standard

  /** Only a signed conversion has a sign. */
  function StdSign(v: int, f: Flags): string {
    if !f.signed then ""
    else if v < 0 then "-"
    else if f.plus then "+"
    else if f.space then " "
    else ""
  }

  /** 0x stands before a nonzero number only. */
  function StdPrefix(v: nat, f: Flags, base: nat): string {
    if f.hash && base == 16 && v != 0 then (if f.upper then "0X" else "0x") else ""
  }

  /** At least as many digits as the precision, which is 1 when left out; # on octal makes the first one 0. */
  function StdCount(v: nat, f: Flags, base: nat, prec: int): nat
    requires base >= 2
  {
    var count, p := Least(v, base), if prec < 0 then 1 else prec;
    var n := if p > count then p else count;
    if f.hash && base == 8 && n == count then n + 1 else n
  }

  /** The conversion; a precision cancels the zero flag, and tick marks are unknown. */
  function StdInt(val: nat, f: Flags, base: nat, width: int, prec: int): string
    requires 2 <= base <= 16
  {
    var v := Reading(val, f.signed);
    Layout(StdSign(v, f), StdPrefix(Abs(v), f, base), StdDigits(Abs(v), f, base, prec),
           width, f.minus, f.zero && prec < 0)
  }

  function StdDigits(v: nat, f: Flags, base: nat, prec: int): string
    requires 2 <= base <= 16
  {
    Positional(v, base, f.upper, StdCount(v, f, base, prec))
  }

  // ------------------------------------------------------------ where the code agrees

  /** Sign, prefix and digits of the standard. */
  function Core(val: nat, f: Flags, base: nat, prec: int): nat
    requires 2 <= base <= 16
  {
    var v := Reading(val, f.signed);
    |StdSign(v, f)| + |StdPrefix(Abs(v), f, base)| + StdCount(Abs(v), f, base, prec)
  }

  /** The number is printed as the standard says: no tick mark, some digit expected, no 0x before zero. */
  predicate PlainNumber(v: nat, f: Flags, base: nat, prec: int)
    requires base >= 2
  {
    && (f.tick ==> StdCount(v, f, base, prec) <= if base == 16 then 4 else 3)
    && (v == 0 ==> !(f.hash && base == 16) && (prec == 0 ==> f.hash && base == 8))
  }

  /** The code gives an unsigned number a sign. */
  predicate StraySign(f: Flags) {
    !f.signed && (f.plus || f.space)
  }

  /**
   * The inputs on which the two agree. A precision does not cancel the code's zero flag, which shows when
   * there is padding; the stray space of an unsigned number is hidden when it falls into the padding.
   */
  predicate AsStandard(val: nat, f: Flags, base: nat, width: int, prec: int)
    requires 2 <= base <= 16
  {
    var core := Core(val, f, base, prec);
    && PlainNumber(Abs(Reading(val, f.signed)), f, base, prec)
    && if StraySign(f) then
         !f.plus && !f.minus && if f.zero then prec >= 0 && width == core + 1 else width > core
       else f.zero && !f.minus && prec >= 0 ==> width <= core
  }

  // ------------------------------------------------------------ characters

  /** Characters that tell the parts of a conversion apart. */
  predicate IsPlain(s: string) {
    forall i :: 0 <= i < |s| ==> s[i] != ' ' && s[i] != '+' && s[i] != '_'
  }

  lemma DigitsPlain(v: nat, base: nat, upper: bool, n: nat)
    requires 2 <= base <= 16
    ensures IsPlain(Positional(v, base, upper, n))
    ensures v == 0 ==> Positional(v, base, upper, n) == Repeat('0', n)
  {
    var s := Positional(v, base, upper, n);
    forall i | 0 <= i < n ensures s[i] != ' ' && s[i] != '+' && s[i] != '_' && (v == 0 ==> s[i] == '0') {
      GlyphPlain(DigitOf(v, base, n - 1 - i), upper);
      PowPositive(base, n - 1 - i);
      DivSmall(0, Pow(base, n - 1 - i));
      DivSmall(0, base);
    }
  }

  lemma GlyphPlain(d: nat, upper: bool)
    requires d < 16
    ensures var c := Glyph(d, upper); c != ' ' && c != '+' && c != '_' && (d == 0 ==> c == '0')
  {
  }

  /** A character other than padding stands in the field exactly if it stands in a part. */
  lemma InLayout(sign: string, prefix: string, digits: string, width: int, minus: bool, zero: bool, c: char)
    requires c != ' ' && c != '0'
    ensures c in Layout(sign, prefix, digits, width, minus, zero) <==> c in sign || c in prefix || c in digits
  {
    hide Repeat;
    var core := |sign| + |prefix| + |digits|;
    var pad := if width > core then width - core else 0;
    InFour(sign, prefix, digits, Repeat(' ', pad), c);
    InFour(sign, prefix, Repeat('0', pad), digits, c);
    InFour(Repeat(' ', pad), sign, prefix, digits, c);
  }

  lemma InFour(a: string, b: string, d: string, e: string, c: char)
    ensures c in a + b + d + e <==> c in a || c in b || c in d || c in e
  {
    assert c in a + b + d + e <==> c in a + b + d || c in e;
    assert c in a + b + d <==> c in a + b || c in d;
  }

  // ------------------------------------------------------------ padding

  predicate IsSign(s: string) {
    s == "" || s == "-" || s == "+" || s == " "
  }

  /** Where the sign ends a field padded with zeros has no space, one padded with spaces has. */
  lemma ZerosBehindSign(sign: string, prefix: string, digits: string, pad: nat)
    requires IsSign(sign) && IsPlain(prefix) && pad > 0
    ensures var s, i := sign + prefix + Repeat('0', pad) + digits, if sign == " " then 1 else 0;
      i < |s| && s[i] != ' '
  {
    var s, i := sign + prefix + Repeat('0', pad) + digits, if sign == " " then 1 else 0;
    assert i < |sign| ==> s[i] == sign[i];
    assert i == |sign| && prefix != "" ==> s[i] == prefix[0];
    assert i == |sign| && prefix == "" ==> s[i] == Repeat('0', pad)[0];
  }

  lemma SpacesBeforeSign(sign: string, rest: string, pad: nat)
    requires IsSign(sign) && pad > 0
    ensures var s, i := Repeat(' ', pad) + sign + rest, if sign == " " then 1 else 0;
      i < |s| && s[i] == ' '
  {
    var s, i := Repeat(' ', pad) + sign + rest, if sign == " " then 1 else 0;
    assert i < pad ==> s[i] == Repeat(' ', pad)[i];
    assert i == pad ==> s[i] == sign[0];
  }

  /** With equal parts only the padding can differ: zeros instead of spaces, if there is any padding. */
  lemma SamePartsExact(sign: string, prefix: string, digits: string, width: int, minus: bool, zero: bool, zero': bool)
    requires IsSign(sign) && IsPlain(prefix) && IsPlain(digits) && digits != "" && (zero' ==> zero)
    ensures Layout(sign, prefix, digits, width, minus, zero) == Layout(sign, prefix, digits, width, minus, zero')
       <==> (zero && !minus && !zero' ==> width <= |sign| + |prefix| + |digits|)
  {
    var core := |sign| + |prefix| + |digits|;
    if zero && !minus && !zero' {
      if width > core {
        ZerosBehindSign(sign, prefix, digits, width - core);
        SpacesBeforeSign(sign, prefix + digits, width - core);
        var pad := Repeat(' ', width - core);
        assert pad + sign + prefix + digits == pad + sign + (prefix + digits);
      } else {
        assert Repeat('0', 0) == "" == Repeat(' ', 0);
      }
      hide IsPlain, Repeat;
    }
  }

  /** A stray space before the number is hidden exactly when it stands for one space of padding. */
  lemma StraySpaceExact(prefix: string, digits: string, width: int, minus: bool, zero: bool, zero': bool)
    requires IsPlain(prefix) && IsPlain(digits) && digits != "" && (zero' ==> zero)
    ensures var core := |prefix| + |digits|;
      Layout(" ", prefix, digits, width, minus, zero) == Layout("", prefix, digits, width, minus, zero')
      <==> !minus && if zero then !zero' && width == core + 1 else width > core
  {
    var core := |prefix| + |digits|;
    var a, b := Layout(" ", prefix, digits, width, minus, zero), Layout("", prefix, digits, width, minus, zero');
    assert (prefix + digits)[0] != ' ';
    if width <= core {
      assert |a| == core + 1 && |b| == core;
    } else if minus || zero' {
      assert a[0] == ' ' && b[0] != ' ';
    } else if zero && width > core + 1 {
      assert a[1] != ' ' && b[1] == ' ';
    } else {
      assert Repeat(' ', width - core - 1) + " " == Repeat(' ', width - core);
      assert Repeat('0', 0) == "";
      assert Repeat(' ', width - core) + "" + prefix + digits == Repeat(' ', width - core) + prefix + digits;
      if zero {
        assert a == " " + prefix + digits;
      } else {
        assert a == Repeat(' ', width - core - 1) + " " + prefix + digits;
      }
    }
  }

  // ------------------------------------------------------------ the theorem

  lemma LeastZero(v: nat, base: nat)
    requires base >= 2
    ensures v == 0 <==> Least(v, base) == 0
  {
    LeastFromIs(v, base, 0);
    assert Pow(base, 0) == 1;
  }

  lemma FewUnmarked(s: string, t: nat)
    requires 0 < |s| <= t
    ensures Grouped(s, t) == s
  {
    DivSmall(|s| - 1, t);
    forall j | 0 <= j < |s| ensures GroupedAt(s, t, j) == s[|s| - 1 - j] {
      DivSmall(j, t + 1);
    }
  }

  /** A plain number has the digits and the prefix of the standard. */
  lemma PlainParts(v: nat, f: Flags, base: nat, prec: int)
    requires IsBase(base) && PlainNumber(v, f, base, prec)
    ensures NumberText(v, f, base, prec) == StdDigits(v, f, base, prec) != ""
    ensures PrefixText(f, base) == StdPrefix(v, f, base)
  {
    LeastZero(v, base);
    hide Positional, Least, Grouped;
    assert StdCount(v, f, base, prec) == Shown(v, f, base, prec);
    if f.tick {
      FewUnmarked(StdDigits(v, f, base, prec), if base == 16 then 4 else 3);
    }
  }

  /** Any other number shows a character that the standard's field does not contain. */
  lemma OtherParts(val: nat, f: Flags, base: nat, width: int, prec: int)
    requires IsBase(base) && !PlainNumber(Abs(Reading(val, f.signed)), f, base, prec)
    ensures IntegerText(val, f, base, width, prec) != StdInt(val, f, base, width, prec)
  {
    var v := Abs(Reading(val, f.signed));
    var m := StdCount(v, f, base, prec);
    DigitsPlain(v, base, f.upper, m);
    hide Positional, StdCount, Reading, NumberText, StdInt, IntegerText;
    if f.tick && m > if base == 16 then 4 else 3 {
      ShowsMark(v, f, base, prec);
      Differ(val, f, base, width, prec, '_');
    } else if f.hash && base == 16 {
      Differ(val, f, base, width, prec, if f.upper then 'X' else 'x');
    } else {
      ZeroMissing(val, f, base, width, prec);
    }
  }

  lemma Differ(val: nat, f: Flags, base: nat, width: int, prec: int, c: char)
    requires IsBase(base) && c != ' ' && c != '0'
    requires var v := Reading(val, f.signed);
      && (c in SignText(v, f) || c in PrefixText(f, base) || c in NumberText(Abs(v), f, base, prec))
      && c !in StdSign(v, f) && c !in StdPrefix(Abs(v), f, base) && c !in StdDigits(Abs(v), f, base, prec)
    ensures IntegerText(val, f, base, width, prec) != StdInt(val, f, base, width, prec)
  {
    var v := Reading(val, f.signed);
    hide Layout, SignText, PrefixText, NumberText, StdSign, StdPrefix, StdDigits, Reading;
    InLayout(SignText(v, f), PrefixText(f, base), NumberText(Abs(v), f, base, prec), width, f.minus, f.zero, c);
    InLayout(StdSign(v, f), StdPrefix(Abs(v), f, base), StdDigits(Abs(v), f, base, prec),
             width, f.minus, f.zero && prec < 0, c);
  }

  lemma ShowsMark(v: nat, f: Flags, base: nat, prec: int)
    requires IsBase(base) && f.tick && StdCount(v, f, base, prec) > if base == 16 then 4 else 3
    ensures '_' in NumberText(v, f, base, prec)
  {
    var t := if base == 16 then 4 else 3;
    var s := Positional(v, base, f.upper, Shown(v, f, base, prec));
    hide Positional, Least;
    assert |s| > t;
    DivNat(|s| - 1 - t, t);
    DivStep(|s| - 1 - t, t);
    var g := Grouped(s, t);
    DivSmall(t, t + 1);
    assert g[|g| - 1 - t] == GroupedAt(s, t, t) == '_';
  }

  /** Precision 0 asks for no digit of zero, and the padding of the standard has none either. */
  lemma ZeroMissing(val: nat, f: Flags, base: nat, width: int, prec: int)
    requires IsBase(base) && Reading(val, f.signed) == 0 && prec == 0
    requires !(f.hash && base == 8) && !(f.hash && base == 16)
    ensures IntegerText(val, f, base, width, prec) != StdInt(val, f, base, width, prec)
  {
    ZeroParts(f, base);
    hide NumberText, StdDigits, Reading, Layout;
    ZeroInLayout(SignText(0, f), width, f.minus, f.zero);
    NoZeroInLayout(StdSign(0, f), width, f.minus);
  }

  lemma ZeroParts(f: Flags, base: nat)
    requires IsBase(base) && !(f.hash && base == 8)
    ensures NumberText(0, f, base, 0) == "0" && StdDigits(0, f, base, 0) == ""
  {
    LeastZero(0, base);
    DigitsPlain(0, base, f.upper, 1);
    FewUnmarked("0", if base == 16 then 4 else 3);
    assert Repeat('0', 1) == "0";
    assert Shown(0, f, base, 0) == 1 && StdCount(0, f, base, 0) == 0;
    hide Least, Positional, Grouped;
  }

  lemma ZeroInLayout(sign: string, width: int, minus: bool, zero: bool)
    requires IsSign(sign)
    ensures '0' in Layout(sign, "", "0", width, minus, zero)
  {
    var a := Layout(sign, "", "0", width, minus, zero);
    var pad := if width > |sign| + 1 then width - (|sign| + 1) else 0;
    assert a[|sign| + if minus then 0 else pad] == '0';
  }

  lemma NoZeroInLayout(sign: string, width: int, minus: bool)
    requires IsSign(sign)
    ensures '0' !in Layout(sign, "", "", width, minus, false)
  {
  }

  /** With the same prefix and digits only sign and padding are left to compare. */
  lemma SidesExact(v: int, f: Flags, prefix: string, digits: string, width: int, prec: int)
    requires IsPlain(prefix) && IsPlain(digits) && digits != "" && (v < 0 ==> f.signed)
    ensures var core := |StdSign(v, f)| + |prefix| + |digits|;
      Layout(SignText(v, f), prefix, digits, width, f.minus, f.zero)
      == Layout(StdSign(v, f), prefix, digits, width, f.minus, f.zero && prec < 0)
      <==> if StraySign(f) then
             !f.plus && !f.minus && if f.zero then prec >= 0 && width == core + 1 else width > core
           else f.zero && !f.minus && prec >= 0 ==> width <= core
  {
    hide Layout;
    if !StraySign(f) {
      assert SignText(v, f) == StdSign(v, f);
      SamePartsExact(SignText(v, f), prefix, digits, width, f.minus, f.zero, f.zero && prec < 0);
    } else if f.plus {
      InLayout("+", prefix, digits, width, f.minus, f.zero, '+');
      InLayout("", prefix, digits, width, f.minus, f.zero && prec < 0, '+');
    } else {
      StraySpaceExact(prefix, digits, width, f.minus, f.zero, f.zero && prec < 0);
    }
  }

  /** format_int prints what the standard says if and only if the condition holds. */
  lemma AgreesWithStandard(val: nat, f: Flags, base: nat, width: int, prec: int)
    requires val < UINTMAX_COUNT && IsBase(base)
    ensures RenderInt(val, f, base, width, prec) == StdInt(val, f, base, width, prec)
       <==> AsStandard(val, f, base, width, prec)
  {
    PrintsIntegerText(val, f, base, width, prec);
    hide RenderInt;
    var v := Reading(val, f.signed);
    if PlainNumber(Abs(v), f, base, prec) {
      PlainParts(Abs(v), f, base, prec);
      DigitsPlain(Abs(v), base, f.upper, StdCount(Abs(v), f, base, prec));
      assert |StdDigits(Abs(v), f, base, prec)| == StdCount(Abs(v), f, base, prec);
      assert IsPlain(PrefixText(f, base)) by { hide *; PrefixPlain(f, base); }
      hide Positional, StdCount, NumberText, StdDigits, Layout, PlainNumber, IsPlain, StdSign, SignText, PrefixText,
           StdPrefix;
      SidesExact(v, f, PrefixText(f, base), StdDigits(Abs(v), f, base, prec), width, prec);
    } else {
      OtherParts(val, f, base, width, prec);
    }
  }

  lemma PrefixPlain(f: Flags, base: nat)
    ensures IsPlain(PrefixText(f, base))
  {
  }
}
