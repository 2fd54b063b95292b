/** What format_int prints, strntoumax and scan_int read back. */
module RoundTrip {
  import opened PrintInt
  import opened Printf
  import opened ParseInt

  // ------------------------------------------------------------ digits

  lemma {:induction false} DigitsBack(v: nat, base: nat, upper: bool, n: nat)
    requires IsBase(base) && n >= DigitCount(v, base)
    ensures AllDigits(Digits(v, base, upper, n), base)
    ensures Value(Digits(v, base, upper, n), base) == v
  {
    if n > 0 {
      hide Value, AllDigits, DigitVal, DigitChar, Quot, Rem;
      DigitsBack(Quot(v, base), base, upper, n - 1);
      LastDigitBack(v, base, upper, Digits(Quot(v, base), base, upper, n - 1));
    }
  }

  lemma LastDigitBack(v: nat, base: nat, upper: bool, front: string)
    requires IsBase(base) && AllDigits(front, base) && Value(front, base) == Quot(v, base)
    ensures var s := front + [DigitChar(Rem(v, base), upper)];
      AllDigits(s, base) && Value(s, base) == v
  {
    hide Value, AllDigits, DigitVal, DigitChar, Quot, Rem;
    DigitRead(Rem(v, base), upper, base);
    ValueAppend(front, DigitChar(Rem(v, base), upper), base);
    QuotRem(v, base);
  }

  lemma QuotRem(v: nat, base: nat)
    requires IsBase(base)
    ensures v == Quot(v, base) * base + Rem(v, base)
  {
  }

  lemma DigitRead(d: nat, upper: bool, base: nat)
    requires IsBase(base) && d < base
    ensures DigitVal(DigitChar(d, upper)) == d
  {
  }

  lemma ValueAppend(s: string, c: char, base: nat)
    requires AllDigits(s, base) && IsDigitOf(c, base)
    ensures AllDigits(s + [c], base) && Value(s + [c], base) == Value(s, base) * base + DigitVal(c)
  {
    assert (s + [c])[..|s|] == s;
  }

  /** More digits than the number needs start with a zero. */
  lemma {:induction false} LeadingZero(v: nat, base: nat, upper: bool, n: nat)
    requires IsBase(base) && n > DigitCount(v, base)
    ensures Digits(v, base, upper, n)[0] == '0'
  {
    if n == 1 {
      assert v == 0;
    } else {
      LeadingZero(Quot(v, base), base, upper, n - 1);
    }
  }

  lemma {:induction false} ZerosCountNothing(k: nat, s: string, base: nat)
    requires base >= 2 && AllDigits(s, base)
    ensures AllDigits(Repeat('0', k) + s, base)
    ensures Value(Repeat('0', k) + s, base) == Value(s, base)
    decreases |s|, k
  {
    var z := Repeat('0', k) + s;
    if s != "" {
      assert z[..|z| - 1] == Repeat('0', k) + s[..|s| - 1];
      ZerosCountNothing(k, s[..|s| - 1], base);
    } else if k > 0 {
      assert z[..|z| - 1] == Repeat('0', k - 1) + s;
      ZerosCountNothing(k - 1, s, base);
    }
  }

  // ------------------------------------------------------------ the printed text as a numeral

  /** Zero padding and digits: everything of the conversion that is a digit after sign and 0x. */
  function Body(val: nat, f: Flags, base: nat, width: int, prec: int): string
    requires val < UINTMAX_COUNT && IsBase(base)
  {
    var v := Magnitude(val, f);
    (if !f.minus && f.zero then Repeat('0', PadLength(val, f, base, width, prec)) else "")
    + Digits(v, base, f.upper, NumDigits(v, f, base, prec))
  }

  lemma BodyValue(val: nat, f: Flags, base: nat, width: int, prec: int)
    requires val < UINTMAX_COUNT && IsBase(base)
    ensures var b := Body(val, f, base, width, prec);
      b != "" && AllDigits(b, base) && Value(b, base) == Magnitude(val, f)
  {
    var v := Magnitude(val, f);
    var n := NumDigits(v, f, base, prec);
    var d := Digits(v, base, f.upper, n);
    DigitsBack(v, base, f.upper, n);
    hide Digits, PadLength, NumDigits;
    var k := if !f.minus && f.zero then PadLength(val, f, base, width, prec) else 0;
    ZerosCountNothing(k, d, base);
    assert Body(val, f, base, width, prec) == Repeat('0', k) + d;
  }

  lemma OctalBody(val: nat, f: Flags, width: int, prec: int)
    requires val < UINTMAX_COUNT && f.hash
    ensures var b := Body(val, f, 8, width, prec);
      b != "" && b[0] == '0' && AllDigits(b[1..], 8) && Value(b[1..], 8) == Magnitude(val, f)
  {
    var v, b := Magnitude(val, f), Body(val, f, 8, width, prec);
    BodyValue(val, f, 8, width, prec);
    LeadingZero(v, 8, f.upper, NumDigits(v, f, 8, prec));
    assert b[0] == '0' by { hide Digits, PadLength; }
    assert Repeat('0', 1) + b[1..] == b;
    ZerosCountNothing(1, b[1..], 8);
  }

  function Trail(val: nat, f: Flags, base: nat, width: int, prec: int): string
    requires val < UINTMAX_COUNT && IsBase(base)
  {
    if f.minus then Repeat(' ', PadLength(val, f, base, width, prec)) else ""
  }

  /** The parts that a conversion followed by rest has for strntoumax called with scanBase. */
  function NumeralOf(val: nat, f: Flags, base: nat, width: int, prec: int, scanBase: nat, rest: string): Numeral
    requires val < UINTMAX_COUNT && IsBase(base)
  {
    var body := Body(val, f, base, width, prec);
    var lead := if !f.minus && !f.zero then Repeat(' ', PadLength(val, f, base, width, prec)) else "";
    var blank := Sign(val, f) == " ";
    var octal := scanBase == 0 && base == 8 && body != "";
    Numeral(if blank then lead + " " else lead,
            if blank then "" else Sign(val, f),
            if octal then body[..1] else Prefix(f, base),
            if octal then body[1..] else body,
            Trail(val, f, base, width, prec) + rest)
  }

  /** The base is the printed one, or 0 when # has marked the base in the text. */
  predicate ScansAs(scanBase: nat, f: Flags, base: nat) {
    scanBase == base || (scanBase == 0 && f.hash && (base == 8 || base == 16))
  }

  /** Rest does not run on into the printed number. A space from the minus flag separates anything. */
  predicate Delimited(val: nat, f: Flags, base: nat, width: int, prec: int, scanBase: nat, rest: string)
    requires val < UINTMAX_COUNT && IsBase(base)
  {
    Ends(Prefix(f, base) + Body(val, f, base, width, prec), Trail(val, f, base, width, prec) + rest, scanBase, base)
  }

  lemma PrintedParts(val: nat, f: Flags, base: nat, width: int, prec: int, scanBase: nat, rest: string)
    requires val < UINTMAX_COUNT && IsBase(base) && !f.tick
    ensures Whole(NumeralOf(val, f, base, width, prec, scanBase, rest)) == RenderInt(val, f, base, width, prec) + rest
  {
    var v := Magnitude(val, f);
    var n := NumDigits(v, f, base, prec);
    var d := Digits(v, base, f.upper, n);
    assert Number(v, f, base, prec) == d by { NoTicks(d, n, n); }
    var pad := PadLength(val, f, base, width, prec);
    var lead := if !f.minus && !f.zero then Repeat(' ', pad) else "";
    var zeros := if !f.minus && f.zero then Repeat('0', pad) else "";
    var sign, prefix, trail := Sign(val, f), Prefix(f, base), Trail(val, f, base, width, prec);
    assert RenderInt(val, f, base, width, prec) == lead + sign + prefix + zeros + d + trail;
    hide RenderInt, Number, NumDigits, Digits, PadLength, Magnitude, Repeat;
    var x := NumeralOf(val, f, base, width, prec, scanBase, rest);
    var body := zeros + d;
    assert body == Body(val, f, base, width, prec);
    assert x.space + x.sign == lead + sign;
    assert x.prefix + x.digits == prefix + body by {
      if scanBase == 0 && base == 8 && body != "" {
        assert prefix == "" && body == body[..1] + body[1..];
      }
    }
    assert x.rest == trail + rest;
    hide *;
    Regroup(lead, sign, prefix, zeros, d, trail, rest);
    Regroup(x.space, x.sign, x.prefix, "", x.digits, "", x.rest);
    Regrouped(x, lead + sign, prefix + body, trail + rest);
  }

  lemma Regroup(a: string, b: string, c: string, d: string, e: string, t: string, r: string)
    ensures a + b + c + d + e + t + r == (a + b) + (c + (d + e)) + (t + r)
  {
  }

  lemma Regrouped(x: Numeral, front: string, number: string, rest: string)
    requires x.space + x.sign == front && x.prefix + x.digits == number && x.rest == rest
    ensures Whole(x) == front + number + rest
  {
    assert Whole(x) == (x.space + x.sign) + (x.prefix + x.digits) + x.rest;
  }

  lemma PrintedIsNumeral(val: nat, f: Flags, base: nat, width: int, prec: int, scanBase: nat, rest: string)
    requires val < UINTMAX_COUNT && IsBase(base) && !f.tick && ScansAs(scanBase, f, base)
    requires Delimited(val, f, base, width, prec, scanBase, rest)
    ensures var x := NumeralOf(val, f, base, width, prec, scanBase, rest);
      && IsNumeral(x, scanBase, base) && Value(x.digits, base) == Magnitude(val, f)
      && (x.sign == "-" <==> IsNegative(val, f))
  {
    var x := NumeralOf(val, f, base, width, prec, scanBase, rest);
    PrintedSides(val, f, base, width, prec, scanBase, rest);
    PrintedDigits(val, f, base, width, prec, scanBase, rest);
    assert x.rest == Trail(val, f, base, width, prec) + rest;
    hide NumeralOf, Magnitude, IsNegative, Value, AllDigits, AllSpace, DigitVal, Body, Trail, Ends;
  }

  lemma PrintedSides(val: nat, f: Flags, base: nat, width: int, prec: int, scanBase: nat, rest: string)
    requires val < UINTMAX_COUNT && IsBase(base)
    ensures var x := NumeralOf(val, f, base, width, prec, scanBase, rest);
      && AllSpace(x.space) && (x.sign == "" || x.sign == "+" || x.sign == "-")
      && (x.sign == "-" <==> IsNegative(val, f))
  {
    hide Body, PadLength, Prefix, DigitVal, IsSpace, Trail;
    BlankIsSpace();
  }

  lemma PrintedDigits(val: nat, f: Flags, base: nat, width: int, prec: int, scanBase: nat, rest: string)
    requires val < UINTMAX_COUNT && IsBase(base) && ScansAs(scanBase, f, base)
    ensures var x := NumeralOf(val, f, base, width, prec, scanBase, rest);
      && AllDigits(x.digits, base) && Value(x.digits, base) == Magnitude(val, f) && x.prefix + x.digits != ""
      && (x.prefix == if scanBase == 0 && base == 8 then "0" else Prefix(f, base))
      && x.prefix + x.digits == Prefix(f, base) + Body(val, f, base, width, prec)
  {
    var body := Body(val, f, base, width, prec);
    BodyValue(val, f, base, width, prec);
    if scanBase == 0 && base == 8 {
      OctalBody(val, f, width, prec);
      assert body[..1] == "0" && body[..1] + body[1..] == body;
    }
    hide Body, PadLength, Magnitude, Value, AllDigits, Sign, Trail;
  }

  lemma BlankIsSpace()
    ensures IsSpace(' ') && DigitVal(' ') == -1
  {
  }

  lemma SignBack(val: nat, f: Flags)
    requires val < UINTMAX_COUNT
    ensures SignedValue(IsNegative(val, f), Magnitude(val, f)) == val
  {
  }

  // ------------------------------------------------------------ the theorems

  /**
   * Printing and parsing: for every value, base 8, 10 or 16, width, precision and flags without
   * tick marks, strntoumax gives the value back and stops right after the last digit.
   */
  lemma PrintThenParse(val: nat, f: Flags, base: nat, width: int, prec: int, scanBase: nat, rest: string)
    requires val < UINTMAX_COUNT && IsBase(base) && !f.tick && ScansAs(scanBase, f, base)
    requires Delimited(val, f, base, width, prec, scanBase, rest)
    ensures var text := RenderInt(val, f, base, width, prec);
      Parse(text + rest, scanBase) == Parsed(val, |text| - |Trail(val, f, base, width, prec)|)
  {
    var x := NumeralOf(val, f, base, width, prec, scanBase, rest);
    PrintedParts(val, f, base, width, prec, scanBase, rest);
    PrintedIsNumeral(val, f, base, width, prec, scanBase, rest);
    SignBack(val, f);
    NumeralParses(x, scanBase, base);
    assert x.rest == Trail(val, f, base, width, prec) + rest;
    hide *;
    assert |x.rest| == |Trail(val, f, base, width, prec)| + |rest|;
  }

  /** scanf's base for a conversion character. */
  function ScanBase(ch: char): nat {
    match ch
    case 'd' => 10
    case 'u' => 10
    case 'o' => 8
    case 'x' => 16
    case 'X' => 16
    case _ => 0
  }

  predicate IsPointer(ch: char) {
    ch == 'p' || ch == 'P'
  }

  function ScanRank(ch: char, rank: int): int {
    if IsPointer(ch) then RANK_PTR else rank
  }

  predicate PrintsAndScans(ch: char) {
    ch == 'd' || ch == 'u' || ch == 'o' || ch == 'x' || ch == 'X' || IsPointer(ch)
  }

  lemma CutTwice(v: int, rank: int)
    ensures Unsigned(Signed(v, ValuesOf(rank)), UINTMAX_COUNT) % ValuesOf(rank) == Unsigned(v, ValuesOf(rank))
  {
    var values := ValuesOf(rank);
    var u, times := Unsigned(v, values), UINTMAX_COUNT / values;
    assert times * values == UINTMAX_COUNT && values % 2 == 0;
    hide ValuesOf, Unsigned;
    if u >= values / 2 {
      DivUnique(u - values, UINTMAX_COUNT, -1, UINTMAX_COUNT + u - values);
      assert (times - 1) * values == UINTMAX_COUNT - values;
      DivUnique(UINTMAX_COUNT + u - values, values, times - 1, u);
      CutIs(u - values, UINTMAX_COUNT);
    } else {
      DivSmall(u, UINTMAX_COUNT);
      DivSmall(u, values);
      CutIs(u, UINTMAX_COUNT);
    }
  }

  lemma CutIs(v: int, values: nat)
    requires values > 0
    ensures Unsigned(v, values) == v % values
  {
  }

  lemma StoredBack(ch: char, s: Spec, v: int)
    requires PrintsAndScans(ch) && RANK_CHAR <= s.rank <= RANK_LONGLONG
    ensures var n, r := AsInteger(ch, s, v), ScanRank(ch, s.rank);
      n.IntConversion? && n.val % StoredValues(r) == Unsigned(v, StoredValues(r))
  {
    CutTwice(v, s.rank);
    CutOnce(v, ValuesOf(s.rank));
    CutOnce(v, StoredValues(RANK_PTR));
    hide Unsigned, Signed, ValuesOf;
  }

  lemma CutOnce(v: int, values: nat)
    requires values > 0
    ensures Unsigned(v, values) % values == Unsigned(v, values)
  {
    DivSmall(v % values, values);
  }

  /**
   * The same conversion and length modifier in printf and scanf: any argument comes back
   * as the value of its C type, and the scan stops right after the last digit.
   */
  lemma PrintThenScan(ch: char, s: Spec, v: int, fieldWidth: nat, rest: string, converted: nat)
    requires PrintsAndScans(ch) && !s.flags.tick && RANK_CHAR <= s.rank <= RANK_LONGLONG
    requires var n := AsInteger(ch, s, v);
      && |RenderInt(n.val, n.flags, n.base, s.width, n.prec)| <= fieldWidth
      && Delimited(n.val, n.flags, n.base, s.width, n.prec, ScanBase(ch), rest)
    ensures var n, r := AsInteger(ch, s, v), ScanRank(ch, s.rank);
      var text := RenderInt(n.val, n.flags, n.base, s.width, n.prec);
      ScanOf(text + rest, ScanBase(ch), fieldWidth, r, false, converted)
      == Scan(BailNone, |text| - |Trail(n.val, n.flags, n.base, s.width, n.prec)|, converted + 1,
              [Unsigned(v, StoredValues(r))])
  {
    var n, r := AsInteger(ch, s, v), ScanRank(ch, s.rank);
    StoredBack(ch, s, v);
    assert ScansAs(ScanBase(ch), n.flags, n.base) && !n.flags.tick;
    hide AsInteger, ScanBase, ScanRank, StoredValues, Unsigned, RenderInt, Delimited;
    var x := NumeralOf(n.val, n.flags, n.base, s.width, n.prec, ScanBase(ch), rest);
    PrintedParts(n.val, n.flags, n.base, s.width, n.prec, ScanBase(ch), rest);
    PrintedIsNumeral(n.val, n.flags, n.base, s.width, n.prec, ScanBase(ch), rest);
    SignBack(n.val, n.flags);
    assert x.rest == Trail(n.val, n.flags, n.base, s.width, n.prec) + rest;
    hide *;
    assert |x.rest| == |Trail(n.val, n.flags, n.base, s.width, n.prec)| + |rest|;
    NumberFits(x, RenderInt(n.val, n.flags, n.base, s.width, n.prec) + rest, |rest|);
    NumeralScans(x, ScanBase(ch), n.base, fieldWidth, r, converted);
  }

  lemma NumberFits(x: Numeral, t: string, m: nat)
    requires Whole(x) == t && |x.rest| >= m
    ensures |x.sign| + |x.prefix| + |x.digits| <= |t| - m
  {
    hide ParseInt.Value;
  }
}
