/**
 * How strntoumax and scan_int read any text, stated from the text alone: which bytes are space, what the
 * characters are worth, where sign, base prefix and digits end, and what a field width lets through.
 */
module ReadInt {
  import opened PrintInt
  import opened IntText
  import opened ParseInt

  // ------------------------------------------------------------ characters

  /** Backspace to carriage return, the blank, and the no-break space. */
  predicate IsBlank(ch: char) {
    ch as int in {8, 9, 10, 11, 12, 13, 32, 160}
  }

  const LOWER: string := "0123456789abcdefghijklmnopqrstuvwxyz"
  const UPPER: string := "0123456789ABCDEFGHIJKLMNOPQRSTUVWXYZ"

  /** ch is the digit d, in one of the two cases. */
  predicate IsGlyph(ch: char, d: nat) {
    d < 36 && (LOWER[d] == ch || UPPER[d] == ch)
  }

  /** What a character is worth as a digit; -1 stands for nothing. */
  ghost function Worth(ch: char): int {
    if d: nat :| IsGlyph(ch, d) then d else -1
  }

  /** ch is a digit in the base. */
  ghost predicate IsDigit(ch: char, base: nat) {
    0 <= Worth(ch) < base
  }

  lemma LowerIs(d: nat)
    requires d < 36
    ensures LOWER[d] as int == if d < 10 then 48 + d else 87 + d
    ensures UPPER[d] as int == if d < 10 then 48 + d else 55 + d
  {
  }

  lemma GlyphExact(ch: char, d: nat)
    ensures IsGlyph(ch, d) <==> DigitVal(ch) == d
  {
    if d < 36 {
      LowerIs(d);
    }
  }

  lemma WorthExact(ch: char)
    ensures Worth(ch) == DigitVal(ch)
  {
    if DigitVal(ch) >= 0 {
      GlyphExact(ch, DigitVal(ch));
    }
    if Worth(ch) >= 0 {
      GlyphExact(ch, Worth(ch));
    }
  }

  lemma DigitExact(ch: char, base: nat)
    ensures IsDigit(ch, base) <==> IsDigitOf(ch, base)
  {
    WorthExact(ch);
  }

  lemma BlankExact(ch: char)
    ensures IsBlank(ch) <==> IsSpace(ch)
  {
  }

  // ------------------------------------------------------------ numbers

  ghost predicate AreDigits(s: string, base: nat) {
    forall i :: 0 <= i < |s| ==> IsDigit(s[i], base)
  }

  /** The sum of the digits, each times the power of the base that its place is worth. */
  ghost function PlaceValue(s: string, base: nat): nat
    requires AreDigits(s, base)
  {
    if s == "" then 0
    else
      FirstDigit(s, base);
      Worth(s[0]) * Pow(base, |s| - 1) + PlaceValue(s[1..], base)
  }

  lemma FirstDigit(s: string, base: nat)
    requires AreDigits(s, base) && s != ""
    ensures AreDigits(s[1..], base) && Worth(s[0]) * Pow(base, |s| - 1) >= 0
  {
    assert IsDigit(s[0], base);
    hide Worth, Pow;
    MulNat(Worth(s[0]), Pow(base, |s| - 1));
  }

  lemma PlaceStep(s: string, base: nat)
    requires AreDigits(s, base) && s != ""
    ensures AreDigits(s[1..], base)
    ensures PlaceValue(s, base) == Worth(s[0]) * Pow(base, |s| - 1) + PlaceValue(s[1..], base)
  {
  }

  lemma Shifted(w: int, p: int, q: int, base: int, d: int)
    ensures w * (base * p) + (q * base + d) == (w * p + q) * base + d
  {
    assert w * (base * p) == (w * p) * base;
    assert (w * p + q) * base == (w * p) * base + q * base;
  }

  lemma DigitAppended(s: string, ch: char, base: nat)
    requires AreDigits(s, base) && IsDigit(ch, base)
    ensures AreDigits(s + [ch], base)
  {
  }

  lemma {:induction false} PlaceAppend(s: string, ch: char, base: nat)
    requires AreDigits(s, base) && IsDigit(ch, base)
    ensures AreDigits(s + [ch], base)
    ensures PlaceValue(s + [ch], base) == PlaceValue(s, base) * base + Worth(ch)
    decreases |s|
  {
    var t := s + [ch];
    DigitAppended(s, ch, base);
    PlaceStep(t, base);
    if s == "" {
      assert t[1..] == "" && Pow(base, 0) == 1;
    } else {
      assert Pow(base, |s|) == base * Pow(base, |s| - 1);
      hide *;
      assert t[1..] == s[1..] + [ch] && t[0] == s[0];
      PlaceStep(s, base);
      PlaceAppend(s[1..], ch, base);
      Shifted(Worth(s[0]), Pow(base, |s| - 1), PlaceValue(s[1..], base), base, Worth(ch));
    }
  }

  lemma {:induction false} ValueExact(s: string, base: nat)
    requires AreDigits(s, base)
    ensures AllDigits(s, base) && Value(s, base) == PlaceValue(s, base)
    decreases |s|
  {
    forall i | 0 <= i < |s| ensures IsDigitOf(s[i], base) { DigitExact(s[i], base); }
    if s != "" {
      var front, last := s[..|s| - 1], s[|s| - 1];
      assert s == front + [last];
      ValueExact(front, base);
      PlaceAppend(front, last, base);
      WorthExact(last);
    }
  }

  // ------------------------------------------------------------ a text taken apart

  predicate IsHexPrefix(s: string) {
    |s| >= 2 && s[0] == '0' && (s[1] == 'x' || s[1] == 'X')
  }

  /** The text behind the sign: a base prefix as far as base asks for it, which also settles the base of the digits. */
  predicate PrefixTaken(prefix: string, behind: string, base: nat, b: nat) {
    var t := prefix + behind;
    if (base == 0 || base == 16) && IsHexPrefix(t) then |prefix| == 2 && b == 16
    else if base == 0 && t != "" && t[0] == '0' then |prefix| == 1 && b == 8
    else prefix == "" && b == if base == 0 then 10 else base
  }

  /** Each part is taken as far as it goes. */
  ghost predicate TakenApart(x: Numeral, base: nat, b: nat) {
    var number := x.prefix + x.digits + x.rest;
    && (forall i :: 0 <= i < |x.space| ==> IsBlank(x.space[i]))
    && (x.sign + number != "" ==> !IsBlank((x.sign + number)[0]))
    && (x.sign == "+" || x.sign == "-" || (x.sign == "" && (number != "" ==> number[0] != '+' && number[0] != '-')))
    && PrefixTaken(x.prefix, x.digits + x.rest, base, b)
    && AreDigits(x.digits, b) && (x.rest != "" ==> !IsDigit(x.rest[0], b))
  }

  /** Value with its sign, modulo 2^64. */
  ghost function SignedPlace(x: Numeral, b: nat): nat
    requires AreDigits(x.digits, b)
  {
    var v: int := PlaceValue(x.digits, b);
    (if x.sign == "-" then 0 - v else v) % 0x1_0000_0000_0000_0000
  }

  lemma PrefixFound(t: string, x: Numeral, base: nat, b: nat, j: nat, k: nat)
    requires j <= k <= |t| && t[j..k] == x.prefix && t[k..] == x.digits + x.rest
    requires PrefixTaken(x.prefix, x.digits + x.rest, base, b)
    ensures AfterPrefix(t, j, base) == (b, k)
  {
    assert t[j..] == x.prefix + (x.digits + x.rest);
    assert j < |t| ==> t[j] == t[j..][0];
    assert j + 1 < |t| ==> t[j + 1] == t[j..][1];
  }

  /** strntoumax gives the value of the digits with their sign and stops behind them, for any text in its parts. */
  lemma ReadsParts(x: Numeral, base: nat, b: nat)
    requires TakenApart(x, base, b)
    ensures Parse(Whole(x), base) == Parsed(SignedPlace(x, b), |Whole(x)| - |x.rest|)
  {
    var t, i := Whole(x), |x.space|;
    var j := i + |x.sign|;
    var k := j + |x.prefix|;
    var e := k + |x.digits|;
    assert AreDigits(x.digits, b);
    hide *;
    WholeParts(x, i, j, k, e);
    SpaceFound(x, base, b);
    NumberFound(t, x, base, b, i, j, k, e);
    assert e == |t| - |x.rest|;
    ParseOf(t, base, i, j, b, k, e);
  }

  lemma NumberFound(t: string, x: Numeral, base: nat, b: nat, i: nat, j: nat, k: nat, e: nat)
    requires TakenApart(x, base, b) && InParts(t, x, i, j, k, e)
    ensures AfterPrefix(t, j, base) == (b, k) && DigitEnd(t, k, b) == e && AllDigits(t[k..e], b)
    ensures SignedValue(x.sign == "-", Value(t[k..e], b)) == SignedPlace(x, b) && |t| == e + |x.rest|
  {
    assert PrefixTaken(x.prefix, x.digits + x.rest, base, b);
    assert AreDigits(x.digits, b) && (x.rest != "" ==> !IsDigit(x.rest[0], b));
    assert j <= k <= e <= |t| && t[j..k] == x.prefix && t[k..e] == x.digits && t[e..] == x.rest;
    hide *;
    assert t[k..] == x.digits + x.rest by { assert t[k..] == t[k..e] + t[e..]; }
    PrefixFound(t, x, base, b, j, k);
    DigitsFound(t, x, b, k, e);
  }

  lemma DigitsFound(t: string, x: Numeral, b: nat, k: nat, e: nat)
    requires k <= e <= |t| && t[k..e] == x.digits && t[e..] == x.rest
    requires AreDigits(x.digits, b) && (x.rest != "" ==> !IsDigit(x.rest[0], b))
    ensures DigitEnd(t, k, b) == e && AllDigits(t[k..e], b)
    ensures SignedValue(x.sign == "-", Value(t[k..e], b)) == SignedPlace(x, b)
  {
    hide DigitEnd, IsDigit, IsDigitOf, Value, PlaceValue, AllDigits;
    ValueExact(x.digits, b);
    if e < |t| {
      assert t[e] == t[e..][0];
      DigitExact(t[e], b);
    }
    DigitEndIs(t, k, e, b);
  }

  lemma SpaceFound(x: Numeral, base: nat, b: nat)
    requires TakenApart(x, base, b)
    ensures var t, i := Whole(x), |x.space|;
      && SpaceEnd(t, 0) == i && (IsSignAt(t, i) && t[i] == '-') == (x.sign == "-")
      && (if IsSignAt(t, i) then i + 1 else i) == i + |x.sign|
  {
    var t, i := Whole(x), |x.space|;
    var behind := x.sign + (x.prefix + x.digits + x.rest);
    assert x.sign + (x.prefix + (x.digits + x.rest)) == behind;
    assert t == x.space + behind && t[0..i] == x.space && t[i..] == behind;
    forall n | 0 <= n < i ensures IsSpace(x.space[n]) { BlankExact(x.space[n]); }
    if i < |t| {
      assert t[i] == behind[0];
      BlankExact(t[i]);
    }
    SpaceEndIs(t, 0, i);
  }

  /** Every text can be taken apart, for every base. */
  lemma EveryText(t: string, base: nat) returns (x: Numeral, b: nat)
    ensures Whole(x) == t && TakenApart(x, base, b)
  {
    var i := SpaceEnd(t, 0);
    var j := if IsSignAt(t, i) then i + 1 else i;
    var bk := AfterPrefix(t, j, base);
    b := bk.0;
    var e := DigitEnd(t, bk.1, b);
    x := Numeral(t[0..i], t[i..j], t[j..bk.1], t[bk.1..e], t[e..]);
    hide *;
    Rejoined(t, x, i, j, bk.1, e);
    SpaceTaken(t, x, i, j, bk.1, e);
    NumberTaken(t, x, base, b, j, bk.1, e);
  }

  /** The parts of t between these indices. */
  ghost predicate CutAt(t: string, x: Numeral, i: nat, j: nat, k: nat, e: nat) {
    i <= j <= k <= e <= |t| && x == Numeral(t[0..i], t[i..j], t[j..k], t[k..e], t[e..])
  }

  lemma Rejoined(t: string, x: Numeral, i: nat, j: nat, k: nat, e: nat)
    requires i <= j <= k <= e <= |t| && x == Numeral(t[0..i], t[i..j], t[j..k], t[k..e], t[e..])
    ensures Whole(x) == t && CutAt(t, x, i, j, k, e)
    ensures t[i..] == x.sign + (x.prefix + x.digits + x.rest) && t[j..] == x.prefix + x.digits + x.rest
    ensures t[j..] == x.prefix + (x.digits + x.rest) && t[k..] == x.digits + x.rest
  {
    assert t[k..] == t[k..e] + t[e..];
    assert t[j..] == t[j..k] + t[k..];
    assert t[i..] == t[i..j] + t[j..];
    assert t == t[0..i] + t[i..];
    assert x.prefix + (x.digits + x.rest) == x.prefix + x.digits + x.rest;
  }

  lemma SpaceTaken(t: string, x: Numeral, i: nat, j: nat, k: nat, e: nat)
    requires CutAt(t, x, i, j, k, e) && i == SpaceEnd(t, 0) && j == (if IsSignAt(t, i) then i + 1 else i)
    requires t[i..] == x.sign + (x.prefix + x.digits + x.rest) && t[j..] == x.prefix + x.digits + x.rest
    ensures var number := x.prefix + x.digits + x.rest;
      && (forall n :: 0 <= n < |x.space| ==> IsBlank(x.space[n]))
      && (x.sign + number != "" ==> !IsBlank((x.sign + number)[0]))
      && (x.sign == "+" || x.sign == "-"
          || (x.sign == "" && (number != "" ==> number[0] != '+' && number[0] != '-')))
  {
    forall n | 0 <= n < i ensures IsBlank(x.space[n]) { BlankExact(x.space[n]); }
    if i < |t| {
      BlankExact(t[i]);
      assert t[i..][0] == t[i];
    }
    hide SpaceEnd, IsBlank;
  }

  lemma NumberTaken(t: string, x: Numeral, base: nat, b: nat, j: nat, k: nat, e: nat)
    requires |x.space| + |x.sign| == j && CutAt(t, x, |x.space|, j, k, e)
    requires AfterPrefix(t, j, base) == (b, k) && e == DigitEnd(t, k, b) && t[j..] == x.prefix + (x.digits + x.rest)
    ensures PrefixTaken(x.prefix, x.digits + x.rest, base, b)
    ensures AreDigits(x.digits, b) && (x.rest != "" ==> !IsDigit(x.rest[0], b))
  {
    forall n | 0 <= n < |x.digits| ensures IsDigit(x.digits[n], b) { DigitExact(x.digits[n], b); }
    if e < |t| { DigitExact(t[e], b); }
    assert j < |t| ==> t[j] == t[j..][0];
    assert j + 1 < |t| ==> t[j + 1] == t[j..][1];
    hide DigitEnd, IsDigit;
  }

  // ------------------------------------------------------------ scan_int

  /** What a field width lets through. */
  function Within(f: string, width: nat): string {
    if width <= |f| then f[..width] else f
  }

  /** The ranks that the conversions of scanf have. */
  predicate IsRank(rank: int) {
    -2 <= rank <= 2 || rank == RANK_PTR
  }

  /** Number of values of the C object that is stored to: char, short, int, long, long long or a pointer. */
  function ObjectValues(rank: int): (n: nat)
    requires IsRank(rank)
    ensures n > 0
  {
    if rank == -2 then 0x100
    else if rank == -1 then 0x1_0000
    else if rank == 2 then 0x1_0000_0000_0000_0000
    else 0x1_0000_0000
  }

  /** The outcome of a conversion of text f behind the space, x being what the field width lets through of f. */
  ghost function Outcome(space: string, f: string, x: Numeral, b: nat, rank: int, splat: bool, converted: nat): Scan
    requires IsRank(rank) && AreDigits(x.digits, b)
  {
    var n := |x.sign| + |x.prefix| + |x.digits|;
    if f == "" || f[0] == '\0' then Scan(BailEof, |space|, converted, [])
    else if n == 0 then Scan(BailErr, |space|, converted, [])
    else if splat then Scan(BailNone, |space| + n, converted, [])
    else Scan(BailNone, |space| + n, converted + 1, [SignedPlace(x, b) % ObjectValues(rank)])
  }

  /**
   * scan_int on any text: the end of the input, a match failure, or the number that stands within the field
   * width, of which nothing behind the width is read; under * nothing is stored or counted.
   */
  lemma ScansText(space: string, f: string, x: Numeral, base: nat, b: nat, width: nat, rank: int, splat: bool,
                  converted: nat)
    requires (forall i :: 0 <= i < |space| ==> IsBlank(space[i])) && (f != "" ==> !IsBlank(f[0])) && IsRank(rank)
    requires TakenApart(x, base, b) && x.space == "" && Whole(x) == Within(f, width)
    ensures ScanOf(space + f, base, width, rank, splat, converted)
         == Outcome(space, f, x, b, rank, splat, converted)
    ensures ScanOf(space + f, base, width, rank, splat, converted).q <= |space| + width
  {
    assert AreDigits(x.digits, b);
    hide *;
    var t := space + f;
    SpaceBefore(space, f);
    ReadsParts(x, base, b);
    SizeOf(x);
    WindowIs(f, width);
    ObjectSizes(rank);
    ScanUnfolds(t, |space|, f, base, width, rank, splat, converted);
    OutcomeIs(space, f, x, b, rank, splat, converted);
    WithinLength(f, width);
  }

  lemma SpaceBefore(space: string, f: string)
    requires (forall i :: 0 <= i < |space| ==> IsBlank(space[i])) && (f != "" ==> !IsBlank(f[0]))
    ensures var t := space + f; SpaceEnd(t, 0) == |space| && t[|space|..] == f
  {
    var t := space + f;
    forall i | 0 <= i < |space| ensures IsSpace(space[i]) { BlankExact(space[i]); }
    if f != "" { BlankExact(f[0]); }
    assert t[0..|space|] == space;
    SpaceEndIs(t, 0, |space|);
  }

  lemma SizeOf(x: Numeral)
    ensures |Whole(x)| == |x.space| + (|x.sign| + |x.prefix| + |x.digits|) + |x.rest|
  {
  }

  lemma WindowIs(f: string, width: nat)
    ensures Window(f, width) == Within(f, width)
  {
  }

  lemma WithinLength(f: string, width: nat)
    ensures |Within(f, width)| <= width
  {
  }

  lemma ObjectSizes(rank: int)
    requires IsRank(rank)
    ensures StoredValues(rank) == ObjectValues(rank)
  {
  }

  lemma ScanUnfolds(t: string, i: nat, f: string, base: nat, width: nat, rank: int, splat: bool, converted: nat)
    requires SpaceEnd(t, 0) == i && i <= |t| && t[i..] == f
    ensures var p := Parse(Window(f, width), base);
      ScanOf(t, base, width, rank, splat, converted)
      == if f == "" || f[0] == '\0' then Scan(BailEof, i, converted, [])
         else if p.end == 0 then Scan(BailErr, i, converted, [])
         else Scan(BailNone, i + p.end, if splat then converted else converted + 1,
                   if splat then [] else [p.value % StoredValues(rank)])
  {
    hide SpaceEnd, Parse, Window, StoredValues;
    assert f != "" ==> t[i] == f[0];
  }

  lemma OutcomeIs(space: string, f: string, x: Numeral, b: nat, rank: int, splat: bool, converted: nat)
    requires IsRank(rank) && AreDigits(x.digits, b)
    ensures var n := |x.sign| + |x.prefix| + |x.digits|;
      Outcome(space, f, x, b, rank, splat, converted)
      == if f == "" || f[0] == '\0' then Scan(BailEof, |space|, converted, [])
         else if n == 0 then Scan(BailErr, |space|, converted, [])
         else Scan(BailNone, |space| + n, if splat then converted else converted + 1,
                   if splat then [] else [SignedPlace(x, b) % ObjectValues(rank)])
  {
  }

  /** A field is taken apart without space, because it starts behind it. */
  lemma EveryField(f: string, base: nat, width: nat) returns (x: Numeral, b: nat)
    requires f != "" ==> !IsBlank(f[0])
    ensures x.space == "" && Whole(x) == Within(f, width) && TakenApart(x, base, b)
  {
    x, b := EveryText(Within(f, width), base);
    NoSpace(x, f, width);
  }

  lemma NoSpace(x: Numeral, f: string, width: nat)
    requires (forall i :: 0 <= i < |x.space| ==> IsBlank(x.space[i])) && (f != "" ==> !IsBlank(f[0]))
    requires Whole(x) == Within(f, width)
    ensures x.space == ""
  {
    hide IsBlank, Whole;
    SpaceFirst(x);
  }

  lemma SpaceFirst(x: Numeral)
    ensures x.space != "" ==> Whole(x) != "" && Whole(x)[0] == x.space[0]
  {
  }

  /** Of a number that is longer than the field width the digits that fit are converted; the scan stops at the width. */
  lemma LongNumberScans(x: Numeral, base: nat, b: nat, width: nat, rank: int, converted: nat)
    requires TakenApart(x, base, b) && IsRank(rank)
    requires |x.sign| + |x.prefix| < width < |x.sign| + |x.prefix| + |x.digits|
    ensures var m := width - |x.sign| - |x.prefix|;
      && AreDigits(x.digits[..m], b)
      && ScanOf(Whole(x), base, width, rank, false, converted)
         == Scan(BailNone, |x.space| + width, converted + 1,
                 [SignedPlace(x.(digits := x.digits[..m]), b) % ObjectValues(rank)])
  {
    var m := width - |x.sign| - |x.prefix|;
    var y := Numeral("", x.sign, x.prefix, x.digits[..m], "");
    var f := x.sign + (x.prefix + (x.digits + x.rest));
    CutShort(x, y, base, b, m, f, width);
    FieldBegins(x, base, b, f);
    SamePlace(x, y, b, m);
    hide IsBlank, Worth, PlaceValue, SignedPlace, ObjectValues, ScanOf, Within, PrefixTaken;
    assert Whole(x) == x.space + f;
    ScansText(x.space, f, y, base, b, width, rank, false, converted);
    OutcomeIs(x.space, f, y, b, rank, false, converted);
  }

  lemma SamePlace(x: Numeral, y: Numeral, b: nat, m: nat)
    requires m <= |x.digits| && y.digits == x.digits[..m] && y.sign == x.sign && AreDigits(y.digits, b)
    ensures SignedPlace(x.(digits := x.digits[..m]), b) == SignedPlace(y, b)
  {
    hide PlaceValue, AreDigits, IsDigit, Worth;
  }

  lemma FieldBegins(x: Numeral, base: nat, b: nat, f: string)
    requires TakenApart(x, base, b) && f == x.sign + (x.prefix + (x.digits + x.rest)) && x.digits != ""
    ensures f != "" && !IsBlank(f[0]) && f[0] != '\0'
  {
    var number := x.prefix + x.digits + x.rest;
    assert f == x.sign + number && x.prefix + (x.digits + x.rest) == number;
    assert IsDigit(x.digits[0], b);
    PrefixStarts(x, base, b);
    hide *;
    DigitNotNul(x.digits[0], b);
    assert x.prefix + x.digits + x.rest != "";
    assert x.sign != "" ==> f[0] == x.sign[0];
    assert x.sign == "" && x.prefix == "" ==> f[0] == x.digits[0];
    assert x.sign == "" && x.prefix != "" ==> f[0] == x.prefix[0];
  }

  lemma PrefixStarts(x: Numeral, base: nat, b: nat)
    requires TakenApart(x, base, b)
    ensures x.prefix != "" ==> x.prefix[0] == '0'
  {
    var t := x.prefix + (x.digits + x.rest);
    assert x.prefix != "" ==> t[0] == x.prefix[0];
    hide IsDigit, AreDigits, IsBlank;
  }

  lemma DigitNotNul(ch: char, b: nat)
    requires IsDigit(ch, b)
    ensures ch != '\0'
  {
    WorthExact(ch);
  }

  lemma CutShort(x: Numeral, y: Numeral, base: nat, b: nat, m: nat, f: string, width: nat)
    requires TakenApart(x, base, b) && 0 < m < |x.digits| && width == |x.sign| + |x.prefix| + m
    requires y == Numeral("", x.sign, x.prefix, x.digits[..m], "") && f == x.sign + (x.prefix + (x.digits + x.rest))
    ensures TakenApart(y, base, b) && Whole(y) == Within(f, width)
  {
    assert Whole(y) == f[..width];
    var t, u := x.prefix + (x.digits + x.rest), y.prefix + (y.digits + y.rest);
    assert u == t[..|x.prefix| + m];
    assert x.prefix + x.digits + x.rest == t && y.prefix + y.digits + y.rest == u;
    hide IsDigit;
  }
}
