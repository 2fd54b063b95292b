/** strtoumax of section 7.8.2.3 of ISO C11, and on which texts strntoumax agrees with it. */
module IsoParse {
  import opened PrintInt
  import opened ParseInt

  // ------------------------------------------------------------ the standard

  /** White space of the "C" locale. */
  predicate IsStdSpace(ch: char) {
    9 <= ch as int <= 13 || ch == ' '
  }

  function StdSpaceEnd(t: string, i: nat): (e: nat)
    requires i <= |t|
    ensures i <= e <= |t| && (e < |t| ==> !IsStdSpace(t[e])) && forall k :: i <= k < e ==> IsStdSpace(t[k])
    decreases |t| - i
  {
    if i < |t| && IsStdSpace(t[i]) then StdSpaceEnd(t, i + 1) else i
  }

  function AfterSign(t: string, i: nat): nat {
    if IsSignAt(t, i) then i + 1 else i
  }

  /** A 0x counts as a prefix only with a hexadecimal digit behind it. */
  predicate StdHexAt(t: string, j: nat) {
    IsHexAt(t, j) && DigitAt(t, j + 2, 16)
  }

  /** Base and first digit; the 0 that stands for base 8 is itself a digit. */
  function StdBase(t: string, j: nat, base: nat): (r: (nat, nat))
    requires j <= |t|
    ensures j <= r.1 <= |t|
  {
    if (base == 0 || base == 16) && StdHexAt(t, j) then (16, j + 2)
    else if base == 0 then (if j < |t| && t[j] == '0' then 8 else 10, j)
    else (base, j)
  }

  /** Without any digit nothing is read at all; a number that is too large gives the largest one. */
  function StdParse(t: string, base: nat): Parsed {
    var i := StdSpaceEnd(t, 0);
    var j := AfterSign(t, i);
    var (b, k) := StdBase(t, j, base);
    var e := DigitEnd(t, k, b);
    if e == k then Parsed(0, 0)
    else
      var v := Value(t[k..e], b);
      Parsed(if v >= UINTMAX_COUNT then UINTMAX_COUNT - 1 else SignedValue(IsSignAt(t, i) && t[i] == '-', v), e)
  }

  // ------------------------------------------------------------ where the code agrees

  /**
   * The texts on which the two agree: no backspace or no-break space in front, no bare 0x, no sign or
   * space without a number, and no number that is too large, unless wrapping around happens to hit the largest one.
   */
  predicate AsStandard(t: string, base: nat) {
    var i := SpaceEnd(t, 0);
    var j := AfterSign(t, i);
    var (b, k) := AfterPrefix(t, j, base);
    var v := Value(t[k..DigitEnd(t, k, b)], b);
    && StdSpaceEnd(t, 0) == i
    && ((base == 0 || base == 16) && IsHexAt(t, j) ==> DigitAt(t, j + 2, 16))
    && (!DigitAt(t, j, FirstBase(base)) ==> j == 0)
    && (v >= UINTMAX_COUNT ==> v % UINTMAX_COUNT == if IsSignAt(t, i) && t[i] == '-' then 1 else UINTMAX_COUNT - 1)
  }

  // ------------------------------------------------------------ the theorem

  lemma SpacesCompared(t: string)
    ensures var i, i' := SpaceEnd(t, 0), StdSpaceEnd(t, 0);
      i' <= i && (i' < i ==> IsSpace(t[i']) && !IsStdSpace(t[i']))
  {
    var i, i' := SpaceEnd(t, 0), StdSpaceEnd(t, 0);
    assert t[0..i] == t[..i];
    assert i < i' ==> IsStdSpace(t[i]);
    assert i' < i ==> t[0..i][i'] == t[i'];
  }

  /** A space that is none in the standard ends everything: it is neither a sign nor a digit. */
  lemma OddSpace(t: string, base: nat)
    requires StdSpaceEnd(t, 0) != SpaceEnd(t, 0)
    ensures StdParse(t, base) == Parsed(0, 0) && Parse(t, base).end > 0
  {
    SpacesCompared(t);
    hide Value, SignedValue;
  }

  /** The leading 0 of octal adds nothing to the value. */
  lemma OctalZero(t: string, j: nat, e: nat)
    requires j < e <= |t| && t[j] == '0' && AllDigits(t[j + 1..e], 8)
    ensures AllDigits(t[j..e], 8) && Value(t[j..e], 8) == Value(t[j + 1..e], 8)
    decreases e
  {
    assert t[j..e] == ['0'] + t[j + 1..e];
    if e == j + 1 {
      assert t[j..e] == "0" && t[j + 1..e] == "";
      assert Value("0", 8) == Value("0"[..0], 8) * 8 + 0;
    } else {
      assert t[j + 1..e][..e - j - 2] == t[j + 1..e - 1];
      assert t[j..e][..e - j - 1] == t[j..e - 1];
      OctalZero(t, j, e - 1);
    }
  }

  lemma WrapsToLargest(minus: bool, v: nat)
    requires v >= UINTMAX_COUNT
    ensures SignedValue(minus, v) == UINTMAX_COUNT - 1
       <==> v % UINTMAX_COUNT == if minus then 1 else UINTMAX_COUNT - 1
  {
    var r := v % UINTMAX_COUNT;
    Negation(minus, v);
  }

  /** strntoumax gives value and end of the standard, for the bases it knows, if and only if the condition holds. */
  lemma AgreesWithStandard(t: string, base: nat)
    requires base == 0 || 2 <= base <= 36
    ensures Parse(t, base) == StdParse(t, base) <==> AsStandard(t, base)
  {
    var i := SpaceEnd(t, 0);
    if StdSpaceEnd(t, 0) != i {
      OddSpace(t, base);
    } else {
      NumbersCompared(t, base, i);
    }
  }

  /** Behind a bare 0x the code stops after the x, the standard after the 0. */
  lemma BareHex(t: string, j: nat, base: nat)
    requires (base == 0 || base == 16) && IsHexAt(t, j) && !StdHexAt(t, j)
    ensures var (b, k) := AfterPrefix(t, j, base); DigitEnd(t, k, b) == j + 2
    ensures var (b, k) := StdBase(t, j, base); k == j && DigitEnd(t, k, b) == j + 1
  {
  }

  lemma NumbersCompared(t: string, base: nat, i: nat)
    requires base != 1 && i == SpaceEnd(t, 0) == StdSpaceEnd(t, 0)
    ensures Parse(t, base) == StdParse(t, base) <==> AsStandard(t, base)
  {
    hide SignedValue, Value, SpaceEnd, StdSpaceEnd, DigitEnd, AfterPrefix, StdBase, FirstBase, IsHexAt, Parse,
         StdParse, IsDigitOf;
    var j := AfterSign(t, i);
    var minus := IsSignAt(t, i) && t[i] == '-';
    var (b, k) := AfterPrefix(t, j, base);
    var e := DigitEnd(t, k, b);
    ParseOf(t, base, i, j, b, k, e);
    var (b', k') := StdBase(t, j, base);
    var e' := DigitEnd(t, k', b');
    StdParseOf(t, base, i, j, b', k', e');
    if (base == 0 || base == 16) && IsHexAt(t, j) && !StdHexAt(t, j) {
      BareHex(t, j, base);
    } else {
      SameDigits(t, base, j);
      ResultsCompared(minus, t[k..e], b, j, k', e);
    }
  }

  /** The same digits: the results differ for a number that is too large and for no number. */
  lemma ResultsCompared(minus: bool, digits: string, b: nat, j: nat, k: nat, e: nat)
    requires AllDigits(digits, b) && j <= k <= e && (e == k ==> k == j && digits == "")
    ensures var v := Value(digits, b);
      Parsed(SignedValue(minus, v), e)
      == (if e == k then Parsed(0, 0)
          else if v >= UINTMAX_COUNT then Parsed(UINTMAX_COUNT - 1, e)
          else Parsed(SignedValue(minus, v), e))
      <==> (e == k ==> j == 0) && (v >= UINTMAX_COUNT ==> v % UINTMAX_COUNT == if minus then 1 else UINTMAX_COUNT - 1)
  {
    var v := Value(digits, b);
    if v >= UINTMAX_COUNT {
      WrapsToLargest(minus, v);
    }
    if e == k {
      NoDigits(minus, digits, b);
    }
    hide SignedValue, Value;
  }

  lemma NoDigits(minus: bool, s: string, b: nat)
    requires s == ""
    ensures Value(s, b) == 0 && SignedValue(minus, Value(s, b)) == 0
  {
  }

  lemma StdParseOf(t: string, base: nat, i: nat, j: nat, b: nat, k: nat, e: nat)
    requires StdSpaceEnd(t, 0) == i && j == AfterSign(t, i) && StdBase(t, j, base) == (b, k) && DigitEnd(t, k, b) == e
    ensures StdParse(t, base)
         == if e == k then Parsed(0, 0)
            else if Value(t[k..e], b) >= UINTMAX_COUNT then Parsed(UINTMAX_COUNT - 1, e)
            else Parsed(SignedValue(IsSignAt(t, i) && t[i] == '-', Value(t[k..e], b)), e)
  {
    hide StdSpaceEnd, DigitEnd, StdBase, Value, SignedValue, IsSignAt;
  }

  /** Apart from a bare 0x both read the same digits, but for the 0 of octal. */
  lemma SameDigits(t: string, base: nat, j: nat)
    requires base != 1 && j <= |t| && ((base == 0 || base == 16) && IsHexAt(t, j) ==> StdHexAt(t, j))
    ensures var (b, k) := AfterPrefix(t, j, base);
      var (b', k') := StdBase(t, j, base);
      var e := DigitEnd(t, k, b);
      && b == b' && e == DigitEnd(t, k', b) && Value(t[k'..e], b) == Value(t[k..e], b)
      && (e == k' ==> k == j == k') && (e == k' <==> !DigitAt(t, j, FirstBase(base)))
  {
    hide Value;
    var (b, k) := AfterPrefix(t, j, base);
    if base == 0 && b == 8 {
      OctalZero(t, j, DigitEnd(t, k, b));
      assert DigitEnd(t, j, 8) == DigitEnd(t, j + 1, 8);
    } else if (base == 0 || base == 16) && StdHexAt(t, j) {
      assert DigitEnd(t, k, b) > k;
    } else {
      assert DigitEnd(t, j, b) == j <==> !DigitAt(t, j, b);
    }
  }
}
