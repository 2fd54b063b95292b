/** format_int of etc/yuserlib/common/vsnprintf.c: the same string, written within a bound. */
module BoundedPrint {
  import opened PrintInt

  /**
   * text has been put at position o of an output that starts at index q0 of the buffer
   * and of which only the first n characters are stored. Nothing else has changed.
   */
  ghost predicate Appended(before: seq<char>, after: seq<char>, q0: int, n: nat, o: nat, text: string) {
    && |after| == |before|
    && forall i :: 0 <= i < |after| ==>
        after[i] == if q0 + o <= i < q0 + o + |text| && i < q0 + n then text[i - q0 - o] else before[i]
  }

  lemma AppendedTwice(b0: seq<char>, b1: seq<char>, b2: seq<char>, q0: int, n: nat, o: nat, t1: string, t2: string)
    requires Appended(b0, b1, q0, n, o, t1) && Appended(b1, b2, q0, n, o + |t1|, t2)
    ensures Appended(b0, b2, q0, n, o, t1 + t2)
  {
  }

  /** The output buffer: only indices q0 .. q0 + n may be written. */
  ghost predicate Room(buf: array<char>, q0: int, n: nat) {
    n > 0 ==> 0 <= q0 && q0 + n <= buf.Length
  }

  /** EMIT */
  method Emit(buf: array<char>, ghost q0: int, q: int, o: nat, n: nat, x: char) returns (q': int, o': nat)
    requires Room(buf, q0, n) && (o < n ==> q == q0 + o)
    modifies buf
    ensures o' == o + 1 && (o' < n ==> q' == q0 + o') && q' == if o < n then q + 1 else q
    ensures Appended(old(buf[..]), buf[..], q0, n, o, [x])
  {
    q' := q;
    if o < n {
      buf[q] := x;
      q' := q + 1;
    }
    o' := o + 1;
  }

  /** The loops that emit one character until the field width is used up. */
  method Pad(buf: array<char>, ghost q0: int, q: int, o: nat, n: nat, c: char, width: int, nchars: int)
    returns (q': int, o': nat)
    requires Room(buf, q0, n) && (o < n ==> q == q0 + o)
    modifies buf
    ensures o' == o + (if width > nchars then width - nchars else 0) && (o' < n ==> q' == q0 + o')
    ensures Appended(old(buf[..]), buf[..], q0, n, o, Repeat(c, o' - o))
  {
    q', o' := q, o;
    var w := width;
    while w > nchars
      invariant o' == o + (width - w) && w <= width && (w < width ==> w >= nchars)
      invariant o' < n ==> q' == q0 + o'
      invariant Appended(old(buf[..]), buf[..], q0, n, o, Repeat(c, o' - o))
    {
      ghost var b1 := buf[..];
      q', o' := Emit(buf, q0, q', o', n, c);
      AppendedTwice(old(buf[..]), b1, buf[..], q0, n, o, Repeat(c, o' - 1 - o), [c]);
      assert Repeat(c, o' - 1 - o) + [c] == Repeat(c, o' - o);
      w := w - 1;
    }
  }

  /** The first m characters of the text are the rest of the digits, with k of them before the next mark. */
  ghost predicate Remaining(text: string, m: nat, v: nat, base: nat, upper: bool, left: nat, t: nat, k: nat)
    requires 2 <= base <= 16 && t > 0
  {
    m <= |text| && text[..m] == TickedFrom(Digits(v, base, upper, left), t, k)
  }

  /** The last characters of what is left to print: the low digit, behind it a mark if one is due. */
  lemma NumberStep(text: string, m: nat, v: nat, base: nat, upper: bool, left: nat, t: nat, k: nat)
    requires 2 <= base <= 16 && t > 0 && 0 < m <= |text|
    requires Remaining(text, m, v, base, upper, left, t, k)
    ensures left > 0
    ensures var w := if k == 0 then 2 else 1;
      && m >= w
      && (k == 0 ==> text[m - 1] == '_')
      && text[m - w] == DigitChar(Rem(v, base), upper)
      && Remaining(text, m - w, Quot(v, base), base, upper, left - 1, t, if k == 0 then t - 1 else k - 1)
  {
    var s, rest := Digits(v, base, upper, left), text[..m];
    var r0 := TickedFrom(Digits(Quot(v, base), base, upper, left - 1), t, if k == 0 then t - 1 else k - 1);
    assert s[..left - 1] == Digits(Quot(v, base), base, upper, left - 1);
    assert rest == r0 + [DigitChar(Rem(v, base), upper)] + (if k == 0 then "_" else "");
    var w := if k == 0 then 2 else 1;
    assert rest[|r0|] == text[m - w] && rest[m - 1] == text[m - 1];
    assert text[..m - w] == rest[..m - w] == r0;
  }

  /** The buffer while the number is generated: the characters from index m of text on are in place. */
  ghost predicate Tail(before: seq<char>, after: seq<char>, q0: int, n: nat, o: nat, text: string, m: nat) {
    && |after| == |before|
    && forall i :: 0 <= i < |after| ==>
        after[i] == if q0 + o + m <= i < q0 + o + |text| && i < q0 + n then text[i - q0 - o] else before[i]
  }

  /** if (oo < n) *qq = c, where c is character m of the text */
  method StoreBack(buf: array<char>, ghost before: seq<char>, ghost q0: int, qq: int, oo: nat, n: nat,
                   ghost o: nat, ghost text: string, ghost m: nat, c: char)
    requires Room(buf, q0, n) && m < |text| && c == text[m]
    requires oo == o + m && (oo < n ==> qq == q0 + oo)
    requires Tail(before, buf[..], q0, n, o, text, m + 1)
    modifies buf
    ensures Tail(before, buf[..], q0, n, o, text, m)
  {
    if oo < n {
      buf[qq] := c;
    }
  }

  /** The loop that generates the number from right to left: the count ends at exactly zero. */
  method PutDigits(buf: array<char>, ghost q0: int, q: int, o: nat, n: nat,
                   val: nat, base: nat, upper: bool, ghost d: nat, tickskip: nat, count: nat, ghost text: string)
    requires Room(buf, q0, n) && (o < n ==> q == q0 + o)
    requires 2 <= base <= 16 && tickskip > 0
    requires count == |text| && Remaining(text, count, val, base, upper, d, tickskip, tickskip)
    modifies buf
    ensures Tail(old(buf[..]), buf[..], q0, n, o, text, 0)
  {
    ghost var before := buf[..];
    assert Tail(before, before, q0, n, o, text, count);
    hide *;
    var qq, oo := q + count, o + count;
    var ndigits: nat, v: nat, b4tick: nat := count, val, tickskip;
    ghost var left: nat := d;
    while ndigits > 0
      invariant 0 <= ndigits <= count && oo == o + ndigits && qq == q + ndigits
      invariant Remaining(text, ndigits, v, base, upper, left, tickskip, b4tick)
      invariant Tail(before, buf[..], q0, n, o, text, ndigits)
      decreases ndigits
    {
      NumberStep(text, ndigits, v, base, upper, left, tickskip, b4tick);
      if b4tick == 0 {
        qq := qq - 1;
        oo := oo - 1;
        ndigits := ndigits - 1;
        StoreBack(buf, before, q0, qq, oo, n, o, text, ndigits, '_');
        b4tick := tickskip - 1;
      } else {
        b4tick := b4tick - 1;
      }
      qq := qq - 1;
      oo := oo - 1;
      ndigits := ndigits - 1;
      StoreBack(buf, before, q0, qq, oo, n, o, text, ndigits, DigitChar(Rem(v, base), upper));
      v := Quot(v, base);
      left := left - 1;
    }
  }

  method PutNumber(buf: array<char>, ghost q0: int, q: int, o: nat, n: nat,
                   val: nat, base: nat, upper: bool, ghost d: nat, tickskip: nat, count: nat)
    requires Room(buf, q0, n) && (o < n ==> q == q0 + o)
    requires 2 <= base <= 16 && tickskip > 0
    requires count == |Ticked(Digits(val, base, upper, d), tickskip)|
    modifies buf
    ensures Appended(old(buf[..]), buf[..], q0, n, o, Ticked(Digits(val, base, upper, d), tickskip))
  {
    ghost var text := Ticked(Digits(val, base, upper, d), tickskip);
    hide Digits, TickedFrom;
    assert text[..count] == text;
    PutDigits(buf, q0, q, o, n, val, base, upper, d, tickskip, count, text);
  }

  /** The loop that counts the digits of val. */
  method CountDigits(val: nat, base: nat) returns (ndigits: nat)
    requires base >= 2
    ensures ndigits == DigitCount(val, base)
  {
    hide Quot;
    var tmpval: nat := val;
    ndigits := 0;
    while tmpval > 0
      invariant DigitCount(val, base) == ndigits + DigitCount(tmpval, base)
      decreases tmpval
    {
      tmpval := Quot(tmpval, base);
      ndigits := ndigits + 1;
    }
  }

  /** The counting part of format_int: how much there is to print before anything is emitted. */
  method Measure(value: nat, flags: Flags, base: nat, precision: int)
    returns (minus: bool, val: nat, tickskip: nat, ndigits: nat, nchars: nat)
    requires value < UINTMAX_COUNT && IsBase(base)
    ensures minus == IsNegative(value, flags) && val == Magnitude(value, flags)
    ensures tickskip == TickSkip(flags, base, NumDigits(val, flags, base, precision)) && tickskip > 0
    ensures ndigits == |Number(val, flags, base, precision)|
    ensures nchars == CoreLength(value, flags, base, precision)
  {
    hide Digits, DigitCount, Quot, Rem, Marks, TickedFrom;
    var prec := precision;
    minus, val := false, value;
    if flags.signed && val >= INTMAX_COUNT {
      minus := true;
      val := UINTMAX_COUNT - val;
    }
    ndigits := CountDigits(val, base);
    if flags.hash && base == 8 {
      if prec < ndigits + 1 {
        prec := ndigits + 1;
      }
    }
    if ndigits < prec {
      ndigits := prec;
    } else if val == 0 {
      ndigits := 1;
    }
    assert ndigits == NumDigits(val, flags, base, precision);
    if flags.tick {
      tickskip := if base == 16 then 4 else 3;
    } else {
      tickskip := ndigits;
    }
    TickedLength(Digits(val, base, flags.upper, ndigits), tickskip);
    hide NumDigits, Ticked;
    ndigits := ndigits + Marks(ndigits, tickskip);
    nchars := ndigits;
    if minus || flags.plus || flags.space {
      nchars := nchars + 1;
    }
    if flags.hash && base == 16 {
      nchars := nchars + 2;
    }
  }

  /** Everything before the number: early space padding, nondigits, zero padding. */
  method PutFront(buf: array<char>, q0: int, n: nat, ghost value: nat, flags: Flags, base: nat, minus: bool,
                  fieldWidth: int, nchars: nat, ndigits: nat, ghost front: string, ghost pad: nat)
    returns (q: int, o: nat, width: int)
    requires Room(buf, q0, n) && minus == IsNegative(value, flags)
    requires front == Sign(value, flags) + Prefix(flags, base) && |front| + ndigits == nchars
    requires pad == if fieldWidth > nchars then fieldWidth - nchars else 0
    modifies buf
    ensures o < n ==> q == q0 + o
    ensures width == if flags.minus || fieldWidth <= nchars then fieldWidth else nchars
    ensures var text := (if !flags.minus && !flags.zero then Repeat(' ', pad) else "") + front
                        + (if !flags.minus && flags.zero then Repeat('0', pad) else "");
      Appended(old(buf[..]), buf[..], q0, n, 0, text) && o == |text|
  {
    hide Sign, Prefix, Appended;
    ghost var b0 := buf[..];
    ghost var lead := if !flags.minus && !flags.zero then Repeat(' ', pad) else "";
    ghost var zeros := if !flags.minus && flags.zero then Repeat('0', pad) else "";
    q, o, width := q0, 0, fieldWidth;
    if !flags.minus && !flags.zero && width > nchars {
      q, o := Pad(buf, q0, q, o, n, ' ', width, nchars);
      width := nchars;
    } else {
      AppendedNothing(b0, q0, n, 0);
    }
    ghost var b1 := buf[..];
    assert Appended(b0, b1, q0, n, 0, lead) && o == |lead|;
    q, o := PutPrefix(buf, q0, q, o, n, value, flags, base, minus);
    ghost var b2 := buf[..];
    AppendedTwice(b0, b1, b2, q0, n, 0, lead, front);
    if !flags.minus && flags.zero && width > ndigits {
      q, o := Pad(buf, q0, q, o, n, '0', width, nchars);
      width := if width > nchars then nchars else width;
    } else {
      AppendedNothing(b2, q0, n, o);
    }
    AppendedTwice(b0, b2, buf[..], q0, n, 0, lead + front, zeros);
  }

  /** format_int */
  method FormatInt(buf: array<char>, q0: int, n: nat, value: nat, flags: Flags, base: nat, fieldWidth: int, prec: int)
    returns (o: nat)
    requires Room(buf, q0, n) && value < UINTMAX_COUNT && IsBase(base)
    modifies buf
    ensures o == |RenderInt(value, flags, base, fieldWidth, prec)|
    ensures Appended(old(buf[..]), buf[..], q0, n, 0, RenderInt(value, flags, base, fieldWidth, prec))
  {
    var minus, val, tickskip, ndigits, nchars := Measure(value, flags, base, prec);
    RenderParts(value, flags, base, fieldWidth, prec);
    ghost var b0, pad, d := buf[..], PadLength(value, flags, base, fieldWidth, prec), NumDigits(val, flags, base, prec);
    ghost var number, front := Number(val, flags, base, prec), Sign(value, flags) + Prefix(flags, base);
    assert |front| + |number| == nchars && pad == if fieldWidth > nchars then fieldWidth - nchars else 0;
    assert number == Ticked(Digits(val, base, flags.upper, d), tickskip);
    hide Digits, NumDigits, Ticked, Sign, Prefix, Magnitude, TickSkip, RenderInt, Number, Appended;
    var q, width;
    q, o, width := PutFront(buf, q0, n, value, flags, base, minus, fieldWidth, nchars, ndigits, front, pad);
    ghost var b1 := buf[..];
    ghost var t := (if !flags.minus && !flags.zero then Repeat(' ', pad) else "") + front
                   + (if !flags.minus && flags.zero then Repeat('0', pad) else "");
    PutNumber(buf, q0, q, o, n, val, base, flags.upper, d, tickskip, ndigits);
    ghost var b2 := buf[..];
    AppendedTwice(b0, b1, b2, q0, n, 0, t, number);
    q, o := q + ndigits, o + ndigits;
    if flags.minus && width > nchars {
      q, o := Pad(buf, q0, q, o, n, ' ', width, nchars);
    } else {
      AppendedNothing(b2, q0, n, o);
    }
    AppendedTwice(b0, b2, buf[..], q0, n, 0, t + number, if flags.minus then Repeat(' ', pad) else "");
  }

  lemma AppendedNothing(b: seq<char>, q0: int, n: nat, o: nat)
    ensures Appended(b, b, q0, n, o, "")
  {
  }

  /** Emit nondigits: the sign, then 0x. */
  method PutPrefix(buf: array<char>, ghost q0: int, q: int, o: nat, n: nat,
                   ghost value: nat, flags: Flags, base: nat, minus: bool) returns (q': int, o': nat)
    requires Room(buf, q0, n) && (o < n ==> q == q0 + o) && minus == IsNegative(value, flags)
    modifies buf
    ensures o' == o + |Sign(value, flags)| + |Prefix(flags, base)| && (o' < n ==> q' == q0 + o')
    ensures Appended(old(buf[..]), buf[..], q0, n, o, Sign(value, flags) + Prefix(flags, base))
  {
    q', o' := PutSign(buf, q0, q, o, n, value, flags, minus);
    ghost var b1 := buf[..];
    hide Sign, Appended;
    if flags.hash && base == 16 {
      q', o' := Emit(buf, q0, q', o', n, '0');
      ghost var b2 := buf[..];
      q', o' := Emit(buf, q0, q', o', n, if flags.upper then 'X' else 'x');
      AppendedTwice(b1, b2, buf[..], q0, n, o + |Sign(value, flags)|, "0", [if flags.upper then 'X' else 'x']);
      assert Prefix(flags, base) == "0" + [if flags.upper then 'X' else 'x'];
    } else {
      AppendedNothing(b1, q0, n, o');
    }
    AppendedTwice(old(buf[..]), b1, buf[..], q0, n, o, Sign(value, flags), Prefix(flags, base));
  }

  method PutSign(buf: array<char>, ghost q0: int, q: int, o: nat, n: nat, ghost value: nat, flags: Flags, minus: bool)
    returns (q': int, o': nat)
    requires Room(buf, q0, n) && (o < n ==> q == q0 + o) && minus == IsNegative(value, flags)
    modifies buf
    ensures o' == o + |Sign(value, flags)| && (o' < n ==> q' == q0 + o')
    ensures Appended(old(buf[..]), buf[..], q0, n, o, Sign(value, flags))
  {
    q', o' := q, o;
    if minus {
      q', o' := Emit(buf, q0, q', o', n, '-');
    } else if flags.plus {
      q', o' := Emit(buf, q0, q', o', n, '+');
    } else if flags.space {
      q', o' := Emit(buf, q0, q', o', n, ' ');
    }
  }
}
