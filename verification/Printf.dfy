/**
 * vsnprintf of etc/yuserlib/common/vsnprintf.c: a reference that reads a format
 * directive by directive and knows no buffer, and the character-by-character state
 * machine that writes into a bounded buffer.
 */
module Printf {
  import opened PrintInt
  import opened BoundedPrint

  datatype Arg =
    | IntArg(value: int)
    | StrArg(text: string)
    | NullArg               // a null char pointer
    | CountArg              // a pointer that %n stores through

  const RANK_CHAR: int := -2
  const RANK_SHORT: int := -1
  const RANK_INT: int := 0
  const RANK_LONG: int := 1
  const RANK_LONGLONG: int := 2
  const POINTER_DIGITS: int := 8

  /** Field specification of the directive that is being read. */
  datatype Spec = Spec(flags: Flags, width: int, prec: int, rank: int)

  const NEW_SPEC: Spec := Spec(NO_FLAGS, 0, -1, RANK_INT)

  /**
   * The output so far: next argument, text, what %n has stored (with the rank it was
   * stored at), and whether the C behaviour is defined up to here.
   */
  datatype Output = Output(k: nat, text: string, counts: seq<(int, nat)>, ok: bool)

  // ------------------------------------------------------------ arguments

  function IntAt(args: seq<Arg>, k: nat): int {
    if k < |args| && args[k].IntArg? then args[k].value else 0
  }

  function TookInt(args: seq<Arg>, c: Output): Output {
    c.(k := c.k + 1, ok := c.ok && c.k < |args| && args[c.k].IntArg?)
  }

  /** A value cut to the given number of values, as an unsigned and as a signed integer type does. */
  function Unsigned(v: int, values: nat): (r: nat)
    requires values > 0
    ensures r < values
  {
    v % values
  }

  function Signed(v: int, values: nat): int
    requires values > 0
  {
    var u := Unsigned(v, values);
    if u >= values / 2 then u - values else u
  }

  /** Values of the C integer type of a rank, on a 32-bit machine. */
  function ValuesOf(rank: int): (n: nat)
    ensures n > 0 && n <= UINTMAX_COUNT
  {
    if rank <= RANK_CHAR then 0x100
    else if rank == RANK_SHORT then 0x1_0000
    else if rank <= RANK_LONG then 0x1_0000_0000
    else UINTMAX_COUNT
  }

  // ------------------------------------------------------------ conversions

  datatype IntConversion = IntConversion(flags: Flags, base: nat, prec: int, val: nat) | NotAnInteger

  /** Base, flags, precision and value modulo 2^64 of an integer conversion of argument v. */
  function AsInteger(ch: char, s: Spec, v: int): (r: IntConversion)
    ensures r.IntConversion? ==> IsBase(r.base) && r.val < UINTMAX_COUNT
  {
    var unsigned, signed := Unsigned(v, ValuesOf(s.rank)), Signed(v, ValuesOf(s.rank));
    match ch
    case 'P' => IntConversion(s.flags.(upper := true, hash := true), 16, POINTER_DIGITS, Unsigned(v, 0x1_0000_0000))
    case 'p' => IntConversion(s.flags.(hash := true), 16, POINTER_DIGITS, Unsigned(v, 0x1_0000_0000))
    case 'd' => IntConversion(s.flags.(signed := true), 10, s.prec, Unsigned(signed, UINTMAX_COUNT))
    case 'i' => IntConversion(s.flags.(signed := true), 10, s.prec, Unsigned(signed, UINTMAX_COUNT))
    case 'o' => IntConversion(s.flags, 8, s.prec, unsigned)
    case 'u' => IntConversion(s.flags, 10, s.prec, unsigned)
    case 'X' => IntConversion(s.flags.(upper := true), 16, s.prec, unsigned)
    case 'x' => IntConversion(s.flags, 16, s.prec, unsigned)
    case _ => NotAnInteger
  }

  /** The characters of a string that a precision lets through; -1 stands for no precision. */
  function Cut(s: string, prec: int): string {
    if prec != -1 && |s| > prec then (if prec < 0 then "" else s[..prec]) else s
  }

  function RenderStr(s: string, f: Flags, width: int, prec: int): string {
    var t := Cut(s, prec);
    var pad := if width > |t| then width - |t| else 0;
    (if f.minus then "" else Repeat(if f.zero then '0' else ' ', pad)) + t
    + (if f.minus then Repeat(' ', pad) else "")
  }

  /**
   * The layout of a string conversion: the first characters of the string, as many as the
   * precision lets through, at one end of the field, and padding everywhere else.
   */
  lemma StringField(s: string, f: Flags, width: int, prec: int)
    requires prec >= -1
    ensures var r := RenderStr(s, f, width, prec);
      var m := if prec == -1 || |s| <= prec then |s| else prec;
      && |r| == (if width > m then width else m)
      && (if f.minus then r[..m] else r[|r| - m..]) == s[..m]
      && forall k :: 0 <= k < |r| - m ==>
          (if f.minus then r[m + k] == ' ' else r[k] == if f.zero then '0' else ' ')
  {
    var m := if prec == -1 || |s| <= prec then |s| else prec;
    assert Cut(s, prec) == s[..m];
  }

  function StrAt(args: seq<Arg>, k: nat): string {
    if k < |args| && args[k].StrArg? then args[k].text else "(null)"
  }

  /** %s and %c: a precision below -1, which no valid directive has, is undefined. */
  function ConvertStr(ch: char, args: seq<Arg>, c: Output, s: Spec): Output {
    if ch == 'c' then
      TookInt(args, c).(text := c.text + RenderStr([CharOf(IntAt(args, c.k))], s.flags, s.width, s.prec),
                        ok := TookInt(args, c).ok && s.prec >= -1)
    else
      c.(k := c.k + 1,
         text := c.text + RenderStr(StrAt(args, c.k), s.flags, s.width, s.prec),
         ok := c.ok && s.prec >= -1 && c.k < |args| && (args[c.k].StrArg? || args[c.k].NullArg?))
  }

  function CharOf(v: int): char {
    Unsigned(v, 0x100) as char
  }

  /** The terminal character of a directive. */
  function Convert(ch: char, args: seq<Arg>, c: Output, s: Spec): Output {
    var n := AsInteger(ch, s, IntAt(args, c.k));
    if n.IntConversion? then
      TookInt(args, c).(text := c.text + RenderInt(n.val, n.flags, n.base, s.width, n.prec))
    else if ch == 'c' || ch == 's' then ConvertStr(ch, args, c, s)
    else if ch == 'n' then
      c.(k := c.k + 1, counts := c.counts + [(s.rank, |c.text|)],
         ok := c.ok && c.k < |args| && args[c.k].CountArg?)
    else c.(text := c.text + [ch])
  }

  // ------------------------------------------------------------ the parts of a directive

  function WithFlag(f: Flags, ch: char): Flags {
    match ch
    case '-' => f.(minus := true)
    case '+' => f.(plus := true)
    case '\'' => f.(tick := true)
    case ' ' => f.(space := true)
    case '#' => f.(hash := true)
    case _ => f.(zero := true)
  }

  predicate IsFlag(ch: char) {
    ch == '-' || ch == '+' || ch == '\'' || ch == ' ' || ch == '#' || ch == '0'
  }

  predicate IsDigit(ch: char) {
    '0' <= ch <= '9'
  }

  predicate IsLength(ch: char) {
    ch == 'h' || ch == 'l' || ch == 'j' || ch == 'z' || ch == 't' || ch == 'L' || ch == 'q'
  }

  function WithLength(rank: int, ch: char): int {
    match ch
    case 'h' => rank - 1
    case 'l' => rank + 1
    case 'j' => RANK_LONGLONG
    case 'z' => RANK_LONG
    case 't' => RANK_LONG
    case _ => rank + 2
  }

  function Clamp(rank: int): int {
    if rank < RANK_CHAR then RANK_CHAR else if rank > RANK_LONGLONG then RANK_LONGLONG else rank
  }

  function AddDigit(n: int, ch: char): int {
    n * 10 + (ch as int - '0' as int)
  }

  /** A star width: a negative one is a minus flag and its absolute value. */
  function StarWidth(s: Spec, v: int): Spec {
    if v < 0 then s.(width := -v, flags := s.flags.(minus := true)) else s.(width := v)
  }

  function StarPrec(s: Spec, v: int): Spec {
    s.(prec := if v < 0 then -1 else v)
  }

  // each part is read as far as it goes, then the next part takes over

  function FromNormal(fmt: string, i: nat, args: seq<Arg>, c: Output): Output
    decreases if i < |fmt| then |fmt| - i else 0, 5
  {
    if i >= |fmt| then c
    else if fmt[i] == '%' then FromFlags(fmt, i + 1, args, c, NEW_SPEC)
    else FromNormal(fmt, i + 1, args, c.(text := c.text + [fmt[i]]))
  }

  function FromFlags(fmt: string, i: nat, args: seq<Arg>, c: Output, s: Spec): Output
    decreases if i < |fmt| then |fmt| - i else 0, 4
  {
    if i < |fmt| && IsFlag(fmt[i]) then FromFlags(fmt, i + 1, args, c, s.(flags := WithFlag(s.flags, fmt[i])))
    else FromWidth(fmt, i, args, c, s)
  }

  function FromWidth(fmt: string, i: nat, args: seq<Arg>, c: Output, s: Spec): Output
    decreases if i < |fmt| then |fmt| - i else 0, 3
  {
    if i >= |fmt| then c
    else if IsDigit(fmt[i]) then FromWidth(fmt, i + 1, args, c, s.(width := AddDigit(s.width, fmt[i])))
    else if fmt[i] == '*' then FromWidth(fmt, i + 1, args, TookInt(args, c), StarWidth(s, IntAt(args, c.k)))
    else if fmt[i] == '.' then FromPrec(fmt, i + 1, args, c, s.(prec := 0))
    else FromModifiers(fmt, i, args, c, s)
  }

  function FromPrec(fmt: string, i: nat, args: seq<Arg>, c: Output, s: Spec): Output
    decreases if i < |fmt| then |fmt| - i else 0, 2
  {
    if i >= |fmt| then c
    else if IsDigit(fmt[i]) then FromPrec(fmt, i + 1, args, c, s.(prec := AddDigit(s.prec, fmt[i])))
    else if fmt[i] == '*' then FromPrec(fmt, i + 1, args, TookInt(args, c), StarPrec(s, IntAt(args, c.k)))
    else FromModifiers(fmt, i, args, c, s)
  }

  function FromModifiers(fmt: string, i: nat, args: seq<Arg>, c: Output, s: Spec): Output
    decreases if i < |fmt| then |fmt| - i else 0, 1
  {
    if i >= |fmt| then c
    else if IsLength(fmt[i]) then FromModifiers(fmt, i + 1, args, c, s.(rank := WithLength(s.rank, fmt[i])))
    else FromNormal(fmt, i + 1, args, Convert(fmt[i], args, c, s.(rank := Clamp(s.rank))))
  }

  /** The whole output for a format and its arguments. */
  function Render(fmt: string, args: seq<Arg>): Output {
    FromNormal(fmt, 0, args, Output(0, "", [], true))
  }

  // ------------------------------------------------------------ undefined stays undefined

  lemma {:induction false} OkBefore(fmt: string, i: nat, args: seq<Arg>, c: Output, s: Spec, st: St)
    requires Final(fmt, i, args, c, s, st).ok
    ensures c.ok
    decreases if i < |fmt| then |fmt| - i else 0, StRank(st)
  {
    if i < |fmt| {
      match st
      case Normal =>
        if fmt[i] == '%' { OkBefore(fmt, i + 1, args, c, NEW_SPEC, InFlags); }
        else { OkBefore(fmt, i + 1, args, c.(text := c.text + [fmt[i]]), s, Normal); }
      case InFlags =>
        if IsFlag(fmt[i]) { OkBefore(fmt, i + 1, args, c, s.(flags := WithFlag(s.flags, fmt[i])), InFlags); }
        else { OkBefore(fmt, i, args, c, s, InWidth); }
      case InWidth =>
        if IsDigit(fmt[i]) { OkBefore(fmt, i + 1, args, c, s.(width := AddDigit(s.width, fmt[i])), InWidth); }
        else if fmt[i] == '*' { OkBefore(fmt, i + 1, args, TookInt(args, c), StarWidth(s, IntAt(args, c.k)), InWidth); }
        else if fmt[i] == '.' { OkBefore(fmt, i + 1, args, c, s.(prec := 0), InPrec); }
        else { OkBefore(fmt, i, args, c, s, InModifiers); }
      case InPrec =>
        if IsDigit(fmt[i]) { OkBefore(fmt, i + 1, args, c, s.(prec := AddDigit(s.prec, fmt[i])), InPrec); }
        else if fmt[i] == '*' { OkBefore(fmt, i + 1, args, TookInt(args, c), StarPrec(s, IntAt(args, c.k)), InPrec); }
        else { OkBefore(fmt, i, args, c, s, InModifiers); }
      case InModifiers =>
        if IsLength(fmt[i]) { OkBefore(fmt, i + 1, args, c, s.(rank := WithLength(s.rank, fmt[i])), InModifiers); }
        else {
          OkBefore(fmt, i + 1, args, Convert(fmt[i], args, c, s.(rank := Clamp(s.rank))), s, Normal);
          ConvertOk(fmt[i], args, c, s.(rank := Clamp(s.rank)));
        }
    } else {
      assert FromWidth(fmt, i, args, c, s) == c;
      assert Final(fmt, i, args, c, s, st) == c;
    }
  }

  lemma ConvertOk(ch: char, args: seq<Arg>, c: Output, s: Spec)
    ensures Convert(ch, args, c, s).ok ==> c.ok
  {
  }

  // ------------------------------------------------------------ the state machine

  datatype St = Normal | InFlags | InWidth | InPrec | InModifiers

  function StRank(st: St): nat {
    match st
    case Normal => 4
    case InFlags => 3
    case InWidth => 2
    case InPrec => 1
    case InModifiers => 0
  }

  /** The output of the rest of the format, from a state of the machine. */
  function Final(fmt: string, i: nat, args: seq<Arg>, c: Output, s: Spec, st: St): Output {
    match st
    case Normal => FromNormal(fmt, i, args, c)
    case InFlags => FromFlags(fmt, i, args, c, s)
    case InWidth => FromWidth(fmt, i, args, c, s)
    case InPrec => FromPrec(fmt, i, args, c, s)
    case InModifiers => FromModifiers(fmt, i, args, c, s)
  }

  /** is_string: padding, the characters that the precision lets through, padding. */
  method PutString(buf: array<char>, ghost q0: int, q: int, o: nat, n: nat,
                   sarg: string, f: Flags, fieldWidth: int, prec: int) returns (q': int, o': nat)
    requires Room(buf, q0, n) && (o < n ==> q == q0 + o) && prec >= -1
    modifies buf
    ensures o' == o + |RenderStr(sarg, f, fieldWidth, prec)| && (o' < n ==> q' == q0 + o')
    ensures Appended(old(buf[..]), buf[..], q0, n, o, RenderStr(sarg, f, fieldWidth, prec))
  {
    var slen, width := |sarg|, fieldWidth;
    if prec != -1 && slen > prec {
      slen := prec;
    }
    ghost var t := Cut(sarg, prec);
    assert t == sarg[..slen];
    ghost var b0 := buf[..];
    ghost var pad := if width > slen then width - slen else 0;
    ghost var lead := if f.minus then "" else Repeat(if f.zero then '0' else ' ', pad);
    ghost var trail := if f.minus then Repeat(' ', if width > slen then width - slen else 0) else "";
    assert RenderStr(sarg, f, fieldWidth, prec) == lead + t + trail;
    hide RenderStr, Cut, Appended;
    q', o' := q, o;
    if width > slen && !f.minus {
      var pad := if f.zero then '0' else ' ';
      q', o' := Pad(buf, q0, q', o', n, pad, width, slen);
      width := slen;
    } else {
      AppendedNothing(b0, q0, n, o);
    }
    ghost var b1 := buf[..];
    assert Appended(b0, b1, q0, n, o, lead);
    q', o' := PutChars(buf, q0, q', o', n, sarg, slen);
    ghost var b2 := buf[..];
    AppendedTwice(b0, b1, b2, q0, n, o, lead, t);
    if width > slen && f.minus {
      q', o' := Pad(buf, q0, q', o', n, ' ', width, slen);
    } else {
      AppendedNothing(b2, q0, n, o');
    }
    AppendedTwice(b0, b2, buf[..], q0, n, o, lead + t, trail);
  }

  method PutChars(buf: array<char>, ghost q0: int, q: int, o: nat, n: nat, sarg: string, slen: nat)
    returns (q': int, o': nat)
    requires Room(buf, q0, n) && (o < n ==> q == q0 + o) && slen <= |sarg|
    modifies buf
    ensures o' == o + slen && (o' < n ==> q' == q0 + o')
    ensures Appended(old(buf[..]), buf[..], q0, n, o, sarg[..slen])
  {
    q', o' := q, o;
    var i := slen;
    while i != 0
      invariant 0 <= i <= slen && o' == o + (slen - i) && (o' < n ==> q' == q0 + o')
      invariant Appended(old(buf[..]), buf[..], q0, n, o, sarg[..slen - i])
      decreases i
    {
      ghost var b1 := buf[..];
      q', o' := Emit(buf, q0, q', o', n, sarg[slen - i]);
      AppendedTwice(old(buf[..]), b1, buf[..], q0, n, o, sarg[..slen - i], [sarg[slen - i]]);
      assert sarg[..slen - i] + [sarg[slen - i]] == sarg[..slen - i + 1];
      i := i - 1;
    }
  }

  /** The output modifiers: one terminal character of a directive. */
  method PutConversion(buf: array<char>, q: int, o: nat, n: nat, ch: char, args: seq<Arg>, k: nat, s: Spec,
                       ghost c: Output)
    returns (q': int, o': nat, k': nat, stored: seq<(int, nat)>)
    requires Room(buf, 0, n) && (o < n ==> q == o) && o == |c.text| && k == c.k
    requires Convert(ch, args, c, s).ok
    modifies buf
    ensures var c' := Convert(ch, args, c, s);
      && o' == |c'.text| && k' == c'.k && c'.counts == c.counts + stored && (o' < n ==> q' == o')
      && c.text <= c'.text && Appended(old(buf[..]), buf[..], 0, n, o, c'.text[o..])
  {
    q', o', k', stored := q, o, k, [];
    var v := AsInteger(ch, s, IntAt(args, k));
    if v.IntConversion? {
      var textStart := if o < n then q else 0;
      var sz := FormatInt(buf, textStart, if o < n then n - o else 0, v.val, v.flags, v.base, s.width, v.prec);
      Shifted(old(buf[..]), buf[..], n, o, textStart, RenderInt(v.val, v.flags, v.base, s.width, v.prec));
      q', o', k' := q + sz, o + sz, k + 1;
    } else if ch == 'c' {
      q', o' := PutString(buf, 0, q, o, n, [CharOf(IntAt(args, k))], s.flags, s.width, s.prec);
      k' := k + 1;
    } else if ch == 's' {
      q', o' := PutString(buf, 0, q, o, n, StrAt(args, k), s.flags, s.width, s.prec);
      k' := k + 1;
    } else if ch == 'n' {
      stored := [(s.rank, o)];
      k' := k + 1;
      AppendedNothing(buf[..], 0, n, o);
    } else {
      q', o' := Emit(buf, 0, q, o, n, ch);
    }
  }

  /** A field printed with the rest of the buffer is the field printed at its place in the whole. */
  lemma Shifted(before: seq<char>, after: seq<char>, n: nat, o: nat, q0: int, text: string)
    requires o < n ==> q0 == o
    requires Appended(before, after, q0, if o < n then n - o else 0, 0, text)
    ensures Appended(before, after, 0, n, o, text)
  {
  }

  /** One character of the format that belongs to no directive. */
  method PutPlain(buffer: array<char>, q: int, o: nat, n: nat, ch: char, ghost before: seq<char>, ghost text: string)
    returns (q': int, o': nat)
    requires n <= buffer.Length && (o < n ==> q == o) && o == |text|
    requires Appended(before, buffer[..], 0, n, 0, text)
    modifies buffer
    ensures o' == |text + [ch]| && (o' < n ==> q' == o') && Appended(before, buffer[..], 0, n, 0, text + [ch])
  {
    hide Appended;
    ghost var b1 := buffer[..];
    q', o' := Emit(buffer, 0, q, o, n, ch);
    AppendedTwice(before, b1, buffer[..], 0, n, 0, text, [ch]);
  }

  /** The terminal character of a directive. */
  method PutTerminal(buffer: array<char>, q: int, o: nat, n: nat, ch: char, args: seq<Arg>, k: nat, s: Spec,
                     ghost before: seq<char>, ghost c: Output)
    returns (q': int, o': nat, k': nat, stored: seq<(int, nat)>)
    requires n <= buffer.Length && (o < n ==> q == o) && o == |c.text| && k == c.k
    requires Convert(ch, args, c, s).ok && Appended(before, buffer[..], 0, n, 0, c.text)
    modifies buffer
    ensures var c' := Convert(ch, args, c, s);
      && o' == |c'.text| && k' == c'.k && c'.counts == c.counts + stored && (o' < n ==> q' == o')
      && Appended(before, buffer[..], 0, n, 0, c'.text)
  {
    hide Appended, Convert;
    ghost var c', b1 := Convert(ch, args, c, s), buffer[..];
    q', o', k', stored := PutConversion(buffer, q, o, n, ch, args, k, s, c);
    AppendedTwice(before, b1, buffer[..], 0, n, 0, c.text, c'.text[o..]);
    assert c'.text == c.text + c'.text[o..];
  }

  /** One character in each state of the machine. */
  lemma FinalUnfolds(fmt: string, i: nat, args: seq<Arg>, c: Output, s: Spec, st: St)
    requires i < |fmt|
    ensures Final(fmt, i, args, c, s, st)
      == match st
         case Normal =>
           if fmt[i] == '%' then Final(fmt, i + 1, args, c, NEW_SPEC, InFlags)
           else Final(fmt, i + 1, args, c.(text := c.text + [fmt[i]]), s, Normal)
         case InFlags =>
           if IsFlag(fmt[i]) then Final(fmt, i + 1, args, c, s.(flags := WithFlag(s.flags, fmt[i])), InFlags)
           else Final(fmt, i, args, c, s, InWidth)
         case InWidth =>
           if IsDigit(fmt[i]) then Final(fmt, i + 1, args, c, s.(width := AddDigit(s.width, fmt[i])), InWidth)
           else if fmt[i] == '*' then Final(fmt, i + 1, args, TookInt(args, c), StarWidth(s, IntAt(args, c.k)), InWidth)
           else if fmt[i] == '.' then Final(fmt, i + 1, args, c, s.(prec := 0), InPrec)
           else Final(fmt, i, args, c, s, InModifiers)
         case InPrec =>
           if IsDigit(fmt[i]) then Final(fmt, i + 1, args, c, s.(prec := AddDigit(s.prec, fmt[i])), InPrec)
           else if fmt[i] == '*' then Final(fmt, i + 1, args, TookInt(args, c), StarPrec(s, IntAt(args, c.k)), InPrec)
           else Final(fmt, i, args, c, s, InModifiers)
         case InModifiers =>
           if IsLength(fmt[i]) then Final(fmt, i + 1, args, c, s.(rank := WithLength(s.rank, fmt[i])), InModifiers)
           else
             var s' := s.(rank := Clamp(s.rank));
             Final(fmt, i + 1, args, Convert(fmt[i], args, c, s'), s', Normal)
  {
    hide Convert, TookInt, StarWidth, StarPrec, WithFlag, WithLength, Clamp, AddDigit, IntAt, IsFlag, IsDigit, IsLength;
  }

  lemma FinalAtEnd(fmt: string, i: nat, args: seq<Arg>, c: Output, s: Spec, st: St)
    requires i >= |fmt|
    ensures Final(fmt, i, args, c, s, st) == c
  {
    assert FromWidth(fmt, i, args, c, s) == c;
  }

  /**
   * vsnprintf: whatever n is, the result is the length of the full output; the buffer
   * holds its first n - 1 characters and a terminator, and nothing else is written.
   */
  method Vsnprintf(buffer: array<char>, n: nat, format: string, args: seq<Arg>)
    returns (len: nat, counts: seq<(int, nat)>)
    requires n <= buffer.Length && Render(format, args).ok
    modifies buffer
    ensures len == |Render(format, args).text| && counts == Render(format, args).counts
    ensures forall i :: 0 <= i < buffer.Length ==>
      buffer[i] ==
        if n > 0 && i < len && i < n - 1 then Render(format, args).text[i]
        else if n > 0 && i == (if len < n then len else n - 1) then '\0'
        else old(buffer[i])
  {
    ghost var before, all := buffer[..], Render(format, args);
    var p, q, o, k, s, state := 0, 0, 0, 0, NEW_SPEC, Normal;
    counts := [];
    ghost var c := Output(0, "", [], true);
    while p < |format|
      invariant 0 <= p <= |format|
      invariant Final(format, p, args, c, s, state) == all
      invariant k == c.k && counts == c.counts && o == |c.text| && (o < n ==> q == o)
      invariant Appended(before, buffer[..], 0, n, 0, c.text)
      decreases |format| - p, StRank(state)
    {
      hide RenderInt, RenderStr, Appended, Convert, AsInteger, FromNormal, FromFlags, FromWidth, FromPrec,
           FromModifiers, Final, IsFlag, IsLength;
      FinalUnfolds(format, p, args, c, s, state);
      var ch := format[p];
      p := p + 1;
      match state
      case Normal =>
        if ch == '%' {
          state := InFlags;
          s := NEW_SPEC;
        } else {
          q, o := PutPlain(buffer, q, o, n, ch, before, c.text);
          c := c.(text := c.text + [ch]);
        }
      case InFlags =>
        if IsFlag(ch) {
          s := s.(flags := WithFlag(s.flags, ch));
        } else {
          state := InWidth;
          p := p - 1;  // process this character again
        }
      case InWidth =>
        if IsDigit(ch) {
          s := s.(width := AddDigit(s.width, ch));
        } else if ch == '*' {
          s := StarWidth(s, IntAt(args, k));
          c := TookInt(args, c);
          k := k + 1;
        } else if ch == '.' {
          s := s.(prec := 0);
          state := InPrec;
        } else {
          state := InModifiers;
          p := p - 1;
        }
      case InPrec =>
        if IsDigit(ch) {
          s := s.(prec := AddDigit(s.prec, ch));
        } else if ch == '*' {
          s := StarPrec(s, IntAt(args, k));
          c := TookInt(args, c);
          k := k + 1;
        } else {
          state := InModifiers;
          p := p - 1;
        }
      case InModifiers =>
        if IsLength(ch) {
          s := s.(rank := WithLength(s.rank, ch));
        } else {
          state := Normal;
          s := s.(rank := Clamp(s.rank));
          ghost var c' := Convert(ch, args, c, s);
          OkBefore(format, p, args, c', s, Normal);
          var stored;
          q, o, k, stored := PutTerminal(buffer, q, o, n, ch, args, k, s, before, c);
          counts := counts + stored;
          c := c';
        }
    }
    FinalAtEnd(format, p, args, c, s, state);
    len := o;
    hide Appended;
    Terminate(buffer, q, o, n, before, c.text);
  }

  /** Null-terminate the string. */
  method Terminate(buffer: array<char>, q: int, o: nat, n: nat, ghost before: seq<char>, ghost text: string)
    requires n <= buffer.Length && o == |text| && (o < n ==> q == o)
    requires Appended(before, buffer[..], 0, n, 0, text)
    modifies buffer
    ensures |before| == buffer.Length && forall i :: 0 <= i < buffer.Length ==>
      buffer[i] ==
        if n > 0 && i < o && i < n - 1 then text[i]
        else if n > 0 && i == (if o < n then o else n - 1) then '\0'
        else before[i]
  {
    if o < n {
      buffer[q] := '\0';
    } else if n > 0 {
      buffer[n - 1] := '\0';
    }
  }
}
