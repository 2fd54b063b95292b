/**
 * What vsnprintf does with every kind of directive, stated from the text of the directive and the arguments
 * alone: the field that is appended, the arguments that are used, and what %n stores.
 */
module FormatMeaning {
  import opened PrintInt
  import opened Printf
  import opened Directives
  import opened IntText

  // ------------------------------------------------------------ directives

  predicate AllIn(s: string, chars: string) {
    forall j :: 0 <= j < |s| ==> s[j] in chars
  }

  const FLAG_CHARS: string := "-+ #0'"
  const DIGIT_CHARS: string := "0123456789"
  const LENGTH_CHARS: string := "hljztLq"

  predicate IsLengthName(length: string) {
    length in {"", "hh", "h", "l", "ll", "j", "z", "t", "L", "q"}
  }

  /** A directive by the grammar, with any character as its conversion that cannot belong to the parts before it. */
  predicate WellFormed(d: Directive) {
    && AllIn(d.flags, FLAG_CHARS)
    && (d.width.Decimal? ==> AllIn(d.width.ds, DIGIT_CHARS) && d.width.ds != "" && d.width.ds[0] != '0')
    && (d.prec.Decimal? ==> AllIn(d.prec.ds, DIGIT_CHARS)) && (!d.point ==> d.prec == Absent)
    && IsLengthName(d.length)
    && d.conversion !in FLAG_CHARS + DIGIT_CHARS + LENGTH_CHARS + "*."
  }

  lemma Classes(ch: char)
    ensures ch in FLAG_CHARS <==> IsFlag(ch)
    ensures ch in DIGIT_CHARS <==> IsDigit(ch)
    ensures ch in LENGTH_CHARS <==> IsLength(ch)
  {
    assert IsDigit(ch) ==> DIGIT_CHARS[ch as int - '0' as int] == ch;
  }

  lemma IsReadAsDirective(d: Directive)
    requires WellFormed(d)
    ensures IsDirective(d)
  {
    forall ch: char ensures (ch in FLAG_CHARS <==> IsFlag(ch)) && (ch in DIGIT_CHARS <==> IsDigit(ch))
      && (ch in LENGTH_CHARS <==> IsLength(ch))
    {
      Classes(ch);
    }
    hide IsFlag, IsDigit, IsLength;
    assert AllIn(d.length, LENGTH_CHARS);
  }

  // ------------------------------------------------------------ amounts and arguments

  function DecimalNumber(ds: string): int {
    if ds == "" then 0 else DecimalNumber(ds[..|ds| - 1]) * 10 + (ds[|ds| - 1] as int - '0' as int)
  }

  lemma {:induction false} DecimalAppend(n: int, ds: string, ch: char)
    requires IsDecimal(ds) && IsDigit(ch)
    ensures IsDecimal(ds + [ch])
    ensures DecimalValue(n, ds + [ch]) == DecimalValue(n, ds) * 10 + (ch as int - '0' as int)
    decreases |ds|
  {
    var t := ds + [ch];
    if ds == "" {
      assert t[1..] == "";
    } else {
      assert t[1..] == ds[1..] + [ch];
      DecimalAppend(AddDigit(n, ds[0]), ds[1..], ch);
    }
  }

  lemma {:induction false} DecimalIs(ds: string)
    requires IsDecimal(ds)
    ensures DecimalValue(0, ds) == DecimalNumber(ds)
    decreases |ds|
  {
    if ds != "" {
      DecimalIs(ds[..|ds| - 1]);
      DecimalAppend(0, ds[..|ds| - 1], ds[|ds| - 1]);
      assert ds == ds[..|ds| - 1] + [ds[|ds| - 1]];
    }
  }

  /** An integer argument; 0 stands for one that is missing, which is undefined. */
  function ArgValue(args: seq<Arg>, k: nat): int {
    if k < |args| && args[k].IntArg? then args[k].value else 0
  }

  predicate IsIntAt(args: seq<Arg>, k: nat) {
    k < |args| && args[k].IntArg?
  }

  /** The next argument behind a width or precision: a star has used one. */
  function Behind(a: Amount, k: nat): nat {
    if a.Star? then k + 1 else k
  }

  /** The argument that the conversion itself uses. */
  function ValueIndex(d: Directive, k: nat): nat {
    Behind(d.prec, Behind(d.width, k))
  }

  function FieldWidth(d: Directive, args: seq<Arg>, k: nat): int {
    match d.width
    case Absent => 0
    case Decimal(ds) => DecimalNumber(ds)
    case Star => var w := ArgValue(args, k); if w < 0 then -w else w
  }

  /** A negative width from the arguments is a minus flag, too. */
  predicate LeftAligned(d: Directive, args: seq<Arg>, k: nat) {
    '-' in d.flags || (d.width.Star? && ArgValue(args, k) < 0)
  }

  /** -1 when left out, which a negative precision from the arguments means, too; a point alone means 0. */
  function Precision(d: Directive, args: seq<Arg>, k: nat): (p: int)
  {
    if !d.point then -1
    else
      match d.prec
      case Absent => 0
      case Decimal(ds) => DecimalNumber(ds)
      case Star => var p := ArgValue(args, Behind(d.width, k)); if p < 0 then -1 else p
  }

  function FlagsSet(d: Directive, args: seq<Arg>, k: nat): Flags {
    Flags('0' in d.flags, LeftAligned(d, args, k), '+' in d.flags, '\'' in d.flags,
          ' ' in d.flags, '#' in d.flags, false, false)
  }

  // ------------------------------------------------------------ values

  /** Number of values of the integer type that a length modifier names, on a 32-bit machine. */
  function TypeValues(length: string): (n: nat)
    ensures 0 < n <= UINTMAX_COUNT && n % 2 == 0
  {
    if length == "hh" then 0x100
    else if length == "h" then 0x1_0000
    else if length in {"ll", "j", "L", "q"} then 0x1_0000_0000_0000_0000
    else 0x1_0000_0000
  }

  function RankName(length: string): int {
    if length == "hh" then -2
    else if length == "h" then -1
    else if length in {"ll", "j", "L", "q"} then 2
    else if length in {"l", "z", "t"} then 1
    else 0
  }

  /** The value in -n/2 .. n/2 that v is congruent to modulo n. */
  function InSigned(v: int, n: nat): int
    requires n > 0
  {
    (v + n / 2) % n - n / 2
  }

  lemma InSignedIs(v: int, n: nat)
    requires n > 0 && n % 2 == 0
    ensures Signed(v, n) == InSigned(v, n)
  {
    var q, u := v / n, v % n;
    assert v == q * n + u;
    if u >= n / 2 {
      assert (q + 1) * n == q * n + n;
      DivUnique(v + n / 2, n, q + 1, u - n / 2);
    } else {
      DivUnique(v + n / 2, n, q, u + n / 2);
    }
  }

  lemma LengthNames(length: string)
    requires IsLengthName(length)
    ensures Clamp(RankOf(RANK_INT, length)) == RankName(length)
    ensures ValuesOf(RankName(length)) == TypeValues(length)
  {
    if length == "hh" {
      assert length[1..] == "h" && length[1..][1..] == "";
    } else if length == "ll" {
      assert length[1..] == "l" && length[1..][1..] == "";
    } else if length != "" {
      assert length[1..] == "";
    }
  }

  // ------------------------------------------------------------ fields

  /** The integer conversions, with p and P as 0x and at least eight hexadecimal digits. */
  predicate PrintsInteger(ch: char) {
    ch in "diouxXpP"
  }

  function IntegerField(d: Directive, args: seq<Arg>, k: nat): string {
    var v, n, f := ArgValue(args, ValueIndex(d, k)), TypeValues(d.length), FlagsSet(d, args, k);
    var width, prec := FieldWidth(d, args, k), Precision(d, args, k);
    match d.conversion
    case 'd' => IntegerText(InSigned(v, n) % UINTMAX_COUNT, f.(signed := true), 10, width, prec)
    case 'i' => IntegerText(InSigned(v, n) % UINTMAX_COUNT, f.(signed := true), 10, width, prec)
    case 'o' => IntegerText(v % n, f, 8, width, prec)
    case 'u' => IntegerText(v % n, f, 10, width, prec)
    case 'x' => IntegerText(v % n, f, 16, width, prec)
    case 'X' => IntegerText(v % n, f.(upper := true), 16, width, prec)
    case 'p' => IntegerText(v % 0x1_0000_0000, f.(hash := true), 16, width, 8)
    case _ => IntegerText(v % 0x1_0000_0000, f.(hash := true, upper := true), 16, width, 8)
  }

  function Shortened(t: string, prec: int): string {
    if 0 <= prec < |t| then t[..prec] else t
  }

  /** A text at one end of its field. */
  function InField(t: string, width: int, left: bool, zero: bool): string {
    var pad := if width > |t| then width - |t| else 0;
    if left then t + Repeat(' ', pad) else Repeat(if zero then '0' else ' ', pad) + t
  }

  /** A string argument; a null pointer is printed as (null). */
  function ArgText(args: seq<Arg>, k: nat): string {
    if k < |args| && args[k].StrArg? then args[k].text else "(null)"
  }

  function TextField(t: string, d: Directive, args: seq<Arg>, k: nat): string {
    InField(Shortened(t, Precision(d, args, k)), FieldWidth(d, args, k), LeftAligned(d, args, k), '0' in d.flags)
  }

  function Byte(v: int): string {
    [(v % 0x100) as char]
  }

  /** The arguments of the stars are there. */
  predicate StarsThere(d: Directive, args: seq<Arg>, k: nat) {
    (d.width.Star? ==> IsIntAt(args, k)) && (d.prec.Star? ==> IsIntAt(args, Behind(d.width, k)))
  }

  predicate ValueThere(d: Directive, args: seq<Arg>, k: nat) {
    var a := ValueIndex(d, k);
    if PrintsInteger(d.conversion) || d.conversion == 'c' then IsIntAt(args, a)
    else if d.conversion == 's' then a < |args| && (args[a].StrArg? || args[a].NullArg?)
    else if d.conversion == 'n' then a < |args| && args[a].CountArg?
    else true
  }

  predicate UsesArgument(ch: char) {
    PrintsInteger(ch) || ch == 'c' || ch == 's' || ch == 'n'
  }

  /** What a directive prints; a conversion that is none prints itself, % too. */
  function Printed(d: Directive, args: seq<Arg>, k: nat): string {
    if PrintsInteger(d.conversion) then IntegerField(d, args, k)
    else if d.conversion == 'c' then TextField(Byte(ArgValue(args, ValueIndex(d, k))), d, args, k)
    else if d.conversion == 's' then TextField(ArgText(args, ValueIndex(d, k)), d, args, k)
    else if d.conversion == 'n' then ""
    else [d.conversion]
  }

  /** The output behind a directive: text, next argument, and for %n the length so far, stored as its type. */
  function Effect(d: Directive, args: seq<Arg>, c: Output): Output {
    Output(ValueIndex(d, c.k) + (if UsesArgument(d.conversion) then 1 else 0),
           c.text + Printed(d, args, c.k),
           if d.conversion == 'n' then c.counts + [(RankName(d.length), |c.text|)] else c.counts,
           c.ok && StarsThere(d, args, c.k) && ValueThere(d, args, c.k))
  }

  // ------------------------------------------------------------ the code does that

  lemma WidthAs(d: Directive, args: seq<Arg>, c: Output)
    requires IsDirective(d)
    ensures AfterWidth(args, c, NEW_SPEC.(flags := FlagsOf(NO_FLAGS, d.flags)), d.width)
         == (Output(Behind(d.width, c.k), c.text, c.counts, c.ok && (d.width.Star? ==> IsIntAt(args, c.k))),
             Spec(FlagsSet(d, args, c.k), FieldWidth(d, args, c.k), -1, RANK_INT))
  {
    if d.width.Decimal? {
      DecimalIs(d.width.ds);
    }
    hide DecimalValue, DecimalNumber;
  }

  lemma PrecAs(d: Directive, args: seq<Arg>, k: nat, c: Output, s: Spec)
    requires IsDirective(d) && c.k == Behind(d.width, k) && s.prec == -1
    ensures AfterPrec(args, c, s, d.point, d.prec)
         == (Output(Behind(d.prec, c.k), c.text, c.counts, c.ok && (d.prec.Star? ==> IsIntAt(args, c.k))),
             s.(prec := Precision(d, args, k)))
    ensures Precision(d, args, k) >= -1
  {
    if d.prec.Decimal? {
      DecimalIs(d.prec.ds);
      DecimalNotNegative(d.prec.ds);
    }
    hide DecimalValue, DecimalNumber;
  }

  lemma {:induction false} DecimalNotNegative(ds: string)
    requires IsDecimal(ds)
    ensures DecimalNumber(ds) >= 0
  {
    if ds != "" {
      DecimalNotNegative(ds[..|ds| - 1]);
    }
  }

  lemma IntegerAs(d: Directive, args: seq<Arg>, k: nat, s: Spec)
    requires IsLengthName(d.length) && PrintsInteger(d.conversion)
    requires s == Spec(FlagsSet(d, args, k), FieldWidth(d, args, k), Precision(d, args, k), RankName(d.length))
    ensures var n := AsInteger(d.conversion, s, ArgValue(args, ValueIndex(d, k)));
      n.IntConversion? && RenderInt(n.val, n.flags, n.base, s.width, n.prec) == IntegerField(d, args, k)
  {
    var v := ArgValue(args, ValueIndex(d, k));
    ReadsAs(d, args, k, s, v);
    var n := AsInteger(d.conversion, s, v);
    hide *;
    PrintsIntegerText(n.val, n.flags, n.base, s.width, n.prec);
  }

  lemma ReadsAs(d: Directive, args: seq<Arg>, k: nat, s: Spec, v: int)
    requires IsLengthName(d.length) && PrintsInteger(d.conversion) && v == ArgValue(args, ValueIndex(d, k))
    requires s == Spec(FlagsSet(d, args, k), FieldWidth(d, args, k), Precision(d, args, k), RankName(d.length))
    ensures var n := AsInteger(d.conversion, s, v);
      && n.IntConversion? && 2 <= n.base <= 16
      && IntegerField(d, args, k) == IntegerText(n.val, n.flags, n.base, s.width, n.prec)
  {
    LengthNames(d.length);
    InSignedIs(v, TypeValues(d.length));
    hide RankName, IntegerText, ValuesOf, TypeValues, Signed, InSigned, FlagsSet, FieldWidth, Precision, ValueIndex;
  }

  lemma TextAs(t: string, s: Spec)
    requires s.prec >= -1
    ensures RenderStr(t, s.flags, s.width, s.prec)
         == InField(Shortened(t, s.prec), s.width, s.flags.minus, s.flags.zero)
  {
    var u := Shortened(t, s.prec);
    assert Cut(t, s.prec) == u;
    var pad := if s.width > |u| then s.width - |u| else 0;
    assert "" + u == u && Repeat(if s.flags.zero then '0' else ' ', pad) + u + ""
                       == Repeat(if s.flags.zero then '0' else ' ', pad) + u;
  }

  lemma ConvertAs(d: Directive, args: seq<Arg>, k: nat, c: Output, s: Spec)
    requires IsLengthName(d.length) && c.k == ValueIndex(d, k) && Precision(d, args, k) >= -1
    requires s == Spec(FlagsSet(d, args, k), FieldWidth(d, args, k), Precision(d, args, k), RankName(d.length))
    ensures Convert(d.conversion, args, c, s)
         == Output(c.k + (if UsesArgument(d.conversion) then 1 else 0), c.text + Printed(d, args, k),
                   if d.conversion == 'n' then c.counts + [(RankName(d.length), |c.text|)] else c.counts,
                   c.ok && ValueThere(d, args, k))
  {
    if PrintsInteger(d.conversion) {
      IntegerAs(d, args, k, s);
    } else {
      assert AsInteger(d.conversion, s, IntAt(args, c.k)) == NotAnInteger;
      TextAs([CharOf(IntAt(args, c.k))], s);
      TextAs(StrAt(args, c.k), s);
    }
    hide AsInteger, RenderInt, RenderStr, IntegerField, InField, Shortened, RankName, Precision, FieldWidth;
  }

  /**
   * Anywhere in a format a directive has this effect, whatever its flags, width, precision, length and
   * conversion are.
   */
  lemma DirectiveEffect(fmt: string, i: nat, args: seq<Arg>, c: Output, d: Directive)
    requires WellFormed(d) && StandsAt(fmt, i, Written(d))
    ensures FromNormal(fmt, i, args, c) == FromNormal(fmt, i + |Written(d)|, args, Effect(d, args, c))
  {
    IsReadAsDirective(d);
    DirectiveMeaning(fmt, i, args, c, d);
    hide FromNormal, StandsAt, Written;
    EffectOf(d, args, c);
  }

  lemma EffectOf(d: Directive, args: seq<Arg>, c: Output)
    requires WellFormed(d) && IsDirective(d)
    ensures var cs := AfterWidth(args, c, NEW_SPEC.(flags := FlagsOf(NO_FLAGS, d.flags)), d.width);
      var cs' := AfterPrec(args, cs.0, cs.1, d.point, d.prec);
      Convert(d.conversion, args, cs'.0, cs'.1.(rank := Clamp(RankOf(RANK_INT, d.length)))) == Effect(d, args, c)
  {
    var cs := AfterWidth(args, c, NEW_SPEC.(flags := FlagsOf(NO_FLAGS, d.flags)), d.width);
    var cs' := AfterPrec(args, cs.0, cs.1, d.point, d.prec);
    LengthNames(d.length);
    WidthAs(d, args, c);
    PrecAs(d, args, c.k, cs.0, cs.1);
    hide AfterWidth, AfterPrec, RankOf, Clamp, FieldWidth, Precision, FlagsSet, IsDirective, Convert, FlagsOf,
         RankName, Printed, ValueThere, UsesArgument, IsLengthName, LeftAligned;
    ConvertAs(d, args, c.k, cs'.0, cs'.1.(rank := RankName(d.length)));
  }

  // ------------------------------------------------------------ whole formats

  /** A format in its parts: text without a percent sign, and directives. */
  datatype Part = Literal(text: string) | Conversion(d: Directive)

  predicate IsPart(p: Part) {
    match p
    case Literal(t) => '%' !in t
    case Conversion(d) => WellFormed(d)
  }

  predicate AllParts(ps: seq<Part>) {
    forall j :: 0 <= j < |ps| ==> IsPart(ps[j])
  }

  function PartText(p: Part): string {
    match p
    case Literal(t) => t
    case Conversion(d) => Written(d)
  }

  function Format(ps: seq<Part>): string {
    if ps == [] then "" else PartText(ps[0]) + Format(ps[1..])
  }

  function PartEffect(p: Part, args: seq<Arg>, c: Output): Output {
    match p
    case Literal(t) => c.(text := c.text + t)
    case Conversion(d) => Effect(d, args, c)
  }

  /** The output behind all parts, one after the other. */
  function Meaning(ps: seq<Part>, args: seq<Arg>, c: Output): Output {
    if ps == [] then c else Meaning(ps[1..], args, PartEffect(ps[0], args, c))
  }

  lemma PartMeans(fmt: string, i: nat, args: seq<Arg>, c: Output, p: Part)
    requires IsPart(p) && StandsAt(fmt, i, PartText(p))
    ensures FromNormal(fmt, i, args, c) == FromNormal(fmt, i + |PartText(p)|, args, PartEffect(p, args, c))
  {
    hide FromNormal, StandsAt, Written, Effect, WellFormed;
    match p
    case Literal(t) => LiteralText(fmt, i, args, c, t);
    case Conversion(d) => DirectiveEffect(fmt, i, args, c, d);
  }

  lemma RestStands(fmt: string, i: nat, ps: seq<Part>)
    requires ps != [] && AllParts(ps) && StandsAt(fmt, i, Format(ps))
    ensures IsPart(ps[0]) && AllParts(ps[1..]) && StandsAt(fmt, i, PartText(ps[0]))
    ensures StandsAt(fmt, i + |PartText(ps[0])|, Format(ps[1..]))
    ensures |Format(ps)| == |PartText(ps[0])| + |Format(ps[1..])|
  {
    hide StandsAt, PartText, IsPart;
    StandsApart(fmt, i, PartText(ps[0]), Format(ps[1..]));
  }

  lemma MeaningStep(ps: seq<Part>, args: seq<Arg>, c: Output)
    requires ps != []
    ensures Meaning(ps, args, c) == Meaning(ps[1..], args, PartEffect(ps[0], args, c))
  {
  }

  lemma NoParts(args: seq<Arg>, c: Output)
    ensures Meaning([], args, c) == c && Format([]) == ""
  {
  }

  lemma {:induction false} PartsMean(fmt: string, i: nat, args: seq<Arg>, c: Output, ps: seq<Part>)
    requires AllParts(ps) && StandsAt(fmt, i, Format(ps))
    ensures FromNormal(fmt, i, args, c) == FromNormal(fmt, i + |Format(ps)|, args, Meaning(ps, args, c))
    decreases |ps|
  {
    hide *;
    if ps == [] {
      NoParts(args, c);
    } else {
      RestStands(fmt, i, ps);
      PartMeans(fmt, i, args, c, ps[0]);
      PartsMean(fmt, i + |PartText(ps[0])|, args, PartEffect(ps[0], args, c), ps[1..]);
      MeaningStep(ps, args, c);
    }
  }

  lemma AtEnd(fmt: string, args: seq<Arg>, c: Output)
    ensures FromNormal(fmt, |fmt|, args, c) == c
  {
  }

  /** The whole output of vsnprintf for a format made of such parts. */
  lemma FormatMeans(ps: seq<Part>, args: seq<Arg>)
    requires AllParts(ps)
    ensures Render(Format(ps), args) == Meaning(ps, args, Output(0, "", [], true))
  {
    hide *;
    var fmt, c := Format(ps), Output(0, "", [], true);
    StandsWhole(fmt);
    PartsMean(fmt, 0, args, c, ps);
    AtEnd(fmt, args, Meaning(ps, args, c));
    RenderIs(fmt, args);
  }

  lemma StandsWhole(fmt: string)
    ensures StandsAt(fmt, 0, fmt)
  {
  }

  lemma RenderIs(fmt: string, args: seq<Arg>)
    ensures Render(fmt, args) == FromNormal(fmt, 0, args, Output(0, "", [], true))
  {
    hide FromNormal;
  }

  // ------------------------------------------------------------ a format that ends inside a directive

  predicate AllBetween(fmt: string, i: nat, j: nat, chars: string) {
    i <= j <= |fmt| && forall k :: i <= k < j ==> fmt[k] in chars
  }

  lemma {:induction false} EndsInLength(fmt: string, i: nat, args: seq<Arg>, c: Output, s: Spec)
    requires AllBetween(fmt, i, |fmt|, LENGTH_CHARS)
    ensures FromModifiers(fmt, i, args, c, s) == c
    decreases |fmt| - i
  {
    if i < |fmt| {
      Classes(fmt[i]);
      EndsInLength(fmt, i + 1, args, c, s.(rank := WithLength(s.rank, fmt[i])));
    }
  }

  lemma {:induction false} EndsInPrec(fmt: string, i: nat, p: nat, args: seq<Arg>, c: Output, s: Spec)
    requires AllBetween(fmt, i, p, DIGIT_CHARS + "*") && AllBetween(fmt, p, |fmt|, LENGTH_CHARS)
    ensures FromPrec(fmt, i, args, c, s).text == c.text
    decreases |fmt| - i
  {
    if i < |fmt| {
      Classes(fmt[i]);
      if i == p {
        EndsInLength(fmt, i, args, c, s);
      } else if fmt[i] == '*' {
        EndsInPrec(fmt, i + 1, p, args, TookInt(args, c), StarPrec(s, IntAt(args, c.k)));
      } else {
        EndsInPrec(fmt, i + 1, p, args, c, s.(prec := AddDigit(s.prec, fmt[i])));
      }
    }
  }

  lemma {:induction false} EndsInWidth(fmt: string, i: nat, w: nat, p: nat, args: seq<Arg>, c: Output, s: Spec)
    requires AllBetween(fmt, i, w, DIGIT_CHARS + "*")
    requires if w < |fmt| && fmt[w] == '.' then AllBetween(fmt, w + 1, p, DIGIT_CHARS + "*") else p == w
    requires AllBetween(fmt, p, |fmt|, LENGTH_CHARS)
    ensures FromWidth(fmt, i, args, c, s).text == c.text
    decreases |fmt| - i
  {
    if i < |fmt| {
      Classes(fmt[i]);
      if i == w {
        if fmt[i] == '.' {
          EndsInPrec(fmt, i + 1, p, args, c, s.(prec := 0));
        } else {
          EndsInLength(fmt, i, args, c, s);
        }
      } else if fmt[i] == '*' {
        EndsInWidth(fmt, i + 1, w, p, args, TookInt(args, c), StarWidth(s, IntAt(args, c.k)));
      } else {
        EndsInWidth(fmt, i + 1, w, p, args, c, s.(width := AddDigit(s.width, fmt[i])));
      }
    }
  }

  /** Flags up to f, a width up to w, a precision up to p, then only length modifiers: nothing is printed. */
  lemma {:induction false} UnfinishedPrintsNothing(fmt: string, i: nat, f: nat, w: nat, p: nat, args: seq<Arg>,
                                                   c: Output, s: Spec)
    requires AllBetween(fmt, i, f, FLAG_CHARS) && AllBetween(fmt, f, w, DIGIT_CHARS + "*")
    requires if w < |fmt| && fmt[w] == '.' then AllBetween(fmt, w + 1, p, DIGIT_CHARS + "*") else p == w
    requires AllBetween(fmt, p, |fmt|, LENGTH_CHARS) && (f < |fmt| ==> fmt[f] !in FLAG_CHARS)
    ensures FromFlags(fmt, i, args, c, s).text == c.text
    ensures i > 0 && fmt[i - 1] == '%' && s == NEW_SPEC ==> FromNormal(fmt, i - 1, args, c).text == c.text
    decreases |fmt| - i
  {
    if i < f {
      Classes(fmt[i]);
      UnfinishedPrintsNothing(fmt, i + 1, f, w, p, args, c, s.(flags := WithFlag(s.flags, fmt[i])));
    } else {
      if i < |fmt| {
        Classes(fmt[i]);
      }
      EndsInWidth(fmt, i, w, p, args, c, s);
    }
  }
}
