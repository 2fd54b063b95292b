/** How the reference renderer of module Printf reads a directive, in the terms of the C standard. */
module Directives {
  import opened PrintInt
  import opened Printf

  /** String t stands at index i of the format. */
  ghost predicate StandsAt(fmt: string, i: nat, t: string) {
    i + |t| <= |fmt| && fmt[i..i + |t|] == t
  }

  lemma StandsApart(fmt: string, i: nat, a: string, b: string)
    requires StandsAt(fmt, i, a + b)
    ensures StandsAt(fmt, i, a) && StandsAt(fmt, i + |a|, b)
  {
    assert fmt[i..i + |a|] == (a + b)[..|a|] == a;
    assert fmt[i + |a|..i + |a + b|] == (a + b)[|a|..] == b;
  }

  lemma StandsFirst(fmt: string, i: nat, t: string)
    requires StandsAt(fmt, i, t) && t != ""
    ensures i < |fmt| && i + |t| <= |fmt| && fmt[i] == t[0]
  {
    assert fmt[i..i + |t|][0] == t[0];
  }

  /** A width or precision: left out, written in decimal, or taken from the arguments. */
  datatype Amount = Absent | Decimal(ds: string) | Star

  function Text(a: Amount): string {
    match a
    case Absent => ""
    case Decimal(ds) => ds
    case Star => "*"
  }

  /** % flags width .precision length conversion (section 7.21.6.1 of ISO C11) */
  datatype Directive = Directive(
    flags: string, width: Amount, point: bool, prec: Amount, length: string, conversion: char)

  predicate IsDecimal(ds: string) {
    forall i :: 0 <= i < |ds| ==> IsDigit(ds[i])
  }

  predicate IsDirective(d: Directive) {
    && (forall i :: 0 <= i < |d.flags| ==> IsFlag(d.flags[i]))
    && (d.width.Decimal? ==> d.width.ds != "" && d.width.ds[0] != '0' && IsDecimal(d.width.ds))
    && (d.prec.Decimal? ==> IsDecimal(d.prec.ds)) && (!d.point ==> d.prec == Absent)
    && (forall i :: 0 <= i < |d.length| ==> IsLength(d.length[i]))
    && !IsFlag(d.conversion) && !IsDigit(d.conversion) && !IsLength(d.conversion)
    && d.conversion != '*' && d.conversion != '.'
  }

  function Tail(d: Directive): string {
    d.length + [d.conversion]
  }

  function PrecText(d: Directive): string {
    if d.point then "." + Text(d.prec) else ""
  }

  function Written(d: Directive): string {
    "%" + (d.flags + (Text(d.width) + (PrecText(d) + Tail(d))))
  }

  /** Decimal value of ds, read after n. */
  function DecimalValue(n: int, ds: string): int
    requires IsDecimal(ds)
    decreases |ds|
  {
    if ds == "" then n else DecimalValue(AddDigit(n, ds[0]), ds[1..])
  }

  /** A flag is set exactly when its character is there. */
  function FlagsOf(f: Flags, fl: string): Flags {
    Flags(f.zero || '0' in fl, f.minus || '-' in fl, f.plus || '+' in fl, f.tick || '\'' in fl,
          f.space || ' ' in fl, f.hash || '#' in fl, f.signed, f.upper)
  }

  function RankOf(rank: int, length: string): int
    decreases |length|
  {
    if length == "" then rank else RankOf(WithLength(rank, length[0]), length[1..])
  }

  // what each part of a directive makes of the field specification and the arguments

  function AfterWidth(args: seq<Arg>, c: Output, s: Spec, w: Amount): (Output, Spec)
    requires w.Decimal? ==> IsDecimal(w.ds)
  {
    match w
    case Absent => (c, s)
    case Decimal(ds) => (c, s.(width := DecimalValue(s.width, ds)))
    case Star => (TookInt(args, c), StarWidth(s, IntAt(args, c.k)))
  }

  function AfterPrec(args: seq<Arg>, c: Output, s: Spec, point: bool, p: Amount): (Output, Spec)
    requires p.Decimal? ==> IsDecimal(p.ds)
  {
    if !point then (c, s)
    else
      match p
      case Absent => (c, s.(prec := 0))
      case Decimal(ds) => (c, s.(prec := DecimalValue(0, ds)))
      case Star => (TookInt(args, c), StarPrec(s, IntAt(args, c.k)))
  }

  // ------------------------------------------------------------ reading the parts

  lemma PercentStarts(fmt: string, i: nat, args: seq<Arg>, c: Output)
    requires i < |fmt| && fmt[i] == '%'
    ensures FromNormal(fmt, i, args, c) == FromFlags(fmt, i + 1, args, c, NEW_SPEC)
  {
  }

  lemma OneFlag(f: Flags, fl: string)
    requires fl != "" && IsFlag(fl[0])
    ensures FlagsOf(WithFlag(f, fl[0]), fl[1..]) == FlagsOf(f, fl)
  {
    InTail(fl, '0');
    InTail(fl, '-');
    InTail(fl, '+');
    InTail(fl, '\'');
    InTail(fl, ' ');
    InTail(fl, '#');
  }

  lemma InTail(s: string, c: char)
    requires s != ""
    ensures c in s <==> c == s[0] || c in s[1..]
  {
    assert s == [s[0]] + s[1..];
  }

  lemma {:induction false} ReadFlags(fmt: string, i: nat, args: seq<Arg>, c: Output, s: Spec, fl: string)
    requires StandsAt(fmt, i, fl) && forall j :: 0 <= j < |fl| ==> IsFlag(fl[j])
    requires i + |fl| < |fmt| && !IsFlag(fmt[i + |fl|])
    ensures FromFlags(fmt, i, args, c, s) == FromWidth(fmt, i + |fl|, args, c, s.(flags := FlagsOf(s.flags, fl)))
    decreases |fl|
  {
    if fl == "" {
      assert s.(flags := FlagsOf(s.flags, fl)) == s;
    } else {
      assert fmt[i] == fl[0] && fl == [fl[0]] + fl[1..];
      StandsApart(fmt, i, [fl[0]], fl[1..]);
      var s1 := s.(flags := WithFlag(s.flags, fl[0]));
      OneFlag(s.flags, fl);
      assert FromFlags(fmt, i, args, c, s) == FromFlags(fmt, i + 1, args, c, s1);
      hide FlagsOf, FromFlags, FromWidth;
      ReadFlags(fmt, i + 1, args, c, s1, fl[1..]);
    }
  }

  lemma {:induction false} ReadWidthDigits(fmt: string, i: nat, args: seq<Arg>, c: Output, s: Spec, ds: string)
    requires StandsAt(fmt, i, ds) && IsDecimal(ds)
    ensures FromWidth(fmt, i, args, c, s)
         == FromWidth(fmt, i + |ds|, args, c, s.(width := DecimalValue(s.width, ds)))
    decreases |ds|
  {
    if ds == "" {
      assert s.(width := DecimalValue(s.width, ds)) == s;
    } else {
      assert fmt[i] == ds[0] && ds == [ds[0]] + ds[1..];
      StandsApart(fmt, i, [ds[0]], ds[1..]);
      ReadWidthDigits(fmt, i + 1, args, c, s.(width := AddDigit(s.width, ds[0])), ds[1..]);
    }
  }

  lemma {:induction false} ReadPrecDigits(fmt: string, i: nat, args: seq<Arg>, c: Output, s: Spec, ds: string)
    requires StandsAt(fmt, i, ds) && IsDecimal(ds)
    ensures FromPrec(fmt, i, args, c, s)
         == FromPrec(fmt, i + |ds|, args, c, s.(prec := DecimalValue(s.prec, ds)))
    decreases |ds|
  {
    if ds == "" {
      assert s.(prec := DecimalValue(s.prec, ds)) == s;
    } else {
      assert fmt[i] == ds[0] && ds == [ds[0]] + ds[1..];
      StandsApart(fmt, i, [ds[0]], ds[1..]);
      ReadPrecDigits(fmt, i + 1, args, c, s.(prec := AddDigit(s.prec, ds[0])), ds[1..]);
    }
  }

  lemma ReadWidth(fmt: string, i: nat, args: seq<Arg>, c: Output, s: Spec, w: Amount)
    requires StandsAt(fmt, i, Text(w)) && (w.Decimal? ==> IsDecimal(w.ds))
    ensures var (c', s') := AfterWidth(args, c, s, w);
            FromWidth(fmt, i, args, c, s) == FromWidth(fmt, i + |Text(w)|, args, c', s')
  {
    match w
    case Absent =>
    case Decimal(ds) => ReadWidthDigits(fmt, i, args, c, s, ds);
    case Star => assert fmt[i] == Text(w)[0];
  }

  lemma ReadPrec(fmt: string, i: nat, args: seq<Arg>, c: Output, s: Spec, d: Directive)
    requires IsDirective(d) && StandsAt(fmt, i, PrecText(d))
    requires var j := i + |PrecText(d)|;
      j < |fmt| && !IsDigit(fmt[j]) && fmt[j] != '*' && fmt[j] != '.'
    ensures var cs := AfterPrec(args, c, s, d.point, d.prec);
            FromWidth(fmt, i, args, c, s) == FromModifiers(fmt, i + |PrecText(d)|, args, cs.0, cs.1)
  {
    if d.point {
      assert fmt[i] == PrecText(d)[0] == '.';
      StandsApart(fmt, i, ".", Text(d.prec));
      var s1 := s.(prec := 0);
      match d.prec
      case Absent =>
      case Decimal(ds) => ReadPrecDigits(fmt, i + 1, args, c, s1, ds);
      case Star =>
        assert fmt[i + 1] == Text(d.prec)[0];
        var s2 := StarPrec(s, IntAt(args, c.k));
        var c2 := TookInt(args, c);
        assert FromPrec(fmt, i + 2, args, c2, s2) == FromModifiers(fmt, i + 2, args, c2, s2);
    }
  }

  predicate IsLengthThen(ls: string, ch: char) {
    !IsLength(ch) && forall j :: 0 <= j < |ls| ==> IsLength(ls[j])
  }

  lemma {:induction false} ReadLength(fmt: string, i: nat, args: seq<Arg>, c: Output, s: Spec, ls: string, ch: char)
    requires StandsAt(fmt, i, ls + [ch]) && IsLengthThen(ls, ch)
    ensures FromModifiers(fmt, i, args, c, s)
         == FromNormal(fmt, i + |ls| + 1, args, Convert(ch, args, c, s.(rank := Clamp(RankOf(s.rank, ls)))))
    decreases |ls|
  {
    hide Convert;
    assert fmt[i] == (ls + [ch])[0];
    if ls == "" {
      assert RankOf(s.rank, ls) == s.rank;
    } else {
      assert ls + [ch] == [ls[0]] + (ls[1..] + [ch]);
      StandsApart(fmt, i, [ls[0]], ls[1..] + [ch]);
      var s1 := s.(rank := WithLength(s.rank, ls[0]));
      assert FromModifiers(fmt, i, args, c, s) == FromModifiers(fmt, i + 1, args, c, s1);
      assert RankOf(s1.rank, ls[1..]) == RankOf(s.rank, ls);
      hide FromModifiers, FromNormal, WithLength, Clamp, RankOf;
      ReadLength(fmt, i + 1, args, c, s1, ls[1..], ch);
    }
  }

  /** Where the parts of a directive stand, and that none runs on into the next. */
  lemma PartsStand(fmt: string, i: nat, d: Directive)
    requires IsDirective(d) && StandsAt(fmt, i, Written(d))
    ensures var i1 := i + 1 + |d.flags|;
      var i2 := i1 + |Text(d.width)|;
      var i3 := i2 + |PrecText(d)|;
      && fmt[i] == '%' && StandsAt(fmt, i + 1, d.flags) && StandsAt(fmt, i1, Text(d.width))
      && StandsAt(fmt, i2, PrecText(d)) && StandsAt(fmt, i3, Tail(d))
      && i3 < |fmt| && i3 + |Tail(d)| == i + |Written(d)|
      && !IsFlag(fmt[i1])
  {
    NotAFlag(d);
    hide PrecText, Text, Tail, IsDirective, IsFlag, StandsAt;
    FourStand(fmt, i, d.flags, Text(d.width), PrecText(d), Tail(d));
  }

  lemma FourStand(fmt: string, i: nat, fl: string, w: string, p: string, t: string)
    requires StandsAt(fmt, i, "%" + (fl + (w + (p + t)))) && t != ""
    ensures var i1 := i + 1 + |fl|;
      var i2 := i1 + |w|;
      var i3 := i2 + |p|;
      && i1 < |fmt| && fmt[i] == '%' && fmt[i1] == (w + (p + t))[0]
      && StandsAt(fmt, i + 1, fl) && StandsAt(fmt, i1, w) && StandsAt(fmt, i2, p) && StandsAt(fmt, i3, t)
      && i3 < |fmt| && i3 + |t| <= |fmt|
  {
    hide StandsAt;
    var i1 := i + 1 + |fl|;
    StandsFirst(fmt, i, "%" + (fl + (w + (p + t))));
    StandsApart(fmt, i, "%", fl + (w + (p + t)));
    StandsApart(fmt, i + 1, fl, w + (p + t));
    StandsFirst(fmt, i1, w + (p + t));
    StandsApart(fmt, i1, w, p + t);
    StandsApart(fmt, i1 + |w|, p, t);
    StandsFirst(fmt, i1 + |w| + |p|, t);
  }

  lemma NotAFlag(d: Directive)
    requires IsDirective(d)
    ensures |Tail(d)| > 0
    ensures !IsFlag((Text(d.width) + (PrecText(d) + Tail(d)))[0])
  {
    assert d.width == Absent ==> (Text(d.width) + (PrecText(d) + Tail(d))) == PrecText(d) + Tail(d);
    assert !d.point ==> PrecText(d) + Tail(d) == Tail(d);
  }

  lemma AfterWidthRank(args: seq<Arg>, c: Output, s: Spec, w: Amount)
    requires w.Decimal? ==> IsDecimal(w.ds)
    ensures AfterWidth(args, c, s, w).1.rank == s.rank
  {
  }

  /** A directive from its precision on. */
  lemma ReadRest(fmt: string, i: nat, args: seq<Arg>, c: Output, s: Spec, d: Directive)
    requires IsDirective(d) && StandsAt(fmt, i, PrecText(d)) && StandsAt(fmt, i + |PrecText(d)|, Tail(d))
    ensures var cs := AfterPrec(args, c, s, d.point, d.prec);
      FromWidth(fmt, i, args, c, s)
      == FromNormal(fmt, i + |PrecText(d)| + |Tail(d)|, args,
                    Convert(d.conversion, args, cs.0, cs.1.(rank := Clamp(RankOf(s.rank, d.length)))))
  {
    hide *;
    TailHead(d);
    var j := i + |PrecText(d)|;
    var cs := AfterPrec(args, c, s, d.point, d.prec);
    AfterPrecRank(args, c, s, d.point, d.prec);
    StandsFirst(fmt, j, Tail(d));
    ReadPrec(fmt, i, args, c, s, d);
    ReadLength(fmt, j, args, cs.0, cs.1, d.length, d.conversion);
  }

  /** What follows the precision is no part of it. */
  lemma TailHead(d: Directive)
    requires IsDirective(d)
    ensures Tail(d) != "" && !IsDigit(Tail(d)[0]) && Tail(d)[0] != '*' && Tail(d)[0] != '.'
    ensures IsLengthThen(d.length, d.conversion) && (d.prec.Decimal? ==> IsDecimal(d.prec.ds))
    ensures Tail(d) == d.length + [d.conversion] && |Tail(d)| == |d.length| + 1
  {
  }

  lemma AfterPrecRank(args: seq<Arg>, c: Output, s: Spec, point: bool, p: Amount)
    requires p.Decimal? ==> IsDecimal(p.ds)
    ensures AfterPrec(args, c, s, point, p).1.rank == s.rank
  {
  }

  /**
   * A well-formed directive anywhere in a format: its parts decide the field specification,
   * a star takes the next argument, and one conversion is printed before the rest is read.
   */
  lemma DirectiveMeaning(fmt: string, i: nat, args: seq<Arg>, c: Output, d: Directive)
    requires IsDirective(d) && StandsAt(fmt, i, Written(d))
    ensures var (c1, s1) := AfterWidth(args, c, NEW_SPEC.(flags := FlagsOf(NO_FLAGS, d.flags)), d.width);
      var (c2, s2) := AfterPrec(args, c1, s1, d.point, d.prec);
      FromNormal(fmt, i, args, c)
      == FromNormal(fmt, i + |Written(d)|, args,
                    Convert(d.conversion, args, c2, s2.(rank := Clamp(RankOf(RANK_INT, d.length)))))
  {
    hide FromNormal, FromFlags, FromWidth, FromPrec, FromModifiers, Convert, FlagsOf, RankOf, Clamp,
         Written, Text, PrecText, Tail, StandsAt, AfterWidth, AfterPrec;
    PartsStand(fmt, i, d);
    PercentStarts(fmt, i, args, c);
    var i1 := i + 1 + |d.flags|;
    var s0 := NEW_SPEC.(flags := FlagsOf(NO_FLAGS, d.flags));
    ReadFlags(fmt, i + 1, args, c, NEW_SPEC, d.flags);
    ReadWidth(fmt, i1, args, c, s0, d.width);
    var cs := AfterWidth(args, c, s0, d.width);
    AfterWidthRank(args, c, s0, d.width);
    ReadRest(fmt, i1 + |Text(d.width)|, args, cs.0, cs.1, d);
  }

  /** Characters outside directives are copied. */
  lemma {:induction false} LiteralText(fmt: string, i: nat, args: seq<Arg>, c: Output, t: string)
    requires StandsAt(fmt, i, t) && '%' !in t
    ensures FromNormal(fmt, i, args, c) == FromNormal(fmt, i + |t|, args, c.(text := c.text + t))
    decreases |t|
  {
    if t == "" {
      assert c.(text := c.text + t) == c;
    } else {
      assert fmt[i] == t[0] && t == [t[0]] + t[1..];
      StandsApart(fmt, i, [t[0]], t[1..]);
      LiteralText(fmt, i + 1, args, c.(text := c.text + [t[0]]), t[1..]);
      assert c.text + [t[0]] + t[1..] == c.text + t;
    }
  }
}
