/** The directives of section 7.21.6.1 of ISO C11, and for which of them vsnprintf prints what it says. */
module IsoFormat {
  import opened PrintInt
  import opened Printf
  import opened Directives
  import opened IntText
  import opened IsoPrint
  import opened FormatMeaning

  // ------------------------------------------------------------ the standard

  predicate IsStdLength(length: string) {
    length in {"", "hh", "h", "l", "ll", "j", "z", "t"}
  }

  /** A directive for an integer. The apostrophe is no flag of the standard. */
  predicate IsStdInteger(d: Directive) {
    WellFormed(d) && '\'' !in d.flags && IsStdLength(d.length) && d.conversion in "diouxX"
  }

  /** For characters and strings only the minus flag is defined, and for characters no precision. */
  predicate IsStdText(d: Directive) {
    && WellFormed(d) && (forall j :: 0 <= j < |d.flags| ==> d.flags[j] == '-') && d.length == ""
    && (d.conversion == 's' || (d.conversion == 'c' && !d.point))
  }

  /** %n and %% have no flags, width or precision. */
  predicate IsStdOther(d: Directive) {
    && WellFormed(d) && d.flags == "" && d.width == Absent && !d.point
    && ((d.conversion == 'n' && IsStdLength(d.length)) || (d.conversion == '%' && d.length == ""))
  }

  predicate IsStd(d: Directive) {
    IsStdInteger(d) || IsStdText(d) || IsStdOther(d)
  }

  function StdBase(conversion: char): (b: nat)
    ensures IsBase(b)
  {
    if conversion == 'o' then 8 else if conversion == 'x' || conversion == 'X' then 16 else 10
  }

  predicate IsSigned(conversion: char) {
    conversion == 'd' || conversion == 'i'
  }

  function StdFlags(d: Directive, args: seq<Arg>, k: nat): Flags {
    FlagsSet(d, args, k).(signed := IsSigned(d.conversion), upper := d.conversion == 'X')
  }

  /** The argument as a value of the type that conversion and length modifier name, modulo 2^64. */
  function StdValue(d: Directive, args: seq<Arg>, k: nat): (v: nat)
    ensures v < UINTMAX_COUNT
  {
    var v, n := ArgValue(args, ValueIndex(d, k)), TypeValues(d.length);
    if IsSigned(d.conversion) then InSigned(v, n) % UINTMAX_COUNT else v % n
  }

  /** What the standard prints for an integer directive whose first argument is number k. */
  function StdField(d: Directive, args: seq<Arg>, k: nat): string {
    StdInt(StdValue(d, args, k), StdFlags(d, args, k), StdBase(d.conversion), FieldWidth(d, args, k),
           Precision(d, args, k))
  }

  /** The condition of module IsoPrint, for a directive and its arguments. */
  predicate MeetsStandard(d: Directive, args: seq<Arg>, k: nat) {
    AsStandard(StdValue(d, args, k), StdFlags(d, args, k), StdBase(d.conversion),
               FieldWidth(d, args, k), Precision(d, args, k))
  }

  /** The field of a text is always filled with spaces. */
  function StdTextField(t: string, d: Directive, args: seq<Arg>, k: nat): string {
    InField(Shortened(t, Precision(d, args, k)), FieldWidth(d, args, k), LeftAligned(d, args, k), false)
  }

  function StdPrinted(d: Directive, args: seq<Arg>, k: nat): string {
    if d.conversion == 's' then StdTextField(ArgText(args, ValueIndex(d, k)), d, args, k)
    else if d.conversion == 'c' then StdTextField(Byte(ArgValue(args, ValueIndex(d, k))), d, args, k)
    else if d.conversion == 'n' then ""
    else if d.conversion == '%' then "%"
    else StdField(d, args, k)
  }

  // ------------------------------------------------------------ where the code agrees

  lemma FieldIs(d: Directive, args: seq<Arg>, k: nat)
    requires IsStdInteger(d)
    ensures Printed(d, args, k)
         == IntegerText(StdValue(d, args, k), StdFlags(d, args, k), StdBase(d.conversion),
                        FieldWidth(d, args, k), Precision(d, args, k))
  {
    hide IntegerText, FieldWidth, Precision, InSigned, TypeValues, WellFormed, LeftAligned;
  }

  /** An integer directive prints what the standard says if and only if the condition holds, any other one always. */
  lemma DirectiveAgrees(d: Directive, args: seq<Arg>, k: nat)
    requires IsStd(d)
    ensures Printed(d, args, k) == StdPrinted(d, args, k) <==> (IsStdInteger(d) ==> MeetsStandard(d, args, k))
  {
    hide *;
    if IsStdInteger(d) {
      IntegerAgrees(d, args, k);
    } else {
      OtherAgrees(d, args, k);
    }
  }

  lemma IntegerAgrees(d: Directive, args: seq<Arg>, k: nat)
    requires IsStdInteger(d)
    ensures Printed(d, args, k) == StdPrinted(d, args, k) <==> MeetsStandard(d, args, k)
  {
    FieldIs(d, args, k);
    StdFieldIs(d, args, k);
    var v, f, b := StdValue(d, args, k), StdFlags(d, args, k), StdBase(d.conversion);
    hide IntegerText, StdInt, AsStandard, StdValue, StdFlags, StdBase, FieldWidth, Precision, WellFormed, Printed,
         StdPrinted, IsStdInteger, RenderInt;
    PrintsIntegerText(v, f, b, FieldWidth(d, args, k), Precision(d, args, k));
    AgreesWithStandard(v, f, b, FieldWidth(d, args, k), Precision(d, args, k));
  }

  lemma StdFieldIs(d: Directive, args: seq<Arg>, k: nat)
    requires IsStdInteger(d)
    ensures StdPrinted(d, args, k) == StdField(d, args, k)
  {
    hide StdField, WellFormed, StdTextField;
  }

  lemma OtherAgrees(d: Directive, args: seq<Arg>, k: nat)
    requires IsStd(d) && !IsStdInteger(d)
    ensures Printed(d, args, k) == StdPrinted(d, args, k)
  {
    hide WellFormed, InField, Shortened, IntegerField, ArgText, Byte, FieldWidth, Precision, LeftAligned, ValueIndex,
         StdField;
    assert IsStdText(d) ==> '0' !in d.flags;
  }

  // ------------------------------------------------------------ whole formats

  predicate AllStd(ps: seq<Part>) {
    AllParts(ps) && forall j :: 0 <= j < |ps| && ps[j].Conversion? ==> IsStd(ps[j].d)
  }

  /** The next argument behind a part. */
  function NextArg(p: Part, k: nat): nat {
    if p.Literal? then k else ValueIndex(p.d, k) + if p.d.conversion == '%' then 0 else 1
  }

  /** What the standard prints for the format, from argument k on. */
  function StdOutput(ps: seq<Part>, args: seq<Arg>, k: nat): string {
    if ps == [] then ""
    else
      (match ps[0] case Literal(t) => t case Conversion(d) => StdPrinted(d, args, k))
      + StdOutput(ps[1..], args, NextArg(ps[0], k))
  }

  /** Every integer directive meets the condition for its arguments. */
  predicate AllMeet(ps: seq<Part>, args: seq<Arg>, k: nat) {
    ps == []
    || ((ps[0].Conversion? && IsStdInteger(ps[0].d) ==> MeetsStandard(ps[0].d, args, k))
        && AllMeet(ps[1..], args, NextArg(ps[0], k)))
  }

  lemma PartAgrees(p: Part, args: seq<Arg>, c: Output)
    requires p.Conversion? ==> IsStd(p.d)
    ensures var c' := PartEffect(p, args, c);
      c'.k == NextArg(p, c.k)
      && ((p.Conversion? && IsStdInteger(p.d) ==> MeetsStandard(p.d, args, c.k)) ==>
            c'.text == c.text + (match p case Literal(t) => t case Conversion(d) => StdPrinted(d, args, c.k)))
  {
    if p.Conversion? {
      hide Printed, StdPrinted, MeetsStandard, WellFormed;
      DirectiveAgrees(p.d, args, c.k);
    }
  }

  lemma AddsUp(a: string, b: string, ab: string, t: string)
    requires ab == a + b
    ensures ab + t == a + (b + t)
  {
  }

  lemma {:induction false} PartsAgree(ps: seq<Part>, args: seq<Arg>, c: Output)
    requires AllStd(ps) && AllMeet(ps, args, c.k)
    ensures Meaning(ps, args, c).text == c.text + StdOutput(ps, args, c.k)
    decreases |ps|
  {
    if ps != [] {
      hide PartEffect, IsStd, MeetsStandard, StdPrinted, IsPart;
      var c' := PartEffect(ps[0], args, c);
      PartAgrees(ps[0], args, c);
      PartsAgree(ps[1..], args, c');
      hide *;
      AddsUp(c.text, match ps[0] case Literal(t) => t case Conversion(d) => StdPrinted(d, args, c.k),
             c'.text, StdOutput(ps[1..], args, c'.k));
    }
  }

  /**
   * vsnprintf's full output for a format of the standard is what the standard prints, provided that every
   * integer directive meets the condition; for a single directive if and only if it does.
   */
  lemma FormatAgrees(ps: seq<Part>, args: seq<Arg>)
    requires AllStd(ps)
    ensures AllMeet(ps, args, 0) ==> Render(Format(ps), args).text == StdOutput(ps, args, 0)
    ensures |ps| == 1 ==> (Render(Format(ps), args).text == StdOutput(ps, args, 0) <==> AllMeet(ps, args, 0))
  {
    var c := Output(0, "", [], true);
    FormatMeans(ps, args);
    if AllMeet(ps, args, 0) {
      PartsAgree(ps, args, c);
    }
    if |ps| == 1 {
      hide Render, Format, Printed, StdPrinted, MeetsStandard, IsStd;
      assert ps[1..] == [];
      OnePart(ps[0], args, c);
    }
  }

  lemma OnePart(p: Part, args: seq<Arg>, c: Output)
    requires (p.Conversion? ==> IsStd(p.d)) && c == Output(0, "", [], true)
    ensures Meaning([p], args, c).text == StdOutput([p], args, 0) <==> AllMeet([p], args, 0)
  {
    assert [p][1..] == [];
    hide Printed, StdPrinted, MeetsStandard, IsStd;
    if p.Conversion? {
      DirectiveAgrees(p.d, args, 0);
      assert "" + Printed(p.d, args, 0) == Printed(p.d, args, 0);
      assert StdPrinted(p.d, args, 0) + "" == StdPrinted(p.d, args, 0);
    } else {
      assert "" + p.text == p.text == p.text + "";
    }
  }
}
