/**
 What the interpreter prints for a written directive, and how that compares with section
 7.19.6.1 of ISO/IEC 9899:1999: fields read back, have the width asked for, and are the
 standard's fields, each under its exact condition. A directive may take its width and
 precision from arguments; results speak of the directive with these numbers written in.
 */
module PrintedFields {
  import opened CTypes
  import opened Options
  import opened PrintfNumber
  import opened PrintfFormat
  import opened PrintfDirectives
  import opened Sequences

  function AmountValue(a: Amount): nat { if a.Given? then a.n else 0 }

  /** The flags the conversion of a directive works with. */
  function DirectiveFlags(d: Directive): Flags {
    AddLength(d.length, AddFlags(d.flags, NO_FLAGS).(precision := !d.precision.Absent?))
  }

  lemma PlainMeaning(d: Directive, g: seq<char>, args: seq<Arg>)
    requires WellFormed(d) && Starless(d)
    ensures Meaning(d, g, args) ==
            Some(Cursor(DirectiveFlags(d), AmountValue(d.width), AmountValue(d.precision), [d.specifier] + g, args))
  {
    hide AddLength, Has;
    assert AddFlags(d.flags, NO_FLAGS).(precision := false) == AddFlags(d.flags, NO_FLAGS);
  }

  // ----- printed integers

  /** Section 7.19.6.1: d and i, u, o, x and X are integer conversions; b is an extension. */
  predicate IntegerDirective(d: Directive) { WellFormed(d) && d.specifier in "diuxXob" }

  /** d and i show signed numbers, the others unsigned ones. */
  predicate SignedConversion(c: char) { c == 'd' || c == 'i' }

  /** d, i and u are decimal, o is octal, x and X are hexadecimal, b is binary. */
  function Radix(c: char): (b: nat)
    ensures 2 <= b <= 16
  {
    match c
    case 'o' => 8
    case 'x' => 16
    case 'X' => 16
    case 'b' => 2
    case _ => 10
  }

  /** The code's classification of specifiers is that one. */
  lemma SpecifierTable(c: char)
    ensures IsInteger(c) <==> c in "diuxXob"
    ensures IsSigned(c) <==> SignedConversion(c)
    ensures Base(c) == Radix(c)
  {
  }

  /** An integer directive without '#'. */
  predicate NumberDirective(d: Directive) { IntegerDirective(d) && !Has(d.flags, '#') }

  function PrintedType(d: Directive): CType { ArgumentType(d.specifier, DirectiveFlags(d)) }

  /** The number a directive shows for an argument: the argument in the type the length modifier names. */
  function Shown(d: Directive, v: int): int { Convert(PrintedType(d), v) }

  /** The type the standard narrows the argument to: for hh a signed or unsigned char by the conversion. */
  function StandardType(d: Directive): CType {
    var w := match d.length
      case HH => W8
      case H => W16
      case Plainly => W32
      case _ => W64;
    CType(SignedConversion(d.specifier), w)
  }

  /** The number the standard shows. */
  function StandardShown(d: Directive, v: int): int { Convert(StandardType(d), v) }

  /** The code narrows hh to plain char, unsigned on RISC-V: only %hhd and %hhi of 128 to 255 show another number. */
  lemma NarrowedIff(d: Directive, v: int)
    ensures Shown(d, v) == StandardShown(d, v)
            <==> !(d.length.HH? && SignedConversion(d.specifier) && Convert(UCHAR, v) >= 128)
    ensures Shown(d, v) != StandardShown(d, v) ==> Shown(d, v) >= 128
  {
  }

  /** Whether the magnitude the code forms is defined. */
  predicate Printable(d: Directive, v: int) { Negatable(Shown(d, v), PrintedType(d)) }

  /** It is not for the least int and the least long alone. */
  lemma PrintableIff(d: Directive, v: int)
    ensures Printable(d, v) <==>
            !(SignedConversion(d.specifier)
              && match d.length
                 case Plainly => Shown(d, v) == -0x8000_0000
                 case H => false
                 case HH => false
                 case _ => Shown(d, v) == -0x8000_0000_0000_0000)
  {
    NarrowedIff(d, v);
    assert Fits(PrintedType(d), Shown(d, v));
    hide Convert;
  }

  function PrintedText(d: Directive, v: int): seq<char> {
    NumberText(Magnitude(Shown(d, v)), Shown(d, v) < 0, Radix(d.specifier), AmountValue(d.precision),
               AmountValue(d.width), IntegerFlags(d.specifier, DirectiveFlags(d)))
  }

  lemma NumberEmitted(c: Cursor, s: char, v: int)
    requires c.format != [] && c.format[0] == s && IsInteger(s) && c.args == [Number(v)]
    requires Negatable(Convert(ArgumentType(s, c.flags), v), ArgumentType(s, c.flags))
    ensures var n := Convert(ArgumentType(s, c.flags), v);
            Emit(c) ==
            Some(Rendered(NumberText(Magnitude(n), n < 0, Base(s), c.precision, c.width, IntegerFlags(s, c.flags)), []))
  {
    hide NumberText, Convert, ArgumentType, IntegerFlags, Base, Magnitude, Negatable;
    assert s !in "fFeEgG" && c.args[1..] == [];
  }

  lemma StarlessNumber(d: Directive, v: int)
    requires IntegerDirective(d) && Starless(d) && Printable(d, v)
    ensures Render(Show(d), [Number(v)]) == Some(Rendered(PrintedText(d, v), []))
  {
    var c := Cursor(DirectiveFlags(d), AmountValue(d.width), AmountValue(d.precision), [d.specifier], [Number(v)]);
    RenderShown(d, [], [Number(v)]);
    assert Show(d) + [] == Show(d) && [d.specifier] + [] == [d.specifier];
    PlainMeaning(d, [], [Number(v)]);
    NumberEmitted(c, d.specifier, v);
    hide Emit, Show, Meaning, DirectiveFlags, NumberText, Convert, ArgumentType, IntegerFlags, Radix, Magnitude,
         AmountValue,
         Negatable;
    assert PrintedText(d, v) + [] == PrintedText(d, v);
  }

  /** Arguments for an integer directive: those '*' takes, which turn it into e, then the number. */
  predicate TakesInteger(d: Directive, args: seq<Arg>, e: Directive, v: int) {
    IntegerDirective(d) && CodeResolve(d, args) == Some(Resolved(e, [Number(v)])) && Printable(e, v)
  }

  /** The same without '#'. */
  predicate Takes(d: Directive, args: seq<Arg>, e: Directive, v: int) {
    TakesInteger(d, args, e, v) && !Has(d.flags, '#')
  }

  lemma TakesResolved(d: Directive, args: seq<Arg>, e: Directive, v: int)
    requires TakesInteger(d, args, e, v)
    ensures IntegerDirective(e) && Starless(e) && e.specifier == d.specifier && e.length == d.length
    ensures Has(e.flags, '#') <==> Has(d.flags, '#')
  {
    ResolvedMeaning(d, [], args);
    hide WellFormed, NextInt, IsInteger, Meaning;
    HasLast(d.flags, '#');
  }

  lemma TakesNumber(d: Directive, args: seq<Arg>, e: Directive, v: int)
    requires Takes(d, args, e, v)
    ensures NumberDirective(e) && Starless(e) && e.specifier == d.specifier && e.length == d.length
  {
    hide TakesInteger, IntegerDirective, Starless, Has;
    TakesResolved(d, args, e, v);
  }

  /**
   What an integer directive prints, from its parts: the narrowed argument, sign, base,
   flags, width and precision.
   */
  lemma IntegerShown(d: Directive, args: seq<Arg>, e: Directive, v: int)
    requires TakesInteger(d, args, e, v)
    ensures IntegerDirective(e) && Starless(e)
    ensures Render(Show(d), args) == Some(Rendered(PrintedText(e, v), []))
  {
    TakesResolved(d, args, e, v);
    ResolvedRender(d, [], args);
    assert Show(d) + [] == Show(d) && Show(e) + [] == Show(e);
    hide Render, Show, CodeResolve, Printable, PrintedText;
    StarlessNumber(e, v);
  }

  lemma NumberShown(d: Directive, args: seq<Arg>, e: Directive, v: int)
    requires Takes(d, args, e, v)
    ensures NumberDirective(e) && Starless(e)
    ensures Render(Show(d), args) == Some(Rendered(PrintedText(e, v), []))
  {
    assert TakesInteger(d, args, e, v);
    hide Render, Show, TakesInteger, IntegerDirective, PrintedText;
    TakesNumber(d, args, e, v);
    IntegerShown(d, args, e, v);
  }

  /**
   The flags the standard gives an integer directive without '#': '+' and ' ' count for signed
   conversions only, '0' not with a precision, and X asks for upper case.
   */
  function StandardFlags(d: Directive): Flags {
    AddLength(d.length,
              Flags(Has(d.flags, '0') && d.precision.Absent?, Has(d.flags, '-'),
                    Has(d.flags, '+') && SignedConversion(d.specifier),
                    Has(d.flags, ' ') && SignedConversion(d.specifier), false,
                    d.specifier == 'X', false, false, false, false, !d.precision.Absent?))
  }

  /** The code works with just these flags. */
  lemma FlagsOf(d: Directive)
    requires NumberDirective(d)
    ensures IntegerFlags(d.specifier, DirectiveFlags(d)) == StandardFlags(d)
  {
    hide Has;
  }

  lemma MagnitudeFits(t: CType, v: int)
    ensures var n := Convert(t, v);
            && Magnitude(n) < 0x1_0000_0000_0000_0000
            && (n < 0 ==> Magnitude(n) > 0)
            && n == if n < 0 then 0 - Magnitude(n) else Magnitude(n)
  {
    assert Fits(t, Convert(t, v));
    hide Convert;
  }

  // ----- reading printed integers back

  /** Whether a directive leaves room for a minus sign in the 32-character scratch buffer. */
  predicate SignVisible(d: Directive) {
    || Has(d.flags, '-')
    || (AmountValue(d.precision) < NTOA_BUFFER_SIZE
        && (Has(d.flags, '0') && d.precision.Absent? ==> AmountValue(d.width) <= NTOA_BUFFER_SIZE))
  }

  lemma SignKeptIff(d: Directive, negative: bool)
    ensures SignKept(negative, AmountValue(d.precision), AmountValue(d.width), StandardFlags(d))
            <==> (negative ==> SignVisible(d))
  {
    hide Has, AmountValue;
  }

  lemma TextReadsBack(d: Directive, v: int)
    requires NumberDirective(d)
    ensures ReadBack(PrintedText(d, v), Radix(d.specifier)) == Shown(d, v)
            <==> (Shown(d, v) < 0 ==> SignVisible(d)) && (d.specifier == 'b' ==> Shown(d, v) <= Greatest(UINT))
  {
    var f, n := StandardFlags(d), Shown(d, v);
    FlagsOf(d);
    MagnitudeFits(PrintedType(d), v);
    SignKeptIff(d, n < 0);
    assert !f.hash && IsInteger(d.specifier);
    BinaryUnsigned(d, v);
    hide StandardFlags, NumberText, Shown, DirectiveFlags, IntegerFlags, ReadBack, AmountValue, SignKept, SignVisible,
         Radix, Magnitude, NumberDirective, PrintedType;
    NumberReadsBack(Magnitude(n), n < 0, Radix(d.specifier), AmountValue(d.precision), AmountValue(d.width), f);
  }

  /** In base 2 a number of up to 32 bits, in the others one of up to 64. */
  lemma NumberReadsBack(m: nat, negative: bool, base: nat, prec: nat, width: nat, f: Flags)
    requires (base == 2 || 8 <= base <= 16) && m < 0x1_0000_0000_0000_0000 && !f.hash
    requires negative ==> m > 0 && base != 2
    ensures ReadBack(NumberText(m, negative, base, prec, width, f), base) == (if negative then 0 - m else m)
            <==> SignKept(negative, prec, width, f) && (base == 2 ==> m < 0x1_0000_0000)
  {
    hide NumberText, ReadBack, AllDigits, SignKept;
    if base == 2 && m >= 0x1_0000_0000 {
      CutReads(m, prec, width, f);
    } else {
      if base == 2 {
        ThirtyTwoBits(m, f.uppercase);
      } else {
        SixtyFourBits(m, base, f.uppercase);
      }
      RoundTripIff(m, negative, base, prec, width, f);
    }
  }

  lemma BinaryUnsigned(d: Directive, v: int)
    ensures Radix(d.specifier) == 2 <==> d.specifier == 'b'
    ensures d.specifier == 'b' ==> Shown(d, v) >= 0
    ensures d.specifier != 'b' ==> Radix(d.specifier) >= 8
  {
    assert Fits(PrintedType(d), Shown(d, v));
    hide Convert;
  }

  /**
   Print and parse through the interpreter: for every integer directive without '#' and every
   argument, the text reads back as the number exactly when a negative number's sign is
   visible and, for %b, the number has at most 32 bits.
   */
  lemma PrintedReadsBack(d: Directive, args: seq<Arg>, e: Directive, v: int)
    requires Takes(d, args, e, v)
    ensures Render(Show(d), args).Some?
    ensures ReadBack(Render(Show(d), args).value.text, Radix(e.specifier)) == Shown(e, v)
            <==> (Shown(e, v) < 0 ==> SignVisible(e)) && (e.specifier == 'b' ==> Shown(e, v) <= Greatest(UINT))
  {
    hide Render, Show, PrintedText, Takes, ReadBack, Shown, SignVisible, Radix, NumberDirective;
    NumberShown(d, args, e, v);
    TextReadsBack(e, v);
  }

  // ----- the width of printed integers

  lemma WithoutWidth(d: Directive, v: int)
    requires NumberDirective(d) && Starless(d)
    ensures var e := d.(width := Absent);
            && NumberDirective(e) && Starless(e) && (Printable(e, v) <==> Printable(d, v))
            && PrintedText(e, v) == NumberText(Magnitude(Shown(d, v)), Shown(d, v) < 0, Radix(d.specifier),
                                               AmountValue(d.precision), 0,
                                               IntegerFlags(d.specifier, DirectiveFlags(d)))
  {
    var e := d.(width := Absent);
    assert DirectiveFlags(e) == DirectiveFlags(d);
    hide NumberText, DirectiveFlags, IntegerFlags, Convert, ArgumentType;
  }

  /**
   An integer directive without '#' emits the larger of its width and what it emits without
   one, exactly when zero padding asks for no more than the scratch buffer holds.
   */
  lemma PrintedWidth(d: Directive, args: seq<Arg>, e: Directive, v: int)
    requires Takes(d, args, e, v)
    ensures Render(Show(d), args).Some? && Render(Show(e.(width := Absent)), [Number(v)]).Some?
    ensures |Render(Show(d), args).value.text|
            == Max(AmountValue(e.width), |Render(Show(e.(width := Absent)), [Number(v)]).value.text|)
            <==> (Has(e.flags, '0') && e.precision.Absent? && !Has(e.flags, '-') ==>
                    AmountValue(e.width) <= NTOA_BUFFER_SIZE)
  {
    var f, n := StandardFlags(e), Shown(e, v);
    NumberShown(d, args, e, v);
    WithoutWidth(e, v);
    FlagsOf(e);
    assert ZerosFit(AmountValue(e.width), f) <==>
           (Has(e.flags, '0') && e.precision.Absent? && !Has(e.flags, '-') ==>
              AmountValue(e.width) <= NTOA_BUFFER_SIZE);
    assert !f.hash;
    hide Render, Show, NumberText, Shown, PrintedType, Magnitude, DirectiveFlags, IntegerFlags, StandardFlags, Radix,
         AmountValue, Has, Printable, NumberDirective, CodeResolve, ZerosFit;
    StarlessNumber(e.(width := Absent), v);
    FieldWidthIff(Magnitude(n), n < 0, Radix(e.specifier), AmountValue(e.precision), AmountValue(e.width), f);
  }

  // ----- printed integers against the standard

  /** The field the standard asks for, a directive's width and precision given. */
  function StandardPrinted(d: Directive, v: int): seq<char> {
    var n := StandardShown(d, v);
    StandardText(Magnitude(n), n < 0, Radix(d.specifier), AmountValue(d.precision), AmountValue(d.width),
      StandardFlags(d))
  }

  /** The standard's text reads back as the number it shows. */
  lemma StandardReadsBack(value: nat, negative: bool, base: nat, prec: nat, width: nat, flags: Flags)
    requires 2 <= base <= 16
    ensures ReadBack(StandardText(value, negative, base, prec, width, flags), base)
            == if negative then 0 - value else value
  {
    var d := if value == 0 && !flags.precision then ['0'] else AllDigits(value, base, flags.uppercase);
    AllDigitsPlain(value, base, flags.uppercase);
    AllDigitsValue(value, base, flags.uppercase);
    ZeroReads(base);
    hide AllDigits;
    assert Plain(d) && Horner(d, base) == value;
    StandardFieldReads(d, negative, base, prec, width, flags);
  }

  lemma LeftField(d: seq<char>, negative: bool, prec: nat, width: nat, flags: Flags)
    requires flags.left
    ensures var sign, digits := SignText(negative, flags), Repeat('0', prec - |d|) + d;
            StandardField(d, negative, prec, width, flags)
            == [] + (sign + Repeat('0', 0) + digits) + Repeat(' ', width - |sign| - |digits|)
  {
    var sign, digits := SignText(negative, flags), Repeat('0', prec - |d|) + d;
    NoZeros(sign, digits);
  }

  lemma ZeroField(d: seq<char>, negative: bool, prec: nat, width: nat, flags: Flags)
    requires !flags.left && flags.zeropad
    ensures var sign, digits := SignText(negative, flags), Repeat('0', prec - |d|) + d;
            StandardField(d, negative, prec, width, flags)
            == [] + (sign + Repeat('0', Max(width - |sign| - |digits|, 0)) + digits) + []
  {
    var fill := width - |SignText(negative, flags)| - |Repeat('0', prec - |d|) + d|;
    assert Repeat('0', fill) == Repeat('0', Max(fill, 0));
  }

  lemma BlankField(d: seq<char>, negative: bool, prec: nat, width: nat, flags: Flags)
    requires !flags.left && !flags.zeropad
    ensures var sign, digits := SignText(negative, flags), Repeat('0', prec - |d|) + d;
            StandardField(d, negative, prec, width, flags)
            == Repeat(' ', width - |sign| - |digits|) + (sign + Repeat('0', 0) + digits) + []
  {
    var sign, digits := SignText(negative, flags), Repeat('0', prec - |d|) + d;
    NoZeros(sign, digits);
    Associates(Repeat(' ', width - |sign| - |digits|), sign, digits);
  }

  lemma NoZeros(sign: seq<char>, digits: seq<char>)
    ensures sign + Repeat('0', 0) + digits == sign + digits
  {
    assert Repeat('0', 0) == [];
  }

  predicate Blank(s: seq<char>) { forall i :: 0 <= i < |s| ==> s[i] == ' ' }

  /** The standard's field is blanks, sign, zeros, digits, blanks. */
  lemma StandardShape(d: seq<char>, negative: bool, prec: nat, width: nat, flags: Flags)
    returns (before: seq<char>, z: nat, after: seq<char>)
    ensures Blank(before) && Blank(after)
    ensures StandardField(d, negative, prec, width, flags)
            == before + (SignText(negative, flags) + Repeat('0', z) + (Repeat('0', prec - |d|) + d)) + after
  {
    var fill := width - |SignText(negative, flags)| - |Repeat('0', prec - |d|) + d|;
    before, z, after := [], 0, [];
    hide StandardField, SignText;
    if flags.left {
      LeftField(d, negative, prec, width, flags);
      after := Repeat(' ', fill);
    } else if flags.zeropad {
      ZeroField(d, negative, prec, width, flags);
      z := Max(fill, 0);
    } else {
      BlankField(d, negative, prec, width, flags);
      before := Repeat(' ', fill);
    }
  }

  lemma SignShape(negative: bool, flags: Flags)
    ensures var sign := SignText(negative, flags);
            && (sign == [] || sign == ['-'] || sign == ['+'] || sign == [' '])
            && (sign == ['-'] <==> negative)
  {
  }

  lemma StandardFieldReads(d: seq<char>, negative: bool, base: nat, prec: nat, width: nat, flags: Flags)
    requires Plain(d)
    ensures ReadBack(StandardField(d, negative, prec, width, flags), base)
            == if negative then 0 - Horner(d, base) else Horner(d, base)
  {
    hide StandardField, Repeat, Horner, ReadBack, Plain, SignText, Blank;
    var before, z, after := StandardShape(d, negative, prec, width, flags);
    SignShape(negative, flags);
    PrecisionReads(d, prec, base);
    BodyAround(before, SignText(negative, flags), z, Repeat('0', prec - |d|) + d, after, base);
  }

  lemma PrecisionReads(d: seq<char>, prec: nat, base: nat)
    requires Plain(d)
    ensures Plain(Repeat('0', prec - |d|) + d) && Horner(Repeat('0', prec - |d|) + d, base) == Horner(d, base)
  {
    ZerosPlain(prec - |d|, d);
    HornerZeros(Repeat('0', prec - |d|), d, base);
  }

  lemma BodyAround(before: seq<char>, sign: seq<char>, z: nat, digits: seq<char>, after: seq<char>, base: nat)
    requires Blank(before) && Blank(after)
    requires sign == [] || sign == ['-'] || sign == ['+'] || sign == [' ']
    requires Plain(digits)
    ensures ReadBack(before + (sign + Repeat('0', z) + digits) + after, base)
            == if sign == ['-'] then 0 - Horner(digits, base) else Horner(digits, base)
  {
    hide Repeat, Horner, StripSpaces, ReadNumber, Plain;
    StripAround(before, sign + Repeat('0', z) + digits, after);
    ReadBody(sign, z, digits, base);
  }

  lemma StripAround(before: seq<char>, body: seq<char>, after: seq<char>)
    requires Blank(before) && Blank(after)
    ensures StripSpaces(before + body + after) == StripSpaces(body)
  {
    StripConcat(before + body, after);
    StripConcat(before, body);
    StripOnlySpaces(before);
    StripOnlySpaces(after);
  }

  /** A zero-padded field is the blank-padded one exactly when there is nothing to fill. */
  lemma ZerosAreBlanksIff(sign: seq<char>, d: seq<char>, fill: int)
    requires |sign| <= 1
    ensures Repeat(' ', fill) + sign + d == sign + Repeat('0', fill) + d <==> fill <= 0
  {
    var blank, zero := Repeat(' ', fill) + sign + d, sign + Repeat('0', fill) + d;
    if fill > 0 {
      assert zero[|sign|] == '0' && blank[|sign|] == (if |sign| < fill then ' ' else sign[|sign| - fill]);
      if |sign| == fill {
        assert blank[0] == ' ' && blank[1] == sign[0] && zero[0] == sign[0] && zero[1] == '0';
      }
    }
  }

  /** A field without a digit is not the field of a 0. */
  lemma NoDigitShown(negative: bool, width: nat, flags: Flags, c: Flags)
    requires flags.left == c.left && !c.zeropad && SignText(negative, flags) == SignText(negative, c)
    ensures StandardField([], negative, 0, width, c) != StandardField(['0'], negative, 0, width, flags)
  {
    var sign := SignText(negative, flags);
    var code, std := StandardField([], negative, 0, width, c), StandardField(['0'], negative, 0, width, flags);
    assert Repeat('0', 0) + [] == [] && Repeat('0', -1) + ['0'] == ['0'];
    if flags.left {
      assert std[|sign|] == '0';
      assert |code| > |sign| ==> code[|sign|] == ' ';
    } else {
      assert std[|std| - 1] == '0';
      assert code == Repeat(' ', width - |sign|) + sign;
      assert |code| > 0 ==> code[|code| - 1] != '0';
    }
  }

  /**
   Printed with precision 0 instead of none, a number is the field asked for exactly when it
   is not 0 and zero padding would have had nothing to fill.
   */
  lemma PrecisionZeroIff(value: nat, negative: bool, base: nat, width: nat, flags: Flags)
    requires 8 <= base <= 16 && value < 0x1_0000_0000_0000_0000 && !flags.hash && !flags.precision
             && (negative ==> value > 0)
    ensures var d := AllDigits(value, base, flags.uppercase);
            NumberText(value, negative, base, 0, width, flags.(precision := true, zeropad := false))
            == StandardText(value, negative, base, 0, width, flags)
            <==> value != 0 && (flags.zeropad && !flags.left ==> width <= |SignText(negative, flags)| + |d|)
  {
    var c, d := flags.(precision := true, zeropad := false), AllDigits(value, base, flags.uppercase);
    assert Conforming(|ScratchDigits(value, base, c)|, negative, 0, width, c);
    ConformsIff(value, negative, base, 0, width, c);
    StandardDigits(value, negative, base, width, flags, c);
    hide NumberText, AllDigits, ScratchDigits, StandardField, StandardText, Conforming;
    if value == 0 {
      NoDigitShown(negative, width, flags, c);
    } else {
      UnpaddedIff(d, negative, width, flags, c);
    }
  }

  lemma StandardDigits(value: nat, negative: bool, base: nat, width: nat, flags: Flags, c: Flags)
    requires 2 <= base <= 16 && !flags.precision && c == flags.(precision := true, zeropad := false)
    ensures SignText(negative, flags) == SignText(negative, c)
    ensures var d := AllDigits(value, base, flags.uppercase);
            && StandardText(value, negative, base, 0, width, c)
              == StandardField(if value == 0 then [] else d, negative, 0, width, c)
            && StandardText(value, negative, base, 0, width, flags)
               == StandardField(if value == 0 then ['0'] else d, negative, 0, width, flags)
  {
    assert AllDigits(0, base, flags.uppercase) == [];
    hide AllDigits, StandardField;
  }

  lemma UnpaddedIff(d: seq<char>, negative: bool, width: nat, flags: Flags, c: Flags)
    requires flags.left == c.left && !c.zeropad && SignText(negative, flags) == SignText(negative, c)
    ensures StandardField(d, negative, 0, width, c) == StandardField(d, negative, 0, width, flags)
            <==> (flags.zeropad && !flags.left ==> width <= |SignText(negative, flags)| + |d|)
  {
    var sign := SignText(negative, flags);
    assert Repeat('0', 0 - |d|) + d == d;
    hide Repeat, SignText;
    if flags.zeropad && !flags.left {
      ZerosAreBlanksIff(sign, d, width - |sign| - |d|);
    }
  }

  /** The two resolutions of '*' for an integer directive: e by the code, s by the standard. */
  predicate Asks(d: Directive, args: seq<Arg>, e: Directive, s: Directive, v: int) {
    Takes(d, args, e, v) && StandardResolve(d, args) == Some(Resolved(s, [Number(v)]))
  }

  /**
   When a printed integer is the standard's field: the narrowing agrees; and without a
   negative precision argument Conforming holds, with one the number is not 0 and the
   standard's zero padding has nothing to fill.
   */
  predicate AsAsked(e: Directive, s: Directive, v: int) {
    var f, n := StandardFlags(s), Shown(e, v);
    && n == StandardShown(s, v)
    && if e == s then
         Conforming(|ScratchDigits(Magnitude(n), Radix(e.specifier), f)|, n < 0, AmountValue(e.precision),
           AmountValue(e.width), f)
       else
         n != 0 && (f.zeropad && !f.left ==>
                      AmountValue(e.width) <= |SignText(n < 0, f)|
                        + |AllDigits(Magnitude(n), Radix(e.specifier), f.uppercase)|)
  }

  lemma SameResolution(e: Directive, v: int)
    requires NumberDirective(e) && e.specifier != 'b' && Shown(e, v) == StandardShown(e, v)
    ensures PrintedText(e, v) == StandardPrinted(e, v) <==> AsAsked(e, e, v)
  {
    var f, n := StandardFlags(e), Shown(e, v);
    FlagsOf(e);
    MagnitudeFits(PrintedType(e), v);
    BinaryUnsigned(e, v);
    assert Normal(AmountValue(e.precision), f) && !f.hash;
    hide StandardFlags, NumberText, Shown, StandardShown, DirectiveFlags, IntegerFlags, StandardText, ScratchDigits,
         Conforming,
         AmountValue, Radix, Magnitude, NumberDirective;
    ConformsIff(Magnitude(n), n < 0, Radix(e.specifier), AmountValue(e.precision), AmountValue(e.width), f);
  }

  lemma NegativePrecision(e: Directive, s: Directive, v: int)
    requires NumberDirective(e) && e.specifier != 'b' && Shown(e, v) == StandardShown(s, v)
    requires e.precision == Given(0) && s == e.(precision := Absent)
    ensures PrintedText(e, v) == StandardPrinted(s, v) <==> AsAsked(e, s, v)
  {
    var f, n := StandardFlags(s), Shown(e, v);
    FlagsOf(e);
    WithoutPrecision(e, s);
    MagnitudeFits(PrintedType(e), v);
    BinaryUnsigned(e, v);
    hide StandardFlags, NumberText, Shown, StandardShown, DirectiveFlags, IntegerFlags, StandardText, AllDigits,
         SignText,
         AmountValue, Radix, Magnitude, NumberDirective;
    PrecisionZeroIff(Magnitude(n), n < 0, Radix(e.specifier), AmountValue(e.width), f);
  }

  lemma WithoutPrecision(e: Directive, s: Directive)
    requires e.precision == Given(0) && s == e.(precision := Absent)
    ensures var f := StandardFlags(s);
            StandardFlags(e) == f.(precision := true, zeropad := false) && !f.hash && !f.precision
    ensures AmountValue(e.precision) == AmountValue(s.precision) == 0
  {
    hide Has;
  }

  /** Where the narrowing differs, so does the number the text reads as. */
  lemma NarrowedDiffers(e: Directive, s: Directive, v: int)
    requires NumberDirective(e) && e.specifier != 'b' && e.specifier == s.specifier && e.length == s.length
    requires Shown(e, v) != StandardShown(s, v)
    ensures PrintedText(e, v) != StandardPrinted(s, v)
  {
    var n := StandardShown(s, v);
    SameNarrowing(e, s, v);
    NarrowedIff(e, v);
    TextReadsBack(e, v);
    MagnitudeFits(StandardType(s), v);
    hide NumberText, ReadBack, StandardText, Shown, StandardType, Magnitude, StandardFlags, AmountValue,
         NumberDirective, PrintedText;
    StandardReadsBack(Magnitude(n), n < 0, Radix(s.specifier), AmountValue(s.precision), AmountValue(s.width),
      StandardFlags(s));
  }

  lemma SameNarrowing(e: Directive, s: Directive, v: int)
    requires e.specifier == s.specifier && e.length == s.length
    ensures Shown(e, v) == Shown(s, v) && StandardShown(e, v) == StandardShown(s, v)
  {
    hide Convert;
  }

  /**
   Through the interpreter, for every %d, %i, %u, %x, %X or %o directive without '#' and any
   arguments for '*': the text is the field section 7.19.6.1 asks for exactly when AsAsked.
   */
  lemma PrintedConforms(d: Directive, args: seq<Arg>, e: Directive, s: Directive, v: int)
    requires Asks(d, args, e, s, v) && d.specifier != 'b'
    ensures Render(Show(d), args).Some?
    ensures Render(Show(d), args).value.text == StandardPrinted(s, v) <==> AsAsked(e, s, v)
  {
    ResolutionsAgree(d, args);
    TakesNumber(d, args, e, v);
    NumberShown(d, args, e, v);
    hide Render, Show, CodeResolve, StandardResolve, Shown, StandardShown, PrintedText, StandardPrinted,
         NumberDirective;
    if Shown(e, v) != StandardShown(s, v) {
      NarrowedDiffers(e, s, v);
    } else if e == s {
      SameResolution(e, v);
    } else {
      NegativePrecision(e, s, v);
    }
  }

  // ----- printed strings and characters

  function FieldBody(d: Directive, a: Arg): seq<char> {
    match a
    case Number(v) => [Convert(UCHAR, v) as char]
    case Text(t) => StringShown(t, DirectiveFlags(d), AmountValue(d.precision))
  }

  function FieldLength(d: Directive, a: Arg): nat {
    match a
    case Number(_) => 1
    case Text(t) => StringLength(t, DirectiveFlags(d), AmountValue(d.precision))
  }

  function FieldText(d: Directive, a: Arg, width: nat): seq<char> {
    PaddedText(FieldBody(d, a), FieldLength(d, a), width, DirectiveFlags(d))
  }

  /** A directive and argument of %s or %c. */
  predicate TextDirective(d: Directive, a: Arg) {
    WellFormed(d) && ((d.specifier == 's' && a.Text?) || (d.specifier == 'c' && a.Number?))
  }

  lemma TextEmitted(c: Cursor, d: Directive, a: Arg)
    requires TextDirective(d, a) && c.format == [d.specifier] && c.args == [a]
    requires c.flags == DirectiveFlags(d) && c.precision == AmountValue(d.precision)
    ensures Emit(c) == Some(Rendered(FieldText(d, a, c.width), []))
  {
    assert [a][1..] == [] && d.specifier !in "fFeEgG" && !IsInteger(d.specifier);
    hide DirectiveFlags, PaddedText, StringShown, StringLength, Convert, AmountValue, IsInteger;
  }

  lemma StarlessText(d: Directive, a: Arg)
    requires TextDirective(d, a) && Starless(d)
    ensures Render(Show(d), [a]) == Some(Rendered(FieldText(d, a, AmountValue(d.width)), []))
  {
    RenderShown(d, [], [a]);
    assert Show(d) + [] == Show(d) && [d.specifier] + [] == [d.specifier];
    PlainMeaning(d, [], [a]);
    TextEmitted(Cursor(DirectiveFlags(d), AmountValue(d.width), AmountValue(d.precision), [d.specifier], [a]), d, a);
    hide Show, Meaning, DirectiveFlags, Emit, FieldText, AmountValue;
    assert FieldText(d, a, AmountValue(d.width)) + [] == FieldText(d, a, AmountValue(d.width));
  }

  /** Arguments for %s or %c: those '*' takes, which turn the directive into e, then the string or character. */
  predicate TakesText(d: Directive, args: seq<Arg>, e: Directive, a: Arg) {
    TextDirective(d, a) && CodeResolve(d, args) == Some(Resolved(e, [a]))
  }

  /** What %s and %c print, from their parts. */
  lemma TextShown(d: Directive, args: seq<Arg>, e: Directive, a: Arg)
    requires TakesText(d, args, e, a)
    ensures TextDirective(e, a) && Starless(e)
    ensures Render(Show(d), args) == Some(Rendered(FieldText(e, a, AmountValue(e.width)), []))
  {
    ResolvedMeaning(d, [], args);
    ResolvedRender(d, [], args);
    assert Show(d) + [] == Show(d) && Show(e) + [] == Show(e);
    hide Render, Show, CodeResolve, WellFormed, FieldText, Meaning;
    StarlessText(e, a);
  }

  lemma PaddedCounts(body: seq<char>, l: nat, width: nat, flags: Flags)
    ensures |PaddedText(body, l, width, flags)| == |body| + Max(0, width - l)
  {
  }

  lemma FieldCounts(d: Directive, a: Arg)
    requires WellFormed(d) && Starless(d)
    ensures FieldLength(d, a) <= |FieldBody(d, a)| && FieldLength(d, a) <= Greatest(UINT)
    ensures |FieldBody(d, a)| <= Greatest(UINT) ==> FieldLength(d, a) == |FieldBody(d, a)|
  {
    hide AddFlags, Convert;
  }

  /** Whether the length the padding starts from is right, or does not matter. */
  predicate LengthKept(d: Directive, a: Arg) {
    |FieldBody(d, a)| <= Greatest(UINT) || AmountValue(d.width) <= FieldLength(d, a)
  }

  /**
   %c and %s emit the larger of the width and what they emit without one. This fails exactly
   for a string showing 2^32 characters or more whose length, cut to an unsigned int, is
   less than the width.
   */
  lemma TextWidth(d: Directive, args: seq<Arg>, e: Directive, a: Arg)
    requires TakesText(d, args, e, a)
    ensures Render(Show(d), args).Some? && Render(Show(e.(width := Absent)), [a]).Some?
    ensures |Render(Show(d), args).value.text|
            == Max(AmountValue(e.width), |Render(Show(e.(width := Absent)), [a]).value.text|)
            <==> LengthKept(e, a)
  {
    hide Render, Show, CodeResolve, TakesText, FieldText, TextDirective, LengthKept;
    TextShown(d, args, e, a);
    FieldWidth(e, a);
    StarlessText(e.(width := Absent), a);
  }

  lemma FieldWidth(e: Directive, a: Arg)
    requires TextDirective(e, a) && Starless(e)
    ensures TextDirective(e.(width := Absent), a)
    ensures |FieldText(e, a, AmountValue(e.width))| == Max(AmountValue(e.width), |FieldText(e.(width := Absent), a, 0)|)
            <==> LengthKept(e, a)
  {
    FieldWithoutWidth(e, a);
    FieldCounts(e, a);
    hide DirectiveFlags, FieldBody, FieldLength, PaddedText, AmountValue, WellFormed;
    PaddedCounts(FieldBody(e, a), FieldLength(e, a), AmountValue(e.width), DirectiveFlags(e));
    PaddedCounts(FieldBody(e, a), FieldLength(e, a), 0, DirectiveFlags(e));
  }

  lemma FieldWithoutWidth(e: Directive, a: Arg)
    requires TextDirective(e, a)
    ensures TextDirective(e.(width := Absent), a)
    ensures FieldText(e.(width := Absent), a, 0) == FieldText(e, a, 0)
  {
    assert DirectiveFlags(e.(width := Absent)) == DirectiveFlags(e);
    hide DirectiveFlags, PaddedText, StringShown, StringLength, Convert;
  }

  /**
   The standard's field of a string for %s without a length modifier: its characters, up to
   the precision if there is one, padded to the width.
   */
  function StandardString(s: Directive, t: seq<char>): seq<char> {
    var body := if s.precision.Absent? then t else t[..Min(|t|, AmountValue(s.precision))];
    var blanks := Repeat(' ', AmountValue(s.width) - |body|);
    if Has(s.flags, '-') then body + blanks else blanks + body
  }

  lemma PaddedIff(body: seq<char>, l: nat, width: nat, flags: Flags)
    requires l <= |body|
    ensures PaddedText(body, l, width, flags)
            == (if flags.left then body + Repeat(' ', width - |body|) else Repeat(' ', width - |body|) + body)
            <==> l == |body| || width <= l
  {
    var blanks := Repeat(' ', width - |body|);
    if l == |body| || width <= l {
      assert Repeat(' ', width - l) == blanks;
      assert [] + body == body && body + [] == body;
    } else {
      assert |PaddedText(body, l, width, flags)| > |body| + |blanks|;
    }
  }

  /** Blanks alone are the padded string exactly when that is blank and not too long. */
  lemma BlanksAloneIff(t: seq<char>, width: nat, left: bool)
    ensures Repeat(' ', width) == (if left then t + Repeat(' ', width - |t|) else Repeat(' ', width - |t|) + t)
            <==> Blank(t) && |t| <= width
  {
    var n := |Repeat(' ', width - |t|)|;
    var std := if left then t + Repeat(' ', width - |t|) else Repeat(' ', width - |t|) + t;
    assert forall i :: 0 <= i < |t| ==> std[if left then i else n + i] == t[i];
    if Repeat(' ', width) == std {
      forall i | 0 <= i < |t|
        ensures t[i] == ' '
      {
        assert Repeat(' ', width)[if left then i else n + i] == ' ';
      }
    }
  }

  /**
   %s with any arguments for '*' and, as the code looks at none, any length modifier: the
   text is that field exactly when, without a negative precision argument, the length is
   kept, and with one, the string is blank and fits the width, so that leaving it out does
   not show.
   */
  lemma StringPrinted(d: Directive, args: seq<Arg>, e: Directive, s: Directive, t: seq<char>)
    requires TakesText(d, args, e, Text(t)) && StandardResolve(d, args) == Some(Resolved(s, [Text(t)]))
    ensures Render(Show(d), args).Some?
    ensures Render(Show(d), args).value.text == StandardString(s, t)
            <==> if e == s then LengthKept(e, Text(t)) else Blank(t) && |t| <= AmountValue(e.width)
  {
    ResolutionsAgree(d, args);
    TextShown(d, args, e, Text(t));
    hide Render, Show, CodeResolve, StandardResolve, WellFormed;
    if e == s {
      SameString(e, t);
    } else {
      NegativeString(e, s, t);
    }
  }

  /** Without a length modifier this compares with the standard, which has wide strings for %ls and no %hs. */
  lemma StringConforms(d: Directive, args: seq<Arg>, e: Directive, s: Directive, t: seq<char>)
    requires d.length.Plainly?
    requires TakesText(d, args, e, Text(t)) && StandardResolve(d, args) == Some(Resolved(s, [Text(t)]))
    ensures Render(Show(d), args).Some?
    ensures Render(Show(d), args).value.text == StandardString(s, t)
            <==> if e == s then LengthKept(e, Text(t)) else Blank(t) && |t| <= AmountValue(e.width)
  {
    StringPrinted(d, args, e, s, t);
  }

  lemma SameString(e: Directive, t: seq<char>)
    requires TextDirective(e, Text(t)) && Starless(e)
    ensures FieldText(e, Text(t), AmountValue(e.width)) == StandardString(e, t) <==> LengthKept(e, Text(t))
  {
    var a, f := Text(t), DirectiveFlags(e);
    FieldCounts(e, a);
    assert f.left == Has(e.flags, '-') && f.precision == !e.precision.Absent?;
    assert FieldBody(e, a) == if e.precision.Absent? then t else t[..Min(|t|, AmountValue(e.precision))];
    hide DirectiveFlags, FieldBody, FieldLength, PaddedText, AmountValue, WellFormed;
    PaddedIff(FieldBody(e, a), FieldLength(e, a), AmountValue(e.width), f);
  }

  lemma NegativeString(e: Directive, s: Directive, t: seq<char>)
    requires e.precision == Given(0) && s == e.(precision := Absent)
    ensures FieldText(e, Text(t), AmountValue(e.width)) == StandardString(s, t)
            <==> Blank(t) && |t| <= AmountValue(e.width)
  {
    var a, f := Text(t), DirectiveFlags(e);
    assert f.precision && FieldBody(e, a) == [] && FieldLength(e, a) == 0;
    hide DirectiveFlags, FieldBody, FieldLength, AmountValue;
    var blanks := Repeat(' ', AmountValue(e.width));
    assert [] + [] + blanks == blanks && blanks + [] + [] == blanks;
    BlanksAloneIff(t, AmountValue(e.width), Has(s.flags, '-'));
  }
}
