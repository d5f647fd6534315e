/**
 The flag '#' through the interpreter: what %o, %x and %X print with it, and when that is the
 field of section 7.19.6.1 of ISO/IEC 9899:1999.
 */
module PrintedHash {
  import opened CTypes
  import opened Options
  import opened PrintfNumber
  import opened PrintfHash
  import opened PrintfFormat
  import opened PrintfDirectives
  import opened PrintedFields
  import opened Sequences

  // ----- numbers

  lemma {:induction false} AllDigitsOf(value: nat, base: nat, uppercase: bool)
    requires Prefixable(base)
    ensures forall i :: 0 <= i < |AllDigits(value, base, uppercase)| ==>
                          IsDigitOf(AllDigits(value, base, uppercase)[i], base)
    decreases value
  {
    if value != 0 {
      AllDigitsOf(Quotient(value, base), base, uppercase);
      assert IsDigitOf(DigitChar(LastDigit(value, base), uppercase), base);
    }
  }

  lemma DigitsLeading(value: nat, base: nat, uppercase: bool)
    requires value > 0 && Prefixable(base) && |AllDigits(value, base, uppercase)| <= NTOA_BUFFER_SIZE
    ensures Leading(AllDigits(value, base, uppercase), base)
  {
    AllDigitsOf(value, base, uppercase);
    LeadingDigit(value, base, uppercase);
  }

  /** The text of a nonzero number whose digits fit the scratch buffer. */
  lemma HashNumber(value: nat, base: nat, prec: nat, width: nat, flags: Flags)
    requires value > 0 && Prefixable(base) && HashFlags(prec, flags)
    requires |AllDigits(value, base, flags.uppercase)| <= NTOA_BUFFER_SIZE
    ensures NumberText(value, false, base, prec, width, flags)
            == CodeHash(AllDigits(value, base, flags.uppercase), base, prec, width, flags)
  {
    ScratchDigitsShape(value, base, flags);
    LeadingDigit(value, base, flags.uppercase);
    hide AllDigits, ScratchDigits, NtoaText, HashBody, Field;
    HashShape(ScratchDigits(value, base, flags), base, prec, width, flags);
  }

  /** And whether it shows all digits. */
  lemma HashDigitsIff(value: nat, base: nat, prec: nat, width: nat, flags: Flags)
    requires value > 0 && Prefixable(base) && HashFlags(prec, flags)
    requires |AllDigits(value, base, flags.uppercase)| <= NTOA_BUFFER_SIZE
    ensures var d := AllDigits(value, base, flags.uppercase);
            var body := HashBody(d, base, prec, width, flags);
            && NumberText(value, false, base, prec, width, flags) == Field(body, width, flags)
            && (EndsWith(body, d) <==> !DigitTaken(|d|, base, width, flags))
  {
    hide AllDigits, NumberText, HashBody, Field, DigitTaken, EndsWith, HashFlags;
    HashNumber(value, base, prec, width, flags);
    DigitsLeading(value, base, flags.uppercase);
    DigitsKeptIff(AllDigits(value, base, flags.uppercase), base, prec, width, flags);
  }

  lemma DigitsShort(value: nat, base: nat, uppercase: bool)
    requires 0 < value < 0x1_0000_0000_0000_0000 && (base == 8 || base == 16)
    ensures var d := AllDigits(value, base, uppercase);
            |d| <= NTOA_BUFFER_SIZE && Short(d) && Leading(d, base)
  {
    SixtyFourBits(value, base, uppercase);
    DigitsLeading(value, base, uppercase);
    AllDigitsPlain(value, base, uppercase);
    LeadingDigit(value, base, uppercase);
  }

  /** When the code produces the standard's field with '#'. */
  predicate HashAgrees(value: nat, base: nat, prec: nat, width: nat, flags: Flags)
    requires 2 <= base <= 16
  {
    if value > 0 then HashConforming(|AllDigits(value, base, flags.uppercase)|, base, prec, width, flags)
    else
      && Conforming(if flags.precision then 0 else 1, false, prec, width, flags)
      && !(base == 8 && flags.precision && prec == 0)
  }

  /**
   With '#', for every value of up to 64 bits, flags, width and precision, the code produces
   the field of section 7.19.6.1 for o, x and X exactly when HashAgrees.
   */
  lemma HashConformsIff(value: nat, base: nat, prec: nat, width: nat, flags: Flags)
    requires (base == 8 || base == 16) && value < 0x1_0000_0000_0000_0000 && HashFlags(prec, flags)
    ensures NumberText(value, false, base, prec, width, flags) == StandardHash(value, base, prec, width, flags)
            <==> HashAgrees(value, base, prec, width, flags)
  {
    if value > 0 {
      var d := AllDigits(value, base, flags.uppercase);
      hide AllDigits, NumberText, HashField, CodeHash, HashConforming, Leading, Short;
      DigitsShort(value, base, flags.uppercase);
      HashNumber(value, base, prec, width, flags);
      HashFieldIff(d, base, prec, width, flags);
    } else {
      ZeroConforms(base, prec, width, flags);
    }
  }

  lemma ZeroConforms(base: nat, prec: nat, width: nat, flags: Flags)
    requires (base == 8 || base == 16) && HashFlags(prec, flags)
    ensures NumberText(0, false, base, prec, width, flags) == StandardHash(0, base, prec, width, flags)
            <==> HashAgrees(0, base, prec, width, flags)
  {
    var f := flags.(hash := false);
    hide NumberText, ScratchDigits, StandardHash, StandardField, StandardText, Conforming;
    ZeroPrinted(base, prec, width, flags);
    ConformsIff(0, false, base, prec, width, f);
    ZeroAsked(base, prec, width, flags);
    if base == 8 && flags.precision && prec == 0 {
      NoDigitShown(false, width, f, f);
      NoZerosAsked(width, f);
    }
  }

  lemma ZeroPrinted(base: nat, prec: nat, width: nat, flags: Flags)
    requires (base == 8 || base == 16) && HashFlags(prec, flags)
    ensures var f := flags.(hash := false);
            && NumberText(0, false, base, prec, width, flags) == NumberText(0, false, base, prec, width, f)
            && |ScratchDigits(0, base, f)| == (if flags.precision then 0 else 1)
            && (Conforming(|ScratchDigits(0, base, f)|, false, prec, width, f)
                <==> Conforming(if flags.precision then 0 else 1, false, prec, width, flags))
            && Normal(prec, f)
  {
    hide NtoaText;
  }

  lemma NoZerosAsked(width: nat, f: Flags)
    requires f.precision && Normal(0, f)
    ensures Conforming(0, false, 0, width, f)
  {
  }

  /** What the standard asks for 0: what it asks for without '#', but never no digit for o. */
  lemma ZeroAsked(base: nat, prec: nat, width: nat, flags: Flags)
    requires (base == 8 || base == 16) && HashFlags(prec, flags)
    ensures var f := flags.(hash := false);
            StandardHash(0, base, prec, width, flags)
            == if base == 8 && flags.precision && prec == 0 then StandardField(['0'], false, 0, width, f)
               else StandardText(0, false, base, prec, width, f)
    ensures flags.precision && prec == 0 ==>
              var f := flags.(hash := false);
              StandardText(0, false, base, prec, width, f) == StandardField([], false, 0, width, f)
  {
    assert AllDigits(0, base, flags.uppercase) == [];
    hide AllDigits, PrefixedField;
    FieldUnread([], [], prec, width, flags.(hash := false));
    FieldUnread([], ['0'], prec, width, flags.(hash := false));
    assert ['0'] + [] == ['0'];
  }

  // ----- a negative precision argument

  lemma NoPadding(d: seq<char>, base: nat, width: nat, flags: Flags, c: Flags)
    requires Short(d) && (base == 8 || base == 16) && !flags.precision
    requires c == flags.(hash := true, precision := true, zeropad := false)
    ensures Field(StandardBody(d, base, 0, width, c), width, c)
            == Field(StandardBody(d, base, 0, width, flags), width, flags)
            <==> (flags.zeropad && !flags.left ==> width <= |Prefix(base, flags.uppercase)| + |d|)
  {
    var code, std := StandardBody(d, base, 0, width, c), StandardBody(d, base, 0, width, flags);
    if flags.zeropad && !flags.left {
      var n := width - |Prefix(base, flags.uppercase)| - |d|;
      if n > 0 {
        assert Field(code, width, c)[0] == ' ';
        assert Field(std, width, flags)[0] == '0';
      } else {
        assert code == std;
        assert Repeat(' ', width - |code|) == [];
        assert [] + code + [] == code;
      }
    } else {
      assert code == std;
    }
  }

  /** Printed with precision 0 instead of none: the field asked for exactly for nonzero numbers with nothing to fill. */
  lemma HashPrecisionZero(value: nat, base: nat, width: nat, flags: Flags)
    requires (base == 8 || base == 16) && value < 0x1_0000_0000_0000_0000
    requires !flags.hash && !flags.precision && !flags.plus && !flags.space
    ensures var c := flags.(hash := true, precision := true, zeropad := false);
            NumberText(value, false, base, 0, width, c) == StandardHash(value, base, 0, width, flags)
            <==> value != 0 && (flags.zeropad && !flags.left ==>
                                  width <= |Prefix(base, flags.uppercase)| + |AllDigits(value, base, flags.uppercase)|)
  {
    var c, d := flags.(hash := true, precision := true, zeropad := false), AllDigits(value, base, flags.uppercase);
    if value > 0 {
      hide AllDigits, NumberText, HashField, CodeHash, Leading, Short, Field, StandardBody, Prefix;
      DigitsShort(value, base, flags.uppercase);
      HashNumber(value, base, 0, width, c);
      HashFieldIff(d, base, 0, width, c);
      StandardShaped(d, base, 0, width, c);
      StandardShaped(d, base, 0, width, flags);
      NoPadding(d, base, width, flags, c);
    } else {
      hide NumberText, AllDigits, StandardText, StandardHash, StandardField;
      ZeroPrinted(base, 0, width, c);
      PrecisionZeroIff(0, false, base, width, flags);
      ZeroUnasked(base, width, flags);
    }
  }

  lemma ZeroUnasked(base: nat, width: nat, flags: Flags)
    requires (base == 8 || base == 16) && !flags.hash && !flags.precision && !flags.plus && !flags.space
    ensures StandardHash(0, base, 0, width, flags) == StandardText(0, false, base, 0, width, flags)
  {
  }

  // ----- through the interpreter

  /** A directive that gets a prefix from '#'. */
  predicate PrefixDirective(d: Directive) {
    && WellFormed(d) && Has(d.flags, '#')
    && (d.specifier == 'o' || d.specifier == 'x' || d.specifier == 'X' || d.specifier == 'b')
  }

  /** One the standard has: %b is an extension. */
  predicate HashDirective(d: Directive) { PrefixDirective(d) && d.specifier != 'b' }

  /** The two resolutions of '*': e by the code, s by the standard. */
  predicate HashAsks(d: Directive, args: seq<Arg>, e: Directive, s: Directive, v: int) {
    && HashDirective(d) && TakesInteger(d, args, e, v)
    && StandardResolve(d, args) == Some(Resolved(s, [Number(v)]))
  }

  /** The field the standard asks for. */
  function HashPrinted(d: Directive, v: int): seq<char> {
    StandardHash(Magnitude(StandardShown(d, v)), Radix(d.specifier), AmountValue(d.precision), AmountValue(d.width),
      StandardFlags(d))
  }

  /** When it is printed: without a negative precision argument HashAgrees, with one as HashPrecisionZero says. */
  predicate HashAsAsked(e: Directive, s: Directive, v: int) {
    var f, n := StandardFlags(s), Magnitude(Shown(e, v));
    if e == s then HashAgrees(n, Radix(e.specifier), AmountValue(e.precision), AmountValue(e.width), f)
    else
      n != 0 && (f.zeropad && !f.left ==>
                   AmountValue(e.width) <= |Prefix(Radix(e.specifier), f.uppercase)|
                     + |AllDigits(n, Radix(e.specifier), f.uppercase)|)
  }

  /** The code works with the flags of the standard and '#'. */
  lemma HashFlagsOf(d: Directive)
    requires PrefixDirective(d)
    ensures IntegerFlags(d.specifier, DirectiveFlags(d)) == StandardFlags(d).(hash := true)
    ensures var f := StandardFlags(d);
            && HashFlags(AmountValue(d.precision), f.(hash := true)) && !f.hash && !f.plus && !f.space
    ensures Prefixable(Radix(d.specifier)) && (Radix(d.specifier) == 2 <==> d.specifier == 'b')
  {
    hide Has;
  }

  /** Unsigned conversions narrow as the standard does and show no sign. */
  lemma HashShown(d: Directive, v: int)
    requires PrefixDirective(d)
    ensures Shown(d, v) == StandardShown(d, v) >= 0 && Magnitude(Shown(d, v)) < 0x1_0000_0000_0000_0000
  {
    NarrowedIff(d, v);
    MagnitudeFits(PrintedType(d), v);
    assert Fits(PrintedType(d), Shown(d, v));
    hide Convert;
  }

  lemma FieldUnread(p: seq<char>, d: seq<char>, prec: nat, width: nat, flags: Flags)
    ensures PrefixedField(p, d, prec, width, flags.(hash := true)) == PrefixedField(p, d, prec, width, flags)
  {
  }

  lemma ConditionUnread(value: nat, base: nat, prec: nat, width: nat, flags: Flags)
    requires base == 8 || base == 16
    ensures HashAgrees(value, base, prec, width, flags.(hash := true)) <==> HashAgrees(value, base, prec, width, flags)
  {
    hide AllDigits;
  }

  /** The standard's field and the condition look at the base instead of the flag '#'. */
  lemma HashUnread(value: nat, base: nat, prec: nat, width: nat, flags: Flags)
    requires base == 8 || base == 16
    ensures StandardHash(value, base, prec, width, flags.(hash := true))
            == StandardHash(value, base, prec, width, flags)
    ensures HashAgrees(value, base, prec, width, flags.(hash := true)) <==> HashAgrees(value, base, prec, width, flags)
  {
    var d := if value == 0 && !flags.precision then ['0'] else AllDigits(value, base, flags.uppercase);
    hide AllDigits, PrefixedField, Prefix, ZeroFirst, HashAgrees;
    ConditionUnread(value, base, prec, width, flags);
    if base == 16 {
      FieldUnread(if value == 0 then [] else Prefix(16, flags.uppercase), d, prec, width, flags);
    } else {
      FieldUnread([], ZeroFirst(d, prec), prec, width, flags);
    }
  }

  lemma SameHash(e: Directive, v: int)
    requires HashDirective(e)
    ensures PrintedText(e, v) == HashPrinted(e, v) <==> HashAsAsked(e, e, v)
  {
    var f, n := StandardFlags(e), Magnitude(Shown(e, v));
    HashFlagsOf(e);
    HashShown(e, v);
    hide StandardFlags, NumberText, Shown, StandardShown, DirectiveFlags, IntegerFlags, StandardHash, HashAgrees,
         AmountValue, Radix, Magnitude, HashDirective, HashFlags;
    HashUnread(n, Radix(e.specifier), AmountValue(e.precision), AmountValue(e.width), f);
    HashConformsIff(n, Radix(e.specifier), AmountValue(e.precision), AmountValue(e.width), f.(hash := true));
  }

  /** What both sides print for a negative precision argument. */
  lemma NegativeParts(e: Directive, s: Directive, v: int)
    requires HashDirective(e) && HashDirective(s)
    requires e.precision == Given(0) && s == e.(precision := Absent)
    ensures var f, n, base := StandardFlags(s), Magnitude(Shown(e, v)), Radix(e.specifier);
            && (base == 8 || base == 16) && n < 0x1_0000_0000_0000_0000 && (n == 0 <==> Shown(e, v) == 0)
            && !f.hash && !f.precision && !f.plus && !f.space
            && PrintedText(e, v) == NumberText(n, false, base, 0, AmountValue(e.width),
                                               f.(hash := true, precision := true, zeropad := false))
            && HashPrinted(s, v) == StandardHash(n, base, 0, AmountValue(e.width), f)
  {
    HashFlagsOf(e);
    HashFlagsOf(s);
    HashShown(e, v);
    SameNarrowing(e, s, v);
    WithoutPrecision(e, s);
    hide StandardFlags, NumberText, Shown, StandardShown, DirectiveFlags, IntegerFlags, StandardHash, HashDirective,
         HashFlags, Radix;
  }

  lemma NegativeHash(e: Directive, s: Directive, v: int)
    requires HashDirective(e) && HashDirective(s)
    requires e.precision == Given(0) && s == e.(precision := Absent)
    ensures PrintedText(e, v) == HashPrinted(s, v) <==> HashAsAsked(e, s, v)
  {
    hide StandardFlags, NumberText, Shown, StandardHash, AllDigits, AmountValue, Radix, Magnitude, HashDirective,
         Prefix, PrintedText, HashPrinted;
    NegativeParts(e, s, v);
    HashPrecisionZero(Magnitude(Shown(e, v)), Radix(e.specifier), AmountValue(e.width), StandardFlags(s));
  }

  lemma HashResolved(d: Directive, args: seq<Arg>, e: Directive, s: Directive, v: int)
    requires HashAsks(d, args, e, s, v)
    ensures HashDirective(e) && HashDirective(s)
    ensures e == s || (e.precision == Given(0) && s == e.(precision := Absent))
  {
    ResolutionsAgree(d, args);
    TakesResolved(d, args, e, v);
    hide CodeResolve, StandardResolve, Printable, Has, Starless, IsInteger;
  }

  /**
   Through the interpreter, for every %o, %x or %X directive with '#' and any arguments for
   '*': the text is the field section 7.19.6.1 asks for exactly when HashAsAsked.
   */
  lemma PrintedHashConforms(d: Directive, args: seq<Arg>, e: Directive, s: Directive, v: int)
    requires HashAsks(d, args, e, s, v)
    ensures Render(Show(d), args).Some?
    ensures Render(Show(d), args).value.text == HashPrinted(s, v) <==> HashAsAsked(e, s, v)
  {
    assert TakesInteger(d, args, e, v);
    hide Render, Show, TakesInteger, HashAsks, HashDirective, HashPrinted, HashAsAsked, PrintedText;
    HashResolved(d, args, e, s, v);
    IntegerShown(d, args, e, v);
    if e == s {
      SameHash(e, v);
    } else {
      NegativeHash(e, s, v);
    }
  }

  /**
   Through the interpreter, for every directive with a prefix and a nonzero number whose
   digits fit the scratch buffer: the text is a body in a field, and the body ends with all
   digits exactly when the prefix takes none.
   */
  lemma PrintedHashDigits(d: Directive, args: seq<Arg>, e: Directive, v: int)
    requires PrefixDirective(d) && TakesInteger(d, args, e, v) && Shown(e, v) != 0
    requires |AllDigits(Magnitude(Shown(e, v)), Radix(e.specifier), StandardFlags(e).uppercase)| <= NTOA_BUFFER_SIZE
    ensures var f := StandardFlags(e).(hash := true);
            var base, prec, width := Radix(e.specifier), AmountValue(e.precision), AmountValue(e.width);
            var digits := AllDigits(Magnitude(Shown(e, v)), base, f.uppercase);
            var body := HashBody(digits, base, prec, width, f);
            && Render(Show(d), args) == Some(Rendered(Field(body, width, f), []))
            && (EndsWith(body, digits) <==> !DigitTaken(|digits|, base, width, f))
  {
    PrefixResolved(d, args, e, v);
    HashFlagsOf(e);
    HashShown(e, v);
    var f, n := StandardFlags(e).(hash := true), Magnitude(Shown(e, v));
    assert n > 0 && f.uppercase == StandardFlags(e).uppercase;
    hide Render, Show, StandardFlags, NumberText, Shown, StandardShown, DirectiveFlags, IntegerFlags, AllDigits, Radix,
         AmountValue, Magnitude, PrefixDirective, TakesInteger, HashFlags, HashBody, Field, EndsWith, DigitTaken;
    IntegerShown(d, args, e, v);
    HashDigitsIff(n, Radix(e.specifier), AmountValue(e.precision), AmountValue(e.width), f);
  }

  lemma PrefixResolved(d: Directive, args: seq<Arg>, e: Directive, v: int)
    requires PrefixDirective(d) && TakesInteger(d, args, e, v)
    ensures PrefixDirective(e)
  {
    TakesResolved(d, args, e, v);
    hide CodeResolve, Printable, Has, Starless, IsInteger;
  }

  // ----- decimal conversions

  lemma DecimalFlags(d: Directive)
    requires IntegerDirective(d) && (d.specifier == 'd' || d.specifier == 'i' || d.specifier == 'u')
    ensures IntegerFlags(d.specifier, DirectiveFlags(d)) == StandardFlags(d)
  {
    hide Has;
  }

  /** On %d, %i and %u the code ignores '#': the text is that of a directive without it. */
  lemma DecimalHash(d: Directive, args: seq<Arg>, e: Directive, v: int)
    requires TakesInteger(d, args, e, v) && (d.specifier == 'd' || d.specifier == 'i' || d.specifier == 'u')
    ensures !StandardFlags(e).hash
    ensures Render(Show(d), args)
            == Some(Rendered(NumberText(Magnitude(Shown(e, v)), Shown(e, v) < 0, 10, AmountValue(e.precision),
                                        AmountValue(e.width), StandardFlags(e)), []))
  {
    TakesResolved(d, args, e, v);
    DecimalFlags(e);
    assert !StandardFlags(e).hash;
    hide Render, Show, NumberText, StandardFlags, IntegerFlags, DirectiveFlags, TakesInteger, Shown, Magnitude,
         AmountValue;
    IntegerShown(d, args, e, v);
  }
}
