/**
 What the format interpreter means: formats can be cut between conversions, a written
 directive is parsed back into its parts, and '*' stands for the argument it takes.
 */
module PrintfDirectives {
  import opened CTypes
  import opened Options
  import opened PrintfNumber
  import opened PrintfFormat

  // ----- formats can be cut between conversions

  function Extend(c: Cursor, g: seq<char>): Cursor { c.(format := c.format + g) }

  lemma {:induction false} FlagsExtend(c: Cursor, g: seq<char>)
    requires ParseFlags(c).format != []
    ensures ParseFlags(Extend(c, g)) == Extend(ParseFlags(c), g)
    decreases |c.format|
  {
    assert c.format != [] && (c.format + g)[0] == c.format[0];
    if IsFlag(c.format[0]) {
      assert (c.format + g)[1..] == c.format[1..] + g;
      FlagsExtend(c.(flags := SetFlag(c.format[0], c.flags), format := c.format[1..]), g);
    }
  }

  lemma {:induction false} AtoiExtend(f: seq<char>, i: nat, g: seq<char>)
    requires Atoi(f, i).1 != []
    ensures Atoi(f + g, i) == (Atoi(f, i).0, Atoi(f, i).1 + g)
    decreases |f|
  {
    assert f != [] && (f + g)[0] == f[0];
    if StartsWithDigit(f) {
      assert (f + g)[1..] == f[1..] + g;
      AtoiExtend(f[1..], Convert(UINT, i * 10 + DigitValue(f[0])), g);
    }
  }

  lemma WidthExtend(c: Cursor, g: seq<char>)
    requires ParseWidth(c).Some? && ParseWidth(c).value.format != []
    ensures ParseWidth(Extend(c, g)) == Some(Extend(ParseWidth(c).value, g))
  {
    hide Atoi, NextInt;
    assert c.format != [] && (c.format + g)[0] == c.format[0] && (c.format + g)[1..] == c.format[1..] + g;
    if StartsWithDigit(c.format) {
      AtoiExtend(c.format, 0, g);
    }
  }

  lemma AmountExtend(d: Cursor, g: seq<char>)
    requires ParseAmount(d).Some? && ParseAmount(d).value.format != []
    ensures ParseAmount(Extend(d, g)) == Some(Extend(ParseAmount(d).value, g))
  {
    hide Atoi, NextInt;
    assert d.format != [] && (d.format + g)[0] == d.format[0] && (d.format + g)[1..] == d.format[1..] + g;
    if StartsWithDigit(d.format) {
      AtoiExtend(d.format, 0, g);
    }
  }

  lemma PrecisionExtend(c: Cursor, g: seq<char>)
    requires ParsePrecision(c).Some? && ParsePrecision(c).value.format != []
    ensures ParsePrecision(Extend(c, g)) == Some(Extend(ParsePrecision(c).value, g))
  {
    hide ParseAmount;
    assert c.format != [] && (c.format + g)[0] == c.format[0] && (c.format + g)[1..] == c.format[1..] + g;
    if StartsWith(c.format, '.') {
      AmountExtend(c.(flags := c.flags.(precision := true), format := c.format[1..]), g);
    }
  }

  lemma LengthExtend(c: Cursor, g: seq<char>)
    requires ParseLength(c).format != []
    ensures ParseLength(Extend(c, g)) == Extend(ParseLength(c), g)
  {
    LengthAtExtend(c.format, g);
    var n := |ShowLength(LengthAt(c.format))|;
    hide LengthAt, AddLength, ShowLength;
    assert (c.format + g)[n..] == c.format[n..] + g;
  }

  lemma LengthAtExtend(f: seq<char>, g: seq<char>)
    requires |ShowLength(LengthAt(f))| < |f|
    ensures LengthAt(f + g) == LengthAt(f)
  {
    assert (f + g)[0] == f[0] && (f + g)[1..] == f[1..] + g;
    if |f| > 1 {
      assert (f[1..] + g)[0] == f[1];
    }
  }

  lemma ParseExtend(c: Cursor, g: seq<char>)
    requires Parse(c).Some? && Parse(c).value.format != []
    ensures Parse(Extend(c, g)) == Some(Extend(Parse(c).value, g))
  {
    hide ParseFlags, ParseWidth, ParsePrecision, ParseLength;
    FlagsExtend(c, g);
    WidthExtend(ParseFlags(c), g);
    PrecisionExtend(ParseWidth(ParseFlags(c)).value, g);
    LengthExtend(ParsePrecision(ParseWidth(ParseFlags(c)).value).value, g);
  }

  lemma EmitExtend(c: Cursor, g: seq<char>)
    requires c.format != []
    ensures Emit(Extend(c, g)) == Emit(c)
  {
    hide NumberText, PaddedText, StringShown, StringLength, Convert, ArgumentType, IntegerFlags, Base;
    assert (c.format + g)[0] == c.format[0];
  }

  /** Rendering a concatenation: the second format goes on with the arguments the first one left. */
  lemma {:induction false} RenderConcat(f: seq<char>, g: seq<char>, args: seq<Arg>)
    requires Render(f, args).Some?
    ensures Render(f + g, args) == Prepend(Render(f, args).value.text, Render(g, Render(f, args).value.args))
    decreases |f|
  {
    hide Parse, Emit;
    if f == [] {
      assert f + g == g;
      PrependEmpty(Render(g, args));
    } else if f[0] != '%' {
      assert (f + g)[1..] == f[1..] + g;
      RenderConcat(f[1..], g, args);
      PrependTwice([f[0]], Render(f[1..], args).value.text, Render(g, Render(f, args).value.args));
    } else {
      assert (f + g)[1..] == f[1..] + g;
      var c := Parse(Start(f[1..], args)).value;
      ParseExtend(Start(f[1..], args), g);
      EmitExtend(c, g);
      var r := Emit(c).value;
      assert (c.format + g)[1..] == c.format[1..] + g;
      RenderConcat(c.format[1..], g, r.args);
      PrependTwice(r.text, Render(c.format[1..], r.args).value.text, Render(g, Render(f, args).value.args));
    }
  }

  lemma PrependEmpty(r: Option<Rendered>)
    ensures Prepend([], r) == r
  {
    if r.Some? {
      assert [] + r.value.text == r.value.text;
    }
  }

  lemma PrependTwice(a: seq<char>, b: seq<char>, r: Option<Rendered>)
    ensures Prepend(a, Prepend(b, r)) == Prepend(a + b, r)
  {
    if r.Some? {
      assert a + (b + r.value.text) == a + b + r.value.text;
    }
  }

  // ----- written directives are parsed back into their parts

  /** A width or precision: left out, digits, or an argument; a precision may also be a bare point. */
  datatype Amount = Absent | Bare | Given(n: nat) | Star

  datatype Directive = Directive(flags: seq<char>, width: Amount, precision: Amount, length: Length, specifier: char)

  predicate IsSpecifier(c: char) { c in "diuxXobcsp%" }

  /** A width of 0 would read as a flag. */
  predicate WellFormed(d: Directive) {
    && (forall i :: 0 <= i < |d.flags| ==> IsFlag(d.flags[i]))
    && d.width != Bare && (d.width.Given? ==> d.width.n > 0 && Fits(UINT, d.width.n))
    && (d.precision.Given? ==> Fits(UINT, d.precision.n))
    && IsSpecifier(d.specifier)
  }

  function Decimal(n: nat): seq<char> { if n == 0 then ['0'] else AllDigits(n, 10, false) }

  function ShowAmount(a: Amount): seq<char> {
    match a
    case Given(n) => Decimal(n)
    case Star => ['*']
    case _ => []
  }

  function ShowPrecision(a: Amount): seq<char> { if a.Absent? then [] else ['.'] + ShowAmount(a) }

  function Show(d: Directive): seq<char> {
    ['%'] + (d.flags + (ShowAmount(d.width) + (ShowPrecision(d.precision) + (ShowLength(d.length) + [d.specifier]))))
  }

  predicate Has(s: seq<char>, c: char) { c in s }

  /** What flags a directive sets, whatever their order and number. */
  function AddFlags(s: seq<char>, f: Flags): Flags {
    Flags(f.zeropad || Has(s, '0'), f.left || Has(s, '-'), f.plus || Has(s, '+'), f.space || Has(s, ' '),
          f.hash || Has(s, '#'),
          f.uppercase, f.isChar, f.isShort, f.isLong, f.isLongLong, f.precision)
  }

  function WidthMeaning(a: Amount, c: Cursor): Option<Cursor> {
    match a
    case Given(n) => Some(c.(width := n))
    case Star => StarWidth(c)
    case _ => Some(c)
  }

  function PrecisionMeaning(a: Amount, c: Cursor): Option<Cursor> {
    match a
    case Absent => Some(c)
    case Bare => Some(c.(flags := c.flags.(precision := true)))
    case Given(n) => Some(c.(flags := c.flags.(precision := true), precision := n))
    case Star => StarPrecision(c.(flags := c.flags.(precision := true)))
  }

  /** What a directive says about its conversion, with what follows its specifier still ahead. */
  function Meaning(d: Directive, rest: seq<char>, args: seq<Arg>): Option<Cursor> {
    var w := WidthMeaning(d.width, Cursor(AddFlags(d.flags, NO_FLAGS), 0, 0, [d.specifier] + rest, args));
    if w.None? then None
    else
      var p := PrecisionMeaning(d.precision, w.value);
      if p.None? then None else Some(p.value.(flags := AddLength(d.length, p.value.flags)))
  }

  lemma {:induction false} FlagsShown(s: seq<char>, g: seq<char>, c: Cursor)
    requires forall i :: 0 <= i < |s| ==> IsFlag(s[i])
    requires g == [] || !IsFlag(g[0])
    ensures ParseFlags(c.(format := s + g)) == c.(flags := AddFlags(s, c.flags), format := g)
    decreases |s|
  {
    if s == [] {
      assert s + g == g;
    } else {
      assert (s + g)[0] == s[0] && (s + g)[1..] == s[1..] + g;
      FlagsShown(s[1..], g, c.(flags := SetFlag(s[0], c.flags)));
      AddedFlags(s, c.flags);
    }
  }

  lemma AddedFlags(s: seq<char>, f: Flags)
    requires s != [] && IsFlag(s[0])
    ensures AddFlags(s[1..], SetFlag(s[0], f)) == AddFlags(s, f)
  {
    hide Has;
    HasFirst(s, '0');
    HasFirst(s, '-');
    HasFirst(s, '+');
    HasFirst(s, ' ');
    HasFirst(s, '#');
  }

  lemma HasFirst(s: seq<char>, c: char)
    requires s != []
    ensures Has(s, c) <==> c == s[0] || Has(s[1..], c)
  {
  }

  // ----- decimal amounts

  predicate AllDecimal(s: seq<char>) { forall i :: 0 <= i < |s| ==> IsDigit(s[i]) }

  lemma {:induction false} DecimalDigits(n: nat)
    ensures AllDecimal(AllDigits(n, 10, false))
    decreases n
  {
    if n > 0 {
      hide Quotient, LastDigit;
      DecimalDigits(Quotient(n, 10));
      assert IsDigit(DigitChar(LastDigit(n, 10), false));
    }
  }

  /** The fold of Atoi over digits alone. */
  function AtoiValue(s: seq<char>, i: nat): nat
    decreases |s|
  {
    if s == [] then i else AtoiValue(s[1..], Convert(UINT, i * 10 + DigitValue(s[0])))
  }

  lemma {:induction false} AtoiDigits(s: seq<char>, i: nat, g: seq<char>)
    requires AllDecimal(s) && !StartsWithDigit(g)
    ensures Atoi(s + g, i) == (AtoiValue(s, i), g)
    decreases |s|
  {
    hide Convert;
    if s == [] {
      assert s + g == g;
    } else {
      assert (s + g)[0] == s[0] && (s + g)[1..] == s[1..] + g;
      AtoiDigits(s[1..], Convert(UINT, i * 10 + DigitValue(s[0])), g);
    }
  }

  lemma {:induction false} AtoiAppend(s: seq<char>, c: char, i: nat)
    ensures AtoiValue(s + [c], i) == Convert(UINT, AtoiValue(s, i) * 10 + DigitValue(c))
    decreases |s|
  {
    hide Convert, DigitValue;
    if s == [] {
      assert (s + [c])[0] == c && (s + [c])[1..] == [];
    } else {
      assert (s + [c])[0] == s[0] && (s + [c])[1..] == s[1..] + [c];
      AtoiAppend(s[1..], c, Convert(UINT, i * 10 + DigitValue(s[0])));
    }
  }

  /** Atoi reads the number the digits denote, as long as it fits an unsigned int. */
  lemma {:induction false} AtoiReads(n: nat)
    requires Fits(UINT, n)
    ensures AtoiValue(AllDigits(n, 10, false), 0) == n
    decreases n
  {
    if n > 0 {
      hide Quotient, LastDigit, DigitChar, DigitValue, Convert, AtoiValue;
      var q, c := Quotient(n, 10), DigitChar(LastDigit(n, 10), false);
      QuotientStep(n, 10);
      DigitCharValue(LastDigit(n, 10), false);
      AtoiReads(q);
      AtoiAppend(AllDigits(q, 10, false), c, 0);
    }
  }

  lemma DecimalRead(n: nat, g: seq<char>)
    requires Fits(UINT, n) && !StartsWithDigit(g)
    ensures Atoi(Decimal(n) + g, 0) == (n, g)
    ensures StartsWithDigit(Decimal(n) + g)
    ensures n > 0 ==> !IsFlag((Decimal(n) + g)[0])
  {
    hide AllDigits, Convert;
    if n == 0 {
      assert AtoiValue(['0'], 0) == 0;
      AtoiDigits(['0'], 0, g);
    } else {
      DecimalDigits(n);
      LeadingDigit(n, 10, false);
      AtoiReads(n);
      AtoiDigits(AllDigits(n, 10, false), 0, g);
    }
  }

  // ----- the stages on a written directive

  /** What may follow a width: a precision, a length, or the specifier, none of which can extend it. */
  predicate AfterWidth(g: seq<char>) { g != [] && !IsFlag(g[0]) && !IsDigit(g[0]) && g[0] != '*' }

  predicate AfterPrecision(g: seq<char>) { AfterWidth(g) && g[0] != '.' }

  lemma WidthShown(a: Amount, g: seq<char>, c: Cursor)
    requires a != Bare && (a.Given? ==> a.n > 0 && Fits(UINT, a.n)) && AfterWidth(g)
    ensures ParseWidth(c.(format := ShowAmount(a) + g)) == WidthMeaning(a, c.(format := g))
    ensures !IsFlag((ShowAmount(a) + g)[0])
  {
    hide Decimal, Atoi;
    match a
    case Given(n) => DecimalRead(n, g);
    case Star => assert (['*'] + g)[1..] == g;
    case Absent => assert [] + g == g;
    case Bare =>
  }

  lemma PrecisionShown(a: Amount, g: seq<char>, c: Cursor)
    requires (a.Given? ==> Fits(UINT, a.n)) && AfterPrecision(g)
    ensures ParsePrecision(c.(format := ShowPrecision(a) + g)) == PrecisionMeaning(a, c.(format := g))
  {
    hide ShowAmount, ParseAmount;
    if a.Absent? {
      assert [] + g == g;
    } else {
      assert (['.'] + ShowAmount(a) + g)[1..] == ShowAmount(a) + g;
      AmountShown(a, g, c.(flags := c.flags.(precision := true)));
    }
  }

  lemma AmountShown(a: Amount, g: seq<char>, d: Cursor)
    requires !a.Absent? && (a.Given? ==> Fits(UINT, a.n)) && AfterPrecision(g) && d.flags.precision
    ensures ParseAmount(d.(format := ShowAmount(a) + g)) == PrecisionMeaning(a, d.(format := g))
  {
    hide Decimal, Atoi, NextInt;
    assert d.flags.(precision := true) == d.flags;
    match a
    case Given(n) => DecimalRead(n, g);
    case Star => assert (['*'] + g)[1..] == g;
    case Bare => assert [] + g == g;
  }

  lemma PrecisionAfterWidth(a: Amount, g: seq<char>)
    requires AfterPrecision(g)
    ensures AfterWidth(ShowPrecision(a) + g)
  {
    hide ShowAmount;
    if a.Absent? {
      assert [] + g == g;
    }
  }

  lemma LengthShown(l: Length, g: seq<char>, c: Cursor)
    requires g != [] && IsSpecifier(g[0])
    ensures ParseLength(c.(format := ShowLength(l) + g)) == c.(flags := AddLength(l, c.flags), format := g)
  {
    LengthFound(l, g);
    hide LengthAt, AddLength;
    assert (ShowLength(l) + g)[|ShowLength(l)|..] == g;
  }

  lemma LengthFound(l: Length, g: seq<char>)
    requires g != [] && IsSpecifier(g[0])
    ensures LengthAt(ShowLength(l) + g) == l
  {
    var s := ShowLength(l);
    if s == [] {
      assert s + g == g;
    } else if |s| == 1 {
      assert (s + g)[1..] == g;
    } else {
      assert (s + g)[1..] == [s[1]] + g;
    }
  }

  lemma LengthAfterPrecision(l: Length, g: seq<char>)
    requires g != [] && IsSpecifier(g[0])
    ensures AfterPrecision(ShowLength(l) + g)
  {
    if ShowLength(l) == [] {
      assert [] + g == g;
    }
  }

  lemma WidthFormat(a: Amount, c: Cursor, f: seq<char>)
    ensures WidthMeaning(a, c.(format := f)) ==
            if WidthMeaning(a, c).None? then None else Some(WidthMeaning(a, c).value.(format := f))
  {
    hide NextInt;
  }

  lemma PrecisionFormat(a: Amount, c: Cursor, f: seq<char>)
    ensures PrecisionMeaning(a, c.(format := f)) ==
            if PrecisionMeaning(a, c).None? then None else Some(PrecisionMeaning(a, c).value.(format := f))
  {
    hide NextInt;
  }

  lemma ShowAssociates(d: Directive, g: seq<char>)
    ensures Show(d)[1..] + g ==
            d.flags + (ShowAmount(d.width)
              + (ShowPrecision(d.precision) + (ShowLength(d.length) + ([d.specifier] + g))))
    ensures (Show(d) + g)[0] == '%' && (Show(d) + g)[1..] == Show(d)[1..] + g
  {
    hide ShowAmount, ShowPrecision, ShowLength;
  }

  /** Parsing undoes writing: every directive is read as what it says, whatever follows it. */
  lemma ParseShown(d: Directive, g: seq<char>, args: seq<Arg>)
    requires WellFormed(d)
    ensures Parse(Start(Show(d)[1..] + g, args)) == Meaning(d, g, args)
  {
    hide ParseFlags, ParseWidth, ParsePrecision, ParseLength, WidthMeaning, PrecisionMeaning, ShowAmount, ShowPrecision,
         ShowLength,
         AddFlags, AddLength, Show, AfterWidth, AfterPrecision;
    var rest := [d.specifier] + g;
    var l := ShowLength(d.length) + rest;
    var p := ShowPrecision(d.precision) + l;
    var w := ShowAmount(d.width) + p;
    var c := Cursor(AddFlags(d.flags, NO_FLAGS), 0, 0, rest, args);
    ShowAssociates(d, g);
    LengthAfterPrecision(d.length, rest);
    PrecisionAfterWidth(d.precision, l);
    WidthShown(d.width, p, c);
    FlagsShown(d.flags, w, Start(w, args));
    WidthFormat(d.width, c, p);
    if WidthMeaning(d.width, c).Some? {
      var cw := WidthMeaning(d.width, c).value;
      PrecisionShown(d.precision, l, cw);
      PrecisionFormat(d.precision, cw, l);
      if PrecisionMeaning(d.precision, cw).Some? {
        LengthShown(d.length, rest, PrecisionMeaning(d.precision, cw).value);
      }
    }
    MeaningFormat(d, g, args);
  }

  lemma MeaningFormat(d: Directive, g: seq<char>, args: seq<Arg>)
    ensures Meaning(d, g, args).Some? ==> Meaning(d, g, args).value.format == [d.specifier] + g
    ensures var c := Cursor(AddFlags(d.flags, NO_FLAGS), 0, 0, [d.specifier] + g, args);
            WidthMeaning(d.width, c).Some? ==>
              && WidthMeaning(d.width, c).value.format == [d.specifier] + g
              && (PrecisionMeaning(d.precision, WidthMeaning(d.width, c).value).Some? ==>
                    PrecisionMeaning(d.precision, WidthMeaning(d.width, c).value).value.format == [d.specifier] + g)
  {
    hide NextInt, AddFlags, AddLength;
  }

  /** A written directive prints what its conversion emits, and the rest of the format follows. */
  lemma RenderShown(d: Directive, g: seq<char>, args: seq<Arg>)
    requires WellFormed(d)
    ensures var c := Meaning(d, g, args);
            Render(Show(d) + g, args) ==
            if c.None? || c.value.format == [] || Emit(c.value).None? then None
            else Prepend(Emit(c.value).value.text, Render(g, Emit(c.value).value.args))
  {
    ParseShown(d, g, args);
    ShowAssociates(d, g);
    MeaningFormat(d, g, args);
    assert ([d.specifier] + g)[1..] == g;
    hide Parse, Emit, Show, Meaning;
  }

  // ----- arguments for '*'

  /** A directive without '*', and the arguments still ahead. */
  datatype Resolved = Resolved(directive: Directive, args: seq<Arg>)

  predicate Starless(d: Directive) { !d.width.Star? && !d.precision.Star? }

  /** A width argument written into the directive, with '-' when it is negative. */
  function ResolveWidth(d: Directive, args: seq<Arg>): Option<Resolved> {
    if !d.width.Star? then Some(Resolved(d, args))
    else
      var w := NextInt(args);
      if w.None? || w.value == Least(INT) then None
      else if w.value < 0 then Some(Resolved(d.(flags := d.flags + ['-'], width := Given(0 - w.value)), args[1..]))
      else Some(Resolved(d.(width := if w.value > 0 then Given(w.value) else Absent), args[1..]))
  }

  /** A precision argument written into the directive, a negative one as the given amount. */
  function ResolvePrecision(d: Directive, args: seq<Arg>, negative: Amount): Option<Resolved> {
    if !d.precision.Star? then Some(Resolved(d, args))
    else
      var p := NextInt(args);
      if p.None? then None
      else Some(Resolved(d.(precision := if p.value >= 0 then Given(p.value) else negative), args[1..]))
  }

  function Resolve(d: Directive, args: seq<Arg>, negative: Amount): Option<Resolved> {
    var w := ResolveWidth(d, args);
    if w.None? then None else ResolvePrecision(w.value.directive, w.value.args, negative)
  }

  /** The code counts a negative precision argument as 0. */
  function CodeResolve(d: Directive, args: seq<Arg>): Option<Resolved> { Resolve(d, args, Given(0)) }

  /** Section 7.19.6.1 of ISO/IEC 9899:1999 counts it as if the precision were left out. */
  function StandardResolve(d: Directive, args: seq<Arg>): Option<Resolved> { Resolve(d, args, Absent) }

  /** The two differ in nothing but that. */
  lemma ResolutionsAgree(d: Directive, args: seq<Arg>)
    ensures CodeResolve(d, args).Some? <==> StandardResolve(d, args).Some?
    ensures CodeResolve(d, args).Some? ==>
              var e, s := CodeResolve(d, args).value, StandardResolve(d, args).value;
              && e.args == s.args
              && (e.directive == s.directive
                  || (e.directive.precision == Given(0) && s.directive == e.directive.(precision := Absent)))
  {
    hide NextInt;
  }

  lemma LeftAdded(s: seq<char>)
    ensures AddFlags(s + ['-'], NO_FLAGS) == AddFlags(s, NO_FLAGS).(left := true)
  {
    HasLast(s, '0');
    HasLast(s, '-');
    HasLast(s, '+');
    HasLast(s, ' ');
    HasLast(s, '#');
    hide Has;
  }

  lemma HasLast(s: seq<char>, c: char)
    ensures Has(s + ['-'], c) <==> Has(s, c) || c == '-'
  {
    if c == '-' {
      assert (s + ['-'])[|s|] == c;
    }
  }

  lemma WidthResolved(d: Directive, f: seq<char>, args: seq<Arg>)
    requires WellFormed(d)
    ensures var c, r := Cursor(AddFlags(d.flags, NO_FLAGS), 0, 0, f, args), ResolveWidth(d, args);
            if r.None? then WidthMeaning(d.width, c).None?
            else
              var e := r.value.directive;
              && WellFormed(e) && !e.width.Star? && e == d.(flags := e.flags, width := e.width)
              && WidthMeaning(d.width, c)
                == WidthMeaning(e.width, Cursor(AddFlags(e.flags, NO_FLAGS), 0, 0, f, r.value.args))
  {
    hide AddFlags, Convert;
    LeftAdded(d.flags);
  }

  lemma PrecisionResolved(d: Directive, c: Cursor)
    requires WellFormed(d)
    ensures var r := ResolvePrecision(d, c.args, Given(0));
            if r.None? then PrecisionMeaning(d.precision, c).None?
            else
              var e := r.value.directive;
              && WellFormed(e) && !e.precision.Star? && e == d.(precision := e.precision)
              && PrecisionMeaning(d.precision, c) == PrecisionMeaning(e.precision, c.(args := r.value.args))
  {
    hide Convert;
  }

  /** A directive with '*' means what the directive with the numbers written into it means. */
  lemma ResolvedMeaning(d: Directive, g: seq<char>, args: seq<Arg>)
    requires WellFormed(d)
    ensures var r := CodeResolve(d, args);
            if r.None? then Meaning(d, g, args).None?
            else
              && WellFormed(r.value.directive) && Starless(r.value.directive)
              && r.value.directive.specifier == d.specifier && r.value.directive.length == d.length
              && Meaning(d, g, args) == Meaning(r.value.directive, g, r.value.args)
  {
    hide AddFlags, AddLength, WellFormed, WidthMeaning, PrecisionMeaning, ResolveWidth, ResolvePrecision;
    var f := [d.specifier] + g;
    var c, w := Cursor(AddFlags(d.flags, NO_FLAGS), 0, 0, f, args), ResolveWidth(d, args);
    WidthResolved(d, f, args);
    if w.Some? {
      var e := w.value.directive;
      var cw := WidthMeaning(e.width, Cursor(AddFlags(e.flags, NO_FLAGS), 0, 0, f, w.value.args));
      WrittenWidth(e.width, Cursor(AddFlags(e.flags, NO_FLAGS), 0, 0, f, w.value.args));
      PrecisionResolved(e, cw.value);
      var r := ResolvePrecision(e, w.value.args, Given(0));
      if r.Some? {
        WrittenWidth(e.width, Cursor(AddFlags(e.flags, NO_FLAGS), 0, 0, f, r.value.args));
      }
    }
  }

  lemma WrittenWidth(a: Amount, c: Cursor)
    requires !a.Star?
    ensures WidthMeaning(a, c) == Some(c.(width := if a.Given? then a.n else c.width))
  {
  }

  /** And it prints what that directive prints. */
  lemma ResolvedRender(d: Directive, g: seq<char>, args: seq<Arg>)
    requires WellFormed(d)
    ensures var r := CodeResolve(d, args);
            Render(Show(d) + g, args) == if r.None? then None else Render(Show(r.value.directive) + g, r.value.args)
  {
    hide Render, Meaning, Show, Emit, CodeResolve, WellFormed;
    ResolvedMeaning(d, g, args);
    RenderShown(d, g, args);
    if CodeResolve(d, args).Some? {
      RenderShown(CodeResolve(d, args).value.directive, g, CodeResolve(d, args).value.args);
    }
  }
}
