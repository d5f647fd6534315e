/** Inputs on which the tiny printf departs from section 7.19.6.1 of ISO/IEC 9899:1999, one for each way it does. */
module PrintedExamples {
  import opened Options
  import opened PrintfNumber
  import opened PrintfFormat
  import opened PrintfDirectives
  import opened PrintedFields
  import opened PrintfHash
  import opened PrintedHash
  import opened Sequences

  lemma OneDigit(v: nat, flags: Flags)
    requires 0 < v < 10
    ensures ScratchDigits(v, 10, flags) == [DigitChar(v, false)]
            && AllDigits(v, 10, flags.uppercase) == [DigitChar(v, false)]
  {
    assert Quotient(v, 10) == 0 && LastDigit(v, 10) == v;
    hide Quotient, LastDigit;
    assert Digits(0, 10, flags.uppercase, NTOA_BUFFER_SIZE - 1) == [] && AllDigits(0, 10, flags.uppercase) == [];
    assert DigitChar(v, flags.uppercase) == DigitChar(v, false);
  }

  /** What the code prints for a one-digit number. */
  lemma DigitPrinted(v: nat, negative: bool, prec: nat, width: nat, flags: Flags)
    requires 0 < v < 10 && !flags.hash
    ensures NumberText(v, negative, 10, prec, width, flags)
            == Field(SignShown(1, negative, prec, width, flags)
              + Repeat('0', ZeroCount(1, negative, prec, width, flags))
                     + [DigitChar(v, false)], width, flags)
  {
    var d := [DigitChar(v, false)];
    OneDigit(v, flags);
    PlainNumber(v, negative, 10, prec, width, flags);
    FieldShape(d, negative, 10, prec, width, flags);
    assert Rev(d) == d;
  }

  /** What the standard asks for. */
  lemma DigitAsked(v: nat, negative: bool, prec: nat, width: nat, flags: Flags)
    requires 0 < v < 10
    ensures StandardText(v, negative, 10, prec, width, flags)
            == StandardField([DigitChar(v, false)], negative, prec, width, flags)
  {
    OneDigit(v, flags);
  }

  /** What is printed for an argument that both sides narrow to n, and what the standard prints. */
  lemma Compared(d: Directive, args: seq<Arg>, e: Directive, s: Directive, v: int, n: int)
    requires Takes(d, args, e, v) && Shown(e, v) == StandardShown(s, v) == n && e.specifier == s.specifier == 'd'
    ensures Render(Show(d), args)
            == Some(Rendered(NumberText(Magnitude(n), n < 0, 10, AmountValue(e.precision), AmountValue(e.width),
                                        StandardFlags(e)), []))
    ensures StandardPrinted(s, v)
            == StandardText(Magnitude(n), n < 0, 10, AmountValue(s.precision), AmountValue(s.width), StandardFlags(s))
  {
    hide Render, Show, NumberText, StandardText, StandardFlags, IntegerFlags, Takes, Shown, StandardShown,
         NumberDirective,
         AmountValue, Magnitude, DirectiveFlags;
    NumberShown(d, args, e, v);
    FlagsOf(e);
  }

  // ----- a left-justified field has no precision zeros

  const LEFT: Directive := Directive("-", Absent, Given(3), Plainly, 'd')

  lemma LeftWritten()
    ensures Show(LEFT) == "%-.3d"
  {
    OneDigit(3, NO_FLAGS);
    hide AllDigits;
  }

  lemma LeftTakes()
    ensures Takes(LEFT, [Number(5)], LEFT, 5) && Shown(LEFT, 5) == StandardShown(LEFT, 5) == 5
  {
  }

  lemma LeftText(f: Flags, g: Flags)
    requires f.left && !f.plus && !f.space && !f.hash
    requires g == f
    ensures NumberText(5, false, 10, 3, 0, f) == "5"
    ensures StandardText(5, false, 10, 3, 0, g) == "005"
  {
    DigitPrinted(5, false, 3, 0, f);
    DigitAsked(5, false, 3, 0, g);
    assert Repeat('0', 2) == ['0', '0'] && Repeat('0', 0) == [];
    hide NumberText, StandardText;
  }

  /** %-.3d of 5 prints 5, not 005. */
  lemma LeftJustified()
    ensures Render("%-.3d", [Number(5)]) == Some(Rendered("5", []))
    ensures StandardPrinted(LEFT, 5) == "005"
  {
    LeftWritten();
    LeftTakes();
    Compared(LEFT, [Number(5)], LEFT, LEFT, 5, 5);
    LeftText(StandardFlags(LEFT), StandardFlags(LEFT));
    hide Render, Show, NumberText, StandardText, StandardFlags, Takes, Shown, StandardShown, StandardPrinted;
  }

  // ----- zero padding ends at 32 characters and takes the sign's place

  const WIDE: Directive := Directive("0", Given(33), Absent, Plainly, 'd')

  lemma WideTakes()
    ensures Show(WIDE) == "%033d" && Takes(WIDE, [Number(-5)], WIDE, -5)
            && Shown(WIDE, -5) == StandardShown(WIDE, -5) == -5
  {
    assert Decimal(33) == "33";
    hide Decimal;
  }

  lemma WideText(f: Flags, g: Flags)
    requires f.zeropad && !f.left && !f.hash
    requires g == f
    ensures NumberText(5, true, 10, 0, 33, f) == Repeat('0', 31) + ['5']
    ensures StandardText(5, true, 10, 0, 33, g) == ['-'] + Repeat('0', 31) + ['5']
  {
    DigitPrinted(5, true, 0, 33, f);
    DigitAsked(5, true, 0, 33, g);
    assert Repeat('0', -1) + ['5'] == ['5'];
    hide NumberText, StandardText;
  }

  /** %033d of -5 prints 31 zeros and a 5, without the minus sign. */
  lemma ZeroPadded()
    ensures Render("%033d", [Number(-5)]) == Some(Rendered(Repeat('0', 31) + ['5'], []))
    ensures StandardPrinted(WIDE, -5) == ['-'] + Repeat('0', 31) + ['5']
  {
    WideTakes();
    Compared(WIDE, [Number(-5)], WIDE, WIDE, -5, -5);
    WideText(StandardFlags(WIDE), StandardFlags(WIDE));
    hide Render, Show, NumberText, StandardText, StandardFlags, Takes, Shown, StandardShown, StandardPrinted;
  }

  // ----- so does a precision

  const FULL: Directive := Directive("", Absent, Given(32), Plainly, 'd')

  lemma FullTakes()
    ensures Show(FULL) == "%.32d" && Takes(FULL, [Number(-5)], FULL, -5)
            && Shown(FULL, -5) == StandardShown(FULL, -5) == -5
  {
    assert Decimal(32) == "32";
    hide Decimal;
  }

  lemma FullText(f: Flags, g: Flags)
    requires !f.zeropad && !f.left && !f.hash
    requires g == f
    ensures NumberText(5, true, 10, 32, 0, f) == Repeat('0', 31) + ['5']
    ensures StandardText(5, true, 10, 32, 0, g) == ['-'] + (Repeat('0', 31) + ['5'])
  {
    DigitPrinted(5, true, 32, 0, f);
    DigitAsked(5, true, 32, 0, g);
    hide NumberText, StandardText;
  }

  /** %.32d of -5 loses its sign. */
  lemma FullPrecision()
    ensures Render("%.32d", [Number(-5)]) == Some(Rendered(Repeat('0', 31) + ['5'], []))
    ensures StandardPrinted(FULL, -5) == ['-'] + (Repeat('0', 31) + ['5'])
  {
    FullTakes();
    Compared(FULL, [Number(-5)], FULL, FULL, -5, -5);
    FullText(StandardFlags(FULL), StandardFlags(FULL));
    hide Render, Show, NumberText, StandardText, StandardFlags, Takes, Shown, StandardShown, StandardPrinted;
  }

  // ----- a negative precision argument counts as 0

  const STAR: Directive := Directive("0", Given(5), Star, Plainly, 'd')

  lemma StarTakes(v: int)
    requires 0 <= v < 10
    ensures var e, s := STAR.(precision := Given(0)), STAR.(precision := Absent);
            Asks(STAR, [Number(-1), Number(v)], e, s, v) && Shown(e, v) == StandardShown(s, v) == v
  {
    assert [Number(-1), Number(v)][1..] == [Number(v)];
  }

  lemma StarShown()
    ensures Show(STAR) == "%05.*d"
  {
    OneDigit(5, NO_FLAGS);
    hide AllDigits;
  }

  lemma StarText(f: Flags, g: Flags)
    requires !f.zeropad && !f.left && !f.plus && !f.space && !f.hash
    requires g.zeropad && !g.left && !g.plus && !g.space
    ensures NumberText(7, false, 10, 0, 5, f) == "    7"
    ensures StandardText(7, false, 10, 0, 5, g) == "00007"
  {
    DigitPrinted(7, false, 0, 5, f);
    DigitAsked(7, false, 0, 5, g);
    assert Repeat(' ', 4) == "    " && Repeat('0', 4) == "0000" && Repeat('0', -1) == [] && Repeat('0', 0) == [];
    hide NumberText, StandardText;
  }

  lemma TakesOf(d: Directive, args: seq<Arg>, e: Directive, s: Directive, v: int)
    requires Asks(d, args, e, s, v)
    ensures Takes(d, args, e, v)
  {
  }

  /** %05.*d of -1 and 7 pads with blanks, though no precision counts as given. */
  lemma NegativeStar()
    ensures Render("%05.*d", [Number(-1), Number(7)]) == Some(Rendered("    7", []))
    ensures StandardPrinted(STAR.(precision := Absent), 7) == "00007"
  {
    hide Asks, Takes, Render, Show, Shown, StandardShown;
    StarTakes(7);
    StarShown();
    assert Takes(STAR, [Number(-1), Number(7)], STAR.(precision := Given(0)), 7) by {
      TakesOf(STAR, [Number(-1), Number(7)], STAR.(precision := Given(0)), STAR.(precision := Absent), 7);
    }
    Compared(STAR, [Number(-1), Number(7)], STAR.(precision := Given(0)), STAR.(precision := Absent), 7, 7);
    StarText(StandardFlags(STAR.(precision := Given(0))), StandardFlags(STAR.(precision := Absent)));
    hide Render, Show, NumberText, StandardText, StandardFlags, Takes, Shown, StandardShown, StandardPrinted;
  }

  const TEXT: Directive := Directive("", Absent, Star, Plainly, 's')

  lemma TextTakes()
    ensures Show(TEXT) == "%.*s"
            && TakesText(TEXT, [Number(-1), Text("abc")], TEXT.(precision := Given(0)), Text("abc"))
  {
  }

  /** %.*s of -1 and abc prints nothing, not abc. */
  lemma NegativeStarString()
    ensures Render("%.*s", [Number(-1), Text("abc")]) == Some(Rendered("", []))
    ensures StandardString(TEXT.(precision := Absent), "abc") == "abc"
  {
    var e := TEXT.(precision := Given(0));
    TextTakes();
    TextShown(TEXT, [Number(-1), Text("abc")], e, Text("abc"));
    assert FieldText(e, Text("abc"), 0) == "";
  }

  // ----- the length of a string is cut to an unsigned int

  const FIVE: Directive := Directive("", Given(5), Absent, Plainly, 's')

  lemma FiveTakes(t: seq<char>)
    ensures Show(FIVE) == "%5s" && TakesText(FIVE, [Text(t)], FIVE, Text(t))
  {
    OneDigit(5, NO_FLAGS);
    hide AllDigits;
  }

  /** %5s of 2^32 characters puts five blanks in front of them. */
  lemma LongString(t: seq<char>)
    requires |t| == 0x1_0000_0000
    ensures Render("%5s", [Text(t)]) == Some(Rendered(Repeat(' ', 5) + t, []))
    ensures StandardString(FIVE, t) == t
  {
    FiveTakes(t);
    assert FieldLength(FIVE, Text(t)) == 0 && FieldBody(FIVE, Text(t)) == t;
    hide Render, Show, TakesText, FieldLength, FieldBody;
    TextShown(FIVE, [Text(t)], FIVE, Text(t));
    assert FieldText(FIVE, Text(t), 5) == Repeat(' ', 5) + t + [] == Repeat(' ', 5) + t;
    assert Repeat(' ', 5 - |t|) == [];
  }

  // ----- %hhd shows an unsigned char

  const NARROW: Directive := Directive("", Absent, Absent, HH, 'd')

  lemma NarrowTakes()
    ensures Show(NARROW) == "%hhd" && Takes(NARROW, [Number(-1)], NARROW, -1)
    ensures Shown(NARROW, -1) == 255 && StandardShown(NARROW, -1) == -1
  {
  }

  /** %hhd of -1 reads back as 255. */
  lemma NarrowedNegative()
    ensures Render("%hhd", [Number(-1)]).Some?
    ensures ReadBack(Render("%hhd", [Number(-1)]).value.text, 10) == 255
            && ReadBack(StandardPrinted(NARROW, -1), 10) == -1
  {
    hide ReadBack, Render, Show, Takes, Shown, StandardShown, StandardText, StandardFlags, SignVisible;
    NarrowTakes();
    PrintedReadsBack(NARROW, [Number(-1)], NARROW, -1);
    StandardReadsBack(1, true, 10, 0, 0, StandardFlags(NARROW));
  }

  // ----- '#'

  /** What is printed and what the standard prints for a directive with '#' and without '*'. */
  lemma HashCompared(d: Directive, v: int)
    requires HashAsks(d, [Number(v)], d, d, v) && Shown(d, v) == v
    ensures var f := StandardFlags(d);
            && v >= 0
            && Render(Show(d), [Number(v)])
               == Some(Rendered(NumberText(v, false, Radix(d.specifier), AmountValue(d.precision), AmountValue(d.width),
                                           f.(hash := true)), []))
            && HashPrinted(d, v)
               == StandardHash(v, Radix(d.specifier), AmountValue(d.precision), AmountValue(d.width), f)
    ensures HashFlags(AmountValue(d.precision), StandardFlags(d).(hash := true))
  {
    HashFlagsOf(d);
    HashShown(d, v);
    hide Render, Show, NumberText, StandardHash, StandardFlags, IntegerFlags, HashDirective, TakesInteger, Shown,
         StandardShown, AmountValue, DirectiveFlags;
    IntegerShown(d, [Number(v)], d, v);
  }

  lemma FiveDigits(base: nat)
    requires base == 8 || base == 16
    ensures AllDigits(5, base, false) == "5"
  {
    assert Quotient(5, base) == 0 && LastDigit(5, base) == 5;
    hide Quotient, LastDigit;
    assert AllDigits(0, base, false) == [];
  }

  /** What is printed for 5. */
  lemma FivePrinted(base: nat, prec: nat, width: nat, f: Flags)
    requires (base == 8 || base == 16) && HashFlags(prec, f) && !f.uppercase
    ensures NumberText(5, false, base, prec, width, f) == CodeHash("5", base, prec, width, f)
  {
    hide AllDigits, NumberText, CodeHash, HashFlags;
    FiveDigits(base);
    HashNumber(5, base, prec, width, f);
  }

  const TIGHT: Directive := Directive("#", Given(1), Absent, Plainly, 'x')

  lemma TightWritten()
    ensures Show(TIGHT) == "%#1x"
  {
    OneDigit(1, NO_FLAGS);
    hide AllDigits;
  }

  lemma TightTakes()
    ensures HashAsks(TIGHT, [Number(5)], TIGHT, TIGHT, 5) && Shown(TIGHT, 5) == 5
  {
  }

  lemma TightText(f: Flags)
    requires HashFlags(0, f) && !f.precision && !f.left && !f.zeropad && !f.uppercase
    ensures NumberText(5, false, 16, 0, 1, f) == "0x"
  {
    FivePrinted(16, 0, 1, f);
    assert ZeroCount(1, false, 0, 1, f) == 0 && Taken(1, 16, 1, f) == 1;
    hide NumberText, HashFlags, ZeroCount, Taken;
    assert HashBody("5", 16, 0, 1, f) == "0x";
    assert Repeat(' ', -1) == [];
  }

  lemma TightAsked(f: Flags)
    requires !f.precision && !f.left && !f.zeropad && !f.uppercase
    ensures StandardHash(5, 16, 0, 1, f) == "0x5"
  {
    FiveDigits(16);
    hide AllDigits;
    assert Repeat('0', -1) + "5" == "5" && Repeat(' ', -2) == [];
  }

  /** %#1x of 5 prints the prefix in place of the digit. */
  lemma PrefixForDigit()
    ensures Render("%#1x", [Number(5)]) == Some(Rendered("0x", []))
    ensures HashPrinted(TIGHT, 5) == "0x5"
  {
    TightWritten();
    TightTakes();
    HashCompared(TIGHT, 5);
    TightText(StandardFlags(TIGHT).(hash := true));
    TightAsked(StandardFlags(TIGHT));
    hide Render, Show, NumberText, StandardHash, StandardFlags, HashAsks, Shown, HashFlags;
  }

  const CROWDED: Directive := Directive("#", Absent, Given(31), Plainly, 'x')

  lemma CrowdedTakes()
    ensures Show(CROWDED) == "%#.31x" && HashAsks(CROWDED, [Number(5)], CROWDED, CROWDED, 5) && Shown(CROWDED, 5) == 5
  {
    assert Decimal(31) == "31";
    hide Decimal;
  }

  lemma CrowdedText(f: Flags)
    requires HashFlags(31, f) && f.precision && !f.left && !f.uppercase
    ensures NumberText(5, false, 16, 31, 0, f) == "x" + (Repeat('0', 30) + "5")
  {
    FivePrinted(16, 31, 0, f);
    assert ZeroCount(1, false, 31, 0, f) == 30 && Taken(31, 16, 0, f) == 0;
    hide NumberText, HashFlags, ZeroCount, Taken;
    var c := Repeat('0', 30) + "5";
    assert c[0..] == c && "0x"[1..] == "x";
    assert HashBody("5", 16, 31, 0, f) == "x" + c;
    assert Repeat(' ', -32) == [];
  }

  lemma CrowdedAsked(f: Flags)
    requires f.precision && !f.left && !f.zeropad && !f.uppercase
    ensures StandardHash(5, 16, 31, 0, f) == "0x" + (Repeat('0', 30) + "5")
  {
    FiveDigits(16);
    hide AllDigits;
    assert Repeat(' ', -33) == [];
  }

  /** %#.31x loses half of its prefix. */
  lemma PrefixCut()
    ensures Render("%#.31x", [Number(5)]) == Some(Rendered("x" + (Repeat('0', 30) + "5"), []))
    ensures HashPrinted(CROWDED, 5) == "0x" + (Repeat('0', 30) + "5")
  {
    CrowdedTakes();
    HashCompared(CROWDED, 5);
    CrowdedText(StandardFlags(CROWDED).(hash := true));
    CrowdedAsked(StandardFlags(CROWDED));
    hide Render, Show, NumberText, StandardHash, StandardFlags, HashAsks, Shown, HashFlags, Repeat;
  }

  const OCTAL: Directive := Directive("#", Absent, Given(3), Plainly, 'o')

  lemma OctalWritten()
    ensures Show(OCTAL) == "%#.3o"
  {
    OneDigit(3, NO_FLAGS);
    hide AllDigits;
  }

  lemma OctalTakes()
    ensures HashAsks(OCTAL, [Number(5)], OCTAL, OCTAL, 5) && Shown(OCTAL, 5) == 5
  {
  }

  lemma OctalText(f: Flags)
    requires HashFlags(3, f) && f.precision && !f.left && !f.uppercase
    ensures NumberText(5, false, 8, 3, 0, f) == "0005"
  {
    FivePrinted(8, 3, 0, f);
    assert ZeroCount(1, false, 3, 0, f) == 2 && Taken(3, 8, 0, f) == 0;
    hide NumberText, HashFlags, ZeroCount, Taken;
    assert Repeat('0', 2) + "5" == "005";
    assert HashBody("5", 8, 3, 0, f) == "0005";
    assert Repeat(' ', -4) == [];
  }

  lemma OctalAsked(f: Flags)
    requires f.precision && !f.left && !f.zeropad && !f.uppercase
    ensures StandardHash(5, 8, 3, 0, f) == "005"
  {
    FiveDigits(8);
    hide AllDigits;
    assert Repeat('0', 2) + "5" == "005" && Repeat(' ', -3) == [];
  }

  /** %#.3o of 5 has a zero in front of those of the precision. */
  lemma OctalZero()
    ensures Render("%#.3o", [Number(5)]) == Some(Rendered("0005", []))
    ensures HashPrinted(OCTAL, 5) == "005"
  {
    OctalWritten();
    OctalTakes();
    HashCompared(OCTAL, 5);
    OctalText(StandardFlags(OCTAL).(hash := true));
    OctalAsked(StandardFlags(OCTAL));
    hide Render, Show, NumberText, StandardHash, StandardFlags, HashAsks, Shown, HashFlags;
  }

  const NOTHING: Directive := Directive("#", Absent, Bare, Plainly, 'o')

  lemma NothingTakes()
    ensures Show(NOTHING) == "%#.o" && HashAsks(NOTHING, [Number(0)], NOTHING, NOTHING, 0) && Shown(NOTHING, 0) == 0
  {
  }

  lemma NothingText(f: Flags)
    requires HashFlags(0, f.(hash := true)) && f.precision && !f.left
    ensures NumberText(0, false, 8, 0, 0, f.(hash := true)) == ""
    ensures StandardHash(0, 8, 0, 0, f) == "0"
  {
    assert AllDigits(0, 8, f.uppercase) == [];
    hide AllDigits;
    assert Repeat('0', 0) == [] && Repeat(' ', -1) == [];
    assert Rev<char>([]) == [];
  }

  /** %#.o of 0 prints nothing, not 0. */
  lemma OctalNothing()
    ensures Render("%#.o", [Number(0)]) == Some(Rendered("", []))
    ensures HashPrinted(NOTHING, 0) == "0"
  {
    NothingTakes();
    HashCompared(NOTHING, 0);
    NothingText(StandardFlags(NOTHING));
    hide Render, Show, NumberText, StandardHash, StandardFlags, HashAsks, Shown, HashFlags;
  }
}
