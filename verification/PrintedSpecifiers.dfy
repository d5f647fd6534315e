/**
 What the characters of a format stand for: plain text, length modifiers, and the conversions
 beside the integers: %c, %p, %% and unknown ones.
 */
module PrintedSpecifiers {
  import opened CTypes
  import opened Options
  import opened PrintfNumber
  import opened PrintfFormat
  import opened PrintfDirectives
  import opened PrintedFields
  import opened Sequences

  /** Text without '%' stands for itself. */
  lemma {:induction false} PlainText(f: seq<char>, args: seq<Arg>)
    requires forall i :: 0 <= i < |f| ==> f[i] != '%'
    ensures Render(f, args) == Some(Rendered(f, args))
    decreases |f|
  {
    if f != [] {
      hide Parse, Emit;
      PlainText(f[1..], args);
      assert [f[0]] + f[1..] == f;
    }
  }

  /** How the length modifiers are written. */
  lemma LengthsWritten()
    ensures ShowLength(Plainly) == "" && ShowLength(H) == "h" && ShowLength(HH) == "hh"
    ensures ShowLength(L) == "l" && ShowLength(LL) == "ll"
    ensures ShowLength(J) == "j" && ShowLength(Z) == "z" && ShowLength(T) == "t"
  {
  }

  /** A character that is no flag, digit, point, star, length modifier or percent sign. */
  predicate Letter(c: char) { c !in "0123456789-+ #.*hltjz%" }

  lemma NoPart(c: char)
    requires Letter(c) || c == '%'
    ensures !IsFlag(c) && !IsDigit(c) && c != '.' && c != '*'
    ensures c != 'h' && c != 'l' && c != 't' && c != 'j' && c != 'z'
  {
  }

  lemma LetterParsed(c: char, args: seq<Arg>)
    requires Letter(c) || c == '%'
    ensures Parse(Start([c], args)) == Some(Start([c], args))
  {
    hide Letter;
    NoPart(c);
    assert [c][0..] == [c];
    assert NO_FLAGS.(isChar := false) == NO_FLAGS;
  }

  lemma Single(c: char, args: seq<Arg>)
    requires Letter(c) || c == '%'
    ensures Render(['%', c], args) == Emit(Start([c], args))
  {
    LetterParsed(c, args);
    assert ['%', c][1..] == [c] && [c][1..] == [];
    hide Parse, Emit;
    if Emit(Start([c], args)).Some? {
      var r := Emit(Start([c], args)).value;
      assert Render([], r.args) == Some(Rendered([], r.args));
      assert r.text + [] == r.text;
    }
  }

  lemma NoConversion(c: char)
    requires c == '%' || (Letter(c) && c !in "diuxXobcspfFeEgG")
    ensures c !in "fFeEgG" && !IsInteger(c) && c != 'c' && c != 's' && c != 'p'
  {
    assert forall x :: x in "diuxXob" ==> x in "diuxXobcspfFeEgG";
  }

  /** %% prints one percent sign and takes no argument; so does an unknown conversion with its own character. */
  lemma StandsForItself(c: char, args: seq<Arg>)
    requires c == '%' || (Letter(c) && c !in "diuxXobcspfFeEgG")
    ensures Render(['%', c], args) == Some(Rendered([c], args))
  {
    Single(c, args);
    NoConversion(c);
    hide Letter, IsInteger, NumberText, PaddedText, Render;
  }

  // ----- any directive of %%

  /** Whatever stands between the two percent signs. */
  lemma PercentShown(d: Directive, args: seq<Arg>)
    requires WellFormed(d) && Starless(d) && d.specifier == '%'
    ensures Render(Show(d), args) == Some(Rendered("%", args))
  {
    RenderShown(d, [], args);
    assert Show(d) + [] == Show(d) && ['%'] + [] == ['%'];
    PlainMeaning(d, [], args);
    NoConversion('%');
    var c := Cursor(DirectiveFlags(d), AmountValue(d.width), AmountValue(d.precision), ['%'], args);
    assert Emit(c) == Some(Rendered(['%'], args)) by {
      hide IsInteger, NumberText, PaddedText, DirectiveFlags, AmountValue;
    }
    hide Show, Meaning, DirectiveFlags, Emit, AmountValue;
  }

  // ----- characters

  /** %c: the argument as an unsigned char, padded with blanks to the width, on the right with '-'. */
  lemma CharacterShown(d: Directive, args: seq<Arg>, e: Directive, v: int)
    requires TakesText(d, args, e, Number(v))
    ensures Render(Show(d), args).Some?
    ensures Render(Show(d), args).value.text ==
            var blanks := Repeat(' ', AmountValue(e.width) - 1);
            if Has(e.flags, '-') then [(v % 256) as char] + blanks else blanks + [(v % 256) as char]
  {
    LeftFlag(e);
    UnsignedChar(v);
    hide Render, Show, TakesText, DirectiveFlags, Convert, AmountValue, Has, TextDirective, Repeat;
    TextShown(d, args, e, Number(v));
    var body, blanks := [(v % 256) as char], Repeat(' ', AmountValue(e.width) - 1);
    assert [] + body + blanks == body + blanks && blanks + body + [] == blanks + body;
  }

  lemma LeftFlag(e: Directive)
    ensures DirectiveFlags(e).left == Has(e.flags, '-')
  {
    hide Has;
  }

  lemma UnsignedChar(v: int)
    ensures Convert(UCHAR, v) == v % 256
  {
  }

  // ----- pointers

  /** A pointer conversion with at most '0' for a flag and a precision of at most 16. */
  predicate PointerDirective(d: Directive) {
    && WellFormed(d) && Starless(d) && d.specifier == 'p'
    && !Has(d.flags, '-') && !Has(d.flags, '#') && !Has(d.flags, '+') && !Has(d.flags, ' ')
    && AmountValue(d.precision) <= 16
  }

  /** The low 64 bits of an argument. */
  function Low64(v: int): (n: nat)
    ensures n < 0x1_0000_0000_0000_0000
  {
    v % 0x1_0000_0000_0000_0000
  }

  /** An address, as 16 hexadecimal places with capitals. */
  function Address(v: int): seq<char> {
    var d := AllDigits(Low64(v), 16, true);
    Repeat('0', 16 - |d|) + d
  }

  lemma AddressDigits(value: nat)
    requires value < 0x1_0000_0000_0000_0000
    ensures |AllDigits(value, 16, true)| <= 16
  {
    assert Pow(16, 4) == 0x1_0000;
    PowSum(16, 4, 4);
    PowSum(16, 8, 8);
    DigitCount(value, 16, 16, true, 16);
  }

  /** %p shows an address in sixteen places, whatever the width: zeros, capitals, no prefix. */
  lemma PointerShown(d: Directive, v: int)
    requires PointerDirective(d)
    ensures |Address(v)| == 16
    ensures Render(Show(d), [Number(v)]) == Some(Rendered(Address(v), []))
  {
    hide AllDigits, Repeat, Low64, PointerDirective, DirectiveFlags, AddressFlags, AmountValue, Render, Show,
         NumberText;
    AddressDigits(Low64(v));
    PointerFlags(d);
    PointerEmitted(d, v);
    PointerText(Low64(v), AmountValue(d.precision), AddressFlags(DirectiveFlags(d)));
  }

  function AddressFlags(f: Flags): Flags { f.(zeropad := true, uppercase := true) }

  lemma PointerFlags(d: Directive)
    requires PointerDirective(d)
    ensures var f := AddressFlags(DirectiveFlags(d));
            f.zeropad && f.uppercase && !f.left && !f.plus && !f.space && !f.hash && AmountValue(d.precision) <= 16
  {
    hide Has;
  }

  lemma Unsigned64(v: int)
    ensures Convert(ULONG, v) == Low64(v)
  {
  }

  lemma PointerEmitted(d: Directive, v: int)
    requires PointerDirective(d)
    ensures Render(Show(d), [Number(v)])
            == Some(Rendered(NumberText(Low64(v), false, 16, AmountValue(d.precision), 16,
                                        AddressFlags(DirectiveFlags(d))), []))
  {
    var c := Cursor(DirectiveFlags(d), AmountValue(d.width), AmountValue(d.precision), [d.specifier], [Number(v)]);
    RenderShown(d, [], [Number(v)]);
    assert Show(d) + [] == Show(d) && [d.specifier] + [] == [d.specifier];
    PlainMeaning(d, [], [Number(v)]);
    EmitPointer(c, v);
    hide Show, Meaning, DirectiveFlags, Emit, AmountValue, NumberText, Has, AddressFlags, Low64;
    var text := NumberText(Low64(v), false, 16, c.precision, 16, AddressFlags(c.flags));
    assert text + [] == text;
  }

  lemma EmitPointer(c: Cursor, v: int)
    requires c.format == ['p'] && c.args == [Number(v)]
    ensures Emit(c)
            == Some(Rendered(NumberText(Low64(v), false, 16, c.precision, 16,
                                        AddressFlags(c.flags)), []))
  {
    Unsigned64(v);
    assert 'p' !in "fFeEgG" && !IsInteger('p') && [Number(v)][1..] == [];
    hide IsInteger, NumberText, PaddedText, Convert, Low64;
  }

  lemma PointerText(n: nat, prec: nat, f: Flags)
    requires |AllDigits(n, 16, true)| <= 16 && prec <= 16
    requires f.zeropad && f.uppercase && !f.left && !f.plus && !f.space && !f.hash
    ensures NumberText(n, false, 16, prec, 16, f)
            == Repeat('0', 16 - |AllDigits(n, 16, true)|) + AllDigits(n, 16, true)
  {
    var s, d := ScratchDigits(n, 16, f), AllDigits(n, 16, true);
    ScratchDigitsShape(n, 16, f);
    PlainNumber(n, false, 16, prec, 16, f);
    assert n == 0 ==> d == [];
    assert |Rev(s)| == |s|;
    hide ScratchDigits, AllDigits, NumberText, NtoaText, Rev, Repeat;
    PointerField(s, prec, f);
    OneZero(16);
  }

  lemma PointerField(s: seq<char>, prec: nat, f: Flags)
    requires |s| <= 16 && prec <= 16
    requires f.zeropad && !f.left && !f.plus && !f.space && !f.hash
    ensures NtoaText(s, false, 16, prec, 16, f) == Repeat('0', 16 - |s|) + Rev(s)
  {
    FieldShape(s, false, 16, prec, 16, f);
    assert ZeroCount(|s|, false, prec, 16, f) == 16 - |s| && SignShown(|s|, false, prec, 16, f) == [];
    hide NtoaText, ZeroCount, SignShown, Repeat, Rev;
    var body := Repeat('0', 16 - |s|) + Rev(s);
    assert [] + Repeat('0', 16 - |s|) + Rev(s) == body && [] + body + [] == body;
  }

  lemma OneZero(n: nat)
    requires n > 0
    ensures Repeat('0', n - 1) + ['0'] == Repeat('0', n) + []
  {
  }
}
