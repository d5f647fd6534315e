/**
 The integer conversions of the tiny printf: digits produced last one first into a
 32-character scratch buffer, padding, '#' prefix and sign appended there, and the
 buffer sent out backwards. Characters are bytes.
 */
module PrintfNumber {
  import opened Sequences

  const NTOA_BUFFER_SIZE: nat := 32

  datatype Flags = Flags(
    zeropad: bool, left: bool, plus: bool, space: bool, hash: bool, uppercase: bool,
    isChar: bool, isShort: bool, isLong: bool, isLongLong: bool, precision: bool)

  const NO_FLAGS: Flags := Flags(false, false, false, false, false, false, false, false, false, false, false)

  function Min(x: int, y: int): int { if x <= y then x else y }

  function Max(x: int, y: int): int { if x <= y then y else x }

  // ----- digits

  function DigitChar(d: nat, uppercase: bool): char
    requires d < 16
  {
    if d < 10 then ('0' as int + d) as char
    else ((if uppercase then 'A' else 'a') as int + d - 10) as char
  }

  function Quotient(value: nat, base: nat): (q: nat)
    requires base >= 2
    ensures value > 0 ==> q < value
  {
    QuotientBelow(value, base);
    value / base
  }

  function LastDigit(value: nat, base: nat): (d: nat)
    requires base >= 2
    ensures d < base
  {
    value % base
  }

  lemma QuotientBelow(value: nat, base: nat)
    requires base >= 2
    ensures value / base >= 0 && (value > 0 ==> value / base < value)
  {
    var q := value / base;
    DivMod(value, base);
    if q > 0 {
      MulGrows(q, base);
    }
  }

  lemma MulGrows(q: nat, base: nat)
    requires q > 0 && base >= 2
    ensures q * base >= 2 * q
  {
  }

  lemma DivMod(value: nat, base: nat)
    requires base > 0
    ensures value / base >= 0 && (value / base) * base + value % base == value
  {
  }

  lemma QuotientStep(value: nat, base: nat)
    requires base >= 2
    ensures Quotient(value, base) * base + LastDigit(value, base) == value
  {
    DivMod(value, base);
  }

  /** The digits of a value, least significant first, at most n of them; none for 0. */
  function Digits(value: nat, base: nat, uppercase: bool, n: nat): (s: seq<char>)
    requires 2 <= base <= 16
    ensures |s| <= n
    decreases n
  {
    if value == 0 || n == 0 then []
    else [DigitChar(LastDigit(value, base), uppercase)] + Digits(Quotient(value, base), base, uppercase, n - 1)
  }

  /** What the digit loop leaves in the scratch buffer: nothing for 0 when a precision is given. */
  function ScratchDigits(value: nat, base: nat, flags: Flags): (s: seq<char>)
    requires 2 <= base <= 16
    ensures |s| <= NTOA_BUFFER_SIZE
  {
    if value == 0 then if flags.precision then [] else ['0']
    else Digits(value, base, flags.uppercase, NTOA_BUFFER_SIZE)
  }

  // ----- padding, prefix and sign in the scratch buffer

  /** Zeros appended up to a length the buffer still holds. */
  function FillZeros(b: seq<char>, upto: int): (r: seq<char>)
    ensures |b| <= NTOA_BUFFER_SIZE ==> |r| <= NTOA_BUFFER_SIZE
  {
    b + Repeat('0', Min(upto, NTOA_BUFFER_SIZE) - |b|)
  }

  predicate HasSign(negative: bool, flags: Flags) { negative || flags.plus || flags.space }

  /** Zero padding leaves one place of the width for the sign. */
  function PadWidth(width: nat, negative: bool, flags: Flags): nat {
    if !flags.left && width > 0 && flags.zeropad && HasSign(negative, flags) then width - 1 else width
  }

  function Padded(b: seq<char>, negative: bool, prec: nat, width: nat, flags: Flags): (r: seq<char>)
    ensures |b| <= NTOA_BUFFER_SIZE ==> |r| <= NTOA_BUFFER_SIZE
  {
    if flags.left then b
    else
      var r := FillZeros(b, prec);
      if flags.zeropad then FillZeros(r, PadWidth(width, negative, flags)) else r
  }

  function Push(b: seq<char>, c: char): (r: seq<char>)
    ensures |b| <= NTOA_BUFFER_SIZE ==> |r| <= NTOA_BUFFER_SIZE
  {
    if |b| < NTOA_BUFFER_SIZE then b + [c] else b
  }

  /** The '#' prefix, taking back a padding zero or two when the digits fill the field. */
  function Hashed(b: seq<char>, base: nat, prec: nat, width: nat, flags: Flags): (r: seq<char>)
    ensures |b| <= NTOA_BUFFER_SIZE ==> |r| <= NTOA_BUFFER_SIZE
  {
    if !flags.hash then b
    else
      var c :=
        if !flags.precision && |b| > 0 && (|b| == prec || |b| == width) then
          if |b| > 1 && base == 16 then b[..|b| - 2] else b[..|b| - 1]
        else b;
      var d :=
        if base == 16 && !flags.uppercase then Push(c, 'x')
        else if base == 16 then Push(c, 'X')
        else if base == 2 then Push(c, 'b')
        else c;
      Push(d, '0')
  }

  function Signed(b: seq<char>, negative: bool, flags: Flags): (r: seq<char>)
    ensures |b| <= NTOA_BUFFER_SIZE ==> |r| <= NTOA_BUFFER_SIZE
  {
    if negative then Push(b, '-') else if flags.plus then Push(b, '+') else if flags.space then Push(b, ' ') else b
  }

  /** The scratch buffer before it is sent out. */
  function Scratch(digits: seq<char>, negative: bool, base: nat, prec: nat, width: nat, flags: Flags): (r: seq<char>)
    ensures |digits| <= NTOA_BUFFER_SIZE ==> |r| <= NTOA_BUFFER_SIZE
  {
    Signed(Hashed(Padded(digits, negative, prec, width, flags), base, prec, PadWidth(width, negative, flags), flags),
      negative, flags)
  }

  /** Sending a buffer out backwards into a field. */
  function OutRevText(b: seq<char>, width: nat, flags: Flags): seq<char> {
    (if flags.left || flags.zeropad then [] else Repeat(' ', width - |b|))
    + Rev(b)
    + (if flags.left then Repeat(' ', width - |b|) else [])
  }

  function NtoaText(digits: seq<char>, negative: bool, base: nat, prec: nat, width: nat, flags: Flags): seq<char> {
    OutRevText(Scratch(digits, negative, base, prec, width, flags), PadWidth(width, negative, flags), flags)
  }

  /** The text of an integer conversion. */
  function NumberText(value: nat, negative: bool, base: nat, prec: nat, width: nat, flags: Flags): seq<char>
    requires 2 <= base <= 16
  {
    var f := if value == 0 then flags.(hash := false) else flags;
    NtoaText(ScratchDigits(value, base, f), negative, base, prec, width, f)
  }

  // ----- the width of a field

  /** Whether zero padding asks for more than the scratch buffer holds. */
  predicate ZerosFit(width: nat, flags: Flags) {
    flags.left || !flags.zeropad || width <= NTOA_BUFFER_SIZE
  }

  lemma TextLength(digits: seq<char>, negative: bool, base: nat, prec: nat, width: nat, flags: Flags)
    requires |digits| <= NTOA_BUFFER_SIZE && !flags.hash
    ensures var p := |Padded(digits, negative, prec, width, flags)|;
            var core := if HasSign(negative, flags) && p < NTOA_BUFFER_SIZE then p + 1 else p;
            |NtoaText(digits, negative, base, prec, width, flags)| ==
            if flags.left || !flags.zeropad then Max(core, width) else core
  {
  }

  /**
   Without '#', an integer conversion fills its field: as many characters as the width asks
   for and no more than the same conversion without a width needs. It does so exactly when
   zero padding does not ask for more than 32 characters.
   */
  lemma FieldWidthIff(value: nat, negative: bool, base: nat, prec: nat, width: nat, flags: Flags)
    requires 2 <= base <= 16 && !flags.hash
    ensures (|NumberText(value, negative, base, prec, width, flags)|
             == Max(width, |NumberText(value, negative, base, prec, 0, flags)|)) <==> ZerosFit(width, flags)
  {
    var d := ScratchDigits(value, base, flags);
    TextLength(d, negative, base, prec, width, flags);
    TextLength(d, negative, base, prec, 0, flags);
    PaddedLength(d, negative, prec, width, flags);
    PaddedLength(d, negative, prec, 0, flags);
    hide NtoaText, ScratchDigits, Padded;
  }

  lemma PaddedLength(digits: seq<char>, negative: bool, prec: nat, width: nat, flags: Flags)
    requires |digits| <= NTOA_BUFFER_SIZE
    ensures |Padded(digits, negative, prec, width, flags)| ==
            if flags.left then |digits|
            else
              var n := Max(|digits|, Min(prec, NTOA_BUFFER_SIZE));
              if flags.zeropad then Max(n, Min(PadWidth(width, negative, flags), NTOA_BUFFER_SIZE)) else n
  {
  }

  // ----- reading a number back

  function DigitValue(c: char): nat {
    if '0' <= c <= '9' then (c as int - '0' as int)
    else if 'a' <= c <= 'f' then (c as int - 'a' as int + 10)
    else if 'A' <= c <= 'F' then (c as int - 'A' as int + 10)
    else 0
  }

  /** The value of a digit string, most significant digit first; an empty one reads as 0. */
  function Horner(s: seq<char>, base: nat): nat
    decreases |s|
  {
    if s == [] then 0 else Horner(s[..|s| - 1], base) * base + DigitValue(s[|s| - 1])
  }

  function StripSpaces(s: seq<char>): seq<char>
    decreases |s|
  {
    if s == [] then [] else (if s[0] == ' ' then [] else [s[0]]) + StripSpaces(s[1..])
  }

  /** The number a field shows: spaces ignored, an optional sign, digits in the base. */
  function ReadBack(s: seq<char>, base: nat): int {
    ReadNumber(StripSpaces(s), base)
  }

  function ReadNumber(t: seq<char>, base: nat): int {
    if t == [] then 0
    else if t[0] == '-' then 0 - Horner(t[1..], base)
    else if t[0] == '+' then Horner(t[1..], base)
    else Horner(t, base)
  }

  lemma {:induction false} StripConcat(a: seq<char>, b: seq<char>)
    ensures StripSpaces(a + b) == StripSpaces(a) + StripSpaces(b)
    decreases |a|
  {
    if a == [] {
      assert a + b == b;
    } else {
      assert (a + b)[1..] == a[1..] + b;
      StripConcat(a[1..], b);
    }
  }

  lemma {:induction false} StripOnlySpaces(s: seq<char>)
    requires forall i :: 0 <= i < |s| ==> s[i] == ' '
    ensures StripSpaces(s) == []
    decreases |s|
  {
    if s != [] {
      StripOnlySpaces(s[1..]);
    }
  }

  lemma {:induction false} StripNoSpaces(s: seq<char>)
    requires forall i :: 0 <= i < |s| ==> s[i] != ' '
    ensures StripSpaces(s) == s
    decreases |s|
  {
    if s != [] {
      StripNoSpaces(s[1..]);
    }
  }

  lemma DigitCharValue(d: nat, uppercase: bool)
    requires d < 16
    ensures DigitValue(DigitChar(d, uppercase)) == d
    ensures DigitChar(d, uppercase) != ' ' && DigitChar(d, uppercase) != '-' && DigitChar(d, uppercase) != '+'
    ensures DigitChar(d, uppercase) == '0' <==> d == 0
  {
  }

  /** A string of digit characters, as far as reading back is concerned. */
  predicate Plain(s: seq<char>) {
    forall i :: 0 <= i < |s| ==> s[i] != ' ' && s[i] != '-' && s[i] != '+'
  }

  /** All digits of a value, most significant first; none for 0. */
  function AllDigits(value: nat, base: nat, uppercase: bool): seq<char>
    requires 2 <= base <= 16
    decreases value
  {
    if value == 0 then []
    else AllDigits(Quotient(value, base), base, uppercase) + [DigitChar(LastDigit(value, base), uppercase)]
  }

  lemma {:induction false} AllDigitsPlain(value: nat, base: nat, uppercase: bool)
    requires 2 <= base <= 16
    ensures Plain(AllDigits(value, base, uppercase))
    decreases value
  {
    if value != 0 {
      hide DigitChar, Quotient, LastDigit;
      DigitCharValue(LastDigit(value, base), uppercase);
      AllDigitsPlain(Quotient(value, base), base, uppercase);
    }
  }

  /** Digits denote their value. */
  lemma {:induction false} AllDigitsValue(value: nat, base: nat, uppercase: bool)
    requires 2 <= base <= 16
    ensures Horner(AllDigits(value, base, uppercase), base) == value
    decreases value
  {
    if value != 0 {
      hide DigitChar, DigitValue, Quotient, LastDigit;
      var front, d := AllDigits(Quotient(value, base), base, uppercase), DigitChar(LastDigit(value, base), uppercase);
      AllDigitsValue(Quotient(value, base), base, uppercase);
      DigitCharValue(LastDigit(value, base), uppercase);
      HornerAppend(front, d, base);
      QuotientStep(value, base);
    }
  }

  /** The characters of the sixteen digits, and what they read as. */
  lemma DigitLetters(k: nat)
    requires k < 16
    ensures DigitChar(k, false) == "0123456789abcdef"[k] && DigitChar(k, true) == "0123456789ABCDEF"[k]
    ensures DigitValue("0123456789abcdef"[k]) == k && DigitValue("0123456789ABCDEF"[k]) == k
  {
  }

  /** The digits of a value are digits of the base, small letters or capitals throughout. */
  lemma {:induction false} AllDigitsLetters(value: nat, base: nat, uppercase: bool, i: nat)
    requires 2 <= base <= 16 && i < |AllDigits(value, base, uppercase)|
    ensures var c := AllDigits(value, base, uppercase)[i];
            && DigitValue(c) < base
            && c == (if uppercase then "0123456789ABCDEF" else "0123456789abcdef")[DigitValue(c)]
    decreases value
  {
    hide Quotient, LastDigit, DigitChar, DigitValue;
    var front := AllDigits(Quotient(value, base), base, uppercase);
    if i < |front| {
      AllDigitsLetters(Quotient(value, base), base, uppercase, i);
    } else {
      DigitLetters(LastDigit(value, base));
    }
  }

  lemma HornerAppend(s: seq<char>, c: char, base: nat)
    ensures Horner(s + [c], base) == Horner(s, base) * base + DigitValue(c)
  {
    assert (s + [c])[..|s + [c]| - 1] == s;
  }

  /** The digit loop produces all digits in reverse when they fit the buffer. */
  lemma {:induction false} DigitsAreAll(value: nat, base: nat, uppercase: bool, n: nat)
    requires 2 <= base <= 16 && |AllDigits(value, base, uppercase)| <= n
    ensures Rev(Digits(value, base, uppercase, n)) == AllDigits(value, base, uppercase)
    decreases n
  {
    if value != 0 {
      hide DigitChar, Quotient, LastDigit;
      var d := DigitChar(LastDigit(value, base), uppercase);
      DigitsAreAll(Quotient(value, base), base, uppercase, n - 1);
      RevConcat([d], Digits(Quotient(value, base), base, uppercase, n - 1));
      assert Rev([d]) == [d];
    }
  }

  /** The first digit of a nonzero value is not 0. */
  lemma {:induction false} LeadingDigit(value: nat, base: nat, uppercase: bool)
    requires 2 <= base <= 16 && value > 0
    ensures AllDigits(value, base, uppercase) != [] && AllDigits(value, base, uppercase)[0] != '0'
    decreases value
  {
    hide DigitChar, Quotient, LastDigit;
    DigitCharValue(LastDigit(value, base), uppercase);
    if Quotient(value, base) == 0 {
      QuotientStep(value, base);
    } else {
      LeadingDigit(Quotient(value, base), base, uppercase);
    }
  }

  lemma {:induction false} HornerZeros(z: seq<char>, s: seq<char>, base: nat)
    requires forall i :: 0 <= i < |z| ==> z[i] == '0'
    ensures Horner(z + s, base) == Horner(s, base)
    decreases |z| + |s|
  {
    var t := z + s;
    if s != [] {
      assert t[..|t| - 1] == z + s[..|s| - 1];
      HornerZeros(z, s[..|s| - 1], base);
    } else if z != [] {
      assert t == z && z[..|z| - 1] + s == z[..|z| - 1];
      HornerZeros(z[..|z| - 1], s, base);
    }
  }

  function SignText(negative: bool, flags: Flags): (s: seq<char>)
    ensures |s| == if HasSign(negative, flags) then 1 else 0
  {
    if negative then ['-'] else if flags.plus then ['+'] else if flags.space then [' '] else []
  }

  /** Leading zeros of the scratch buffer: as far as the precision and zero padding ask, up to 32 characters. */
  function ZeroCount(nd: nat, negative: bool, prec: nat, width: nat, flags: Flags): nat
    requires nd <= NTOA_BUFFER_SIZE
  {
    if flags.left then 0
    else
      var n := Max(nd, Min(prec, NTOA_BUFFER_SIZE));
      (if flags.zeropad then Max(n, Min(PadWidth(width, negative, flags), NTOA_BUFFER_SIZE)) else n) - nd
  }

  /** The sign as far as the scratch buffer has room for it. */
  function SignShown(nd: nat, negative: bool, prec: nat, width: nat, flags: Flags): seq<char>
    requires nd <= NTOA_BUFFER_SIZE
  {
    if nd + ZeroCount(nd, negative, prec, width, flags) < NTOA_BUFFER_SIZE then SignText(negative, flags) else []
  }

  /** A body in a field of some width. */
  function Field(body: seq<char>, width: nat, flags: Flags): seq<char> {
    (if flags.left || flags.zeropad then [] else Repeat(' ', width - |body|)) + body
    + (if flags.left then Repeat(' ', width - |body|) else [])
  }

  /**
   Without '#' a field is spaces, sign, zeros, digits and spaces; the sign is lost when zeros
   and digits take all 32 places.
   */
  lemma FieldShape(digits: seq<char>, negative: bool, base: nat, prec: nat, width: nat, flags: Flags)
    requires |digits| <= NTOA_BUFFER_SIZE && !flags.hash
    ensures NtoaText(digits, negative, base, prec, width, flags) ==
            Field(SignShown(|digits|, negative, prec, width, flags)
                  + Repeat('0', ZeroCount(|digits|, negative, prec, width, flags)) + Rev(digits), width, flags)
  {
    var zeros := Repeat('0', ZeroCount(|digits|, negative, prec, width, flags));
    var sign := SignShown(|digits|, negative, prec, width, flags);
    ScratchShape(digits, negative, base, prec, width, flags);
    hide Repeat, Scratch, ZeroCount, SignShown;
    RevConcat(digits + zeros, sign);
    RevConcat(digits, zeros);
    RevRepeat('0', |zeros|);
    assert Rev(sign) == sign;
    assert sign + zeros + Rev(digits) == sign + (zeros + Rev(digits));
  }

  lemma ScratchShape(digits: seq<char>, negative: bool, base: nat, prec: nat, width: nat, flags: Flags)
    requires |digits| <= NTOA_BUFFER_SIZE && !flags.hash
    ensures var zeros := Repeat('0', ZeroCount(|digits|, negative, prec, width, flags));
            && zeros == Repeat('0', |zeros|)
            && Scratch(digits, negative, base, prec, width, flags)
               == digits + zeros + SignShown(|digits|, negative, prec, width, flags)
    ensures |SignShown(|digits|, negative, prec, width, flags)| <= 1
    ensures PadWidth(width, negative, flags) == width || (flags.zeropad && !flags.left)
  {
    PaddedShape(digits, negative, prec, width, flags);
    hide Padded, Repeat, ZeroCount;
  }

  lemma PaddedShape(digits: seq<char>, negative: bool, prec: nat, width: nat, flags: Flags)
    requires |digits| <= NTOA_BUFFER_SIZE
    ensures Padded(digits, negative, prec, width, flags)
            == digits + Repeat('0', ZeroCount(|digits|, negative, prec, width, flags))
  {
  }

  lemma RevRepeat(c: char, n: nat)
    ensures Rev(Repeat(c, n)) == Repeat(c, n)
  {
  }

  /** When the minus sign of a negative number survives. */
  predicate SignKept(negative: bool, prec: nat, width: nat, flags: Flags) {
    negative ==> flags.left || (prec < NTOA_BUFFER_SIZE && (!flags.zeropad || width <= NTOA_BUFFER_SIZE))
  }

  lemma StripField(body: seq<char>, width: nat, flags: Flags)
    ensures StripSpaces(Field(body, width, flags)) == StripSpaces(body)
  {
    var n := width - |body|;
    var before := if flags.left || flags.zeropad then [] else Repeat(' ', n);
    var after := if flags.left then Repeat(' ', n) else [];
    StripConcat(before + body, after);
    StripConcat(before, body);
    StripOnlySpaces(before);
    StripOnlySpaces(after);
  }

  /** Reading a sign, zeros and digits in this order. */
  lemma ReadBody(sign: seq<char>, z: nat, digits: seq<char>, base: nat)
    requires sign == [] || sign == ['-'] || sign == ['+'] || sign == [' ']
    requires Plain(digits)
    ensures ReadNumber(StripSpaces(sign + Repeat('0', z) + digits), base) ==
            if sign == ['-'] then 0 - Horner(digits, base) else Horner(digits, base)
  {
    var number := Repeat('0', z) + digits;
    NumberReads(z, digits, base);
    Associates(sign, Repeat('0', z), digits);
    hide Repeat, Horner, ReadNumber, StripSpaces, Plain;
    StripConcat(sign, number);
    StripSign(sign);
    ReadFront(StripSpaces(sign), number, base);
  }

  lemma Associates(a: seq<char>, b: seq<char>, c: seq<char>)
    ensures a + b + c == a + (b + c)
  {
  }

  lemma ReadFront(sign: seq<char>, number: seq<char>, base: nat)
    requires sign == [] || sign == ['-'] || sign == ['+']
    requires ReadNumber(number, base) == Horner(number, base)
    ensures ReadNumber(sign + number, base) == if sign == ['-'] then 0 - Horner(number, base) else Horner(number, base)
  {
    if sign == [] {
      assert [] + number == number;
    } else {
      assert (sign + number)[1..] == number;
    }
  }

  /** Leading zeros do not change how digits read. */
  lemma NumberReads(z: nat, digits: seq<char>, base: nat)
    requires Plain(digits)
    ensures StripSpaces(Repeat('0', z) + digits) == Repeat('0', z) + digits
    ensures ReadNumber(Repeat('0', z) + digits, base) == Horner(digits, base)
    ensures Horner(Repeat('0', z) + digits, base) == Horner(digits, base)
  {
    ZerosPlain(z, digits);
    HornerZeros(Repeat('0', z), digits, base);
    hide Horner, ReadNumber, StripSpaces;
    StripNoSpaces(Repeat('0', z) + digits);
    ReadPlain(Repeat('0', z) + digits, base);
  }

  lemma StripSign(sign: seq<char>)
    requires sign == [] || sign == ['-'] || sign == ['+'] || sign == [' ']
    ensures StripSpaces(sign) == if sign == [' '] then [] else sign
  {
    if sign == [' '] {
      StripOnlySpaces(sign);
    } else {
      StripNoSpaces(sign);
    }
  }

  lemma ReadPlain(t: seq<char>, base: nat)
    requires Plain(t)
    ensures ReadNumber(t, base) == Horner(t, base)
  {
  }

  /** The scratch digits backwards: all digits of the value, or what stands for 0. */
  lemma ScratchDigitsShape(value: nat, base: nat, flags: Flags)
    requires 2 <= base <= 16 && |AllDigits(value, base, flags.uppercase)| <= NTOA_BUFFER_SIZE
    ensures Rev(ScratchDigits(value, base, flags)) ==
            if value > 0 then AllDigits(value, base, flags.uppercase) else if flags.precision then [] else ['0']
  {
    if value > 0 {
      DigitsAreAll(value, base, flags.uppercase, NTOA_BUFFER_SIZE);
    }
  }

  lemma ZeroReads(base: nat)
    ensures Plain(['0']) && Horner(['0'], base) == 0
  {
    HornerAppend([], '0', base);
    assert [] + ['0'] == ['0'];
  }

  /** What the digits of a conversion read as, and that they are plain. */
  lemma ScratchDigitsRead(value: nat, base: nat, flags: Flags)
    requires 2 <= base <= 16 && |AllDigits(value, base, flags.uppercase)| <= NTOA_BUFFER_SIZE
    ensures Plain(Rev(ScratchDigits(value, base, flags)))
    ensures Horner(Rev(ScratchDigits(value, base, flags)), base) == value
    ensures value > 0 ==> |ScratchDigits(value, base, flags)| == |AllDigits(value, base, flags.uppercase)|
  {
    AllDigitsPlain(value, base, flags.uppercase);
    AllDigitsValue(value, base, flags.uppercase);
    ScratchDigitsShape(value, base, flags);
    ZeroReads(base);
    hide AllDigits, ScratchDigits;
  }

  /**
   The print/parse round trip without '#', over all flags, widths and precisions: the field
   reads back as the number exactly when the minus sign of a negative number is kept.
   */
  lemma RoundTripIff(value: nat, negative: bool, base: nat, prec: nat, width: nat, flags: Flags)
    requires 2 <= base <= 16 && !flags.hash && (negative ==> value > 0)
    requires |AllDigits(value, base, flags.uppercase)| <= if negative then NTOA_BUFFER_SIZE - 1 else NTOA_BUFFER_SIZE
    ensures (ReadBack(NumberText(value, negative, base, prec, width, flags), base)
             == if negative then 0 - value else value)
            <==> SignKept(negative, prec, width, flags)
  {
    var digits := ScratchDigits(value, base, flags);
    ScratchDigitsRead(value, base, flags);
    PlainNumber(value, negative, base, prec, width, flags);
    FieldReads(digits, negative, base, prec, width, flags);
    MinusShown(|digits|, negative, prec, width, flags);
    Concluded(SignShown(|digits|, negative, prec, width, flags), negative, value);
    hide ScratchDigits, NtoaText, NumberText, ReadBack, Horner, Rev, SignShown, SignKept, AllDigits;
  }

  /** Without '#' a field of plain digits reads as the number they denote, with the sign it shows. */
  lemma FieldReads(digits: seq<char>, negative: bool, base: nat, prec: nat, width: nat, flags: Flags)
    requires |digits| <= NTOA_BUFFER_SIZE && Plain(Rev(digits)) && !flags.hash
    ensures var n := Horner(Rev(digits), base);
            ReadBack(NtoaText(digits, negative, base, prec, width, flags), base)
            == if SignShown(|digits|, negative, prec, width, flags) == ['-'] then 0 - n else n
  {
    var nd := |digits|;
    FieldShape(digits, negative, base, prec, width, flags);
    var sign, z := SignShown(nd, negative, prec, width, flags), ZeroCount(nd, negative, prec, width, flags);
    hide NtoaText, Field, StripSpaces, ReadNumber, Repeat, Horner, Rev, ZeroCount, Plain;
    StripField(sign + Repeat('0', z) + Rev(digits), width, flags);
    ReadBody(sign, z, Rev(digits), base);
  }

  lemma Concluded(sign: seq<char>, negative: bool, value: nat)
    requires negative ==> value > 0
    requires !negative ==> sign != ['-']
    ensures ((if sign == ['-'] then 0 - value else value) == if negative then 0 - value else value)
            <==> (negative ==> sign == ['-'])
  {
  }

  lemma MinusShown(nd: nat, negative: bool, prec: nat, width: nat, flags: Flags)
    requires nd <= if negative then NTOA_BUFFER_SIZE - 1 else NTOA_BUFFER_SIZE
    ensures SignKept(negative, prec, width, flags)
            <==> (negative ==> SignShown(nd, negative, prec, width, flags) == ['-'])
    ensures !negative ==> SignShown(nd, negative, prec, width, flags) != ['-']
  {
  }

  // ----- how many digits a value has

  function Pow(b: nat, n: nat): nat
    decreases n
  {
    if n == 0 then 1 else b * Pow(b, n - 1)
  }

  lemma {:induction false} DigitCount(value: nat, b: nat, base: nat, uppercase: bool, n: nat)
    requires 2 <= b <= base <= 16 && value < Pow(b, n)
    ensures |AllDigits(value, base, uppercase)| <= n
    decreases n
  {
    if value > 0 {
      hide Quotient, DigitChar, LastDigit;
      QuotientStep(value, base);
      var q := Quotient(value, base);
      MulAtLeast(q, b, base);
      CancelLess(b, q, Pow(b, n - 1));
      DigitCount(q, b, base, uppercase, n - 1);
    }
  }

  lemma MulAtLeast(q: nat, a: nat, b: nat)
    requires a <= b
    ensures a * q <= q * b
  {
  }

  lemma CancelLess(b: nat, q: nat, p: nat)
    requires b * q < b * p
    ensures q < p
  {
  }

  /** In bases 8, 10 and 16 a 64-bit value has at most 22 digits, so the scratch buffer holds them and a sign. */
  lemma SixtyFourBits(value: nat, base: nat, uppercase: bool)
    requires 8 <= base <= 16 && value < 0x1_0000_0000_0000_0000
    ensures |AllDigits(value, base, uppercase)| <= 22
  {
    assert Pow(8, 11) == 0x2_0000_0000;
    PowSum(8, 11, 11);
    DigitCount(value, 8, base, uppercase, 22);
  }

  lemma {:induction false} PowSum(b: nat, m: nat, n: nat)
    ensures Pow(b, m + n) == Pow(b, m) * Pow(b, n)
    decreases m
  {
    if m > 0 {
      PowSum(b, m - 1, n);
      Associate(b, Pow(b, m - 1), Pow(b, n));
    }
  }

  lemma Associate(x: nat, y: nat, z: nat)
    ensures x * (y * z) == (x * y) * z
  {
  }

  lemma TwoTo32()
    ensures Pow(2, NTOA_BUFFER_SIZE) == 0x1_0000_0000
  {
    assert Pow(2, 4) == 16;
    PowSum(2, 4, 4);
    PowSum(2, 8, 8);
    PowSum(2, 16, 16);
  }

  /** In base 2 the scratch buffer holds the digits of 32 bits. */
  lemma ThirtyTwoBits(value: nat, uppercase: bool)
    requires value < 0x1_0000_0000
    ensures |AllDigits(value, 2, uppercase)| <= NTOA_BUFFER_SIZE
  {
    TwoTo32();
    DigitCount(value, 2, 2, uppercase, NTOA_BUFFER_SIZE);
  }

  lemma NextBound(h: nat, p: nat, b: nat, d: nat)
    requires h < p && d < b
    ensures h * b + d < b * p
  {
    assert h * b <= (p - 1) * b;
  }

  /** n digits denote less than base^n. */
  lemma {:induction false} DigitsBelow(value: nat, base: nat, uppercase: bool, n: nat)
    requires 2 <= base <= 16
    ensures Plain(Rev(Digits(value, base, uppercase, n)))
    ensures Horner(Rev(Digits(value, base, uppercase, n)), base) < Pow(base, n)
    decreases n
  {
    if value == 0 || n == 0 {
      assert Rev(Digits(value, base, uppercase, n)) == [];
      PowPositive(base, n);
    } else {
      hide DigitChar, DigitValue, Quotient, LastDigit, Horner, Plain;
      var q := Quotient(value, base);
      DigitsBelow(q, base, uppercase, n - 1);
      DigitBelow(Digits(q, base, uppercase, n - 1), LastDigit(value, base), base, uppercase, Pow(base, n - 1));
    }
  }

  lemma DigitBelow(rest: seq<char>, k: nat, base: nat, uppercase: bool, bound: nat)
    requires k < base <= 16 && Plain(Rev(rest)) && Horner(Rev(rest), base) < bound
    ensures var s := [DigitChar(k, uppercase)] + rest;
            Plain(Rev(s)) && Horner(Rev(s), base) < base * bound
  {
    var d := DigitChar(k, uppercase);
    DigitCharValue(k, uppercase);
    RevConcat([d], rest);
    assert Rev([d]) == [d];
    hide DigitChar, DigitValue, Horner, Rev;
    HornerAppend(Rev(rest), d, base);
    NextBound(Horner(Rev(rest), base), bound, base, k);
  }

  lemma {:induction false} PowPositive(b: nat, n: nat)
    requires b > 0
    ensures Pow(b, n) > 0
    decreases n
  {
    if n > 0 {
      PowPositive(b, n - 1);
      assert b * Pow(b, n - 1) > 0;
    }
  }

  /** In base 2 a larger value is cut to 32 digits and reads back as less than 2^32. */
  lemma CutReads(value: nat, prec: nat, width: nat, flags: Flags)
    requires value > 0 && !flags.hash
    ensures ReadBack(NumberText(value, false, 2, prec, width, flags), 2) < 0x1_0000_0000
  {
    var digits := Digits(value, 2, flags.uppercase, NTOA_BUFFER_SIZE);
    TwoTo32();
    DigitsBelow(value, 2, flags.uppercase, NTOA_BUFFER_SIZE);
    PlainNumber(value, false, 2, prec, width, flags);
    assert ScratchDigits(value, 2, flags) == digits;
    hide ScratchDigits, Digits, NtoaText, NumberText, ReadBack, Horner, Rev, Pow, SignShown;
    FieldReads(digits, false, 2, prec, width, flags);
  }

  // ----- section 7.19.6.1 of ISO/IEC 9899:1999

  /**
   Digits with leading zeros up to the precision in a field, padded in front of the prefix,
   behind it, or on the right.
   */
  function PrefixedField(prefix: seq<char>, d: seq<char>, prec: nat, width: nat, flags: Flags): seq<char> {
    var digits := Repeat('0', prec - |d|) + d;
    var fill := width - |prefix| - |digits|;
    if flags.left then prefix + digits + Repeat(' ', fill)
    else if flags.zeropad then prefix + Repeat('0', fill) + digits
    else Repeat(' ', fill) + prefix + digits
  }

  /**
   The field the standard asks for, without '#', given the digits of the value: at least
   as many digits as the precision says, a sign, and padding on the left, with zeros after
   the sign, or on the right.
   */
  function StandardField(d: seq<char>, negative: bool, prec: nat, width: nat, flags: Flags): seq<char> {
    PrefixedField(SignText(negative, flags), d, prec, width, flags)
  }

  /** The digits start from all digits of the value; 0 shows one digit unless a precision is given. */
  function StandardText(value: nat, negative: bool, base: nat, prec: nat, width: nat, flags: Flags): seq<char>
    requires 2 <= base <= 16
  {
    StandardField(if value == 0 && !flags.precision then ['0'] else AllDigits(value, base, flags.uppercase),
                  negative, prec, width, flags)
  }

  /** Flags as the interpreter passes them on: a precision switches zero padding off, and is 0 when not given. */
  predicate Normal(prec: nat, flags: Flags) {
    if flags.precision then !flags.zeropad else prec == 0
  }

  /**
   When the code produces the standard's field. Left-justified fields must not need
   leading zeros; zero padding and precision must not exceed the 32-character buffer, and
   a precision of exactly 32 leaves no room for a sign, unless the sign is a blank in
   front of which the field is padded with blanks anyway.
   */
  predicate Conforming(nd: nat, negative: bool, prec: nat, width: nat, flags: Flags) {
    if flags.left then prec <= nd
    else if flags.zeropad then width <= NTOA_BUFFER_SIZE
    else
      || prec < NTOA_BUFFER_SIZE
      || (prec == NTOA_BUFFER_SIZE &&
          (SignText(negative, flags) == [] || (SignText(negative, flags) == [' '] && width > NTOA_BUFFER_SIZE)))
  }

  /** The code's field for given digits, in one line. */
  function CodeField(d: seq<char>, negative: bool, prec: nat, width: nat, flags: Flags): seq<char>
    requires |d| <= NTOA_BUFFER_SIZE
  {
    Field(SignShown(|d|, negative, prec, width, flags) + Repeat('0', ZeroCount(|d|, negative, prec, width, flags)) + d,
      width, flags)
  }

  /**
   Digits as either conversion has them: no blanks, no sign, and no leading zero where a
   precision asks for more digits.
   */
  predicate GoodDigits(d: seq<char>, prec: nat) {
    |d| < NTOA_BUFFER_SIZE && Plain(d) && (0 < |d| < prec ==> d[0] != '0')
  }

  lemma LeftConforms(d: seq<char>, negative: bool, prec: nat, width: nat, flags: Flags)
    requires GoodDigits(d, prec) && flags.left
    ensures CodeField(d, negative, prec, width, flags) == StandardField(d, negative, prec, width, flags)
            <==> prec <= |d|
  {
    var sign := SignText(negative, flags);
    var code, std := CodeField(d, negative, prec, width, flags), StandardField(d, negative, prec, width, flags);
    assert code == sign + d + Repeat(' ', width - |sign| - |d|) by {
      assert Repeat('0', 0) == [] && [] + (sign + [] + d) == sign + d;
    }
    if prec <= |d| {
      assert Repeat('0', prec - |d|) + d == d;
    } else {
      assert std[|sign|] == '0';
      if |code| > |sign| {
        assert code[|sign|] != '0';
      }
    }
  }

  lemma ZeroPaddedConforms(d: seq<char>, negative: bool, width: nat, flags: Flags)
    requires GoodDigits(d, 0) && !flags.left && flags.zeropad
    ensures CodeField(d, negative, 0, width, flags) == StandardField(d, negative, 0, width, flags)
            <==> width <= NTOA_BUFFER_SIZE
  {
    var sign, nd := SignText(negative, flags), |d|;
    var code, std := CodeField(d, negative, 0, width, flags), StandardField(d, negative, 0, width, flags);
    var z := ZeroCount(nd, negative, 0, width, flags);
    assert Repeat('0', 0 - nd) + d == d;
    assert code == SignShown(nd, negative, 0, width, flags) + Repeat('0', z) + d;
    if width <= NTOA_BUFFER_SIZE {
      assert |Repeat('0', z)| == |Repeat('0', width - |sign| - nd)|;
      assert Repeat('0', z) == Repeat('0', width - |sign| - nd);
    } else {
      assert |code| == NTOA_BUFFER_SIZE && |std| >= width;
    }
  }

  /** A precision the buffer holds together with a sign. */
  lemma SmallPrecision(d: seq<char>, negative: bool, prec: nat, width: nat, flags: Flags)
    requires GoodDigits(d, prec) && !flags.left && !flags.zeropad && prec < NTOA_BUFFER_SIZE
    ensures CodeField(d, negative, prec, width, flags) == StandardField(d, negative, prec, width, flags)
  {
    var sign, zeros := SignText(negative, flags), Repeat('0', prec - |d|);
    SmallCounts(|d|, negative, prec, width, flags);
    hide SignText, SignShown, ZeroCount, Repeat, Plain;
    Regroup(Repeat(' ', width - |sign| - |zeros + d|), sign, zeros, d);
    assert |sign + zeros + d| == |sign| + |zeros + d|;
  }

  lemma SmallCounts(nd: nat, negative: bool, prec: nat, width: nat, flags: Flags)
    requires nd < NTOA_BUFFER_SIZE && !flags.left && !flags.zeropad && prec < NTOA_BUFFER_SIZE
    ensures Repeat('0', ZeroCount(nd, negative, prec, width, flags)) == Repeat('0', prec - nd)
    ensures SignShown(nd, negative, prec, width, flags) == SignText(negative, flags)
  {
    if prec < nd {
      assert ZeroCount(nd, negative, prec, width, flags) == 0;
      assert Repeat('0', 0) == [] == Repeat('0', prec - nd);
    } else {
      assert ZeroCount(nd, negative, prec, width, flags) == prec - nd;
    }
    hide SignText, Repeat;
  }

  lemma Regroup(a: seq<char>, b: seq<char>, c: seq<char>, d: seq<char>)
    ensures a + (b + c + d) + [] == a + b + (c + d)
  {
  }

  /** From a precision of 32 on the buffer is full of zeros and digits and the sign is lost. */
  lemma FullBuffer(d: seq<char>, negative: bool, prec: nat, width: nat, flags: Flags)
    requires GoodDigits(d, prec) && !flags.left && !flags.zeropad && prec >= NTOA_BUFFER_SIZE
    ensures CodeField(d, negative, prec, width, flags) ==
            Repeat(' ', width - NTOA_BUFFER_SIZE) + (Repeat('0', NTOA_BUFFER_SIZE - |d|) + d)
  {
    assert SignShown(|d|, negative, prec, width, flags) == [];
    assert [] + Repeat('0', NTOA_BUFFER_SIZE - |d|) + d == Repeat('0', NTOA_BUFFER_SIZE - |d|) + d;
  }

  lemma PrecisionThirtyTwo(body: seq<char>, sign: seq<char>, width: nat)
    requires |body| == NTOA_BUFFER_SIZE && |sign| <= 1
    ensures Repeat(' ', width - NTOA_BUFFER_SIZE) + body == Repeat(' ', width - |sign| - NTOA_BUFFER_SIZE) + sign + body
            <==> sign == [] || (sign == [' '] && width > NTOA_BUFFER_SIZE)
  {
    var code, std := Repeat(' ', width - NTOA_BUFFER_SIZE) + body,
      Repeat(' ', width - |sign| - NTOA_BUFFER_SIZE) + sign + body;
    if sign != [] && width > NTOA_BUFFER_SIZE {
      var at := width - 1 - NTOA_BUFFER_SIZE;
      assert std[at] == sign[0] && code[at] == ' ';
      if sign == [' '] {
        assert code == std;
      }
    }
  }

  lemma LargePrecision(body: seq<char>, sign: seq<char>, digits: seq<char>, width: nat, fill: int)
    requires |body| == NTOA_BUFFER_SIZE < |digits| && Plain(digits)
    ensures Repeat(' ', width - NTOA_BUFFER_SIZE) + body != Repeat(' ', fill) + sign + digits
  {
    var code, std := Repeat(' ', width - NTOA_BUFFER_SIZE) + body, Repeat(' ', fill) + sign + digits;
    if |std| == |code| {
      var at := |std| - NTOA_BUFFER_SIZE - 1;
      assert code[at] == ' ';
      assert std[at] == digits[|digits| - NTOA_BUFFER_SIZE - 1];
    }
  }

  lemma BlankPaddedConforms(d: seq<char>, negative: bool, prec: nat, width: nat, flags: Flags)
    requires GoodDigits(d, prec) && !flags.left && !flags.zeropad
    ensures CodeField(d, negative, prec, width, flags) == StandardField(d, negative, prec, width, flags)
            <==> Conforming(|d|, negative, prec, width, flags)
  {
    hide CodeField, Repeat, Plain;
    if prec < NTOA_BUFFER_SIZE {
      SmallPrecision(d, negative, prec, width, flags);
    } else {
      var sign, body, digits := SignText(negative, flags), Repeat('0', NTOA_BUFFER_SIZE - |d|) + d,
        Repeat('0', prec - |d|) + d;
      FullBuffer(d, negative, prec, width, flags);
      if prec == NTOA_BUFFER_SIZE {
        PrecisionThirtyTwo(body, sign, width);
      } else {
        ZerosPlain(prec - |d|, d);
        LargePrecision(body, sign, digits, width, width - |sign| - |digits|);
      }
    }
  }

  lemma ZerosPlain(n: int, d: seq<char>)
    requires Plain(d)
    ensures Plain(Repeat('0', n) + d)
  {
  }

  /**
   Without '#', in the standard's bases and for every value of up to 64 bits, flags, width
   and precision, the code produces the field of section 7.19.6.1 exactly when Conforming.
   */
  lemma ConformsIff(value: nat, negative: bool, base: nat, prec: nat, width: nat, flags: Flags)
    requires 8 <= base <= 16 && value < 0x1_0000_0000_0000_0000 && !flags.hash && Normal(prec, flags)
    ensures (NumberText(value, negative, base, prec, width, flags)
             == StandardText(value, negative, base, prec, width, flags))
            <==> Conforming(|ScratchDigits(value, base, flags)|, negative, prec, width, flags)
  {
    var d := Rev(ScratchDigits(value, base, flags));
    TextFields(value, negative, base, prec, width, flags);
    DigitsGood(value, base, prec, flags);
    hide NumberText, StandardText, ScratchDigits, Rev, CodeField, StandardField, GoodDigits;
    if flags.left {
      LeftConforms(d, negative, prec, width, flags);
    } else if flags.zeropad {
      ZeroPaddedConforms(d, negative, width, flags);
    } else {
      BlankPaddedConforms(d, negative, prec, width, flags);
    }
  }

  /** Both texts are fields around the same digits. */
  lemma TextFields(value: nat, negative: bool, base: nat, prec: nat, width: nat, flags: Flags)
    requires 8 <= base <= 16 && value < 0x1_0000_0000_0000_0000 && !flags.hash
    ensures var d := Rev(ScratchDigits(value, base, flags));
            && |d| <= NTOA_BUFFER_SIZE
            && NumberText(value, negative, base, prec, width, flags) == CodeField(d, negative, prec, width, flags)
            && StandardText(value, negative, base, prec, width, flags) == StandardField(d, negative, prec, width, flags)
  {
    SixtyFourBits(value, base, flags.uppercase);
    ScratchDigitsShape(value, base, flags);
    assert value == 0 ==> AllDigits(value, base, flags.uppercase) == [];
    PlainNumber(value, negative, base, prec, width, flags);
    FieldShape(ScratchDigits(value, base, flags), negative, base, prec, width, flags);
    hide ScratchDigits, NtoaText, NumberText, Field, StandardField, AllDigits, SignShown, ZeroCount, Repeat;
  }

  lemma PlainNumber(value: nat, negative: bool, base: nat, prec: nat, width: nat, flags: Flags)
    requires 2 <= base <= 16 && !flags.hash
    ensures NumberText(value, negative, base, prec, width, flags)
            == NtoaText(ScratchDigits(value, base, flags), negative, base, prec, width, flags)
  {
    hide NtoaText, ScratchDigits;
  }

  lemma DigitsGood(value: nat, base: nat, prec: nat, flags: Flags)
    requires 8 <= base <= 16 && value < 0x1_0000_0000_0000_0000 && Normal(prec, flags)
    ensures GoodDigits(Rev(ScratchDigits(value, base, flags)), prec)
    ensures |ScratchDigits(value, base, flags)| < NTOA_BUFFER_SIZE
  {
    SixtyFourBits(value, base, flags.uppercase);
    ScratchDigitsShape(value, base, flags);
    AllDigitsPlain(value, base, flags.uppercase);
    if value > 0 {
      LeadingDigit(value, base, flags.uppercase);
    }
    hide AllDigits, ScratchDigits;
  }
}
