/**
 The format interpreter of the tiny printf as a function from a format and arguments to
 the text it emits: flags, width, precision and length of each conversion, then the
 conversion itself. A format is the rest of the string the moving format pointer still
 has before it, without the terminator. Types have the sizes of 64-bit RISC-V, where
 plain char is unsigned.
 */
module PrintfFormat {
  import opened CTypes
  import opened Options
  import opened PrintfNumber
  import opened Sequences

  /** A variable argument: an integer or pointer, of which va_arg takes the low bits, or a C string. */
  datatype Arg = Number(value: int) | Text(chars: seq<char>)

  const SIZE_MAX: nat := 0xFFFF_FFFF_FFFF_FFFF

  // ----- parsing a conversion

  /** Where the interpreter is: what it knows of the conversion, and the format and arguments still ahead. */
  datatype Cursor = Cursor(flags: Flags, width: nat, precision: nat, format: seq<char>, args: seq<Arg>)

  predicate IsFlag(c: char) { c == '0' || c == '-' || c == '+' || c == ' ' || c == '#' }

  /** The bit of a flag character or-ed in. */
  function SetFlag(c: char, f: Flags): Flags {
    Flags(f.zeropad || c == '0', f.left || c == '-', f.plus || c == '+', f.space || c == ' ', f.hash || c == '#',
          f.uppercase, f.isChar, f.isShort, f.isLong, f.isLongLong, f.precision)
  }

  function ParseFlags(c: Cursor): (r: Cursor)
    ensures |r.format| <= |c.format|
    decreases |c.format|
  {
    if c.format != [] && IsFlag(c.format[0]) then
      ParseFlags(c.(flags := SetFlag(c.format[0], c.flags), format := c.format[1..]))
    else c
  }

  predicate IsDigit(c: char) { '0' <= c <= '9' }

  predicate StartsWithDigit(f: seq<char>) { f != [] && IsDigit(f[0]) }

  predicate StartsWith(f: seq<char>, c: char) { f != [] && f[0] == c }

  /** Decimal digits into an unsigned int, which wraps, and the format after them. */
  function Atoi(f: seq<char>, i: nat): (r: (nat, seq<char>))
    ensures |r.1| <= |f| && (Fits(UINT, i) ==> Fits(UINT, r.0))
    decreases |f|
  {
    if StartsWithDigit(f) then Atoi(f[1..], Convert(UINT, i * 10 + DigitValue(f[0]))) else (i, f)
  }

  /** The next argument as an int. */
  function NextInt(args: seq<Arg>): Option<int> {
    if args != [] && args[0].Number? then Some(Convert(INT, args[0].value)) else None
  }

  /**
   A width from an argument, negative for left justification; undefined when missing, not an
   int, or without negation.
   */
  function StarWidth(c: Cursor): (r: Option<Cursor>)
    ensures r.Some? ==> r.value.format == c.format
  {
    var w := NextInt(c.args);
    if w.None? || w.value == Least(INT) then None
    else if w.value < 0 then Some(c.(flags := c.flags.(left := true), width := 0 - w.value, args := c.args[1..]))
    else Some(c.(width := w.value, args := c.args[1..]))
  }

  function ParseWidth(c: Cursor): (r: Option<Cursor>)
    ensures r.Some? ==> |r.value.format| <= |c.format|
  {
    if StartsWithDigit(c.format) then
      var (n, rest) := Atoi(c.format, 0);
      Some(c.(width := n, format := rest))
    else if StartsWith(c.format, '*') then StarWidth(c.(format := c.format[1..]))
    else Some(c)
  }

  /** A precision from an argument; a negative one counts as 0. */
  function StarPrecision(c: Cursor): (r: Option<Cursor>)
    ensures r.Some? ==> r.value.format == c.format
  {
    var p := NextInt(c.args);
    if p.None? then None else Some(c.(precision := if p.value > 0 then p.value else 0, args := c.args[1..]))
  }

  /** What follows the point: digits, an argument, or nothing. */
  function ParseAmount(d: Cursor): (r: Option<Cursor>)
    ensures r.Some? ==> |r.value.format| <= |d.format|
  {
    if StartsWithDigit(d.format) then
      var (n, rest) := Atoi(d.format, 0);
      Some(d.(precision := n, format := rest))
    else if StartsWith(d.format, '*') then StarPrecision(d.(format := d.format[1..]))
    else Some(d)
  }

  function ParsePrecision(c: Cursor): (r: Option<Cursor>)
    ensures r.Some? ==> |r.value.format| <= |c.format|
  {
    if StartsWith(c.format, '.') then ParseAmount(c.(flags := c.flags.(precision := true), format := c.format[1..]))
    else Some(c)
  }

  datatype Length = Plainly | L | LL | H | HH | T | J | Z

  function ShowLength(l: Length): seq<char> {
    match l
    case Plainly => []
    case L => ['l']
    case LL => ['l', 'l']
    case H => ['h']
    case HH => ['h', 'h']
    case T => ['t']
    case J => ['j']
    case Z => ['z']
  }

  /** The length modifier at the front of a format. */
  function LengthAt(f: seq<char>): (l: Length)
    ensures |ShowLength(l)| <= |f|
  {
    if StartsWith(f, 'l') then if StartsWith(f[1..], 'l') then LL else L
    else if StartsWith(f, 'h') then if StartsWith(f[1..], 'h') then HH else H
    else if StartsWith(f, 't') then T
    else if StartsWith(f, 'j') then J
    else if StartsWith(f, 'z') then Z
    else Plainly
  }

  /** Where long has 64 bits, 't', 'j' and 'z' stand for it. */
  function AddLength(l: Length, f: Flags): Flags {
    Flags(f.zeropad, f.left, f.plus, f.space, f.hash, f.uppercase,
          f.isChar || l.HH?, f.isShort || l.H? || l.HH?, f.isLong || l.L? || l.LL? || l.T? || l.J? || l.Z?,
          f.isLongLong || l.LL?, f.precision)
  }

  function ParseLength(c: Cursor): (r: Cursor)
    ensures |r.format| <= |c.format|
  {
    var l := LengthAt(c.format);
    c.(flags := AddLength(l, c.flags), format := c.format[|ShowLength(l)|..])
  }

  /** A conversion after its '%', up to and without the specifier. */
  function Parse(c: Cursor): (r: Option<Cursor>)
    ensures r.Some? ==> |r.value.format| <= |c.format|
  {
    var w := ParseWidth(ParseFlags(c));
    if w.None? then None
    else
      var p := ParsePrecision(w.value);
      if p.None? then None else Some(ParseLength(p.value))
  }

  // ----- the conversions

  predicate IsSigned(c: char) { c == 'd' || c == 'i' }

  predicate IsInteger(c: char) { c in "diuxXob" }

  function Base(c: char): (b: nat)
    ensures 2 <= b <= 16
  {
    if c == 'x' || c == 'X' then 16 else if c == 'o' then 8 else if c == 'b' then 2 else 10
  }

  /** '#' cleared for decimal, uppercase set for X, '+' and ' ' cleared for unsigned, '0' cleared by a precision. */
  function IntegerFlags(c: char, f: Flags): Flags {
    Flags(f.zeropad && !f.precision, f.left, f.plus && IsSigned(c), f.space && IsSigned(c), f.hash && Base(c) != 10,
          f.uppercase || c == 'X', f.isChar, f.isShort, f.isLong, f.isLongLong, f.precision)
  }

  /** The type an argument is narrowed to by its length modifier, and the one a signed value is negated in. */
  function ArgumentType(c: char, flags: Flags): CType {
    if flags.isLongLong || flags.isLong then CType(IsSigned(c), W64)
    else if flags.isChar then UCHAR
    else if flags.isShort then CType(IsSigned(c), W16)
    else CType(IsSigned(c), W32)
  }

  /** Whether the magnitude of a signed value is defined: the least value of its promoted type has no negation. */
  predicate Negatable(v: int, t: CType) { t.signed ==> v != Least(Promote(t)) }

  function Magnitude(v: int): nat { if v > 0 then v else 0 - v }

  /** A length as strnlen counts it, in an unsigned int. */
  function Strnlen(s: seq<char>, maxsize: nat): (n: nat) { Convert(UINT, Min(|s|, maxsize)) }

  /** The length the padding of a string starts from. */
  function StringLength(s: seq<char>, flags: Flags, precision: nat): nat {
    var l := Strnlen(s, if precision > 0 then precision else SIZE_MAX);
    if flags.precision then Min(l, precision) else l
  }

  function StringShown(s: seq<char>, flags: Flags, precision: nat): seq<char> {
    if flags.precision then s[..Min(|s|, precision)] else s
  }

  function PaddedText(body: seq<char>, l: nat, width: nat, flags: Flags): seq<char> {
    (if flags.left then [] else Repeat(' ', width - l)) + body + (if flags.left then Repeat(' ', width - l) else [])
  }

  datatype Rendered = Rendered(text: seq<char>, args: seq<Arg>)

  /**
   What a conversion emits and the arguments it leaves. Undefined: a missing argument or one
   of the wrong kind, the most negative signed value, and the floating conversions. Any
   other character stands for itself.
   */
  function Emit(c: Cursor): Option<Rendered>
    requires c.format != []
  {
    var s := c.format[0];
    if s in "fFeEgG" then None
    else if IsInteger(s) then
      if c.args == [] || c.args[0].Text? then None
      else
        var t := ArgumentType(s, c.flags);
        var v := Convert(t, c.args[0].value);
        if !Negatable(v, t) then None
        else
          Some(Rendered(NumberText(Magnitude(v), v < 0, Base(s), c.precision, c.width, IntegerFlags(s, c.flags)),
                        c.args[1..]))
    else if s == 'c' then
      if c.args == [] || c.args[0].Text? then None
      else Some(Rendered(PaddedText([Convert(UCHAR, c.args[0].value) as char], 1, c.width, c.flags), c.args[1..]))
    else if s == 's' then
      if c.args == [] || c.args[0].Number? then None
      else
        var t := c.args[0].chars;
        Some(Rendered(PaddedText(StringShown(t, c.flags, c.precision), StringLength(t, c.flags, c.precision),
                                 c.width, c.flags), c.args[1..]))
    else if s == 'p' then
      if c.args == [] || c.args[0].Text? then None
      else
        Some(Rendered(NumberText(Convert(ULONG, c.args[0].value), false, 16, c.precision, ADDRESS_DIGITS,
                                 c.flags.(zeropad := true, uppercase := true)), c.args[1..]))
    else Some(Rendered([s], c.args))
  }

  const ADDRESS_DIGITS: nat := 16

  function Start(format: seq<char>, args: seq<Arg>): Cursor { Cursor(NO_FLAGS, 0, 0, format, args) }

  function Prepend(text: seq<char>, r: Option<Rendered>): Option<Rendered> {
    if r.None? then None else Some(Rendered(text + r.value.text, r.value.args))
  }

  /** The text of a format; undefined when it ends inside a conversion. */
  function Render(format: seq<char>, args: seq<Arg>): Option<Rendered>
    decreases |format|
  {
    if format == [] then Some(Rendered([], args))
    else if format[0] != '%' then Prepend([format[0]], Render(format[1..], args))
    else
      var c := Parse(Start(format[1..], args));
      if c.None? || c.value.format == [] then None
      else
        var r := Emit(c.value);
        if r.None? then None else Prepend(r.value.text, Render(c.value.format[1..], r.value.args))
  }
}
