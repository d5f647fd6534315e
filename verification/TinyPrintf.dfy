/**
 The tiny printf as it runs: a moving format pointer, digits written into a 32-character
 scratch buffer, and characters sent one at a time with a running index to a sink: a
 buffer of bounded size, nothing at all, or a stream. Each method is tied to the text
 the interpreter defines.
 */
module TinyPrintf {
  import opened CTypes
  import opened Options
  import opened PrintfNumber
  import opened PrintfFormat
  import opened Sequences

  // ----- sinks

  /** What a stream shows of a text: everything but NUL. */
  function Printable(text: seq<char>): seq<char>
    decreases |text|
  {
    if text == [] then []
    else Printable(text[..|text| - 1]) + (if text[|text| - 1] == '\0' then [] else [text[|text| - 1]])
  }

  /** Memory after a text has been written at its start, no further than maxlen. */
  function Stored(initial: seq<char>, text: seq<char>, maxlen: nat): (r: seq<char>)
    ensures |r| == |initial|
    ensures forall i :: 0 <= i < |r| ==> r[i] == if i < |text| && i < maxlen then text[i] else initial[i]
  {
    seq(|initial|, i requires 0 <= i < |initial| => if i < |text| && i < maxlen then text[i] else initial[i])
  }

  class Sink {
    const buffer: array?<char>
    const maxlen: nat
    const isStream: bool
    var stream: seq<char>
    ghost const initial: seq<char>
    ghost var text: seq<char>

    ghost predicate Valid()
      reads this, buffer
    {
      && (!isStream && buffer != null ==> maxlen <= buffer.Length && buffer[..] == Stored(initial, text, maxlen))
      && (isStream ==> stream == Printable(text))
    }

    constructor (buffer: array?<char>, maxlen: nat, isStream: bool)
      requires !isStream && buffer != null ==> maxlen <= buffer.Length
      ensures Valid() && text == [] && this.buffer == buffer && this.maxlen == maxlen && this.isStream == isStream
      ensures buffer != null ==> initial == buffer[..]
    {
      this.buffer := buffer;
      this.maxlen := maxlen;
      this.isStream := isStream;
      stream := [];
      text := [];
      initial := if buffer == null then [] else buffer[..];
    }

    /** The output function: store below maxlen, drop, or print. */
    method Put(c: char, idx: nat)
      requires !isStream && buffer != null ==> maxlen <= buffer.Length
      modifies this`stream, buffer
      ensures isStream ==> stream == old(stream) + (if c == '\0' then [] else [c])
      ensures isStream && buffer != null ==> buffer[..] == old(buffer[..])
      ensures !isStream ==> stream == old(stream)
      ensures !isStream && buffer != null ==>
                buffer[..] == if idx < maxlen then old(buffer[..])[idx := c] else old(buffer[..])
    {
      if isStream {
        if c != '\0' {
          stream := stream + [c];
        }
      } else if buffer != null && idx < maxlen {
        buffer[idx] := c;
      }
    }

    /** One more character of the text. */
    method Out(c: char, idx: nat) returns (next: nat)
      requires Valid() && idx == |text|
      modifies this, buffer
      ensures Valid() && text == old(text) + [c] && next == |text|
    {
      Put(c, idx);
      ghost var was := text;
      text := text + [c];
      next := idx + 1;
      assert text[..|text| - 1] == was;
    }
  }

  // ----- padding and reversal

  /** Blanks while a length counts up to a width. */
  method PadSpaces(sink: Sink, idx: nat, l: nat, width: nat) returns (next: nat)
    requires sink.Valid() && idx == |sink.text|
    modifies sink, sink.buffer
    ensures sink.Valid() && sink.text == old(sink.text) + Repeat(' ', width - l) && next == |sink.text|
  {
    next := idx;
    var i := l;
    while i < width
      invariant sink.Valid() && next == |sink.text|
      invariant l <= i && (i <= width || i == l)
      invariant sink.text == old(sink.text) + Repeat(' ', i - l)
    {
      ghost var was := sink.text;
      next := sink.Out(' ', next);
      RepeatOne(' ', i - l);
      assert was + [' '] == old(sink.text) + (Repeat(' ', i - l) + [' ']);
      i := i + 1;
    }
    assert width <= l ==> Repeat(' ', width - l) == [] == Repeat(' ', i - l);
  }

  lemma RepeatOne(c: char, n: nat)
    ensures Repeat(c, n) + [c] == Repeat(c, n + 1)
  {
  }

  /** Characters sent last one first. */
  method OutBackwards(sink: Sink, idx: nat, buf: array<char>, length: nat) returns (next: nat)
    requires sink.Valid() && idx == |sink.text| && buf != sink.buffer && length <= buf.Length
    modifies sink, sink.buffer
    ensures sink.Valid() && sink.text == old(sink.text) + Rev(buf[..length]) && next == |sink.text|
  {
    next := idx;
    var len := length;
    assert Rev(buf[..length])[..0] == [];
    while len > 0
      invariant 0 <= len <= length
      invariant sink.Valid() && next == |sink.text|
      invariant buf[..] == old(buf[..])
      invariant sink.text == old(sink.text) + Rev(buf[..length])[..length - len]
    {
      len := len - 1;
      next := sink.Out(buf[len], next);
      assert Rev(buf[..length])[..length - len] == Rev(buf[..length])[..length - len - 1] + [buf[len]];
    }
    assert Rev(buf[..length])[..length] == Rev(buf[..length]);
  }

  method OutRev(sink: Sink, idx: nat, buf: array<char>, length: nat, width: nat, flags: Flags) returns (next: nat)
    requires sink.Valid() && idx == |sink.text| && buf != sink.buffer && length <= buf.Length
    modifies sink, sink.buffer
    ensures sink.Valid() && sink.text == old(sink.text) + OutRevText(old(buf[..length]), width, flags)
            && next == |sink.text|
  {
    next := idx;
    ghost var text, b := sink.text, buf[..length];
    if !flags.left && !flags.zeropad {
      next := PadSpaces(sink, next, length, width);
    }
    ghost var before := sink.text;
    next := OutBackwards(sink, next, buf, length);
    if flags.left {
      next := PadSpaces(sink, next, next - idx, width);
    }
    assert sink.text == text + OutRevText(b, width, flags);
  }

  // ----- integers

  /** Zeros written after the digits up to a length the scratch buffer holds. */
  method AppendZeros(buf: array<char>, length: nat, upto: nat) returns (len: nat)
    requires buf.Length == NTOA_BUFFER_SIZE && length <= buf.Length
    modifies buf
    ensures len <= buf.Length && buf[..len] == FillZeros(old(buf[..length]), upto)
  {
    len := length;
    assert Repeat('0', 0) == [];
    while len < upto && len < NTOA_BUFFER_SIZE
      invariant length <= len <= buf.Length
      invariant len <= Max(length, upto)
      invariant buf[..len] == old(buf[..length]) + Repeat('0', len - length)
    {
      RepeatOne('0', len - length);
      buf[len] := '0';
      len := len + 1;
    }
  }

  /** One character after the others, if there is room. */
  method Append(buf: array<char>, length: nat, c: char) returns (len: nat)
    requires buf.Length == NTOA_BUFFER_SIZE && length <= buf.Length
    modifies buf
    ensures len <= buf.Length && buf[..len] == Push(old(buf[..length]), c)
  {
    len := length;
    if len < NTOA_BUFFER_SIZE {
      buf[len] := c;
      len := len + 1;
    }
  }

  method NtoaFormat(sink: Sink, idx: nat, buf: array<char>, length: nat, negative: bool, base: nat, prec: nat,
                    width: nat, flags: Flags)
    returns (next: nat)
    requires sink.Valid() && idx == |sink.text| && buf != sink.buffer
    requires buf.Length == NTOA_BUFFER_SIZE && length <= buf.Length
    modifies sink, sink.buffer, buf
    ensures sink.Valid() && next == |sink.text|
    ensures sink.text == old(sink.text) + NtoaText(old(buf[..length]), negative, base, prec, width, flags)
  {
    hide FillZeros, Push, Repeat, OutRevText;
    var len, field := length, width;
    if !flags.left {
      if width > 0 && flags.zeropad && (negative || flags.plus || flags.space) {
        field := width - 1;
      }
      len := AppendZeros(buf, len, prec);
      if flags.zeropad {
        len := AppendZeros(buf, len, field);
      }
    }
    assert buf[..len] == Padded(old(buf[..length]), negative, prec, width, flags);
    assert field == PadWidth(width, negative, flags);
    len := AppendHash(buf, len, base, prec, field, flags);
    if negative {
      len := Append(buf, len, '-');
    } else if flags.plus {
      len := Append(buf, len, '+');
    } else if flags.space {
      len := Append(buf, len, ' ');
    }
    assert buf[..len] == Scratch(old(buf[..length]), negative, base, prec, width, flags) by {
      hide Padded, PadWidth, Hashed;
    }
    next := OutRev(sink, idx, buf, len, field, flags);
  }

  /** The '#' prefix, over the last one or two zeros of a field the digits fill. */
  method AppendHash(buf: array<char>, length: nat, base: nat, prec: nat, width: nat, flags: Flags) returns (len: nat)
    requires buf.Length == NTOA_BUFFER_SIZE && length <= buf.Length
    modifies buf
    ensures len <= buf.Length && buf[..len] == Hashed(old(buf[..length]), base, prec, width, flags)
  {
    hide Push;
    len := length;
    if flags.hash {
      if !flags.precision && len > 0 && (len == prec || len == width) {
        len := len - 1;
        if len > 0 && base == 16 {
          len := len - 1;
        }
      }
      assert buf[..len] == old(buf[..length])[..len];
      if base == 16 && !flags.uppercase {
        len := Append(buf, len, 'x');
      } else if base == 16 && flags.uppercase {
        len := Append(buf, len, 'X');
      } else if base == 2 {
        len := Append(buf, len, 'b');
      }
      len := Append(buf, len, '0');
    }
  }

  /** An integer of type long or long long, for which the code has the same function twice. */
  method NtoaLong(sink: Sink, idx: nat, value: nat, negative: bool, base: nat, prec: nat, width: nat, flags: Flags)
    returns (next: nat)
    requires sink.Valid() && idx == |sink.text| && 2 <= base <= 16
    modifies sink, sink.buffer
    ensures sink.Valid() && next == |sink.text|
    ensures sink.text == old(sink.text) + NumberText(value, negative, base, prec, width, flags)
  {
    hide NtoaText, Digits, NumberText, ScratchDigits, Stored, Printable;
    var buf := new char[NTOA_BUFFER_SIZE];
    var f := if value == 0 then flags.(hash := false) else flags;
    var len := FillScratch(buf, value, base, f);
    TextOfDigits(value, negative, base, prec, width, flags);
    next := NtoaFormat(sink, idx, buf, len, negative, base, prec, width, f);
  }

  /** The digits of the value, unless it is 0 and a precision is given. */
  method FillScratch(buf: array<char>, value: nat, base: nat, flags: Flags) returns (len: nat)
    requires buf.Length == NTOA_BUFFER_SIZE && 2 <= base <= 16
    modifies buf
    ensures len <= buf.Length && buf[..len] == ScratchDigits(value, base, flags)
  {
    len := 0;
    if !flags.precision || value > 0 {
      len := WriteDigits(buf, value, base, flags);
    }
  }

  lemma TextOfDigits(value: nat, negative: bool, base: nat, prec: nat, width: nat, flags: Flags)
    requires 2 <= base <= 16
    ensures var f := if value == 0 then flags.(hash := false) else flags;
            NumberText(value, negative, base, prec, width, flags)
            == NtoaText(ScratchDigits(value, base, f), negative, base, prec, width, f)
  {
    hide NtoaText, ScratchDigits;
  }

  /** The digit loop, least significant digit first; its body runs once even for 0. */
  method WriteDigits(buf: array<char>, value: nat, base: nat, flags: Flags) returns (len: nat)
    requires buf.Length == NTOA_BUFFER_SIZE && 2 <= base <= 16
    modifies buf
    ensures len <= buf.Length
    ensures buf[..len] == if value == 0 then ['0'] else Digits(value, base, flags.uppercase, NTOA_BUFFER_SIZE)
  {
    hide Quotient, LastDigit, DigitChar, Digits;
    buf[0] := DigitChar(LastDigit(value, base), flags.uppercase);
    len := 1;
    var v := Quotient(value, base);
    FirstDigit(value, base, flags.uppercase);
    ghost var all := if value == 0 then ['0'] else Digits(value, base, flags.uppercase, NTOA_BUFFER_SIZE);
    assert buf[..1] == [buf[0]];
    while v > 0 && len < NTOA_BUFFER_SIZE
      invariant 1 <= len <= NTOA_BUFFER_SIZE
      invariant buf[..len] + Digits(v, base, flags.uppercase, NTOA_BUFFER_SIZE - len) == all
      decreases NTOA_BUFFER_SIZE - len
    {
      ghost var front := buf[..len];
      DigitMoved(front, v, base, flags.uppercase, NTOA_BUFFER_SIZE - len);
      buf[len] := DigitChar(LastDigit(v, base), flags.uppercase);
      assert buf[..len + 1] == front + [buf[len]];
      v := Quotient(v, base);
      len := len + 1;
    }
    NoDigits(v, base, flags.uppercase, NTOA_BUFFER_SIZE - len);
    assert buf[..len] + [] == buf[..len];
  }

  /** The digit the loop moves into the buffer is the next of those still missing. */
  lemma DigitMoved(front: seq<char>, value: nat, base: nat, uppercase: bool, n: nat)
    requires 2 <= base <= 16 && value > 0 && n > 0
    ensures front + [DigitChar(LastDigit(value, base), uppercase)]
            + Digits(Quotient(value, base), base, uppercase, n - 1)
            == front + Digits(value, base, uppercase, n)
  {
    var d, rest := DigitChar(LastDigit(value, base), uppercase), Digits(Quotient(value, base), base, uppercase, n - 1);
    assert Digits(value, base, uppercase, n) == [d] + rest;
    hide Digits, Quotient, LastDigit;
    assert front + [d] + rest == front + ([d] + rest);
  }

  lemma NoDigits(value: nat, base: nat, uppercase: bool, n: nat)
    requires 2 <= base <= 16 && (value == 0 || n == 0)
    ensures Digits(value, base, uppercase, n) == []
  {
  }

  lemma FirstDigit(value: nat, base: nat, uppercase: bool)
    requires 2 <= base <= 16
    ensures [DigitChar(LastDigit(value, base), uppercase)]
            + Digits(Quotient(value, base), base, uppercase, NTOA_BUFFER_SIZE - 1)
            == if value == 0 then ['0'] else Digits(value, base, uppercase, NTOA_BUFFER_SIZE)
  {
    if value == 0 {
      assert LastDigit(0, base) == 0 && Quotient(0, base) == 0;
    }
  }

  // ----- the pieces of a conversion

  method ReadFlags(c: Cursor) returns (r: Cursor)
    ensures r == ParseFlags(c)
  {
    r := c;
    while r.format != [] && IsFlag(r.format[0])
      invariant ParseFlags(r) == ParseFlags(c)
      decreases |r.format|
    {
      r := r.(flags := SetFlag(r.format[0], r.flags), format := r.format[1..]);
    }
  }

  method ReadNumber(str: seq<char>) returns (i: nat, rest: seq<char>)
    ensures (i, rest) == Atoi(str, 0)
  {
    i, rest := 0, str;
    while StartsWithDigit(rest)
      invariant Atoi(rest, i) == Atoi(str, 0)
      decreases |rest|
    {
      i, rest := Convert(UINT, i * 10 + DigitValue(rest[0])), rest[1..];
    }
  }

  method ReadWidth(c: Cursor) returns (r: Cursor)
    requires ParseWidth(c).Some?
    ensures r == ParseWidth(c).value
  {
    hide Atoi, Convert;
    r := c;
    if StartsWithDigit(r.format) {
      var n, rest := ReadNumber(r.format);
      r := r.(width := n, format := rest);
    } else if StartsWith(r.format, '*') {
      var w := Convert(INT, r.args[0].value);
      if w < 0 {
        r := r.(flags := r.flags.(left := true), width := 0 - w);
      } else {
        r := r.(width := w);
      }
      r := r.(format := r.format[1..], args := r.args[1..]);
    }
  }

  method ReadPrecision(c: Cursor) returns (r: Cursor)
    requires ParsePrecision(c).Some?
    ensures r == ParsePrecision(c).value
  {
    hide Atoi, Convert;
    r := c;
    if StartsWith(r.format, '.') {
      r := r.(flags := r.flags.(precision := true), format := r.format[1..]);
      if StartsWithDigit(r.format) {
        var n, rest := ReadNumber(r.format);
        r := r.(precision := n, format := rest);
      } else if StartsWith(r.format, '*') {
        var p := Convert(INT, r.args[0].value);
        r := r.(precision := if p > 0 then p else 0, format := r.format[1..], args := r.args[1..]);
      }
    }
  }

  method StrnlenS(str: seq<char>, maxsize: nat) returns (n: nat)
    ensures n == Strnlen(str, maxsize)
  {
    var i, left := 0, maxsize;
    while i < |str| && left > 0
      invariant 0 <= i <= |str| && i + left == maxsize
    {
      left := left - 1;
      i := i + 1;
    }
    n := Convert(UINT, i);
  }

  /** Characters of a string up to its end or the precision. */
  method OutString(sink: Sink, idx: nat, str: seq<char>, flags: Flags, precision: nat) returns (next: nat)
    requires sink.Valid() && idx == |sink.text|
    modifies sink, sink.buffer
    ensures sink.Valid() && next == |sink.text|
    ensures sink.text == old(sink.text) + StringShown(str, flags, precision)
  {
    next := idx;
    var p := 0;
    while p < |str| && (!flags.precision || p < precision)
      invariant 0 <= p <= |str| && (flags.precision ==> p <= precision)
      invariant sink.Valid() && next == |sink.text|
      invariant sink.text == old(sink.text) + str[..p]
    {
      next := sink.Out(str[p], next);
      assert str[..p + 1] == str[..p] + [str[p]];
      p := p + 1;
    }
    assert str[..|str|] == str;
  }

  /** %c and %s: padding counted from a length, around the characters. */
  method OutPadded(sink: Sink, idx: nat, str: seq<char>, l: nat, c: Cursor) returns (next: nat)
    requires sink.Valid() && idx == |sink.text|
    modifies sink, sink.buffer
    ensures sink.Valid() && next == |sink.text|
    ensures sink.text == old(sink.text) + PaddedText(StringShown(str, c.flags, c.precision), l, c.width, c.flags)
  {
    hide StringShown, Repeat;
    next := idx;
    if !c.flags.left {
      next := PadSpaces(sink, next, l, c.width);
    }
    next := OutString(sink, next, str, c.flags, c.precision);
    if c.flags.left {
      next := PadSpaces(sink, next, l, c.width);
    }
  }

  method OutChar(sink: Sink, idx: nat, c: Cursor, ch: char) returns (next: nat)
    requires sink.Valid() && idx == |sink.text|
    modifies sink, sink.buffer
    ensures sink.Valid() && next == |sink.text|
    ensures sink.text == old(sink.text) + PaddedText([ch], 1, c.width, c.flags)
  {
    hide Repeat;
    next := idx;
    if !c.flags.left {
      next := PadSpaces(sink, next, 1, c.width);
    }
    next := sink.Out(ch, next);
    if c.flags.left {
      next := PadSpaces(sink, next, 1, c.width);
    }
  }

  /** The specifier and its argument. */
  method OutConversion(sink: Sink, idx: nat, c: Cursor) returns (next: nat, args: seq<Arg>)
    requires sink.Valid() && idx == |sink.text|
    requires c.format != [] && Emit(c).Some?
    modifies sink, sink.buffer
    ensures sink.Valid() && next == |sink.text|
    ensures sink.text == old(sink.text) + Emit(c).value.text && args == Emit(c).value.args
  {
    hide Convert, NumberText, PaddedText, Strnlen, StringShown, Base, IntegerFlags, ArgumentType, Promote;
    var s := c.format[0];
    args := c.args;
    if IsInteger(s) {
      var v := Convert(ArgumentType(s, c.flags), args[0].value);
      next := NtoaLong(sink, idx, Magnitude(v), v < 0, Base(s), c.precision, c.width, IntegerFlags(s, c.flags));
      args := args[1..];
    } else if s == 'c' {
      next := OutChar(sink, idx, c, Convert(UCHAR, args[0].value) as char);
      args := args[1..];
    } else if s == 's' {
      var l := StrnlenS(args[0].chars, if c.precision > 0 then c.precision else SIZE_MAX);
      if c.flags.precision {
        l := if l < c.precision then l else c.precision;
      }
      next := OutPadded(sink, idx, args[0].chars, l, c);
      args := args[1..];
    } else if s == 'p' {
      next := NtoaLong(sink, idx, Convert(ULONG, args[0].value), false, 16, c.precision, ADDRESS_DIGITS,
                       c.flags.(zeropad := true, uppercase := true));
      args := args[1..];
    } else {
      next := sink.Out(s, idx);
    }
  }

  // ----- the interpreter

  /** One conversion, from after its '%' to after its specifier. */
  method Interpret(sink: Sink, idx: nat, format: seq<char>, args: seq<Arg>)
    returns (next: nat, rest: seq<char>, left: seq<Arg>)
    requires sink.Valid() && idx == |sink.text|
    requires Parse(Start(format, args)).Some? && Parse(Start(format, args)).value.format != []
    requires Emit(Parse(Start(format, args)).value).Some?
    modifies sink, sink.buffer
    ensures sink.Valid() && next == |sink.text|
    ensures var c := Parse(Start(format, args)).value;
            && sink.text == old(sink.text) + Emit(c).value.text
            && rest == c.format[1..] && left == Emit(c).value.args
  {
    hide ParseFlags, ParseWidth, ParsePrecision, ParseLength, Emit;
    var c := ReadFlags(Start(format, args));
    c := ReadWidth(c);
    c := ReadPrecision(c);
    c := ParseLength(c);
    next, left := OutConversion(sink, idx, c);
    rest := c.format[1..];
  }

  /** The whole format, before termination. */
  method Run(sink: Sink, format: seq<char>, args: seq<Arg>) returns (idx: nat)
    requires sink.Valid() && sink.text == []
    requires Render(format, args).Some?
    modifies sink, sink.buffer
    ensures sink.Valid() && sink.text == Render(format, args).value.text && idx == |sink.text|
  {
    hide Parse, Emit, Render, Stored, Printable;
    var f, left := format, args;
    idx := 0;
    while f != []
      invariant sink.Valid() && idx == |sink.text|
      invariant Render(f, left).Some? && sink.text + Render(f, left).value.text == Render(format, args).value.text
      decreases |f|
    {
      RenderStep(f, left);
      ghost var was := sink.text;
      if f[0] != '%' {
        idx := sink.Out(f[0], idx);
        f := f[1..];
        assert sink.text + Render(f, left).value.text == was + ([sink.text[|was|]] + Render(f, left).value.text);
      } else {
        ghost var text := Emit(Parse(Start(f[1..], left)).value).value.text;
        idx, f, left := Interpret(sink, idx, f[1..], left);
        assert sink.text + Render(f, left).value.text == was + (text + Render(f, left).value.text);
      }
    }
    RenderEnd(left);
    assert sink.text + [] == sink.text;
  }

  lemma RenderEnd(args: seq<Arg>)
    ensures Render([], args) == Some(Rendered([], args))
  {
  }

  lemma RenderStep(f: seq<char>, args: seq<Arg>)
    requires f != [] && Render(f, args).Some?
    ensures f[0] != '%' ==>
              && Render(f[1..], args).Some?
              && Render(f, args).value.text == [f[0]] + Render(f[1..], args).value.text
    ensures f[0] == '%' ==>
              var c := Parse(Start(f[1..], args));
              && c.Some? && c.value.format != [] && Emit(c.value).Some?
              && var tail := Render(c.value.format[1..], Emit(c.value).value.args);
              && tail.Some? && Render(f, args).value.text == Emit(c.value).value.text + tail.value.text
  {
    hide Parse, Emit;
  }

  /** Subtracting 1 from a size_t, which wraps at 0. */
  function MinusOne(size: nat): nat { if size == 0 then SIZE_MAX else size - 1 }

  /** A buffer of count characters holding as much of a text as leaves room for the terminator. */
  function Terminated(initial: seq<char>, text: seq<char>, count: nat): (r: seq<char>)
    requires count <= |initial|
    ensures |r| == |initial|
  {
    if count == 0 then initial
    else
      var m := Min(|text|, count - 1);
      text[..m] + ['\0'] + initial[m + 1..]
  }

  lemma TerminatedStore(initial: seq<char>, text: seq<char>, count: nat)
    requires count <= |initial|
    ensures count == 0 ==> Stored(initial, text, count) == Terminated(initial, text, count)
    ensures count > 0 ==>
              Stored(initial, text, count)[Min(|text|, count - 1) := '\0'] == Terminated(initial, text, count)
  {
  }

  /** The C string at the start of a buffer. */
  function CString(b: seq<char>): seq<char>
    decreases |b|
  {
    if b == [] || b[0] == '\0' then [] else [b[0]] + CString(b[1..])
  }

  lemma {:induction false} CStringRead(text: seq<char>, rest: seq<char>)
    requires '\0' !in text
    ensures CString(text + ['\0'] + rest) == text
    decreases |text|
  {
    var b := text + ['\0'] + rest;
    if text != [] {
      assert b[1..] == text[1..] + ['\0'] + rest;
      CStringRead(text[1..], rest);
    }
  }

  /**
   Section 7.19.6.5 of ISO/IEC 9899:1999: a count that is not 0 leaves a terminated string,
   the text as far as it fits, and the text is complete if and only if the returned value
   is less than the count.
   */
  lemma CompleteIff(initial: seq<char>, text: seq<char>, count: nat)
    requires 0 < count <= |initial| && '\0' !in text && Fits(INT, |text|)
    ensures CString(Terminated(initial, text, count)) == text[..Min(|text|, count - 1)]
    ensures CString(Terminated(initial, text, count)) == text <==> Convert(INT, |text|) < count
  {
    var m := Min(|text|, count - 1);
    CStringRead(text[..m], initial[m + 1..]);
  }

  /** What every entry point does with a format and its arguments. */
  method VsnprintfTo(sink: Sink, format: seq<char>, args: seq<Arg>) returns (n: int)
    requires sink.Valid() && sink.text == []
    requires Render(format, args).Some?
    modifies sink, sink.buffer
    ensures n == Convert(INT, |Render(format, args).value.text|)
    ensures sink.isStream ==> sink.stream == Printable(Render(format, args).value.text)
    ensures !sink.isStream && sink.buffer != null ==>
              && sink.maxlen <= |sink.initial|
              && sink.buffer[..] == Terminated(sink.initial, Render(format, args).value.text, sink.maxlen)
  {
    hide Render, Printable, Terminated, Stored, Convert;
    var idx := Run(sink, format, args);
    if !sink.isStream && sink.buffer != null {
      TerminatedStore(sink.initial, sink.text, sink.maxlen);
    }
    sink.Put('\0', if idx < sink.maxlen then idx else MinusOne(sink.maxlen));
    n := Convert(INT, idx);
  }

  /**
   The same length whatever the count, even with a null buffer; a buffer gets the first
   count - 1 characters and NUL, and nothing after that.
   */
  method Vsnprintf(buffer: array?<char>, count: nat, format: seq<char>, args: seq<Arg>) returns (n: int)
    requires Render(format, args).Some?
    requires buffer != null ==> count <= buffer.Length
    modifies buffer
    ensures n == Convert(INT, |Render(format, args).value.text|)
    ensures buffer != null ==> buffer[..] == Terminated(old(buffer[..]), Render(format, args).value.text, count)
  {
    hide Render, Terminated, Stored, Convert;
    var sink := new Sink(buffer, count, false);
    n := VsnprintfTo(sink, format, args);
  }

  /** The stream shows the whole text but NULs, and the length is that of the buffer functions. */
  method Vprintf(format: seq<char>, args: seq<Arg>) returns (n: int, shown: seq<char>)
    requires Render(format, args).Some?
    ensures n == Convert(INT, |Render(format, args).value.text|)
    ensures shown == Printable(Render(format, args).value.text)
  {
    hide Render, Terminated, Stored, Convert, Printable;
    var sink := new Sink(null, SIZE_MAX, true);
    n := VsnprintfTo(sink, format, args);
    shown := sink.stream;
  }
}
