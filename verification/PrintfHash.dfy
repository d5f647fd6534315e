/**
 The flag '#' of the tiny printf, for given digits. The code appends the prefix to the digits
 and may first take characters back, so that the prefix replaces padding zeros; it does not
 look whether they are padding. When it takes digits, and when the field is the one section
 7.19.6.1 of ISO/IEC 9899:1999 asks for, each under its exact condition.
 */
module PrintfHash {
  import opened PrintfNumber
  import opened Sequences

  // ----- what the code prints

  /** The prefix of a nonzero number. */
  function Prefix(base: nat, uppercase: bool): (s: seq<char>)
    ensures s != [] && s[0] == '0' && |s| <= 2
  {
    if base == 16 then if uppercase then "0X" else "0x" else if base == 2 then "0b" else "0"
  }

  predicate Prefixable(base: nat) { base == 2 || base == 8 || base == 16 }

  /** As much of the end of the prefix as fits the scratch buffer in front of n characters. */
  function PrefixShown(p: seq<char>, n: nat): seq<char>
    requires n <= NTOA_BUFFER_SIZE
  {
    p[|p| - Min(|p|, NTOA_BUFFER_SIZE - n)..]
  }

  /** How many of n characters are taken back for the prefix. */
  function Taken(n: nat, base: nat, width: nat, flags: Flags): (k: nat)
    ensures k <= n
  {
    if flags.precision || n != width || n == 0 then 0 else if base == 16 && n > 1 then 2 else 1
  }

  /** A prefix as far as it fits in front of zeros and digits, of which the first k are missing. */
  function Cut(p: seq<char>, z: nat, k: nat, d: seq<char>): seq<char>
    requires k <= z + |d| <= NTOA_BUFFER_SIZE
  {
    var c := (Repeat('0', z) + d)[k..];
    PrefixShown(p, |c|) + c
  }

  /** Prefix, zeros and digits as the scratch buffer holds them, read forwards. */
  function HashBody(d: seq<char>, base: nat, prec: nat, width: nat, flags: Flags): seq<char>
    requires |d| <= NTOA_BUFFER_SIZE
  {
    var z := ZeroCount(|d|, false, prec, width, flags);
    Cut(Prefix(base, flags.uppercase), z, Taken(z + |d|, base, width, flags), d)
  }

  /** What '#' asks for: an unsigned conversion, and flags as the interpreter passes them on. */
  predicate HashFlags(prec: nat, flags: Flags) {
    flags.hash && !flags.plus && !flags.space && Normal(prec, flags)
  }

  lemma RevBack(b: seq<char>, k: nat)
    requires k <= |b|
    ensures Rev(b[..|b| - k]) == Rev(b)[k..]
  {
  }

  lemma RevPushed(c: seq<char>, x: char)
    ensures Rev(c + [x]) == [x] + Rev(c)
  {
  }

  /** Appending the prefix last character first, as far as there is room, puts its end before the reversed buffer. */
  lemma PrefixPushed(c: seq<char>, base: nat, uppercase: bool)
    requires |c| <= NTOA_BUFFER_SIZE && Prefixable(base)
    ensures var d :=
              if base == 16 then Push(c, if uppercase then 'X' else 'x') else if base == 2 then Push(c, 'b') else c;
            Rev(Push(d, '0')) == PrefixShown(Prefix(base, uppercase), |c|) + Rev(c)
  {
    var p := Prefix(base, uppercase);
    hide Rev;
    if |p| == 2 {
      RevPushed(c, p[1]);
      RevPushed(c + [p[1]], '0');
      assert ['0'] + ([p[1]] + Rev(c)) == p + Rev(c);
    } else {
      RevPushed(c, '0');
    }
    assert [] + Rev(c) == Rev(c);
  }

  lemma HashedShape(b: seq<char>, base: nat, prec: nat, width: nat, flags: Flags)
    requires 0 < |b| <= NTOA_BUFFER_SIZE && Prefixable(base) && HashFlags(prec, flags)
    ensures var c := Rev(b)[Taken(|b|, base, width, flags)..];
            Rev(Hashed(b, base, prec, width, flags)) == PrefixShown(Prefix(base, flags.uppercase), |c|) + c
  {
    var k := Taken(|b|, base, width, flags);
    RevBack(b, k);
    assert b[..|b|] == b;
    PrefixPushed(b[..|b| - k], base, flags.uppercase);
    hide PrefixShown, Rev;
  }

  lemma HashScratch(digits: seq<char>, base: nat, prec: nat, width: nat, flags: Flags)
    requires 0 < |digits| <= NTOA_BUFFER_SIZE && HashFlags(prec, flags)
    ensures PadWidth(width, false, flags) == width
    ensures Scratch(digits, false, base, prec, width, flags)
            == Hashed(digits + Repeat('0', ZeroCount(|digits|, false, prec, width, flags)), base, prec, width, flags)
  {
    PaddedShape(digits, false, prec, width, flags);
    hide Padded, Hashed, Repeat, ZeroCount;
  }

  lemma OutRevField(b: seq<char>, width: nat, flags: Flags)
    ensures OutRevText(b, width, flags) == Field(Rev(b), width, flags)
  {
    hide Rev, Repeat;
    assert |Rev(b)| == |b|;
  }

  /** With '#' a nonzero number is its body in a field. */
  lemma HashShape(digits: seq<char>, base: nat, prec: nat, width: nat, flags: Flags)
    requires 0 < |digits| <= NTOA_BUFFER_SIZE && Prefixable(base) && HashFlags(prec, flags)
    ensures NtoaText(digits, false, base, prec, width, flags)
            == Field(HashBody(Rev(digits), base, prec, width, flags), width, flags)
  {
    var z := ZeroCount(|digits|, false, prec, width, flags);
    var b := digits + Repeat('0', z);
    assert z + |digits| <= NTOA_BUFFER_SIZE;
    RevConcat(digits, Repeat('0', z));
    RevRepeat('0', z);
    hide Scratch, Hashed, Repeat, ZeroCount, PrefixShown, Prefix, Taken, Field, Rev, OutRevText, HashFlags;
    HashScratch(digits, base, prec, width, flags);
    HashedShape(b, base, prec, width, flags);
    OutRevField(Hashed(b, base, prec, width, flags), width, flags);
  }

  // ----- digits taken back

  /** All digits of a nonzero number. */
  predicate Leading(d: seq<char>, base: nat) {
    0 < |d| <= NTOA_BUFFER_SIZE && d[0] != '0' && (forall i :: 0 <= i < |d| ==> IsDigitOf(d[i], base))
  }

  predicate IsDigitOf(c: char, base: nat) {
    '0' <= c <= '1' || (base > 2 && '2' <= c <= '9') || (base == 16 && ('a' <= c <= 'f' || 'A' <= c <= 'F'))
  }

  /**
   When the prefix costs digits: without a precision, when nothing or, in base 16, a single
   zero was padded and digits and zero fill the width.
   */
  predicate DigitTaken(nd: nat, base: nat, width: nat, flags: Flags) {
    && !flags.precision
    && (width == nd
        || (base == 16 && width == nd + 1 && width <= NTOA_BUFFER_SIZE && flags.zeropad && !flags.left))
  }

  predicate EndsWith(s: seq<char>, t: seq<char>) { |t| <= |s| && s[|s| - |t|..] == t }

  lemma TakenFew(d: seq<char>, base: nat, prec: nat, width: nat, flags: Flags)
    requires Leading(d, base) && HashFlags(prec, flags)
    ensures var z := ZeroCount(|d|, false, prec, width, flags);
            var k := Taken(z + |d|, base, width, flags);
            && z + |d| <= NTOA_BUFFER_SIZE && TakesFew(z, k, d, base)
            && (k <= z <==> !DigitTaken(|d|, base, width, flags))
  {
  }

  /** Of so many characters at most one is taken, in base 16 two when there are two. */
  predicate TakesFew(z: nat, k: nat, d: seq<char>, base: nat) {
    k <= z + |d| && k <= (if base == 16 then 2 else 1) && (k == 1 && base == 16 ==> z + |d| == 1)
  }

  lemma TailKept(p: seq<char>, zeros: seq<char>, d: seq<char>, k: nat)
    requires k <= |zeros|
    ensures EndsWith(p + (zeros + d)[k..], d)
  {
    assert (zeros + d)[k..] == zeros[k..] + d;
  }

  lemma CutKeepsIff(z: nat, k: nat, d: seq<char>, base: nat, uppercase: bool)
    requires Leading(d, base) && Prefixable(base) && z + |d| <= NTOA_BUFFER_SIZE && TakesFew(z, k, d, base)
    ensures EndsWith(Cut(Prefix(base, uppercase), z, k, d), d) <==> k <= z
  {
    var zeros := Repeat('0', z);
    var c := (zeros + d)[k..];
    if k <= z {
      TailKept(PrefixShown(Prefix(base, uppercase), |c|), zeros, d, k);
    } else {
      TailLost(zeros, d, k, base, uppercase);
    }
  }

  /** The digits of a nonzero number all come behind the prefix exactly when none is taken. */
  lemma DigitsKeptIff(d: seq<char>, base: nat, prec: nat, width: nat, flags: Flags)
    requires Leading(d, base) && Prefixable(base) && HashFlags(prec, flags)
    ensures EndsWith(HashBody(d, base, prec, width, flags), d) <==> !DigitTaken(|d|, base, width, flags)
  {
    assert |d| <= NTOA_BUFFER_SIZE;
    var z := ZeroCount(|d|, false, prec, width, flags);
    var k := Taken(z + |d|, base, width, flags);
    assert HashBody(d, base, prec, width, flags) == Cut(Prefix(base, flags.uppercase), z, k, d);
    hide *;
    TakenFew(d, base, prec, width, flags);
    CutKeepsIff(z, k, d, base, flags.uppercase);
  }

  lemma TailLost(zeros: seq<char>, d: seq<char>, k: nat, base: nat, uppercase: bool)
    requires Leading(d, base) && Prefixable(base) && |zeros| + |d| <= NTOA_BUFFER_SIZE
    requires |zeros| < k && TakesFew(|zeros|, k, d, base)
    ensures var c := (zeros + d)[k..]; !EndsWith(PrefixShown(Prefix(base, uppercase), |c|) + c, d)
  {
    var c := (zeros + d)[k..];
    assert c == d[k - |zeros|..];
    var s := PrefixShown(Prefix(base, uppercase), |c|) + c;
    assert IsDigitOf(d[0], base);
    if |d| > 1 {
      assert IsDigitOf(d[1], base);
    }
    if |s| >= |d| {
      assert s[|s| - |d|..][0] == s[|s| - |d|];
      assert |d| > 1 ==> s[|s| - |d|..][1] == s[|s| - |d| + 1];
    }
  }

  // ----- section 7.19.6.1 of ISO/IEC 9899:1999

  /** For o the precision is raised, if need be, until the first digit is a zero. */
  function ZeroFirst(d: seq<char>, prec: nat): seq<char> {
    if prec > |d| || (d != [] && d[0] == '0') then d else ['0'] + d
  }

  /** The field of given digits for o, x and X with '#': the latter have a prefix when the number is not 0. */
  function HashField(d: seq<char>, zero: bool, base: nat, prec: nat, width: nat, flags: Flags): seq<char> {
    if base == 16 then PrefixedField(if zero then [] else Prefix(16, flags.uppercase), d, prec, width, flags)
    else PrefixedField([], ZeroFirst(d, prec), prec, width, flags)
  }

  /** The field of a number: 0 has one digit unless a precision is given. */
  function StandardHash(value: nat, base: nat, prec: nat, width: nat, flags: Flags): seq<char>
    requires 2 <= base <= 16
  {
    HashField(if value == 0 && !flags.precision then ['0'] else AllDigits(value, base, flags.uppercase), value == 0,
              base, prec, width, flags)
  }

  /** The code's field of given digits. */
  function CodeHash(d: seq<char>, base: nat, prec: nat, width: nat, flags: Flags): seq<char>
    requires |d| <= NTOA_BUFFER_SIZE
  {
    Field(HashBody(d, base, prec, width, flags), width, flags)
  }

  /**
   When the code produces the standard's field of a nonzero number of nd digits. With a
   precision: in base 16 the prefix must fit the scratch buffer, in base 8 the code's zero
   must not come on top of those of the precision, and left-justified fields must not need
   zeros. Without one: no digit is taken, and zero padding ends within the buffer.
   */
  predicate HashConforming(nd: nat, base: nat, prec: nat, width: nat, flags: Flags) {
    if flags.precision then
      if base == 16 then prec <= if flags.left then nd else NTOA_BUFFER_SIZE - 2
      else if flags.left then prec <= nd + 1
      else prec <= nd || prec == NTOA_BUFFER_SIZE
    else
      !DigitTaken(nd, base, width, flags) && (flags.zeropad && !flags.left ==> width <= NTOA_BUFFER_SIZE)
  }

  /** Digits of 64 bits in the bases of o, x and X. */
  predicate Short(d: seq<char>) { 0 < |d| <= 22 && d[0] != '0' && Plain(d) }

  /** Zeros in front of the digits of a nonzero number in the standard's field. */
  function StandardZeros(nd: nat, base: nat, prec: nat, width: nat, flags: Flags): nat {
    var least := if base == 16 then Max(0, prec - nd) else Max(1, prec - nd);
    var pad := width - nd - (if base == 16 then 2 else 0);
    if flags.zeropad && !flags.left then Max(least, pad) else least
  }

  /** A whole prefix in front of zeros and digits. */
  function Whole(p: seq<char>, z: nat, d: seq<char>): seq<char> { p + (Repeat('0', z) + d) }

  function StandardBody(d: seq<char>, base: nat, prec: nat, width: nat, flags: Flags): seq<char> {
    Whole(if base == 16 then Prefix(16, flags.uppercase) else [], StandardZeros(|d|, base, prec, width, flags), d)
  }

  lemma ZerosSum(m: nat, n: nat, d: seq<char>)
    ensures Repeat('0', m) + (Repeat('0', n) + d) == Repeat('0', m + n) + d
  {
  }

  /** A negative number of zeros is none. */
  lemma NoZerosNegative(n: int)
    ensures Repeat('0', n) == Repeat('0', Max(0, n)) && |Repeat('0', n)| == Max(0, n)
  {
  }

  lemma PrefixedShape(p: seq<char>, d: seq<char>, prec: nat, width: nat, flags: Flags)
    ensures var z := Max(0, prec - |d|);
            var fill := if flags.zeropad && !flags.left then Max(0, width - |p| - z - |d|) else 0;
            PrefixedField(p, d, prec, width, flags) == Field(p + (Repeat('0', fill + z) + d), width, flags)
  {
    var z := Max(0, prec - |d|);
    var digits := Repeat('0', z) + d;
    NoZerosNegative(prec - |d|);
    if flags.zeropad && !flags.left {
      var fill := width - |p| - z - |d|;
      NoZerosNegative(fill);
      ZerosSum(Max(0, fill), z, d);
      hide Repeat;
      Filled(p, Repeat('0', fill), digits, width, flags);
    } else {
      hide Repeat;
      Unfilled(p, digits, width, flags);
    }
  }

  lemma Filled(p: seq<char>, zeros: seq<char>, digits: seq<char>, width: nat, flags: Flags)
    requires flags.zeropad && !flags.left
    ensures Field(p + (zeros + digits), width, flags) == p + zeros + digits
  {
  }

  lemma Unfilled(p: seq<char>, digits: seq<char>, width: nat, flags: Flags)
    requires !flags.zeropad || flags.left
    ensures Field(p + digits, width, flags) ==
            var blanks := Repeat(' ', width - |p| - |digits|);
            if flags.left then p + digits + blanks else blanks + p + digits
  {
    var blanks := Repeat(' ', width - |p| - |digits|);
    hide Repeat;
    assert [] + (p + digits) + blanks == p + digits + blanks;
    assert blanks + (p + digits) + [] == blanks + p + digits;
  }

  lemma StandardShaped(d: seq<char>, base: nat, prec: nat, width: nat, flags: Flags)
    requires Short(d) && (base == 8 || base == 16) && Normal(prec, flags)
    ensures HashField(d, false, base, prec, width, flags)
            == Field(StandardBody(d, base, prec, width, flags), width, flags)
  {
    if base == 16 {
      PrefixedShape(Prefix(16, flags.uppercase), d, prec, width, flags);
    } else {
      PrefixedShape([], ZeroFirst(d, prec), prec, width, flags);
      if prec <= |d| {
        assert ['0'] == Repeat('0', 1);
        ZerosSum(if flags.zeropad && !flags.left then Max(0, width - 1 - |d|) else 0, 1, d);
      }
    }
    hide PrefixedField, Field, Repeat, Plain;
  }

  predicate NoBlank(s: seq<char>) { forall i :: 0 <= i < |s| ==> s[i] != ' ' }

  /** A field determines a body without blanks. */
  lemma FieldInjective(a: seq<char>, b: seq<char>, width: nat, flags: Flags)
    requires NoBlank(a) && NoBlank(b)
    ensures Field(a, width, flags) == Field(b, width, flags) <==> a == b
  {
    hide Field;
    StripField(a, width, flags);
    StripField(b, width, flags);
    StripNoSpaces(a);
    StripNoSpaces(b);
  }

  lemma BodiesNoBlank(d: seq<char>, base: nat, prec: nat, width: nat, flags: Flags)
    requires Short(d) && (base == 8 || base == 16)
    ensures NoBlank(HashBody(d, base, prec, width, flags)) && NoBlank(StandardBody(d, base, prec, width, flags))
  {
    ZerosPlain(ZeroCount(|d|, false, prec, width, flags), d);
    ZerosPlain(StandardZeros(|d|, base, prec, width, flags), d);
    assert NoBlank(Prefix(base, flags.uppercase));
    hide ZeroCount, StandardZeros, Taken, Repeat, Prefix;
  }

  lemma HexBodies(p: seq<char>, z: nat, k: nat, zs: nat, d: seq<char>)
    requires |p| == 2 && p[0] == '0' && (p[1] == 'x' || p[1] == 'X') && k <= 2 && k <= z + |d| <= NTOA_BUFFER_SIZE
    requires forall i :: 0 <= i < |d| ==> d[i] != 'x' && d[i] != 'X'
    ensures Cut(p, z, k, d) == Whole(p, zs, d) <==> z + |d| - k <= NTOA_BUFFER_SIZE - 2 && k + zs == z
  {
    var c, m := (Repeat('0', z) + d)[k..], Min(2, NTOA_BUFFER_SIZE - (z + |d| - k));
    var code, std := p[2 - m..] + c, p + (Repeat('0', zs) + d);
    if m == 2 {
      assert p[0..] == p;
      if k + zs == z {
        assert c == Repeat('0', zs) + d;
      }
    } else if m == 1 {
      assert code[0] == p[1] && std[0] == '0';
    } else {
      assert code[1] == c[1] == (Repeat('0', z) + d)[k + 1];
      assert std[1] == p[1];
    }
  }

  lemma OctBodies(z: nat, k: nat, zs: nat, d: seq<char>)
    requires k <= 1 && k <= z + |d| <= NTOA_BUFFER_SIZE && zs >= 1
    requires k > z ==> d != [] && d[0] != '0'
    ensures Cut(['0'], z, k, d) == Whole([], zs, d)
            <==> k <= z && (if z + |d| - k < NTOA_BUFFER_SIZE then 1 else 0) + z - k == zs
  {
    var c, m := (Repeat('0', z) + d)[k..], if z + |d| - k < NTOA_BUFFER_SIZE then 1 else 0;
    var code, std := ['0'][1 - m..] + c, [] + (Repeat('0', zs) + d);
    if k <= z && m + z - k == zs {
      assert c == Repeat('0', z - k) + d;
      assert code == Repeat('0', m) + (Repeat('0', z - k) + d);
    }
  }

  /** The zeros are as many as asked for, and the prefix fits, exactly when HashConforming. */
  lemma HexCounts(nd: nat, prec: nat, width: nat, flags: Flags)
    requires 0 < nd <= 22 && HashFlags(prec, flags)
    ensures var z := ZeroCount(nd, false, prec, width, flags);
            var k := Taken(z + nd, 16, width, flags);
            z + nd - k <= NTOA_BUFFER_SIZE - 2 && k + StandardZeros(nd, 16, prec, width, flags) == z
            <==> HashConforming(nd, 16, prec, width, flags)
  {
  }

  lemma OctCounts(nd: nat, prec: nat, width: nat, flags: Flags)
    requires 0 < nd <= 22 && HashFlags(prec, flags)
    ensures var z := ZeroCount(nd, false, prec, width, flags);
            var k := Taken(z + nd, 8, width, flags);
            && StandardZeros(nd, 8, prec, width, flags) >= 1 && k <= 1
            && (k <= z && (if z + nd - k < NTOA_BUFFER_SIZE then 1 else 0) + z - k
                == StandardZeros(nd, 8, prec, width, flags)
                <==> HashConforming(nd, 8, prec, width, flags))
  {
  }

  lemma HexDigits(d: seq<char>)
    requires Leading(d, 16)
    ensures forall i :: 0 <= i < |d| ==> d[i] != 'x' && d[i] != 'X'
  {
    assert forall i :: 0 <= i < |d| ==> IsDigitOf(d[i], 16);
  }

  lemma HexBodyIff(d: seq<char>, prec: nat, width: nat, flags: Flags)
    requires Short(d) && Leading(d, 16) && HashFlags(prec, flags)
    ensures HashBody(d, 16, prec, width, flags) == StandardBody(d, 16, prec, width, flags)
            <==> HashConforming(|d|, 16, prec, width, flags)
  {
    var z, zs := ZeroCount(|d|, false, prec, width, flags), StandardZeros(|d|, 16, prec, width, flags);
    var k, p := Taken(z + |d|, 16, width, flags), Prefix(16, flags.uppercase);
    assert z + |d| <= NTOA_BUFFER_SIZE && k <= 2 && 0 < |d| <= 22;
    assert p[1] == 'x' || p[1] == 'X';
    assert HashBody(d, 16, prec, width, flags) == Cut(p, z, k, d);
    assert StandardBody(d, 16, prec, width, flags) == Whole(p, zs, d);
    assert |p| == 2;
    hide *;
    HexCounts(|d|, prec, width, flags);
    HexDigits(d);
    HexBodies(p, z, k, zs, d);
  }

  lemma OctBodyIff(d: seq<char>, prec: nat, width: nat, flags: Flags)
    requires Short(d) && HashFlags(prec, flags)
    ensures HashBody(d, 8, prec, width, flags) == StandardBody(d, 8, prec, width, flags)
            <==> HashConforming(|d|, 8, prec, width, flags)
  {
    var z, zs := ZeroCount(|d|, false, prec, width, flags), StandardZeros(|d|, 8, prec, width, flags);
    assert z + |d| <= NTOA_BUFFER_SIZE && Prefix(8, flags.uppercase) == ['0'];
    hide ZeroCount, StandardZeros, Cut, Whole, Taken, HashConforming, Plain, HashFlags, Prefix;
    OctCounts(|d|, prec, width, flags);
    OctBodies(z, Taken(z + |d|, 8, width, flags), zs, d);
  }

  /** For given digits of a nonzero number the fields agree exactly when HashConforming. */
  lemma HashFieldIff(d: seq<char>, base: nat, prec: nat, width: nat, flags: Flags)
    requires Short(d) && Leading(d, base) && (base == 8 || base == 16) && HashFlags(prec, flags)
    ensures CodeHash(d, base, prec, width, flags) == HashField(d, false, base, prec, width, flags)
            <==> HashConforming(|d|, base, prec, width, flags)
  {
    assert Normal(prec, flags) && |d| <= NTOA_BUFFER_SIZE;
    hide HashBody, StandardBody, HashField, HashConforming, Field, Short, Leading, HashFlags, Normal;
    BodiesNoBlank(d, base, prec, width, flags);
    StandardShaped(d, base, prec, width, flags);
    FieldInjective(HashBody(d, base, prec, width, flags), StandardBody(d, base, prec, width, flags), width, flags);
    if base == 16 {
      HexBodyIff(d, prec, width, flags);
    } else {
      OctBodyIff(d, prec, width, flags);
    }
  }
}
