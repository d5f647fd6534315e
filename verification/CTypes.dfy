/** The integer types of C on a 64-bit target: int has 32 bits, long, intmax_t and uintmax_t 64. */
module CTypes {
  datatype Width = W8 | W16 | W32 | W64

  datatype CType = CType(signed: bool, width: Width)

  const UCHAR: CType := CType(false, W8)
  const SHORT: CType := CType(true, W16)
  const INT: CType := CType(true, W32)
  const UINT: CType := CType(false, W32)
  const ULONG: CType := CType(false, W64)
  const INTMAX: CType := CType(true, W64)
  const UINTMAX: CType := CType(false, W64)

  function Modulus(t: CType): int {
    match t.width
    case W8 => 0x100
    case W16 => 0x1_0000
    case W32 => 0x1_0000_0000
    case W64 => 0x1_0000_0000_0000_0000
  }

  function Least(t: CType): int { if t.signed then -(Modulus(t) / 2) else 0 }

  function Greatest(t: CType): int { if t.signed then Modulus(t) / 2 - 1 else Modulus(t) - 1 }

  predicate Fits(t: CType, x: int) { Least(t) <= x <= Greatest(t) }

  /** Conversion of a value to a type: reduction modulo the type's range. */
  function Convert(t: CType, x: int): (y: int)
    ensures Fits(t, y)
    ensures Fits(t, x) ==> y == x
  {
    var m := x % Modulus(t);
    if m > Greatest(t) then m - Modulus(t) else m
  }

  /** Integer promotion. */
  function Promote(t: CType): CType {
    if t.width == W8 || t.width == W16 then INT else t
  }

  /** The usual arithmetic conversions of two operands. */
  function Common(s: CType, t: CType): CType {
    var p, q := Promote(s), Promote(t);
    if p.width == q.width then CType(p.signed && q.signed, p.width)
    else if p.width == W64 then p
    else q
  }

  // ----- the types in numbers

  /** The ranges of the eight integer types. */
  lemma TypeRanges(x: int)
    ensures Fits(CType(false, W8), x) <==> 0 <= x <= 255
    ensures Fits(CType(true, W8), x) <==> -128 <= x <= 127
    ensures Fits(CType(false, W16), x) <==> 0 <= x <= 65535
    ensures Fits(CType(true, W16), x) <==> -32768 <= x <= 32767
    ensures Fits(CType(false, W32), x) <==> 0 <= x <= 4294967295
    ensures Fits(CType(true, W32), x) <==> -2147483648 <= x <= 2147483647
    ensures Fits(CType(false, W64), x) <==> 0 <= x <= 18446744073709551615
    ensures Fits(CType(true, W64), x) <==> -9223372036854775808 <= x <= 9223372036854775807
  {
  }

  /** A conversion changes a value by a multiple of the number of values of the type. */
  lemma Converted(t: CType, x: int) returns (k: int)
    ensures t.width == W8 ==> Convert(t, x) == x + 256 * k
    ensures t.width == W16 ==> Convert(t, x) == x + 65536 * k
    ensures t.width == W32 ==> Convert(t, x) == x + 4294967296 * k
    ensures t.width == W64 ==> Convert(t, x) == x + 18446744073709551616 * k
  {
    k := -(x / Modulus(t));
    if x % Modulus(t) > Greatest(t) {
      k := k - 1;
    }
  }

  /**
   The usual arithmetic conversions: types below int become int; of two types of one width the
   unsigned one wins, and otherwise the wider one does.
   */
  lemma Conversions(s: CType, t: CType)
    ensures s.width in {W8, W16} && t.width in {W8, W16} ==> Common(s, t) == INT
    ensures s.width in {W8, W16} && t.width == W32 ==> Common(s, t) == t == Common(t, s)
    ensures s.width == t.width == W32 ==> Common(s, t) == if s.signed && t.signed then INT else UINT
    ensures s.width != W64 && t.width == W64 ==> Common(s, t) == t == Common(t, s)
    ensures s.width == t.width == W64 ==> Common(s, t) == if s.signed && t.signed then INTMAX else UINTMAX
  {
  }
}
