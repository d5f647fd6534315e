/**
 Overflow-detecting addition and multiplication as the fallback macros of the TA
 headers compute them: comparisons, conversions and wrapping arithmetic of C integer
 types, with the result of an operation stored only when it did not overflow.
 */
module IntOverflow {

  import opened CTypes
  import opened Options

  /** Unary minus in the promoted type. */
  function Negate(t: CType, x: int): int { Convert(Promote(t), -x) }

  /** Negating is defined unless the operand is the least value of a signed promoted type. */
  predicate NegationDefined(t: CType, x: int) {
    Promote(t).signed ==> x != Least(Promote(t))
  }

  // ----- the macros: Some(result stored) when 0 is returned, None when 1 is

  /** What an overflow-checked operation should do with an exact result. */
  function Checked(t: CType, x: int): Option<int> {
    if Fits(t, x) then Some(x) else None
  }

  function IntofAssign(dest: CType, src: int): Option<int> {
    var y := Convert(dest, src);
    if Convert(UINTMAX, src) == Convert(UINTMAX, y) && ((src < 1) == (y < 1)) then Some(y) else None
  }

  /** Operands of opposite sign: an unsigned sum, reread as signed when the negative operand outweighs the other. */
  function IntofAddMixed(dest: CType, tneg: CType, neg: int, pos: int): Option<int> {
    var sum := Convert(UINTMAX, Convert(UINTMAX, Convert(INTMAX, neg)) + Convert(UINTMAX, pos));
    if Convert(UINTMAX, pos) >= Convert(UINTMAX, Negate(tneg, neg)) then IntofAssign(dest, sum)
    else IntofAssign(dest, Convert(INTMAX, sum))
  }

  function IntofAdd(dest: CType, ta: CType, a: int, tb: CType, b: int): Option<int> {
    var aSigned, aUnsigned := Convert(INTMAX, a), Convert(UINTMAX, a);
    var bSigned, bUnsigned := Convert(INTMAX, b), Convert(UINTMAX, b);
    if b < 1 then
      if a < 1 then
        if Least(INTMAX) - bSigned <= aSigned then IntofAssign(dest, aSigned + bSigned) else None
      else IntofAddMixed(dest, tb, b, a)
    else
      if a < 1 then IntofAddMixed(dest, ta, a, b)
      else
        if Greatest(UINTMAX) - bUnsigned >= aUnsigned then IntofAssign(dest, Convert(UINTMAX, aUnsigned + bUnsigned))
        else None
  }

  const HALF: int := 0x1_0000_0000

  /** The factors the multiplication cannot overflow on. */
  predicate TrivialFactor(a: int, b: int) { a == 0 || b == 0 || a == 1 || b == 1 }

  /** The magnitude of an operand in its own type, as an unsigned factor. */
  function Magnitude(t: CType, x: int): int {
    Convert(UINTMAX, Convert(t, if x < 1 then Negate(t, x) else x))
  }

  /** The unsigned core: the product of two magnitudes, or nothing when it does not fit the destination. */
  function MulMagnitudes(dest: CType, ma: int, mb: int): Option<int> {
    var a0, a1, b0, b1 := ma / HALF, ma % HALF, mb / HALF, mb % HALF;
    var t := Convert(UINTMAX, Convert(UINTMAX, a1 * b0) + Convert(UINTMAX, a0 * b1));
    if (a0 != 0 && b0 != 0) || t > HALF - 1 then None
    else IntofAdd(dest, UINTMAX, Convert(UINTMAX, t * HALF), UINTMAX, Convert(UINTMAX, a1 * b1))
  }

  function IntofMul(dest: CType, ta: CType, a: int, tb: CType, b: int): Option<int> {
    if TrivialFactor(a, b) then
      var common := Common(ta, tb);
      IntofAssign(dest, Convert(common, Convert(common, a) * Convert(common, b)))
    else
      match MulMagnitudes(dest, Magnitude(ta, a), Magnitude(tb, b))
      case None => None
      case Some(c) =>
        if (a < 1) != (b < 1) then IntofAssign(dest, Negate(dest, c)) else IntofAssign(dest, c)
  }

  // ----- assignment and addition are exact

  /** The modulo-2^64 comparison together with the sign comparison detects every change of value. */
  lemma AssignExact(dest: CType, src: int)
    requires Least(INTMAX) <= src <= Greatest(UINTMAX)
    ensures IntofAssign(dest, src) == Checked(dest, src)
  {
    var y := Convert(dest, src);
    if Convert(UINTMAX, src) == Convert(UINTMAX, y) && y != src {
      assert src == y + Modulus(UINTMAX) || y == src + Modulus(UINTMAX);
    }
  }

  /** The one case the macro leaves undefined: an operand whose negation the comparison needs and C does not define. */
  predicate AddDefined(ta: CType, a: int, tb: CType, b: int) {
    && (b < 1 <= a ==> NegationDefined(tb, b))
    && (a < 1 <= b ==> NegationDefined(ta, a))
  }

  lemma Ranges(t: CType, x: int)
    requires Fits(t, x)
    ensures Least(INTMAX) <= x <= Greatest(UINTMAX)
    ensures x < 1 ==> Fits(INTMAX, x)
    ensures x >= 0 ==> Fits(UINTMAX, x)
  {
  }

  lemma NegateExact(t: CType, x: int)
    requires Fits(t, x) && x < 1 && NegationDefined(t, x)
    ensures Negate(t, x) == -x
  {
  }

  const B64: int := 0x1_0000_0000_0000_0000

  /** Reduction modulo 2^64 of a value less than one period below zero. */
  lemma Wraps(x: int)
    requires -B64 <= x < 2 * B64
    ensures Convert(UINTMAX, x) == if x < 0 then x + B64 else if x < B64 then x else x - B64
    ensures Fits(INTMAX, x) ==> Convert(INTMAX, Convert(UINTMAX, x)) == x
  {
  }

  /** Operands of opposite sign, the negative one first: the unsigned sum is the sum, or the sum plus 2^64. */
  lemma MixedSum(neg: int, pos: int)
    requires Least(INTMAX) <= neg < 1 <= pos <= Greatest(UINTMAX)
    ensures Convert(UINTMAX, neg) == if neg < 0 then neg + B64 else neg
    ensures Convert(UINTMAX, Convert(UINTMAX, neg) + pos) == if neg + pos < 0 then neg + pos + B64 else neg + pos
    ensures neg + pos < 0 ==> Convert(INTMAX, neg + pos + B64) == neg + pos
  {
    Wraps(neg);
    Wraps(neg + pos);
    Wraps(Convert(UINTMAX, neg) + pos);
  }

  lemma AddMixedExact(dest: CType, tneg: CType, neg: int, pos: int)
    requires Fits(tneg, neg) && neg < 1 <= pos <= Greatest(UINTMAX) && NegationDefined(tneg, neg)
    ensures IntofAddMixed(dest, tneg, neg, pos) == Checked(dest, neg + pos)
  {
    hide IntofAssign, Convert, Negate, NegationDefined, Fits;
    Ranges(tneg, neg);
    NegateExact(tneg, neg);
    MixedSum(neg, pos);
    AssignExact(dest, neg + pos);
    Same(INTMAX, neg);
    Same(UINTMAX, pos);
    Same(UINTMAX, -neg);
  }

  lemma Same(t: CType, x: int)
    requires Least(t) <= x <= Greatest(t)
    ensures Convert(t, x) == x
  {
  }

  lemma AddSameSignExact(dest: CType, ta: CType, a: int, tb: CType, b: int)
    requires Fits(ta, a) && Fits(tb, b) && (a < 1 <==> b < 1)
    ensures IntofAdd(dest, ta, a, tb, b) == Checked(dest, a + b)
  {
    hide IntofAssign, Convert, IntofAddMixed;
    Ranges(ta, a);
    Ranges(tb, b);
    DestinationRange(dest);
    if Least(INTMAX) <= a + b <= Greatest(UINTMAX) {
      AssignExact(dest, a + b);
    }
  }

  /**
   For operands of any types and a destination of any type the addition stores a + b or
   reports that it does not fit.
   */
  lemma AddExact(dest: CType, ta: CType, a: int, tb: CType, b: int)
    requires Fits(ta, a) && Fits(tb, b) && AddDefined(ta, a, tb, b)
    ensures IntofAdd(dest, ta, a, tb, b) == Checked(dest, a + b)
  {
    hide IntofAddMixed, NegationDefined, Checked, Convert, IntofAssign;
    Ranges(ta, a);
    Ranges(tb, b);
    if b < 1 <= a {
      AddMixedExact(dest, tb, b, a);
    } else if a < 1 <= b {
      AddMixedExact(dest, ta, a, b);
    } else {
      AddSameSignExact(dest, ta, a, tb, b);
    }
  }

  lemma DestinationRange(t: CType)
    ensures Least(INTMAX) <= Least(t) && Greatest(t) <= Greatest(UINTMAX)
  {
  }

  // ----- multiplication

  /** The least value of a type narrower than int: its negation is defined, in int, but does not fit back. */
  predicate NarrowLeast(t: CType, x: int) { t.signed && (t.width == W8 || t.width == W16) && x == Least(t) }

  function Abs(x: int): nat { if x < 0 then -x else x }

  lemma NarrowMagnitude(t: CType, x: int)
    requires NarrowLeast(t, x)
    ensures Magnitude(t, x) == B64 + x && 0 <= B64 + x < B64
  {
    var y := Negate(t, x);
    assert y == -x;
    assert Convert(t, y) == x;
    Wraps(x);
    hide Convert, Negate;
  }

  lemma OrdinaryMagnitude(t: CType, x: int)
    requires Fits(t, x) && NegationDefined(t, x) && !NarrowLeast(t, x)
    ensures Magnitude(t, x) == Abs(x) <= Greatest(UINTMAX)
  {
    if x < 1 {
      assert Fits(Promote(t), -x) && Fits(t, -x);
    }
  }

  /** The macro forms the magnitude of every operand but a narrow type's least value, which stays negative and wraps. */
  lemma MagnitudeIs(t: CType, x: int)
    requires Fits(t, x) && NegationDefined(t, x)
    ensures Magnitude(t, x) == if NarrowLeast(t, x) then B64 + x else Abs(x)
    ensures 0 <= Magnitude(t, x) < B64
  {
    hide Magnitude, NarrowLeast, NegationDefined;
    if NarrowLeast(t, x) {
      NarrowMagnitude(t, x);
    } else {
      OrdinaryMagnitude(t, x);
    }
  }

  /** Splitting both factors at bit 32, as the comment above the macro does. */
  lemma SplitProduct(ma: int, mb: int)
    requires 0 <= ma < B64 && 0 <= mb < B64
    ensures var a0, a1, b0, b1 := ma / HALF, ma % HALF, mb / HALF, mb % HALF;
            && ma * mb == (a0 * b0) * B64 + (a1 * b0 + a0 * b1) * HALF + a1 * b1
            && 0 <= a0 < HALF && 0 <= a1 < HALF && 0 <= b0 < HALF && 0 <= b1 < HALF
  {
    var a0, a1, b0, b1 := ma / HALF, ma % HALF, mb / HALF, mb % HALF;
    assert ma == a0 * HALF + a1 && mb == b0 * HALF + b1;
    Expand(a0, a1, b0, b1, HALF);
  }

  lemma Expand(a0: int, a1: int, b0: int, b1: int, h: int)
    ensures (a0 * h + a1) * (b0 * h + b1) == (a0 * b0) * (h * h) + (a1 * b0 + a0 * b1) * h + a1 * b1
  {
    calc {
      (a0 * h + a1) * (b0 * h + b1);
      (a0 * h) * (b0 * h) + (a0 * h) * b1 + a1 * (b0 * h) + a1 * b1;
      { assert (a0 * h) * (b0 * h) == (a0 * b0) * (h * h); assert (a0 * h) * b1 == (a0 * b1) * h;
        assert a1 * (b0 * h) == (a1 * b0) * h; }
      (a0 * b0) * (h * h) + (a0 * b1) * h + (a1 * b0) * h + a1 * b1;
      (a0 * b0) * (h * h) + (a1 * b0 + a0 * b1) * h + a1 * b1;
    }
  }

  lemma MulBound(x: int, y: int, m: int)
    requires 0 <= x <= m && 0 <= y <= m
    ensures 0 <= x * y <= m * m
  {
    assert x * y <= m * y <= m * m;
  }

  lemma BothUpper(a0: int, b0: int, rest: int, p: int)
    requires a0 >= 1 && b0 >= 1 && rest >= 0 && p == (a0 * b0) * B64 + rest
    ensures p >= B64
  {
    MulAtLeast(a0, b0);
  }

  lemma MulAtLeast(x: int, y: int)
    requires x >= 1 && y >= 1
    ensures x * y >= 1
  {
  }

  lemma MulMagnitudesExact(dest: CType, ma: int, mb: int)
    requires 0 <= ma < B64 && 0 <= mb < B64
    ensures MulMagnitudes(dest, ma, mb) == Checked(dest, ma * mb)
  {
    var a0, a1, b0, b1 := ma / HALF, ma % HALF, mb / HALF, mb % HALF;
    SplitProduct(ma, mb);
    MulBound(a1, b0, HALF - 1);
    MulBound(a0, b1, HALF - 1);
    MulBound(a1, b1, HALF - 1);
    MulBound(a0, b0, HALF - 1);
    DestinationRange(dest);
    var p, q, r := a1 * b0, a0 * b1, a1 * b1;
    Core(dest, ma, mb, a0, b0, p, q, r);
  }

  lemma Core(dest: CType, ma: int, mb: int, a0: int, b0: int, p: int, q: int, r: int)
    requires 0 <= a0 && 0 <= b0 && a0 == ma / HALF && b0 == mb / HALF
    requires p == (ma % HALF) * b0 && q == a0 * (mb % HALF) && r == (ma % HALF) * (mb % HALF)
    requires 0 <= p <= (HALF - 1) * (HALF - 1) && 0 <= q <= (HALF - 1) * (HALF - 1) && 0 <= r <= (HALF - 1) * (HALF - 1)
    requires ma * mb == (a0 * b0) * B64 + (p + q) * HALF + r
    requires Greatest(dest) < B64
    ensures MulMagnitudes(dest, ma, mb) == Checked(dest, ma * mb)
  {
    hide Convert, IntofAdd;
    Same(UINTMAX, p);
    Same(UINTMAX, q);
    Same(UINTMAX, r);
    if a0 != 0 && b0 != 0 {
      BothUpper(a0, b0, (p + q) * HALF + r, ma * mb);
    } else {
      ZeroProducts(a0, b0, ma % HALF, mb % HALF);
      assert p == 0 || q == 0;
      Same(UINTMAX, p + q);
      if p + q <= HALF - 1 {
        Same(UINTMAX, (p + q) * HALF);
        AddExact(dest, UINTMAX, (p + q) * HALF, UINTMAX, r);
      }
    }
  }

  lemma ZeroProducts(a0: int, b0: int, a1: int, b1: int)
    requires a0 == 0 || b0 == 0
    ensures a0 * b0 == 0 && (a1 * b0 == 0 || a0 * b1 == 0)
  {
  }

  // ----- when the multiplication meets its promise

  /**
   The products the macro gets wrong. With a factor 0 or 1: negative ones of operands whose
   common type is unsigned. With the least value of a type narrower than int: all that the
   destination could hold. Otherwise: negative ones, when an unsigned destination of at
   least int's width could hold the magnitude, or when they are a signed destination's
   least value.
   */
  predicate Mishandled(dest: CType, ta: CType, a: int, tb: CType, b: int) {
    var p := a * b;
    if TrivialFactor(a, b) then
      p < 0 && !Common(ta, tb).signed && (Fits(dest, p) || Fits(dest, p + Modulus(Common(ta, tb))))
    else if NarrowLeast(ta, a) || NarrowLeast(tb, b) then Fits(dest, p)
    else
      p < 0 && if dest.signed then p == Least(dest) else dest.width in {W32, W64} && -p <= Greatest(dest)
  }

  lemma CommonHolds(ta: CType, tb: CType, x: int)
    requires Fits(ta, x)
    ensures x >= 0 || Common(ta, tb).signed ==> Fits(Common(ta, tb), x)
    ensures x < 0 && !Common(ta, tb).signed ==> Convert(Common(ta, tb), x) == x + Modulus(Common(ta, tb))
    ensures Fits(Common(ta, tb), 1) && Fits(Common(ta, tb), 0)
  {
  }

  lemma CommonSymmetric(ta: CType, tb: CType)
    ensures Common(ta, tb) == Common(tb, ta)
  {
  }

  /** A product with a factor 0 or 1 is the other factor, or 0. */
  lemma TrivialProduct(ta: CType, a: int, tb: CType, b: int)
    requires Fits(ta, a) && Fits(tb, b) && TrivialFactor(a, b)
    ensures var c := Common(ta, tb);
            Convert(c, Convert(c, a) * Convert(c, b)) == if a * b < 0 && !c.signed then a * b + Modulus(c) else a * b
  {
    hide Convert, Common;
    var c := Common(ta, tb);
    CommonSymmetric(ta, tb);
    CommonHolds(ta, tb, a);
    CommonHolds(tb, ta, b);
    Zero(a, Convert(c, b));
    Zero(b, Convert(c, a));
    assert a * b == 0 || a * b == a || a * b == b;
  }

  lemma Zero(x: int, y: int)
    ensures x == 0 ==> x * y == 0 && y * x == 0
    ensures x == 1 ==> x * y == y && y * x == y
  {
  }

  lemma TrivialExactIff(dest: CType, ta: CType, a: int, tb: CType, b: int)
    requires Fits(ta, a) && Fits(tb, b) && TrivialFactor(a, b)
    ensures IntofMul(dest, ta, a, tb, b) == Checked(dest, a * b) <==> !Mishandled(dest, ta, a, tb, b)
  {
    hide Convert, Common, IntofAssign;
    var c := Common(ta, tb);
    TrivialProduct(ta, a, tb, b);
    var x := Convert(c, Convert(c, a) * Convert(c, b));
    Ranges(c, x);
    AssignExact(dest, x);
  }

  lemma OrdinaryExactIff(dest: CType, ta: CType, a: int, tb: CType, b: int)
    requires Fits(ta, a) && Fits(tb, b) && !TrivialFactor(a, b)
    requires NegationDefined(ta, a) && NegationDefined(tb, b) && !NarrowLeast(ta, a) && !NarrowLeast(tb, b)
    ensures IntofMul(dest, ta, a, tb, b) == Checked(dest, a * b) <==> !Mishandled(dest, ta, a, tb, b)
  {
    hide Convert, IntofAssign, Negate, Magnitude, MulMagnitudes, NegationDefined, NarrowLeast;
    MagnitudeIs(ta, a);
    MagnitudeIs(tb, b);
    SignedProduct(a, b);
    MulMagnitudesExact(dest, Abs(a), Abs(b));
    Restored(dest, a * b);
  }

  lemma LargeProduct(x: int, y: int)
    requires x >= B64 - 0x8000 && y >= 2
    ensures x * y >= B64 && y * x >= B64
  {
  }

  /**
   With the least value of a narrow type for a factor the macro reports an overflow, except
   into uintmax_t with the factor -1, where it stores 2^64 minus the product.
   */
  lemma NarrowLeastProduct(dest: CType, ta: CType, a: int, tb: CType, b: int)
    requires Fits(ta, a) && Fits(tb, b) && !TrivialFactor(a, b)
    requires NegationDefined(ta, a) && NegationDefined(tb, b) && (NarrowLeast(ta, a) || NarrowLeast(tb, b))
    ensures IntofMul(dest, ta, a, tb, b) ==
            if dest == UINTMAX && (a == -1 || b == -1) then Some(B64 - a * b) else None
    ensures dest == UINTMAX && (a == -1 || b == -1) ==> Fits(UINTMAX, a * b)
  {
    hide Convert, IntofAssign, Negate, Magnitude, MulMagnitudes;
    var ma, mb := Magnitude(ta, a), Magnitude(tb, b);
    MagnitudeIs(ta, a);
    MagnitudeIs(tb, b);
    MulMagnitudesExact(dest, ma, mb);
    DestinationRange(dest);
    if NarrowLeast(ta, a) && b == -1 {
      Only64(dest, ma);
      AssignExact(UINTMAX, ma);
    } else if NarrowLeast(tb, b) && a == -1 {
      Only64(dest, mb);
      AssignExact(UINTMAX, mb);
    } else if NarrowLeast(ta, a) {
      LargeProduct(ma, mb);
    } else {
      LargeProduct(mb, ma);
    }
  }

  lemma Only64(dest: CType, x: int)
    requires B64 - 0x8000 <= x < B64
    ensures Fits(dest, x) <==> dest == UINTMAX
  {
  }

  lemma NarrowExactIff(dest: CType, ta: CType, a: int, tb: CType, b: int)
    requires Fits(ta, a) && Fits(tb, b) && !TrivialFactor(a, b)
    requires NegationDefined(ta, a) && NegationDefined(tb, b) && (NarrowLeast(ta, a) || NarrowLeast(tb, b))
    ensures IntofMul(dest, ta, a, tb, b) == Checked(dest, a * b) <==> !Mishandled(dest, ta, a, tb, b)
  {
    hide IntofMul, NegationDefined;
    NarrowLeastProduct(dest, ta, a, tb, b);
    if dest == UINTMAX && (a == -1 || b == -1) {
      assert a * b <= 0x8000;
    }
  }

  lemma SignedProduct(a: int, b: int)
    requires a != 0 && b != 0
    ensures Abs(a) * Abs(b) == Abs(a * b) > 0
    ensures a * b < 0 <==> (a < 1) != (b < 1)
  {
  }

  /** Giving a magnitude that fits the destination its sign back. */
  lemma Restored(dest: CType, p: int)
    requires p != 0
    ensures Fits(dest, Abs(p)) && p > 0 ==> IntofAssign(dest, p) == Some(p)
    ensures Fits(dest, Abs(p)) && p < 0 ==>
              (IntofAssign(dest, Negate(dest, -p)) == Checked(dest, p)
               <==> dest.signed || dest.width == W8 || dest.width == W16)
    ensures !Fits(dest, Abs(p)) ==> (Fits(dest, p) <==> dest.signed && p == Least(dest))
  {
    hide IntofAssign;
    if Fits(dest, Abs(p)) {
      Ranges(dest, Abs(p));
      if p > 0 {
        AssignExact(dest, p);
      }
      Ranges(Promote(dest), Negate(dest, -p));
      AssignExact(dest, Negate(dest, -p));
    }
  }

  /**
   For operands of any types and a destination of any type, the multiplication stores a * b
   or reports that it does not fit exactly outside the mishandled products. C leaves only
   the negation of the least value of a signed type of at least int's width undefined. The
   macro negates its operands before it looks at the other factor; next to a factor 0 or 1,
   where it then does not use the result, that negation is taken to wrap around.
   */
  lemma MulExactIff(dest: CType, ta: CType, a: int, tb: CType, b: int)
    requires Fits(ta, a) && Fits(tb, b)
    requires TrivialFactor(a, b) || (NegationDefined(ta, a) && NegationDefined(tb, b))
    ensures IntofMul(dest, ta, a, tb, b) == Checked(dest, a * b) <==> !Mishandled(dest, ta, a, tb, b)
  {
    if TrivialFactor(a, b) {
      TrivialExactIff(dest, ta, a, tb, b);
    } else if NarrowLeast(ta, a) || NarrowLeast(tb, b) {
      NarrowExactIff(dest, ta, a, tb, b);
    } else {
      OrdinaryExactIff(dest, ta, a, tb, b);
    }
  }

  // ----- the two uses with operands and destination of one type

  /** uintmax_t operands and destination: overflow exactly from 2^64 on. */
  lemma MulUintmax(a: int, b: int)
    requires Fits(UINTMAX, a) && Fits(UINTMAX, b)
    ensures IntofMul(UINTMAX, UINTMAX, a, UINTMAX, b) == if a * b < B64 then Some(a * b) else None
  {
    hide IntofMul;
    MulExactIff(UINTMAX, UINTMAX, a, UINTMAX, b);
    MulSign(a, b);
  }

  lemma MulSign(a: int, b: int)
    requires a >= 0 && b >= 0
    ensures a * b >= 0
  {
  }

  /** intmax_t operands other than the least one: overflow exactly when the magnitude exceeds INTMAX_MAX. */
  lemma MulIntmax(a: int, b: int)
    requires Fits(INTMAX, a) && Fits(INTMAX, b) && a != Least(INTMAX) && b != Least(INTMAX)
    ensures IntofMul(INTMAX, INTMAX, a, INTMAX, b) == if Abs(a * b) <= Greatest(INTMAX) then Some(a * b) else None
  {
    hide IntofMul;
    MulExactIff(INTMAX, INTMAX, a, INTMAX, b);
    if a * b == Least(INTMAX) {
      Zero(a, b);
      Zero(b, a);
      LeastProduct(INTMAX, INTMAX, a, INTMAX, b);
    }
  }

  /** The least value of a signed destination as a product: reported as an overflow although it fits. */
  lemma LeastProduct(dest: CType, ta: CType, a: int, tb: CType, b: int)
    requires Fits(ta, a) && Fits(tb, b) && !TrivialFactor(a, b)
    requires NegationDefined(ta, a) && NegationDefined(tb, b)
    requires dest.signed && a * b == Least(dest)
    ensures IntofMul(dest, ta, a, tb, b) == None && Fits(dest, a * b)
  {
    hide Convert, IntofAssign, Negate, Magnitude, MulMagnitudes, NegationDefined, NarrowLeast;
    DestinationRange(dest);
    if NarrowLeast(ta, a) || NarrowLeast(tb, b) {
      NarrowLeastProduct(dest, ta, a, tb, b);
    } else {
      MagnitudeIs(ta, a);
      MagnitudeIs(tb, b);
      SignedProduct(a, b);
      MulMagnitudesExact(dest, Abs(a), Abs(b));
    }
  }

  /**
   A negative product whose magnitude an unsigned destination of at least int's width could
   hold is stored wrapped.
   */
  lemma NegativeIntoUnsigned(dest: CType, ta: CType, a: int, tb: CType, b: int)
    requires Fits(ta, a) && Fits(tb, b) && !TrivialFactor(a, b)
    requires NegationDefined(ta, a) && NegationDefined(tb, b) && !NarrowLeast(ta, a) && !NarrowLeast(tb, b)
    requires !dest.signed && dest.width in {W32, W64} && 0 < -(a * b) <= Greatest(dest)
    ensures IntofMul(dest, ta, a, tb, b) == Some(a * b + Modulus(dest))
  {
    hide Convert, IntofAssign, Magnitude, MulMagnitudes, NegationDefined, NarrowLeast;
    MagnitudeIs(ta, a);
    MagnitudeIs(tb, b);
    SignedProduct(a, b);
    MulMagnitudesExact(dest, Abs(a), Abs(b));
    NegateUnsigned(dest, -(a * b));
    AssignExact(dest, a * b + Modulus(dest));
  }

  lemma NegateUnsigned(t: CType, x: int)
    requires !t.signed && t.width in {W32, W64} && 0 < x <= Greatest(t)
    ensures Negate(t, x) == Modulus(t) - x
  {
  }

  /** For instance -3 times 2 into uintmax_t gives 2^64 - 6 and no overflow. */
  lemma MinusThreeTimesTwo()
    ensures IntofMul(UINTMAX, INTMAX, -3, INTMAX, 2) == Some(B64 - 6)
  {
    hide IntofMul, Convert;
    NegativeIntoUnsigned(UINTMAX, INTMAX, -3, INTMAX, 2);
  }

  /** The corner case the source names: SHRT_MIN times -1 into uintmax_t gives 2^64 - 32768 and no overflow. */
  lemma ShortLeastTimesMinusOne()
    ensures IntofMul(UINTMAX, SHORT, -32768, SHORT, -1) == Some(B64 - 32768)
  {
    hide IntofMul, Convert;
    NarrowLeastProduct(UINTMAX, SHORT, -32768, SHORT, -1);
  }

  /** Into int its products overflow by report, although int holds them. */
  lemma ShortLeastTimesTwo()
    ensures IntofMul(INT, SHORT, -32768, INT, 2) == None && Fits(INT, -32768 * 2)
  {
    hide IntofMul, Convert;
    NarrowLeastProduct(INT, SHORT, -32768, INT, 2);
  }

  /** A product with 1 is taken in the common type of the operands: -1 of int and 1 of unsigned int give 2^32 - 1. */
  lemma MinusOneTimesOne()
    ensures IntofMul(UINTMAX, INT, -1, UINT, 1) == Some(4294967295)
  {
    assert Common(INT, UINT) == UINT && Convert(UINT, -1) == 4294967295 && Convert(UINT, 1) == 1;
    assert Convert(UINT, 4294967295) == 4294967295;
    AssignExact(UINTMAX, 4294967295);
    hide Convert, IntofAssign;
  }
}
