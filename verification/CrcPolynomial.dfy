/**
 The register as a remainder of polynomials over GF(2). A polynomial is the
 sequence of its coefficients, highest power first; multiplication is the
 schoolbook sum of shifted copies.
 */
module CrcPolynomial {
  import opened BitSequences
  import opened WordBits
  import opened CrcRegister
  import opened CrcEngine

  /** x^16 + x^12 + x^5 + 1. */
  const GENERATOR: seq<bool> := [true] + POLY

  /** The product of two polynomials. */
  function Mul(q: seq<bool>, g: seq<bool>): (p: seq<bool>)
    requires g != []
    ensures |p| == |q| + |g| - 1
    decreases |q|
  {
    if q == [] then Zeros(|g| - 1) else Xor(Scaled(q[0], g, |q| - 1), [false] + Mul(q[1..], g))
  }

  /** c * g * x^n. */
  function Scaled(c: bool, g: seq<bool>, n: nat): (p: seq<bool>)
    ensures |p| == |g| + n
  {
    if c then g + Zeros(n) else Zeros(|g| + n)
  }

  /** The dividend of a register w and a message m: w * x^|m| + m * x^16. */
  function Dividend(w: Word, m: seq<bool>): (p: seq<bool>)
    ensures |p| == |m| + 16
  {
    Xor(w + Zeros(|m|), m + Zeros(16))
  }

  /** The bits that decided the subtractions. */
  function Quotient(w: Word, m: seq<bool>): (q: seq<bool>)
    ensures |q| == |m|
    decreases |m|
  {
    if m == [] then [] else [w[0] != m[0]] + Quotient(Absorb(w, m[0]), m[1..])
  }

  /** One step of long division: subtract the generator under the leading coefficient and bring the rest forward. */
  lemma DividendStep(w: Word, m: seq<bool>)
    requires m != []
    ensures Dividend(w, m) == Xor(Scaled(w[0] != m[0], GENERATOR, |m| - 1), [false] + Dividend(Absorb(w, m[0]), m[1..]))
  {
    var c, v, t := w[0] != m[0], Absorb(w, m[0]), m[1..];
    var left, right := Dividend(w, m), Xor(Scaled(c, GENERATOR, |m| - 1), [false] + Dividend(v, t));
    forall i | 0 <= i < |left|
      ensures left[i] == right[i]
    {
      if 0 < i < 16 {
        assert v[i - 1] == (w[i] != (c && POLY[i - 1]));
      } else if i == 16 {
        assert v[15] == (c && POLY[15]);
      }
    }
  }

  /** Xor with the same string on both sides cancels. */
  lemma XorCancels(a: seq<bool>, b: seq<bool>, c: seq<bool>)
    requires |a| == |b| == |c|
    ensures Xor(a, b) == Xor(a, c) <==> b == c
  {
    if Xor(a, b) == Xor(a, c) {
      forall i | 0 <= i < |b|
        ensures b[i] == c[i]
      {
        assert Xor(a, b)[i] == Xor(a, c)[i];
      }
    }
  }

  lemma XorMoves(a: seq<bool>, b: seq<bool>, c: seq<bool>)
    requires |a| == |b| + 1 == |c| + 1
    ensures Xor(Xor(a, [false] + b), [false] + c) == Xor(a, [false] + Xor(b, c))
  {
  }

  lemma TailEquality(a: seq<bool>, b: seq<bool>)
    ensures [false] + a == [false] + b <==> a == b
  {
    assert ([false] + a)[1..] == a && ([false] + b)[1..] == b;
  }

  /** The generator is monic, so the leading coefficient of the dividend is the leading quotient bit. */
  lemma LeadingCoefficient(w: Word, m: seq<bool>, c: bool, inner: seq<bool>)
    requires m != [] && |inner| == |m| + 15
    ensures Dividend(w, m)[0] == (w[0] != m[0])
    ensures Xor(Scaled(c, GENERATOR, |m| - 1), [false] + inner)[0] == c
  {
  }

  /** A product plus a low part, with the leading coefficient of the quotient split off. */
  lemma MulStep(q: seq<bool>, low: seq<bool>)
    requires q != [] && |low| == |q| + 15
    ensures Xor(Mul(q, GENERATOR), [false] + low) ==
            Xor(Scaled(q[0], GENERATOR, |q| - 1), [false] + Xor(Mul(q[1..], GENERATOR), low))
  {
    XorMoves(Scaled(q[0], GENERATOR, |q| - 1), Mul(q[1..], GENERATOR), low);
  }

  lemma ZerosStep(n: nat, r: seq<bool>)
    ensures Zeros(n + 1) + r == [false] + (Zeros(n) + r)
  {
  }

  /** One step of the division peels one coefficient off quotient and dividend. */
  lemma QuotientPeels(w: Word, m: seq<bool>, q: seq<bool>, r: Word)
    requires |q| == |m| > 0
    ensures Dividend(w, m) == Xor(Mul(q, GENERATOR), Zeros(|m|) + r) <==>
            q[0] == (w[0] != m[0]) &&
            Dividend(Absorb(w, m[0]), m[1..]) == Xor(Mul(q[1..], GENERATOR), Zeros(|m| - 1) + r)
  {
    hide Mul, Absorb, Scaled, Dividend, Xor, Zeros;
    var next, n := Dividend(Absorb(w, m[0]), m[1..]), |m| - 1;
    var low := Zeros(n) + r;
    var inner := Xor(Mul(q[1..], GENERATOR), low);
    ZerosStep(n, r);
    MulStep(q, low);
    LeadingCoefficient(w, m, q[0], inner);
    if q[0] == (w[0] != m[0]) {
      DividendStep(w, m);
      SameLead(Scaled(q[0], GENERATOR, n), next, inner);
    }
  }

  lemma SameLead(lead: seq<bool>, next: seq<bool>, inner: seq<bool>)
    requires |lead| == |next| + 1 == |inner| + 1
    ensures Xor(lead, [false] + next) == Xor(lead, [false] + inner) <==> next == inner
  {
    hide Xor;
    XorCancels(lead, [false] + next, [false] + inner);
    TailEquality(next, inner);
  }

  lemma EmptyDivision(w: Word, r: Word)
    ensures Dividend(w, []) == w
    ensures Xor(Mul([], GENERATOR), Zeros(0) + r) == r
  {
  }

  lemma Prepend(q: seq<bool>, c: bool, t: seq<bool>)
    requires q != []
    ensures q == [c] + t <==> q[0] == c && q[1..] == t
  {
    assert q == [q[0]] + q[1..];
  }

  /**
   Division with remainder, and its uniqueness: quotient and register are the only
   polynomials q and r, with r below degree 16, for which dividend = q * generator + r.
   */
  lemma {:induction false} RegisterIsRemainder(w: Word, m: seq<bool>, q: seq<bool>, r: Word)
    requires |q| == |m|
    ensures Dividend(w, m) == Xor(Mul(q, GENERATOR), Zeros(|m|) + r) <==> q == Quotient(w, m) && r == Feed(w, m)
    decreases |m|
  {
    hide Mul, Absorb, Dividend, Xor, Zeros;
    if m == [] {
      EmptyDivision(w, r);
    } else {
      QuotientPeels(w, m, q, r);
      RegisterIsRemainder(Absorb(w, m[0]), m[1..], q[1..], r);
      Prepend(q, w[0] != m[0], Quotient(Absorb(w, m[0]), m[1..]));
    }
  }

  lemma XmodemRemainder(data: seq<bv8>)
    ensures Remainder(Overlay(DEFAULTS, CRC_CCIT_XMODEM), data) == Feed(ZERO, MessageBits(0, data))
  {
    hide Feed, MessageBits, Bits16;
    Bits16Zero();
  }

  /**
   The update loop from a zero register without reflection (mode XMODEM): the register
   after M is M(x) * x^16 modulo the generator, for messages of any length.
   */
  lemma XmodemIsModulo(data: seq<bv8>, r: Word)
    ensures r == Remainder(Overlay(DEFAULTS, CRC_CCIT_XMODEM), data) <==>
            exists q :: |q| == 8 * |data| && MessageBits(0, data) + Zeros(16) == Xor(Mul(q, GENERATOR), Zeros(|q|) + r)
  {
    hide Mul, Feed, MessageBits, Remainder, Overlay, Quotient;
    var m := MessageBits(0, data);
    XmodemRemainder(data);
    assert Dividend(ZERO, m) == m + Zeros(16);
    forall q: seq<bool> | |q| == |m|
      ensures m + Zeros(16) == Xor(Mul(q, GENERATOR), Zeros(|q|) + r) <==> q == Quotient(ZERO, m) && r == Feed(ZERO, m)
    {
      RegisterIsRemainder(ZERO, m, q, r);
    }
    var q := Quotient(ZERO, m);
    assert |q| == |m|;
  }
}
