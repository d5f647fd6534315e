/**
 The multiplicative order of x modulo the generator is 32767 = 7 * 31 * 151. Powers
 of x are computed on words by repeated squaring; the order follows from four of them.
 */
module CrcOrder {
  import opened BitSequences
  import opened WordBits
  import opened CrcRegister
  import opened CrcTable

  /** x^n modulo the generator. */
  function Power(n: nat): bv16 { ShiftN(1, n) }

  predicate Period(n: nat) { Power(n) == 1 }

  // ----- shifting words, by way of their bits

  function Add(a: bv16, b: bv16): bv16 { a ^ b }

  lemma AddBits(a: bv16, b: bv16)
    ensures Bits16(Add(a, b)) == Xor(Bits16(a), Bits16(b))
  {
    Bits16Xor(a, b);
  }

  lemma ShiftNLinear(r: bv16, s: bv16, n: nat)
    ensures ShiftN(Add(r, s), n) == Add(ShiftN(r, n), ShiftN(s, n))
  {
    hide Feed, Bits16, Xor, ShiftN, Add;
    AddBits(r, s);
    AddBits(ShiftN(r, n), ShiftN(s, n));
    ShiftNBits(Add(r, s), n);
    ShiftNBits(r, n);
    ShiftNBits(s, n);
    FeedLinear(Bits16(r), Bits16(s), Zeros(n), Zeros(n));
    XorSelf(Zeros(n));
    Bits16Injective(ShiftN(Add(r, s), n), Add(ShiftN(r, n), ShiftN(s, n)));
  }

  lemma ShiftNInjective(r: bv16, s: bv16, n: nat)
    requires ShiftN(r, n) == ShiftN(s, n)
    ensures r == s
  {
    hide Feed, Bits16, ShiftN;
    ShiftNBits(r, n);
    ShiftNBits(s, n);
    FeedZerosInjective(Bits16(r), Bits16(s), n);
    Bits16Injective(r, s);
  }

  lemma {:induction false} ShiftNAdd(r: bv16, m: nat, n: nat)
    ensures ShiftN(r, m + n) == ShiftN(ShiftN(r, m), n)
    decreases m
  {
    if m > 0 {
      ShiftNAdd(Shift(r), m - 1, n);
    }
  }

  // ----- multiplication modulo the generator, four coefficients at a time

  function Shift4(p: bv16): bv16 { Shift(Shift(Shift(Shift(p)))) }

  function Low1(a: bv16): bv16 { a & 1 }

  function Drop1(a: bv16): bv16 { a >> 1 }

  function Drop4(a: bv16): bv16 { Drop1(Drop1(Drop1(Drop1(a)))) }

  function Pick(bit: bv16, p: bv16): bv16 { if bit == 1 then p else 0 }

  /** The product of the four low coefficients of a with p. */
  function Mul4(a: bv16, p: bv16): bv16 {
    var b, c, d := Drop1(a), Drop1(Drop1(a)), Drop1(Drop1(Drop1(a)));
    Add(Pick(Low1(a), p),
        Add(Pick(Low1(b), Shift(p)),
            Add(Pick(Low1(c), Shift(Shift(p))), Pick(Low1(d), Shift(Shift(Shift(p)))))))
  }

  /** The product of a and p modulo the generator. */
  function MulMod(a: bv16, p: bv16): bv16 {
    var a4, a8, a12 := Drop4(a), Drop4(Drop4(a)), Drop4(Drop4(Drop4(a)));
    var p4, p8, p12 := Shift4(p), Shift4(Shift4(p)), Shift4(Shift4(Shift4(p)));
    Add(Mul4(a, p), Add(Mul4(a4, p4), Add(Mul4(a8, p8), Mul4(a12, p12))))
  }

  /** A word is its constant coefficient plus x times the rest. */
  lemma LowBitSplit(a: bv16)
    ensures a == Add(Low1(a), Shift(Drop1(a)))
    ensures Low1(a) == 0 || Low1(a) == 1
  {
  }

  lemma NothingLeft(a: bv16)
    ensures Drop4(Drop4(Drop4(Drop4(a)))) == 0
  {
  }

  lemma ShiftLater(r: bv16, m: nat)
    ensures ShiftN(Shift(r), m) == ShiftN(r, m + 1)
    ensures ShiftN(r, m + 1) == Shift(ShiftN(r, m))
  {
    hide Shift;
    ShiftNAdd(r, m, 1);
    assert ShiftN(ShiftN(r, m), 1) == Shift(ShiftN(r, m));
  }

  lemma ShiftNBit(bit: bv16, m: nat)
    requires bit == 0 || bit == 1
    ensures ShiftN(bit, m) == Pick(bit, Power(m))
  {
    if bit == 0 {
      ShiftNLinear(0, 0, m);
      AddSelf(ShiftN(0, m));
      assert Add(0, 0) == 0;
    }
  }

  lemma AddSelf(r: bv16)
    ensures Add(r, r) == 0
  {
  }

  /** One coefficient: x^m * (c + x * rest) = c * x^m + x^(m+1) * rest. */
  lemma ShiftNSplit(a: bv16, m: nat)
    ensures ShiftN(a, m) == Add(Pick(Low1(a), Power(m)), ShiftN(Drop1(a), m + 1))
    ensures Power(m + 1) == Shift(Power(m))
  {
    hide Add, Shift, ShiftN, Pick, Low1, Drop1;
    var c, rest := Low1(a), Drop1(a);
    LowBitSplit(a);
    ShiftNLinear(c, Shift(rest), m);
    ShiftNBit(c, m);
    ShiftLater(rest, m);
    ShiftLater(1, m);
  }

  lemma AddAssociative(a: bv16, b: bv16, c: bv16)
    ensures Add(Add(a, b), c) == Add(a, Add(b, c))
  {
  }

  /** Four coefficients at once. */
  lemma ShiftNFour(a: bv16, m: nat)
    ensures ShiftN(a, m) == Add(Mul4(a, Power(m)), ShiftN(Drop4(a), m + 4))
    ensures Power(m + 4) == Shift4(Power(m))
  {
    hide Add, Shift, ShiftN, Pick, Low1, Drop1;
    var b, c, d := Drop1(a), Drop1(Drop1(a)), Drop1(Drop1(Drop1(a)));
    ShiftNSplit(a, m);
    ShiftNSplit(b, m + 1);
    ShiftNSplit(c, m + 2);
    ShiftNSplit(d, m + 3);
    var w, x, y, z := Pick(Low1(a), Power(m)), Pick(Low1(b), Power(m + 1)), Pick(Low1(c), Power(m + 2)),
      Pick(Low1(d), Power(m + 3));
    var rest := ShiftN(Drop4(a), m + 4);
    AddAssociative(w, Add(x, Add(y, z)), rest);
    AddAssociative(x, Add(y, z), rest);
    AddAssociative(y, z, rest);
  }

  /** Shifting a word m times multiplies it by x^m. */
  lemma ShiftNIsProduct(a: bv16, m: nat)
    ensures ShiftN(a, m) == MulMod(a, Power(m))
  {
    hide Mul4, ShiftN, Add, Shift4, Drop4, Pick;
    ShiftNFour(a, m);
    ShiftNFour(Drop4(a), m + 4);
    ShiftNFour(Drop4(Drop4(a)), m + 8);
    ShiftNFour(Drop4(Drop4(Drop4(a))), m + 12);
    NothingLeft(a);
    ShiftNOfZero(m + 16);
    AddZero(Mul4(Drop4(Drop4(Drop4(a))), Power(m + 12)));
  }

  lemma ShiftNOfZero(m: nat)
    ensures ShiftN(0, m) == 0
  {
    ShiftNBit(0, m);
  }

  lemma AddZero(r: bv16)
    ensures Add(r, 0) == r
  {
  }

  lemma Double(m: nat, p: bv16, q: bv16)
    requires Power(m) == p && MulMod(p, p) == q
    ensures Power(2 * m) == q
  {
    hide MulMod;
    ShiftNAdd(1, m, m);
    ShiftNIsProduct(p, m);
  }

  lemma DoubleAndStep(m: nat, p: bv16, q: bv16)
    requires Power(m) == p && Shift(MulMod(p, p)) == q
    ensures Power(2 * m + 1) == q
  {
    hide MulMod, Shift, ShiftN;
    Double(m, p, MulMod(p, p));
    ShiftLater(1, 2 * m);
  }

  lemma PowerSixteen()
    ensures Power(16) == 0x1021
  {
    ShiftNAdd(1, 8, 8);
    assert Power(8) == 0x0100;
    assert ShiftN(0x0100, 8) == 0x1021;
  }

  /** x^217 is not 1. */
  lemma PowerOf217()
    ensures Power(217) == 0x48E3
  {
    assert Power(13) == 0x2000;
    DoubleAndStep(13, 0x2000, 0x89A9);
    Double(27, 0x89A9, 0x1168);
    Double(54, 0x1168, 0x3750);
    DoubleAndStep(108, 0x3750, 0x48E3);
  }

  /** x^1057 is not 1. */
  lemma PowerOf1057()
    ensures Power(1057) == 0xF2AF
  {
    PowerSixteen();
    DoubleAndStep(16, 0x1021, 0x6E60);
    Double(33, 0x6E60, 0xC1C6);
    Double(66, 0xC1C6, 0x4E8A);
    Double(132, 0x4E8A, 0x5946);
    Double(264, 0x5946, 0x78B3);
    DoubleAndStep(528, 0x78B3, 0xF2AF);
  }

  lemma PowerOf292()
    ensures Power(292) == 0x1396
  {
    assert Power(9) == 0x0200;
    Double(9, 0x0200, 0x4084);
    Double(18, 0x4084, 0x4363);
    DoubleAndStep(36, 0x4363, 0x8FA6);
    Double(73, 0x8FA6, 0x4388);
    Double(146, 0x4388, 0x1396);
  }

  /** x^4681 is not 1. */
  lemma PowerOf4681()
    ensures Power(4681) == 0x2C42
  {
    PowerOf292();
    DoubleAndStep(292, 0x1396, 0x4500);
    Double(585, 0x4500, 0x0163);
    Double(1170, 0x0163, 0x0424);
    DoubleAndStep(2340, 0x0424, 0x2C42);
  }

  lemma PowerOf1024()
    ensures Power(1024) == 0x36C4
  {
    PowerSixteen();
    Double(16, 0x1021, 0x3730);
    Double(32, 0x3730, 0xB861);
    Double(64, 0xB861, 0xAEFC);
    Double(128, 0xAEFC, 0x8E29);
    Double(256, 0x8E29, 0x13FC);
    Double(512, 0x13FC, 0x36C4);
  }

  /** x^32768 is x again. */
  lemma PowerOf32768()
    ensures Power(32768) == 0x0002
  {
    PowerOf1024();
    Double(1024, 0x36C4, 0xFD50);
    Double(2048, 0xFD50, 0xAA9E);
    Double(4096, 0xAA9E, 0x881C);
    Double(8192, 0x881C, 0x4458);
    Double(16384, 0x4458, 0x0002);
  }

  // ----- the order

  lemma PeriodSum(a: nat, b: nat)
    requires Period(a)
    ensures Period(a + b) <==> Period(b)
  {
    hide ShiftN;
    ShiftNAdd(1, a, b);
  }

  lemma {:induction false} PeriodMultiple(a: nat, k: nat)
    requires Period(a)
    ensures Period(k * a)
    decreases k
  {
    if k > 0 {
      PeriodMultiple(a, k - 1);
      PeriodSum(a, (k - 1) * a);
      assert k * a == a + (k - 1) * a;
    }
  }

  /** Periods are closed under greatest common divisors: Euclid's algorithm stays among them. */
  lemma {:induction false} PeriodGcd(a: nat, b: nat) returns (g: nat, x: nat, y: nat)
    requires a > 0 && Period(a) && Period(b)
    ensures g > 0 && Period(g) && a == g * x && b == g * y
    decreases b
  {
    if b == 0 {
      g, x, y := a, 1, 0;
    } else {
      hide Period;
      var q, r := a / b, a % b;
      assert a == q * b + r;
      PeriodMultiple(b, q);
      PeriodSum(q * b, r);
      g, y, x := PeriodGcd(b, r);
      assert q * b + r == g * (q * y + x) by {
        assert q * b == g * (q * y);
      }
      x := q * y + x;
    }
  }

  lemma FullPeriod()
    ensures Period(32767)
  {
    PowerOf32768();
    ShiftNAdd(1, 32767, 1);
    ShiftNAdd(1, 0, 1);
    hide ShiftN;
    assert ShiftN(1, 1) == 2 by { ShiftOnce(); }
    assert ShiftN(ShiftN(1, 32767), 1) == ShiftN(1, 1);
    ShiftNInjective(ShiftN(1, 32767), 1, 1);
  }

  lemma ShiftOnce()
    ensures ShiftN(1, 1) == 2
  {
  }

  lemma NotPeriods()
    ensures !Period(217) && !Period(1057) && !Period(4681)
  {
    PowerOf217();
    PowerOf1057();
    PowerOf4681();
  }

  ghost predicate Prime(p: nat) {
    p > 1 && forall d :: 1 < d < p ==> p % d != 0
  }

  /** A prime that divides a product but not one factor divides the other: Euclid's algorithm on the factor. */
  lemma {:induction false} PrimeDivides(p: nat, a: nat, b: nat, c: int) returns (m: int)
    requires Prime(p) && a * b == p * c && 0 < b < p
    ensures a == p * m
    decreases b
  {
    if b == 1 {
      m := c;
    } else {
      var q, r := p / b, p % b;
      assert p == q * b + r;
      assert a * r == p * (a - q * c) by {
        assert a * p == q * (a * b) + a * r;
        assert q * (p * c) == p * (q * c);
      }
      m := PrimeDivides(p, a, r, a - q * c);
    }
  }

  lemma Factor(p: nat, a: nat, b: nat, c: nat) returns (m: nat)
    requires Prime(p) && a * b == p * c && b % p != 0
    ensures a == p * m
  {
    var q, s := b / p, b % p;
    assert b == p * q + s;
    assert a * b == p * (a * q) + a * s;
    var n := PrimeDivides(p, a, s, c - a * q);
    NonNegative(p, n);
    m := n;
  }

  lemma NonNegative(p: nat, n: int)
    requires p > 0 && p * n >= 0
    ensures n >= 0
  {
  }

  lemma SmallPrimes()
    ensures Prime(7) && Prime(31)
  {
    forall d | 1 < d < 31
      ensures 31 % d != 0
    {
      if d <= 10 {
        assert d == 2 || d == 3 || d == 4 || d == 5 || d == 6 || d == 7 || d == 8 || d == 9 || d == 10;
      } else if d <= 20 {
        assert d == 11 || d == 12 || d == 13 || d == 14 || d == 15 || d == 16 || d == 17 || d == 18 || d == 19
               || d == 20;
      } else {
        assert d == 21 || d == 22 || d == 23 || d == 24 || d == 25 || d == 26 || d == 27 || d == 28 || d == 29
               || d == 30;
      }
    }
    forall d | 1 < d < 7
      ensures 7 % d != 0
    {
      assert d == 2 || d == 3 || d == 4 || d == 5 || d == 6;
    }
  }

  lemma UpToTwelve(m: nat)
    requires m < 13
    ensures m == 0 || m == 1 || m == 2 || m == 3 || m == 4 || m == 5 || m == 6
         || m == 7 || m == 8 || m == 9 || m == 10 || m == 11 || m == 12
  {
  }

  /** 151 is prime: of two factors one is below 13. */
  lemma OneFiftyOne(a: nat, b: nat)
    requires a * b == 151 && b > 1
    ensures a == 1
  {
    if a < 13 {
      UpToTwelve(a);
    } else if b < 13 {
      UpToTwelve(b);
    } else {
      MulMonotonic(13, 13, b);
      MulMonotonic(b, 13, a);
    }
  }

  /** A proper divisor of 32767 divides 4681, 1057 or 217. */
  lemma ProperDivisor(g: nat, k: nat)
    requires g * k == 32767 && k > 1
    ensures (exists j: nat :: j * g == 4681) || (exists j: nat :: j * g == 1057) || (exists j: nat :: j * g == 217)
  {
    if k % 7 == 0 {
      var j := k / 7;
      assert 7 * (j * g) == g * k by { assert k == 7 * j; }
      assert j * g == 4681;
    } else if k % 31 == 0 {
      var j := k / 31;
      assert 31 * (j * g) == g * k by { assert k == 31 * j; }
      assert j * g == 1057;
    } else {
      SmallPrimes();
      var g7 := Factor(7, g, k, 4681);
      assert 7 * (g7 * k) == g * k;
      var g217 := Factor(31, g7, k, 151);
      assert 31 * (g217 * k) == g7 * k;
      OneFiftyOne(g217, k);
      assert g == 217;
      assert 1 * g == 217;
    }
  }

  /** x^n = 1 modulo the generator exactly for the multiples of 32767. */
  lemma OrderOfX(n: nat)
    ensures Period(n) <==> n % 32767 == 0
  {
    hide Period;
    FullPeriod();
    var q, r := n / 32767, n % 32767;
    PeriodMultiple(32767, q);
    PeriodSum(q * 32767, r);
    assert q * 32767 + r == n;
    if r == 0 {
      assert Period(0) by { PeriodZero(); }
    } else {
      NoSmallPeriod(r);
    }
  }

  lemma NoSmallPeriod(r: nat)
    requires 0 < r < 32767
    ensures !Period(r)
  {
    hide Period;
    if Period(r) {
      FullPeriod();
      var g, x, y := PeriodGcd(r, 32767);
      assert x >= 1;
      MulMonotonic(g, 1, x);
      assert y > 1 by {
        if y <= 1 {
          MulMonotonic(g, y, 1);
        }
      }
      ProperDivisor(g, y);
      var j: nat :| j * g == 4681 || j * g == 1057 || j * g == 217;
      PeriodMultiple(g, j);
      NotPeriods();
    }
  }

  lemma MulMonotonic(g: nat, x: nat, y: nat)
    requires x <= y
    ensures g * x <= g * y
  {
  }

  lemma PeriodZero()
    ensures Period(0)
  {
  }
}
