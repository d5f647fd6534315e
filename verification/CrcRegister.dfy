/**
 Bit-serial division by x^16 + x^12 + x^5 + 1 over GF(2): the 16-bit register as
 its bits, the register fed bit by bit, and the algebra of both (linearity,
 injectivity, parity). Bits are consumed in the order of the sequence; the first
 message bit meets the top bit of the register.
 */
module CrcRegister {

  import opened BitSequences

  // ----- the register

  /** A 16-bit register, top bit first. */
  type Word = w: seq<bool> | |w| == 16 witness Zeros(16)

  const ZERO: Word := Zeros(16)

  /** x^12 + x^5 + 1, the polynomial below its leading term. */
  const POLY: Word := [false, false, false, true, false, false, false, false,
                       false, false, true, false, false, false, false, true]

  /** One division step: the incoming bit and the bit shifted out decide whether the polynomial is subtracted. */
  function Absorb(w: Word, bit: bool): Word {
    var shifted := w[1..] + [false];
    if w[0] != bit then Xor(shifted, POLY) else shifted
  }

  function Feed(w: Word, bits: seq<bool>): Word
    decreases |bits|
  {
    if bits == [] then w else Feed(Absorb(w, bits[0]), bits[1..])
  }

  // ----- linearity and injectivity

  lemma AbsorbLinear(v: Word, w: Word, a: bool, b: bool)
    ensures Absorb(Xor(v, w), a != b) == Xor(Absorb(v, a), Absorb(w, b))
  {
    var s, t := v[1..] + [false], w[1..] + [false];
    assert Xor(v, w)[1..] + [false] == Xor(s, t);
    if v[0] != a && w[0] != b {
      assert Xor(s, t) == Xor(Xor(s, POLY), Xor(t, POLY));
    } else if v[0] != a {
      assert Xor(Xor(s, t), POLY) == Xor(Xor(s, POLY), t);
    } else if w[0] != b {
      assert Xor(Xor(s, t), POLY) == Xor(s, Xor(t, POLY));
    }
  }

  lemma {:induction false} FeedLinear(v: Word, w: Word, a: seq<bool>, b: seq<bool>)
    requires |a| == |b|
    ensures Feed(Xor(v, w), Xor(a, b)) == Xor(Feed(v, a), Feed(w, b))
    decreases |a|
  {
    if a != [] {
      AbsorbLinear(v, w, a[0], b[0]);
      assert Xor(a, b)[1..] == Xor(a[1..], b[1..]);
      FeedLinear(Absorb(v, a[0]), Absorb(w, b[0]), a[1..], b[1..]);
    }
  }

  lemma {:induction false} FeedConcat(w: Word, a: seq<bool>, b: seq<bool>)
    ensures Feed(w, a + b) == Feed(Feed(w, a), b)
    decreases |a|
  {
    if a == [] {
      assert a + b == b;
    } else {
      assert (a + b)[1..] == a[1..] + b;
      FeedConcat(Absorb(w, a[0]), a[1..], b);
    }
  }

  /** The polynomial has a constant term, so a step on a zero bit cannot lose the register. */
  lemma AbsorbZero(w: Word)
    ensures Absorb(w, false) == ZERO <==> w == ZERO
  {
    if w[0] {
      assert Absorb(w, false)[15];
    } else if Absorb(w, false) == ZERO {
      forall i | 0 < i < 16
        ensures !w[i]
      {
        assert w[i] == Absorb(w, false)[i - 1];
      }
      assert w == ZERO;
    }
  }

  lemma {:induction false} FeedZeros(w: Word, n: nat)
    ensures Feed(w, Zeros(n)) == ZERO <==> w == ZERO
    decreases n
  {
    if n > 0 {
      assert Zeros(n)[1..] == Zeros(n - 1);
      AbsorbZero(w);
      FeedZeros(Absorb(w, false), n - 1);
    }
  }

  /** Feeding zeros is injective in the register. */
  lemma FeedZerosInjective(v: Word, w: Word, n: nat)
    requires Feed(v, Zeros(n)) == Feed(w, Zeros(n))
    ensures v == w
  {
    FeedLinear(v, w, Zeros(n), Zeros(n));
    assert Xor(Zeros(n), Zeros(n)) == Zeros(n);
    assert Xor(Feed(v, Zeros(n)), Feed(w, Zeros(n))) == ZERO;
    FeedZeros(Xor(v, w), n);
    XorZero(v, w);
  }

  lemma XorZero(v: Word, w: Word)
    ensures Xor(v, w) == ZERO <==> v == w
  {
    if Xor(v, w) == ZERO {
      forall i | 0 <= i < 16
        ensures v[i] == w[i]
      {
        assert !Xor(v, w)[i];
      }
    }
  }

  /** A register whose top bits are the next message bits loses them one by one. */
  lemma {:induction false} FeedOwnBits(s: seq<bool>)
    requires |s| <= 16
    ensures Feed(s + Zeros(16 - |s|), s) == ZERO
    decreases |s|
  {
    var w := s + Zeros(16 - |s|);
    if s != [] {
      assert Absorb(w, s[0]) == s[1..] + Zeros(16 - |s[1..]|);
      FeedOwnBits(s[1..]);
    }
  }

  /** At most sixteen bits act on the register as one difference at its top, followed by as many zero bits. */
  lemma FeedAsDifference(w: Word, s: seq<bool>)
    requires |s| <= 16
    ensures Feed(w, s) == Feed(Xor(w, s + Zeros(16 - |s|)), Zeros(|s|))
  {
    var v: Word := s + Zeros(16 - |s|);
    FeedOwnBits(s);
    FeedLinear(Xor(w, v), v, Zeros(|s|), s);
    assert Xor(Xor(w, v), v) == w;
    assert Xor(Zeros(|s|), s) == s;
    var z := Feed(Xor(w, v), Zeros(|s|));
    assert Xor(z, ZERO) == z;
  }

  /** Zero bits fed under a clear top only move the register up. */
  lemma {:induction false} FeedClearTop(n: nat, low: seq<bool>)
    requires n <= 16 && |low| == 16 - n
    ensures Feed(Zeros(n) + low, Zeros(n)) == low + Zeros(n)
    decreases n
  {
    if n == 0 {
      assert Zeros(0) + low == low == low + Zeros(0);
    } else {
      var w: Word := Zeros(n) + low;
      assert Absorb(w, false) == Zeros(n - 1) + (low + [false]);
      assert Zeros(n)[1..] == Zeros(n - 1);
      FeedClearTop(n - 1, low + [false]);
      assert (low + [false]) + Zeros(n - 1) == low + Zeros(n);
    }
  }

  /**
   The shape of a table-driven step: the part of the register under the consumed
   bits moves to the top, and the rest of the result depends only on the
   difference between the register's top and the input.
   */
  lemma FeedSplit(w: Word, s: seq<bool>)
    requires |s| <= 16
    ensures Feed(w, s) == Xor(w[|s|..] + Zeros(|s|), Feed(ZERO, Xor(w[..|s|], s)))
  {
    hide Feed;
    var n := |s|;
    var top, low := Xor(w[..n], s), w[n..];
    FeedAsDifference(w, s);
    assert Xor(w, s + Zeros(16 - n)) == top + low;
    FeedTopAndLow(top, low, Zeros(n));
    FeedAsDifference(ZERO, top);
    assert Xor(ZERO, top + Zeros(16 - n)) == top + Zeros(16 - n);
  }

  lemma FeedTopAndLow(top: seq<bool>, low: seq<bool>, z: seq<bool>)
    requires |top| + |low| == 16 && z == Zeros(|top|)
    ensures Feed(top + low, z) == Xor(low + z, Feed(top + Zeros(|low|), z))
  {
    hide Feed, Xor, Zeros;
    var u: Word, v: Word := z + low, top + Zeros(|low|);
    XorSelf(z);
    FeedLinear(u, v, z, z);
    FeedClearTop(|top|, low);
    XorOverlap(top, low);
  }

  // ----- parity

  lemma OneBitParity(n: nat)
    ensures Parity(Zeros(n) + [true])
  {
    ParityZeros(n);
    ParityConcat(Zeros(n), [true]);
  }

  /** The polynomial below its leading term has an odd number of terms. */
  lemma PolyParity()
    ensures Parity(POLY)
  {
    var a, b, c := Zeros(3) + [true], Zeros(6) + [true], Zeros(4) + [true];
    OneBitParity(3);
    OneBitParity(6);
    OneBitParity(4);
    ParityConcat(b, c);
    ParityConcat(a, b + c);
    assert POLY == a + (b + c);
  }

  lemma AbsorbParity(w: Word, bit: bool)
    ensures Parity(Absorb(w, bit)) == (Parity(w) != bit)
  {
    var shifted := w[1..] + [false];
    ParityConcat(w[1..], [false]);
    if w[0] != bit {
      PolyParity();
      ParityXor(shifted, POLY);
    }
  }

  /** The whole polynomial has an even number of terms, so feeding preserves total parity. */
  lemma {:induction false} FeedParity(w: Word, bits: seq<bool>)
    ensures Parity(Feed(w, bits)) == (Parity(w) != Parity(bits))
    decreases |bits|
  {
    if bits != [] {
      AbsorbParity(w, bits[0]);
      FeedParity(Absorb(w, bits[0]), bits[1..]);
    }
  }
}
