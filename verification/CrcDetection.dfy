/**
 What the receiver's comparison detects. A frame is a payload and two CRC bytes; its
 bits are taken in the order the CRC consumes them. Acceptance is the same as a zero
 register after the whole frame, and a change of the frame goes unnoticed exactly
 when the changed bits alone divide to zero.
 */
module CrcDetection {
  import opened Sequences
  import opened BitSequences
  import opened WordBits
  import opened CrcRegister
  import opened CrcTable
  import opened CrcEngine
  import opened CrcOrder

  const KERMIT: Params := Params(0, 0, 1, 1)

  /** The comparison of the receiver: the CRC bytes on the wire are the CRC computed over the payload. */
  predicate Matches(payload: seq<bv8>, c1: bv8, c2: bv8) {
    Bits8(c1) + Bits8(c2) == CrcBits(KERMIT, 1, payload)
  }

  /** The bits of a frame as they reach the register. */
  function FrameBits(frame: seq<bv8>): (s: seq<bool>)
    ensures |s| == 8 * |frame|
  {
    MessageBits(1, frame)
  }

  /** A frame the receiver accepts. */
  predicate Accepted(frame: seq<bv8>) {
    |frame| >= 2 && Matches(frame[..|frame| - 2], frame[|frame| - 2], frame[|frame| - 1])
  }

  lemma KermitMode()
    ensures Overlay(DEFAULTS, CRC_CCIT_KERMIT) == KERMIT
  {
  }

  // ----- acceptance is a zero register

  /** With bytes exchanged, the mirrored remainder goes out so that each wire byte mirrors one register byte. */
  lemma KermitWireBytes(payload: seq<bv8>, c1: bv8, c2: bv8)
    ensures Matches(payload, c1, c2) <==> ByteBits(1, c1) + ByteBits(1, c2) == Remainder(KERMIT, payload)
  {
    var r := Remainder(KERMIT, payload);
    var x := Xor(Rev(r), Bits16(0));
    Bits16Zero();
    assert x == Rev(r);
    assert CrcBits(KERMIT, 1, payload) == x[8..] + x[..8];
    hide Remainder, Bits8, Bits16, CrcBits;
    var a, b := Bits8(c1), Bits8(c2);
    MirroredHalves(a, b, r);
  }

  lemma MirroredHalves(a: seq<bool>, b: seq<bool>, r: Word)
    requires |a| == 8 && |b| == 8
    ensures a + b == Rev(r)[8..] + Rev(r)[..8] <==> Rev(a) + Rev(b) == r
  {
    if a + b == Rev(r)[8..] + Rev(r)[..8] {
      assert a == (a + b)[..8] == Rev(r)[8..];
      assert b == (a + b)[8..] == Rev(r)[..8];
      assert Rev(a) + Rev(b) == r;
    }
    if Rev(a) + Rev(b) == r {
      forall i | 0 <= i < 8
        ensures a[i] == Rev(r)[8 + i] && b[i] == Rev(r)[i]
      {
        assert r[7 - i] == Rev(a)[7 - i] && r[15 - i] == Rev(b)[7 - i];
      }
      assert a + b == Rev(r)[8..] + Rev(r)[..8];
    }
  }

  /** Two more bytes clear the register exactly when they are its own bits. */
  lemma SixteenMoreBits(w: Word, s: Word)
    ensures Feed(w, s) == ZERO <==> s == w
  {
    hide Feed;
    FeedAsDifference(w, s);
    assert s + Zeros(0) == s;
    FeedZeros(Xor(w, s), 16);
    XorZero(w, s);
  }

  /** The receiver accepts a frame exactly when payload and CRC together divide to zero. */
  lemma AcceptedIffZero(frame: seq<bv8>)
    requires |frame| >= 2
    ensures Accepted(frame) <==> Feed(ZERO, FrameBits(frame)) == ZERO
  {
    var n := |frame| - 2;
    var payload, c1, c2 := frame[..n], frame[n], frame[n + 1];
    assert frame == payload + [c1, c2];
    MessageBitsConcat(1, payload, [c1, c2]);
    assert MessageBits(1, [c1, c2]) == ByteBits(1, c1) + ByteBits(1, c2) by {
      assert [c1, c2][1..] == [c2] && [c2][1..] == [];
      assert MessageBits(1, [c2]) == ByteBits(1, c2) + [] == ByteBits(1, c2);
    }
    KermitWireBytes(payload, c1, c2);
    Bits16Zero();
    hide Feed, ByteBits, Matches, Bits16, MessageBits;
    FeedConcat(ZERO, MessageBits(1, payload), ByteBits(1, c1) + ByteBits(1, c2));
    SixteenMoreBits(Feed(ZERO, MessageBits(1, payload)), ByteBits(1, c1) + ByteBits(1, c2));
  }

  // ----- changes of an accepted frame

  /** The bits in which two frames differ. */
  function Difference(frame: seq<bv8>, received: seq<bv8>): (e: seq<bool>)
    requires |frame| == |received|
    ensures |e| == 8 * |frame|
  {
    Xor(FrameBits(frame), FrameBits(received))
  }

  /** Linearity: a change of an accepted frame is accepted exactly when the changed bits divide to zero. */
  lemma ChangeAccepted(frame: seq<bv8>, received: seq<bv8>)
    requires Accepted(frame) && |frame| == |received|
    ensures Accepted(received) <==> Feed(ZERO, Difference(frame, received)) == ZERO
  {
    hide Feed, Accepted, FrameBits;
    AcceptedIsLong(frame);
    AcceptedIffZero(frame);
    AcceptedIffZero(received);
    var a, b := FrameBits(frame), FrameBits(received);
    FeedLinear(ZERO, ZERO, a, b);
    XorZero(Feed(ZERO, a), Feed(ZERO, b));
    assert Xor(ZERO, ZERO) == ZERO;
  }

  lemma AcceptedIsLong(frame: seq<bv8>)
    requires Accepted(frame)
    ensures |frame| >= 2
  {
  }

  // ----- odd errors

  /** Flipping an odd number of bits of an accepted frame is always detected. */
  lemma OddErrorsDetected(frame: seq<bv8>, received: seq<bv8>)
    requires Accepted(frame) && |frame| == |received|
    requires Parity(Difference(frame, received))
    ensures !Accepted(received)
  {
    hide Feed, Accepted, Difference;
    ChangeAccepted(frame, received);
    FeedParity(ZERO, Difference(frame, received));
    ParityZeros(16);
  }

  // ----- bursts

  /** All set bits of e lie in the sixteen positions from k. */
  predicate Within(e: seq<bool>, k: nat) {
    forall i :: 0 <= i < |e| && e[i] ==> k <= i < k + 16
  }

  lemma NonzeroBurst(e: seq<bool>, k: nat)
    requires k + 16 <= |e| && Within(e, k)
    requires exists i :: 0 <= i < |e| && e[i]
    ensures Feed(ZERO, e) != ZERO
  {
    var burst: Word, m := e[k..k + 16], |e| - k - 16;
    assert burst != ZERO by {
      var i :| 0 <= i < |e| && e[i];
      assert burst[i - k];
    }
    assert e == Zeros(k) + (burst + Zeros(m));
    hide Feed;
    FeedPadded(k, burst, m);
    SixteenMoreBits(ZERO, burst);
  }

  /** Any change confined to sixteen consecutive bits of an accepted frame is detected. */
  lemma BurstsDetected(frame: seq<bv8>, received: seq<bv8>, k: nat)
    requires Accepted(frame) && |frame| == |received| && frame != received
    requires Within(Difference(frame, received), k)
    ensures !Accepted(received)
  {
    hide Feed, Accepted;
    var e := Difference(frame, received);
    AcceptedIsLong(frame);
    ChangeAccepted(frame, received);
    FrameBitsInjective(frame, received);
    assert exists i :: 0 <= i < |e| && e[i];
    NonzeroBurst(e, if k + 16 <= |e| then k else |e| - 16);
  }

  lemma TopByte(a: bv8)
    ensures High(ShlByte(Wide(a))) == a
  {
  }

  lemma Bits8Injective(a: bv8, b: bv8)
    requires Bits8(a) == Bits8(b)
    ensures a == b
  {
    Bits16TopByte(a);
    Bits16TopByte(b);
    Bits16Injective(ShlByte(Wide(a)), ShlByte(Wide(b)));
    TopByte(a);
    TopByte(b);
  }

  /** Different frames of the same length differ in some bit. */
  lemma {:induction false} FrameBitsInjective(f: seq<bv8>, g: seq<bv8>)
    requires |f| == |g| && f != g
    ensures exists i :: 0 <= i < |Difference(f, g)| && Difference(f, g)[i]
    decreases |f|
  {
    var e := Difference(f, g);
    var a, b := ByteBits(1, f[0]), ByteBits(1, g[0]);
    if f[0] != g[0] {
      if forall i :: 0 <= i < 8 ==> !e[i] {
        assert forall i :: 0 <= i < 8 ==> a[i] == FrameBits(f)[i] && b[i] == FrameBits(g)[i];
        assert forall i :: 0 <= i < 8 ==> a[i] == b[i];
        assert a == b;
        RevInjective(Bits8(f[0]), Bits8(g[0]));
        Bits8Injective(f[0], g[0]);
      }
    } else {
      FrameBitsInjective(f[1..], g[1..]);
      var i :| 0 <= i < |Difference(f[1..], g[1..])| && Difference(f[1..], g[1..])[i];
      assert e[8 + i];
    }
  }

  // ----- two-bit errors

  /** Exactly the bits i and j of e are set. */
  predicate TwoBits(e: seq<bool>, i: nat, j: nat) {
    i < j < |e| && forall k :: 0 <= k < |e| ==> (e[k] <==> k == i || k == j)
  }

  /** A single bit leaves x^16 in the register. */
  lemma SingleBit()
    ensures Absorb(ZERO, true) == Bits16(Power(16))
  {
    PowerSixteen();
    PolyBits();
    assert Xor(Zeros(15) + [false], POLY) == POLY;
  }

  /** A second set bit d places later meets the first one's remainder after d steps. */
  lemma SecondBit(v: Word)
    ensures Absorb(v, true) == Xor(Absorb(v, false), Absorb(ZERO, true))
  {
    AbsorbLinear(v, ZERO, false, true);
    assert Xor(v, ZERO) == v;
  }

  lemma FeedOneZero(w: Word, n: nat)
    ensures Absorb(Feed(w, Zeros(n)), false) == Feed(w, Zeros(n + 1))
  {
    assert Zeros(n + 1) == Zeros(n) + [false];
    FeedConcat(w, Zeros(n), [false]);
    assert Feed(Feed(w, Zeros(n)), [false]) == Absorb(Feed(w, Zeros(n)), false);
  }

  lemma PowerReturns(d: nat)
    ensures ShiftN(Power(16), d) == Power(16) <==> Period(d)
  {
    hide ShiftN;
    ShiftNAdd(1, 16, d);
    ShiftNAdd(1, d, 16);
    if ShiftN(Power(d), 16) == ShiftN(1, 16) {
      ShiftNInjective(Power(d), 1, 16);
    }
  }

  lemma WordReturns(r: bv16, d: nat)
    ensures Feed(Bits16(r), Zeros(d)) == Bits16(r) <==> ShiftN(r, d) == r
  {
    hide ShiftN, Bits16, Feed;
    ShiftNBits(r, d);
    Bits16Injective(ShiftN(r, d), r);
  }

  lemma TwoBitRemainder(d: nat)
    requires d > 0
    ensures Feed(ZERO, [true] + Zeros(d - 1) + [true]) == ZERO <==> Period(d)
  {
    hide Feed, Absorb, Bits16, Power, Period;
    var u: Word := Absorb(ZERO, true);
    var v: Word := Feed(u, Zeros(d - 1));
    TwoBitFeed(d - 1);
    SecondBit(v);
    FeedOneZero(u, d - 1);
    XorZero(Feed(u, Zeros(d)), u);
    SingleBit();
    WordReturns(Power(16), d);
    PowerReturns(d);
  }

  lemma TwoBitFeed(n: nat)
    ensures Feed(ZERO, [true] + Zeros(n) + [true]) == Absorb(Feed(Absorb(ZERO, true), Zeros(n)), true)
  {
    var u: Word := Absorb(ZERO, true);
    hide Absorb;
    assert Feed(ZERO, [true]) == Feed(u, []) == u;
    var v: Word := Feed(u, Zeros(n));
    assert Feed(v, [true]) == Feed(Absorb(v, true), []);
    FeedConcat(ZERO, [true] + Zeros(n), [true]);
    FeedConcat(ZERO, [true], Zeros(n));
  }

  /** Two changed bits go unnoticed exactly when their distance is a multiple of 32767. */
  lemma TwoBitErrors(frame: seq<bv8>, received: seq<bv8>, i: nat, j: nat)
    requires Accepted(frame) && |frame| == |received|
    requires TwoBits(Difference(frame, received), i, j)
    ensures Accepted(received) <==> (j - i) % 32767 == 0
  {
    var e, d := Difference(frame, received), j - i;
    var core, m := [true] + Zeros(d - 1) + [true], |e| - j - 1;
    TwoBitsShape(e, i, j, core, m);
    hide *;
    ChangeAccepted(frame, received);
    FeedPadded(i, core, m);
    TwoBitRemainder(d);
    OrderOfX(d);
  }

  lemma TwoBitsShape(e: seq<bool>, i: nat, j: nat, core: seq<bool>, m: nat)
    requires TwoBits(e, i, j)
    requires core == [true] + Zeros(j - i - 1) + [true] && m == |e| - j - 1
    ensures e == Zeros(i) + (core + Zeros(m))
  {
  }

  /** Zero bits before and after do not change whether a bit string divides to zero. */
  lemma FeedPadded(k: nat, core: seq<bool>, m: nat)
    ensures Feed(ZERO, Zeros(k) + (core + Zeros(m))) == ZERO <==> Feed(ZERO, core) == ZERO
  {
    hide Feed;
    FeedConcat(ZERO, Zeros(k), core + Zeros(m));
    FeedZeros(ZERO, k);
    FeedConcat(ZERO, core, Zeros(m));
    FeedZeros(Feed(ZERO, core), m);
  }

  /** The bounds are sharp: adding the generator itself, four bits spread over seventeen, goes unnoticed. */
  lemma GeneratorUndetected(frame: seq<bv8>, received: seq<bv8>, k: nat)
    requires Accepted(frame) && |frame| == |received| && k + 17 <= 8 * |frame|
    requires Difference(frame, received) == Zeros(k) + ([true] + POLY + Zeros(8 * |frame| - k - 17))
    ensures Accepted(received)
  {
    var core, m := [true] + POLY, 8 * |frame| - k - 17;
    FeedGenerator();
    hide Feed, Accepted, Difference;
    ChangeAccepted(frame, received);
    FeedPadded(k, core, m);
  }

  lemma FeedGenerator()
    ensures Feed(ZERO, [true] + POLY) == ZERO
  {
    assert Absorb(ZERO, true) == POLY;
    assert Feed(ZERO, [true]) == Feed(POLY, []) == POLY;
    hide Feed;
    FeedConcat(ZERO, [true], POLY);
    SixteenMoreBits(POLY, POLY);
  }

  // ----- the minimum distance

  function Weight(e: seq<bool>): nat
    decreases |e|
  {
    if e == [] then 0 else (if e[0] then 1 else 0) + Weight(e[1..])
  }

  lemma {:induction false} WeightParity(e: seq<bool>)
    ensures Parity(e) <==> Weight(e) % 2 == 1
    decreases |e|
  {
    if e != [] {
      WeightParity(e[1..]);
    }
  }

  lemma {:induction false} WeightZero(e: seq<bool>)
    ensures Weight(e) == 0 <==> forall i :: 0 <= i < |e| ==> !e[i]
    decreases |e|
  {
    if e != [] {
      WeightZero(e[1..]);
      if forall i :: 0 <= i < |e| ==> !e[i] {
        assert forall i :: 0 <= i < |e[1..]| ==> !e[1..][i];
      }
      if Weight(e) == 0 {
        assert forall i :: 0 < i < |e| ==> e[i] == e[1..][i - 1];
      }
    }
  }

  lemma {:induction false} WeightOne(e: seq<bool>) returns (i: nat)
    requires Weight(e) == 1
    ensures i < |e| && forall k :: 0 <= k < |e| ==> (e[k] <==> k == i)
    decreases |e|
  {
    if e[0] {
      i := 0;
      WeightZero(e[1..]);
      assert forall k :: 0 < k < |e| ==> e[k] == e[1..][k - 1];
    } else {
      var t := WeightOne(e[1..]);
      i := t + 1;
      assert forall k :: 0 < k < |e| ==> e[k] == e[1..][k - 1];
    }
  }

  lemma {:induction false} WeightTwo(e: seq<bool>) returns (i: nat, j: nat)
    requires Weight(e) == 2
    ensures TwoBits(e, i, j)
    decreases |e|
  {
    if e[0] {
      var t := WeightOne(e[1..]);
      i, j := 0, t + 1;
    } else {
      var s, t := WeightTwo(e[1..]);
      i, j := s + 1, t + 1;
    }
    assert forall k :: 0 < k < |e| ==> e[k] == e[1..][k - 1];
  }

  /**
   Hamming distance: two different accepted frames of the same length, up to 32767
   bits, differ in at least four bits.
   */
  lemma MinimumDistance(frame: seq<bv8>, received: seq<bv8>)
    requires Accepted(frame) && |frame| == |received| && frame != received
    requires 8 * |frame| <= 32767
    requires Accepted(received)
    ensures Weight(Difference(frame, received)) >= 4
  {
    hide Accepted, Difference;
    var e := Difference(frame, received);
    WeightParity(e);
    if Parity(e) {
      OddErrorsDetected(frame, received);
    }
    if Weight(e) == 0 {
      WeightZero(e);
      FrameBitsInjective(frame, received);
    }
    if Weight(e) == 2 {
      var i, j := WeightTwo(e);
      TwoBitErrors(frame, received, i, j);
    }
  }
}
