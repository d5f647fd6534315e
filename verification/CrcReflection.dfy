/**
 Reflected modes. The engine mirrors its input bytes and its result around a
 register that shifts left; the usual implementation shifts right with the mirrored
 polynomial 0x8408 and mirrors nothing. Both give the same CRC; for mode X_25 the
 second form is the frame check sequence of Appendix C.2 of RFC 1662.
 */
module CrcReflection {
  import opened Sequences
  import opened WordBits
  import opened CrcTable
  import opened CrcEngine

  // ----- the right-shifting engine

  function StepLsb(r: bv16): bv16 {
    if r & 1 != 0 then (r >> 1) ^ 0x8408 else r >> 1
  }

  function FcsTable(i: bv8): bv16 {
    var r := i as bv16;
    StepLsb(StepLsb(StepLsb(StepLsb(StepLsb(StepLsb(StepLsb(StepLsb(r))))))))
  }

  function FcsIndex(fcs: bv16, b: bv8): bv8 { Low(fcs) ^ b }

  function CombineLsb(fcs: bv16, entry: bv16): bv16 { (fcs >> 8) ^ entry }

  function FcsStep(fcs: bv16, b: bv8): bv16 {
    CombineLsb(fcs, FcsTable(FcsIndex(fcs, b)))
  }

  function Fcs(fcs: bv16, data: seq<bv8>): bv16
    decreases |data|
  {
    if data == [] then fcs else Fcs(FcsStep(fcs, data[0]), data[1..])
  }

  // ----- the mirror image of each step

  lemma ShiftMirrors(r: bv16)
    ensures (U16BitReverse(r) & 0x8000 != 0) == (r & 1 != 0)
    ensures U16BitReverse(r >> 1) == U16BitReverse(r) << 1
  {
  }

  lemma PolyMirrors(r: bv16)
    ensures U16BitReverse(r ^ 0x8408) == U16BitReverse(r) ^ 0x1021
  {
  }

  lemma StepMirrors(r: bv16)
    ensures U16BitReverse(StepLsb(r)) == Shift(U16BitReverse(r))
  {
    hide U16BitReverse;
    ShiftMirrors(r);
    PolyMirrors(r >> 1);
  }

  lemma ByteMirrors(i: bv8)
    ensures U16BitReverse(i as bv16) == (U8BitReverse(i) as bv16) << 8
  {
  }

  lemma IndexMirrors(fcs: bv16, b: bv8)
    ensures U8BitReverse(FcsIndex(fcs, b)) == TableIndex(U16BitReverse(fcs), U8BitReverse(b))
  {
    U16BitReverseBytes(fcs);
    hide U16BitReverse;
  }

  lemma CombineMirrors(r: bv16, t: bv16)
    ensures U16BitReverse(CombineLsb(r, t)) == Combine(U16BitReverse(r), U16BitReverse(t))
  {
  }

  lemma TableMirrors(i: bv8)
    ensures U16BitReverse(FcsTable(i)) == CrcCcitTable(U8BitReverse(i))
  {
    hide StepLsb, Shift, U16BitReverse, U8BitReverse, CrcCcitTable;
    var r0 := i as bv16;
    var r1 := StepLsb(r0);
    var r2 := StepLsb(r1);
    var r3 := StepLsb(r2);
    var r4 := StepLsb(r3);
    var r5 := StepLsb(r4);
    var r6 := StepLsb(r5);
    var r7 := StepLsb(r6);
    ByteMirrors(i);
    StepMirrors(r0);
    StepMirrors(r1);
    StepMirrors(r2);
    StepMirrors(r3);
    StepMirrors(r4);
    StepMirrors(r5);
    StepMirrors(r6);
    StepMirrors(r7);
    TableEntry(U8BitReverse(i));
  }

  lemma FcsStepMirrors(fcs: bv16, b: bv8)
    ensures U16BitReverse(FcsStep(fcs, b)) == TableStep(U16BitReverse(fcs), U8BitReverse(b))
  {
    hide FcsTable, U16BitReverse, U8BitReverse, CrcCcitTable, Combine, CombineLsb, FcsIndex, TableIndex;
    var i := FcsIndex(fcs, b);
    TableMirrors(i);
    IndexMirrors(fcs, b);
    CombineMirrors(fcs, FcsTable(i));
  }

  /** The right-shifting engine holds the mirror image of the engine's register after every byte. */
  lemma {:induction false} FcsCarriesRemainder(p: Params, done: seq<bv8>, rest: seq<bv8>, fcs: bv16)
    requires p.reverseIn == 1
    requires Carries(U16BitReverse(fcs), p, done)
    ensures Carries(U16BitReverse(Fcs(fcs, rest)), p, done + rest)
    decreases |rest|
  {
    hide FcsStep, U16BitReverse, U8BitReverse, TableStep, Carries;
    if rest == [] {
      assert done + rest == done;
    } else {
      FcsStepMirrors(fcs, rest[0]);
      RemainderStep(p, done, rest[0], U16BitReverse(fcs));
      FcsCarriesRemainder(p, done + [rest[0]], rest[1..], FcsStep(fcs, rest[0]));
      assert done + [rest[0]] + rest[1..] == done + rest;
    }
  }

  lemma ReverseTwice(r: bv16)
    ensures U16BitReverse(U16BitReverse(r)) == r
  {
  }

  /** With both reflections on and no byte exchange, the engine returns what the right-shifting engine computes. */
  lemma ReflectedEngine(p: Params, data: seq<bv8>)
    requires p.reverseIn == 1 && p.reverseOut == 1
    ensures CrcBits(p, 0, data) == Bits16(ApplyXor(Fcs(U16BitReverse(p.init), data), p.xorOut))
  {
    hide U16BitReverse, Bits16, Remainder, Fcs, ApplyXor;
    var start := U16BitReverse(p.init);
    var fcs := Fcs(start, data);
    ReverseTwice(p.init);
    InitialRemainder(p);
    FcsCarriesRemainder(p, [], data, start);
    assert [] + data == data;
    U16BitReverseBits(U16BitReverse(fcs));
    ReverseTwice(fcs);
    ApplyXorBits(fcs, p.xorOut);
  }

  /** Mode X_25 returns the frame check sequence of RFC 1662: start 0xFFFF, ones' complement at the end. */
  lemma X25IsPppFcs(data: seq<bv8>)
    ensures CrcBits(Overlay(DEFAULTS, CRC_CCIT_X_25), 0, data) == Bits16(ApplyXor(Fcs(0xFFFF, data), 0xFFFF))
  {
    var p := Overlay(DEFAULTS, CRC_CCIT_X_25);
    assert p == Params(0xFFFF, 0xFFFF, 1, 1) && U16BitReverse(0xFFFF) == 0xFFFF;
    hide CrcBits, Bits16, U16BitReverse, Fcs, ApplyXor;
    ReflectedEngine(p, data);
  }

  // ----- the receiver's constant

  lemma {:induction false} FcsConcat(fcs: bv16, a: seq<bv8>, b: seq<bv8>)
    ensures Fcs(fcs, a + b) == Fcs(Fcs(fcs, a), b)
    decreases |a|
  {
    if a == [] {
      assert a + b == b;
    } else {
      assert (a + b)[1..] == a[1..] + b;
      FcsConcat(FcsStep(fcs, a[0]), a[1..], b);
    }
  }

  lemma FcsTableValues()
    ensures FcsTable(0xFF) == 0x0F78 && FcsTable(0x87) == 0xF0B7
  {
  }

  lemma FirstComplement(f: bv16)
    ensures FcsIndex(f, Low(f ^ 0xFFFF)) == 0xFF
    ensures FcsIndex(CombineLsb(f, 0x0F78), High(f ^ 0xFFFF)) == 0x87
    ensures CombineLsb(CombineLsb(f, 0x0F78), 0xF0B7) == 0xF0B8
  {
  }

  lemma FcsOfComplement(f: bv16)
    ensures FcsStep(FcsStep(f, Low(f ^ 0xFFFF)), High(f ^ 0xFFFF)) == 0xF0B8
  {
    hide FcsTable, FcsIndex, CombineLsb, Low, High;
    FcsTableValues();
    FirstComplement(f);
  }

  lemma FcsGood(data: seq<bv8>, c: bv16)
    requires c == ApplyXor(Fcs(0xFFFF, data), 0xFFFF)
    ensures Fcs(0xFFFF, data + [Low(c), High(c)]) == 0xF0B8
  {
    var f := Fcs(0xFFFF, data);
    var lo, hi := Low(c), High(c);
    FcsConcat(0xFFFF, data, [lo, hi]);
    FcsOfComplement(f);
    hide FcsStep, Low, High;
    assert Fcs(f, [lo, hi]) == Fcs(FcsStep(f, lo), [hi]) == FcsStep(FcsStep(f, lo), hi);
  }

  const X25: Params := Params(0xFFFF, 0xFFFF, 1, 1)

  /**
   A message followed by what mode X_25 returns for it, low byte first, always leaves the good
   value of RFC 1662: 0xF0B8 in the right-shifting engine, its mirror image in the register.
   */
  lemma X25GoodFcs(data: seq<bv8>, c: bv16)
    requires Bits16(c) == CrcBits(Overlay(DEFAULTS, CRC_CCIT_X_25), 0, data)
    ensures Fcs(0xFFFF, data + [Low(c), High(c)]) == 0xF0B8
    ensures Remainder(Overlay(DEFAULTS, CRC_CCIT_X_25), data + [Low(c), High(c)]) == Rev(Bits16(0xF0B8))
  {
    var all := data + [Low(c), High(c)];
    X25Start();
    hide CrcBits, Bits16, U16BitReverse, Fcs, ApplyXor, Low, High, Overlay, Remainder;
    X25IsPppFcs(data);
    Bits16Injective(c, ApplyXor(Fcs(0xFFFF, data), 0xFFFF));
    FcsGood(data, c);
    InitialRemainder(X25);
    FcsCarriesRemainder(X25, [], all, 0xFFFF);
    assert [] + all == all;
    U16BitReverseBits(0xF0B8);
  }

  lemma X25Start()
    ensures Overlay(DEFAULTS, CRC_CCIT_X_25) == X25 && U16BitReverse(0xFFFF) == X25.init
  {
  }
}
