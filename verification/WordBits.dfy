/**
 Machine words and bytes as bit strings, top bit first. Every bit-vector fact used by
 the rest of the project is a small lemma here or beside the operation it is about.
 */
module WordBits {
  import opened BitSequences

  function High(r: bv16): bv8 { (r >> 8) as bv8 }

  function Low(r: bv16): bv8 { (r & 0xff) as bv8 }

  // ----- words and bytes as bits, top bit first

  /** The mask of the i-th bit of a word, counted from the top. */
  function Mask(i: nat): bv16
    requires i < 16
  {
    if i == 0 then 0x8000 else Mask(i - 1) >> 1
  }

  function Mask8(i: nat): bv8
    requires i < 8
  {
    if i == 0 then 0x80 else Mask8(i - 1) >> 1
  }

  predicate Hit(r: bv16, m: bv16) { And(r, m) != 0 }

  predicate Hit8(b: bv8, m: bv8) { And8(b, m) != 0 }

  function Wide(b: bv8): bv16 { b as bv16 }

  function Shl1(r: bv16): bv16 { r << 1 }

  function ShlByte(r: bv16): bv16 { r << 8 }

  function BitAt(r: bv16, i: nat): bool
    requires i < 16
  {
    Hit(r, Mask(i))
  }

  function Bits16(r: bv16): (w: seq<bool>)
    ensures |w| == 16 && forall i :: 0 <= i < 16 ==> w[i] == BitAt(r, i)
  {
    seq(16, i requires 0 <= i < 16 => BitAt(r, i))
  }

  function BitAt8(b: bv8, i: nat): bool
    requires i < 8
  {
    Hit8(b, Mask8(i))
  }

  function Bits8(b: bv8): (s: seq<bool>)
    ensures |s| == 8 && forall i :: 0 <= i < 8 ==> s[i] == BitAt8(b, i)
  {
    seq(8, i requires 0 <= i < 8 => BitAt8(b, i))
  }

  predicate OneBit(m: bv16) { m != 0 && m & (m - 1) == 0 }

  predicate OneBit8(m: bv8) { m != 0 && m & (m - 1) == 0 }

  lemma MaskValues()
    ensures Mask(0) == 0x8000 && Mask(1) == 0x4000 && Mask(2) == 0x2000 && Mask(3) == 0x1000
    ensures Mask(4) == 0x0800 && Mask(5) == 0x0400 && Mask(6) == 0x0200 && Mask(7) == 0x0100
    ensures Mask(8) == 0x0080 && Mask(9) == 0x0040 && Mask(10) == 0x0020 && Mask(11) == 0x0010
    ensures Mask(12) == 0x0008 && Mask(13) == 0x0004 && Mask(14) == 0x0002 && Mask(15) == 0x0001
    ensures Mask8(0) == 0x80 && Mask8(1) == 0x40 && Mask8(2) == 0x20 && Mask8(3) == 0x10
    ensures Mask8(4) == 0x08 && Mask8(5) == 0x04 && Mask8(6) == 0x02 && Mask8(7) == 0x01
  {
  }

  lemma Mask8IsOneBit(i: nat)
    requires i < 8
    ensures OneBit8(Mask8(i))
    ensures Mask(i) == ShlByte(Wide(Mask8(i)))
    ensures Mask(i + 8) == Wide(Mask8(i))
  {
    MaskValues();
    assert i == 0 || i == 1 || i == 2 || i == 3 || i == 4 || i == 5 || i == 6 || i == 7;
  }

  lemma MaskIsOneBit(i: nat)
    requires i < 16
    ensures OneBit(Mask(i))
    ensures i < 15 ==> Mask(i) == Shl1(Mask(i + 1)) && !Hit(Mask(i + 1), 0x8000)
    ensures i == 0 ==> Mask(i) == 0x8000
    ensures i == 15 ==> Mask(i) == 1
  {
    MaskValues();
    if i < 8 {
      assert i == 0 || i == 1 || i == 2 || i == 3 || i == 4 || i == 5 || i == 6 || i == 7;
    } else {
      assert i == 8 || i == 9 || i == 10 || i == 11 || i == 12 || i == 13 || i == 14 || i == 15;
    }
  }

  function And(a: bv16, m: bv16): bv16 { a & m }

  lemma OneBitCases(a: bv16, m: bv16)
    requires OneBit(m)
    ensures And(a, m) == 0 || And(a, m) == m
  {
  }

  lemma AndXor(a: bv16, b: bv16, m: bv16)
    ensures And(a ^ b, m) == And(a, m) ^ And(b, m)
  {
  }

  lemma XorCases(m: bv16)
    ensures m ^ m == 0 && m ^ 0 == m && 0 ^ m == m
  {
  }

  lemma MaskedXor(a: bv16, b: bv16, m: bv16)
    requires OneBit(m)
    ensures Hit(a ^ b, m) == (Hit(a, m) != Hit(b, m))
  {
    AndXor(a, b, m);
    OneBitCases(a, m);
    OneBitCases(b, m);
    XorCases(m);
    assert m != 0;
    hide And, OneBit;
  }

  function And8(a: bv8, m: bv8): bv8 { a & m }

  lemma OneBitCases8(a: bv8, m: bv8)
    requires OneBit8(m)
    ensures And8(a, m) == 0 || And8(a, m) == m
  {
  }

  lemma AndXor8(a: bv8, b: bv8, m: bv8)
    ensures And8(a ^ b, m) == And8(a, m) ^ And8(b, m)
  {
  }

  lemma XorCases8(m: bv8)
    ensures m ^ m == 0 && m ^ 0 == m && 0 ^ m == m
  {
  }

  lemma MaskedXor8(a: bv8, b: bv8, m: bv8)
    requires OneBit8(m)
    ensures Hit8(a ^ b, m) == (Hit8(a, m) != Hit8(b, m))
  {
    AndXor8(a, b, m);
    OneBitCases8(a, m);
    OneBitCases8(b, m);
    XorCases8(m);
    assert m != 0;
    hide And8, OneBit8;
  }

  lemma XorAt(a: bv16, b: bv16, i: nat)
    requires i < 16
    ensures BitAt(a ^ b, i) == (BitAt(a, i) != BitAt(b, i))
  {
    hide Mask, Hit, OneBit;
    MaskIsOneBit(i);
    MaskedXor(a, b, Mask(i));
  }

  lemma Bits16Xor(a: bv16, b: bv16)
    ensures Bits16(a ^ b) == Xor(Bits16(a), Bits16(b))
  {
    hide BitAt;
    var c := a ^ b;
    forall i | 0 <= i < 16
      ensures Bits16(c)[i] == Xor(Bits16(a), Bits16(b))[i]
    {
      XorAt(a, b, i);
    }
  }

  lemma XorAt8(a: bv8, b: bv8, i: nat)
    requires i < 8
    ensures BitAt8(a ^ b, i) == (BitAt8(a, i) != BitAt8(b, i))
  {
    hide Mask8, Hit8, OneBit8;
    Mask8IsOneBit(i);
    MaskedXor8(a, b, Mask8(i));
  }

  lemma Bits8Xor(a: bv8, b: bv8)
    ensures Bits8(a ^ b) == Xor(Bits8(a), Bits8(b))
  {
    hide BitAt8;
    var c := a ^ b;
    forall i | 0 <= i < 8
      ensures Bits8(c)[i] == Xor(Bits8(a), Bits8(b))[i]
    {
      XorAt8(a, b, i);
    }
  }

  lemma MaskedShift(a: bv16, m: bv16)
    requires !Hit(m, 0x8000)
    ensures Hit(Shl1(a), Shl1(m)) == Hit(a, m)
  {
    assert (a << 1) & (m << 1) == (a & m) << 1;
    assert (a & m) & 0x8000 == 0;
  }

  lemma ShlLow(a: bv16)
    ensures !Hit(Shl1(a), 1)
  {
  }

  lemma ShlAt(a: bv16, i: nat)
    requires i < 16
    ensures BitAt(Shl1(a), i) == if i < 15 then BitAt(a, i + 1) else false
  {
    hide Mask, Hit, Shl1;
    MaskIsOneBit(i);
    if i < 15 {
      MaskedShift(a, Mask(i + 1));
    } else {
      ShlLow(a);
    }
  }

  lemma Bits16Shl(a: bv16)
    ensures Bits16(Shl1(a)) == Bits16(a)[1..] + [false]
  {
    hide BitAt, Shl1;
    var b := Shl1(a);
    forall i | 0 <= i < 16
      ensures Bits16(b)[i] == (Bits16(a)[1..] + [false])[i]
    {
      ShlAt(a, i);
    }
  }

  lemma MaskedShlByte(r: bv16, m: bv8)
    ensures Hit(ShlByte(r), ShlByte(Wide(m))) == Hit(r, Wide(m))
    ensures !Hit(ShlByte(r), Wide(m))
  {
  }

  lemma MaskedHigh(r: bv16, m: bv8)
    ensures Hit8(High(r), m) == Hit(r, ShlByte(Wide(m)))
  {
  }

  lemma MaskedLow(r: bv16, m: bv8)
    ensures Hit8(Low(r), m) == Hit(r, Wide(m))
  {
  }

  lemma ShlByteAt(r: bv16, i: nat)
    requires i < 8
    ensures BitAt(ShlByte(r), i) == BitAt(r, i + 8)
    ensures !BitAt(ShlByte(r), i + 8)
  {
    hide Mask, Mask8, Hit, ShlByte, Wide;
    Mask8IsOneBit(i);
    MaskedShlByte(r, Mask8(i));
  }

  /** Moving a word up by a byte. */
  lemma Bits16ShlByte(r: bv16)
    ensures Bits16(ShlByte(r)) == Bits16(r)[8..] + Zeros(8)
  {
    hide BitAt, ShlByte;
    var up := ShlByte(r);
    forall i | 0 <= i < 16
      ensures Bits16(up)[i] == (Bits16(r)[8..] + Zeros(8))[i]
    {
      ShlByteAt(r, i % 8);
    }
  }

  lemma HighByteAt(r: bv16, i: nat)
    requires i < 8
    ensures BitAt(r, i) == Bits8(High(r))[i]
  {
    hide Mask, Mask8, High, Hit, Hit8, ShlByte, Wide;
    Mask8IsOneBit(i);
    MaskedHigh(r, Mask8(i));
  }

  lemma LowByteAt(r: bv16, i: nat)
    requires i < 8
    ensures BitAt(r, i + 8) == Bits8(Low(r))[i]
  {
    hide Mask, Mask8, Low, Hit, Hit8, ShlByte, Wide;
    Mask8IsOneBit(i);
    MaskedLow(r, Mask8(i));
  }

  /** The two bytes of a word. */
  lemma Bits16Bytes(r: bv16)
    ensures Bits16(r) == Bits8(High(r)) + Bits8(Low(r))
  {
    hide BitAt, BitAt8, High, Low;
    var hi, lo := High(r), Low(r);
    forall i | 0 <= i < 16
      ensures Bits16(r)[i] == (Bits8(hi) + Bits8(lo))[i]
    {
      HighByteAt(r, i % 8);
      LowByteAt(r, i % 8);
    }
  }

  lemma Bits16Zero()
    ensures Bits16(0) == Zeros(16)
  {
    forall i | 0 <= i < 16
      ensures !BitAt(0, i)
    {
      assert 0 & Mask(i) == 0;
    }
  }

  lemma NoBitSet(d: bv16)
    requires Bits16(d) == Zeros(16)
    ensures d == 0
  {
    var s := Bits16(d);
    assert d & 0xF000 == 0 by {
      assert !s[0] && !s[1] && !s[2] && !s[3];
    }
    assert d & 0x0F00 == 0 by {
      assert !s[4] && !s[5] && !s[6] && !s[7];
    }
    assert d & 0x00F0 == 0 by {
      assert !s[8] && !s[9] && !s[10] && !s[11];
    }
    assert d & 0x000F == 0 by {
      assert !s[12] && !s[13] && !s[14] && !s[15];
    }
  }

  lemma Bits16Injective(a: bv16, b: bv16)
    ensures Bits16(a) == Bits16(b) <==> a == b
  {
    if Bits16(a) == Bits16(b) {
      Bits16Xor(a, b);
      XorSelf(Bits16(a));
      NoBitSet(a ^ b);
      SelfXor(a, b);
    }
  }

  lemma SelfXor(r: bv16, s: bv16)
    ensures r ^ s == 0 <==> r == s
  {
  }

  lemma Bits16TopByte(i: bv8)
    ensures Bits16(ShlByte(Wide(i))) == Bits8(i) + Zeros(8)
  {
    var r := Wide(i);
    Bits16ShlByte(r);
    Bits16Bytes(r);
    assert Low(r) == i;
  }
}
