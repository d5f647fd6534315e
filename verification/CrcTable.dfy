/**
 The 256-entry table of the CRC engine, one table step of the register held in a
 machine word, and the proof that one table step is eight bit-serial division steps.
 */
module CrcTable {
  import opened BitSequences
  import opened WordBits
  import opened CrcRegister

  // ----- the table, in the source's rows of eight

  function Row(i: bv8, v0: bv16, v1: bv16, v2: bv16, v3: bv16, v4: bv16, v5: bv16, v6: bv16, v7: bv16): bv16 {
    var k := i & 7;
    if k == 0 then v0 else if k == 1 then v1 else if k == 2 then v2 else if k == 3 then v3
    else if k == 4 then v4 else if k == 5 then v5 else if k == 6 then v6 else v7
  }

  function CrcCcitTable(i: bv8): bv16 {
    match i >> 3
    case 0 => Row(i, 0x0000, 0x1021, 0x2042, 0x3063, 0x4084, 0x50A5, 0x60C6, 0x70E7)
    case 1 => Row(i, 0x8108, 0x9129, 0xA14A, 0xB16B, 0xC18C, 0xD1AD, 0xE1CE, 0xF1EF)
    case 2 => Row(i, 0x1231, 0x0210, 0x3273, 0x2252, 0x52B5, 0x4294, 0x72F7, 0x62D6)
    case 3 => Row(i, 0x9339, 0x8318, 0xB37B, 0xA35A, 0xD3BD, 0xC39C, 0xF3FF, 0xE3DE)
    case 4 => Row(i, 0x2462, 0x3443, 0x0420, 0x1401, 0x64E6, 0x74C7, 0x44A4, 0x5485)
    case 5 => Row(i, 0xA56A, 0xB54B, 0x8528, 0x9509, 0xE5EE, 0xF5CF, 0xC5AC, 0xD58D)
    case 6 => Row(i, 0x3653, 0x2672, 0x1611, 0x0630, 0x76D7, 0x66F6, 0x5695, 0x46B4)
    case 7 => Row(i, 0xB75B, 0xA77A, 0x9719, 0x8738, 0xF7DF, 0xE7FE, 0xD79D, 0xC7BC)
    case 8 => Row(i, 0x48C4, 0x58E5, 0x6886, 0x78A7, 0x0840, 0x1861, 0x2802, 0x3823)
    case 9 => Row(i, 0xC9CC, 0xD9ED, 0xE98E, 0xF9AF, 0x8948, 0x9969, 0xA90A, 0xB92B)
    case 10 => Row(i, 0x5AF5, 0x4AD4, 0x7AB7, 0x6A96, 0x1A71, 0x0A50, 0x3A33, 0x2A12)
    case 11 => Row(i, 0xDBFD, 0xCBDC, 0xFBBF, 0xEB9E, 0x9B79, 0x8B58, 0xBB3B, 0xAB1A)
    case 12 => Row(i, 0x6CA6, 0x7C87, 0x4CE4, 0x5CC5, 0x2C22, 0x3C03, 0x0C60, 0x1C41)
    case 13 => Row(i, 0xEDAE, 0xFD8F, 0xCDEC, 0xDDCD, 0xAD2A, 0xBD0B, 0x8D68, 0x9D49)
    case 14 => Row(i, 0x7E97, 0x6EB6, 0x5ED5, 0x4EF4, 0x3E13, 0x2E32, 0x1E51, 0x0E70)
    case 15 => Row(i, 0xFF9F, 0xEFBE, 0xDFDD, 0xCFFC, 0xBF1B, 0xAF3A, 0x9F59, 0x8F78)
    case 16 => Row(i, 0x9188, 0x81A9, 0xB1CA, 0xA1EB, 0xD10C, 0xC12D, 0xF14E, 0xE16F)
    case 17 => Row(i, 0x1080, 0x00A1, 0x30C2, 0x20E3, 0x5004, 0x4025, 0x7046, 0x6067)
    case 18 => Row(i, 0x83B9, 0x9398, 0xA3FB, 0xB3DA, 0xC33D, 0xD31C, 0xE37F, 0xF35E)
    case 19 => Row(i, 0x02B1, 0x1290, 0x22F3, 0x32D2, 0x4235, 0x5214, 0x6277, 0x7256)
    case 20 => Row(i, 0xB5EA, 0xA5CB, 0x95A8, 0x8589, 0xF56E, 0xE54F, 0xD52C, 0xC50D)
    case 21 => Row(i, 0x34E2, 0x24C3, 0x14A0, 0x0481, 0x7466, 0x6447, 0x5424, 0x4405)
    case 22 => Row(i, 0xA7DB, 0xB7FA, 0x8799, 0x97B8, 0xE75F, 0xF77E, 0xC71D, 0xD73C)
    case 23 => Row(i, 0x26D3, 0x36F2, 0x0691, 0x16B0, 0x6657, 0x7676, 0x4615, 0x5634)
    case 24 => Row(i, 0xD94C, 0xC96D, 0xF90E, 0xE92F, 0x99C8, 0x89E9, 0xB98A, 0xA9AB)
    case 25 => Row(i, 0x5844, 0x4865, 0x7806, 0x6827, 0x18C0, 0x08E1, 0x3882, 0x28A3)
    case 26 => Row(i, 0xCB7D, 0xDB5C, 0xEB3F, 0xFB1E, 0x8BF9, 0x9BD8, 0xABBB, 0xBB9A)
    case 27 => Row(i, 0x4A75, 0x5A54, 0x6A37, 0x7A16, 0x0AF1, 0x1AD0, 0x2AB3, 0x3A92)
    case 28 => Row(i, 0xFD2E, 0xED0F, 0xDD6C, 0xCD4D, 0xBDAA, 0xAD8B, 0x9DE8, 0x8DC9)
    case 29 => Row(i, 0x7C26, 0x6C07, 0x5C64, 0x4C45, 0x3CA2, 0x2C83, 0x1CE0, 0x0CC1)
    case 30 => Row(i, 0xEF1F, 0xFF3E, 0xCF5D, 0xDF7C, 0xAF9B, 0xBFBA, 0x8FD9, 0x9FF8)
    case _ => Row(i, 0x6E17, 0x7E36, 0x4E55, 0x5E74, 0x2E93, 0x3EB2, 0x0ED1, 0x1EF0)
  }

  function TableIndex(r: bv16, b: bv8): bv8 { High(r) ^ b }

  function Combine(r: bv16, entry: bv16): bv16 { ShlByte(r) ^ entry }

  /** One iteration of the update loop on an input byte already reflected if the mode asks for it. */
  function TableStep(r: bv16, b: bv8): bv16 {
    Combine(r, CrcCcitTable(TableIndex(r, b)))
  }

  lemma PolyBits()
    ensures Bits16(0x1021) == POLY
  {
    var s := Bits16(0x1021);
    assert !s[0] && !s[1] && !s[2] && s[3] && !s[4] && !s[5] && !s[6] && !s[7];
    assert !s[8] && !s[9] && s[10] && !s[11] && !s[12] && !s[13] && !s[14] && s[15];
  }

  // ----- a division step on machine words

  /** Multiplies the word by x and reduces it. */
  function Shift(r: bv16): bv16 {
    if r & 0x8000 != 0 then (r << 1) ^ 0x1021 else r << 1
  }

  function Shift8(r: bv16): bv16 {
    Shift(Shift(Shift(Shift(Shift(Shift(Shift(Shift(r))))))))
  }

  function ShiftN(r: bv16, n: nat): bv16
    decreases n
  {
    if n == 0 then r else ShiftN(Shift(r), n - 1)
  }

  lemma ShiftByTopBit(r: bv16)
    ensures Shift(r) == if BitAt(r, 0) then Shl1(r) ^ 0x1021 else Shl1(r)
  {
    MaskIsOneBit(0);
  }

  /** The step on words is the step on bits with a zero bit coming in. */
  lemma ShiftBits(r: bv16)
    ensures Bits16(Shift(r)) == Absorb(Bits16(r), false)
  {
    ShiftByTopBit(r);
    var up := Shl1(r);
    Bits16Shl(r);
    Bits16Xor(up, 0x1021);
    PolyBits();
  }

  lemma {:induction false} ShiftNBits(r: bv16, n: nat)
    ensures Bits16(ShiftN(r, n)) == Feed(Bits16(r), Zeros(n))
    decreases n
  {
    if n > 0 {
      ShiftBits(r);
      assert Zeros(n)[1..] == Zeros(n - 1);
      ShiftNBits(Shift(r), n - 1);
    }
  }

  lemma Shift8IsShiftN(r: bv16)
    ensures Shift8(r) == ShiftN(r, 8)
  {
    var r4 := Shift(Shift(Shift(Shift(r))));
    assert ShiftN(r, 8) == ShiftN(r4, 4);
  }

  // ----- the table holds eight steps

  /** A closed form of eight steps on a byte at the top of an otherwise empty word. */
  function Folded(i: bv8): bv16 {
    var x := (i ^ (i >> 4)) as bv16;
    (x << 12) ^ (x << 5) ^ x
  }

  lemma FoldedIsShift8(i: bv8)
    ensures Folded(i) == Shift8((i as bv16) << 8)
  {
  }

  lemma LowerTableIsFolded(i: bv8)
    requires i < 0x80
    ensures CrcCcitTable(i) == Folded(i)
  {
  }

  lemma UpperTableIsFolded(i: bv8)
    requires 0x80 <= i
    ensures CrcCcitTable(i) == Folded(i)
  {
  }

  /** Every entry of the table is the index, at the top of the register, divided for eight steps. */
  lemma TableEntry(i: bv8)
    ensures CrcCcitTable(i) == Shift8((i as bv16) << 8)
  {
    FoldedIsShift8(i);
    if i < 0x80 {
      LowerTableIsFolded(i);
    } else {
      UpperTableIsFolded(i);
    }
  }

  /** A table entry is its index divided bit by bit, starting from an empty register. */
  lemma TableEntryBits(i: bv8)
    ensures Bits16(CrcCcitTable(i)) == Feed(ZERO, Bits8(i))
  {
    var top := ShlByte(Wide(i));
    TableEntry(i);
    Shift8IsShiftN(top);
    ShiftNBits(top, 8);
    Bits16TopByte(i);
    FeedAsDifference(ZERO, Bits8(i));
    assert Xor(ZERO, Bits8(i) + Zeros(8)) == Bits8(i) + Zeros(8);
  }

  lemma CombineBits(r: bv16, t: bv16)
    ensures Bits16(Combine(r, t)) == Xor(Bits16(r)[8..] + Zeros(8), Bits16(t))
  {
    Bits16ShlByte(r);
    Bits16Xor(ShlByte(r), t);
  }

  lemma TableStepBits(r: bv16, b: bv8)
    ensures Bits16(TableStep(r, b)) == Xor(Bits16(r)[8..] + Zeros(8), Bits16(CrcCcitTable(TableIndex(r, b))))
  {
    CombineBits(r, CrcCcitTable(TableIndex(r, b)));
  }

  lemma TableIndexBits(r: bv16, b: bv8)
    ensures Bits8(TableIndex(r, b)) == Xor(Bits16(r)[..8], Bits8(b))
  {
    Bits16Bytes(r);
    Bits8Xor(High(r), b);
  }

  /** One table step on a byte is the bit-serial division of its eight bits, top bit first. */
  lemma TableStepIsFeed(r: bv16, b: bv8)
    ensures Bits16(TableStep(r, b)) == Feed(Bits16(r), Bits8(b))
  {
    TableStepBits(r, b);
    TableIndexBits(r, b);
    TableEntryBits(TableIndex(r, b));
    FeedSplit(Bits16(r), Bits8(b));
  }
}
