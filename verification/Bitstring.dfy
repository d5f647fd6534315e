/**
 Bit strings in byte arrays: single bits, ranges set or cleared a byte at a time, and
 the searches for the first set or clear bit. Masks that C computes as int reach the
 array only through their low byte, so they are bytes here.
 */
module Bitstring {
  import opened WordBits

  function BitMask(j: nat): bv8
    requires j < 8
  {
    1 << j
  }

  predicate Test(b: bv8, j: nat)
    requires j < 8
  {
    Hit8(b, BitMask(j))
  }

  /** bit_test. */
  predicate BitTest(name: seq<bv8>, bit: nat)
    requires bit / 8 < |name|
  {
    Test(name[bit / 8], bit % 8)
  }

  /** Bit i is in byte i / 8, the lowest bit of a byte first. */
  lemma BitNumbers(name: seq<bv8>, bit: nat)
    requires bit / 8 < |name|
    ensures var m: seq<bv8> := [0x01, 0x02, 0x04, 0x08, 0x10, 0x20, 0x40, 0x80];
            BitTest(name, bit) <==> name[bit / 8] & m[bit % 8] != 0
  {
    Below8(bit % 8);
  }

  // ----- byte-level facts

  lemma Below8(j: nat)
    requires j < 8
    ensures j == 0 || j == 1 || j == 2 || j == 3 || j == 4 || j == 5 || j == 6 || j == 7
  {
  }

  lemma BitMaskValues(j: nat)
    requires j < 8
    ensures BitMask(j) == Mask8(7 - j)
    ensures OneBit8(BitMask(j))
  {
    MaskValues();
    Below8(j);
  }

  lemma MaskedOr(a: bv8, b: bv8, m: bv8)
    ensures Hit8(a | b, m) <==> Hit8(a, m) || Hit8(b, m)
  {
  }

  lemma MaskedAnd(a: bv8, b: bv8, m: bv8)
    requires OneBit8(m)
    ensures Hit8(a & b, m) <==> Hit8(a, m) && Hit8(b, m)
  {
    OneBitCases8(a, m);
    OneBitCases8(b, m);
    AndAnd(a, b, m);
  }

  lemma AndAnd(a: bv8, b: bv8, m: bv8)
    ensures And8(a & b, m) == And8(a, m) & And8(b, m)
  {
  }

  lemma MaskedNot(a: bv8, m: bv8)
    requires OneBit8(m)
    ensures Hit8(!a, m) <==> !Hit8(a, m)
  {
  }

  lemma OtherBit(i: nat, j: nat)
    requires i < 8 && j < 8
    ensures Test(BitMask(i), j) <==> i == j
  {
    Below8(i);
    Below8(j);
  }

  function Up(s: nat): bv8
    requires s <= 8
  {
    0xff << s
  }

  function Down(n: nat): bv8
    requires n <= 8
  {
    0xff >> n
  }

  lemma UpBits(s: nat, j: nat)
    requires s <= 8 && j < 8
    ensures Test(Up(s), j) <==> s <= j
  {
    Below8(j);
    if s < 8 {
      Below8(s);
    }
  }

  lemma DownBits(n: nat, j: nat)
    requires n <= 8 && j < 8
    ensures Test(Down(n), j) <==> j + n < 8
  {
    Below8(j);
    if n < 8 {
      Below8(n);
    }
  }

  lemma NonzeroHasBit(b: bv8) returns (j: nat)
    requires b != 0
    ensures j < 8 && Test(b, j)
  {
    BitMasks();
    j := if Hit8(b, 0x01) then 0 else if Hit8(b, 0x02) then 1 else if Hit8(b, 0x04) then 2
      else if Hit8(b, 0x08) then 3 else if Hit8(b, 0x10) then 4 else if Hit8(b, 0x20) then 5
      else if Hit8(b, 0x40) then 6 else 7;
  }

  lemma BitMasks()
    ensures BitMask(0) == 0x01 && BitMask(1) == 0x02 && BitMask(2) == 0x04 && BitMask(3) == 0x08
    ensures BitMask(4) == 0x10 && BitMask(5) == 0x20 && BitMask(6) == 0x40 && BitMask(7) == 0x80
  {
  }

  /** Different bytes differ in some bit. */
  lemma DifferentBit(a: bv8, b: bv8) returns (j: nat)
    requires a != b
    ensures j < 8 && Test(a, j) != Test(b, j)
  {
    DifferentBytes(a, b);
    j := NonzeroHasBit(a ^ b);
    BitMaskValues(j);
    MaskedXor8(a, b, BitMask(j));
  }

  lemma SameByte(a: bv8, b: bv8)
    requires forall j :: 0 <= j < 8 ==> Test(a, j) == Test(b, j)
    ensures a == b
  {
    if a != b {
      var j := DifferentBit(a, b);
    }
  }

  lemma DifferentBytes(a: bv8, b: bv8)
    requires a != b
    ensures a ^ b != 0
  {
  }

  /** Shifting down by one bit. */
  lemma ShrBits(b: bv8, j: nat)
    requires j < 8
    ensures Test(b >> 1, j) <==> j < 7 && Test(b, j + 1)
    ensures Test(b, 0) <==> b & 1 != 0
  {
    BitMasks();
    Below8(j);
  }

  // ----- what a change of bits means

  /** after is before with the bits lo to hi (inclusive) set to v. */
  predicate RangeIs(before: seq<bv8>, after: seq<bv8>, lo: int, hi: int, v: bool) {
    |after| == |before| &&
    forall k :: 0 <= k < 8 * |before| ==> BitTest(after, k) == (if lo <= k <= hi then v else BitTest(before, k))
  }

  /** The bits of a byte string determine it. */
  lemma SameBits(a: seq<bv8>, b: seq<bv8>)
    requires |a| == |b|
    requires forall k :: 0 <= k < 8 * |a| ==> BitTest(a, k) == BitTest(b, k)
    ensures a == b
  {
    forall i | 0 <= i < |a|
      ensures a[i] == b[i]
    {
      forall j | 0 <= j < 8
        ensures Test(a[i], j) == Test(b[i], j)
      {
        assert BitTest(a, 8 * i + j) == BitTest(b, 8 * i + j);
      }
      SameByte(a[i], b[i]);
    }
  }

  /** At most one byte string results from changing a range. */
  lemma RangeUnique(before: seq<bv8>, a: seq<bv8>, b: seq<bv8>, lo: int, hi: int, v: bool)
    requires RangeIs(before, a, lo, hi, v) && RangeIs(before, b, lo, hi, v)
    ensures a == b
  {
    hide BitTest;
    SameBits(a, b);
  }

  /** A range changed up to one end and then from there on is changed as a whole. */
  lemma RangeJoin(a: seq<bv8>, b: seq<bv8>, c: seq<bv8>, lo: int, mid: int, hi: int, v: bool)
    requires RangeIs(a, b, lo, mid, v) && RangeIs(b, c, mid + 1, hi, v)
    requires lo <= mid + 1 <= hi + 1
    ensures RangeIs(a, c, lo, hi, v)
  {
    hide BitTest;
  }

  // ----- single bits

  function SetBit(name: seq<bv8>, bit: nat): (r: seq<bv8>)
    requires bit / 8 < |name|
    ensures |r| == |name|
  {
    name[bit / 8 := Or8(name[bit / 8], BitMask(bit % 8))]
  }

  function ClearBit(name: seq<bv8>, bit: nat): (r: seq<bv8>)
    requires bit / 8 < |name|
    ensures |r| == |name|
  {
    name[bit / 8 := And8(name[bit / 8], Not8(BitMask(bit % 8)))]
  }

  /** bit_set and bit_clear change their bit and no other. */
  lemma SingleBit(name: seq<bv8>, bit: nat)
    requires bit / 8 < |name|
    ensures RangeIs(name, SetBit(name, bit), bit, bit, true)
    ensures RangeIs(name, ClearBit(name, bit), bit, bit, false)
  {
    hide Test, Or8, And8, Not8, BitMask, RangeIs;
    var i, b, m := bit / 8, name[bit / 8], BitMask(bit % 8);
    forall j | 0 <= j < 8
      ensures Test(Or8(b, m), j) <==> Test(b, j) || j == bit % 8
      ensures Test(And8(b, Not8(m)), j) <==> Test(b, j) && j != bit % 8
    {
      OrBits(b, m, j);
      NotBits(m, j);
      AndBits(b, Not8(m), j);
      OtherBit(bit % 8, j);
    }
    OneByte(name, i, Or8(b, m), bit, bit, true);
    OneByte(name, i, And8(b, Not8(m)), bit, bit, false);
  }

  /** bit_set. */
  method BitSet(name: array<bv8>, bit: nat)
    requires bit / 8 < name.Length
    modifies name
    ensures RangeIs(old(name[..]), name[..], bit, bit, true)
    ensures name[..] == SetBit(old(name[..]), bit)
  {
    hide RangeIs, Or8, BitMask;
    SingleBit(name[..], bit);
    name[bit / 8] := Or8(name[bit / 8], BitMask(bit % 8));
  }

  /** bit_clear. */
  method BitClear(name: array<bv8>, bit: nat)
    requires bit / 8 < name.Length
    modifies name
    ensures RangeIs(old(name[..]), name[..], bit, bit, false)
    ensures name[..] == ClearBit(old(name[..]), bit)
  {
    hide RangeIs, And8, Not8, BitMask;
    SingleBit(name[..], bit);
    name[bit / 8] := And8(name[bit / 8], Not8(BitMask(bit % 8)));
  }

  /** bit_set or bit_clear over a whole range, one bit after another. */
  function FoldBits(name: seq<bv8>, lo: nat, hi: int, v: bool): (r: seq<bv8>)
    requires hi < 8 * |name|
    ensures |r| == |name|
    decreases hi + 1 - lo
  {
    if hi < lo then name
    else
      var r := FoldBits(name, lo, hi - 1, v);
      if v then SetBit(r, hi) else ClearBit(r, hi)
  }

  lemma {:induction false} FoldIsRange(name: seq<bv8>, lo: nat, hi: int, v: bool)
    requires hi < 8 * |name|
    ensures RangeIs(name, FoldBits(name, lo, hi, v), lo, hi, v)
    decreases hi + 1 - lo
  {
    hide SetBit, ClearBit, BitTest;
    if lo <= hi {
      var r := FoldBits(name, lo, hi - 1, v);
      FoldIsRange(name, lo, hi - 1, v);
      SingleBit(r, hi);
      RangeJoin(name, r, if v then SetBit(r, hi) else ClearBit(r, hi), lo, hi - 1, hi, v);
    }
  }

  // ----- ranges, a byte at a time

  /** One byte of a string changed to b changes the bits of that byte alone. */
  lemma OneByte(before: seq<bv8>, i: nat, b: bv8, lo: int, hi: int, v: bool)
    requires i < |before|
    requires 8 * i <= lo && hi <= 8 * i + 7
    requires forall j :: 0 <= j < 8 ==> Test(b, j) == (if lo <= 8 * i + j <= hi then v else Test(before[i], j))
    ensures RangeIs(before, before[i := b], lo, hi, v)
  {
    hide Test;
    var after := before[i := b];
    forall k | 0 <= k < 8 * |before|
      ensures BitTest(after, k) == (if lo <= k <= hi then v else BitTest(before, k))
    {
      if k / 8 == i {
        assert k == 8 * i + k % 8;
      }
    }
  }

  function Or8(b: bv8, m: bv8): bv8 { b | m }

  function Not8(b: bv8): bv8 { !b }

  lemma OrBits(b: bv8, m: bv8, j: nat)
    requires j < 8
    ensures Test(Or8(b, m), j) <==> Test(b, j) || Test(m, j)
  {
    MaskedOr(b, m, BitMask(j));
  }

  lemma AndBits(b: bv8, m: bv8, j: nat)
    requires j < 8
    ensures Test(And8(b, m), j) <==> Test(b, j) && Test(m, j)
  {
    BitMaskValues(j);
    MaskedAnd(b, m, BitMask(j));
  }

  lemma NotBits(b: bv8, j: nat)
    requires j < 8
    ensures Test(Not8(b), j) <==> !Test(b, j)
  {
    BitMaskValues(j);
    MaskedNot(b, BitMask(j));
  }

  // The bytes that bit_nset and bit_nclear store: within one byte, in the first, in the last.

  function SetWithin(b: bv8, s: nat, t: nat): bv8
    requires s < 8 && t < 8
  {
    Or8(b, And8(Up(s), Down(7 - t)))
  }

  function SetFirst(b: bv8, s: nat): bv8
    requires s < 8
  {
    Or8(b, Up(s))
  }

  function SetLast(b: bv8, t: nat): bv8
    requires t < 8
  {
    Or8(b, Down(7 - t))
  }

  function ClearWithin(b: bv8, s: nat, t: nat): bv8
    requires s < 8 && t < 8
  {
    And8(b, Or8(Down(8 - s), Up(t + 1)))
  }

  function ClearFirst(b: bv8, s: nat): bv8
    requires s < 8
  {
    And8(b, Down(8 - s))
  }

  function ClearLast(b: bv8, t: nat): bv8
    requires t < 8
  {
    And8(b, Up(t + 1))
  }

  lemma SetMasks(b: bv8, s: nat, t: nat, j: nat)
    requires s < 8 && t < 8 && j < 8
    ensures Test(SetWithin(b, s, t), j) <==> Test(b, j) || s <= j <= t
    ensures Test(SetFirst(b, s), j) <==> Test(b, j) || s <= j
    ensures Test(SetLast(b, t), j) <==> Test(b, j) || j <= t
  {
    hide Test, Up, Down, Or8, And8;
    UpBits(s, j);
    DownBits(7 - t, j);
    AndBits(Up(s), Down(7 - t), j);
    OrBits(b, And8(Up(s), Down(7 - t)), j);
    OrBits(b, Up(s), j);
    OrBits(b, Down(7 - t), j);
  }

  lemma ClearMasks(b: bv8, s: nat, t: nat, j: nat)
    requires s < 8 && t < 8 && j < 8
    ensures Test(ClearWithin(b, s, t), j) <==> Test(b, j) && !(s <= j <= t)
    ensures Test(ClearFirst(b, s), j) <==> Test(b, j) && j < s
    ensures Test(ClearLast(b, t), j) <==> Test(b, j) && t < j
  {
    hide Test, Up, Down, Or8, And8;
    UpBits(t + 1, j);
    DownBits(8 - s, j);
    OrBits(Down(8 - s), Up(t + 1), j);
    AndBits(b, Or8(Down(8 - s), Up(t + 1)), j);
    AndBits(b, Down(8 - s), j);
    AndBits(b, Up(t + 1), j);
  }

  lemma WholeBytes(j: nat)
    requires j < 8
    ensures Test(0xff, j) && !Test(0, j)
  {
    BitMasks();
    Below8(j);
  }

  /** The byte stores of bit_nset as changes of a range. */
  lemma SetRanges(now: seq<bv8>, i: nat, s: nat, t: nat)
    requires i < |now| && s < 8 && t < 8
    ensures s <= t ==> RangeIs(now, now[i := SetWithin(now[i], s, t)], 8 * i + s, 8 * i + t, true)
    ensures RangeIs(now, now[i := SetFirst(now[i], s)], 8 * i + s, 8 * i + 7, true)
    ensures RangeIs(now, now[i := SetLast(now[i], t)], 8 * i, 8 * i + t, true)
    ensures RangeIs(now, now[i := 0xff], 8 * i, 8 * i + 7, true)
  {
    hide Test, SetWithin, SetFirst, SetLast, RangeIs;
    var b := now[i];
    var w, f, l, o: bv8 := SetWithin(b, s, t), SetFirst(b, s), SetLast(b, t), 0xff;
    forall j | 0 <= j < 8
      ensures Test(w, j) <==> Test(b, j) || s <= j <= t
      ensures Test(f, j) <==> Test(b, j) || s <= j
      ensures Test(l, j) <==> Test(b, j) || j <= t
      ensures Test(o, j)
    {
      SetMasks(b, s, t, j);
      WholeBytes(j);
    }
    if s <= t {
      OneByte(now, i, w, 8 * i + s, 8 * i + t, true);
    }
    OneByte(now, i, f, 8 * i + s, 8 * i + 7, true);
    OneByte(now, i, l, 8 * i, 8 * i + t, true);
    OneByte(now, i, o, 8 * i, 8 * i + 7, true);
  }

  /** The byte stores of bit_nclear as changes of a range. */
  lemma ClearRanges(now: seq<bv8>, i: nat, s: nat, t: nat)
    requires i < |now| && s < 8 && t < 8
    ensures s <= t ==> RangeIs(now, now[i := ClearWithin(now[i], s, t)], 8 * i + s, 8 * i + t, false)
    ensures RangeIs(now, now[i := ClearFirst(now[i], s)], 8 * i + s, 8 * i + 7, false)
    ensures RangeIs(now, now[i := ClearLast(now[i], t)], 8 * i, 8 * i + t, false)
    ensures RangeIs(now, now[i := 0], 8 * i, 8 * i + 7, false)
  {
    hide Test, ClearWithin, ClearFirst, ClearLast, RangeIs;
    var b := now[i];
    var w, f, l, z: bv8 := ClearWithin(b, s, t), ClearFirst(b, s), ClearLast(b, t), 0;
    forall j | 0 <= j < 8
      ensures Test(w, j) <==> Test(b, j) && !(s <= j <= t)
      ensures Test(f, j) <==> Test(b, j) && j < s
      ensures Test(l, j) <==> Test(b, j) && t < j
      ensures !Test(z, j)
    {
      ClearMasks(b, s, t, j);
      WholeBytes(j);
    }
    if s <= t {
      OneByte(now, i, w, 8 * i + s, 8 * i + t, false);
    }
    OneByte(now, i, f, 8 * i + s, 8 * i + 7, false);
    OneByte(now, i, l, 8 * i, 8 * i + t, false);
    OneByte(now, i, z, 8 * i, 8 * i + 7, false);
  }

  lemma RangeIsFold(before: seq<bv8>, after: seq<bv8>, lo: nat, hi: int, v: bool)
    requires hi < 8 * |before| && RangeIs(before, after, lo, hi, v)
    ensures after == FoldBits(before, lo, hi, v)
  {
    FoldIsRange(before, lo, hi, v);
    RangeUnique(before, after, FoldBits(before, lo, hi, v), lo, hi, v);
  }

  /** bit_nset: sets the bits start to stop. */
  method BitNset(name: array<bv8>, start: nat, stop: nat)
    requires start <= stop < 8 * name.Length
    modifies name
    ensures RangeIs(old(name[..]), name[..], start, stop, true)
    ensures name[..] == FoldBits(old(name[..]), start, stop, true)
  {
    hide RangeIs, FoldBits, SetWithin, SetFirst, SetLast;
    ghost var before := name[..];
    var startbyte, stopbyte := start / 8, stop / 8;
    var s, t := start % 8, stop % 8;
    SetRanges(before, startbyte, s, t);
    if startbyte == stopbyte {
      name[startbyte] := SetWithin(name[startbyte], s, t);
      assert name[..] == before[startbyte := SetWithin(before[startbyte], s, t)];
    } else {
      name[startbyte] := SetFirst(name[startbyte], s);
      assert name[..] == before[startbyte := SetFirst(before[startbyte], s)];
      startbyte := startbyte + 1;
      while startbyte < stopbyte
        invariant startbyte <= stopbyte && start < 8 * startbyte
        invariant RangeIs(before, name[..], start, 8 * startbyte - 1, true)
      {
        ghost var now := name[..];
        SetRanges(now, startbyte, 0, 0);
        name[startbyte] := 0xff;
        assert name[..] == now[startbyte := 0xff];
        RangeJoin(before, now, name[..], start, 8 * startbyte - 1, 8 * startbyte + 7, true);
        startbyte := startbyte + 1;
      }
      ghost var now := name[..];
      SetRanges(now, stopbyte, 0, t);
      name[stopbyte] := SetLast(name[stopbyte], t);
      assert name[..] == now[stopbyte := SetLast(now[stopbyte], t)];
      RangeJoin(before, now, name[..], start, 8 * stopbyte - 1, stop, true);
    }
    RangeIsFold(before, name[..], start, stop, true);
  }

  /** bit_nclear: clears the bits start to stop. */
  method BitNclear(name: array<bv8>, start: nat, stop: nat)
    requires start <= stop < 8 * name.Length
    modifies name
    ensures RangeIs(old(name[..]), name[..], start, stop, false)
    ensures name[..] == FoldBits(old(name[..]), start, stop, false)
  {
    hide RangeIs, FoldBits, ClearWithin, ClearFirst, ClearLast;
    ghost var before := name[..];
    var startbyte, stopbyte := start / 8, stop / 8;
    var s, t := start % 8, stop % 8;
    ClearRanges(before, startbyte, s, t);
    if startbyte == stopbyte {
      name[startbyte] := ClearWithin(name[startbyte], s, t);
      assert name[..] == before[startbyte := ClearWithin(before[startbyte], s, t)];
    } else {
      name[startbyte] := ClearFirst(name[startbyte], s);
      assert name[..] == before[startbyte := ClearFirst(before[startbyte], s)];
      startbyte := startbyte + 1;
      while startbyte < stopbyte
        invariant startbyte <= stopbyte && start < 8 * startbyte
        invariant RangeIs(before, name[..], start, 8 * startbyte - 1, false)
      {
        ghost var now := name[..];
        ClearRanges(now, startbyte, 0, 0);
        name[startbyte] := 0;
        assert name[..] == now[startbyte := 0];
        RangeJoin(before, now, name[..], start, 8 * startbyte - 1, 8 * startbyte + 7, false);
        startbyte := startbyte + 1;
      }
      ghost var now := name[..];
      ClearRanges(now, stopbyte, 0, t);
      name[stopbyte] := ClearLast(name[stopbyte], t);
      assert name[..] == now[stopbyte := ClearLast(now[stopbyte], t)];
      RangeJoin(before, now, name[..], start, 8 * stopbyte - 1, stop, false);
    }
    RangeIsFold(before, name[..], start, stop, false);
  }

  // ----- first set and first clear bit

  /** lb is what is left of byte b after its lowest c bits, which are all v, have been shifted out. */
  predicate Shifted(b: bv8, lb: bv8, c: nat, v: bool) {
    && c < 8
    && (forall j :: 0 <= j < c ==> Test(b, j) == v)
    && (forall j :: 0 <= j < 8 - c ==> Test(lb, j) == Test(b, c + j))
    && (forall j :: 8 - c <= j < 8 ==> !Test(lb, j))
  }

  /** One pass of the inner loop of a search. */
  lemma ShiftOnce(b: bv8, lb: bv8, c: nat, v: bool)
    requires Shifted(b, lb, c, v) && Test(lb, 0) == v
    requires exists j :: c <= j < 8 && Test(b, j) != v
    ensures Shifted(b, lb >> 1, c + 1, v)
  {
    hide Test;
    var j :| c <= j < 8 && Test(b, j) != v;
    assert Test(lb, j - c) == Test(b, j);
    var half := lb >> 1;
    forall i | 0 <= i < 8
      ensures Test(half, i) <==> i < 7 && Test(lb, i + 1)
    {
      ShrBits(lb, i);
    }
    assert Test(b, c) == Test(lb, 0);
  }

  lemma LowBit(b: bv8)
    ensures Test(b, 0) <==> b & 1 != 0
  {
    ShrBits(b, 0);
  }

  /** The position of the first bit other than v in a byte that has one: the inner loop of both searches. */
  method FirstOther(b: bv8, v: bool) returns (c: nat)
    requires exists j :: 0 <= j < 8 && Test(b, j) != v
    ensures c < 8 && Test(b, c) != v && forall j :: 0 <= j < c ==> Test(b, j) == v
  {
    hide Test;
    c := 0;
    var lb := b;
    LowBit(lb);
    while (lb & 1 != 0) == v
      invariant Shifted(b, lb, c, v)
      invariant exists j :: c <= j < 8 && Test(b, j) != v
      invariant Test(lb, 0) <==> lb & 1 != 0
      decreases 8 - c
    {
      ShiftOnce(b, lb, c, v);
      assert Test(b, c) == v;
      c := c + 1;
      lb := lb >> 1;
      LowBit(lb);
    }
    assert Test(b, c) == Test(lb, 0);
  }

  /** No bit of a string below the bound is set to v. */
  predicate None(name: seq<bv8>, bound: int, v: bool) {
    forall k :: 0 <= k < bound && k < 8 * |name| ==> BitTest(name, k) != v
  }

  /** The answer of a search for the first bit equal to v among the first nbits bits. */
  predicate FirstBit(name: seq<bv8>, nbits: int, v: bool, value: int) {
    if value == -1 then None(name, nbits, v)
    else 0 <= value < nbits && value < 8 * |name| && BitTest(name, value) == v && None(name, value, v)
  }

  lemma NoneInByte(name: seq<bv8>, i: nat, v: bool)
    requires i < |name| && None(name, 8 * i, v)
    requires forall j :: 0 <= j < 8 ==> Test(name[i], j) != v
    ensures None(name, 8 * i + 8, v)
  {
    hide Test;
    forall k | 0 <= k < 8 * i + 8 && k < 8 * |name|
      ensures BitTest(name, k) != v
    {
      if 8 * i <= k {
        assert k / 8 == i && Test(name[i], k % 8) != v;
      }
    }
  }

  lemma FoundInByte(name: seq<bv8>, i: nat, c: nat, v: bool)
    requires i < |name| && None(name, 8 * i, v)
    requires c < 8 && Test(name[i], c) == v && forall j :: 0 <= j < c ==> Test(name[i], j) != v
    ensures BitTest(name, 8 * i + c) == v && None(name, 8 * i + c, v)
  {
    hide Test;
    assert (8 * i + c) / 8 == i && (8 * i + c) % 8 == c;
    forall k | 0 <= k < 8 * i + c && k < 8 * |name|
      ensures BitTest(name, k) != v
    {
      if 8 * i <= k {
        assert k / 8 == i && Test(name[i], k % 8) != v;
      }
    }
  }

  lemma UniformByte(b: bv8)
    ensures b == 0 ==> forall j :: 0 <= j < 8 ==> !Test(b, j)
    ensures b == 0xff ==> forall j :: 0 <= j < 8 ==> Test(b, j)
    ensures b != 0 ==> exists j :: 0 <= j < 8 && Test(b, j)
    ensures b != 0xff ==> exists j :: 0 <= j < 8 && !Test(b, j)
  {
    hide Test;
    forall j | 0 <= j < 8
      ensures Test(0xff, j) && !Test(0, j)
    {
      WholeBytes(j);
    }
    if b != 0 {
      var j := DifferentBit(b, 0);
    }
    if b != 0xff {
      var j := DifferentBit(b, 0xff);
    }
  }

  /** bit_ffs: the least index below nbits whose bit is set, or -1; padding bits of the last byte do not count. */
  method BitFfs(name: array<bv8>, nbits: int) returns (value: int)
    requires nbits <= 8 * name.Length
    ensures FirstBit(name[..], nbits, true, value)
  {
    hide Test, BitTest;
    value := -1;
    if nbits > 0 {
      var stopbyte := (nbits - 1) / 8;
      var byte := 0;
      while byte <= stopbyte
        invariant 0 <= byte <= stopbyte + 1
        invariant value == -1 && None(name[..], 8 * byte, true)
      {
        UniformByte(name[byte]);
        if name[byte] != 0 {
          var c := FirstOther(name[byte], false);
          FoundInByte(name[..], byte, c, true);
          value := 8 * byte + c;
          break;
        }
        NoneInByte(name[..], byte, true);
        byte := byte + 1;
      }
    }
    if value >= nbits {
      value := -1;
    }
  }

  /** bit_ffc: the least index below nbits whose bit is clear, or -1; padding bits of the last byte do not count. */
  method BitFfc(name: array<bv8>, nbits: int) returns (value: int)
    requires nbits <= 8 * name.Length
    ensures FirstBit(name[..], nbits, false, value)
  {
    hide Test, BitTest;
    value := -1;
    if nbits > 0 {
      var stopbyte := (nbits - 1) / 8;
      var byte := 0;
      while byte <= stopbyte
        invariant 0 <= byte <= stopbyte + 1
        invariant value == -1 && None(name[..], 8 * byte, false)
      {
        UniformByte(name[byte]);
        if name[byte] != 0xff {
          var c := FirstOther(name[byte], true);
          FoundInByte(name[..], byte, c, false);
          value := 8 * byte + c;
          break;
        }
        NoneInByte(name[..], byte, false);
        byte := byte + 1;
      }
    }
    if value >= nbits {
      value := -1;
    }
  }

  /** A search has one answer, so the searches and the ranges can be told apart only by their bits. */
  lemma FirstBitUnique(name: seq<bv8>, nbits: int, v: bool, x: int, y: int)
    requires nbits <= 8 * |name|
    requires FirstBit(name, nbits, v, x) && FirstBit(name, nbits, v, y)
    ensures x == y
  {
    hide BitTest;
  }

  /** After setting a range the first clear bit cannot be in it. */
  lemma RangeThenSearch(before: seq<bv8>, after: seq<bv8>, lo: nat, hi: int, nbits: int, v: bool, value: int)
    requires RangeIs(before, after, lo, hi, v) && lo <= hi < nbits <= 8 * |before|
    requires FirstBit(after, nbits, !v, value)
    ensures value < lo || hi < value
    ensures value == -1 || BitTest(before, value) == !v
  {
    hide Test;
  }
}
