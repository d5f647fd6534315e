/**
 The CRC object of the SPI host program: parameters, running value and status in
 one mutable record, driven by custom, init, update and get_result. The object is
 proved against a session protocol that keeps the bytes themselves rather than a
 register, and the protocol against predicates over whole call histories.
 */
module CrcEngine {
  import opened Sequences
  import opened BitSequences
  import opened WordBits
  import opened CrcRegister
  import opened CrcTable

  // ----- constants of the interface

  /** An unsigned byte used as a number. */
  type u8 = x: int | 0 <= x < 256

  /** The status byte: the two published codes and the three internal ones. */
  datatype Status = CrcStSuccess | CrcStErr | CrcStCustom | CrcStInit | CrcStUpdate

  const CRC_CUSTOM: u8 := 0xff
  const CRC_CCIT_KERMIT: u8 := 0
  const CRC_CCIT_XMODEM: u8 := 1
  const CRC_CCIT_FALSE: u8 := 2
  const CRC_CCIT_GENIBUS: u8 := 3
  const CRC_CCIT_X_25: u8 := 4
  const CRC_CCIT_MCRF4XX: u8 := 5
  const CRC_CCIT_AUG_CCIT: u8 := 6
  const CRC_CCIT_TMS37157: u8 := 7
  const CRC_CCIT_RIELLO: u8 := 8
  const CRC_CCIT_CRC_A: u8 := 9

  predicate NamedMode(mode: u8) { mode <= CRC_CCIT_CRC_A }

  predicate EndianOk(endian: u8) { endian == 0 || endian == 1 }

  // ----- bit reversal

  function U16BitReverse(data: bv16): bv16 {
    var a := ((data & 0xFF00) >> 8) | ((data & 0x00FF) << 8);
    var b := ((a & 0xF0F0) >> 4) | ((a & 0x0F0F) << 4);
    var c := ((b & 0xCCCC) >> 2) | ((b & 0x3333) << 2);
    ((c & 0xAAAA) >> 1) | ((c & 0x5555) << 1)
  }

  function U8BitReverse(data: bv8): bv8 {
    var a := ((data & 0xF0) >> 4) | ((data & 0x0F) << 4);
    var b := ((a & 0xCC) >> 2) | ((a & 0x33) << 2);
    ((b & 0xAA) >> 1) | ((b & 0x55) << 1)
  }

  /** `r` carries the bits of `b` in the opposite order. */
  predicate Mirrored(b: bv8, r: bv8) {
    && Hit8(r, 0x80) == Hit8(b, 0x01) && Hit8(r, 0x40) == Hit8(b, 0x02)
    && Hit8(r, 0x20) == Hit8(b, 0x04) && Hit8(r, 0x10) == Hit8(b, 0x08)
    && Hit8(r, 0x08) == Hit8(b, 0x10) && Hit8(r, 0x04) == Hit8(b, 0x20)
    && Hit8(r, 0x02) == Hit8(b, 0x40) && Hit8(r, 0x01) == Hit8(b, 0x80)
  }

  lemma U8BitReverseMirrors(b: bv8)
    ensures Mirrored(b, U8BitReverse(b))
  {
  }

  lemma U8BitReverseAt(b: bv8, i: nat)
    requires i < 8
    ensures BitAt8(U8BitReverse(b), i) == BitAt8(b, 7 - i)
  {
    hide U8BitReverse;
    U8BitReverseMirrors(b);
    MaskValues();
    assert i == 0 || i == 1 || i == 2 || i == 3 || i == 4 || i == 5 || i == 6 || i == 7;
  }

  /** The three exchanges of u8_bit_reverse put every bit at its mirrored place. */
  lemma U8BitReverseBits(b: bv8)
    ensures Bits8(U8BitReverse(b)) == Rev(Bits8(b))
  {
    hide U8BitReverse, BitAt8, Bits8;
    var r := U8BitReverse(b);
    forall i | 0 <= i < 8
      ensures Bits8(r)[i] == Rev(Bits8(b))[i]
    {
      U8BitReverseAt(b, i);
    }
  }

  lemma U16BitReverseBytes(r: bv16)
    ensures High(U16BitReverse(r)) == U8BitReverse(Low(r))
    ensures Low(U16BitReverse(r)) == U8BitReverse(High(r))
  {
  }

  /** The four exchanges of u16_bit_reverse put every bit at its mirrored place. */
  lemma U16BitReverseBits(r: bv16)
    ensures Bits16(U16BitReverse(r)) == Rev(Bits16(r))
  {
    U16BitReverseBytes(r);
    Bits16Bytes(r);
    Bits16Bytes(U16BitReverse(r));
    U8BitReverseBits(High(r));
    U8BitReverseBits(Low(r));
  }

  // ----- what a CRC means

  /** The parameters a mode or a custom call supplies. */
  datatype Params = Params(init: bv16, xorOut: bv16, reverseIn: u8, reverseOut: u8)

  /** The bits of one message byte in the order they reach the register. */
  function ByteBits(reverseIn: u8, b: bv8): (s: seq<bool>)
    ensures |s| == 8
  {
    if reverseIn == 1 then Rev(Bits8(b)) else Bits8(b)
  }

  /** The message in the order its bits reach the register. */
  function MessageBits(reverseIn: u8, data: seq<bv8>): (s: seq<bool>)
    ensures |s| == 8 * |data|
    decreases |data|
  {
    if data == [] then [] else ByteBits(reverseIn, data[0]) + MessageBits(reverseIn, data[1..])
  }

  lemma {:induction false} MessageBitsConcat(reverseIn: u8, a: seq<bv8>, b: seq<bv8>)
    ensures MessageBits(reverseIn, a + b) == MessageBits(reverseIn, a) + MessageBits(reverseIn, b)
    decreases |a|
  {
    hide ByteBits;
    if a == [] {
      assert a + b == b;
    } else {
      assert (a + b)[1..] == a[1..] + b;
      MessageBitsConcat(reverseIn, a[1..], b);
      assert MessageBits(reverseIn, a) == ByteBits(reverseIn, a[0]) + MessageBits(reverseIn, a[1..]);
    }
  }

  /** The remainder register after a message. */
  function Remainder(p: Params, data: seq<bv8>): Word {
    Feed(Bits16(p.init), MessageBits(p.reverseIn, data))
  }

  /** The bits of the published CRC: remainder, mirrored if asked, XORed, bytes exchanged if asked. */
  function CrcBits(p: Params, endian: u8, data: seq<bv8>): Word {
    var r := Remainder(p, data);
    var x := Xor(if p.reverseOut == 1 then Rev(r) else r, Bits16(p.xorOut));
    if endian == 1 then x[8..] + x[..8] else x
  }

  /** The running value of the object holds the remainder of the bytes so far. */
  predicate Carries(value: bv16, p: Params, data: seq<bv8>) {
    Bits16(value) == Remainder(p, data)
  }

  // ----- the session protocol

  /** What a caller may know: nothing usable, custom parameters waiting, or an open session and its bytes. */
  datatype Phase =
    | Idle
    | Loaded(custom: Params)
    | Open(params: Params, endian: u8, data: seq<bv8>, started: bool)

  datatype Call =
    | Custom(p: Params)
    | Init(mode: u8, endian: u8)
    | Update(chunk: seq<bv8>)
    | GetResult

  predicate Mirrors(mode: u8) {
    mode == CRC_CCIT_KERMIT || mode == CRC_CCIT_X_25 || mode == CRC_CCIT_TMS37157
    || mode == CRC_CCIT_RIELLO || mode == CRC_CCIT_CRC_A
  }

  function ModeInit(mode: u8, otherwise: bv16): bv16 {
    match mode
    case 2 | 3 | 4 | 5 => 0xFFFF
    case 6 => 0x1D0F
    case 7 => 0x89EC
    case 8 => 0xB2AA
    case 9 => 0xC6C6
    case _ => otherwise
  }

  /** A named mode laid over parameters: each mode mentions only what differs from all zeros. */
  function Overlay(p: Params, mode: u8): Params {
    Params(ModeInit(mode, p.init),
           if mode == CRC_CCIT_GENIBUS || mode == CRC_CCIT_X_25 then 0xFFFF else p.xorOut,
           if Mirrors(mode) then 1 else p.reverseIn,
           if Mirrors(mode) then 1 else p.reverseOut)
  }

  const DEFAULTS: Params := Params(0, 0, 0, 0)

  function Next(ph: Phase, c: Call): Phase {
    match c
    case Custom(p) => Loaded(p)
    case Init(mode, endian) =>
      if !EndianOk(endian) then Idle
      else if NamedMode(mode) then
        if ph.Loaded? then Loaded(Overlay(ph.custom, mode))
        else Open(Overlay(DEFAULTS, mode), endian, [], false)
      else if mode == CRC_CUSTOM && ph.Loaded? then Open(ph.custom, endian, [], false)
      else Idle
    case Update(chunk) =>
      if ph.Open? then ph.(data := ph.data + chunk, started := true) else Idle
    case GetResult =>
      if ph.Open? && ph.started then Idle else ph
  }

  /** What get_result hands back in a phase: the CRC of the session's bytes, or 0 without a started session. */
  predicate Returns(ph: Phase, result: bv16) {
    if ph.Open? && ph.started then Bits16(result) == CrcBits(ph.params, ph.endian, ph.data) else result == 0
  }

  // ----- the object

  class Crc {
    var init: bv16
    var xorOut: bv16
    var reverseIn: u8
    var reverseOut: u8
    var mode: u8
    var value: bv16
    var st: Status
    var endian: u8
    ghost var phase: Phase

    function Parameters(): Params
      reads this
    {
      Params(init, xorOut, reverseIn, reverseOut)
    }

    ghost predicate Valid()
      reads this
    {
      && (phase.Idle? ==> st == CrcStSuccess || st == CrcStErr)
      && (phase.Loaded? ==> st == CrcStCustom && phase.custom == Parameters())
      && (phase.Open? ==>
            && st == (if phase.started then CrcStUpdate else CrcStInit)
            && phase.params == Parameters()
            && phase.endian == endian
            && Carries(value, phase.params, phase.data))
    }

    /** The zero-initialised global. */
    constructor ()
      ensures Valid() && phase == Idle
    {
      init, xorOut, reverseIn, reverseOut, mode, value, st, endian := 0, 0, 0, 0, 0, 0, CrcStSuccess, 0;
      phase := Idle;
    }

    method Custom(init: bv16, xorOut: bv16, reverseIn: u8, reverseOut: u8)
      requires Valid()
      modifies this
      ensures Valid()
      ensures phase == Next(old(phase), Call.Custom(Params(init, xorOut, reverseIn, reverseOut)))
    {
      this.init := init;
      this.xorOut := xorOut;
      this.reverseIn := reverseIn;
      this.reverseOut := reverseOut;
      mode := CRC_CUSTOM;
      st := CrcStCustom;
      phase := Loaded(Params(init, xorOut, reverseIn, reverseOut));
    }

    method Init(mode: u8, endian: u8) returns (status: Status)
      requires Valid()
      modifies this
      ensures Valid()
      ensures phase == Next(old(phase), Call.Init(mode, endian))
      ensures status == if phase.Idle? then CrcStErr else CrcStSuccess
    {
      hide Carries, Overlay;
      ghost var next := Next(phase, Call.Init(mode, endian));
      if st != CrcStCustom {
        init := 0;
        xorOut := 0;
        reverseIn := 0;
        reverseOut := 0;
        this.mode := mode;
        st := CrcStInit;
      }
      if endian != 0 && endian != 1 {
        st := CrcStErr;
        phase := Idle;
        return CrcStErr;
      }
      value := 0;
      this.endian := endian;
      if NamedMode(mode) {
        SelectMode(mode);
      } else if mode == CRC_CUSTOM {
        if st != CrcStCustom {
          st := CrcStErr;
          phase := Idle;
          return CrcStErr;
        }
        st := CrcStInit;
      } else {
        st := CrcStErr;
        phase := Idle;
        return CrcStErr;
      }
      value := init;
      InitialRemainder(Parameters());
      phase := next;
      status := CrcStSuccess;
    }

    /** The named cases of the switch in crc_ccit_init. */
    method SelectMode(mode: u8)
      requires NamedMode(mode)
      modifies this`init, this`xorOut, this`reverseIn, this`reverseOut
      ensures Parameters() == Overlay(old(Parameters()), mode)
    {
      if mode == CRC_CCIT_KERMIT {
        reverseIn := 1;
        reverseOut := 1;
      } else if mode == CRC_CCIT_XMODEM {
      } else if mode == CRC_CCIT_FALSE {
        init := 0xFFFF;
      } else if mode == CRC_CCIT_GENIBUS {
        init := 0xFFFF;
        xorOut := 0xFFFF;
      } else if mode == CRC_CCIT_X_25 {
        init := 0xFFFF;
        xorOut := 0xFFFF;
        reverseIn := 1;
        reverseOut := 1;
      } else if mode == CRC_CCIT_MCRF4XX {
        init := 0xFFFF;
      } else if mode == CRC_CCIT_AUG_CCIT {
        init := 0x1D0F;
      } else if mode == CRC_CCIT_TMS37157 {
        init := 0x89EC;
        reverseIn := 1;
        reverseOut := 1;
      } else if mode == CRC_CCIT_RIELLO {
        init := 0xB2AA;
        reverseIn := 1;
        reverseOut := 1;
      } else {
        init := 0xC6C6;
        reverseIn := 1;
        reverseOut := 1;
      }
    }

    method Update(data: array<bv8>, len: nat) returns (status: Status)
      requires Valid()
      requires len <= data.Length
      modifies this
      ensures Valid()
      ensures phase == Next(old(phase), Call.Update(data[..len]))
      ensures status == if old(phase).Open? then CrcStSuccess else CrcStErr
    {
      hide Carries, TableStep, U8BitReverse;
      if st != CrcStInit && st != CrcStUpdate {
        st := CrcStErr;
        phase := Idle;
        return CrcStErr;
      }
      var crcValue := value;
      assert phase.Open?;
      ghost var p, before := phase.params, phase.data;
      assert before + data[..0] == before;
      var i := 0;
      while i < len
        invariant 0 <= i <= len
        invariant unchanged(this)
        invariant Carries(crcValue, p, before + data[..i])
      {
        var b := data[i];
        if reverseIn == 1 {
          b := U8BitReverse(b);
        }
        RemainderStep(p, before + data[..i], data[i], crcValue);
        assert before + data[..i] + [data[i]] == before + data[..i + 1];
        crcValue := TableStep(crcValue, b);
        i := i + 1;
      }
      value := crcValue;
      st := CrcStUpdate;
      phase := Open(p, phase.endian, before + data[..len], true);
      status := CrcStSuccess;
    }

    method GetResult() returns (result: bv16)
      requires Valid()
      modifies this
      ensures Valid()
      ensures phase == Next(old(phase), Call.GetResult)
      ensures Returns(old(phase), result)
    {
      hide Bits16, CrcBits, Remainder, U16BitReverse, ApplyXor, Swap;
      if st != CrcStUpdate {
        return 0;
      }
      FinaliseBits(phase.params, endian, phase.data, value);
      var crcValue := value;
      if reverseOut == 1 {
        crcValue := U16BitReverse(crcValue);
      }
      crcValue := ApplyXor(crcValue, xorOut);
      if endian == 1 {
        value := Swap(crcValue);
      } else {
        value := crcValue;
      }
      st := CrcStSuccess;
      phase := Idle;
      return value;
    }
  }

  function Finalise(p: Params, endian: u8, r: bv16): bv16 {
    var x := ApplyXor(if p.reverseOut == 1 then U16BitReverse(r) else r, p.xorOut);
    if endian == 1 then Swap(x) else x
  }

  /** The word operations of get_result compute the published bits. */
  lemma FinaliseBits(p: Params, endian: u8, data: seq<bv8>, r: bv16)
    requires Bits16(r) == Remainder(p, data)
    ensures Bits16(Finalise(p, endian, r)) == CrcBits(p, endian, data)
  {
    hide Bits16, Remainder, U16BitReverse, ApplyXor, Swap;
    var v := if p.reverseOut == 1 then U16BitReverse(r) else r;
    U16BitReverseBits(r);
    ApplyXorBits(v, p.xorOut);
    SwapBits(ApplyXor(v, p.xorOut));
  }

  function ApplyXor(r: bv16, x: bv16): bv16 { r ^ x }

  lemma ApplyXorBits(r: bv16, x: bv16)
    ensures Bits16(ApplyXor(r, x)) == Xor(Bits16(r), Bits16(x))
  {
    Bits16Xor(r, x);
  }

  lemma InitialRemainder(p: Params)
    ensures Carries(p.init, p, [])
  {
  }

  /** The byte exchange at the end of get_result. */
  function Swap(r: bv16): bv16 {
    ((r & 0xff) << 8) | ((r & 0xff00) >> 8)
  }

  lemma SwapBytes(r: bv16)
    ensures High(Swap(r)) == Low(r) && Low(Swap(r)) == High(r)
  {
  }

  lemma SwapBits(r: bv16)
    ensures Bits16(Swap(r)) == Bits16(r)[8..] + Bits16(r)[..8]
  {
    SwapBytes(r);
    Bits16Bytes(r);
    Bits16Bytes(Swap(r));
  }

  /** One pass of the update loop extends the remainder by one byte. */
  lemma RemainderStep(p: Params, data: seq<bv8>, b: bv8, r: bv16)
    requires Carries(r, p, data)
    ensures Carries(TableStep(r, if p.reverseIn == 1 then U8BitReverse(b) else b), p, data + [b])
  {
    hide TableStep, U8BitReverse, Bits8, Bits16, Feed;
    var c := if p.reverseIn == 1 then U8BitReverse(b) else b;
    U8BitReverseBits(b);
    TableStepIsFeed(r, c);
    MessageBitsConcat(p.reverseIn, data, [b]);
    assert MessageBits(p.reverseIn, [b]) == ByteBits(p.reverseIn, b) + [] == Bits8(c);
    FeedConcat(Bits16(p.init), MessageBits(p.reverseIn, data), Bits8(c));
  }
}
