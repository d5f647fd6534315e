/**
 What the modes of the CRC interface return, in numbers: the parameters every init opens a
 session with, the mode of each published engine, the check values of the nine characters
 123456789, and how byte order and the two reflections change a result. Nothing here is said
 in terms of the tables the operations themselves look their parameters up in.
 */
module CrcModes {
  import opened Sequences
  import opened BitSequences
  import opened WordBits
  import opened CrcRegister
  import opened CrcTable
  import opened CrcOrder
  import opened CrcEngine
  import opened CrcHistory
  import opened CrcReflection

  // ----- parameters

  /** What each named mode opens a session with. */
  lemma NamedModes(endian: u8)
    requires endian == 0 || endian == 1
    ensures Run([Init(0, endian)]) == Open(Params(0x0000, 0x0000, 1, 1), endian, [], false)
    ensures Run([Init(1, endian)]) == Open(Params(0x0000, 0x0000, 0, 0), endian, [], false)
    ensures Run([Init(2, endian)]) == Open(Params(0xFFFF, 0x0000, 0, 0), endian, [], false)
    ensures Run([Init(3, endian)]) == Open(Params(0xFFFF, 0xFFFF, 0, 0), endian, [], false)
    ensures Run([Init(4, endian)]) == Open(Params(0xFFFF, 0xFFFF, 1, 1), endian, [], false)
    ensures Run([Init(5, endian)]) == Open(Params(0xFFFF, 0x0000, 0, 0), endian, [], false)
    ensures Run([Init(6, endian)]) == Open(Params(0x1D0F, 0x0000, 0, 0), endian, [], false)
    ensures Run([Init(7, endian)]) == Open(Params(0x89EC, 0x0000, 1, 1), endian, [], false)
    ensures Run([Init(8, endian)]) == Open(Params(0xB2AA, 0x0000, 1, 1), endian, [], false)
    ensures Run([Init(9, endian)]) == Open(Params(0xC6C6, 0x0000, 1, 1), endian, [], false)
  {
  }

  /** What each named mode makes of waiting custom parameters: it changes those it mentions, and they go on waiting. */
  lemma NamedOverCustom(p: Params, endian: u8)
    requires endian == 0 || endian == 1
    ensures Run([Custom(p), Init(0, endian)]) == Loaded(Params(p.init, p.xorOut, 1, 1))
    ensures Run([Custom(p), Init(1, endian)]) == Loaded(Params(p.init, p.xorOut, p.reverseIn, p.reverseOut))
    ensures Run([Custom(p), Init(2, endian)]) == Loaded(Params(0xFFFF, p.xorOut, p.reverseIn, p.reverseOut))
    ensures Run([Custom(p), Init(3, endian)]) == Loaded(Params(0xFFFF, 0xFFFF, p.reverseIn, p.reverseOut))
    ensures Run([Custom(p), Init(4, endian)]) == Loaded(Params(0xFFFF, 0xFFFF, 1, 1))
    ensures Run([Custom(p), Init(5, endian)]) == Loaded(Params(0xFFFF, p.xorOut, p.reverseIn, p.reverseOut))
    ensures Run([Custom(p), Init(6, endian)]) == Loaded(Params(0x1D0F, p.xorOut, p.reverseIn, p.reverseOut))
    ensures Run([Custom(p), Init(7, endian)]) == Loaded(Params(0x89EC, p.xorOut, 1, 1))
    ensures Run([Custom(p), Init(8, endian)]) == Loaded(Params(0xB2AA, p.xorOut, 1, 1))
    ensures Run([Custom(p), Init(9, endian)]) == Loaded(Params(0xC6C6, p.xorOut, 1, 1))
  {
    CustomRun(p);
    forall mode: u8
      ensures Run([Custom(p), Init(mode, endian)]) == Next(Loaded(p), Init(mode, endian))
    {
      RunTwo(Custom(p), Init(mode, endian));
    }
  }

  lemma RunOne(c: Call)
    ensures Run([c]) == Next(Idle, c)
  {
    assert [c][..0] == [];
  }

  lemma RunTwo(c: Call, d: Call)
    ensures Run([c, d]) == Next(Run([c]), d)
  {
    assert [c, d][..1] == [c];
  }

  lemma CustomRun(p: Params)
    ensures Run([Custom(p)]) == Loaded(p)
  {
    RunOne(Custom(p));
  }

  /** The custom mode opens a session with the parameters that wait. */
  lemma CustomMode(p: Params, endian: u8)
    requires endian == 0 || endian == 1
    ensures Run([Custom(p), Init(0xFF, endian)]) == Open(p, endian, [], false)
  {
    CustomRun(p);
    RunTwo(Custom(p), Init(0xFF, endian));
  }

  /** An init fails, after any history, for other byte orders and modes and for the custom mode with nothing waiting. */
  lemma InitFailsIff(h: seq<Call>, mode: u8, endian: u8)
    ensures Run(h + [Init(mode, endian)]).Idle? <==>
            endian > 1 || 9 < mode < 0xFF || (mode == 0xFF && !Run(h).Loaded?)
  {
    assert (h + [Init(mode, endian)])[..|h|] == h;
  }

  // ----- results

  /** A session of one update: the results it returns are the words its bits stand for. */
  lemma ResultIff(p: Params, endian: u8, data: seq<bv8>, result: bv16, word: bv16)
    requires CrcBits(p, endian, data) == Bits16(word)
    ensures Returns(Open(p, endian, data, true), result) <==> result == word
  {
    hide CrcBits, Bits16;
    Bits16Injective(result, word);
  }

  lemma Updated(h: seq<Call>, data: seq<bv8>)
    requires Run(h).Open? && Run(h).data == []
    ensures Run(h + [Update(data)]) == Run(h).(data := data, started := true)
  {
    assert (h + [Update(data)])[..|h|] == h;
    assert [] + data == data;
  }

  lemma NamedSession(mode: u8, endian: u8, data: seq<bv8>)
    requires mode <= 9 && endian <= 1
    ensures Run([Init(mode, endian)]).Open? && Run([Init(mode, endian)]).data == []
    ensures Run([Init(mode, endian), Update(data)])
            == Run([Init(mode, endian)]).(data := data, started := true)
  {
    RunOne(Init(mode, endian));
    Updated([Init(mode, endian)], data);
    assert [Init(mode, endian)] + [Update(data)] == [Init(mode, endian), Update(data)];
  }

  lemma CustomSession(p: Params, endian: u8, data: seq<bv8>)
    requires endian <= 1
    ensures Run([Custom(p), Init(0xFF, endian), Update(data)]) == Open(p, endian, data, true)
  {
    CustomMode(p, endian);
    Updated([Custom(p), Init(0xFF, endian)], data);
    assert [Custom(p), Init(0xFF, endian)] + [Update(data)] == [Custom(p), Init(0xFF, endian), Update(data)];
  }

  // ----- check values

  const CHECK: seq<bv8> := [0x31, 0x32, 0x33, 0x34, 0x35, 0x36, 0x37, 0x38, 0x39]

  /** The same bytes mirrored. */
  const MIRRORED: seq<bv8> := [0x8C, 0x4C, 0xCC, 0x2C, 0xAC, 0x6C, 0xEC, 0x1C, 0x9C]

  lemma MirroredCheck()
    ensures forall i :: 0 <= i < 9 ==> MIRRORED[i] == U8BitReverse(CHECK[i])
  {
    assert U8BitReverse(0x31) == 0x8C && U8BitReverse(0x32) == 0x4C && U8BitReverse(0x33) == 0xCC;
    assert U8BitReverse(0x34) == 0x2C && U8BitReverse(0x35) == 0xAC && U8BitReverse(0x36) == 0x6C;
    assert U8BitReverse(0x37) == 0xEC && U8BitReverse(0x38) == 0x1C && U8BitReverse(0x39) == 0x9C;
    hide U8BitReverse;
  }

  /** A byte divided from a register, with the eight steps in place of the table. */
  function DivideByte(r: bv16, b: bv8): bv16 { Combine(r, Shift8(ShlByte(Wide(TableIndex(r, b))))) }

  lemma DividedByTable(r: bv16, b: bv8)
    ensures TableStep(r, b) == DivideByte(r, b)
  {
    hide CrcCcitTable, Shift8, Combine;
    TableEntry(TableIndex(r, b));
  }

  /** Registers before and after each of nine bytes. */
  predicate Trace(s: seq<bv16>, bytes: seq<bv8>) {
    |s| == 10 && |bytes| == 9 && forall i :: 0 <= i < 9 ==> s[i + 1] == DivideByte(s[i], bytes[i])
  }

  /** What the bytes look like when they reach the register. */
  predicate Reaching(p: Params, bytes: seq<bv8>) {
    bytes == if p.reverseIn == 1 then MIRRORED else CHECK
  }

  lemma {:induction false} TraceCarries(p: Params, s: seq<bv16>, bytes: seq<bv8>, n: nat)
    requires Trace(s, bytes) && Reaching(p, bytes) && s[0] == p.init && n <= 9
    ensures Carries(s[n], p, CHECK[..n])
    decreases n
  {
    hide Carries, DivideByte, TableStep, U8BitReverse;
    if n == 0 {
      InitialRemainder(p);
    } else {
      TraceCarries(p, s, bytes, n - 1);
      MirroredCheck();
      RemainderStep(p, CHECK[..n - 1], CHECK[n - 1], s[n - 1]);
      DividedByTable(s[n - 1], bytes[n - 1]);
      assert CHECK[..n] == CHECK[..n - 1] + [CHECK[n - 1]];
    }
  }

  /** The result of a session over the nine characters, from the register at the end of a trace. */
  lemma Checked(p: Params, endian: u8, s: seq<bv16>, bytes: seq<bv8>, result: bv16)
    requires Trace(s, bytes) && Reaching(p, bytes) && s[0] == p.init
    ensures Returns(Open(p, endian, CHECK, true), result) <==> result == Finalise(p, endian, s[9])
  {
    hide Carries, DivideByte, Finalise, CrcBits, Bits16, Remainder;
    TraceCarries(p, s, bytes, 9);
    assert CHECK[..9] == CHECK;
    assert Carries(s[9], p, CHECK);
    CarriesBits(s[9], p, CHECK);
    FinaliseBits(p, endian, CHECK, s[9]);
    ResultIff(p, endian, CHECK, result, Finalise(p, endian, s[9]));
  }

  lemma CarriesBits(r: bv16, p: Params, data: seq<bv8>)
    requires Carries(r, p, data)
    ensures Bits16(r) == Remainder(p, data)
  {
  }

  const KERMIT_TRACE: seq<bv16> :=
    [0x0000, 0x5004, 0xD7BD, 0x1E5A, 0x4C11, 0xEC2E, 0xBF88, 0xE296, 0x98D1, 0x9184]

  lemma KermitTrace()
    ensures Trace(KERMIT_TRACE, MIRRORED)
  {
    assert DivideByte(0x0000, 0x8C) == 0x5004 && DivideByte(0x5004, 0x4C) == 0xD7BD;
    assert DivideByte(0xD7BD, 0xCC) == 0x1E5A;
    assert DivideByte(0x1E5A, 0x2C) == 0x4C11 && DivideByte(0x4C11, 0xAC) == 0xEC2E;
    assert DivideByte(0xEC2E, 0x6C) == 0xBF88;
    assert DivideByte(0xBF88, 0xEC) == 0xE296 && DivideByte(0xE296, 0x1C) == 0x98D1;
    assert DivideByte(0x98D1, 0x9C) == 0x9184;
    hide DivideByte;
  }

  const XMODEM_TRACE: seq<bv16> :=
    [0x0000, 0x2672, 0x20B5, 0x9752, 0xD789, 0x546C, 0x20E4, 0x86D6, 0x9015, 0x31C3]

  lemma XmodemTrace()
    ensures Trace(XMODEM_TRACE, CHECK)
  {
    assert DivideByte(0x0000, 0x31) == 0x2672 && DivideByte(0x2672, 0x32) == 0x20B5;
    assert DivideByte(0x20B5, 0x33) == 0x9752;
    assert DivideByte(0x9752, 0x34) == 0xD789 && DivideByte(0xD789, 0x35) == 0x546C;
    assert DivideByte(0x546C, 0x36) == 0x20E4;
    assert DivideByte(0x20E4, 0x37) == 0x86D6 && DivideByte(0x86D6, 0x38) == 0x9015;
    assert DivideByte(0x9015, 0x39) == 0x31C3;
    hide DivideByte;
  }

  const FALSE_TRACE: seq<bv16> :=
    [0xFFFF, 0xC782, 0x3DBA, 0x5BCE, 0x5349, 0x4560, 0x2EF4, 0x7718, 0xA12B, 0x29B1]

  lemma FalseTrace()
    ensures Trace(FALSE_TRACE, CHECK)
  {
    assert DivideByte(0xFFFF, 0x31) == 0xC782 && DivideByte(0xC782, 0x32) == 0x3DBA;
    assert DivideByte(0x3DBA, 0x33) == 0x5BCE;
    assert DivideByte(0x5BCE, 0x34) == 0x5349 && DivideByte(0x5349, 0x35) == 0x4560;
    assert DivideByte(0x4560, 0x36) == 0x2EF4;
    assert DivideByte(0x2EF4, 0x37) == 0x7718 && DivideByte(0x7718, 0x38) == 0xA12B;
    assert DivideByte(0xA12B, 0x39) == 0x29B1;
    hide DivideByte;
  }

  const X25_TRACE: seq<bv16> :=
    [0xFFFF, 0xB1F4, 0xCAB2, 0xD2C6, 0xC8D1, 0xFD22, 0xB198, 0x1358, 0xA9EF, 0x89F6]

  lemma X25Trace()
    ensures Trace(X25_TRACE, MIRRORED)
  {
    assert DivideByte(0xFFFF, 0x8C) == 0xB1F4 && DivideByte(0xB1F4, 0x4C) == 0xCAB2;
    assert DivideByte(0xCAB2, 0xCC) == 0xD2C6;
    assert DivideByte(0xD2C6, 0x2C) == 0xC8D1 && DivideByte(0xC8D1, 0xAC) == 0xFD22;
    assert DivideByte(0xFD22, 0x6C) == 0xB198;
    assert DivideByte(0xB198, 0xEC) == 0x1358 && DivideByte(0x1358, 0x1C) == 0xA9EF;
    assert DivideByte(0xA9EF, 0x9C) == 0x89F6;
    hide DivideByte;
  }

  const AUG_TRACE: seq<bv16> :=
    [0x1D0F, 0xEAEE, 0xA475, 0x865E, 0xD999, 0xA5A2, 0x11DA, 0x9EA4, 0x712C, 0xE5CC]

  lemma AugTrace()
    ensures Trace(AUG_TRACE, CHECK)
  {
    assert DivideByte(0x1D0F, 0x31) == 0xEAEE && DivideByte(0xEAEE, 0x32) == 0xA475;
    assert DivideByte(0xA475, 0x33) == 0x865E;
    assert DivideByte(0x865E, 0x34) == 0xD999 && DivideByte(0xD999, 0x35) == 0xA5A2;
    assert DivideByte(0xA5A2, 0x36) == 0x11DA;
    assert DivideByte(0x11DA, 0x37) == 0x9EA4 && DivideByte(0x9EA4, 0x38) == 0x712C;
    assert DivideByte(0x712C, 0x39) == 0xE5CC;
    hide DivideByte;
  }

  const TMS_TRACE: seq<bv16> :=
    [0x89EC, 0xBCA5, 0x4A1F, 0xEE4E, 0xB70E, 0xAD5A, 0x936D, 0xE278, 0x76D1, 0x8D64]

  lemma TmsTrace()
    ensures Trace(TMS_TRACE, MIRRORED)
  {
    assert DivideByte(0x89EC, 0x8C) == 0xBCA5 && DivideByte(0xBCA5, 0x4C) == 0x4A1F;
    assert DivideByte(0x4A1F, 0xCC) == 0xEE4E;
    assert DivideByte(0xEE4E, 0x2C) == 0xB70E && DivideByte(0xB70E, 0xAC) == 0xAD5A;
    assert DivideByte(0xAD5A, 0x6C) == 0x936D;
    assert DivideByte(0x936D, 0xEC) == 0xE278 && DivideByte(0xE278, 0x1C) == 0x76D1;
    assert DivideByte(0x76D1, 0x9C) == 0x8D64;
    hide DivideByte;
  }

  const RIELLO_TRACE: seq<bv16> :=
    [0xB2AA, 0x7D9D, 0xBB72, 0x7C70, 0x2AF5, 0x044E, 0xA3AE, 0x172B, 0x9A6B, 0x0BC6]

  lemma RielloTrace()
    ensures Trace(RIELLO_TRACE, MIRRORED)
  {
    assert DivideByte(0xB2AA, 0x8C) == 0x7D9D && DivideByte(0x7D9D, 0x4C) == 0xBB72;
    assert DivideByte(0xBB72, 0xCC) == 0x7C70;
    assert DivideByte(0x7C70, 0x2C) == 0x2AF5 && DivideByte(0x2AF5, 0xAC) == 0x044E;
    assert DivideByte(0x044E, 0x6C) == 0xA3AE;
    assert DivideByte(0xA3AE, 0xEC) == 0x172B && DivideByte(0x172B, 0x1C) == 0x9A6B;
    assert DivideByte(0x9A6B, 0x9C) == 0x0BC6;
    hide DivideByte;
  }

  const CRCA_TRACE: seq<bv16> :=
    [0xC6C6, 0x2F8E, 0xD2C5, 0x36FF, 0x4C7B, 0x862E, 0x7264, 0x0677, 0xC47B, 0xA0FD]

  lemma CrcATrace()
    ensures Trace(CRCA_TRACE, MIRRORED)
  {
    assert DivideByte(0xC6C6, 0x8C) == 0x2F8E && DivideByte(0x2F8E, 0x4C) == 0xD2C5;
    assert DivideByte(0xD2C5, 0xCC) == 0x36FF;
    assert DivideByte(0x36FF, 0x2C) == 0x4C7B && DivideByte(0x4C7B, 0xAC) == 0x862E;
    assert DivideByte(0x862E, 0x6C) == 0x7264;
    assert DivideByte(0x7264, 0xEC) == 0x0677 && DivideByte(0x0677, 0x1C) == 0xC47B;
    assert DivideByte(0xC47B, 0x9C) == 0xA0FD;
    hide DivideByte;
  }

  /** A named mode over the nine characters. */
  predicate ChecksTo(mode: u8, endian: u8, result: bv16) {
    Returns(Run([Init(mode, endian), Update(CHECK)]), result)
  }

  lemma KermitCheck(result: bv16)
    ensures ChecksTo(0, 0, result) <==> result == 0x2189
    ensures ChecksTo(0, 1, result) <==> result == 0x8921
  {
    var p := Params(0x0000, 0x0000, 1, 1);
    assert Finalise(p, 0, 0x9184) == 0x2189 && Finalise(p, 1, 0x9184) == 0x8921;
    KermitTrace();
    NamedModes(0);
    NamedModes(1);
    NamedSession(0, 0, CHECK);
    NamedSession(0, 1, CHECK);
    hide Returns, Run, Finalise, Trace;
    Checked(p, 0, KERMIT_TRACE, MIRRORED, result);
    Checked(p, 1, KERMIT_TRACE, MIRRORED, result);
  }

  lemma XmodemCheck(result: bv16)
    ensures ChecksTo(1, 0, result) <==> result == 0x31C3
    ensures ChecksTo(1, 1, result) <==> result == 0xC331
  {
    var p := Params(0x0000, 0x0000, 0, 0);
    assert Finalise(p, 0, 0x31C3) == 0x31C3 && Finalise(p, 1, 0x31C3) == 0xC331;
    XmodemTrace();
    NamedModes(0);
    NamedModes(1);
    NamedSession(1, 0, CHECK);
    NamedSession(1, 1, CHECK);
    hide Returns, Run, Finalise, Trace;
    Checked(p, 0, XMODEM_TRACE, CHECK, result);
    Checked(p, 1, XMODEM_TRACE, CHECK, result);
  }

  lemma FalseCheck(result: bv16)
    ensures ChecksTo(2, 0, result) <==> result == 0x29B1
    ensures ChecksTo(2, 1, result) <==> result == 0xB129
  {
    var p := Params(0xFFFF, 0x0000, 0, 0);
    assert Finalise(p, 0, 0x29B1) == 0x29B1 && Finalise(p, 1, 0x29B1) == 0xB129;
    FalseTrace();
    NamedModes(0);
    NamedModes(1);
    NamedSession(2, 0, CHECK);
    NamedSession(2, 1, CHECK);
    hide Returns, Run, Finalise, Trace;
    Checked(p, 0, FALSE_TRACE, CHECK, result);
    Checked(p, 1, FALSE_TRACE, CHECK, result);
  }

  lemma GenibusCheck(result: bv16)
    ensures ChecksTo(3, 0, result) <==> result == 0xD64E
    ensures ChecksTo(3, 1, result) <==> result == 0x4ED6
  {
    var p := Params(0xFFFF, 0xFFFF, 0, 0);
    assert Finalise(p, 0, 0x29B1) == 0xD64E && Finalise(p, 1, 0x29B1) == 0x4ED6;
    FalseTrace();
    NamedModes(0);
    NamedModes(1);
    NamedSession(3, 0, CHECK);
    NamedSession(3, 1, CHECK);
    hide Returns, Run, Finalise, Trace;
    Checked(p, 0, FALSE_TRACE, CHECK, result);
    Checked(p, 1, FALSE_TRACE, CHECK, result);
  }

  lemma X25Check(result: bv16)
    ensures ChecksTo(4, 0, result) <==> result == 0x906E
    ensures ChecksTo(4, 1, result) <==> result == 0x6E90
  {
    var p := Params(0xFFFF, 0xFFFF, 1, 1);
    assert Finalise(p, 0, 0x89F6) == 0x906E && Finalise(p, 1, 0x89F6) == 0x6E90;
    X25Trace();
    NamedModes(0);
    NamedModes(1);
    NamedSession(4, 0, CHECK);
    NamedSession(4, 1, CHECK);
    hide Returns, Run, Finalise, Trace;
    Checked(p, 0, X25_TRACE, MIRRORED, result);
    Checked(p, 1, X25_TRACE, MIRRORED, result);
  }

  lemma Mcrf4xxCheck(result: bv16)
    ensures ChecksTo(5, 0, result) <==> result == 0x29B1
    ensures ChecksTo(5, 1, result) <==> result == 0xB129
  {
    var p := Params(0xFFFF, 0x0000, 0, 0);
    assert Finalise(p, 0, 0x29B1) == 0x29B1 && Finalise(p, 1, 0x29B1) == 0xB129;
    FalseTrace();
    NamedModes(0);
    NamedModes(1);
    NamedSession(5, 0, CHECK);
    NamedSession(5, 1, CHECK);
    hide Returns, Run, Finalise, Trace;
    Checked(p, 0, FALSE_TRACE, CHECK, result);
    Checked(p, 1, FALSE_TRACE, CHECK, result);
  }

  lemma AugCcitCheck(result: bv16)
    ensures ChecksTo(6, 0, result) <==> result == 0xE5CC
    ensures ChecksTo(6, 1, result) <==> result == 0xCCE5
  {
    var p := Params(0x1D0F, 0x0000, 0, 0);
    assert Finalise(p, 0, 0xE5CC) == 0xE5CC && Finalise(p, 1, 0xE5CC) == 0xCCE5;
    AugTrace();
    NamedModes(0);
    NamedModes(1);
    NamedSession(6, 0, CHECK);
    NamedSession(6, 1, CHECK);
    hide Returns, Run, Finalise, Trace;
    Checked(p, 0, AUG_TRACE, CHECK, result);
    Checked(p, 1, AUG_TRACE, CHECK, result);
  }

  lemma Tms37157Check(result: bv16)
    ensures ChecksTo(7, 0, result) <==> result == 0x26B1
    ensures ChecksTo(7, 1, result) <==> result == 0xB126
  {
    var p := Params(0x89EC, 0x0000, 1, 1);
    assert Finalise(p, 0, 0x8D64) == 0x26B1 && Finalise(p, 1, 0x8D64) == 0xB126;
    TmsTrace();
    NamedModes(0);
    NamedModes(1);
    NamedSession(7, 0, CHECK);
    NamedSession(7, 1, CHECK);
    hide Returns, Run, Finalise, Trace;
    Checked(p, 0, TMS_TRACE, MIRRORED, result);
    Checked(p, 1, TMS_TRACE, MIRRORED, result);
  }

  lemma RielloCheck(result: bv16)
    ensures ChecksTo(8, 0, result) <==> result == 0x63D0
    ensures ChecksTo(8, 1, result) <==> result == 0xD063
  {
    var p := Params(0xB2AA, 0x0000, 1, 1);
    assert Finalise(p, 0, 0x0BC6) == 0x63D0 && Finalise(p, 1, 0x0BC6) == 0xD063;
    RielloTrace();
    NamedModes(0);
    NamedModes(1);
    NamedSession(8, 0, CHECK);
    NamedSession(8, 1, CHECK);
    hide Returns, Run, Finalise, Trace;
    Checked(p, 0, RIELLO_TRACE, MIRRORED, result);
    Checked(p, 1, RIELLO_TRACE, MIRRORED, result);
  }

  lemma CrcACheck(result: bv16)
    ensures ChecksTo(9, 0, result) <==> result == 0xBF05
    ensures ChecksTo(9, 1, result) <==> result == 0x05BF
  {
    var p := Params(0xC6C6, 0x0000, 1, 1);
    assert Finalise(p, 0, 0xA0FD) == 0xBF05 && Finalise(p, 1, 0xA0FD) == 0x05BF;
    CrcATrace();
    NamedModes(0);
    NamedModes(1);
    NamedSession(9, 0, CHECK);
    NamedSession(9, 1, CHECK);
    hide Returns, Run, Finalise, Trace;
    Checked(p, 0, CRCA_TRACE, MIRRORED, result);
    Checked(p, 1, CRCA_TRACE, MIRRORED, result);
  }

  /** The check values of the ten modes, most significant byte first and exchanged. */
  lemma CheckValues(result: bv16)
    ensures ChecksTo(0, 0, result) <==> result == 0x2189
    ensures ChecksTo(1, 0, result) <==> result == 0x31C3
    ensures ChecksTo(2, 0, result) <==> result == 0x29B1
    ensures ChecksTo(3, 0, result) <==> result == 0xD64E
    ensures ChecksTo(4, 0, result) <==> result == 0x906E
    ensures ChecksTo(5, 0, result) <==> result == 0x29B1
    ensures ChecksTo(6, 0, result) <==> result == 0xE5CC
    ensures ChecksTo(7, 0, result) <==> result == 0x26B1
    ensures ChecksTo(8, 0, result) <==> result == 0x63D0
    ensures ChecksTo(9, 0, result) <==> result == 0xBF05
    ensures ChecksTo(0, 1, result) <==> result == 0x8921
  {
    hide ChecksTo;
    KermitCheck(result);
    XmodemCheck(result);
    FalseCheck(result);
    GenibusCheck(result);
    X25Check(result);
    Mcrf4xxCheck(result);
    AugCcitCheck(result);
    Tms37157Check(result);
    RielloCheck(result);
    CrcACheck(result);
  }

  // ----- the modes over every message

  /** What a mode returns for a message, most significant byte first. */
  predicate Yields(mode: u8, data: seq<bv8>, result: bv16) {
    Returns(Run([Init(mode, 0), Update(data)]), result)
  }

  /** A mirroring mode is the right-shifting engine from the mirrored start. */
  lemma Mirroring(mode: u8, p: Params, start: bv16, data: seq<bv8>, result: bv16)
    requires mode <= 9 && Run([Init(mode, 0)]) == Open(p, 0, [], false)
    requires p.reverseIn == 1 && p.reverseOut == 1 && start == U16BitReverse(p.init)
    ensures Yields(mode, data, result) <==> result == ApplyXor(Fcs(start, data), p.xorOut)
  {
    hide Returns, Run, CrcBits, Bits16, Fcs, U16BitReverse, ApplyXor;
    NamedSession(mode, 0, data);
    ReflectedEngine(p, data);
    ResultIff(p, 0, data, result, ApplyXor(Fcs(start, data), p.xorOut));
  }

  /** The five mirroring modes are right-shifting engines: KERMIT, X_25, TMS37157, RIELLO and CRC_A. */
  lemma MirroringModes(data: seq<bv8>, result: bv16)
    ensures Yields(0, data, result) <==> result == Fcs(0x0000, data)
    ensures Yields(4, data, result) <==> result == Fcs(0xFFFF, data) ^ 0xFFFF
    ensures Yields(7, data, result) <==> result == Fcs(0x3791, data)
    ensures Yields(8, data, result) <==> result == Fcs(0x554D, data)
    ensures Yields(9, data, result) <==> result == Fcs(0x6363, data)
  {
    NamedModes(0);
    MirroredStarts();
    forall r: bv16
      ensures ApplyXor(r, 0) == r && ApplyXor(r, 0xFFFF) == r ^ 0xFFFF
    {
      NoXor(r);
    }
    hide Yields, Run, Fcs, U16BitReverse, ApplyXor;
    Mirroring(0, Params(0, 0, 1, 1), 0, data, result);
    Mirroring(4, Params(0xFFFF, 0xFFFF, 1, 1), 0xFFFF, data, result);
    Mirroring(7, Params(0x89EC, 0, 1, 1), 0x3791, data, result);
    Mirroring(8, Params(0xB2AA, 0, 1, 1), 0x554D, data, result);
    Mirroring(9, Params(0xC6C6, 0, 1, 1), 0x6363, data, result);
  }

  lemma MirroredStarts()
    ensures U16BitReverse(0) == 0 && U16BitReverse(0xFFFF) == 0xFFFF && U16BitReverse(0x89EC) == 0x3791
    ensures U16BitReverse(0xB2AA) == 0x554D && U16BitReverse(0xC6C6) == 0x6363
  {
  }

  lemma NoXor(r: bv16)
    ensures ApplyXor(r, 0) == r && ApplyXor(r, 0xFFFF) == r ^ 0xFFFF
  {
  }

  /** The bits of a message, byte by byte, top bit first. */
  function Plain(data: seq<bv8>): (s: seq<bool>)
    ensures |s| == 8 * |data|
    decreases |data|
  {
    if data == [] then [] else Bits8(data[0]) + Plain(data[1..])
  }

  lemma {:induction false} PlainMessage(reverseIn: u8, data: seq<bv8>)
    requires reverseIn != 1
    ensures MessageBits(reverseIn, data) == Plain(data)
    decreases |data|
  {
    if data != [] {
      PlainMessage(reverseIn, data[1..]);
    }
  }

  /** A mode that mirrors nothing returns the register itself, with the bits of its XOR value exchanged. */
  lemma Straight(mode: u8, p: Params, data: seq<bv8>, result: bv16)
    requires mode <= 9 && Run([Init(mode, 0)]) == Open(p, 0, [], false)
    requires p.reverseIn == 0 && p.reverseOut == 0
    ensures Yields(mode, data, result)
            <==> Bits16(result) == Xor(Feed(Bits16(p.init), Plain(data)), Bits16(p.xorOut))
  {
    hide Run, Bits16, Feed, MessageBits;
    NamedSession(mode, 0, data);
    PlainMessage(0, data);
  }

  /** The other five divide the message as it is: XMODEM, FALSE, GENIBUS, MCRF4XX and AUG_CCIT. */
  lemma StraightModes(data: seq<bv8>, result: bv16)
    ensures Yields(1, data, result) <==> Bits16(result) == Feed(Bits16(0x0000), Plain(data))
    ensures Yields(2, data, result) <==> Bits16(result) == Feed(Bits16(0xFFFF), Plain(data))
    ensures Yields(3, data, result) <==> Bits16(result ^ 0xFFFF) == Feed(Bits16(0xFFFF), Plain(data))
    ensures Yields(5, data, result) <==> Yields(2, data, result)
    ensures Yields(6, data, result) <==> Bits16(result) == Feed(Bits16(0xFFFF), Zeros(16) + Plain(data))
  {
    NamedModes(0);
    AugStart();
    Bits16Zero();
    Bits16Xor(result, 0xFFFF);
    hide Yields, Run, Feed, Bits16, Plain;
    Straight(1, Params(0, 0, 0, 0), data, result);
    Straight(2, Params(0xFFFF, 0, 0, 0), data, result);
    Straight(3, Params(0xFFFF, 0xFFFF, 0, 0), data, result);
    Straight(5, Params(0xFFFF, 0, 0, 0), data, result);
    Straight(6, Params(0x1D0F, 0, 0, 0), data, result);
    FeedConcat(Bits16(0xFFFF), Zeros(16), Plain(data));
    XorNothing(Feed(Bits16(0), Plain(data)));
    XorNothing(Feed(Bits16(0xFFFF), Plain(data)));
    XorNothing(Feed(Bits16(0x1D0F), Plain(data)));
    XorAcross(Bits16(result), Feed(Bits16(0xFFFF), Plain(data)), Bits16(0xFFFF));
  }

  lemma XorNothing(w: Word)
    ensures Xor(w, ZERO) == w
  {
  }

  lemma XorAcross(a: Word, b: Word, c: Word)
    ensures a == Xor(b, c) <==> Xor(a, c) == b
  {
    if a == Xor(b, c) {
      assert Xor(a, c) == b;
    }
    if Xor(a, c) == b {
      assert a == Xor(b, c);
    }
  }

  /** The start of AUG_CCIT is what sixteen zero bits make of all ones. */
  lemma AugStart()
    ensures Bits16(0x1D0F) == Feed(Bits16(0xFFFF), Zeros(16))
  {
    hide Bits16, Feed;
    ShiftNBits(0xFFFF, 16);
    ShiftNAdd(0xFFFF, 8, 8);
    Shift8IsShiftN(0xFFFF);
    Shift8IsShiftN(Shift8(0xFFFF));
    assert Shift8(Shift8(0xFFFF)) == 0x1D0F;
    hide ShiftN, Shift8;
  }

  // ----- byte order and reflections

  /** What a session with custom parameters returns. */
  predicate CustomYields(p: Params, endian: u8, data: seq<bv8>, result: bv16) {
    Returns(Run([Custom(p), Init(0xFF, endian), Update(data)]), result)
  }

  /** The register a message leaves, its bytes mirrored or not. */
  function Register(p: Params, data: seq<bv8>): Word {
    Feed(Bits16(p.init), if p.reverseIn == 1 then Mirrored8(data) else Plain(data))
  }

  function Mirrored8(data: seq<bv8>): (s: seq<bool>)
    ensures |s| == 8 * |data|
    decreases |data|
  {
    if data == [] then [] else Rev(Bits8(data[0])) + Mirrored8(data[1..])
  }

  lemma {:induction false} MirroredMessage(data: seq<bv8>)
    ensures MessageBits(1, data) == Mirrored8(data)
    decreases |data|
  {
    if data != [] {
      MirroredMessage(data[1..]);
    }
  }

  /**
   For any custom parameters the two reflections are independent: the first mirrors the bytes
   of the message and the second the register, each if its parameter is 1 and not otherwise.
   Byte order 1 exchanges the bytes of what byte order 0 returns.
   */
  lemma Reflections(p: Params, data: seq<bv8>, result: bv16)
    ensures CustomYields(p, 0, data, result) <==>
            Xor(Bits16(result), Bits16(p.xorOut))
            == if p.reverseOut == 1 then Rev(Register(p, data)) else Register(p, data)
    ensures CustomYields(p, 1, data, result) <==> CustomYields(p, 0, data, (result << 8) | (result >> 8))
  {
    CustomSession(p, 0, data);
    CustomSession(p, 1, data);
    hide Run, Bits16, Feed, Plain, Mirrored8, MessageBits;
    if p.reverseIn == 1 {
      MirroredMessage(data);
    } else {
      PlainMessage(p.reverseIn, data);
    }
    var w := if p.reverseOut == 1 then Rev(Register(p, data)) else Register(p, data);
    var x := Xor(w, Bits16(p.xorOut));
    XorAcross(Bits16(result), w, Bits16(p.xorOut));
    ExchangedBits(result);
    Exchanged(Bits16(result), x);
  }

  lemma ExchangedBits(r: bv16)
    ensures Bits16((r << 8) | (r >> 8)) == Bits16(r)[8..] + Bits16(r)[..8]
  {
    ExchangedIsSwap(r);
    SwapBits(r);
  }

  lemma ExchangedIsSwap(r: bv16)
    ensures (r << 8) | (r >> 8) == Swap(r)
  {
  }

  lemma Exchanged(a: Word, x: Word)
    ensures a == x[8..] + x[..8] <==> a[8..] + a[..8] == x
  {
    if a == x[8..] + x[..8] {
      assert a[8..] == x[..8] && a[..8] == x[8..];
      assert a[8..] + a[..8] == x;
    }
    if a[8..] + a[..8] == x {
      assert x[..8] == a[8..] && x[8..] == a[..8];
    }
  }

  /** One reflection alone, over the nine characters. */
  lemma OneReflection(result: bv16)
    ensures CustomYields(Params(0, 0, 1, 0), 0, CHECK, result) <==> result == 0x9184
    ensures CustomYields(Params(0, 0, 0, 1), 0, CHECK, result) <==> result == 0xC38C
  {
    var p, q := Params(0, 0, 1, 0), Params(0, 0, 0, 1);
    assert Finalise(p, 0, 0x9184) == 0x9184 && Finalise(q, 0, 0x31C3) == 0xC38C;
    KermitTrace();
    XmodemTrace();
    CustomSession(p, 0, CHECK);
    CustomSession(q, 0, CHECK);
    hide Returns, Run, Finalise, Trace;
    Checked(p, 0, KERMIT_TRACE, MIRRORED, result);
    Checked(q, 0, XMODEM_TRACE, CHECK, result);
  }
}
