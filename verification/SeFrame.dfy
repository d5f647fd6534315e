/**
 The framed protocol spoken with the secure element: se_spi_send and se_spi_receive
 over a byte bus. The bus is a finite input and a growing output; a receiver that
 has used up the input is still waiting.
 */
module SeFrame {
  import opened BitSequences
  import opened WordBits
  import opened CrcEngine
  import opened CrcHistory
  import opened CrcModes
  import opened ByteValues
  import opened CrcDetection
  import opened Options

  const IO_BUFFER_SIZE: nat := 1024

  class Bus {
    const input: seq<bv8>
    var pos: nat
    var output: seq<bv8>

    constructor (input: seq<bv8>)
      ensures this.input == input && pos == 0 && output == []
    {
      this.input, pos, output := input, 0, [];
    }

    method SendByte(b: bv8)
      modifies this`output
      ensures output == old(output) + [b]
    {
      output := output + [b];
    }

    method ReceiveByte() returns (b: bv8)
      requires pos < |input|
      modifies this`pos
      ensures b == input[old(pos)] && pos == old(pos) + 1
    {
      b := input[pos];
      pos := pos + 1;
    }
  }

  // ----- what goes over the wire

  /** The number two bytes announce, the high one first. */
  function Length(hi: bv8, lo: bv8): nat {
    256 * (hi as int) + lo as int
  }

  lemma LengthIs(hi: bv8, lo: bv8)
    ensures Length(hi, lo) == 256 * (hi as int) + lo as int
  {
  }

  /** What the sender puts on the bus: preamble, the two bytes of the length, payload and CRC bytes. */
  function OwnFrame(hi: bv8, lo: bv8, payload: seq<bv8>, c1: bv8, c2: bv8): (s: seq<bv8>)
    ensures |s| == |payload| + 10
  {
    [0x00, 0x00, 0x00, 0x55, 0xAA, 0x00, hi, lo] + payload + [c1, c2]
  }

  /** The CRC bytes that go with a payload: with custom parameters pending the engine yields 0 instead. */
  predicate Trailer(ph: Phase, payload: seq<bv8>, c1: bv8, c2: bv8) {
    if ph.Loaded? then c1 == 0 && c2 == 0 else Matches(payload, c1, c2)
  }

  /** The result of init, update and get_result as both directions use them. */
  predicate WireCrc(ph: Phase, payload: seq<bv8>, crc: bv16) {
    Trailer(ph, payload, High(crc), Low(crc))
  }

  method PayloadCrc(crc: Crc, data: array<bv8>, len: nat) returns (result: bv16)
    requires crc.Valid() && len <= data.Length
    modifies crc
    ensures crc.Valid() && crc.phase == Idle
    ensures WireCrc(old(crc.phase), data[..len], result)
  {
    hide CrcBits, Bits8, Bits16, Overlay, MessageBits;
    KermitMode();
    var status := crc.Init(CRC_CCIT_KERMIT, 1);
    status := crc.Update(data, len);
    assert [] + data[..len] == data[..len];
    result := crc.GetResult();
    Bits16Bytes(result);
    ZeroBytes();
  }

  lemma ZeroBytes()
    ensures High(0) == 0 && Low(0) == 0
  {
  }

  /** Lays out preamble, header, length, payload and CRC in the I/O buffer. */
  method FillFrame(ioBuf: array<bv8>, data: array<bv8>, len: nat, crc: bv16) returns (i: nat)
    requires ioBuf.Length == IO_BUFFER_SIZE && ioBuf != data
    requires len <= data.Length && len + 10 <= IO_BUFFER_SIZE
    modifies ioBuf
    ensures i == len + 10
    ensures Length(ioBuf[6], ioBuf[7]) == len
    ensures ioBuf[..i] == OwnFrame(ioBuf[6], ioBuf[7], data[..len], High(crc), Low(crc))
  {
    hide High, Low, Length;
    i := FillHeader(ioBuf, len);
    ghost var header := ioBuf[..8];
    i := PutAll(ioBuf, i, data, len);
    i := Put(ioBuf, i, High(crc));
    i := Put(ioBuf, i, Low(crc));
    assert ioBuf[..i] == header + data[..len] + [High(crc)] + [Low(crc)];
    assert ioBuf[6] == ioBuf[..i][6] == header[6] && ioBuf[7] == ioBuf[..i][7] == header[7];
  }

  method FillHeader(ioBuf: array<bv8>, len: nat) returns (i: nat)
    requires ioBuf.Length == IO_BUFFER_SIZE && len + 10 <= IO_BUFFER_SIZE
    modifies ioBuf
    ensures i == 8 && ioBuf[..8] == [0x00, 0x00, 0x00, 0x55, 0xAA, 0x00, ioBuf[6], ioBuf[7]]
    ensures Length(ioBuf[6], ioBuf[7]) == len
  {
    hide Length;
    i := Put(ioBuf, 0, 0x00);
    i := Put(ioBuf, i, 0x00);
    i := Put(ioBuf, i, 0x00);
    i := Put(ioBuf, i, 0x55);
    i := Put(ioBuf, i, 0xAA);
    i := Put(ioBuf, i, 0x00);
    var hi, lo := LengthBytes(len);
    i := Put(ioBuf, i, hi);
    i := Put(ioBuf, i, lo);
    assert ioBuf[..8] == [0x00, 0x00, 0x00, 0x55, 0xAA, 0x00, hi, lo];
    assert ioBuf[6] == ioBuf[..8][6] && ioBuf[7] == ioBuf[..8][7];
  }

  /** The two bytes of a length. */
  method LengthBytes(len: nat) returns (hi: bv8, lo: bv8)
    requires len < 65536
    ensures Length(hi, lo) == len
  {
    var h, l := len / 256, len % 256;
    ByteRoundTrip(h);
    ByteRoundTrip(l);
    hi, lo := h as bv8, l as bv8;
  }

  /** Stores one byte at the advancing index. */
  method Put(ioBuf: array<bv8>, i: nat, b: bv8) returns (next: nat)
    requires i < ioBuf.Length
    modifies ioBuf
    ensures next == i + 1 && ioBuf[..next] == old(ioBuf[..i]) + [b]
  {
    ioBuf[i] := b;
    next := i + 1;
  }

  /** Copies the payload to the advancing index. */
  method PutAll(ioBuf: array<bv8>, i: nat, data: array<bv8>, len: nat) returns (next: nat)
    requires ioBuf != data && len <= data.Length && i + len <= ioBuf.Length
    modifies ioBuf
    ensures next == i + len && ioBuf[..next] == old(ioBuf[..i]) + data[..len]
  {
    var k := 0;
    while k < len
      invariant 0 <= k <= len
      invariant ioBuf[..i + k] == old(ioBuf[..i]) + data[..k]
    {
      ioBuf[i + k] := data[k];
      k := k + 1;
    }
    next := i + len;
  }

  lemma OutputParts(before: seq<bv8>, hi: bv8, lo: bv8, payload: seq<bv8>, c1: bv8, c2: bv8)
    ensures var all := before + OwnFrame(hi, lo, payload, c1, c2);
            && all[|before| + 6] == hi && all[|before| + 7] == lo
            && all[|all| - 2] == c1 && all[|all| - 1] == c2
            && all == before + [0x00, 0x00, 0x00, 0x55, 0xAA, 0x00, hi, lo] + payload + [c1, c2]
  {
  }

  /** se_spi_send: the first eight bytes go out ahead of the rest. */
  method Send(bus: Bus, crc: Crc, ioBuf: array<bv8>, data: array<bv8>, len: nat)
    requires crc.Valid() && ioBuf.Length == IO_BUFFER_SIZE && ioBuf != data
    requires len <= data.Length && len + 10 <= IO_BUFFER_SIZE
    modifies bus`output, crc, ioBuf
    ensures crc.Valid() && crc.phase == Idle
    ensures |bus.output| == |old(bus.output)| + len + 10
    ensures var hi, lo := bus.output[|old(bus.output)| + 6], bus.output[|old(bus.output)| + 7];
            var c1, c2 := bus.output[|bus.output| - 2], bus.output[|bus.output| - 1];
            && 256 * (hi as int) + lo as int == len
            && bus.output == old(bus.output) + [0x00, 0x00, 0x00, 0x55, 0xAA, 0x00, hi, lo] + data[..len] + [c1, c2]
            && Trailer(old(crc.phase), data[..len], c1, c2)
  {
    hide Trailer, High, Low, OwnFrame, Carries, Length;
    ghost var payload, before := data[..len], bus.output;
    var c := PayloadCrc(crc, data, len);
    var i := FillFrame(ioBuf, data, len, c);
    ghost var hi, lo := ioBuf[6], ioBuf[7];
    Transmit(bus, ioBuf, i);
    OutputParts(before, hi, lo, payload, High(c), Low(c));
    LengthIs(hi, lo);
  }

  /** The two loops that put the I/O buffer on the bus. */
  method Transmit(bus: Bus, ioBuf: array<bv8>, i: nat)
    requires 8 <= i <= ioBuf.Length
    modifies bus`output
    ensures bus.output == old(bus.output) + ioBuf[..i]
  {
    var n := 0;
    while n < 8
      invariant 0 <= n <= 8
      invariant bus.output == old(bus.output) + ioBuf[..n]
    {
      bus.SendByte(ioBuf[n]);
      n := n + 1;
    }
    while n < i
      invariant 8 <= n <= i
      invariant bus.output == old(bus.output) + ioBuf[..n]
    {
      bus.SendByte(ioBuf[n]);
      n := n + 1;
    }
  }

  // ----- receiving

  /** The position after the first b from `from` on. */
  function After(s: seq<bv8>, from: nat, b: bv8): (r: Option<nat>)
    requires from <= |s|
    ensures r.Some? ==> from < r.value <= |s|
    decreases |s| - from
  {
    if from == |s| then None
    else if s[from] == b then Some(from + 1)
    else After(s, from + 1, b)
  }

  /** The position after the five bytes the receiver waits for, one after another. */
  function AfterSync(s: seq<bv8>, from: nat): (r: Option<nat>)
    requires from <= |s|
    ensures r.Some? ==> from < r.value <= |s|
  {
    match After(s, from, 0x00)
    case None => None
    case Some(a) =>
      match After(s, a, 0x00)
      case None => None
      case Some(b) =>
        match After(s, b, 0x00)
        case None => None
        case Some(c) =>
          match After(s, c, 0xAA)
          case None => None
          case Some(d) => After(s, d, 0x55)
  }

  /** Still waiting, failed with status 1, or returned 0 with a payload; with the position reached. */
  datatype Reception =
    | Waiting
    | Rejected(pos: nat)
    | Received(payload: seq<bv8>, pos: nat)

  /** What follows the synchronisation, for a receiver with room for cap bytes. */
  function Decode(s: seq<bv8>, n: nat, cap: nat, ph: Phase): Reception
    requires n <= |s|
  {
    if n == |s| then Waiting
    else if s[n] != 0 then Rejected(n + 1)
    else if n + 3 > |s| then Waiting
    else
      var len := Length(s[n + 1], s[n + 2]);
      if cap < len then Rejected(n + 3)
      else if n + 5 + len > |s| then Waiting
      else if Trailer(ph, s[n + 3..n + 3 + len], s[n + 3 + len], s[n + 4 + len])
        then Received(s[n + 3..n + 3 + len], n + 5 + len)
      else Rejected(n + 5 + len)
  }

  /** The length a header announces after the synchronisation, when it arrives and the capacity allows it. */
  function Announced(s: seq<bv8>, n: nat, cap: nat): Option<nat>
    requires n <= |s|
  {
    if n + 3 > |s| || s[n] != 0 || cap < Length(s[n + 1], s[n + 2]) then None
    else Some(Length(s[n + 1], s[n + 2]))
  }

  /** What the caller's length is afterwards: an announced length stays there whatever becomes of the frame. */
  function LengthAfter(s: seq<bv8>, n: nat, cap: nat): nat
    requires n <= |s|
  {
    match Announced(s, n, cap)
    case None => cap
    case Some(len) => len
  }

  /** The CRC object is used once the whole payload is there; its result leaves it idle. */
  function PhaseAfter(s: seq<bv8>, n: nat, cap: nat, ph: Phase): Phase
    requires n <= |s|
  {
    match Announced(s, n, cap)
    case None => ph
    case Some(len) => if n + 3 + len <= |s| then Idle else ph
  }

  /** How many payload bytes go into the I/O buffer after the synchronisation. */
  function StoredAfter(s: seq<bv8>, n: nat, cap: nat): nat
    requires n <= |s|
  {
    match Announced(s, n, cap)
    case None => 0
    case Some(len) => if n + 3 + len <= |s| then len else |s| - (n + 3)
  }

  /** How many payload bytes a receiver with room for cap bytes puts into the I/O buffer. */
  function Stored(s: seq<bv8>, from: nat, cap: nat): nat
    requires from <= |s|
  {
    match AfterSync(s, from)
    case None => 0
    case Some(n) => StoredAfter(s, n, cap)
  }

  /** What a receiver with room for cap bytes makes of an input. */
  function Receive(s: seq<bv8>, from: nat, cap: nat, ph: Phase): Reception
    requires from <= |s|
  {
    match AfterSync(s, from)
    case None => Waiting
    case Some(n) => Decode(s, n, cap, ph)
  }

  /** One of the polling loops of the receiver. */
  method WaitFor(bus: Bus, b: bv8) returns (found: bool)
    requires bus.pos <= |bus.input|
    modifies bus`pos
    ensures bus.pos <= |bus.input|
    ensures After(bus.input, old(bus.pos), b) == if found then Some(bus.pos) else None
    ensures !found ==> bus.pos == |bus.input|
  {
    while bus.pos < |bus.input|
      invariant bus.pos <= |bus.input|
      invariant After(bus.input, old(bus.pos), b) == After(bus.input, bus.pos, b)
      decreases |bus.input| - bus.pos
    {
      var received := bus.ReceiveByte();
      if received == b {
        return true;
      }
    }
    found := false;
  }

  /** The five polling loops in a row. */
  method WaitForSync(bus: Bus) returns (found: bool)
    requires bus.pos <= |bus.input|
    modifies bus`pos
    ensures bus.pos <= |bus.input|
    ensures AfterSync(bus.input, old(bus.pos)) == if found then Some(bus.pos) else None
    ensures !found ==> bus.pos == |bus.input|
  {
    hide After;
    found := WaitFor(bus, 0x00);
    if !found { return; }
    found := WaitFor(bus, 0x00);
    if !found { return; }
    found := WaitFor(bus, 0x00);
    if !found { return; }
    found := WaitFor(bus, 0xAA);
    if !found { return; }
    found := WaitFor(bus, 0x55);
  }

  /** Reads len payload bytes into the I/O buffer and the caller's buffer; stops early when the bus is exhausted. */
  method ReadPayload(bus: Bus, ioBuf: array<bv8>, data: array<bv8>, len: nat) returns (complete: bool)
    requires ioBuf.Length == IO_BUFFER_SIZE && ioBuf != data
    requires len <= data.Length && bus.pos <= |bus.input|
    requires len <= IO_BUFFER_SIZE || |bus.input| - bus.pos <= IO_BUFFER_SIZE
    modifies bus`pos, ioBuf, data
    ensures complete <==> old(bus.pos) + len <= |bus.input|
    ensures bus.pos == if complete then old(bus.pos) + len else |bus.input|
    ensures complete ==> len <= IO_BUFFER_SIZE && data[..len] == ioBuf[..len] == bus.input[old(bus.pos)..bus.pos]
    ensures data[len..] == old(data[len..])
  {
    var i := 0;
    while i < len && bus.pos < |bus.input|
      invariant 0 <= i <= len
      invariant bus.pos == old(bus.pos) + i <= |bus.input|
      invariant data[..i] == ioBuf[..i] == bus.input[old(bus.pos)..bus.pos]
      invariant data[len..] == old(data[len..])
    {
      ioBuf[i] := bus.ReceiveByte();
      data[i] := ioBuf[i];
      i := i + 1;
    }
    complete := i == len;
  }

  /**
   se_spi_receive. The caller's capacity is replaced by the announced length as soon as that
   fits, whatever happens to the rest of the frame: after a failure the next call has no more
   room than that. The source stores into the I/O buffer without a check of its own, so no
   more payload than that holds may arrive.
   */
  method ReceiveFrame(bus: Bus, crc: Crc, ioBuf: array<bv8>, data: array<bv8>, cap: nat)
    returns (outcome: Reception, length: nat)
    requires crc.Valid() && ioBuf.Length == IO_BUFFER_SIZE && ioBuf != data
    requires cap <= data.Length && bus.pos <= |bus.input|
    requires Stored(bus.input, bus.pos, cap) <= IO_BUFFER_SIZE
    modifies bus`pos, crc, ioBuf, data
    ensures crc.Valid()
    ensures outcome == Receive(bus.input, old(bus.pos), cap, old(crc.phase))
    ensures match AfterSync(bus.input, old(bus.pos))
            case None => length == cap && crc.phase == old(crc.phase)
            case Some(n) =>
              && length == LengthAfter(bus.input, n, cap)
              && crc.phase == PhaseAfter(bus.input, n, cap, old(crc.phase))
    ensures outcome.Received? ==> length == |outcome.payload| <= cap && data[..length] == outcome.payload
    ensures data[cap..] == old(data[cap..])
    ensures outcome.Waiting? ==> bus.pos == |bus.input|
    ensures !outcome.Waiting? ==> bus.pos == outcome.pos
  {
    hide AfterSync, Decode, StoredAfter, LengthAfter, PhaseAfter;
    var found := WaitForSync(bus);
    if !found {
      return Waiting, cap;
    }
    outcome, length := ReceiveBody(bus, crc, ioBuf, data, cap);
  }

  /** The rest of se_spi_receive, from the byte after the synchronisation on. */
  method ReceiveBody(bus: Bus, crc: Crc, ioBuf: array<bv8>, data: array<bv8>, cap: nat)
    returns (outcome: Reception, length: nat)
    requires crc.Valid() && ioBuf.Length == IO_BUFFER_SIZE && ioBuf != data
    requires cap <= data.Length && bus.pos <= |bus.input|
    requires StoredAfter(bus.input, bus.pos, cap) <= IO_BUFFER_SIZE
    modifies bus`pos, crc, ioBuf, data
    ensures crc.Valid()
    ensures outcome == Decode(bus.input, old(bus.pos), cap, old(crc.phase))
    ensures length == LengthAfter(bus.input, old(bus.pos), cap)
    ensures crc.phase == PhaseAfter(bus.input, old(bus.pos), cap, old(crc.phase))
    ensures outcome.Received? ==> length == |outcome.payload| <= cap && data[..length] == outcome.payload
    ensures data[cap..] == old(data[cap..])
    ensures outcome.Waiting? ==> bus.pos == |bus.input|
    ensures !outcome.Waiting? ==> bus.pos == outcome.pos
  {
    hide Trailer, WireCrc, Length, Word;
    ghost var s, start := bus.input, bus.pos;
    length := cap;
    if bus.pos == |bus.input| {
      return Waiting, length;
    }
    var b := bus.ReceiveByte();
    if 0x00 != b {
      return Rejected(bus.pos), length;
    }
    if bus.pos == |bus.input| {
      return Waiting, length;
    }
    var hi := bus.ReceiveByte();
    if bus.pos == |bus.input| {
      return Waiting, length;
    }
    var lo := bus.ReceiveByte();
    var len := Length(hi, lo);
    assert s[start] == 0 && hi == s[start + 1] && lo == s[start + 2];
    if cap >= len {
      length := len;
    } else {
      return Rejected(bus.pos), length;
    }
    var complete := ReadPayload(bus, ioBuf, data, len);
    if !complete {
      return Waiting, length;
    }
    ghost var payload, ph := ioBuf[..len], crc.phase;
    assert PhaseAfter(s, start, cap, ph) == Idle && payload == s[start + 3..start + 3 + len];
    var expected := PayloadCrc(crc, ioBuf, len);
    if bus.pos == |bus.input| {
      return Waiting, length;
    }
    var c1 := bus.ReceiveByte();
    if bus.pos == |bus.input| {
      return Waiting, length;
    }
    var c2 := bus.ReceiveByte();
    TrailerUnique(ph, payload, expected, c1, c2);
    if Word(c1, c2) != expected {
      return Rejected(bus.pos), length;
    }
    return Received(data[..len], bus.pos), length;
  }

  /** The two CRC bytes of the wire as the receiver assembles them. */
  function Word(hi: bv8, lo: bv8): bv16 {
    ((hi as bv16) << 8) | (lo as bv16)
  }

  lemma WordBytes(hi: bv8, lo: bv8)
    ensures High(Word(hi, lo)) == hi && Low(Word(hi, lo)) == lo
  {
  }

  lemma WordOfBytes(w: bv16)
    ensures Word(High(w), Low(w)) == w
  {
  }

  /** Exactly one pair of CRC bytes goes with a payload. */
  lemma TrailerUnique(ph: Phase, payload: seq<bv8>, crc: bv16, c1: bv8, c2: bv8)
    requires WireCrc(ph, payload, crc)
    ensures Trailer(ph, payload, c1, c2) <==> Word(c1, c2) == crc
  {
    hide Word, High, Low, Bits8, CrcBits;
    var a, b := High(crc), Low(crc);
    WordBytes(c1, c2);
    WordOfBytes(crc);
    if Trailer(ph, payload, c1, c2) && !ph.Loaded? {
      var t := CrcBits(KERMIT, 1, payload);
      assert Bits8(c1) == t[..8] == Bits8(a) && Bits8(c2) == t[8..] == Bits8(b);
      Bits8Injective(c1, a);
      Bits8Injective(c2, b);
    }
  }

  // ----- what the receiver accepts

  /** i is the first position from `from` on that holds b. */
  ghost predicate First(s: seq<bv8>, from: nat, b: bv8, i: nat) {
    from <= i < |s| && s[i] == b && forall k :: from <= k < i ==> s[k] != b
  }

  lemma {:induction false} AfterIff(s: seq<bv8>, from: nat, b: bv8, i: nat)
    requires from <= |s|
    ensures After(s, from, b) == Some(i + 1) <==> First(s, from, b, i)
    decreases |s| - from
  {
    if from < |s| && s[from] != b {
      AfterIff(s, from + 1, b, i);
    }
  }

  /** Positions of the five synchronisation bytes, each the first of its kind after the one before. */
  ghost predicate Sync(s: seq<bv8>, from: nat, a: nat, b: nat, c: nat, d: nat, e: nat) {
    && First(s, from, 0x00, a) && First(s, a + 1, 0x00, b) && First(s, b + 1, 0x00, c)
    && First(s, c + 1, 0xAA, d) && First(s, d + 1, 0x55, e)
  }

  /** The synchronisation ends at position e. */
  ghost predicate SyncEnds(s: seq<bv8>, from: nat, e: nat) {
    exists a: nat, b: nat, c: nat, d: nat :: Sync(s, from, a, b, c, d, e)
  }

  lemma SyncIff(s: seq<bv8>, from: nat, e: nat)
    requires from <= |s|
    ensures AfterSync(s, from) == Some(e + 1) <==> SyncEnds(s, from, e)
  {
    hide After, First;
    forall a: nat, b: nat, c: nat, d: nat | Sync(s, from, a, b, c, d, e)
      ensures AfterSync(s, from) == Some(e + 1)
    {
      SyncFound(s, from, a, b, c, d, e);
    }
    if AfterSync(s, from) == Some(e + 1) {
      var a := After(s, from, 0x00).value - 1;
      var b := After(s, a + 1, 0x00).value - 1;
      var c := After(s, b + 1, 0x00).value - 1;
      var d := After(s, c + 1, 0xAA).value - 1;
      AfterIff(s, from, 0x00, a);
      AfterIff(s, a + 1, 0x00, b);
      AfterIff(s, b + 1, 0x00, c);
      AfterIff(s, c + 1, 0xAA, d);
      AfterIff(s, d + 1, 0x55, e);
      assert Sync(s, from, a, b, c, d, e);
    }
  }

  lemma SyncFound(s: seq<bv8>, from: nat, a: nat, b: nat, c: nat, d: nat, e: nat)
    requires from <= |s| && Sync(s, from, a, b, c, d, e)
    ensures AfterSync(s, from) == Some(e + 1)
  {
    hide After;
    AfterIff(s, from, 0x00, a);
    AfterIff(s, a + 1, 0x00, b);
    AfterIff(s, b + 1, 0x00, c);
    AfterIff(s, c + 1, 0xAA, d);
    AfterIff(s, d + 1, 0x55, e);
  }

  /** After the synchronisation at e: a zero byte, a length within the capacity, that many bytes, and their CRC. */
  ghost predicate Body(s: seq<bv8>, e: nat, cap: nat, ph: Phase, payload: seq<bv8>) {
    && |payload| <= cap
    && e + 6 + |payload| <= |s|
    && s[e + 1] == 0
    && 256 * (s[e + 2] as int) + s[e + 3] as int == |payload|
    && s[e + 4..e + 4 + |payload|] == payload
    && Trailer(ph, payload, s[e + 4 + |payload|], s[e + 5 + |payload|])
  }

  lemma BodyIs(s: seq<bv8>, e: nat, cap: nat, ph: Phase, payload: seq<bv8>)
    ensures Body(s, e, cap, ph, payload) <==>
            && |payload| <= cap && e + 6 + |payload| <= |s| && s[e + 1] == 0
            && Length(s[e + 2], s[e + 3]) == |payload|
            && s[e + 4..e + 4 + |payload|] == payload
            && Trailer(ph, payload, s[e + 4 + |payload|], s[e + 5 + |payload|])
  {
    hide Trailer;
  }

  lemma DecodeIff(s: seq<bv8>, e: nat, cap: nat, ph: Phase, payload: seq<bv8>, end: nat)
    requires e < |s|
    ensures Decode(s, e + 1, cap, ph) == Received(payload, end) <==>
            Body(s, e, cap, ph, payload) && end == e + 6 + |payload|
  {
    hide Trailer, Length, Body;
    BodyIs(s, e, cap, ph, payload);
  }

  /** A length above the capacity, or a wrong CRC. */
  predicate BadFrame(s: seq<bv8>, e: nat, len: nat, cap: nat, ph: Phase, end: nat)
    requires e + 4 <= |s|
  {
    if cap < len then end == e + 4
    else end == e + 6 + len <= |s| && !Trailer(ph, s[e + 4..e + 4 + len], s[e + 4 + len], s[e + 5 + len])
  }

  /** How the receiver fails after the synchronisation at e: on a wrong byte, on the length, or on the CRC. */
  predicate Fails(s: seq<bv8>, e: nat, cap: nat, ph: Phase, end: nat) {
    || (e + 1 < |s| && s[e + 1] != 0 && end == e + 2)
    || (e + 4 <= |s| && s[e + 1] == 0
        && BadFrame(s, e, 256 * (s[e + 2] as int) + s[e + 3] as int, cap, ph, end))
  }

  lemma FailsIs(s: seq<bv8>, e: nat, cap: nat, ph: Phase, end: nat)
    ensures Fails(s, e, cap, ph, end) <==>
            || (e + 1 < |s| && s[e + 1] != 0 && end == e + 2)
            || (e + 4 <= |s| && s[e + 1] == 0 && BadFrame(s, e, Length(s[e + 2], s[e + 3]), cap, ph, end))
  {
    hide BadFrame;
    if e + 4 <= |s| {
      LengthIs(s[e + 2], s[e + 3]);
    }
  }

  lemma RejectedIff(s: seq<bv8>, e: nat, cap: nat, ph: Phase, end: nat)
    requires e < |s|
    ensures Decode(s, e + 1, cap, ph) == Rejected(end) <==> Fails(s, e, cap, ph, end)
  {
    hide Trailer, Length, Fails;
    FailsIs(s, e, cap, ph, end);
  }

  /** The length the caller is left with is the one the two bytes behind the zero announce. */
  lemma AnnouncedIff(s: seq<bv8>, e: nat, cap: nat, len: nat)
    requires e < |s|
    ensures Announced(s, e + 1, cap) == Some(len) <==>
            e + 4 <= |s| && s[e + 1] == 0 && 256 * (s[e + 2] as int) + s[e + 3] as int == len <= cap
  {
    if e + 4 <= |s| {
      LengthIs(s[e + 2], s[e + 3]);
    }
  }

  /** The receiver returns 0 with a payload exactly when the input holds synchronisation and body of that payload. */
  lemma ReceivedIff(s: seq<bv8>, from: nat, cap: nat, ph: Phase, payload: seq<bv8>, end: nat)
    requires from <= |s|
    ensures Receive(s, from, cap, ph) == Received(payload, end) <==>
            exists e: nat :: SyncEnds(s, from, e) && Body(s, e, cap, ph, payload) && end == e + 6 + |payload|
  {
    hide AfterSync, Decode, SyncEnds, Body;
    forall e: nat
      ensures AfterSync(s, from) == Some(e + 1) <==> SyncEnds(s, from, e)
    {
      SyncIff(s, from, e);
    }
    if AfterSync(s, from).Some? {
      var e := AfterSync(s, from).value - 1;
      DecodeIff(s, e, cap, ph, payload, end);
    }
    forall e: nat | SyncEnds(s, from, e) && Body(s, e, cap, ph, payload) && end == e + 6 + |payload|
      ensures Decode(s, e + 1, cap, ph) == Received(payload, end)
    {
      SyncInside(s, from, e);
      DecodeIff(s, e, cap, ph, payload, end);
    }
  }

  /**
   More than the I/O buffer holds: a synchronised frame whose length exceeds it, is accepted,
   and arrives that far.
   */
  ghost predicate Overruns(s: seq<bv8>, e: nat, cap: nat) {
    && e + 4 + 1024 < |s| && s[e + 1] == 0
    && 1024 < 256 * (s[e + 2] as int) + s[e + 3] as int <= cap
  }

  /** When the receiver stores past its I/O buffer. */
  lemma OverrunIff(s: seq<bv8>, from: nat, cap: nat)
    requires from <= |s|
    ensures Stored(s, from, cap) > 1024 <==> exists e: nat :: SyncEnds(s, from, e) && Overruns(s, e, cap)
  {
    hide AfterSync, SyncEnds;
    forall e: nat
      ensures AfterSync(s, from) == Some(e + 1) <==> SyncEnds(s, from, e)
    {
      SyncIff(s, from, e);
    }
    if AfterSync(s, from).Some? {
      var e := AfterSync(s, from).value - 1;
      assert SyncEnds(s, from, e);
    }
  }

  lemma SyncInside(s: seq<bv8>, from: nat, e: nat)
    requires SyncEnds(s, from, e)
    ensures e < |s|
  {
  }

  // ----- resynchronisation and damage

  const SYNC: seq<bv8> := [0x00, 0x00, 0x00, 0xAA, 0x55, 0x00]

  /** Noise, the synchronisation bytes, the two bytes of a length, and a payload with its CRC bytes. */
  function OnTheWire(noise: seq<bv8>, hi: bv8, lo: bv8, frame: seq<bv8>): seq<bv8> {
    noise + [0x00, 0x00, 0x00, 0xAA, 0x55, 0x00, hi, lo] + frame
  }

  lemma {:induction false} AfterExists(s: seq<bv8>, from: nat, b: bv8, i: nat)
    requires from <= i < |s| && s[i] == b
    ensures After(s, from, b).Some? && After(s, from, b).value <= i + 1
    decreases |s| - from
  {
    if s[from] != b {
      AfterExists(s, from + 1, b, i);
    }
  }

  /** Noise without 0xAA can use up waits for zero bytes but never the wait for 0xAA. */
  lemma NoiseSkipped(s: seq<bv8>, n: nat)
    requires n + 6 <= |s| && s[n..n + 6] == SYNC
    requires forall k :: 0 <= k < n ==> s[k] != 0xAA
    ensures AfterSync(s, 0) == Some(n + 5)
  {
    var t := s[n..n + 6];
    assert t[0] == 0 && t[1] == 0 && t[2] == 0 && t[3] == 0xAA && t[4] == 0x55;
    hide After;
    AfterExists(s, 0, 0x00, n);
    var a := After(s, 0, 0x00).value;
    AfterExists(s, a, 0x00, n + 1);
    var b := After(s, a, 0x00).value;
    AfterExists(s, b, 0x00, n + 2);
    var c := After(s, b, 0x00).value;
    AfterIff(s, c, 0xAA, n + 3);
    AfterIff(s, n + 4, 0x55, n + 4);
  }

  lemma WireParts(noise: seq<bv8>, hi: bv8, lo: bv8, frame: seq<bv8>)
    ensures var s, n := OnTheWire(noise, hi, lo, frame), |noise|;
            && |s| == n + 8 + |frame| && (forall k :: 0 <= k < n ==> s[k] == noise[k])
            && s[n..n + 6] == SYNC && s[n + 5] == 0
            && s[n + 6..] == [hi, lo] + frame
  {
    var s, n := OnTheWire(noise, hi, lo, frame), |noise|;
    assert s[n..n + 6] == SYNC;
    assert s[n..n + 6][5] == 0;
  }

  /**
   After any noise without 0xAA the receiver's verdict on a frame depends on the frame
   alone: its payload if payload and CRC bytes match, an error otherwise.
   */
  lemma Resynchronises(noise: seq<bv8>, hi: bv8, lo: bv8, frame: seq<bv8>, cap: nat, ph: Phase)
    requires 256 * (hi as int) + lo as int == |frame| - 2 <= cap && !ph.Loaded?
    requires 0xAA !in noise
    ensures Receive(OnTheWire(noise, hi, lo, frame), 0, cap, ph) ==
            var end := |OnTheWire(noise, hi, lo, frame)|;
            if Accepted(frame) then Received(frame[..|frame| - 2], end) else Rejected(end)
  {
    var s, n := OnTheWire(noise, hi, lo, frame), |noise|;
    hide AfterSync, Decode, OnTheWire, Accepted, Length;
    LengthIs(hi, lo);
    WireParts(noise, hi, lo, frame);
    NoiseSkipped(s, n);
    DecodeFrame(s, n + 5, hi, lo, frame, cap, ph);
  }

  lemma DecodeFrame(s: seq<bv8>, n: nat, hi: bv8, lo: bv8, frame: seq<bv8>, cap: nat, ph: Phase)
    requires Length(hi, lo) == |frame| - 2 <= cap && !ph.Loaded?
    requires n + 3 + |frame| == |s| && s[n] == 0
    requires s[n + 1..] == [hi, lo] + frame
    ensures Decode(s, n, cap, ph) == if Accepted(frame) then Received(frame[..|frame| - 2], |s|) else Rejected(|s|)
  {
    var len := |frame| - 2;
    hide Matches, Trailer, Length;
    TailOf(s, n, hi, lo, frame);
    assert Trailer(ph, frame[..len], frame[len], frame[len + 1]) <==> Accepted(frame) by {
      TrailerIsAcceptance(ph, frame);
    }
  }

  lemma TailOf(s: seq<bv8>, n: nat, hi: bv8, lo: bv8, frame: seq<bv8>)
    requires |frame| >= 2 && n + 3 + |frame| == |s| && s[n + 1..] == [hi, lo] + frame
    ensures s[n + 1] == hi && s[n + 2] == lo
    ensures s[n + 3..n + 1 + |frame|] == frame[..|frame| - 2]
    ensures s[n + 1 + |frame|] == frame[|frame| - 2] && s[n + 2 + |frame|] == frame[|frame| - 1]
  {
    var t := s[n + 1..];
    assert s[n + 1] == t[0] && s[n + 2] == t[1];
    assert t[2..] == frame && s[n + 3..] == frame;
  }

  lemma TrailerIsAcceptance(ph: Phase, frame: seq<bv8>)
    requires |frame| >= 2 && !ph.Loaded?
    ensures Trailer(ph, frame[..|frame| - 2], frame[|frame| - 2], frame[|frame| - 1]) <==> Accepted(frame)
  {
    hide Matches;
  }

  /** A frame as Send emits it: the payload with its CRC bytes. */
  lemma SentFrameAccepted(ph: Phase, payload: seq<bv8>, c1: bv8, c2: bv8)
    requires Trailer(ph, payload, c1, c2) && !ph.Loaded?
    ensures Accepted(payload + [c1, c2])
  {
    hide Matches;
    var frame := payload + [c1, c2];
    assert frame[..|frame| - 2] == payload;
  }

  /** Whatever the noise, a sent payload that fits is received unchanged. */
  lemma SentIsReceived(noise: seq<bv8>, hi: bv8, lo: bv8, payload: seq<bv8>, c1: bv8, c2: bv8, cap: nat, ph: Phase)
    requires Trailer(ph, payload, c1, c2) && !ph.Loaded?
    requires 256 * (hi as int) + lo as int == |payload| <= cap && 0xAA !in noise
    ensures var s := OnTheWire(noise, hi, lo, payload + [c1, c2]); Receive(s, 0, cap, ph) == Received(payload, |s|)
  {
    hide Accepted, Trailer, Receive, OnTheWire;
    var frame := payload + [c1, c2];
    SentFrameAccepted(ph, payload, c1, c2);
    Resynchronises(noise, hi, lo, frame, cap, ph);
    assert frame[..|frame| - 2] == payload;
  }

  /**
   Damage to payload or CRC of a sent frame, length intact, ends in an error whenever it
   is confined to sixteen consecutive bits, hits an odd number of bits, or hits at most
   three bits of a frame of up to 32767 bits.
   */
  lemma DamageRejected(
    noise: seq<bv8>, hi: bv8, lo: bv8, frame: seq<bv8>, received: seq<bv8>, k: nat, cap: nat, ph: Phase)
    requires Accepted(frame) && |frame| == |received| && frame != received && !ph.Loaded?
    requires 256 * (hi as int) + lo as int == |frame| - 2 <= cap && 0xAA !in noise
    requires || Within(Difference(frame, received), k)
             || Parity(Difference(frame, received))
             || (8 * |frame| <= 32767 && Weight(Difference(frame, received)) <= 3)
    ensures Receive(OnTheWire(noise, hi, lo, received), 0, cap, ph) == Rejected(|OnTheWire(noise, hi, lo, received)|)
  {
    hide Accepted, Difference, Receive, OnTheWire;
    AcceptedIsLong(frame);
    if Within(Difference(frame, received), k) {
      BurstsDetected(frame, received, k);
    } else if Parity(Difference(frame, received)) {
      OddErrorsDetected(frame, received);
    } else if Accepted(received) {
      MinimumDistance(frame, received);
    }
    Resynchronises(noise, hi, lo, received, cap, ph);
  }

  /**
   While custom parameters are pending the receiver compares with 0 instead of a CRC: it
   accepts the frames whose CRC bytes are 00 00, and so a sent frame exactly when its CRC is 0.
   */
  lemma PendingCustomBreaksTheCheck(
    noise: seq<bv8>, hi: bv8, lo: bv8, payload: seq<bv8>, c1: bv8, c2: bv8, cap: nat, ph: Phase)
    requires ph.Loaded? && 256 * (hi as int) + lo as int == |payload| <= cap && 0xAA !in noise
    ensures var s := OnTheWire(noise, hi, lo, payload + [c1, c2]);
            Receive(s, 0, cap, ph) == if c1 == 0 && c2 == 0 then Received(payload, |s|) else Rejected(|s|)
  {
    var frame := payload + [c1, c2];
    var s, n := OnTheWire(noise, hi, lo, frame), |noise|;
    hide AfterSync, Decode, OnTheWire, Length;
    LengthIs(hi, lo);
    WireParts(noise, hi, lo, frame);
    NoiseSkipped(s, n);
    DecodeLoaded(s, n + 5, hi, lo, frame, cap, ph);
    assert frame[..|payload|] == payload;
  }

  lemma DecodeLoaded(s: seq<bv8>, n: nat, hi: bv8, lo: bv8, frame: seq<bv8>, cap: nat, ph: Phase)
    requires Length(hi, lo) == |frame| - 2 <= cap && ph.Loaded?
    requires n + 3 + |frame| == |s| && s[n] == 0
    requires s[n + 1..] == [hi, lo] + frame
    ensures Decode(s, n, cap, ph) ==
            if frame[|frame| - 2] == 0 && frame[|frame| - 1] == 0 then Received(frame[..|frame| - 2], |s|)
            else Rejected(|s|)
  {
    hide Matches, Length;
    TailOf(s, n, hi, lo, frame);
  }

  // ----- a sender's own frame

  /** The sender's preamble uses up every wait but the last, for which length, payload or CRC must have a 0x55. */
  lemma OwnSync(hi: bv8, lo: bv8, payload: seq<bv8>, c1: bv8, c2: bv8)
    ensures AfterSync(OwnFrame(hi, lo, payload, c1, c2), 0) == After(OwnFrame(hi, lo, payload, c1, c2), 6, 0x55)
  {
    var s := OwnFrame(hi, lo, payload, c1, c2);
    hide OwnFrame;
    assert s[0] == 0 && s[1] == 0 && s[2] == 0 && s[3] == 0x55 && s[4] == 0xAA && s[5] == 0 by {
      OwnPreamble(hi, lo, payload, c1, c2);
    }
    assert After(s, 0, 0x00) == Some(1) && After(s, 1, 0x00) == Some(2) && After(s, 2, 0x00) == Some(3);
    assert After(s, 3, 0xAA) == After(s, 4, 0xAA) == Some(5);
    assert After(s, 5, 0x55) == After(s, 6, 0x55);
  }

  lemma OwnPreamble(hi: bv8, lo: bv8, payload: seq<bv8>, c1: bv8, c2: bv8)
    ensures var s := OwnFrame(hi, lo, payload, c1, c2);
            && |s| == |payload| + 10
            && s[0] == 0 && s[1] == 0 && s[2] == 0 && s[3] == 0x55 && s[4] == 0xAA && s[5] == 0
  {
  }

  /**
   What se_spi_receive makes of a frame of se_spi_send: it waits on when no 0x55 follows the
   preamble, and receives a payload exactly when the first one is followed by a body of it.
   */
  lemma OwnFrameReceived(
    hi: bv8, lo: bv8, payload: seq<bv8>, c1: bv8, c2: bv8, cap: nat, ph: Phase, other: seq<bv8>, end: nat)
    ensures var s := OwnFrame(hi, lo, payload, c1, c2);
            && |s| >= 6
            && (0x55 !in s[6..] ==> Receive(s, 0, cap, ph) == Waiting)
            && (Receive(s, 0, cap, ph) == Received(other, end) <==>
                exists e: nat :: First(s, 6, 0x55, e) && Body(s, e, cap, ph, other) && end == e + 6 + |other|)
  {
    var s := OwnFrame(hi, lo, payload, c1, c2);
    OwnPreamble(hi, lo, payload, c1, c2);
    hide OwnFrame, AfterSync, After, Decode, Body;
    OwnSync(hi, lo, payload, c1, c2);
    forall e: nat
      ensures After(s, 6, 0x55) == Some(e + 1) <==> First(s, 6, 0x55, e)
    {
      AfterIff(s, 6, 0x55, e);
    }
    if After(s, 6, 0x55).Some? {
      var e := After(s, 6, 0x55).value - 1;
      assert First(s, 6, 0x55, e);
      assert s[6..][e - 6] == 0x55;
      DecodeIff(s, e, cap, ph, other, end);
    }
  }

  /** A frame inside the payload: sending 55 00 00 00 00 00 is received as the empty payload. */
  lemma EmbeddedFrame(c1: bv8, c2: bv8, cap: nat, ph: Phase)
    ensures Receive(OwnFrame(0, 6, [0x55, 0, 0, 0, 0, 0], c1, c2), 0, cap, ph) == Received([], 14)
  {
    var s := OwnFrame(0, 6, [0x55, 0, 0, 0, 0, 0], c1, c2);
    EmbeddedBytes(c1, c2);
    EmptyTrailer(ph);
    hide OwnFrame, Trailer, AfterSync;
    OwnSync(0, 6, [0x55, 0, 0, 0, 0, 0], c1, c2);
    assert After(s, 6, 0x55) == After(s, 7, 0x55) == After(s, 8, 0x55) == Some(9);
    assert s[12..12] == [];
  }

  lemma EmbeddedBytes(c1: bv8, c2: bv8)
    ensures OwnFrame(0, 6, [0x55, 0, 0, 0, 0, 0], c1, c2)
            == [0x00, 0x00, 0x00, 0x55, 0xAA, 0x00, 0x00, 0x06, 0x55, 0, 0, 0, 0, 0, c1, c2]
  {
  }

  lemma EmptyTrailer(ph: Phase)
    ensures Trailer(ph, [], 0, 0)
  {
  }

  // ----- a frame in numbers

  /** The nine characters 123456789 go with the CRC bytes 89 21. */
  lemma CheckTrailer(ph: Phase, c1: bv8, c2: bv8)
    requires !ph.Loaded?
    ensures Trailer(ph, CHECK, c1, c2) <==> c1 == 0x89 && c2 == 0x21
  {
    KermitMode();
    NamedSession(0, 1, CHECK);
    NamedModes(1);
    assert Returns(Open(KERMIT, 1, CHECK, true), 0x8921) by {
      KermitCheck(0x8921);
    }
    assert High(0x8921) == 0x89 && Low(0x8921) == 0x21;
    Bits16Bytes(0x8921);
    hide Run, CrcBits, Bits8, Bits16, High, Low;
    TrailerUnique(Idle, CHECK, 0x8921, c1, c2);
    WordIs(c1, c2);
  }

  lemma WordIs(hi: bv8, lo: bv8)
    ensures Word(hi, lo) == 0x8921 <==> hi == 0x89 && lo == 0x21
  {
  }

  /** And as a frame they are received. */
  lemma CheckFrame(cap: nat, ph: Phase)
    requires cap >= 9 && !ph.Loaded?
    ensures Receive([0x00, 0x00, 0x00, 0xAA, 0x55, 0x00, 0x00, 0x09,
                     0x31, 0x32, 0x33, 0x34, 0x35, 0x36, 0x37, 0x38, 0x39, 0x89, 0x21], 0, cap, ph)
            == Received([0x31, 0x32, 0x33, 0x34, 0x35, 0x36, 0x37, 0x38, 0x39], 19)
  {
    CheckTrailer(ph, 0x89, 0x21);
    CheckWire();
    hide Receive, Trailer, OnTheWire;
    SentIsReceived([], 0, 9, CHECK, 0x89, 0x21, cap, ph);
  }

  lemma CheckWire()
    ensures OnTheWire([], 0, 9, CHECK + [0x89, 0x21])
            == [0x00, 0x00, 0x00, 0xAA, 0x55, 0x00, 0x00, 0x09,
                0x31, 0x32, 0x33, 0x34, 0x35, 0x36, 0x37, 0x38, 0x39, 0x89, 0x21]
  {
  }
}
