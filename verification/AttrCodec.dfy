/**
 Attribute lists between host and trusted application: pack_attrs lays them out in one
 buffer in two passes, unpack_attrs parses and bounds-checks such a buffer. Memory is
 bytes; a reference attribute points at its bytes or is null.
 */
module AttrCodec {
  import opened LittleEndian
  import opened Options

  const U32: int := 0x1_0000_0000

  /** TEE_ATTR_BIT_VALUE: bit 29 of an attribute id tells values from references. */
  predicate IsValue(id: u32) { (id / 0x2000_0000) % 2 == 1 }

  /** A TEE_Attribute: two numbers, or a length and the bytes referred to. */
  datatype Attr =
    | Value(id: u32, a: u32, b: u32)
    | Ref(id: u32, buffer: Option<seq<byte>>, length: u32)

  /** The union is read according to the id, and a buffer holds as many bytes as its length says. */
  predicate WellFormed(attr: Attr) {
    match attr
    case Value(id, _, _) => IsValue(id)
    case Ref(id, buffer, length) => !IsValue(id) && (buffer.Some? ==> |buffer.value| == length)
  }

  // ----- layout

  /** ROUNDUP(v, 4) in 32-bit unsigned arithmetic. */
  function RoundUp(v: u32): u32 {
    ((v + 3) % U32) / 4 * 4
  }

  /** Rounding up does what it says as long as the addition does not wrap around. */
  lemma RoundUpExact(v: u32)
    ensures v + 3 < U32 <==> v <= RoundUp(v)
    ensures v + 3 < U32 ==> RoundUp(v) < v + 4 && RoundUp(v) % 4 == 0
  {
  }

  predicate HasBytes(attr: Attr) { attr.Ref? && attr.buffer.Some? }

  /** The room an attribute's bytes take after the record table. */
  function Room(attr: Attr): u32 {
    if HasBytes(attr) then RoundUp(attr.length) else 0
  }

  function TableEnd(attrs: seq<Attr>): nat { 4 + 12 * |attrs| }

  /** Where the bytes of attribute k go, or would go. */
  function Offset(attrs: seq<Attr>, k: nat): (o: nat)
    requires k <= |attrs|
    ensures o >= TableEnd(attrs)
    decreases k
  {
    if k == 0 then TableEnd(attrs) else Offset(attrs, k - 1) + Room(attrs[k - 1])
  }

  /** What a caller can pass at all. */
  predicate Listed(attrs: seq<Attr>) {
    |attrs| < U32 && forall k :: 0 <= k < |attrs| ==> WellFormed(attrs[k])
  }

  /** A length so large that rounding it up wraps around. */
  predicate Wraps(attr: Attr) { HasBytes(attr) && attr.length + 3 >= U32 }

  /** A list without such lengths. */
  predicate Packable(attrs: seq<Attr>) {
    Listed(attrs) && forall k :: 0 <= k < |attrs| ==> !Wraps(attrs[k])
  }

  /** Every copy of the second pass ends inside the buffer the first pass sized, so that C defines the run. */
  predicate StaysInside(attrs: seq<Attr>) {
    forall k :: 0 <= k < |attrs| && HasBytes(attrs[k]) ==> Offset(attrs, k) + attrs[k].length <= Offset(attrs, |attrs|)
  }

  /** The bytes of two references meet. */
  predicate Meet(attrs: seq<Attr>, j: nat, k: nat)
    requires j < |attrs| && k < |attrs| && HasBytes(attrs[j]) && HasBytes(attrs[k])
  {
    && Offset(attrs, j) < Offset(attrs, k) + attrs[k].length
    && Offset(attrs, k) < Offset(attrs, j) + attrs[j].length
    && attrs[j].length > 0 && attrs[k].length > 0
  }

  /** The bytes of different references never meet. */
  predicate Apart(attrs: seq<Attr>) {
    forall j, k :: 0 <= j < k < |attrs| && HasBytes(attrs[j]) && HasBytes(attrs[k]) ==> !Meet(attrs, j, k)
  }

  /** Every reference starts where a 32-bit offset can say so. */
  predicate OffsetsFit(attrs: seq<Attr>) {
    forall k :: 0 <= k < |attrs| && HasBytes(attrs[k]) ==> Offset(attrs, k) < U32
  }

  function Record(attrs: seq<Attr>, k: nat): (s: seq<byte>)
    requires k < |attrs|
    ensures |s| == 12
  {
    match attrs[k]
    case Value(id, a, b) => Le32(id) + Le32(a) + Le32(b)
    case Ref(id, buffer, length) =>
      Le32(id) + Le32(if buffer.Some? then Offset(attrs, k) % U32 else 0) + Le32(length)
  }

  function Records(attrs: seq<Attr>, n: nat): (s: seq<byte>)
    requires n <= |attrs|
    ensures |s| == 12 * n
    decreases n
  {
    if n == 0 then [] else Records(attrs, n - 1) + Record(attrs, n - 1)
  }

  function Padding(n: nat): (s: seq<byte>)
    ensures |s| == n
  {
    seq(n, i => 0)
  }

  /** The bytes of one attribute, filled up with zeros. */
  function Region(attr: Attr): (s: seq<byte>)
    requires WellFormed(attr) && !Wraps(attr)
    ensures |s| == Room(attr)
  {
    if HasBytes(attr) then
      RoundUpExact(attr.length);
      attr.buffer.value + Padding(RoundUp(attr.length) - attr.length)
    else []
  }

  function Regions(attrs: seq<Attr>, n: nat): (s: seq<byte>)
    requires Packable(attrs) && n <= |attrs|
    ensures |s| == Offset(attrs, n) - TableEnd(attrs)
    decreases n
  {
    if n == 0 then [] else Regions(attrs, n - 1) + Region(attrs[n - 1])
  }

  /** The packed form of an attribute list. */
  function Packed(attrs: seq<Attr>): (s: seq<byte>)
    requires Packable(attrs)
    ensures attrs != [] ==> |s| == Offset(attrs, |attrs|)
  {
    if attrs == [] then []
    else Le32(|attrs|) + Records(attrs, |attrs|) + Regions(attrs, |attrs|)
  }

  lemma {:induction false} OffsetMonotonic(attrs: seq<Attr>, j: nat, k: nat)
    requires j <= k <= |attrs|
    ensures Offset(attrs, j) <= Offset(attrs, k)
    decreases k
  {
    if j < k {
      OffsetMonotonic(attrs, j, k - 1);
    }
  }

  lemma RoomAligned(attr: Attr)
    ensures Room(attr) % 4 == 0
  {
  }

  lemma AlignedSum(a: nat, b: nat)
    requires a % 4 == 0 && b % 4 == 0
    ensures (a + b) % 4 == 0
  {
  }

  lemma {:induction false} OffsetAligned(attrs: seq<Attr>, k: nat)
    requires k <= |attrs|
    ensures Offset(attrs, k) % 4 == 0
    decreases k
  {
    hide Room;
    if k > 0 {
      OffsetAligned(attrs, k - 1);
      RoomAligned(attrs[k - 1]);
      AlignedSum(Offset(attrs, k - 1), Room(attrs[k - 1]));
    } else {
      AlignedSum(4, 12 * |attrs|);
    }
  }

  /** In the second pass every referenced region is aligned, lies past the record table and inside the buffer. */
  lemma LayoutSound(attrs: seq<Attr>, k: nat)
    requires Packable(attrs) && k < |attrs| && HasBytes(attrs[k])
    ensures Offset(attrs, k) % 4 == 0
    ensures TableEnd(attrs) <= Offset(attrs, k)
    ensures Offset(attrs, k) + attrs[k].length <= Offset(attrs, |attrs|)
  {
    hide RoundUp;
    OffsetAligned(attrs, k);
    RoundUpExact(attrs[k].length);
    OffsetMonotonic(attrs, k + 1, |attrs|);
  }

  /** A region ends before the next one starts. */
  lemma RegionsDisjoint(attrs: seq<Attr>, j: nat, k: nat)
    requires Packable(attrs) && j < k < |attrs| && HasBytes(attrs[j]) && HasBytes(attrs[k])
    ensures Offset(attrs, j) + attrs[j].length <= Offset(attrs, k)
  {
    hide RoundUp;
    RoundUpExact(attrs[j].length);
    OffsetMonotonic(attrs, j + 1, k);
  }

  /** Attributes that take no room leave the offset where it is. */
  lemma {:induction false} NoRoom(attrs: seq<Attr>, j: nat, k: nat)
    requires j <= k <= |attrs| && forall i :: j <= i < k ==> Room(attrs[i]) == 0
    ensures Offset(attrs, j) == Offset(attrs, k)
    decreases k
  {
    if j < k {
      NoRoom(attrs, j, k - 1);
    }
  }

  /** A reference with bytes to copy. */
  predicate Filling(attr: Attr) { HasBytes(attr) && attr.length > 0 }

  /** The first reference with bytes to copy from n on, or the end of the list. */
  lemma {:induction false} NextFilling(attrs: seq<Attr>, n: nat) returns (k: nat)
    requires n <= |attrs|
    ensures n <= k <= |attrs| && (k < |attrs| ==> Filling(attrs[k]))
    ensures forall i :: n <= i < k ==> !Filling(attrs[i])
    decreases |attrs| - n
  {
    k := n;
    if n < |attrs| && !Filling(attrs[n]) {
      k := NextFilling(attrs, n + 1);
    }
  }

  /**
   A reference whose length wraps gets no room: it is overwritten by the next one with bytes
   to copy, or, when there is none, it leaves the buffer.
   */
  lemma WrappedMeets(attrs: seq<Attr>, j: nat) returns (k: nat)
    requires Listed(attrs) && j < |attrs| && Wraps(attrs[j])
    ensures HasBytes(attrs[j]) && j < k <= |attrs| && Offset(attrs, k) == Offset(attrs, j)
    ensures k < |attrs| ==> Filling(attrs[k]) && Meet(attrs, j, k)
    ensures k == |attrs| ==> !StaysInside(attrs)
  {
    k := NextFilling(attrs, j + 1);
    assert Room(attrs[j]) == 0;
    forall i | j <= i < k
      ensures Room(attrs[i]) == 0
    {
      if i > j && HasBytes(attrs[i]) {
        assert !Filling(attrs[i]);
        assert RoundUp(0) == 0;
      }
    }
    NoRoom(attrs, j, k);
  }

  /** The layout works, every copy inside the buffer and no two meeting, exactly when no length wraps. */
  lemma LayoutIff(attrs: seq<Attr>)
    requires Listed(attrs)
    ensures Packable(attrs) <==> StaysInside(attrs) && Apart(attrs)
  {
    hide Offset, RoundUp, Wraps;
    if Packable(attrs) {
      PackableStays(attrs);
      forall j, k | 0 <= j < k < |attrs| && HasBytes(attrs[j]) && HasBytes(attrs[k])
        ensures !Meet(attrs, j, k)
      {
        RegionsDisjoint(attrs, j, k);
      }
    } else {
      var j: nat :| j < |attrs| && Wraps(attrs[j]);
      var k := WrappedMeets(attrs, j);
    }
  }

  lemma PackableStays(attrs: seq<Attr>)
    requires Packable(attrs)
    ensures StaysInside(attrs)
  {
    forall k | 0 <= k < |attrs| && HasBytes(attrs[k])
      ensures Offset(attrs, k) + attrs[k].length <= Offset(attrs, |attrs|)
    {
      LayoutSound(attrs, k);
    }
  }

  /** Lengths 2^32 - 3, 2^32 - 4 and 4. */
  function Overlapping(): seq<Attr> {
    [Ref(0, Some(Padding(0xFFFF_FFFD)), 0xFFFF_FFFD),
     Ref(0, Some(Padding(0xFFFF_FFFC)), 0xFFFF_FFFC),
     Ref(0, Some(Padding(4)), 4)]
  }

  /** A run C defines, in which the second reference overwrites the first. */
  lemma OverlappingMeets()
    ensures var attrs := Overlapping();
            && Listed(attrs) && StaysInside(attrs) && Wraps(attrs[0])
            && Offset(attrs, 0) == Offset(attrs, 1) && Meet(attrs, 0, 1)
  {
    hide Padding;
    var attrs := Overlapping();
    assert RoundUp(0xFFFF_FFFD) == 0 && RoundUp(0xFFFF_FFFC) == 0xFFFF_FFFC && RoundUp(4) == 4;
    assert Offset(attrs, 0) == 40 && Offset(attrs, 1) == 40;
    assert Offset(attrs, 2) == 40 + 0xFFFF_FFFC && Offset(attrs, 3) == 44 + 0xFFFF_FFFC;
  }

  // ----- pack_attrs

  datatype Status = Success | OutOfMemory | BadParameters

  /** s with t written over it from position `at` on. */
  function Splice(s: seq<byte>, at: nat, t: seq<byte>): (r: seq<byte>)
    requires at + |t| <= |s|
    ensures |r| == |s|
  {
    s[..at] + t + s[at + |t|..]
  }

  lemma SpliceTwice(s: seq<byte>, at: nat, t: seq<byte>, u: seq<byte>)
    requires at + |t| + |u| <= |s|
    ensures Splice(Splice(s, at, t), at + |t|, u) == Splice(s, at, t + u)
  {
  }

  /** Stores a number at a position of the buffer. */
  method Store32(buf: array<byte>, at: nat, x: u32)
    requires at + 4 <= buf.Length
    modifies buf
    ensures buf[..] == Splice(old(buf[..]), at, Le32(x))
  {
    var y := x / 256;
    var z := y / 256;
    buf[at], buf[at + 1], buf[at + 2], buf[at + 3] := x % 256, y % 256, z % 256, z / 256;
  }

  method CopyBytes(buf: array<byte>, at: nat, bytes: seq<byte>)
    requires at + |bytes| <= buf.Length
    modifies buf
    ensures buf[..] == Splice(old(buf[..]), at, bytes)
  {
    var i := 0;
    while i < |bytes|
      invariant 0 <= i <= |bytes|
      invariant buf[..] == Splice(old(buf[..]), at, bytes[..i])
    {
      buf[at + i] := bytes[i];
      i := i + 1;
    }
    assert bytes[..i] == bytes;
  }

  method StoreRecord(buf: array<byte>, at: nat, id: u32, a: u32, b: u32)
    requires at + 12 <= buf.Length
    modifies buf
    ensures buf[..] == Splice(old(buf[..]), at, Le32(id) + Le32(a) + Le32(b))
  {
    hide Splice, Le32;
    ghost var s := buf[..];
    Store32(buf, at, id);
    Store32(buf, at + 4, a);
    SpliceTwice(s, at, Le32(id), Le32(a));
    Store32(buf, at + 8, b);
    SpliceTwice(s, at, Le32(id) + Le32(a), Le32(b));
  }

  /** One attribute of the second pass: its record, and its bytes when it has some. */
  function Stored(s: seq<byte>, attrs: seq<Attr>, k: nat): (r: seq<byte>)
    requires Listed(attrs) && StaysInside(attrs) && k < |attrs| && |s| == Offset(attrs, |attrs|)
    ensures |r| == |s|
  {
    OffsetMonotonic(attrs, 0, |attrs|);
    var t := Splice(s, 4 + 12 * k, Record(attrs, k));
    if HasBytes(attrs[k]) then Splice(t, Offset(attrs, k), attrs[k].buffer.value) else t
  }

  /** The buffer after the count and n attributes have been stored into zeros. */
  function Filled(attrs: seq<Attr>, n: nat): (s: seq<byte>)
    requires Listed(attrs) && StaysInside(attrs) && n <= |attrs|
    ensures |s| == Offset(attrs, |attrs|)
    decreases n
  {
    if n == 0 then Splice(Padding(Offset(attrs, |attrs|)), 0, Le32(|attrs|))
    else Stored(Filled(attrs, n - 1), attrs, n - 1)
  }

  /** What pack_attrs writes. */
  function Written(attrs: seq<Attr>): seq<byte>
    requires Listed(attrs) && StaysInside(attrs)
  {
    if attrs == [] then [] else Filled(attrs, |attrs|)
  }

  /** The first pass: the size of the buffer. */
  method PackedSize(attrs: seq<Attr>) returns (bl: nat)
    requires Listed(attrs)
    ensures bl == Offset(attrs, |attrs|)
  {
    bl := 4 + 12 * |attrs|;
    var n := 0;
    while n < |attrs|
      invariant 0 <= n <= |attrs|
      invariant bl == Offset(attrs, n)
    {
      if attrs[n].Ref? && attrs[n].buffer.Some? {
        bl := bl + RoundUp(attrs[n].length);
      }
      n := n + 1;
    }
  }

  /** The records still missing after n attributes. */
  function Gap(attrs: seq<Attr>, n: nat): nat
    requires n <= |attrs|
  {
    12 * (|attrs| - n)
  }

  /** What the second pass has written after n attributes: the rest is still zero. */
  function Partial(attrs: seq<Attr>, n: nat): (s: seq<byte>)
    requires Packable(attrs) && n <= |attrs|
  {
    OffsetMonotonic(attrs, n, |attrs|);
    Le32(|attrs|) + Records(attrs, n) + Padding(Gap(attrs, n)) + Regions(attrs, n)
    + Padding(Offset(attrs, |attrs|) - Offset(attrs, n))
  }

  lemma SpliceMiddle(a: seq<byte>, b: seq<byte>, c: seq<byte>, t: seq<byte>)
    requires |b| == |t|
    ensures Splice(a + b + c, |a|, t) == a + t + c
  {
  }

  lemma PaddingSum(m: nat, n: nat)
    ensures Padding(m + n) == Padding(m) + Padding(n)
  {
  }

  /** The partial buffer up to the next region, record n already stored. */
  function RecordStored(attrs: seq<Attr>, n: nat): (s: seq<byte>)
    requires Packable(attrs) && n < |attrs|
    ensures |s| == Offset(attrs, n)
  {
    Le32(|attrs|) + Records(attrs, n + 1) + Padding(Gap(attrs, n + 1)) + Regions(attrs, n)
  }

  lemma PartialLength(attrs: seq<Attr>, n: nat)
    requires Packable(attrs) && n <= |attrs|
    ensures |Partial(attrs, n)| == Offset(attrs, |attrs|) >= Offset(attrs, n)
  {
    OffsetMonotonic(attrs, n, |attrs|);
  }

  /** Storing record n into the partial buffer. */
  lemma RecordStep(attrs: seq<Attr>, n: nat)
    requires Packable(attrs) && n < |attrs|
    ensures 4 + 12 * n + 12 <= |Partial(attrs, n)| && Offset(attrs, n) <= Offset(attrs, |attrs|)
    ensures Splice(Partial(attrs, n), 4 + 12 * n, Record(attrs, n)) ==
            RecordStored(attrs, n) + Padding(Offset(attrs, |attrs|) - Offset(attrs, n))
  {
    hide Record, Le32, Padding, Splice, Regions, Offset;
    OffsetMonotonic(attrs, n, |attrs|);
    var gap, zeros := Gap(attrs, n + 1), Offset(attrs, |attrs|) - Offset(attrs, n);
    assert Gap(attrs, n) == 12 + gap;
    PaddingSum(12, gap);
    Regroup(Le32(|attrs|), Records(attrs, n), Padding(12), Record(attrs, n), Padding(gap), Regions(attrs, n),
      Padding(zeros));
  }

  /** With its region appended, the buffer is the partial buffer of the next attribute. */
  lemma NextPartial(attrs: seq<Attr>, n: nat)
    requires Packable(attrs) && n < |attrs|
    ensures Offset(attrs, n + 1) <= Offset(attrs, |attrs|)
    ensures RecordStored(attrs, n) + Region(attrs[n]) + Padding(Offset(attrs, |attrs|) - Offset(attrs, n + 1))
            == Partial(attrs, n + 1)
  {
    hide Le32, Padding, Region, Records, Room, Gap;
    OffsetMonotonic(attrs, n + 1, |attrs|);
    Append(Le32(|attrs|) + Records(attrs, n + 1) + Padding(Gap(attrs, n + 1)), Regions(attrs, n), Region(attrs[n]));
  }

  lemma Regroup(a: seq<byte>, b: seq<byte>, gap: seq<byte>, r: seq<byte>, p: seq<byte>, q: seq<byte>, z: seq<byte>)
    requires |gap| == |r|
    ensures Splice(a + b + (gap + p) + q + z, |a| + |b|, r) == a + (b + r) + p + q + z
  {
    var tail := p + q + z;
    assert a + b + (gap + p) + q + z == (a + b) + gap + tail;
    SpliceMiddle(a + b, gap, tail, r);
    assert (a + b) + r + tail == a + (b + r) + p + q + z;
  }

  /** Copying the bytes of attribute n behind the regions written so far. */
  lemma RegionStep(front: seq<byte>, attr: Attr, total: nat)
    requires WellFormed(attr) && HasBytes(attr) && !Wraps(attr) && Room(attr) <= total
    ensures attr.length <= total
    ensures Splice(front + Padding(total), |front|, attr.buffer.value)
            == front + Region(attr) + Padding(total - Room(attr))
  {
    RoundUpExact(attr.length);
    var bytes, pad := attr.buffer.value, Room(attr) - attr.length;
    PaddingSum(attr.length, total - attr.length);
    PaddingSum(pad, total - Room(attr));
    assert front + Padding(total) == front + Padding(attr.length) + Padding(total - attr.length);
    SpliceMiddle(front, Padding(attr.length), Padding(total - attr.length), bytes);
    assert front + bytes + (Padding(pad) + Padding(total - Room(attr)))
           == front + (bytes + Padding(pad)) + Padding(total - Room(attr));
  }

  lemma Append(a: seq<byte>, b: seq<byte>, c: seq<byte>)
    ensures a + b + c == a + (b + c)
  {
  }

  lemma PackStep(attrs: seq<Attr>, n: nat)
    requires Packable(attrs) && n < |attrs|
    ensures 4 + 12 * n + 12 <= |Partial(attrs, n)|
    ensures !HasBytes(attrs[n]) ==> Splice(Partial(attrs, n), 4 + 12 * n, Record(attrs, n)) == Partial(attrs, n + 1)
    ensures HasBytes(attrs[n]) ==>
              && Offset(attrs, n) + |attrs[n].buffer.value| <= |Partial(attrs, n)|
              && Splice(Splice(Partial(attrs, n), 4 + 12 * n, Record(attrs, n)), Offset(attrs, n),
                attrs[n].buffer.value)
                 == Partial(attrs, n + 1)
  {
    hide Splice, Record, Le32, Padding, Partial, RecordStored, Records, Region;
    var front, total := RecordStored(attrs, n), Offset(attrs, |attrs|) - Offset(attrs, n);
    PartialLength(attrs, n);
    RecordStep(attrs, n);
    NextPartial(attrs, n);
    if HasBytes(attrs[n]) {
      RegionStep(front, attrs[n], total);
    } else {
      NoRegion(attrs[n], front);
    }
  }

  lemma NoRegion(attr: Attr, front: seq<byte>)
    requires WellFormed(attr) && !HasBytes(attr)
    ensures front + Region(attr) == front && Room(attr) == 0
  {
  }

  lemma CopyInside(attrs: seq<Attr>, k: nat)
    requires Listed(attrs) && StaysInside(attrs) && k < |attrs| && HasBytes(attrs[k])
    ensures |attrs[k].buffer.value| == attrs[k].length && Offset(attrs, k) + attrs[k].length <= Offset(attrs, |attrs|)
  {
  }

  lemma TableInside(attrs: seq<Attr>, n: nat)
    requires n < |attrs|
    ensures 4 + 12 * n + 12 <= TableEnd(attrs) <= Offset(attrs, |attrs|)
  {
  }

  /** One attribute of the second pass. */
  method PackOne(buf: array<byte>, attrs: seq<Attr>, n: nat, b: nat) returns (next: nat)
    requires Listed(attrs) && StaysInside(attrs) && n < |attrs| && b == Offset(attrs, n)
    requires buf.Length == Offset(attrs, |attrs|)
    modifies buf
    ensures next == Offset(attrs, n + 1) && buf[..] == Stored(old(buf[..]), attrs, n)
  {
    hide Splice, Le32, RoundUp, StaysInside;
    TableInside(attrs, n);
    var at := 4 + 12 * n;
    match attrs[n] {
      case Value(id, va, vb) =>
        StoreRecord(buf, at, id, va, vb);
        next := b;
      case Ref(id, buffer, length) =>
        if buffer.None? {
          StoreRecord(buf, at, id, 0, length);
          next := b;
        } else {
          StoreRecord(buf, at, id, b % U32, length);
          CopyInside(attrs, n);
          CopyBytes(buf, b, buffer.value);
          next := b + RoundUp(length);
        }
    }
  }

  /**
   pack_attrs, on every list on which no copy leaves the buffer: nothing for an empty list;
   otherwise a buffer of the computed size, filled with count, records and referenced bytes.
   `memory` says whether calloc succeeds.
   */
  method PackAttrs(attrs: seq<Attr>, memory: bool) returns (res: Status, buf: array?<byte>, blen: nat)
    requires Listed(attrs) && StaysInside(attrs)
    ensures res == if attrs == [] || memory then Success else OutOfMemory
    ensures buf == null <==> attrs == [] || !memory
    ensures buf == null ==> blen == 0
    ensures buf != null ==> fresh(buf) && buf[..] == Written(attrs) && blen == buf.Length
    ensures buf != null && Packable(attrs) ==> buf[..] == Packed(attrs)
  {
    hide Splice, Packed, Padding, Le32, Stored, StaysInside, Packable;
    buf, blen := null, 0;
    if |attrs| == 0 {
      return Success, null, 0;
    }
    var bl := PackedSize(attrs);
    if !memory {
      return OutOfMemory, null, 0;
    }
    var b := new byte[bl](i => 0);
    OffsetMonotonic(attrs, 0, |attrs|);
    ZeroFilled(b[..]);
    Store32(b, 0, |attrs|);
    var n, at := 0, 4 + 12 * |attrs|;
    while n < |attrs|
      invariant 0 <= n <= |attrs|
      invariant at == Offset(attrs, n) && b[..] == Filled(attrs, n)
    {
      at := PackOne(b, attrs, n, at);
      n := n + 1;
    }
    if Packable(attrs) {
      WrittenIsPacked(attrs);
    }
    return Success, b, bl;
  }

  lemma {:induction false} FilledIsPartial(attrs: seq<Attr>, n: nat)
    requires Packable(attrs) && StaysInside(attrs) && attrs != [] && n <= |attrs|
    ensures Filled(attrs, n) == Partial(attrs, n)
    decreases n
  {
    hide Splice, Record, Partial, StaysInside, Padding, Le32;
    if n == 0 {
      OffsetMonotonic(attrs, 0, |attrs|);
      Started(attrs);
    } else {
      FilledIsPartial(attrs, n - 1);
      PackStep(attrs, n - 1);
    }
  }

  /** Without wrapping lengths, what is written is the packed form: count, records, regions. */
  lemma WrittenIsPacked(attrs: seq<Attr>)
    requires Packable(attrs)
    ensures StaysInside(attrs) && Written(attrs) == Packed(attrs)
  {
    hide Filled, Partial, Packed, StaysInside;
    PackableStays(attrs);
    if attrs != [] {
      FilledIsPartial(attrs, |attrs|);
      Finished(attrs);
    } else {
      NothingPacked();
    }
  }

  lemma NothingPacked()
    ensures Packed([]) == []
  {
  }

  lemma ZeroFilled(s: seq<byte>)
    requires forall i :: 0 <= i < |s| ==> s[i] == 0
    ensures s == Padding(|s|)
  {
  }

  lemma Started(attrs: seq<Attr>)
    requires Packable(attrs) && 4 <= Offset(attrs, |attrs|)
    ensures Splice(Padding(Offset(attrs, |attrs|)), 0, Le32(|attrs|)) == Partial(attrs, 0)
  {
    hide Le32, Padding, Splice;
    OffsetMonotonic(attrs, 0, |attrs|);
    StartedAt(Le32(|attrs|), 12 * |attrs|, Offset(attrs, |attrs|));
  }

  lemma StartedAt(count: seq<byte>, table: nat, total: nat)
    requires |count| == 4 && 4 + table <= total
    ensures Splice(Padding(total), 0, count) == count + [] + Padding(table) + [] + Padding(total - (4 + table))
  {
    hide Padding, Splice;
    var rest := total - (4 + table);
    PaddingSum(4, table + rest);
    PaddingSum(table, rest);
    SpliceFront(Padding(4), Padding(table + rest), count);
    Front(count, Padding(table), Padding(rest));
  }

  lemma SpliceFront(b: seq<byte>, c: seq<byte>, t: seq<byte>)
    requires |b| == |t|
    ensures Splice(b + c, 0, t) == t + c
  {
  }

  lemma Front(a: seq<byte>, b: seq<byte>, c: seq<byte>)
    ensures a + (b + c) == a + [] + b + [] + c
  {
  }

  lemma Finished(attrs: seq<Attr>)
    requires Packable(attrs) && attrs != []
    ensures Partial(attrs, |attrs|) == Packed(attrs)
  {
    hide Le32;
  }

  // ----- unpack_attrs

  /** An attribute as the trusted application holds it: a reference points into the received buffer or is null. */
  datatype Unpacked =
    | UValue(id: u32, a: u32, b: u32)
    | URef(id: u32, pointer: Option<nat>, length: u32)

  function Number(s: seq<byte>, at: nat): u32
    requires at + 4 <= |s|
  {
    FromLe32(s[at..at + 4])
  }

  predicate TableFits(s: seq<byte>) {
    |s| >= 4 && 12 * Number(s, 0) <= |s| - 4
  }

  /** Record n of a received buffer. */
  function Decoded(s: seq<byte>, n: nat): Unpacked
    requires TableFits(s) && n < Number(s, 0)
  {
    var at := 4 + 12 * n;
    var id, a, b := Number(s, at), Number(s, at + 4), Number(s, at + 8);
    if IsValue(id) then UValue(id, a, b)
    else URef(id, if a == 0 then None else Some(a), b)
  }

  predicate InBounds(u: Unpacked, blen: nat) {
    u.URef? && u.pointer.Some? ==> u.pointer.value + u.length <= blen
  }

  /** What unpack_attrs accepts: nothing at all, or a table that fits with references that stay inside. */
  predicate Acceptable(s: seq<byte>) {
    s == [] || (TableFits(s) && forall n :: 0 <= n < Number(s, 0) ==> InBounds(Decoded(s, n), |s|))
  }

  function DecodedList(s: seq<byte>): (r: seq<Unpacked>)
    requires s == [] || TableFits(s)
  {
    if s == [] then [] else seq(Number(s, 0), n requires 0 <= n < Number(s, 0) => Decoded(s, n))
  }

  /** The caller's two out-parameters. */
  class Outputs {
    var attrs: seq<Unpacked>
    var count: nat

    constructor ()
      ensures attrs == [] && count == 0
    {
      attrs, count := [], 0;
    }
  }

  /**
   unpack_attrs on a buffer at address `address`. `memory` says whether TEE_Malloc succeeds.
   The outputs change only on success.
   */
  method UnpackAttrs(buf: array<byte>, address: nat, memory: bool, out: Outputs) returns (res: Status)
    modifies out
    ensures res == Success <==>
            Acceptable(buf[..]) && (buf.Length == 0 || (address % 4 == 0 && (memory || Number(buf[..], 0) == 0)))
    ensures res == OutOfMemory <==>
            buf.Length != 0 && address % 4 == 0 && TableFits(buf[..]) && Number(buf[..], 0) != 0 && !memory
    ensures res == Success ==> out.attrs == DecodedList(buf[..]) && out.count == |out.attrs|
    ensures res == Success ==> forall n :: 0 <= n < out.count ==> InBounds(out.attrs[n], buf.Length)
    ensures res != Success ==> unchanged(out)
  {
    hide FromLe32, IsValue;
    ghost var s := buf[..];
    var blen := buf.Length;
    if blen == 0 {
      out.attrs, out.count := [], 0;
      return Success;
    }
    if address % 4 != 0 || blen < 4 {
      return BadParameters;
    }
    var numAttrs: int := FromLe32(buf[0..4]);
    assert numAttrs == Number(s, 0) by { assert buf[0..4] == s[0..4]; }
    if blen - 4 < numAttrs * 12 {
      return BadParameters;
    }
    if numAttrs > 0 && !memory {
      return OutOfMemory;
    }
    var a: seq<Unpacked> := [];
    var n := 0;
    while n < numAttrs
      invariant 0 <= n <= numAttrs && |a| == n
      invariant forall k :: 0 <= k < n ==> a[k] == Decoded(s, k) && InBounds(a[k], blen)
    {
      var at := 4 + 12 * n;
      assert buf[at..at + 4] == s[at..at + 4] && buf[at + 4..at + 8] == s[at + 4..at + 8]
             && buf[at + 8..at + 12] == s[at + 8..at + 12];
      var id, x, y := FromLe32(buf[at..at + 4]), FromLe32(buf[at + 4..at + 8]), FromLe32(buf[at + 8..at + 12]);
      if IsValue(id) {
        a := a + [UValue(id, x, y)];
      } else if x != 0 {
        if x + y > blen {
          assert !InBounds(Decoded(s, n), blen);
          return BadParameters;
        }
        a := a + [URef(id, Some(x), y)];
      } else {
        a := a + [URef(id, None, y)];
      }
      n := n + 1;
    }
    assert a == DecodedList(s);
    out.attrs, out.count := a, numAttrs;
    res := Success;
  }
}
