/**
 The packed form byte by byte: where count, records and referenced bytes stand, and what the
 bytes of a received buffer mean, in numbers; and the attributes of the demonstration through
 both sides.
 */
module AttrBytes {
  import opened AttrCodec
  import opened AttrRoundTrip
  import opened LittleEndian
  import opened Options

  /** The four bytes from `at` on, least significant first, are x. */
  predicate Stands(s: seq<byte>, at: nat, x: int) {
    && at + 4 <= |s|
    && (s[at] as int) + 0x100 * (s[at + 1] as int) + 0x1_0000 * (s[at + 2] as int) + 0x100_0000 * (s[at + 3] as int)
       == x
  }

  /** Bit 29 of a 32-bit number. */
  predicate Bit29(id: u32) { id % 0x4000_0000 >= 0x2000_0000 }

  lemma NumberStands(s: seq<byte>, at: nat, x: int)
    requires at + 4 <= |s|
    ensures Stands(s, at, x) <==> Number(s, at) == x
  {
    var t := s[at..at + 4];
    assert t[0] == s[at] && t[1] == s[at + 1] && t[2] == s[at + 2] && t[3] == s[at + 3];
  }

  /** An id is taken for a value exactly when its bit 29 is set. */
  lemma ValueIff(id: u32)
    ensures IsValue(id) <==> Bit29(id)
  {
    var q, r := id / 0x4000_0000, id % 0x4000_0000;
    assert id == 0x4000_0000 * q + r;
    assert id / 0x2000_0000 == 2 * q + r / 0x2000_0000;
  }

  // ----- what is written

  /**
   What a list must be for pack_attrs: fewer than 2^32 attributes, values by bit 29 of the
   id, buffers as long as they say.
   */
  lemma ListedIff(attrs: seq<Attr>)
    ensures Listed(attrs) <==>
            && |attrs| < 0x1_0000_0000
            && forall k :: 0 <= k < |attrs| ==>
                 match attrs[k]
                 case Value(id, _, _) => Bit29(id)
                 case Ref(id, buffer, length) => !Bit29(id) && (buffer.Some? ==> |buffer.value| == length)
  {
    hide IsValue, Bit29;
    forall k | 0 <= k < |attrs|
      ensures IsValue(attrs[k].id) <==> Bit29(attrs[k].id)
    {
      ValueIff(attrs[k].id);
    }
  }

  /** The references start behind count and records, each behind the one before it rounded up to four bytes. */
  lemma OffsetNumbers(attrs: seq<Attr>, k: nat)
    requires k < |attrs|
    ensures Offset(attrs, 0) == 4 + 12 * |attrs|
    ensures Offset(attrs, k + 1) - Offset(attrs, k) ==
            match attrs[k]
            case Ref(_, Some(_), length) => (length + 3) % 0x1_0000_0000 / 4 * 4
            case _ => 0
  {
  }

  /** Count and records of a written buffer. */
  lemma WrittenBytes(attrs: seq<Attr>, k: nat)
    requires Listed(attrs) && StaysInside(attrs) && k < |attrs|
    ensures var s, at := Written(attrs), 4 + 12 * k;
            && |s| == Offset(attrs, |attrs|)
            && Stands(s, 0, |attrs|) && Stands(s, at, attrs[k].id)
            && match attrs[k]
               case Value(_, a, b) => Stands(s, at + 4, a) && Stands(s, at + 8, b)
               case Ref(_, buffer, length) =>
                 && Stands(s, at + 4, if buffer.Some? then Offset(attrs, k) % 0x1_0000_0000 else 0)
                 && Stands(s, at + 8, length)
  {
    hide Filled, Le32, FromLe32, IsValue, StaysInside, Stands;
    WrittenCount(attrs);
    FilledTable(attrs, |attrs|, k);
    var s, at := Written(attrs), 4 + 12 * k;
    forall i: nat, x: int | i + 4 <= |s|
      ensures Stands(s, i, x) <==> Number(s, i) == x
    {
      NumberStands(s, i, x);
    }
    match attrs[k] {
      case Value(id, a, b) =>
        RecordNumbers(s, at, id, a, b);
      case Ref(id, buffer, length) =>
        RecordNumbers(s, at, id, if buffer.Some? then Offset(attrs, k) % U32 else 0, length);
    }
  }

  /** Without wrapping lengths the referenced bytes stand at their offset, with zeros up to the next one. */
  lemma WrittenContents(attrs: seq<Attr>, k: nat)
    requires Listed(attrs) && k < |attrs| && HasBytes(attrs[k])
    requires forall i :: 0 <= i < |attrs| && HasBytes(attrs[i]) ==> attrs[i].length <= 0xFFFF_FFFC
    ensures StaysInside(attrs)
    ensures var s, o, len := Written(attrs), Offset(attrs, k), attrs[k].length;
            && o + len <= Offset(attrs, k + 1) <= |s|
            && s[o..o + len] == attrs[k].buffer.value
            && forall i :: o + len <= i < Offset(attrs, k + 1) ==> s[i] == 0
  {
    assert Packable(attrs);
    WrittenIsPacked(attrs);
    PackedRegion(attrs, k);
    PackedFill(attrs, k);
    OffsetMonotonic(attrs, k + 1, |attrs|);
    hide Offset, Written, Packed, Packable, StaysInside;
  }

  lemma NextRegion(attrs: seq<Attr>, k: nat)
    requires Packable(attrs) && k < |attrs|
    ensures |attrs| < 0x1_0000_0000 && WellFormed(attrs[k]) && !Wraps(attrs[k])
    ensures Regions(attrs, k + 1) == Regions(attrs, k) + Region(attrs[k])
    ensures Offset(attrs, k + 1) == Offset(attrs, k) + |Region(attrs[k])|
    ensures |Le32(|attrs|) + Records(attrs, |attrs|)| + |Regions(attrs, k)| == Offset(attrs, k)
  {
    hide Region, RoundUp, Le32, Records;
  }

  /** What stands between two offsets is one region. */
  lemma WholeRegion(attrs: seq<Attr>, k: nat)
    requires Packable(attrs) && k < |attrs|
    ensures Offset(attrs, k) <= Offset(attrs, k + 1) <= |Packed(attrs)|
    ensures WellFormed(attrs[k]) && !Wraps(attrs[k])
    ensures Packed(attrs)[Offset(attrs, k)..Offset(attrs, k + 1)] == Region(attrs[k])
  {
    hide *;
    NextRegion(attrs, k);
    PackedFront(attrs, k + 1);
    LastPart(Packed(attrs), Offset(attrs, k), Le32(|attrs|) + Records(attrs, |attrs|), Regions(attrs, k),
      Region(attrs[k]));
  }

  lemma LastPart(s: seq<byte>, a: nat, table: seq<byte>, front: seq<byte>, last: seq<byte>)
    requires a + |last| <= |s| && s[..a + |last|] == table + (front + last) && |table| + |front| == a
    ensures s[a..a + |last|] == last
  {
    assert s[a..a + |last|] == s[..a + |last|][a..];
  }

  lemma PackedFill(attrs: seq<Attr>, k: nat)
    requires Packable(attrs) && k < |attrs| && HasBytes(attrs[k])
    ensures var s, o, e := Packed(attrs), Offset(attrs, k) + attrs[k].length, Offset(attrs, k + 1);
            o <= e <= |s| && forall i :: o <= i < e ==> s[i] == 0
  {
    assert WellFormed(attrs[k]) && !Wraps(attrs[k]);
    hide Packed, Region, Packable, Offset, Wraps, WellFormed;
    WholeRegion(attrs, k);
    FilledUp(attrs[k]);
    ZeroTail(Packed(attrs), Offset(attrs, k), Offset(attrs, k + 1), Region(attrs[k]), attrs[k].length);
  }

  lemma ZeroTail(s: seq<byte>, a: nat, b: nat, t: seq<byte>, len: nat)
    requires a <= b <= |s| && s[a..b] == t && len <= |t| && forall i :: len <= i < |t| ==> t[i] == 0
    ensures forall i :: a + len <= i < b ==> s[i] == 0
  {
    forall i | a + len <= i < b
      ensures s[i] == 0
    {
      assert s[i] == s[a..b][i - a];
    }
  }

  lemma FilledUp(attr: Attr)
    requires WellFormed(attr) && HasBytes(attr) && !Wraps(attr)
    ensures attr.length <= |Region(attr)| && forall i :: attr.length <= i < |Region(attr)| ==> Region(attr)[i] == 0
  {
    RoundUpExact(attr.length);
  }

  // ----- what is read

  /** Record n of a buffer has these three numbers. */
  predicate RecordAt(s: seq<byte>, n: nat, id: u32, a: u32, b: u32) {
    Stands(s, 4 + 12 * n, id) && Stands(s, 8 + 12 * n, a) && Stands(s, 12 + 12 * n, b)
  }

  /** A record is a value exactly when bit 29 of its id is set; otherwise its second number is an offset, 0 for null. */
  lemma DecodedIff(s: seq<byte>, n: nat, id: u32, a: u32, b: u32)
    requires TableFits(s) && n < Number(s, 0)
    requires RecordAt(s, n, id, a, b)
    ensures Decoded(s, n) == if id % 0x4000_0000 >= 0x2000_0000 then UValue(id, a, b)
                             else URef(id, if a == 0 then None else Some(a), b)
  {
    NumberStands(s, 4 + 12 * n, id);
    NumberStands(s, 8 + 12 * n, a);
    NumberStands(s, 12 + 12 * n, b);
    ValueIff(id);
    hide Stands, Number, IsValue;
  }

  /** A buffer that is not empty is accepted exactly when its records fit it and all references not null do. */
  lemma AcceptableIff(s: seq<byte>, count: int)
    requires Stands(s, 0, count)
    ensures Acceptable(s) <==>
            && 4 + 12 * count <= |s|
            && forall n: nat, id: u32, a: u32, b: u32 ::
                 n < count && RecordAt(s, n, id, a, b) && id % 0x4000_0000 < 0x2000_0000 && a != 0 ==> a + b <= |s|
  {
    NumberStands(s, 0, count);
    hide Stands, Number, Decoded, RecordAt;
    if 4 + 12 * count <= |s| {
      forall n: nat, id: u32, a: u32, b: u32 | n < count && RecordAt(s, n, id, a, b)
        ensures Decoded(s, n) == if id % 0x4000_0000 >= 0x2000_0000 then UValue(id, a, b)
                                 else URef(id, if a == 0 then None else Some(a), b)
      {
        DecodedIff(s, n, id, a, b);
      }
      if !Acceptable(s) {
        var n: nat :| n < count && !InBounds(Decoded(s, n), |s|);
        var id, a, b := RecordOf(s, n);
      }
      forall n: nat | n < count && Acceptable(s)
        ensures InBounds(Decoded(s, n), |s|)
      {
      }
    }
  }

  lemma RecordOf(s: seq<byte>, n: nat) returns (id: u32, a: u32, b: u32)
    requires 16 + 12 * n <= |s|
    ensures RecordAt(s, n, id, a, b)
  {
    id, a, b := Number(s, 4 + 12 * n), Number(s, 8 + 12 * n), Number(s, 12 + 12 * n);
    NumberStands(s, 4 + 12 * n, id);
    NumberStands(s, 8 + 12 * n, a);
    NumberStands(s, 12 + 12 * n, b);
  }

  // ----- the attributes of the demonstration

  /** A public and a private X25519 value of 32 bytes, and a curve, which is a value attribute. */
  function Keys(pub: seq<byte>, priv: seq<byte>, a: u32, b: u32): seq<Attr> {
    [Ref(0xD000_0944, Some(pub), 32), Ref(0xC000_0A44, Some(priv), 32), Value(0xF000_0441, a, b)]
  }

  lemma KeysPacked(pub: seq<byte>, priv: seq<byte>, a: u32, b: u32)
    requires |pub| == 32 && |priv| == 32
    ensures var attrs := Keys(pub, priv, a, b);
            && Listed(attrs) && Packable(attrs) && OffsetsSuffice(attrs)
            && Offset(attrs, 0) == 40 && Offset(attrs, 1) == 72 && Offset(attrs, 3) == 104
  {
    var attrs := Keys(pub, priv, a, b);
    assert RoundUp(32) == 32;
    assert Offset(attrs, 0) == 40 && Offset(attrs, 1) == 72 && Offset(attrs, 2) == 104 && Offset(attrs, 3) == 104;
  }

  /** The lists come out of the trusted application as they went into the host: two references and a value. */
  method Demonstrate(pub: seq<byte>, priv: seq<byte>, a: u32, b: u32) returns (out: Outputs, buf: array?<byte>)
    requires |pub| == 32 && |priv| == 32
    ensures buf != null && buf.Length == 104 && out.count == 3
    ensures out.attrs == [URef(0xD000_0944, Some(40), 32), URef(0xC000_0A44, Some(72), 32), UValue(0xF000_0441, a, b)]
    ensures buf[40..72] == pub && buf[72..104] == priv
  {
    var attrs := Keys(pub, priv, a, b);
    KeysPacked(pub, priv, a, b);
    PackableStays(attrs);
    var res, blen;
    res, buf, blen := PackAttrs(attrs, true);
    KeysUnpacked(pub, priv, a, b);
    hide StaysInside, Written, Packable, Packed, Acceptable, DecodedList, Offset, Listed, OffsetsSuffice;
    out := new Outputs();
    res := UnpackAttrs(buf, 0, true, out);
  }

  lemma KeysUnpacked(pub: seq<byte>, priv: seq<byte>, a: u32, b: u32)
    requires |pub| == 32 && |priv| == 32
    ensures var attrs := Keys(pub, priv, a, b);
            && Listed(attrs) && StaysInside(attrs) && |Written(attrs)| == 104
            && Acceptable(Written(attrs)) && TableFits(Written(attrs))
            && DecodedList(Written(attrs))
               == [URef(0xD000_0944, Some(40), 32), URef(0xC000_0A44, Some(72), 32), UValue(0xF000_0441, a, b)]
            && Written(attrs)[40..72] == pub && Written(attrs)[72..104] == priv
  {
    var attrs := Keys(pub, priv, a, b);
    KeysPacked(pub, priv, a, b);
    hide Written, Offset, Decoded, Number, RoundUp, ResolveAll, Packable, Listed, StaysInside, OffsetsSuffice,
         Acceptable, TableFits, DecodedList;
    RoundTrip(attrs);
    WrittenCount(attrs);
    WrittenDecodes(attrs, 0);
    WrittenDecodes(attrs, 1);
    WrittenDecodes(attrs, 2);
    KeysWritten(pub, priv, a, b);
    ThreeDecoded(Written(attrs));
  }

  lemma ThreeDecoded(s: seq<byte>)
    requires TableFits(s) && Number(s, 0) == 3
    ensures DecodedList(s) == [Decoded(s, 0), Decoded(s, 1), Decoded(s, 2)]
  {
    assert s != [];
    hide Decoded, Number;
  }

  lemma KeysWritten(pub: seq<byte>, priv: seq<byte>, a: u32, b: u32)
    requires |pub| == 32 && |priv| == 32
    ensures var attrs := Keys(pub, priv, a, b);
            && Listed(attrs) && StaysInside(attrs) && |Written(attrs)| >= 104
            && Written(attrs)[40..72] == pub && Written(attrs)[72..104] == priv
  {
    var attrs := Keys(pub, priv, a, b);
    KeysPacked(pub, priv, a, b);
    hide Written, Offset, RoundUp, Packable, Listed, StaysInside, OffsetsSuffice;
    WrittenContents(attrs, 0);
    WrittenContents(attrs, 1);
  }
}
