/** Reading sbmeta.bin: where the fields of a record stand, and when they are what the image description says. */
module SbmetaReading {
  import opened LittleEndian
  import opened Options
  import opened Sbmeta
  import opened Sequences
  import opened Utf8

  /** What a record tells: eight one-byte codes, a name, 64 digest bytes and an address. */
  datatype Record = Record(codes: seq<int>, name: string, digest: seq<byte>, address: u32)

  /** The bytes before the first NUL. */
  function UntilNul(s: seq<byte>): seq<byte>
    decreases |s|
  {
    if s == [] || s[0] == 0 then [] else [s[0]] + UntilNul(s[1..])
  }

  /** Reading a slot at the fixed offsets; nothing when the magic number or the encoding of the name is wrong. */
  function ReadSlot(slot: seq<byte>): Option<Record>
    requires |slot| >= 112
  {
    var name := Decode(UntilNul(slot[12..44]));
    if FromLe32(slot[0..4]) != MAGIC || name.None? then None
    else
      Some(Record(seq(8, i requires 0 <= i < 8 => Signed(slot[4..12][i])), name.value, slot[44..108],
        FromLe32(slot[108..112])))
  }

  function NameOf(image: ImageInfo): string {
    var v := Lookup(image, "name");
    if v.Some? && v.value.Str? then v.value.s else ""
  }

  function AddressOf(image: ImageInfo): int { Address(Lookup(image, "relocated_addr")) }

  function DigestOf(image: ImageInfo): seq<byte> {
    var d := HexBytes(image.digest, |image.digest| / 2);
    if d.Good? then d.value + Repeat<byte>(0, 64 - |d.value|) else []
  }

  /** What an image description says, as far as its record can tell. */
  function Described(image: ImageInfo): Option<Record> {
    var a := AddressOf(image);
    if 0 <= a < 0x1_0000_0000 then
      Some(Record(Codes(image), NameOf(image), DigestOf(image), a))
    else None
  }

  function Codes(image: ImageInfo): seq<int> {
    seq(8, i requires 0 <= i < 8 => Code(IMAGE_FIELDS[i].kind, Lookup(image, IMAGE_FIELDS[i].name)))
  }

  lemma {:induction false} FieldsConcat(image: ImageInfo, a: seq<Field>, b: seq<Field>)
    ensures var w, v := FieldsWritten(image, a), FieldsWritten(image, b);
            FieldsWritten(image, a + b) == if w.outcome.Good? then Written(w.bytes + v.bytes, v.outcome) else w
    decreases |a|
  {
    hide FieldData, Lookup;
    if a == [] {
      assert a + b == b;
      assert [] + FieldsWritten(image, b).bytes == FieldsWritten(image, b).bytes;
    } else {
      assert (a + b)[1..] == a[1..] + b;
      FieldsConcat(image, a[1..], b);
      var data := FieldData(a[0].kind, Lookup(image, a[0].name));
      if data.Good? {
        Associates(data.value, FieldsWritten(image, a[1..]).bytes, FieldsWritten(image, b).bytes);
      }
    }
  }

  predicate OneByte(kind: Kind) { kind.Integer? || kind.Enum? }

  lemma {:induction false} CodesWritten(image: ImageInfo, fields: seq<Field>)
    requires forall i :: 0 <= i < |fields| ==> OneByte(fields[i].kind)
    requires FieldsWritten(image, fields).outcome.Good?
    ensures var s := FieldsWritten(image, fields).bytes;
            && |s| == |fields|
            && forall i :: 0 <= i < |s| ==>
                 Signed(s[i]) == Code(fields[i].kind, Lookup(image, fields[i].name))
    decreases |fields|
  {
    if fields != [] {
      CodeWritten(fields[0].kind, Lookup(image, fields[0].name));
      hide FieldData, Lookup, Code, Signed;
      CodesWritten(image, fields[1..]);
    }
  }

  lemma CodeWritten(kind: Kind, v: Option<Value>)
    requires OneByte(kind) && FieldData(kind, v).Good?
    ensures |FieldData(kind, v).value| == 1 && Signed(FieldData(kind, v).value[0]) == Code(kind, v)
  {
  }

  lemma FieldsStep(image: ImageInfo, field: Field, rest: seq<Field>)
    requires FieldsWritten(image, [field] + rest).outcome.Good?
    ensures FieldData(field.kind, Lookup(image, field.name)).Good? && FieldsWritten(image, rest).outcome.Good?
    ensures FieldsWritten(image, [field] + rest).bytes
            == FieldData(field.kind, Lookup(image, field.name)).value + FieldsWritten(image, rest).bytes
  {
    assert ([field] + rest)[1..] == rest;
    hide FieldData, Lookup;
  }

  lemma NameWritten(image: ImageInfo)
    requires FieldData(Text(32), Lookup(image, "name")).Good?
    ensures |NameOf(image)| <= 31
    ensures FieldData(Text(32), Lookup(image, "name")).value
            == Encode(NameOf(image)) + Repeat<byte>(0, 32 - |NameOf(image)|)
  {
  }

  lemma DigestWritten(image: ImageInfo)
    requires FieldData(Hex(64), Lookup(image, "digest")).Good?
    ensures FieldData(Hex(64), Lookup(image, "digest")).value == DigestOf(image) && |DigestOf(image)| == 64
  {
  }

  lemma AddressWritten(image: ImageInfo)
    requires FieldData(Int32, Lookup(image, "relocated_addr")).Good?
    ensures 0 <= AddressOf(image) < 0x1_0000_0000
    ensures FieldData(Int32, Lookup(image, "relocated_addr")).value == Le32(AddressOf(image))
  {
    hide Le32;
  }

  /** The eight one-byte fields as written. */
  function CodeBytes(image: ImageInfo): seq<byte> { FieldsWritten(image, IMAGE_FIELDS[..8]).bytes }

  function NameBytes(image: ImageInfo): seq<byte> { Encode(NameOf(image)) + Repeat<byte>(0, 32 - |NameOf(image)|) }

  /** The last three fields of a record. */
  lemma LastParts(image: ImageInfo)
    requires FieldsWritten(image, IMAGE_FIELDS[8..]).outcome.Good?
    ensures |NameOf(image)| <= 31 && |DigestOf(image)| == 64 && 0 <= AddressOf(image) < 0x1_0000_0000
    ensures FieldsWritten(image, IMAGE_FIELDS[8..]).bytes
            == NameBytes(image) + (DigestOf(image) + (Le32(AddressOf(image)) + []))
  {
    hide FieldData, Lookup, FieldsWritten, Le32, DigestOf, NameOf, AddressOf;
    var name, digest, address := Field("name", Text(32)), Field("digest", Hex(64)), Field("relocated_addr", Int32);
    assert IMAGE_FIELDS[8..] == [name] + ([digest] + ([address] + []));
    FieldsStep(image, name, [digest] + ([address] + []));
    FieldsStep(image, digest, [address] + []);
    FieldsStep(image, address, []);
    NoFields(image);
    NameWritten(image);
    DigestWritten(image);
    AddressWritten(image);
  }

  lemma NoFields(image: ImageInfo)
    ensures FieldsWritten(image, []) == Written([], Good(()))
  {
  }

  /** The parts of a record after its magic number. */
  lemma RecordParts(image: ImageInfo)
    requires FieldsWritten(image, IMAGE_FIELDS).outcome.Good?
    ensures |CodeBytes(image)| == 8
    ensures forall i :: 0 <= i < 8 ==>
              Signed(CodeBytes(image)[i]) == Code(IMAGE_FIELDS[i].kind, Lookup(image, IMAGE_FIELDS[i].name))
    ensures |NameOf(image)| <= 31 && |DigestOf(image)| == 64 && 0 <= AddressOf(image) < 0x1_0000_0000
    ensures FieldsWritten(image, IMAGE_FIELDS).bytes
            == CodeBytes(image) + (NameBytes(image) + (DigestOf(image) + (Le32(AddressOf(image)) + [])))
  {
    hide FieldsWritten, Lookup, Code, Signed, Le32, DigestOf, NameOf, AddressOf, NameBytes;
    assert IMAGE_FIELDS == IMAGE_FIELDS[..8] + IMAGE_FIELDS[8..];
    FieldsConcat(image, IMAGE_FIELDS[..8], IMAGE_FIELDS[8..]);
    CodesWritten(image, IMAGE_FIELDS[..8]);
    LastParts(image);
  }

  /** A field whose value has the right type and range. */
  predicate FieldPacks(image: ImageInfo, field: Field) {
    var v := Lookup(image, field.name);
    Typed(field.kind, v) && InRange(field.kind, v)
  }

  lemma {:induction false} FieldsGoodIff(image: ImageInfo, fields: seq<Field>)
    ensures FieldsWritten(image, fields).outcome.Good? <==>
            forall i :: 0 <= i < |fields| ==> FieldPacks(image, fields[i])
    decreases |fields|
  {
    if fields != [] {
      FieldMeaning(fields[0].kind, Lookup(image, fields[0].name));
      assert FieldData(fields[0].kind, Lookup(image, fields[0].name)).Good? <==> FieldPacks(image, fields[0]);
      hide FieldData, Lookup, FieldPacks;
      FieldsGoodIff(image, fields[1..]);
    }
  }

  /**
   A record takes 112 bytes and one more for each byte by which the name's encoding exceeds
   its characters, so it fits a slot exactly when all fields pack and these are at most 16.
   */
  lemma SlotHoldsIff(image: ImageInfo)
    ensures SlotHolds(image) <==>
              && Lookup(image, "name").Some?
              && (forall i :: 0 <= i < |IMAGE_FIELDS| ==> FieldPacks(image, IMAGE_FIELDS[i]))
              && |Encode(NameOf(image))| <= |NameOf(image)| + 16
  {
    FieldsGoodIff(image, IMAGE_FIELDS);
    if FieldsWritten(image, IMAGE_FIELDS).outcome.Good? {
      RecordParts(image);
      hide FieldsWritten, Lookup, Encode, NameOf, FieldPacks;
    }
  }

  // ----- where the fields stand

  /** How many bytes the encoding of the name has more than the name has characters. */
  function Shift(image: ImageInfo): nat { |Encode(NameOf(image))| - |NameOf(image)| }

  lemma SlotOffsets(m: seq<byte>, c: seq<byte>, n: seq<byte>, d: seq<byte>, a: seq<byte>, f: seq<byte>, k: nat)
    requires |m| == 4 && |c| == 8 && |n| == 32 + k && |d| == 64 && |a| == 4
    ensures var s := m + (c + (n + (d + (a + [])))) + f;
            && |s| >= 112 + k
            && s[0..4] == m && s[4..12] == c && s[12..44 + k] == n && s[44 + k..112 + k] == d + a
            && s[44 + k..108 + k] == d && s[108 + k..112 + k] == a && s[112 + k..] == f
  {
    var s := m + (c + (n + (d + (a + [])))) + f;
    assert s == m + c + n + (d + a) + f;
    assert s == m + c + n + d + a + f;
  }

  /** The name, padded by its characters, moves digest and address by as many bytes as its encoding is longer. */
  lemma FieldsMoved(image: ImageInfo)
    requires SlotHolds(image)
    ensures |NameOf(image)| <= 31 && |DigestOf(image)| == 64 && 0 <= AddressOf(image) < 0x1_0000_0000
            && Shift(image) <= 16
    ensures var s, k := Slot(image), Shift(image);
            && s[0..4] == Le32(MAGIC)
            && s[4..12] == CodeBytes(image) && s[12..44 + k] == NameBytes(image)
            && s[44 + k..112 + k] == DigestOf(image) + Le32(AddressOf(image))
            && s[44 + k..108 + k] == DigestOf(image) && s[108 + k..112 + k] == Le32(AddressOf(image))
            && s[112 + k..] == Repeat<byte>(0xFF, 16 - k)
  {
    RecordParts(image);
    SlotHoldsIff(image);
    var m, c, n, d, a := Le32(MAGIC), CodeBytes(image), NameBytes(image), DigestOf(image), Le32(AddressOf(image));
    var record := m + FieldsWritten(image, IMAGE_FIELDS).bytes;
    var f := Repeat<byte>(0xFF, META_PADDING_TO_SIZE - |record|);
    hide Lookup, FieldsWritten, Code, Signed, Le32, DigestOf, NameOf, AddressOf, CodeBytes, Encode;
    SlotOffsets(m, c, n, d, a, f, Shift(image));
    assert Slot(image) == m + (c + (n + (d + (a + [])))) + f;
  }

  // ----- the name

  predicate Ascii(s: string) { forall i :: 0 <= i < |s| ==> s[i] as int < 0x80 }

  lemma {:induction false} AsciiIff(name: string)
    ensures Ascii(name) <==> |Encode(name)| == |name|
    decreases |name|
  {
    if name != [] {
      hide EncodeChar;
      AsciiIff(name[1..]);
      assert Ascii(name) <==> name[0] as int < 0x80 && Ascii(name[1..]);
    }
  }

  predicate NoZero(s: seq<byte>) { forall i :: 0 <= i < |s| ==> s[i] != 0 }

  lemma CharNoZero(c: char)
    ensures NoZero(EncodeChar(c)) <==> c != '\0'
  {
    if c == '\0' {
      assert EncodeChar(c)[0] == 0;
    } else {
      assert c as int != 0;
    }
  }

  lemma {:induction false} NoNulIff(name: string)
    ensures NoZero(Encode(name)) <==> '\0' !in name
    decreases |name|
  {
    if name != [] {
      var e, rest := EncodeChar(name[0]), Encode(name[1..]);
      CharNoZero(name[0]);
      NoNulIff(name[1..]);
      hide EncodeChar, Encode;
      assert NoZero(e + rest) <==> NoZero(e) && NoZero(rest) by {
        NoZeroSum(e, rest);
      }
      assert Encode(name) == e + rest by {
        EncodeCons(name[0], name[1..]);
        assert [name[0]] + name[1..] == name;
      }
    }
  }

  lemma NoZeroSum(a: seq<byte>, b: seq<byte>)
    ensures NoZero(a + b) <==> NoZero(a) && NoZero(b)
  {
    if NoZero(a + b) {
      assert forall i :: 0 <= i < |a| ==> a[i] == (a + b)[i];
      forall i | 0 <= i < |b|
        ensures b[i] != 0
      {
        assert b[i] == (a + b)[|a| + i];
      }
    }
  }

  lemma {:induction false} UntilNoZero(s: seq<byte>)
    ensures NoZero(UntilNul(s)) && |UntilNul(s)| <= |s|
    decreases |s|
  {
    if s != [] && s[0] != 0 {
      UntilNoZero(s[1..]);
    }
  }

  lemma {:induction false} UntilZero(s: seq<byte>, k: nat)
    requires k <= |s| && NoZero(s[..k]) && (k < |s| ==> s[k] == 0)
    ensures UntilNul(s) == s[..k]
    decreases k
  {
    if k > 0 {
      assert s[0] == s[..k][0];
      assert s[1..][..k - 1] == s[..k][1..];
      UntilZero(s[1..], k - 1);
    }
  }

  /** The name is read back exactly when it has no NUL and its encoding fits 32 bytes. */
  lemma NameReadsIff(name: string)
    requires |name| <= 31
    ensures |Encode(name) + Repeat<byte>(0, 32 - |name|)| >= 32
    ensures Decode(UntilNul((Encode(name) + Repeat<byte>(0, 32 - |name|))[..32])) == Some(name)
            <==> '\0' !in name && |Encode(name)| <= 32
  {
    var e := Encode(name);
    var s := (e + Repeat<byte>(0, 32 - |name|))[..32];
    NoNulIff(name);
    DecodeIff(UntilNul(s), name);
    UntilNoZero(s);
    hide Encode, Decode, UntilNul;
    if '\0' !in name && |e| <= 32 {
      assert s[..|e|] == e;
      UntilZero(s, |e|);
    }
  }

  // ----- digest and address

  /** A string that repeats itself every k places behind k zeros. */
  predicate Repeats(y: seq<byte>, k: nat) {
    forall i :: 0 <= i < |y| ==> (i < k ==> y[i] == 0) && (i >= k ==> y[i] == y[i - k])
  }

  lemma {:induction false} ZerosSpread(y: seq<byte>, k: nat, i: nat)
    requires k > 0 && i < |y| && Repeats(y, k)
    ensures y[i] == 0
    decreases i
  {
    if i >= k {
      ZerosSpread(y, k, i - k);
    }
  }

  /** Behind zeros that move it, a string starts where it should only if it is all zeros. */
  lemma MovedIff(s: seq<byte>, y: seq<byte>, k: nat)
    requires |s| == |y| + k && s[k..] == y && AllZero(s[..k])
    ensures s[..|y|] == y <==> k == 0 || AllZero(y)
  {
    assert forall i :: k <= i < |s| ==> s[i] == y[i - k];
    assert forall i :: 0 <= i < k ==> s[i] == s[..k][i];
    if k == 0 {
      assert s[..|y|] == s == s[k..];
    }
    if k > 0 && s[..|y|] == y {
      forall i | 0 <= i < |y|
        ensures (i < k ==> y[i] == 0) && (i >= k ==> y[i] == y[i - k])
      {
        assert y[i] == s[..|y|][i] == s[i];
      }
      forall i | 0 <= i < |y|
        ensures y[i] == 0
      {
        ZerosSpread(y, k, i);
      }
    }
    if AllZero(y) {
      forall i | 0 <= i < |y|
        ensures s[..|y|][i] == y[i]
      {
        assert s[i] == if i < k then s[..k][i] else y[i - k];
      }
      assert s[..|y|] == y;
    }
  }

  predicate AllZero(s: seq<byte>) { forall i :: 0 <= i < |s| ==> s[i] == 0 }

  /**
   As long as the name fits, digest and address stand at the fixed offsets exactly when
   nothing moves or both are zero.
   */
  lemma FixedOffsetsIff(image: ImageInfo)
    requires SlotHolds(image) && |Encode(NameOf(image))| <= 32
    ensures |DigestOf(image)| == 64 && 0 <= AddressOf(image) < 0x1_0000_0000
    ensures Slot(image)[44..108] == DigestOf(image) && Slot(image)[108..112] == Le32(AddressOf(image))
            <==> Shift(image) == 0 || (AllZero(DigestOf(image)) && AddressOf(image) == 0)
  {
    FieldsMoved(image);
    var s, k, n := Slot(image), Shift(image), NameBytes(image);
    var d, a := DigestOf(image), Le32(AddressOf(image));
    AddressZero(AddressOf(image));
    assert s[44..44 + k] == s[12..44 + k][32..] == n[32..];
    assert AllZero(n[32..]);
    hide Slot, SlotHolds, DigestOf, AddressOf, NameBytes, Le32, Encode, NameOf, Shift, Code, Lookup, Signed;
    Shifted(s, d, a, k);
  }

  lemma Shifted(s: seq<byte>, d: seq<byte>, a: seq<byte>, k: nat)
    requires |s| >= 112 + k && |d| == 64 && |a| == 4
    requires s[44 + k..112 + k] == d + a && AllZero(s[44..44 + k])
    ensures s[44..108] == d && s[108..112] == a <==> k == 0 || (AllZero(d) && AllZero(a))
  {
    var t, y := s[44..112 + k], d + a;
    assert t[k..] == y && t[..68] == s[44..112] && t[..k] == s[44..44 + k];
    MovedIff(t, y, k);
    AllZeroSum(d, a);
    hide AllZero;
    SameParts(s[44..108], s[108..112], d, a);
    assert s[44..112] == s[44..108] + s[108..112];
  }

  lemma AllZeroSum(a: seq<byte>, b: seq<byte>)
    ensures AllZero(a + b) <==> AllZero(a) && AllZero(b)
  {
    if AllZero(a + b) {
      assert forall i :: 0 <= i < |a| ==> a[i] == (a + b)[i];
      forall i | 0 <= i < |b|
        ensures b[i] == 0
      {
        assert b[i] == (a + b)[|a| + i];
      }
    }
  }

  lemma SameParts(a: seq<byte>, b: seq<byte>, c: seq<byte>, d: seq<byte>)
    requires |a| == |c|
    ensures a + b == c + d <==> a == c && b == d
  {
    if a + b == c + d {
      assert a == (a + b)[..|a|] == c && b == (a + b)[|a|..] == d;
    }
  }

  lemma AddressZero(x: int)
    requires 0 <= x < 0x1_0000_0000
    ensures AllZero(Le32(x)) <==> x == 0
  {
    Le32RoundTrip(x);
  }

  // ----- what is read back

  /** What makes a record read back as described. */
  predicate Readable(image: ImageInfo) {
    var name := NameOf(image);
    && '\0' !in name && |Encode(name)| <= 32
    && (Ascii(name) || (AllZero(DigestOf(image)) && AddressOf(image) == 0))
  }

  /**
   Read at the fixed offsets, the name taken as UTF-8, a record is what the description says
   if and only if the name has no NUL and fits its 32 bytes encoded, and it is ASCII unless
   digest and address are zero.
   */
  lemma DecodesIff(image: ImageInfo)
    requires SlotHolds(image)
    ensures ReadSlot(Slot(image)) == Described(image) <==> Readable(image)
  {
    hide Slot, SlotHolds, Readable, Described, ReadSlot, Decode, UntilNul, Encode;
    FieldsMoved(image);
    ReadIff(image);
    NameFieldReads(image);
    AsciiIff(NameOf(image));
    if |Encode(NameOf(image))| <= 32 {
      FixedOffsetsIff(image);
    }
    ReadableIs(image);
  }

  lemma ReadableIs(image: ImageInfo)
    ensures Readable(image) <==>
            && '\0' !in NameOf(image) && |Encode(NameOf(image))| <= 32
            && (Ascii(NameOf(image)) || (AllZero(DigestOf(image)) && AddressOf(image) == 0))
  {
  }

  /** A slot reads as described exactly when its three long fields do. */
  lemma ReadIff(image: ImageInfo)
    requires SlotHolds(image)
    ensures 0 <= AddressOf(image) < 0x1_0000_0000
    ensures ReadSlot(Slot(image)) == Described(image) <==>
            && Decode(UntilNul(Slot(image)[12..44])) == Some(NameOf(image))
            && Slot(image)[44..108] == DigestOf(image) && Slot(image)[108..112] == Le32(AddressOf(image))
  {
    var s := Slot(image);
    FieldsMoved(image);
    CodesRead(image);
    Le32RoundTrip(MAGIC);
    hide Lookup, Slot, SlotHolds, Code, Signed, Le32, FromLe32, DigestOf, NameOf, AddressOf, UntilNul, Decode,
         CodeBytes, NameBytes;
    WordIff(s[108..112], AddressOf(image));
  }

  lemma CodesRead(image: ImageInfo)
    requires SlotHolds(image)
    ensures |CodeBytes(image)| == 8
    ensures seq(8, i requires 0 <= i < 8 => Signed(CodeBytes(image)[i])) == Codes(image)
  {
    RecordParts(image);
    hide FieldsWritten, Lookup, Code, Signed, CodeBytes;
  }

  lemma NameFieldReads(image: ImageInfo)
    requires SlotHolds(image)
    ensures Decode(UntilNul(Slot(image)[12..44])) == Some(NameOf(image))
            <==> '\0' !in NameOf(image) && |Encode(NameOf(image))| <= 32
  {
    FieldsMoved(image);
    NameReadsIff(NameOf(image));
    hide Slot, SlotHolds, Decode, UntilNul, Encode, Code, Lookup, DigestOf, AddressOf, CodeBytes, Le32;
    FrontOfName(Slot(image), NameBytes(image), Shift(image));
  }

  lemma FrontOfName(s: seq<byte>, n: seq<byte>, k: nat)
    requires 44 + k <= |s| && s[12..44 + k] == n
    ensures s[12..44] == n[..32]
  {
  }

  lemma WordIff(s: seq<byte>, x: int)
    requires |s| == 4 && 0 <= x < 0x1_0000_0000
    ensures FromLe32(s) == x <==> s == Le32(x)
  {
    Le32RoundTrip(x);
    FromLe32RoundTrip(s);
  }

  /** Every successful run reads back, slot by slot, as described, exactly where the images are readable. */
  lemma RunDecodes(images: seq<ImageInfo>, i: nat)
    requires i < |images| && Packed(images, 0).outcome.Good?
    ensures |Packed(images, 0).bytes| == IMAGE_PADDING_TO_SIZE
            && META_PADDING_TO_SIZE * (i + 1) <= IMAGE_PADDING_TO_SIZE
    ensures ReadSlot(Packed(images, 0).bytes[META_PADDING_TO_SIZE * i..META_PADDING_TO_SIZE * (i + 1)])
            == Described(images[i])
            <==> Readable(images[i])
    ensures forall k :: META_PADDING_TO_SIZE * |images| <= k < IMAGE_PADDING_TO_SIZE ==>
              Packed(images, 0).bytes[k] == 0xFF
  {
    RunIff(images);
    SlotAt(images, i);
    DecodesIff(images[i]);
    hide Packed, SlotHolds, Slot, Slots, ReadSlot, Described, Readable;
    Front(Slots(images), Repeat<byte>(0xFF, IMAGE_PADDING_TO_SIZE - |Slots(images)|),
          META_PADDING_TO_SIZE * i, META_PADDING_TO_SIZE * (i + 1));
  }

  lemma Front(a: seq<byte>, b: seq<byte>, lo: nat, hi: nat)
    requires lo <= hi <= |a| && forall k :: 0 <= k < |b| ==> b[k] == 0xFF
    ensures (a + b)[lo..hi] == a[lo..hi]
    ensures forall k :: |a| <= k < |a + b| ==> (a + b)[k] == 0xFF
  {
  }

  // ----- a name outside ASCII

  const ACCENTED: ImageInfo := ImageInfo(
    map["device" := Int(0), "partition" := Int(1), "type" := Str("tee"), "digest_scheme" := Str("none"),
        "sign_scheme" := Str("none"), "is_image_encrypted" := Int(0), "medium_type" := Str("emmc"),
        "checksum_scheme" := Str("md5"), "name" := Str("\U{E9}"), "relocated_addr" := Int(1)],
    "ff")

  /** An image named with one accented letter packs, but its digest and address are not where they should be. */
  lemma AccentedMoves()
    ensures SlotHolds(ACCENTED) && ReadSlot(Slot(ACCENTED)) != Described(ACCENTED)
  {
    AccentedPacks();
    hide Encode, SlotHolds, ReadSlot, Slot, Described, FieldPacks, Lookup;
    SlotHoldsIff(ACCENTED);
    DecodesIff(ACCENTED);
  }

  lemma AccentedPacks()
    ensures Lookup(ACCENTED, "name").Some? && NameOf(ACCENTED) == "\U{E9}" && AddressOf(ACCENTED) == 1
    ensures |Encode("\U{E9}")| == 2 && !Ascii("\U{E9}")
    ensures forall i :: 0 <= i < |IMAGE_FIELDS| ==> FieldPacks(ACCENTED, IMAGE_FIELDS[i])
  {
    AccentedLookups();
    hide Lookup;
    assert "\U{E9}"[1..] == [] && "\U{E9}"[0] as int == 0xE9;
    forall i | 0 <= i < |IMAGE_FIELDS|
      ensures FieldPacks(ACCENTED, IMAGE_FIELDS[i])
    {
      AccentedFieldPacks(i);
    }
  }

  lemma AccentedFieldPacks(i: nat)
    requires i < |IMAGE_FIELDS|
    ensures FieldPacks(ACCENTED, IMAGE_FIELDS[i])
  {
    AccentedLookups();
    hide Lookup, PairAt, Encode;
    PairFf();
    if i < 4 {
    } else if i < 8 {
    } else {
    }
  }

  lemma PairFf()
    ensures PairAt("ff", 0).Good?
  {
  }

  lemma AccentedLookups()
    ensures Lookup(ACCENTED, "device") == Some(Int(0))
    ensures Lookup(ACCENTED, "partition") == Some(Int(1))
    ensures Lookup(ACCENTED, "type") == Some(Str("tee"))
    ensures Lookup(ACCENTED, "digest_scheme") == Some(Str("none"))
    ensures Lookup(ACCENTED, "sign_scheme") == Some(Str("none"))
    ensures Lookup(ACCENTED, "is_image_encrypted") == Some(Int(0))
    ensures Lookup(ACCENTED, "medium_type") == Some(Str("emmc"))
    ensures Lookup(ACCENTED, "checksum_scheme") == Some(Str("md5"))
    ensures Lookup(ACCENTED, "name") == Some(Str("\U{E9}"))
    ensures Lookup(ACCENTED, "relocated_addr") == Some(Int(1))
    ensures Lookup(ACCENTED, "digest") == Some(Str("ff"))
  {
  }

  // ----- digests

  function HexChar(d: nat): char
    requires d < 16
  {
    if d < 10 then ('0' as int + d) as char else ('a' as int + d - 10) as char
  }

  function HexText(bytes: seq<byte>): string
    decreases |bytes|
  {
    if bytes == [] then []
    else
      var b: int := bytes[|bytes| - 1];
      HexText(bytes[..|bytes| - 1]) + [HexChar(b / 16), HexChar(b % 16)]
  }

  predicate LowerHex(s: string) { forall i :: 0 <= i < |s| ==> '0' <= s[i] <= '9' || 'a' <= s[i] <= 'f' }

  /** A hexadecimal digest of even length packs, and its bytes give the digest back. */
  lemma {:induction false} DigestRoundTrip(s: string, n: nat)
    requires LowerHex(s) && 2 * n <= |s|
    ensures HexBytes(s, n).Good? && HexText(HexBytes(s, n).value) == s[..2 * n]
    decreases n
  {
    if n > 0 {
      DigestRoundTrip(s, n - 1);
      var a, b := s[2 * n - 2], s[2 * n - 1];
      PairRoundTrip(a, b);
      var front, x := HexBytes(s, n - 1).value, PairAt(s, n - 1).value;
      hide PackHex, HexChar;
      assert (front + [x])[..|front + [x]| - 1] == front;
      assert s[..2 * n] == s[..2 * (n - 1)] + [a, b];
    }
  }

  lemma PairRoundTrip(a: char, b: char)
    requires LowerHex([a, b])
    ensures PackHex(a, b).Good?
    ensures var v: int := PackHex(a, b).value; HexChar(v / 16) == a && HexChar(v % 16) == b
  {
    assert [a, b][0] == a && [a, b][1] == b;
    DigitRoundTrip(a);
    DigitRoundTrip(b);
    hide HexDigit, HexChar;
    var v: int := PackHex(a, b).value;
    var x: int, y: int := HexDigit(a).value, HexDigit(b).value;
    assert v == 16 * x + y && v / 16 == x && v % 16 == y;
  }

  lemma DigitRoundTrip(c: char)
    requires '0' <= c <= '9' || 'a' <= c <= 'f'
    ensures HexDigit(c).Some? && 0 <= HexDigit(c).value < 16 && HexChar(HexDigit(c).value) == c
  {
  }
}
