/**
 The bytes of a record in sbmeta.bin in numbers: which byte holds which field, what each name
 is coded as, and which descriptions are packed. Nothing here is said in terms of the tables
 the builder looks fields and codes up in.
 */
module SbmetaLayout {
  import opened LittleEndian
  import opened Options
  import opened Sbmeta
  import opened SbmetaReading
  import opened Sequences
  import opened Utf8

  // ----- what a description says

  /** A field is the integer x; booleans count as 0 and 1. */
  predicate Says(image: ImageInfo, name: string, x: int) {
    && name in image.fields
    && match image.fields[name]
       case Int(i) => i == x
       case Bool(b) => x == if b then 1 else 0
       case _ => false
  }

  /** A field is an integer of a range. */
  predicate Within(image: ImageInfo, name: string, low: int, high: int) {
    && name in image.fields
    && match image.fields[name]
       case Int(i) => low <= i < high
       case Bool(b) => low <= (if b then 1 else 0) < high
       case _ => false
  }

  predicate ImageType(s: string, code: int) {
    || (s == "dtb" && code == 0) || (s == "kernel_image" && code == 1) || (s == "sbi" && code == 2)
    || (s == "aon_fw" && code == 3) || (s == "rootfs" && code == 4) || (s == "tf" && code == 2)
    || (s == "tee" && code == 5) || (s == "uboot" && code == 6) || (s == "customer" && code == 7)
  }

  predicate DigestScheme(s: string, code: int) {
    || (s == "none" && code == 0) || (s == "sha1" && code == 1) || (s == "md5" && code == 2)
    || (s == "sha224" && code == 3) || (s == "sha256" && code == 4) || (s == "sha384" && code == 5)
    || (s == "sha512" && code == 6) || (s == "sm3" && code == 7)
  }

  predicate SignScheme(s: string, code: int) {
    || (s == "none" && code == 0) || (s == "rsa_1024" && code == 1) || (s == "rsa_2048" && code == 2)
    || (s == "ecc_256" && code == 3) || (s == "ecc_160" && code == 4) || (s == "sm2" && code == 5)
  }

  predicate Medium(s: string, code: int) {
    || (s == "emmc" && code == 0) || (s == "sd" && code == 1)
    || (s == "tfcard" && code == 2) || (s == "nandflash" && code == 3)
  }

  lemma ImageTypes(s: string, code: int)
    ensures s in IMAGE_TYPE_ENUMS && IMAGE_TYPE_ENUMS[s] == code <==> ImageType(s, code)
  {
  }

  lemma DigestSchemes(s: string, code: int)
    ensures s in DIGEST_SCHEMA_ENUMS && DIGEST_SCHEMA_ENUMS[s] == code <==> DigestScheme(s, code)
  {
  }

  lemma SignSchemes(s: string, code: int)
    ensures s in SIGN_SCHEMA_ENUMS && SIGN_SCHEMA_ENUMS[s] == code <==> SignScheme(s, code)
  {
  }

  lemma Media(s: string, code: int)
    ensures s in MEDIA_TYPE_ENUMS && MEDIA_TYPE_ENUMS[s] == code <==> Medium(s, code)
  {
  }

  // ----- the first twelve bytes

  /** A byte as a signed number. */
  function SignedByte(b: byte): int { if b < 0x80 then b else b as int - 0x100 }

  /** Magic number and codes of a record. */
  predicate Header(s: seq<byte>, image: ImageInfo) {
    && |s| >= 12 && s[0] == 0x53 && s[1] == 0x42 && s[2] == 0x4D && s[3] == 0x54
    && Says(image, "device", SignedByte(s[4]))
    && Says(image, "partition", SignedByte(s[5]))
    && "type" in image.fields && image.fields["type"].Str? && ImageType(image.fields["type"].s, s[6])
    && "digest_scheme" in image.fields && image.fields["digest_scheme"].Str?
    && DigestScheme(image.fields["digest_scheme"].s, s[7])
    && "sign_scheme" in image.fields && image.fields["sign_scheme"].Str?
    && SignScheme(image.fields["sign_scheme"].s, s[8])
    && Says(image, "is_image_encrypted", SignedByte(s[9]))
    && "medium_type" in image.fields && image.fields["medium_type"].Str?
    && Medium(image.fields["medium_type"].s, s[10])
    && "checksum_scheme" in image.fields && image.fields["checksum_scheme"].Str?
    && DigestScheme(image.fields["checksum_scheme"].s, s[11])
  }

  lemma IntegerByte(image: ImageInfo, name: string, b: byte)
    requires name != "digest" && Typed(Integer, Lookup(image, name))
    requires Signed(b) == Code(Integer, Lookup(image, name))
    ensures Says(image, name, SignedByte(b))
  {
  }

  lemma EnumByte(image: ImageInfo, name: string, enums: map<string, int>, b: byte)
    requires name != "digest" && Typed(Enum(enums), Lookup(image, name))
    requires Signed(b) == Code(Enum(enums), Lookup(image, name)) >= 0
    ensures name in image.fields && image.fields[name].Str?
    ensures image.fields[name].s in enums && enums[image.fields[name].s] == b
  {
  }

  lemma CodesSmall(s: string)
    ensures s in IMAGE_TYPE_ENUMS ==> 0 <= IMAGE_TYPE_ENUMS[s] < 8
    ensures s in DIGEST_SCHEMA_ENUMS ==> 0 <= DIGEST_SCHEMA_ENUMS[s] < 8
    ensures s in SIGN_SCHEMA_ENUMS ==> 0 <= SIGN_SCHEMA_ENUMS[s] < 8
    ensures s in MEDIA_TYPE_ENUMS ==> 0 <= MEDIA_TYPE_ENUMS[s] < 8
  {
  }

  lemma EnumCode(image: ImageInfo, name: string, enums: map<string, int>)
    requires forall s :: s in enums ==> enums[s] >= 0
    ensures Code(Enum(enums), Lookup(image, name)) >= 0
  {
  }

  /** What the eight one-byte fields hold. */
  lemma CodeBytesSay(image: ImageInfo, c: seq<byte>)
    requires |c| == 8 && forall i :: 0 <= i < 8 ==> FieldPacks(image, IMAGE_FIELDS[i])
    requires forall i :: 0 <= i < 8 ==>
               Signed(c[i]) == Code(IMAGE_FIELDS[i].kind, Lookup(image, IMAGE_FIELDS[i].name))
    ensures Header([0x53, 0x42, 0x4D, 0x54] + c, image)
  {
    assert FieldPacks(image, IMAGE_FIELDS[0]) && FieldPacks(image, IMAGE_FIELDS[1]);
    assert FieldPacks(image, IMAGE_FIELDS[2]) && FieldPacks(image, IMAGE_FIELDS[3]);
    assert FieldPacks(image, IMAGE_FIELDS[4]) && FieldPacks(image, IMAGE_FIELDS[5]);
    assert FieldPacks(image, IMAGE_FIELDS[6]) && FieldPacks(image, IMAGE_FIELDS[7]);
    forall s: string
      ensures s in IMAGE_TYPE_ENUMS ==> IMAGE_TYPE_ENUMS[s] >= 0
      ensures s in DIGEST_SCHEMA_ENUMS ==> DIGEST_SCHEMA_ENUMS[s] >= 0
      ensures s in SIGN_SCHEMA_ENUMS ==> SIGN_SCHEMA_ENUMS[s] >= 0
      ensures s in MEDIA_TYPE_ENUMS ==> MEDIA_TYPE_ENUMS[s] >= 0
    {
      CodesSmall(s);
    }
    hide Lookup, Code, Signed, Says, SignedByte, InRange;
    EnumCode(image, "type", IMAGE_TYPE_ENUMS);
    EnumCode(image, "digest_scheme", DIGEST_SCHEMA_ENUMS);
    EnumCode(image, "sign_scheme", SIGN_SCHEMA_ENUMS);
    EnumCode(image, "medium_type", MEDIA_TYPE_ENUMS);
    EnumCode(image, "checksum_scheme", DIGEST_SCHEMA_ENUMS);
    IntegerByte(image, "device", c[0]);
    IntegerByte(image, "partition", c[1]);
    EnumByte(image, "type", IMAGE_TYPE_ENUMS, c[2]);
    EnumByte(image, "digest_scheme", DIGEST_SCHEMA_ENUMS, c[3]);
    EnumByte(image, "sign_scheme", SIGN_SCHEMA_ENUMS, c[4]);
    IntegerByte(image, "is_image_encrypted", c[5]);
    EnumByte(image, "medium_type", MEDIA_TYPE_ENUMS, c[6]);
    EnumByte(image, "checksum_scheme", DIGEST_SCHEMA_ENUMS, c[7]);
    ImageTypes(image.fields["type"].s, c[2]);
    DigestSchemes(image.fields["digest_scheme"].s, c[3]);
    SignSchemes(image.fields["sign_scheme"].s, c[4]);
    Media(image.fields["medium_type"].s, c[6]);
    DigestSchemes(image.fields["checksum_scheme"].s, c[7]);
    HeaderParts(c);
  }

  lemma HeaderParts(c: seq<byte>)
    requires |c| == 8
    ensures var s: seq<byte> := [0x53, 0x42, 0x4D, 0x54] + c;
            && |s| == 12 && s[0] == 0x53 && s[1] == 0x42 && s[2] == 0x4D && s[3] == 0x54
            && s[4] == c[0] && s[5] == c[1] && s[6] == c[2] && s[7] == c[3]
            && s[8] == c[4] && s[9] == c[5] && s[10] == c[6] && s[11] == c[7]
  {
  }

  lemma MagicBytes()
    ensures Le32(MAGIC) == [0x53, 0x42, 0x4D, 0x54]
  {
  }

  // ----- a whole slot

  /** The bytes of a digest: two hexadecimal digits each. */
  predicate DigestBytes(s: seq<byte>, digest: string) {
    && |s| == 64 && |digest| <= 128
    && (forall i :: 0 <= i < |digest| / 2 ==> PairAt(digest, i) == Good(s[i]))
    && forall i :: |digest| / 2 <= i < 64 ==> s[i] == 0
  }

  /** Four bytes, least significant first. */
  predicate Address32(s: seq<byte>, image: ImageInfo)
    requires |s| == 4
  {
    var x := (s[0] as int) + 0x100 * (s[1] as int) + 0x1_0000 * (s[2] as int) + 0x100_0000 * (s[3] as int);
    if "relocated_addr" in image.fields then Says(image, "relocated_addr", x) else x == 0xFFFF_FFFF
  }

  /** What the 128 bytes of a slot are, when the encoding of the name has k bytes more than the name characters. */
  predicate Holds(s: seq<byte>, image: ImageInfo, k: nat) {
    && |s| == 128 && k <= 16 && Header(s[..12], image)
    && NameBytesAre(s[12..44 + k], image, k)
    && DigestBytes(s[44 + k..108 + k], image.digest)
    && Address32(s[108 + k..112 + k], image)
    && forall i :: 112 + k <= i < 128 ==> s[i] == 0xFF
  }

  /** A name of at most 31 characters, encoded, and zeros. */
  predicate NameBytesAre(s: seq<byte>, image: ImageInfo, k: nat) {
    && "name" in image.fields && image.fields["name"].Str?
    && var e := Encode(image.fields["name"].s);
       && |e| - k == |image.fields["name"].s| <= 31
       && |e| <= |s| && s[..|e|] == e
       && forall i :: |e| <= i < |s| ==> s[i] == 0
  }

  lemma AddressSays(image: ImageInfo)
    requires Typed(Int32, Lookup(image, "relocated_addr")) && 0 <= AddressOf(image) < 0x1_0000_0000
    ensures Address32(Le32(AddressOf(image)), image)
  {
    Le32RoundTrip(AddressOf(image));
  }

  lemma DigestSays(image: ImageInfo)
    requires Typed(Hex(64), Lookup(image, "digest")) && InRange(Hex(64), Lookup(image, "digest"))
    ensures DigestBytes(DigestOf(image), image.digest)
  {
    hide PairAt, HexBytes;
    HexBytesAre(image.digest, |image.digest| / 2);
  }

  lemma NameSays(image: ImageInfo)
    requires Typed(Text(32), Lookup(image, "name")) && InRange(Text(32), Lookup(image, "name"))
    ensures NameBytesAre(NameBytes(image), image, Shift(image))
  {
    assert image.fields["name"] == Str(NameOf(image)) && |NameOf(image)| <= 31;
    hide Encode;
  }

  /** Every slot is its record, in numbers. */
  lemma SlotIs(image: ImageInfo)
    requires SlotHolds(image)
    ensures Holds(Slot(image), image, Shift(image))
  {
    FieldsMoved(image);
    SlotHoldsIff(image);
    RecordParts(image);
    MagicBytes();
    assert FieldPacks(image, IMAGE_FIELDS[8]);
    assert FieldPacks(image, IMAGE_FIELDS[9]) && FieldPacks(image, IMAGE_FIELDS[10]);
    hide Lookup, Code, Signed, InRange, Typed, Header, DigestOf, AddressOf, NameOf, Encode, Le32, DigestBytes,
         Address32, NameBytesAre, Slot, SlotHolds, FieldPacks;
    var s, k := Slot(image), Shift(image);
    CodeBytesSay(image, CodeBytes(image));
    NameSays(image);
    DigestSays(image);
    AddressSays(image);
    assert s[..12] == s[0..4] + s[4..12];
    TailSlice(s, k);
  }

  lemma TailSlice(s: seq<byte>, k: nat)
    requires |s| == 128 && k <= 16 && s[112 + k..] == Repeat<byte>(0xFF, 16 - k)
    ensures forall i :: 112 + k <= i < 128 ==> s[i] == 0xFF
  {
    forall i | 112 + k <= i < 128
      ensures s[i] == 0xFF
    {
      assert s[i] == s[112 + k..][i - 112 - k];
    }
  }

  lemma RunSlots(images: seq<ImageInfo>, i: nat)
    requires i < |images| && Packed(images, 0).outcome.Good?
    ensures |images| <= 31 && SlotHolds(images[i]) && |Packed(images, 0).bytes| == 4096
    ensures Packed(images, 0).bytes[128 * i..128 * i + 128] == Slot(images[i])
    ensures forall n :: 128 * |images| <= n < 4096 ==> Packed(images, 0).bytes[n] == 0xFF
  {
    hide Packed, SlotHolds, Slot, Slots;
    RunIff(images);
    SlotAt(images, i);
    Front(Slots(images), Repeat<byte>(0xFF, 4096 - |Slots(images)|), 128 * i, 128 * i + 128);
  }

  /**
   Every successful run leaves 4096 bytes: at byte 128 * i the record of image i, in numbers,
   and 0xFF behind the last one.
   */
  lemma RunIs(images: seq<ImageInfo>, i: nat)
    requires i < |images| && Packed(images, 0).outcome.Good?
    ensures var s := Packed(images, 0).bytes;
            && |s| == 4096 && |images| <= 31
            && Holds(s[128 * i..128 * i + 128], images[i], Shift(images[i]))
            && forall n :: 128 * |images| <= n < 4096 ==> s[n] == 0xFF
  {
    hide Packed, SlotHolds, Slot, Holds, Shift;
    RunSlots(images, i);
    SlotIs(images[i]);
  }

  // ----- which descriptions are packed

  /** A name of one of the tables. */
  predicate Coded(image: ImageInfo, name: string, table: (string, int) -> bool) {
    && name in image.fields && image.fields[name].Str?
    && exists code :: 0 <= code < 8 && table(image.fields[name].s, code)
  }

  /** What a description needs for its record to fit a slot. */
  predicate Describes(image: ImageInfo) {
    && Within(image, "device", -128, 128) && Within(image, "partition", -128, 128)
    && Coded(image, "type", ImageType) && Coded(image, "digest_scheme", DigestScheme)
    && Coded(image, "sign_scheme", SignScheme) && Within(image, "is_image_encrypted", -128, 128)
    && Coded(image, "medium_type", Medium) && Coded(image, "checksum_scheme", DigestScheme)
    && "name" in image.fields && image.fields["name"].Str? && |image.fields["name"].s| <= 31
    && |Encode(image.fields["name"].s)| <= |image.fields["name"].s| + 16
    && |image.digest| <= 128 && (forall i :: 0 <= i < |image.digest| / 2 ==> PairAt(image.digest, i).Good?)
    && ("relocated_addr" in image.fields ==> Within(image, "relocated_addr", 0, 0x1_0000_0000))
  }

  lemma IntegerPacks(image: ImageInfo, name: string)
    requires name != "digest"
    ensures Typed(Integer, Lookup(image, name)) && InRange(Integer, Lookup(image, name))
            <==> Within(image, name, -128, 128)
  {
  }

  lemma EnumPacks(image: ImageInfo, name: string, enums: map<string, int>, table: (string, int) -> bool)
    requires name != "digest"
    requires forall s: string, code :: s in enums && enums[s] == code <==> table(s, code)
    requires forall s :: s in enums ==> 0 <= enums[s] < 8
    ensures Typed(Enum(enums), Lookup(image, name)) && InRange(Enum(enums), Lookup(image, name))
            <==> Coded(image, name, table)
  {
    if name in image.fields && image.fields[name].Str? && image.fields[name].s in enums {
      assert table(image.fields[name].s, enums[image.fields[name].s]);
    }
  }

  lemma CodesPack(image: ImageInfo)
    ensures (forall i :: 0 <= i < 8 ==> FieldPacks(image, IMAGE_FIELDS[i])) <==>
              && Within(image, "device", -128, 128) && Within(image, "partition", -128, 128)
              && Coded(image, "type", ImageType) && Coded(image, "digest_scheme", DigestScheme)
              && Coded(image, "sign_scheme", SignScheme) && Within(image, "is_image_encrypted", -128, 128)
              && Coded(image, "medium_type", Medium) && Coded(image, "checksum_scheme", DigestScheme)
  {
    IntegerPacks(image, "device");
    IntegerPacks(image, "partition");
    IntegerPacks(image, "is_image_encrypted");
    TablesPack(image);
    EightFields(image);
    hide Lookup, InRange, Typed, Within, Coded;
  }

  lemma EightFields(image: ImageInfo)
    ensures (forall i :: 0 <= i < 8 ==> FieldPacks(image, IMAGE_FIELDS[i])) <==>
              && FieldPacks(image, Field("device", Integer)) && FieldPacks(image, Field("partition", Integer))
              && FieldPacks(image, Field("type", Enum(IMAGE_TYPE_ENUMS)))
              && FieldPacks(image, Field("digest_scheme", Enum(DIGEST_SCHEMA_ENUMS)))
              && FieldPacks(image, Field("sign_scheme", Enum(SIGN_SCHEMA_ENUMS)))
              && FieldPacks(image, Field("is_image_encrypted", Integer))
              && FieldPacks(image, Field("medium_type", Enum(MEDIA_TYPE_ENUMS)))
              && FieldPacks(image, Field("checksum_scheme", Enum(DIGEST_SCHEMA_ENUMS)))
  {
    hide FieldPacks, IMAGE_TYPE_ENUMS, DIGEST_SCHEMA_ENUMS, SIGN_SCHEMA_ENUMS, MEDIA_TYPE_ENUMS;
    assert IMAGE_FIELDS[0].name == "device" && IMAGE_FIELDS[1].name == "partition" && IMAGE_FIELDS[2].name == "type";
    assert IMAGE_FIELDS[3].name == "digest_scheme" && IMAGE_FIELDS[4].name == "sign_scheme";
    assert IMAGE_FIELDS[5].name == "is_image_encrypted" && IMAGE_FIELDS[6].name == "medium_type";
    assert IMAGE_FIELDS[7].name == "checksum_scheme";
  }

  lemma TablesPack(image: ImageInfo)
    ensures FieldPacks(image, Field("type", Enum(IMAGE_TYPE_ENUMS))) <==> Coded(image, "type", ImageType)
    ensures FieldPacks(image, Field("digest_scheme", Enum(DIGEST_SCHEMA_ENUMS)))
            <==> Coded(image, "digest_scheme", DigestScheme)
    ensures FieldPacks(image, Field("sign_scheme", Enum(SIGN_SCHEMA_ENUMS)))
            <==> Coded(image, "sign_scheme", SignScheme)
    ensures FieldPacks(image, Field("medium_type", Enum(MEDIA_TYPE_ENUMS))) <==> Coded(image, "medium_type", Medium)
    ensures FieldPacks(image, Field("checksum_scheme", Enum(DIGEST_SCHEMA_ENUMS)))
            <==> Coded(image, "checksum_scheme", DigestScheme)
  {
    hide IMAGE_TYPE_ENUMS, DIGEST_SCHEMA_ENUMS, SIGN_SCHEMA_ENUMS, MEDIA_TYPE_ENUMS, Lookup, InRange, Typed, Coded;
    hide ImageType, DigestScheme, SignScheme, Medium;
    forall s: string, code: int
      ensures s in IMAGE_TYPE_ENUMS && IMAGE_TYPE_ENUMS[s] == code <==> ImageType(s, code)
      ensures s in DIGEST_SCHEMA_ENUMS && DIGEST_SCHEMA_ENUMS[s] == code <==> DigestScheme(s, code)
      ensures s in SIGN_SCHEMA_ENUMS && SIGN_SCHEMA_ENUMS[s] == code <==> SignScheme(s, code)
      ensures s in MEDIA_TYPE_ENUMS && MEDIA_TYPE_ENUMS[s] == code <==> Medium(s, code)
    {
      ImageTypes(s, code);
      DigestSchemes(s, code);
      SignSchemes(s, code);
      Media(s, code);
    }
    forall s: string
      ensures s in IMAGE_TYPE_ENUMS ==> 0 <= IMAGE_TYPE_ENUMS[s] < 8
      ensures s in DIGEST_SCHEMA_ENUMS ==> 0 <= DIGEST_SCHEMA_ENUMS[s] < 8
      ensures s in SIGN_SCHEMA_ENUMS ==> 0 <= SIGN_SCHEMA_ENUMS[s] < 8
      ensures s in MEDIA_TYPE_ENUMS ==> 0 <= MEDIA_TYPE_ENUMS[s] < 8
    {
      CodesSmall(s);
    }
    EnumPacks(image, "type", IMAGE_TYPE_ENUMS, ImageType);
    EnumPacks(image, "digest_scheme", DIGEST_SCHEMA_ENUMS, DigestScheme);
    EnumPacks(image, "sign_scheme", SIGN_SCHEMA_ENUMS, SignScheme);
    EnumPacks(image, "medium_type", MEDIA_TYPE_ENUMS, Medium);
    EnumPacks(image, "checksum_scheme", DIGEST_SCHEMA_ENUMS, DigestScheme);
  }

  lemma LongFieldsPack(image: ImageInfo)
    ensures FieldPacks(image, Field("name", Text(32))) <==>
            "name" in image.fields && image.fields["name"].Str? && |image.fields["name"].s| <= 31
    ensures FieldPacks(image, Field("digest", Hex(64))) <==>
            |image.digest| <= 128 && forall i :: 0 <= i < |image.digest| / 2 ==> PairAt(image.digest, i).Good?
    ensures FieldPacks(image, Field("relocated_addr", Int32)) <==>
            ("relocated_addr" in image.fields ==> Within(image, "relocated_addr", 0, 0x1_0000_0000))
  {
    hide PairAt;
  }

  lemma ElevenFields(image: ImageInfo)
    ensures (forall i :: 0 <= i < |IMAGE_FIELDS| ==> FieldPacks(image, IMAGE_FIELDS[i])) <==>
              && (forall i :: 0 <= i < 8 ==> FieldPacks(image, IMAGE_FIELDS[i]))
              && FieldPacks(image, Field("name", Text(32))) && FieldPacks(image, Field("digest", Hex(64)))
              && FieldPacks(image, Field("relocated_addr", Int32))
  {
    assert IMAGE_FIELDS[8] == Field("name", Text(32)) && IMAGE_FIELDS[9] == Field("digest", Hex(64));
    assert IMAGE_FIELDS[10] == Field("relocated_addr", Int32) && |IMAGE_FIELDS| == 11;
    hide FieldPacks, IMAGE_FIELDS;
  }

  lemma NameIs(image: ImageInfo)
    ensures Lookup(image, "name").Some? <==> "name" in image.fields
    ensures "name" in image.fields && image.fields["name"].Str? ==> NameOf(image) == image.fields["name"].s
  {
  }

  /** A record fits its slot exactly when the description is of this kind. */
  lemma DescribesIff(image: ImageInfo)
    ensures SlotHolds(image) <==> Describes(image)
  {
    hide SlotHolds, FieldPacks, Within, Coded, Encode, PairAt, Lookup, NameOf, IMAGE_FIELDS;
    SlotHoldsIff(image);
    ElevenFields(image);
    CodesPack(image);
    LongFieldsPack(image);
    NameIs(image);
  }

  // ----- how a field fails

  /** A message for a value of the wrong type or a name not in its table, an exception for one out of range. */
  lemma FieldOutcomes(v: Option<Value>)
    ensures FieldData(Integer, v).Bad? <==> v.None? || v.value.Str? || v.value.Null?
    ensures FieldData(Integer, v).Raised? <==> v.Some? && v.value.Int? && !(-128 <= v.value.i < 128)
    ensures FieldData(Text(32), v).Bad? <==> v.None? || (v.value.Str? && |v.value.s| > 31)
    ensures FieldData(Text(32), v).Raised? <==> v.Some? && !v.value.Str?
    ensures FieldData(Int32, v).Bad? <==> v.Some? && (v.value.Str? || v.value.Null?)
    ensures FieldData(Int32, v).Raised? <==> v.Some? && v.value.Int? && !(0 <= v.value.i < 0x1_0000_0000)
  {
    hide Encode;
  }

  lemma EnumOutcomes(enums: map<string, int>, v: Option<Value>)
    requires forall s :: s in enums ==> 0 <= enums[s] < 8
    ensures FieldData(Enum(enums), v).Bad? <==> !(v.Some? && v.value.Str? && v.value.s in enums)
    ensures !FieldData(Enum(enums), v).Raised?
  {
  }

  /** An image without a name raises before anything is written, one without a device fails behind the magic number. */
  lemma Unwritten(image: ImageInfo, index: nat, start: nat)
    ensures "name" !in image.fields ==> ImageWritten(image, index, start) == Written([], Raised)
    ensures "name" in image.fields && "device" !in image.fields ==>
              ImageWritten(image, index, start) == Written([0x53, 0x42, 0x4D, 0x54], Bad)
  {
    MagicBytes();
    if "name" in image.fields && "device" !in image.fields {
      assert Lookup(image, "device").None? && Lookup(image, "name").Some?;
      assert FieldsWritten(image, IMAGE_FIELDS) == Written([], Bad);
      assert [0x53, 0x42, 0x4D, 0x54] + [] == [0x53, 0x42, 0x4D, 0x54];
      hide FieldsWritten, Lookup, Le32;
    }
  }

  /** A record that packs but exceeds 128 bytes is a message, with the record already written. */
  lemma Exceeds(image: ImageInfo, index: nat)
    requires "name" in image.fields && FieldsWritten(image, IMAGE_FIELDS).outcome.Good? && !SlotHolds(image)
    ensures ImageWritten(image, index, 128 * index)
            == Written([0x53, 0x42, 0x4D, 0x54] + FieldsWritten(image, IMAGE_FIELDS).bytes, Bad)
  {
    MagicBytes();
    hide FieldsWritten, Le32;
  }

  /** No images are a message, and so are 32 and more, with all slots already written. */
  lemma RunFails(images: seq<ImageInfo>)
    ensures images == [] ==> Packed(images, 0) == Written([], Bad)
    ensures |images| >= 32 && (forall i :: 0 <= i < |images| ==> SlotHolds(images[i])) ==>
              Packed(images, 0) == Written(Slots(images), Bad)
  {
    hide SlotHolds, ImagesWritten, Slots;
    ImagesInSlots(images, 0);
  }

  // ----- digits

  /** The hexadecimal digits, small or capital, and their values. */
  lemma Digits(i: nat)
    requires i < 16
    ensures HexDigit("0123456789abcdef"[i]) == Some(i) && HexDigit("0123456789ABCDEF"[i]) == Some(i)
  {
  }

  /** White space as Python's int strips it: tab to carriage return, and 28 to 32. */
  predicate Space(c: char) { 9 <= c as int <= 13 || 28 <= c as int <= 32 }

  predicate HexDigitIs(c: char, j: nat) {
    j < 16 && (c == "0123456789abcdef"[j] || c == "0123456789ABCDEF"[j])
  }

  lemma DigitIff(c: char, j: nat)
    ensures HexDigit(c) == Some(j) <==> HexDigitIs(c, j)
  {
    if HexDigitIs(c, j) {
      Digits(j);
    }
    if HexDigit(c) == Some(j) {
      assert j < 10 ==> c == "0123456789"[j];
      assert j == 10 || j == 11 || j == 12 || j == 13 || j == 14 || j == 15 || j < 10;
    }
  }

  lemma SpaceIff(c: char)
    ensures IsSpace(c) <==> Space(c)
    ensures Space(c) || c == '+' || c == '-' ==> HexDigit(c).None?
  {
  }

  /** The value of one or two characters as int reads them in base 16. */
  ghost predicate PairIs(a: char, b: char, v: nat) {
    || (exists i: nat, j: nat :: HexDigitIs(a, i) && HexDigitIs(b, j) && v == 16 * i + j)
    || (HexDigitIs(a, v) && Space(b)) || (HexDigitIs(b, v) && (Space(a) || a == '+'))
    || (a == '-' && b == '0' && v == 0)
  }

  /** Besides two digits a pair may be one digit with white space or a plus sign, or -0; everything else raises. */
  lemma PairIff(a: char, b: char, v: byte)
    ensures PackHex(a, b) == Good(v) <==> PairIs(a, b, v)
  {
    SpaceIff(a);
    SpaceIff(b);
    forall c: char, j: nat
      ensures HexDigit(c) == Some(j) <==> HexDigitIs(c, j)
    {
      DigitIff(c, j);
    }
    assert HexDigit('0') == Some(0);
    DigitsSmall(a);
    DigitsSmall(b);
    hide HexDigit, HexDigitIs, Space, IsSpace;
  }

  lemma DigitsSmall(c: char)
    ensures HexDigit(c).Some? ==> 0 <= HexDigit(c).value < 16
    ensures HexDigit(c) == Some(0) ==> c == '0'
  {
  }

  // ----- an image as the build ships it

  /** The second image of sbmeta.yaml, with what algorithm nor resolves to and a digest. */
  function Tee(digest: string): ImageInfo {
    ImageInfo(map["device" := Int(0), "partition" := Int(3), "type" := Str("tee"), "digest_scheme" := Str("none"),
        "sign_scheme" := Str("none"), "is_image_encrypted" := Int(0), "medium_type" := Str("emmc"),
        "checksum_scheme" := Str("sha256"), "name" := Str("tee.bin")], digest)
  }

  /** Its slot: the codes 0, 3, 5, 0, 0, 0, 0, 4, the name, and no address. */
  lemma TeeSlot(digest: string)
    requires SlotHolds(Tee(digest))
    ensures |Slot(Tee(digest))| == 128
    ensures Slot(Tee(digest))[..12] == [0x53, 0x42, 0x4D, 0x54, 0x00, 0x03, 0x05, 0x00, 0x00, 0x00, 0x00, 0x04]
    ensures Slot(Tee(digest))[12..19] == [0x74, 0x65, 0x65, 0x2E, 0x62, 0x69, 0x6E]
    ensures Slot(Tee(digest))[108..] == Repeat<byte>(0xFF, 20)
  {
    hide *;
    SlotIs(Tee(digest));
    TeeName(digest);
    TeeHolds(digest, Slot(Tee(digest)));
  }

  lemma TeeHolds(digest: string, s: seq<byte>)
    requires Holds(s, Tee(digest), 0) && Encode("tee.bin") == [0x74, 0x65, 0x65, 0x2E, 0x62, 0x69, 0x6E]
    ensures |s| == 128
    ensures s[..12] == [0x53, 0x42, 0x4D, 0x54, 0x00, 0x03, 0x05, 0x00, 0x00, 0x00, 0x00, 0x04]
    ensures s[12..19] == [0x74, 0x65, 0x65, 0x2E, 0x62, 0x69, 0x6E]
    ensures s[108..] == Repeat<byte>(0xFF, 20)
  {
    hide Encode, DigestBytes, Tee, NameBytesAre, Header, Address32;
    TeeCodes(digest, s[..12]);
    TeeNamed(digest, s[12..44]);
    TeeAddress(digest, s[108..112]);
    assert s[12..19] == s[12..44][..7];
    LastTwenty(s);
  }

  lemma LastTwenty(s: seq<byte>)
    requires |s| == 128 && s[108..112] == Repeat<byte>(0xFF, 4) && forall i :: 112 <= i < 128 ==> s[i] == 0xFF
    ensures s[108..] == Repeat<byte>(0xFF, 20)
  {
    forall i | 108 <= i < 128
      ensures s[i] == 0xFF
    {
      assert i < 112 ==> s[i] == s[108..112][i - 108];
    }
  }

  lemma TeeCodes(digest: string, h: seq<byte>)
    requires |h| == 12 && Header(h, Tee(digest))
    ensures h == [0x53, 0x42, 0x4D, 0x54, 0x00, 0x03, 0x05, 0x00, 0x00, 0x00, 0x00, 0x04]
  {
    TeeFields(digest);
    hide Tee;
  }

  lemma TeeFields(digest: string)
    ensures var f := Tee(digest).fields;
            && "device" in f && f["device"] == Int(0) && "partition" in f && f["partition"] == Int(3)
            && "type" in f && f["type"] == Str("tee") && "digest_scheme" in f && f["digest_scheme"] == Str("none")
            && "sign_scheme" in f && f["sign_scheme"] == Str("none")
            && "is_image_encrypted" in f && f["is_image_encrypted"] == Int(0)
            && "medium_type" in f && f["medium_type"] == Str("emmc")
            && "checksum_scheme" in f && f["checksum_scheme"] == Str("sha256")
            && "name" in f && f["name"] == Str("tee.bin") && "relocated_addr" !in f
  {
  }

  lemma TeeName(digest: string)
    ensures Encode("tee.bin") == [0x74, 0x65, 0x65, 0x2E, 0x62, 0x69, 0x6E]
    ensures NameOf(Tee(digest)) == "tee.bin" && Shift(Tee(digest)) == 0
  {
    TeeFields(digest);
    AsciiEncodes("tee.bin");
    hide Tee, Encode;
  }

  lemma TeeNamed(digest: string, s: seq<byte>)
    requires |s| == 32 && NameBytesAre(s, Tee(digest), 0)
    requires Encode("tee.bin") == [0x74, 0x65, 0x65, 0x2E, 0x62, 0x69, 0x6E]
    ensures s[..7] == [0x74, 0x65, 0x65, 0x2E, 0x62, 0x69, 0x6E]
  {
    TeeFields(digest);
    hide Tee, Encode;
  }

  lemma TeeAddress(digest: string, s: seq<byte>)
    requires |s| == 4 && Address32(s, Tee(digest))
    ensures s == Repeat<byte>(0xFF, 4)
  {
    TeeFields(digest);
    hide Tee;
  }

  /** ASCII stands for itself. */
  lemma {:induction false} AsciiEncodes(s: string)
    requires forall i :: 0 <= i < |s| ==> s[i] as int < 0x80
    ensures |Encode(s)| == |s| && forall i :: 0 <= i < |s| ==> Encode(s)[i] == s[i] as int
    decreases |s|
  {
    if s != [] {
      AsciiEncodes(s[1..]);
    }
  }
}
