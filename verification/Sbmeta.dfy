/**
 The builder of sbmeta.bin: one record per image in slots of 128 bytes, each field checked
 and packed in turn into a growing file, and the whole padded to 4096 bytes.
 */
module Sbmeta {
  import opened LittleEndian
  import opened Options
  import opened Sequences
  import opened Utf8

  // ----- image descriptions

  /** A YAML value. */
  datatype Value = Int(i: int) | Bool(b: bool) | Str(s: string) | Null

  /** An image: its configured fields, and the digest computed for it, in hexadecimal or empty. */
  datatype ImageInfo = ImageInfo(fields: map<string, Value>, digest: string)

  const IMAGE_TYPE_ENUMS: map<string, int> :=
    map["dtb" := 0, "kernel_image" := 1, "sbi" := 2, "aon_fw" := 3, "rootfs" := 4, "tf" := 2, "tee" := 5, "uboot" := 6,
      "customer" := 7]

  const DIGEST_SCHEMA_ENUMS: map<string, int> :=
    map["none" := 0, "sha1" := 1, "md5" := 2, "sha224" := 3, "sha256" := 4, "sha384" := 5, "sha512" := 6, "sm3" := 7]

  const SIGN_SCHEMA_ENUMS: map<string, int> :=
    map["none" := 0, "rsa_1024" := 1, "rsa_2048" := 2, "ecc_256" := 3, "ecc_160" := 4, "sm2" := 5]

  const MEDIA_TYPE_ENUMS: map<string, int> := map["emmc" := 0, "sd" := 1, "tfcard" := 2, "nandflash" := 3]

  /** How a field is checked and packed. */
  datatype Kind = Integer | Enum(enums: map<string, int>) | Text(maxSize: nat) | Hex(maxBytes: nat) | Int32

  datatype Field = Field(name: string, kind: Kind)

  const IMAGE_FIELDS: seq<Field> := [
    Field("device", Integer), Field("partition", Integer), Field("type", Enum(IMAGE_TYPE_ENUMS)),
    Field("digest_scheme", Enum(DIGEST_SCHEMA_ENUMS)), Field("sign_scheme", Enum(SIGN_SCHEMA_ENUMS)),
    Field("is_image_encrypted", Integer), Field("medium_type", Enum(MEDIA_TYPE_ENUMS)),
    Field("checksum_scheme", Enum(DIGEST_SCHEMA_ENUMS)), Field("name", Text(32)), Field("digest", Hex(64)),
    Field("relocated_addr", Int32)]

  const MAGIC: int := 0x544D_4253
  const IMAGE_PADDING_TO_SIZE: nat := 4096
  const META_PADDING_TO_SIZE: nat := 128

  // ----- packing

  /** A value, an error message (whose text is left out), or a Python exception. */
  datatype Checked<T> = Good(value: T) | Bad | Raised

  /** pack("b", v): one signed byte. */
  function PackSigned(v: int): Checked<seq<byte>> {
    if -128 <= v < 128 then Good([v % 256]) else Raised
  }

  /** pack("I", v), least significant byte first. */
  function PackWord(v: int): Checked<seq<byte>> {
    if 0 <= v < 0x1_0000_0000 then Good(Le32(v)) else Raised
  }

  function HexDigit(c: char): Option<int> {
    if '0' <= c <= '9' then Some(c as int - '0' as int)
    else if 'a' <= c <= 'f' then Some(c as int - 'a' as int + 10)
    else if 'A' <= c <= 'F' then Some(c as int - 'A' as int + 10)
    else None
  }

  predicate IsSpace(c: char) { 9 <= c as int <= 13 || 28 <= c as int <= 32 }

  /** int(s, 16) of two characters: two digits, or one with a blank or a sign. */
  function HexPair(a: char, b: char): Option<int> {
    var x, y := HexDigit(a), HexDigit(b);
    if x.Some? && y.Some? then Some(16 * x.value + y.value)
    else if x.Some? && IsSpace(b) then x
    else if y.Some? && (IsSpace(a) || a == '+') then y
    else if y.Some? && a == '-' then Some(0 - y.value)
    else None
  }

  /** pack("B", int(s, 16)). */
  function PackHex(a: char, b: char): Checked<byte> {
    var v := HexPair(a, b);
    if v.Some? && 0 <= v.value then Good(v.value) else Raised
  }

  function PairAt(s: string, i: nat): Checked<byte>
    requires 2 * i + 2 <= |s|
  {
    PackHex(s[2 * i], s[2 * i + 1])
  }

  /** The bytes of the pairs of a hexadecimal string, up to pair n. */
  function HexBytes(s: string, n: nat): (r: Checked<seq<byte>>)
    requires 2 * n <= |s|
    ensures r.Good? ==> |r.value| == n
    ensures !r.Bad?
    decreases n
  {
    if n == 0 then Good([])
    else
      var front := HexBytes(s, n - 1);
      if !front.Good? then front
      else
        var last := PairAt(s, n - 1);
        if last.Good? then Good(front.value + [last.value]) else Raised
  }

  function Lookup(image: ImageInfo, name: string): Option<Value> {
    if name == "digest" then Some(Str(image.digest))
    else if name in image.fields then Some(image.fields[name])
    else None
  }

  /** isinstance(v, int), under which booleans count as 0 and 1. */
  function AsInteger(v: Value): Option<int> {
    match v
    case Int(i) => Some(i)
    case Bool(b) => Some(if b then 1 else 0)
    case _ => None
  }

  /** One field: checked, then packed. An address left out is packed as -1. */
  function FieldData(kind: Kind, v: Option<Value>): Checked<seq<byte>> {
    if v.None? then if kind.Int32? then Good(Le32(0xFFFF_FFFF)) else Bad
    else
      match kind
      case Integer => if AsInteger(v.value).None? then Bad else PackSigned(AsInteger(v.value).value)
      case Enum(enums) => if v.value.Str? && v.value.s in enums then PackSigned(enums[v.value.s]) else Bad
      case Text(maxSize) =>
        if !v.value.Str? then Raised
        else if |v.value.s| > maxSize - 1 then Bad
        else Good(Encode(v.value.s) + Repeat<byte>(0, maxSize - |v.value.s|))
      case Hex(maxBytes) =>
        if !v.value.Str? then Bad
        else if |v.value.s| > 2 * maxBytes then Bad
        else
          var bytes := HexBytes(v.value.s, |v.value.s| / 2);
          if bytes.Good? then Good(bytes.value + Repeat<byte>(0, maxBytes - |bytes.value|)) else Raised
      case Int32 => if AsInteger(v.value).None? then Bad else PackWord(AsInteger(v.value).value)
  }

  // ----- what the packed fields say

  function Signed(b: byte): int { if b < 128 then b else b - 256 }

  /** The number a one-byte field stands for. */
  function Code(kind: Kind, v: Option<Value>): int {
    match kind
    case Integer => if v.Some? && AsInteger(v.value).Some? then AsInteger(v.value).value else 0
    case Enum(enums) => if v.Some? && v.value.Str? && v.value.s in enums then enums[v.value.s] else 0
    case _ => 0
  }

  /** The number an address field stands for: all ones when it is left out. */
  function Address(v: Option<Value>): int {
    if v.None? then 0xFFFF_FFFF else if AsInteger(v.value).Some? then AsInteger(v.value).value else 0
  }

  predicate Pairs(s: string) { forall i :: 0 <= i < |s| / 2 ==> PairAt(s, i).Good? }

  /** A value of the right type; without one a field fails with a message. */
  predicate Typed(kind: Kind, v: Option<Value>) {
    match kind
    case Integer => v.Some? && AsInteger(v.value).Some?
    case Enum(enums) => v.Some? && v.value.Str? && v.value.s in enums
    case Text(maxSize) => v.Some? && (v.value.Str? ==> |v.value.s| < maxSize)
    case Hex(maxBytes) => v.Some? && v.value.Str? && |v.value.s| <= 2 * maxBytes
    case Int32 => v.Some? ==> AsInteger(v.value).Some?
  }

  /** A value struct.pack and int accept; otherwise the field raises. */
  predicate InRange(kind: Kind, v: Option<Value>)
    requires Typed(kind, v)
  {
    match kind
    case Integer => -128 <= Code(kind, v) < 128
    case Enum(_) => -128 <= Code(kind, v) < 128
    case Text(_) => v.value.Str?
    case Hex(_) => Pairs(v.value.s)
    case Int32 => 0 <= Address(v) < 0x1_0000_0000
  }

  /** What the bytes of a field tell about its value. */
  predicate Represents(kind: Kind, v: Option<Value>, data: seq<byte>)
    requires Typed(kind, v) && InRange(kind, v)
  {
    match kind
    case Integer => |data| == 1 && Signed(data[0]) == Code(kind, v)
    case Enum(_) => |data| == 1 && Signed(data[0]) == Code(kind, v)
    case Text(maxSize) =>
      var n := |Encode(v.value.s)|;
      && |data| == maxSize + (n - |v.value.s|) && Decode(data[..n]) == Some(v.value.s)
      && forall i :: n <= i < |data| ==> data[i] == 0
    case Hex(maxBytes) =>
      var s := v.value.s;
      && |data| == maxBytes
      && (forall i :: 0 <= i < |s| / 2 ==> PairAt(s, i) == Good(data[i]))
      && forall i :: |s| / 2 <= i < |data| ==> data[i] == 0
    case Int32 => |data| == 4 && FromLe32(data) == Address(v)
  }

  lemma {:induction false} HexBytesAre(s: string, n: nat)
    requires 2 * n <= |s|
    ensures HexBytes(s, n).Good? <==> forall i :: 0 <= i < n ==> PairAt(s, i).Good?
    ensures HexBytes(s, n).Good? ==> forall i :: 0 <= i < n ==> PairAt(s, i) == Good(HexBytes(s, n).value[i])
    decreases n
  {
    if n > 0 {
      hide PairAt;
      HexBytesAre(s, n - 1);
    }
  }

  /** A field packs exactly when its value is of the right type and in range, and then its bytes represent the value. */
  lemma FieldMeaning(kind: Kind, v: Option<Value>)
    ensures FieldData(kind, v).Bad? <==> !Typed(kind, v)
    ensures FieldData(kind, v).Good? <==> Typed(kind, v) && InRange(kind, v)
    ensures FieldData(kind, v).Good? ==> Represents(kind, v, FieldData(kind, v).value)
  {
    match kind
    case Integer => hide Encode, Decode, HexBytes, Le32;
    case Enum(_) => hide Encode, Decode, HexBytes, Le32;
    case Text(n) => TextMeaning(n, v);
    case Hex(n) => HexMeaning(n, v);
    case Int32 => WordMeaning(v);
  }

  lemma TextMeaning(n: nat, v: Option<Value>)
    ensures var kind := Text(n);
            && (FieldData(kind, v).Bad? <==> !Typed(kind, v))
            && (FieldData(kind, v).Good? <==> Typed(kind, v) && InRange(kind, v))
            && (FieldData(kind, v).Good? ==> Represents(kind, v, FieldData(kind, v).value))
  {
    hide Encode, Decode;
    if v.Some? && v.value.Str? {
      DecodeIff(Encode(v.value.s), v.value.s);
      var e, zeros := Encode(v.value.s), Repeat<byte>(0, n - |v.value.s|);
      assert (e + zeros)[..|e|] == e;
    }
  }

  lemma HexMeaning(n: nat, v: Option<Value>)
    ensures var kind := Hex(n);
            && (FieldData(kind, v).Bad? <==> !Typed(kind, v))
            && (FieldData(kind, v).Good? <==> Typed(kind, v) && InRange(kind, v))
            && (FieldData(kind, v).Good? ==> Represents(kind, v, FieldData(kind, v).value))
  {
    hide PairAt, HexBytes;
    if v.Some? && v.value.Str? {
      HexBytesAre(v.value.s, |v.value.s| / 2);
    }
  }

  lemma WordMeaning(v: Option<Value>)
    ensures (FieldData(Int32, v).Bad? <==> !Typed(Int32, v))
    ensures (FieldData(Int32, v).Good? <==> Typed(Int32, v) && InRange(Int32, v))
    ensures (FieldData(Int32, v).Good? ==> Represents(Int32, v, FieldData(Int32, v).value))
  {
    hide Le32, FromLe32;
    if 0 <= Address(v) < 0x1_0000_0000 {
      Le32RoundTrip(Address(v));
    }
  }

  // ----- the file

  /** What has been written, and how it ended. */
  datatype Written = Written(bytes: seq<byte>, outcome: Checked<()>)

  /** Fields written one after the other until one fails. */
  function FieldsWritten(image: ImageInfo, fields: seq<Field>): Written
    decreases |fields|
  {
    if fields == [] then Written([], Good(()))
    else
      var data := FieldData(fields[0].kind, Lookup(image, fields[0].name));
      match data
      case Bad => Written([], Bad)
      case Raised => Written([], Raised)
      case Good(bytes) =>
        var rest := FieldsWritten(image, fields[1..]);
        Written(bytes + rest.bytes, rest.outcome)
  }

  /** A record and the padding of its slot; the slot's end counts from the start of the file. */
  function ImageWritten(image: ImageInfo, index: nat, start: nat): Written {
    if Lookup(image, "name").None? then Written([], Raised)
    else
      var fields := FieldsWritten(image, IMAGE_FIELDS);
      var record := Le32(MAGIC) + fields.bytes;
      var padding := META_PADDING_TO_SIZE * (index + 1) - (start + |record|);
      if !fields.outcome.Good? then Written(record, fields.outcome)
      else if padding < 0 then Written(record, Bad)
      else Written(record + Repeat<byte>(0xFF, padding), Good(()))
  }

  function ImagesWritten(images: seq<ImageInfo>, index: nat, start: nat): Written
    decreases |images|
  {
    if images == [] then Written([], Good(()))
    else
      var w := ImageWritten(images[0], index, start);
      if !w.outcome.Good? then w
      else
        var rest := ImagesWritten(images[1..], index + 1, start + |w.bytes|);
        Written(w.bytes + rest.bytes, rest.outcome)
  }

  /** A whole run: no images at all are an error, and so is a file that leaves no room for padding. */
  function Packed(images: seq<ImageInfo>, index: nat): Written {
    if images == [] then Written([], Bad)
    else
      var w := ImagesWritten(images, index, 0);
      if !w.outcome.Good? then w
      else if IMAGE_PADDING_TO_SIZE <= |w.bytes| then Written(w.bytes, Bad)
      else Written(w.bytes + Repeat<byte>(0xFF, IMAGE_PADDING_TO_SIZE - |w.bytes|), Good(()))
  }

  method HexstringToBytes(s: string) returns (r: Checked<seq<byte>>)
    ensures r == HexBytes(s, |s| / 2)
  {
    var bytes: seq<byte> := [];
    var n := 0;
    while n < |s| / 2
      invariant 0 <= n <= |s| / 2
      invariant HexBytes(s, n) == Good(bytes)
    {
      var b := PairAt(s, n);
      if !b.Good? {
        HexStops(s, n + 1, |s| / 2);
        return Raised;
      }
      bytes := bytes + [b.value];
      n := n + 1;
    }
    r := Good(bytes);
  }

  lemma {:induction false} HexStops(s: string, n: nat, m: nat)
    requires n <= m && 2 * m <= |s| && HexBytes(s, n).Raised?
    ensures HexBytes(s, m).Raised?
    decreases m
  {
    if n < m {
      HexStops(s, n, m - 1);
    }
  }

  class SbmetaImageGen {
    var sbmetaFile: seq<byte>
    var currentImageIndex: nat

    constructor ()
      ensures currentImageIndex == 0
    {
      sbmetaFile := [];
      currentImageIndex := 0;
    }

    /** Checks one field and packs it; the pairs of a digest are read in a loop. */
    method ProcessField(kind: Kind, v: Option<Value>) returns (r: Checked<seq<byte>>)
      ensures r == FieldData(kind, v)
      ensures r.Bad? <==> !Typed(kind, v)
      ensures r.Good? <==> Typed(kind, v) && InRange(kind, v)
      ensures r.Good? ==> Represents(kind, v, r.value)
    {
      FieldMeaning(kind, v);
      hide Typed, InRange, Represents, Le32, Encode, HexBytes;
      if v.None? {
        return if kind.Int32? then Good(Le32(0xFFFF_FFFF)) else Bad;
      }
      var value := v.value;
      match kind
      case Integer =>
        if AsInteger(value).None? {
          return Bad;
        }
        r := PackSigned(AsInteger(value).value);
      case Enum(enums) =>
        if !value.Str? || value.s !in enums {
          return Bad;
        }
        r := PackSigned(enums[value.s]);
      case Text(maxSize) =>
        if !value.Str? {
          return Raised;
        }
        if |value.s| > maxSize - 1 {
          return Bad;
        }
        r := Good(Encode(value.s) + Repeat<byte>(0, maxSize - |value.s|));
      case Hex(maxBytes) =>
        if !value.Str? || |value.s| > 2 * maxBytes {
          return Bad;
        }
        var bytes := HexstringToBytes(value.s);
        r := if bytes.Good? then Good(bytes.value + Repeat<byte>(0, maxBytes - |bytes.value|)) else Raised;
      case Int32 =>
        if AsInteger(value).None? {
          return Bad;
        }
        r := PackWord(AsInteger(value).value);
    }

    method AddImage(image: ImageInfo) returns (r: Checked<()>)
      modifies this
      ensures var w := ImageWritten(image, old(currentImageIndex), |old(sbmetaFile)|);
              && sbmetaFile == old(sbmetaFile) + w.bytes && r == w.outcome
              && currentImageIndex == old(currentImageIndex) + if r.Good? then 1 else 0
    {
      hide FieldData, Le32, Lookup;
      if Lookup(image, "name").None? {
        assert sbmetaFile + [] == sbmetaFile;
        return Raised;
      }
      ghost var start, record := sbmetaFile, Le32(MAGIC) + FieldsWritten(image, IMAGE_FIELDS).bytes;
      sbmetaFile := sbmetaFile + Le32(MAGIC);
      r := WriteFields(image);
      assert sbmetaFile == start + record && |sbmetaFile| == |start| + |record|;
      hide FieldsWritten;
      if !r.Good? {
        return;
      }
      var padding := META_PADDING_TO_SIZE * (currentImageIndex + 1) - |sbmetaFile|;
      if padding < 0 {
        return Bad;
      }
      currentImageIndex := currentImageIndex + 1;
      sbmetaFile := sbmetaFile + Repeat<byte>(0xFF, padding);
      assert sbmetaFile == start + (record + Repeat<byte>(0xFF, padding));
      r := Good(());
    }

    method WriteFields(image: ImageInfo) returns (r: Checked<()>)
      modifies this`sbmetaFile
      ensures sbmetaFile == old(sbmetaFile) + FieldsWritten(image, IMAGE_FIELDS).bytes
      ensures r == FieldsWritten(image, IMAGE_FIELDS).outcome
    {
      hide FieldData, Lookup;
      var k := 0;
      assert IMAGE_FIELDS[0..] == IMAGE_FIELDS;
      while k < |IMAGE_FIELDS|
        invariant 0 <= k <= |IMAGE_FIELDS|
        invariant sbmetaFile + FieldsWritten(image, IMAGE_FIELDS[k..]).bytes
                  == old(sbmetaFile) + FieldsWritten(image, IMAGE_FIELDS).bytes
        invariant FieldsWritten(image, IMAGE_FIELDS[k..]).outcome == FieldsWritten(image, IMAGE_FIELDS).outcome
      {
        ghost var was, rest := sbmetaFile, FieldsWritten(image, IMAGE_FIELDS[k..][1..]).bytes;
        assert IMAGE_FIELDS[k..][1..] == IMAGE_FIELDS[k + 1..];
        var data := ProcessField(IMAGE_FIELDS[k].kind, Lookup(image, IMAGE_FIELDS[k].name));
        if data.Bad? {
          assert sbmetaFile + [] == sbmetaFile;
          return Bad;
        }
        if data.Raised? {
          assert sbmetaFile + [] == sbmetaFile;
          return Raised;
        }
        sbmetaFile := sbmetaFile + data.value;
        assert was + (data.value + rest) == sbmetaFile + rest;
        k := k + 1;
      }
      assert sbmetaFile + [] == sbmetaFile;
      r := Good(());
    }

    method PaddingImage() returns (r: Checked<()>)
      modifies this`sbmetaFile
      ensures r == if IMAGE_PADDING_TO_SIZE <= |old(sbmetaFile)| then Bad else Good(())
      ensures sbmetaFile == old(sbmetaFile)
              + Repeat<byte>(0xFF, if r.Good? then IMAGE_PADDING_TO_SIZE - |old(sbmetaFile)| else 0)
    {
      var padding := IMAGE_PADDING_TO_SIZE - |sbmetaFile|;
      if padding <= 0 {
        assert sbmetaFile + Repeat<byte>(0xFF, 0) == sbmetaFile;
        return Bad;
      }
      sbmetaFile := sbmetaFile + Repeat<byte>(0xFF, padding);
      r := Good(());
    }

    method WriteImages(images: seq<ImageInfo>) returns (r: Checked<()>)
      requires sbmetaFile == []
      modifies this
      ensures sbmetaFile == ImagesWritten(images, old(currentImageIndex), 0).bytes
      ensures r == ImagesWritten(images, old(currentImageIndex), 0).outcome
    {
      hide ImageWritten, ImagesWritten;
      ghost var whole := ImagesWritten(images, currentImageIndex, 0);
      var k := 0;
      assert images[0..] == images;
      r := Good(());
      while k < |images|
        invariant 0 <= k <= |images|
        invariant sbmetaFile + ImagesWritten(images[k..], currentImageIndex, |sbmetaFile|).bytes == whole.bytes
        invariant ImagesWritten(images[k..], currentImageIndex, |sbmetaFile|).outcome == whole.outcome
      {
        ghost var was := sbmetaFile;
        ImagesStep(images[k..], currentImageIndex, |sbmetaFile|);
        assert images[k..][1..] == images[k + 1..];
        r := AddImage(images[k]);
        if !r.Good? {
          return;
        }
        k := k + 1;
        Associates(was, sbmetaFile[|was|..], ImagesWritten(images[k..], currentImageIndex, |sbmetaFile|).bytes);
      }
      ImagesEnd(currentImageIndex, |sbmetaFile|);
      assert images[k..] == [] && sbmetaFile + [] == sbmetaFile;
      r := Good(());
    }

    method PackSbmeta(images: seq<ImageInfo>) returns (r: Checked<()>)
      modifies this
      ensures sbmetaFile == Packed(images, old(currentImageIndex)).bytes
      ensures r == Packed(images, old(currentImageIndex)).outcome
    {
      hide ImagesWritten;
      sbmetaFile := [];
      if |images| == 0 {
        return Bad;
      }
      r := WriteImages(images);
      if !r.Good? {
        return;
      }
      assert sbmetaFile + Repeat<byte>(0xFF, 0) == sbmetaFile;
      r := PaddingImage();
    }
  }

  lemma Associates(a: seq<byte>, b: seq<byte>, c: seq<byte>)
    ensures a + (b + c) == a + b + c
  {
  }

  lemma ImagesEnd(index: nat, start: nat)
    ensures ImagesWritten([], index, start) == Written([], Good(()))
  {
  }

  lemma ImagesStep(images: seq<ImageInfo>, index: nat, start: nat)
    requires images != []
    ensures var w := ImageWritten(images[0], index, start);
            var rest := ImagesWritten(images[1..], index + 1, start + |w.bytes|);
            ImagesWritten(images, index, start) ==
            if w.outcome.Good? then Written(w.bytes + rest.bytes, rest.outcome) else w
  {
  }

  // ----- what a run leaves in the file

  /** What a record needs to be written at all: every field checks and packs, and the slot holds it. */
  predicate SlotHolds(image: ImageInfo) {
    && Lookup(image, "name").Some?
    && FieldsWritten(image, IMAGE_FIELDS).outcome.Good?
    && 4 + |FieldsWritten(image, IMAGE_FIELDS).bytes| <= META_PADDING_TO_SIZE
  }

  /** A record in its slot. */
  function Slot(image: ImageInfo): (s: seq<byte>)
    requires SlotHolds(image)
    ensures |s| == META_PADDING_TO_SIZE
  {
    var record := Le32(MAGIC) + FieldsWritten(image, IMAGE_FIELDS).bytes;
    record + Repeat<byte>(0xFF, META_PADDING_TO_SIZE - |record|)
  }

  function Slots(images: seq<ImageInfo>): (s: seq<byte>)
    requires forall i :: 0 <= i < |images| ==> SlotHolds(images[i])
    ensures |s| == META_PADDING_TO_SIZE * |images|
    decreases |images|
  {
    if images == [] then [] else Slot(images[0]) + Slots(images[1..])
  }

  lemma ImageInSlot(image: ImageInfo, index: nat)
    ensures ImageWritten(image, index, META_PADDING_TO_SIZE * index).outcome.Good? <==> SlotHolds(image)
    ensures SlotHolds(image) ==> ImageWritten(image, index, META_PADDING_TO_SIZE * index).bytes == Slot(image)
  {
    hide Lookup, FieldsWritten, Le32;
  }

  /** Every record starts where the slot before it ends. */
  lemma {:induction false} ImagesInSlots(images: seq<ImageInfo>, index: nat)
    ensures ImagesWritten(images, index, META_PADDING_TO_SIZE * index).outcome.Good?
            <==> forall i :: 0 <= i < |images| ==> SlotHolds(images[i])
    ensures (forall i :: 0 <= i < |images| ==> SlotHolds(images[i])) ==>
              ImagesWritten(images, index, META_PADDING_TO_SIZE * index).bytes == Slots(images)
    decreases |images|
  {
    if images != [] {
      hide ImageWritten, SlotHolds, Slot;
      ImageInSlot(images[0], index);
      ImagesInSlots(images[1..], index + 1);
      if SlotHolds(images[0]) {
        assert |Slot(images[0])| == META_PADDING_TO_SIZE;
      }
    }
  }

  /**
   A run succeeds exactly for 1 to 31 images whose records fit their slots, and then leaves
   4096 bytes: the slots in order, and 0xFF after them. In particular 32 images always fail.
   */
  lemma RunIff(images: seq<ImageInfo>)
    ensures Packed(images, 0).outcome.Good?
            <==> 1 <= |images| <= 31 && forall i :: 0 <= i < |images| ==> SlotHolds(images[i])
    ensures Packed(images, 0).outcome.Good? ==>
              && Packed(images, 0).bytes == Slots(images) + Repeat<byte>(0xFF, IMAGE_PADDING_TO_SIZE - |Slots(images)|)
              && |Packed(images, 0).bytes| == IMAGE_PADDING_TO_SIZE
  {
    ImagesInSlots(images, 0);
    hide ImagesWritten, SlotHolds, Slots;
    var w := ImagesWritten(images, 0, 0);
    if images != [] && w.outcome.Good? {
      assert |w.bytes| == META_PADDING_TO_SIZE * |images|;
    }
  }

  /** Slot i starts at byte 128 * i. */
  lemma {:induction false} SlotAt(images: seq<ImageInfo>, i: nat)
    requires i < |images| && forall k :: 0 <= k < |images| ==> SlotHolds(images[k])
    ensures Slots(images)[META_PADDING_TO_SIZE * i..META_PADDING_TO_SIZE * (i + 1)] == Slot(images[i])
    decreases |images|
  {
    hide SlotHolds, Slot;
    var first, rest := Slot(images[0]), Slots(images[1..]);
    if i == 0 {
      assert (first + rest)[0..META_PADDING_TO_SIZE] == first;
    } else {
      SlotAt(images[1..], i - 1);
      var at := META_PADDING_TO_SIZE * (i - 1);
      assert (first + rest)[META_PADDING_TO_SIZE + at..META_PADDING_TO_SIZE + at + META_PADDING_TO_SIZE]
             == rest[at..at + META_PADDING_TO_SIZE];
    }
  }
}
