/**
 Attribute lists through pack_attrs and unpack_attrs: what each record decodes to, when a
 list comes back, and the exact condition under which every list of a shape does.
 */
module AttrRoundTrip {
  import opened AttrCodec
  import opened LittleEndian
  import opened Options

  // ----- what the written buffer holds

  lemma SpliceOutside(s: seq<byte>, at: nat, t: seq<byte>, i: nat, j: nat)
    requires at + |t| <= |s| && i <= j <= |s| && (j <= at || at + |t| <= i)
    ensures Splice(s, at, t)[i..j] == s[i..j]
  {
    var r := Splice(s, at, t);
    assert forall p :: i <= p < j ==> r[p] == s[p];
  }

  lemma SpliceInside(s: seq<byte>, at: nat, t: seq<byte>)
    requires at + |t| <= |s|
    ensures Splice(s, at, t)[at..at + |t|] == t
  {
  }

  /** In the count and record table, storing attribute k stores its record and nothing else. */
  lemma StoredInTable(s: seq<byte>, attrs: seq<Attr>, k: nat, i: nat, j: nat)
    requires Listed(attrs) && StaysInside(attrs) && k < |attrs| && |s| == Offset(attrs, |attrs|)
    requires i <= j <= TableEnd(attrs)
    ensures TableEnd(attrs) <= |s|
    ensures Stored(s, attrs, k)[i..j] == Splice(s, 4 + 12 * k, Record(attrs, k))[i..j]
  {
    hide Splice, Record, StaysInside;
    OffsetMonotonic(attrs, 0, |attrs|);
    if HasBytes(attrs[k]) {
      CopyInside(attrs, k);
      SpliceOutside(Splice(s, 4 + 12 * k, Record(attrs, k)), Offset(attrs, k), attrs[k].buffer.value, i, j);
    }
  }

  /** So the count and the other records stay, and record k is in its place. */
  lemma StoredTable(s: seq<byte>, attrs: seq<Attr>, k: nat, i: nat)
    requires Listed(attrs) && StaysInside(attrs) && k < |attrs| && i < |attrs| && |s| == Offset(attrs, |attrs|)
    ensures TableEnd(attrs) <= |s|
    ensures Stored(s, attrs, k)[0..4] == s[0..4]
    ensures Stored(s, attrs, k)[4 + 12 * i..16 + 12 * i]
            == if i == k then Record(attrs, k) else s[4 + 12 * i..16 + 12 * i]
  {
    hide Splice, Record, StaysInside, Stored, Listed, Offset;
    StoredInTable(s, attrs, k, 0, 4);
    StoredInTable(s, attrs, k, 4 + 12 * i, 16 + 12 * i);
    RecordPlaced(s, Record(attrs, k), k, i);
  }

  lemma RecordPlaced(s: seq<byte>, t: seq<byte>, k: nat, i: nat)
    requires |t| == 12 && 16 + 12 * k <= |s| && 16 + 12 * i <= |s|
    ensures Splice(s, 4 + 12 * k, t)[0..4] == s[0..4]
    ensures Splice(s, 4 + 12 * k, t)[4 + 12 * i..16 + 12 * i] == if i == k then t else s[4 + 12 * i..16 + 12 * i]
  {
    hide Splice;
    SpliceOutside(s, 4 + 12 * k, t, 0, 4);
    if i == k {
      SpliceInside(s, 4 + 12 * k, t);
    } else {
      SpliceOutside(s, 4 + 12 * k, t, 4 + 12 * i, 16 + 12 * i);
    }
  }

  lemma {:induction false} FilledTable(attrs: seq<Attr>, n: nat, i: nat)
    requires Listed(attrs) && StaysInside(attrs) && n <= |attrs| && i < |attrs|
    ensures TableEnd(attrs) <= |Filled(attrs, n)|
    ensures Filled(attrs, n)[0..4] == Le32(|attrs|)
    ensures i < n ==> Filled(attrs, n)[4 + 12 * i..16 + 12 * i] == Record(attrs, i)
    decreases n
  {
    hide Splice, Record, StaysInside, Stored, Le32, Padding;
    OffsetMonotonic(attrs, 0, |attrs|);
    if n == 0 {
      SpliceInside(Padding(Offset(attrs, |attrs|)), 0, Le32(|attrs|));
    } else {
      FilledTable(attrs, n - 1, i);
      StoredTable(Filled(attrs, n - 1), attrs, n - 1, i);
    }
  }

  lemma SliceSlice(s: seq<byte>, a: nat, b: nat, i: nat, j: nat)
    requires a <= b <= |s| && i <= j <= b - a
    ensures s[a..b][i..j] == s[a + i..a + j]
  {
    var x, y := s[a..b][i..j], s[a + i..a + j];
    assert |x| == |y|;
    forall k | 0 <= k < |x|
      ensures x[k] == y[k]
    {
    }
  }

  lemma RecordNumbers(s: seq<byte>, at: nat, id: u32, a: u32, b: u32)
    requires at + 12 <= |s| && s[at..at + 12] == Le32(id) + Le32(a) + Le32(b)
    ensures Number(s, at) == id && Number(s, at + 4) == a && Number(s, at + 8) == b
  {
    hide Le32, FromLe32;
    var r := s[at..at + 12];
    SliceSlice(s, at, at + 12, 0, 4);
    SliceSlice(s, at, at + 12, 4, 8);
    SliceSlice(s, at, at + 12, 8, 12);
    assert r[0..4] == Le32(id) && r[4..8] == Le32(a) && r[8..12] == Le32(b);
    Le32RoundTrip(id);
    Le32RoundTrip(a);
    Le32RoundTrip(b);
  }

  lemma WrittenCount(attrs: seq<Attr>)
    requires Listed(attrs) && StaysInside(attrs) && attrs != []
    ensures |Written(attrs)| == Offset(attrs, |attrs|) >= TableEnd(attrs)
    ensures TableFits(Written(attrs)) && Number(Written(attrs), 0) == |attrs|
  {
    hide Filled, Le32, FromLe32, StaysInside;
    FilledTable(attrs, |attrs|, 0);
    Le32RoundTrip(|attrs|);
  }

  /** What a written record decodes to: the pointer is the offset as 32 bits can hold it. */
  lemma WrittenDecodes(attrs: seq<Attr>, k: nat)
    requires Listed(attrs) && StaysInside(attrs) && k < |attrs|
    ensures TableFits(Written(attrs)) && Number(Written(attrs), 0) == |attrs|
    ensures Decoded(Written(attrs), k) ==
            match attrs[k]
            case Value(id, a, b) => UValue(id, a, b)
            case Ref(id, buffer, length) =>
              var o := Offset(attrs, k) % U32;
              URef(id, if buffer.None? || o == 0 then None else Some(o), length)
  {
    hide Filled, Le32, FromLe32, IsValue, StaysInside;
    WrittenCount(attrs);
    FilledTable(attrs, |attrs|, k);
    var s, at := Written(attrs), 4 + 12 * k;
    match attrs[k] {
      case Value(id, a, b) =>
        RecordNumbers(s, at, id, a, b);
      case Ref(id, buffer, length) =>
        RecordNumbers(s, at, id, if buffer.Some? then Offset(attrs, k) % U32 else 0, length);
    }
  }

  /** Every offset fits 32 bits exactly when every decoded pointer is the offset. */
  lemma PointersExactIff(attrs: seq<Attr>)
    requires Listed(attrs) && StaysInside(attrs) && attrs != []
    ensures TableFits(Written(attrs)) && Number(Written(attrs), 0) == |attrs|
    ensures OffsetsFit(attrs) <==>
            forall k :: 0 <= k < |attrs| && HasBytes(attrs[k]) ==>
              Decoded(Written(attrs), k) == URef(attrs[k].id, Some(Offset(attrs, k)), attrs[k].length)
  {
    hide Decoded, Number, Written, RoundUp, StaysInside;
    WrittenCount(attrs);
    forall k | 0 <= k < |attrs| && HasBytes(attrs[k])
      ensures Offset(attrs, k) < U32 <==>
              Decoded(Written(attrs), k) == URef(attrs[k].id, Some(Offset(attrs, k)), attrs[k].length)
    {
      WrittenDecodes(attrs, k);
    }
  }

  // ----- what comes back

  /** Reading an unpacked attribute back through its pointer. */
  function Resolve(s: seq<byte>, u: Unpacked): Attr
    requires InBounds(u, |s|)
  {
    match u
    case UValue(id, a, b) => Value(id, a, b)
    case URef(id, pointer, length) =>
      Ref(id, if pointer.None? then None else Some(s[pointer.value..pointer.value + length]), length)
  }

  function ResolveAll(s: seq<byte>): (r: seq<Attr>)
    requires Acceptable(s)
  {
    var us := DecodedList(s);
    seq(|us|, n requires 0 <= n < |us| => Resolve(s, us[n]))
  }

  /** What comes back for attribute k: itself, except that a reference has what stands at its offset modulo 2^32. */
  function Returned(attrs: seq<Attr>, k: nat): Attr
    requires Listed(attrs) && StaysInside(attrs) && k < |attrs|
  {
    if HasBytes(attrs[k]) then
      var o, len := Offset(attrs, k) % U32, attrs[k].length;
      ReturnedInside(attrs, k);
      Ref(attrs[k].id, if o == 0 then None else Some(Written(attrs)[o..o + len]), len)
    else attrs[k]
  }

  lemma ReturnedInside(attrs: seq<Attr>, k: nat)
    requires Listed(attrs) && StaysInside(attrs) && k < |attrs| && HasBytes(attrs[k])
    ensures Offset(attrs, k) % U32 + attrs[k].length <= |Written(attrs)|
  {
    assert Offset(attrs, k) % U32 <= Offset(attrs, k);
    hide Offset, Filled;
  }

  /** Whatever pack_attrs writes without leaving its buffer is accepted, and this comes back. */
  lemma WrittenReturns(attrs: seq<Attr>)
    requires Listed(attrs) && StaysInside(attrs)
    ensures Acceptable(Written(attrs)) && |ResolveAll(Written(attrs))| == |attrs|
    ensures forall k :: 0 <= k < |attrs| ==> ResolveAll(Written(attrs))[k] == Returned(attrs, k)
  {
    hide Decoded, Number, RoundUp, TableFits, Filled, StaysInside;
    var s := Written(attrs);
    if attrs != [] {
      WrittenCount(attrs);
      forall k | 0 <= k < |attrs|
        ensures InBounds(Decoded(s, k), |s|) && Resolve(s, Decoded(s, k)) == Returned(attrs, k)
      {
        WrittenDecodes(attrs, k);
        if HasBytes(attrs[k]) {
          ReturnedInside(attrs, k);
        }
      }
    }
  }

  /** A list comes back exactly when every attribute does. */
  lemma ReturnsIff(attrs: seq<Attr>)
    requires Listed(attrs) && StaysInside(attrs)
    ensures Acceptable(Written(attrs))
    ensures ResolveAll(Written(attrs)) == attrs <==> forall k :: 0 <= k < |attrs| ==> Returned(attrs, k) == attrs[k]
  {
    hide Written, Acceptable, ResolveAll, StaysInside, Returned;
    WrittenReturns(attrs);
    if forall k :: 0 <= k < |attrs| ==> Returned(attrs, k) == attrs[k] {
      assert ResolveAll(Written(attrs)) == attrs;
    }
  }

  /** What is written is accepted, and gives the list back. */
  predicate Returns(attrs: seq<Attr>) {
    && Listed(attrs) && StaysInside(attrs)
    && Acceptable(Written(attrs)) && ResolveAll(Written(attrs)) == attrs
  }

  lemma ReturnsEach(attrs: seq<Attr>)
    requires Listed(attrs) && StaysInside(attrs)
    ensures Returns(attrs) <==> forall k :: 0 <= k < |attrs| ==> Returned(attrs, k) == attrs[k]
  {
    hide Written, Acceptable, ResolveAll, StaysInside, Returned;
    ReturnsIff(attrs);
  }

  // ----- the packed form

  lemma SliceOfFront(p: seq<byte>, q: seq<byte>, i: nat, j: nat)
    requires i <= j <= |p|
    ensures (p + q)[i..j] == p[i..j]
  {
  }

  lemma SliceOfBack(p: seq<byte>, q: seq<byte>, len: nat)
    requires len <= |q|
    ensures (p + q)[|p|..|p| + len] == q[..len]
  {
  }

  lemma RegionStart(attr: Attr)
    requires WellFormed(attr) && HasBytes(attr) && !Wraps(attr)
    ensures attr.length <= |Region(attr)| && Region(attr)[..attr.length] == attr.buffer.value
  {
    RoundUpExact(attr.length);
  }

  lemma {:induction false} RegionsAt(attrs: seq<Attr>, n: nat, k: nat)
    requires Packable(attrs) && k < n <= |attrs| && HasBytes(attrs[k])
    ensures var o := Offset(attrs, k) - TableEnd(attrs);
            && o + attrs[k].length <= |Regions(attrs, n)|
            && Regions(attrs, n)[o..o + attrs[k].length] == attrs[k].buffer.value
    decreases n
  {
    hide Region, Room, TableEnd;
    var o, len := Offset(attrs, k) - TableEnd(attrs), attrs[k].length;
    var front, last := Regions(attrs, n - 1), Region(attrs[n - 1]);
    if k < n - 1 {
      RegionsAt(attrs, n - 1, k);
      SliceOfFront(front, last, o, o + len);
    } else {
      RegionStart(attrs[k]);
      SliceOfBack(front, last, len);
    }
  }

  /** Behind count and records the packed form has the regions. */
  lemma PackedParts(attrs: seq<Attr>)
    requires Packable(attrs) && attrs != []
    ensures var s, t := Packed(attrs), TableEnd(attrs);
            |s| >= t && s[..t] == Le32(|attrs|) + Records(attrs, |attrs|) && s[t..] == Regions(attrs, |attrs|)
  {
    hide Le32;
  }

  lemma PackedRegion(attrs: seq<Attr>, k: nat)
    requires Packable(attrs) && k < |attrs| && HasBytes(attrs[k])
    ensures var o := Offset(attrs, k);
            o + attrs[k].length <= |Packed(attrs)| && Packed(attrs)[o..o + attrs[k].length] == attrs[k].buffer.value
  {
    hide Packed, Regions, Records, RoundUp;
    PackedParts(attrs);
    RegionsAt(attrs, |attrs|, k);
    var s, t, o := Packed(attrs), TableEnd(attrs), Offset(attrs, k);
    SliceSlice(s, t, |s|, o - t, o - t + attrs[k].length);
  }

  // ----- the round trip

  /** What the 32-bit offsets have to say: where bytes start, and of an empty reference only that it is not null. */
  predicate OffsetsSuffice(attrs: seq<Attr>) {
    forall k :: 0 <= k < |attrs| && HasBytes(attrs[k]) ==>
      if attrs[k].length == 0 then Offset(attrs, k) % U32 != 0 else Offset(attrs, k) < U32
  }

  /** So a list whose pointers are all right comes back. */
  lemma FitSuffice(attrs: seq<Attr>)
    requires OffsetsFit(attrs)
    ensures OffsetsSuffice(attrs)
  {
    forall k | 0 <= k < |attrs| && HasBytes(attrs[k])
      ensures 0 < Offset(attrs, k) < U32
    {
    }
    hide Offset;
  }

  lemma ReturnedSame(attrs: seq<Attr>, k: nat)
    requires Packable(attrs) && StaysInside(attrs) && OffsetsSuffice(attrs) && k < |attrs|
    ensures Returned(attrs, k) == attrs[k]
  {
    hide Written, Packed, Offset, RoundUp;
    if HasBytes(attrs[k]) {
      ReturnedInside(attrs, k);
      if attrs[k].length == 0 {
        var o := Offset(attrs, k) % U32;
        assert Written(attrs)[o..o + 0] == [] == attrs[k].buffer.value;
      } else {
        OffsetPositive(attrs, k);
        WrittenIsPacked(attrs);
        PackedRegion(attrs, k);
      }
    }
  }

  lemma OffsetPositive(attrs: seq<Attr>, k: nat)
    requires k <= |attrs|
    ensures Offset(attrs, k) > 0
  {
  }

  /** Unpacking a packed list succeeds and gives back the list: ids, value pairs, and references with their bytes. */
  lemma RoundTrip(attrs: seq<Attr>)
    requires Packable(attrs) && OffsetsSuffice(attrs)
    ensures Returns(attrs)
  {
    assert Listed(attrs);
    hide StaysInside, OffsetsSuffice, Packable, Returned, Written, Acceptable, ResolveAll;
    PackableStays(attrs);
    ReturnsIff(attrs);
    forall k | 0 <= k < |attrs|
      ensures Returned(attrs, k) == attrs[k]
    {
      ReturnedSame(attrs, k);
    }
  }

  /** Different lists have different packed forms. */
  lemma PackedInjective(a: seq<Attr>, b: seq<Attr>)
    requires Packable(a) && OffsetsSuffice(a) && Packable(b) && OffsetsSuffice(b)
    requires Packed(a) == Packed(b)
    ensures a == b
  {
    hide Packed, Written, ResolveAll, Acceptable, Packable, OffsetsSuffice, StaysInside;
    RoundTrip(a);
    RoundTrip(b);
    WrittenIsPacked(a);
    WrittenIsPacked(b);
  }

  // ----- when every list of a shape comes back

  /** The same but for the bytes referred to. */
  predicate SameShape(a: seq<Attr>, b: seq<Attr>) {
    |a| == |b| && forall k :: 0 <= k < |a| ==> SameFrame(a[k], b[k])
  }

  predicate SameFrame(x: Attr, y: Attr) {
    match x
    case Value(_, _, _) => x == y
    case Ref(id, buffer, length) =>
      && y.Ref? && y.id == id && y.length == length && (y.buffer.Some? <==> buffer.Some?)
      && (y.buffer.Some? ==> |y.buffer.value| == length)
  }

  lemma {:induction false} ShapeOffset(a: seq<Attr>, b: seq<Attr>, k: nat)
    requires SameShape(a, b) && k <= |a|
    ensures Offset(a, k) == Offset(b, k)
    decreases k
  {
    hide RoundUp;
    if k > 0 {
      ShapeOffset(a, b, k - 1);
      assert SameFrame(a[k - 1], b[k - 1]);
    }
  }

  /** Everything but the contents depends on the shape alone. */
  lemma ShapeDecides(a: seq<Attr>, b: seq<Attr>)
    requires SameShape(a, b) && Listed(a)
    ensures Listed(b) && (Packable(a) <==> Packable(b))
    ensures StaysInside(a) ==> StaysInside(b)
    ensures OffsetsSuffice(a) ==> OffsetsSuffice(b)
  {
    hide Offset;
    forall k: nat | k <= |a|
      ensures Offset(a, k) == Offset(b, k)
    {
      ShapeOffset(a, b, k);
    }
    assert forall k :: 0 <= k < |a| ==> SameFrame(a[k], b[k]);
    assert forall k :: 0 <= k < |a| ==> WellFormed(b[k]) && (Wraps(a[k]) <==> Wraps(b[k]));
    assert forall k :: 0 <= k < |a| ==> (HasBytes(a[k]) <==> HasBytes(b[k]));
    assert forall k :: 0 <= k < |a| && HasBytes(a[k]) ==> a[k].length == b[k].length;
  }

  /** Attribute k with its first byte changed. */
  function Changed(attrs: seq<Attr>, k: nat, x: byte): (r: seq<Attr>)
    requires k < |attrs| && Filling(attrs[k]) && |attrs[k].buffer.value| == attrs[k].length
    ensures |r| == |attrs|
  {
    attrs[k := attrs[k].(buffer := Some(attrs[k].buffer.value[0 := x]))]
  }

  lemma ChangedShape(attrs: seq<Attr>, k: nat, x: byte)
    requires Listed(attrs) && k < |attrs| && Filling(attrs[k])
    ensures |attrs[k].buffer.value| == attrs[k].length
    ensures SameShape(attrs, Changed(attrs, k, x))
    ensures Filling(Changed(attrs, k, x)[k]) && Changed(attrs, k, x)[k].buffer.value[0] == x
  {
    forall i | 0 <= i < |attrs|
      ensures SameFrame(attrs[i], Changed(attrs, k, x)[i])
    {
      assert WellFormed(attrs[i]);
    }
  }

  /** The first byte of a reference that comes back stands at its offset modulo 2^32. */
  lemma FirstByteReturned(attrs: seq<Attr>, k: nat)
    requires Listed(attrs) && StaysInside(attrs) && k < |attrs| && Filling(attrs[k])
    requires Returned(attrs, k) == attrs[k]
    ensures var o := Offset(attrs, k) % U32;
            && o != 0 && o < |Written(attrs)|
            && attrs[k].buffer.value != [] && Written(attrs)[o] == attrs[k].buffer.value[0]
  {
    hide Written, Offset, StaysInside;
    assert WellFormed(attrs[k]);
    ReturnedInside(attrs, k);
    var o, len := Offset(attrs, k) % U32, attrs[k].length;
    assert Written(attrs)[o..o + len][0] == Written(attrs)[o];
  }

  /** Every list of the shape comes back. */
  ghost predicate AllReturn(attrs: seq<Attr>)
    requires Listed(attrs) && StaysInside(attrs)
  {
    forall other :: SameShape(attrs, other) ==> Returns(other)
  }

  lemma ItselfShape(attrs: seq<Attr>)
    requires Listed(attrs)
    ensures SameShape(attrs, attrs)
  {
    forall k | 0 <= k < |attrs|
      ensures SameFrame(attrs[k], attrs[k])
    {
      assert WellFormed(attrs[k]);
    }
  }

  lemma ShapeTransitive(a: seq<Attr>, b: seq<Attr>, c: seq<Attr>)
    requires SameShape(a, b) && SameShape(b, c)
    ensures SameShape(a, c)
  {
    forall k | 0 <= k < |a|
      ensures SameFrame(a[k], c[k])
    {
      assert SameFrame(a[k], b[k]) && SameFrame(b[k], c[k]);
    }
  }

  /** An overwritten reference: with different bytes at the place two start from, one of them does not come back. */
  lemma OverwrittenFails(attrs: seq<Attr>, j: nat, k: nat)
    requires Listed(attrs) && StaysInside(attrs) && j < k < |attrs|
    requires Filling(attrs[j]) && Filling(attrs[k]) && Offset(attrs, j) == Offset(attrs, k)
    ensures !AllReturn(attrs)
  {
    ChangedShape(attrs, j, 0);
    var once := Changed(attrs, j, 0);
    ShapeDecides(attrs, once);
    assert Filling(once[k]) && once[j].buffer.value[0] == 0;
    ChangedShape(once, k, 1);
    var twice := Changed(once, k, 1);
    assert twice[j] == once[j];
    hide Written, Offset, Changed, SameShape, Returned, StaysInside, Listed, Returns;
    ShapeTransitive(attrs, once, twice);
    ShapeDecides(attrs, twice);
    ShapeOffset(attrs, twice, j);
    ShapeOffset(attrs, twice, k);
    if AllReturn(attrs) {
      assert Returns(twice);
      ReturnsEach(twice);
      FirstByteReturned(twice, j);
      FirstByteReturned(twice, k);
    }
  }

  lemma RecordSame(a: seq<Attr>, b: seq<Attr>, k: nat)
    requires SameShape(a, b) && k < |a|
    ensures Record(a, k) == Record(b, k)
  {
    hide Offset, Le32;
    ShapeOffset(a, b, k);
    assert SameFrame(a[k], b[k]);
  }

  lemma {:induction false} RecordsSame(a: seq<Attr>, b: seq<Attr>, n: nat)
    requires SameShape(a, b) && n <= |a|
    ensures Records(a, n) == Records(b, n)
    decreases n
  {
    hide Record;
    if n > 0 {
      RecordsSame(a, b, n - 1);
      RecordSame(a, b, n - 1);
    }
  }

  lemma {:induction false} RegionsSame(a: seq<Attr>, b: seq<Attr>, n: nat)
    requires Packable(a) && Packable(b) && |a| == |b| && n <= |a| && forall i :: 0 <= i < n ==> a[i] == b[i]
    ensures Regions(a, n) == Regions(b, n)
    decreases n
  {
    hide Region, Packable;
    if n > 0 {
      RegionsSame(a, b, n - 1);
    }
  }

  lemma {:induction false} RegionsFront(attrs: seq<Attr>, n: nat, k: nat)
    requires Packable(attrs) && k <= n <= |attrs|
    ensures |Regions(attrs, k)| <= |Regions(attrs, n)| && Regions(attrs, n)[..|Regions(attrs, k)|] == Regions(attrs, k)
    decreases n
  {
    hide Region, Packable;
    if k < n {
      RegionsFront(attrs, n - 1, k);
    }
  }

  /** What stands before region k does not depend on the bytes of attribute k. */
  lemma FrontSame(a: seq<Attr>, b: seq<Attr>, k: nat, o: nat)
    requires Packable(a) && Packable(b) && SameShape(a, b) && k < |a| && o < Offset(a, k)
    requires forall i :: 0 <= i < k ==> a[i] == b[i]
    ensures o < |Packed(a)| && o < |Packed(b)| && Packed(a)[o] == Packed(b)[o]
  {
    assert |a| == |b|;
    hide Packable, Packed, Records, Regions, SameShape, Le32, Offset;
    ShapeOffset(a, b, k);
    RecordsSame(a, b, |a|);
    RegionsSame(a, b, k);
    PackedFront(a, k);
    PackedFront(b, k);
    assert Packed(a)[..Offset(a, k)][o] == Packed(b)[..Offset(b, k)][o];
  }

  lemma PackedFront(attrs: seq<Attr>, k: nat)
    requires Packable(attrs) && k <= |attrs| && attrs != []
    ensures Offset(attrs, k) <= |Packed(attrs)|
    ensures Packed(attrs)[..Offset(attrs, k)] == Le32(|attrs|) + Records(attrs, |attrs|) + Regions(attrs, k)
  {
    assert Listed(attrs);
    hide Packable, Records, Regions, Le32, Offset;
    RegionsFront(attrs, |attrs|, k);
    FrontThrough(Le32(|attrs|) + Records(attrs, |attrs|), Regions(attrs, |attrs|), |Regions(attrs, k)|);
  }

  lemma FrontThrough(p: seq<byte>, q: seq<byte>, n: nat)
    requires n <= |q|
    ensures (p + q)[..|p| + n] == p + q[..n]
  {
  }

  /** A reference with bytes from 2^32 on: what stands at the wrapped offset is not its own. */
  lemma OutOfReachFails(attrs: seq<Attr>, k: nat)
    requires Packable(attrs) && StaysInside(attrs) && k < |attrs| && Filling(attrs[k]) && Offset(attrs, k) >= U32
    ensures !AllReturn(attrs)
  {
    var o := Offset(attrs, k) % U32;
    assert o < Offset(attrs, k);
    WrittenIsPacked(attrs);
    ReturnedInside(attrs, k);
    assert o < |Written(attrs)|;
    var x: byte := if Written(attrs)[o] == 0 then 1 else 0;
    var other := Changed(attrs, k, x);
    ChangedShape(attrs, k, x);
    ShapeDecides(attrs, other);
    hide Written, Packed, Offset, SameShape, Returned, StaysInside, Packable, RoundUp, Returns;
    ShapeOffset(attrs, other, k);
    WrittenIsPacked(other);
    FrontSame(attrs, other, k, o);
    if AllReturn(attrs) {
      assert Returns(other);
      ReturnsEach(other);
      FirstByteReturned(other, k);
    }
  }

  lemma NullFails(attrs: seq<Attr>, k: nat)
    requires Listed(attrs) && StaysInside(attrs) && k < |attrs| && HasBytes(attrs[k]) && Offset(attrs, k) % U32 == 0
    ensures !AllReturn(attrs)
  {
    hide Written, Offset, StaysInside, Returns;
    ItselfShape(attrs);
    ReturnsEach(attrs);
    assert Returned(attrs, k) != attrs[k];
  }

  /**
   The round trip over all lists C lets pack_attrs write: every list of a shape comes back if
   and only if no length wraps, references with bytes start below 2^32, and empty ones do not
   start at a multiple of it.
   */
  lemma RoundTripIff(attrs: seq<Attr>)
    requires Listed(attrs) && StaysInside(attrs)
    ensures AllReturn(attrs) <==> Packable(attrs) && OffsetsSuffice(attrs)
  {
    if Packable(attrs) && OffsetsSuffice(attrs) {
      hide Offset, RoundUp, Packable, OffsetsSuffice, StaysInside, Returned, SameShape, Listed, Returns;
      forall other | SameShape(attrs, other)
        ensures Returns(other)
      {
        ShapeReturns(attrs, other);
      }
    } else if !Packable(attrs) {
      var j: nat :| j < |attrs| && Wraps(attrs[j]);
      var k := WrappedMeets(attrs, j);
      OverwrittenFails(attrs, j, k);
    } else {
      hide Offset, RoundUp;
      var k: nat :| k < |attrs| && HasBytes(attrs[k])
                    && !if attrs[k].length == 0 then Offset(attrs, k) % U32 != 0 else Offset(attrs, k) < U32;
      if attrs[k].length == 0 {
        NullFails(attrs, k);
      } else {
        OutOfReachFails(attrs, k);
      }
    }
  }

  lemma ShapeReturns(attrs: seq<Attr>, other: seq<Attr>)
    requires Packable(attrs) && StaysInside(attrs) && OffsetsSuffice(attrs) && SameShape(attrs, other)
    ensures Returns(other)
  {
    ShapeDecides(attrs, other);
    hide Offset, RoundUp, OffsetsSuffice, StaysInside, Returned, SameShape, Returns;
    ReturnsEach(other);
    forall k | 0 <= k < |other|
      ensures Returned(other, k) == other[k]
    {
      ReturnedSame(other, k);
    }
  }

  // ----- a wrapped offset

  /** A reference of 2^32 - 4 bytes, and one byte behind it. */
  function FarByte(): seq<Attr> {
    [Ref(0, Some(Padding(0xFFFF_FFFC)), 0xFFFF_FFFC), Ref(0, Some([2]), 1)]
  }

  /** The offset of the second reference wraps to 24, where its record has its length: a 1 comes back for the 2. */
  lemma FarByteChanges()
    ensures var attrs := FarByte();
            && Packable(attrs) && StaysInside(attrs) && Offset(attrs, 1) == 0x1_0000_0018
            && Returned(attrs, 1) == Ref(0, Some([1]), 1)
  {
    hide Padding, Filled;
    var attrs := FarByte();
    assert RoundUp(0xFFFF_FFFC) == 0xFFFF_FFFC;
    assert Offset(attrs, 0) == 28 && Offset(attrs, 1) == 28 + 0xFFFF_FFFC;
    PackableStays(attrs);
    FilledTable(attrs, 2, 1);
    var s := Filled(attrs, 2);
    assert Record(attrs, 1) == Le32(0) + Le32(24) + Le32(1);
    assert s[16..28][8] == s[24];
    assert Record(attrs, 1)[8] == Le32(1)[0] == 1;
    assert s[24..25] == [1];
  }

  /** The same with nothing behind it: a wrapped offset does no harm. */
  function FarNothing(): seq<Attr> {
    [Ref(0, Some(Padding(0xFFFF_FFFC)), 0xFFFF_FFFC), Ref(0, Some([]), 0)]
  }

  lemma FarNothingReturns()
    ensures var attrs := FarNothing(); Packable(attrs) && !OffsetsFit(attrs) && Returns(attrs)
  {
    hide Padding;
    var attrs := FarNothing();
    assert RoundUp(0xFFFF_FFFC) == 0xFFFF_FFFC;
    assert Offset(attrs, 0) == 28 && Offset(attrs, 1) == 28 + 0xFFFF_FFFC;
    assert Packable(attrs) && OffsetsSuffice(attrs);
    hide FarNothing, Returns;
    RoundTrip(attrs);
  }
}
