// Messages read under a type that does not know their fields.
module NanopbForeign {
  import opened ByteOrder
  import opened Wrappers
  import opened NanopbWire
  import opened NanopbFields
  import opened NanopbEncoding
  import opened NanopbDecoding
  import opened NanopbRoundTrip
  import opened NanopbScanning
  import opened NanopbMerging
  import opened PowersOfTwo

  // What each wire type makes a reader skip that knows nothing else of a field.
  lemma WidthsSkipped(wireType: nat, s: seq<byte>)
    ensures wireType == 1 ==> SkipField(wireType, s) == if |s| >= 8 then Some(s[8..]) else None
    ensures wireType == 5 ==> SkipField(wireType, s) == if |s| >= 4 then Some(s[4..]) else None
    ensures wireType == 2 ==>
      SkipField(wireType, s) == (var n := DecodeVarint32(s); if n.Got? && n.value <= |n.rest| then Some(n.rest[n.value..]) else None)
    ensures wireType == 0 ==> forall n: nat, rest: seq<byte> :: s == Varint(n) + rest ==> SkipField(wireType, s) == Some(rest)
    ensures wireType != 0 && wireType != 1 && wireType != 2 && wireType != 5 ==> SkipField(wireType, s).None?
  {
    hide Varint, SkipVarint;
    if wireType == 0 {
      forall n: nat, rest: seq<byte> | s == Varint(n) + rest ensures SkipVarint(s) == Some(rest) {
        VarintSkipped(n, rest);
      }
    }
  }

  lemma {:induction false} VarintSkipped(n: nat, rest: seq<byte>)
    ensures SkipVarint(Varint(n) + rest) == Some(rest)
    decreases n
  {
    var s := Varint(n) + rest;
    if n < 128 {
      assert s[1..] == rest;
    } else {
      assert s[1..] == Varint(n / 128) + rest;
      VarintSkipped(n / 128, rest);
    }
  }

  // A field on the wire is its tag with a wire type, and a payload that a reader can skip
  // by this wire type alone.
  lemma TaggedLayout(f: Field, v: Value, rest: seq<byte>)
    requires EncodeTagged(f, v).Some? && |EncodeTagged(f, v).value| < TWO_32
    ensures
      var w := match f.ltype
               case VarintType => 0 case UVarintType => 0 case SVarintType => 0
               case Fixed64Type => 1
               case Fixed32Type => 5
               case _ => 2;
      && EncodeValue(f, v).Some? && EncodeTagged(f, v).value == Varint(f.tag * 8 + w) + EncodeValue(f, v).value
      && SkipField(w, EncodeValue(f, v).value + rest) == Some(rest)
  {
    hide Varint, SkipVarint, TakeString, LittleEndian, EncodeFields, ZigZag, Unsigned64;
    var payload := EncodeValue(f, v).value;
    match f.ltype
    case VarintType => VarintSkipped(Unsigned64(v.n), rest);
    case UVarintType => VarintSkipped(v.n, rest);
    case SVarintType => VarintSkipped(ZigZag(v.n), rest);
    case Fixed32Type => assert (payload + rest)[4..] == rest;
    case Fixed64Type => assert (payload + rest)[8..] == rest;
    case BytesType => StringTaken(v.bytes, rest);
    case StringType => StringTaken(v.bytes[..StringLength(v.bytes, f.dataSize)], rest);
    case FixedLengthBytesType => StringTaken(v.bytes, rest);
    case SubmessageType => StringTaken(EncodeFields(f.ptr.fields, v.members, 0).value, rest);
  }

  // A packed array is one field with wire type two: the bytes of its items, in order and
  // with nothing between them, behind their number.
  lemma PackedLayout(f: Field, items: seq<Value>, rest: seq<byte>)
    requires f.ltype.VarintType? || f.ltype.UVarintType? || f.ltype.SVarintType? || f.ltype.Fixed32Type? || f.ltype.Fixed64Type?
    requires items != [] && EncodeArray(f, items).Some? && |EncodeArray(f, items).value| < TWO_32
    ensures
      && EncodePacked(f, items).Some? && |items| <= f.arraySize
      && (var packed := EncodePacked(f, items).value;
          && EncodeArray(f, items).value == Varint(f.tag * 8 + 2) + (Varint(|packed|) + packed)
          && SkipField(2, Varint(|packed|) + packed + rest) == Some(rest))
  {
    hide Varint, EncodePacked, TakeString;
    var packed := EncodePacked(f, items).value;
    SmallSize(|packed|);
    StringTaken(packed, rest);
  }

  // None of these tags is known to the other type.
  ghost predicate Foreign(fields: seq<Field>, other: seq<Field>) {
    forall i :: 0 <= i < |fields| ==> 0 < fields[i].tag < MAX_TAG && FindFrom(other, fields[i].tag, 0).None?
  }

  // The bytes e in front of rest are whole fields, none of them known.
  ghost predicate SkippedFields(other: seq<Field>, e: seq<byte>, rest: seq<byte>) {
    && (EndsAtField(other, e + rest) <==> EndsAtField(other, rest))
    && Strip(other, e + rest) == Strip(other, rest)
  }

  lemma NothingSkipped(other: seq<Field>, rest: seq<byte>)
    ensures SkippedFields(other, [], rest)
  {
    hide EndsAtField, Strip;
    assert [] + rest == rest;
  }

  lemma MoreSkipped(other: seq<Field>, e: seq<byte>, d: seq<byte>, rest: seq<byte>)
    requires SkippedFields(other, e, d + rest) && SkippedFields(other, d, rest)
    ensures SkippedFields(other, e + d, rest)
  {
    hide EndsAtField, Strip;
    Regroup(e, d, rest);
  }

  lemma UnknownIsSkipped(other: seq<Field>, tag: nat, wireType: nat, payload: seq<byte>, rest: seq<byte>)
    requires IsUnknown(other, tag, wireType, payload)
    ensures SkippedFields(other, TagBytes(tag, wireType) + payload, rest)
  {
    UnknownIsNext(other, tag, wireType, payload, rest);
    hide TagBytes, NextField, StartsKnown, IsUnknown;
    assert [] + Strip(other, rest) == Strip(other, rest);
  }

  lemma TaggedIsSkipped(other: seq<Field>, f: Field, v: Value, rest: seq<byte>)
    requires 0 < f.tag < MAX_TAG && FindFrom(other, f.tag, 0).None?
    requires EncodeTagged(f, v).Some? && |EncodeTagged(f, v).value| < TWO_32
    ensures SkippedFields(other, EncodeTagged(f, v).value, rest)
  {
    hide EncodeValue, SkipField, Varint, SkippedFields;
    TaggedLayout(f, v, []);
    var payload := EncodeValue(f, v).value;
    assert payload + [] == payload;
    UnknownIsSkipped(other, f.tag, WireType(f.ltype), payload, rest);
  }

  lemma {:induction false} EachIsSkipped(other: seq<Field>, f: Field, items: seq<Value>, rest: seq<byte>)
    requires 0 < f.tag < MAX_TAG && FindFrom(other, f.tag, 0).None?
    requires EncodeEach(f, items).Some? && |EncodeEach(f, items).value| < TWO_32
    ensures SkippedFields(other, EncodeEach(f, items).value, rest)
    decreases |items|
  {
    hide EncodeTagged, SkippedFields, FindFrom;
    if items == [] {
      NothingSkipped(other, rest);
    } else {
      var tail := EncodeEach(f, items[1..]).value;
      EachIsSkipped(other, f, items[1..], rest);
      TaggedIsSkipped(other, f, items[0], tail + rest);
      MoreSkipped(other, EncodeTagged(f, items[0]).value, tail, rest);
    }
  }

  lemma ArrayIsSkipped(other: seq<Field>, f: Field, items: seq<Value>, rest: seq<byte>)
    requires 0 < f.tag < MAX_TAG && FindFrom(other, f.tag, 0).None?
    requires EncodeArray(f, items).Some? && |EncodeArray(f, items).value| < TWO_32
    ensures SkippedFields(other, EncodeArray(f, items).value, rest)
  {
    hide SkippedFields, EncodeEach, EncodePacked, Varint, TagBytes, TakeString, FindFrom, WithLength;
    if items == [] {
      NothingSkipped(other, rest);
    } else if Packable(f.ltype) {
      var packed := EncodePacked(f, items).value;
      LengthIsLonger(packed);
      StringTaken(packed, []);
      assert WithLength(packed) + [] == WithLength(packed);
      UnknownIsSkipped(other, f.tag, WT_STRING, WithLength(packed), rest);
    } else {
      EachIsSkipped(other, f, items, rest);
    }
  }

  lemma LengthIsLonger(b: seq<byte>)
    ensures |b| <= |WithLength(b)|
  {
  }

  lemma MemberIsSkipped(other: seq<Field>, fields: seq<Field>, members: seq<Member>, i: nat, rest: seq<byte>)
    requires Foreign(fields, other) && i < |fields| == |members|
    requires EncodeMember(fields, members, i).Some? && |EncodeMember(fields, members, i).value| < TWO_32
    ensures SkippedFields(other, EncodeMember(fields, members, i).value, rest)
  {
    hide SkippedFields, EncodeTagged, EncodeArray, FindFrom, IsZero;
    NothingSkipped(other, rest);
    var f, m := fields[i], members[i];
    if f.htype.Repeated? {
      ArrayIsSkipped(other, f, m.items, rest);
    } else if EncodeMember(fields, members, i) != Some([]) {
      var v := if f.htype.Oneof? then members[Home(fields, i)].value else m.value;
      assert EncodeMember(fields, members, i) == EncodeTagged(f, v);
      TaggedIsSkipped(other, f, v, rest);
    }
  }

  lemma {:induction false} FieldsAreSkipped(other: seq<Field>, fields: seq<Field>, members: seq<Member>, i: nat, rest: seq<byte>)
    requires Foreign(fields, other) && i <= |fields|
    requires EncodeFields(fields, members, i).Some? && |EncodeFields(fields, members, i).value| < TWO_32
    ensures SkippedFields(other, EncodeFields(fields, members, i).value, rest)
    decreases |fields| - i
  {
    assert |members| == |fields|;
    hide EncodeMember, SkippedFields, Foreign;
    if i == |fields| {
      NothingSkipped(other, rest);
    } else {
      var first, tail := EncodeMember(fields, members, i).value, EncodeFields(fields, members, i + 1).value;
      FieldsAreSkipped(other, fields, members, i + 1, rest);
      MemberIsSkipped(other, fields, members, i, tail + rest);
      MoreSkipped(other, first, tail, rest);
    }
  }

  // Any encoding, read under a type that has none of its tags, changes nothing and is
  // taken whole: its fields can be told apart without their descriptors.
  lemma ForeignIsSkipped(fields: seq<Field>, members: seq<Member>, other: seq<Field>, at: Progress)
    requires Foreign(fields, other) && |at.members| == |other|
    requires Encode(fields, members).Some? && |Encode(fields, members).value| < TWO_32
    ensures DecodeFields(other, at, Encode(fields, members).value) == Some(Taken(at, []))
  {
    hide EncodeFields, Foreign, EndsAtField;
    var e := Encode(fields, members).value;
    FieldsAreSkipped(other, fields, members, 0, []);
    NothingStripped(other);
    assert e + [] == e;
    StrippedDecodesAlike(other, at, e);
    hide Strip;
  }

  // In particular under a type without any fields.
  lemma EmptyTypeSkips(fields: seq<Field>, members: seq<Member>)
    requires forall i :: 0 <= i < |fields| ==> 0 < fields[i].tag < MAX_TAG
    requires Encode(fields, members).Some? && |Encode(fields, members).value| < TWO_32
    ensures Decode([], Encode(fields, members).value) == Some(Taken([], []))
  {
    hide EncodeFields;
    ForeignIsSkipped(fields, members, [], Progress([], {}));
  }
}
