// Whatever a stream says, what is decoded from it stays within the bounds of its struct.
module NanopbBounds {
  import opened ByteOrder
  import opened Wrappers
  import opened NanopbWire
  import opened NanopbFields
  import opened NanopbEncoding
  import opened NanopbDecoding
  import opened NanopbRoundTrip
  import opened PowersOfTwo

  // The value has room in its member: an integer in its bytes, bytes behind their size of
  // four, a string with its terminator.
  ghost predicate Bounded(f: Field, v: Value)
    decreases f, 0
  {
    match f.ltype
    case Fixed32Type => v.Bits? && v.bits < 0x1_0000_0000
    case Fixed64Type => v.Bits? && v.bits < 0x1_0000_0000_0000_0000
    case BytesType => v.Blob? && |v.bytes| + 4 <= f.dataSize
    case StringType => v.Blob? && |v.bytes| + 1 <= f.dataSize
    case FixedLengthBytesType => v.Blob? && |v.bytes| == f.dataSize
    case SubmessageType => v.Message? && f.ptr.Fields? && BoundedMembers(f.ptr.fields, v.members)
    case UVarintType => v.Int? && InBytes(v.n, f.dataSize, false)
    case _ => v.Int? && InBytes(v.n, f.dataSize, true)
  }

  // A number in so many bytes.
  predicate InBytes(n: int, size: nat, signed: bool) {
    (size == 1 || size == 2 || size == 4 || size == 8)
    && if signed then -(Pow2(8 * size - 1) as int) <= n < Pow2(8 * size - 1) else 0 <= n < Pow2(8 * size)
  }

  ghost predicate BoundedMember(fields: seq<Field>, m: Member, i: nat)
    requires i < |fields|
    decreases fields, 0
  {
    var f := fields[i];
    match f.htype
    case Required => m.Single? && Bounded(f, m.value)
    case Optional => if f.sizeOffset != 0 then m.Maybe? && Bounded(f, m.value) else m.Single? && Bounded(f, m.value)
    case Repeated => m.Many? && |m.items| <= f.arraySize && forall k :: 0 <= k < |m.items| ==> Bounded(f, m.items[k])
    case Oneof =>
      if Shares(fields, i) then m.Shared? else
      m.Unchosen? || (m.Chosen? && ChosenField(fields, i, m.which).Some? && Bounded(fields[ChosenField(fields, i, m.which).value], m.value))
  }

  ghost predicate BoundedMembers(fields: seq<Field>, members: seq<Member>)
    decreases fields, 1
  {
    |members| == |fields| && forall i :: 0 <= i < |fields| ==> BoundedMember(fields, members[i], i)
  }

  // The type, and those of its submessages: the defaults are within bounds.
  ghost predicate SoundType(fields: seq<Field>)
    decreases fields
  {
    && DistinctTags(fields) && BoundedMembers(fields, Defaults(fields, 0))
    && forall i :: 0 <= i < |fields| ==> SoundField(fields[i])
  }

  ghost predicate SoundField(f: Field)
    decreases f
  {
    f.ltype.SubmessageType? && f.ptr.Fields? ==> SoundType(f.ptr.fields)
  }

  // The sizes are exactly those of numbers in one, two, four and eight bytes.
  lemma FitsIsInBytes(size: nat, n: int)
    ensures SignedFits(size, n) <==> InBytes(n, size, true)
    ensures UnsignedFits(size, n) <==> InBytes(n, size, false)
  {
    ByteSizes();
    hide Pow2;
  }

  lemma ByteSizes()
    ensures Pow2(7) == 0x80 && Pow2(8) == 0x100 && Pow2(15) == 0x8000 && Pow2(16) == 0x1_0000
    ensures Pow2(31) == 0x8000_0000 && Pow2(32) == 0x1_0000_0000
    ensures Pow2(63) == 0x8000_0000_0000_0000 && Pow2(64) == 0x1_0000_0000_0000_0000
  {
    hide Pow2;
    Pow2Values();
    Pow2Of4();
    Pow2Next(7);
    Pow2Next(15);
    Pow2Next(31);
    Pow2Next(63);
    Pow2Adds(4, 4);
    Pow2Adds(8, 8);
    Pow2Adds(16, 16);
    Pow2Adds(32, 32);
  }

  // An integer is decoded exactly when the member can hold it: unsigned ones as they are,
  // zigzag ones by their place in 0, -1, 1, -2, ..., and signed ones from their low
  // thirty-two bits, or all sixty-four of a member of eight bytes.
  lemma IntDecodedExactly(f: Field, u: nat, n: int)
    requires u < TWO_64 && (f.ltype.VarintType? || f.ltype.UVarintType? || f.ltype.SVarintType?)
    ensures
      DecodeInt(f, u) == Some(Int(n)) <==>
      && InBytes(n, f.dataSize, !f.ltype.UVarintType?)
      && if f.ltype.UVarintType? then n == u
         else if f.ltype.SVarintType? then u == if n < 0 then -2 * n - 1 else 2 * n
         else if f.dataSize == 8 then (n - u) % 0x1_0000_0000_0000_0000 == 0
         else (n - u) % 0x1_0000_0000 == 0
  {
    hide InBytes;
    FitsIsInBytes(f.dataSize, n);
    if f.ltype.SVarintType? {
      UnZigZagRoundTrip(u);
      if IsInt64(n) { ZigZagRoundTrip(n); }
      ZigZagRoundTrip(UnZigZag(u));
      hide ZigZag, UnZigZag;
    }
  }

  // A scalar can be encoded exactly when its member can hold it; a string always can, up to
  // its terminator or the end of its buffer.
  lemma ScalarEncodable(f: Field, v: Value)
    requires !f.ltype.SubmessageType?
    ensures
      EncodeScalar(f, v).Some? <==>
      match f.ltype
      case Fixed32Type => v.Bits? && v.bits < 0x1_0000_0000
      case Fixed64Type => v.Bits? && v.bits < 0x1_0000_0000_0000_0000
      case BytesType => v.Blob? && |v.bytes| + 4 <= f.dataSize
      case StringType => v.Blob?
      case FixedLengthBytesType => v.Blob? && |v.bytes| == f.dataSize
      case UVarintType => v.Int? && InBytes(v.n, f.dataSize, false)
      case _ => v.Int? && InBytes(v.n, f.dataSize, true)
  {
    hide InBytes, Varint;
    if v.Int? { FitsIsInBytes(f.dataSize, v.n); }
  }

  // An array can be encoded exactly when it has no more items than it has room for and
  // each of them can be.
  lemma {:induction false} ArrayEncodable(f: Field, items: seq<Value>)
    ensures EncodeArray(f, items).Some? <==> |items| <= f.arraySize && forall k :: 0 <= k < |items| ==> EncodeValue(f, items[k]).Some?
  {
    hide EncodeValue, EncodeScalar, TagBytes, WithLength;
    if items != [] && |items| <= f.arraySize {
      if Packable(f.ltype) { PackedEncodable(f, items); } else { EachEncodable(f, items); }
    }
  }

  lemma {:induction false} PackedEncodable(f: Field, items: seq<Value>)
    requires Packable(f.ltype)
    ensures EncodePacked(f, items).Some? <==> forall k :: 0 <= k < |items| ==> EncodeValue(f, items[k]).Some?
  {
    hide EncodeScalar;
    if items != [] {
      PackedEncodable(f, items[1..]);
      assert forall k :: 1 <= k < |items| ==> items[k] == items[1..][k - 1];
      assert EncodeValue(f, items[0]) == EncodeScalar(f, items[0]);
    }
    hide EncodeValue;
  }

  lemma {:induction false} EachEncodable(f: Field, items: seq<Value>)
    ensures EncodeEach(f, items).Some? <==> forall k :: 0 <= k < |items| ==> EncodeValue(f, items[k]).Some?
    decreases |items|
  {
    hide EncodeValue, TagBytes;
    if items != [] {
      EachEncodable(f, items[1..]);
      assert forall k :: 1 <= k < |items| ==> items[k] == items[1..][k - 1];
    }
  }

  lemma ScalarBounded(f: Field, s: seq<byte>)
    requires !f.ltype.SubmessageType? && DecodeScalar(f, s).Some?
    ensures Bounded(f, DecodeScalar(f, s).value.value)
  {
    hide Pow2, InBytes, ReadVarint, UnZigZag, Signed32, Signed64;
    match f.ltype
    case Fixed32Type => FixedBelow(s[..4]);
    case Fixed64Type => FixedBelow(s[..8]);
    case VarintType => FitsIsInBytes(f.dataSize, DecodeScalar(f, s).value.value.n);
    case UVarintType => FitsIsInBytes(f.dataSize, DecodeScalar(f, s).value.value.n);
    case SVarintType => FitsIsInBytes(f.dataSize, DecodeScalar(f, s).value.value.n);
    case _ =>
  }

  lemma FixedBelow(b: seq<byte>)
    ensures |b| == 4 ==> FromLittleEndian(b) < 0x1_0000_0000
    ensures |b| == 8 ==> FromLittleEndian(b) < 0x1_0000_0000_0000_0000
  {
    FromLittleEndianRange(b);
    Power256Values();
    hide FromLittleEndian, Power256;
  }

  lemma {:induction false} ValueBounded(f: Field, prior: Value, s: seq<byte>)
    requires SoundField(f) && DecodeValue(f, prior, s).Some?
    requires f.ltype.SubmessageType? && !f.htype.Repeated? && f.ptr.Fields? ==> prior.Message? && BoundedMembers(f.ptr.fields, prior.members)
    ensures Bounded(f, DecodeValue(f, prior, s).value.value)
    decreases f, |s|, 0
  {
    hide SoundType, BoundedMembers, TakeString, DecodeMessage, Defaults, DecodeScalar, SubMembers, DefaultValue;
    if f.ltype.SubmessageType? {
      DefaultBounded(f);
      var start := if f.htype.Repeated? then Defaults(f.ptr.fields, 0) else SubMembers(f.ptr.fields, prior);
      if !f.htype.Repeated? { SubMembersAre(f.ptr.fields, prior); }
      MessageBounded(f.ptr.fields, start, TakeString(s).value.value);
    } else {
      ScalarBounded(f, s);
    }
  }

  lemma SubMembersAre(fields: seq<Field>, v: Value)
    ensures v.Message? && BoundedMembers(fields, v.members) ==> SubMembers(fields, v) == v.members
  {
    hide BoundedMember, Defaults;
  }

  lemma {:induction false} PackedBounded(f: Field, items: seq<Value>, s: seq<byte>)
    requires !f.ltype.SubmessageType? && DecodePacked(f, items, s).Some? && |items| <= f.arraySize
    requires forall k :: 0 <= k < |items| ==> Bounded(f, items[k])
    ensures
      var r := DecodePacked(f, items, s).value;
      |r| <= f.arraySize && forall k :: 0 <= k < |r| ==> Bounded(f, r[k])
    decreases |s|
  {
    hide Bounded, DecodeScalar;
    if s != [] {
      ScalarBounded(f, s);
      var v := DecodeScalar(f, s).value;
      PackedBounded(f, items + [v.value], v.rest);
    }
  }

  lemma DefaultBounded(f: Field)
    requires SoundField(f) && f.ltype.SubmessageType? && f.ptr.Fields?
    ensures DefaultValue(f) == Message(Defaults(f.ptr.fields, 0)) && BoundedMembers(f.ptr.fields, Defaults(f.ptr.fields, 0))
  {
    hide BoundedMembers, Defaults;
  }

  lemma MemberOf(fields: seq<Field>, members: seq<Member>, i: nat)
    requires BoundedMembers(fields, members) && i < |fields|
    ensures |members| == |fields| && BoundedMember(fields, members[i], i)
  {
    hide BoundedMember;
  }

  lemma PriorBounded(fields: seq<Field>, members: seq<Member>, i: nat)
    requires SoundType(fields) && BoundedMembers(fields, members) && i < |fields|
    requires fields[i].ltype.SubmessageType? && !fields[i].htype.Repeated? && fields[i].ptr.Fields?
    ensures |members| == |fields|
    ensures Prior(fields[i], members[i]).Message? && BoundedMembers(fields[i].ptr.fields, Prior(fields[i], members[i]).members)
  {
    hide BoundedMembers, SoundType, Defaults, SoundField, DefaultValue;
    SoundParts(fields, i);
    DefaultBounded(fields[i]);
    MemberOf(fields, members, i);
  }

  lemma {:induction false} HomeIsFirst(fields: seq<Field>, i: nat)
    requires i < |fields| && fields[i].htype.Oneof?
    ensures fields[Home(fields, i)].htype.Oneof? && !Shares(fields, Home(fields, i))
  {
    if Shares(fields, i) { HomeIsFirst(fields, i - 1); }
  }

  lemma OneChanged(fields: seq<Field>, members: seq<Member>, h: nat, m: Member)
    requires BoundedMembers(fields, members) && h < |fields| && BoundedMember(fields, m, h)
    ensures |members| == |fields| && BoundedMembers(fields, members[h := m])
  {
    hide BoundedMember;
  }

  // The value of one field joins its member.
  lemma ValueJoins(fields: seq<Field>, members: seq<Member>, i: nat, v: Value)
    requires DistinctTags(fields) && BoundedMembers(fields, members) && i < |fields| && !fields[i].htype.Repeated? && Bounded(fields[i], v)
    ensures
      var f := fields[i];
      var m := if f.htype.Oneof? then Chosen(f.tag, v) else if f.htype.Optional? && f.sizeOffset != 0 then Maybe(true, v) else Single(v);
      |members| == |fields| && BoundedMembers(fields, members[(if f.htype.Oneof? then Home(fields, i) else i) := m])
  {
    var f := fields[i];
    hide Bounded, Home, BoundedMembers;
    if f.htype.Oneof? {
      HomeIsFirst(fields, i);
      FindIsUnique(fields, f.tag, i);
      OneChanged(fields, members, Home(fields, i), Chosen(f.tag, v));
    } else {
      OneChanged(fields, members, i, if f.htype.Optional? && f.sizeOffset != 0 then Maybe(true, v) else Single(v));
    }
  }

  lemma SoundParts(fields: seq<Field>, i: nat)
    requires SoundType(fields) && i < |fields|
    ensures DistinctTags(fields) && SoundField(fields[i])
  {
  }

  lemma ItemsBounded(fields: seq<Field>, members: seq<Member>, i: nat)
    requires BoundedMembers(fields, members) && i < |fields| && fields[i].htype.Repeated?
    ensures |members| == |fields| && members[i].Many? && |members[i].items| <= fields[i].arraySize
    ensures forall k :: 0 <= k < |members[i].items| ==> Bounded(fields[i], members[i].items[k])
  {
    MemberOf(fields, members, i);
    hide Bounded, BoundedMembers;
  }

  lemma {:induction false} MemberBounded(fields: seq<Field>, members: seq<Member>, i: nat, wireType: nat, s: seq<byte>)
    requires SoundType(fields) && BoundedMembers(fields, members) && i < |fields| == |members|
    requires DecodeMember(fields, members, i, wireType, s).Some?
    ensures BoundedMembers(fields, DecodeMember(fields, members, i, wireType, s).value.value)
    decreases fields, |s|, 1
  {
    var f := fields[i];
    SoundParts(fields, i);
    if f.htype.Repeated? {
      ItemsBounded(fields, members, i);
      ArrayBounded(f, members[i].items, wireType, s);
      hide BoundedMembers, SoundType, SoundField, DecodeArray, Bounded;
      OneChanged(fields, members, i, Many(DecodeArray(f, members[i].items, wireType, s).value.value));
    } else {
      if f.ltype.SubmessageType? && f.ptr.Fields? { PriorBounded(fields, members, i); }
      ValueBounded(f, Prior(f, members[i]), s);
      hide BoundedMembers, SoundType, SoundField, DecodeValue, Bounded, Prior, Home;
      ValueJoins(fields, members, i, DecodeValue(f, Prior(f, members[i]), s).value.value);
    }
  }

  lemma {:induction false} ArrayBounded(f: Field, items: seq<Value>, wireType: nat, s: seq<byte>)
    requires SoundField(f) && f.htype.Repeated? && |items| <= f.arraySize && DecodeArray(f, items, wireType, s).Some?
    requires forall k :: 0 <= k < |items| ==> Bounded(f, items[k])
    ensures
      var r := DecodeArray(f, items, wireType, s).value.value;
      |r| <= f.arraySize && forall k :: 0 <= k < |r| ==> Bounded(f, r[k])
    decreases f, |s|, 1
  {
    hide TakeString;
    if wireType == WT_STRING && Packable(f.ltype) {
      PackedBounded(f, items, TakeString(s).value.value);
    } else {
      ValueBounded(f, DefaultValue(f), s);
    }
    hide SoundField, DecodeValue, Bounded, DecodePacked;
  }

  lemma {:induction false} FieldsBounded(fields: seq<Field>, at: Progress, s: seq<byte>)
    requires SoundType(fields) && BoundedMembers(fields, at.members) && |at.members| == |fields| && DecodeFields(fields, at, s).Some?
    ensures BoundedMembers(fields, DecodeFields(fields, at, s).value.value.members)
    decreases fields, |s|, 2
  {
    if s != [] && DecodeTag(s).Tag? {
      var t := DecodeTag(s);
      var i := FindFrom(fields, t.tag, 0);
      hide SoundType, BoundedMembers, DecodeTag, DecodeMember, SkipField, FindFrom;
      if i.Some? {
        MemberBounded(fields, at.members, i.value, t.wireType, t.rest);
        var r := DecodeMember(fields, at.members, i.value, t.wireType, t.rest).value;
        FieldsBounded(fields, Seen(fields, i.value, r.value, at), r.rest);
      } else {
        FieldsBounded(fields, at, SkipField(t.wireType, t.rest).value);
      }
    }
  }

  // Decoding any stream into a struct that is within its bounds leaves it within them: no
  // number is too large for its member, no string or array runs over its end, and a union
  // holds what its tag says.
  lemma {:induction false} MessageBounded(fields: seq<Field>, members: seq<Member>, s: seq<byte>)
    requires SoundType(fields) && BoundedMembers(fields, members) && |members| == |fields| && DecodeMessage(fields, members, s).Some?
    ensures BoundedMembers(fields, DecodeMessage(fields, members, s).value.value)
    decreases fields, |s|, 3
  {
    FieldsBounded(fields, Progress(members, {}), s);
    hide SoundType, BoundedMembers, DecodeFields;
  }

  lemma DecodedIsBounded(fields: seq<Field>, s: seq<byte>)
    requires SoundType(fields) && Decode(fields, s).Some?
    ensures BoundedMembers(fields, Decode(fields, s).value.value)
  {
    MessageBounded(fields, Defaults(fields, 0), s);
    hide BoundedMembers, DecodeMessage, Defaults;
  }
}
