// Decoding what was encoded.
module NanopbRoundTrip {
  import opened ByteOrder
  import opened Wrappers
  import opened NanopbWire
  import opened NanopbFields
  import opened NanopbEncoding
  import opened NanopbDecoding
  import opened PowersOfTwo

  // A tag with its wire type takes thirty-two bits.
  const MAX_TAG: nat := 0x2000_0000

  ghost predicate WellFormed(fields: seq<Field>)
    decreases fields
  {
    && DistinctTags(fields)
    && forall i :: 0 <= i < |fields| ==> 0 < fields[i].tag < MAX_TAG && FieldOk(fields[i])
  }

  // A submessage has its fields; a field without presence is not a submessage, and zero
  // by default.
  ghost predicate FieldOk(f: Field)
    decreases f
  {
    && (f.ltype.SubmessageType? ==> f.ptr.Fields? && WellFormed(f.ptr.fields))
    && (f.htype.Optional? && f.sizeOffset == 0 ==> !f.ltype.SubmessageType? && !f.ptr.Default?)
  }

  // The values a member of this field can hold within its bounds. A string has its
  // terminator inside the buffer.
  ghost predicate ValueFits(f: Field, v: Value)
    decreases f, 0
  {
    match f.ltype
    case Fixed32Type => v.Bits? && v.bits < TWO_32
    case Fixed64Type => v.Bits? && v.bits < TWO_64
    case BytesType => v.Blob? && |v.bytes| + BYTES_OFFSET <= f.dataSize
    case StringType => v.Blob? && |v.bytes| < f.dataSize && forall i :: 0 <= i < |v.bytes| ==> v.bytes[i] != 0
    case FixedLengthBytesType => v.Blob? && |v.bytes| == f.dataSize
    case SubmessageType => v.Message? && f.ptr.Fields? && Fits(f.ptr.fields, v.members)
    case UVarintType => v.Int? && UnsignedFits(f.dataSize, v.n)
    case _ => v.Int? && SignedFits(f.dataSize, v.n)
  }

  // The field of a union that is set.
  function ChosenField(fields: seq<Field>, h: nat, which: nat): (r: Option<nat>)
    requires h < |fields|
    ensures r.Some? ==> r.value < |fields| && fields[r.value].tag == which && fields[r.value].htype.Oneof? && Home(fields, r.value) == h
  {
    var j := FindFrom(fields, which, 0);
    if j.Some? && fields[j.value].htype.Oneof? && Home(fields, j.value) == h then j else None
  }

  ghost predicate MemberFits(fields: seq<Field>, m: Member, i: nat)
    requires i < |fields|
    decreases fields, 0
  {
    var f := fields[i];
    match f.htype
    case Required => m.Single? && ValueFits(f, m.value)
    case Optional => if f.sizeOffset != 0 then m.Maybe? && (m.has ==> ValueFits(f, m.value)) else m.Single? && ValueFits(f, m.value)
    case Repeated => m.Many? && |m.items| <= f.arraySize && forall k :: 0 <= k < |m.items| ==> ValueFits(f, m.items[k])
    case Oneof =>
      if Shares(fields, i) then m.Shared? else
      m.Unchosen? || (m.Chosen? && ChosenField(fields, i, m.which).Some? && ValueFits(fields[ChosenField(fields, i, m.which).value], m.value))
  }

  ghost predicate Fits(fields: seq<Field>, members: seq<Member>)
    decreases fields, 1
  {
    |members| == |fields| && forall i :: 0 <= i < |fields| ==> MemberFits(fields, members[i], i)
  }

  // A value as it comes back: an optional field that is not set holds its default.
  function Settled(fields: seq<Field>, members: seq<Member>): (r: seq<Member>)
    requires |members| == |fields|
    ensures |r| == |fields|
    decreases fields, 2, 0
  {
    SettledFrom(fields, members, 0)
  }

  function SettledFrom(fields: seq<Field>, members: seq<Member>, i: nat): (r: seq<Member>)
    requires i <= |members| == |fields|
    ensures |r| == |fields| - i
    ensures forall k :: 0 <= k < |r| ==> r[k] == SettledMember(fields, members[i + k], i + k)
    decreases fields, 1, |fields| - i
  {
    if i == |fields| then [] else [SettledMember(fields, members[i], i)] + SettledFrom(fields, members, i + 1)
  }

  function SettledMember(fields: seq<Field>, m: Member, i: nat): Member
    requires i < |fields|
    decreases fields, 0, 0
  {
    match m
    case Single(v) => Single(SettledValue(fields[i], v))
    case Maybe(has, v) => if has then Maybe(true, SettledValue(fields[i], v)) else DefaultMember(fields, i)
    case Many(items) => Many(SettledItems(fields[i], items))
    case Chosen(which, v) =>
      var j := ChosenField(fields, i, which);
      if j.Some? then Chosen(which, SettledValue(fields[j.value], v)) else Unchosen
    case _ => m
  }

  function SettledItems(f: Field, items: seq<Value>): (r: seq<Value>)
    ensures |r| == |items|
    decreases f, 1, |items|
  {
    if items == [] then [] else [SettledValue(f, items[0])] + SettledItems(f, items[1..])
  }

  function SettledValue(f: Field, v: Value): Value
    decreases f, 0, 0
  {
    if v.Message? && f.ptr.Fields? && |v.members| == |f.ptr.fields| then Message(Settled(f.ptr.fields, v.members)) else v
  }

  // Scalars.
  lemma NoTerminator(b: seq<byte>, max: nat)
    requires |b| < max && forall i :: 0 <= i < |b| ==> b[i] != 0
    ensures StringLength(b, max) == |b|
  {
  }

  lemma LengthRead(b: seq<byte>, rest: seq<byte>)
    requires |b| < TWO_32
    ensures DecodeVarint32(WithLength(b) + rest) == Got(|b|, b + rest)
  {
    hide Varint, DecodeVarint32;
    SmallSize(|b|);
    Varint32RoundTrip(|b|, b + rest);
    assert Varint(|b|) + b + rest == Varint(|b|) + (b + rest);
  }

  lemma TakeExactly(b: seq<byte>, rest: seq<byte>)
    ensures Take(b + rest, |b|) == Some(Taken(b, rest))
  {
    assert (b + rest)[..|b|] == b && (b + rest)[|b|..] == rest;
  }

  lemma SmallSize(n: nat)
    requires n < TWO_32
    ensures n % TWO_64 == n
  {
  }

  lemma BlobDecodes(f: Field, b: seq<byte>, rest: seq<byte>)
    requires |b| < TWO_32 && BlobFits(f, |b|) && (f.ltype.FixedLengthBytesType? ==> |b| == f.dataSize)
    ensures DecodeBlob(f, WithLength(b) + rest) == Some(Taken(Blob(b), rest))
  {
    hide WithLength, Varint, DecodeVarint32, BlobFits, Take;
    LengthRead(b, rest);
    TakeExactly(b, rest);
    if |b| == 0 {
      assert Zeros(0) == b && b + rest == rest;
    }
  }

  lemma IntDecodes(f: Field, v: Value)
    requires v.Int? && (f.ltype.VarintType? || f.ltype.UVarintType? || f.ltype.SVarintType?) && ValueFits(f, v)
    ensures
      var u := if f.ltype.VarintType? then Unsigned64(v.n) else if f.ltype.UVarintType? then v.n else ZigZag(v.n);
      0 <= u < TWO_64 && DecodeInt(f, u) == Some(v)
  {
    if f.ltype.SVarintType? {
      ZigZagRoundTrip(v.n);
      hide ZigZag, UnZigZag;
    } else if f.ltype.VarintType? {
      SignedBack(v.n);
      hide Signed32, Signed64, Unsigned64, ZigZag, UnZigZag;
    }
  }

  lemma SignedBack(n: int)
    requires IsInt64(n)
    ensures Signed64(Unsigned64(n)) == n
    ensures -0x8000_0000 <= n < 0x8000_0000 ==> Signed32(Unsigned64(n)) == n
  {
  }

  lemma FixedDecodes(bits: nat, width: nat, rest: seq<byte>)
    requires bits < Power256(width)
    ensures
      var s := LittleEndian(bits, width) + rest;
      |s| >= width && FromLittleEndian(s[..width]) == bits && s[width..] == rest
  {
    LittleEndianRoundTrip(bits, width);
    assert (LittleEndian(bits, width) + rest)[..width] == LittleEndian(bits, width);
  }

  lemma Power256Values()
    ensures Power256(4) == TWO_32 && Power256(8) == TWO_64
  {
    assert Power256(2) == 0x1_0000 && Power256(3) == 0x100_0000 && Power256(4) == TWO_32;
    assert Power256(6) == 0x1_0000_0000_0000 && Power256(7) == 0x100_0000_0000_0000;
  }

  lemma ScalarDecodes(f: Field, v: Value, rest: seq<byte>)
    requires !f.ltype.SubmessageType? && ValueFits(f, v)
    ensures EncodeScalar(f, v).Some?
    ensures |EncodeScalar(f, v).value| < TWO_32 ==> DecodeScalar(f, EncodeScalar(f, v).value + rest) == Some(Taken(v, rest))
    ensures EncodeScalar(f, v).value != []
  {
    match f.ltype
    case Fixed32Type =>
      hide LittleEndian, FromLittleEndian, Power256;
      Power256Values();
      FixedDecodes(v.bits, 4, rest);
    case Fixed64Type =>
      hide LittleEndian, FromLittleEndian, Power256;
      Power256Values();
      FixedDecodes(v.bits, 8, rest);
    case BytesType => BlobScalarDecodes(f, v, rest);
    case StringType => BlobScalarDecodes(f, v, rest);
    case FixedLengthBytesType => BlobScalarDecodes(f, v, rest);
    case VarintType => IntScalarDecodes(f, v, rest);
    case UVarintType => IntScalarDecodes(f, v, rest);
    case SVarintType => IntScalarDecodes(f, v, rest);
  }

  lemma IntScalarDecodes(f: Field, v: Value, rest: seq<byte>)
    requires (f.ltype.VarintType? || f.ltype.UVarintType? || f.ltype.SVarintType?) && ValueFits(f, v)
    ensures EncodeScalar(f, v).Some? && EncodeScalar(f, v).value != []
    ensures DecodeScalar(f, EncodeScalar(f, v).value + rest) == Some(Taken(v, rest))
  {
    IntDecodes(f, v);
    hide DecodeInt, ZigZag, Unsigned64, Varint, DecodeVarint;
    VarintRoundTrip(if f.ltype.VarintType? then Unsigned64(v.n) else if f.ltype.UVarintType? then v.n else ZigZag(v.n), rest);
  }

  lemma BlobScalarDecodes(f: Field, v: Value, rest: seq<byte>)
    requires (f.ltype.BytesType? || f.ltype.StringType? || f.ltype.FixedLengthBytesType?) && ValueFits(f, v)
    ensures EncodeScalar(f, v) == Some(WithLength(v.bytes))
    ensures |WithLength(v.bytes)| < TWO_32 ==> DecodeScalar(f, WithLength(v.bytes) + rest) == Some(Taken(v, rest))
  {
    if f.ltype.StringType? {
      NoTerminator(v.bytes, f.dataSize);
      assert v.bytes[..|v.bytes|] == v.bytes;
    }
    hide Varint, DecodeBlob;
    if |WithLength(v.bytes)| < TWO_32 {
      BlobDecodes(f, v.bytes, rest);
    }
  }

  // The packed items of an array come back in order.
  lemma {:induction false} PackedDecodes(f: Field, before: seq<Value>, items: seq<Value>)
    requires Packable(f.ltype) && |before| + |items| <= f.arraySize
    requires forall k :: 0 <= k < |items| ==> ValueFits(f, items[k])
    ensures EncodePacked(f, items).Some?
    ensures |EncodePacked(f, items).value| < TWO_32 ==> DecodePacked(f, before, EncodePacked(f, items).value) == Some(before + items)
    decreases |items|
  {
    hide ValueFits, EncodeScalar, DecodeScalar, Packable;
    if items == [] {
      assert before + items == before;
    } else {
      PackedDecodes(f, before + [items[0]], items[1..]);
      var rest := EncodePacked(f, items[1..]).value;
      ScalarDecodes(f, items[0], rest) by { assert Packable(f.ltype); NotSubmessage(f); }
      assert before + [items[0]] + items[1..] == before + items;
    }
  }

  lemma NotSubmessage(f: Field)
    requires Packable(f.ltype)
    ensures !f.ltype.SubmessageType?
  {
  }

  // A tag is read back.
  lemma TagDecodes(tag: nat, wireType: nat, rest: seq<byte>)
    requires 0 < tag < MAX_TAG && wireType < 8
    ensures DecodeTag(TagBytes(tag, wireType) + rest) == Tag(tag, wireType, rest)
    ensures TagBytes(tag, wireType) + rest != []
  {
    hide Varint, DecodeVarint32;
    Varint32RoundTrip(tag * 8 + wireType, rest);
  }

  lemma StringTaken(b: seq<byte>, rest: seq<byte>)
    requires |b| < TWO_32
    ensures TakeString(WithLength(b) + rest) == Some(Taken(b, rest))
  {
    hide WithLength, Varint, DecodeVarint32, Take;
    LengthRead(b, rest);
    TakeExactly(b, rest);
  }

  // How far the members have got when the fields before number i have been decoded into
  // a struct set to defaults.
  function PartialMember(fields: seq<Field>, members: seq<Member>, i: nat, h: nat): Member
    requires h < |fields| == |members|
  {
    if members[h].Chosen? then
      var j := ChosenField(fields, h, members[h].which);
      if j.Some? && j.value < i then SettledMember(fields, members[h], h) else Unchosen
    else if h < i then SettledMember(fields, members[h], h) else DefaultMember(fields, h)
  }

  function Partial(fields: seq<Field>, members: seq<Member>, i: nat): (r: seq<Member>)
    requires |fields| == |members|
    ensures |r| == |fields|
    ensures forall h :: 0 <= h < |r| ==> r[h] == PartialMember(fields, members, i, h)
  {
    seq(|fields|, h requires 0 <= h < |fields| => PartialMember(fields, members, i, h))
  }

  function SeenBefore(fields: seq<Field>, i: nat): (r: set<nat>)
    requires i <= |fields|
    ensures forall k: nat :: k in r <==> k < i && fields[k].htype.Required?
  {
    set k: nat | k < i && fields[k].htype.Required?
  }

  function ProgressAt(fields: seq<Field>, members: seq<Member>, i: nat): Progress
    requires i <= |fields| == |members|
  {
    Progress(Partial(fields, members, i), SeenBefore(fields, i))
  }

  // A field on the wire: its tag, and what its member makes of the rest.
  lemma {:induction false} FieldStep(fields: seq<Field>, at: Progress, i: nat, wireType: nat, payload: seq<byte>, rest: seq<byte>, members: seq<Member>)
    requires DistinctTags(fields) && i < |fields| == |at.members| && 0 < fields[i].tag < MAX_TAG && wireType < 8
    requires DecodeMember(fields, at.members, i, wireType, payload + rest) == Some(Taken(members, rest))
    ensures DecodeFields(fields, at, TagBytes(fields[i].tag, wireType) + payload + rest) == DecodeFields(fields, Seen(fields, i, members, at), rest)
  {
    hide TagBytes, DecodeTag, DecodeMember, DistinctTags;
    var tagged := TagBytes(fields[i].tag, wireType);
    assert tagged + payload + rest == tagged + (payload + rest);
    TagDecodes(fields[i].tag, wireType, payload + rest);
    FindIsUnique(fields, fields[i].tag, i);
  }

  // One value of a field comes back whatever follows it. A submessage that is not an
  // array item is decoded over its defaults.
  lemma {:induction false} ValueDecodes(f: Field, v: Value, prior: Value, rest: seq<byte>)
    requires FieldOk(f) && ValueFits(f, v)
    requires f.ltype.SubmessageType? && !f.htype.Repeated? ==> prior == DefaultValue(f)
    ensures EncodeValue(f, v).Some? && EncodeValue(f, v).value != []
    ensures |EncodeValue(f, v).value| < TWO_32 ==>
      DecodeValue(f, prior, EncodeValue(f, v).value + rest) == Some(Taken(SettledValue(f, v), rest))
    decreases f, 0
  {
    if f.ltype.SubmessageType? {
      MessageDecodes(f.ptr.fields, v.members);
      hide WellFormed, Fits, Settled, DecodeMessage, EncodeFields, Varint, Defaults, TakeString;
      var r := EncodeFields(f.ptr.fields, v.members, 0).value;
      if |WithLength(r)| < TWO_32 {
        StringTaken(r, rest);
      }
    } else {
      ScalarDecodes(f, v, rest);
      hide EncodeScalar, DecodeScalar;
    }
  }

  lemma {:induction false} MessageDecodes(fields: seq<Field>, members: seq<Member>)
    requires WellFormed(fields) && Fits(fields, members)
    ensures Encode(fields, members).Some?
    ensures |Encode(fields, members).value| < TWO_32 ==>
      DecodeMessage(fields, Defaults(fields, 0), Encode(fields, members).value) == Some(Taken(Settled(fields, members), []))
    decreases fields, 2
  {
    FieldsDecode(fields, members, 0);
    if |Encode(fields, members).value| < TWO_32 {
      NothingYet(fields, members);
      AllSettled(fields, members);
    }
  }

  lemma NothingYet(fields: seq<Field>, members: seq<Member>)
    requires Fits(fields, members)
    ensures ProgressAt(fields, members, 0) == Progress(Defaults(fields, 0), {})
  {
    forall h | 0 <= h < |fields| ensures PartialMember(fields, members, 0, h) == Defaults(fields, 0)[h] {
      DefaultsAt(fields, 0, h);
      assert MemberFits(fields, members[h], h);
    }
  }

  lemma {:induction false} DefaultsAt(fields: seq<Field>, i: nat, k: nat)
    requires i <= k < |fields|
    ensures Defaults(fields, i)[k - i] == DefaultMember(fields, k)
    decreases k - i
  {
    if i < k { DefaultsAt(fields, i + 1, k); }
  }

  lemma AllSettled(fields: seq<Field>, members: seq<Member>)
    requires Fits(fields, members)
    ensures Partial(fields, members, |fields|) == Settled(fields, members)
    ensures AllSeen(fields, SeenBefore(fields, |fields|))
  {
    hide SettledMember;
    forall h | 0 <= h < |fields| ensures PartialMember(fields, members, |fields|, h) == Settled(fields, members)[h] {
      assert MemberFits(fields, members[h], h);
    }
  }

  // Decoding the fields from number i on.
  lemma {:induction false} FieldsDecode(fields: seq<Field>, members: seq<Member>, i: nat)
    requires WellFormed(fields) && Fits(fields, members) && i <= |fields|
    ensures EncodeFields(fields, members, i).Some?
    ensures |EncodeFields(fields, members, i).value| < TWO_32 ==>
      DecodeFields(fields, ProgressAt(fields, members, i), EncodeFields(fields, members, i).value)
      == Some(Taken(ProgressAt(fields, members, |fields|), []))
    decreases fields, 1, |fields| - i
  {
    assert |members| == |fields|;
    hide EncodeMember, DecodeFields, ProgressAt, WellFormed, Fits;
    if i < |fields| {
      FieldsDecode(fields, members, i + 1);
      MemberDecodes(fields, members, i, EncodeFields(fields, members, i + 1).value);
    } else {
      NothingLeft(fields, members);
    }
  }

  lemma NothingLeft(fields: seq<Field>, members: seq<Member>)
    requires Fits(fields, members)
    ensures DecodeFields(fields, ProgressAt(fields, members, |fields|), []) == Some(Taken(ProgressAt(fields, members, |fields|), []))
  {
  }

  // Decoding what was written for field i moves on from field i to the next.
  lemma {:induction false} MemberDecodes(fields: seq<Field>, members: seq<Member>, i: nat, rest: seq<byte>)
    requires WellFormed(fields) && Fits(fields, members) && i < |fields|
    ensures EncodeMember(fields, members, i).Some?
    ensures |EncodeMember(fields, members, i).value| < TWO_32 ==>
      DecodeFields(fields, ProgressAt(fields, members, i), EncodeMember(fields, members, i).value + rest)
      == DecodeFields(fields, ProgressAt(fields, members, i + 1), rest)
    decreases fields, 0, 1
  {
    var f, m := fields[i], members[i];
    assert MemberFits(fields, m, i);
    hide WellFormed, Fits, MemberFits, FieldOk, ProgressAt, DecodeFields;
    match f.htype
    case Required => SetDecodes(fields, members, i, m.value, rest);
    case Optional =>
      if (f.sizeOffset != 0 && m.has) || (f.sizeOffset == 0 && !IsZero(f, m.value)) {
        SetDecodes(fields, members, i, m.value, rest);
      } else {
        UnsetStays(fields, members, i);
        assert [] + rest == rest;
      }
    case Repeated =>
      ArrayDecodes(fields, members, i, rest);
    case Oneof =>
      var h := members[Home(fields, i)];
      if h.Chosen? && h.which == f.tag {
        ChosenDecodes(fields, members, i, rest);
      } else {
        UnsetStays(fields, members, i);
        assert [] + rest == rest;
      }
  }

  // The members that field i has no part in.
  lemma {:induction false} OthersStay(fields: seq<Field>, members: seq<Member>, i: nat, h: nat)
    requires WellFormed(fields) && Fits(fields, members) && i < |fields| && h < |fields|
    requires members[h].Chosen? ==> members[h].which != fields[i].tag
    requires !members[h].Chosen? ==> h != i
    ensures PartialMember(fields, members, i, h) == PartialMember(fields, members, i + 1, h)
  {
    hide WellFormed, Fits, SettledMember, DefaultMember;
  }

  ghost predicate ChosenByHome(fields: seq<Field>, members: seq<Member>, i: nat)
    requires i < |fields| == |members|
  {
    fields[i].htype.Oneof? && members[Home(fields, i)].Chosen? && members[Home(fields, i)].which == fields[i].tag
  }

  lemma {:induction false} ChosenHome(fields: seq<Field>, members: seq<Member>, i: nat, h: nat)
    requires WellFormed(fields) && Fits(fields, members) && i < |fields| && h < |fields|
    requires members[h].Chosen? && members[h].which == fields[i].tag
    ensures fields[i].htype.Oneof? && Home(fields, i) == h && ChosenField(fields, h, members[h].which) == Some(i)
    ensures ValueFits(fields[i], members[h].value)
  {
    assert MemberFits(fields, members[h], h);
    FindIsUnique(fields, fields[i].tag, i);
    hide Fits, WellFormed, ValueFits, FieldOk;
  }

  lemma MemberFitsAt(fields: seq<Field>, members: seq<Member>, i: nat)
    requires WellFormed(fields) && Fits(fields, members) && i < |fields|
    ensures |members| == |fields| && MemberFits(fields, members[i], i) && FieldOk(fields[i])
    ensures DistinctTags(fields) && 0 < fields[i].tag < MAX_TAG
  {
  }

  lemma {:induction false} ZeroIsDefault(f: Field, v: Value)
    requires f.htype.Optional? && f.sizeOffset == 0 && FieldOk(f) && ValueFits(f, v) && IsZero(f, v)
    ensures v == DefaultValue(f) == SettledValue(f, v)
  {
    if f.ltype.StringType? {
      NoTerminator(v.bytes, f.dataSize);
    } else if f.ltype.FixedLengthBytesType? {
      assert v.bytes == Zeros(0);
    }
  }

  // A field of which nothing is written is at its default.
  lemma {:induction false} UnsetStays(fields: seq<Field>, members: seq<Member>, i: nat)
    requires WellFormed(fields) && Fits(fields, members) && i < |fields|
    requires EncodeMember(fields, members, i) == Some([])
    requires (fields[i].htype.Optional? && members[i].Maybe? && !members[i].has)
             || (fields[i].htype.Optional? && members[i].Single? && IsZero(fields[i], members[i].value))
             || (fields[i].htype.Repeated? && members[i] == Many([]))
             || (fields[i].htype.Oneof? && !ChosenByHome(fields, members, i))
    ensures ProgressAt(fields, members, i) == ProgressAt(fields, members, i + 1)
  {
    MemberFitsAt(fields, members, i);
    forall h | 0 <= h < |fields| ensures PartialMember(fields, members, i, h) == PartialMember(fields, members, i + 1, h) {
      if members[h].Chosen? {
        if members[h].which == fields[i].tag { ChosenHome(fields, members, i, h); }
        OthersStay(fields, members, i, h);
      } else if h != i {
        OthersStay(fields, members, i, h);
      } else {
        hide Fits, WellFormed, EncodeMember;
        if members[i].Single? { ZeroIsDefault(fields[i], members[i].value); }
      }
    }
    hide Fits, WellFormed, EncodeMember, PartialMember;
    assert SeenBefore(fields, i) == SeenBefore(fields, i + 1);
  }

  // A required field, or an optional one that is set.
  lemma {:induction false} SetDecodes(fields: seq<Field>, members: seq<Member>, i: nat, v: Value, rest: seq<byte>)
    requires WellFormed(fields) && Fits(fields, members) && i < |fields|
    requires (fields[i].htype.Required? && members[i] == Single(v))
             || (fields[i].htype.Optional? && fields[i].sizeOffset != 0 && members[i] == Maybe(true, v))
             || (fields[i].htype.Optional? && fields[i].sizeOffset == 0 && members[i] == Single(v) && !IsZero(fields[i], v))
    ensures EncodeMember(fields, members, i).Some?
    ensures |EncodeMember(fields, members, i).value| < TWO_32 ==>
      DecodeFields(fields, ProgressAt(fields, members, i), EncodeMember(fields, members, i).value + rest)
      == DecodeFields(fields, ProgressAt(fields, members, i + 1), rest)
    decreases fields, 0, 0
  {
    MemberFitsAt(fields, members, i);
    var f := fields[i];
    var at := ProgressAt(fields, members, i);
    ValueDecodes(f, v, DefaultValue(f), rest);
    assert EncodeMember(fields, members, i) == EncodeTagged(f, v);
    var payload := EncodeValue(f, v).value;
    assert EncodeTagged(f, v) == Some(TagBytes(f.tag, WireType(f.ltype)) + payload);
    if |EncodeMember(fields, members, i).value| < TWO_32 {
      var now := if f.htype.Optional? && f.sizeOffset != 0 then Maybe(true, SettledValue(f, v)) else Single(SettledValue(f, v));
      hide WellFormed, Fits, FieldOk, MemberFits, ValueFits, EncodeValue, DecodeValue, DecodeFields, Varint, SettledValue;
      assert at.members[i] == DefaultMember(fields, i);
      FieldStep(fields, at, i, WireType(f.ltype), payload, rest, at.members[i := now]);
      SetMoves(fields, members, i, i, now);
    }
  }

  // Setting the member of field i completes it.
  lemma {:induction false} SetMoves(fields: seq<Field>, members: seq<Member>, i: nat, h: nat, m: Member)
    requires WellFormed(fields) && Fits(fields, members) && i < |fields| && h < |fields|
    requires if members[h].Chosen? then members[h].which == fields[i].tag else h == i && !fields[i].htype.Oneof?
    requires SettledMember(fields, members[h], h) == m
    ensures Seen(fields, i, Partial(fields, members, i)[h := m], ProgressAt(fields, members, i)) == ProgressAt(fields, members, i + 1)
  {
    MemberFitsAt(fields, members, i);
    if members[h].Chosen? { ChosenHome(fields, members, i, h); }
    var now := Partial(fields, members, i)[h := m];
    forall k | 0 <= k < |fields| ensures now[k] == PartialMember(fields, members, i + 1, k) {
      if k != h {
        if members[k].Chosen? && members[k].which == fields[i].tag {
          ChosenHome(fields, members, i, k);
        } else if members[k].Chosen? || k != i {
          OthersStay(fields, members, i, k);
        } else {
          hide WellFormed, Fits, ValueFits, FieldOk;
        }
      }
    }
    hide WellFormed, Fits, SettledMember, PartialMember;
    assert SeenBefore(fields, i + 1) == SeenBefore(fields, i) + if fields[i].htype.Required? then {i} else {};
  }

  lemma {:induction false} ChosenDecodes(fields: seq<Field>, members: seq<Member>, i: nat, rest: seq<byte>)
    requires WellFormed(fields) && Fits(fields, members) && i < |fields| && ChosenByHome(fields, members, i)
    ensures EncodeMember(fields, members, i).Some?
    ensures |EncodeMember(fields, members, i).value| < TWO_32 ==>
      DecodeFields(fields, ProgressAt(fields, members, i), EncodeMember(fields, members, i).value + rest)
      == DecodeFields(fields, ProgressAt(fields, members, i + 1), rest)
    decreases fields, 0, 0
  {
    MemberFitsAt(fields, members, i);
    var f, h := fields[i], Home(fields, i);
    var v := members[h].value;
    var at := ProgressAt(fields, members, i);
    ChosenHome(fields, members, i, h);
    ValueDecodes(f, v, DefaultValue(f), rest);
    assert EncodeMember(fields, members, i) == EncodeTagged(f, v);
    var payload := EncodeValue(f, v).value;
    assert EncodeTagged(f, v) == Some(TagBytes(f.tag, WireType(f.ltype)) + payload);
    if |EncodeMember(fields, members, i).value| < TWO_32 {
      var now := Chosen(f.tag, SettledValue(f, v));
      hide WellFormed, Fits, FieldOk, MemberFits, ValueFits, EncodeValue, DecodeValue, DecodeFields, Varint, SettledValue, PartialMember;
      FieldStep(fields, at, i, WireType(f.ltype), payload, rest, at.members[h := now]);
      SetMoves(fields, members, i, h, now);
    }
  }

  lemma {:induction false} ArrayDecodes(fields: seq<Field>, members: seq<Member>, i: nat, rest: seq<byte>)
    requires WellFormed(fields) && Fits(fields, members) && i < |fields| && fields[i].htype.Repeated?
    ensures EncodeMember(fields, members, i).Some?
    ensures |EncodeMember(fields, members, i).value| < TWO_32 ==>
      DecodeFields(fields, ProgressAt(fields, members, i), EncodeMember(fields, members, i).value + rest)
      == DecodeFields(fields, ProgressAt(fields, members, i + 1), rest)
    decreases fields, 0, 0
  {
    MemberFitsAt(fields, members, i);
    var f, items := fields[i], members[i].items;
    var at := ProgressAt(fields, members, i);
    assert at.members[i] == Many([]);
    if items == [] {
      UnsetStays(fields, members, i);
      assert [] + rest == rest;
    } else if Packable(f.ltype) {
      PackedDecodes(f, [], items);
      PackedSettle(f, items);
      assert [] + items == items;
      var packed := EncodePacked(f, items).value;
      assert EncodeMember(fields, members, i) == EncodeArray(f, items);
      assert EncodeArray(f, items) == Some(TagBytes(f.tag, WT_STRING) + WithLength(packed));
      if |EncodeMember(fields, members, i).value| < TWO_32 {
        StringTaken(packed, rest);
        hide WellFormed, Fits, FieldOk, MemberFits, ValueFits, DecodeFields, Varint, EncodePacked, DecodePacked, TakeString, PartialMember;
        FieldStep(fields, at, i, WT_STRING, WithLength(packed), rest, at.members[i := Many(items)]);
        SetMoves(fields, members, i, i, Many(items));
      }
    } else {
      EachDecodes(fields, at, i, [], items, rest);
      assert at.members[i := Many([])] == at.members;
      assert [] + SettledItems(f, items) == SettledItems(f, items);
      SetMoves(fields, members, i, i, Many(SettledItems(f, items)));
    }
  }

  lemma {:induction false} PackedSettle(f: Field, items: seq<Value>)
    requires Packable(f.ltype) && forall k :: 0 <= k < |items| ==> ValueFits(f, items[k])
    ensures SettledItems(f, items) == items
    decreases |items|
  {
    if items != [] { PackedSettle(f, items[1..]); }
  }

  // The items of an array, each in a field of its own, come back in order.
  lemma {:induction false} EachDecodes(fields: seq<Field>, at: Progress, i: nat, before: seq<Value>, items: seq<Value>, rest: seq<byte>)
    requires DistinctTags(fields) && i < |fields| == |at.members| && 0 < fields[i].tag < MAX_TAG && FieldOk(fields[i])
    requires fields[i].htype.Repeated? && !Packable(fields[i].ltype) && |before| + |items| <= fields[i].arraySize
    requires forall k :: 0 <= k < |items| ==> ValueFits(fields[i], items[k])
    ensures EncodeEach(fields[i], items).Some?
    ensures |EncodeEach(fields[i], items).value| < TWO_32 ==>
      DecodeFields(fields, at.(members := at.members[i := Many(before)]), EncodeEach(fields[i], items).value + rest)
      == DecodeFields(fields, at.(members := at.members[i := Many(before + SettledItems(fields[i], items))]), rest)
    decreases fields, 0, 0, |items| + 1
  {
    hide FieldOk, ValueFits, DistinctTags, Packable, DecodeFields, EncodeTagged, EncodeValue, SettledValue;
    var f := fields[i];
    if items == [] {
      assert [] + rest == rest && before + [] == before;
    } else {
      var more := before + [SettledValue(f, items[0])];
      EachDecodes(fields, at, i, more, items[1..], rest);
      ItemDecodes(fields, at, i, before, items[0], EncodeEach(f, items[1..]).value + rest);
      var first, tail := EncodeTagged(f, items[0]).value, EncodeEach(f, items[1..]).value;
      assert EncodeEach(f, items) == Some(first + tail);
      assert first + tail + rest == first + (tail + rest);
      assert more + SettledItems(f, items[1..]) == before + SettledItems(f, items);
    }
  }

  lemma {:induction false} ItemDecodes(fields: seq<Field>, at: Progress, i: nat, before: seq<Value>, item: Value, rest: seq<byte>)
    requires DistinctTags(fields) && i < |fields| == |at.members| && 0 < fields[i].tag < MAX_TAG && FieldOk(fields[i])
    requires fields[i].htype.Repeated? && !Packable(fields[i].ltype) && |before| < fields[i].arraySize
    requires ValueFits(fields[i], item)
    ensures EncodeTagged(fields[i], item).Some?
    ensures |EncodeTagged(fields[i], item).value| < TWO_32 ==>
      DecodeFields(fields, at.(members := at.members[i := Many(before)]), EncodeTagged(fields[i], item).value + rest)
      == DecodeFields(fields, at.(members := at.members[i := Many(before + [SettledValue(fields[i], item)])]), rest)
    decreases fields, 0, 0, 0
  {
    var f := fields[i];
    var from, more := at.(members := at.members[i := Many(before)]), Many(before + [SettledValue(f, item)]);
    ValueDecodes(f, item, DefaultValue(f), rest);
    hide DistinctTags, FieldOk, ValueFits, EncodeValue, DecodeValue, DecodeFields, Varint, SettledValue;
    assert from.members[i := more] == at.members[i := more];
    if |EncodeTagged(f, item).value| < TWO_32 {
      FieldStep(fields, from, i, WireType(f.ltype), EncodeValue(f, item).value, rest, from.members[i := more]);
    }
  }

  // Any value within its bounds is encoded, and decoding gives it back, with its unset
  // optional fields at their defaults, and takes all of the bytes.
  lemma RoundTrip(fields: seq<Field>, members: seq<Member>)
    requires WellFormed(fields) && Fits(fields, members)
    ensures Encode(fields, members).Some?
    ensures |Encode(fields, members).value| < TWO_32 ==>
      Decode(fields, Encode(fields, members).value) == Some(Taken(Settled(fields, members), []))
  {
    MessageDecodes(fields, members);
  }

  // What comes back is encoded to the same bytes: nothing that is written is lost.
  lemma SettledEncodesAlike(fields: seq<Field>, members: seq<Member>)
    requires WellFormed(fields) && Fits(fields, members)
    ensures Encode(fields, Settled(fields, members)) == Encode(fields, members)
    decreases fields, 1, 0
  {
    FieldsSettle(fields, members, 0);
  }

  lemma {:induction false} FieldsSettle(fields: seq<Field>, members: seq<Member>, i: nat)
    requires WellFormed(fields) && Fits(fields, members) && i <= |fields|
    ensures EncodeFields(fields, Settled(fields, members), i) == EncodeFields(fields, members, i)
    decreases fields, 0, |fields| - i
  {
    assert |members| == |fields|;
    hide WellFormed, Fits, EncodeMember, Settled;
    if i < |fields| {
      MemberSettles(fields, members, i);
      FieldsSettle(fields, members, i + 1);
    }
  }

  lemma {:induction false} MemberSettles(fields: seq<Field>, members: seq<Member>, i: nat)
    requires WellFormed(fields) && Fits(fields, members) && i < |fields|
    ensures |members| == |fields| && EncodeMember(fields, Settled(fields, members), i) == EncodeMember(fields, members, i)
    decreases fields, 0, 0, 0
  {
    MemberFitsAt(fields, members, i);
    var f, m := fields[i], members[i];
    assert Settled(fields, members)[i] == SettledMember(fields, m, i);
    match f.htype
    case Required => ValueSettles(f, m.value);
    case Optional => if m.Single? || m.has { ValueSettles(f, m.value); }
    case Repeated =>
      hide WellFormed, Fits, Settled;
      ItemsSettle(f, m.items);
      if Packable(f.ltype) { PackedSettle(f, m.items); }
    case Oneof =>
      var h := Home(fields, i);
      assert Settled(fields, members)[h] == SettledMember(fields, members[h], h);
      if ChosenByHome(fields, members, i) {
        ChosenHome(fields, members, i, h);
        ValueSettles(f, members[h].value);
      }
      hide WellFormed, Fits, Settled;
  }

  lemma {:induction false} ItemsSettle(f: Field, items: seq<Value>)
    requires FieldOk(f) && forall k :: 0 <= k < |items| ==> ValueFits(f, items[k])
    ensures EncodeEach(f, SettledItems(f, items)) == EncodeEach(f, items)
    decreases f, 1, |items|
  {
    hide FieldOk, ValueFits, EncodeValue, SettledValue;
    if items != [] {
      ValueSettles(f, items[0]);
      ItemsSettle(f, items[1..]);
      assert SettledItems(f, items)[1..] == SettledItems(f, items[1..]);
    }
  }

  lemma {:induction false} ValueSettles(f: Field, v: Value)
    requires FieldOk(f) && ValueFits(f, v)
    ensures EncodeValue(f, SettledValue(f, v)) == EncodeValue(f, v)
    ensures !f.ltype.SubmessageType? ==> SettledValue(f, v) == v
    decreases f, 0, 0
  {
    if f.ltype.SubmessageType? {
      SettledEncodesAlike(f.ptr.fields, v.members);
    }
    hide WellFormed, Fits, EncodeFields, Settled;
  }
}
