// Unknown fields, and decoding one message after another into the same struct.
module NanopbMerging {
  import opened Wrappers
  import opened NanopbWire
  import opened NanopbFields
  import opened NanopbEncoding
  import opened NanopbDecoding
  import opened NanopbRoundTrip
  import opened NanopbScanning
  import opened PowersOfTwo

  // Decoding whole fields and what follows is decoding the one and going on with the
  // other.
  lemma {:induction false} DecodeAppended(fields: seq<Field>, at: Progress, x: seq<byte>, y: seq<byte>)
    requires |at.members| == |fields| && EndsAtField(fields, x)
    ensures
      var r := DecodeFields(fields, at, x);
      && (r.Some? ==> r.value.rest == [])
      && DecodeFields(fields, at, x + y) == if r.None? then None else DecodeFields(fields, r.value.value, y)
    decreases |x|
  {
    if x == [] {
      assert x + y == y;
    } else {
      var a, r := FirstSplits(fields, x);
      Regroup(a, r, y);
      FirstFieldLocal(fields, at, a, r, r + y);
      DecodeFirst(fields, at, x);
      DecodeFirst(fields, at, a + (r + y));
      var first := FirstField(fields, at, x);
      if first.Some? {
        DecodeAppended(fields, first.value, r, y);
      }
      hide DecodeFields, NextField, FirstField;
    }
  }

  // Fields that the message type does not have can be left out anywhere.
  lemma {:induction false} StrippedDecodesAlike(fields: seq<Field>, at: Progress, s: seq<byte>)
    requires |at.members| == |fields|
    ensures DecodeFields(fields, at, Strip(fields, s)) == DecodeFields(fields, at, s)
    decreases |s|
  {
    if NextField(fields, s).Some? {
      var a, r := FirstSplits(fields, s);
      var stripped := Strip(fields, r);
      var first := FirstField(fields, at, s);
      DecodeFirst(fields, at, s);
      if StartsKnown(fields, s) {
        FirstFieldLocal(fields, at, a, r, stripped);
        DecodeFirst(fields, at, a + stripped);
      } else {
        assert [] + stripped == stripped;
      }
      if first.Some? {
        StrippedDecodesAlike(fields, first.value, r);
      }
      hide DecodeFields, NextField, FirstField, StartsKnown;
    }
  }

  // A field that the message type does not have, with a payload to skip.
  ghost predicate IsUnknown(fields: seq<Field>, tag: nat, wireType: nat, payload: seq<byte>) {
    && FindFrom(fields, tag, 0).None? && 0 < tag < MAX_TAG && wireType < 8
    && SkipField(wireType, payload) == Some([])
  }

  lemma UnknownIsNext(fields: seq<Field>, tag: nat, wireType: nat, payload: seq<byte>, y: seq<byte>)
    requires IsUnknown(fields, tag, wireType, payload)
    ensures
      var s := TagBytes(tag, wireType) + payload + y;
      NextField(fields, s) == Some(y) && !StartsKnown(fields, s)
  {
    hide TagBytes, DecodeTag, SkipField, FindFrom;
    var s := TagBytes(tag, wireType) + payload + y;
    Regroup(TagBytes(tag, wireType), payload, y);
    TagDecodes(tag, wireType, payload + y);
    assert payload + [] == payload;
    SkipFieldLocal(wireType, payload, [], y);
  }

  // What is stripped: unknown fields between whole fields, and nothing else.
  lemma {:induction false} StripsUnknown(fields: seq<Field>, x: seq<byte>, tag: nat, wireType: nat, payload: seq<byte>, y: seq<byte>)
    requires EndsAtField(fields, x) && IsUnknown(fields, tag, wireType, payload)
    ensures Strip(fields, x + (TagBytes(tag, wireType) + payload) + y) == Strip(fields, x + y)
  {
    var u := TagBytes(tag, wireType) + payload;
    UnknownIsNext(fields, tag, wireType, payload, y);
    Regroup(x, u, y);
    StripAppended(fields, x, u + y);
    StripAppended(fields, x, y);
    hide EndsAtField, TagBytes, NextField, StartsKnown;
    assert [] + Strip(fields, y) == Strip(fields, y);
  }

  lemma {:induction false} StripAppended(fields: seq<Field>, x: seq<byte>, y: seq<byte>)
    requires EndsAtField(fields, x)
    ensures Strip(fields, x + y) == Strip(fields, x) + Strip(fields, y)
    decreases |x|
  {
    if x == [] {
      assert x + y == y && [] + Strip(fields, y) == Strip(fields, y);
      NothingStripped(fields);
    } else {
      var a, r := FirstSplits(fields, x);
      Regroup(a, r, y);
      NextFieldLocal(fields, a, r, r + y);
      assert (a + (r + y))[..|a|] == a;
      StripAppended(fields, r, y);
      hide NextField, StartsKnown;
      var first := if StartsKnown(fields, x) then a else [];
      Regroup(first, Strip(fields, r), Strip(fields, y));
    }
  }

  lemma NothingStripped(fields: seq<Field>)
    ensures Strip(fields, []) == [] && NextField(fields, []).None?
  {
    assert DecodeVarint32([]) == Failed([]);
  }

  // Unknown fields between the fields of a message change nothing.
  lemma UnknownFieldsAreSkipped(fields: seq<Field>, members: seq<Member>, x: seq<byte>, tag: nat, wireType: nat, payload: seq<byte>, y: seq<byte>)
    requires |members| == |fields| && EndsAtField(fields, x) && IsUnknown(fields, tag, wireType, payload)
    ensures DecodeMessage(fields, members, x + (TagBytes(tag, wireType) + payload) + y) == DecodeMessage(fields, members, x + y)
  {
    hide DecodeFields, EndsAtField, IsUnknown, Strip, TagBytes;
    var at := Progress(members, {});
    StripsUnknown(fields, x, tag, wireType, payload, y);
    StrippedDecodesAlike(fields, at, x + (TagBytes(tag, wireType) + payload) + y);
    StrippedDecodesAlike(fields, at, x + y);
  }

  ghost predicate NothingRequired(fields: seq<Field>) { forall i :: 0 <= i < |fields| ==> !fields[i].htype.Required? }

  // Nothing is noted as seen where nothing is required.
  lemma {:induction false} NothingSeen(fields: seq<Field>, at: Progress, s: seq<byte>)
    requires |at.members| == |fields| && NothingRequired(fields) && DecodeFields(fields, at, s).Some?
    ensures DecodeFields(fields, at, s).value.value.seen == at.seen
    decreases |s|
  {
    if s != [] && DecodeTag(s).Tag? {
      var t := DecodeTag(s);
      var i := FindFrom(fields, t.tag, 0);
      hide DecodeTag, DecodeMember, SkipField, FindFrom;
      if i.Some? {
        var r := DecodeMember(fields, at.members, i.value, t.wireType, t.rest).value;
        NothingSeen(fields, Seen(fields, i.value, r.value, at), r.rest);
      } else {
        NothingSeen(fields, at, SkipField(t.wireType, t.rest).value);
      }
    }
  }

  // Decoding x, and then y into the same struct.
  function DecodeBoth(fields: seq<Field>, members: seq<Member>, x: seq<byte>, y: seq<byte>): Option<Taken<seq<Member>>>
    requires |members| == |fields|
  {
    var r := DecodeMessage(fields, members, x);
    if r.None? then None else DecodeMessage(fields, r.value.value, y)
  }

  lemma Merges(fields: seq<Field>, members: seq<Member>, x: seq<byte>, y: seq<byte>)
    requires |members| == |fields| && NothingRequired(fields) && EndsAtField(fields, x)
    ensures DecodeMessage(fields, members, x + y) == DecodeBoth(fields, members, x, y)
  {
    var at := Progress(members, {});
    DecodeAppended(fields, at, x, y);
    if DecodeFields(fields, at, x).Some? {
      NothingSeen(fields, at, x);
    }
    hide DecodeFields, EndsAtField;
  }

  const NO_SUCH_TYPE: seq<byte> := [7]
  const OVERLONG: seq<byte> := [0x80, 0x80, 0x80, 0x80, 0x80]

  // Nothing is decoded from a tag with an unknown wire type; and a tag that runs past
  // its limit at the very end counts as the end.
  lemma TellTales(fields: seq<Field>, at: Progress)
    requires |at.members| == |fields| && forall i :: 0 <= i < |fields| ==> fields[i].tag != 0
    ensures DecodeFields(fields, at, NO_SUCH_TYPE).None?
    ensures DecodeFields(fields, at, OVERLONG) == Some(Taken(at, []))
  {
    assert DecodeTag(NO_SUCH_TYPE) == Tag(0, 7, []);
    NeverEnding(OVERLONG, MAX_VARINT32_BYTES);
    hide ReadVarint, DecodeMember;
  }

  lemma {:induction false} NeverEnding(s: seq<byte>, limit: nat)
    requires forall i :: 0 <= i < |s| ==> s[i] >= 128
    ensures ReadVarint(s, limit) == Failed(s[if limit <= |s| then limit else |s|..])
    decreases limit
  {
    if limit > 0 && s != [] { NeverEnding(s[1..], limit - 1); }
  }

  lemma {:induction false} RunsOn(x: seq<byte>, limit: nat, y: seq<byte>)
    requires ReadVarint(x, limit) == Failed([]) && limit <= |y| && (limit == |y| ==> x != [])
    requires forall i :: 0 <= i < |y| ==> y[i] >= 128
    ensures ReadVarint(x + y, limit).Failed? && ReadVarint(x + y, limit).rest != []
    decreases limit
  {
    if x == [] {
      assert x + y == y;
      NeverEnding(y, limit);
    } else if limit > 0 {
      Step(x, y);
      RunsOn(x[1..], limit - 1, y);
    }
  }

  // A stream that does not end at a field goes wrong with one of two continuations.
  lemma {:induction false} GoesWrong(fields: seq<Field>, at: Progress, x: seq<byte>)
    requires |at.members| == |fields| && DecodeFields(fields, at, x).Some? && !EndsAtField(fields, x)
    ensures DecodeFields(fields, at, x + NO_SUCH_TYPE).Some? || DecodeFields(fields, at, x + OVERLONG).None?
    decreases |x|
  {
    if NextField(fields, x).Some? {
      var a, r := FirstSplits(fields, x);
      DecodeFirst(fields, at, x);
      Regroup(a, r, NO_SUCH_TYPE);
      FirstFieldLocal(fields, at, a, r, r + NO_SUCH_TYPE);
      DecodeFirst(fields, at, a + (r + NO_SUCH_TYPE));
      Regroup(a, r, OVERLONG);
      FirstFieldLocal(fields, at, a, r, r + OVERLONG);
      DecodeFirst(fields, at, a + (r + OVERLONG));
      GoesWrong(fields, FirstField(fields, at, x).value, r);
      hide DecodeFields, NextField, FirstField;
    } else {
      DecodeLast(fields, at, x);
      EndGoesWrong(fields, at, x);
    }
  }

  // At a zero tag, and at a tag that breaks off.
  lemma EndGoesWrong(fields: seq<Field>, at: Progress, x: seq<byte>)
    requires |at.members| == |fields| && x != [] && DecodeTag(x).End?
    ensures DecodeFields(fields, at, x + NO_SUCH_TYPE).Some? || DecodeFields(fields, at, x + OVERLONG).None?
  {
    var n := DecodeVarint32(x);
    if n.Got? {
      hide DecodeVarint32, IsTail;
      VarintTail(x);
      TailSplits(x, n.rest);
      var a := x[..|x| - |n.rest|];
      Regroup(a, n.rest, NO_SUCH_TYPE);
      Varint32Local(a, n.rest, n.rest + NO_SUCH_TYPE);
      assert DecodeTag(x + NO_SUCH_TYPE).End?;
    } else {
      RunsOn(x, MAX_VARINT32_BYTES, OVERLONG);
      hide ReadVarint;
      assert DecodeTag(x + OVERLONG) == BadTag;
    }
  }

  // Of a type without required fields: decoding x with anything behind it is decoding x
  // and then the rest into the same struct exactly when x ends where a field ends.
  lemma MergesExactly(fields: seq<Field>, members: seq<Member>, x: seq<byte>)
    requires |members| == |fields| && NothingRequired(fields) && DecodeMessage(fields, members, x).Some?
    requires forall i :: 0 <= i < |fields| ==> fields[i].tag != 0
    ensures EndsAtField(fields, x)
            <==> forall y: seq<byte> :: DecodeMessage(fields, members, x + y) == DecodeBoth(fields, members, x, y)
  {
    if EndsAtField(fields, x) {
      forall y: seq<byte> ensures DecodeMessage(fields, members, x + y) == DecodeBoth(fields, members, x, y) {
        Merges(fields, members, x, y);
      }
    } else {
      GoesWrong(fields, Progress(members, {}), x);
      TellTales(fields, Progress(DecodeMessage(fields, members, x).value.value, {}));
      hide DecodeFields, EndsAtField;
      assert DecodeMessage(fields, members, x + NO_SUCH_TYPE) != DecodeBoth(fields, members, x, NO_SUCH_TYPE)
             || DecodeMessage(fields, members, x + OVERLONG) != DecodeBoth(fields, members, x, OVERLONG);
    }
  }

  // A message that ends in a zero byte, as the decoder allows, does not merge with what
  // follows it.
  lemma ZeroEndedDoesNotMerge()
    ensures
      var fields := [Field(1, VarintType, Optional, 4, -4, 4, 0, Null)];
      var members := Defaults(fields, 0);
      DecodeMessage(fields, members, [0] + [8, 5]) != DecodeBoth(fields, members, [0], [8, 5])
  {
    var fields := [Field(1, VarintType, Optional, 4, -4, 4, 0, Null)];
    var members := Defaults(fields, 0);
    var both: seq<byte>, zero: seq<byte> := [0] + [8, 5], [0];
    assert DecodeTag(both).End? && DecodeTag(zero).End?;
    FiveIsDecoded(Progress(members, {}));
    hide DecodeTag, DecodeMember, FindFrom, SkipField;
  }

  lemma FiveIsDecoded(at: Progress)
    requires |at.members| == 1
    ensures
      var fields := [Field(1, VarintType, Optional, 4, -4, 4, 0, Null)];
      DecodeFields(fields, at, [8, 5]) == Some(Taken(at.(members := [Maybe(true, Int(5))]), []))
  {
    var f := Field(1, VarintType, Optional, 4, -4, 4, 0, Null);
    var y: seq<byte>, five: seq<byte> := [8, 5], [5];
    assert y[1..] == five;
    assert DecodeTag(y) == Tag(1, 0, five);
    assert FindFrom([f], 1, 0) == Some(0);
    assert DecodeVarint(five) == Got(5, []);
    assert DecodeScalar(f, five) == Some(Taken(Int(5), []));
    hide DecodeScalar, DecodeTag, FindFrom, SkipField;
    assert at.members[0 := Maybe(true, Int(5))] == [Maybe(true, Int(5))];
    assert DecodeMember([f], at.members, 0, 0, five) == Some(Taken([Maybe(true, Int(5))], []));
  }

  // The bytes e in front of rest are whole fields, all of them known.
  ghost predicate KnownFields(fields: seq<Field>, e: seq<byte>, rest: seq<byte>) {
    && (EndsAtField(fields, e + rest) <==> EndsAtField(fields, rest))
    && Strip(fields, e + rest) == e + Strip(fields, rest)
  }

  lemma NoFields(fields: seq<Field>, rest: seq<byte>)
    ensures KnownFields(fields, [], rest)
  {
    hide EndsAtField, Strip;
    assert [] + rest == rest && [] + Strip(fields, rest) == Strip(fields, rest);
  }

  lemma MoreFields(fields: seq<Field>, e: seq<byte>, d: seq<byte>, rest: seq<byte>)
    requires KnownFields(fields, e, d + rest) && KnownFields(fields, d, rest)
    ensures KnownFields(fields, e + d, rest)
  {
    hide EndsAtField, Strip;
    Regroup(e, d, rest);
    Regroup(e, d, Strip(fields, rest));
  }

  lemma TaggedIsKnown(fields: seq<Field>, i: nat, wireType: nat, payload: seq<byte>, rest: seq<byte>)
    requires DistinctTags(fields) && i < |fields| && 0 < fields[i].tag < MAX_TAG && wireType < 8
    requires ScanMember(fields[i], wireType, payload + rest) == Some(rest)
    ensures KnownFields(fields, TagBytes(fields[i].tag, wireType) + payload, rest)
  {
    hide TagBytes, DecodeTag, ScanMember, DistinctTags;
    var e := TagBytes(fields[i].tag, wireType) + payload;
    Regroup(TagBytes(fields[i].tag, wireType), payload, rest);
    TagDecodes(fields[i].tag, wireType, payload + rest);
    FindIsUnique(fields, fields[i].tag, i);
    assert NextField(fields, e + rest) == Some(rest) && StartsKnown(fields, e + rest);
    assert (e + rest)[..|e|] == e;
  }

  lemma ValueIsKnown(fields: seq<Field>, i: nat, v: Value, rest: seq<byte>)
    requires DistinctTags(fields) && i < |fields| && 0 < fields[i].tag < MAX_TAG && FieldOk(fields[i]) && ValueFits(fields[i], v)
    requires EncodeTagged(fields[i], v).Some? && |EncodeTagged(fields[i], v).value| < TWO_32
    requires !(fields[i].htype.Repeated? && Packable(fields[i].ltype))
    ensures KnownFields(fields, EncodeTagged(fields[i], v).value, rest)
  {
    var f := fields[i];
    ValueDecodes(f, v, DefaultValue(f), rest);
    ValueScans(f, DefaultValue(f), EncodeValue(f, v).value + rest);
    hide DistinctTags, FieldOk, ValueFits, EncodeValue, DecodeValue, KnownFields, TagBytes, ScanValue, Packable, SettledValue, DefaultValue;
    TaggedIsKnown(fields, i, WireType(f.ltype), EncodeValue(f, v).value, rest);
  }

  lemma {:induction false} EachIsKnown(fields: seq<Field>, i: nat, items: seq<Value>, rest: seq<byte>)
    requires DistinctTags(fields) && i < |fields| && 0 < fields[i].tag < MAX_TAG && FieldOk(fields[i]) && !Packable(fields[i].ltype)
    requires forall k :: 0 <= k < |items| ==> ValueFits(fields[i], items[k])
    requires EncodeEach(fields[i], items).Some? && |EncodeEach(fields[i], items).value| < TWO_32
    ensures KnownFields(fields, EncodeEach(fields[i], items).value, rest)
    decreases |items|
  {
    hide DistinctTags, FieldOk, ValueFits, Packable, EncodeTagged, KnownFields;
    if items == [] {
      NoFields(fields, rest);
    } else {
      var tail := EncodeEach(fields[i], items[1..]).value;
      EachIsKnown(fields, i, items[1..], rest);
      ValueIsKnown(fields, i, items[0], tail + rest);
      MoreFields(fields, EncodeTagged(fields[i], items[0]).value, tail, rest);
    }
  }

  lemma ArrayIsKnown(fields: seq<Field>, i: nat, items: seq<Value>, rest: seq<byte>)
    requires DistinctTags(fields) && i < |fields| && 0 < fields[i].tag < MAX_TAG && FieldOk(fields[i]) && fields[i].htype.Repeated?
    requires forall k :: 0 <= k < |items| ==> ValueFits(fields[i], items[k])
    requires EncodeArray(fields[i], items).Some? && |EncodeArray(fields[i], items).value| < TWO_32
    ensures KnownFields(fields, EncodeArray(fields[i], items).value, rest)
  {
    hide DistinctTags, FieldOk, ValueFits, KnownFields, EncodeEach, EncodePacked, Varint, TagBytes, TakeString;
    var f := fields[i];
    if items == [] {
      NoFields(fields, rest);
    } else if Packable(f.ltype) {
      var packed := EncodePacked(f, items).value;
      StringTaken(packed, rest);
      TaggedIsKnown(fields, i, WT_STRING, WithLength(packed), rest);
    } else {
      EachIsKnown(fields, i, items, rest);
    }
  }

  lemma MemberIsKnown(fields: seq<Field>, members: seq<Member>, i: nat, rest: seq<byte>)
    requires WellFormed(fields) && Fits(fields, members) && i < |fields| == |members|
    requires EncodeMember(fields, members, i).Some? && |EncodeMember(fields, members, i).value| < TWO_32
    ensures KnownFields(fields, EncodeMember(fields, members, i).value, rest)
  {
    MemberFitsAt(fields, members, i);
    NoFields(fields, rest);
    var f, m := fields[i], members[i];
    match f.htype
    case Required =>
      hide WellFormed, Fits, FieldOk, ValueFits, DistinctTags, EncodeTagged, KnownFields;
      ValueIsKnown(fields, i, m.value, rest);
    case Optional =>
      hide WellFormed, Fits, FieldOk, ValueFits, DistinctTags, EncodeTagged, KnownFields, IsZero;
      if (m.Maybe? && m.has) || (m.Single? && !IsZero(f, m.value)) {
        ValueIsKnown(fields, i, m.value, rest);
      }
    case Repeated =>
      hide WellFormed, Fits, FieldOk, ValueFits, DistinctTags, EncodeArray, KnownFields;
      ArrayIsKnown(fields, i, m.items, rest);
    case Oneof =>
      var h := Home(fields, i);
      if ChosenByHome(fields, members, i) {
        ChosenHome(fields, members, i, h);
        hide WellFormed, Fits, FieldOk, ValueFits, DistinctTags, EncodeTagged, KnownFields;
        ValueIsKnown(fields, i, members[h].value, rest);
      }
  }

  lemma {:induction false} FieldsAreKnown(fields: seq<Field>, members: seq<Member>, i: nat, rest: seq<byte>)
    requires WellFormed(fields) && Fits(fields, members) && i <= |fields|
    requires EncodeFields(fields, members, i).Some? && |EncodeFields(fields, members, i).value| < TWO_32
    ensures KnownFields(fields, EncodeFields(fields, members, i).value, rest)
    decreases |fields| - i
  {
    assert |members| == |fields|;
    hide WellFormed, Fits, EncodeMember, KnownFields;
    if i == |fields| {
      NoFields(fields, rest);
    } else {
      var first, tail := EncodeMember(fields, members, i).value, EncodeFields(fields, members, i + 1).value;
      FieldsAreKnown(fields, members, i + 1, rest);
      MemberIsKnown(fields, members, i, tail + rest);
      MoreFields(fields, first, tail, rest);
    }
  }

  // An encoding is a sequence of whole fields, none of them unknown.
  lemma EncodingIsFields(fields: seq<Field>, members: seq<Member>)
    requires WellFormed(fields) && Fits(fields, members)
    requires Encode(fields, members).Some? && |Encode(fields, members).value| < TWO_32
    ensures EndsAtField(fields, Encode(fields, members).value)
    ensures Strip(fields, Encode(fields, members).value) == Encode(fields, members).value
  {
    FieldsAreKnown(fields, members, 0, []);
    NothingStripped(fields);
    hide Strip, WellFormed, Fits, EncodeFields;
    var e := Encode(fields, members).value;
    assert e + [] == e;
  }

  // An encoding with unknown fields anywhere between its fields, any number of them,
  // decodes to the message.
  lemma WithUnknownFields(fields: seq<Field>, members: seq<Member>, s: seq<byte>)
    requires WellFormed(fields) && Fits(fields, members)
    requires |s| < TWO_32 && Some(Strip(fields, s)) == Encode(fields, members)
    ensures Decode(fields, s) == Some(Taken(Settled(fields, members), []))
  {
    StripIsShorter(fields, s);
    RoundTrip(fields, members);
    StrippedDecodesAlike(fields, Progress(Defaults(fields, 0), {}), s);
    hide Strip, WellFormed, Fits, EncodeFields, DecodeFields, Settled;
  }

  lemma {:induction false} StripIsShorter(fields: seq<Field>, s: seq<byte>)
    ensures |Strip(fields, s)| <= |s|
    decreases |s|
  {
    hide NextField, StartsKnown;
    if NextField(fields, s).Some? {
      StripIsShorter(fields, NextField(fields, s).value);
    }
  }

  // Of a type without required fields: one encoding behind another decodes to what the
  // second makes of the message that the first gave.
  lemma EncodingsMerge(fields: seq<Field>, first: seq<Member>, second: seq<Member>)
    requires WellFormed(fields) && NothingRequired(fields) && Fits(fields, first) && Fits(fields, second)
    requires Encode(fields, first).Some? && |Encode(fields, first).value| < TWO_32 && Encode(fields, second).Some?
    ensures
      Decode(fields, Encode(fields, first).value + Encode(fields, second).value)
      == DecodeMessage(fields, Settled(fields, first), Encode(fields, second).value)
  {
    RoundTrip(fields, first);
    EncodingIsFields(fields, first);
    hide WellFormed, Fits, EncodeFields, DecodeMessage, Settled, EndsAtField, NothingRequired;
    Merges(fields, Defaults(fields, 0), Encode(fields, first).value, Encode(fields, second).value);
  }
}
