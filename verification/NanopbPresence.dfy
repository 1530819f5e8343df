// What is not there: fields that are left out, and what they are read as.
module NanopbPresence {
  import opened Wrappers
  import opened NanopbWire
  import opened NanopbFields
  import opened NanopbEncoding
  import opened NanopbDecoding
  import opened NanopbRoundTrip
  import opened NanopbMerging

  // A required field is always written; an optional one when it is marked as present, or,
  // if it cannot be marked, when it is not zero; a repeated one when it has items; and of a
  // union only the field that it holds.
  lemma LeftOutIfAbsent(fields: seq<Field>, members: seq<Member>, i: nat)
    requires WellFormed(fields) && Fits(fields, members) && i < |fields| == |members| && EncodeMember(fields, members, i).Some?
    ensures
      var f, m := fields[i], members[i];
      EncodeMember(fields, members, i).value == [] <==>
      match f.htype
      case Required => false
      case Optional => if f.sizeOffset != 0 then m.Maybe? && !m.has else m.Single? && IsNothing(f, m.value)
      case Repeated => m == Many([])
      case Oneof => !(members[Home(fields, i)].Chosen? && members[Home(fields, i)].which == f.tag)
  {
    MemberFitsAt(fields, members, i);
    var f, m := fields[i], members[i];
    if f.htype.Optional? && f.sizeOffset == 0 {
      ZeroIsNothing(f, m.value);
    }
    if m.Many? { ArrayIsThere(f, m.items); }
    if m.Single? || m.Maybe? { TaggedIsThere(f, m.value); }
    if f.htype.Oneof? && members[Home(fields, i)].Chosen? { TaggedIsThere(f, members[Home(fields, i)].value); }
    hide WellFormed, Fits, EncodeTagged, EncodeArray, ValueFits, FieldOk, IsZero, IsNothing;
  }

  lemma TaggedIsThere(f: Field, v: Value)
    ensures EncodeTagged(f, v) != Some([])
  {
    hide EncodeValue, Varint;
  }

  lemma ArrayIsThere(f: Field, items: seq<Value>)
    ensures EncodeArray(f, items) == Some([]) <==> items == []
  {
    if items != [] { TaggedIsThere(f, items[0]); }
    hide EncodeTagged, EncodePacked, Varint;
  }

  // Zero, no bytes, or bytes that are none by their type.
  predicate IsNothing(f: Field, v: Value) {
    if f.ltype.FixedLengthBytesType? then f.dataSize == 0 else v == Int(0) || v == Bits(0) || v == Blob([])
  }

  lemma ZeroIsNothing(f: Field, v: Value)
    requires FieldOk(f) && f.htype.Optional? && f.sizeOffset == 0 && ValueFits(f, v)
    ensures IsZero(f, v) <==> IsNothing(f, v)
  {
  }

  // Nothing at all is read as a struct at its defaults, if nothing is required.
  lemma NothingIsDefaults(fields: seq<Field>)
    ensures Decode(fields, []) == if NothingRequired(fields) then Some(Taken(Defaults(fields, 0), [])) else None
  {
    hide Defaults;
    var at := Progress(Defaults(fields, 0), {});
    assert DecodeFields(fields, at, []) == Some(Taken(at, []));
    hide DecodeFields;
  }

  // There no field is present, and each has the default of its descriptor, or zeros.
  lemma DefaultsAreAbsent(fields: seq<Field>, i: nat)
    requires i < |fields|
    ensures
      var f, m := fields[i], Defaults(fields, 0)[i];
      match f.htype
      case Required => m.Single? && IsDefault(f, m.value)
      case Optional => (if f.sizeOffset != 0 then m.Maybe? && !m.has else m.Single?) && IsDefault(f, m.value)
      case Repeated => m == Many([])
      case Oneof => m == if Shares(fields, i) then Shared else Unchosen
  {
    hide Defaults, DefaultValue, IsDefault;
    DefaultsAt(fields, 0, i);
    DefaultIs(fields[i]);
  }

  lemma DefaultIs(f: Field)
    ensures IsDefault(f, DefaultValue(f))
  {
    hide Defaults;
  }

  // The value of a field that nothing was read for.
  predicate IsDefault(f: Field, v: Value) {
    if f.ltype.SubmessageType? then v.Message? && (f.ptr.Fields? ==> v.members == Defaults(f.ptr.fields, 0))
    else if f.ptr.Default? then v == f.ptr.value
    else match f.ltype
         case Fixed32Type => v == Bits(0)
         case Fixed64Type => v == Bits(0)
         case BytesType => v == Blob([])
         case StringType => v == Blob([])
         case FixedLengthBytesType => v.Blob? && |v.bytes| == f.dataSize && forall k :: 0 <= k < |v.bytes| ==> v.bytes[k] == 0
         case _ => v == Int(0)
  }
}
