// Fields that occur more than once in a message (Protocol Buffers Encoding, section "Last
// One Wins").
module NanopbOccurrences {
  import opened Wrappers
  import opened NanopbFields
  import opened NanopbEncoding
  import opened NanopbDecoding
  import opened NanopbRoundTrip
  import opened NanopbScanning
  import opened NanopbMerging
  import opened PowersOfTwo

  // A submessage field on the wire: its tag with wire type two, the length of its payload
  // and the payload.
  function Occurrence(tag: nat, payload: seq<byte>): seq<byte> { TagBytes(tag, 2) + WithLength(payload) }

  ghost predicate IsSubmessage(fields: seq<Field>, i: nat) {
    && DistinctTags(fields) && i < |fields| && 0 < fields[i].tag < MAX_TAG
    && fields[i].ltype.SubmessageType? && fields[i].ptr.Fields?
  }

  // A member that holds a submessage with these members.
  function Holding(f: Field, has: bool, members: seq<Member>): Member {
    if f.htype.Optional? && f.sizeOffset != 0 then Maybe(has, Message(members)) else Single(Message(members))
  }

  function SeenWith(f: Field, i: nat, seen: set<nat>): set<nat> { if f.htype.Required? then seen + {i} else seen }

  // A field on the wire that is known: what its member makes of it.
  lemma OneField(fields: seq<Field>, at: Progress, i: nat, wireType: nat, payload: seq<byte>, rest: seq<byte>)
    requires DistinctTags(fields) && i < |fields| == |at.members| && 0 < fields[i].tag < MAX_TAG && wireType < 8
    ensures
      var r := DecodeMember(fields, at.members, i, wireType, payload + rest);
      DecodeFields(fields, at, TagBytes(fields[i].tag, wireType) + payload + rest) ==
      if r.None? then None else DecodeFields(fields, Seen(fields, i, r.value.value, at), r.value.rest)
  {
    hide TagBytes, DecodeTag, DecodeMember, DistinctTags;
    var tagged := TagBytes(fields[i].tag, wireType);
    assert tagged + payload + rest == tagged + (payload + rest);
    TagDecodes(fields[i].tag, wireType, payload + rest);
    FindIsUnique(fields, fields[i].tag, i);
  }

  // A submessage that is not repeated is decoded from where its payload starts.
  lemma SubmessageTaken(fields: seq<Field>, at: Progress, i: nat, start: seq<Member>, x: seq<byte>, rest: seq<byte>)
    requires IsSubmessage(fields, i) && |at.members| == |fields| && |x| < TWO_32 && !fields[i].htype.Repeated?
    requires start == SubMembers(fields[i].ptr.fields, Prior(fields[i], at.members[i]))
    ensures
      var f := fields[i];
      var r := DecodeMessage(f.ptr.fields, start, x);
      DecodeFields(fields, at, Occurrence(f.tag, x) + rest) ==
      if r.None? then None else
      var h := if f.htype.Oneof? then Home(fields, i) else i;
      var m := if f.htype.Oneof? then Chosen(f.tag, Message(r.value.value)) else Holding(f, true, r.value.value);
      DecodeFields(fields, Progress(at.members[h := m], SeenWith(f, i, at.seen)), rest)
  {
    var f := fields[i];
    OneField(fields, at, i, 2, WithLength(x), rest);
    StringTaken(x, rest);
    hide DecodeMessage, DecodeFields, WithLength, TagBytes, TakeString, DistinctTags, SubMembers, Prior, Home;
    assert DecodeValue(f, Prior(f, at.members[i]), WithLength(x) + rest) ==
           var r := DecodeMessage(f.ptr.fields, start, x); if r.None? then None else Some(Taken(Message(r.value.value), rest));
    hide DecodeValue;
  }

  // A submessage of a required or optional field is decoded into the one that is there,
  // whether or not it has been marked as present.
  lemma SubmessageIsDecodedInto(fields: seq<Field>, at: Progress, i: nat, has: bool, members: seq<Member>, x: seq<byte>, rest: seq<byte>)
    requires IsSubmessage(fields, i) && (fields[i].htype.Required? || fields[i].htype.Optional?) && |x| < TWO_32
    requires |at.members| == |fields| && |members| == |fields[i].ptr.fields| && at.members[i] == Holding(fields[i], has, members)
    ensures
      var f := fields[i];
      var r := DecodeMessage(f.ptr.fields, members, x);
      DecodeFields(fields, at, Occurrence(f.tag, x) + rest) ==
      if r.None? then None else
      DecodeFields(fields, Progress(at.members[i := Holding(f, true, r.value.value)], SeenWith(f, i, at.seen)), rest)
  {
    hide DecodeMessage, DecodeFields, WithLength, TagBytes, TakeString;
    SubmessageTaken(fields, at, i, members, x, rest);
  }

  // A submessage of a union is decoded into its defaults, whatever the union held.
  lemma UnionIsReplaced(fields: seq<Field>, at: Progress, i: nat, x: seq<byte>, rest: seq<byte>)
    requires IsSubmessage(fields, i) && fields[i].htype.Oneof? && |x| < TWO_32 && |at.members| == |fields|
    ensures
      var f := fields[i];
      var r := Decode(f.ptr.fields, x);
      DecodeFields(fields, at, Occurrence(f.tag, x) + rest) ==
      if r.None? then None else
      DecodeFields(fields, at.(members := at.members[Home(fields, i) := Chosen(f.tag, Message(r.value.value))]), rest)
  {
    hide DecodeMessage, DecodeFields, WithLength, TagBytes, TakeString, Defaults;
    SubmessageTaken(fields, at, i, Defaults(fields[i].ptr.fields, 0), x, rest);
  }

  // Two occurrences of a submessage decode as one with both payloads, when the first
  // payload ends where a field ends.
  lemma SubmessagesMerge(fields: seq<Field>, at: Progress, i: nat, x: seq<byte>, y: seq<byte>, rest: seq<byte>)
    requires IsSubmessage(fields, i) && (fields[i].htype.Required? || fields[i].htype.Optional?) && |x| + |y| < TWO_32
    requires NothingRequired(fields[i].ptr.fields) && EndsAtField(fields[i].ptr.fields, x) && |at.members| == |fields|
    ensures
      DecodeFields(fields, at, Occurrence(fields[i].tag, x) + (Occurrence(fields[i].tag, y) + rest))
      == DecodeFields(fields, at, Occurrence(fields[i].tag, x + y) + rest)
  {
    var f := fields[i];
    var start := SubMembers(f.ptr.fields, Prior(f, at.members[i]));
    SubmessageTaken(fields, at, i, start, x, Occurrence(f.tag, y) + rest);
    SubmessageTaken(fields, at, i, start, x + y, rest);
    Merges(f.ptr.fields, start, x, y);
    hide DecodeMessage, DecodeFields, Occurrence, NothingRequired, EndsAtField, SubMembers, Prior, IsSubmessage;
    var first := DecodeMessage(f.ptr.fields, start, x);
    if first.Some? {
      var now := Progress(at.members[i := Holding(f, true, first.value.value)], SeenWith(f, i, at.seen));
      SubmessageIsDecodedInto(fields, now, i, true, first.value.value, y, rest);
      var both := DecodeMessage(f.ptr.fields, first.value.value, y);
      if both.Some? {
        assert now.members[i := Holding(f, true, both.value.value)] == at.members[i := Holding(f, true, both.value.value)];
      }
    }
  }

  // Of two submessages of one union only the last counts, if the first can be decoded.
  lemma LastOfUnionCounts(fields: seq<Field>, at: Progress, i: nat, j: nat, x: seq<byte>, y: seq<byte>, rest: seq<byte>)
    requires IsSubmessage(fields, i) && IsSubmessage(fields, j) && fields[i].htype.Oneof? && fields[j].htype.Oneof?
    requires Home(fields, i) == Home(fields, j) && |x| < TWO_32 && |y| < TWO_32 && |at.members| == |fields|
    ensures
      DecodeFields(fields, at, Occurrence(fields[i].tag, x) + (Occurrence(fields[j].tag, y) + rest))
      == if Decode(fields[i].ptr.fields, x).None? then None else DecodeFields(fields, at, Occurrence(fields[j].tag, y) + rest)
  {
    hide Decode, DecodeFields, Occurrence;
    UnionIsReplaced(fields, at, i, x, Occurrence(fields[j].tag, y) + rest);
    UnionIsReplaced(fields, at, j, y, rest);
    var h, first := Home(fields, i), Decode(fields[i].ptr.fields, x);
    if first.Some? {
      var now := at.(members := at.members[h := Chosen(fields[i].tag, Message(first.value.value))]);
      UnionIsReplaced(fields, now, j, y, rest);
      var last := Decode(fields[j].ptr.fields, y);
      if last.Some? {
        var m := Chosen(fields[j].tag, Message(last.value.value));
        assert now.members[h := m] == at.members[h := m];
      }
    }
  }

  // Each submessage of a repeated field is decoded into defaults and joins the array,
  // which it must not overflow.
  lemma SubmessageIsAppended(fields: seq<Field>, at: Progress, i: nat, items: seq<Value>, x: seq<byte>, rest: seq<byte>)
    requires IsSubmessage(fields, i) && fields[i].htype.Repeated? && |x| < TWO_32
    requires |at.members| == |fields| && at.members[i] == Many(items)
    ensures
      var f := fields[i];
      var r := Decode(f.ptr.fields, x);
      DecodeFields(fields, at, Occurrence(f.tag, x) + rest) ==
      if |items| >= f.arraySize || r.None? then None else
      DecodeFields(fields, at.(members := at.members[i := Many(items + [Message(r.value.value)])]), rest)
  {
    var f := fields[i];
    OneField(fields, at, i, 2, WithLength(x), rest);
    StringTaken(x, rest);
    hide DecodeMessage, DecodeFields, WithLength, TagBytes, TakeString, DistinctTags, Defaults, DefaultValue;
    assert DecodeValue(f, DefaultValue(f), WithLength(x) + rest) ==
           var r := Decode(f.ptr.fields, x); if r.None? then None else Some(Taken(Message(r.value.value), rest));
    hide DecodeValue;
  }

  // Of two scalars in a field that is not repeated only the last counts.
  lemma LastScalarCounts(fields: seq<Field>, at: Progress, i: nat, v: Value, w: Value, rest: seq<byte>)
    requires DistinctTags(fields) && i < |fields| == |at.members| && 0 < fields[i].tag < MAX_TAG
    requires !fields[i].ltype.SubmessageType? && !fields[i].htype.Repeated? && ValueFits(fields[i], v) && ValueFits(fields[i], w)
    requires EncodeTagged(fields[i], v).Some? && EncodeTagged(fields[i], w).Some?
    requires |EncodeTagged(fields[i], v).value| < TWO_32 && |EncodeTagged(fields[i], w).value| < TWO_32
    ensures
      DecodeFields(fields, at, EncodeTagged(fields[i], v).value + (EncodeTagged(fields[i], w).value + rest))
      == DecodeFields(fields, at, EncodeTagged(fields[i], w).value + rest)
  {
    hide DistinctTags, ValueFits, EncodeTagged, DecodeFields, Home;
    var f := fields[i];
    ScalarOccurs(fields, at, i, v, EncodeTagged(f, w).value + rest);
    ScalarOccurs(fields, at, i, w, rest);
    var h := if f.htype.Oneof? then Home(fields, i) else i;
    var m, n := ScalarMember(f, v), ScalarMember(f, w);
    var now := Progress(at.members[h := m], SeenWith(f, i, at.seen));
    ScalarOccurs(fields, now, i, w, rest);
    assert now.members[h := n] == at.members[h := n];
  }

  function ScalarMember(f: Field, v: Value): Member {
    if f.htype.Oneof? then Chosen(f.tag, v) else if f.htype.Optional? && f.sizeOffset != 0 then Maybe(true, v) else Single(v)
  }

  lemma ScalarOccurs(fields: seq<Field>, at: Progress, i: nat, v: Value, rest: seq<byte>)
    requires DistinctTags(fields) && i < |fields| == |at.members| && 0 < fields[i].tag < MAX_TAG
    requires !fields[i].ltype.SubmessageType? && !fields[i].htype.Repeated? && ValueFits(fields[i], v)
    requires EncodeTagged(fields[i], v).Some? && |EncodeTagged(fields[i], v).value| < TWO_32
    ensures
      var f := fields[i];
      var h := if f.htype.Oneof? then Home(fields, i) else i;
      DecodeFields(fields, at, EncodeTagged(f, v).value + rest) ==
      DecodeFields(fields, Progress(at.members[h := ScalarMember(f, v)], SeenWith(f, i, at.seen)), rest)
  {
    var f := fields[i];
    ScalarDecodes(f, v, rest);
    hide DistinctTags, ValueFits, EncodeScalar, DecodeScalar, DecodeFields, Home, TagBytes, Prior;
    OneField(fields, at, i, WireType(f.ltype), EncodeScalar(f, v).value, rest);
  }

  // A packed array may come in several parts: two of them decode as one.
  lemma PackedPartsMerge(fields: seq<Field>, at: Progress, i: nat, first: seq<Value>, second: seq<Value>, rest: seq<byte>)
    requires DistinctTags(fields) && i < |fields| == |at.members| && 0 < fields[i].tag < MAX_TAG
    requires fields[i].htype.Repeated? && Packable(fields[i].ltype)
    requires forall k :: 0 <= k < |first| ==> ValueFits(fields[i], first[k])
    requires forall k :: 0 <= k < |second| ==> ValueFits(fields[i], second[k])
    requires EncodePacked(fields[i], first).Some? && EncodePacked(fields[i], second).Some?
    requires |EncodePacked(fields[i], first).value| + |EncodePacked(fields[i], second).value| < TWO_32
    ensures
      var tag, a, b := fields[i].tag, EncodePacked(fields[i], first).value, EncodePacked(fields[i], second).value;
      DecodeFields(fields, at, Occurrence(tag, a) + (Occurrence(tag, b) + rest)) == DecodeFields(fields, at, Occurrence(tag, a + b) + rest)
  {
    hide DistinctTags, ValueFits, DecodeFields, Packable, DecodePacked, EncodePacked, Occurrence;
    var f := fields[i];
    var a, b := EncodePacked(f, first).value, EncodePacked(f, second).value;
    var items := if at.members[i].Many? then at.members[i].items else [];
    PackedTaken(fields, at, i, a, Occurrence(f.tag, b) + rest);
    PackedTaken(fields, at, i, a + b, rest);
    PackedAppended(f, items, first, b);
    var part := DecodePacked(f, items, a);
    if part.Some? {
      var now := at.(members := at.members[i := Many(part.value)]);
      PackedTaken(fields, now, i, b, rest);
      if DecodePacked(f, part.value, b).Some? {
        var all := Many(DecodePacked(f, part.value, b).value);
        assert now.members[i := all] == at.members[i := all];
      }
    }
  }

  lemma PackedTaken(fields: seq<Field>, at: Progress, i: nat, packed: seq<byte>, rest: seq<byte>)
    requires DistinctTags(fields) && i < |fields| == |at.members| && 0 < fields[i].tag < MAX_TAG
    requires fields[i].htype.Repeated? && Packable(fields[i].ltype) && |packed| < TWO_32
    ensures
      var r := DecodePacked(fields[i], if at.members[i].Many? then at.members[i].items else [], packed);
      DecodeFields(fields, at, Occurrence(fields[i].tag, packed) + rest) ==
      if r.None? then None else DecodeFields(fields, at.(members := at.members[i := Many(r.value)]), rest)
  {
    OneField(fields, at, i, 2, WithLength(packed), rest);
    StringTaken(packed, rest);
    hide DistinctTags, DecodeFields, Packable, DecodePacked, TagBytes, WithLength, TakeString;
  }

  lemma {:induction false} PackedAppended(f: Field, before: seq<Value>, items: seq<Value>, more: seq<byte>)
    requires Packable(f.ltype) && forall k :: 0 <= k < |items| ==> ValueFits(f, items[k])
    requires EncodePacked(f, items).Some? && |EncodePacked(f, items).value| < TWO_32
    ensures
      var r := DecodePacked(f, before, EncodePacked(f, items).value);
      DecodePacked(f, before, EncodePacked(f, items).value + more) == if r.None? then None else DecodePacked(f, r.value, more)
    decreases |items|
  {
    hide ValueFits, EncodeScalar, DecodeScalar, Packable;
    if items == [] {
      assert [] + more == more;
    } else {
      var head, tail := EncodeScalar(f, items[0]).value, EncodePacked(f, items[1..]).value;
      NotSubmessage(f);
      ScalarDecodes(f, items[0], tail);
      ScalarDecodes(f, items[0], tail + more);
      Regroup(head, tail, more);
      if |before| < f.arraySize {
        PackedAppended(f, before + [items[0]], items[1..], more);
      }
    }
  }

  // An item of a packable array that comes in a field of its own is a part of one item.
  lemma ItemIsPart(fields: seq<Field>, at: Progress, i: nat, v: Value, rest: seq<byte>)
    requires DistinctTags(fields) && i < |fields| == |at.members| && 0 < fields[i].tag < MAX_TAG
    requires fields[i].htype.Repeated? && Packable(fields[i].ltype) && ValueFits(fields[i], v)
    requires EncodeTagged(fields[i], v).Some? && EncodePacked(fields[i], [v]).Some? && |EncodePacked(fields[i], [v]).value| < TWO_32
    ensures
      DecodeFields(fields, at, EncodeTagged(fields[i], v).value + rest)
      == DecodeFields(fields, at, Occurrence(fields[i].tag, EncodePacked(fields[i], [v]).value) + rest)
  {
    hide DistinctTags, ValueFits, DecodeFields, Packable, Occurrence, DecodePacked, EncodeScalar, DecodeScalar, EncodePacked, TagBytes,
      DefaultValue;
    var f := fields[i];
    var bytes, items := EncodePacked(f, [v]).value, if at.members[i].Many? then at.members[i].items else [];
    OnePacked(f, items, v, rest);
    PackedTaken(fields, at, i, bytes, rest);
    PackableIsNotString(f);
    OneField(fields, at, i, WireType(f.ltype), bytes, rest);
    assert EncodeTagged(f, v) == Some(TagBytes(f.tag, WireType(f.ltype)) + bytes);
    assert DecodeArray(f, items, WireType(f.ltype), bytes + rest) ==
           if |items| >= f.arraySize then None else Some(Taken(items + [v], rest));
    hide DecodeArray;
  }

  lemma OnePacked(f: Field, items: seq<Value>, v: Value, rest: seq<byte>)
    requires Packable(f.ltype) && ValueFits(f, v) && EncodePacked(f, [v]).Some? && |EncodePacked(f, [v]).value| < TWO_32
    ensures EncodeScalar(f, v) == EncodePacked(f, [v])
    ensures DecodeScalar(f, EncodePacked(f, [v]).value + rest) == Some(Taken(v, rest))
    ensures DecodePacked(f, items, EncodePacked(f, [v]).value) == if |items| >= f.arraySize then None else Some(items + [v])
  {
    NotSubmessage(f);
    hide ValueFits, EncodeScalar, DecodeScalar, Packable;
    var bytes := EncodeScalar(f, v).value;
    assert EncodePacked(f, []) == Some([]) && bytes + [] == bytes;
    ScalarDecodes(f, v, []);
    ScalarDecodes(f, v, rest);
    assert DecodePacked(f, items + [v], []) == Some(items + [v]);
  }

  lemma PackableIsNotString(f: Field)
    requires Packable(f.ltype)
    ensures WireType(f.ltype) != WT_STRING && !f.ltype.SubmessageType?
  {
  }
}
