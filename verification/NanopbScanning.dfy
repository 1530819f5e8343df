// Where the fields of a stream end, by the descriptor alone, and that decoding a field
// depends on nothing behind it.
module NanopbScanning {
  import opened Wrappers
  import opened NanopbWire
  import opened NanopbFields
  import opened NanopbEncoding
  import opened NanopbDecoding

  // What is left behind a value of a field's type.
  function ScanValue(f: Field, s: seq<byte>): (r: Option<seq<byte>>)
    ensures r.Some? ==> |r.value| < |s|
  {
    if f.ltype.Fixed32Type? then (if |s| >= 4 then Some(s[4..]) else None) else
    if f.ltype.Fixed64Type? then (if |s| >= 8 then Some(s[8..]) else None) else
    if f.ltype.VarintType? || f.ltype.UVarintType? || f.ltype.SVarintType? then
      var u := DecodeVarint(s);
      if u.Got? then Some(u.rest) else None
    else
      var b := TakeString(s);
      if b.Some? then Some(b.value.rest) else None
  }

  function ScanMember(f: Field, wireType: nat, s: seq<byte>): (r: Option<seq<byte>>)
    ensures r.Some? ==> |r.value| < |s|
  {
    if f.htype.Repeated? && wireType == WT_STRING && Packable(f.ltype) then
      var b := TakeString(s);
      if b.Some? then Some(b.value.rest) else None
    else ScanValue(f, s)
  }

  // What is left behind the first field, known or not.
  function NextField(fields: seq<Field>, s: seq<byte>): (r: Option<seq<byte>>)
    ensures r.Some? ==> |r.value| < |s|
  {
    var t := DecodeTag(s);
    if !t.Tag? then None else
    var i := FindFrom(fields, t.tag, 0);
    if i.Some? then ScanMember(fields[i.value], t.wireType, t.rest) else
    if fields == [] && t.tag == 0 then None else SkipField(t.wireType, t.rest)
  }

  predicate StartsKnown(fields: seq<Field>, s: seq<byte>) {
    DecodeTag(s).Tag? && FindFrom(fields, DecodeTag(s).tag, 0).Some?
  }

  // The stream is a sequence of whole fields: it does not end at a zero tag or within a
  // field.
  predicate EndsAtField(fields: seq<Field>, s: seq<byte>)
    decreases |s|
  {
    s == [] || (NextField(fields, s).Some? && EndsAtField(fields, NextField(fields, s).value))
  }

  // The stream without the fields that the message type does not have.
  function Strip(fields: seq<Field>, s: seq<byte>): seq<byte>
    decreases |s|
  {
    var r := NextField(fields, s);
    if r.None? then s else
    (if StartsKnown(fields, s) then s[..|s| - |r.value|] else []) + Strip(fields, r.value)
  }

  lemma Step(a: seq<byte>, r: seq<byte>)
    requires a != []
    ensures a + r != [] && (a + r)[0] == a[0] && (a + r)[1..] == a[1..] + r
  {
  }

  lemma OnlyOne(a: seq<byte>, r: seq<byte>, z: seq<byte>)
    requires a != [] && a[1..] + r == r
    ensures a[1..] + z == z
  {
    assert |a[1..] + r| == |a| - 1 + |r|;
  }

  // A stream a + r of which r is left, when something else follows a.
  lemma {:induction false} ReadVarintLocal(a: seq<byte>, r: seq<byte>, z: seq<byte>, limit: nat)
    requires ReadVarint(a + r, limit).Got? && ReadVarint(a + r, limit).rest == r
    ensures ReadVarint(a + z, limit) == Got(ReadVarint(a + r, limit).value, z)
    decreases limit
  {
    assert |a + r| > |r|;
    Step(a, r);
    Step(a, z);
    if a[0] >= 128 {
      ReadVarintLocal(a[1..], r, z, limit - 1);
    } else {
      OnlyOne(a, r, z);
    }
  }

  lemma Varint32Local(a: seq<byte>, r: seq<byte>, z: seq<byte>)
    requires DecodeVarint32(a + r).Got? && DecodeVarint32(a + r).rest == r
    ensures DecodeVarint32(a + z) == Got(DecodeVarint32(a + r).value, z)
  {
    ReadVarintLocal(a, r, z, MAX_VARINT32_BYTES);
    hide ReadVarint;
  }

  lemma VarintLocal(a: seq<byte>, r: seq<byte>, z: seq<byte>)
    requires DecodeVarint(a + r).Got? && DecodeVarint(a + r).rest == r
    ensures DecodeVarint(a + z) == Got(DecodeVarint(a + r).value, z)
  {
    ReadVarintLocal(a, r, z, MAX_VARINT_BYTES);
    hide ReadVarint;
  }

  lemma {:induction false} SkipVarintLocal(a: seq<byte>, r: seq<byte>, z: seq<byte>)
    requires SkipVarint(a + r) == Some(r)
    ensures SkipVarint(a + z) == Some(z)
    decreases |a|
  {
    assert |a + r| > |r|;
    Step(a, r);
    Step(a, z);
    if a[0] >= 128 {
      SkipVarintLocal(a[1..], r, z);
    } else {
      OnlyOne(a, r, z);
    }
  }

  // What is left is the end of the stream.
  ghost predicate IsTail(s: seq<byte>, r: seq<byte>) { |r| <= |s| && s[|s| - |r|..] == r }

  lemma TailOfTail(s: seq<byte>, r: seq<byte>, q: seq<byte>)
    requires IsTail(s, r) && IsTail(r, q)
    ensures IsTail(s, q)
  {
    assert s[|s| - |q|..] == s[|s| - |r|..][|r| - |q|..];
  }

  lemma TailSplits(s: seq<byte>, r: seq<byte>)
    requires IsTail(s, r)
    ensures s == s[..|s| - |r|] + r
  {
  }

  // The middle of a stream: a + r goes through b + r to r.
  lemma Middle(a: seq<byte>, r: seq<byte>, m: seq<byte>) returns (t: seq<byte>, b: seq<byte>)
    requires IsTail(a + r, m) && |r| <= |m|
    ensures a == t + b && m == b + r && a + r == t + m
  {
    t, b := a[..|a| + |r| - |m|], a[|a| + |r| - |m|..];
    assert m == (a + r)[|a| + |r| - |m|..] == b + r;
  }

  lemma Regroup(t: seq<byte>, b: seq<byte>, z: seq<byte>)
    ensures t + b + z == t + (b + z)
  {
  }

  lemma {:induction false} SkipVarintTail(s: seq<byte>)
    requires SkipVarint(s).Some?
    ensures IsTail(s, SkipVarint(s).value)
    decreases |s|
  {
    if s[0] >= 128 {
      SkipVarintTail(s[1..]);
      TailOfTail(s, s[1..], SkipVarint(s).value);
    }
  }

  lemma VarintTail(s: seq<byte>)
    ensures DecodeVarint32(s).Got? ==> IsTail(s, DecodeVarint32(s).rest)
    ensures DecodeVarint(s).Got? ==> IsTail(s, DecodeVarint(s).rest)
  {
    hide ReadVarint;
  }

  lemma StringTail(s: seq<byte>)
    requires TakeString(s).Some?
    ensures IsTail(s, TakeString(s).value.rest)
  {
    hide DecodeVarint32;
    VarintTail(s);
    TailOfTail(s, DecodeVarint32(s).rest, TakeString(s).value.rest);
  }

  lemma TakeStringLocal(a: seq<byte>, r: seq<byte>, z: seq<byte>)
    requires TakeString(a + r).Some? && TakeString(a + r).value.rest == r
    ensures TakeString(a + z) == Some(Taken(TakeString(a + r).value.value, z))
  {
    hide DecodeVarint32, IsTail;
    var v, n := TakeString(a + r).value.value, DecodeVarint32(a + r);
    VarintTail(a + r);
    var t, b := Middle(a, r, n.rest);
    Varint32Local(t, n.rest, b + z);
    Regroup(t, b, z);
    assert b == v && (b + z)[..|b|] == b && (b + z)[|b|..] == z;
  }

  lemma SkipFieldLocal(wireType: nat, a: seq<byte>, r: seq<byte>, z: seq<byte>)
    requires SkipField(wireType, a + r) == Some(r)
    ensures SkipField(wireType, a + z) == Some(z)
  {
    hide SkipVarint, TakeString;
    if wireType == WT_VARINT {
      SkipVarintLocal(a, r, z);
    } else if wireType == WT_STRING {
      TakeStringLocal(a, r, z);
    } else {
      assert (a + z)[|a|..] == z;
    }
  }

  lemma SkipFieldTail(wireType: nat, s: seq<byte>)
    requires SkipField(wireType, s).Some?
    ensures IsTail(s, SkipField(wireType, s).value)
  {
    hide SkipVarint, TakeString;
    if wireType == WT_VARINT {
      SkipVarintTail(s);
    } else if wireType == WT_STRING {
      StringTail(s);
    }
  }

  lemma ScanValueTail(f: Field, s: seq<byte>)
    requires ScanValue(f, s).Some?
    ensures IsTail(s, ScanValue(f, s).value)
  {
    hide TakeString, DecodeVarint;
    VarintTail(s);
    if TakeString(s).Some? { StringTail(s); }
  }

  lemma ScanMemberTail(f: Field, wireType: nat, s: seq<byte>)
    requires ScanMember(f, wireType, s).Some?
    ensures IsTail(s, ScanMember(f, wireType, s).value)
  {
    hide TakeString, ScanValue;
    if TakeString(s).Some? { StringTail(s); }
    if ScanValue(f, s).Some? { ScanValueTail(f, s); }
  }

  lemma NextFieldTail(fields: seq<Field>, s: seq<byte>)
    requires NextField(fields, s).Some?
    ensures IsTail(s, NextField(fields, s).value)
    ensures IsTail(s, DecodeTag(s).rest) && IsTail(DecodeTag(s).rest, NextField(fields, s).value)
  {
    var t := DecodeTag(s);
    VarintTail(s);
    hide DecodeVarint32, ScanMember, SkipField, IsTail;
    var i := FindFrom(fields, t.tag, 0);
    if i.Some? {
      ScanMemberTail(fields[i.value], t.wireType, t.rest);
    } else {
      SkipFieldTail(t.wireType, t.rest);
    }
    TailOfTail(s, t.rest, NextField(fields, s).value);
  }

  lemma ScanValueLocal(f: Field, a: seq<byte>, r: seq<byte>, z: seq<byte>)
    requires ScanValue(f, a + r) == Some(r)
    ensures ScanValue(f, a + z) == Some(z)
  {
    hide TakeString, DecodeVarint;
    if f.ltype.Fixed32Type? || f.ltype.Fixed64Type? {
      assert (a + z)[|a|..] == z;
    } else if f.ltype.VarintType? || f.ltype.UVarintType? || f.ltype.SVarintType? {
      VarintLocal(a, r, z);
    } else {
      TakeStringLocal(a, r, z);
    }
  }

  lemma ScanMemberLocal(f: Field, wireType: nat, a: seq<byte>, r: seq<byte>, z: seq<byte>)
    requires ScanMember(f, wireType, a + r) == Some(r)
    ensures ScanMember(f, wireType, a + z) == Some(z)
  {
    hide TakeString, ScanValue, Packable;
    if f.htype.Repeated? && wireType == WT_STRING && Packable(f.ltype) {
      TakeStringLocal(a, r, z);
    } else {
      ScanValueLocal(f, a, r, z);
    }
  }

  // What a value is read as, with something else left behind it.
  function Before<T>(r: Option<Taken<T>>, z: seq<byte>): Option<Taken<T>> {
    if r.None? then None else Some(Taken(r.value.value, z))
  }

  // A blob is a string that fits.
  lemma BlobIs(f: Field, s: seq<byte>)
    ensures DecodeBlob(f, s).Some? ==> TakeString(s).Some?
    ensures TakeString(s).Some? ==>
      var b := TakeString(s).value;
      DecodeBlob(f, s) == if !BlobFits(f, |b.value|) then None else
                          Some(Taken(Blob(if f.ltype.FixedLengthBytesType? && b.value == [] then Zeros(f.dataSize) else b.value), b.rest))
  {
    hide DecodeVarint32, BlobFits, Zeros;
    var n := DecodeVarint32(s);
    if n.Got? && n.value == 0 {
      assert n.rest[..0] == [] && n.rest[0..] == n.rest;
    }
  }

  lemma ScalarLocal(f: Field, a: seq<byte>, r: seq<byte>, z: seq<byte>)
    requires !f.ltype.SubmessageType? && ScanValue(f, a + r) == Some(r)
    ensures DecodeScalar(f, a + z) == Before(DecodeScalar(f, a + r), z)
  {
    hide DecodeVarint, DecodeBlob, DecodeInt, TakeString, BlobFits;
    match f.ltype
    case Fixed32Type =>
      assert |a| == 4 && (a + r)[..4] == a == (a + z)[..4] && (a + z)[4..] == z && (a + r)[4..] == r;
    case Fixed64Type =>
      assert |a| == 8 && (a + r)[..8] == a == (a + z)[..8] && (a + z)[8..] == z && (a + r)[8..] == r;
    case BytesType => BlobLocal(f, a, r, z);
    case StringType => BlobLocal(f, a, r, z);
    case FixedLengthBytesType => BlobLocal(f, a, r, z);
    case _ => VarintLocal(a, r, z);
  }

  lemma BlobLocal(f: Field, a: seq<byte>, r: seq<byte>, z: seq<byte>)
    requires TakeString(a + r).Some? && TakeString(a + r).value.rest == r
    ensures DecodeBlob(f, a + z) == Before(DecodeBlob(f, a + r), z)
  {
    hide TakeString, DecodeBlob, BlobFits;
    TakeStringLocal(a, r, z);
    BlobIs(f, a + r);
    BlobIs(f, a + z);
  }

  lemma ValueLocal(f: Field, prior: Value, a: seq<byte>, r: seq<byte>, z: seq<byte>)
    requires ScanValue(f, a + r) == Some(r)
    ensures DecodeValue(f, prior, a + z) == Before(DecodeValue(f, prior, a + r), z)
  {
    hide DecodeScalar, TakeString, DecodeMessage, SubMembers, DecodeVarint;
    if f.ltype.SubmessageType? {
      TakeStringLocal(a, r, z);
    } else {
      ScalarLocal(f, a, r, z);
    }
  }

  lemma MemberLocal(fields: seq<Field>, members: seq<Member>, i: nat, wireType: nat, a: seq<byte>, r: seq<byte>, z: seq<byte>)
    requires i < |fields| == |members| && ScanMember(fields[i], wireType, a + r) == Some(r)
    ensures DecodeMember(fields, members, i, wireType, a + z) == Before(DecodeMember(fields, members, i, wireType, a + r), z)
  {
    hide TakeString, ScanValue, DecodeValue, DecodePacked, Packable, Prior, Home;
    var f := fields[i];
    if f.htype.Repeated? && wireType == WT_STRING && Packable(f.ltype) {
      TakeStringLocal(a, r, z);
    } else {
      ValueLocal(f, if f.htype.Repeated? then DefaultValue(f) else Prior(f, members[i]), a, r, z);
    }
  }

  // A value that is decoded ends where the scan says.
  lemma ScalarScans(f: Field, s: seq<byte>)
    requires DecodeScalar(f, s).Some?
    ensures ScanValue(f, s) == Some(DecodeScalar(f, s).value.rest)
  {
    hide DecodeVarint, DecodeBlob, DecodeInt, TakeString, BlobFits;
    BlobIs(f, s);
  }

  lemma ValueScans(f: Field, prior: Value, s: seq<byte>)
    requires DecodeValue(f, prior, s).Some?
    ensures ScanValue(f, s) == Some(DecodeValue(f, prior, s).value.rest)
  {
    if !f.ltype.SubmessageType? { ScalarScans(f, s); }
    hide TakeString, DecodeScalar, DecodeMessage, SubMembers, DecodeVarint;
  }

  lemma MemberScans(fields: seq<Field>, members: seq<Member>, i: nat, wireType: nat, s: seq<byte>)
    requires i < |fields| == |members| && DecodeMember(fields, members, i, wireType, s).Some?
    ensures ScanMember(fields[i], wireType, s) == Some(DecodeMember(fields, members, i, wireType, s).value.rest)
  {
    var f := fields[i];
    var prior := if f.htype.Repeated? then DefaultValue(f) else Prior(f, members[i]);
    if DecodeValue(f, prior, s).Some? { ValueScans(f, prior, s); }
    hide TakeString, DecodeValue, ScanValue, DecodePacked, Packable, Prior, Home, DefaultValue;
  }

  // The first field of a stream, whatever follows it.
  lemma NextFieldLocal(fields: seq<Field>, a: seq<byte>, r: seq<byte>, z: seq<byte>)
    requires NextField(fields, a + r) == Some(r)
    ensures NextField(fields, a + z) == Some(z) && StartsKnown(fields, a + z) == StartsKnown(fields, a + r)
  {
    var t, head, b := TagLocal(fields, a, r, z);
    hide DecodeTag, ScanMember, SkipField, FindFrom;
    var i := FindFrom(fields, t.tag, 0);
    if i.Some? {
      ScanMemberLocal(fields[i.value], t.wireType, b, r, z);
    } else {
      SkipFieldLocal(t.wireType, b, r, z);
    }
  }

  lemma TagLocal(fields: seq<Field>, a: seq<byte>, r: seq<byte>, z: seq<byte>) returns (t: TagRead, head: seq<byte>, b: seq<byte>)
    requires NextField(fields, a + r) == Some(r)
    ensures t == DecodeTag(a + r) && t.Tag? && t.rest == b + r
    ensures DecodeTag(a + z) == Tag(t.tag, t.wireType, b + z)
  {
    hide IsTail, DecodeVarint32, ScanMember, SkipField, FindFrom;
    NextFieldTail(fields, a + r);
    t := DecodeTag(a + r);
    TailIsShorter(t.rest, r);
    head, b := Middle(a, r, t.rest);
    Varint32Local(head, t.rest, b + z);
    Regroup(head, b, z);
  }

  lemma TailIsShorter(s: seq<byte>, r: seq<byte>)
    requires IsTail(s, r)
    ensures |r| <= |s|
  {
  }

  // What the first field does to the struct; one that is not known does nothing.
  function FirstField(fields: seq<Field>, at: Progress, s: seq<byte>): (r: Option<Progress>)
    requires |at.members| == |fields| && NextField(fields, s).Some?
    ensures r.Some? ==> |r.value.members| == |fields|
  {
    var t := DecodeTag(s);
    var i := FindFrom(fields, t.tag, 0);
    if i.None? then Some(at) else
    var r := DecodeMember(fields, at.members, i.value, t.wireType, t.rest);
    if r.None? then None else Some(Seen(fields, i.value, r.value.value, at))
  }

  lemma FirstFieldLocal(fields: seq<Field>, at: Progress, a: seq<byte>, r: seq<byte>, z: seq<byte>)
    requires |at.members| == |fields| && NextField(fields, a + r) == Some(r)
    ensures NextField(fields, a + z) == Some(z) && FirstField(fields, at, a + z) == FirstField(fields, at, a + r)
  {
    NextFieldLocal(fields, a, r, z);
    var t, head, b := TagLocal(fields, a, r, z);
    var i := FindFrom(fields, t.tag, 0);
    hide DecodeTag, ScanMember, SkipField, FindFrom, DecodeMember;
    if i.Some? {
      MemberLocal(fields, at.members, i.value, t.wireType, b, r, z);
    }
  }

  // Decoding goes from field to field as the scan does.
  lemma DecodeFirst(fields: seq<Field>, at: Progress, s: seq<byte>)
    requires |at.members| == |fields| && NextField(fields, s).Some?
    ensures
      var first := FirstField(fields, at, s);
      DecodeFields(fields, at, s) == if first.None? then None else DecodeFields(fields, first.value, NextField(fields, s).value)
  {
    var t := DecodeTag(s);
    var i := FindFrom(fields, t.tag, 0);
    if i.Some? && DecodeMember(fields, at.members, i.value, t.wireType, t.rest).Some? {
      MemberScans(fields, at.members, i.value, t.wireType, t.rest);
    }
    hide DecodeTag, ScanMember, SkipField, FindFrom, DecodeMember;
  }

  // Where the scan finds no field, decoding ends or fails.
  lemma DecodeLast(fields: seq<Field>, at: Progress, s: seq<byte>)
    requires |at.members| == |fields| && s != [] && NextField(fields, s).None?
    ensures DecodeFields(fields, at, s) == if DecodeTag(s).End? then Some(Taken(at, DecodeTag(s).rest)) else None
  {
    var t := DecodeTag(s);
    if t.Tag? {
      var i := FindFrom(fields, t.tag, 0);
      if i.Some? && DecodeMember(fields, at.members, i.value, t.wireType, t.rest).Some? {
        MemberScans(fields, at.members, i.value, t.wireType, t.rest);
      }
    }
    hide DecodeTag, ScanMember, SkipField, FindFrom, DecodeMember;
  }

  // The first field and the rest.
  lemma FirstSplits(fields: seq<Field>, s: seq<byte>) returns (a: seq<byte>, r: seq<byte>)
    requires NextField(fields, s).Some?
    ensures s == a + r && NextField(fields, s) == Some(r) && a == s[..|s| - |r|]
  {
    hide NextField, IsTail;
    r := NextField(fields, s).value;
    NextFieldTail(fields, s);
    TailSplits(s, r);
    a := s[..|s| - |r|];
  }
}
