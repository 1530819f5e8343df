// What the decoder makes of a stream.
module NanopbDecoding {
  import opened ByteOrder
  import opened Wrappers
  import opened NanopbWire
  import opened NanopbFields
  import opened NanopbEncoding
  import opened PowersOfTwo

  // What was read, and what is left of the stream.
  datatype Taken<T> = Taken(value: T, rest: seq<byte>)

  datatype TagRead = Tag(tag: nat, wireType: nat, rest: seq<byte>) | End(rest: seq<byte>) | BadTag

  // A tag that cannot be read although nothing is left counts as the end of the message,
  // and so does a zero byte.
  function DecodeTag(s: seq<byte>): (r: TagRead)
    ensures r.Tag? ==> |r.rest| < |s|
  {
    var v := DecodeVarint32(s);
    if v.Failed? then (if v.rest == [] then End([]) else BadTag) else
    if v.value == 0 then End(v.rest) else Tag(v.value / 8, v.value % 8, v.rest)
  }

  function Take(s: seq<byte>, n: nat): (r: Option<Taken<seq<byte>>>)
    ensures r.Some? <==> n <= |s|
    ensures r.Some? ==> |r.value.value| == n && s == r.value.value + r.value.rest
  {
    if n <= |s| then Some(Taken(s[..n], s[n..])) else None
  }

  // A length, and as many bytes.
  function TakeString(s: seq<byte>): (r: Option<Taken<seq<byte>>>)
    ensures r.Some? ==> |r.value.value| + |r.value.rest| < |s|
  {
    var n := DecodeVarint32(s);
    if n.Failed? then None else Take(n.rest, n.value)
  }

  function SkipVarint(s: seq<byte>): (r: Option<seq<byte>>)
    ensures r.Some? ==> |r.value| < |s|
    decreases |s|
  {
    if s == [] then None else if s[0] < 128 then Some(s[1..]) else SkipVarint(s[1..])
  }

  function SkipField(wireType: nat, s: seq<byte>): (r: Option<seq<byte>>)
    ensures r.Some? ==> |r.value| <= |s|
  {
    if wireType == WT_VARINT then SkipVarint(s) else
    if wireType == WT_64BIT then (if |s| >= 8 then Some(s[8..]) else None) else
    if wireType == WT_STRING then (var r := TakeString(s); if r.Some? then Some(r.value.rest) else None) else
    if wireType == WT_32BIT then (if |s| >= 4 then Some(s[4..]) else None) else None
  }

  function Signed32(u: nat): int { if u % TWO_32 < 0x8000_0000 then u % TWO_32 else u % TWO_32 - TWO_32 }

  // Fields of at most four bytes take the low thirty-two bits, as a signed number.
  function DecodeInt(f: Field, u: nat): Option<Value>
    requires u < TWO_64
  {
    var n := if f.ltype.UVarintType? then u else
             if f.ltype.SVarintType? then UnZigZag(u) else
             if f.dataSize == 8 then Signed64(u) else Signed32(u);
    if (if f.ltype.UVarintType? then UnsignedFits(f.dataSize, n) else SignedFits(f.dataSize, n)) then Some(Int(n)) else None
  }

  function Zeros(n: nat): seq<byte> { seq(n, _ => 0) }

  // Whether a member has room for this many bytes.
  predicate BlobFits(f: Field, n: nat) {
    (f.ltype.BytesType? ==> n + BYTES_OFFSET <= f.dataSize)
    && (f.ltype.StringType? ==> n + 1 <= f.dataSize)
    && (f.ltype.FixedLengthBytesType? ==> n == 0 || n == f.dataSize)
  }

  function DecodeBlob(f: Field, s: seq<byte>): (r: Option<Taken<Value>>)
    ensures r.Some? ==> |r.value.rest| < |s|
  {
    var n := DecodeVarint32(s);
    if n.Failed? || !BlobFits(f, n.value) then None else
    if f.ltype.FixedLengthBytesType? && n.value == 0 then Some(Taken(Blob(Zeros(f.dataSize)), n.rest)) else
    var b := Take(n.rest, n.value);
    if b.None? then None else Some(Taken(Blob(b.value.value), b.value.rest))
  }

  function DecodeScalar(f: Field, s: seq<byte>): (r: Option<Taken<Value>>)
    ensures r.Some? ==> |r.value.rest| < |s|
  {
    match f.ltype
    case Fixed32Type => if |s| >= 4 then Some(Taken(Bits(FromLittleEndian(s[..4])), s[4..])) else None
    case Fixed64Type => if |s| >= 8 then Some(Taken(Bits(FromLittleEndian(s[..8])), s[8..])) else None
    case BytesType => DecodeBlob(f, s)
    case StringType => DecodeBlob(f, s)
    case FixedLengthBytesType => DecodeBlob(f, s)
    case SubmessageType => None
    case _ =>
      var u := DecodeVarint(s);
      if u.Failed? then None else
      var v := DecodeInt(f, u.value);
      if v.None? then None else Some(Taken(v.value, u.rest))
  }

  // The packed items of an array, as long as there is room.
  function DecodePacked(f: Field, items: seq<Value>, s: seq<byte>): Option<seq<Value>>
    decreases |s|
  {
    if s == [] then Some(items) else
    if |items| >= f.arraySize then None else
    var v := DecodeScalar(f, s);
    if v.None? then None else DecodePacked(f, items + [v.value.value], v.value.rest)
  }

  function ZeroValue(f: Field): Value {
    match f.ltype
    case Fixed32Type => Bits(0)
    case Fixed64Type => Bits(0)
    case BytesType => Blob([])
    case StringType => Blob([])
    case FixedLengthBytesType => Blob(Zeros(f.dataSize))
    case _ => Int(0)
  }

  function DefaultValue(f: Field): Value
    decreases f, 0
  {
    if f.ltype.SubmessageType? then Message(if f.ptr.Fields? then Defaults(f.ptr.fields, 0) else []) else
    if f.ptr.Default? then f.ptr.value else ZeroValue(f)
  }

  function DefaultMember(fields: seq<Field>, i: nat): Member
    requires i < |fields|
    decreases fields, |fields| - i, 0
  {
    match fields[i].htype
    case Required => Single(DefaultValue(fields[i]))
    case Optional =>
      if fields[i].sizeOffset != 0 then Maybe(false, DefaultValue(fields[i])) else Single(DefaultValue(fields[i]))
    case Repeated => Many([])
    case Oneof => if Shares(fields, i) then Shared else Unchosen
  }

  // The members of a struct set to defaults, from number i on.
  function Defaults(fields: seq<Field>, i: nat): (r: seq<Member>)
    ensures |r| == if i <= |fields| then |fields| - i else 0
    decreases fields, |fields| - i, 1
  {
    if i >= |fields| then [] else [DefaultMember(fields, i)] + Defaults(fields, i + 1)
  }

  // What a member holds when it is decoded into. A submessage of a union starts from its
  // defaults.
  function Prior(f: Field, m: Member): Value {
    if f.htype.Required? && m.Single? then m.value else
    if f.htype.Optional? && m.Single? then m.value else
    if f.htype.Optional? && m.Maybe? then m.value else DefaultValue(f)
  }

  function SubMembers(fields: seq<Field>, v: Value): (r: seq<Member>)
    ensures |r| == |fields|
  {
    if v.Message? && |v.members| == |fields| then v.members else Defaults(fields, 0)
  }

  function DecodeValue(f: Field, prior: Value, s: seq<byte>): (r: Option<Taken<Value>>)
    ensures r.Some? ==> |r.value.rest| < |s|
    decreases f, |s|, 0
  {
    if !f.ltype.SubmessageType? then DecodeScalar(f, s) else
    var sub := TakeString(s);
    if sub.None? || !f.ptr.Fields? then None else
    var start := if f.htype.Repeated? then Defaults(f.ptr.fields, 0) else SubMembers(f.ptr.fields, prior);
    var r := DecodeMessage(f.ptr.fields, start, sub.value.value);
    if r.None? then None else Some(Taken(Message(r.value.value), sub.value.rest))
  }

  function DecodeArray(f: Field, items: seq<Value>, wireType: nat, s: seq<byte>): (r: Option<Taken<seq<Value>>>)
    ensures r.Some? ==> |r.value.rest| < |s|
    decreases f, |s|, 1
  {
    if wireType == WT_STRING && Packable(f.ltype) then
      var sub := TakeString(s);
      if sub.None? then None else
      var r := DecodePacked(f, items, sub.value.value);
      if r.None? then None else Some(Taken(r.value, sub.value.rest))
    else
      if |items| >= f.arraySize then None else
      var v := DecodeValue(f, DefaultValue(f), s);
      if v.None? then None else Some(Taken(items + [v.value.value], v.value.rest))
  }

  // Decode field i into its member.
  function DecodeMember(fields: seq<Field>, members: seq<Member>, i: nat, wireType: nat, s: seq<byte>): (r: Option<Taken<seq<Member>>>)
    requires i < |fields| == |members|
    ensures r.Some? ==> |r.value.value| == |fields| && |r.value.rest| < |s|
    decreases fields, |s|, 2
  {
    var f := fields[i];
    if f.htype.Repeated? then
      var r := DecodeArray(f, if members[i].Many? then members[i].items else [], wireType, s);
      if r.None? then None else Some(Taken(members[i := Many(r.value.value)], r.value.rest))
    else
      var v := DecodeValue(f, Prior(f, members[i]), s);
      if v.None? then None else
      var m := if f.htype.Oneof? then Chosen(f.tag, v.value.value) else
               if f.htype.Optional? && f.sizeOffset != 0 then Maybe(true, v.value.value) else Single(v.value.value);
      Some(Taken(members[(if f.htype.Oneof? then Home(fields, i) else i) := m], v.value.rest))
  }

  // Where decoding has got to: the members, and the required fields seen.
  datatype Progress = Progress(members: seq<Member>, seen: set<nat>)

  // One field after the other, until the stream or the message ends.
  function DecodeFields(fields: seq<Field>, at: Progress, s: seq<byte>): (r: Option<Taken<Progress>>)
    requires |at.members| == |fields|
    ensures r.Some? ==> |r.value.value.members| == |fields|
    decreases fields, |s|, 3
  {
    if s == [] then Some(Taken(at, [])) else
    var t := DecodeTag(s);
    match t
    case BadTag => None
    case End(rest) => Some(Taken(at, rest))
    case Tag(tag, wireType, rest) =>
      var i := FindFrom(fields, tag, 0);
      if i.Some? then
        var r := DecodeMember(fields, at.members, i.value, wireType, rest);
        if r.None? then None else DecodeFields(fields, Seen(fields, i.value, r.value.value, at), r.value.rest)
      else if fields == [] && tag == 0 then None
      else
        var r := SkipField(wireType, rest);
        if r.None? then None else DecodeFields(fields, at, r.value)
  }

  function Seen(fields: seq<Field>, i: nat, members: seq<Member>, at: Progress): Progress
    requires i < |fields|
  {
    Progress(members, if fields[i].htype.Required? then at.seen + {i} else at.seen)
  }

  predicate AllSeen(fields: seq<Field>, seen: set<nat>) {
    forall i :: 0 <= i < |fields| && fields[i].htype.Required? ==> i in seen
  }

  // Decode into a struct as it is.
  function DecodeMessage(fields: seq<Field>, members: seq<Member>, s: seq<byte>): (r: Option<Taken<seq<Member>>>)
    requires |members| == |fields|
    ensures r.Some? ==> |r.value.value| == |fields|
    decreases fields, |s|, 4
  {
    var r := DecodeFields(fields, Progress(members, {}), s);
    if r.None? || !AllSeen(fields, r.value.value.seen) then None else Some(Taken(r.value.value.members, r.value.rest))
  }

  // Decode into a struct set to defaults.
  function Decode(fields: seq<Field>, s: seq<byte>): Option<Taken<seq<Member>>> {
    DecodeMessage(fields, Defaults(fields, 0), s)
  }
}
