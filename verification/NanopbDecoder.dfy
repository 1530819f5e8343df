// The decoder as it runs: streams over a buffer, and the record of required fields seen.
module NanopbDecoder {
  import opened ByteOrder
  import opened Wrappers
  import opened NanopbWire
  import opened NanopbFields
  import opened NanopbEncoding
  import opened NanopbDecoding
  import opened NanopbEncoder
  import opened NanopbRequired
  import opened PowersOfTwo

  // An input stream over a buffer, limited to some bytes.
  class IStream {
    const source: seq<byte>
    var state: nat
    var bytesLeft: nat
    // What can still be read.
    ghost var rest: seq<byte>

    ghost predicate Valid()
      reads this
    {
      state + bytesLeft <= |source| && rest == source[state..state + bytesLeft]
    }

    constructor (source: seq<byte>, start: nat, size: nat)
      requires start + size <= |source|
      ensures Valid() && this.source == source && state == start && rest == source[start..start + size]
    {
      this.source, state, bytesLeft, rest := source, start, size, source[start..start + size];
    }

    // Read some bytes. It fails, and reads nothing, when there are not as many.
    method Read(count: nat) returns (bytes: Option<seq<byte>>)
      requires Valid()
      modifies this
      ensures Valid()
      ensures var t := Take(old(rest), count);
        if t.Some? then bytes == Some(t.value.value) && rest == t.value.rest else bytes == None && rest == old(rest)
    {
      if bytesLeft < count {
        bytes := None;
      } else {
        bytes := Some(source[state..state + count]);
        assert source[state..state + count] == rest[..count];
        state, bytesLeft, rest := state + count, bytesLeft - count, rest[count..];
      }
    }

    method ReadByte() returns (b: Option<byte>)
      requires Valid()
      modifies this
      ensures Valid()
      ensures if old(rest) == [] then b == None && rest == old(rest) else b == Some(old(rest)[0]) && rest == old(rest)[1..]
    {
      if bytesLeft == 0 {
        b := None;
      } else {
        b := Some(source[state]);
        state, bytesLeft, rest := state + 1, bytesLeft - 1, rest[1..];
      }
    }

    lemma AtEnd()
      requires Valid()
      ensures bytesLeft == |rest|
    {
    }
  }

  // What a reader returns and leaves, against what it should.
  ghost predicate Gives<T(!new)>(spec: Option<Taken<T>>, value: Option<T>, rest: seq<byte>) {
    if spec.Some? then value == Some(spec.value.value) && rest == spec.value.rest else value == None
  }

  // What is read when these bits have been read already.
  function Behind(r: Read<nat>, total: nat, weight: nat): Read<nat> {
    if r.Failed? then r else Got(total + Times(r.value, weight), r.rest)
  }

  function Times(a: nat, b: nat): nat { a * b }

  // After k bytes of a varint that starts where start does: the bits so far, and either
  // its end or more to read.
  ghost predicate Reading(start: seq<byte>, limit: nat, s: seq<byte>, k: nat, total: nat, weight: nat, last: byte) {
    && k <= limit
    && ReadVarint(start, limit) == if last < 128 then Got(total, s) else Behind(ReadVarint(s, limit - k), total, weight)
  }

  lemma ReadingStarts(start: seq<byte>, limit: nat)
    ensures Reading(start, limit, start, 0, 0, 1, 128)
  {
    var r := ReadVarint(start, limit);
    assert r.Got? ==> Times(r.value, 1) == r.value;
  }

  lemma ReadingGoesOn(start: seq<byte>, limit: nat, s: seq<byte>, k: nat, total: nat, weight: nat, last: byte)
    requires Reading(start, limit, s, k, total, weight, last) && last >= 128 && k < limit && s != []
    ensures Reading(start, limit, s[1..], k + 1, total + Times(s[0] % 128, weight), 128 * weight, s[0])
  {
    var tail := ReadVarint(s[1..], limit - k - 1);
    hide Times;
    if s[0] >= 128 && tail.Got? {
      Shifted(s[0], tail.value, weight);
    }
  }

  lemma Shifted(b: byte, v: nat, weight: nat)
    requires b >= 128
    ensures Times((b as nat) - 128 + 128 * v, weight) == Times(b % 128, weight) + Times(v, 128 * weight)
  {
    var low: nat := b % 128;
    assert (b as nat) - 128 == low;
    assert (low + 128 * v) * weight == low * weight + v * (128 * weight);
  }

  lemma ReadingFails(start: seq<byte>, limit: nat, s: seq<byte>, k: nat, total: nat, weight: nat, last: byte)
    requires Reading(start, limit, s, k, total, weight, last) && last >= 128 && (k == limit || s == [])
    ensures ReadVarint(start, limit) == Failed(s)
  {
  }

  lemma ReadingEnds(start: seq<byte>, limit: nat, s: seq<byte>, k: nat, total: nat, weight: nat, last: byte)
    requires Reading(start, limit, s, k, total, weight, last) && last < 128
    ensures ReadVarint(start, limit) == Got(total, s)
  {
  }

  function Cut(n: nat, width: nat): nat
    requires width > 0
  {
    n % width
  }

  predicate IsWidth(width: nat) { width == TWO_32 || width == TWO_64 }

  lemma AddedUp(total: nat, bits: nat, width: nat)
    requires width > 0 && IsWidth(width)
    ensures Cut(Cut(total, width) + bits, width) == Cut(total + bits, width)
  {
    if width == TWO_32 { AddedUp32(total, bits); } else { AddedUp64(total, bits); }
  }

  lemma AddedUp32(total: nat, bits: nat)
    ensures (total % TWO_32 + bits) % TWO_32 == (total + bits) % TWO_32
  {
  }

  lemma AddedUp64(total: nat, bits: nat)
    ensures (total % TWO_64 + bits) % TWO_64 == (total + bits) % TWO_64
  {
  }

  // The bits so far, and those of the next byte above them.
  function Or(total: nat, b: byte, weight: nat): nat { total + Times(b % 128, weight) }

  function Up(weight: nat): nat { 128 * weight }

  lemma OneByteMore(start: seq<byte>, limit: nat, s: seq<byte>, k: nat, total: nat, weight: nat, last: byte, width: nat)
    requires Reading(start, limit, s, k, total, weight, last) && last >= 128 && k < limit && s != []
    requires width > 0 && IsWidth(width)
    ensures Reading(start, limit, s[1..], k + 1, Or(total, s[0], weight), Up(weight), s[0])
    ensures Cut(Or(Cut(total, width), s[0], weight), width) == Cut(Or(total, s[0], weight), width)
  {
    ReadingGoesOn(start, limit, s, k, total, weight, last);
    AddedUp(total, Times(s[0] % 128, weight), width);
    hide Reading, Times, Cut;
  }

  // Add up seven bits a time. The bits of each byte lie above those of the ones before,
  // so that adding them is or-ing them; those beyond the width are cut off.
  method ReadBits(stream: IStream, limit: nat, width: nat) returns (value: Option<nat>)
    requires stream.Valid() && width > 0 && IsWidth(width)
    modifies stream
    ensures stream.Valid()
    ensures var r := ReadVarint(old(stream.rest), limit);
      stream.rest == r.rest && value == if r.Got? then Some(Cut(r.value, width)) else None
  {
    var result: nat, weight: nat, k: nat := 0, 1, 0;
    ghost var total: nat, start := 0, stream.rest;
    var b: byte := 128;
    ReadingStarts(start, limit);
    assert Cut(0, width) == 0;
    hide *;
    var ok := true;
    while b >= 128 && ok
      invariant stream.Valid() && k <= limit && result == Cut(total, width)
      invariant Reading(start, limit, stream.rest, k, total, weight, b)
      invariant !ok ==> ReadVarint(start, limit) == Failed(stream.rest)
      decreases ok, limit - k
    {
      ghost var s := stream.rest;
      if k >= limit {
        ReadingFails(start, limit, s, k, total, weight, b);
        ok := false;
      } else {
        var next := stream.ReadByte();
        if next.None? {
          ReadingFails(start, limit, s, k, total, weight, b);
          ok := false;
        } else {
          OneByteMore(start, limit, s, k, total, weight, b, width);
          total := Or(total, next.value, weight);
          result := Cut(Or(result, next.value, weight), width);
          b, weight, k := next.value, Up(weight), k + 1;
        }
      }
    }
    if ok {
      ReadingEnds(start, limit, stream.rest, k, total, weight, b);
    }
    value := if ok then Some(result) else None;
  }

  method ReadUint32(stream: IStream) returns (value: Option<nat>)
    requires stream.Valid()
    modifies stream
    ensures stream.Valid()
    ensures var r := DecodeVarint32(old(stream.rest));
      stream.rest == r.rest && value == if r.Got? then Some(r.value) else None
  {
    hide ReadVarint;
    value := ReadBits(stream, MAX_VARINT32_BYTES, TWO_32);
  }

  method ReadUint64(stream: IStream) returns (value: Option<nat>)
    requires stream.Valid()
    modifies stream
    ensures stream.Valid()
    ensures var r := DecodeVarint(old(stream.rest));
      stream.rest == r.rest && value == if r.Got? then Some(r.value) else None
  {
    hide ReadVarint;
    value := ReadBits(stream, MAX_VARINT_BYTES, TWO_64);
  }

  // A tag. The flag says that the message ends here.
  method ReadTag(stream: IStream) returns (tag: Option<(nat, nat)>, eof: bool)
    requires stream.Valid()
    modifies stream
    ensures stream.Valid()
    ensures match DecodeTag(old(stream.rest))
      case Tag(t, w, rest) => tag == Some((t, w)) && !eof && stream.rest == rest
      case End(rest) => tag == None && eof && stream.rest == rest
      case BadTag => tag == None && !eof
  {
    hide DecodeVarint32;
    var v := ReadUint32(stream);
    stream.AtEnd();
    if v.None? {
      return None, stream.bytesLeft == 0;
    }
    if v.value == 0 {
      return None, true;
    }
    return Some((v.value / 8, v.value % 8)), false;
  }

  method SkipVarintBytes(stream: IStream) returns (ok: bool)
    requires stream.Valid()
    modifies stream
    ensures stream.Valid()
    ensures var r := SkipVarint(old(stream.rest)); ok == r.Some? && (ok ==> stream.rest == r.value)
  {
    var b: byte := 128;
    while b >= 128
      invariant stream.Valid()
      invariant SkipVarint(old(stream.rest)) == if b < 128 then Some(stream.rest) else SkipVarint(stream.rest)
      decreases |stream.rest|, b
    {
      var next := stream.ReadByte();
      if next.None? {
        return false;
      }
      b := next.value;
    }
    ok := true;
  }

  // The bytes behind a length, as a stream of their own. The parent stream goes on
  // behind them.
  method MakeSubstream(stream: IStream) returns (substream: Option<IStream>)
    requires stream.Valid()
    modifies stream
    ensures stream.Valid()
    ensures var r := TakeString(old(stream.rest));
      if r.Some? then
        && substream.Some? && fresh(substream.value) && substream.value.Valid()
        && substream.value.rest == r.value.value && stream.rest == r.value.rest
      else substream == None
  {
    hide DecodeVarint32;
    var size := ReadUint32(stream);
    stream.AtEnd();
    if size.None? || stream.bytesLeft < size.value {
      return None;
    }
    var sub := new IStream(stream.source, stream.state, size.value);
    assert sub.rest == stream.rest[..size.value];
    stream.state, stream.bytesLeft := stream.state + size.value, stream.bytesLeft - size.value;
    stream.rest := stream.rest[size.value..];
    substream := Some(sub);
  }

  method SkipString(stream: IStream) returns (ok: bool)
    requires stream.Valid()
    modifies stream
    ensures stream.Valid()
    ensures var r := TakeString(old(stream.rest)); ok == r.Some? && (ok ==> stream.rest == r.value.rest)
  {
    hide DecodeVarint32;
    var size := ReadUint32(stream);
    if size.None? {
      return false;
    }
    var bytes := stream.Read(size.value);
    ok := bytes.Some?;
  }

  method SkipFieldBytes(stream: IStream, wireType: nat) returns (ok: bool)
    requires stream.Valid()
    modifies stream
    ensures stream.Valid()
    ensures var r := SkipField(wireType, old(stream.rest)); ok == r.Some? && (ok ==> stream.rest == r.value)
  {
    hide SkipVarint, TakeString;
    ok := false;
    if wireType == WT_VARINT {
      ok := SkipVarintBytes(stream);
    } else if wireType == WT_64BIT {
      var bytes := stream.Read(8);
      ok := bytes.Some?;
    } else if wireType == WT_STRING {
      ok := SkipString(stream);
    } else if wireType == WT_32BIT {
      var bytes := stream.Read(4);
      ok := bytes.Some?;
    }
  }

  // A value that is not a submessage.
  method ReadScalar(stream: IStream, f: Field) returns (v: Option<Value>)
    requires stream.Valid()
    modifies stream
    ensures stream.Valid() && Gives(DecodeScalar(f, old(stream.rest)), v, stream.rest)
  {
    hide IStream.Valid, DecodeVarint, DecodeInt, DecodeBlob, FromLittleEndian;
    v := None;
    match f.ltype
    case Fixed32Type =>
      var b := stream.Read(4);
      if b.Some? { v := Some(Bits(FromLittleEndian(b.value))); }
    case Fixed64Type =>
      var b := stream.Read(8);
      if b.Some? { v := Some(Bits(FromLittleEndian(b.value))); }
    case BytesType => v := ReadBlob(stream, f);
    case StringType => v := ReadBlob(stream, f);
    case FixedLengthBytesType => v := ReadBlob(stream, f);
    case SubmessageType =>
    case _ =>
      var u := ReadUint64(stream);
      if u.Some? { v := DecodeInt(f, u.value); }
  }

  method ReadBlob(stream: IStream, f: Field) returns (v: Option<Value>)
    requires stream.Valid()
    modifies stream
    ensures stream.Valid() && Gives(DecodeBlob(f, old(stream.rest)), v, stream.rest)
  {
    hide IStream.Valid, DecodeVarint32;
    v := None;
    var n := ReadUint32(stream);
    if n.Some? && BlobFits(f, n.value) {
      if f.ltype.FixedLengthBytesType? && n.value == 0 {
        v := Some(Blob(Zeros(f.dataSize)));
      } else {
        var b := stream.Read(n.value);
        if b.Some? { v := Some(Blob(b.value)); }
      }
    }
  }

  // The items of a packed array, while there is room for them.
  method ReadPacked(substream: IStream, f: Field, items: seq<Value>) returns (all: Option<seq<Value>>)
    requires substream.Valid()
    modifies substream
    ensures substream.Valid() && all == DecodePacked(f, items, old(substream.rest))
  {
    hide DecodeScalar;
    var now := items;
    substream.AtEnd();
    while substream.bytesLeft > 0 && |now| < f.arraySize
      invariant substream.Valid() && substream.bytesLeft == |substream.rest|
      invariant DecodePacked(f, items, old(substream.rest)) == DecodePacked(f, now, substream.rest)
      decreases substream.bytesLeft
    {
      var v := ReadScalar(substream, f);
      if v.None? {
        return None;
      }
      substream.AtEnd();
      now := now + [v.value];
    }
    all := if substream.bytesLeft != 0 then None else Some(now);
  }

  // The descriptor is one of a struct, its tags are distinct, and the check for required
  // fields is defined for their number; and so for those of its submessages.
  ghost predicate Decodable(fields: seq<Field>)
    decreases fields
  {
    && Laid(fields) && DistinctTags(fields)
    && RequiredCount(fields) < 64 && (RequiredCount(fields) == 0 || RequiredCount(fields) % 32 != 0)
    && forall i :: 0 <= i < |fields| ==> DecodableField(fields[i])
  }

  ghost predicate DecodableField(f: Field)
    decreases f
  {
    f.ptr.Fields? ==> Decodable(f.ptr.fields)
  }

  // The number of a required field among the required fields.
  ghost predicate Recorded(fields: seq<Field>, words: seq<bv32>, seen: set<nat>) {
    && |words| == 2 && RequiredCount(fields) < 64
    && (forall i :: 0 <= i < |fields| && fields[i].htype.Required? ==>
          RequiredBefore(fields, i) < 64 && (Marked(words, RequiredBefore(fields, i)) <==> i in seen))
    && forall r :: RequiredCount(fields) <= r < 64 ==> !Marked(words, r)
  }

  lemma {:induction false} RequiredGrows(fields: seq<Field>, i: nat, j: nat)
    requires i <= j <= |fields|
    ensures RequiredBefore(fields, i) <= RequiredBefore(fields, j)
    ensures i < j && fields[i].htype.Required? ==> RequiredBefore(fields, i) < RequiredBefore(fields, j)
    decreases j
  {
    if i < j { RequiredGrows(fields, i, j - 1); }
  }

  lemma NothingRecorded(fields: seq<Field>)
    requires RequiredCount(fields) < 64
    ensures Recorded(fields, [0, 0], {})
  {
    hide Marked, RequiredBefore;
    forall i | 0 <= i < |fields| && fields[i].htype.Required?
      ensures RequiredBefore(fields, i) < 64 && !Marked([0, 0], RequiredBefore(fields, i))
    {
      RequiredGrows(fields, i, |fields|);
      NoneMarked(RequiredBefore(fields, i));
    }
    forall r | RequiredCount(fields) <= r < 64 ensures !Marked([0, 0], r) { NoneMarked(r); }
  }

  // Marking the bit of a required field records it.
  lemma OneRecorded(fields: seq<Field>, words: seq<bv32>, seen: set<nat>, i: nat, r: nat)
    requires Recorded(fields, words, seen) && i < |fields| && fields[i].htype.Required? && r == RequiredBefore(fields, i)
    ensures r < 64 && Recorded(fields, words[r / 32 := words[r / 32] | (1 << Low5(r))], seen + {i})
  {
    hide Marked, RequiredBefore;
    var now := words[r / 32 := words[r / 32] | (1 << Low5(r))];
    RequiredGrows(fields, i, |fields|);
    forall j | 0 <= j < |fields| && fields[j].htype.Required?
      ensures Marked(now, RequiredBefore(fields, j)) <==> j in seen + {i}
    {
      MarkOne(words, r, RequiredBefore(fields, j));
      if i < j { RequiredGrows(fields, i, j); }
      if j < i { RequiredGrows(fields, j, i); }
    }
    forall s | RequiredCount(fields) <= s < 64 ensures !Marked(now, s) { MarkOne(words, r, s); }
  }

  lemma {:induction false} NumberTaken(fields: seq<Field>, n: nat, r: nat) returns (i: nat)
    requires n <= |fields| && r < RequiredBefore(fields, n)
    ensures i < n && fields[i].htype.Required? && RequiredBefore(fields, i) == r
    decreases n
  {
    if r < RequiredBefore(fields, n - 1) {
      i := NumberTaken(fields, n - 1, r);
    } else {
      i := n - 1;
    }
  }

  // All bits are marked exactly when all required fields have been seen.
  lemma AllRecorded(fields: seq<Field>, words: seq<bv32>, seen: set<nat>)
    requires Recorded(fields, words, seen)
    ensures AllSeen(fields, seen) <==> forall r :: 0 <= r < RequiredCount(fields) ==> Marked(words, r)
  {
    hide Marked, RequiredBefore;
    if AllSeen(fields, seen) {
      forall r | 0 <= r < RequiredCount(fields) ensures Marked(words, r) {
        var i := NumberTaken(fields, |fields|, r);
      }
    } else {
      var i :| 0 <= i < |fields| && fields[i].htype.Required? && i !in seen;
      RequiredGrows(fields, i, |fields|);
    }
  }

  // Count the required fields by running on to the end.
  method CountRequired(iter: FieldIter) returns (count: nat)
    requires iter.Valid()
    modifies iter
    ensures iter.Valid() && count == RequiredCount(iter.fields)
  {
    iter.InPlace();
    var more := true;
    var last := TERMINATOR;
    count := 0;
    while more
      invariant iter.Valid()
      invariant iter.pos <= |iter.fields| && (iter.pos == |iter.fields| ==> iter.fields == [])
      invariant !more ==>
        if iter.fields == [] then count == 0 && last == TERMINATOR
        else last == iter.fields[|iter.fields| - 1] && count == RequiredBefore(iter.fields, |iter.fields| - 1)
      decreases more, |iter.fields| - iter.pos
    {
      count, last := iter.requiredFieldIndex, FieldAt(iter.fields, iter.pos);
      more := iter.Next();
      iter.InPlace();
    }
    if last.htype.Required? && FieldAt(iter.fields, iter.pos).tag != 0 {
      count := count + 1;
    }
  }

  // The default of the data of a field: the fields of a submessage are set to theirs.
  method SetDataToDefault(f: Field) returns (v: Value)
    requires LaidField(f)
    ensures v == DefaultValue(f)
    decreases f, 0
  {
    hide Defaults, ZeroValue;
    if f.ltype.SubmessageType? {
      var sub := [];
      if f.ptr.Fields? {
        sub := SetToDefaults(f.ptr.fields);
      }
      v := Message(sub);
    } else if f.ptr.Default? {
      v := f.ptr.value;
    } else {
      v := ZeroValue(f);
    }
  }

  // The default of one field. An array is empty and a union unset, whatever their data.
  method SetFieldToDefault(fields: seq<Field>, i: nat) returns (m: Member)
    requires Laid(fields) && i < |fields|
    ensures m == DefaultMember(fields, i)
    decreases fields, 0
  {
    hide DefaultValue;
    var f := fields[i];
    if f.htype.Repeated? {
      m := Many([]);
    } else if f.htype.Oneof? {
      m := if Shares(fields, i) then Shared else Unchosen;
    } else {
      var v := SetDataToDefault(f);
      m := if f.htype.Optional? && f.sizeOffset != 0 then Maybe(false, v) else Single(v);
    }
  }

  // Set the members of a struct to defaults, one after the other.
  method SetToDefaults(fields: seq<Field>) returns (members: seq<Member>)
    requires Laid(fields)
    ensures members == Defaults(fields, 0)
    decreases fields, 1
  {
    LayoutDescribes(fields);
    hide DefaultMember, Describes, Layout, Laid;
    var iter := new FieldIter(fields, 0, Layout(fields, |fields|));
    members := [];
    var more := fields != [];
    while more
      invariant iter.Valid() && |members| <= |fields| && (more ==> iter.pos == |members| < |fields|)
      invariant !more ==> |members| == |fields|
      invariant Defaults(fields, 0) == members + Defaults(fields, |members|)
      decreases more, |fields| - |members|
    {
      var m := SetFieldToDefault(fields, iter.pos);
      Regroup(members, m, Defaults(fields, |members| + 1));
      members := members + [m];
      more := iter.Next();
    }
  }

  lemma Regroup(members: seq<Member>, m: Member, rest: seq<Member>)
    ensures members + ([m] + rest) == members + [m] + rest
  {
  }

  lemma DecodableIsLaid(f: Field)
    requires DecodableField(f)
    ensures f.ptr.Fields? ==> Laid(f.ptr.fields)
  {
  }

  // A value. A submessage is read from a stream of its own, into what is there already
  // unless it is an item of an array.
  method ReadValue(stream: IStream, f: Field, prior: Value) returns (v: Option<Value>)
    requires stream.Valid() && DecodableField(f)
    modifies stream
    ensures stream.Valid() && Gives(DecodeValue(f, prior, old(stream.rest)), v, stream.rest)
    decreases f, 0
  {
    hide IStream.Valid, DecodeScalar, TakeString, DecodeMessage, Decodable, Defaults, SubMembers;
    v := None;
    DecodableIsLaid(f);
    if !f.ltype.SubmessageType? {
      v := ReadScalar(stream, f);
    } else {
      var substream := MakeSubstream(stream);
      if substream.Some? && f.ptr.Fields? {
        var start := SubMembers(f.ptr.fields, prior);
        if f.htype.Repeated? {
          start := SetToDefaults(f.ptr.fields);
        }
        var members := ReadMessage(substream.value, f.ptr.fields, start);
        if members.Some? {
          v := Some(Message(members.value));
        }
      }
    }
  }

  // The items of an array: a packed run, or one more.
  method ReadArray(stream: IStream, f: Field, items: seq<Value>, wireType: nat) returns (all: Option<seq<Value>>)
    requires stream.Valid() && DecodableField(f)
    modifies stream
    ensures stream.Valid() && Gives(DecodeArray(f, items, wireType, old(stream.rest)), all, stream.rest)
    decreases f, 1
  {
    hide IStream.Valid, DecodeValue, TakeString, DecodePacked, Packable, DecodableField;
    all := None;
    if wireType == WT_STRING && Packable(f.ltype) {
      var substream := MakeSubstream(stream);
      if substream.Some? {
        all := ReadPacked(substream.value, f, items);
      }
    } else if |items| < f.arraySize {
      var v := ReadValue(stream, f, DefaultValue(f));
      if v.Some? {
        all := Some(items + [v.value]);
      }
    }
  }

  // Field i of a struct.
  method ReadMember(stream: IStream, fields: seq<Field>, members: seq<Member>, i: nat, wireType: nat) returns (now: Option<seq<Member>>)
    requires stream.Valid() && i < |fields| == |members| && DecodableField(fields[i])
    modifies stream
    ensures stream.Valid() && Gives(DecodeMember(fields, members, i, wireType, old(stream.rest)), now, stream.rest)
    decreases fields, 0
  {
    hide IStream.Valid, DecodeValue, DecodeArray, DecodableField, Prior;
    var f := fields[i];
    now := None;
    if f.htype.Repeated? {
      var all := ReadArray(stream, f, if members[i].Many? then members[i].items else [], wireType);
      if all.Some? {
        now := Some(members[i := Many(all.value)]);
      }
    } else {
      var v := ReadValue(stream, f, Prior(f, members[i]));
      if v.Some? {
        if f.htype.Oneof? {
          now := Some(members[Home(fields, i) := Chosen(f.tag, v.value)]);
        } else if f.htype.Optional? && f.sizeOffset != 0 {
          now := Some(members[i := Maybe(true, v.value)]);
        } else {
          now := Some(members[i := Single(v.value)]);
        }
      }
    }
  }

  datatype Status = GoOn | Stop | Fail

  // One turn of decoding: going on from where it leaves things is going on from before.
  ghost predicate Turn(fields: seq<Field>, was: Progress, before: seq<byte>, status: Status, now: Progress, after: seq<byte>) {
    && |was.members| == |fields| == |now.members|
    && match status
       case GoOn => |after| < |before| && DecodeFields(fields, was, before) == DecodeFields(fields, now, after)
       case Stop => DecodeFields(fields, was, before) == Some(Taken(now, after))
       case Fail => DecodeFields(fields, was, before) == None
  }

  lemma EndTurn(fields: seq<Field>, at: Progress, s: seq<byte>, rest: seq<byte>)
    requires |at.members| == |fields| && s != [] && !DecodeTag(s).Tag?
    ensures DecodeTag(s).End? ==> Turn(fields, at, s, Stop, at, DecodeTag(s).rest)
    ensures DecodeTag(s).BadTag? ==> Turn(fields, at, s, Fail, at, rest)
  {
    hide DecodeTag;
  }

  lemma SkipTurn(fields: seq<Field>, at: Progress, s: seq<byte>, ok: bool, rest: seq<byte>)
    requires |at.members| == |fields| && s != [] && DecodeTag(s).Tag? && !HasTag(fields, DecodeTag(s).tag)
    requires !(fields == [] && DecodeTag(s).tag == 0)
    requires var r := SkipField(DecodeTag(s).wireType, DecodeTag(s).rest); ok == r.Some? && (ok ==> rest == r.value)
    ensures Turn(fields, at, s, if ok then GoOn else Fail, at, rest)
  {
    hide DecodeTag, SkipField;
    assert FindFrom(fields, DecodeTag(s).tag, 0).None?;
  }

  lemma MemberTurn(fields: seq<Field>, at: Progress, s: seq<byte>, i: nat, now: Option<seq<Member>>, rest: seq<byte>)
    requires |at.members| == |fields| && s != [] && DecodeTag(s).Tag?
    requires DistinctTags(fields) && i < |fields| && fields[i].tag == DecodeTag(s).tag
    requires Gives(DecodeMember(fields, at.members, i, DecodeTag(s).wireType, DecodeTag(s).rest), now, rest)
    ensures if now.None? then Turn(fields, at, s, Fail, at, rest)
            else |now.value| == |fields| && Turn(fields, at, s, GoOn, Seen(fields, i, now.value, at), rest)
  {
    FindIsUnique(fields, DecodeTag(s).tag, i);
    hide DecodeTag, DecodeMember, FindFrom, DistinctTags;
  }

  // Tag zero finds the terminator of a struct without fields, which cannot be decoded.
  lemma TerminatorTurn(at: Progress, s: seq<byte>, rest: seq<byte>)
    requires at.members == [] && s != [] && DecodeTag(s).Tag? && DecodeTag(s).tag == 0
    ensures Turn([], at, s, Fail, at, rest)
    ensures DecodeScalar(TERMINATOR, DecodeTag(s).rest) == None
  {
    hide DecodeTag, DecodeVarint;
  }

  lemma FieldAtIs(fields: seq<Field>, pos: nat)
    ensures FieldAt(fields, pos).tag == if pos < |fields| then fields[pos].tag else 0
  {
  }

  lemma DecodableAt(fields: seq<Field>, i: nat)
    requires Decodable(fields) && i < |fields|
    ensures DecodableField(fields[i]) && DistinctTags(fields)
  {
  }

  // A field that was found: note a required one as seen, and decode it.
  method ReadFound(stream: IStream, iter: FieldIter, at: seq<Member>, words: seq<bv32>, wireType: nat,
                   ghost seen: set<nat>, ghost s: seq<byte>)
    returns (status: Status, members: seq<Member>, marked: seq<bv32>, ghost now: set<nat>)
    requires stream.Valid() && iter.Valid() && iter.pos < |iter.fields| == |at| && Decodable(iter.fields)
    requires Recorded(iter.fields, words, seen) && |words| == 2
    requires s != [] && DecodeTag(s) == Tag(iter.fields[iter.pos].tag, wireType, stream.rest)
    modifies stream
    ensures stream.Valid() && Recorded(iter.fields, marked, now) && |marked| == 2
    ensures |members| == |iter.fields| && Turn(iter.fields, Progress(at, seen), s, status, Progress(members, now), stream.rest)
    decreases iter.fields, 1
  {
    var i := iter.pos;
    iter.NumberIs();
    DecodableAt(iter.fields, i);
    hide *;
    marked, now, members, status := words, seen, at, Fail;
    if iter.fields[i].htype.Required? {
      OneRecorded(iter.fields, words, seen, i, iter.requiredFieldIndex);
    }
    var r := ReadMember(stream, iter.fields, at, i, wireType);
    MemberTurn(iter.fields, Progress(at, seen), s, i, r, stream.rest);
    if r.Some? {
      members, status := r.value, GoOn;
      if iter.fields[i].htype.Required? && iter.requiredFieldIndex < 64 {
        var index := iter.requiredFieldIndex;
        marked := words[index / 32 := words[index / 32] | (1 << Low5(index))];
        now := seen + {i};
      }
      SeenIs(iter.fields, i, members, at, seen);
    }
  }

  lemma SeenIs(fields: seq<Field>, i: nat, members: seq<Member>, at: seq<Member>, seen: set<nat>)
    requires i < |fields|
    ensures Seen(fields, i, members, Progress(at, seen)) == Progress(members, if fields[i].htype.Required? then seen + {i} else seen)
  {
  }

  // One field of the message, known or not.
  method ReadOneField(stream: IStream, iter: FieldIter, at: seq<Member>, words: seq<bv32>, ghost seen: set<nat>)
    returns (status: Status, members: seq<Member>, marked: seq<bv32>, ghost now: set<nat>)
    requires stream.Valid() && iter.Valid() && |iter.fields| == |at| && Decodable(iter.fields) && stream.rest != []
    requires Recorded(iter.fields, words, seen) && |words| == 2
    modifies stream, iter
    ensures stream.Valid() && iter.Valid() && Recorded(iter.fields, marked, now) && |marked| == 2
    ensures |members| == |iter.fields| && Turn(iter.fields, Progress(at, seen), old(stream.rest), status, Progress(members, now), stream.rest)
    decreases iter.fields, 2
  {
    hide *;
    ghost var s := stream.rest;
    status, members, marked, now := Fail, at, words, seen;
    var tag, eof := ReadTag(stream);
    if tag.None? {
      EndTurn(iter.fields, Progress(at, seen), s, stream.rest);
      status := if eof then Stop else Fail;
    } else {
      var found := iter.Find(tag.value.0);
      iter.InPlace();
      FieldAtIs(iter.fields, iter.pos);
      if !found {
        var ok := SkipFieldBytes(stream, tag.value.1);
        SkipTurn(iter.fields, Progress(at, seen), s, ok, stream.rest);
        status := if ok then GoOn else Fail;
      } else if iter.pos == |iter.fields| {
        var v := ReadScalar(stream, TERMINATOR);
        TerminatorTurn(Progress(at, seen), s, stream.rest);
      } else {
        status, members, marked, now := ReadFound(stream, iter, at, words, tag.value.1, seen, s);
      }
    }
  }

  // Decode into a struct as it is, and check that all required fields were there.
  method ReadMessage(stream: IStream, fields: seq<Field>, members: seq<Member>) returns (now: Option<seq<Member>>)
    requires stream.Valid() && Decodable(fields) && |members| == |fields|
    modifies stream
    ensures stream.Valid() && Gives(DecodeMessage(fields, members, old(stream.rest)), now, stream.rest)
    decreases fields, 4
  {
    LayoutDescribes(fields);
    DecodableCount(fields);
    NothingRecorded(fields);
    hide *;
    var iter := new FieldIter(fields, 0, Layout(fields, |fields|));
    var at, words, seen := ReadFields(stream, iter, members);
    now := None;
    if at.Some? {
      var count := CountRequired(iter);
      assert Recorded(fields, words, seen);
      RecordedCount(fields, words, seen);
      var ok := CheckRequired(words, count);
      AllRecorded(fields, words, seen);
      if ok {
        now := at;
      }
    }
    MessageIs(fields, members, old(stream.rest), at, seen, stream.rest, now);
  }

  // One field after the other until the message ends. None is the error return.
  method ReadFields(stream: IStream, iter: FieldIter, from: seq<Member>)
    returns (at: Option<seq<Member>>, words: seq<bv32>, ghost seen: set<nat>)
    requires stream.Valid() && iter.Valid() && Decodable(iter.fields) && |from| == |iter.fields|
    requires Recorded(iter.fields, [0, 0], {})
    modifies stream, iter
    ensures stream.Valid() && iter.Valid()
    ensures var r := DecodeFields(iter.fields, Progress(from, {}), old(stream.rest));
      if at.Some? then r == Some(Taken(Progress(at.value, seen), stream.rest)) && Recorded(iter.fields, words, seen) else r == None
    decreases iter.fields, 3
  {
    ghost var r := DecodeFields(iter.fields, Progress(from, {}), stream.rest);
    assert GoingOn(iter.fields, r, GoOn, Progress(from, {}), stream.rest);
    hide *;
    var members := from;
    words, seen := [0, 0], {};
    var status: Status := GoOn;
    stream.AtEnd();
    while stream.bytesLeft > 0 && status.GoOn?
      invariant stream.Valid() && iter.Valid() && stream.bytesLeft == |stream.rest|
      invariant |members| == |iter.fields| && |words| == 2 && Recorded(iter.fields, words, seen)
      invariant GoingOn(iter.fields, r, status, Progress(members, seen), stream.rest)
      decreases status.GoOn?, stream.bytesLeft
    {
      ghost var was, before := Progress(members, seen), stream.rest;
      status, members, words, seen := ReadOneField(stream, iter, members, words, seen);
      GoneOn(iter.fields, r, was, before, status, Progress(members, seen), stream.rest);
      stream.AtEnd();
    }
    AllGone(iter.fields, r, status, Progress(members, seen), stream.rest);
    at := if status.Fail? then None else Some(members);
  }

  // What is to come of the whole.
  ghost predicate GoingOn(fields: seq<Field>, r: Option<Taken<Progress>>, status: Status, at: Progress, rest: seq<byte>) {
    && |at.members| == |fields|
    && match status
       case GoOn => r == DecodeFields(fields, at, rest)
       case Stop => r == Some(Taken(at, rest))
       case Fail => r == None
  }

  lemma GoneOn(fields: seq<Field>, r: Option<Taken<Progress>>, was: Progress, before: seq<byte>, status: Status, now: Progress, after: seq<byte>)
    requires GoingOn(fields, r, GoOn, was, before) && Turn(fields, was, before, status, now, after)
    ensures GoingOn(fields, r, status, now, after) && (status.GoOn? ==> |after| < |before|)
  {
    hide DecodeFields;
  }

  lemma AllGone(fields: seq<Field>, r: Option<Taken<Progress>>, status: Status, at: Progress, rest: seq<byte>)
    requires GoingOn(fields, r, status, at, rest) && (status.GoOn? ==> rest == [])
    ensures if status.Fail? then r == None else r == Some(Taken(at, rest))
  {
  }

  lemma DecodableCount(fields: seq<Field>)
    requires Decodable(fields)
    ensures Laid(fields) && RequiredCount(fields) < 64 && (RequiredCount(fields) == 0 || RequiredCount(fields) % 32 != 0)
  {
  }

  lemma RecordedCount(fields: seq<Field>, words: seq<bv32>, seen: set<nat>)
    requires Recorded(fields, words, seen)
    ensures |words| == 2 && forall r :: RequiredCount(fields) <= r < 64 ==> !Marked(words, r)
  {
  }

  lemma MessageIs(fields: seq<Field>, members: seq<Member>, s: seq<byte>, at: Option<seq<Member>>, seen: set<nat>,
                  rest: seq<byte>, now: Option<seq<Member>>)
    requires |members| == |fields|
    requires var r := DecodeFields(fields, Progress(members, {}), s);
      if at.Some? then r == Some(Taken(Progress(at.value, seen), rest)) else r == None
    requires now == if at.Some? && AllSeen(fields, seen) then at else None
    ensures Gives(DecodeMessage(fields, members, s), now, rest)
  {
    hide DecodeFields, AllSeen;
  }

  // Decode a message into a struct set to defaults.
  method DecodeFrom(source: seq<byte>, fields: seq<Field>) returns (members: Option<seq<Member>>)
    requires Decodable(fields)
    ensures members == (var r := Decode(fields, source); if r.Some? then Some(r.value.value) else None)
  {
    var stream := new IStream(source, 0, |source|);
    assert source[0..|source|] == source;
    assert Laid(fields);
    hide *;
    var start := SetToDefaults(fields);
    DecodeIs(fields, source);
    members := ReadMessage(stream, fields, start);
    GivesValue(DecodeMessage(fields, start, source), members, stream.rest);
  }

  lemma DecodeIs(fields: seq<Field>, s: seq<byte>)
    ensures |Defaults(fields, 0)| == |fields| && Decode(fields, s) == DecodeMessage(fields, Defaults(fields, 0), s)
  {
  }

  lemma GivesValue<T(!new)>(spec: Option<Taken<T>>, value: Option<T>, rest: seq<byte>)
    requires Gives(spec, value, rest)
    ensures value == if spec.Some? then Some(spec.value.value) else None
  {
  }
}
