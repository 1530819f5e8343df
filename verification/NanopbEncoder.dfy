// The encoder as it runs: streams that write into a buffer, or only count.
module NanopbEncoder {
  import opened ByteOrder
  import opened Wrappers
  import opened NanopbWire
  import opened NanopbFields
  import opened NanopbEncoding
  import opened PowersOfTwo

  // How much a stream has written, and what.
  datatype Output = Output(count: nat, bytes: seq<byte>)

  // From was to now, the stream took exactly these bytes; or it did not, because there is
  // nothing to encode or no room for it.
  ghost predicate Took(r: Option<seq<byte>>, ok: bool, sizing: bool, max: nat, was: Output, now: Output) {
    && (ok <==> r.Some? && (sizing || was.count + |r.value| <= max))
    && (ok ==> now.count == was.count + |r.value| && (!sizing ==> now.bytes == was.bytes + r.value))
  }

  lemma TookBoth(a: seq<byte>, b: Option<seq<byte>>, ok: bool, sizing: bool, max: nat, was: Output, mid: Output, now: Output)
    requires Took(Some(a), true, sizing, max, was, mid) && Took(b, ok, sizing, max, mid, now)
    ensures Took(Concat(Some(a), b), ok, sizing, max, was, now)
  {
    if b.Some? { assert was.bytes + a + b.value == was.bytes + (a + b.value); }
  }

  lemma TookNotFirst(a: Option<seq<byte>>, b: Option<seq<byte>>, sizing: bool, max: nat, was: Output, now: Output)
    requires Took(a, false, sizing, max, was, now)
    ensures Took(Concat(a, b), false, sizing, max, was, now)
  {
  }

  // An output stream. Without a buffer it only counts what would be written.
  class OStream {
    const buf: array?<byte>
    const maxSize: nat
    var state: nat
    var bytesWritten: nat

    // Where in the buffer the stream started, what lies before, which stays, and what it
    // has written since.
    ghost const base: nat
    ghost const below: seq<byte>
    ghost var written: seq<byte>

    ghost predicate Valid()
      reads this, buf
    {
      buf != null ==>
        && bytesWritten <= maxSize && base + maxSize <= buf.Length && state == base + bytesWritten
        && |below| == base && |written| == bytesWritten
        && (forall k :: 0 <= k < base ==> buf[k] == below[k])
        && forall k :: 0 <= k < bytesWritten ==> buf[base + k] == written[k]
    }

    ghost function Out(): Output
      reads this
    {
      Output(bytesWritten, written)
    }

    lemma HasRoom()
      requires Valid()
      ensures buf != null ==> bytesWritten <= maxSize
    {
    }

    constructor FromBuffer(buf: array<byte>, start: nat, maxSize: nat)
      requires start + maxSize <= buf.Length
      ensures Valid() && this.buf == buf && base == start && this.maxSize == maxSize && below == buf[..start] && Out() == Output(0, [])
    {
      this.buf, base, below, this.maxSize, state, bytesWritten, written := buf, start, buf[..start], maxSize, start, 0, [];
    }

    constructor Sizing()
      ensures Valid() && buf == null && Out() == Output(0, [])
    {
      buf, base, below, maxSize, state, bytesWritten, written := null, 0, [], 0, 0, 0, [];
    }

    // Write bytes, or count those not given. It fails when the buffer is full.
    method Write(bytes: Option<seq<byte>>, count: nat) returns (ok: bool)
      requires Valid()
      requires if bytes.Some? then |bytes.value| == count else buf == null
      modifies this, buf
      ensures Valid()
      ensures ok <==> buf == null || old(bytesWritten) + count <= maxSize
      ensures bytesWritten == if ok then old(bytesWritten) + count else old(bytesWritten)
      ensures buf != null ==> written == if ok then old(written) + bytes.value else old(written)
    {
      ok := true;
      if buf != null {
        if bytesWritten + count > maxSize {
          return false;
        }
        for i := 0 to count
          invariant state == old(state) && bytesWritten == old(bytesWritten) && written == old(written)
          invariant forall k :: 0 <= k < state ==> buf[k] == old(buf[k])
          invariant forall k :: 0 <= k < i ==> buf[state + k] == bytes.value[k]
        {
          buf[state + i] := bytes.value[i];
        }
        state, written := state + count, written + bytes.value;
      }
      bytesWritten := bytesWritten + count;
    }

    method WriteBytes(bytes: seq<byte>) returns (ok: bool)
      requires Valid()
      modifies this, buf
      ensures Valid()
      ensures Took(Some(bytes), ok, buf == null, maxSize, old(Out()), Out())
    {
      ok := Write(Some(bytes), |bytes|);
    }
  }

  // All bytes of a varint with their top bit set.
  function Continued(n: nat): seq<byte> { if n == 0 then [] else [n % 128 + 128] + Continued(n / 128) }

  lemma {:induction false} ContinuedIsVarint(n: nat)
    requires n > 0
    ensures
      var c := Continued(n);
      c != [] && c[|c| - 1] >= 128 && Varint(n) == c[..|c| - 1] + [c[|c| - 1] - 128]
  {
    if n < 128 {
      assert Continued(n) == [n + 128];
    } else {
      ContinuedIsVarint(n / 128);
      var c, d := Continued(n), Continued(n / 128);
      assert c == [c[0]] + d && c[..|c| - 1] == [c[0]] + d[..|d| - 1];
    }
  }

  lemma ContinuedFits(n: nat)
    requires 0 < n < TWO_64
    ensures 0 < |Continued(n)| <= MAX_VARINT_BYTES && LeftOf(Continued(n), 0, n)
  {
    VarintRoundTrip(n, []);
    ContinuedIsVarint(n);
    hide Varint, DecodeVarint, Continued;
    assert Continued(n)[0..] == Continued(n);
  }

  ghost predicate LeftOf(c: seq<byte>, i: nat, value: nat) { i <= |c| && c[i..] == Continued(value) }

  lemma LeftNext(c: seq<byte>, i: nat, value: nat)
    requires LeftOf(c, i, value)
    ensures i <= |c| && (value == 0 <==> i == |c|)
    ensures value > 0 ==> c[i] == value % 128 + 128 && LeftOf(c, i + 1, value / 128)
  {
    if value > 0 {
      assert c[i..][0] == c[i] && c[i..][1..] == c[i + 1..];
    }
  }

  // Fill a buffer of ten bytes.
  method FillVarint(n: nat) returns (buffer: array<byte>, i: nat)
    requires 0 < n < TWO_64
    ensures fresh(buffer) && i <= buffer.Length && buffer[..i] == Varint(n)
  {
    hide Varint, Continued, LeftOf;
    ghost var c := Continued(n);
    ContinuedFits(n);
    buffer := new byte[MAX_VARINT_BYTES];
    var value := n;
    i := 0;
    while value > 0
      invariant i <= |c| <= 10 && LeftOf(c, i, value)
      invariant forall k :: 0 <= k < i ==> buffer[k] == c[k]
      decreases value
    {
      LeftNext(c, i, value);
      buffer[i] := value % 128 + 128;
      value, i := value / 128, i + 1;
    }
    LeftNext(c, i, value);
    ContinuedIsVarint(n);
    buffer[i - 1] := buffer[i - 1] % 128;
    assert buffer[..i] == c[..i - 1] + [c[i - 1] - 128];
  }

  method EncodeVarint(stream: OStream, n: nat) returns (ok: bool)
    requires stream.Valid() && n < TWO_64
    modifies stream, stream.buf
    ensures stream.Valid()
    ensures Took(Some(Varint(n)), ok, stream.buf == null, stream.maxSize, old(stream.Out()), stream.Out())
  {
    if n <= 0x7f {
      ok := stream.WriteBytes([n]);
    } else {
      var buffer, i := FillVarint(n);
      ok := stream.WriteBytes(buffer[..i]);
    }
  }

  method EncodeTag(stream: OStream, wireType: nat, tag: nat) returns (ok: bool)
    requires stream.Valid() && wireType < 8 && tag <= SIZE_MAX
    modifies stream, stream.buf
    ensures stream.Valid()
    ensures Took(Some(TagBytes(tag, wireType)), ok, stream.buf == null, stream.maxSize, old(stream.Out()), stream.Out())
  {
    hide Varint, OStream.Valid;
    ok := EncodeVarint(stream, tag * 8 + wireType);
  }

  // Bytes behind their length.
  method EncodeString(stream: OStream, bytes: seq<byte>) returns (ok: bool)
    requires stream.Valid()
    modifies stream, stream.buf
    ensures stream.Valid()
    ensures Took(Some(WithLength(bytes)), ok, stream.buf == null, stream.maxSize, old(stream.Out()), stream.Out())
  {
    hide Varint, OStream.Valid, Took;
    ok := EncodeVarint(stream, |bytes| % TWO_64);
    if ok {
      ghost var mid := stream.Out();
      ok := stream.WriteBytes(bytes);
      TookBoth(Varint(|bytes| % TWO_64), Some(bytes), ok, stream.buf == null, stream.maxSize, old(stream.Out()), mid, stream.Out());
    } else {
      TookNotFirst(Some(Varint(|bytes| % TWO_64)), Some(bytes), stream.buf == null, stream.maxSize, old(stream.Out()), stream.Out());
    }
  }

  predicate IntSize(n: nat) { n == 1 || n == 2 || n == 4 || n == 8 }

  // What the memory of a member can hold, whether or not it is within its bounds.
  ghost predicate Typed(f: Field, v: Value)
    decreases f, 0
  {
    match f.ltype
    case UVarintType => v.Int? && (IntSize(f.dataSize) ==> UnsignedFits(f.dataSize, v.n))
    case Fixed32Type => v.Bits? && v.bits < TWO_32
    case Fixed64Type => v.Bits? && v.bits < TWO_64
    case BytesType => v.Blob?
    case StringType => v.Blob?
    case FixedLengthBytesType => v.Blob? && |v.bytes| == f.dataSize
    case SubmessageType => f.ptr.Fields? ==> v.Message? && TypedMembers(f.ptr.fields, v.members)
    case _ => v.Int? && (IntSize(f.dataSize) ==> SignedFits(f.dataSize, v.n))
  }

  ghost predicate TypedMember(fields: seq<Field>, m: Member, i: nat)
    requires i < |fields|
    decreases fields, 0
  {
    var f := fields[i];
    match f.htype
    case Required => m.Single? && Typed(f, m.value)
    case Optional => if f.sizeOffset != 0 then m.Maybe? && Typed(f, m.value) else m.Single? && Typed(f, m.value)
    case Repeated => m.Many? && forall k :: 0 <= k < |m.items| ==> Typed(f, m.items[k])
    case Oneof =>
      m.Chosen? ==> forall j :: 0 <= j < |fields| && fields[j].htype.Oneof? && Home(fields, j) == i && fields[j].tag == m.which ==> Typed(fields[j], m.value)
  }

  ghost predicate TypedMembers(fields: seq<Field>, members: seq<Member>)
    decreases fields, 1
  {
    |members| == |fields| && forall i :: 0 <= i < |fields| ==> TypedMember(fields, members[i], i)
  }

  method StringSize(bytes: seq<byte>, max: nat) returns (size: nat)
    ensures size == StringLength(bytes, max)
  {
    size := 0;
    while size < max && size < |bytes| && bytes[size] != 0
      invariant size <= |bytes| && size <= max
      invariant forall i :: 0 <= i < size ==> bytes[i] != 0
    {
      size := size + 1;
    }
    StringLengthIs(bytes, max, size);
  }

  lemma {:induction false} StringLengthIs(b: seq<byte>, max: nat, n: nat)
    requires n <= |b| && n <= max && forall i :: 0 <= i < n ==> b[i] != 0
    requires n < |b| && n < max ==> b[n] == 0
    ensures StringLength(b, max) == n
    decreases n
  {
    if n > 0 { StringLengthIs(b[1..], max - 1, n - 1); }
  }

  // The bytes of a value by shifting it right.
  lemma FixedFour(n: nat)
    ensures LittleEndian(n, 4) == [n % 256, n / 0x100 % 256, n / 0x1_0000 % 256, n / 0x100_0000 % 256]
  {
    assert n / 0x100 / 256 == n / 0x1_0000 && n / 0x1_0000 / 256 == n / 0x100_0000;
    assert LittleEndian(n / 0x100_0000, 1) == [n / 0x100_0000 % 256];
    assert LittleEndian(n / 0x1_0000, 2) == [n / 0x1_0000 % 256] + LittleEndian(n / 0x100_0000, 1);
    assert LittleEndian(n / 0x100, 3) == [n / 0x100 % 256] + LittleEndian(n / 0x1_0000, 2);
  }

  lemma FixedEight(n: nat)
    ensures LittleEndian(n, 8) == [n % 256, n / 0x100 % 256, n / 0x1_0000 % 256, n / 0x100_0000 % 256]
                           + [n / 0x1_0000_0000 % 256, n / 0x100_0000_0000 % 256, n / 0x1_0000_0000_0000 % 256, n / 0x100_0000_0000_0000 % 256]
  {
    var m := n / 0x1_0000_0000;
    FixedFour(m);
    assert m / 0x100 == n / 0x100_0000_0000 && m / 0x1_0000 == n / 0x1_0000_0000_0000 && m / 0x100_0000 == n / 0x100_0000_0000_0000;
    assert n / 0x100 / 256 == n / 0x1_0000 && n / 0x1_0000 / 256 == n / 0x100_0000 && n / 0x100_0000 / 256 == m;
    hide LittleEndian;
    NextFixed(n, 8);
    NextFixed(n / 0x100, 7);
    NextFixed(n / 0x1_0000, 6);
    NextFixed(n / 0x100_0000, 5);
  }

  lemma NextFixed(n: nat, width: nat)
    requires width > 0
    ensures LittleEndian(n, width) == [n % 256] + LittleEndian(n / 256, width - 1)
  {
  }

  // A scalar. It fails on a descriptor with an impossible size, and on bytes that are
  // longer than their buffer.
  method WriteScalar(stream: OStream, f: Field, v: Value) returns (ok: bool)
    requires stream.Valid() && !f.ltype.SubmessageType? && Typed(f, v)
    modifies stream, stream.buf
    ensures stream.Valid()
    ensures Took(EncodeScalar(f, v), ok, stream.buf == null, stream.maxSize, old(stream.Out()), stream.Out())
  {
    hide Varint, LittleEndian, WithLength, OStream.Valid, ZigZag, Unsigned64;
    ok := false;
    match f.ltype
    case VarintType =>
      if IntSize(f.dataSize) { ok := EncodeVarint(stream, Unsigned64(v.n)); }
    case UVarintType =>
      if IntSize(f.dataSize) { ok := EncodeVarint(stream, v.n); }
    case SVarintType =>
      if IntSize(f.dataSize) { ok := EncodeVarint(stream, ZigZag(v.n)); }
    case Fixed32Type =>
      FixedFour(v.bits);
      ok := stream.WriteBytes([v.bits % 256, v.bits / 0x100 % 256, v.bits / 0x1_0000 % 256, v.bits / 0x100_0000 % 256]);
    case Fixed64Type =>
      var n := v.bits;
      FixedEight(n);
      ok := stream.WriteBytes([n % 256, n / 0x100 % 256, n / 0x1_0000 % 256, n / 0x100_0000 % 256]
        + [n / 0x1_0000_0000 % 256, n / 0x100_0000_0000 % 256, n / 0x1_0000_0000_0000 % 256, n / 0x100_0000_0000_0000 % 256]);
    case BytesType =>
      if |v.bytes| + BYTES_OFFSET <= f.dataSize { ok := EncodeString(stream, v.bytes); }
    case StringType =>
      var size := StringSize(v.bytes, f.dataSize);
      ok := EncodeString(stream, v.bytes[..size]);
    case FixedLengthBytesType =>
      ok := EncodeString(stream, v.bytes);
  }

  // Where the members of a struct with this descriptor lie.
  ghost function Layout(fields: seq<Field>, n: nat): (r: seq<nat>)
    requires n <= |fields|
    ensures |r| == n
  {
    if n == 0 then [] else
    var r := Layout(fields, n - 1);
    r + [if n == 1 then fields[0].dataOffset else
         if Shares(fields, n - 1) then r[n - 2] else r[n - 2] + MemberSize(fields[n - 2]) + fields[n - 1].dataOffset]
  }

  // The descriptor is one of a struct, and so are those of its submessages.
  ghost predicate Laid(fields: seq<Field>)
    decreases fields
  {
    forall i :: 0 <= i < |fields| ==>
      && 0 < fields[i].tag <= SIZE_MAX
      && (Shares(fields, i) ==> fields[i].sizeOffset == fields[i - 1].sizeOffset)
      && LaidField(fields[i])
  }

  ghost predicate LaidField(f: Field)
    decreases f
  {
    f.ptr.Fields? ==> Laid(f.ptr.fields)
  }

  lemma {:induction false} LayoutDescribes(fields: seq<Field>)
    requires Laid(fields)
    ensures Describes(fields, Layout(fields, |fields|))
  {
    forall i | 0 <= i < |fields| ensures Layout(fields, |fields|)[i] == Layout(fields, i + 1)[i] {
      LayoutPrefix(fields, i + 1, |fields|, i);
    }
    forall i | 0 < i < |fields| ensures Layout(fields, i + 1)[i - 1] == Layout(fields, i)[i - 1] {
    }
  }

  lemma {:induction false} LayoutPrefix(fields: seq<Field>, m: nat, n: nat, i: nat)
    requires i < m <= n <= |fields|
    ensures Layout(fields, n)[i] == Layout(fields, m)[i]
    decreases n
  {
    if m < n { LayoutPrefix(fields, m, n - 1, i); }
  }

  // The items of a packed array.
  method WritePacked(stream: OStream, f: Field, items: seq<Value>) returns (ok: bool)
    requires stream.Valid() && Packable(f.ltype) && forall k :: 0 <= k < |items| ==> Typed(f, items[k])
    modifies stream, stream.buf
    ensures stream.Valid()
    ensures Took(EncodePacked(f, items), ok, stream.buf == null, stream.maxSize, old(stream.Out()), stream.Out())
  {
    stream.HasRoom();
    hide Typed, EncodeScalar, OStream.Valid;
    ghost var done: seq<byte> := [];
    ok := true;
    var i := 0;
    assert items[0..] == items;
    TookNothing(EncodePacked(f, items), stream.buf == null, stream.maxSize, stream.Out());
    while i < |items| && ok
      invariant i <= |items| && stream.Valid()
      invariant ok ==> Took(Some(done), true, stream.buf == null, stream.maxSize, old(stream.Out()), stream.Out())
      invariant ok ==> EncodePacked(f, items) == Concat(Some(done), EncodePacked(f, items[i..]))
      invariant !ok ==> Took(EncodePacked(f, items), false, stream.buf == null, stream.maxSize, old(stream.Out()), stream.Out())
      decreases |items| - i, ok
    {
      ghost var mid := stream.Out();
      hide Took;
      ok := WriteScalar(stream, f, items[i]) by { assert !f.ltype.SubmessageType?; }
      ghost var item, rest := EncodeScalar(f, items[i]), EncodePacked(f, items[i + 1..]);
      assert items[i..][1..] == items[i + 1..];
      ConcatMoves(done, item, rest);
      TookBoth(done, item, ok, stream.buf == null, stream.maxSize, old(stream.Out()), mid, stream.Out());
      if ok {
        TookSome(item, stream.buf == null, stream.maxSize, mid, stream.Out());
        done := done + item.value;
      } else {
        TookNotFirst(Concat(Some(done), item), rest, stream.buf == null, stream.maxSize, old(stream.Out()), stream.Out());
      }
      i := i + 1;
    }
  }

  lemma TookNothing(r: Option<seq<byte>>, sizing: bool, max: nat, at: Output)
    requires !sizing ==> at.count <= max
    ensures Took(Some([]), true, sizing, max, at, at) && Concat(Some([]), r) == r
  {
    assert at.bytes + [] == at.bytes;
    if r.Some? { assert [] + r.value == r.value; }
  }

  lemma TookSome(r: Option<seq<byte>>, sizing: bool, max: nat, was: Output, now: Output)
    requires Took(r, true, sizing, max, was, now)
    ensures r.Some?
  {
  }

  lemma ConcatMoves(a: seq<byte>, b: Option<seq<byte>>, c: Option<seq<byte>>)
    ensures Concat(Some(a), Concat(b, c)) == Concat(Concat(Some(a), b), c)
  {
    if b.Some? && c.Some? { assert a + (b.value + c.value) == a + b.value + c.value; }
  }

  // A submessage: a first pass finds its size, a second one writes it into a stream of
  // that size. Both write the same number of bytes, so that checking whether the size
  // changed between them never fails.
  method WriteSubmessage(stream: OStream, fields: seq<Field>, members: seq<Member>) returns (ok: bool)
    requires stream.Valid() && Laid(fields) && TypedMembers(fields, members)
    modifies stream, stream.buf
    ensures stream.Valid()
    ensures
      var r := EncodeFields(fields, members, 0);
      Took(if r.Some? then Some(WithLength(r.value)) else None, ok, stream.buf == null, stream.maxSize, old(stream.Out()), stream.Out())
    decreases fields, |fields| + 2, 0
  {
    hide Laid, TypedMembers, EncodeFields, Varint;
    var sizing := new OStream.Sizing();
    ok := WriteMessage(sizing, fields, members);
    if ok {
      var size := sizing.bytesWritten;
      ok := WriteSized(stream, fields, members, size);
    }
  }

  // The second pass, when the size is known.
  method WriteSized(stream: OStream, fields: seq<Field>, members: seq<Member>, size: nat) returns (ok: bool)
    requires stream.Valid() && Laid(fields) && TypedMembers(fields, members)
    requires EncodeFields(fields, members, 0).Some? && size == |EncodeFields(fields, members, 0).value|
    modifies stream, stream.buf
    ensures stream.Valid()
    ensures Took(Some(WithLength(EncodeFields(fields, members, 0).value)), ok, stream.buf == null, stream.maxSize, old(stream.Out()), stream.Out())
    decreases fields, |fields| + 1, 2
  {
    hide Laid, TypedMembers, EncodeFields, Varint;
    ghost var bytes := EncodeFields(fields, members, 0).value;
    ok := EncodeVarint(stream, size % TWO_64);
    if !ok {
      TookNotFirst(Some(Varint(size % TWO_64)), Some(bytes), stream.buf == null, stream.maxSize, old(stream.Out()), stream.Out());
    } else {
      ghost var mid := stream.Out();
      if stream.buf == null {
        ok := stream.Write(None, size);
      } else if stream.bytesWritten + size > stream.maxSize {
        ok := false;
      } else {
        var substream := new OStream.FromBuffer(stream.buf, stream.state, size);
        ok := WriteMessage(substream, fields, members);
        assert ok && substream.bytesWritten == size;
        stream.bytesWritten, stream.state := stream.bytesWritten + substream.bytesWritten, substream.state;
        stream.written := stream.written + substream.written;
      }
      TookBoth(Varint(size % TWO_64), Some(bytes), ok, stream.buf == null, stream.maxSize, old(stream.Out()), mid, stream.Out());
    }
  }

  // A message: one field after the other.
  method WriteMessage(stream: OStream, fields: seq<Field>, members: seq<Member>) returns (ok: bool)
    requires stream.Valid() && Laid(fields) && TypedMembers(fields, members)
    modifies stream, stream.buf
    ensures stream.Valid()
    ensures Took(EncodeFields(fields, members, 0), ok, stream.buf == null, stream.maxSize, old(stream.Out()), stream.Out())
    decreases fields, |fields| + 1, 1
  {
    hide *;
    stream.HasRoom();
    OutCounts(stream);
    LayoutDescribes(fields);
    AsMany(fields, members);
    NotStarted(fields, members, stream.buf == null, stream.maxSize, stream.Out());
    var iter := new FieldIter(fields, 0, Layout(fields, |fields|));
    ok := WriteFields(stream, fields, members, iter);
  }

  // Step through the fields until the iterator is back at the first.
  method WriteFields(stream: OStream, fields: seq<Field>, members: seq<Member>, iter: FieldIter) returns (ok: bool)
    requires stream.Valid() && Laid(fields) && TypedMembers(fields, members) && |members| == |fields|
    requires iter.Valid() && iter.fields == fields && iter.pos == 0
    requires Midway(fields, members, [], 0, stream.buf == null, stream.maxSize, stream.Out(), stream.Out())
    modifies stream, stream.buf, iter
    ensures stream.Valid()
    ensures Took(EncodeFields(fields, members, 0), ok, stream.buf == null, stream.maxSize, old(stream.Out()), stream.Out())
    decreases fields, |fields| + 1, 0
  {
    hide *;
    ghost var done: seq<byte>, was := [], stream.Out();
    ok := true;
    var more := fields != [];
    while more && ok
      invariant stream.Valid() && iter.Valid()
      invariant more ==> iter.pos < |fields|
      invariant ok ==> Midway(fields, members, done, if more then iter.pos else |fields|, stream.buf == null, stream.maxSize, was, stream.Out())
      invariant !ok ==> Took(EncodeFields(fields, members, 0), false, stream.buf == null, stream.maxSize, was, stream.Out())
      decreases more, ok, |fields| - iter.pos
    {
      ok, done := WriteNext(stream, fields, members, iter.pos, done, was);
      if ok {
        more := iter.Next();
      }
    }
    if ok { AllTook(fields, members, done, stream.buf == null, stream.maxSize, was, stream.Out()); }
  }

  // Go on with field i.
  method WriteNext(stream: OStream, fields: seq<Field>, members: seq<Member>, i: nat, ghost done: seq<byte>, ghost was: Output)
    returns (ok: bool, ghost more: seq<byte>)
    requires stream.Valid() && Laid(fields) && TypedMembers(fields, members) && i < |fields|
    requires Midway(fields, members, done, i, stream.buf == null, stream.maxSize, was, stream.Out())
    modifies stream, stream.buf
    ensures stream.Valid()
    ensures ok ==> Midway(fields, members, more, i + 1, stream.buf == null, stream.maxSize, was, stream.Out())
    ensures !ok ==> Took(EncodeFields(fields, members, 0), false, stream.buf == null, stream.maxSize, was, stream.Out())
    decreases fields, |fields| - i, 1
  {
    hide *;
    ghost var mid := stream.Out();
    ok := WriteField(stream, fields, members, i);
    FieldTook(fields, members, done, i, ok, stream.buf == null, stream.maxSize, was, mid, stream.Out());
    more := if ok then done + EncodeMember(fields, members, i).value else [];
  }

  // The fields before number i have been taken, and the others are still to come.
  ghost predicate Midway(fields: seq<Field>, members: seq<Member>, done: seq<byte>, i: nat, sizing: bool, max: nat, was: Output, now: Output) {
    && Took(Some(done), true, sizing, max, was, now)
    && EncodeFields(fields, members, 0) == Concat(Some(done), EncodeFields(fields, members, i))
  }

  lemma OutCounts(stream: OStream)
    ensures stream.Out().count == stream.bytesWritten
  {
  }

  lemma NotStarted(fields: seq<Field>, members: seq<Member>, sizing: bool, max: nat, at: Output)
    requires !sizing ==> at.count <= max
    ensures Midway(fields, members, [], 0, sizing, max, at, at)
  {
    TookNothing(EncodeFields(fields, members, 0), sizing, max, at);
    hide EncodeFields, Took;
  }

  // After field i, the next ones are to come; or the whole message cannot be taken.
  lemma FieldTook(fields: seq<Field>, members: seq<Member>, done: seq<byte>, i: nat, ok: bool,
                  sizing: bool, max: nat, was: Output, mid: Output, now: Output)
    requires i < |fields| == |members| && Midway(fields, members, done, i, sizing, max, was, mid)
    requires Took(EncodeMember(fields, members, i), ok, sizing, max, mid, now)
    ensures ok ==>
      && EncodeMember(fields, members, i).Some?
      && Midway(fields, members, done + EncodeMember(fields, members, i).value, i + 1, sizing, max, was, now)
    ensures !ok ==> Took(EncodeFields(fields, members, 0), false, sizing, max, was, now)
  {
    var first, rest := EncodeMember(fields, members, i), EncodeFields(fields, members, i + 1);
    assert EncodeFields(fields, members, i) == Concat(first, rest);
    hide EncodeMember, EncodeFields, Took;
    ConcatMoves(done, first, rest);
    TookBoth(done, first, ok, sizing, max, was, mid, now);
    if ok {
      TookSome(first, sizing, max, mid, now);
    } else {
      TookNotFirst(Concat(Some(done), first), rest, sizing, max, was, now);
    }
  }

  lemma AllTook(fields: seq<Field>, members: seq<Member>, done: seq<byte>, sizing: bool, max: nat, was: Output, now: Output)
    requires |fields| == |members| && Midway(fields, members, done, |fields|, sizing, max, was, now)
    ensures Took(EncodeFields(fields, members, 0), true, sizing, max, was, now)
  {
    assert done + [] == done;
  }

  lemma AsMany(fields: seq<Field>, members: seq<Member>)
    requires TypedMembers(fields, members)
    ensures |members| == |fields|
  {
  }

  lemma AtField(fields: seq<Field>, members: seq<Member>, i: nat)
    requires Laid(fields) && TypedMembers(fields, members) && i < |fields|
    ensures |members| == |fields| && 0 < fields[i].tag <= SIZE_MAX && LaidField(fields[i]) && TypedMember(fields, members[i], i)
    ensures fields[i].htype.Oneof? ==> TypedMember(fields, members[Home(fields, i)], Home(fields, i))
  {
  }

  // One field of a struct.
  method WriteField(stream: OStream, fields: seq<Field>, members: seq<Member>, i: nat) returns (ok: bool)
    requires stream.Valid() && Laid(fields) && TypedMembers(fields, members) && i < |fields|
    modifies stream, stream.buf
    ensures stream.Valid() && |members| == |fields|
    ensures Took(EncodeMember(fields, members, i), ok, stream.buf == null, stream.maxSize, old(stream.Out()), stream.Out())
    decreases fields, |fields| - i, 0
  {
    AtField(fields, members, i);
    stream.HasRoom();
    hide OStream.Valid, Laid, LaidField, TypedMembers, EncodeTagged, EncodeArray, IsZero, Typed;
    var f := fields[i];
    TookNothing(None, stream.buf == null, stream.maxSize, stream.Out());
    ok := true;
    match f.htype
    case Required =>
      ok := WriteTagged(stream, f, members[i].value);
    case Optional =>
      var has := if f.sizeOffset != 0 then members[i].has else !IsZero(f, members[i].value);
      if has {
        ok := WriteTagged(stream, f, members[i].value);
      }
    case Repeated =>
      ok := WriteArray(stream, f, members[i].items);
    case Oneof =>
      var m := members[Home(fields, i)];
      if m.Chosen? && m.which == f.tag {
        ok := WriteTagged(stream, f, m.value);
      }
  }

  // A tag, and a value behind it.
  method WriteTagged(stream: OStream, f: Field, v: Value) returns (ok: bool)
    requires stream.Valid() && LaidField(f) && f.tag <= SIZE_MAX && Typed(f, v)
    modifies stream, stream.buf
    ensures stream.Valid()
    ensures Took(EncodeTagged(f, v), ok, stream.buf == null, stream.maxSize, old(stream.Out()), stream.Out())
    decreases f, 0, 1
  {
    hide OStream.Valid, LaidField, Typed, EncodeValue, TagBytes, Took;
    ghost var tagged := TagBytes(f.tag, WireType(f.ltype));
    ok := EncodeTag(stream, WireType(f.ltype), f.tag);
    if ok {
      ghost var mid := stream.Out();
      ok := WriteValue(stream, f, v);
      TookBoth(tagged, EncodeValue(f, v), ok, stream.buf == null, stream.maxSize, old(stream.Out()), mid, stream.Out());
    } else {
      TookNotFirst(Some(tagged), EncodeValue(f, v), stream.buf == null, stream.maxSize, old(stream.Out()), stream.Out());
    }
  }

  method WriteValue(stream: OStream, f: Field, v: Value) returns (ok: bool)
    requires stream.Valid() && LaidField(f) && Typed(f, v)
    modifies stream, stream.buf
    ensures stream.Valid()
    ensures Took(EncodeValue(f, v), ok, stream.buf == null, stream.maxSize, old(stream.Out()), stream.Out())
    decreases f, 0, 0
  {
    hide OStream.Valid, Laid, TypedMembers, EncodeFields, WithLength;
    if !f.ltype.SubmessageType? {
      ok := WriteScalar(stream, f, v);
    } else if f.ptr.Fields? {
      ok := WriteSubmessage(stream, f.ptr.fields, v.members);
    } else {
      ok := false;
    }
  }

  // The items of an array that is not packed, each behind a tag.
  method WriteEach(stream: OStream, f: Field, items: seq<Value>) returns (ok: bool)
    requires stream.Valid() && LaidField(f) && f.tag <= SIZE_MAX && forall k :: 0 <= k < |items| ==> Typed(f, items[k])
    modifies stream, stream.buf
    ensures stream.Valid()
    ensures Took(EncodeEach(f, items), ok, stream.buf == null, stream.maxSize, old(stream.Out()), stream.Out())
    decreases f, |items|, 2
  {
    stream.HasRoom();
    hide OStream.Valid, Typed, LaidField, EncodeTagged;
    ghost var done: seq<byte> := [];
    ok := true;
    var i := 0;
    assert items[0..] == items;
    TookNothing(EncodeEach(f, items), stream.buf == null, stream.maxSize, stream.Out());
    while i < |items| && ok
      invariant i <= |items| && stream.Valid()
      invariant ok ==> Took(Some(done), true, stream.buf == null, stream.maxSize, old(stream.Out()), stream.Out())
      invariant ok ==> EncodeEach(f, items) == Concat(Some(done), EncodeEach(f, items[i..]))
      invariant !ok ==> Took(EncodeEach(f, items), false, stream.buf == null, stream.maxSize, old(stream.Out()), stream.Out())
      decreases |items| - i, ok
    {
      ghost var mid := stream.Out();
      hide Took;
      ok := WriteTagged(stream, f, items[i]);
      ghost var item, rest := EncodeTagged(f, items[i]), EncodeEach(f, items[i + 1..]);
      assert items[i..][1..] == items[i + 1..];
      ConcatMoves(done, item, rest);
      TookBoth(done, item, ok, stream.buf == null, stream.maxSize, old(stream.Out()), mid, stream.Out());
      if ok {
        TookSome(item, stream.buf == null, stream.maxSize, mid, stream.Out());
        done := done + item.value;
      } else {
        TookNotFirst(Concat(Some(done), item), rest, stream.buf == null, stream.maxSize, old(stream.Out()), stream.Out());
      }
      i := i + 1;
    }
  }

  // The size of a packed array: known for fixed-width items, and found by a sizing pass
  // for the others.
  method PackedSize(f: Field, items: seq<Value>) returns (size: Option<nat>)
    requires Packable(f.ltype) && forall k :: 0 <= k < |items| ==> Typed(f, items[k])
    ensures size == if EncodePacked(f, items).Some? then Some(|EncodePacked(f, items).value|) else None
  {
    if f.ltype.Fixed32Type? {
      FixedPackedSize(f, items);
      size := Some(4 * |items|);
    } else if f.ltype.Fixed64Type? {
      FixedPackedSize(f, items);
      size := Some(8 * |items|);
    } else {
      hide EncodePacked, Typed, Packable;
      var sizing := new OStream.Sizing();
      var ok := WritePacked(sizing, f, items);
      size := if ok then Some(sizing.bytesWritten) else None;
    }
  }

  lemma {:induction false} FixedPackedSize(f: Field, items: seq<Value>)
    requires f.ltype.Fixed32Type? || f.ltype.Fixed64Type?
    requires forall k :: 0 <= k < |items| ==> Typed(f, items[k])
    ensures EncodePacked(f, items).Some?
    ensures |EncodePacked(f, items).value| == if f.ltype.Fixed32Type? then 4 * |items| else 8 * |items|
    decreases |items|
  {
    hide LittleEndian;
    if items != [] { FixedPackedSize(f, items[1..]); }
  }

  method WriteArray(stream: OStream, f: Field, items: seq<Value>) returns (ok: bool)
    requires stream.Valid() && LaidField(f) && f.tag <= SIZE_MAX && forall k :: 0 <= k < |items| ==> Typed(f, items[k])
    modifies stream, stream.buf
    ensures stream.Valid()
    ensures Took(EncodeArray(f, items), ok, stream.buf == null, stream.maxSize, old(stream.Out()), stream.Out())
    decreases f, |items|, 3
  {
    stream.HasRoom();
    hide OStream.Valid, Typed, LaidField, EncodePacked, EncodeEach, TagBytes, WithLength;
    TookNothing(None, stream.buf == null, stream.maxSize, stream.Out());
    if |items| == 0 {
      ok := true;
    } else if |items| > f.arraySize {
      ok := false;
    } else if Packable(f.ltype) {
      ghost var tagged := TagBytes(f.tag, WT_STRING);
      ghost var packed := EncodePacked(f, items);
      ghost var sized := if packed.Some? then Some(WithLength(packed.value)) else None;
      ok := EncodeTag(stream, WT_STRING, f.tag);
      if ok {
        ghost var mid := stream.Out();
        ok := WritePackedSized(stream, f, items);
        TookBoth(tagged, sized, ok, stream.buf == null, stream.maxSize, old(stream.Out()), mid, stream.Out());
      } else {
        TookNotFirst(Some(tagged), sized, stream.buf == null, stream.maxSize, old(stream.Out()), stream.Out());
      }
    } else {
      ok := WriteEach(stream, f, items);
    }
  }

  // The size of a packed array, and its items unless the stream only counts.
  method WritePackedSized(stream: OStream, f: Field, items: seq<Value>) returns (ok: bool)
    requires stream.Valid() && Packable(f.ltype) && forall k :: 0 <= k < |items| ==> Typed(f, items[k])
    modifies stream, stream.buf
    ensures stream.Valid()
    ensures
      var r := EncodePacked(f, items);
      Took(if r.Some? then Some(WithLength(r.value)) else None, ok, stream.buf == null, stream.maxSize, old(stream.Out()), stream.Out())
  {
    hide OStream.Valid, Typed, EncodePacked, Varint, Packable;
    var size := PackedSize(f, items);
    ghost var packed := EncodePacked(f, items);
    ok := false;
    if size.Some? {
      ok := EncodeVarint(stream, size.value % TWO_64);
      ghost var length := Varint(size.value % TWO_64);
      if !ok {
        TookNotFirst(Some(length), packed, stream.buf == null, stream.maxSize, old(stream.Out()), stream.Out());
      } else {
        ghost var mid := stream.Out();
        if stream.buf == null {
          ok := stream.Write(None, size.value);
        } else {
          ok := WritePacked(stream, f, items);
        }
        TookBoth(length, packed, ok, stream.buf == null, stream.maxSize, old(stream.Out()), mid, stream.Out());
      }
    }
  }

  // Encode into a buffer: it succeeds exactly when the message can be encoded and fits,
  // and then the bytes are those of the encoding.
  method EncodeToBuffer(buf: array<byte>, fields: seq<Field>, members: seq<Member>) returns (size: Option<nat>)
    requires Laid(fields) && TypedMembers(fields, members)
    modifies buf
    ensures size.Some? <==> Encode(fields, members).Some? && |Encode(fields, members).value| <= buf.Length
    ensures size.Some? ==> size.value == |Encode(fields, members).value| && buf[..size.value] == Encode(fields, members).value
  {
    hide Laid, TypedMembers, EncodeFields;
    var stream := new OStream.FromBuffer(buf, 0, buf.Length);
    var ok := WriteMessage(stream, fields, members);
    assert ok ==> stream.written == Encode(fields, members).value;
    size := if ok then Some(stream.bytesWritten) else None;
  }

  // The size of the encoding, without writing it.
  method GetEncodedSize(fields: seq<Field>, members: seq<Member>) returns (size: Option<nat>)
    requires Laid(fields) && TypedMembers(fields, members)
    ensures size == if Encode(fields, members).Some? then Some(|Encode(fields, members).value|) else None
  {
    hide Laid, TypedMembers, EncodeFields;
    var stream := new OStream.Sizing();
    var ok := WriteMessage(stream, fields, members);
    size := if ok then Some(stream.bytesWritten) else None;
  }
}
