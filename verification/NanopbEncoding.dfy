// What the encoder writes for a message (Protocol Buffers Encoding, sections "Message
// Structure", "Length-Delimited Records" and "Packed Repeated Fields").
module NanopbEncoding {
  import opened ByteOrder
  import opened Wrappers
  import opened NanopbWire
  import opened NanopbFields
  import opened PowersOfTwo

  const WT_VARINT: nat := 0
  const WT_64BIT: nat := 1
  const WT_STRING: nat := 2
  const WT_32BIT: nat := 5

  // Where the bytes of a bytes array start, behind its size
  const BYTES_OFFSET: nat := 4

  function WireType(t: LType): (w: nat)
    ensures w < 8
  {
    match t
    case VarintType => WT_VARINT
    case UVarintType => WT_VARINT
    case SVarintType => WT_VARINT
    case Fixed32Type => WT_32BIT
    case Fixed64Type => WT_64BIT
    case _ => WT_STRING
  }

  predicate Packable(t: LType) { !t.BytesType? && !t.StringType? && !t.SubmessageType? && !t.FixedLengthBytesType? }

  function TagBytes(tag: nat, wireType: nat): seq<byte> { Varint(tag * 8 + wireType) }

  // The integers that a member of this many bytes can hold.
  predicate SignedFits(size: nat, n: int) {
    (size == 1 && -0x80 <= n < 0x80) || (size == 2 && -0x8000 <= n < 0x8000)
    || (size == 4 && -0x8000_0000 <= n < 0x8000_0000) || (size == 8 && IsInt64(n))
  }

  predicate UnsignedFits(size: nat, n: int) {
    (size == 1 && 0 <= n < 0x100) || (size == 2 && 0 <= n < 0x1_0000)
    || (size == 4 && 0 <= n < TWO_32) || (size == 8 && 0 <= n < TWO_64)
  }

  // A length is a sixty-four-bit size.
  function WithLength(b: seq<byte>): seq<byte> { Varint(|b| % TWO_64) + b }

  // The length of a C string, looking no further than max bytes.
  function StringLength(b: seq<byte>, max: nat): (n: nat)
    ensures n <= |b| && n <= max
    ensures forall i :: 0 <= i < n ==> b[i] != 0
    ensures n < |b| && n < max ==> b[n] == 0
    decreases |b|
  {
    if b == [] || max == 0 || b[0] == 0 then 0 else 1 + StringLength(b[1..], max - 1)
  }

  function EncodeScalar(f: Field, v: Value): Option<seq<byte>> {
    match f.ltype
    case VarintType => if v.Int? && SignedFits(f.dataSize, v.n) then Some(Varint(Unsigned64(v.n))) else None
    case UVarintType => if v.Int? && UnsignedFits(f.dataSize, v.n) then Some(Varint(v.n)) else None
    case SVarintType => if v.Int? && SignedFits(f.dataSize, v.n) then Some(Varint(ZigZag(v.n))) else None
    case Fixed32Type => if v.Bits? && v.bits < TWO_32 then Some(LittleEndian(v.bits, 4)) else None
    case Fixed64Type => if v.Bits? && v.bits < TWO_64 then Some(LittleEndian(v.bits, 8)) else None
    case BytesType => if v.Blob? && |v.bytes| + BYTES_OFFSET <= f.dataSize then Some(WithLength(v.bytes)) else None
    case StringType => if v.Blob? then Some(WithLength(v.bytes[..StringLength(v.bytes, f.dataSize)])) else None
    case FixedLengthBytesType => if v.Blob? && |v.bytes| == f.dataSize then Some(WithLength(v.bytes)) else None
    case SubmessageType => None
  }

  function Concat(a: Option<seq<byte>>, b: Option<seq<byte>>): Option<seq<byte>> {
    if a.Some? && b.Some? then Some(a.value + b.value) else None
  }

  function EncodeValue(f: Field, v: Value): Option<seq<byte>>
    decreases f, 0, 0
  {
    if f.ltype.SubmessageType? then
      if f.ptr.Fields? && v.Message? then
        var r := EncodeFields(f.ptr.fields, v.members, 0);
        if r.Some? then Some(WithLength(r.value)) else None
      else None
    else EncodeScalar(f, v)
  }

  function EncodeTagged(f: Field, v: Value): Option<seq<byte>>
    decreases f, 0, 1
  {
    Concat(Some(TagBytes(f.tag, WireType(f.ltype))), EncodeValue(f, v))
  }

  function EncodePacked(f: Field, items: seq<Value>): Option<seq<byte>> {
    if items == [] then Some([]) else Concat(EncodeScalar(f, items[0]), EncodePacked(f, items[1..]))
  }

  function EncodeEach(f: Field, items: seq<Value>): Option<seq<byte>>
    decreases f, |items|, 2
  {
    if items == [] then Some([]) else Concat(EncodeTagged(f, items[0]), EncodeEach(f, items[1..]))
  }

  function EncodeArray(f: Field, items: seq<Value>): Option<seq<byte>>
    decreases f, |items|, 3
  {
    if items == [] then Some([]) else
    if |items| > f.arraySize then None else
    if Packable(f.ltype) then
      var packed := EncodePacked(f, items);
      if packed.Some? then Some(TagBytes(f.tag, WT_STRING) + WithLength(packed.value)) else None
    else EncodeEach(f, items)
  }

  // The test for a field without presence, by its first bytes. Submessages without
  // presence are not part of this model.
  predicate IsZero(f: Field, v: Value) {
    match f.ltype
    case BytesType => v == Blob([])
    case StringType => v.Blob? && StringLength(v.bytes, f.dataSize) == 0
    case FixedLengthBytesType => f.dataSize == 0
    case SubmessageType => false
    case _ => v == Int(0) || v == Bits(0)
  }

  // The first field of the union that field i is in.
  function Home(fields: seq<Field>, i: nat): (h: nat)
    requires i < |fields|
    ensures h <= i
  {
    if Shares(fields, i) then Home(fields, i - 1) else i
  }

  function EncodeMember(fields: seq<Field>, members: seq<Member>, i: nat): Option<seq<byte>>
    requires i < |fields| == |members|
    decreases fields, |fields| - i, 0
  {
    var f := fields[i];
    match f.htype
    case Required => if members[i].Single? then EncodeTagged(f, members[i].value) else None
    case Optional =>
      if f.sizeOffset != 0 then
        if !members[i].Maybe? then None else
        if members[i].has then EncodeTagged(f, members[i].value) else Some([])
      else
        if !members[i].Single? then None else
        if IsZero(f, members[i].value) then Some([]) else EncodeTagged(f, members[i].value)
    case Repeated => if members[i].Many? then EncodeArray(f, members[i].items) else None
    case Oneof =>
      var m := members[Home(fields, i)];
      if m.Chosen? && m.which == f.tag then EncodeTagged(f, m.value) else Some([])
  }

  // A message: its fields from number i on, in order.
  function EncodeFields(fields: seq<Field>, members: seq<Member>, i: nat): Option<seq<byte>>
    decreases fields, |fields| - i, 1
  {
    if |members| != |fields| || i > |fields| then None else
    if i == |fields| then Some([]) else
    Concat(EncodeMember(fields, members, i), EncodeFields(fields, members, i + 1))
  }

  function Encode(fields: seq<Field>, members: seq<Member>): Option<seq<byte>> { EncodeFields(fields, members, 0) }
}
