// The FlatBuffers reader: lookups in a byte string, addressed from its start.
//
// A load outside of the bytes throws OutOfBufferBounds, and a load from a place that is
// not aligned for its type traps. Each lookup catches the error and gives an absent value
// instead; with catching off the error is passed on, so that a lookup that succeeds then
// has loaded nothing from outside. A trap is never caught.
module FlatBuffersReader {
  import opened Wrappers
  import opened FlatBytes
  import opened FlatBuffersBuilder

  function ScalarAt(data: seq<byte>, offset: int, stride: nat): (r: Result<seq<byte>>)
    requires IsStride(stride)
    ensures r.Ok? ==> |r.value| == stride
  {
    if offset + stride > |data| || offset < 0 then Err(OutOfBufferBounds) else
    if !IsAligned(offset, Alignment(stride)) then Err(Trap) else
    Ok(data[offset..offset + stride])
  }

  // A load of two, four or eight bytes: outside of the bytes it throws, and inside it traps
  // unless its place is a multiple of its size.
  lemma LoadsExactly(data: seq<byte>, offset: int, stride: nat)
    requires stride == 1 || stride == 2 || stride == 4 || stride == 8
    ensures
      ScalarAt(data, offset, stride) ==
      if offset < 0 || offset > |data| - stride then Err(OutOfBufferBounds)
      else if (stride == 2 && offset % 2 != 0) || (stride == 4 && offset % 4 != 0) || (stride == 8 && offset % 8 != 0) then Err(Trap)
      else Ok(data[offset..offset + stride])
  {
  }

  function Int32At(data: seq<byte>, offset: int): Result<int> {
    var bytes :- ScalarAt(data, offset, 4);
    Ok(FromLE32(bytes))
  }

  function Int16At(data: seq<byte>, offset: int): Result<int> {
    var bytes :- ScalarAt(data, offset, 2);
    Ok(FromLE16(bytes))
  }

  function Caught<T>(r: Result<T>, absent: T, catching: bool): Result<T> {
    if catching && r.Err? && r.error.OutOfBufferBounds? then Ok(absent) else r
  }

  // Where a property lies inside its object, 0 when the vtable does not say.
  function PropertyOffset(data: seq<byte>, objectOffset: int, propertyIndex: int, catching: bool): Result<int>
    requires 4 + propertyIndex * 2 <= INT16_MAX
  {
    if propertyIndex < 0 then Ok(0) else
    Caught(LookUpProperty(data, objectOffset, propertyIndex), 0, catching)
  }

  function LookUpProperty(data: seq<byte>, objectOffset: int, propertyIndex: nat): Result<int>
    requires 4 + propertyIndex * 2 <= INT16_MAX
  {
    var localOffset :- Int32At(data, objectOffset);
    var vTableOffset := objectOffset - localOffset;
    var vTableLength :- Int16At(data, vTableOffset);
    var objectLength :- Int16At(data, vTableOffset + 2);
    var positionInVTable := 4 + propertyIndex * 2;
    if vTableLength <= positionInVTable then Ok(0) else
    var propOffset :- Int16At(data, vTableOffset + positionInVTable);
    if objectLength <= propOffset then Ok(0) else Ok(propOffset)
  }

  // The place an offset field leads to, None for a field that is absent or nil.
  function FieldOffset(data: seq<byte>, objectOffset: int, propertyIndex: int, catching: bool): Result<Option<int>>
    requires 4 + propertyIndex * 2 <= INT16_MAX
  {
    var propOffset :- PropertyOffset(data, objectOffset, propertyIndex, catching);
    if propOffset == 0 then Ok(None) else Caught(FollowOffset(data, objectOffset + propOffset), None, catching)
  }

  // The place that the offset at a position leads to. The sum is taken in 32 bits.
  function FollowOffset(data: seq<byte>, position: int): Result<Option<int>> {
    var localOffset :- Int32At(data, position);
    var here :- ToInt32(position);
    var offset :- ToInt32(here + localOffset);
    if localOffset == 0 then Ok(None) else Ok(Some(offset))
  }

  function VectorElementCount(data: seq<byte>, vectorOffset: Option<int>, catching: bool): Result<int> {
    if vectorOffset.None? then Ok(0) else Caught(Int32At(data, vectorOffset.value), 0, catching)
  }

  function VectorElementOffset(data: seq<byte>, vectorOffset: Option<int>, index: int, catching: bool): Result<Option<int>> {
    if vectorOffset.None? || index < 0 then Ok(None) else
    var count :- VectorElementCount(data, vectorOffset, catching);
    if index >= count then Ok(None) else
    Caught(FollowElement(data, vectorOffset.value + 4 + index * 4), None, catching)
  }

  // As for a field, but a nil element is found out before any arithmetic.
  function FollowElement(data: seq<byte>, position: int): Result<Option<int>> {
    var localOffset :- Int32At(data, position);
    if localOffset == 0 then Ok(None) else
    var here :- ToInt32(position);
    var offset :- ToInt32(localOffset + here);
    Ok(Some(offset))
  }

  // The bytes of a scalar property, or its default.
  function GetScalar(data: seq<byte>, objectOffset: int, propertyIndex: int, defaultValue: seq<byte>, catching: bool): (r: Result<seq<byte>>)
    requires 4 + propertyIndex * 2 <= INT16_MAX && IsStride(|defaultValue|)
    ensures r.Ok? ==> |r.value| == |defaultValue|
  {
    var propOffset :- PropertyOffset(data, objectOffset, propertyIndex, catching);
    if propOffset == 0 then Ok(defaultValue) else
    Caught(ScalarAt(data, objectOffset + propOffset, |defaultValue|), defaultValue, catching)
  }

  // The bytes of a string.
  function StringBuffer(data: seq<byte>, stringOffset: Option<int>, catching: bool): Result<Option<seq<byte>>> {
    if stringOffset.None? then Ok(None) else Caught(LoadString(data, stringOffset.value), None, catching)
  }

  // A negative length is within the bounds but traps.
  function LoadString(data: seq<byte>, stringOffset: int): Result<Option<seq<byte>>> {
    var stringLength :- Int32At(data, stringOffset);
    var start := stringOffset + 4;
    if start + stringLength > |data| then Err(OutOfBufferBounds) else
    if stringLength < 0 then Err(Trap) else
    Ok(Some(data[start..start + stringLength]))
  }

  function RootObjectOffset(data: seq<byte>, catching: bool): Result<Option<int>> {
    Caught(LoadRoot(data), None, catching)
  }

  function LoadRoot(data: seq<byte>): Result<Option<int>> {
    var offset :- Int32At(data, 0);
    Ok(Some(offset))
  }

  // What the builder put at a distance from the end is what the reader finds at the
  // matching distance from the start. When the size of the whole is aligned, so is the
  // place.
  lemma ScalarFound(c: seq<byte>, o: int, v: seq<byte>)
    requires IsStride(|v|) && BytesAt(c, o, v) && IsAligned(|c|, Alignment(|v|)) && IsAligned(o, Alignment(|v|))
    ensures ScalarAt(c, |c| - o, |v|) == Ok(v)
  {
    hide IsAligned;
    AlignedDifference(|c|, o, Alignment(|v|), Alignment(|v|));
  }

  lemma Int32Found(c: seq<byte>, o: int, v: int)
    requires IsInt32(v) && BytesAt(c, o, LE32(v)) && IsAligned(|c|, 4) && IsAligned(o, 4)
    ensures Int32At(c, |c| - o) == Ok(v)
  {
    hide LE32, FromLE32, IsAligned;
    ScalarFound(c, o, LE32(v));
    LE32RoundTrip(v);
  }

  lemma Int16Found(c: seq<byte>, o: int, v: int)
    requires IsInt16(v) && BytesAt(c, o, LE16(v)) && IsAligned(|c|, 2) && IsAligned(o, 2)
    ensures Int16At(c, |c| - o) == Ok(v)
  {
    hide LE16, FromLE16, IsAligned;
    ScalarFound(c, o, LE16(v));
    LE16RoundTrip(v);
  }

  // The reader finds exactly the field offsets the closed table was given, wherever the
  // table's vtable lies, and loads nothing that is out of bounds or not aligned.
  lemma PropertyFound(c: seq<byte>, o: int, fields: seq<int>, start: int, i: nat, catching: bool)
    requires TableAt(c, o, fields, start) && IsAligned(|c|, 4) && i < |fields|
    ensures
      PropertyOffset(c, |c| - o, i, catching) ==
      Ok(if fields[i] == 0 || o - start <= o - fields[i] then 0 else o - fields[i])
  {
    hide BytesAt, LE16, LE32, Int16At, Int32At, IsAligned, VTable;
    var rel := HeadFound(c, o, fields, start);
    var vtable := VTable(fields, o, start);
    EntryFound(fields, o, start, i);
    BytesAtPart(c, o + rel, vtable, 4 + 2 * i, 4 + 2 * i + 2);
    EvenAlong(o + rel, 2 + i);
    EvenToo(|c|);
    Int16Found(c, o + rel - (4 + 2 * i), Entry(fields[i], o));
  }

  // The table's own offset, and the two lengths at the head of its vtable.
  lemma HeadFound(c: seq<byte>, o: int, fields: seq<int>, start: int) returns (rel: int)
    requires TableAt(c, o, fields, start) && IsAligned(|c|, 4)
    ensures Int32At(c, |c| - o) == Ok(rel)
    ensures BytesAt(c, o + rel, VTable(fields, o, start)) && IsAligned(o + rel, 2)
    ensures Int16At(c, |c| - o - rel) == Ok(2 * |fields| + 4) && Int16At(c, |c| - o - rel + 2) == Ok(o - start)
  {
    hide BytesAt, LE16, LE32, Int16At, Int32At, IsAligned, Entries;
    rel :| IsInt32(rel) && BytesAt(c, o, LE32(rel)) && BytesAt(c, o + rel, VTable(fields, o, start)) && IsAligned(o + rel, 2);
    var vtable := VTable(fields, o, start);
    Int32Found(c, o, rel);
    EvenToo(|c|);
    EvenAlong(o + rel, 1);
    assert vtable[0..2] == LE16(2 * |fields| + 4) && vtable[2..4] == LE16(o - start);
    BytesAtPart(c, o + rel, vtable, 0, 2);
    Int16Found(c, o + rel, 2 * |fields| + 4);
    BytesAtPart(c, o + rel, vtable, 2, 4);
    Int16Found(c, o + rel - 2, o - start);
  }

  lemma EntryFound(fields: seq<int>, o: int, start: int, i: nat)
    requires VTableFits(fields, o, start) && i < |fields|
    ensures VTable(fields, o, start)[4 + 2 * i..4 + 2 * i + 2] == LE16(Entry(fields[i], o))
  {
    hide LE16, Entries;
    EntriesAt(fields, o, i);
    assert VTable(fields, o, start)[4 + 2 * i..4 + 2 * i + 2] == Entries(fields, o)[2 * i..2 * i + 2];
  }

  lemma EvenToo(p: int)
    requires IsAligned(p, 4)
    ensures IsAligned(p, 2)
  {
    hide IsAligned;
    MultipleAligned(0, 2);
    AlignedDifference(p, 0, 2, 4);
  }

  lemma EvenAlong(p: int, k: int)
    requires IsAligned(p, 2)
    ensures IsAligned(p - 2 * k, 2)
  {
    var q := Multiple(p, 2);
    MultipleAligned(q - k, 2);
  }

  // A property that was left out, or lies past the end of the vtable, is absent.
  lemma PropertyAbsent(c: seq<byte>, o: int, fields: seq<int>, start: int, i: nat, catching: bool)
    requires TableAt(c, o, fields, start) && IsAligned(|c|, 4) && 4 + i * 2 <= INT16_MAX
    requires i < |fields| ==> fields[i] == 0
    ensures PropertyOffset(c, |c| - o, i, catching) == Ok(0)
  {
    hide BytesAt, LE16, LE32, Int16At, Int32At, IsAligned, VTable;
    if i < |fields| {
      PropertyFound(c, o, fields, start, i, catching);
    } else {
      var rel := HeadFound(c, o, fields, start);
    }
  }

  lemma StringFound(c: seq<byte>, o: int, s: seq<byte>, catching: bool)
    requires StringAt(c, o, s) && IsAligned(|c|, 4)
    ensures StringBuffer(c, Some(|c| - o), catching) == Ok(Some(s))
  {
    hide LE32, Int32At, IsAligned;
    Int32Found(c, o, |s|);
  }
}
