// Field descriptors, the values of a message struct, and the iterator that walks both.
module NanopbFields {
  import opened Wrappers

  // PB_SIZE_MAX with 32-bit descriptor fields
  const SIZE_MAX: nat := 0xffff_ffff

  datatype LType =
    | VarintType | UVarintType | SVarintType | Fixed32Type | Fixed64Type
    | BytesType | StringType | SubmessageType | FixedLengthBytesType

  datatype HType = Required | Optional | Repeated | Oneof

  // Where the pointer of a descriptor leads: a default value or the fields of a
  // submessage.
  datatype Pointer = Null | Default(value: Value) | Fields(fields: seq<Field>)

  datatype Field = Field(tag: nat, ltype: LType, htype: HType, dataOffset: nat, sizeOffset: int,
                         dataSize: nat, arraySize: nat, ptr: Pointer)

  // The contents of one item of a field.
  datatype Value = Int(n: int) | Bits(bits: nat) | Blob(bytes: seq<byte>) | Message(members: seq<Member>)

  // The contents of a struct, a member for each descriptor. All the descriptors of a
  // union share the member at the first of them.
  datatype Member =
    | Single(value: Value)
    | Maybe(has: bool, value: Value)
    | Many(items: seq<Value>)
    | Unchosen
    | Chosen(which: nat, value: Value)
    | Shared

  // What a field list ends with.
  const TERMINATOR := Field(0, VarintType, Required, 0, 0, 0, 0, Null)

  function FieldAt(fields: seq<Field>, pos: nat): Field {
    if pos < |fields| then fields[pos] else TERMINATOR
  }

  // The field continues the union of the field before it.
  predicate Shares(fields: seq<Field>, i: nat)
    requires i < |fields|
  {
    i > 0 && fields[i - 1].htype.Oneof? && fields[i].htype.Oneof? && fields[i].dataOffset == SIZE_MAX
  }

  // The size of a struct member.
  function MemberSize(f: Field): nat { if f.htype.Repeated? then f.dataSize * f.arraySize else f.dataSize }

  // The descriptor of a struct whose members are at these offsets: a data offset is the
  // gap from the end of the member before.
  ghost predicate Describes(fields: seq<Field>, offsets: seq<nat>) {
    && |offsets| == |fields|
    && (forall i :: 0 <= i < |fields| ==> fields[i].tag != 0)
    && (|fields| > 0 ==> fields[0].dataOffset == offsets[0])
    && forall i :: 0 < i < |fields| ==>
         if Shares(fields, i) then offsets[i] == offsets[i - 1] && fields[i].sizeOffset == fields[i - 1].sizeOffset
         else fields[i].dataOffset == offsets[i] - offsets[i - 1] - MemberSize(fields[i - 1])
  }

  function RequiredBefore(fields: seq<Field>, pos: nat): (n: nat)
    requires pos <= |fields|
    ensures n <= pos
  {
    if pos == 0 then 0 else RequiredBefore(fields, pos - 1) + if fields[pos - 1].htype.Required? then 1 else 0
  }

  function RequiredCount(fields: seq<Field>): nat { RequiredBefore(fields, |fields|) }

  predicate HasTag(fields: seq<Field>, tag: nat) { exists i :: 0 <= i < |fields| && fields[i].tag == tag }

  // The first position, from pos on, of a tag.
  function FindFrom(fields: seq<Field>, tag: nat, pos: nat): (r: Option<nat>)
    requires pos <= |fields|
    ensures r.Some? ==> pos <= r.value < |fields| && fields[r.value].tag == tag
    ensures r.None? <==> forall i :: pos <= i < |fields| ==> fields[i].tag != tag
    decreases |fields| - pos
  {
    if pos == |fields| then None else if fields[pos].tag == tag then Some(pos) else FindFrom(fields, tag, pos + 1)
  }

  ghost predicate DistinctTags(fields: seq<Field>) {
    forall i, j :: 0 <= i < j < |fields| ==> fields[i].tag != fields[j].tag
  }

  lemma FindIsUnique(fields: seq<Field>, tag: nat, i: nat)
    requires DistinctTags(fields) && i < |fields| && fields[i].tag == tag
    ensures FindFrom(fields, tag, 0) == Some(i)
  {
  }

  // The iterator: circular, with the addresses of the member it is at.
  class FieldIter {
    const fields: seq<Field>
    const destStruct: nat
    ghost const offsets: seq<nat>
    var pos: nat
    var requiredFieldIndex: nat
    var pData: int
    var pSize: int

    // The addresses are those of the member, and the count is that of the required
    // fields passed, whatever the moves so far.
    ghost predicate Valid()
      reads this
    {
      && Describes(fields, offsets)
      && pos <= |fields| && (pos == |fields| ==> fields == [])
      && requiredFieldIndex == RequiredBefore(fields, pos)
      && (pos < |fields| ==>
            && pData == destStruct + offsets[pos]
            && pSize == pData + fields[pos].sizeOffset)
    }

    constructor (fields: seq<Field>, destStruct: nat, ghost offsets: seq<nat>)
      requires Describes(fields, offsets)
      ensures Valid() && pos == 0 && this.fields == fields && this.destStruct == destStruct
    {
      this.fields, this.destStruct, this.offsets := fields, destStruct, offsets;
      pos, requiredFieldIndex := 0, 0;
      pData := destStruct + FieldAt(fields, 0).dataOffset;
      pSize := destStruct + FieldAt(fields, 0).dataOffset + FieldAt(fields, 0).sizeOffset;
    }

    method Begin()
      requires Describes(fields, offsets)
      modifies this
      ensures Valid() && pos == 0
    {
      pos, requiredFieldIndex := 0, 0;
      pData := destStruct + FieldAt(fields, 0).dataOffset;
      pSize := pData + FieldAt(fields, 0).sizeOffset;
    }

    // Move to the next field, or back to the first. The flag says that it was the former.
    method Next() returns (more: bool)
      requires Valid()
      modifies this
      ensures Valid() && pos == (if old(pos) + 1 < |fields| then old(pos) + 1 else 0)
      ensures more == (old(pos) + 1 < |fields|)
    {
      if FieldAt(fields, pos).tag == 0 {
        return false;
      }
      var prev := fields[pos];
      pos := pos + 1;
      if FieldAt(fields, pos).tag == 0 {
        Begin();
        return false;
      }
      more := true;
      var prevSize := prev.dataSize;
      if prev.htype.Oneof? && fields[pos].htype.Oneof? && fields[pos].dataOffset == SIZE_MAX {
        return;
      } else if prev.htype.Repeated? {
        prevSize := prevSize * prev.arraySize;
      }
      if prev.htype.Required? {
        requiredFieldIndex := requiredFieldIndex + 1;
      }
      pData := pData + prevSize + fields[pos].dataOffset;
      pSize := pData + fields[pos].sizeOffset;
    }

    lemma InPlace()
      requires Valid()
      ensures pos <= |fields| && (pos == |fields| ==> fields == [])
      ensures forall i :: 0 <= i < |fields| ==> fields[i].tag != 0
    {
    }

    lemma NumberIs()
      requires Valid() && pos < |fields|
      ensures requiredFieldIndex == RequiredBefore(fields, pos)
    {
    }

    // Search for a tag all the way round. The answer does not depend on where it starts.
    // A struct without fields has its terminator found under tag zero.
    method Find(tag: nat) returns (found: bool)
      requires Valid()
      modifies this
      ensures Valid()
      ensures found <==> HasTag(fields, tag) || (fields == [] && tag == 0)
      ensures found ==> FieldAt(fields, pos).tag == tag
      ensures !found ==> pos == old(pos)
    {
      InPlace();
      hide FieldIter.Valid, Describes, RequiredBefore, Shares;
      var start := pos;
      ghost var wrapped := false;
      while true
        invariant Valid() && start <= |fields| && (start == |fields| ==> fields == [])
        invariant if wrapped then pos < start else start <= pos
        invariant pos <= |fields| && (pos == |fields| ==> fields == [])
        invariant forall i :: start <= i < |fields| && (wrapped || i < pos) ==> fields[i].tag != tag
        invariant wrapped ==> forall i :: 0 <= i < pos ==> fields[i].tag != tag
        decreases !wrapped, |fields| - pos
      {
        if FieldAt(fields, pos).tag == tag {
          return true;
        }
        var more := Next();
        wrapped := wrapped || !more;
        if pos == start {
          return false;
        }
      }
    }
  }
}
