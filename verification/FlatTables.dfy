// Tables by the contents of their fields, as the builder leaves them and the reader
// finds them.
module FlatTables {
  import opened Wrappers
  import opened FlatBytes
  import opened FlatBuffersBuilder
  import opened FlatBuffersReader

  // What a field of a table holds: nothing, a scalar (left out only if it reads back as
  // its default), or an offset that leads to distance target, 0 for nil.
  datatype FieldSpec = Unset | Scalar(value: seq<byte>, default: seq<byte>) | Ref(target: int)

  // An offset stored, aligned, at distance f that leads to distance target.
  ghost predicate RefAt(c: seq<byte>, f: int, target: int) {
    var rel := if target == 0 then 0 else f - target;
    0 <= target < f && IsInt32(rel) && BytesAt(c, f, LE32(rel)) && IsAligned(f, 4)
  }

  // A scalar stored at distance f, aligned for its size.
  ghost predicate ScalarPlaced(c: seq<byte>, f: int, v: seq<byte>) {
    IsStride(|v|) && BytesAt(c, f, v) && IsAligned(f, Alignment(|v|))
  }

  ghost predicate FieldHolds(c: seq<byte>, f: int, start: int, spec: FieldSpec) {
    match spec
    case Unset => f == 0
    case Scalar(v, d) => if f == 0 then v == d else start < f && ScalarPlaced(c, f, v)
    case Ref(target) => start < f && RefAt(c, f, target)
  }

  ghost predicate FieldsHold(c: seq<byte>, fields: seq<int>, start: int, specs: seq<FieldSpec>) {
    |fields| == |specs| && forall i :: 0 <= i < |fields| ==> FieldHolds(c, fields[i], start, specs[i])
  }

  ghost predicate TableHolds(c: seq<byte>, o: int, specs: seq<FieldSpec>) {
    exists fields: seq<int>, start: int ::
      0 <= start && FieldsSince(fields, start, o - 4) && TableAt(c, o, fields, start) && FieldsHold(c, fields, start, specs)
  }

  lemma RefAtExtends(d: seq<byte>, c: seq<byte>, f: int, target: int)
    requires Extends(d, c) && RefAt(c, f, target)
    ensures RefAt(d, f, target)
  {
    hide Extends, BytesAt, LE32, IsAligned;
    BytesAtExtends(d, c, f, LE32(if target == 0 then 0 else f - target));
  }

  lemma FieldHoldsExtends(d: seq<byte>, c: seq<byte>, f: int, start: int, spec: FieldSpec)
    requires Extends(d, c) && FieldHolds(c, f, start, spec)
    ensures FieldHolds(d, f, start, spec)
  {
    hide Extends, BytesAt, RefAt, IsAligned, Alignment;
    match spec
    case Unset =>
    case Scalar(v, _) => if f != 0 { BytesAtExtends(d, c, f, v); }
    case Ref(target) => RefAtExtends(d, c, f, target);
  }

  lemma FieldsHoldExtends(d: seq<byte>, c: seq<byte>, fields: seq<int>, start: int, specs: seq<FieldSpec>)
    requires Extends(d, c) && FieldsHold(c, fields, start, specs)
    ensures FieldsHold(d, fields, start, specs)
  {
    hide Extends, FieldHolds;
    forall i | 0 <= i < |fields| ensures FieldHolds(d, fields[i], start, specs[i]) {
      FieldHoldsExtends(d, c, fields[i], start, specs[i]);
    }
  }

  lemma TableHoldsExtends(d: seq<byte>, c: seq<byte>, o: int, specs: seq<FieldSpec>)
    requires Extends(d, c) && TableHolds(c, o, specs)
    ensures TableHolds(d, o, specs)
  {
    hide Extends, TableAt, FieldsHold;
    var fields: seq<int>, start: int :| 0 <= start && FieldsSince(fields, start, o - 4) && TableAt(c, o, fields, start) && FieldsHold(c, fields, start, specs);
    TableAtExtends(d, c, o, fields, start);
    FieldsHoldExtends(d, c, fields, start, specs);
  }

  lemma GetScalarFound(c: seq<byte>, o: int, specs: seq<FieldSpec>, i: nat, catching: bool)
    requires TableHolds(c, o, specs) && i < |specs| && specs[i].Scalar? && |specs[i].value| == |specs[i].default|
    requires 4 + i * 2 <= INT16_MAX && IsStride(|specs[i].value|)
    requires IsAligned(|c|, 4) && IsAligned(|c|, Alignment(|specs[i].value|))
    ensures GetScalar(c, |c| - o, i, specs[i].default, catching) == Ok(specs[i].value)
  {
    hide TableAt, PropertyOffset, BytesAt, IsAligned, Alignment, ScalarAt;
    var fields: seq<int>, start: int :| 0 <= start && FieldsSince(fields, start, o - 4) && TableAt(c, o, fields, start) && FieldsHold(c, fields, start, specs);
    PropertyFound(c, o, fields, start, i, catching);
    assert FieldHolds(c, fields[i], start, specs[i]);
    if fields[i] != 0 {
      ScalarFound(c, fields[i], specs[i].value);
    }
  }

  lemma FieldOffsetFound(c: seq<byte>, o: int, specs: seq<FieldSpec>, i: nat, catching: bool)
    requires |c| <= INT32_MAX && IsAligned(|c|, 4) && 4 + i * 2 <= INT16_MAX
    requires TableHolds(c, o, specs) && i < |specs| && !specs[i].Scalar?
    ensures
      FieldOffset(c, |c| - o, i, catching) ==
      Ok(if specs[i].Unset? || specs[i].target == 0 then None else Some(|c| - specs[i].target))
  {
    hide TableAt, PropertyOffset, LE32, Int32At, IsAligned;
    var fields: seq<int>, start: int :| 0 <= start && FieldsSince(fields, start, o - 4) && TableAt(c, o, fields, start) && FieldsHold(c, fields, start, specs);
    PropertyFound(c, o, fields, start, i, catching);
    assert FieldHolds(c, fields[i], start, specs[i]);
    if specs[i].Ref? {
      var target := specs[i].target;
      Int32Found(c, fields[i], if target == 0 then 0 else fields[i] - target);
    }
  }
}
