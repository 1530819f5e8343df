// Player progress and how it is written into a builder.
module ProgressWriter {
  import opened Wrappers
  import opened FlatBytes
  import opened FlatBuffersBuilder
  import opened FlatTables
  import opened FlatBuffersReader
  import opened ByteOrder

  type Int32 = v: int | IsInt32(v)

  // A Float32 is its four bytes; the two zeros compare equal.
  type Float32 = b: seq<byte> | |b| == 4 witness [0, 0, 0, 0]

  const FLOAT_ZERO: Float32 := [0, 0, 0, 0]
  const FLOAT_MINUS_ZERO: Float32 := [0, 0, 0, 128]

  predicate IsZero(f: Float32) { f == FLOAT_ZERO || f == FLOAT_MINUS_ZERO }

  // The value of one entry of the progress data.
  datatype Level = Level(
    uuid: Option<seq<byte>>,
    completed: bool,
    locked: bool,
    stars: Int32,
    time: Float32,
    distance: Float32)

  class LevelProgressData {
    var uuid: Option<seq<byte>>
    var completed: bool
    var locked: bool
    var stars: Int32
    var time: Float32
    var distance: Float32

    constructor ()
      ensures Value() == Level(None, false, false, 0, FLOAT_ZERO, FLOAT_ZERO)
    {
      uuid, completed, locked, stars, time, distance := None, false, false, 0, FLOAT_ZERO, FLOAT_ZERO;
    }

    function Value(): Level
      reads this
    {
      Level(uuid, completed, locked, stars, time, distance)
    }
  }

  class Progress {
    var progressData: seq<LevelProgressData>

    constructor ()
      ensures progressData == []
    {
      progressData := [];
    }

    function Value(): seq<Level>
      reads this, progressData
    {
      Values(progressData)
    }
  }

  function Values(entries: seq<LevelProgressData>): (r: seq<Level>)
    reads entries
    ensures |r| == |entries|
    ensures forall i :: 0 <= i < |entries| ==> r[i] == entries[i].Value()
  {
    if entries == [] then [] else [entries[0].Value()] + Values(entries[1..])
  }

  // What is read back: a minus zero that equals its default is left out, and comes back
  // as plus zero, unless defaults are forced.
  function StoredFloat(f: Float32, forceDefaults: bool): Float32 {
    if !forceDefaults && IsZero(f) then FLOAT_ZERO else f
  }

  function Stored(v: Level, forceDefaults: bool): Level {
    v.(time := StoredFloat(v.time, forceDefaults), distance := StoredFloat(v.distance, forceDefaults))
  }

  function BoolBytes(b: bool): (r: seq<byte>)
    ensures |r| == 1
  {
    if b then [1] else [0]
  }

  // A level table at distance o: a string field and five scalar fields.
  function LevelSpecs(v: Level, text: int): (r: seq<FieldSpec>)
    ensures |r| == 6
  {
    [ Ref(text),
      Scalar(BoolBytes(v.completed), BoolBytes(false)),
      Scalar(BoolBytes(v.locked), BoolBytes(false)),
      Scalar(LE32(v.stars), LE32(0)),
      Scalar(v.time, FLOAT_ZERO),
      Scalar(v.distance, FLOAT_ZERO) ]
  }

  ghost predicate UuidAt(c: seq<byte>, text: int, uuid: Option<seq<byte>>) {
    match uuid
    case None => text == 0
    case Some(s) => StringAt(c, text, s)
  }

  ghost predicate LevelAt(c: seq<byte>, o: int, v: Level) {
    0 < o && exists text: int :: UuidAt(c, text, v.uuid) && TableHolds(c, o, LevelSpecs(v, text))
  }

  lemma UuidAtExtends(d: seq<byte>, c: seq<byte>, text: int, uuid: Option<seq<byte>>)
    requires Extends(d, c) && UuidAt(c, text, uuid)
    ensures UuidAt(d, text, uuid)
  {
    hide Extends, StringAt;
    if uuid.Some? { StringAtExtends(d, c, text, uuid.value); }
  }

  lemma LevelAtExtends(d: seq<byte>, c: seq<byte>, o: int, v: Level)
    requires Extends(d, c) && LevelAt(c, o, v)
    ensures LevelAt(d, o, v)
  {
    hide Extends, UuidAt, TableHolds, LevelSpecs;
    var text: int :| UuidAt(c, text, v.uuid) && TableHolds(c, o, LevelSpecs(v, text));
    UuidAtExtends(d, c, text, v.uuid);
    TableHoldsExtends(d, c, o, LevelSpecs(v, text));
  }

  // Every level in the builder's cache is written where the cache says.
  ghost predicate LevelsCached(c: seq<byte>, cache: map<object, int>, forceDefaults: bool)
    reads set o: object | o in cache && o is LevelProgressData
  {
    forall o: object :: o in cache && o is LevelProgressData ==>
      LevelAt(c, cache[o], Stored((o as LevelProgressData).Value(), forceDefaults))
  }

  lemma LevelsCachedExtends(d: seq<byte>, c: seq<byte>, cache: map<object, int>, forceDefaults: bool)
    requires Extends(d, c) && LevelsCached(c, cache, forceDefaults)
    ensures LevelsCached(d, cache, forceDefaults)
  {
    hide Extends, LevelAt;
    forall o: object | o in cache && o is LevelProgressData
      ensures LevelAt(d, cache[o], Stored((o as LevelProgressData).Value(), forceDefaults))
    {
      LevelAtExtends(d, c, cache[o], Stored((o as LevelProgressData).Value(), forceDefaults));
    }
  }

  // Add a scalar field to the open object; defaults may be left out.
  method PutScalar(b: FlatBuffersBuilder, v: seq<byte>, default: seq<byte>, equalsDefault: bool, i: nat, ghost specs: seq<FieldSpec>,
                   ghost c0: seq<byte>, ghost p0: map<int, int>)
    returns (r: Result<()>)
    requires b.Valid() && b.objectStart > -1 && i < |b.currentVTable| && IsStride(|v|)
    requires FieldsHold(b.contents, b.currentVTable, b.objectStart, specs) && specs[i] == Unset
    requires Extends(b.contents, c0) && Grows(b.placed, p0)
    modifies b`capacity, b`data, b`minalign, b`cursor, b`contents, b`placed, b`currentVTable, b.data
    ensures b.Valid() && (b.data == old(b.data) || fresh(b.data))
    ensures Extends(b.contents, c0) && Grows(b.placed, p0) && b.minalign >= old(b.minalign)
    ensures old(b.cursor) <= b.cursor < old(b.cursor) + Alignment(|v|) + |v|
    ensures r.Ok? ==> |b.currentVTable| == |old(b.currentVTable)|
    ensures r.Ok? ==>
      && (b.currentVTable[i] == 0 <==> equalsDefault && !b.options.forceDefaults && old(b.currentVTable[i]) == 0)
      && forall j :: 0 <= j < |b.currentVTable| && j != i ==> b.currentVTable[j] == old(b.currentVTable[j])
    ensures r.Ok? ==>
      FieldsHold(b.contents, b.currentVTable, b.objectStart,
                 specs[i := Scalar(if equalsDefault && !b.options.forceDefaults then default else v, default)])
    ensures r.Err? ==> r.error == Trap && b.cursor > INT32_MAX
  {
    hide BytesAt, Extends, Known, Aligned, FlatBuffersBuilder.Linked;
    r := b.InsertScalarField(v, equalsDefault, i);
    ExtendsLonger(b.contents, old(b.contents));
    ExtendsTransitive(b.contents, old(b.contents), c0);
    FieldsHoldExtends(b.contents, old(b.contents), old(b.currentVTable), b.objectStart, specs);
  }

  method PutOffset(b: FlatBuffersBuilder, target: int, i: nat, ghost specs: seq<FieldSpec>,
                   ghost c0: seq<byte>, ghost p0: map<int, int>)
    returns (r: Result<()>)
    requires b.Valid() && b.objectStart > -1 && i < |b.currentVTable| && 0 <= target <= b.cursor
    requires FieldsHold(b.contents, b.currentVTable, b.objectStart, specs)
    requires Extends(b.contents, c0) && Grows(b.placed, p0)
    modifies b`capacity, b`data, b`minalign, b`cursor, b`contents, b`placed, b`currentVTable, b.data
    ensures b.Valid() && (b.data == old(b.data) || fresh(b.data))
    ensures Extends(b.contents, c0) && Grows(b.placed, p0) && b.minalign >= old(b.minalign)
    ensures r.Ok? ==> old(b.cursor) <= b.cursor <= old(b.cursor) + 7
    ensures r.Ok? ==>
      && |b.currentVTable| == |old(b.currentVTable)| && b.currentVTable[i] != 0
      && forall j :: 0 <= j < |b.currentVTable| && j != i ==> b.currentVTable[j] == old(b.currentVTable[j])
    ensures r.Ok? ==> FieldsHold(b.contents, b.currentVTable, b.objectStart, specs[i := Ref(target)])
    ensures r.Err? ==> r.error == Trap && old(b.cursor) + 11 > INT32_MAX
  {
    hide BytesAt, Extends, Known, Aligned, FlatBuffersBuilder.Linked;
    var inserted := b.InsertOffsetField(target, i);
    ExtendsTransitive(b.contents, old(b.contents), c0);
    FieldsHoldExtends(b.contents, old(b.contents), old(b.currentVTable), b.objectStart, specs);
    r := if inserted.Ok? then Ok(()) else Err(inserted.error);
  }

  // Close an object whose fields hold the given specifications.
  method EndTable(b: FlatBuffersBuilder, ghost specs: seq<FieldSpec>) returns (r: Result<int>)
    requires b.Valid() && b.objectStart > -1 && b.vectorNumElems == -1
    requires |b.currentVTable| <= 100 && b.cursor <= b.objectStart + 1000
    requires FieldsHold(b.contents, b.currentVTable, b.objectStart, specs)
    modifies b`capacity, b`data, b`minalign, b`cursor, b`contents, b`placed, b.data
    modifies b`objectStart, b`vTableOffsets
    ensures b.data == old(b.data) || fresh(b.data)
    ensures r.Ok? ==>
      && b.Valid() && b.Closed() && b.minalign >= 4 && b.minalign >= old(b.minalign)
      && Extends(b.contents, old(b.contents)) && Grows(b.placed, old(b.placed))
      && old(b.cursor) < r.value == SlotEnd(old(b.cursor)) <= b.cursor <= old(b.cursor) + 2 * |b.currentVTable| + 11
      && TableHolds(b.contents, r.value, specs)
      && TableAt(b.contents, r.value, b.currentVTable, old(b.objectStart))
      && FieldsHold(b.contents, b.currentVTable, old(b.objectStart), specs) && FieldsSince(b.currentVTable, old(b.objectStart), r.value - 4)
    ensures r.Err? ==> r.error == Trap && old(b.cursor) + 2 * |b.currentVTable| + 11 > INT32_MAX
  {
    hide BytesAt, Extends, Known, Aligned, TableAt, FieldHolds, FlatBuffersBuilder.Linked;
    ghost var start := b.objectStart;
    ghost var before := b.contents;
    r := b.EndObject();
    FieldsFit(b.currentVTable, SlotEnd(old(b.cursor)), start, old(b.cursor));
    if r.Ok? {
      FieldsSinceEarlier(b.currentVTable, start, old(b.cursor), start, r.value - 4);
      FieldsHoldExtends(b.contents, before, b.currentVTable, start, specs);
    }
  }

  // Fields of a small object lie within the reach of 16-bit offsets.
  lemma FieldsFit(fields: seq<int>, loc: int, start: int, cursor: int)
    requires |fields| <= 100 && FieldsSince(fields, start, cursor) && start <= cursor <= loc <= start + 1010
    ensures VTableFits(fields, loc, start)
  {
  }

  lemma NothingHeld(c: seq<byte>, start: int, n: nat)
    ensures FieldsHold(c, seq(n, _ => 0), start, seq(n, _ => Unset))
  {
  }

  // The numbers of a level, then its flags and its string, in the order of the
  // generated code.
  method WriteLevelNumbers(b: FlatBuffersBuilder, l: LevelProgressData) returns (r: Result<()>)
    requires b.Valid() && b.objectStart == b.cursor && b.currentVTable == seq(6, _ => 0)
    modifies b`capacity, b`data, b`minalign, b`cursor, b`contents, b`placed, b`currentVTable, b.data
    ensures b.Valid() && (b.data == old(b.data) || fresh(b.data))
    ensures Extends(b.contents, old(b.contents)) && Grows(b.placed, old(b.placed)) && b.minalign >= old(b.minalign)
    ensures r.Ok? ==> |b.currentVTable| == 6 && old(b.cursor) <= b.cursor <= old(b.cursor) + 21
    ensures r.Ok? ==>
      && b.currentVTable[0] == b.currentVTable[1] == b.currentVTable[2] == 0
      && (b.currentVTable[3] == 0 <==> l.stars == 0 && !b.options.forceDefaults)
      && (b.currentVTable[4] == 0 <==> IsZero(l.time) && !b.options.forceDefaults)
      && (b.currentVTable[5] == 0 <==> IsZero(l.distance) && !b.options.forceDefaults)
    ensures r.Ok? ==>
      FieldsHold(b.contents, b.currentVTable, b.objectStart,
                 [Unset, Unset, Unset] + LevelSpecs(Stored(l.Value(), b.options.forceDefaults), 0)[3..])
    ensures r.Err? ==> r.error == Trap && old(b.cursor) + 64 > INT32_MAX
  {
    hide BytesAt, Extends, Known, Aligned, LE32, FieldsHold, FieldsSince, Grows, LevelSpecs, Stored, IsZero,
      FlatBuffersBuilder.Linked, FlatBuffersBuilder.Valid;
    ghost var c0, p0, left := b.contents, b.placed, !b.options.forceDefaults;
    GrowsItself(p0);
    ghost var specs := seq(6, _ => Unset);
    ExtendsItself(c0);
    NothingHeld(b.contents, b.objectStart, 6);
    r := PutScalar(b, l.distance, FLOAT_ZERO, IsZero(l.distance), 5, specs, c0, p0);
    specs := specs[5 := Scalar(if IsZero(l.distance) && left then FLOAT_ZERO else l.distance, FLOAT_ZERO)];
    if r.Ok? {
      r := PutScalar(b, l.time, FLOAT_ZERO, IsZero(l.time), 4, specs, c0, p0);
      specs := specs[4 := Scalar(if IsZero(l.time) && left then FLOAT_ZERO else l.time, FLOAT_ZERO)];
      if r.Ok? {
        r := PutScalar(b, LE32(l.stars), LE32(0), l.stars == 0, 3, specs, c0, p0);
        specs := specs[3 := Scalar(if l.stars == 0 && left then LE32(0) else LE32(l.stars), LE32(0))];
        NumberSpecs(l.Value(), b.options.forceDefaults, specs);
      }
    }
  }

  lemma NumberSpecs(v: Level, forceDefaults: bool, specs: seq<FieldSpec>)
    requires
      specs == [ Unset, Unset, Unset,
                 Scalar(if v.stars == 0 && !forceDefaults then LE32(0) else LE32(v.stars), LE32(0)),
                 Scalar(if IsZero(v.time) && !forceDefaults then FLOAT_ZERO else v.time, FLOAT_ZERO),
                 Scalar(if IsZero(v.distance) && !forceDefaults then FLOAT_ZERO else v.distance, FLOAT_ZERO) ]
    ensures specs == [Unset, Unset, Unset] + LevelSpecs(Stored(v, forceDefaults), 0)[3..]
  {
    hide LE32;
  }

  // The fields that are left out: a flag that is false and a number that is zero, of either
  // sign, unless defaults are forced. The string's offset is always there.
  ghost predicate LeftOut(fields: seq<int>, v: Level, forceDefaults: bool) {
    && |fields| == 6 && fields[0] != 0
    && (fields[1] == 0 <==> !v.completed && !forceDefaults)
    && (fields[2] == 0 <==> !v.locked && !forceDefaults)
    && (fields[3] == 0 <==> v.stars == 0 && !forceDefaults)
    && (fields[4] == 0 <==> (v.time == [0, 0, 0, 0] || v.time == [0, 0, 0, 128]) && !forceDefaults)
    && (fields[5] == 0 <==> (v.distance == [0, 0, 0, 0] || v.distance == [0, 0, 0, 128]) && !forceDefaults)
  }

  method WriteLevelFields(b: FlatBuffersBuilder, l: LevelProgressData, offset0: int) returns (r: Result<()>)
    requires b.Valid() && b.objectStart == b.cursor && b.currentVTable == seq(6, _ => 0)
    requires 0 <= offset0 <= b.cursor
    modifies b`capacity, b`data, b`minalign, b`cursor, b`contents, b`placed, b`currentVTable, b.data
    ensures b.Valid() && (b.data == old(b.data) || fresh(b.data))
    ensures Extends(b.contents, old(b.contents)) && Grows(b.placed, old(b.placed)) && b.minalign >= old(b.minalign)
    ensures r.Ok? ==> |b.currentVTable| == 6 && old(b.cursor) <= b.cursor <= old(b.cursor) + 30
    ensures r.Ok? ==> LeftOut(b.currentVTable, l.Value(), b.options.forceDefaults)
    ensures r.Ok? ==>
      FieldsHold(b.contents, b.currentVTable, b.objectStart, LevelSpecs(Stored(l.Value(), b.options.forceDefaults), offset0))
    ensures r.Err? ==> r.error == Trap && old(b.cursor) + 64 > INT32_MAX
  {
    hide BytesAt, Extends, Known, Aligned, LE32, FieldsHold, FieldsSince, Grows, LevelSpecs, Stored, BoolBytes, LeftOut, IsZero,
      FlatBuffersBuilder.Linked, FlatBuffersBuilder.Valid;
    ghost var c0, p0, v := b.contents, b.placed, Stored(l.Value(), b.options.forceDefaults);
    SpecsCompleted(v, offset0);
    StoredFlags(l.Value(), b.options.forceDefaults);
    r := WriteLevelNumbers(b, l);
    ghost var specs := [Unset, Unset, Unset] + LevelSpecs(v, 0)[3..];
    if r.Ok? {
      r := WriteLevelFlags(b, l, specs, c0, p0);
      specs := specs[2 := Scalar(BoolBytes(l.locked), BoolBytes(false))][1 := Scalar(BoolBytes(l.completed), BoolBytes(false))];
      if r.Ok? {
        r := PutOffset(b, offset0, 0, specs, c0, p0);
        if r.Ok? { FieldsAreLeftOut(b.currentVTable, l.Value(), b.options.forceDefaults); }
      }
    }
  }

  method WriteLevelFlags(b: FlatBuffersBuilder, l: LevelProgressData, ghost specs: seq<FieldSpec>, ghost c0: seq<byte>, ghost p0: map<int, int>)
    returns (r: Result<()>)
    requires b.Valid() && b.objectStart > -1 && |b.currentVTable| == 6 && b.currentVTable[1] == b.currentVTable[2] == 0
    requires FieldsHold(b.contents, b.currentVTable, b.objectStart, specs) && |specs| == 6 && specs[1] == Unset == specs[2]
    requires Extends(b.contents, c0) && Grows(b.placed, p0)
    modifies b`capacity, b`data, b`minalign, b`cursor, b`contents, b`placed, b`currentVTable, b.data
    ensures b.Valid() && (b.data == old(b.data) || fresh(b.data))
    ensures Extends(b.contents, c0) && Grows(b.placed, p0) && b.minalign >= old(b.minalign)
    ensures old(b.cursor) <= b.cursor <= old(b.cursor) + 2
    ensures r.Ok? ==>
      && |b.currentVTable| == 6
      && (b.currentVTable[1] == 0 <==> !l.completed && !b.options.forceDefaults)
      && (b.currentVTable[2] == 0 <==> !l.locked && !b.options.forceDefaults)
      && forall j :: 0 <= j < 6 && j != 1 && j != 2 ==> b.currentVTable[j] == old(b.currentVTable[j])
    ensures r.Ok? ==>
      FieldsHold(b.contents, b.currentVTable, b.objectStart,
                 specs[2 := Scalar(BoolBytes(l.locked), BoolBytes(false))][1 := Scalar(BoolBytes(l.completed), BoolBytes(false))])
    ensures r.Err? ==> r.error == Trap && b.cursor > INT32_MAX
  {
    hide BytesAt, Extends, Known, Aligned, FieldsHold, FieldsSince, Grows, BoolBytes, FlatBuffersBuilder.Linked, FlatBuffersBuilder.Valid;
    r := PutScalar(b, BoolBytes(l.locked), BoolBytes(false), !l.locked, 2, specs, c0, p0);
    if r.Ok? {
      r := PutScalar(b, BoolBytes(l.completed), BoolBytes(false), !l.completed, 1, specs[2 := Scalar(BoolBytes(l.locked), BoolBytes(false))], c0, p0);
    }
  }

  lemma FieldsAreLeftOut(fields: seq<int>, v: Level, forceDefaults: bool)
    requires |fields| == 6 && fields[0] != 0
    requires fields[1] == 0 <==> !v.completed && !forceDefaults
    requires fields[2] == 0 <==> !v.locked && !forceDefaults
    requires fields[3] == 0 <==> v.stars == 0 && !forceDefaults
    requires fields[4] == 0 <==> IsZero(v.time) && !forceDefaults
    requires fields[5] == 0 <==> IsZero(v.distance) && !forceDefaults
    ensures LeftOut(fields, v, forceDefaults)
  {
  }

  lemma SpecsCompleted(v: Level, offset0: int)
    ensures
      ([Unset, Unset, Unset] + LevelSpecs(v, 0)[3..])
        [2 := Scalar(BoolBytes(v.locked), BoolBytes(false))]
        [1 := Scalar(BoolBytes(v.completed), BoolBytes(false))]
        [0 := Ref(offset0)] == LevelSpecs(v, offset0)
  {
  }

  lemma StoredFlags(v: Level, forceDefaults: bool)
    ensures Stored(v, forceDefaults).locked == v.locked && Stored(v, forceDefaults).completed == v.completed
  {
  }

  function UuidLength(uuid: Option<seq<byte>>): nat {
    if uuid.None? then 0 else |uuid.value|
  }

  // Room enough for the string and the table of a level, with all padding.
  function LevelRoom(v: Level): nat { UuidLength(v.uuid) + 100 }

  // Write the table of a level whose string is at offset0.
  method WriteLevelTable(b: FlatBuffersBuilder, l: LevelProgressData, offset0: int) returns (r: Result<int>)
    requires b.Valid() && b.Closed() && 0 <= offset0 <= b.cursor
    modifies b`capacity, b`data, b`minalign, b`cursor, b`contents, b`placed, b`currentVTable, b.data
    modifies b`objectStart, b`vTableOffsets
    ensures b.data == old(b.data) || fresh(b.data)
    ensures r.Ok? ==>
      && b.Valid() && b.Closed() && b.minalign >= 4
      && Extends(b.contents, old(b.contents)) && Grows(b.placed, old(b.placed))
      && old(b.cursor) < r.value <= b.cursor <= old(b.cursor) + 60
      && TableHolds(b.contents, r.value, LevelSpecs(Stored(l.Value(), b.options.forceDefaults), offset0))
    ensures r.Ok? ==> LevelReads(b.contents, r.value, l.Value(), b.options.forceDefaults)
    ensures r.Err? ==> r.error == Trap && old(b.cursor) + 64 > INT32_MAX
  {
    hide BytesAt, Extends, Known, Aligned, FieldsHold, TableHolds, Grows, LevelSpecs, LevelReads, FieldsSince, Stored,
      FlatBuffersBuilder.Linked, FlatBuffersBuilder.Valid;
    ghost var v, c0, p0 := Stored(l.Value(), b.options.forceDefaults), b.contents, b.placed;
    var started :- b.StartObject(6);
    r := Err(Trap);
    var fields := WriteLevelFields(b, l, offset0);
    if fields.Ok? {
      ghost var c2, p2, start := b.contents, b.placed, b.objectStart;
      r := EndTable(b, LevelSpecs(v, offset0));
      if r.Ok? {
        ExtendsTransitive(b.contents, c2, c0);
        GrowsTransitive(b.placed, p2, p0);
        TableReads(b.contents, r.value, l.Value(), b.options.forceDefaults, b.currentVTable, start, offset0);
      }
    }
  }

  // The number that four bytes say: the lowest first, in two's complement.
  function NumberOf(b: seq<byte>): int
    requires |b| == 4
  {
    var u := b[0] as int + 0x100 * (b[1] as int) + 0x1_0000 * (b[2] as int) + 0x100_0000 * (b[3] as int);
    if u < 0x8000_0000 then u else u - 0x1_0000_0000
  }

  // The scalars of a level table as any reader finds them: a flag is one byte, one or
  // zero, and what is left out reads as zero bytes.
  ghost predicate ReadsAs(data: seq<byte>, o: int, v: Level) {
    && GetScalar(data, o, 1, [0], true) == Ok(if v.completed then [1] else [0])
    && GetScalar(data, o, 2, [0], true) == Ok(if v.locked then [1] else [0])
    && (var stars := GetScalar(data, o, 3, [0, 0, 0, 0], true); stars.Ok? && NumberOf(stars.value) == v.stars)
    && GetScalar(data, o, 4, [0, 0, 0, 0], true) == Ok(v.time)
    && GetScalar(data, o, 5, [0, 0, 0, 0], true) == Ok(v.distance)
  }

  // What a reader makes of a level table in anything that ends with these bytes.
  ghost predicate LevelReads(c: seq<byte>, o: int, v: Level, forceDefaults: bool) {
    forall d: seq<byte> :: Extends(d, c) && IsAligned(|d|, 4) ==>
      ReadsAs(d, |d| - o, Stored(v, forceDefaults)) && HasFields(d, |d| - o, v, forceDefaults)
  }

  lemma TableReads(c: seq<byte>, o: int, v: Level, forceDefaults: bool, fields: seq<int>, start: int, text: int)
    requires TableHolds(c, o, LevelSpecs(Stored(v, forceDefaults), text)) && TableAt(c, o, fields, start)
    requires FieldsSince(fields, start, o - 4)
    requires FieldsHold(c, fields, start, LevelSpecs(Stored(v, forceDefaults), text)) && LeftOut(fields, v, forceDefaults)
    ensures LevelReads(c, o, v, forceDefaults)
  {
    var specs := LevelSpecs(Stored(v, forceDefaults), text);
    FieldsAreBehind(c, fields, start, specs);
    hide TableHolds, TableAt, Extends, LevelSpecs, ReadsAs, HasFields, IsAligned, LeftOut, FieldsHold, Stored;
    forall d: seq<byte> | Extends(d, c) && IsAligned(|d|, 4)
      ensures ReadsAs(d, |d| - o, Stored(v, forceDefaults)) && HasFields(d, |d| - o, v, forceDefaults)
    {
      TableHoldsExtends(d, c, o, specs);
      LevelReadsAs(d, o, Stored(v, forceDefaults), text);
      TableAtExtends(d, c, o, fields, start);
      LevelHasFields(d, o, v, forceDefaults, fields, start);
    }
  }

  lemma FieldsAreBehind(c: seq<byte>, fields: seq<int>, start: int, specs: seq<FieldSpec>)
    requires FieldsHold(c, fields, start, specs)
    ensures forall i :: 0 <= i < |fields| ==> fields[i] == 0 || start < fields[i]
  {
    hide RefAt, ScalarPlaced;
    forall i | 0 <= i < |fields| ensures fields[i] == 0 || start < fields[i] {
      assert FieldHolds(c, fields[i], start, specs[i]);
    }
  }

  // Which fields a reader finds in a level table.
  ghost predicate HasFields(data: seq<byte>, o: int, v: Level, forceDefaults: bool) {
    exists fields: seq<int> :: LeftOut(fields, v, forceDefaults) && forall i: nat :: i < 6 ==>
      PropertyOffset(data, o, i, true).Ok? && (PropertyOffset(data, o, i, true).value == 0 <==> fields[i] == 0)
  }

  lemma LevelHasFields(c: seq<byte>, o: int, v: Level, forceDefaults: bool, fields: seq<int>, start: int)
    requires TableAt(c, o, fields, start) && IsAligned(|c|, 4) && LeftOut(fields, v, forceDefaults)
    requires forall i :: 0 <= i < |fields| ==> fields[i] == 0 || start < fields[i] < o
    ensures HasFields(c, |c| - o, v, forceDefaults)
  {
    hide TableAt, PropertyOffset, IsAligned;
    forall i: nat | i < 6
      ensures PropertyOffset(c, |c| - o, i, true).Ok? && (PropertyOffset(c, |c| - o, i, true).value == 0 <==> fields[i] == 0)
    {
      PropertyFound(c, o, fields, start, i, true);
    }
  }

  lemma LevelReadsAs(c: seq<byte>, o: int, v: Level, text: int)
    requires TableHolds(c, o, LevelSpecs(v, text)) && IsAligned(|c|, 4)
    ensures ReadsAs(c, |c| - o, v)
  {
    hide TableHolds, GetScalar, IsAligned, LE32;
    var specs := LevelSpecs(v, text);
    AnyByteAligned(|c|);
    GetScalarFound(c, o, specs, 1, true);
    GetScalarFound(c, o, specs, 2, true);
    GetScalarFound(c, o, specs, 3, true);
    GetScalarFound(c, o, specs, 4, true);
    GetScalarFound(c, o, specs, 5, true);
    LE32Bytes(0);
    LE32Bytes(v.stars);
  }

  lemma AnyByteAligned(p: int)
    ensures IsAligned(p, Alignment(1))
  {
  }

  lemma LE32Bytes(v: int)
    requires IsInt32(v)
    ensures NumberOf(LE32(v)) == v && (v == 0 ==> LE32(v) == [0, 0, 0, 0])
  {
    LE32RoundTrip(v);
    FromLE32Bytes(LE32(v));
  }

  lemma FromLE32Bytes(b: seq<byte>)
    requires |b| == 4
    ensures NumberOf(b) == FromLE32(b)
  {
    assert b[1..][1..] == b[2..] && b[2..][1..] == b[3..] && b[3..][1..] == [];
    assert FromLittleEndian([]) == 0;
    assert FromLittleEndian(b[3..]) == b[3] as int;
    assert FromLittleEndian(b[2..]) == b[2] as int + 256 * FromLittleEndian(b[3..]);
    assert FromLittleEndian(b[1..]) == b[1] as int + 256 * FromLittleEndian(b[2..]);
    assert FromLittleEndian(b) == b[0] as int + 256 * FromLittleEndian(b[1..]);
  }

  // Write a level: its string, then its table.
  method WriteLevel(b: FlatBuffersBuilder, l: LevelProgressData) returns (r: Result<int>)
    requires b.Valid() && b.Closed()
    modifies b`capacity, b`data, b`minalign, b`cursor, b`contents, b`placed, b`currentVTable, b`stringCache, b.data
    modifies b`objectStart, b`vTableOffsets
    ensures b.data == old(b.data) || fresh(b.data)
    ensures r.Ok? ==>
      && b.Valid() && b.Closed() && b.minalign >= 4
      && Extends(b.contents, old(b.contents)) && Grows(b.placed, old(b.placed))
      && old(b.cursor) < r.value <= b.cursor <= old(b.cursor) + LevelRoom(l.Value())
      && b.cache == old(b.cache)
      && LevelAt(b.contents, r.value, Stored(l.Value(), b.options.forceDefaults))
    ensures r.Err? ==> r.error == Trap && old(b.cursor) + LevelRoom(l.Value()) > INT32_MAX
  {
    hide BytesAt, Extends, Known, Aligned, TableHolds, StringAt, Grows, LevelSpecs, FieldsSince, StoredFloat,
      FlatBuffersBuilder.Linked, FlatBuffersBuilder.Valid;
    ghost var v, c0, p0 := Stored(l.Value(), b.options.forceDefaults), b.contents, b.placed;
    b.CursorIsLength();
    var offset0 := b.InsertString(l.uuid);
    if offset0.Err? {
      r := Err(Trap);
    } else {
      ghost var c1, p1 := b.contents, b.placed;
      b.CursorIsLength();
      UuidInside(c1, offset0.value, v.uuid);
      r := WriteLevelTable(b, l, offset0.value);
      if r.Ok? {
        ExtendsTransitive(b.contents, c1, c0);
        GrowsTransitive(b.placed, p1, p0);
        UuidAtExtends(b.contents, c1, offset0.value, v.uuid);
      }
    }
  }

  lemma UuidInside(c: seq<byte>, text: int, uuid: Option<seq<byte>>)
    requires UuidAt(c, text, uuid)
    ensures 0 <= text <= |c|
  {
  }

  lemma LevelsCachedWith(c: seq<byte>, cache: map<object, int>, forceDefaults: bool, l: LevelProgressData, o: int)
    requires LevelsCached(c, cache, forceDefaults) && LevelAt(c, o, Stored(l.Value(), forceDefaults))
    ensures LevelsCached(c, cache[l := o], forceDefaults)
  {
    hide LevelAt, Stored;
  }

  lemma LevelsCachedWithProgress(c: seq<byte>, cache: map<object, int>, forceDefaults: bool, p: Progress, o: int)
    requires LevelsCached(c, cache, forceDefaults)
    ensures LevelsCached(c, cache[p := o], forceDefaults)
  {
    hide LevelAt, Stored;
  }

  // Add a level; with unique tables, an object already added is only referred to.
  method AddLevel(b: FlatBuffersBuilder, l: LevelProgressData) returns (r: Result<int>)
    requires b.Valid() && b.Closed() && LevelsCached(b.contents, b.cache, b.options.forceDefaults)
    modifies b`capacity, b`data, b`minalign, b`cursor, b`contents, b`placed, b`currentVTable, b`stringCache, b.data
    modifies b`objectStart, b`vTableOffsets, b`cache
    ensures b.data == old(b.data) || fresh(b.data)
    ensures r.Ok? ==>
      && b.Valid() && b.Closed() && LevelsCached(b.contents, b.cache, b.options.forceDefaults)
      && Extends(b.contents, old(b.contents)) && Grows(b.placed, old(b.placed))
      && r.value <= b.cursor <= old(b.cursor) + LevelRoom(l.Value())
      && LevelAt(b.contents, r.value, Stored(l.Value(), b.options.forceDefaults))
    ensures r.Ok? ==>
      if b.options.uniqueTables && l in old(b.cache) then
        r.value == old(b.cache)[l] && b.cache == old(b.cache) && b.contents == old(b.contents) && b.placed == old(b.placed)
      else
        r.value > old(b.cursor) && b.cache == if b.options.uniqueTables then old(b.cache)[l := r.value] else old(b.cache)
    ensures r.Err? ==> r.error == Trap && old(b.cursor) + LevelRoom(l.Value()) > INT32_MAX
  {
    hide BytesAt, Extends, Known, Aligned, LevelAt, LevelsCached, LevelRoom, Grows, FieldsSince, Stored,
      FlatBuffersBuilder.Linked, FlatBuffersBuilder.Valid;
    b.CursorIsLength();
    if b.options.uniqueTables && l in b.cache {
      LevelCached(b.contents, b.cache, b.options.forceDefaults, l);
      ExtendsItself(b.contents);
      GrowsItself(b.placed);
      r := Ok(b.cache[l]);
    } else {
      r := WriteLevel(b, l);
      if r.Ok? {
        LevelsCachedExtends(b.contents, old(b.contents), b.cache, b.options.forceDefaults);
        if b.options.uniqueTables {
          LevelsCachedWith(b.contents, b.cache, b.options.forceDefaults, l, r.value);
          b.cache := b.cache[l := r.value];
        }
      }
    }
  }

  lemma LevelCached(c: seq<byte>, cache: map<object, int>, forceDefaults: bool, l: LevelProgressData)
    requires LevelsCached(c, cache, forceDefaults) && l in cache
    ensures LevelAt(c, cache[l], Stored(l.Value(), forceDefaults)) && 0 < cache[l] <= |c|
  {
    hide Stored;
    LevelInside(c, cache[l], Stored(l.Value(), forceDefaults));
  }

  lemma LevelInside(c: seq<byte>, o: int, v: Level)
    requires LevelAt(c, o, v)
    ensures 0 < o <= |c|
  {
  }

  // A vector of offsets at distance vo: its length, then the offsets in order.
  ghost predicate VectorAt(c: seq<byte>, vo: int, targets: seq<int>) {
    && IsInt32(|targets|) && IsAligned(vo, 4) && BytesAt(c, vo, LE32(|targets|))
    && forall i :: 0 <= i < |targets| ==> 0 < targets[i] && RefAt(c, vo - 4 - 4 * i, targets[i])
  }

  lemma VectorAtExtends(d: seq<byte>, c: seq<byte>, vo: int, targets: seq<int>)
    requires Extends(d, c) && VectorAt(c, vo, targets)
    ensures VectorAt(d, vo, targets)
  {
    hide Extends, BytesAt, RefAt, LE32, IsAligned;
    BytesAtExtends(d, c, vo, LE32(|targets|));
    forall i | 0 <= i < |targets| ensures RefAt(d, vo - 4 - 4 * i, targets[i]) {
      RefAtExtends(d, c, vo - 4 - 4 * i, targets[i]);
    }
  }

  // Levels from the k-th on, at the given distances.
  ghost predicate LevelsAt(c: seq<byte>, targets: seq<int>, levels: seq<Level>, k: nat) {
    |targets| == |levels| && forall i :: k <= i < |levels| ==> LevelAt(c, targets[i], levels[i])
  }

  lemma LevelsAtNext(c: seq<byte>, targets: seq<int>, levels: seq<Level>, k: nat, o: int)
    requires LevelsAt(c, targets, levels, k + 1) && k < |targets| == |levels| && LevelAt(c, o, levels[k])
    ensures LevelsAt(c, targets[k := o], levels, k)
  {
    hide LevelAt;
  }

  lemma LevelsAtExtends(d: seq<byte>, c: seq<byte>, targets: seq<int>, levels: seq<Level>, k: nat)
    requires Extends(d, c) && LevelsAt(c, targets, levels, k)
    ensures LevelsAt(d, targets, levels, k)
  {
    hide Extends, LevelAt;
    forall i | k <= i < |levels| ensures LevelAt(d, targets[i], levels[i]) {
      LevelAtExtends(d, c, targets[i], levels[i]);
    }
  }

  // A progress table at distance o. It lies in front of its levels.
  ghost predicate ProgressAt(c: seq<byte>, o: int, levels: seq<Level>) {
    && 0 < o <= |c|
    && if levels == [] then TableHolds(c, o, [Unset]) else
       exists vo: int, targets: seq<int> ::
         && TableHolds(c, o, [Ref(vo)]) && 0 < vo && VectorAt(c, vo, targets)
         && LevelsAt(c, targets, levels, 0) && forall i :: 0 <= i < |targets| ==> targets[i] < o
  }

  lemma ProgressAtExtends(d: seq<byte>, c: seq<byte>, o: int, levels: seq<Level>)
    requires Extends(d, c) && ProgressAt(c, o, levels)
    ensures ProgressAt(d, o, levels)
  {
    hide BytesAt, TableHolds, VectorAt, LevelsAt;
    if levels == [] {
      TableHoldsExtends(d, c, o, [Unset]);
    } else {
      var vo: int, targets: seq<int> :|
        && TableHolds(c, o, [Ref(vo)]) && 0 < vo && VectorAt(c, vo, targets)
        && LevelsAt(c, targets, levels, 0) && forall i :: 0 <= i < |targets| ==> targets[i] < o;
      TableHoldsExtends(d, c, o, [Ref(vo)]);
      VectorAtExtends(d, c, vo, targets);
      LevelsAtExtends(d, c, targets, levels, 0);
    }
  }

  function StoredAll(levels: seq<Level>, forceDefaults: bool): (r: seq<Level>)
    ensures |r| == |levels|
  {
    seq(|levels|, i requires 0 <= i < |levels| => Stored(levels[i], forceDefaults))
  }

  function LevelsRoom(levels: seq<Level>): nat {
    if levels == [] then 0 else LevelsRoom(levels[..|levels| - 1]) + LevelRoom(levels[|levels| - 1])
  }

  function ProgressRoom(levels: seq<Level>): nat { LevelsRoom(levels) + 4 * |levels| + 100 }

  // With unique tables each object has the one place that the cache knows; without, the
  // cache is not used.
  ghost predicate PlacesShared(later: map<object, int>, earlier: map<object, int>, entries: seq<object>, places: seq<int>, from: nat, unique: bool) {
    if !unique then later == earlier else
    && (forall o :: o in earlier ==> o in later && later[o] == earlier[o])
    && |places| == |entries| && forall i :: from <= i < |entries| ==> entries[i] in later && later[entries[i]] == places[i]
  }

  // Only levels enter the cache while levels are added.
  ghost predicate OnlyLevelsAdded(later: map<object, int>, earlier: map<object, int>) {
    && (forall o: object :: o in earlier && !(o is LevelProgressData) ==> o in later && later[o] == earlier[o])
    && (forall o: object :: o in later && !(o is LevelProgressData) ==> o in earlier)
  }

  lemma PlacesNext(later: map<object, int>, mid: map<object, int>, earlier: map<object, int>, entries: seq<LevelProgressData>, places: seq<int>,
                   k: nat, o: int, unique: bool)
    requires PlacesShared(mid, earlier, entries, places, k + 1, unique) && OnlyLevelsAdded(mid, earlier) && k < |entries| == |places|
    requires later == if unique && entries[k] !in mid then mid[entries[k] := o] else mid
    requires unique && entries[k] in mid ==> o == mid[entries[k]]
    ensures PlacesShared(later, earlier, entries, places[k := o], k, unique) && OnlyLevelsAdded(later, earlier)
  {
    if unique {
      forall i | k <= i < |entries| ensures (entries[i] as object) in later && later[entries[i]] == places[k := o][i] {
      }
    }
  }

  lemma AllPlaced(later: map<object, int>, earlier: map<object, int>, entries: seq<LevelProgressData>, places: seq<int>, unique: bool)
    requires PlacesShared(later, earlier, entries, places, 0, unique)
    ensures if unique then forall l <- entries :: l in later else later == earlier
  {
  }

  lemma OnlyLevelsItself(cache: map<object, int>)
    ensures OnlyLevelsAdded(cache, cache)
  {
  }

  lemma ValuesLength(entries: seq<LevelProgressData>)
    ensures |Values(entries)| == |entries| && forall i :: 0 <= i < |entries| ==> Values(entries)[i] == entries[i].Value()
  {
  }

  lemma LevelsRoomStep(levels: seq<Level>, k: nat)
    requires k < |levels|
    ensures LevelsRoom(levels[..k + 1]) == LevelsRoom(levels[..k]) + LevelRoom(levels[k])
    ensures LevelsRoom(levels[..|levels|]) == LevelsRoom(levels)
  {
    assert levels[..k + 1][..k] == levels[..k];
    assert levels[..|levels|] == levels;
  }

  // Add the level at index, in front of the levels already added.
  method AddLevelAt(b: FlatBuffersBuilder, entries: seq<LevelProgressData>, index: nat, offsets: seq<int>,
                    ghost stored: seq<Level>, ghost c0: seq<byte>, ghost p0: map<int, int>, ghost cache0: map<object, int>)
    returns (r: Result<seq<int>>)
    requires index < |entries| == |offsets|
    requires b.Valid() && b.Closed() && LevelsCached(b.contents, b.cache, b.options.forceDefaults)
    requires stored == StoredAll(Values(entries), b.options.forceDefaults)
    requires LevelsAt(b.contents, offsets, stored, index + 1)
    requires forall i :: index < i < |entries| ==> 0 < offsets[i] <= b.cursor
    requires Extends(b.contents, c0) && Grows(b.placed, p0) && OnlyLevelsAdded(b.cache, cache0)
    requires PlacesShared(b.cache, cache0, entries, offsets, index + 1, b.options.uniqueTables)
    modifies b`capacity, b`data, b`minalign, b`cursor, b`contents, b`placed, b`currentVTable, b`stringCache, b.data
    modifies b`objectStart, b`vTableOffsets, b`cache
    ensures b.data == old(b.data) || fresh(b.data)
    ensures r.Ok? ==>
      && b.Valid() && b.Closed() && LevelsCached(b.contents, b.cache, b.options.forceDefaults)
      && |r.value| == |entries| && LevelsAt(b.contents, r.value, stored, index)
      && (forall i :: index <= i < |entries| ==> 0 < r.value[i] <= b.cursor)
      && Extends(b.contents, c0) && Grows(b.placed, p0) && OnlyLevelsAdded(b.cache, cache0)
      && PlacesShared(b.cache, cache0, entries, r.value, index, b.options.uniqueTables)
      && b.cursor <= old(b.cursor) + LevelRoom(entries[index].Value())
    ensures r.Err? ==> r.error == Trap && old(b.cursor) + LevelRoom(entries[index].Value()) > INT32_MAX
  {
    hide BytesAt, Extends, Known, Aligned, LevelAt, LevelsCached, Grows, LevelRoom, FlatBuffersBuilder.Linked,
      FlatBuffersBuilder.Valid, FieldsSince, PlacesShared, OnlyLevelsAdded, LevelsAt;
    ghost var c1, p1, cache1 := b.contents, b.placed, b.cache;
    b.CursorIsLength();
    var o := AddLevel(b, entries[index]);
    if o.Err? {
      r := Err(Trap);
    } else {
      b.CursorIsLength();
      LevelInside(b.contents, o.value, stored[index]);
      ExtendsTransitive(b.contents, c1, c0);
      GrowsTransitive(b.placed, p1, p0);
      LevelsAtExtends(b.contents, c1, offsets, stored, index + 1);
      ExtendsLonger(b.contents, c1);
      PlacesNext(b.cache, cache1, cache0, entries, offsets, index, o.value, b.options.uniqueTables);
      LevelsAtNext(b.contents, offsets, stored, index, o.value);
      r := Ok(offsets[index := o.value]);
    }
  }

  // Add all levels, last first.
  method AddLevels(b: FlatBuffersBuilder, entries: seq<LevelProgressData>, ghost values: seq<Level>) returns (r: Result<seq<int>>)
    requires values == Values(entries)
    requires b.Valid() && b.Closed() && LevelsCached(b.contents, b.cache, b.options.forceDefaults)
    modifies b`capacity, b`data, b`minalign, b`cursor, b`contents, b`placed, b`currentVTable, b`stringCache, b.data
    modifies b`objectStart, b`vTableOffsets, b`cache
    ensures b.data == old(b.data) || fresh(b.data)
    ensures r.Ok? ==>
      && b.Valid() && b.Closed() && LevelsCached(b.contents, b.cache, b.options.forceDefaults)
      && Extends(b.contents, old(b.contents)) && Grows(b.placed, old(b.placed))
      && b.cursor <= old(b.cursor) + LevelsRoom(values)
      && LevelsAt(b.contents, r.value, StoredAll(values, b.options.forceDefaults), 0)
      && (forall i :: 0 <= i < |r.value| ==> 0 < r.value[i] <= b.cursor)
      && OnlyLevelsAdded(b.cache, old(b.cache)) && PlacesShared(b.cache, old(b.cache), entries, r.value, 0, b.options.uniqueTables)
    ensures r.Err? ==> r.error == Trap && old(b.cursor) + LevelsRoom(values) > INT32_MAX
  {
    hide BytesAt, Extends, Known, Aligned, LevelAt, LevelsCached, Grows, LevelRoom, LevelsRoom, StoredAll, OnlyLevelsAdded,
      Values, FlatBuffersBuilder.Linked, FlatBuffersBuilder.Valid, FieldsSince;
    OnlyLevelsItself(b.cache);
    ValuesLength(entries);
    ghost var c0, p0, cache0 := b.contents, b.placed, b.cache;
    ghost var stored := StoredAll(values, b.options.forceDefaults);
    var offsets := seq(|entries|, _ => 0);
    var index := |entries| - 1;
    ExtendsItself(c0);
    GrowsItself(p0);
    assert values[..|values|] == values;
    while index >= 0
      invariant -1 <= index < |entries| == |offsets|
      invariant b.data == old(b.data) || fresh(b.data)
      invariant b.Valid() && b.Closed() && LevelsCached(b.contents, b.cache, b.options.forceDefaults)
      invariant Extends(b.contents, c0) && Grows(b.placed, p0) && OnlyLevelsAdded(b.cache, cache0)
      invariant PlacesShared(b.cache, cache0, entries, offsets, index + 1, b.options.uniqueTables)
      invariant b.cursor + LevelsRoom(values[..index + 1]) <= old(b.cursor) + LevelsRoom(values)
      invariant LevelsAt(b.contents, offsets, stored, index + 1)
      invariant forall i :: index < i < |entries| ==> 0 < offsets[i] <= b.cursor
    {
      LevelsRoomStep(values, index);
      offsets :- AddLevelAt(b, entries, index, offsets, stored, c0, p0, cache0);
      index := index - 1;
    }
    r := Ok(offsets);
  }

  // Elements from the k-th on of a vector whose slots end at distance base.
  ghost predicate ElementsAt(c: seq<byte>, base: int, targets: seq<int>, k: nat) {
    forall i :: k <= i < |targets| ==> 0 < targets[i] && RefAt(c, base + 4 * (|targets| - i), targets[i])
  }

  lemma ElementsAtStep(d: seq<byte>, c: seq<byte>, base: int, targets: seq<int>, k: nat)
    requires Extends(d, c) && ElementsAt(c, base, targets, k + 1) && k < |targets|
    requires 0 < targets[k] && RefAt(d, base + 4 * (|targets| - k), targets[k])
    ensures ElementsAt(d, base, targets, k)
  {
    hide Extends, RefAt;
    forall i | k < i < |targets| ensures RefAt(d, base + 4 * (|targets| - i), targets[i]) {
      RefAtExtends(d, c, base + 4 * (|targets| - i), targets[i]);
    }
  }

  lemma ElementsMakeVector(d: seq<byte>, c: seq<byte>, base: int, targets: seq<int>)
    requires Extends(d, c) && ElementsAt(c, base, targets, 0) && IsInt32(|targets|)
    requires BytesAt(d, base + 4 * |targets| + 4, LE32(|targets|)) && IsAligned(base + 4 * |targets| + 4, 4)
    ensures VectorAt(d, base + 4 * |targets| + 4, targets)
  {
    hide Extends, RefAt, LE32, BytesAt, IsAligned;
    var vo := base + 4 * |targets| + 4;
    forall i | 0 <= i < |targets| ensures 0 < targets[i] && RefAt(d, vo - 4 - 4 * i, targets[i]) {
      RefAtExtends(d, c, base + 4 * (|targets| - i), targets[i]);
    }
  }

  // Add the offset of one element, right in front of the elements behind it.
  method PutElement(b: FlatBuffersBuilder, target: int) returns (r: Result<()>)
    requires b.Valid() && 0 < target <= b.cursor && Pad(b.cursor, 0, 4) == 0
    modifies b`capacity, b`data, b`minalign, b`cursor, b`contents, b`placed, b.data
    ensures b.data == old(b.data) || fresh(b.data)
    ensures r.Ok? ==>
      && b.Valid() && Extends(b.contents, old(b.contents)) && Grows(b.placed, old(b.placed))
      && b.cursor == old(b.cursor) + 4 && RefAt(b.contents, b.cursor, target)
    ensures r.Err? ==> r.error == Trap && old(b.cursor) + 11 > INT32_MAX
  {
    hide BytesAt, Extends, Known, Aligned, Grows, Pad, IsAligned, FieldsSince, LE32, FlatBuffersBuilder.Linked;
    ghost var fields, start, c0 := b.currentVTable, b.objectStart, b.contents;
    var inserted := b.InsertOffset(Some(target));
    ExtendsLonger(b.contents, c0);
    KnownExtends(b.contents, c0, b.placed, old(b.placed), b.stringCache, b.vTableOffsets);
    if start > -1 { FieldsSinceEarlier(fields, start, |c0|, start, b.cursor); }
    r := if inserted.Ok? then Ok(()) else Err(inserted.error);
  }

  // Write a vector of offsets, last element first.
  method WriteVector(b: FlatBuffersBuilder, targets: seq<int>) returns (r: Result<int>)
    requires b.Valid() && b.Closed() && forall i :: 0 <= i < |targets| ==> 0 < targets[i] <= b.cursor
    modifies b`capacity, b`data, b`minalign, b`cursor, b`contents, b`placed, b`vectorNumElems, b.data
    ensures b.data == old(b.data) || fresh(b.data)
    ensures r.Ok? ==>
      && b.Valid() && b.Closed()
      && Extends(b.contents, old(b.contents)) && Grows(b.placed, old(b.placed))
      && r.value == b.cursor <= old(b.cursor) + 4 * |targets| + 8
      && VectorAt(b.contents, r.value, targets)
    ensures r.Err? ==> r.error == Trap && old(b.cursor) + 4 * |targets| + 15 > INT32_MAX
  {
    hide BytesAt, Extends, Known, Aligned, Grows, Pad, IsAligned, FieldsSince, LE32, RefAt, FlatBuffersBuilder.Linked,
      FlatBuffersBuilder.Valid;
    ghost var c0, p0 := b.contents, b.placed;
    var n := |targets|;
    var started :- b.StartVector(n, 4);
    GrowsItself(p0);
    ghost var base := b.cursor;
    WordsAligned(base, n);
    var index := n - 1;
    while index >= 0
      invariant -1 <= index < n
      invariant b.data == old(b.data) || fresh(b.data)
      invariant b.Valid() && b.objectStart == -1 && b.vectorNumElems == n
      invariant Extends(b.contents, c0) && Grows(b.placed, p0)
      invariant b.cursor == base + 4 * (n - 1 - index)
      invariant ElementsAt(b.contents, base, targets, index + 1)
    {
      ghost var c1, p1 := b.contents, b.placed;
      var put :- PutElement(b, targets[index]);
      ExtendsTransitive(b.contents, c1, c0);
      GrowsTransitive(b.placed, p1, p0);
      ElementsAtStep(b.contents, c1, base, targets, index);
      index := index - 1;
    }
    ghost var c1, p1 := b.contents, b.placed;
    r := b.EndVector();
    ExtendsTransitive(b.contents, c1, c0);
    GrowsTransitive(b.placed, p1, p0);
    ElementsMakeVector(b.contents, c1, base, targets);
  }

  // Write the table of a progress whose vector, if any, is at offset0.
  method WriteProgressTable(b: FlatBuffersBuilder, count: nat, offset0: int) returns (r: Result<int>)
    requires b.Valid() && b.Closed() && 0 <= offset0 <= b.cursor
    modifies b`capacity, b`data, b`minalign, b`cursor, b`contents, b`placed, b`currentVTable, b.data
    modifies b`objectStart, b`vTableOffsets
    ensures b.data == old(b.data) || fresh(b.data)
    ensures r.Ok? ==>
      && b.Valid() && b.Closed() && b.minalign >= 4
      && Extends(b.contents, old(b.contents)) && Grows(b.placed, old(b.placed))
      && old(b.cursor) < r.value <= b.cursor <= old(b.cursor) + 60
      && TableHolds(b.contents, r.value, if count > 0 then [Ref(offset0)] else [Unset])
      && (count == 0 ==> r.value == SlotEnd(old(b.cursor)))
    ensures r.Err? ==> r.error == Trap && old(b.cursor) + 60 > INT32_MAX
  {
    hide BytesAt, Extends, Known, Aligned, TableHolds, Grows, FieldsSince, FieldsHold, FlatBuffersBuilder.Linked, FlatBuffersBuilder.Valid;
    ghost var c0, p0 := b.contents, b.placed;
    ghost var specs := seq(1, _ => Unset);
    assert specs == [Unset];
    ExtendsItself(c0);
    GrowsItself(p0);
    b.CursorIsLength();
    var started :- b.StartObject(1);
    NothingHeld(b.contents, b.objectStart, 1);
    var put := Ok(());
    if count > 0 {
      put := PutOffset(b, offset0, 0, specs, c0, p0);
      assert specs[0 := Ref(offset0)] == [Ref(offset0)];
      specs := [Ref(offset0)];
    }
    r := Err(Trap);
    if put.Ok? {
      ghost var c1, p1 := b.contents, b.placed;
      r := EndTable(b, specs);
      if r.Ok? {
        ExtendsTransitive(b.contents, c1, c0);
        GrowsTransitive(b.placed, p1, p0);
      }
    }
  }

  // Write all levels and the vector of their offsets.
  method WriteLevels(b: FlatBuffersBuilder, entries: seq<LevelProgressData>, ghost values: seq<Level>) returns (r: Result<int>, ghost targets: seq<int>)
    requires values == Values(entries)
    requires b.Valid() && b.Closed() && LevelsCached(b.contents, b.cache, b.options.forceDefaults)
    modifies b`capacity, b`data, b`minalign, b`cursor, b`contents, b`placed, b`currentVTable, b`stringCache, b.data
    modifies b`objectStart, b`vTableOffsets, b`vectorNumElems, b`cache
    ensures b.data == old(b.data) || fresh(b.data)
    ensures r.Ok? ==>
      && b.Valid() && b.Closed() && LevelsCached(b.contents, b.cache, b.options.forceDefaults)
      && Extends(b.contents, old(b.contents)) && Grows(b.placed, old(b.placed))
      && 0 < r.value <= b.cursor <= old(b.cursor) + LevelsRoom(values) + 4 * |entries| + 8
      && VectorAt(b.contents, r.value, targets)
      && LevelsAt(b.contents, targets, StoredAll(values, b.options.forceDefaults), 0)
      && (forall i :: 0 <= i < |targets| ==> targets[i] <= b.cursor)
      && OnlyLevelsAdded(b.cache, old(b.cache)) && PlacesShared(b.cache, old(b.cache), entries, targets, 0, b.options.uniqueTables)
    ensures r.Err? ==> r.error == Trap && old(b.cursor) + LevelsRoom(values) + 4 * |entries| + 15 > INT32_MAX
  {
    hide BytesAt, Extends, Known, Aligned, Grows, FieldsSince, LevelsAt, VectorAt, LevelsCached, LevelsRoom, StoredAll,
      OnlyLevelsAdded, FlatBuffersBuilder.Linked, FlatBuffersBuilder.Valid;
    ghost var force, c0, p0 := b.options.forceDefaults, b.contents, b.placed;
    ghost var stored := StoredAll(values, force);
    targets := [];
    var offsets := AddLevels(b, entries, values);
    if offsets.Err? {
      r := Err(Trap);
    } else {
      targets := offsets.value;
      ghost var c1, p1 := b.contents, b.placed;
      b.CursorIsLength();
      LevelsCount(c1, targets, stored);
      r := WriteVector(b, offsets.value);
      if r.Ok? {
        ExtendsTransitive(b.contents, c1, c0);
        b.CursorIsLength();
        ExtendsLonger(b.contents, c1);
        GrowsTransitive(b.placed, p1, p0);
        LevelsAtExtends(b.contents, c1, targets, stored, 0);
        LevelsCachedExtends(b.contents, c1, b.cache, force);
        VectorInside(b.contents, r.value, targets);
      }
    }
  }

  lemma VectorInside(c: seq<byte>, vo: int, targets: seq<int>)
    requires VectorAt(c, vo, targets)
    ensures 0 < vo
  {
  }

  // Write a progress without levels.
  method WriteEmptyProgress(b: FlatBuffersBuilder) returns (r: Result<int>)
    requires b.Valid() && b.Closed()
    modifies b`capacity, b`data, b`minalign, b`cursor, b`contents, b`placed, b`currentVTable, b.data
    modifies b`objectStart, b`vTableOffsets
    ensures b.data == old(b.data) || fresh(b.data)
    ensures r.Ok? ==>
      && b.Valid() && b.Closed() && b.minalign >= 4
      && Extends(b.contents, old(b.contents)) && Grows(b.placed, old(b.placed))
      && old(b.cursor) < r.value == SlotEnd(old(b.cursor)) && b.cursor <= old(b.cursor) + 60
      && ProgressAt(b.contents, r.value, [])
    ensures r.Err? ==> r.error == Trap && old(b.cursor) + 60 > INT32_MAX
  {
    hide BytesAt, Extends, Known, Aligned, TableHolds, Grows, FieldsSince, FlatBuffersBuilder.Linked, FlatBuffersBuilder.Valid;
    r := WriteProgressTable(b, 0, 0);
    if r.Ok? { b.CursorIsLength(); }
  }

  // Write a progress: its levels and their vector, then its table.
  method WriteProgress(b: FlatBuffersBuilder, p: Progress, ghost values: seq<Level>) returns (r: Result<int>)
    requires values == p.Value()
    requires b.Valid() && b.Closed() && LevelsCached(b.contents, b.cache, b.options.forceDefaults)
    modifies b`capacity, b`data, b`minalign, b`cursor, b`contents, b`placed, b`currentVTable, b`stringCache, b.data
    modifies b`objectStart, b`vTableOffsets, b`vectorNumElems, b`cache
    ensures b.data == old(b.data) || fresh(b.data)
    ensures r.Ok? ==>
      && b.Valid() && b.Closed() && b.minalign >= 4 && LevelsCached(b.contents, b.cache, b.options.forceDefaults)
      && Extends(b.contents, old(b.contents)) && Grows(b.placed, old(b.placed))
      && b.cursor <= old(b.cursor) + ProgressRoom(values)
      && ProgressAt(b.contents, r.value, StoredAll(values, b.options.forceDefaults)) && r.value > old(b.cursor)
      && OnlyLevelsAdded(b.cache, old(b.cache)) && (values == [] ==> r.value == SlotEnd(old(b.cursor)))
      && (if b.options.uniqueTables then forall l <- p.progressData :: l in b.cache else b.cache == old(b.cache))
    ensures r.Err? ==> r.error == Trap && old(b.cursor) + ProgressRoom(values) > INT32_MAX
  {
    hide BytesAt, Extends, Known, Aligned, TableHolds, Grows, FieldsSince, LevelsAt, VectorAt, LevelsCached, LevelsRoom,
      StoredAll, PlacesShared, OnlyLevelsAdded, FlatBuffersBuilder.Linked, FlatBuffersBuilder.Valid;
    ghost var force, c0, p0, cache0 := b.options.forceDefaults, b.contents, b.placed, b.cache;
    ghost var stored := StoredAll(values, force);
    OnlyLevelsItself(cache0);
    b.CursorIsLength();
    if |p.progressData| == 0 {
      r := WriteEmptyProgress(b);
      if r.Ok? { LevelsCachedExtends(b.contents, c0, b.cache, force); }
    } else {
      r := WriteFullProgress(b, p, values);
    }
  }

  // Write a progress that has levels.
  method WriteFullProgress(b: FlatBuffersBuilder, p: Progress, ghost values: seq<Level>) returns (r: Result<int>)
    requires values == p.Value() && |p.progressData| > 0
    requires b.Valid() && b.Closed() && LevelsCached(b.contents, b.cache, b.options.forceDefaults)
    modifies b`capacity, b`data, b`minalign, b`cursor, b`contents, b`placed, b`currentVTable, b`stringCache, b.data
    modifies b`objectStart, b`vTableOffsets, b`vectorNumElems, b`cache
    ensures b.data == old(b.data) || fresh(b.data)
    ensures r.Ok? ==>
      && b.Valid() && b.Closed() && b.minalign >= 4 && LevelsCached(b.contents, b.cache, b.options.forceDefaults)
      && Extends(b.contents, old(b.contents)) && Grows(b.placed, old(b.placed))
      && b.cursor <= old(b.cursor) + ProgressRoom(values)
      && ProgressAt(b.contents, r.value, StoredAll(values, b.options.forceDefaults)) && r.value > old(b.cursor)
      && OnlyLevelsAdded(b.cache, old(b.cache))
      && (if b.options.uniqueTables then forall l <- p.progressData :: l in b.cache else b.cache == old(b.cache))
    ensures r.Err? ==> r.error == Trap && old(b.cursor) + ProgressRoom(values) > INT32_MAX
  {
    hide BytesAt, Extends, Known, Aligned, TableHolds, Grows, FieldsSince, LevelsAt, VectorAt, LevelsCached, LevelsRoom,
      StoredAll, PlacesShared, OnlyLevelsAdded, ProgressAt, FlatBuffersBuilder.Linked, FlatBuffersBuilder.Valid;
    ghost var force, c0, p0, cache0 := b.options.forceDefaults, b.contents, b.placed, b.cache;
    ghost var stored := StoredAll(values, force);
    b.CursorIsLength();
    ghost var targets;
    r, targets := WriteLevels(b, p.progressData, values);
    if r.Ok? {
      ghost var c1, p1, vo := b.contents, b.placed, r.value;
      AllPlaced(b.cache, cache0, p.progressData, targets, b.options.uniqueTables);
      b.CursorIsLength();
      ExtendsLonger(c1, c0);
      r := WriteProgressTable(b, |p.progressData|, r.value);
      if r.Ok? {
        ExtendsTransitive(b.contents, c1, c0);
        GrowsTransitive(b.placed, p1, p0);
        LevelsCachedExtends(b.contents, c1, b.cache, force);
        b.CursorIsLength();
        ProgressIsAt(b.contents, c1, r.value, vo, targets, stored);
      }
    }
  }

  lemma ProgressIsAt(d: seq<byte>, c: seq<byte>, o: int, vo: int, targets: seq<int>, levels: seq<Level>)
    requires Extends(d, c) && VectorAt(c, vo, targets) && LevelsAt(c, targets, levels, 0) && levels != []
    requires TableHolds(d, o, [Ref(vo)]) && 0 < vo && |c| < o <= |d| && forall i :: 0 <= i < |targets| ==> targets[i] <= |c|
    ensures ProgressAt(d, o, levels)
  {
    hide Extends, TableHolds, VectorAt, LevelsAt;
    VectorAtExtends(d, c, vo, targets);
    LevelsAtExtends(d, c, targets, levels, 0);
    LevelsCount(c, targets, levels);
  }

  lemma LevelsCount(c: seq<byte>, targets: seq<int>, levels: seq<Level>)
    requires LevelsAt(c, targets, levels, 0)
    ensures |targets| == |levels|
  {
  }

  // Add a progress; with unique tables, an object already added is only referred to.
  method AddProgress(b: FlatBuffersBuilder, p: Progress) returns (r: Result<int>)
    requires b.Valid() && b.Closed() && LevelsCached(b.contents, b.cache, b.options.forceDefaults)
    requires p in b.cache ==> b.minalign >= 4 && ProgressAt(b.contents, b.cache[p], StoredAll(p.Value(), b.options.forceDefaults))
    modifies b`capacity, b`data, b`minalign, b`cursor, b`contents, b`placed, b`currentVTable, b`stringCache, b.data
    modifies b`objectStart, b`vTableOffsets, b`vectorNumElems, b`cache
    ensures b.data == old(b.data) || fresh(b.data)
    ensures r.Ok? ==>
      && b.Valid() && b.Closed() && b.minalign >= 4 && LevelsCached(b.contents, b.cache, b.options.forceDefaults)
      && Extends(b.contents, old(b.contents)) && Grows(b.placed, old(b.placed))
      && ProgressAt(b.contents, r.value, StoredAll(p.Value(), b.options.forceDefaults))
      && b.cursor <= old(b.cursor) + ProgressRoom(p.Value())
    ensures r.Ok? && b.options.uniqueTables && p in old(b.cache) ==>
      r.value == old(b.cache)[p] && b.cache == old(b.cache) && b.contents == old(b.contents) && b.placed == old(b.placed)
    ensures r.Ok? && b.options.uniqueTables && p !in old(b.cache) ==>
      && r.value > old(b.cursor) && p in b.cache && b.cache[p] == r.value
      && forall l <- p.progressData :: l in b.cache
    ensures r.Ok? && !b.options.uniqueTables ==> r.value > old(b.cursor) && b.cache == old(b.cache)
    ensures r.Ok? && p.progressData == [] && !(b.options.uniqueTables && p in old(b.cache)) ==>
      old(b.cursor) + 4 <= r.value <= old(b.cursor) + 7
    ensures r.Err? ==> r.error == Trap && old(b.cursor) + ProgressRoom(p.Value()) > INT32_MAX
  {
    hide BytesAt, Extends, Known, Aligned, Grows, FieldsSince, ProgressAt, StoredAll, ProgressRoom, LevelsCached, Values,
      FlatBuffersBuilder.Linked, FlatBuffersBuilder.Valid;
    if b.options.uniqueTables && p in b.cache {
      ExtendsItself(b.contents);
      GrowsItself(b.placed);
      r := Ok(b.cache[p]);
    } else {
      r := WriteProgress(b, p, p.Value());
      if r.Ok? && b.options.uniqueTables {
        LevelsCachedWithProgress(b.contents, b.cache, b.options.forceDefaults, p, r.value);
        b.cache := b.cache[p := r.value];
      }
    }
  }

  // The output of encode: the root offset leads to the progress. Its size is a multiple
  // of four, the largest stride in it, so that what is aligned as seen from the end is
  // aligned as seen from the start.
  ghost predicate Encodes(data: seq<byte>, levels: seq<Level>) {
    && |data| <= INT32_MAX && IsAligned(|data|, 4)
    && exists o: int :: IsInt32(|data| - o) && BytesAt(data, |data|, LE32(|data| - o)) && ProgressAt(data, o, levels)
  }

  // Finish a buffer with the progress at an offset as its root.
  method FinishProgress(b: FlatBuffersBuilder, offset: int, ghost stored: seq<Level>) returns (r: Result<()>)
    requires b.Valid() && b.Closed() && b.minalign >= 4 && ProgressAt(b.contents, offset, stored)
    modifies b`capacity, b`data, b`minalign, b`cursor, b`contents, b`placed, b.data
    ensures b.data == old(b.data) || fresh(b.data)
    ensures r.Ok? ==>
      && b.Valid() && b.Closed()
      && Extends(b.contents, old(b.contents)) && Grows(b.placed, old(b.placed))
      && Encodes(b.contents, stored) && AlignedFromStart(b.placed, b.cursor) && WordPlaced(b.placed, b.cursor)
    ensures r.Err? ==> r.error == Trap && old(b.cursor) + 18 > INT32_MAX
  {
    hide BytesAt, Extends, Known, Aligned, Grows, FieldsSince, TableHolds, VectorAt, LE32, LevelsAt, IsAligned, Alignment,
      AlignedFromStart, ProgressAt, IsSize, AtLeast, WordPlaced, Encodes, FlatBuffersBuilder.Linked, FlatBuffersBuilder.Valid;
    b.CursorIsLength();
    ProgressInside(b.contents, offset, stored);
    r := b.Finish(offset, None);
    if r.Ok? {
      b.CursorIsLength();
      AlignedFour(b.cursor, b.minalign);
      ProgressAtExtends(b.contents, old(b.contents), offset, stored);
      EncodesFrom(b.contents, offset, stored);
    }
  }

  // The whole of encode(withBuilder:): on a builder in any state between objects.
  method Encode(b: FlatBuffersBuilder, p: Progress) returns (r: Result<()>)
    requires b.Valid() && b.Closed() && LevelsCached(b.contents, b.cache, b.options.forceDefaults)
    requires p in b.cache ==> b.minalign >= 4 && ProgressAt(b.contents, b.cache[p], StoredAll(p.Value(), b.options.forceDefaults))
    modifies b`capacity, b`data, b`minalign, b`cursor, b`contents, b`placed, b`currentVTable, b`stringCache, b.data
    modifies b`objectStart, b`vTableOffsets, b`vectorNumElems, b`cache
    ensures b.data == old(b.data) || fresh(b.data)
    ensures r.Ok? ==>
      && b.Valid() && b.Closed() && LevelsCached(b.contents, b.cache, b.options.forceDefaults)
      && Extends(b.contents, old(b.contents)) && Grows(b.placed, old(b.placed))
      && Encodes(b.contents, StoredAll(p.Value(), b.options.forceDefaults))
      && AlignedFromStart(b.placed, b.cursor) && WordPlaced(b.placed, b.cursor)
    ensures r.Err? ==> r.error == Trap && old(b.cursor) + ProgressRoom(p.Value()) + 18 > INT32_MAX
  {
    hide *;
    ghost var force, c0, p0 := b.options.forceDefaults, b.contents, b.placed;
    ghost var stored := StoredAll(p.Value(), force);
    var offset := AddProgress(b, p);
    r := Err(Trap);
    if offset.Ok? {
      ghost var c1, p1 := b.contents, b.placed;
      r := FinishProgress(b, offset.value, stored);
      if r.Ok? {
        ExtendsTransitive(b.contents, c1, c0);
        GrowsTransitive(b.placed, p1, p0);
        LevelsCachedExtends(b.contents, c1, b.cache, force);
      }
    }
  }

  lemma EncodesFrom(data: seq<byte>, o: int, levels: seq<Level>)
    requires |data| <= INT32_MAX && IsAligned(|data|, 4)
    requires IsInt32(|data| - o) && BytesAt(data, |data|, LE32(|data| - o)) && ProgressAt(data, o, levels)
    ensures Encodes(data, levels)
  {
    hide ProgressAt, BytesAt, LE32;
  }

  lemma AlignedFour(total: int, minalign: int)
    requires IsSize(minalign) && minalign >= 4 && IsAligned(total, minalign)
    ensures IsAligned(total, 4)
  {
    hide IsAligned;
    MultipleAligned(0, 4);
    AlignedDifference(total, 0, 4, minalign);
  }

  lemma ProgressInside(c: seq<byte>, o: int, levels: seq<Level>)
    requires ProgressAt(c, o, levels)
    ensures 0 < o <= |c|
  {
  }

  method MakeData(p: Progress, options: Options) returns (r: Result<seq<byte>>)
    requires options.initialCapacity >= 1
    ensures r.Ok? ==> Encodes(r.value, StoredAll(p.Value(), options.forceDefaults))
    ensures r.Err? ==> r.error == Trap && ProgressRoom(p.Value()) + 18 > INT32_MAX
  {
    hide Encodes, StoredAll, ProgressRoom;
    var b := new FlatBuffersBuilder(options);
    var encoded :- Encode(b, p);
    var data := b.MakeData();
    r := Ok(data);
  }
}
