// Reading player progress back, and the round trip.
module ProgressReader {
  import opened Wrappers
  import opened FlatBytes
  import opened FlatBuffersBuilder
  import opened FlatBuffersReader
  import opened FlatTables
  import opened ProgressWriter

  // What the bytes at a table offset say, apart from any object pool. With catching off
  // the first load outside of the bytes ends the reading.
  function DecodeLevel(data: seq<byte>, o: int, catching: bool): Result<Level> {
    var text :- FieldOffset(data, o, 0, catching);
    var uuid :- StringBuffer(data, text, catching);
    var completed :- GetBool(data, o, 1, catching);
    var locked :- GetBool(data, o, 2, catching);
    var stars :- GetInt32(data, o, 3, catching);
    var time :- GetScalar(data, o, 4, FLOAT_ZERO, catching);
    var distance :- GetScalar(data, o, 5, FLOAT_ZERO, catching);
    Ok(Level(uuid, completed, locked, stars, time, distance))
  }

  function GetBool(data: seq<byte>, o: int, propertyIndex: nat, catching: bool): Result<bool>
    requires 4 + propertyIndex * 2 <= INT16_MAX
  {
    var bytes :- GetScalar(data, o, propertyIndex, BoolBytes(false), catching);
    Ok(bytes != BoolBytes(false))
  }

  function GetInt32(data: seq<byte>, o: int, propertyIndex: nat, catching: bool): Result<Int32>
    requires 4 + propertyIndex * 2 <= INT16_MAX
  {
    var bytes :- GetScalar(data, o, propertyIndex, LE32(0), catching);
    FromLE32Range(bytes);
    Ok(FromLE32(bytes))
  }

  // The elements of a vector of count elements from the k-th on. An element whose offset
  // is nil is skipped. One whose offset is known already is taken as it is known, or
  // skipped when it is known to be something else than a level.
  function DecodeElements(data: seq<byte>, vector: Option<int>, count: int, known: map<int, Option<Level>>, k: nat, catching: bool): Result<seq<Level>>
    decreases count - k
  {
    if k >= count then Ok([]) else
    var o :- VectorElementOffset(data, vector, k, catching);
    var level :- DecodeElement(data, o, known, catching);
    var rest :- DecodeElements(data, vector, count, known, k + 1, catching);
    Ok(if level.None? then rest else [level.value] + rest)
  }

  function DecodeElement(data: seq<byte>, o: Option<int>, known: map<int, Option<Level>>, catching: bool): Result<Option<Level>> {
    if o.None? then Ok(None) else
    if o.value in known then Ok(known[o.value]) else
    var v :- DecodeLevel(data, o.value, catching);
    Ok(Some(v))
  }

  function DecodeProgress(data: seq<byte>, o: int, known: map<int, Option<Level>>, catching: bool): Result<seq<Level>> {
    var vector :- FieldOffset(data, o, 0, catching);
    var count :- VectorElementCount(data, vector, catching);
    DecodeElements(data, vector, count, known, 0, catching)
  }

  // Decoding all of the bytes. With a pool, even an empty one, the root itself is known
  // not to be a level.
  function DecodeRoot(data: seq<byte>, pooled: bool, catching: bool): Result<Option<seq<Level>>> {
    var root :- RootObjectOffset(data, catching);
    if root.None? then Ok(None) else
    var levels :- DecodeProgress(data, root.value, if pooled then map[root.value := None] else map[], catching);
    Ok(Some(levels))
  }

  lemma LevelFound(c: seq<byte>, o: int, v: Level, catching: bool)
    requires |c| <= INT32_MAX && IsAligned(|c|, 4) && LevelAt(c, o, v)
    ensures DecodeLevel(c, |c| - o, catching) == Ok(v)
  {
    hide TableHolds, FieldOffset, GetScalar, StringBuffer, LE32, FromLE32, StringAt, IsAligned;
    var text: int :| UuidAt(c, text, v.uuid) && TableHolds(c, o, LevelSpecs(v, text));
    var specs := LevelSpecs(v, text);
    AnyByteAligned(|c|);
    FieldOffsetFound(c, o, specs, 0, catching);
    if v.uuid.Some? {
      UuidPlace(c, text, v.uuid.value);
      StringFound(c, text, v.uuid.value, catching);
    } else {
      NilString(c, catching);
    }
    GetScalarFound(c, o, specs, 1, catching);
    GetScalarFound(c, o, specs, 2, catching);
    GetScalarFound(c, o, specs, 3, catching);
    GetScalarFound(c, o, specs, 4, catching);
    GetScalarFound(c, o, specs, 5, catching);
    LE32RoundTrip(v.stars);
  }

  // What the flags of any bytes are read as, whoever wrote them: an absent one is false, and
  // of the bytes that are there zero is false and one is true.
  lemma FlagsRead(data: seq<byte>, o: int, i: nat, catching: bool)
    requires (i == 1 || i == 2) && DecodeLevel(data, o, catching).Ok?
    ensures
      var v := DecodeLevel(data, o, catching).value;
      var flag, place := if i == 1 then v.completed else v.locked, PropertyOffset(data, o, i, catching);
      && place.Ok?
      && (place.value == 0 ==> !flag)
      && (place.value != 0 && 0 <= o + place.value < |data| && data[o + place.value] == 0 ==> !flag)
      && (place.value != 0 && 0 <= o + place.value < |data| && data[o + place.value] == 1 ==> flag)
  {
    hide PropertyOffset, FieldOffset, StringBuffer, FromLE32, LE32;
  }

  // The numbers of any bytes: an absent one is zero, and four bytes are read lowest first,
  // in two's complement.
  lemma StarsRead(data: seq<byte>, o: int, catching: bool)
    requires DecodeLevel(data, o, catching).Ok?
    ensures
      var stars, place := DecodeLevel(data, o, catching).value.stars, PropertyOffset(data, o, 3, catching);
      && place.Ok?
      && (place.value == 0 ==> stars == 0)
      && (place.value != 0 && 0 <= o + place.value <= |data| - 4 ==>
            stars == NumberOf(data[o + place.value..o + place.value + 4]))
  {
    hide PropertyOffset, FieldOffset, StringBuffer, GetBool, FromLE32, LE32;
    LE32RoundTrip(0);
    var bytes := GetScalar(data, o, 3, LE32(0), catching);
    FromLE32Bytes(bytes.value);
  }

  // The offsets in the vector of any bytes: an element is absent beyond the count, and if
  // its four bytes are zero; any other is as far from its own place as they say.
  lemma ElementRead(data: seq<byte>, vector: int, index: nat, catching: bool)
    requires VectorElementOffset(data, Some(vector), index, catching).Ok?
    requires vector % 4 == 0 && 0 <= vector && vector + 4 * index + 8 <= |data|
    ensures
      var o, at := VectorElementOffset(data, Some(vector), index, catching).value, vector + 4 + 4 * index;
      var count, far := NumberOf(data[vector..vector + 4]), NumberOf(data[at..at + 4]);
      o == if index >= count || far == 0 then None else Some(at + far)
  {
    hide FromLE32;
    var at := vector + 4 + 4 * index;
    FromLE32Bytes(data[vector..vector + 4]);
    FromLE32Bytes(data[at..at + 4]);
    assert IsAligned(at, 4);
    assert Int32At(data, vector) == Ok(FromLE32(data[vector..vector + 4])) && Int32At(data, at) == Ok(FromLE32(data[at..at + 4]));
  }

  // The place that an offset field leads to, in any bytes.
  lemma FieldRead(data: seq<byte>, o: int, i: nat, catching: bool)
    requires 4 + i * 2 <= INT16_MAX && FieldOffset(data, o, i, catching).Ok?
    ensures
      var place := PropertyOffset(data, o, i, catching);
      && place.Ok? && (place.value == 0 ==> FieldOffset(data, o, i, catching).value == None)
      && var at := o + place.value;
         (place.value != 0 && at % 4 == 0 && 0 <= at <= |data| - 4 ==>
            var far := NumberOf(data[at..at + 4]);
            FieldOffset(data, o, i, catching).value == if far == 0 then None else Some(at + far))
  {
    hide FromLE32, PropertyOffset;
    var at := o + PropertyOffset(data, o, i, catching).value;
    if at % 4 == 0 && 0 <= at <= |data| - 4 {
      FromLE32Bytes(data[at..at + 4]);
      assert IsAligned(at, 4);
      assert Int32At(data, at) == Ok(FromLE32(data[at..at + 4]));
    }
  }

  lemma UuidPlace(c: seq<byte>, text: int, s: seq<byte>)
    requires StringAt(c, text, s)
    ensures text != 0
  {
  }

  lemma NilString(c: seq<byte>, catching: bool)
    ensures StringBuffer(c, None, catching) == Ok(None)
  {
  }

  lemma ElementFound(c: seq<byte>, vo: int, targets: seq<int>, k: nat, catching: bool)
    requires |c| <= INT32_MAX && IsAligned(|c|, 4) && VectorAt(c, vo, targets) && k < |targets|
    ensures VectorElementOffset(c, Some(|c| - vo), k, catching) == Ok(Some(|c| - targets[k]))
  {
    hide LE32, Int32At, IsAligned;
    VectorCount(c, vo, targets, catching);
    var f := vo - 4 - 4 * k;
    assert RefAt(c, f, targets[k]);
    Int32Found(c, f, f - targets[k]);
  }

  lemma VectorCount(c: seq<byte>, vo: int, targets: seq<int>, catching: bool)
    requires VectorAt(c, vo, targets) && IsAligned(|c|, 4)
    ensures VectorElementCount(c, Some(|c| - vo), catching) == Ok(|targets|)
  {
    hide LE32, Int32At, IsAligned;
    Int32Found(c, vo, |targets|);
  }

  // What is known agrees with the bytes: levels are what they decode to, and only the
  // root is something else.
  ghost predicate Agrees(data: seq<byte>, root: int, known: map<int, Option<Level>>) {
    forall o :: o in known ==> if known[o].None? then o == root else DecodeLevel(data, o, true) == Ok(known[o].value)
  }

  lemma {:induction false} ElementsFound(c: seq<byte>, vo: int, targets: seq<int>, levels: seq<Level>, root: int,
                                         known: map<int, Option<Level>>, k: nat, catching: bool)
    requires |c| <= INT32_MAX && IsAligned(|c|, 4)
    requires VectorAt(c, vo, targets) && LevelsAt(c, targets, levels, 0) && k <= |levels|
    requires Agrees(c, root, known) && forall i :: 0 <= i < |targets| ==> root != |c| - targets[i]
    ensures DecodeElements(c, Some(|c| - vo), |targets|, known, k, catching) == Ok(levels[k..])
    decreases |levels| - k
  {
    hide DecodeLevel, LevelAt, VectorElementOffset, IsAligned, VectorAt;
    if k < |levels| {
      ElementFound(c, vo, targets, k, catching);
      LevelFound(c, targets[k], levels[k], catching);
      LevelFound(c, targets[k], levels[k], true);
      ElementsFound(c, vo, targets, levels, root, known, k + 1, catching);
      assert levels[k..] == [levels[k]] + levels[k + 1..];
    }
  }

  lemma ProgressFound(c: seq<byte>, o: int, levels: seq<Level>, known: map<int, Option<Level>>, catching: bool)
    requires |c| <= INT32_MAX && IsAligned(|c|, 4) && ProgressAt(c, o, levels) && Agrees(c, |c| - o, known)
    ensures DecodeProgress(c, |c| - o, known, catching) == Ok(levels)
  {
    hide TableHolds, FieldOffset, VectorAt, LevelsAt, IsAligned, VectorElementOffset, DecodeElement;
    if levels == [] {
      FieldOffsetFound(c, o, [Unset], 0, catching);
    } else {
      var vo: int, targets: seq<int> :|
        && TableHolds(c, o, [Ref(vo)]) && 0 < vo && VectorAt(c, vo, targets)
        && LevelsAt(c, targets, levels, 0) && forall i :: 0 <= i < |targets| ==> targets[i] < o;
      FieldOffsetFound(c, o, [Ref(vo)], 0, catching);
      VectorCount(c, vo, targets, catching);
      ElementsFound(c, vo, targets, levels, |c| - o, known, 0, catching);
    }
  }

  // Decoding an encoding gives the stored levels back, in order, with or without a pool.
  // As a misaligned load would have trapped, and with catching off a load out of bounds
  // would have been an error, every load that reading makes is in bounds and aligned.
  lemma RoundTrip(data: seq<byte>, levels: seq<Level>, pooled: bool, catching: bool)
    requires Encodes(data, levels)
    ensures DecodeRoot(data, pooled, catching) == Ok(Some(levels))
  {
    hide BytesAt, LE32, Int32At, ProgressAt, DecodeProgress, IsAligned, DecodeLevel;
    var o: int :| IsInt32(|data| - o) && BytesAt(data, |data|, LE32(|data| - o)) && ProgressAt(data, o, levels);
    Int32Found(data, |data|, |data| - o);
    ProgressFound(data, o, levels, if pooled then map[|data| - o := None] else map[], catching);
  }

  // Whatever a pool knows about the same bytes, the root of an encoding decodes to the
  // same levels.
  lemma RootFound(data: seq<byte>, levels: seq<Level>, known: map<int, Option<Level>>)
    requires Encodes(data, levels)
    ensures
      var root := RootObjectOffset(data, true);
      root.Ok? && root.value.Some? && (Agrees(data, root.value.value, known) ==> DecodeProgress(data, root.value.value, known, true) == Ok(levels))
  {
    hide BytesAt, LE32, Int32At, ProgressAt, DecodeProgress, IsAligned, Agrees;
    var o: int :| IsInt32(|data| - o) && BytesAt(data, |data|, LE32(|data| - o)) && ProgressAt(data, o, levels);
    Int32Found(data, |data|, |data| - o);
    if Agrees(data, |data| - o, known) {
      ProgressFound(data, o, levels, known, true);
    }
  }

  // A reading that succeeds with catching off is the same with catching on: nothing was
  // caught in it.
  lemma NothingCaught(data: seq<byte>, pooled: bool)
    requires DecodeRoot(data, pooled, false).Ok?
    ensures DecodeRoot(data, pooled, true) == DecodeRoot(data, pooled, false)
  {
    hide DecodeElements, LookUpProperty, FollowOffset, DecodeLevel;
    var root := RootObjectOffset(data, false).value;
    if root.Some? {
      var vector := FieldOffset(data, root.value, 0, false).value;
      var count := VectorElementCount(data, vector, false).value;
      NothingCaughtInElements(data, vector, count, if pooled then map[root.value := None] else map[], 0);
    }
  }

  lemma {:induction false} NothingCaughtInElements(data: seq<byte>, vector: Option<int>, count: int, known: map<int, Option<Level>>, k: nat)
    requires DecodeElements(data, vector, count, known, k, false).Ok?
    ensures DecodeElements(data, vector, count, known, k, true) == DecodeElements(data, vector, count, known, k, false)
    decreases count - k
  {
    hide DecodeLevel, FollowElement;
    if k < count {
      var o := VectorElementOffset(data, vector, k, false).value;
      if o.Some? && o.value !in known {
        NothingCaughtInLevel(data, o.value);
      }
      NothingCaughtInElements(data, vector, count, known, k + 1);
    }
  }

  lemma NothingCaughtInLevel(data: seq<byte>, o: int)
    requires DecodeLevel(data, o, false).Ok?
    ensures DecodeLevel(data, o, true) == DecodeLevel(data, o, false)
  {
    hide LookUpProperty, FollowOffset, LoadString, ScalarAt;
  }

  // With catching, what lies outside of the bytes is absent: no root, no property, no place,
  // the default of a scalar, no string and no elements.
  lemma OutsideIsAbsent(data: seq<byte>, o: int, i: nat, default: seq<byte>)
    requires 4 + i * 2 <= INT16_MAX && IsStride(|default|)
    ensures |data| < 4 ==> RootObjectOffset(data, true) == Ok(None)
    ensures o < 0 || o + 4 > |data| ==>
      && PropertyOffset(data, o, i, true) == Ok(0)
      && FieldOffset(data, o, i, true) == Ok(None) && GetScalar(data, o, i, default, true) == Ok(default)
      && StringBuffer(data, Some(o), true) == Ok(None) && VectorElementCount(data, Some(o), true) == Ok(0)
      && VectorElementOffset(data, Some(o), i, true) == Ok(None)
    ensures
      var place := PropertyOffset(data, o, i, true);
      && (place.Ok? && place.value != 0 && (o + place.value < 0 || o + place.value + 4 > |data|) ==> FieldOffset(data, o, i, true) == Ok(None))
      && (place.Ok? && place.value != 0 && (o + place.value < 0 || o + place.value + |default| > |data|) ==>
            GetScalar(data, o, i, default, true) == Ok(default))
  {
    hide FromLE32, FromLE16;
  }

  // A string whose bytes would end outside of the data is absent as well.
  lemma StringOutsideIsAbsent(data: seq<byte>, o: int)
    requires 0 <= o <= |data| - 4 && o % 4 == 0 && o + 4 + NumberOf(data[o..o + 4]) > |data|
    ensures StringBuffer(data, Some(o), true) == Ok(None) && StringBuffer(data, Some(o), false) == Err(OutOfBufferBounds)
  {
    hide FromLE32;
    FromLE32Bytes(data[o..o + 4]);
    assert IsAligned(o, 4);
  }

  // Whatever the bytes are, reading them with catching never throws: it gives a result, or
  // it stops at a load that is not aligned, a negative length or an offset that does not fit.
  lemma NeverThrows(data: seq<byte>, pooled: bool)
    ensures DecodeRoot(data, pooled, true).Err? ==> DecodeRoot(data, pooled, true) == Err(Trap)
  {
    hide DecodeElements, LookUpProperty, FollowOffset;
    LookUpThrows(data);
    var root := RootObjectOffset(data, true);
    if root.Ok? && root.value.Some? {
      var o := root.value.value;
      var vector := FieldOffset(data, o, 0, true);
      if vector.Ok? && VectorElementCount(data, vector.value, true).Ok? {
        ElementsNeverThrow(data, vector.value, VectorElementCount(data, vector.value, true).value, if pooled then map[o := None] else map[], 0);
      }
    }
  }

  lemma {:induction false} ElementsNeverThrow(data: seq<byte>, vector: Option<int>, count: int, known: map<int, Option<Level>>, k: nat)
    ensures
      var r := DecodeElements(data, vector, count, known, k, true);
      r.Err? ==> r.error == Trap
    decreases count - k
  {
    hide DecodeLevel;
    if k < count {
      var o := VectorElementOffset(data, vector, k, true);
      if o.Ok? && o.value.Some? {
        LevelNeverThrows(data, o.value.value);
      }
      ElementsNeverThrow(data, vector, count, known, k + 1);
    }
  }

  lemma LevelNeverThrows(data: seq<byte>, o: int)
    ensures DecodeLevel(data, o, true).Err? ==> DecodeLevel(data, o, true).error == Trap
  {
    hide LookUpProperty, FollowOffset, FromLE32, LE32, ScalarAt;
    LookUpThrows(data);
    LoadsThrow(data);
  }

  lemma LookUpThrows(data: seq<byte>)
    ensures forall o: int, i: nat :: 4 + i * 2 <= INT16_MAX && LookUpProperty(data, o, i).Err? ==>
      LookUpProperty(data, o, i).error == Trap || LookUpProperty(data, o, i).error == OutOfBufferBounds
    ensures forall p: int :: FollowOffset(data, p).Err? ==> FollowOffset(data, p).error == Trap || FollowOffset(data, p).error == OutOfBufferBounds
  {
    hide FromLE16, FromLE32;
  }

  lemma LoadsThrow(data: seq<byte>)
    ensures forall p: int, n: nat :: IsStride(n) && ScalarAt(data, p, n).Err? ==>
      ScalarAt(data, p, n).error == Trap || ScalarAt(data, p, n).error == OutOfBufferBounds
    ensures forall p: int :: LoadString(data, p).Err? ==> LoadString(data, p).error == Trap || LoadString(data, p).error == OutOfBufferBounds
  {
    hide FromLE32;
  }

  // What is stored equals the original value, with the two float zeros being equal; it
  // is the original value itself when defaults are forced.
  predicate FloatEquals(f: Float32, g: Float32) { f == g || (IsZero(f) && IsZero(g)) }

  predicate LevelEquals(v: Level, w: Level) {
    && FloatEquals(v.time, w.time) && FloatEquals(v.distance, w.distance)
    && v.(time := w.time, distance := w.distance) == w
  }

  lemma StoredEquals(levels: seq<Level>, forceDefaults: bool, i: nat)
    requires i < |levels|
    ensures LevelEquals(levels[i], StoredAll(levels, forceDefaults)[i])
    ensures forceDefaults ==> StoredAll(levels, forceDefaults) == levels
    ensures
      var v, w := levels[i], StoredAll(levels, forceDefaults)[i];
      w == v.(time := if !forceDefaults && v.time == [0, 0, 0, 128] then [0, 0, 0, 0] else v.time,
              distance := if !forceDefaults && v.distance == [0, 0, 0, 128] then [0, 0, 0, 0] else v.distance)
  {
  }

  // The object pool of a reader: the object already made for an offset.
  datatype Pooled = PooledLevel(level: LevelProgressData) | PooledProgress(progress: Progress)

  class FlatBuffersReaderCache {
    var objectPool: map<int, Pooled>

    constructor ()
      ensures objectPool == map[]
    {
      objectPool := map[];
    }
  }

  ghost function PooledLevels(pool: map<int, Pooled>): set<object> {
    set o | o in pool && pool[o].PooledLevel? :: pool[o].level
  }

  // What a pool knows: the values of its levels, and offsets that are something else.
  ghost function KnownIn(pool: map<int, Pooled>): map<int, Option<Level>>
    reads PooledLevels(pool)
  {
    map o | o in pool :: if pool[o].PooledLevel? then Some(pool[o].level.Value()) else None
  }

  function ValueOf(l: LevelProgressData?): Option<Level>
    reads if l == null then {} else {l}
  {
    if l == null then None else Some(l.Value())
  }

  // Make the level at an offset. An offset that the pool knows gives what the pool has
  // there, from whatever bytes it was made, and null if that is not a level.
  method CreateLevel(data: seq<byte>, cache: FlatBuffersReaderCache?, objectOffset: Option<int>) returns (r: Result<LevelProgressData?>)
    modifies cache
    ensures objectOffset.None? ==> r == Ok(null) && (cache != null ==> cache.objectPool == old(cache.objectPool))
    ensures objectOffset.Some? && cache != null && objectOffset.value in old(cache.objectPool) ==>
      && cache.objectPool == old(cache.objectPool)
      && r == Ok(match cache.objectPool[objectOffset.value] case PooledLevel(l) => l case PooledProgress(_) => null)
    ensures objectOffset.Some? && (cache == null || objectOffset.value !in old(cache.objectPool)) ==>
      match DecodeLevel(data, objectOffset.value, true)
      case Ok(v) =>
        && r.Ok? && r.value != null && fresh(r.value) && r.value.Value() == v
        && (cache != null ==> cache.objectPool == old(cache.objectPool)[objectOffset.value := PooledLevel(r.value)])
      case Err(e) => r == Err(e)
  {
    if objectOffset.None? { return Ok(null); }
    var o := objectOffset.value;
    if cache != null && o in cache.objectPool {
      match cache.objectPool[o]
      case PooledLevel(l) => return Ok(l);
      case PooledProgress(_) => return Ok(null);
    }
    var result := new LevelProgressData();
    if cache != null {
      cache.objectPool := cache.objectPool[o := PooledLevel(result)];
    }
    var text :- FieldOffset(data, o, 0, true);
    result.uuid :- StringBuffer(data, text, true);
    result.completed :- GetBool(data, o, 1, true);
    result.locked :- GetBool(data, o, 2, true);
    result.stars :- GetInt32(data, o, 3, true);
    result.time :- GetScalar(data, o, 4, FLOAT_ZERO, true);
    result.distance :- GetScalar(data, o, 5, FLOAT_ZERO, true);
    r := Ok(result);
  }

  // Make the progress at an offset, likewise.
  method CreateProgress(data: seq<byte>, cache: FlatBuffersReaderCache?, objectOffset: Option<int>) returns (r: Result<Progress?>)
    modifies cache
    ensures objectOffset.None? ==> r == Ok(null)
    ensures objectOffset.Some? && cache != null && objectOffset.value in old(cache.objectPool) ==>
      && cache.objectPool == old(cache.objectPool)
      && r == Ok(match cache.objectPool[objectOffset.value] case PooledLevel(_) => null case PooledProgress(p) => p)
    ensures objectOffset.Some? && (cache == null || objectOffset.value !in old(cache.objectPool)) ==>
      var known := if cache == null then map[] else old(KnownIn(cache.objectPool))[objectOffset.value := None];
      match DecodeProgress(data, objectOffset.value, known, true)
      case Ok(levels) =>
        && r.Ok? && r.value != null && fresh(r.value) && r.value.Value() == levels
        && (cache != null ==> objectOffset.value in cache.objectPool && cache.objectPool[objectOffset.value] == PooledProgress(r.value))
      case Err(e) => r == Err(e)
  {
    if objectOffset.None? { return Ok(null); }
    var o := objectOffset.value;
    if cache != null && o in cache.objectPool {
      match cache.objectPool[o]
      case PooledLevel(_) => return Ok(null);
      case PooledProgress(p) => return Ok(p);
    }
    var result := new Progress();
    ghost var known := map[];
    if cache != null {
      cache.objectPool := cache.objectPool[o := PooledProgress(result)];
      known := old(KnownIn(cache.objectPool))[o := None];
      KnownWithProgress(old(cache.objectPool), o, result);
      assert known == KnownIn(cache.objectPool);
    }
    var vector :- FieldOffset(data, o, 0, true);
    var length :- VectorElementCount(data, vector, true);
    var filled := AppendElements(data, cache, vector, length, result, known);
    r := if filled.Ok? then Ok(result) else Err(filled.error);
  }

  lemma KnownWithProgress(pool: map<int, Pooled>, o: int, p: Progress)
    requires o !in pool
    ensures KnownIn(pool[o := PooledProgress(p)]) == KnownIn(pool)[o := None]
  {
  }

  // Since known was taken, a pool has only gained levels, each as it decodes.
  ghost predicate PoolSince(data: seq<byte>, pool: map<int, Pooled>, known: map<int, Option<Level>>)
    reads PooledLevels(pool)
  {
    && (forall o :: o in known ==> o in pool)
    && forall o :: o in pool ==>
         if o in known then known[o] == (if pool[o].PooledLevel? then Some(pool[o].level.Value()) else None)
         else pool[o].PooledLevel? && DecodeLevel(data, o, true) == Ok(pool[o].level.Value())
  }

  lemma PoolNow(data: seq<byte>, pool: map<int, Pooled>)
    ensures PoolSince(data, pool, KnownIn(pool))
  {
  }

  // Append the elements of a vector to a new progress.
  method AppendElements(data: seq<byte>, cache: FlatBuffersReaderCache?, vector: Option<int>, length: int, result: Progress,
                        ghost known: map<int, Option<Level>>)
    returns (r: Result<()>)
    requires if cache == null then known == map[] else known == KnownIn(cache.objectPool)
    requires result.progressData == []
    modifies cache, result
    ensures cache != null && r.Ok? ==> forall o :: o in known ==> o in cache.objectPool && cache.objectPool[o] == old(cache.objectPool)[o]
    ensures
      match DecodeElements(data, vector, length, known, 0, true)
      case Ok(levels) => r.Ok? && result.Value() == levels
      case Err(e) => r == Err(e)
  {
    hide DecodeLevel, VectorElementOffset, VectorElementCount, Values, DecodeElements, DecodeElement, Prepend, PoolSince;
    if cache != null { PoolNow(data, cache.objectPool); }
    ghost var all := DecodeElements(data, vector, length, known, 0, true);
    ghost var done: seq<Level> := [];
    var index := 0;
    NoLevels(all);
    NoValues();
    while index < length
      invariant 0 <= index && (index <= length || index == 0)
      invariant cache != null ==> PoolSince(data, cache.objectPool, known)
      invariant cache != null ==> forall o :: o in known ==> o in cache.objectPool && cache.objectPool[o] == old(cache.objectPool)[o]
      invariant Values(result.progressData) == done
      invariant all == Prepend(done, DecodeElements(data, vector, length, known, index, true))
    {
      ElementsStep(data, vector, length, known, index, done);
      var elementOffset :- VectorElementOffset(data, vector, index, true);
      var element :- AppendedElement(data, cache, elementOffset, known);
      if element != null {
        ValuesAppend(result.progressData, element);
        done := done + [element.Value()];
        assert cache != null ==> (result as object) !in PooledLevels(cache.objectPool);
        result.progressData := result.progressData + [element];
      }
      index := index + 1;
    }
    NoneLeft(data, vector, length, known, index, done);
    r := Ok(());
  }

  // What is left to decode after one more element.
  lemma ElementsStep(data: seq<byte>, vector: Option<int>, count: int, known: map<int, Option<Level>>, k: nat, done: seq<Level>)
    requires k < count
    ensures
      var o := VectorElementOffset(data, vector, k, true);
      var all := Prepend(done, DecodeElements(data, vector, count, known, k, true));
      if o.Err? then all == Err(o.error) else
      var level := DecodeElement(data, o.value, known, true);
      if level.Err? then all == Err(level.error) else
      all == Prepend(if level.value.None? then done else done + [level.value.value], DecodeElements(data, vector, count, known, k + 1, true))
  {
    hide VectorElementOffset, DecodeElement;
    var o := VectorElementOffset(data, vector, k, true);
    if o.Ok? && DecodeElement(data, o.value, known, true).Ok? {
      var level := DecodeElement(data, o.value, known, true).value;
      if level.Some? {
        PrependAppend(done, level.value, DecodeElements(data, vector, count, known, k + 1, true));
      }
    }
  }

  lemma NoneLeft(data: seq<byte>, vector: Option<int>, count: int, known: map<int, Option<Level>>, k: nat, done: seq<Level>)
    requires k >= count
    ensures Prepend(done, DecodeElements(data, vector, count, known, k, true)) == Ok(done)
  {
    assert done + [] == done;
  }

  // One element: the pool or the bytes give what decoding with known gives.
  method AppendedElement(data: seq<byte>, cache: FlatBuffersReaderCache?, o: Option<int>, ghost known: map<int, Option<Level>>)
    returns (r: Result<LevelProgressData?>)
    requires if cache == null then known == map[] else PoolSince(data, cache.objectPool, known)
    modifies cache
    ensures cache != null && r.Ok? ==>
      && PoolSince(data, cache.objectPool, known)
      && forall o :: o in old(cache.objectPool) ==> o in cache.objectPool && cache.objectPool[o] == old(cache.objectPool)[o]
    ensures
      match DecodeElement(data, o, known, true)
      case Ok(v) => r.Ok? && ValueOf(r.value) == v
      case Err(e) => r == Err(e)
  {
    hide DecodeLevel;
    r := CreateLevel(data, cache, o);
  }

  lemma NoValues()
    ensures Values([]) == []
  {
  }

  function Prepend(done: seq<Level>, rest: Result<seq<Level>>): Result<seq<Level>> {
    if rest.Ok? then Ok(done + rest.value) else rest
  }

  lemma NoLevels(rest: Result<seq<Level>>)
    ensures Prepend([], rest) == rest
  {
    if rest.Ok? { assert [] + rest.value == rest.value; }
  }

  lemma PrependAppend(done: seq<Level>, v: Level, rest: Result<seq<Level>>)
    ensures Prepend(done, Prepend([v], rest)) == Prepend(done + [v], rest)
  {
    if rest.Ok? { assert done + ([v] + rest.value) == done + [v] + rest.value; }
  }

  lemma {:induction false} ValuesAppend(entries: seq<LevelProgressData>, l: LevelProgressData)
    ensures Values(entries + [l]) == Values(entries) + [l.Value()]
  {
  }

  // Read the root of some bytes, through a pool if there is one.
  method MakeProgress(data: seq<byte>, cache: FlatBuffersReaderCache?) returns (r: Result<Progress?>)
    modifies cache
    ensures
      match RootObjectOffset(data, true)
      case Err(e) => r == Err(e)
      case Ok(None) => r == Ok(null)
      case Ok(Some(o)) =>
        if cache != null && o in old(cache.objectPool) then
          && cache.objectPool == old(cache.objectPool)
          && r == Ok(match cache.objectPool[o] case PooledLevel(_) => null case PooledProgress(p) => p)
        else
          var known := if cache == null then map[] else old(KnownIn(cache.objectPool))[o := None];
          match DecodeProgress(data, o, known, true)
          case Ok(levels) =>
            && r.Ok? && r.value != null && fresh(r.value) && r.value.Value() == levels
            && (cache != null ==> o in cache.objectPool && cache.objectPool[o] == PooledProgress(r.value))
          case Err(e) => r == Err(e)
  {
    hide DecodeProgress, RootObjectOffset;
    var root :- RootObjectOffset(data, true);
    r := CreateProgress(data, cache, root);
  }

  // Reading an encoding twice gives its levels twice; through one pool, the second time
  // the same object. The pool may have levels of the same bytes in it already.
  method ReadTwice(data: seq<byte>, cache: FlatBuffersReaderCache?, ghost levels: seq<Level>) returns (first: Progress?, second: Progress?)
    requires Encodes(data, levels)
    requires cache != null ==> forall o :: o in cache.objectPool ==>
      cache.objectPool[o].PooledLevel? && DecodeLevel(data, o, true) == Ok(cache.objectPool[o].level.Value())
    requires cache != null && RootObjectOffset(data, true).Ok? && RootObjectOffset(data, true).value.Some? ==>
      RootObjectOffset(data, true).value.value !in cache.objectPool
    modifies cache
    ensures first != null && first.Value() == levels
    ensures second != null && second.Value() == levels
    ensures cache != null ==> second == first
  {
    hide DecodeProgress, RootObjectOffset, Encodes, DecodeLevel, Values;
    ghost var root := RootObjectOffset(data, true);
    RootFound(data, levels, map[]);
    if cache != null {
      RootFound(data, levels, KnownIn(cache.objectPool)[root.value.value := None]);
    }
    var one := MakeProgress(data, cache);
    var two := MakeProgress(data, cache);
    first, second := one.Extract(), two.Extract();
  }

  // The whole round trip, over every progress, every setting of the options, and with
  // or without an object pool: what comes back is the stored progress, and writing
  // fails only when the size does not fit in 31 bits.
  method WriteAndRead(p: Progress, options: Options, withCache: bool) returns (r: Result<Progress?>)
    requires options.initialCapacity >= 1
    ensures r.Ok? ==> r.value != null && r.value.Value() == StoredAll(p.Value(), options.forceDefaults)
    ensures r.Err? ==> r.error == Trap && ProgressRoom(p.Value()) + 18 > INT32_MAX
  {
    hide Encodes, DecodeProgress, StoredAll, ProgressRoom, RootObjectOffset;
    var data :- MakeData(p, options);
    ghost var levels := StoredAll(p.Value(), options.forceDefaults);
    ghost var root := RootObjectOffset(data, true);
    RootFound(data, levels, map[]);
    RootFound(data, levels, map[root.value.value := None]);
    var cache: FlatBuffersReaderCache? := null;
    if withCache {
      cache := new FlatBuffersReaderCache();
      assert KnownIn(cache.objectPool)[root.value.value := None] == map[root.value.value := None];
    }
    r := MakeProgress(data, cache);
  }
}
