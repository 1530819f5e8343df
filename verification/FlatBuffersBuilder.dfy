// The FlatBuffers builder: a buffer filled from the back.
module FlatBuffersBuilder {
  import opened Wrappers
  import opened FlatBytes
  import Arithmetic
  import opened PowersOfTwo

  datatype Options = Options(
    initialCapacity: nat,
    uniqueStrings: bool,
    uniqueTables: bool,
    uniqueVTables: bool,
    forceDefaults: bool,
    nullTerminatedUTF8: bool)

  // Scalars of stride 1, 2, 4 and 8 are aligned to their stride, larger structs to 8.
  ghost predicate IsStride(n: int) { n == 1 || n == 2 || n == 4 || n >= 8 }

  function Alignment(n: int): (a: nat)
    requires IsStride(n)
    ensures IsSize(a)
  {
    if n > 8 then 8 else n
  }

  lemma PadBelow4(cursor: nat, additional: nat)
    ensures Pad(cursor, additional, 4) <= 3
  {
  }

  function InsertPad(cursor: nat, n: nat): (pad: nat)
    requires IsStride(n)
    ensures pad < Alignment(n) && IsAligned(cursor + pad + n, Alignment(n))
  {
    if n > 8 then
      var pad := Pad(cursor, n, 8);
      assert cursor + pad + n == cursor + n + pad;
      pad
    else
      PadBefore(cursor, n);
      Pad(cursor, 0, n)
  }

  lemma PadBefore(cursor: nat, n: nat)
    requires IsSize(n)
    ensures IsAligned(cursor + Pad(cursor, 0, n) + n, n)
  {
    hide Pad;
  }

  function AtLeast(size: nat, minalign: nat): nat {
    if size > minalign then size else minalign
  }

  lemma AtLeastBoth(size: nat, minalign: nat)
    ensures AtLeast(size, minalign) >= size && AtLeast(size, minalign) >= minalign
  {
  }

  // Where a four-byte scalar inserted at the given cursor ends up.
  function SlotEnd(cursor: nat): (end: nat)
    ensures cursor + 4 <= end <= cursor + 7
  {
    cursor + Pad(cursor, 0, 4) + 4
  }

  lemma SlotEndAfter(cursor: nat)
    ensures cursor + 4 <= SlotEnd(cursor) <= cursor + 7
  {
  }

  lemma PadOfOne(cursor: nat)
    ensures InsertPad(cursor, 1) == 0
  {
  }

  // Where the root offset starts to be written: the size of what is in front is aligned
  // together with it, and with the identifier if there is one.
  function PrefixEnd(cursor: nat, minalign: nat, identified: bool): (end: nat)
    requires IsSize(minalign)
    ensures cursor <= end <= cursor + 11 && IsAligned(end + 4, minalign)
  {
    if identified then
      var end := cursor + Pad(cursor, 8, minalign) + 4;
      assert end + 4 == cursor + 8 + Pad(cursor, 8, minalign);
      end
    else
      var end := cursor + Pad(cursor, 4, minalign);
      assert end + 4 == cursor + 4 + Pad(cursor, 4, minalign);
      end
  }

  // The root offset is made for the place right in front of the prefix, but put at the
  // next multiple of four. Those differ exactly when less than four bytes are the largest
  // alignment, and the prefix does not end at a multiple of four by chance.
  lemma RootIsInPlace(cursor: nat, minalign: nat, identified: bool)
    requires IsSize(minalign)
    ensures
      var base := PrefixEnd(cursor, minalign, identified);
      SlotEnd(base) == base + 4 <==> minalign >= 4 || IsAligned(base, 4)
  {
    hide IsAligned, Pad;
    var base := PrefixEnd(cursor, minalign, identified);
    if minalign >= 4 {
      AlignedBeforeRoot(base, minalign);
    } else if IsAligned(base, 4) {
      PadOfAligned(base, 4);
    } else {
      assert Pad(base, 0, 4) != 0;
    }
  }

  // What is read at the start of a finished buffer leads to the root, or too far by the
  // padding.
  lemma RootIsFound(c: seq<byte>, offset: int, cursor: nat, minalign: nat, identified: bool)
    requires IsSize(minalign) && |c| == SlotEnd(PrefixEnd(cursor, minalign, identified))
    requires IsInt32(PrefixEnd(cursor, minalign, identified) + 4 - offset)
    requires BytesAt(c, |c|, LE32(PrefixEnd(cursor, minalign, identified) + 4 - offset))
    ensures
      var base := PrefixEnd(cursor, minalign, identified);
      && |c| - FromLE32(c[..4]) == offset + Pad(base, 0, 4)
      && (|c| - FromLE32(c[..4]) == offset <==> minalign >= 4 || IsAligned(base, 4))
  {
    hide LE32, FromLE32, IsAligned, Pad;
    var base := PrefixEnd(cursor, minalign, identified);
    RootIsInPlace(cursor, minalign, identified);
    LE32RoundTrip(base + 4 - offset);
    assert c[|c| - |c|..|c| - |c| + 4] == c[..4];
  }

  // An offset can be inserted: it is within the contents, and every number on the way to
  // its relative form fits.
  predicate OffsetFits(cursor: nat, offset: Option<int>) {
    offset.Some? ==>
      && cursor <= INT32_MAX && offset.value <= cursor
      && (offset.value != 0 ==> SlotEnd(cursor) - 4 <= INT32_MAX && SlotEnd(cursor) - offset.value <= INT32_MAX)
  }

  // The vtable entries of a table at distance loc whose fields start at the given
  // distances, 0 for a field that is absent.
  predicate EntriesFit(fields: seq<int>, loc: int) {
    forall i :: 0 <= i < |fields| && fields[i] != 0 ==> IsInt16(loc - fields[i])
  }

  function Entry(f: int, loc: int): (e: int)
    requires f != 0 ==> IsInt16(loc - f)
    ensures IsInt16(e)
  {
    if f != 0 then loc - f else 0
  }

  // The entry as the builder computes it, with its checked conversions.
  function CheckedEntry(f: int, loc: nat): (r: Result<int>)
    ensures r.Ok? ==> (f != 0 ==> IsInt16(loc - f)) && r.value == Entry(f, loc)
    ensures r.Err? ==> r.error == Trap && f != 0 && (loc > INT32_MAX || !IsInt16(loc - f))
  {
    if f == 0 then ToInt16(0) else
    var here :- ToInt32(loc);
    ToInt16(here - f)
  }

  function Entries(fields: seq<int>, loc: int): (r: seq<byte>)
    requires EntriesFit(fields, loc)
    ensures |r| == 2 * |fields|
  {
    if fields == [] then [] else LE16(Entry(fields[0], loc)) + Entries(fields[1..], loc)
  }

  lemma NoEntries(fields: seq<int>, loc: int)
    ensures EntriesFit(fields[|fields|..], loc) && Entries(fields[|fields|..], loc) == []
  {
  }

  lemma EntriesStep(fields: seq<int>, loc: int, i: nat)
    requires i < |fields| && EntriesFit(fields[i + 1..], loc)
    ensures EntriesFit(fields[i..], loc) <==> (fields[i] != 0 ==> IsInt16(loc - fields[i]))
    ensures EntriesFit(fields[i..], loc) ==>
      Entries(fields[i..], loc) == LE16(Entry(fields[i], loc)) + Entries(fields[i + 1..], loc)
    ensures EntriesFit(fields, loc) ==> EntriesFit(fields[i..], loc)
  {
    var rest := fields[i..];
    assert rest[0] == fields[i] && rest[1..] == fields[i + 1..];
    if fields[i] != 0 ==> IsInt16(loc - fields[i]) {
      forall j | 0 <= j < |rest| && rest[j] != 0 ensures IsInt16(loc - rest[j]) {
        if j > 0 { assert rest[j] == fields[i + 1..][j - 1]; }
      }
    }
  }

  // A vtable: its own length, the length of the object data, the field offsets.
  predicate VTableFits(fields: seq<int>, loc: int, start: int) {
    EntriesFit(fields, loc) && IsInt16(loc - start) && IsInt16(2 * |fields| + 4)
  }

  function VTable(fields: seq<int>, loc: int, start: int): (r: seq<byte>)
    requires VTableFits(fields, loc, start)
    ensures |r| == 2 * |fields| + 4
  {
    LE16(2 * |fields| + 4) + LE16(loc - start) + Entries(fields, loc)
  }

  lemma {:induction false} EntriesAt(fields: seq<int>, loc: int, i: nat)
    requires EntriesFit(fields, loc) && i < |fields|
    ensures Entries(fields, loc)[2 * i..2 * i + 2] == LE16(Entry(fields[i], loc))
  {
    hide LE16, Entry;
    var first, rest := LE16(Entry(fields[0], loc)), Entries(fields[1..], loc);
    if i == 0 {
      assert (first + rest)[0..2] == first;
    } else {
      EntriesAt(fields[1..], loc, i - 1);
      SliceBehind(first, rest, 2 * i, 2 * i + 2);
    }
  }

  lemma SliceBehind(a: seq<byte>, b: seq<byte>, from: nat, to: nat)
    requires |a| <= from <= to <= |a| + |b|
    ensures (a + b)[from..to] == b[from - |a|..to - |a|]
  {
  }

  // A closed table at distance o: its first four bytes lead to a vtable that lists
  // exactly the given fields and the size of the object data that started at start. The
  // table is aligned for its first word, and the vtable for its entries.
  ghost predicate TableAt(c: seq<byte>, o: int, fields: seq<int>, start: int) {
    && VTableFits(fields, o, start) && IsAligned(o, 4)
    && exists rel: int ::
         && IsInt32(rel)
         && BytesAt(c, o, LE32(rel))
         && BytesAt(c, o + rel, VTable(fields, o, start)) && IsAligned(o + rel, 2)
  }

  lemma TableFits(c: seq<byte>, o: int, fields: seq<int>, start: int)
    requires TableAt(c, o, fields, start)
    ensures VTableFits(fields, o, start)
  {
  }

  lemma TableAtExtends(d: seq<byte>, c: seq<byte>, o: int, fields: seq<int>, start: int)
    requires Extends(d, c) && TableAt(c, o, fields, start)
    ensures TableAt(d, o, fields, start)
  {
    hide BytesAt, Extends, LE32, VTable, VTableFits, IsAligned;
    var rel: int :| IsInt32(rel) && BytesAt(c, o, LE32(rel)) && BytesAt(c, o + rel, VTable(fields, o, start)) && IsAligned(o + rel, 2);
    BytesAtExtends(d, c, o, LE32(rel));
    BytesAtExtends(d, c, o + rel, VTable(fields, o, start));
  }

  // A string at distance o: its length, aligned, then its bytes.
  ghost predicate StringAt(c: seq<byte>, o: int, s: seq<byte>) {
    IsInt32(|s|) && IsAligned(o, 4) && BytesAt(c, o, LE32(|s|)) && BytesAt(c, o - 4, s)
  }

  // Where a string ends up that is written at a cursor: its bytes, and a NUL if so
  // configured, are padded to a multiple of four behind them, and its length is in front.
  predicate StringWrittenAt(cursor: nat, s: seq<byte>, nul: bool, end: nat) {
    var length := |s| + if nul then 1 else 0;
    cursor + length + 4 <= end <= cursor + length + 7 && end % 4 == 0
  }

  lemma StringEnds(cursor: nat, s: seq<byte>, nul: bool, end: nat)
    requires
      var length := |s| + if nul then 1 else 0;
      end == cursor + Pad(cursor, length, 4) + length + 4
    ensures StringWrittenAt(cursor, s, nul, end)
  {
  }

  lemma StringWritten(c: seq<byte>, bytes: seq<byte>, base: seq<byte>, value: seq<byte>)
    requires value <= bytes && IsInt32(|value|) && c == LE32(|value|) + (bytes + base) && IsAligned(|c|, 4)
    ensures StringAt(c, |c|, value) && BytesAt(c, |c| - 4, bytes) && Extends(c, base)
  {
    hide BytesAt, Extends, LE32, IsAligned;
    var rest := bytes + base;
    PrependedIsAt(LE32(|value|), rest);
    PrependedIsAt(bytes, base);
    ExtendsTransitive(c, rest, base);
    BytesAtExtends(c, rest, |rest|, bytes);
    BytesAtPart(c, |rest|, bytes, 0, |value|);
    assert bytes[0..|value|] == value;
  }

  lemma StringAtExtends(d: seq<byte>, c: seq<byte>, o: int, s: seq<byte>)
    requires Extends(d, c) && StringAt(c, o, s)
    ensures StringAt(d, o, s)
  {
    hide BytesAt, Extends, LE32, IsAligned;
    BytesAtExtends(d, c, o, LE32(|s|));
    BytesAtExtends(d, c, o - 4, s);
  }

  // Where n words of two bytes at distance v and behind it are recorded.
  ghost predicate HalvesPlaced(placed: map<int, int>, v: int, n: int) {
    forall p :: v - 2 * n < p <= v && (v - p) % 2 == 0 ==> p in placed && placed[p] == 2
  }

  // A remembered vtable at distance v lies inside the contents with its stated length,
  // and its words are aligned and recorded.
  ghost predicate StubAt(c: seq<byte>, placed: map<int, int>, v: int) {
    exists n: int :: 0 <= n && IsInt16(2 * n + 4) && StubWith(c, placed, v, n)
  }

  ghost predicate StubWith(c: seq<byte>, placed: map<int, int>, v: int, n: int)
    requires IsInt16(2 * n + 4)
  {
    2 * n + 4 <= v && IsAligned(v, 2) && BytesAt(c, v, LE16(2 * n + 4)) && HalvesPlaced(placed, v, n + 2)
  }

  lemma StubAtExtends(d: seq<byte>, c: seq<byte>, later: map<int, int>, earlier: map<int, int>, v: int)
    requires Extends(d, c) && Grows(later, earlier) && StubAt(c, earlier, v)
    ensures StubAt(d, later, v)
  {
    hide BytesAt, Extends, LE16, IsAligned;
    var n: int :| 0 <= n && IsInt16(2 * n + 4) && StubWith(c, earlier, v, n);
    BytesAtExtends(d, c, v, LE16(2 * n + 4));
    assert StubWith(d, later, v, n);
  }

  // Each scalar, at its distance from the end, is aligned to its stride.
  ghost predicate Aligned(placed: map<int, int>, cursor: int, minalign: int) {
    forall p :: p in placed ==>
      && 0 < p <= cursor && IsStride(placed[p])
      && IsAligned(p, Alignment(placed[p])) && Alignment(placed[p]) <= minalign
  }

  // What is recorded after n words of the given size have been put in front of cursor.
  ghost function Words(placed: map<int, int>, cursor: int, n: nat, size: nat): map<int, int> {
    if n == 0 then placed else Words(placed, cursor, n - 1, size)[cursor + n * size := size]
  }

  lemma NoWords(placed: map<int, int>, cursor: int, size: nat)
    ensures Words(placed, cursor, 0, size) == placed
  {
  }

  lemma WordsNext(placed: map<int, int>, cursor: int, n: nat, size: nat)
    ensures Words(placed, cursor, n + 1, size) == Words(placed, cursor, n, size)[cursor + (n + 1) * size := size]
  {
  }

  lemma {:induction false} HalvesAre(placed: map<int, int>, cursor: int, n: nat)
    ensures HalvesPlaced(Words(placed, cursor, n, 2), cursor + 2 * n, n)
  {
    if n > 0 {
      HalvesAre(placed, cursor, n - 1);
    }
  }

  lemma {:induction false} WordsKeep(placed: map<int, int>, cursor: int, n: nat, size: nat)
    requires size > 0
    ensures forall p :: p <= cursor ==> (p in Words(placed, cursor, n, size) <==> p in placed)
    ensures forall p :: p <= cursor && p in placed ==> Words(placed, cursor, n, size)[p] == placed[p]
  {
    if n > 0 {
      WordsKeep(placed, cursor, n - 1, size);
      assert n * size >= size;
    }
  }

  lemma WordsGrow(placed: map<int, int>, cursor: int, minalign: int, n: nat, size: nat)
    requires Aligned(placed, cursor, minalign) && size > 0
    ensures Grows(Words(placed, cursor, n, size), placed)
  {
    WordsKeep(placed, cursor, n, size);
  }

  // What is recorded up to a distance.
  ghost function UpTo(placed: map<int, int>, distance: int): map<int, int> {
    map p | p in placed && p <= distance :: placed[p]
  }

  // Dropping the words put in front of some point undoes recording them.
  lemma WordsUndone(placed: map<int, int>, cursor: int, minalign: int, n: nat, size: nat)
    requires Aligned(placed, cursor, minalign) && size > 0
    ensures UpTo(Words(placed, cursor, n, size), cursor) == placed
  {
    WordsKeep(placed, cursor, n, size);
  }

  lemma AlignedPlaced(placed: map<int, int>, cursor: int, minalign: int, p: int, n: int, minalign': int)
    requires Aligned(placed, cursor, minalign) && 0 <= cursor < p && minalign <= minalign'
    requires IsStride(n) && IsAligned(p, Alignment(n)) && Alignment(n) <= minalign'
    ensures Aligned(placed[p := n], p, minalign') && Grows(placed[p := n], placed)
  {
  }

  lemma AlignedLonger(placed: map<int, int>, cursor: int, minalign: int, minalign': int)
    requires Aligned(placed, cursor, minalign) && minalign <= minalign'
    ensures Aligned(placed, cursor, minalign')
  {
  }

  // Each scalar is aligned to its stride counted from the start of an output of the
  // given size.
  ghost predicate AlignedFromStart(placed: map<int, int>, total: int) {
    forall p :: p in placed ==> IsStride(placed[p]) && IsAligned(total - p, Alignment(placed[p]))
  }

  lemma PlacedFromStart(placed: map<int, int>, cursor: int, minalign: int)
    requires Aligned(placed, cursor, minalign) && IsSize(minalign) && IsAligned(cursor, minalign)
    ensures AlignedFromStart(placed, cursor)
  {
    hide IsAligned;
    forall p | p in placed ensures IsAligned(cursor - p, Alignment(placed[p])) {
      AlignedDifference(cursor, p, Alignment(placed[p]), minalign);
    }
  }

  ghost predicate Grows(later: map<int, int>, earlier: map<int, int>) {
    forall p :: p in earlier ==> p in later && later[p] == earlier[p]
  }

  lemma GrowsItself(placed: map<int, int>)
    ensures Grows(placed, placed)
  {
  }

  lemma GrowsTransitive(later: map<int, int>, middle: map<int, int>, earlier: map<int, int>)
    requires Grows(later, middle) && Grows(middle, earlier)
    ensures Grows(later, earlier)
  {
  }

  // A field is absent, or was written since the object was started.
  ghost predicate FieldsSince(fields: seq<int>, start: int, cursor: int) {
    forall i :: 0 <= i < |fields| ==> fields[i] == 0 || start <= fields[i] <= cursor
  }

  lemma FieldsSinceEarlier(fields: seq<int>, start: int, cursor: int, start': int, cursor': int)
    requires FieldsSince(fields, start, cursor) && start' <= start && cursor <= cursor'
    ensures FieldsSince(fields, start', cursor')
  {
  }

  lemma StubRange(c: seq<byte>, placed: map<int, int>, v: int)
    requires StubAt(c, placed, v)
    ensures 4 <= v <= |c|
  {
  }

  // A remembered vtable whose first two bytes agree with a vtable of the given length
  // has that length, so comparing that many bytes stays inside the contents.
  lemma StubLength(c: seq<byte>, placed: map<int, int>, v: int, length: int)
    requires StubAt(c, placed, v) && IsInt16(length) && BytesAt(c, |c|, LE16(length))
    requires v <= |c| && c[0] == c[|c| - v] && c[1] == c[|c| - v + 1]
    ensures length <= v && length % 2 == 0 && HalvesPlaced(placed, v, length / 2) && IsAligned(v, 2)
  {
    hide LE16, FromLE16, IsAligned, HalvesPlaced;
    var n: int :| 0 <= n && IsInt16(2 * n + 4) && StubWith(c, placed, v, n);
    assert LE16(2 * n + 4) == c[|c| - v..|c| - v + 2] == [c[0], c[1]];
    assert LE16(length) == c[0..2] == [c[0], c[1]];
    LE16RoundTrip(2 * n + 4);
    LE16RoundTrip(length);
  }

  // Another vtable with the same bytes has the same number of words recorded.
  lemma SharedStub(c: seq<byte>, placed: map<int, int>, v: int, vtable: seq<byte>, n: int)
    requires StubAt(c, placed, v) && 0 <= n && IsInt16(2 * n + 4) && |vtable| == 2 * n + 4
    requires vtable[..2] == LE16(2 * n + 4) && BytesAt(c, v, vtable)
    ensures HalvesPlaced(placed, v, n + 2) && IsAligned(v, 2)
  {
    hide LE16, FromLE16, IsAligned, HalvesPlaced;
    var m: int :| 0 <= m && IsInt16(2 * m + 4) && StubWith(c, placed, v, m);
    BytesAtPart(c, v, vtable, 0, 2);
    LE16RoundTrip(2 * n + 4);
    LE16RoundTrip(2 * m + 4);
  }

  // The vtable at distance v: as many bytes as its first two say.
  ghost function VTableBytes(c: seq<byte>, v: int): seq<byte> {
    if !(2 <= v <= |c|) then [] else
    var n := FromLE16(c[|c| - v..|c| - v + 2]);
    if 0 <= n <= v then c[|c| - v..|c| - v + n] else []
  }

  // No two of these vtables have the same bytes.
  ghost predicate AllDiffer(c: seq<byte>, vtables: seq<int>) {
    forall i, j :: 0 <= i < j < |vtables| ==> VTableBytes(c, vtables[i]) != VTableBytes(c, vtables[j])
  }

  lemma VTableBytesExtends(d: seq<byte>, c: seq<byte>, v: int)
    requires Extends(d, c) && v <= |c|
    ensures VTableBytes(d, v) == VTableBytes(c, v)
  {
    hide FromLE16;
    if 2 <= v {
      var n := FromLE16(c[|c| - v..|c| - v + 2]);
      assert d[|d| - v..|d| - v + 2] == c[|c| - v..|c| - v + 2];
      if 0 <= n <= v {
        assert d[|d| - |c|..][|c| - v..|c| - v + n] == d[|d| - v..|d| - v + n];
      }
    }
  }

  lemma VTableBytesAre(c: seq<byte>, v: int, vtable: seq<byte>)
    requires IsInt16(|vtable|) && 2 <= |vtable| && vtable[..2] == LE16(|vtable|) && BytesAt(c, v, vtable)
    ensures VTableBytes(c, v) == vtable
  {
    hide LE16, FromLE16;
    LE16RoundTrip(|vtable|);
    BytesAtPart(c, v, vtable, 0, 2);
  }

  lemma VTableBytesAt(c: seq<byte>, placed: map<int, int>, v: int)
    requires StubAt(c, placed, v)
    ensures BytesAt(c, v, VTableBytes(c, v))
  {
    hide LE16, FromLE16, IsAligned, HalvesPlaced;
    var n: int :| 0 <= n && IsInt16(2 * n + 4) && StubWith(c, placed, v, n);
    LE16RoundTrip(2 * n + 4);
  }

  // A vtable that is at none of the places differs from all there.
  lemma AllDifferWith(c: seq<byte>, d: seq<byte>, placed: map<int, int>, vtables: seq<int>, v: int, vtable: seq<byte>)
    requires Extends(d, c) && AllDiffer(c, vtables) && forall w <- vtables :: StubAt(c, placed, w)
    requires IsInt16(|vtable|) && 2 <= |vtable| && vtable[..2] == LE16(|vtable|)
    requires BytesAt(d, v, vtable) && NoneBefore(c, vtables, vtable, |vtables|)
    ensures AllDiffer(d, vtables + [v])
  {
    hide LE16, BytesAt, VTableBytes, StubAt, Extends;
    AllDifferExtends(d, c, placed, vtables);
    VTableBytesAre(d, v, vtable);
    forall i | 0 <= i < |vtables| ensures VTableBytes(d, vtables[i]) != vtable {
      assert vtables[i] in vtables;
      VTableBytesAt(c, placed, vtables[i]);
      StubRange(c, placed, vtables[i]);
      VTableBytesExtends(d, c, vtables[i]);
    }
  }

  lemma AllDifferExtends(d: seq<byte>, c: seq<byte>, placed: map<int, int>, vtables: seq<int>)
    requires Extends(d, c) && AllDiffer(c, vtables) && forall w <- vtables :: StubAt(c, placed, w)
    ensures AllDiffer(d, vtables)
  {
    hide VTableBytes, StubAt, Extends;
    forall i | 0 <= i < |vtables| ensures VTableBytes(d, vtables[i]) == VTableBytes(c, vtables[i]) {
      assert vtables[i] in vtables;
      StubRange(c, placed, vtables[i]);
      VTableBytesExtends(d, c, vtables[i]);
    }
  }

  // What the builder remembers about its contents: each cached string and each vtable
  // is where the caches say, and no vtable is remembered twice.
  ghost predicate Known(c: seq<byte>, placed: map<int, int>, strings: map<seq<byte>, int>, vtables: seq<int>) {
    && (forall s :: s in strings ==> StringAt(c, strings[s], s) && WordPlaced(placed, strings[s]))
    && (forall v <- vtables :: StubAt(c, placed, v))
    && AllDiffer(c, vtables)
  }

  // A four-byte word is recorded at distance o.
  ghost predicate WordPlaced(placed: map<int, int>, o: int) {
    o in placed && placed[o] == 4
  }

  lemma KnownExtends(d: seq<byte>, c: seq<byte>, later: map<int, int>, earlier: map<int, int>, strings: map<seq<byte>, int>, vtables: seq<int>)
    requires Extends(d, c) && Grows(later, earlier) && Known(c, earlier, strings, vtables)
    ensures Known(d, later, strings, vtables)
  {
    hide Extends, StringAt, StubAt, AllDiffer;
    AllDifferExtends(d, c, earlier, vtables);
    forall s | s in strings ensures StringAt(d, strings[s], s) && WordPlaced(later, strings[s]) {
      StringAtExtends(d, c, strings[s], s);
    }
    forall v <- vtables ensures StubAt(d, later, v) {
      StubAtExtends(d, c, later, earlier, v);
    }
  }

  lemma KnownVTable(c: seq<byte>, placed: map<int, int>, strings: map<seq<byte>, int>, vtables: seq<int>, v: int)
    requires Known(c, placed, strings, vtables) && v in vtables
    ensures StubAt(c, placed, v) && 4 <= v <= |c|
  {
    StubRange(c, placed, v);
  }

  lemma KnownString(c: seq<byte>, placed: map<int, int>, strings: map<seq<byte>, int>, vtables: seq<int>, s: seq<byte>)
    requires Known(c, placed, strings, vtables) && s in strings
    ensures StringAt(c, strings[s], s) && WordPlaced(placed, strings[s])
  {
  }

  lemma KnownWithString(c: seq<byte>, placed: map<int, int>, strings: map<seq<byte>, int>, vtables: seq<int>, s: seq<byte>, o: int)
    requires Known(c, placed, strings, vtables) && StringAt(c, o, s) && WordPlaced(placed, o)
    ensures Known(c, placed, strings[s := o], vtables)
  {
    hide StringAt, StubAt, WordPlaced, AllDiffer;
  }

  lemma KnownWith(d: seq<byte>, c: seq<byte>, placed: map<int, int>, strings: map<seq<byte>, int>, vtables: seq<int>, v: int, vtable: seq<byte>)
    requires Extends(d, c) && Known(c, placed, strings, vtables) && Known(d, placed, strings, vtables) && StubAt(d, placed, v)
    requires IsInt16(|vtable|) && 2 <= |vtable| && vtable[..2] == LE16(|vtable|)
    requires BytesAt(d, v, vtable) && NoneBefore(c, vtables, vtable, |vtables|)
    ensures Known(d, placed, strings, vtables + [v])
  {
    hide StringAt, StubAt, WordPlaced, AllDiffer, Extends, LE16, BytesAt, NoneBefore;
    AllDifferWith(c, d, placed, vtables, v, vtable);
  }

  // A vtable at distance v can be remembered.
  lemma VTableIsStub(c: seq<byte>, placed: map<int, int>, v: int, fields: seq<int>, loc: int, start: int)
    requires VTableFits(fields, loc, start) && BytesAt(c, v, VTable(fields, loc, start))
    requires IsAligned(v, 2) && HalvesPlaced(placed, v, |fields| + 2)
    ensures BytesAt(c, v, LE16(2 * |fields| + 4)) && StubAt(c, placed, v)
  {
    hide LE16, IsAligned, HalvesPlaced;
    var vtable := VTable(fields, loc, start);
    assert vtable[0..2] == LE16(2 * |fields| + 4);
    BytesAtPart(c, v, vtable, 0, 2);
    assert StubWith(c, placed, v, |fields|);
  }

  lemma WordPlacedLater(later: map<int, int>, earlier: map<int, int>, o: int)
    requires Grows(later, earlier) && WordPlaced(earlier, o)
    ensures WordPlaced(later, o)
  {
  }

  lemma KnownLater(c: seq<byte>, later: map<int, int>, earlier: map<int, int>, strings: map<seq<byte>, int>, vtables: seq<int>)
    requires Grows(later, earlier) && Known(c, earlier, strings, vtables)
    ensures Known(c, later, strings, vtables)
  {
    hide Known;
    ExtendsItself(c);
    KnownExtends(c, c, later, earlier, strings, vtables);
  }

  lemma BaseIsBehind(vtable: seq<byte>, open: seq<byte>, base: seq<byte>)
    requires 4 <= |open| && base == open[4..]
    ensures Extends(vtable + open, base) && (vtable + open)[..|vtable|] == vtable
  {
  }

  lemma PartsOf(pre: seq<byte>, rest: seq<byte>, n: nat)
    requires n <= |rest|
    ensures (pre + rest)[..|pre|] == pre && (pre + rest)[|pre| + n..] == rest[n..]
  {
  }

  lemma FitsLength(fields: seq<int>, loc: int, start: int)
    requires VTableFits(fields, loc, start)
    ensures IsInt16(2 * |fields| + 4) && |VTable(fields, loc, start)| == 2 * |fields| + 4
  {
  }

  lemma VTableHead(fields: seq<int>, loc: int, start: int)
    requires VTableFits(fields, loc, start)
    ensures VTable(fields, loc, start)[..2] == LE16(2 * |fields| + 4)
  {
    hide LE16;
  }

  // What closing a table with n fields at distance loc adds to the record: the words of
  // its vtable, or nothing when the vtable is shared.
  ghost predicate VTableRecorded(later: map<int, int>, earlier: map<int, int>, loc: int, n: nat, cursor: int, unique: bool) {
    || (cursor == loc + 2 * n + 4 && later == Words(earlier, loc, n + 2, 2))
    || (cursor == loc && later == earlier && unique)
  }

  lemma VTableRecordedGrows(later: map<int, int>, earlier: map<int, int>, loc: int, n: nat, cursor: int, unique: bool, minalign: int)
    requires VTableRecorded(later, earlier, loc, n, cursor, unique) && Aligned(earlier, loc, minalign)
    ensures Grows(later, earlier) && loc <= cursor <= loc + 2 * n + 4
  {
    hide Words, Aligned;
    GrowsItself(earlier);
    WordsGrow(earlier, loc, minalign, n + 2, 2);
  }

  // A table at distance o with n fields is recorded: its first word, and the words of
  // the vtable that this word leads to.
  ghost predicate TablePlaced(c: seq<byte>, placed: map<int, int>, o: int, n: int) {
    WordPlaced(placed, o) && exists rel: int :: IsInt32(rel) && BytesAt(c, o, LE32(rel)) && HalvesPlaced(placed, o + rel, n + 2)
  }

  // Filling the slot closes the table, whether its vtable lies right before the slot or
  // is an equal one further back.
  lemma SlotLinksTable(c: seq<byte>, pre: seq<byte>, rel: int, base: seq<byte>, fields: seq<int>, start: int,
                       placed: map<int, int>, strings: map<seq<byte>, int>, vtables: seq<int>)
    requires VTableFits(fields, |base| + 4, start) && IsInt32(rel)
    requires c == pre + LE32(rel) + base && Known(base, placed, strings, vtables)
    requires WordPlaced(placed, |base| + 4) && IsAligned(|base| + 4, 4)
    requires HalvesPlaced(placed, |base| + 4 + rel, |fields| + 2) && IsAligned(|base| + 4 + rel, 2)
    requires
      var vtable := VTable(fields, |base| + 4, start);
      (pre == vtable && rel == |vtable|) || (pre == [] && BytesAt(base, |base| + 4 + rel, vtable))
    ensures Extends(c, base) && TableAt(c, |base| + 4, fields, start) && TablePlaced(c, placed, |base| + 4, |fields|)
    ensures Known(c, placed, strings, vtables)
    ensures pre != [] && NoneBefore(base, vtables, pre, |vtables|) ==> Known(c, placed, strings, vtables + [|c|])
    ensures BytesAt(c, |base| + 4, LE32(rel)) && (pre != [] ==> BytesAt(c, |c|, pre))
  {
    hide LE32, LE16, VTable, BytesAt, Extends, StubAt, Known, IsAligned, HalvesPlaced, WordPlaced, NoneBefore;
    var vtable := VTable(fields, |base| + 4, start);
    SlotIsAt(pre, LE32(rel), base);
    GrowsItself(placed);
    KnownExtends(c, base, placed, placed, strings, vtables);
    if pre == [] {
      BytesAtExtends(c, base, |base| + 4 + rel, vtable);
    } else {
      VTableIsStub(c, placed, |c|, fields, |base| + 4, start);
      if NoneBefore(base, vtables, pre, |vtables|) {
        FitsLength(fields, |base| + 4, start);
        VTableHead(fields, |base| + 4, start);
        KnownWith(c, base, placed, strings, vtables, |c|, pre);
      }
    }
  }

  // None of the first k places holds the bytes v.
  ghost predicate NoneBefore(c: seq<byte>, places: seq<int>, v: seq<byte>, k: nat)
    requires k <= |places|
  {
    forall j :: 0 <= j < k ==> !BytesAt(c, places[j], v)
  }

  // The k-th place is the first one that holds the bytes v.
  ghost predicate FirstAt(c: seq<byte>, places: seq<int>, v: seq<byte>, k: nat)
    requires k < |places|
  {
    BytesAt(c, places[k], v) && NoneBefore(c, places, v, k)
  }

  // How the vtable of a table at distance loc is put in front of c0. If it is remembered
  // already, it is shared from the first such place, and nothing is written in front of
  // the table. Otherwise it is written there, and remembered if vtables are unique.
  ghost predicate VTableLinked(c0: seq<byte>, places0: seq<int>, vtable: seq<byte>, loc: int, c: seq<byte>, places: seq<int>, unique: bool) {
    if unique && exists v <- places0 :: BytesAt(c0, v, vtable) then
      && |c| == loc && places == places0
      && exists k :: 0 <= k < |places0| && FirstAt(c0, places0, vtable, k) && IsInt32(places0[k] - loc) && BytesAt(c, loc, LE32(places0[k] - loc))
    else
      && |c| == loc + |vtable| && BytesAt(c, |c|, vtable) && IsInt32(|vtable|) && BytesAt(c, loc, LE32(|vtable|))
      && places == if unique then places0 + [|c|] else places0
  }

  lemma NoneIsNone(c: seq<byte>, places: seq<int>, v: seq<byte>)
    ensures NoneBefore(c, places, v, |places|) <==> !exists w <- places :: BytesAt(c, w, v)
  {
    hide BytesAt;
    if NoneBefore(c, places, v, |places|) {
      forall w <- places ensures !BytesAt(c, w, v) {
        var j :| 0 <= j < |places| && places[j] == w;
      }
    } else {
      var j :| 0 <= j < |places| && BytesAt(c, places[j], v);
      assert places[j] in places;
    }
  }

  lemma FirstIsThere(c: seq<byte>, places: seq<int>, v: seq<byte>, k: nat)
    requires k < |places| && FirstAt(c, places, v, k)
    ensures places[k] in places && BytesAt(c, places[k], v)
  {
  }

  // At the remembered places the same bytes lie, whatever is in front.
  lemma SameAtPlaces(d: seq<byte>, c: seq<byte>, placed: map<int, int>, strings: map<seq<byte>, int>, places: seq<int>, v: seq<byte>)
    requires Extends(d, c) && Known(c, placed, strings, places)
    ensures forall w <- places :: BytesAt(d, w, v) <==> BytesAt(c, w, v)
  {
    hide BytesAt, StubAt, Extends, Known;
    forall w <- places ensures BytesAt(d, w, v) <==> BytesAt(c, w, v) {
      KnownVTable(c, placed, strings, places, w);
      if BytesAt(c, w, v) { BytesAtExtends(d, c, w, v); }
      if BytesAt(d, w, v) { BytesAtRestricts(d, c, w, v); }
    }
  }

  lemma FirstAtPlaces(d: seq<byte>, c: seq<byte>, places: seq<int>, v: seq<byte>, k: nat)
    requires forall w <- places :: BytesAt(d, w, v) <==> BytesAt(c, w, v)
    requires k < |places|
    ensures FirstAt(d, places, v, k) <==> FirstAt(c, places, v, k)
    ensures NoneBefore(d, places, v, k) <==> NoneBefore(c, places, v, k)
  {
    hide BytesAt;
    assert forall j :: 0 <= j < |places| ==> places[j] in places;
  }

  // Linking a vtable is the same in front of more contents.
  lemma LinkedLater(d: seq<byte>, c0: seq<byte>, placed: map<int, int>, strings: map<seq<byte>, int>, places0: seq<int>, vtable: seq<byte>,
                    loc: int, c: seq<byte>, places: seq<int>, unique: bool)
    requires Extends(d, c0) && Known(c0, placed, strings, places0)
    requires VTableLinked(d, places0, vtable, loc, c, places, unique)
    ensures VTableLinked(c0, places0, vtable, loc, c, places, unique)
  {
    hide BytesAt, Extends, Known, LE32;
    SameAtPlaces(d, c0, placed, strings, places0, vtable);
    if unique && exists v <- places0 :: BytesAt(c0, v, vtable) {
      var k :| 0 <= k < |places0| && FirstAt(d, places0, vtable, k) && IsInt32(places0[k] - loc) && BytesAt(c, loc, LE32(places0[k] - loc));
      FirstAtPlaces(d, c0, places0, vtable, k);
      hide FirstAt;
    }
  }

  // One capacity is another doubled k times.
  ghost predicate IsDoubled(later: nat, earlier: nat, k: nat) { later == earlier * Pow2(k) }

  lemma NotDoubled(n: nat)
    ensures IsDoubled(n, n, 0)
  {
    assert Pow2(0) == 1;
  }

  lemma DoubledNext(later: nat, earlier: nat, k: nat)
    requires IsDoubled(later, earlier, k)
    ensures IsDoubled(later * 2, earlier, k + 1)
  {
    Pow2Next(k);
    Arithmetic.Associates(earlier, Pow2(k), 2);
  }

  class FlatBuffersBuilder {
    const options: Options
    var capacity: nat
    var data: array<byte>
    var minalign: nat
    var cursor: nat
    var currentVTable: seq<int>
    var objectStart: int
    var vectorNumElems: int
    var vTableOffsets: seq<int>
    var stringCache: map<seq<byte>, int>
    // Tables already written, by the identity of the object they came from.
    var cache: map<object, int>
    // Where each scalar was placed (its distance from the end) and its stride.
    ghost var placed: map<int, int>

    // The finished part of the buffer: the last cursor bytes of data.
    ghost var contents: seq<byte>

    // The contents are the last bytes of the buffer.
    ghost predicate Linked()
      reads this`capacity, this`contents, this`data, data
    {
      && data.Length == capacity && |contents| <= capacity
      && (forall i :: 0 <= i < |contents| ==> contents[i] == data[capacity - |contents| + i])
    }

    ghost predicate Shape()
      reads this`capacity, this`contents, this`data, this`cursor, this`minalign, this`placed, data
    {
      && Linked()
      && 1 <= capacity
      && cursor == |contents| <= capacity
      && IsSize(minalign)
      && Aligned(placed, cursor, minalign)
    }

    lemma ShapeAligned()
      requires Shape()
      ensures Aligned(placed, cursor, minalign) && cursor == |contents|
    {
    }

    ghost predicate Valid()
      reads this`capacity, this`contents, this`data, this`cursor, this`minalign, this`placed, data
      reads this`stringCache, this`vTableOffsets, this`objectStart, this`vectorNumElems, this`currentVTable
    {
      && Shape()
      && Known(contents, placed, stringCache, vTableOffsets)
      && objectStart >= -1
      && vectorNumElems >= -1
      && (objectStart > -1 ==>
            objectStart <= cursor && FieldsSince(currentVTable, objectStart, cursor))
    }

    // In every state no two remembered vtables have the same bytes.
    lemma VTablesDiffer()
      requires Valid()
      ensures AllDiffer(contents, vTableOffsets)
    {
    }

    lemma ValidVector()
      requires Valid()
      ensures vectorNumElems >= -1
    {
    }

    lemma ValidStart()
      requires Valid()
      ensures objectStart >= -1
    {
    }

    lemma ValidClosed()
      requires Shape() && Known(contents, placed, stringCache, vTableOffsets) && objectStart == -1 && vectorNumElems >= -1
      ensures Valid()
    {
    }

    lemma CursorIsLength()
      requires Valid()
      ensures cursor == |contents|
    {
    }

    ghost predicate Closed()
      reads this`objectStart, this`vectorNumElems
    {
      objectStart == -1 && vectorNumElems == -1
    }

    constructor (options: Options)
      requires options.initialCapacity >= 1
      ensures Valid() && Closed() && contents == [] && this.options == options && fresh(data)
      ensures minalign == 1 && placed == map[] && cache == map[]
    {
      this.options := options;
      capacity := options.initialCapacity;
      data := new byte[options.initialCapacity];
      minalign, cursor := 1, 0;
      currentVTable, objectStart, vectorNumElems, vTableOffsets := [], -1, -1, [];
      stringCache, cache := map[], map[];
      placed, contents := map[], [];
    }

    method MakeData() returns (bytes: seq<byte>)
      requires Shape()
      ensures bytes == contents
    {
      bytes := data[capacity - cursor..];
    }

    // Growth doubles the capacity until more than size bytes are free and moves the
    // contents to the new end, so every distance from the end keeps its byte.
    method ReserveAdditionalCapacity(size: nat)
      requires Shape()
      modifies this`capacity, this`data
      ensures Shape() && (data == old(data) || fresh(data))
      ensures capacity - cursor > size && capacity >= old(capacity)
      ensures exists k: nat :: IsDoubled(capacity, old(capacity), k) && (k > 0 ==> capacity - 2 * cursor <= 2 * size)
    {
      hide IsDoubled;
      ghost var k: nat := 0;
      NotDoubled(capacity);
      if capacity - cursor > size { return; }
      var oldLeft := capacity - cursor;
      while capacity - cursor <= size
        invariant capacity >= old(capacity) && data == old(data)
        invariant IsDoubled(capacity, old(capacity), k) && (k > 0 ==> capacity - 2 * cursor <= 2 * size)
        decreases size + cursor - capacity
      {
        DoubledNext(capacity, old(capacity), k);
        k := k + 1;
        capacity := capacity * 2;
      }
      var newData := new byte[capacity];
      var left := capacity - cursor;
      forall i | 0 <= i < cursor {
        newData[left + i] := data[oldLeft + i];
      }
      data := newData;
    }

    method Align(size: nat, additionalBytes: nat)
      requires Shape() && IsSize(size)
      modifies this`capacity, this`data, this`minalign, this`cursor, this`contents
      ensures Shape() && (data == old(data) || fresh(data))
      ensures cursor == old(cursor) + Pad(old(cursor), additionalBytes, size)
      ensures Extends(contents, old(contents))
      ensures minalign == AtLeast(size, old(minalign))
    {
      if size > minalign { minalign := size; }
      var alignSize := Pad(cursor, additionalBytes, size);
      ReserveAdditionalCapacity(alignSize);
      Skip(alignSize);
    }

    // Leave room at the front of the contents; whatever the buffer held there stays.
    method Skip(size: nat)
      requires Shape() && capacity - cursor >= size
      modifies this`cursor, this`contents
      ensures Shape() && cursor == old(cursor) + size
      ensures Extends(contents, old(contents))
    {
      ghost var before := contents;
      ghost var padding := data[capacity - cursor - size..][..size];
      cursor := cursor + size;
      contents := padding + contents;
      assert forall i :: 0 <= i < size ==> contents[i] == data[capacity - cursor + i];
      assert forall i :: 0 <= i < |before| ==> contents[size + i] == before[i];
    }

    // Put bytes at the front of the contents; the caller has reserved the room.
    method Store(v: seq<byte>)
      requires Shape() && capacity - cursor >= |v|
      modifies this`cursor, this`contents, data
      ensures cursor == old(cursor) + |v| && Shape()
      ensures contents == v + old(contents)
    {
      var at := capacity - cursor - |v|;
      forall i | 0 <= i < |v| {
        data[at + i] := v[i];
      }
      cursor := cursor + |v|;
      contents := v + contents;
    }

    method AlignFor(c: nat)
      requires Shape() && IsStride(c)
      modifies this`capacity, this`data, this`minalign, this`cursor, this`contents
      ensures Shape() && (data == old(data) || fresh(data))
      ensures cursor == old(cursor) + InsertPad(old(cursor), c)
      ensures IsAligned(cursor + c, Alignment(c))
      ensures Extends(contents, old(contents))
      ensures minalign == AtLeast(Alignment(c), old(minalign))
    {
      hide Linked, Pad, IsAligned, Aligned, Extends;
      ghost var pad := InsertPad(cursor, c);
      if c > 8 {
        Align(8, c);
      } else {
        Align(c, 0);
      }
      assert IsAligned(old(cursor) + pad + c, Alignment(c));
    }

    // Record a scalar of n bytes at the front of the contents.
    ghost method Record(n: nat, before: nat, minalignBefore: nat)
      requires Shape() && before < cursor && Aligned(placed, before, minalignBefore) && minalignBefore <= minalign
      requires IsStride(n) && IsAligned(cursor, Alignment(n)) && Alignment(n) <= minalign
      modifies this`placed
      ensures Shape() && placed == old(placed)[cursor := n] && Grows(placed, old(placed))
    {
      hide Linked, IsAligned, Aligned, Alignment, Grows;
      AlignedPlaced(placed, before, minalignBefore, cursor, n, minalign);
      placed := placed[cursor := n];
    }

    // Add a scalar, given by its bytes, to the front of the contents.
    method Insert(v: seq<byte>)
      requires Shape() && IsStride(|v|)
      modifies this`capacity, this`data, this`minalign, this`cursor, this`contents, this`placed, data
      ensures Shape() && (data == old(data) || fresh(data))
      ensures cursor == old(cursor) + InsertPad(old(cursor), |v|) + |v|
      ensures Extends(contents, old(contents))
      ensures BytesAt(contents, cursor, v) && IsAligned(cursor, Alignment(|v|))
      ensures InsertPad(old(cursor), |v|) == 0 ==> contents == v + old(contents)
      ensures minalign == AtLeast(Alignment(|v|), old(minalign))
      ensures placed == old(placed)[cursor := |v|] && Grows(placed, old(placed))
    {
      hide Linked, Pad, InsertPad, IsAligned, Aligned, Extends, BytesAt, Alignment;
      var c := |v|;
      AlignFor(c);
      ReserveAdditionalCapacity(c);
      ghost var before := contents;
      Store(v);
      Record(c, old(cursor), old(minalign));
      PrependedIsAt(v, before);
      ExtendsTransitive(contents, before, old(contents));
    }

    // Add an offset to the front of the contents, made relative to its own place.
    method InsertOffset(offset: Option<int>) returns (r: Result<int>)
      requires Shape()
      modifies this`capacity, this`data, this`minalign, this`cursor, this`contents, this`placed, data
      ensures Shape() && (data == old(data) || fresh(data))
      ensures Extends(contents, old(contents)) && Grows(placed, old(placed)) && minalign >= old(minalign)
      ensures r.Ok? <==> OffsetFits(old(cursor), offset)
      ensures r.Ok? ==>
        && r.value == cursor == SlotEnd(old(cursor)) && IsAligned(cursor, 4)
        && (var o := if offset.None? then 0 else offset.value;
            var rel := if o == 0 then 0 else cursor - o;
            IsInt32(rel) && BytesAt(contents, cursor, LE32(rel)))
        && placed == old(placed)[cursor := 4] && minalign == AtLeast(4, old(minalign))
      ensures r.Err? ==>
        && r.error == (if offset.Some? && old(cursor) <= INT32_MAX && offset.value > old(cursor) then OffsetIsTooBig else Trap)
        && placed == old(placed)
    {
      hide Linked, Pad, IsAligned, Aligned, BytesAt;
      GrowsItself(placed);
      ExtendsItself(contents);
      if offset.None? {
        Insert(LE32(0));
        return Ok(cursor);
      }
      var here :- ToInt32(cursor);
      if !(offset.value <= here) {
        return Err(OffsetIsTooBig);
      }
      if offset.value == 0 {
        Insert(LE32(0));
        return Ok(cursor);
      }
      Align(4, 0);
      ghost var aligned := contents;
      here :- ToInt32(cursor);
      var distance :- ToInt32(here - offset.value);
      var rel :- ToInt32(distance + 4);
      PadOfAligned(cursor, 4);
      Insert(LE32(rel));
      ExtendsTransitive(contents, aligned, old(contents));
      r := Ok(cursor);
    }

    method StartObject(withPropertyCount: nat) returns (r: Result<()>)
      requires Valid()
      modifies this`currentVTable, this`objectStart
      ensures Valid()
      ensures r.Ok? <==> old(Closed()) && cursor <= INT32_MAX
      ensures r.Ok? ==> objectStart == cursor && currentVTable == seq(withPropertyCount, _ => 0)
      ensures r.Err? ==> objectStart == old(objectStart) && r.error == if old(Closed()) then Trap else ObjectIsNotClosed
    {
      if !(objectStart == -1 && vectorNumElems == -1) {
        return Err(ObjectIsNotClosed);
      }
      var vtable: seq<int> := [];
      for i := 0 to withPropertyCount
        invariant vtable == seq(i, _ => 0)
      {
        vtable := vtable + [0];
      }
      currentVTable := vtable;
      objectStart :- ToInt32(cursor);
      r := Ok(());
    }

    // Add a scalar as a field of the open object, unless it equals its default and
    // defaults are not forced.
    method InsertScalarField(v: seq<byte>, equalsDefault: bool, propertyIndex: int) returns (r: Result<()>)
      requires Valid() && IsStride(|v|)
      modifies this`capacity, this`data, this`minalign, this`cursor, this`contents, this`placed, this`currentVTable, data
      ensures Valid() && (data == old(data) || fresh(data))
      ensures Extends(contents, old(contents))
      ensures Grows(placed, old(placed)) && minalign >= old(minalign)
      ensures old(objectStart) == -1 ==> r == Err(NoOpenObject)
      ensures old(objectStart) > -1 && !(0 <= propertyIndex < |old(currentVTable)|) ==> r == Err(PropertyIndexIsInvalid)
      ensures r.Ok? ==> old(objectStart) > -1 && 0 <= propertyIndex < |old(currentVTable)|
      ensures r.Ok? && !options.forceDefaults && equalsDefault ==>
        && cursor == old(cursor) && currentVTable == old(currentVTable) && contents == old(contents)
        && placed == old(placed) && minalign == old(minalign)
      ensures r.Ok? && (options.forceDefaults || !equalsDefault) ==>
        && cursor == old(cursor) + InsertPad(old(cursor), |v|) + |v|
        && BytesAt(contents, cursor, v) && IsAligned(cursor, Alignment(|v|))
        && placed == old(placed)[cursor := |v|] && minalign == AtLeast(Alignment(|v|), old(minalign))
        && currentVTable == old(currentVTable)[propertyIndex := cursor]
      ensures r.Err? && old(objectStart) > -1 && 0 <= propertyIndex < |old(currentVTable)| ==> r.error == Trap && cursor > INT32_MAX
      ensures cursor <= old(cursor) + InsertPad(old(cursor), |v|) + |v|
    {
      hide Linked, Pad, IsAligned, Aligned, BytesAt, Known, InsertPad, Alignment, FieldsSince, Grows, AtLeast;
      GrowsItself(placed);
      if !(objectStart > -1) { return Err(NoOpenObject); }
      if !(0 <= propertyIndex < |currentVTable|) { return Err(PropertyIndexIsInvalid); }
      if options.forceDefaults == false && equalsDefault {
        return Ok(());
      }
      Insert(v);
      KnownExtends(contents, old(contents), placed, old(placed), stringCache, vTableOffsets);
      AtLeastBoth(Alignment(|v|), old(minalign));
      FieldsSinceEarlier(currentVTable, objectStart, old(cursor), objectStart, cursor);
      r := RecordField(propertyIndex);
    }

    // Record the front of the contents as the place of a field.
    method RecordField(propertyIndex: nat) returns (r: Result<()>)
      requires Valid() && objectStart > -1 && propertyIndex < |currentVTable|
      modifies this`currentVTable
      ensures Valid()
      ensures r == if cursor <= INT32_MAX then Ok(()) else Err(Trap)
      ensures currentVTable == if r.Ok? then old(currentVTable)[propertyIndex := cursor] else old(currentVTable)
    {
      hide Linked, Aligned, Known;
      var here :- ToInt32(cursor);
      currentVTable := currentVTable[propertyIndex := here];
      r := Ok(());
    }

    method InsertOffsetField(offset: int, propertyIndex: int) returns (r: Result<int>)
      requires Valid()
      modifies this`capacity, this`data, this`minalign, this`cursor, this`contents, this`placed, this`currentVTable, data
      ensures Valid() && (data == old(data) || fresh(data))
      ensures Extends(contents, old(contents))
      ensures Grows(placed, old(placed)) && minalign >= old(minalign)
      ensures old(objectStart) == -1 ==> r == Err(NoOpenObject)
      ensures old(objectStart) > -1 && !(0 <= propertyIndex < |old(currentVTable)|) ==> r == Err(PropertyIndexIsInvalid)
      ensures r.Ok? ==>
        && old(objectStart) > -1 && 0 <= propertyIndex < |old(currentVTable)|
        && r.value == cursor == SlotEnd(old(cursor)) && IsAligned(cursor, 4)
        && (var rel := if offset == 0 then 0 else cursor - offset;
            IsInt32(rel) && BytesAt(contents, cursor, LE32(rel)))
        && placed == old(placed)[cursor := 4] && minalign == AtLeast(4, old(minalign))
        && currentVTable == old(currentVTable)[propertyIndex := cursor]
      ensures r.Err? && old(objectStart) > -1 && 0 <= propertyIndex < |old(currentVTable)| ==>
        if OffsetFits(old(cursor), Some(offset)) then r.error == Trap && SlotEnd(old(cursor)) > INT32_MAX
        else r.error == if old(cursor) <= INT32_MAX && offset > old(cursor) then OffsetIsTooBig else Trap
    {
      hide Linked, Pad, IsAligned, Aligned, BytesAt, Known, FieldsSince, Grows, AtLeast;
      GrowsItself(placed);
      ExtendsItself(contents);
      if !(objectStart > -1) { return Err(NoOpenObject); }
      if !(0 <= propertyIndex < |currentVTable|) { return Err(PropertyIndexIsInvalid); }
      var inserted := InsertOffset(Some(offset));
      KnownExtends(contents, old(contents), placed, old(placed), stringCache, vTableOffsets);
      FieldsSinceEarlier(currentVTable, objectStart, old(cursor), objectStart, cursor);
      if inserted.Err? { return Err(inserted.error); }
      var recorded :- RecordField(propertyIndex);
      r := Ok(cursor);
    }

    method StartVector(count: nat, elementSize: nat) returns (r: Result<()>)
      requires Valid()
      modifies this`capacity, this`data, this`minalign, this`cursor, this`contents, this`vectorNumElems
      ensures Valid() && (data == old(data) || fresh(data))
      ensures Extends(contents, old(contents))
      ensures cursor == old(cursor) + Pad(old(cursor), count * elementSize, 4)
      ensures minalign == AtLeast(4, old(minalign))
      ensures r.Ok? <==> old(Closed()) && IsInt32(count)
      ensures r.Ok? ==> vectorNumElems == count
      ensures r.Err? ==> vectorNumElems == old(vectorNumElems) && r.error == if old(Closed()) then Trap else ObjectIsNotClosed
    {
      hide Linked, Pad, IsAligned, Aligned, BytesAt, Known, Extends;
      Align(4, count * elementSize);
      GrowsItself(placed);
      KnownExtends(contents, old(contents), placed, placed, stringCache, vTableOffsets);
      if !(objectStart == -1 && vectorNumElems == -1) {
        return Err(ObjectIsNotClosed);
      }
      vectorNumElems :- ToInt32(count);
      r := Ok(());
    }

    method EndVector() returns (r: Result<int>)
      requires Valid() && IsInt32(vectorNumElems)
      modifies this`capacity, this`data, this`minalign, this`cursor, this`contents, this`placed, this`vectorNumElems, data
      ensures Valid() && (data == old(data) || fresh(data))
      ensures Extends(contents, old(contents))
      ensures placed == old(placed)[cursor := 4] && Grows(placed, old(placed)) && minalign == AtLeast(4, old(minalign))
      ensures vectorNumElems == -1
      ensures cursor == SlotEnd(old(cursor)) && IsAligned(cursor, 4)
      ensures BytesAt(contents, cursor, LE32(old(vectorNumElems)))
      ensures r == if cursor <= INT32_MAX then Ok(cursor) else Err(Trap)
    {
      hide Linked, Pad, IsAligned, Aligned, BytesAt, Known, Extends, LE32;
      Insert(LE32(vectorNumElems));
      KnownExtends(contents, old(contents), placed, old(placed), stringCache, vTableOffsets);
      vectorNumElems := -1;
      r := ToInt32(cursor);
    }

    // Overwrite the first bytes of a part of the contents that ends them.
    method UpdateAt(v: seq<byte>, distance: nat, ghost pre: seq<byte>, ghost rest: seq<byte>)
      requires Shape() && contents == pre + rest && |v| <= |rest| == distance
      modifies this`contents, data
      ensures Shape()
      ensures contents == pre + v + rest[|v|..]
    {
      var at := capacity - distance;
      forall i | 0 <= i < |v| {
        data[at + i] := v[i];
      }
      PartsOf(pre, rest, |v|);
      contents := contents[..cursor - distance] + v + contents[cursor - distance + |v|..];
    }

    // Two bytes at an even distance need no padding.
    method InsertInt16(v: int)
      requires Shape() && IsInt16(v) && IsAligned(cursor, 2)
      modifies this`capacity, this`data, this`minalign, this`cursor, this`contents, this`placed, data
      ensures Shape() && (data == old(data) || fresh(data))
      ensures minalign >= old(minalign) && placed == old(placed)[cursor := 2]
      ensures contents == LE16(v) + old(contents) && IsAligned(cursor, 2)
    {
      hide Linked, BytesAt, LE16, Extends, Aligned;
      PadOfAligned(cursor, 2);
      Insert(LE16(v));
    }

    // Write the vtable entries of the open object, last field first.
    method WriteEntries(vtableloc: nat) returns (r: Result<()>)
      requires Shape() && cursor == vtableloc && IsAligned(cursor, 2)
      requires FieldsSince(currentVTable, 0, cursor)
      modifies this`capacity, this`data, this`minalign, this`cursor, this`contents, this`placed, data
      ensures Shape() && (data == old(data) || fresh(data))
      ensures minalign >= old(minalign)
      ensures r.Ok? ==>
        && EntriesFit(currentVTable, vtableloc) && IsAligned(cursor, 2)
        && contents == Entries(currentVTable, vtableloc) + old(contents)
        && placed == Words(old(placed), vtableloc, |currentVTable|, 2)
      ensures r.Err? ==> r.error == Trap && (vtableloc > INT32_MAX || !EntriesFit(currentVTable, vtableloc))
    {
      var n := |currentVTable|;
      NoEntries(currentVTable, vtableloc);
      hide Linked, BytesAt, LE16, IsStride, Extends, Aligned, Pad, InsertPad, IsAligned, EntriesFit, CheckedEntry, Grows,
        Entries, FieldsSince;
      var index := n - 1;
      while index >= 0
        invariant -1 <= index < n
        invariant Shape() && (data == old(data) || fresh(data)) && IsAligned(cursor, 2)
        invariant minalign >= old(minalign) && placed == Words(old(placed), vtableloc, n - 1 - index, 2)
        invariant EntriesFit(currentVTable[index + 1..], vtableloc)
        invariant contents == Entries(currentVTable[index + 1..], vtableloc) + old(contents)
      {
        EntriesStep(currentVTable, vtableloc, index);
        var off :- CheckedEntry(currentVTable[index], vtableloc);
        WordsNext(old(placed), vtableloc, n - 1 - index, 2);
        InsertInt16(off);
        index := index - 1;
      }
      assert currentVTable[0..] == currentVTable;
      r := Ok(());
    }

    // Write the vtable of the open object in front of the contents.
    method WriteVTable(vtableloc: nat) returns (r: Result<()>)
      requires Shape() && cursor == vtableloc && IsAligned(cursor, 2) && 0 <= objectStart <= cursor
      requires FieldsSince(currentVTable, 0, cursor)
      modifies this`capacity, this`data, this`minalign, this`cursor, this`contents, this`placed, data
      ensures Shape() && (data == old(data) || fresh(data))
      ensures minalign >= old(minalign)
      ensures r == if vtableloc <= INT32_MAX && VTableFits(currentVTable, vtableloc, objectStart) then Ok(()) else Err(Trap)
      ensures r.Ok? ==>
        && contents == VTable(currentVTable, vtableloc, objectStart) + old(contents) && IsAligned(cursor, 2)
        && placed == Words(old(placed), vtableloc, |currentVTable| + 2, 2)
    {
      hide Linked, BytesAt, LE16, IsStride, Extends, Aligned, Pad, InsertPad, IsAligned, Entries, EntriesFit;
      var entries :- WriteEntries(vtableloc);
      WordsNext(old(placed), vtableloc, |currentVTable|, 2);
      WordsNext(old(placed), vtableloc, |currentVTable| + 1, 2);
      var loc :- ToInt32(vtableloc);
      var dataLength :- ToInt16(loc - objectStart);
      InsertInt16(dataLength);
      var vtableLength :- ToInt16((|currentVTable| + 2) * 2);
      InsertInt16(vtableLength);
      r := Ok(());
    }

    // Compare the vtable at the front with the remembered one, byte by byte.
    method SameVTable(other: int, length: nat) returns (same: bool)
      requires Shape() && IsInt16(length) && 4 <= length <= cursor
      requires BytesAt(contents, cursor, LE16(length)) && StubAt(contents, placed, other) && other <= cursor
      ensures same == BytesAt(contents, other, contents[..length])
    {
      hide LE16, BytesAt, StubAt, Aligned;
      StubRange(contents, placed, other);
      var left, start := capacity - cursor, cursor - other;
      same := true;
      for i := 0 to length
        invariant i > 0 ==> start + i <= cursor
        invariant forall j :: 0 <= j < i && start + j < cursor ==> contents[j] == contents[start + j]
      {
        if i >= 2 {
          StubLength(contents, placed, other, length);
        }
        var a := data[left + i];
        var b := data[left + i + start];
        if a != b {
          ByteDiffers(contents, other, contents[..length], i);
          return false;
        }
      }
      StubLength(contents, placed, other, length);
      BytesAtIs(contents, other, contents[..length]);
    }

    // Look for the first remembered vtable with the same bytes as the one at the front.
    method FindVTable(length: nat) returns (found: Option<int>)
      requires Shape() && IsInt16(length) && 4 <= length <= cursor
      requires BytesAt(contents, cursor, LE16(length))
      requires Known(contents, placed, stringCache, vTableOffsets)
      ensures found.Some? ==>
        exists k :: 0 <= k < |vTableOffsets| && found.value == vTableOffsets[k] && FirstAt(contents, vTableOffsets, contents[..length], k)
      ensures found.None? ==> NoneBefore(contents, vTableOffsets, contents[..length], |vTableOffsets|)
    {
      hide LE16, BytesAt, StubAt, Aligned, Linked, Known;
      for k := 0 to |vTableOffsets|
        invariant NoneBefore(contents, vTableOffsets, contents[..length], k)
      {
        var other := vTableOffsets[k];
        KnownVTable(contents, placed, stringCache, vTableOffsets, other);
        var same := SameVTable(other, length);
        if same {
          assert FirstAt(contents, vTableOffsets, contents[..length], k);
          return Some(other);
        }
      }
      found := None;
    }

    // Drop what was written past the given distance.
    method Truncate(distance: nat)
      requires Shape() && distance <= cursor
      modifies this`cursor, this`contents, this`placed
      ensures Shape() && contents == old(contents)[|old(contents)| - distance..]
      ensures placed == UpTo(old(placed), distance)
    {
      contents := contents[cursor - distance..];
      cursor := distance;
      placed := UpTo(placed, distance);
    }

    // Find the vtable just written in front of the slot at vtableloc among the remembered
    // ones and drop it, or remember it too. Either way the result leads from the slot to
    // a vtable with the same bytes.
    method ShareVTable(vtableloc: nat, ghost open: seq<byte>, ghost base: seq<byte>, ghost vtable: seq<byte>, ghost placedOpen: map<int, int>)
      returns (r: Result<int>, ghost pre: seq<byte>)
      requires Shape() && 0 <= objectStart && VTableFits(currentVTable, vtableloc, objectStart)
      requires vtable == VTable(currentVTable, vtableloc, objectStart)
      requires contents == vtable + open && 4 <= |open| == vtableloc <= INT32_MAX && base == open[4..] && IsAligned(cursor, 2)
      requires Aligned(placedOpen, vtableloc, minalign) && placed == Words(placedOpen, vtableloc, |currentVTable| + 2, 2)
      requires Known(base, placedOpen, stringCache, vTableOffsets)
      modifies this`cursor, this`contents, this`placed, this`vTableOffsets
      ensures r.Err? ==> r.error == Trap && options.uniqueVTables && cursor > INT32_MAX
      ensures VTableRecorded(placed, placedOpen, vtableloc, |currentVTable|, cursor, options.uniqueVTables)
      ensures r.Ok? ==>
        && Shape() && (options.uniqueVTables ==> cursor <= INT32_MAX) && IsInt32(r.value)
        && contents == pre + open
        && HalvesPlaced(placed, vtableloc + r.value, |currentVTable| + 2) && IsAligned(vtableloc + r.value, 2)
        && ((pre == vtable && r.value == |vtable|) || (pre == [] && BytesAt(base, vtableloc + r.value, vtable)))
        && vTableOffsets == old(vTableOffsets) + if options.uniqueVTables && pre != [] then [cursor] else []
      ensures r.Ok? ==>
        if options.uniqueVTables && exists v <- old(vTableOffsets) :: BytesAt(base, v, vtable) then
          && pre == []
          && exists k :: 0 <= k < |old(vTableOffsets)| && FirstAt(base, old(vTableOffsets), vtable, k) && r.value == old(vTableOffsets)[k] - vtableloc
        else pre == vtable && r.value == |vtable|
    {
      hide Linked, LE16, IsStride, Aligned, VTable, BytesAt, Known, StubAt, IsAligned, Words, HalvesPlaced, NoneBefore, UpTo,
        WordPlaced, VTableFits, EntriesFit, FirstAt, Extends;
      ghost var n := |currentVTable|;
      FitsLength(currentVTable, vtableloc, objectStart);
      HalvesAre(placedOpen, vtableloc, n + 2);
      var vtableDataLength := cursor - vtableloc;
      r := Ok(vtableDataLength);
      pre := vtable;
      if options.uniqueVTables {
        ContentsKnown(open, base, vtable, placedOpen, vtableloc);
        assert contents[..vtableDataLength] == vtable;
        BaseIsBehind(vtable, open, base);
        SameAtPlaces(contents, base, placedOpen, stringCache, vTableOffsets, vtable);
        var other := FindVTable(vtableDataLength);
        if other.Some? {
          ghost var k :| 0 <= k < |vTableOffsets| && other.value == vTableOffsets[k] && FirstAt(contents, vTableOffsets, vtable, k);
          FirstIsThere(contents, vTableOffsets, vtable, k);
          FirstAtPlaces(contents, base, vTableOffsets, vtable, k);
          FirstIsThere(base, vTableOffsets, vtable, k);
          SharedVTable(open, base, vtable, placedOpen, vtableloc, other.value);
        } else {
          NoneIsNone(contents, vTableOffsets, vtable);
        }
        if other.Some? && other.value - vtableloc != vtableDataLength {
          Truncate(vtableloc);
          WordsUndone(placedOpen, vtableloc, minalign, n + 2, 2);
          pre := [];
          assert contents == open && pre + open == open;
          r := ToInt32(other.value - vtableloc);
        } else {
          var here := ToInt32(cursor);
          if here.Err? { return Err(Trap), pre; }
          vTableOffsets := vTableOffsets + [here.value];
        }
      }
    }

    // Find or keep the vtable just written in front of the slot at vtableloc, and fill
    // the slot with its relative offset.
    method LinkVTable(vtableloc: nat, ghost open: seq<byte>, ghost base: seq<byte>, ghost placedOpen: map<int, int>) returns (r: Result<()>)
      requires Shape() && 0 <= objectStart && VTableFits(currentVTable, vtableloc, objectStart)
      requires 4 <= |open| == vtableloc <= INT32_MAX && base == open[4..] && IsAligned(vtableloc, 4) && IsAligned(cursor, 2)
      requires contents == VTable(currentVTable, vtableloc, objectStart) + open
      requires Aligned(placedOpen, vtableloc, minalign) && WordPlaced(placedOpen, vtableloc)
      requires placed == Words(placedOpen, vtableloc, |currentVTable| + 2, 2)
      requires Known(base, placedOpen, stringCache, vTableOffsets)
      modifies this`cursor, this`contents, this`placed, this`vTableOffsets, data
      ensures r == if options.uniqueVTables && cursor > INT32_MAX then Err(Trap) else Ok(())
      ensures r.Ok? ==> Shape() && Known(contents, placed, stringCache, vTableOffsets)
      ensures r.Ok? ==> Extends(contents, base)
      ensures r.Ok? ==> TableAt(contents, vtableloc, currentVTable, objectStart)
      ensures r.Ok? ==> TablePlaced(contents, placed, vtableloc, |currentVTable|)
      ensures VTableRecorded(placed, placedOpen, vtableloc, |currentVTable|, cursor, options.uniqueVTables)
      ensures r.Ok? ==>
        VTableLinked(base, old(vTableOffsets), VTable(currentVTable, vtableloc, objectStart), vtableloc, contents, vTableOffsets,
                     options.uniqueVTables)
    {
      hide Linked, LE16, LE32, IsStride, Aligned, VTable, BytesAt, Extends, Known, TableAt, StubAt, IsAligned, Words,
        HalvesPlaced, NoneBefore, Grows, WordPlaced, TablePlaced, VTableRecorded, VTableFits, EntriesFit, FirstAt;
      ghost var vtable := VTable(currentVTable, vtableloc, objectStart);
      FitsLength(currentVTable, vtableloc, objectStart);
      var found;
      ghost var pre;
      found, pre := ShareVTable(vtableloc, open, base, vtable, placedOpen);
      r := Err(Trap);
      if found.Ok? {
        VTableRecordedGrows(placed, placedOpen, vtableloc, |currentVTable|, cursor, options.uniqueVTables, minalign);
        WordPlacedLater(placed, placedOpen, vtableloc);
        KnownLater(base, placed, placedOpen, stringCache, old(vTableOffsets));
        UpdateAt(LE32(found.value), vtableloc, pre, open);
        SlotLinksTable(contents, pre, found.value, base, currentVTable, objectStart, placed, stringCache, old(vTableOffsets));
        assert old(vTableOffsets) + [] == old(vTableOffsets);
        NoneIsNone(base, old(vTableOffsets), vtable);
        r := Ok(());
      }
    }

    // With the vtable just written in front, everything remembered is still where it was.
    lemma ContentsKnown(open: seq<byte>, base: seq<byte>, vtable: seq<byte>, placedOpen: map<int, int>, vtableloc: nat)
      requires Shape() && 0 <= objectStart && VTableFits(currentVTable, vtableloc, objectStart)
      requires vtable == VTable(currentVTable, vtableloc, objectStart) && contents == vtable + open
      requires 4 <= |open| && base == open[4..]
      requires Aligned(placedOpen, vtableloc, minalign) && placed == Words(placedOpen, vtableloc, |currentVTable| + 2, 2)
      requires Known(base, placedOpen, stringCache, vTableOffsets)
      ensures Known(contents, placed, stringCache, vTableOffsets) && BytesAt(contents, cursor, LE16(2 * |currentVTable| + 4))
    {
      hide Linked, LE16, Aligned, VTable, Known, Words, VTableFits;
      WordsGrow(placedOpen, vtableloc, minalign, |currentVTable| + 2, 2);
      BaseIsBehind(vtable, open, base);
      KnownExtends(contents, base, placed, placedOpen, stringCache, vTableOffsets);
      VTableHead(currentVTable, vtableloc, objectStart);
      assert contents[..2] == vtable[..2];
    }

    // A remembered vtable with the same bytes lies among the contents before the slot,
    // and its words are recorded.
    lemma SharedVTable(open: seq<byte>, base: seq<byte>, vtable: seq<byte>, placedOpen: map<int, int>, vtableloc: nat, v: int)
      requires Shape() && 0 <= objectStart && VTableFits(currentVTable, vtableloc, objectStart)
      requires vtable == VTable(currentVTable, vtableloc, objectStart)
      requires contents == vtable + open && 4 <= |open| && base == open[4..] && BytesAt(contents, v, vtable)
      requires Known(base, placedOpen, stringCache, vTableOffsets) && v in vTableOffsets
      ensures 4 <= v <= |base| && BytesAt(base, v, vtable) && HalvesPlaced(placedOpen, v, |currentVTable| + 2) && IsAligned(v, 2)
    {
      hide Linked, LE16, VTable, BytesAt, Known, VTableFits, HalvesPlaced, StubAt;
      BaseIsBehind(vtable, open, base);
      KnownVTable(base, placedOpen, stringCache, vTableOffsets, v);
      BytesAtRestricts(contents, base, v, vtable);
      VTableHead(currentVTable, vtableloc, objectStart);
      FitsLength(currentVTable, vtableloc, objectStart);
      SharedStub(base, placedOpen, v, vtable, |currentVTable|);
    }

    // Reserve the slot that will hold the table's vtable offset.
    method OpenSlot()
      requires Shape()
      modifies this`capacity, this`data, this`minalign, this`cursor, this`contents, this`placed, data
      ensures Shape() && (data == old(data) || fresh(data))
      ensures cursor == SlotEnd(old(cursor)) && IsAligned(cursor, 4)
      ensures Extends(contents[4..], old(contents))
      ensures minalign == AtLeast(4, old(minalign)) && placed == old(placed)[cursor := 4] && Grows(placed, old(placed))
    {
      hide Linked, IsAligned, Aligned, Pad;
      Align(4, 0);
      FourAligned(cursor);
      ReserveAdditionalCapacity(4);
      Skip(4);
      Record(4, old(cursor), old(minalign));
    }

    // Write the vtable in front of the open slot and link the two. A vtable that is
    // shared leaves nothing in front of the slot.
    method CloseTable(ghost base: seq<byte>) returns (r: Result<()>)
      requires Shape() && 0 <= objectStart <= cursor && IsAligned(cursor, 4) && 4 <= cursor
      requires FieldsSince(currentVTable, 0, cursor) && WordPlaced(placed, cursor)
      requires base == contents[4..] && Known(base, placed, stringCache, vTableOffsets)
      modifies this`capacity, this`data, this`minalign, this`cursor, this`contents, this`placed, this`vTableOffsets, data
      ensures data == old(data) || fresh(data)
      ensures r.Ok? ==>
        && Shape() && Known(contents, placed, stringCache, vTableOffsets)
        && Extends(contents, base)
        && minalign >= old(minalign)
        && old(cursor) <= INT32_MAX
        && TableAt(contents, old(cursor), currentVTable, objectStart)
        && TablePlaced(contents, placed, old(cursor), |currentVTable|)
        && VTableRecorded(placed, old(placed), old(cursor), |currentVTable|, cursor, options.uniqueVTables)
        && VTableLinked(base, old(vTableOffsets), VTable(currentVTable, old(cursor), objectStart), old(cursor), contents, vTableOffsets,
                        options.uniqueVTables)
      ensures r.Err? ==>
        && r.error == Trap
        && (old(cursor) + 2 * |currentVTable| + 4 > INT32_MAX || !VTableFits(currentVTable, old(cursor), objectStart))
    {
      hide Linked, BytesAt, IsStride, Extends, Aligned, Pad, InsertPad, VTable, VTableFits, Known, IsAligned, TableAt,
        FieldsSince, Grows, Words, WordPlaced, TablePlaced, VTableRecorded, VTableLinked;
      var vtableloc := cursor;
      ghost var open := contents;
      FourAligned(cursor);
      var written := WriteVTable(vtableloc);
      r := Err(Trap);
      if written.Ok? {
        AlignedLonger(old(placed), vtableloc, old(minalign), minalign);
        ghost var m := minalign;
        var linked := LinkVTable(vtableloc, open, base, old(placed));
        VTableRecordedGrows(placed, old(placed), vtableloc, |currentVTable|, cursor, options.uniqueVTables, m);
        if linked.Ok? {
          r := Ok(());
        }
      }
    }

    // Write the slot and the vtable of the open object. The slot is where the table is.
    method WriteTable() returns (r: Result<int>)
      requires Valid() && 0 <= objectStart
      modifies this`capacity, this`data, this`minalign, this`cursor, this`contents, this`placed, data
      modifies this`vTableOffsets
      ensures data == old(data) || fresh(data)
      ensures
        var loc := SlotEnd(old(cursor));
        && (r.Ok? ==>
              && r.value == loc && Shape() && Known(contents, placed, stringCache, vTableOffsets)
              && Extends(contents, old(contents)) && Grows(placed, old(placed))
              && minalign >= old(minalign) && minalign >= 4 && loc <= INT32_MAX
              && TableAt(contents, loc, currentVTable, objectStart)
              && TablePlaced(contents, placed, loc, |currentVTable|)
              && VTableRecorded(placed, old(placed)[loc := 4], loc, |currentVTable|, cursor, options.uniqueVTables)
              && VTableLinked(old(contents), old(vTableOffsets), VTable(currentVTable, loc, objectStart), loc, contents, vTableOffsets,
                              options.uniqueVTables)
              && loc <= cursor <= loc + 2 * |currentVTable| + 4)
        && (r.Err? ==>
              && r.error == Trap
              && (loc + 2 * |currentVTable| + 4 > INT32_MAX || !VTableFits(currentVTable, loc, objectStart)))
    {
      hide Linked, BytesAt, IsStride, Extends, Aligned, Pad, InsertPad, VTable, VTableFits, Known, IsAligned, TableAt,
        FieldsSince, Grows, SlotEnd, EntriesFit, Entries, Words, TablePlaced, VTableRecorded, AtLeast, VTableLinked;
      SlotEndAfter(cursor);
      OpenSlot();
      AtLeastBoth(4, old(minalign));
      FieldsSinceEarlier(currentVTable, objectStart, old(cursor), 0, cursor);
      var vtableloc := cursor;
      ghost var base, placedOpen := contents[4..], placed;
      KnownExtends(base, old(contents), placed, old(placed), stringCache, vTableOffsets);
      var closed := CloseTable(base);
      r := Err(Trap);
      if closed.Ok? {
        r := Ok(vtableloc);
        VTableRecordedGrows(placed, placedOpen, vtableloc, |currentVTable|, cursor, options.uniqueVTables, AtLeast(4, old(minalign)));
        GrowsTransitive(placed, placedOpen, old(placed));
        ExtendsTransitive(contents, base, old(contents));
        TableFits(contents, vtableloc, currentVTable, objectStart);
        LinkedLater(base, old(contents), old(placed), stringCache, old(vTableOffsets), VTable(currentVTable, vtableloc, objectStart), vtableloc,
                    contents, vTableOffsets, options.uniqueVTables);
      }
    }

    // Close the open object.
    method EndObject() returns (r: Result<int>)
      requires Valid()
      modifies this`capacity, this`data, this`minalign, this`cursor, this`contents, this`placed, data
      modifies this`objectStart, this`vTableOffsets
      ensures data == old(data) || fresh(data)
      ensures old(objectStart) == -1 ==> r == Err(NoOpenObject) && contents == old(contents)
      ensures r.Ok? ==>
        && Valid() && objectStart == -1
        && Extends(contents, old(contents)) && Grows(placed, old(placed))
        && minalign >= old(minalign) && minalign >= 4
        && r.value == SlotEnd(old(cursor))
        && TableAt(contents, r.value, currentVTable, old(objectStart))
        && TablePlaced(contents, placed, r.value, |currentVTable|)
        && VTableRecorded(placed, old(placed)[r.value := 4], r.value, |currentVTable|, cursor, options.uniqueVTables)
        && VTableLinked(old(contents), old(vTableOffsets), VTable(currentVTable, r.value, old(objectStart)), r.value, contents, vTableOffsets,
                        options.uniqueVTables)
        && r.value <= cursor <= r.value + 2 * |currentVTable| + 4
      ensures r.Err? && old(objectStart) > -1 ==>
        && r.error == Trap
        && (var loc := SlotEnd(old(cursor));
            loc + 2 * |currentVTable| + 4 > INT32_MAX || !VTableFits(currentVTable, loc, old(objectStart)))
      ensures r.Err? && r.error != Trap ==>
        && Valid() && objectStart == -1 && Extends(contents, old(contents)) && Grows(placed, old(placed))
    {
      hide Linked, Extends, Aligned, VTableFits, Known, TableAt, FieldsSince, Grows, SlotEnd, Words, TablePlaced, VTableRecorded,
        VTableLinked, VTable, FlatBuffersBuilder.Shape, FlatBuffersBuilder.Valid;
      GrowsItself(placed);
      ExtendsItself(contents);
      if !(objectStart > -1) {
        ValidStart();
        return Err(NoOpenObject);
      }
      SlotEndAfter(cursor);
      ValidVector();
      r := WriteTable();
      if r.Ok? {
        objectStart := -1;
        ValidClosed();
        r := ToInt32(r.value);
      }
    }

    // Insert bytes one by one, last first.
    method InsertBytes(v: seq<byte>)
      requires Shape()
      modifies this`capacity, this`data, this`minalign, this`cursor, this`contents, this`placed, data
      ensures Shape() && (data == old(data) || fresh(data))
      ensures minalign == old(minalign) && placed == Words(old(placed), old(cursor), |v|, 1)
      ensures contents == v + old(contents)
    {
      hide Linked, BytesAt, Extends, Aligned, Words;
      NoWords(placed, cursor, 1);
      var k := |v|;
      assert v[k..] == [];
      while k > 0
        invariant 0 <= k <= |v|
        invariant Shape() && (data == old(data) || fresh(data))
        invariant minalign == old(minalign) && placed == Words(old(placed), old(cursor), |v| - k, 1)
        invariant contents == v[k..] + old(contents)
      {
        WordsNext(old(placed), old(cursor), |v| - k, 1);
        k := k - 1;
        Insert([v[k]]);
        assert v[k..] == [v[k]] + v[k + 1..];
      }
      assert v[0..] == v;
    }

    // Four bytes at a multiple of four need no padding.
    method InsertWord(v: seq<byte>)
      requires Shape() && |v| == 4 && IsAligned(cursor, 4) && minalign >= 4
      modifies this`capacity, this`data, this`minalign, this`cursor, this`contents, this`placed, data
      ensures Shape() && (data == old(data) || fresh(data))
      ensures minalign == old(minalign) && placed == old(placed)[cursor := 4] && Grows(placed, old(placed))
      ensures contents == v + old(contents) && IsAligned(cursor, 4)
    {
      hide Linked, BytesAt, Extends, Aligned, Grows;
      PadOfAligned(cursor, 4);
      Insert(v);
    }

    // Write a string: its bytes, a NUL behind them if so configured, and the length.
    method WriteString(value: seq<byte>) returns (r: Result<()>)
      requires Shape()
      modifies this`capacity, this`data, this`minalign, this`cursor, this`contents, this`placed, data
      ensures Shape() && (data == old(data) || fresh(data))
      ensures minalign == AtLeast(4, old(minalign)) && Grows(placed, old(placed))
      ensures Extends(contents, old(contents))
      ensures cursor <= old(cursor) + |value| + 8
      ensures r == if IsInt32(|value|) then Ok(()) else Err(Trap)
      ensures r.Ok? ==>
        var bytes := if options.nullTerminatedUTF8 then value + [0] else value;
        var base := old(cursor) + Pad(old(cursor), |bytes|, 4);
        && StringAt(contents, cursor, value) && BytesAt(contents, cursor - 4, bytes)
        && cursor == base + |bytes| + 4
        && placed == Words(old(placed), base, |bytes|, 1)[cursor := 4]
    {
      hide Linked, BytesAt, Extends, Aligned, Pad, IsAligned, LE32, Grows, StringAt, Words, AtLeast;
      AtLeastBoth(4, minalign);
      var bytes := if options.nullTerminatedUTF8 then value + [0] else value;
      PadBelow4(cursor, |bytes|);
      ghost var base := WriteAligned(bytes);
      ghost var placed1 := placed;
      var length := |bytes|;
      var len := ToInt32(if options.nullTerminatedUTF8 then length - 1 else length);
      if len.Err? {
        PrependedIsAt(bytes, base);
        r := Err(Trap);
      } else {
        InsertWord(LE32(len.value));
        GrowsTransitive(placed, placed1, old(placed));
        StringWritten(contents, bytes, base, value);
        r := Ok(());
      }
      ExtendsTransitive(contents, base, old(contents));
    }

    // Write bytes so that a word fits in front of them.
    method WriteAligned(bytes: seq<byte>) returns (ghost base: seq<byte>)
      requires Shape()
      modifies this`capacity, this`data, this`minalign, this`cursor, this`contents, this`placed, data
      ensures Shape() && (data == old(data) || fresh(data))
      ensures minalign == AtLeast(4, old(minalign)) && Grows(placed, old(placed))
      ensures Extends(base, old(contents)) && contents == bytes + base && IsAligned(cursor, 4)
      ensures
        var start := old(cursor) + Pad(old(cursor), |bytes|, 4);
        cursor == start + |bytes| && placed == Words(old(placed), start, |bytes|, 1)
    {
      hide Linked, Extends, Aligned, Pad, IsAligned, Grows, Words, AtLeast;
      var length := |bytes|;
      ghost var end := cursor + length + Pad(cursor, length, 4);
      assert IsAligned(end, 4);
      Align(4, length);
      ReserveAdditionalCapacity(length);
      base := contents;
      ShapeAligned();
      WordsGrow(placed, cursor, minalign, length, 1);
      InsertBytes(bytes);
      assert cursor == end;
    }

    // Add a string, or return the place of an equal string already added.
    method InsertString(value: Option<seq<byte>>) returns (r: Result<int>)
      requires Valid()
      modifies this`capacity, this`data, this`minalign, this`cursor, this`contents, this`placed, this`stringCache, data
      ensures data == old(data) || fresh(data)
      ensures !Closed() ==> r == Err(ObjectIsNotClosed)
      ensures r.Ok? ==>
        && Valid() && Closed()
        && Extends(contents, old(contents)) && Grows(placed, old(placed)) && minalign >= old(minalign)
        && (value.None? ==> r.value == 0 && contents == old(contents) && placed == old(placed))
        && (value.Some? ==>
              && StringAt(contents, r.value, value.value) && WordPlaced(placed, r.value)
              && cursor <= old(cursor) + |value.value| + 8)
      ensures r.Ok? && value.Some? ==>
        if options.uniqueStrings && value.value in old(stringCache) then
          r.value == old(stringCache)[value.value] && stringCache == old(stringCache) && contents == old(contents) && placed == old(placed)
        else
          && r.value == cursor && StringWrittenAt(old(cursor), value.value, options.nullTerminatedUTF8, cursor)
          && stringCache == if options.uniqueStrings then old(stringCache)[value.value := cursor] else old(stringCache)
      ensures r.Err? && Closed() ==> r.error == Trap && value.Some? && old(cursor) + |value.value| + 8 > INT32_MAX
      ensures r.Err? && r.error != Trap ==> Valid() && Extends(contents, old(contents)) && Grows(placed, old(placed))
    {
      GrowsItself(placed);
      ExtendsItself(contents);
      if !(objectStart == -1 && vectorNumElems == -1) { return Err(ObjectIsNotClosed); }
      if value.None? { return Ok(0); }
      if options.uniqueStrings && value.value in stringCache {
        KnownString(contents, placed, stringCache, vTableOffsets, value.value);
        return Ok(stringCache[value.value]);
      }
      hide Linked, BytesAt, Extends, Aligned, Known, StringAt, FieldsSince, Grows, StringWrittenAt;
      r := PutString(value.value);
    }

    // Write a string and remember its place.
    method PutString(value: seq<byte>) returns (r: Result<int>)
      requires Valid() && Closed()
      modifies this`capacity, this`data, this`minalign, this`cursor, this`contents, this`placed, this`stringCache, data
      ensures data == old(data) || fresh(data)
      ensures r.Ok? ==>
        && Valid()
        && Extends(contents, old(contents)) && Grows(placed, old(placed)) && minalign >= old(minalign)
        && r.value == cursor <= old(cursor) + |value| + 8
        && StringAt(contents, r.value, value) && WordPlaced(placed, r.value)
        && StringWrittenAt(old(cursor), value, options.nullTerminatedUTF8, cursor)
        && stringCache == if options.uniqueStrings then old(stringCache)[value := cursor] else old(stringCache)
      ensures r.Err? ==> r.error == Trap && old(cursor) + |value| + 8 > INT32_MAX
    {
      hide Linked, BytesAt, Extends, Aligned, Known, StringAt, Words, Pad, IsAligned, Grows, FieldsSince;
      var written :- WriteString(value);
      StringEnds(old(cursor), value, options.nullTerminatedUTF8, cursor);
      KnownExtends(contents, old(contents), placed, old(placed), stringCache, vTableOffsets);
      var o :- ToInt32(cursor);
      if options.uniqueStrings {
        KnownWithString(contents, placed, stringCache, vTableOffsets, value, o);
        stringCache := stringCache[value := o];
      }
      r := Ok(o);
    }

    // Align so that the root offset will end the buffer, behind the identifier if any.
    method AlignPrefix(fileIdentifier: Option<seq<byte>>) returns (r: Result<()>)
      requires Shape()
      modifies this`capacity, this`data, this`minalign, this`cursor, this`contents, this`placed, data
      ensures Shape() && (data == old(data) || fresh(data))
      ensures minalign == old(minalign) && Extends(contents, old(contents))
      ensures Grows(placed, old(placed)) && (fileIdentifier.None? ==> placed == old(placed))
      ensures r == if fileIdentifier.Some? && |fileIdentifier.value| != 4 then Err(BadFileIdentifier) else Ok(())
      ensures r.Ok? ==> IsAligned(cursor + 4, minalign) && cursor == PrefixEnd(old(cursor), minalign, fileIdentifier.Some?)
      ensures r.Ok? && fileIdentifier.Some? ==> BytesAt(contents, cursor, fileIdentifier.value)
    {
      hide Linked, BytesAt, Extends, Aligned, Pad, InsertPad, IsAligned, Words;
      GrowsItself(placed);
      if fileIdentifier.None? {
        Align(minalign, 4);
        return Ok(());
      }
      Align(minalign, 8);
      if |fileIdentifier.value| != 4 { return Err(BadFileIdentifier); }
      ghost var base := contents;
      assert IsAligned(|base| + 4 + 4, minalign) by {
        assert IsAligned(old(cursor) + 8 + (|base| - old(cursor)), minalign);
      }
      ShapeAligned();
      WordsGrow(placed, cursor, minalign, 4, 1);
      InsertBytes(fileIdentifier.value);
      PrependedIsAt(fileIdentifier.value, base);
      ExtendsTransitive(contents, base, old(contents));
      r := Ok(());
    }

    // Finish the buffer with the offset of its root, and an identifier if one is given.
    // From then on the size of the output is a multiple of minalign, so a scalar placed
    // at a multiple of its stride from the end is at a multiple from the start as well.
    // The root offset counts from where the prefix ends.
    method Finish(offset: int, fileIdentifier: Option<seq<byte>>) returns (r: Result<()>)
      requires Valid()
      modifies this`capacity, this`data, this`minalign, this`cursor, this`contents, this`placed, data
      ensures data == old(data) || fresh(data)
      ensures old(cursor) > INT32_MAX ==> r == Err(Trap)
      ensures old(cursor) <= INT32_MAX && offset > old(cursor) ==> r == Err(OffsetIsTooBig)
      ensures offset <= old(cursor) <= INT32_MAX && !Closed() ==> r == Err(ObjectIsNotClosed)
      ensures offset <= old(cursor) <= INT32_MAX && Closed() && fileIdentifier.Some? && |fileIdentifier.value| != 4 ==>
        r == Err(BadFileIdentifier)
      ensures r.Ok? ==>
        && Valid() && Closed() && offset <= old(cursor)
        && Extends(contents, old(contents)) && Grows(placed, old(placed))
        && cursor <= old(cursor) + 18
      ensures r.Ok? ==> WordPlaced(placed, cursor) && (fileIdentifier.None? ==> placed == old(placed)[cursor := 4])
      ensures r.Ok? ==>
        && minalign == AtLeast(4, old(minalign)) && IsAligned(cursor, minalign) && AlignedFromStart(placed, cursor)
        && (var base := PrefixEnd(old(cursor), old(minalign), fileIdentifier.Some?);
            && cursor == SlotEnd(base) && base + 4 <= INT32_MAX && IsInt32(base + 4 - offset)
            && BytesAt(contents, cursor, LE32(base + 4 - offset))
            && (fileIdentifier.Some? ==> BytesAt(contents, base, fileIdentifier.value)))
      ensures r.Ok? && old(minalign) >= 4 ==>
        && cursor <= INT32_MAX && minalign == old(minalign) && IsSize(minalign) && IsInt32(cursor - offset)
        && BytesAt(contents, cursor, LE32(cursor - offset))
        && (fileIdentifier.Some? ==> BytesAt(contents, cursor - 4, fileIdentifier.value))
      ensures r.Err? && Closed() && 0 <= offset <= old(cursor) && (fileIdentifier.Some? ==> |fileIdentifier.value| == 4) ==>
        r.error == Trap && old(cursor) + 18 > INT32_MAX
      ensures r.Err? && r.error != Trap ==> Valid() && Extends(contents, old(contents)) && Grows(placed, old(placed))
    {
      hide Linked, BytesAt, Extends, Aligned, Pad, Known, LE32, IsAligned, Grows, AlignedFromStart, PrefixEnd, SlotEnd;
      GrowsItself(placed);
      ExtendsItself(contents);
      var here :- ToInt32(cursor);
      if !(offset <= here) { return Err(OffsetIsTooBig); }
      if !(objectStart == -1 && vectorNumElems == -1) { return Err(ObjectIsNotClosed); }
      var prefix := AlignPrefix(fileIdentifier);
      KnownExtends(contents, old(contents), placed, old(placed), stringCache, vTableOffsets);
      if prefix.Err? { return prefix; }
      RootIsInPlace(old(cursor), minalign, fileIdentifier.Some?);
      ghost var base, placedBefore := contents, placed;
      r := PutRoot(offset, fileIdentifier);
      if r.Ok? {
        ExtendsTransitive(contents, base, old(contents));
        GrowsTransitive(placed, placedBefore, old(placed));
      }
    }

    // A byte on a closed builder.
    method InsertOne(v: byte)
      requires Valid() && Closed()
      modifies this`capacity, this`data, this`minalign, this`cursor, this`contents, this`placed, data
      ensures Valid() && (data == old(data) || fresh(data))
      ensures cursor == old(cursor) + 1 && minalign == AtLeast(1, old(minalign)) && contents == [v] + old(contents)
      ensures BytesAt(contents, cursor, [v])
    {
      hide Linked, Extends, Aligned, Known, Grows, BytesAt, IsAligned;
      PadOfOne(cursor);
      Insert([v]);
      KnownExtends(contents, old(contents), placed, old(placed), stringCache, vTableOffsets);
    }

    // Write the root offset in front of the prefix.
    method PutRoot(offset: int, ghost fileIdentifier: Option<seq<byte>>) returns (r: Result<()>)
      requires Valid() && Closed() && IsAligned(cursor + 4, minalign)
      requires fileIdentifier.Some? ==> BytesAt(contents, cursor, fileIdentifier.value)
      modifies this`capacity, this`data, this`minalign, this`cursor, this`contents, this`placed, data
      ensures data == old(data) || fresh(data)
      ensures r == if IsInt32(old(cursor) + 4) && IsInt32(old(cursor) + 4 - offset) then Ok(()) else Err(Trap)
      ensures r.Ok? ==>
        && Valid() && Extends(contents, old(contents)) && Grows(placed, old(placed))
        && placed == old(placed)[cursor := 4] && minalign == AtLeast(4, old(minalign))
        && cursor == SlotEnd(old(cursor)) && IsAligned(cursor, minalign) && AlignedFromStart(placed, cursor)
        && BytesAt(contents, cursor, LE32(old(cursor) + 4 - offset))
        && (fileIdentifier.Some? ==> BytesAt(contents, old(cursor), fileIdentifier.value))
    {
      hide Linked, BytesAt, Extends, Aligned, Pad, Known, LE32, IsAligned, Grows, AlignedFromStart;
      var end :- ToInt32(cursor + 4);
      var v :- ToInt32(end - offset);
      Insert(LE32(v));
      KnownExtends(contents, old(contents), placed, old(placed), stringCache, vTableOffsets);
      if fileIdentifier.Some? {
        BytesAtExtends(contents, old(contents), |old(contents)|, fileIdentifier.value);
      }
      if old(minalign) >= 4 {
        AlignedBeforeRoot(old(cursor), old(minalign));
      }
      PlacedFromStart(placed, cursor, minalign);
      r := Ok(());
    }
  }

  lemma SlotBehindOne(cursor: nat)
    requires cursor == 1
    ensures SlotEnd(cursor) == 8
  {
  }

  lemma PadBehindOne(cursor: nat)
    requires cursor == 1
    ensures Pad(cursor, 0, 4) == 3
  {
  }

  lemma PrefixBehindOne(cursor: nat, minalign: nat)
    requires minalign == 1
    ensures PrefixEnd(cursor, minalign, false) == cursor
  {
  }

  // A builder to which one byte was added has less than four as its largest alignment. Its
  // root offset is then three too small: what is read there leads to distance four, and
  // not to the byte.
  method FinishMissesRoot(options: Options) returns (b: FlatBuffersBuilder, r: Result<()>)
    requires options.initialCapacity >= 1
    ensures b.Valid() && r.Ok? && BytesAt(b.contents, 1, [7]) && |b.contents| == 8
    ensures |b.contents| - FromLE32(b.contents[..4]) == 4
  {
    hide BytesAt, Extends, Known, Aligned, AlignedFromStart, LE32, FromLE32, Grows, WordPlaced, IsAligned, PrefixEnd, SlotEnd, Pad,
      FlatBuffersBuilder.Linked, FlatBuffersBuilder.Shape, FlatBuffersBuilder.Valid;
    b := new FlatBuffersBuilder(options);
    b.CursorIsLength();
    b.InsertOne(7);
    b.CursorIsLength();
    ghost var c, cursor, minalign := b.contents, b.cursor, b.minalign;
    SlotBehindOne(cursor);
    PadBehindOne(cursor);
    PrefixBehindOne(cursor, minalign);
    r := b.Finish(1, None);
    BytesAtExtends(b.contents, c, 1, [7]);
    b.CursorIsLength();
    RootIsFound(b.contents, 1, cursor, minalign, false);
  }
}
