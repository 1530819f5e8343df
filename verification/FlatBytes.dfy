// Little-endian scalars, and byte strings addressed by their distance from the end.
//
// A builder fills its buffer from the back, so the contents only ever grow at the front.
// An offset handed out by the builder is a distance from the end: offset o names the byte
// c[|c| - o] of the contents c.
module FlatBytes {
  import opened ByteOrder
  import opened Wrappers
  import opened PowersOfTwo

  const INT16_MAX := 32767
  const INT32_MAX := 2147483647

  predicate IsInt16(v: int) { -32768 <= v <= 32767 }

  predicate IsInt32(v: int) { -2147483648 <= v <= 2147483647 }

  // Swift's Int16(v) and Int32(v) trap when v does not fit.
  function ToInt16(v: int): Result<int> { if IsInt16(v) then Ok(v) else Err(Trap) }

  function ToInt32(v: int): Result<int> { if IsInt32(v) then Ok(v) else Err(Trap) }

  // The conversions trap exactly for what sixteen and thirty-two bits cannot hold.
  lemma ConversionsFit(v: int)
    ensures ToInt16(v) == (if -(Pow2(15) as int) <= v < Pow2(15) then Ok(v) else Err(Trap))
    ensures ToInt32(v) == (if -(Pow2(31) as int) <= v < Pow2(31) then Ok(v) else Err(Trap))
  {
    hide Pow2;
    Pow2Of4();
    Pow2Adds(4, 4);
    Pow2Adds(8, 8);
    Pow2Adds(16, 16);
    Pow2Next(15);
    Pow2Next(31);
  }

  function LE16(v: int): (r: seq<byte>)
    requires IsInt16(v)
    ensures |r| == 2
  {
    LittleEndian(if v < 0 then v + 65536 else v, 2)
  }

  function FromLE16(b: seq<byte>): int
    requires |b| == 2
  {
    var u := FromLittleEndian(b);
    if u >= 32768 then u - 65536 else u
  }

  lemma LE16RoundTrip(v: int)
    requires IsInt16(v)
    ensures FromLE16(LE16(v)) == v
  {
    LittleEndianRoundTrip(if v < 0 then v + 65536 else v, 2);
  }

  function LE32(v: int): (r: seq<byte>)
    requires IsInt32(v)
    ensures |r| == 4
  {
    LittleEndian(if v < 0 then v + 0x1_0000_0000 else v, 4)
  }

  function FromLE32(b: seq<byte>): int
    requires |b| == 4
  {
    var u := FromLittleEndian(b);
    if u >= 0x8000_0000 then u - 0x1_0000_0000 else u
  }

  lemma FromLE32Range(b: seq<byte>)
    requires |b| == 4
    ensures IsInt32(FromLE32(b))
  {
    FromLittleEndianRange(b);
    assert Power256(4) == 0x1_0000_0000;
  }

  lemma LE32RoundTrip(v: int)
    requires IsInt32(v)
    ensures FromLE32(LE32(v)) == v
  {
    LittleEndianRoundTrip(if v < 0 then v + 0x1_0000_0000 else v, 4);
  }

  // d is c with bytes added at the front: whatever c held, d holds at the same distance
  // from the end.
  ghost predicate Extends(d: seq<byte>, c: seq<byte>) {
    |c| <= |d| && d[|d| - |c|..] == c
  }

  // The bytes v start at distance o from the end of c.
  ghost predicate BytesAt(c: seq<byte>, o: int, v: seq<byte>) {
    |v| <= o <= |c| && c[|c| - o..|c| - o + |v|] == v
  }

  lemma ExtendsItself(c: seq<byte>)
    ensures Extends(c, c)
  {
  }

  lemma ExtendsLonger(d: seq<byte>, c: seq<byte>)
    requires Extends(d, c)
    ensures |c| <= |d|
  {
  }

  lemma ExtendsTransitive(e: seq<byte>, d: seq<byte>, c: seq<byte>)
    requires Extends(e, d) && Extends(d, c)
    ensures Extends(e, c)
  {
    assert e[|e| - |c|..] == e[|e| - |d|..][|d| - |c|..];
  }

  lemma PrependedIsAt(v: seq<byte>, c: seq<byte>)
    ensures Extends(v + c, c) && BytesAt(v + c, |v| + |c|, v)
  {
  }

  lemma ByteOfExtended(d: seq<byte>, c: seq<byte>, j: nat)
    requires Extends(d, c) && j < |c|
    ensures |c| <= |d| && d[|d| - |c| + j] == c[j]
  {
    assert d[|d| - |c|..][j] == c[j];
  }

  lemma ByteOf(c: seq<byte>, o: int, v: seq<byte>, i: nat)
    requires BytesAt(c, o, v) && i < |v|
    ensures c[|c| - o + i] == v[i]
  {
    assert c[|c| - o..|c| - o + |v|][i] == v[i];
  }

  lemma BytesAtIs(c: seq<byte>, o: int, v: seq<byte>)
    requires |v| <= o <= |c| && forall i :: 0 <= i < |v| ==> c[|c| - o + i] == v[i]
    ensures BytesAt(c, o, v)
  {
    assert |c[|c| - o..|c| - o + |v|]| == |v|;
  }

  lemma BytesAtExtends(d: seq<byte>, c: seq<byte>, o: int, v: seq<byte>)
    requires Extends(d, c) && BytesAt(c, o, v)
    ensures BytesAt(d, o, v)
  {
    ExtendsLonger(d, c);
    forall i | 0 <= i < |v| ensures d[|d| - o + i] == v[i] {
      ByteOf(c, o, v, i);
      ByteOfExtended(d, c, |c| - o + i);
    }
    BytesAtIs(d, o, v);
  }

  lemma BytesAtRestricts(d: seq<byte>, c: seq<byte>, o: int, v: seq<byte>)
    requires Extends(d, c) && BytesAt(d, o, v) && o <= |c|
    ensures BytesAt(c, o, v)
  {
    ExtendsLonger(d, c);
    forall i | 0 <= i < |v| ensures c[|c| - o + i] == v[i] {
      ByteOf(d, o, v, i);
      ByteOfExtended(d, c, |c| - o + i);
    }
    BytesAtIs(c, o, v);
  }

  lemma ByteDiffers(c: seq<byte>, o: int, v: seq<byte>, i: nat)
    requires i < |v| && i < o <= |c| && c[|c| - o + i] != v[i]
    ensures !BytesAt(c, o, v)
  {
    if BytesAt(c, o, v) {
      ByteOf(c, o, v, i);
    }
  }

  // Bytes w written between pre and c sit right before c, and pre before them.
  lemma SlotIsAt(pre: seq<byte>, w: seq<byte>, c: seq<byte>)
    ensures Extends(pre + w + c, c)
    ensures BytesAt(pre + w + c, |w| + |c|, w) && BytesAt(pre + w + c, |pre| + |w| + |c|, pre)
  {
    var d := pre + w + c;
    assert d[|pre|..|pre| + |w|] == w;
    assert d[..|pre|] == pre;
    assert d[|pre| + |w|..] == c;
  }

  // A part of a byte string found somewhere is found at the matching place.
  lemma BytesAtPart(c: seq<byte>, o: int, v: seq<byte>, from: nat, to: nat)
    requires BytesAt(c, o, v) && from <= to <= |v|
    ensures BytesAt(c, o - from, v[from..to])
  {
    var at, w := |c| - o, v[from..to];
    forall i | 0 <= i < |w| ensures c[at + from + i] == w[i] {
      ByteOf(c, o, v, from + i);
    }
    BytesAtIs(c, o - from, w);
  }

  predicate IsSize(n: int) { n == 1 || n == 2 || n == 4 || n == 8 }

  predicate IsAligned(p: int, size: int) {
    if size == 8 then p % 8 == 0 else if size == 4 then p % 4 == 0 else if size == 2 then p % 2 == 0 else size == 1
  }

  // The padding that brings cursor + additional to a multiple of size;
  // PadIsTwosComplementMask says how machine words compute it.
  function Pad(cursor: nat, additional: nat, size: nat): (pad: nat)
    requires IsSize(size)
    ensures pad < size && IsAligned(cursor + additional + pad, size)
  {
    var x := cursor + additional;
    if size == 8 then PadTo8(x) else if size == 4 then PadTo4(x) else if size == 2 then PadTo2(x) else 0
  }

  function PadTo8(x: nat): (pad: nat)
    ensures pad < 8 && (x + pad) % 8 == 0
  {
    (-(x as int)) % 8
  }

  function PadTo4(x: nat): (pad: nat)
    ensures pad < 4 && (x + pad) % 4 == 0
  {
    (-(x as int)) % 4
  }

  function PadTo2(x: nat): (pad: nat)
    ensures pad < 2 && (x + pad) % 2 == 0
  {
    (-(x as int)) % 2
  }

  lemma FourAligned(cursor: nat)
    requires IsAligned(cursor, 4)
    ensures IsAligned(cursor + 4, 4) && IsAligned(cursor, 2) && Pad(cursor, 0, 4) == 0
  {
  }

  // Once the end is aligned, distances from the end and from the start agree modulo any
  // smaller alignment.
  lemma AlignedDifference(total: int, p: int, size: int, minalign: int)
    requires IsSize(size) && IsSize(minalign) && size <= minalign
    requires IsAligned(total, minalign) && IsAligned(p, size)
    ensures IsAligned(total - p, size)
  {
    hide IsAligned;
    var m := Multiple(total, minalign);
    var k := Multiple(p, size);
    if size == 2 {
      MultipleAligned(if minalign == 2 then m - k else if minalign == 4 then 2 * m - k else 4 * m - k, 2);
    } else if size == 4 {
      MultipleAligned(if minalign == 4 then m - k else 2 * m - k, 4);
    } else if size == 8 {
      MultipleAligned(m - k, 8);
    } else {
      MultipleAligned(total - p, 1);
    }
  }

  lemma Multiple(x: int, size: int) returns (k: int)
    requires IsSize(size) && IsAligned(x, size)
    ensures x == size * k
  {
    k := if size == 8 then x / 8 else if size == 4 then x / 4 else if size == 2 then x / 2 else x;
  }

  lemma MultipleAligned(k: int, size: int)
    requires IsSize(size)
    ensures IsAligned(size * k, size)
  {
    if size == 8 {
      assert (8 * k) % 8 == 0;
    } else if size == 4 {
      assert (4 * k) % 4 == 0;
    } else if size == 2 {
      assert (2 * k) % 2 == 0;
    }
  }

  lemma WordsAligned(cursor: nat, count: nat)
    requires IsAligned(cursor + count * 4, 4)
    ensures forall k: nat :: Pad(cursor + 4 * k, 0, 4) == 0
  {
  }

  lemma AlignedBeforeRoot(cursor: nat, minalign: nat)
    requires IsSize(minalign) && minalign >= 4 && IsAligned(cursor + 4, minalign)
    ensures Pad(cursor, 0, 4) == 0
  {
    var k := Multiple(cursor + 4, minalign);
    MultipleAligned(if minalign == 4 then k - 1 else 2 * k - 1, 4);
    PadOfAligned(cursor, 4);
  }

  lemma PadOfAligned(cursor: nat, size: nat)
    requires IsSize(size) && IsAligned(cursor, size)
    ensures Pad(cursor, 0, size) == 0
  {
  }

  // Machine words as their bits, the lowest first.
  function Bits(u: nat, n: nat): (r: seq<bool>)
    ensures |r| == n
    decreases n
  {
    if n == 0 then [] else [u % 2 == 1] + Bits(u / 2, n - 1)
  }

  function Number(w: seq<bool>): nat {
    if w == [] then 0 else (if w[0] then 1 else 0) + 2 * Number(w[1..])
  }

  function Complement(w: seq<bool>): (r: seq<bool>)
    ensures |r| == |w|
  {
    if w == [] then [] else [!w[0]] + Complement(w[1..])
  }

  function And(w: seq<bool>, v: seq<bool>): (r: seq<bool>)
    requires |w| == |v|
    ensures |r| == |w|
  {
    if w == [] then [] else [w[0] && v[0]] + And(w[1..], v[1..])
  }

  lemma {:induction false} ComplementIs(u: nat, n: nat)
    requires u < Pow2(n)
    ensures Number(Complement(Bits(u, n))) == Pow2(n) - 1 - u
    decreases n
  {
    if n > 0 {
      ComplementIs(u / 2, n - 1);
    }
  }

  lemma {:induction false} AndWithZero(u: nat, n: nat)
    ensures Number(And(Bits(u, n), Bits(0, n))) == 0
    decreases n
  {
    if n > 0 {
      AndWithZero(u / 2, n - 1);
    }
  }

  // Masking off one more low bit.
  lemma AndStep(u: nat, mask: nat, n: nat)
    requires n > 0 && mask % 2 == 1
    ensures Number(And(Bits(u, n), Bits(mask, n))) == u % 2 + 2 * Number(And(Bits(u / 2, n - 1), Bits(mask / 2, n - 1)))
  {
    assert And(Bits(u, n), Bits(mask, n))[1..] == And(Bits(u / 2, n - 1), Bits(mask / 2, n - 1));
  }

  // The low bits that masking with size - 1 keeps, as a number.
  function LowBits(u: nat, size: nat): nat
    requires IsSize(size)
  {
    if size == 1 then 0 else u % 2 + 2 * LowBits(u / 2, size / 2)
  }

  lemma {:induction false} MaskKeepsLowBits(u: nat, size: nat, n: nat)
    requires IsSize(size) && size <= Pow2(n)
    ensures Number(And(Bits(u, n), Bits(size - 1, n))) == LowBits(u, size)
    decreases size
  {
    hide Bits, Number, And;
    if size == 1 {
      AndWithZero(u, n);
    } else {
      AndStep(u, size - 1, n);
      MaskKeepsLowBits(u / 2, size / 2, n - 1);
    }
  }

  // The low bits of -x, taken from any larger multiple of size, are the padding.
  lemma LowBitsOfNegated(x: nat, k: nat, size: nat)
    requires IsSize(size) && x < size * k
    ensures LowBits(size * k - x, size) == Pad(x, 0, size)
  {
    var pad := Pad(x, 0, size);
    var q := Multiple(x + pad, size);
    LowBitsBelow(size, k - q, pad);
  }

  lemma {:induction false} LowBitsBelow(size: nat, m: nat, r: nat)
    requires IsSize(size) && r < size
    ensures LowBits(size * m + r, size) == r
  {
    if size == 8 {
      Halves(4 * m, r);
      LowBitsBelow(4, m, r / 2);
    } else if size == 4 {
      Halves(2 * m, r);
      LowBitsBelow(2, m, r / 2);
    } else if size == 2 {
      Halves(m, r);
    }
  }

  lemma Halves(m: nat, r: nat)
    ensures (2 * m + r) % 2 == r % 2 && (2 * m + r) / 2 == m + r / 2
  {
  }

  // On words of n bits, complementing, adding one and masking with size - 1 gives the
  // padding.
  lemma PadIsTwosComplementMask(cursor: nat, additional: nat, size: nat, n: nat)
    requires IsSize(size) && n >= 3 && cursor + additional < Pow2(n)
    ensures
      var negated := Number(Complement(Bits(cursor + additional, n))) + 1;
      Number(And(Bits(negated, n), Bits(size - 1, n))) == Pad(cursor, additional, size)
  {
    hide Bits, Number, Complement, And, Pow2, LowBits;
    var x := cursor + additional;
    ComplementIs(x, n);
    var k := Pow2OfThree(n);
    MaskKeepsLowBits(8 * k - x, size, n);
    LowBitsOfNegated(x, if size == 8 then k else if size == 4 then 2 * k else if size == 2 then 4 * k else 8 * k, size);
  }

  lemma Pow2OfThree(n: nat) returns (k: nat)
    requires n >= 3
    ensures Pow2(n) == 8 * k && k > 0
  {
    k := Pow2(n - 3);
    assert Pow2(n - 2) == 2 * k && Pow2(n - 1) == 2 * Pow2(n - 2) && Pow2(n) == 2 * Pow2(n - 1);
  }
}
