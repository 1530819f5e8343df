// The reassembly bitmap: one bit for each byte of a message body.
module DtlsBitmap {
  // The k low bits set: (1 << k) - 1 as an eight-bit value.
  function Low(k: nat): bv8
    requires k <= 8
  {
    if k == 0 then 0x00 else if k == 1 then 0x01 else if k == 2 then 0x03 else
    if k == 3 then 0x07 else if k == 4 then 0x0f else if k == 5 then 0x1f else
    if k == 6 then 0x3f else if k == 7 then 0x7f else 0xff
  }

  function Mask(j: nat): bv8
    requires j < 8
  {
    if j == 0 then 0x01 else if j == 1 then 0x02 else if j == 2 then 0x04 else if j == 3 then 0x08 else
    if j == 4 then 0x10 else if j == 5 then 0x20 else if j == 6 then 0x40 else 0x80
  }

  predicate Bit(b: bv8, j: nat)
    requires j < 8
  {
    b & Mask(j) != 0
  }

  // Bits start, inclusive, to end, exclusive.
  function BitRange(start: nat, end: nat): bv8
    requires start <= 8 && end <= 8
  {
    !Low(start) & Low(end)
  }

  lemma BitOfLow(k: nat, j: nat)
    requires k <= 8 && j < 8
    ensures Bit(Low(k), j) <==> j < k
  {
  }

  lemma BitOfRange(start: nat, end: nat, j: nat)
    requires start <= 8 && end <= 8 && j < 8
    ensures Bit(BitRange(start, end), j) <==> start <= j < end
  {
    hide Bit, Low, Mask;
    BitOfLow(start, j);
    BitOfLow(end, j);
    BitOfAnd(!Low(start), Low(end), j);
    BitOfNot(Low(start), j);
  }

  lemma BitOfAnd(a: bv8, b: bv8, j: nat)
    requires j < 8
    ensures Bit(a & b, j) <==> Bit(a, j) && Bit(b, j)
  {
  }

  lemma BitOfOr(a: bv8, b: bv8, j: nat)
    requires j < 8
    ensures Bit(a | b, j) <==> Bit(a, j) || Bit(b, j)
  {
  }

  lemma BitOfNot(a: bv8, j: nat)
    requires j < 8
    ensures Bit(!a, j) <==> !Bit(a, j)
  {
  }

  // A byte is determined by its bits.
  lemma SameBits(a: bv8, b: bv8)
    requires forall j: nat :: j < 8 ==> (Bit(a, j) <==> Bit(b, j))
    ensures a == b
  {
    assert Bit(a, 0) <==> Bit(b, 0);
    assert Bit(a, 1) <==> Bit(b, 1);
    assert Bit(a, 2) <==> Bit(b, 2);
    assert Bit(a, 3) <==> Bit(b, 3);
    assert Bit(a, 4) <==> Bit(b, 4);
    assert Bit(a, 5) <==> Bit(b, 5);
    assert Bit(a, 6) <==> Bit(b, 6);
    assert Bit(a, 7) <==> Bit(b, 7);
  }

  // Whether byte i of the body is marked.
  predicate Marked(bitmap: seq<bv8>, i: nat) {
    i / 8 < |bitmap| && Bit(bitmap[i / 8], i % 8)
  }

  function BitmaskLength(msgLen: nat): nat { (msgLen + 7) / 8 }

  // Nothing at or past the end of the message is marked.
  ghost predicate Bounded(bitmap: seq<bv8>, msgLen: nat) {
    |bitmap| == BitmaskLength(msgLen) && forall i: nat :: msgLen <= i ==> !Marked(bitmap, i)
  }

  lemma OrRange(b: bv8, start: nat, end: nat)
    requires start <= 8 && end <= 8
    ensures forall j: nat :: j < 8 ==> (Bit(b | BitRange(start, end), j) <==> Bit(b, j) || start <= j < end)
  {
    forall j: nat | j < 8 ensures Bit(b | BitRange(start, end), j) <==> Bit(b, j) || start <= j < end {
      BitOfOr(b, BitRange(start, end), j);
      BitOfRange(start, end, j);
    }
  }

  lemma FullByte(b: bv8)
    ensures b == 0xff <==> forall j: nat :: j < 8 ==> Bit(b, j)
  {
    if b == 0xff {
      forall j: nat | j < 8 ensures Bit(b, j) { BitOfLow(8, j); }
    } else if forall j: nat :: j < 8 ==> Bit(b, j) {
      forall j: nat | j < 8 ensures Bit(b, j) <==> Bit(Low(8), j) { BitOfLow(8, j); }
      SameBits(b, Low(8));
    }
  }

  // A byte without bits from end on is the range [0, end) exactly when it has all bits
  // below end.
  lemma FullTail(b: bv8, end: nat)
    requires end < 8 && forall j: nat :: end <= j < 8 ==> !Bit(b, j)
    ensures b == BitRange(0, end) <==> forall j: nat :: j < end ==> Bit(b, j)
  {
    if b == BitRange(0, end) {
      forall j: nat | j < end ensures Bit(b, j) { BitOfRange(0, end, j); }
    } else if forall j: nat :: j < end ==> Bit(b, j) {
      forall j: nat | j < 8 ensures Bit(b, j) <==> Bit(BitRange(0, end), j) { BitOfRange(0, end, j); }
      SameBits(b, BitRange(0, end));
    }
  }

  // Byte k of the bitmap gained exactly the bits of [start, end) that fall in it.
  ghost predicate ByteUnion(now: bv8, was: bv8, k: nat, start: nat, end: nat) {
    forall j: nat :: j < 8 ==> (Bit(now, j) <==> Bit(was, j) || start <= 8 * k + j < end)
  }

  lemma BytesUnion(now: seq<bv8>, was: seq<bv8>, start: nat, end: nat)
    requires |now| == |was| && end <= 8 * |was|
    requires forall k :: 0 <= k < |was| ==> ByteUnion(now[k], was[k], k, start, end)
    ensures forall i: nat :: Marked(now, i) <==> Marked(was, i) || start <= i < end
  {
    hide Bit;
    forall i: nat ensures Marked(now, i) <==> Marked(was, i) || start <= i < end {
      assert i == 8 * (i / 8) + i % 8;
      if i / 8 < |was| {
        assert ByteUnion(now[i / 8], was[i / 8], i / 8, start, end);
      }
    }
  }

  lemma SameByte(b: bv8, k: nat, start: nat, end: nat)
    requires end <= 8 * k || 8 * k + 8 <= start
    ensures ByteUnion(b, b, k, start, end)
  {
    hide Bit;
  }

  lemma WholeByte(b: bv8, k: nat, start: nat, end: nat)
    requires start <= 8 * k && 8 * k + 8 <= end
    ensures ByteUnion(0xff, b, k, start, end)
  {
    FullByte(0xff);
    hide Bit;
  }

  lemma PartByte(b: bv8, k: nat, start: nat, end: nat, from: nat, to: nat)
    requires from <= 8 && to <= 8 && start < end
    requires from == if start <= 8 * k then 0 else start - 8 * k
    requires to == if 8 * k + 8 <= end then 8 else end - 8 * k
    ensures ByteUnion(b | BitRange(from, to), b, k, start, end)
  {
    OrRange(b, from, to);
    hide Bit, BitRange;
  }

  // What setting a range makes of byte k: the first and the last byte gain a part, the
  // bytes between become full.
  function SetByte(b: bv8, k: nat, start: nat, end: nat): bv8 {
    var first, last := start / 8, end / 8;
    if k < first || last < k || (k == last && first < last && end % 8 == 0) then b else
    if first < k < last then 0xff else
    b | BitRange(if k == first then start % 8 else 0, if k == last then end % 8 else 8)
  }

  lemma SetByteUnites(b: bv8, k: nat, start: nat, end: nat)
    requires start < end
    ensures ByteUnion(SetByte(b, k, start, end), b, k, start, end)
  {
    hide ByteUnion, BitRange;
    var first, last := start / 8, end / 8;
    if k < first || last < k || (k == last && first < last && end % 8 == 0) {
      SameByte(b, k, start, end);
    } else if first < k < last {
      WholeByte(b, k, start, end);
    } else {
      PartByte(b, k, start, end, if k == first then start % 8 else 0, if k == last then end % 8 else 8);
    }
  }

  lemma RangeSet(now: seq<bv8>, was: seq<bv8>, start: nat, end: nat)
    requires |now| == |was| && start < end <= 8 * |was|
    requires forall k :: 0 <= k < |was| ==> now[k] == SetByte(was[k], k, start, end)
    ensures forall i: nat :: Marked(now, i) <==> Marked(was, i) || start <= i < end
  {
    hide ByteUnion, Marked, SetByte;
    forall k | 0 <= k < |was| ensures ByteUnion(now[k], was[k], k, start, end) {
      SetByteUnites(was[k], k, start, end);
    }
    BytesUnion(now, was, start, end);
  }

  // Set the bits start, inclusive, to end, exclusive.
  method SetRange(bitmap: array<bv8>, start: nat, end: nat)
    requires start < end <= 8 * bitmap.Length
    modifies bitmap
    ensures forall i: nat :: Marked(bitmap[..], i) <==> Marked(old(bitmap[..]), i) || start <= i < end
  {
    hide Bit, BitRange, Marked;
    ghost var was := bitmap[..];
    var first, last := start / 8, end / 8;
    if first == last {
      bitmap[first] := bitmap[first] | BitRange(start % 8, end % 8);
    } else {
      bitmap[first] := bitmap[first] | BitRange(start % 8, 8);
      for i := first + 1 to last
        invariant forall k :: 0 <= k < bitmap.Length ==> bitmap[k] == if k < i then SetByte(was[k], k, start, end) else was[k]
      {
        bitmap[i] := 0xff;
      }
      if end % 8 != 0 {
        bitmap[last] := bitmap[last] | BitRange(0, end % 8);
      }
    }
    RangeSet(bitmap[..], was, start, end);
  }

  ghost predicate AllMarked(bitmap: seq<bv8>, msgLen: nat) {
    forall i: nat :: i < msgLen ==> Marked(bitmap, i)
  }

  lemma UnmarkedByte(bitmap: seq<bv8>, msgLen: nat, k: nat)
    requires k < |bitmap| && 8 * k + 8 <= msgLen && AllMarked(bitmap, msgLen)
    ensures bitmap[k] == 0xff
  {
    forall j: nat | j < 8 ensures Bit(bitmap[k], j) {
      assert Marked(bitmap, 8 * k + j);
      assert (8 * k + j) / 8 == k && (8 * k + j) % 8 == j;
    }
    FullByte(bitmap[k]);
  }

  lemma MarkedBit(bitmap: seq<bv8>, k: nat, j: nat)
    requires k < |bitmap| && j < 8
    ensures Marked(bitmap, 8 * k + j) <==> Bit(bitmap[k], j)
  {
    assert (8 * k + j) / 8 == k && (8 * k + j) % 8 == j;
  }

  lemma TailByte(bitmap: seq<bv8>, msgLen: nat)
    requires Bounded(bitmap, msgLen) && msgLen % 8 != 0
    ensures bitmap[msgLen / 8] == BitRange(0, msgLen % 8) <==>
            forall i: nat :: 8 * (msgLen / 8) <= i < msgLen ==> Marked(bitmap, i)
  {
    var k, e := msgLen / 8, msgLen % 8;
    hide Bit, BitRange, Marked;
    forall j: nat | e <= j < 8 ensures !Bit(bitmap[k], j) {
      MarkedBit(bitmap, k, j);
    }
    FullTail(bitmap[k], e);
    if bitmap[k] == BitRange(0, e) {
      forall i: nat | 8 * k <= i < msgLen ensures Marked(bitmap, i) {
        MarkedBit(bitmap, k, i - 8 * k);
      }
    } else if forall i: nat :: 8 * k <= i < msgLen ==> Marked(bitmap, i) {
      forall j: nat | j < e ensures Bit(bitmap[k], j) {
        MarkedBit(bitmap, k, j);
      }
    }
  }

  // Whether every byte of the message is marked.
  method IsComplete(bitmap: array<bv8>, msgLen: nat) returns (complete: bool)
    requires Bounded(bitmap[..], msgLen)
    ensures complete <==> AllMarked(bitmap[..], msgLen)
  {
    hide Bit, BitRange;
    for i := 0 to msgLen / 8
      invariant forall k :: 0 <= k < i ==> bitmap[k] == 0xff
    {
      if bitmap[i] != 0xff {
        assert !AllMarked(bitmap[..], msgLen) by {
          if AllMarked(bitmap[..], msgLen) { UnmarkedByte(bitmap[..], msgLen, i); }
        }
        return false;
      }
    }
    FullByte(0xff);
    if msgLen % 8 != 0 {
      TailByte(bitmap[..], msgLen);
      if bitmap[msgLen / 8] != BitRange(0, msgLen % 8) {
        return false;
      }
    }
    forall i: nat | i < msgLen ensures Marked(bitmap[..], i) {
      if i < 8 * (msgLen / 8) {
        assert bitmap[i / 8] == 0xff;
        assert Bit(0xff, i % 8);
      }
    }
    complete := true;
  }
}
