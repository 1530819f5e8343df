// Base 128 varints, zigzag and fixed-width integers (Protocol Buffers Encoding, sections
// "Base 128 Varints", "Signed Integers" and "Non-varint Numbers").
module NanopbWire {
  import opened Wrappers
  import opened PowersOfTwo

  const MAX_VARINT_BYTES := 10
  const MAX_VARINT32_BYTES := 5

  // What reading yields: a value and what is left of the stream, or a failure and what
  // is left then.
  datatype Read<T> = Got(value: T, rest: seq<byte>) | Failed(rest: seq<byte>)

  // Seven bits a byte, low ones first; all bytes but the last have their top bit set.
  function Varint(n: nat): (r: seq<byte>)
    ensures r != []
  {
    if n < 128 then [n] else [n % 128 + 128] + Varint(n / 128)
  }

  // Read a varint of at most limit bytes. Running past the limit fails before the next
  // byte is read.
  function ReadVarint(s: seq<byte>, limit: nat): (r: Read<nat>)
    ensures r.Got? ==> |r.rest| < |s| && r.rest == s[|s| - |r.rest|..]
    ensures r.Failed? ==> |r.rest| <= |s|
    decreases limit
  {
    if limit == 0 || s == [] then Failed(s) else
    if s[0] < 128 then Got(s[0] as nat, s[1..]) else
    var tail := ReadVarint(s[1..], limit - 1);
    if tail.Failed? then tail else Got((s[0] as nat) - 128 + 128 * tail.value, tail.rest)
  }

  // The bits that do not fit are shifted out.
  function DecodeVarint(s: seq<byte>): (r: Read<nat>)
    ensures r.Got? ==> r.value < TWO_64 && |r.rest| < |s|
  {
    var r := ReadVarint(s, MAX_VARINT_BYTES);
    if r.Got? then Got(r.value % TWO_64, r.rest) else r
  }

  function DecodeVarint32(s: seq<byte>): (r: Read<nat>)
    ensures r.Got? ==> r.value < TWO_32 && |r.rest| < |s|
  {
    var r := ReadVarint(s, MAX_VARINT32_BYTES);
    if r.Got? then Got(r.value % TWO_32, r.rest) else r
  }

  function Pow128(k: nat): (r: nat)
    ensures r > 0
  {
    if k == 0 then 1 else 128 * Pow128(k - 1)
  }

  // The number of bytes of a varint.
  lemma {:induction false} VarintLength(n: nat)
    ensures |Varint(n)| == if n == 0 then 1 else (BitLength(n) + 6) / 7
  {
    BitsOfQuotient(n);
    if n >= 128 {
      VarintLength(n / 128);
    }
  }

  lemma BitsOfQuotient(n: nat)
    ensures n >= 128 ==> BitLength(n) == 7 + BitLength(n / 128)
    ensures 0 < n < 128 ==> 1 <= BitLength(n) <= 7
  {
    var a := n / 2;
    var b := a / 2;
    var c := b / 2;
    var d := c / 2;
    var e := d / 2;
    var f := e / 2;
    assert f / 2 == n / 128;
    assert BitLength(n) == if n == 0 then 0 else 1 + BitLength(a);
    assert BitLength(a) == if a == 0 then 0 else 1 + BitLength(b);
    assert BitLength(b) == if b == 0 then 0 else 1 + BitLength(c);
    assert BitLength(c) == if c == 0 then 0 else 1 + BitLength(d);
    assert BitLength(d) == if d == 0 then 0 else 1 + BitLength(e);
    assert BitLength(e) == if e == 0 then 0 else 1 + BitLength(f);
    assert BitLength(f) == if f == 0 then 0 else 1 + BitLength(f / 2);
  }

  lemma {:induction false} VarintFits(n: nat, k: nat)
    requires k > 0
    ensures n < Pow128(k) <==> |Varint(n)| <= k
    decreases k
  {
    if k == 1 {
      assert Pow128(1) == 128;
    } else if n >= 128 {
      VarintFits(n / 128, k - 1);
    } else {
      assert Pow128(k) >= 128 * Pow128(k - 1) >= 128;
    }
  }

  lemma Pow128Values()
    ensures Pow128(5) == 0x8_0000_0000 && Pow128(10) == 0x40_0000_0000_0000_0000
  {
    assert Pow128(1) == 128 && Pow128(2) == 0x4000 && Pow128(3) == 0x20_0000;
    assert Pow128(4) == 0x1000_0000 && Pow128(5) == 0x8_0000_0000;
    assert Pow128(6) == 0x400_0000_0000 && Pow128(7) == 0x2_0000_0000_0000;
    assert Pow128(8) == 0x100_0000_0000_0000 && Pow128(9) == 0x8000_0000_0000_0000;
    assert Pow128(10) == 0x40_0000_0000_0000_0000;
  }

  lemma {:induction false} VarintReadsBack(n: nat, limit: nat, rest: seq<byte>)
    requires |Varint(n)| <= limit
    ensures ReadVarint(Varint(n) + rest, limit) == Got(n, rest)
    decreases n
  {
    var s := Varint(n) + rest;
    if n < 128 {
      assert s[1..] == rest;
    } else {
      assert s[1..] == Varint(n / 128) + rest;
      VarintReadsBack(n / 128, limit - 1, rest);
    }
  }

  // A sixty-four-bit value takes at most ten bytes, and reading takes exactly its bytes
  // and gives it back.
  lemma VarintRoundTrip(n: nat, rest: seq<byte>)
    requires n < TWO_64
    ensures |Varint(n)| <= MAX_VARINT_BYTES
    ensures DecodeVarint(Varint(n) + rest) == Got(n, rest)
  {
    hide Varint, ReadVarint, Pow128;
    Pow128Values();
    VarintFits(n, MAX_VARINT_BYTES);
    VarintReadsBack(n, MAX_VARINT_BYTES, rest);
  }

  lemma Varint32RoundTrip(n: nat, rest: seq<byte>)
    requires n < TWO_32
    ensures |Varint(n)| <= MAX_VARINT32_BYTES
    ensures DecodeVarint32(Varint(n) + rest) == Got(n, rest) == DecodeVarint(Varint(n) + rest)
  {
    hide Varint, ReadVarint, Pow128;
    Pow128Values();
    VarintFits(n, MAX_VARINT32_BYTES);
    VarintReadsBack(n, MAX_VARINT32_BYTES, rest);
    VarintRoundTrip(n, rest);
  }

  // Two's complement.
  function Unsigned64(v: int): (u: nat)
    requires -0x8000_0000_0000_0000 <= v < 0x8000_0000_0000_0000
    ensures u < TWO_64
  {
    if v < 0 then v + TWO_64 else v
  }

  function Signed64(u: nat): (v: int)
    requires u < TWO_64
    ensures -0x8000_0000_0000_0000 <= v < 0x8000_0000_0000_0000
  {
    if u < 0x8000_0000_0000_0000 then u else u - TWO_64
  }

  function Not64(u: nat): nat
    requires u < TWO_64
  {
    TWO_64 - 1 - u
  }

  predicate IsInt64(v: int) { -0x8000_0000_0000_0000 <= v < 0x8000_0000_0000_0000 }

  function ZigZag(v: int): (u: nat)
    requires IsInt64(v)
    ensures u < TWO_64
  {
    var doubled := Unsigned64(v) * 2 % TWO_64;
    if v < 0 then Not64(doubled) else doubled
  }

  function UnZigZag(u: nat): (v: int)
    requires u < TWO_64
    ensures IsInt64(v)
  {
    if u % 2 == 1 then Signed64(Not64(u / 2)) else Signed64(u / 2)
  }

  // Zigzag lists the integers 0, -1, 1, -2, ... and is a bijection of sixty-four-bit
  // values.
  lemma ZigZagRoundTrip(v: int)
    requires IsInt64(v)
    ensures ZigZag(v) == if v < 0 then -2 * v - 1 else 2 * v
    ensures UnZigZag(ZigZag(v)) == v
  {
  }

  lemma UnZigZagRoundTrip(u: nat)
    requires u < TWO_64
    ensures ZigZag(UnZigZag(u)) == u
  {
    ZigZagRoundTrip(UnZigZag(u));
  }
}
