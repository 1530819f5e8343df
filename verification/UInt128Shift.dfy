// Shifting across the two limbs, and taking single bits.
module UInt128Shift {
  import opened Arithmetic
  import opened UInt128Core
  import opened PowersOfTwo

  // A right shift of sixty-four bits drops the low ones; a left shift drops the high
  // ones.
  function Right64(a: u64, k: nat): u64
    requires k < 64
  {
    ShrinksBy(a, Pow2(k));
    a / Pow2(k)
  }

  function Left64(a: u64, k: nat): u64
    requires k < 64
  {
    a * Pow2(k) % TWO_64
  }

  // A limb cut in two, with p * r the size of a limb: its low part moved up does not
  // overlap what a right shift leaves of the limb below.
  lemma LowPartMovesUp(a: nat, p: nat, r: nat)
    requires p > 0 && r > 0 && p * r == TWO_64
    ensures a * r == a / p * TWO_64 + a % p * r
    ensures a * r % TWO_64 == a % p * r && 0 <= a % p * r <= TWO_64 - r
  {
    var h, l := a / p, a % p;
    Parts(a, p);
    Distributes(h * p, l, r);
    Associates(h, p, r);
    Monotone(l, p - 1, r);
    Monotone(0, l, r);
    Distributes(p, -1, r);
    Quotient(a * r, TWO_64, h, l * r);
  }

  lemma SplitRight(upper: nat, lower: nat, p: nat, r: nat)
    requires p > 0 && r > 0 && p * r == TWO_64 && lower < TWO_64
    ensures upper * r % TWO_64 + lower / p < TWO_64
    ensures (upper * TWO_64 + lower) / p == upper / p * TWO_64 + (upper * r % TWO_64 + lower / p)
  {
    var uh, ul, lh, ll := upper / p, upper % p, lower / p, lower % p;
    LowPartMovesUp(upper, p, r);
    Parts(upper, p);
    Parts(lower, p);
    assert r * p == TWO_64;
    Below(lower, p, r);
    var moved := ul * r;
    Associates(ul, r, p);
    Distributes(uh * TWO_64, moved + lh, p);
    Distributes(moved, lh, p);
    Associates(uh, TWO_64, p);
    Distributes(uh * p, ul, TWO_64);
    Quotient(upper * TWO_64 + lower, p, uh * TWO_64 + (moved + lh), ll);
  }

  lemma SplitLeft(upper: nat, lower: nat, p: nat, r: nat)
    requires p > 0 && r > 0 && p * r == TWO_64 && lower < TWO_64
    ensures upper * r % TWO_64 + lower / p < TWO_64
    ensures (upper * TWO_64 + lower) * r % TWO_128 == (upper * r % TWO_64 + lower / p) * TWO_64 + lower * r % TWO_64
  {
    SplitRight(upper, lower, p, r);
    LowPartMovesUp(upper, p, r);
    LowPartMovesUp(lower, p, r);
    var n := upper * r;
    Distributes(upper * TWO_64, lower, r);
    Associates(upper, TWO_64, r);
    Quotient((upper * TWO_64 + lower) * r, TWO_128, upper / p, (n % TWO_64 + lower / p) * TWO_64 + lower * r % TWO_64);
  }

  lemma LimbParts(k: nat)
    requires k <= 64
    ensures Pow2(k) * Pow2(64 - k) == TWO_64
  {
    Pow2Adds(k, 64 - k);
    Pow2Values();
  }

  // The masked right shift: its width is taken modulo 128.
  function MaskedRightShift(x: UInt128, width: UInt128): UInt128 {
    var k := width.lower % 128;
    if k == 0 then x else
    if k < 64 then
      LimbParts(k);
      SplitRight(x.upper, x.lower, Pow2(k), Pow2(64 - k));
      UInt128(Right64(x.upper, k), Right64(x.lower, k) + Left64(x.upper, 64 - k))
    else if k == 64 then UInt128(0, x.upper)
    else UInt128(0, Right64(x.upper, k - 64))
  }

  function MaskedLeftShift(x: UInt128, width: UInt128): UInt128 {
    var k := width.lower % 128;
    if k == 0 then x else
    if k < 64 then
      LimbParts(64 - k);
      SplitLeft(x.upper, x.lower, Pow2(64 - k), Pow2(k));
      UInt128(Left64(x.upper, k) + Right64(x.lower, 64 - k), Left64(x.lower, k))
    else if k == 64 then UInt128(x.lower, 0)
    else UInt128(Left64(x.lower, k - 64), 0)
  }

  // The masked shifts are division and multiplication by a power of two, whichever limbs
  // the bits move through.
  lemma RightShiftDivides(x: UInt128, width: UInt128)
    ensures Value(MaskedRightShift(x, width)) == Value(x) / Pow2(width.lower % 128)
  {
    var k := width.lower % 128;
    if 0 < k < 64 {
      LimbParts(k);
      hide Pow2;
      SplitRight(x.upper, x.lower, Pow2(k), Pow2(64 - k));
    } else if k >= 64 {
      Pow2Adds(64, k - 64);
      Pow2Values();
      hide Pow2;
      Quotient(Value(x), TWO_64, x.upper, x.lower);
      DividesInSteps(Value(x), TWO_64, Pow2(k - 64));
    }
  }

  lemma LeftShiftMultiplies(x: UInt128, width: UInt128)
    ensures Value(MaskedLeftShift(x, width)) == Value(x) * Pow2(width.lower % 128) % TWO_128
  {
    var k := width.lower % 128;
    if k == 0 {
      assert Pow2(0) == 1;
    } else if k < 64 {
      LimbParts(64 - k);
      hide Pow2;
      SplitLeft(x.upper, x.lower, Pow2(64 - k), Pow2(k));
    } else {
      FarLeftShift(x, k);
      assert Pow2(0) == 1;
      hide Pow2;
      SmallLimb(x.lower);
    }
  }

  lemma SmallLimb(a: u64)
    ensures a * 1 % TWO_64 == a
  {
  }

  // Shifting by sixty-four bits or more.
  lemma FarLeftShift(x: UInt128, k: nat)
    requires 64 <= k < 128
    ensures Value(UInt128(Left64(x.lower, k - 64), 0)) == Value(x) * Pow2(k) % TWO_128
  {
    Pow2Adds(64, k - 64);
    Pow2Values();
    hide Pow2;
    HighShift(x.upper, x.lower, Pow2(k - 64));
  }

  lemma HighShift(upper: nat, lower: nat, p: nat)
    requires p > 0
    ensures (upper * TWO_64 + lower) * (TWO_64 * p) % TWO_128 == lower * p % TWO_64 * TWO_64
  {
    var a := lower * p;
    Parts(a, TWO_64);
    Associates(upper * TWO_64 + lower, TWO_64, p);
    Associates(upper * TWO_64 + lower, p, TWO_64);
    Distributes(upper * TWO_64, lower, p);
    Associates(upper, TWO_64, p);
    Quotient((upper * TWO_64 + lower) * (TWO_64 * p), TWO_128, upper * p + a / TWO_64, a % TWO_64 * TWO_64);
  }

  // A shift that is not masked: beyond the width nothing is left.
  function SmartLeftShift(x: UInt128, width: UInt128): UInt128 {
    if Value(width) >= 128 then UInt128(0, 0) else MaskedLeftShift(x, width)
  }

  function SmartRightShift(x: UInt128, width: UInt128): UInt128 {
    if Value(width) >= 128 then UInt128(0, 0) else MaskedRightShift(x, width)
  }

  // By any width at all they are division and multiplication.
  lemma SmartShifts(x: UInt128, width: UInt128)
    ensures Value(SmartRightShift(x, width)) == Value(x) / Pow2(Value(width))
    ensures Value(SmartLeftShift(x, width)) == Value(x) * Pow2(Value(width)) % TWO_128
  {
    var k := Value(width);
    if k < 128 {
      SmallWidth(width);
      RightShiftDivides(x, width);
      LeftShiftMultiplies(x, width);
    } else {
      Pow2Adds(128, k - 128);
      Pow2Values();
      var p := Pow2(k - 128);
      hide Pow2;
      Grows(TWO_128, p);
      Quotient(Value(x), Pow2(k), 0, Value(x));
      Associates(Value(x), TWO_128, p);
      Associates(Value(x), p, TWO_128);
      Quotient(Value(x) * Pow2(k), TWO_128, Value(x) * p, 0);
    }
  }

  // The lowest bit.
  function LowBit(x: UInt128): UInt128 { UInt128(0, x.lower % 2) }

  // The bit at a position of a number of 256 bits.
  function BitFromDoubleWidth(position: UInt128, high: UInt128, low: UInt128): UInt128 {
    var p := Value(position);
    if p == 0 then LowBit(low) else
    if p < 128 then LowBit(SmartRightShift(low, position)) else
    if p == 128 then LowBit(high) else LowBit(SmartRightShift(high, Of(p - 128)))
  }

  lemma LowBitIsParity(x: UInt128)
    ensures Value(LowBit(x)) == Value(x) % 2
  {
    EvenAdds(x.upper * 0x8000_0000_0000_0000, x.lower);
  }

  // It is the bit of the number that the two halves make.
  lemma BitIsBit(position: UInt128, high: UInt128, low: UInt128)
    requires Value(position) < 256
    ensures Value(BitFromDoubleWidth(position, high, low)) == (Value(high) * TWO_128 + Value(low)) / Pow2(Value(position)) % 2
  {
    var p := Value(position);
    if p < 128 {
      HighHalfIsEven(Value(high), Value(low), p);
      hide Pow2;
      BitOfHalf(position, low);
    } else {
      LowHalfIsGone(Value(high), Value(low), p - 128);
      hide Pow2;
      BitOfHalf(Of(p - 128), high);
    }
  }

  lemma BitOfHalf(position: UInt128, x: UInt128)
    requires Value(position) < 128
    ensures Value(if Value(position) == 0 then LowBit(x) else LowBit(SmartRightShift(x, position))) == Value(x) / Pow2(Value(position)) % 2
  {
    SmallWidth(position);
    RightShiftDivides(x, position);
    LowBitIsParity(x);
    LowBitIsParity(SmartRightShift(x, position));
    assert Pow2(0) == 1;
    hide LowBit, MaskedRightShift, Pow2, Value;
  }

  lemma SmallWidth(width: UInt128)
    requires Value(width) < 128
    ensures width.lower % 128 == Value(width)
  {
  }

  lemma LowHalfIsGone(high: nat, low: nat, p: nat)
    requires low < TWO_128
    ensures (high * TWO_128 + low) / Pow2(p + 128) == high / Pow2(p)
  {
    Pow2Adds(128, p);
    Pow2Values();
    hide Pow2;
    Quotient(high * TWO_128 + low, TWO_128, high, low);
    DividesInSteps(high * TWO_128 + low, TWO_128, Pow2(p));
  }

  // The high half adds an even number to what a shift of less than a half leaves.
  lemma HighHalfIsEven(high: nat, low: nat, p: nat)
    requires p < 128
    ensures (high * TWO_128 + low) / Pow2(p) % 2 == low / Pow2(p) % 2
  {
    HalfParts(p);
    hide Pow2;
    SameParity(high, low, Pow2(p), Pow2(127 - p));
  }

  lemma HalfParts(p: nat)
    requires p < 128
    ensures Pow2(p) * Pow2(127 - p) * 2 == TWO_128
  {
    Pow2Adds(p, 127 - p);
    Pow2Values();
    hide Pow2;
  }

  lemma EvenQuotient(high: nat, low: nat, a: nat, b: nat)
    requires a > 0 && a * b * 2 == TWO_128
    ensures (high * TWO_128 + low) / a == 2 * (high * b) + low / a
  {
    Parts(low, a);
    Associates(2 * high, b, a);
    Associates(2, high, b);
    assert b * a == a * b;
    Associates(2, high, a * b);
    Associates(high, a * b, 2);
    Distributes(2 * (high * b), low / a, a);
    Quotient(high * TWO_128 + low, a, 2 * (high * b) + low / a, low % a);
  }

  lemma SameParity(high: nat, low: nat, a: nat, b: nat)
    requires a > 0 && a * b * 2 == TWO_128
    ensures (high * TWO_128 + low) / a % 2 == low / a % 2
  {
    EvenQuotient(high, low, a, b);
    var h, q := high * b, low / a;
    EvenAdds(h, q);
  }

  lemma EvenAdds(m: nat, n: nat)
    ensures (2 * m + n) % 2 == n % 2
  {
  }
}
