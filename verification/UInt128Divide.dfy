// Long division, bit by bit.
module UInt128Divide {
  import opened Wrappers
  import opened Arithmetic
  import opened UInt128Core
  import opened UInt128Shift
  import opened PowersOfTwo

  const TWO_127: int := 0x8000_0000_0000_0000_0000_0000_0000_0000

  // Bitwise or.
  function Or(a: nat, b: nat): nat
    decreases a
  {
    if a == 0 then b else if b == 0 then a else
    (if a % 2 == 1 || b % 2 == 1 then 1 else 0) + 2 * Or(a / 2, b / 2)
  }

  // A bit is set where it is set in either.
  lemma {:induction false} OrBits(a: nat, b: nat, k: nat)
    ensures Or(a, b) / Pow2(k) % 2 == if a / Pow2(k) % 2 == 1 || b / Pow2(k) % 2 == 1 then 1 else 0
    decreases k
  {
    if k > 0 {
      OrBits(a / 2, b / 2, k - 1);
      DividesInSteps(a, 2, Pow2(k - 1));
      DividesInSteps(b, 2, Pow2(k - 1));
      DividesInSteps(Or(a, b), 2, Pow2(k - 1));
      OrHalf(a, b);
      hide Or, Pow2;
    }
  }

  lemma OrHalf(a: nat, b: nat)
    ensures Or(a, b) / 2 == Or(a / 2, b / 2)
  {
  }

  lemma {:induction false} OrFits(a: nat, b: nat, k: nat)
    requires a < Pow2(k) && b < Pow2(k)
    ensures Or(a, b) < Pow2(k)
    decreases k
  {
    if k > 0 && a > 0 && b > 0 { OrFits(a / 2, b / 2, k - 1); }
  }

  // Numbers without a common bit: or adds them.
  lemma {:induction false} OrAdds(a: nat, b: nat, m: nat)
    requires a % Pow2(m) == 0 && b < Pow2(m)
    ensures Or(a, b) == a + b
    decreases m
  {
    if m > 0 && a > 0 && b > 0 {
      var p, q := Pow2(m - 1), a / Pow2(m);
      Parts(a, 2 * p);
      Associates(q, 2, p);
      Associates(q, p, 2);
      Quotient(a, 2, q * p, 0);
      Quotient(a / 2, p, q, 0);
      OrAdds(a / 2, b / 2, m - 1);
    }
  }

  function BitOr(x: UInt128, y: UInt128): UInt128 {
    Pow2Values();
    OrFits(x.upper, y.upper, 64);
    OrFits(x.lower, y.lower, 64);
    UInt128(Or(x.upper, y.upper), Or(x.lower, y.lower))
  }

  lemma BitOrAdds(x: UInt128, y: UInt128, m: nat)
    requires m <= 128 && Value(x) % Pow2(m) == 0 && Value(y) < Pow2(m)
    ensures Value(BitOr(x, y)) == Value(x) + Value(y)
  {
    if m <= 64 { LowOrAdds(x, y, m); } else { HighOrAdds(x, y, m); }
  }

  lemma OrNothing(a: nat)
    ensures Or(a, 0) == a == Or(0, a)
  {
  }

  lemma LowOrAdds(x: UInt128, y: UInt128, m: nat)
    requires m <= 64 && Value(x) % Pow2(m) == 0 && Value(y) < Pow2(m)
    ensures Value(BitOr(x, y)) == Value(x) + Value(y)
  {
    hide Pow2, Or, BitOr;
    LowLimb(x, m);
    Below64(m);
    SmallValue(y);
    OrAdds(x.lower, y.lower, m);
    OrNothing(x.upper);
    BitOrIs(x, y);
  }

  lemma LowLimb(x: UInt128, m: nat)
    requires m <= 64 && Value(x) % Pow2(m) == 0
    ensures x.lower % Pow2(m) == 0
  {
    hide Pow2;
    LimbParts(m);
    Parts(Value(x), Pow2(m));
    LowLimbDivides(x.upper, x.lower, Pow2(m), Pow2(64 - m), Value(x) / Pow2(m));
  }

  lemma SmallValue(y: UInt128)
    requires Value(y) < TWO_64
    ensures y.upper == 0 && y.lower == Value(y)
  {
  }

  lemma BitOrIs(x: UInt128, y: UInt128)
    ensures BitOr(x, y).upper == Or(x.upper, y.upper) && BitOr(x, y).lower == Or(x.lower, y.lower)
  {
  }

  lemma HighOrAdds(x: UInt128, y: UInt128, m: nat)
    requires 64 < m <= 128 && Value(x) % Pow2(m) == 0 && Value(y) < Pow2(m)
    ensures Value(BitOr(x, y)) == Value(x) + Value(y)
  {
    hide Pow2, Or;
    Pow2Adds(64, m - 64);
    Pow2Values();
    var p, q := Pow2(m - 64), Value(x) / Pow2(m);
    Parts(Value(x), TWO_64 * p);
    Associates(q, TWO_64, p);
    HighLimbDivides(x, q * p);
    Quotient(x.upper, p, q, 0);
    Below(Value(y), TWO_64, p);
    Quotient(Value(y), TWO_64, y.upper, y.lower);
    OrAdds(x.upper, y.upper, m - 64);
    OrNothing(y.lower);
    BitOrIs(x, y);
    hide BitOr;
  }

  lemma Below64(m: nat)
    requires m <= 64
    ensures Pow2(m) <= TWO_64
  {
    LimbParts(m);
    Grows(Pow2(m), Pow2(64 - m));
  }

  lemma LowLimbDivides(upper: nat, lower: nat, p: nat, r: nat, q: nat)
    requires p > 0 && p * r == TWO_64 && upper * TWO_64 + lower == q * p
    ensures lower % p == 0
  {
    Associates(upper, r, p);
    assert r * p == p * r;
    Associates(upper, p, r);
    Distributes(q, -(upper * r), p);
    Associates(-1, upper * r, p);
    assert lower == (q - upper * r) * p;
    Quotient(lower, p, q - upper * r, 0);
  }

  lemma HighLimbDivides(x: UInt128, a: nat)
    requires Value(x) == a * TWO_64
    ensures x.lower == 0 && x.upper == a
  {
    Quotient(Value(x), TWO_64, x.upper, x.lower);
    Quotient(Value(x), TWO_64, a, 0);
  }

  function LeadingZeros64(a: u64): nat {
    Pow2Values();
    BitLengthFits(a, 64);
    64 - BitLength(a)
  }

  function LeadingZeroBitCount(x: UInt128): nat {
    if x.upper == 0 then 64 + LeadingZeros64(x.lower) else LeadingZeros64(x.upper)
  }

  // The significant bits of both limbs are those of the value.
  lemma SignificantBits(x: UInt128)
    ensures 128 - LeadingZeroBitCount(x) == BitLength(Value(x)) <= 128
  {
    Pow2Values();
    BitLengthFits(Value(x), 128);
    if x.upper > 0 { BitLengthShifts(x.upper, x.lower, 64); }
  }

  lemma {:induction false} BitLengthShifts(high: nat, low: nat, k: nat)
    requires high > 0 && low < Pow2(k)
    ensures BitLength(high * Pow2(k) + low) == BitLength(high) + k
    decreases k
  {
    if k > 0 {
      var p := Pow2(k - 1);
      BitLengthShifts(high, low / 2, k - 1);
      Associates(high, 2, p);
      Associates(high, p, 2);
      Grows(high, p);
      Parts(low, 2);
      Quotient(high * Pow2(k) + low, 2, high * p + low / 2, low % 2);
    }
  }

  // The state of the division: the quotient's bits so far, and the remainder.
  datatype State = State(q: nat, r: nat)

  // What a right shift leaves of the dividend.
  function Rest(n: nat, k: nat): nat {
    ShrinksBy(n, Pow2(k));
    n / Pow2(k)
  }

  // Take in bit k of the dividend. The shift of the remainder loses its highest bit.
  function Next(n: nat, d: nat, k: nat, s: State): State
    requires d > 0
  {
    var r := 2 * s.r % TWO_128 + Rest(n, k) % 2;
    if r >= d then State(s.q + (if k < 128 then Pow2(k) else 0), r - d) else State(s.q, r)
  }

  function Walk(n: nat, d: nat, k: nat, s: State): State
    requires d > 0
  {
    if k == 0 then s else Walk(n, d, k - 1, Next(n, d, k - 1, s))
  }

  function Divided(n: nat, d: nat): State
    requires d > 0
  {
    Walk(n, d, BitLength(n), State(0, 0))
  }

  predicate Exact(s: State, n: nat, d: nat) { s.q * d + s.r == n && s.r < d }

  lemma NextBit(n: nat, k: nat)
    ensures Rest(n, k) == 2 * (Rest(n, k + 1)) + Rest(n, k) % 2
  {
    DividesInSteps(n, Pow2(k), 2);
    assert Pow2(k) * 2 == Pow2(k + 1);
    var q := n / Pow2(k);
    Parts(q, 2);
  }

  // The bits taken in make the dividend shifted right: what the state says of them is
  // exact, with the quotient's bits in their final place.
  ghost predicate Midway(n: nat, d: nat, k: nat, s: State, whole: nat) {
    whole * d + s.r == Rest(n, k) && s.r < d && s.q == whole * Pow2(k)
  }

  lemma PlaceOfBit(n: nat, d: nat, k: nat, s: State, whole: nat)
    requires d > 0 && k > 0 && Midway(n, d, k, s, whole) && n < d * TWO_128 && 2 * s.r < TWO_128
    ensures
      var bit := Rest(n, k - 1) % 2;
      var more := if 2 * s.r + bit >= d then 1 else 0;
      && 2 * s.r % TWO_128 == 2 * s.r
      && Midway(n, d, k - 1, Next(n, d, k - 1, s), 2 * whole + more)
  {
    var p, bit := Pow2(k - 1), Rest(n, k - 1) % 2;
    var more := if 2 * s.r + bit >= d then 1 else 0;
    NextBit(n, k - 1);
    Unlost(2 * s.r);
    assert Pow2(k) == 2 * p;
    hide Pow2, Rest;
    Doubled(whole, d, p);
    if more == 1 && k - 1 >= 128 { NoHighBit(n, d, k - 1, 2 * whole + 1); }
  }

  lemma Unlost(n: nat)
    requires n < TWO_128
    ensures n % TWO_128 == n
  {
  }

  lemma Doubled(whole: nat, d: nat, p: nat)
    ensures 2 * whole * d == 2 * (whole * d) && (2 * whole + 1) * d == 2 * (whole * d) + d
    ensures 2 * whole * p == whole * (2 * p) && (2 * whole + 1) * p == whole * (2 * p) + p
  {
    Associates(2, whole, d);
    Associates(2, whole, p);
    Associates(whole, 2, p);
    Distributes(2 * whole, 1, d);
    Distributes(2 * whole, 1, p);
  }

  // No bit of the quotient lies beyond its width.
  lemma NoHighBit(n: nat, d: nat, k: nat, whole: nat)
    requires d > 0 && k >= 128 && whole > 0 && whole * d <= Rest(n, k)
    ensures n >= d * TWO_128
  {
    var p := Pow2(k);
    Pow2Adds(128, k - 128);
    Pow2Values();
    hide Pow2;
    Grows(TWO_128, Pow2(k - 128));
    Monotone(1, whole, d);
    Parts(n, p);
    Monotone(d, n / p, p);
    Monotone(TWO_128, p, d);
  }

  // The bits still to come add less than the place of the next one to the quotient.
  lemma {:induction false} WalkBounds(n: nat, d: nat, k: nat, s: State)
    requires 0 < d < TWO_128 && k <= 128 && s.r < TWO_128
    ensures Walk(n, d, k, s).q < s.q + Pow2(k) && Walk(n, d, k, s).r < TWO_128
    decreases k
  {
    if k > 0 { WalkBounds(n, d, k - 1, Next(n, d, k - 1, s)); }
  }

  // No remainder on the way, down to that of the first bits but k, has its highest bit
  // set.
  ghost predicate KeepsBits(n: nat, d: nat, k: nat)
    requires d > 0
  {
    forall j: nat :: 1 <= j <= k ==> Rest(n, j) % d < TWO_127
  }

  lemma MidwayIs(n: nat, d: nat, k: nat, s: State, whole: nat)
    requires d > 0 && Midway(n, d, k, s, whole)
    ensures s.r == Rest(n, k) % d
  {
    Quotient(Rest(n, k), d, whole, s.r);
  }

  lemma {:induction false} WalkIsExactIf(n: nat, d: nat, k: nat, s: State, whole: nat)
    requires 0 < d < TWO_128 && Midway(n, d, k, s, whole) && n < d * TWO_128
    ensures Exact(Walk(n, d, k, s), n, d) <==> KeepsBits(n, d, k)
    decreases k
  {
    if k > 0 {
      MidwayIs(n, d, k, s, whole);
      if s.r < TWO_127 {
        PlaceOfBit(n, d, k, s, whole);
        hide Midway, Next, Rest, Exact;
        WalkIsExactIf(n, d, k - 1, Next(n, d, k - 1, s), 2 * whole + if 2 * s.r + Rest(n, k - 1) % 2 >= d then 1 else 0);
        assert KeepsBits(n, d, k) <==> KeepsBits(n, d, k - 1);
      } else {
        BitLost(n, d, k, s, whole);
        hide Midway, Next, Rest, Exact, Walk;
        assert !KeepsBits(n, d, k);
      }
    } else {
      WholeIsTaken(n, d, s, whole);
    }
  }

  lemma WholeIsTaken(n: nat, d: nat, s: State, whole: nat)
    requires d > 0 && Midway(n, d, 0, s, whole)
    ensures Exact(s, n, d)
  {
    assert Pow2(0) == 1;
    Quotient(n, 1, n, 0);
  }

  // When the shift loses a bit, the quotient has a one there and gets a zero, and the
  // bits behind it are not worth as much.
  lemma BitLost(n: nat, d: nat, k: nat, s: State, whole: nat)
    requires 0 < d < TWO_128 && k > 0 && Midway(n, d, k, s, whole) && n < d * TWO_128 && s.r >= TWO_127
    ensures !Exact(Walk(n, d, k, s), n, d)
  {
    var bit := Rest(n, k - 1) % 2;
    NextBit(n, k - 1);
    Lost(2 * s.r);
    var next := State(s.q, 2 * s.r - TWO_128 + bit);
    assert Next(n, d, k - 1, s) == next;
    Doubled(whole, d, Pow2(k - 1));
    assert Pow2(k) == 2 * Pow2(k - 1);
    if k - 1 >= 128 { NoHighBit(n, d, k - 1, 2 * whole + 1); }
    WalkBounds(n, d, k - 1, next);
    QuotientAtLeast(n, d, k - 1, 2 * whole + 1);
    hide Pow2, Rest, Next;
    if Exact(Walk(n, d, k, s), n, d) {
      Quotient(n, d, Walk(n, d, k, s).q, Walk(n, d, k, s).r);
    }
  }

  lemma Lost(n: nat)
    requires TWO_128 <= n < 2 * TWO_128
    ensures n % TWO_128 == n - TWO_128
  {
  }

  lemma QuotientAtLeast(n: nat, d: nat, k: nat, whole: nat)
    requires d > 0 && whole * d <= Rest(n, k)
    ensures n / d >= whole * Pow2(k)
  {
    var p := Pow2(k);
    hide Pow2;
    Parts(n, p);
    Monotone(whole * d, n / p, p);
    Associates(whole, d, p);
    if n / d < whole * p {
      Parts(n, d);
      Monotone(n / d + 1, whole * p, d);
      Distributes(n / d, 1, d);
    }
  }

  // A division whose quotient fits is exact if and only if no remainder that a bit is
  // taken into reaches 2 to the power of 127.
  lemma ExactIfNoBitIsLost(n: nat, d: nat)
    requires 0 < d < TWO_128 && n < d * TWO_128
    ensures Exact(Divided(n, d), n, d) <==> forall k: nat :: 1 <= k ==> Rest(n, k) % d < TWO_127
  {
    var l := BitLength(n);
    BitLengthBounds(n);
    Quotient(n, Pow2(l), 0, n);
    WalkIsExactIf(n, d, l, State(0, 0), 0);
    forall k: nat | k > l ensures Rest(n, k) % d < TWO_127 {
      ShiftShrinks(n, l, k);
      Quotient(0, d, 0, 0);
    }
    hide Divided, Exact, Rest;
  }

  // Division is exact by any divisor when the dividend fits 128 bits, and otherwise when
  // the divisor is at most 2 to the power of 127 and the quotient fits.
  lemma DivisionIsExact(n: nat, d: nat)
    requires 0 < d < TWO_128 && n < d * TWO_128 && (d <= TWO_127 || n < TWO_128)
    ensures Exact(Divided(n, d), n, d)
  {
    hide Divided, Exact, Rest;
    ExactIfNoBitIsLost(n, d);
    forall k: nat | 1 <= k ensures Rest(n, k) % d < TWO_127 {
      if n < TWO_128 { HalfIsSmall(n, k); }
      RemainderBelow(Rest(n, k), d);
    }
  }

  lemma RemainderBelow(m: nat, d: nat)
    requires d > 0
    ensures m % d < d && m % d <= m
  {
    Parts(m, d);
    Monotone(0, m / d, d);
  }

  lemma HalfIsSmall(n: nat, k: nat)
    requires n < TWO_128 && k >= 1
    ensures Rest(n, k) < TWO_127
  {
    ShiftShrinks(n, 1, k);
    assert Pow2(1) == 2;
    hide Pow2;
  }

  lemma ShiftShrinks(n: nat, m: nat, k: nat)
    requires m <= k
    ensures Rest(n, k) <= Rest(n, m)
  {
    Pow2Adds(m, k - m);
    hide Pow2;
    ProductShrinks(n, Pow2(m), Pow2(k - m));
  }

  lemma ProductShrinks(n: nat, a: nat, b: nat)
    requires a > 0 && b > 0
    ensures a * b > 0 && n / (a * b) <= n / a
  {
    DividesInSteps(n, a, b);
    ShrinksBy(n / a, b);
  }

  // With a larger divisor there is a dividend, with a quotient that fits, of which the
  // result is wrong: the shift of the remainder d - 1 loses a bit.
  lemma LargeDivisorGoesWrong(d: nat)
    requires TWO_127 < d < TWO_128
    ensures var n := (d - 1) * TWO_128; n < d * TWO_128 && !Exact(Divided(n, d), n, d)
  {
    var n := (d - 1) * TWO_128;
    Pow2Values();
    Quotient(n, TWO_128, d - 1, 0);
    Quotient(d - 1, d, 0, d - 1);
    ExactIfNoBitIsLost(n, d);
    assert Rest(n, 128) % d >= TWO_127;
    hide Divided, Exact, Rest;
  }

  // For dividends of any width with a quotient that fits, division by a number is exact
  // exactly when that number is at most 2 to the power of 127.
  lemma FullWidthIsExactUpTo(d: nat)
    requires 0 < d < TWO_128
    ensures d <= TWO_127 <==> forall n: nat :: n < d * TWO_128 ==> Exact(Divided(n, d), n, d)
  {
    hide Divided, Exact;
    if d <= TWO_127 {
      forall n: nat | n < d * TWO_128 ensures Exact(Divided(n, d), n, d) {
        DivisionIsExact(n, d);
      }
    } else {
      LargeDivisorGoesWrong(d);
    }
  }

  const ZERO := UInt128(0, 0)
  const ONE := UInt128(0, 1)

  ghost function Dividend(high: UInt128, low: UInt128): (n: nat)
    ensures n < TWO_128 * TWO_128
  {
    Value(high) * TWO_128 + Value(low)
  }

  // Move the remainder one up and take in a bit.
  method TakeBit(remainder: UInt128, position: UInt128, high: UInt128, low: UInt128) returns (r: UInt128)
    requires Value(position) < 256
    ensures Value(r) == 2 * Value(remainder) % TWO_128 + Rest(Dividend(high, low), Value(position)) % 2
  {
    var shifted := SmartLeftShift(remainder, ONE);
    var bit := BitFromDoubleWidth(position, high, low);
    ShiftedByOne(remainder);
    BitTaken(position, high, low);
    hide *;
    BitOrAdds(shifted, bit, 1);
    r := BitOr(shifted, bit);
  }

  lemma ShiftedByOne(x: UInt128)
    ensures Value(SmartLeftShift(x, ONE)) == 2 * Value(x) % TWO_128
    ensures Value(SmartLeftShift(x, ONE)) % Pow2(1) == 0
  {
    OneIsTwice(x);
    assert Pow2(1) == 2;
    hide Pow2, SmartLeftShift, Value;
    EvenModulo(Value(x));
  }

  lemma OneIsTwice(x: UInt128)
    ensures Value(SmartLeftShift(x, ONE)) == Value(x) * 2 % TWO_128
  {
    LeftShiftMultiplies(x, ONE);
    assert ONE.lower % 128 == 1 && Pow2(1) == 2 && Value(ONE) == 1;
    hide Pow2, MaskedLeftShift, Value;
  }

  lemma BitTaken(position: UInt128, high: UInt128, low: UInt128)
    requires Value(position) < 256
    ensures Value(BitFromDoubleWidth(position, high, low)) == Rest(Dividend(high, low), Value(position)) % 2 < Pow2(1)
  {
    BitIsBit(position, high, low);
    assert Pow2(1) == 2;
    hide Pow2, BitFromDoubleWidth;
  }

  lemma EvenModulo(n: nat)
    ensures n * 2 % TWO_128 % 2 == 0 && n * 2 == 2 * n
  {
  }

  // Set one bit of the quotient; beyond its width nothing is set.
  method SetBit(quotient: UInt128, k: nat) returns (q: UInt128)
    requires k < 256 && (if k < 128 then Value(quotient) % Pow2(k + 1) == 0 else quotient == ZERO)
    ensures Value(q) == Value(quotient) + if k < 128 then Pow2(k) else 0
    ensures if k < 128 then Value(q) % Pow2(k) == 0 else q == ZERO
  {
    var bit := SmartLeftShift(ONE, Of(k));
    if k < 128 {
      OneShifted(k);
      BitOrAdds(quotient, bit, k + 1);
      Multiples(Value(quotient), Pow2(k));
    } else {
      OrNothing(0);
    }
    q := BitOr(quotient, bit);
  }

  lemma OneShifted(k: nat)
    requires k < 128
    ensures Value(SmartLeftShift(ONE, Of(k))) == Pow2(k) < Pow2(k + 1)
  {
    LeftShiftMultiplies(ONE, Of(k));
    SmallWidth(Of(k));
    SmallPower(k);
    assert Value(ONE) == 1;
    hide Pow2, MaskedLeftShift;
    Unlost(Pow2(k));
  }

  lemma SmallPower(k: nat)
    requires k < 128
    ensures Pow2(k) < Pow2(k + 1) <= TWO_128
  {
    Pow2Adds(k + 1, 127 - k);
    Pow2Values();
    hide Pow2;
    Grows(Pow2(k + 1), Pow2(127 - k));
    Pow2Next(k);
  }

  // A multiple of twice a number, and that number added.
  lemma Multiples(n: nat, p: nat)
    requires p > 0 && n % (2 * p) == 0
    ensures (n + p) % p == 0 && n % p == 0
  {
    var q := n / (2 * p);
    Parts(n, 2 * p);
    Associates(q, 2, p);
    Distributes(q * 2, 1, p);
    Quotient(n, p, q * 2, 0);
    Quotient(n + p, p, q * 2 + 1, 0);
  }

  // The loop of the division, from bit k - 1 down. It does what the walk does.
  method WalkBits(divisor: UInt128, high: UInt128, low: UInt128, k: nat) returns (quotient: UInt128, remainder: UInt128)
    requires k <= 256 && Value(divisor) > 0
    ensures State(Value(quotient), Value(remainder)) == Walk(Dividend(high, low), Value(divisor), k, State(0, 0))
  {
    ghost var n, d := Dividend(high, low), Value(divisor);
    quotient, remainder := ZERO, ZERO;
    if k <= 128 { Multiples(0, Pow2(k)); }
    for i := k downto 0
      invariant if i < 128 then Value(quotient) % Pow2(i) == 0 else quotient == ZERO
      invariant Walk(n, d, k, State(0, 0)) == Walk(n, d, i, State(Value(quotient), Value(remainder)))
    {
      ghost var was := State(Value(quotient), Value(remainder));
      remainder := TakeBit(remainder, Of(i), high, low);
      EarlierBits(quotient, i);
      ValueIsUnique(remainder, divisor);
      if !Less(remainder, divisor) {
        SubtractionIsExact(remainder, divisor);
        remainder := SubtractingReportingOverflow(remainder, divisor).value;
        quotient := SetBit(quotient, i);
      }
      assert State(Value(quotient), Value(remainder)) == Next(n, d, i, was);
    }
  }

  lemma EarlierBits(q: UInt128, k: nat)
    requires if k + 1 < 128 then Value(q) % Pow2(k + 1) == 0 else q == ZERO
    ensures k < 128 ==> Value(q) % Pow2(k + 1) == 0 && Value(q) % Pow2(k) == 0
  {
    if k < 128 {
      if k + 1 == 128 { Quotient(0, Pow2(k + 1), 0, 0); }
      Multiples(Value(q), Pow2(k));
    }
  }

  // Divide a number of 256 bits: none for a zero dividend, whatever the divisor, and a
  // trap for any other dividend and divisor zero.
  method DividingFullWidth(divisor: UInt128, high: UInt128, low: UInt128) returns (r: Result<(UInt128, UInt128)>)
    ensures r.Err? <==> divisor == ZERO && Dividend(high, low) > 0
    ensures r.Ok? && divisor != ZERO ==> State(Value(r.value.0), Value(r.value.1)) == Divided(Dividend(high, low), Value(divisor))
    ensures r.Ok? && divisor == ZERO ==> r.value == (ZERO, ZERO)
  {
    var bits: nat;
    if Less(ZERO, high) {
      bits := 128 - LeadingZeroBitCount(high) + 128;
    } else if low == ZERO {
      return Ok((ZERO, ZERO));
    } else {
      bits := 128 - LeadingZeroBitCount(low);
    }
    if divisor == ZERO {
      return Err(Trap);
    }
    DividendBits(high, low);
    var quotient, remainder := WalkBits(divisor, high, low, bits);
    r := Ok((quotient, remainder));
  }

  lemma DividendBits(high: UInt128, low: UInt128)
    ensures
      var n := BitLength(Dividend(high, low));
      && n <= 256
      && n == if high == ZERO then 128 - LeadingZeroBitCount(low) else 128 - LeadingZeroBitCount(high) + 128
  {
    SignificantBits(low);
    SignificantBits(high);
    Pow2Values();
    if high != ZERO { BitLengthShifts(Value(high), Value(low), 128); }
  }

  // Ordinary division: exact by every divisor but zero.
  method QuotientAndRemainder(x: UInt128, divisor: UInt128) returns (r: Result<(UInt128, UInt128)>)
    ensures r.Err? <==> divisor == ZERO && x != ZERO
    ensures r.Ok? && divisor != ZERO ==>
      Value(r.value.0) == Value(x) / Value(divisor) && Value(r.value.1) == Value(x) % Value(divisor)
    ensures r.Ok? && divisor == ZERO ==> r.value == (ZERO, ZERO)
  {
    r := DividingFullWidth(divisor, ZERO, x);
    if divisor != ZERO {
      DivisionIsExact(Value(x), Value(divisor));
      Quotient(Value(x), Value(divisor), Value(r.value.0), Value(r.value.1));
    }
  }
}
