// A 128-bit unsigned integer in two limbs of sixty-four bits.
module UInt128Core {
  import opened PowersOfTwo

  type u64 = n: int | 0 <= n < 0x1_0000_0000_0000_0000

  datatype UInt128 = UInt128(upper: u64, lower: u64)

  function Value(x: UInt128): (n: nat)
    ensures n < TWO_128
  {
    x.upper * TWO_64 + x.lower
  }

  function Of(n: nat): (x: UInt128)
    requires n < TWO_128
    ensures Value(x) == n
  {
    UInt128(n / TWO_64, n % TWO_64)
  }

  lemma ValueIsUnique(x: UInt128, y: UInt128)
    ensures x == y <==> Value(x) == Value(y)
    ensures Less(x, y) <==> Value(x) < Value(y)
  {
  }

  predicate Less(x: UInt128, y: UInt128) {
    x.upper < y.upper || (x.upper == y.upper && x.lower < y.lower)
  }

  // Results that report an overflow instead of trapping.
  datatype Partial<T> = Partial(value: T, overflow: bool)

  function Add64(a: u64, b: u64): Partial<u64> { Partial((a + b) % TWO_64, a + b >= TWO_64) }

  function Sub64(a: u64, b: u64): Partial<u64> { Partial((a - b) % TWO_64, a < b) }

  function AddingReportingOverflow(x: UInt128, y: UInt128): Partial<UInt128> {
    var lower := Add64(x.lower, y.lower);
    var upper := Add64(x.upper, y.upper);
    var carried := if lower.overflow then Add64(upper.value, 1) else Partial(upper.value, false);
    Partial(UInt128(carried.value, lower.value), upper.overflow || carried.overflow)
  }

  function SubtractingReportingOverflow(x: UInt128, y: UInt128): Partial<UInt128> {
    var lower := Sub64(x.lower, y.lower);
    var upper := Sub64(x.upper, y.upper);
    var borrowed := if lower.overflow then Sub64(upper.value, 1) else Partial(upper.value, false);
    Partial(UInt128(borrowed.value, lower.value), upper.overflow || borrowed.overflow)
  }

  // The sum of the values but for what overflows, and whether it does.
  lemma AdditionIsExact(x: UInt128, y: UInt128)
    ensures
      var r := AddingReportingOverflow(x, y);
      && Value(r.value) == Value(x) + Value(y) - (if r.overflow then TWO_128 else 0)
      && (r.overflow <==> Value(x) + Value(y) >= TWO_128)
  {
    hide Add64;
    var upper := Add64(x.upper, y.upper);
    Add64Is(x.lower, y.lower);
    Add64Is(x.upper, y.upper);
    Add64Is(upper.value, 1);
  }

  lemma Add64Is(a: u64, b: u64)
    ensures
      var r := Add64(a, b);
      r.value == a + b - (if r.overflow then TWO_64 else 0) && (r.overflow <==> a + b >= TWO_64)
  {
  }

  lemma Sub64Is(a: u64, b: u64)
    ensures
      var r := Sub64(a, b);
      r.value == a - b + (if r.overflow then TWO_64 else 0) && (r.overflow <==> a < b)
  {
  }

  lemma SubtractionIsExact(x: UInt128, y: UInt128)
    ensures
      var r := SubtractingReportingOverflow(x, y);
      && Value(r.value) == Value(x) - Value(y) + (if r.overflow then TWO_128 else 0)
      && (r.overflow <==> Value(x) < Value(y))
  {
    hide Sub64;
    var upper := Sub64(x.upper, y.upper);
    Sub64Is(x.lower, y.lower);
    Sub64Is(x.upper, y.upper);
    Sub64Is(upper.value, 1);
  }

  // Adding and then subtracting gives the first operand back, whether or not the sum
  // overflows; and the two overflow alike.
  lemma SubtractionUndoesAddition(x: UInt128, y: UInt128)
    ensures
      var sum := AddingReportingOverflow(x, y);
      SubtractingReportingOverflow(sum.value, y) == Partial(x, sum.overflow)
  {
    var sum := AddingReportingOverflow(x, y);
    var back := SubtractingReportingOverflow(sum.value, y);
    AdditionIsExact(x, y);
    SubtractionIsExact(sum.value, y);
    ValueIsUnique(back.value, x);
    hide AddingReportingOverflow, SubtractingReportingOverflow, Value;
  }
}
