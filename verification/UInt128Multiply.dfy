// Schoolbook multiplication in segments of thirty-two bits.
module UInt128Multiply {
  import opened Arithmetic
  import opened UInt128Core
  import opened PowersOfTwo

  const TWO_96: int := 0x1_0000_0000_0000_0000_0000_0000
  const TWO_256: int := TWO_128 * TWO_128

  function Sum(addends: seq<u64>): (n: nat)
    ensures n <= |addends| * (TWO_64 - 1)
  {
    if addends == [] then 0 else Sum(addends[..|addends| - 1]) + addends[|addends| - 1]
  }

  datatype Counted = Counted(truncated: u64, overflows: u64)

  // Add sixty-four-bit numbers and count the overflows: the truncated result and the
  // count make up the sum.
  method VariadicAddition(addends: seq<u64>) returns (r: Counted)
    requires |addends| < TWO_64
    ensures r.truncated + r.overflows * TWO_64 == Sum(addends)
  {
    var sum: u64, count: u64 := 0, 0;
    for i := 0 to |addends|
      invariant count <= i
      invariant sum + count * TWO_64 == Sum(addends[..i])
    {
      var interim := Add64(sum, addends[i]);
      if interim.overflow {
        count := count + 1;
      }
      sum := interim.value;
      assert addends[..i + 1][..i] == addends[..i];
    }
    assert addends[..|addends|] == addends;
    r := Counted(sum, count);
  }

  // The segments of thirty-two bits, high ones first.
  function Segments(x: UInt128): (s: seq<u64>)
    ensures |s| == 4 && forall i :: 0 <= i < 4 ==> s[i] < TWO_32
    ensures Value(x) == s[0] * TWO_96 + s[1] * TWO_64 + s[2] * TWO_32 + s[3]
  {
    [x.upper / TWO_32, x.upper % TWO_32, x.lower / TWO_32, x.lower % TWO_32]
  }

  // The product of two segments fits sixty-four bits.
  function Product(a: u64, b: u64): (r: u64)
    requires a < TWO_32 && b < TWO_32
    ensures r <= (TWO_32 - 1) * (TWO_32 - 1)
  {
    Monotone(a, TWO_32 - 1, b);
    Monotone(b, TWO_32 - 1, TWO_32 - 1);
    a * b
  }

  ghost predicate AreSegments(s: seq<u64>) { |s| == 4 && forall i :: 0 <= i < 4 ==> s[i] < TWO_32 }

  // All products of segments.
  method Products(lhs: seq<u64>, rhs: seq<u64>) returns (p: array2<u64>)
    requires AreSegments(lhs) && AreSegments(rhs)
    ensures fresh(p) && p.Length0 == p.Length1 == 4
    ensures forall i, j :: 0 <= i < 4 && 0 <= j < 4 ==> p[i, j] == Product(lhs[i], rhs[j])
  {
    hide Product;
    p := new u64[4, 4];
    for j := 0 to 4
      invariant forall i, k :: 0 <= i < 4 && 0 <= k < j ==> p[i, k] == Product(lhs[i], rhs[k])
    {
      for i := 0 to 4
        invariant forall h, k :: 0 <= h < 4 && 0 <= k < j ==> p[h, k] == Product(lhs[h], rhs[k])
        invariant forall h :: 0 <= h < i ==> p[h, j] == Product(lhs[h], rhs[j])
      {
        p[i, j] := Product(lhs[i], rhs[j]);
      }
    }
  }

  function Low(p: u64): u64 { p % TWO_32 }

  function High(p: u64): (h: u64) { p / TWO_32 }

  lemma FourTerms(v: int, a: int, b: int, c: int, d: int, j: int, k: int, l: int)
    ensures (a * j + b * k + c * l + d) * v == a * v * j + b * v * k + c * v * l + d * v
  {
    Distributes(a * j + b * k + c * l, d, v);
    Distributes(a * j + b * k, c * l, v);
    Distributes(a * j, b * k, v);
    Associates(a, j, v);
    Associates(b, k, v);
    Associates(c, l, v);
  }

  // The products of a number's segments with another number, weighted.
  function Weighted(s: seq<u64>, b: nat): int
    requires |s| == 4
  {
    s[0] * b * TWO_96 + s[1] * b * TWO_64 + s[2] * b * TWO_32 + s[3] * b
  }

  // The product of two numbers is the weighted sum of the products of their segments.
  lemma ProductOfSegments(x: UInt128, y: UInt128)
    ensures
      var a, b := Segments(x), Segments(y);
      Value(x) * Value(y) == Weighted(a, b[0]) * TWO_96 + Weighted(a, b[1]) * TWO_64 + Weighted(a, b[2]) * TWO_32 + Weighted(a, b[3])
  {
    var a, b, v := Segments(x), Segments(y), Value(x);
    hide Segments, Value, Weighted;
    FourTerms(v, b[0], b[1], b[2], b[3], TWO_96, TWO_64, TWO_32);
    WeightedIs(v, a, b[0]);
    WeightedIs(v, a, b[1]);
    WeightedIs(v, a, b[2]);
    WeightedIs(v, a, b[3]);
    assert Value(x) * Value(y) == Value(y) * v;
  }

  lemma WeightedIs(v: nat, s: seq<u64>, b: nat)
    requires |s| == 4 && v == s[0] * TWO_96 + s[1] * TWO_64 + s[2] * TWO_32 + s[3]
    ensures b * v == Weighted(s, b)
  {
    FourTerms(b, s[0], s[1], s[2], s[3], TWO_96, TWO_64, TWO_32);
    assert b * v == v * b;
  }

  // The sixteen products, by the segments they come from.
  datatype Grid = Grid(p00: u64, p01: u64, p02: u64, p03: u64, p10: u64, p11: u64, p12: u64, p13: u64,
                       p20: u64, p21: u64, p22: u64, p23: u64, p30: u64, p31: u64, p32: u64, p33: u64)

  // The sums of the columns of pen and paper, each of thirty-two bits but the first.
  datatype Columns = Columns(s8: nat, s7: nat, s6: nat, s5: nat, s4: nat, s3: nat, s1: nat)

  function ColumnSums(g: Grid): Columns {
    Columns(Low(g.p33),
            Low(g.p23) + Low(g.p32) + High(g.p33),
            Low(g.p13) + Low(g.p22) + Low(g.p31) + High(g.p23) + High(g.p32),
            Low(g.p03) + Low(g.p12) + Low(g.p21) + Low(g.p30) + High(g.p13) + High(g.p22) + High(g.p31),
            Low(g.p02) + Low(g.p11) + Low(g.p20) + High(g.p03) + High(g.p12) + High(g.p21) + High(g.p30),
            Low(g.p01) + Low(g.p10) + High(g.p02) + High(g.p11) + High(g.p20),
            g.p00 + High(g.p01) + High(g.p10))
  }

  function Total(c: Columns): nat {
    c.s8 + c.s7 * TWO_32 + c.s6 * TWO_64 + c.s5 * TWO_96 + c.s4 * TWO_128 + c.s3 * (TWO_128 * TWO_32) + c.s1 * (TWO_128 * TWO_64)
  }

  function GridTotal(g: Grid): nat {
    (g.p00 * TWO_96 + g.p10 * TWO_64 + g.p20 * TWO_32 + g.p30) * TWO_96
    + (g.p01 * TWO_96 + g.p11 * TWO_64 + g.p21 * TWO_32 + g.p31) * TWO_64
    + (g.p02 * TWO_96 + g.p12 * TWO_64 + g.p22 * TWO_32 + g.p32) * TWO_32
    + (g.p03 * TWO_96 + g.p13 * TWO_64 + g.p23 * TWO_32 + g.p33)
  }

  lemma ColumnsAddUp(g: Grid)
    ensures Total(ColumnSums(g)) == GridTotal(g)
  {
    Halves(g.p33); Halves(g.p23); Halves(g.p32); Halves(g.p13); Halves(g.p22); Halves(g.p31);
    Halves(g.p03); Halves(g.p12); Halves(g.p21); Halves(g.p30); Halves(g.p02); Halves(g.p11);
    Halves(g.p20); Halves(g.p01); Halves(g.p10);
    hide Low, High;
  }

  lemma SumsOf(a: u64, b: u64, c: u64, d: u64, e: u64, f: u64, g: u64, h: u64)
    ensures Sum([a, b]) == a + b && Sum([a, b, c]) == a + b + c && Sum([a, b, c, d]) == a + b + c + d
    ensures Sum([a, b, c, d, e, f]) == a + b + c + d + e + f
    ensures Sum([a, b, c, d, e, f, g, h]) == a + b + c + d + e + f + g + h
  {
    OneMore([], a);
    OneMore([a], b);
    OneMore([a, b], c);
    OneMore([a, b, c], d);
    OneMore([a, b, c, d], e);
    OneMore([a, b, c, d, e], f);
    OneMore([a, b, c, d, e, f], g);
    OneMore([a, b, c, d, e, f, g], h);
    hide Sum;
    assert [] + [a] == [a] && [a] + [b] == [a, b] && [a, b] + [c] == [a, b, c] && [a, b, c] + [d] == [a, b, c, d];
    assert [a, b, c, d] + [e] == [a, b, c, d, e] && [a, b, c, d, e] + [f] == [a, b, c, d, e, f];
    assert [a, b, c, d, e, f] + [g] == [a, b, c, d, e, f, g] && [a, b, c, d, e, f, g] + [h] == [a, b, c, d, e, f, g, h];
  }

  lemma OneMore(s: seq<u64>, a: u64)
    ensures Sum(s + [a]) == Sum(s) + a && Sum([]) == 0
  {
    assert (s + [a])[..|s|] == s;
  }

  // A column: its sum fits sixty-four bits, so that nothing overflows.
  method Column(addends: seq<u64>, ghost n: nat) returns (sum: Counted)
    requires Sum(addends) == n < TWO_64 && |addends| < TWO_64
    ensures sum == Counted(n, 0)
  {
    sum := VariadicAddition(addends);
  }

  ghost predicate InGrid(g: Grid) {
    var m := (TWO_32 - 1) * (TWO_32 - 1);
    && g.p00 <= m && g.p01 <= m && g.p02 <= m && g.p03 <= m && g.p10 <= m && g.p11 <= m && g.p12 <= m && g.p13 <= m
    && g.p20 <= m && g.p21 <= m && g.p22 <= m && g.p23 <= m && g.p30 <= m && g.p31 <= m && g.p32 <= m && g.p33 <= m
  }

  lemma ColumnsFit(g: Grid)
    requires InGrid(g)
    ensures
      var c := ColumnSums(g);
      c.s8 < TWO_64 && c.s7 < TWO_64 && c.s6 < TWO_64 && c.s5 < TWO_64 && c.s4 < TWO_64 && c.s3 < TWO_64 && c.s1 < TWO_64
  {
    assert High(g.p01) <= TWO_32 - 2 && High(g.p10) <= TWO_32 - 2;
    Halves(g.p33); Halves(g.p23); Halves(g.p32); Halves(g.p13); Halves(g.p22); Halves(g.p31);
    Halves(g.p03); Halves(g.p12); Halves(g.p21); Halves(g.p30); Halves(g.p02); Halves(g.p11);
    Halves(g.p20); Halves(g.p01); Halves(g.p10);
    hide Low, High;
  }

  lemma Halves(p: u64)
    ensures p == High(p) * TWO_32 + Low(p) && 0 <= Low(p) < TWO_32 && 0 <= High(p) < TWO_32
  {
  }

  // The columns, each with the number of overflows of the one before among its addends.
  // There are never any.
  method AddColumns(g: Grid) returns (c: Columns)
    requires InGrid(g)
    ensures c == ColumnSums(g)
  {
    ColumnsFit(g);
    hide Low, High, Sum, InGrid;
    ghost var n := ColumnSums(g);
    var s8 := Low(g.p33);
    SumsOf(Low(g.p23), Low(g.p32), High(g.p33), 0, 0, 0, 0, 0);
    var s7 := Column([Low(g.p23), Low(g.p32), High(g.p33)], n.s7);
    SumsOf(Low(g.p13), Low(g.p22), Low(g.p31), High(g.p23), High(g.p32), s7.overflows, 0, 0);
    var s6 := Column([Low(g.p13), Low(g.p22), Low(g.p31), High(g.p23), High(g.p32), s7.overflows], n.s6);
    SumsOf(Low(g.p03), Low(g.p12), Low(g.p21), Low(g.p30), High(g.p13), High(g.p22), High(g.p31), s6.overflows);
    var s5 := Column([Low(g.p03), Low(g.p12), Low(g.p21), Low(g.p30), High(g.p13), High(g.p22), High(g.p31), s6.overflows], n.s5);
    SumsOf(Low(g.p02), Low(g.p11), Low(g.p20), High(g.p03), High(g.p12), High(g.p21), High(g.p30), s5.overflows);
    var s4 := Column([Low(g.p02), Low(g.p11), Low(g.p20), High(g.p03), High(g.p12), High(g.p21), High(g.p30), s5.overflows], n.s4);
    SumsOf(Low(g.p01), Low(g.p10), High(g.p02), High(g.p11), High(g.p20), s4.overflows, 0, 0);
    var s3 := Column([Low(g.p01), Low(g.p10), High(g.p02), High(g.p11), High(g.p20), s4.overflows], n.s3);
    SumsOf(g.p00, High(g.p01), High(g.p10), s3.overflows, 0, 0, 0, 0);
    var s1 := Column([g.p00, High(g.p01), High(g.p10), s3.overflows], n.s1);
    c := Columns(s8, s7.truncated, s6.truncated, s5.truncated, s4.truncated, s3.truncated, s1.truncated);
  }

  // Thirty-two bits up.
  function Up(s: u64): u64 { s * TWO_32 % TWO_64 }

  lemma UpIsLow(s: u64)
    ensures s == High(s) * TWO_32 + Low(s) && Up(s) == Low(s) * TWO_32
  {
    Quotient(s * TWO_32, TWO_64, s / TWO_32, s % TWO_32 * TWO_32);
  }

  // The limbs, with their carries: together they are the columns' total, and the last
  // one has no carry as long as that is below 2 to the power of 256.
  lemma LimbsAddUp(c: Columns, ll: Counted, ul: Counted, lu: Counted, uu: Counted)
    requires c.s8 < TWO_64 && c.s7 < TWO_64 && c.s6 < TWO_64 && c.s5 < TWO_64 && c.s4 < TWO_64 && c.s3 < TWO_64 && c.s1 < TWO_64
    requires ll.truncated + ll.overflows * TWO_64 == c.s8 + Up(c.s7)
    requires ul.truncated + ul.overflows * TWO_64 == High(c.s7) + c.s6 + Up(c.s5) + ll.overflows
    requires lu.truncated + lu.overflows * TWO_64 == High(c.s5) + c.s4 + Up(c.s3) + ul.overflows
    requires uu.truncated + uu.overflows * TWO_64 == High(c.s3) + c.s1 + lu.overflows
    ensures Total(c) == ll.truncated + ul.truncated * TWO_64 + lu.truncated * TWO_128
                        + (uu.truncated + uu.overflows * TWO_64) * (TWO_128 * TWO_64)
    ensures Total(c) < TWO_256 ==> uu.overflows == 0
  {
    UpIsLow(c.s7);
    UpIsLow(c.s5);
    UpIsLow(c.s3);
    hide Up, Low, High;
  }

  // Merge the columns into limbs of sixty-four bits.
  method MergeColumns(c: Columns) returns (high: UInt128, low: UInt128)
    requires c.s8 < TWO_64 && c.s7 < TWO_64 && c.s6 < TWO_64 && c.s5 < TWO_64 && c.s4 < TWO_64 && c.s3 < TWO_64 && c.s1 < TWO_64
    requires Total(c) < TWO_256
    ensures Value(high) * TWO_128 + Value(low) == Total(c)
  {
    hide Sum, Up, High, Total;
    SumsOf(c.s8, Up(c.s7), 0, 0, 0, 0, 0, 0);
    var ll := VariadicAddition([c.s8, Up(c.s7)]);
    SumsOf(High(c.s7), c.s6, Up(c.s5), ll.overflows, 0, 0, 0, 0);
    var ul := VariadicAddition([High(c.s7), c.s6, Up(c.s5), ll.overflows]);
    SumsOf(High(c.s5), c.s4, Up(c.s3), ul.overflows, 0, 0, 0, 0);
    var lu := VariadicAddition([High(c.s5), c.s4, Up(c.s3), ul.overflows]);
    SumsOf(High(c.s3), c.s1, lu.overflows, 0, 0, 0, 0, 0);
    var uu := VariadicAddition([High(c.s3), c.s1, lu.overflows]);
    LimbsAddUp(c, ll, ul, lu, uu);
    high, low := UInt128(uu.truncated, lu.truncated), UInt128(ul.truncated, ll.truncated);
  }

  lemma GridIsProduct(x: UInt128, y: UInt128, g: Grid)
    requires
      var a, b := Segments(x), Segments(y);
      && g.p00 == Product(a[0], b[0]) && g.p10 == Product(a[1], b[0]) && g.p20 == Product(a[2], b[0]) && g.p30 == Product(a[3], b[0])
      && g.p01 == Product(a[0], b[1]) && g.p11 == Product(a[1], b[1]) && g.p21 == Product(a[2], b[1]) && g.p31 == Product(a[3], b[1])
      && g.p02 == Product(a[0], b[2]) && g.p12 == Product(a[1], b[2]) && g.p22 == Product(a[2], b[2]) && g.p32 == Product(a[3], b[2])
      && g.p03 == Product(a[0], b[3]) && g.p13 == Product(a[1], b[3]) && g.p23 == Product(a[2], b[3]) && g.p33 == Product(a[3], b[3])
    ensures InGrid(g) && GridTotal(g) == Value(x) * Value(y) < TWO_256
  {
    ProductOfSegments(x, y);
    hide Segments;
    Monotone(Value(x), TWO_128 - 1, Value(y));
    Monotone(Value(y), TWO_128 - 1, TWO_128 - 1);
  }

  // The full product of two numbers, in a high and a low half.
  method MultipliedFullWidth(x: UInt128, y: UInt128) returns (high: UInt128, low: UInt128)
    ensures Value(high) * TWO_128 + Value(low) == Value(x) * Value(y)
  {
    hide Product, InGrid, Segments, ColumnSums, Total, GridTotal, Value;
    var p := Products(Segments(x), Segments(y));
    var g := Grid(p[0, 0], p[0, 1], p[0, 2], p[0, 3], p[1, 0], p[1, 1], p[1, 2], p[1, 3],
                  p[2, 0], p[2, 1], p[2, 2], p[2, 3], p[3, 0], p[3, 1], p[3, 2], p[3, 3]);
    GridIsProduct(x, y, g);
    var c := AddColumns(g);
    ColumnsFit(g);
    ColumnsAddUp(g);
    high, low := MergeColumns(c);
  }

  // The product but for what overflows, and whether it does.
  method MultipliedReportingOverflow(x: UInt128, y: UInt128) returns (r: Partial<UInt128>)
    ensures r.overflow <==> Value(x) * Value(y) >= TWO_128
    ensures Value(r.value) == Value(x) * Value(y) % TWO_128
  {
    var high, low := MultipliedFullWidth(x, y);
    r := Partial(low, Less(UInt128(0, 0), high));
    ValueIsUnique(UInt128(0, 0), high);
    Quotient(Value(x) * Value(y), TWO_128, Value(high), Value(low));
    Parts(Value(x) * Value(y), TWO_128);
  }
}
