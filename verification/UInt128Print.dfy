// Printing in a radix, and reading back.
module UInt128Print {
  import opened Wrappers
  import opened Arithmetic
  import opened UInt128Core
  import opened UInt128Divide
  import opened PowersOfTwo

  const UPPERCASE := "0123456789ABCDEFGHIJKLMNOPQRSTUVWXYZ"
  const LOWERCASE := "0123456789abcdefghijklmnopqrstuvwxyz"

  predicate IsRadix(radix: nat) { 2 <= radix <= 36 }

  function Pool(uppercase: bool): (s: string)
    ensures |s| == 36
  {
    if uppercase then UPPERCASE else LOWERCASE
  }

  // A number as a printed string: the digits of its quotient by the radix, and the
  // remainder behind them.
  function Shown(n: nat, radix: nat, uppercase: bool): (s: string)
    requires IsRadix(radix)
    ensures s != ""
  {
    if n < radix then [Pool(uppercase)[n]]
    else
      ShrinksBy(n, radix);
      QuotientSmaller(n, radix);
      Shown(n / radix, radix, uppercase) + [Pool(uppercase)[n % radix]]
  }

  lemma QuotientSmaller(n: nat, radix: nat)
    requires 2 <= radix <= n
    ensures 0 < n / radix < n
  {
    Parts(n, radix);
    if n / radix == 0 {
      Quotient(n, radix, 0, n % radix);
    }
    Monotone(2, radix, n / radix);
  }

  // One digit of the printed form.
  lemma ShownStep(n: nat, radix: nat, uppercase: bool)
    requires IsRadix(radix)
    ensures
      var q, r, digit := n / radix, n % radix, Pool(uppercase)[n % radix];
      && n == q * radix + r && 0 <= r < radix && 0 <= q
      && if q == 0 then n < radix && n == r && Shown(n, radix, uppercase) == [digit]
         else radix <= n && q < n && Shown(n, radix, uppercase) == Shown(q, radix, uppercase) + [digit]
  {
    Parts(n, radix);
    if n < radix { Quotient(n, radix, 0, n); } else { QuotientSmaller(n, radix); }
    hide Pool;
  }

  // Take digits off the low end until nothing is left.
  method ValueToString(x: UInt128, radix: nat, uppercase: bool) returns (result: string)
    requires IsRadix(radix)
    ensures result == Shown(Value(x), radix, uppercase)
  {
    ShownStep(0, radix, uppercase);
    FirstOfPool();
    if x == ZERO {
      return "0";
    }
    ValueIsUnique(ZERO, x);
    result := "";
    var quotient := x;
    hide Value, Shown, Pool, Less, Of;
    assert Shown(Value(x), radix, uppercase) + result == Shown(Value(x), radix, uppercase);
    var first := true;
    while first || Less(ZERO, quotient)
      invariant first ==> Value(quotient) > 0
      invariant if Value(quotient) == 0 then result == Shown(Value(x), radix, uppercase)
                else Shown(Value(x), radix, uppercase) == Shown(Value(quotient), radix, uppercase) + result
      decreases Value(quotient)
    {
      ghost var n, was := Value(quotient), result;
      ValueIsUnique(ZERO, quotient);
      RadixIsSmall(radix);
      var divmod := QuotientAndRemainder(quotient, Of(radix));
      first := false;
      ShownStep(n, radix, uppercase);
      result := [Pool(uppercase)[Value(divmod.value.1)]] + result;
      quotient := divmod.value.0;
      Moved(Shown(Value(quotient), radix, uppercase), Pool(uppercase)[n % radix], was);
    }
    ValueIsUnique(ZERO, quotient);
  }

  lemma FirstOfPool()
    ensures Pool(true)[0] == '0' == Pool(false)[0]
    ensures Value(ZERO) == 0
  {
  }

  lemma RadixIsSmall(radix: nat)
    requires IsRadix(radix)
    ensures Value(Of(radix)) == radix && Of(radix) != ZERO
  {
  }

  lemma Moved(a: string, c: char, b: string)
    ensures a + [c] + b == a + ([c] + b)
  {
  }

  // Digits are '0' to '9', and then letters of the case asked for.
  lemma {:induction false} DigitsOfCase(n: nat, radix: nat, uppercase: bool)
    requires IsRadix(radix)
    ensures forall c <- Shown(n, radix, uppercase) :: '0' <= c <= '9' || if uppercase then 'A' <= c <= 'Z' else 'a' <= c <= 'z'
  {
    ShownStep(n, radix, uppercase);
    PoolOfCase(n % radix, uppercase);
    if n >= radix {
      DigitsOfCase(n / radix, radix, uppercase);
    }
    hide Shown, Pool;
  }

  lemma PoolOfCase(d: nat, uppercase: bool)
    requires d < 36
    ensures var c := Pool(uppercase)[d]; '0' <= c <= '9' || if uppercase then 'A' <= c <= 'Z' else 'a' <= c <= 'z'
  {
  }

  // The value of a digit in a radix, of either case.
  function DigitOf(c: char, radix: nat): Option<nat> {
    var d := if '0' <= c <= '9' then c as int - '0' as int else
             if 'A' <= c <= 'Z' then c as int - 'A' as int + 10 else
             if 'a' <= c <= 'z' then c as int - 'a' as int + 10 else 36;
    if d < radix then Some(d) else None
  }

  // Reading a string digit by digit, as the language's own reader does: it fails on
  // anything that is not a digit of the radix, and on a number that does not fit.
  function ReadFrom(s: string, radix: nat, acc: nat): Option<nat>
    decreases |s|
  {
    if s == "" then Some(acc) else
    var d := DigitOf(s[0], radix);
    if d.None? || acc * radix + d.value >= TWO_128 then None else ReadFrom(s[1..], radix, acc * radix + d.value)
  }

  function Read(s: string, radix: nat): Option<nat> { if s == "" then None else ReadFrom(s, radix, 0) }

  lemma PoolDigit(d: nat, radix: nat, uppercase: bool)
    requires d < radix <= 36
    ensures DigitOf(Pool(uppercase)[d], radix) == Some(d)
    ensures d < 10 ==> '0' <= Pool(uppercase)[d] <= '9'
    ensures d != 0 ==> Pool(uppercase)[d] != '0'
    ensures Pool(uppercase)[0] == '0'
  {
    UpperPool(d);
    LowerPool(d);
    UpperPool(0);
    hide UPPERCASE, LOWERCASE;
  }

  lemma UpperPool(d: nat)
    requires d < 36
    ensures UPPERCASE[d] as int == if d < 10 then '0' as int + d else 'A' as int + d - 10
  {
  }

  lemma LowerPool(d: nat)
    requires d < 36
    ensures LOWERCASE[d] as int == if d < 10 then '0' as int + d else 'a' as int + d - 10
  {
  }

  lemma {:induction false} ReadOneMore(s: string, c: char, radix: nat, acc: nat)
    ensures ReadFrom(s + [c], radix, acc) ==
      if ReadFrom(s, radix, acc).None? then None else ReadFrom([c], radix, ReadFrom(s, radix, acc).value)
    decreases |s|
  {
    if s == "" {
      assert s + [c] == [c];
    } else {
      assert (s + [c])[1..] == s[1..] + [c];
      var d := DigitOf(s[0], radix);
      hide DigitOf;
      if d.Some? && acc * radix + d.value < TWO_128 {
        ReadOneMore(s[1..], c, radix, acc * radix + d.value);
      }
    }
  }

  // Every value is read back from its digits, in every radix and either case, without
  // ever running over 128 bits.
  lemma {:induction false} PrintedIsReadBack(n: nat, radix: nat, uppercase: bool)
    requires IsRadix(radix) && n < TWO_128
    ensures Read(Shown(n, radix, uppercase), radix) == Some(n)
    decreases n
  {
    var q, c := LastShown(n, radix, uppercase);
    hide *;
    if q > 0 {
      PrintedIsReadBack(q, radix, uppercase);
      ReadAppended(Shown(q, radix, uppercase), c, radix);
    }
  }

  // What reading makes of the last digit, when what is before it reads as q.
  lemma LastShown(n: nat, radix: nat, uppercase: bool) returns (q: nat, c: char)
    requires IsRadix(radix) && n < TWO_128
    ensures ReadFrom([c], radix, q) == Some(n)
    ensures if q == 0 then Read(Shown(n, radix, uppercase), radix) == Some(n)
            else q < n && Shown(n, radix, uppercase) == Shown(q, radix, uppercase) + [c]
  {
    hide DigitOf, Pool, Shown, ReadFrom, Read;
    var r: nat;
    q, r := LastDigitOf(n, radix, uppercase);
    c := Pool(uppercase)[r];
    PoolDigit(r, radix, uppercase);
    LastDigit(c, radix, q, r);
    OneDigit(c, radix);
  }

  lemma LastDigitOf(n: nat, radix: nat, uppercase: bool) returns (q: nat, r: nat)
    requires IsRadix(radix)
    ensures n == q * radix + r && r < radix
    ensures if q == 0 then Shown(n, radix, uppercase) == [Pool(uppercase)[r]]
            else q < n && Shown(n, radix, uppercase) == Shown(q, radix, uppercase) + [Pool(uppercase)[r]]
  {
    ShownStep(n, radix, uppercase);
    hide Pool, Shown;
    q, r := n / radix, n % radix;
  }

  lemma OneDigit(c: char, radix: nat)
    ensures Read([c], radix) == ReadFrom([c], radix, 0)
  {
    hide ReadFrom;
  }

  lemma ReadAppended(s: string, c: char, radix: nat)
    requires Read(s, radix).Some?
    ensures Read(s + [c], radix) == ReadFrom([c], radix, Read(s, radix).value)
  {
    ReadOneMore(s, c, radix, 0);
    hide ReadFrom;
  }

  lemma LastDigit(c: char, radix: nat, acc: nat, d: nat)
    requires DigitOf(c, radix) == Some(d) && acc * radix + d < TWO_128
    ensures ReadFrom([c], radix, acc) == Some(acc * radix + d)
  {
    hide DigitOf;
    assert [c][1..] == "";
  }

  // There is no leading zero but in zero itself.
  lemma {:induction false} NoLeadingZero(n: nat, radix: nat, uppercase: bool)
    requires IsRadix(radix)
    ensures Shown(n, radix, uppercase)[0] == '0' <==> n == 0
    decreases n
  {
    PoolDigit(if n < radix then n else 0, radix, uppercase);
    hide Pool;
    if n >= radix {
      QuotientSmaller(n, radix);
      NoLeadingZero(n / radix, radix, uppercase);
    }
  }

  // Printing is injective: different values look different.
  lemma PrintedIsUnique(m: nat, n: nat, radix: nat, uppercase: bool)
    requires IsRadix(radix) && m < TWO_128 && n < TWO_128
    ensures Shown(m, radix, uppercase) == Shown(n, radix, uppercase) <==> m == n
  {
    PrintedIsReadBack(m, radix, uppercase);
    PrintedIsReadBack(n, radix, uppercase);
    hide Shown, Read;
  }

  function UpperChar(c: char): (u: char)
    ensures 'a' <= c <= 'z' ==> u as int == c as int - 32
  {
    if 'a' <= c <= 'z' then (c as int - 32) as char else c
  }

  function Upper(s: string): (r: string)
    ensures |r| == |s|
  {
    if s == "" then "" else [UpperChar(s[0])] + Upper(s[1..])
  }

  // Without leading zeros; of zeros alone the last one stays.
  function Unpadded(s: string): string {
    if |s| > 1 && s[0] == '0' then Unpadded(s[1..]) else s
  }

  lemma UpperDigit(c: char, radix: nat)
    requires IsRadix(radix)
    ensures DigitOf(UpperChar(c), radix) == DigitOf(c, radix)
    ensures DigitOf(c, radix).Some? ==> DigitOf(c, radix).value < radix && Pool(true)[DigitOf(c, radix).value] == UpperChar(c)
  {
    if DigitOf(c, radix).Some? { UpperPool(DigitOf(c, radix).value); }
    hide UPPERCASE, LOWERCASE;
  }

  lemma ShownAppended(acc: nat, d: nat, radix: nat)
    requires IsRadix(radix) && d < radix
    ensures Shown(acc * radix + d, radix, true) == if acc == 0 then [Pool(true)[d]] else Shown(acc, radix, true) + [Pool(true)[d]]
  {
    hide Shown, Pool;
    var n := acc * radix + d;
    Quotient(n, radix, acc, d);
    ShownStep(n, radix, true);
  }

  lemma {:induction false} ReadOnIsPrinted(s: string, radix: nat, acc: nat)
    requires IsRadix(radix) && acc > 0 && ReadFrom(s, radix, acc).Some?
    ensures Shown(ReadFrom(s, radix, acc).value, radix, true) == Shown(acc, radix, true) + Upper(s)
    decreases |s|
  {
    hide Shown, Pool, DigitOf, UpperChar;
    if s != "" {
      var d := DigitOf(s[0], radix).value;
      UpperDigit(s[0], radix);
      ShownAppended(acc, d, radix);
      Grows(acc, radix);
      ReadOnIsPrinted(s[1..], radix, acc * radix + d);
      Moved(Shown(acc, radix, true), UpperChar(s[0]), Upper(s[1..]));
    }
  }

  lemma {:induction false} ReadIsPrinted(s: string, radix: nat)
    requires IsRadix(radix) && Read(s, radix).Some?
    ensures Unpadded(Upper(s)) == Shown(Read(s, radix).value, radix, true)
    decreases |s|
  {
    var d := DigitOf(s[0], radix).value;
    UpperDigit(s[0], radix);
    PoolDigit(d, radix, true);
    ShownAppended(0, d, radix);
    hide Shown, Pool, DigitOf, UpperChar;
    assert ReadFrom(s, radix, 0) == ReadFrom(s[1..], radix, d);
    assert Upper(s)[1..] == Upper(s[1..]);
    if d > 0 {
      ReadOnIsPrinted(s[1..], radix, d);
    } else if s[1..] != "" {
      ReadIsPrinted(s[1..], radix);
    } else {
      assert Upper("") == "";
    }
  }

  lemma {:induction false} UpperIsReadAlike(s: string, radix: nat, acc: nat)
    requires IsRadix(radix)
    ensures ReadFrom(Upper(s), radix, acc) == ReadFrom(s, radix, acc)
    decreases |s|
  {
    hide DigitOf, UpperChar, ReadFrom;
    ReadFirst(s, radix, acc);
    ReadFirst(Upper(s), radix, acc);
    if s != "" {
      UpperDigit(s[0], radix);
      var d := DigitOf(s[0], radix);
      assert Upper(s)[1..] == Upper(s[1..]);
      if d.Some? { UpperIsReadAlike(s[1..], radix, acc * radix + d.value); }
    }
  }

  lemma ReadFirst(s: string, radix: nat, acc: nat)
    ensures ReadFrom(s, radix, acc) ==
      if s == "" then Some(acc) else
      var d := DigitOf(s[0], radix);
      if d.None? || acc * radix + d.value >= TWO_128 then None else ReadFrom(s[1..], radix, acc * radix + d.value)
  {
    hide DigitOf;
  }

  lemma {:induction false} UnpaddedIsReadAlike(s: string, radix: nat)
    requires IsRadix(radix)
    ensures Read(Unpadded(s), radix) == Read(s, radix)
    decreases |s|
  {
    if |s| > 1 && s[0] == '0' {
      assert DigitOf('0', radix) == Some(0);
      hide DigitOf;
      UnpaddedIsReadAlike(s[1..], radix);
    }
  }

  // Exactly the strings are read that print again, but for the case of letters and leading
  // zeros: what is read is the number that prints so, and everything else fails.
  lemma ReadExactly(s: string, radix: nat, n: nat)
    requires 2 <= radix <= 36 && n < 0x1_0000_0000_0000_0000_0000_0000_0000_0000
    ensures Read(s, radix) == Some(n) <==> s != "" && Unpadded(Upper(s)) == Shown(n, radix, true)
  {
    if Read(s, radix).Some? {
      ReadIsPrinted(s, radix);
    }
    if s != "" && Unpadded(Upper(s)) == Shown(n, radix, true) {
      PrintedIsReadBack(n, radix, true);
      UnpaddedIsReadAlike(Upper(s), radix);
      UpperIsReadAlike(s, radix, 0);
      assert Upper(s) != "";
    }
    hide Shown, ReadFrom, Unpadded, Upper;
  }

  function Prefix(s: string): string { if |s| < 2 then s else s[..2] }

  function DetermineRadix(s: string): nat {
    if Prefix(s) == "0b" then 2 else if Prefix(s) == "0o" then 8 else if Prefix(s) == "0x" then 16 else 10
  }

  // Read a string with its radix in front, or none.
  function ValueFromString(s: string): Option<nat> {
    var radix := DetermineRadix(s);
    Read(if radix == 10 || |s| < 2 then s else s[2..], radix)
  }

  lemma {:induction false} DecimalDigits(n: nat, uppercase: bool, i: nat)
    requires i < |Shown(n, 10, uppercase)|
    ensures '0' <= Shown(n, 10, uppercase)[i] <= '9'
    decreases n
  {
    PoolDigit(n % 10, 10, uppercase);
    hide Pool;
    if n >= 10 && i < |Shown(n / 10, 10, uppercase)| {
      DecimalDigits(n / 10, uppercase, i);
    }
  }

  // The decimal form is always taken for decimal, and read back.
  lemma DecimalIsReadBack(n: nat, uppercase: bool)
    requires n < TWO_128
    ensures DetermineRadix(Shown(n, 10, uppercase)) == 10
    ensures ValueFromString(Shown(n, 10, uppercase)) == Some(n)
  {
    var s := Shown(n, 10, uppercase);
    PrintedIsReadBack(n, 10, uppercase);
    if |s| >= 2 {
      DecimalDigits(n, uppercase, 1);
      assert s[..2][1] == s[1];
    }
    hide Shown, Read;
  }

  // A form with its radix in front is read back too.
  lemma PrefixedIsReadBack(n: nat, uppercase: bool)
    requires n < TWO_128
    ensures ValueFromString("0b" + Shown(n, 2, uppercase)) == Some(n)
    ensures ValueFromString("0o" + Shown(n, 8, uppercase)) == Some(n)
    ensures ValueFromString("0x" + Shown(n, 16, uppercase)) == Some(n)
  {
    PrintedIsReadBack(n, 2, uppercase);
    PrintedIsReadBack(n, 8, uppercase);
    PrintedIsReadBack(n, 16, uppercase);
    hide Shown, Read;
    assert ("0b" + Shown(n, 2, uppercase))[..2] == "0b" && ("0b" + Shown(n, 2, uppercase))[2..] == Shown(n, 2, uppercase);
    assert ("0o" + Shown(n, 8, uppercase))[..2] == "0o" && ("0o" + Shown(n, 8, uppercase))[2..] == Shown(n, 8, uppercase);
    assert ("0x" + Shown(n, 16, uppercase))[..2] == "0x" && ("0x" + Shown(n, 16, uppercase))[2..] == Shown(n, 16, uppercase);
  }
}
