// Multiplication and division of variables, step by step.
module Arithmetic {
  lemma Distributes(a: int, b: int, c: int)
    ensures (a + b) * c == a * c + b * c
  {
  }

  lemma Associates(a: int, b: int, c: int)
    ensures a * b * c == a * (b * c) == a * c * b
  {
  }

  lemma Monotone(a: int, b: int, c: nat)
    requires a <= b
    ensures a * c <= b * c
  {
  }

  lemma Grows(q: nat, d: nat)
    requires d > 0
    ensures q * d >= q
  {
  }

  lemma Parts(n: int, d: int)
    requires d > 0
    ensures n == n / d * d + n % d && 0 <= n % d < d
  {
  }

  lemma NoMultiple(e: int, d: int)
    requires d > 0 && -d < e * d < d
    ensures e == 0
  {
    if e >= 1 { Monotone(1, e, d); }
    if e <= -1 { Monotone(e, -1, d); }
  }

  // Quotient and remainder are determined by where they put the number.
  lemma Quotient(n: int, d: int, q: int, r: int)
    requires d > 0 && n == q * d + r && 0 <= r < d
    ensures n / d == q && n % d == r
  {
    Parts(n, d);
    var e := n / d - q;
    Distributes(n / d, -q, d);
    Associates(-1, q, d);
    NoMultiple(e, d);
  }

  lemma ShrinksBy(a: nat, d: nat)
    requires d > 0
    ensures 0 <= a / d <= a
  {
    Parts(a, d);
    Grows(a / d, d);
  }

  // Dividing by a product is dividing by its factors.
  lemma DividesInSteps(n: nat, a: nat, b: nat)
    requires a > 0 && b > 0
    ensures a * b > 0 && n / (a * b) == n / a / b
  {
    var q, r := n / a, n % a;
    var u, w := q / b, q % b;
    Parts(n, a);
    Parts(q, b);
    Positive(a, b);
    Distributes(u * b, w, a);
    Associates(u, b, a);
    assert b * a == a * b;
    Monotone(w, b - 1, a);
    Distributes(b, -1, a);
    Quotient(n, a * b, u, w * a + r);
  }

  lemma Positive(a: nat, b: nat)
    requires a > 0 && b > 0
    ensures a * b > 0
  {
  }

  // A number is below the bound of its quotient.
  lemma Below(n: nat, d: nat, b: nat)
    requires d > 0 && n < b * d
    ensures n / d < b
  {
    Parts(n, d);
    if n / d >= b { Monotone(b, n / d, d); }
  }
}
