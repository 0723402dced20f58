/** Integer arithmetic the index code relies on: C++ division and remainder truncate toward
    zero, Dafny's are Euclidean. */
module Arith {

  /** C++ `a / d` for a positive divisor. */
  function TruncDiv(a: int, d: int): int
    requires d > 0
  {
    if a >= 0 then a / d else -((-a) / d)
  }

  /** C++ `a % d` for a positive divisor: it takes the sign of `a`. */
  function TruncMod(a: int, d: int): int
    requires d > 0
  {
    a - TruncDiv(a, d) * d
  }

  lemma {:induction false} TruncDivMod(a: int, d: int)
    requires d > 0
    ensures a >= 0 ==> TruncDiv(a, d) == a / d && TruncMod(a, d) == a % d
    ensures a >= 0 ==> TruncDiv(a, d) >= 0 && 0 <= TruncMod(a, d) < d
    ensures a <= 0 ==> TruncDiv(a, d) <= 0 && -d < TruncMod(a, d) <= 0
  {
    if a >= 0 {
      assert a == (a / d) * d + a % d;
    } else {
      assert -a == ((-a) / d) * d + (-a) % d;
    }
  }

  /** Quotient and remainder are the only pair that fits. */
  lemma {:induction false} DivModUnique(q: int, r: int, d: int)
    requires 0 <= r < d
    ensures (q * d + r) / d == q && (q * d + r) % d == r
  {
    var a := q * d + r;
    assert a == (a / d) * d + a % d;
    var k := a / d - q;
    assert k * d == r - a % d;
    if k >= 1 {
      MulMono(1, k, d);
    } else if k <= -1 {
      MulMono(k, -1, d);
    }
  }

  lemma {:induction false} MulMono(a: int, b: int, d: int)
    requires a <= b && d >= 0
    ensures a * d <= b * d
  {
  }

  lemma {:induction false} MulStrict(a: int, b: int, d: int)
    requires d > 0
    ensures a < b <==> a * d < b * d
  {
    if a < b { MulMono(a + 1, b, d); } else { MulMono(b, a, d); }
  }

  lemma {:induction false} MulPositive(a: int, b: int)
    requires a >= 1 && b >= 1
    ensures a * b >= 1 && a * b >= a && a * b >= b
  {
    MulMono(1, a, b);
    MulMono(1, b, a);
  }

  lemma {:induction false} DivBounds(a: int, d: int, n: int)
    requires d > 0
    ensures a / d < n <==> a < n * d
    ensures a / d >= 0 <==> a >= 0
  {
    assert a == (a / d) * d + a % d;
    if a / d < n { MulMono(a / d + 1, n, d); } else { MulMono(n, a / d, d); }
    if a / d >= 0 { MulMono(0, a / d, d); } else { MulMono(a / d, -1, d); }
  }

  /** Two-digit numbers compare digit by digit. */
  lemma {:induction false} DigitOrder(a: int, r: int, c: int, t: int, d: int)
    requires 0 <= r < d && 0 <= t < d
    ensures a * d + r < c * d + t <==> a < c || (a == c && r < t)
    ensures a * d + r == c * d + t <==> a == c && r == t
  {
    if a < c {
      MulMono(a + 1, c, d);
    } else if c < a {
      MulMono(c + 1, a, d);
    }
  }
}
