/** The few facts about products, quotients and remainders that the components share. */
module Arithmetic {
  lemma AtLeast(a: int, d: nat)
    requires a >= 1
    ensures a * d >= d
  {
  }

  lemma Associates(a: nat, b: nat, c: nat)
    ensures a * (b * c) == (a * b) * c
  {
  }

  lemma TimesMonotone(a: nat, b: nat, d: nat)
    requires a <= b
    ensures a * d <= b * d
  {
  }

  /** Quotient and remainder are determined. */
  lemma DivUnique(n: nat, d: nat, q: nat, r: nat)
    requires d > 0 && n == q * d + r && r < d
    ensures n / d == q && n % d == r
  {
    var q1, r1 := n / d, n % d;
    assert n == q1 * d + r1;
    assert (q1 - q) * d == q1 * d - q * d == r - r1;
    if q1 > q {
      AtLeast(q1 - q, d);
    } else if q1 < q {
      AtLeast(q - q1, d);
    }
  }

  /** How many pieces of size `d` cover `a`. */
  function CeilDiv(a: nat, d: nat): nat
    requires d > 0
  {
    a / d + (if a % d == 0 then 0 else 1)
  }

  /** A piece exists exactly when it starts before the end. */
  lemma CeilDivBounds(a: nat, d: nat, k: nat)
    requires d > 0
    ensures k < CeilDiv(a, d) <==> k * d < a
  {
    var q, r := a / d, a % d;
    assert a == q * d + r;
    if k <= q {
      TimesMonotone(k, q, d);
      if k < q {
        TimesMonotone(k + 1, q, d);
        assert (k + 1) * d == k * d + d;
      }
    } else {
      TimesMonotone(q + 1, k, d);
      assert (q + 1) * d == q * d + d;
    }
  }
}
