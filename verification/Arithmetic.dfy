/** Extremes, entries with a default, and facts about products and quotients. */
module Arithmetic {
  function Max(a: int, b: int): int { if a < b then b else a }

  function Min(a: int, b: int): int { if a < b then a else b }

  /** An entry of a sequence; a missing one counts as zero. */
  function At(s: seq<nat>, i: nat): nat { if i < |s| then s[i] else 0 }

  lemma MulMono(x: nat, y: nat, z: nat)
    requires y <= z
    ensures x * y <= x * z && y * x <= z * x
  {
  }

  /** Dividing by 256 and then by `b` is dividing by the product. */
  lemma ByteQuotient(n: nat, b: nat)
    requires b > 0
    ensures n / 256 / b == n / (256 * b)
  {
    var x := n / 256;
    var q, r := x / b, x % b;
    Rescaled(b, q);
    QuotientIs(n, 256 * b, q, 256 * r + n % 256);
  }

  lemma Rescaled(b: nat, q: nat)
    ensures (256 * b) * q == 256 * (b * q)
  {
  }

  lemma QuotientIs(n: nat, d: nat, q: nat, r: nat)
    requires d > 0 && n == d * q + r && r < d
    ensures n / d == q
  {
    QuotientAtLeast(n, d, q);
    assert (q + 1) * d == d * q + d;
    QuotientBelow(n, d, q + 1);
  }

  lemma QuotientAtMost(a: nat, b: nat, m: nat)
    requires b > 0 && a <= m * b
    ensures a / b <= m
  {
    assert a == a / b * b + a % b;
    if m + 1 <= a / b {
      MulMono(b, m + 1, a / b);
    }
  }

  lemma QuotientBelow(a: nat, b: nat, m: nat)
    requires b > 0 && a < m * b
    ensures a / b < m
  {
    assert a == a / b * b + a % b;
    if m <= a / b {
      MulMono(b, m, a / b);
    }
  }

  lemma QuotientAtLeast(a: nat, b: nat, m: nat)
    requires b > 0 && a >= m * b
    ensures a / b >= m
  {
    assert a == a / b * b + a % b;
    if a / b + 1 <= m {
      MulMono(b, a / b + 1, m);
    }
  }
}
