/** Division facts used in several modules: when a quotient is the floor or the ceiling,
    how products compare, and how factors cancel. */
module Arithmetic {

  function Min(a: int, b: int): int {
    if a <= b then a else b
  }

  function Max(a: int, b: int): int {
    if a >= b then a else b
  }

  lemma NextMultiple(q: int, d: int)
    ensures (q + 1) * d == q * d + d
  {
  }

  lemma ProductOfNats(a: nat, b: nat)
    ensures a * b >= 0
  {
  }

  lemma PositiveFactor(a: nat, b: nat)
    requires a * b >= 1
    ensures a >= 1
  {
  }

  lemma DistributeGap(p: int, q: int, d: int)
    ensures (p - q - 1) * d == p * d - q * d - d
  {
  }

  /** Distinct multiples of d are at least d apart. */
  lemma MulGap(q: int, p: int, d: nat)
    ensures q < p ==> q * d + d <= p * d
  {
    if q < p {
      ProductOfNats(p - q - 1, d);
      DistributeGap(p, q, d);
    }
  }

  lemma QuotientUnique(n: int, d: nat, q: int, r: nat)
    requires d >= 1 && n == q * d + r && r < d
    ensures n / d == q && n % d == r
  {
    MulGap(q, n / d, d);
    MulGap(n / d, q, d);
  }

  lemma DivideTwice(n: nat, a: nat, b: nat)
    requires a >= 1 && b >= 1
    ensures a * b >= 1 && n / a / b == n / (a * b)
  {
    var q, r := n / a / b, n / a % b;
    var s := r * a + n % a;
    assert n == q * (a * b) + s by {
      assert n == (n / a) * a + n % a && n / a == q * b + r;
      assert (q * b + r) * a == q * (a * b) + r * a;
    }
    assert s < a * b by {
      MulGap(r, b, a);
      assert b * a == a * b;
    }
    assert a * b >= 1 by {
      MulGap(0, b, a);
    }
    QuotientUnique(n, a * b, q, s);
  }

  /** Division rounding up, as the bigint expression (n + d - 1) / d computes it. */
  function CeilDiv(n: nat, d: nat): nat
    requires d >= 1
  {
    (n + d - 1) / d
  }

  lemma MulMonotone(a: nat, b: nat, k: nat)
    requires a <= b
    ensures a * k <= b * k
  {
  }

  /** k units of weight d reach n. */
  predicate Covers(k: nat, d: nat, n: nat) {
    k * d >= n
  }

  /** u is the least number of units of weight d that reach n. */
  ghost predicate IsLeastCover(u: nat, d: nat, n: nat) {
    forall k: nat :: Covers(k, d, n) <==> k >= u
  }

  /** The ceiling is the least k with k * d >= n. */
  lemma CeilIsLeast(n: nat, d: nat)
    requires d >= 1
    ensures IsLeastCover(CeilDiv(n, d), d, n)
    ensures CeilDiv(n, d) * d < n + d
  {
    var c := CeilDiv(n, d);
    var r := (n + d - 1) % d;
    assert n + d - 1 == c * d + r;
    forall k: nat
      ensures Covers(k, d, n) <==> k >= c
    {
      if k >= c {
        MulMonotone(c, k, d);
      } else {
        MulGap(k, c, d);
      }
    }
  }

  lemma CancelFactor(a: int, b: int, k: nat)
    requires k >= 1
    ensures a * k >= b * k <==> a >= b
    ensures a * k == b * k <==> a == b
  {
    MulGap(a, b, k);
    MulGap(b, a, k);
  }
}
