/** ECMAScript's bitwise operators on whole numbers, which work on signed 32-bit words,
    and masks as sets of bits. */
module BitMask {
  import opened Arithmetic
  import opened Words

  const TWO_31: nat := 0x8000_0000
  const TWO_32: nat := 0x1_0000_0000

  function And(a: nat, b: nat): nat {
    if a == 0 || b == 0 then 0 else 2 * And(a / 2, b / 2) + (a % 2) * (b % 2)
  }

  function Or(a: nat, b: nat): nat {
    if a == 0 then b else if b == 0 then a
    else 2 * Or(a / 2, b / 2) + if a % 2 == 1 || b % 2 == 1 then 1 else 0
  }

  /** The operands are taken modulo 2^32 and the result is signed. */
  function Signed(n: nat): int {
    if n >= TWO_31 then n - TWO_32 else n
  }

  /** The one number from -2^31 up to 2^31 that is equal to n modulo 2^32. */
  lemma SignedIsCongruent(n: nat, v: int)
    requires n < TWO_32
    ensures v == Signed(n) <==> -0x8000_0000 <= v < 0x8000_0000 && v % 0x1_0000_0000 == n
  {
  }

  function JsAnd(a: int, b: int): int {
    Signed(And(a % TWO_32, b % TWO_32))
  }

  function JsOr(a: int, b: int): int {
    Signed(Or(a % TWO_32, b % TWO_32))
  }

  predicate Bit(n: nat, i: nat) {
    if i == 0 then n % 2 == 1 else Bit(n / 2, i - 1)
  }

  lemma {:induction false} BitOfZero(i: nat)
    ensures !Bit(0, i)
  {
    if i > 0 {
      BitOfZero(i - 1);
    }
  }

  lemma {:induction false} BitOfAnd(a: nat, b: nat, i: nat)
    ensures Bit(And(a, b), i) <==> Bit(a, i) && Bit(b, i)
    decreases i
  {
    BitOfZero(i);
    if a != 0 && b != 0 && i > 0 {
      BitOfAnd(a / 2, b / 2, i - 1);
    }
  }

  lemma {:induction false} BitOfOr(a: nat, b: nat, i: nat)
    ensures Bit(Or(a, b), i) <==> Bit(a, i) || Bit(b, i)
    decreases i
  {
    BitOfZero(i);
    if a != 0 && b != 0 && i > 0 {
      BitOfOr(a / 2, b / 2, i - 1);
    }
  }

  lemma {:induction false} AndAtMost(a: nat, b: nat)
    ensures And(a, b) <= a && And(a, b) <= b
  {
    if a != 0 && b != 0 {
      AndAtMost(a / 2, b / 2);
    }
  }

  /** Numbers below 2^k are their k bits. */
  lemma {:induction false} BitsDetermine(a: nat, b: nat, k: nat)
    requires a < Power2(k) && b < Power2(k)
    requires forall i: nat :: i < k ==> (Bit(a, i) <==> Bit(b, i))
    ensures a == b
  {
    if k > 0 {
      assert Bit(a, 0) <==> Bit(b, 0);
      forall i: nat | i < k - 1
        ensures Bit(a / 2, i) <==> Bit(b / 2, i)
      {
        assert Bit(a, i + 1) <==> Bit(b, i + 1);
      }
      BitsDetermine(a / 2, b / 2, k - 1);
    }
  }

  lemma {:induction false} HighBitsZero(a: nat, i: nat, k: nat)
    requires a < Power2(k) && i >= k
    ensures !Bit(a, i)
  {
    if k == 0 {
      BitOfZero(i);
    } else {
      HighBitsZero(a / 2, i - 1, k - 1);
    }
  }

  lemma {:induction false} OrBelow(a: nat, b: nat, k: nat)
    requires a < Power2(k) && b < Power2(k)
    ensures Or(a, b) < Power2(k)
    decreases k
  {
    if a != 0 && b != 0 {
      OrBelow(a / 2, b / 2, k - 1);
    }
  }

  lemma {:induction false} AndCommutes(a: nat, b: nat)
    ensures And(a, b) == And(b, a)
  {
    if a != 0 && b != 0 {
      AndCommutes(a / 2, b / 2);
    }
  }

  /** And with k ones keeps the k lowest bits. */
  lemma {:induction false} LowBits(u: nat, k: nat)
    ensures And(u, Power2(k) - 1) == u % Power2(k)
    decreases k
  {
    if k > 0 {
      LowBits(u / 2, k - 1);
      HalfRemainder(u, Power2(k - 1));
      AndWithOdd(u, Power2(k - 1) - 1);
    }
  }

  lemma AndWithOdd(u: nat, half: nat)
    ensures And(u, 2 * half + 1) == 2 * And(u / 2, half) + u % 2
  {
    assert (2 * half + 1) / 2 == half && (2 * half + 1) % 2 == 1;
  }

  lemma HalfRemainder(u: nat, p: nat)
    requires p >= 1
    ensures u % (2 * p) == 2 * (u / 2 % p) + u % 2
  {
    var h := u / 2;
    var q, r := h / p, h % p;
    assert u == q * (2 * p) + (2 * r + u % 2) by {
      assert h == q * p + r;
    }
    QuotientUnique(u, 2 * p, q, 2 * r + u % 2);
  }

  lemma {:induction false} BitOfRemainder(u: nat, k: nat, i: nat)
    requires i < k
    ensures Bit(u % Power2(k), i) <==> Bit(u, i)
    decreases k
  {
    PowerIsDouble(k);
    RemainderHalves(u, Power2(k - 1));
    hide Power2;
    if i > 0 {
      BitOfRemainder(u / 2, k - 1, i - 1);
    }
  }

  lemma PowerIsDouble(k: nat)
    requires k > 0
    ensures Power2(k) == 2 * Power2(k - 1) && Power2(k - 1) >= 1
  {
  }

  lemma RemainderHalves(u: nat, p: nat)
    requires p >= 1
    ensures u % (2 * p) / 2 == u / 2 % p && u % (2 * p) % 2 == u % 2
  {
    HalfRemainder(u, p);
  }

  lemma FiveBitNumbers()
    ensures Power2(5) == 32
  {
  }

  lemma JsAndSmall(mask: nat, requirement: int)
    requires mask < 32
    ensures JsAnd(mask, requirement) == And(mask, requirement % TWO_32) <= mask
  {
    hide And;
    SmallRemainder(mask);
    AndAtMost(mask, requirement % TWO_32);
  }

  lemma SmallRemainder(n: nat)
    requires n < TWO_32
    ensures n % TWO_32 == n
  {
  }

  /** The five registered bits of the first number are all set in the second. */
  ghost predicate BitsWithin(few: nat, many: nat) {
    forall i: nat :: i < 5 && Bit(few, i) ==> Bit(many, i)
  }

  /** A requirement is covered by a mask below 32 exactly when it is itself below 32 and each of its bits is set. */
  lemma CoversExactly(mask: nat, requirement: int)
    requires mask < 32
    ensures JsAnd(mask, requirement) == requirement <==> 0 <= requirement < 32 && BitsWithin(requirement, mask)
  {
    hide And, JsAnd, BitsWithin;
    JsAndSmall(mask, requirement);
    if 0 <= requirement < 32 {
      SmallRemainder(requirement);
      CoveredBits(mask, requirement);
    } else {
      AndAtMost(mask, requirement % TWO_32);
    }
  }

  lemma CoveredBits(mask: nat, requirement: nat)
    requires mask < 32 && requirement < 32
    ensures And(mask, requirement) == requirement <==> BitsWithin(requirement, mask)
  {
    hide And, Bit, Power2;
    var both := And(mask, requirement);
    AndAtMost(mask, requirement);
    FiveBitNumbers();
    forall i: nat
      ensures Bit(both, i) <==> Bit(mask, i) && Bit(requirement, i)
    {
      BitOfAnd(mask, requirement, i);
    }
    if BitsWithin(requirement, mask) {
      BitsDetermine(both, requirement, 5);
    }
  }

  lemma RemainderTwice(n: int)
    ensures n % TWO_32 % 32 == n % 32
  {
    var q, r := n / TWO_32, n % TWO_32;
    assert n == 32 * (q * 0x800_0000) + r;
    WholeTimes(q * 0x800_0000, r);
  }

  lemma WholeTimes(k: int, r: int)
    ensures (32 * k + r) % 32 == r % 32
  {
  }

  /** Keeping the five lowest bits. */
  lemma AndWith31(n: int)
    ensures JsAnd(n, 31) == n % 32
  {
    hide And, Power2;
    FiveBitNumbers();
    RemainderTwice(n);
    SmallRemainder(31);
    LowBits(n % TWO_32, 5);
  }

  lemma JsOrSmall(a: nat, b: nat)
    requires a < 32 && b < 32
    ensures JsOr(a, b) == Or(a, b) < 32
  {
    hide Or, Power2;
    FiveBitNumbers();
    SmallRemainder(a);
    SmallRemainder(b);
    OrBelow(a, b, 5);
  }
}
