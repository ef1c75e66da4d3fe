/** Bytes, and machine words as their bits, lowest bit first: what shifts and exclusive or
    do to the number they stand for, and which numbers fit into a word. */
module Words {
  import opened Arithmetic

  type byte = b: int | 0 <= b < 256

  function Zeros(n: nat): (z: seq<bool>)
    ensures |z| == n && forall i :: 0 <= i < n ==> !z[i]
  {
    seq(n, i => false)
  }

  function Ones(n: nat): (z: seq<bool>)
    ensures |z| == n && forall i :: 0 <= i < n ==> z[i]
  {
    seq(n, i => true)
  }

  /** The exclusive or of two words of the same width. */
  function Xor(a: seq<bool>, b: seq<bool>): (c: seq<bool>)
    requires |a| == |b|
    ensures |c| == |a| && forall i :: 0 <= i < |c| ==> c[i] == (a[i] != b[i])
  {
    seq(|a|, i requires 0 <= i < |a| => a[i] != b[i])
  }

  /** The lowest `width` bits of a number. */
  function BitsOf(n: nat, width: nat): (b: seq<bool>)
    ensures |b| == width
    decreases width
  {
    if width == 0 then [] else [n % 2 == 1] + BitsOf(n / 2, width - 1)
  }

  function NumberOf(b: seq<bool>): nat {
    if b == [] then 0 else (if b[0] then 1 else 0) + 2 * NumberOf(b[1..])
  }

  function Power2(n: nat): (p: nat)
    ensures p >= 1
  {
    if n == 0 then 1 else 2 * Power2(n - 1)
  }

  lemma {:induction false} NumberOfBits(n: nat, width: nat)
    requires n < Power2(width)
    ensures NumberOf(BitsOf(n, width)) == n
  {
    if width > 0 {
      NumberOfBits(n / 2, width - 1);
    }
  }

  lemma {:induction false} NumberBound(b: seq<bool>)
    ensures NumberOf(b) < Power2(|b|)
  {
    if b != [] {
      NumberBound(b[1..]);
    }
  }

  lemma {:induction false} BitsOfNumber(b: seq<bool>)
    ensures BitsOf(NumberOf(b), |b|) == b
  {
    if b != [] {
      BitsOfNumber(b[1..]);
      assert NumberOf(b) / 2 == NumberOf(b[1..]);
    }
  }

  /** The eight bits of a byte determine it. */
  lemma ByteBitsInjective(x: byte, y: byte)
    requires BitsOf(x, 8) == BitsOf(y, 8)
    ensures x == y
  {
    assert Power2(8) == 256;
    NumberOfBits(x, 8);
    NumberOfBits(y, 8);
  }

  lemma HalfThenPower(n: nat, low: nat)
    requires low > 0
    ensures n / 2 / Power2(low - 1) == n / Power2(low)
  {
    DivideTwice(n, 2, Power2(low - 1));
  }

  /** The lower bits, then the bits of the quotient. */
  lemma {:induction false} BitsSplit(n: nat, low: nat, high: nat, q: nat)
    requires q == n / Power2(low)
    ensures BitsOf(n, low + high) == BitsOf(n, low) + BitsOf(q, high)
    decreases low
  {
    if low > 0 {
      HalfThenPower(n, low);
      BitsSplit(n / 2, low - 1, high, q);
    }
  }
}
