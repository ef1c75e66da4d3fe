/** What the CRC register means. */
module CrcTheory {
  // It is the remainder of a division by the generator polynomial over GF(2), and there are changes of a message that
  // it must notice. Section 3.4 of RFC 2083 fixes the polynomial, the reflected bit order, the all-ones start and the
  // final complement.
  import opened Words
  import opened Crc32

  // ---------- the shift is linear and loses nothing ----------

  lemma XorCancels(a: seq<bool>, b: seq<bool>, m: seq<bool>)
    requires |a| == |b| == |m| && Xor(a, m) == Xor(b, m)
    ensures a == b
  {
    forall i | 0 <= i < |a|
      ensures a[i] == b[i]
    {
      assert Xor(a, m)[i] == Xor(b, m)[i];
    }
  }

  /** The exponents of the generator below x^32. */
  const EXPONENTS: set<int> := {26, 23, 22, 16, 12, 11, 10, 8, 7, 5, 4, 2, 1, 0}

  /** The generator without its leading term, coefficient of x^31 first. */
  function Taps(): (t: Register)
    ensures t[31]
  {
    seq(32, i => (31 - i) in EXPONENTS)
  }

  lemma PolynomialIsTaps()
    ensures Polynomial() == Taps()
  {
    PolynomialBytes();
    Byte20();
    Byte83();
    ByteB8();
    ByteEd();
  }

  lemma PolynomialBytes()
    ensures BitsOf(0xedb8_8320, 32)
         == BitsOf(0xedb8_8320, 8) + BitsOf(0xed_b883, 8) + BitsOf(0xedb8, 8) + BitsOf(0xed, 8)
  {
    var width := 8;
    assert Power2(width) == 256;
    BitsSplit(0xedb8_8320, width, 24, 0xed_b883);
    BitsSplit(0xed_b883, width, 16, 0xedb8);
    BitsSplit(0xedb8, width, 8, 0xed);
  }

  lemma Byte20()
    ensures BitsOf(0xedb8_8320, 8) == [false, false, false, false, false, true, false, false]
  {
  }

  lemma Byte83()
    ensures BitsOf(0xed_b883, 8) == [true, true, false, false, false, false, false, true]
  {
  }

  lemma ByteB8()
    ensures BitsOf(0xedb8, 8) == [false, false, false, true, true, true, false, true]
  {
  }

  lemma ByteEd()
    ensures BitsOf(0xed, 8) == [true, false, true, true, false, true, true, true]
  {
  }

  lemma ShiftIsLinear(c: Register, d: Register)
    ensures Shift(Xor(c, d)) == Xor(Shift(c), Shift(d))
  {
  }

  lemma ShiftInjective(c: Register, d: Register)
    requires Shift(c) == Shift(d)
    ensures c == d
  {
    PolynomialIsTaps();
    assert Shift(c)[31] == c[0] && Shift(d)[31] == d[0];
    XorCancels(c[1..] + [false], d[1..] + [false], if c[0] then Polynomial() else Zeros(32));
    forall i | 1 <= i < 32
      ensures c[i] == d[i]
    {
      assert (c[1..] + [false])[i - 1] == (d[1..] + [false])[i - 1];
    }
  }

  lemma {:induction false} ShiftsInjective(c: Register, d: Register, n: nat)
    requires Shifts(c, n) == Shifts(d, n)
    ensures c == d
    decreases n
  {
    hide Shift;
    if n > 0 {
      ShiftsInjective(Shift(c), Shift(d), n - 1);
      ShiftInjective(c, d);
    }
  }

  // ---------- one bit at a time ----------

  /** The order in which the message enters the register: bytes in order, lowest bit first. */
  function MessageBits(bytes: seq<byte>): (m: seq<bool>)
    ensures |m| == 8 * |bytes|
  {
    if bytes == [] then [] else BitsOf(bytes[0], 8) + MessageBits(bytes[1..])
  }

  function Step(c: Register, b: bool): Register {
    Shift([c[0] != b] + c[1..])
  }

  function Run(c: Register, m: seq<bool>): Register
    decreases |m|
  {
    if m == [] then c else Run(Step(c, m[0]), m[1..])
  }

  lemma {:induction false} RunAppend(c: Register, a: seq<bool>, b: seq<bool>)
    ensures Run(c, a + b) == Run(Run(c, a), b)
    decreases |a|
  {
    if a == [] {
      assert a + b == b;
    } else {
      assert (a + b)[1..] == a[1..] + b;
      RunAppend(Step(c, a[0]), a[1..], b);
    }
  }

  function Padded(w: seq<bool>): Register
    requires |w| <= 32
  {
    w + Zeros(32 - |w|)
  }

  /** Shifting a register that was combined with a word leaves the rest of the word, one place down. */
  lemma ShiftPadded(c: Register, w: seq<bool>)
    requires 1 <= |w| <= 32
    ensures Shift(Xor(c, Padded(w))) == Xor(Step(c, w[0]), Padded(w[1..]))
  {
    var a: Register := [c[0] != w[0]] + c[1..];
    var b: Register := [false] + w[1..] + Zeros(32 - |w|);
    assert Xor(c, Padded(w)) == Xor(a, b);
    ShiftIsLinear(a, b);
    assert Shift(b) == Padded(w[1..]);
  }

  /** Up to 32 bits may enter the register at once. */
  lemma {:induction false} RunIsShifts(c: Register, w: seq<bool>)
    requires |w| <= 32
    ensures Shifts(Xor(c, Padded(w)), |w|) == Run(c, w)
    decreases |w|
  {
    hide Shift, Step;
    if w == [] {
      assert Xor(c, Padded(w)) == c;
    } else {
      ShiftPadded(c, w);
      RunIsShifts(Step(c, w[0]), w[1..]);
    }
  }

  lemma {:induction false} FeedIsRun(c: Register, bytes: seq<byte>)
    ensures Feed(c, bytes) == Run(c, MessageBits(bytes))
    decreases |bytes|
  {
    hide Shifts, Shift, Step;
    if bytes != [] {
      var w := BitsOf(bytes[0], 8);
      RunIsShifts(c, w);
      assert Absorb(c, bytes[0]) == Run(c, w);
      RunAppend(c, w, MessageBits(bytes[1..]));
      FeedIsRun(Absorb(c, bytes[0]), bytes[1..]);
    }
  }

  // ---------- bursts ----------

  lemma {:induction false} RunInjectiveInState(c: Register, d: Register, m: seq<bool>)
    requires Run(c, m) == Run(d, m)
    ensures c == d
    decreases |m|
  {
    if m != [] {
      RunInjectiveInState(Step(c, m[0]), Step(d, m[0]), m[1..]);
      ShiftInjective([c[0] != m[0]] + c[1..], [d[0] != m[0]] + d[1..]);
      assert c == [c[0]] + c[1..] && d == [d[0]] + d[1..];
      assert ([c[0] != m[0]] + c[1..])[0] == ([d[0] != m[0]] + d[1..])[0];
      assert ([c[0] != m[0]] + c[1..])[1..] == c[1..] && ([d[0] != m[0]] + d[1..])[1..] == d[1..];
    }
  }

  lemma RunInjectiveInBurst(c: Register, u: seq<bool>, v: seq<bool>)
    requires |u| == |v| <= 32 && Run(c, u) == Run(c, v)
    ensures u == v
  {
    RunIsShifts(c, u);
    RunIsShifts(c, v);
    ShiftsInjective(Xor(c, Padded(u)), Xor(c, Padded(v)), |u|);
    forall i | 0 <= i < |u|
      ensures u[i] == v[i]
    {
      assert Xor(c, Padded(u))[i] == Xor(c, Padded(v))[i];
      assert Padded(u)[i] == u[i] && Padded(v)[i] == v[i];
    }
  }

  /** Two messages whose bits differ only inside a window of at most 32 have different checksums,
      wherever the window lies, whatever surrounds it and however long the messages are. */
  lemma BurstDetected(x: seq<byte>, y: seq<byte>, before: seq<bool>, u: seq<bool>, v: seq<bool>, after: seq<bool>)
    requires |u| == |v| <= 32 && u != v
    requires MessageBits(x) == before + u + after && MessageBits(y) == before + v + after
    ensures Number(x) != Number(y)
  {
    if Number(x) == Number(y) {
      BitsOfNumber(Crc(x));
      BitsOfNumber(Crc(y));
      XorCancels(Feed(Ones(32), x), Feed(Ones(32), y), Ones(32));
      FeedIsRun(Ones(32), x);
      FeedIsRun(Ones(32), y);
      RunAppend(Ones(32), before + u, after);
      RunAppend(Ones(32), before + v, after);
      RunAppend(Ones(32), before, u);
      RunAppend(Ones(32), before, v);
      var c := Run(Ones(32), before);
      RunInjectiveInState(Run(c, u), Run(c, v), after);
      RunInjectiveInBurst(c, u, v);
    }
  }

  lemma {:induction false} MessageBitsAppend(x: seq<byte>, y: seq<byte>)
    ensures MessageBits(x + y) == MessageBits(x) + MessageBits(y)
  {
    if x == [] {
      assert x + y == y;
    } else {
      assert (x + y)[1..] == x[1..] + y;
      MessageBitsAppend(x[1..], y);
    }
  }

  lemma {:induction false} MessageBitsInjective(x: seq<byte>, y: seq<byte>)
    requires MessageBits(x) == MessageBits(y)
    ensures x == y
  {
    hide BitsOf;
    assert |x| == |y|;
    if x != [] {
      assert BitsOf(x[0], 8) == MessageBits(x)[..8] && BitsOf(y[0], 8) == MessageBits(y)[..8];
      ByteBitsInjective(x[0], y[0]);
      assert MessageBits(x)[8..] == MessageBits(x[1..]) && MessageBits(y)[8..] == MessageBits(y[1..]);
      MessageBitsInjective(x[1..], y[1..]);
      assert x == [x[0]] + x[1..] && y == [y[0]] + y[1..];
    }
  }

  /** Changing up to four consecutive bytes always changes the checksum. */
  lemma ChangedBytesDetected(before: seq<byte>, u: seq<byte>, v: seq<byte>, after: seq<byte>)
    requires |u| == |v| <= 4 && u != v
    ensures Number(before + u + after) != Number(before + v + after)
  {
    MessageBitsAppend(before + u, after);
    MessageBitsAppend(before + v, after);
    MessageBitsAppend(before, u);
    MessageBitsAppend(before, v);
    if MessageBits(u) == MessageBits(v) {
      MessageBitsInjective(u, v);
    }
    BurstDetected(before + u + after, before + v + after,
                  MessageBits(before), MessageBits(u), MessageBits(v), MessageBits(after));
  }

  // ---------- division of polynomials over GF(2), highest power first ----------

  /** x^32 + x^26 + x^23 + x^22 + x^16 + x^12 + x^11 + x^10 + x^8 + x^7 + x^5 + x^4 + x^2 + x + 1 */
  function Generator(): (g: seq<bool>)
    ensures |g| == 33 && g[0]
  {
    [true] + Taps()
  }

  function GeneratorIf(b: bool): (g: seq<bool>)
    ensures |g| == 33 && g[0] == b
  {
    if b then Generator() else Zeros(33)
  }

  /** The product of q and the generator. */
  function Times(q: seq<bool>): (p: seq<bool>)
    ensures |p| == |q| + 32
  {
    if q == [] then Zeros(32)
    else Xor(GeneratorIf(q[0]) + Zeros(|q| - 1), [false] + Times(q[1..]))
  }

  /** What is divided: the message times x^32, with `start` added to its 32 leading coefficients. */
  function Dividend(start: Register, m: seq<bool>): (p: seq<bool>)
    ensures |p| == |m| + 32
  {
    Xor(start + Zeros(|m|), m + Zeros(32))
  }

  function QuotientAndRemainder(q: seq<bool>, r: Register): (p: seq<bool>)
    ensures |p| == |q| + 32
  {
    Xor(Times(q), Zeros(|q|) + r)
  }

  function Quotient(c: Register, m: seq<bool>): (q: seq<bool>)
    ensures |q| == |m|
    decreases |m|
  {
    if m == [] then [] else [c[0] != m[0]] + Quotient(Step(c, m[0]), m[1..])
  }

  lemma StepAt(c: Register, b: bool, i: nat)
    requires i < 32
    ensures Step(c, b)[i] == ((i < 31 && c[i + 1]) != ((c[0] != b) && Taps()[i]))
  {
    PolynomialIsTaps();
    assert ([c[0] != b] + c[1..])[1..] == c[1..];
  }

  /** One step of long division, coefficient by coefficient. */
  lemma StepCoefficients(c: Register, b: bool, i: nat)
    requires 1 <= i < 33
    ensures GeneratorIf(c[0] != b)[i] == ((i < 32 && c[i]) != Step(c, b)[i - 1])
  {
    StepAt(c, b, i - 1);
  }

  lemma DividendAt(c: Register, m: seq<bool>, i: nat)
    requires i < |m| + 32
    ensures Dividend(c, m)[i] == ((i < 32 && c[i]) != (i < |m| && m[i]))
  {
  }

  lemma TimesAt(q: seq<bool>, r: Register, i: nat)
    requires q != [] && i < |q| + 32
    ensures i == 0 ==> QuotientAndRemainder(q, r)[0] == q[0]
    ensures i > 0 ==>
              QuotientAndRemainder(q, r)[i]
              == ((i < 33 && GeneratorIf(q[0])[i]) != QuotientAndRemainder(q[1..], r)[i - 1])
  {
  }

  /** One coefficient of the division, given the division of what follows the first step. */
  lemma DivisionAt(c: Register, m: seq<bool>, next: Register, q: seq<bool>, r: Register, i: nat)
    requires |m| == |q| > 0 && i < |m| + 32
    requires q[0] == (c[0] != m[0])
    requires forall j :: 1 <= j < 33 ==> GeneratorIf(q[0])[j] == ((j < 32 && c[j]) != next[j - 1])
    requires Dividend(next, m[1..]) == QuotientAndRemainder(q[1..], r)
    ensures Dividend(c, m)[i] == QuotientAndRemainder(q, r)[i]
  {
    hide Dividend, QuotientAndRemainder;
    DividendAt(c, m, i);
    TimesAt(q, r, i);
    if i > 0 {
      DividendAt(next, m[1..], i - 1);
    }
  }

  /** The register holds the remainder of the division. */
  lemma {:induction false} RunDivides(c: Register, m: seq<bool>)
    ensures Dividend(c, m) == QuotientAndRemainder(Quotient(c, m), Run(c, m))
    decreases |m|
  {
    hide Step;
    var q, r := Quotient(c, m), Run(c, m);
    if m == [] {
      assert Dividend(c, m) == c;
    } else {
      var next := Step(c, m[0]);
      RunDivides(next, m[1..]);
      assert q[1..] == Quotient(next, m[1..]);
      forall j | 1 <= j < 33
        ensures GeneratorIf(q[0])[j] == ((j < 32 && c[j]) != next[j - 1])
      {
        StepCoefficients(c, m[0], j);
      }
      forall i | 0 <= i < |m| + 32
        ensures Dividend(c, m)[i] == QuotientAndRemainder(q, r)[i]
      {
        DivisionAt(c, m, next, q, r, i);
      }
    }
  }

  /** There is only one quotient and one remainder of degree below 32. */
  lemma {:induction false} DivisionUnique(q: seq<bool>, r: Register, q': seq<bool>, r': Register)
    requires |q| == |q'| && QuotientAndRemainder(q, r) == QuotientAndRemainder(q', r')
    ensures q == q' && r == r'
    decreases |q|
  {
    if q == [] {
      assert QuotientAndRemainder(q, r) == r && QuotientAndRemainder(q', r') == r';
    } else {
      TailsAgree(q, r, q', r');
      DivisionUnique(q[1..], r, q'[1..], r');
      assert q == [q[0]] + q[1..] && q' == [q'[0]] + q'[1..];
    }
  }

  lemma TailsAgree(q: seq<bool>, r: Register, q': seq<bool>, r': Register)
    requires |q| == |q'| > 0 && QuotientAndRemainder(q, r) == QuotientAndRemainder(q', r')
    ensures q[0] == q'[0]
    ensures QuotientAndRemainder(q[1..], r) == QuotientAndRemainder(q'[1..], r')
  {
    hide QuotientAndRemainder;
    TimesAt(q, r, 0);
    TimesAt(q', r', 0);
    forall i | 0 <= i < |q| + 31
      ensures QuotientAndRemainder(q[1..], r)[i] == QuotientAndRemainder(q'[1..], r')[i]
    {
      TimesAt(q, r, i + 1);
      TimesAt(q', r', i + 1);
    }
  }

  ghost predicate IsRemainder(p: seq<bool>, r: Register)
    requires |p| >= 32
  {
    exists q :: |q| == |p| - 32 && p == QuotientAndRemainder(q, r)
  }

  /** The checksum is the complement of the remainder that the message leaves, read with the
      coefficient of x^31 in the lowest bit; and nothing else is. */
  lemma CrcIsRemainder(bytes: seq<byte>, r: Register)
    ensures IsRemainder(Dividend(Ones(32), MessageBits(bytes)), r) <==> Crc(bytes) == Xor(r, Ones(32))
  {
    var m := MessageBits(bytes);
    var p := Dividend(Ones(32), m);
    var run := Run(Ones(32), m);
    FeedIsRun(Ones(32), bytes);
    RunDivides(Ones(32), m);
    assert IsRemainder(p, run);
    if IsRemainder(p, r) {
      var q :| |q| == |p| - 32 && p == QuotientAndRemainder(q, r);
      DivisionUnique(q, r, Quotient(Ones(32), m), run);
    }
    if Crc(bytes) == Xor(r, Ones(32)) {
      XorCancels(run, r, Ones(32));
    }
  }
}
