/** Strings as sequences of code units: splitting and joining on one character, padding,
    and decimal numerals with and without leading zeros. */
module Text {

  // ---------- split and join on one character ----------

  function Split(s: string, sep: char): (parts: seq<string>)
    ensures |parts| >= 1
  {
    if s == "" then [""]
    else
      var rest := Split(s[1..], sep);
      if s[0] == sep then [""] + rest else [[s[0]] + rest[0]] + rest[1..]
  }

  function Join(parts: seq<string>, sep: char): string
    requires parts != []
  {
    if |parts| == 1 then parts[0] else parts[0] + [sep] + Join(parts[1..], sep)
  }

  lemma {:induction false} SplitWithout(s: string, sep: char)
    requires sep !in s
    ensures Split(s, sep) == [s]
  {
    if s != "" {
      SplitWithout(s[1..], sep);
      assert s == [s[0]] + s[1..];
    }
  }

  lemma {:induction false} SplitFirst(p: string, rest: string, sep: char)
    requires sep !in p
    ensures Split(p + [sep] + rest, sep) == [p] + Split(rest, sep)
  {
    var s := p + [sep] + rest;
    if p == "" {
      assert s[1..] == rest;
    } else {
      assert s[1..] == p[1..] + [sep] + rest;
      SplitFirst(p[1..], rest, sep);
      assert p == [p[0]] + p[1..];
    }
  }

  lemma {:induction false} SplitJoin(parts: seq<string>, sep: char)
    requires parts != [] && forall p :: p in parts ==> sep !in p
    ensures Split(Join(parts, sep), sep) == parts
  {
    assert parts[0] in parts;
    if |parts| == 1 {
      SplitWithout(parts[0], sep);
    } else {
      SplitJoin(parts[1..], sep);
      SplitFirst(parts[0], Join(parts[1..], sep), sep);
    }
  }

  lemma {:induction false} JoinSplit(s: string, sep: char)
    ensures Join(Split(s, sep), sep) == s
    ensures forall p :: p in Split(s, sep) ==> sep !in p
  {
    if s != "" {
      JoinSplit(s[1..], sep);
      var rest := Split(s[1..], sep);
      assert rest == [rest[0]] + rest[1..];
      assert s == [s[0]] + s[1..];
      if s[0] == sep {
        assert ([""] + rest)[1..] == rest;
      } else {
        var parts := [[s[0]] + rest[0]] + rest[1..];
        assert parts[1..] == rest[1..];
        assert rest[0] in rest;
        forall p | p in parts
          ensures sep !in p
        {
          assert p == parts[0] || p in rest;
        }
      }
    }
  }

  // ---------- repeated characters ----------

  function Repeat(c: char, n: nat): (s: string)
    ensures |s| == n && forall i :: 0 <= i < n ==> s[i] == c
  {
    seq(n, i => c)
  }

  function PadStart(s: string, width: nat, c: char): string {
    if |s| >= width then s else Repeat(c, width - |s|) + s
  }

  function PadEnd(s: string, width: nat, c: char): string {
    if |s| >= width then s else s + Repeat(c, width - |s|)
  }

  // ---------- decimal numerals ----------

  predicate IsDigit(c: char) {
    '0' <= c <= '9'
  }

  predicate AllDigits(s: string) {
    forall i :: 0 <= i < |s| ==> IsDigit(s[i])
  }

  function DigitValue(c: char): (d: nat)
    requires IsDigit(c)
    ensures d < 10
  {
    c as int - '0' as int
  }

  function Digit(d: nat): (c: char)
    requires d < 10
    ensures IsDigit(c) && DigitValue(c) == d
  {
    ('0' as int + d) as char
  }

  /** The number a digit string denotes, leading zeros or not; the empty string denotes 0. */
  function Value(s: string): nat
    requires AllDigits(s)
  {
    if s == "" then 0 else Value(s[..|s| - 1]) * 10 + DigitValue(s[|s| - 1])
  }

  /** Number.toString and BigInt.toString on non-negative numbers. */
  function Print(n: nat): (s: string)
    ensures AllDigits(s) && s != ""
  {
    if n < 10 then [Digit(n)] else Print(n / 10) + [Digit(n % 10)]
  }

  lemma {:induction false} ValueOfPrint(n: nat)
    ensures Value(Print(n)) == n
  {
    if n >= 10 {
      ValueOfPrint(n / 10);
      assert Print(n)[..|Print(n)| - 1] == Print(n / 10);
    } else {
      assert Print(n)[..0] == "";
    }
  }

  function Pow10(n: nat): (p: nat)
    ensures p >= 1
  {
    if n == 0 then 1 else 10 * Pow10(n - 1)
  }

  lemma {:induction false} Pow10Add(a: nat, b: nat)
    ensures Pow10(a + b) == Pow10(a) * Pow10(b)
  {
    if a > 0 {
      Pow10Add(a - 1, b);
      TenTimes(Pow10(a - 1), Pow10(b));
    }
  }

  lemma TenTimes(x: int, y: int)
    ensures 10 * x * y == 10 * (x * y)
  {
  }

  lemma {:induction false} ValueBound(s: string)
    requires AllDigits(s)
    ensures Value(s) < Pow10(|s|)
  {
    if s != "" {
      ValueBound(s[..|s| - 1]);
    }
  }

  lemma {:induction false} ValueConcat(a: string, b: string)
    requires AllDigits(a) && AllDigits(b)
    ensures AllDigits(a + b) && Value(a + b) == Value(a) * Pow10(|b|) + Value(b)
  {
    if b == "" {
      assert a + b == a;
    } else {
      var c := b[..|b| - 1];
      ValueConcat(a, c);
      assert (a + b)[..|a + b| - 1] == a + c;
      ShiftDigit(Value(a), Pow10(|c|), Value(c), DigitValue(b[|b| - 1]));
    }
  }

  lemma ShiftDigit(x: nat, p: nat, y: nat, d: nat)
    ensures (x * p + y) * 10 + d == x * (10 * p) + (y * 10 + d)
  {
  }

  lemma {:induction false} ValueOfZeros(n: nat)
    ensures AllDigits(Repeat('0', n)) && Value(Repeat('0', n)) == 0
  {
    if n > 0 {
      ValueOfZeros(n - 1);
      assert Repeat('0', n)[..n - 1] == Repeat('0', n - 1);
    }
  }

  /** Digits around a point, or alone. */
  lemma SplitAtPoint(whole: string, fraction: string)
    requires AllDigits(whole) && AllDigits(fraction)
    ensures Split(whole + "." + fraction, '.') == [whole, fraction]
    ensures Split(whole, '.') == [whole]
  {
    assert '.' !in whole && '.' !in fraction;
    SplitFirst(whole, fraction, '.');
    SplitWithout(fraction, '.');
    SplitWithout(whole, '.');
  }

  /** Leading zeros do not change the value, trailing ones multiply it. */
  lemma ValueOfPadded(s: string, n: nat)
    requires AllDigits(s)
    ensures AllDigits(Repeat('0', n) + s) && Value(Repeat('0', n) + s) == Value(s)
    ensures AllDigits(s + Repeat('0', n)) && Value(s + Repeat('0', n)) == Value(s) * Pow10(n)
  {
    ValueOfZeros(n);
    ValueConcat(Repeat('0', n), s);
    ValueConcat(s, Repeat('0', n));
  }

  /** A numeral without superfluous leading zeros. */
  predicate IsCanonical(s: string) {
    s != "" && AllDigits(s) && (s[0] == '0' ==> |s| == 1)
  }

  lemma {:induction false} PrintIsCanonical(n: nat)
    ensures IsCanonical(Print(n)) && (n > 0 ==> Print(n)[0] != '0')
  {
    if n >= 10 {
      PrintIsCanonical(n / 10);
    }
  }

  lemma {:induction false} CanonicalPositive(s: string)
    requires AllDigits(s) && s != "" && s[0] != '0'
    ensures Value(s) > 0
  {
    if |s| > 1 {
      CanonicalPositive(s[..|s| - 1]);
    } else {
      assert s[..0] == "";
    }
  }

  /** Printing undoes reading on canonical numerals. */
  lemma {:induction false} PrintOfValue(s: string)
    requires IsCanonical(s)
    ensures Print(Value(s)) == s
  {
    var n := |s| - 1;
    if n == 0 {
      assert s[..0] == "";
      assert s == [s[0]];
    } else {
      CanonicalPositive(s[..n]);
      PrintOfValue(s[..n]);
      assert s == s[..n] + [s[n]];
      assert Value(s) / 10 == Value(s[..n]) && Value(s) % 10 == DigitValue(s[n]);
    }
  }
}
