/** Exact money arithmetic on decimal strings and whole units:
    rounding modes, steps, and conversion by a rate in both directions. */
module Money {
  import opened Arithmetic
  import opened Wrappers
  import opened Text

  datatype Rounding = Reject | Down | Up

  datatype MoneyError = InvalidDecimals | NotDecimal | TooPrecise | NegativeAmount | RateNotPositive | InvalidExponent

  // ---------- decimal strings ----------

  function Whole(s: string): string {
    Split(s, '.')[0]
  }

  function Fraction(s: string): string {
    if |Split(s, '.')| >= 2 then Split(s, '.')[1] else ""
  }

  /** ^(0|[1-9]\d*)(\.\d+)?$ */
  predicate IsDecimal(s: string) {
    && |Split(s, '.')| <= 2
    && IsCanonical(Whole(s))
    && AllDigits(Fraction(s))
    && (|Split(s, '.')| == 2 ==> Fraction(s) != "")
  }

  function DecimalPlaces(s: string): nat {
    |Fraction(s)|
  }

  /** The digits of the number without its point: the number is Digits(s) / 10^DecimalPlaces(s). */
  function Digits(s: string): nat
    requires IsDecimal(s)
  {
    Value(Whole(s) + Fraction(s))
  }

  /** The test /[1-9]/ on a digit string. */
  predicate HasNonZero(s: string) {
    exists i :: 0 <= i < |s| && '1' <= s[i] <= '9'
  }

  function DecimalToUnits(value: string, decimals: int, rounding: Rounding): Result<nat, MoneyError> {
    if decimals < 0 || decimals > 30 then Failure(InvalidDecimals)
    else if !IsDecimal(value) then Failure(NotDecimal)
    else
      var whole, fraction := Whole(value), Fraction(value);
      if |fraction| <= decimals then Success(Value(whole + PadEnd(fraction, decimals, '0')))
      else
        var kept, discarded := fraction[..decimals], fraction[decimals..];
        if rounding == Reject && HasNonZero(discarded) then Failure(TooPrecise)
        else
          var base := Value(whole + kept);
          Success(if rounding == Up && HasNonZero(discarded) then base + 1 else base)
  }

  function StripZeros(s: string): string {
    if s == "" || s[|s| - 1] != '0' then s else StripZeros(s[..|s| - 1])
  }

  /** The text of a non-negative number of units. */
  function PrintUnits(value: nat, decimals: nat): string {
    if decimals == 0 then Print(value)
    else
      var padded := PadStart(Print(value), decimals + 1, '0');
      var whole := padded[..|padded| - decimals];
      var fraction := StripZeros(padded[|padded| - decimals..]);
      if fraction != "" then whole + "." + fraction else whole
  }

  /** With a negative count of decimals the slices count from the front; no caller wants that result. */
  function UnitsToDecimal(value: int, decimals: int): Result<string, MoneyError> {
    if value < 0 then Failure(NegativeAmount)
    else if decimals >= 0 then Success(PrintUnits(value, decimals))
    else
      var text := Print(value);
      var cut := if -decimals < |text| then -decimals else |text|;
      var fraction := StripZeros(text[cut..]);
      Success(if fraction != "" then text[..cut] + "." + fraction else text[..cut])
  }

  datatype Quantized = Quantized(stepUnits: nat, amountUnits: nat)

  function QuantizeUnitsUp(value: int, decimals: int, maximumDecimals: int): Result<Quantized, MoneyError> {
    if value < 0 then Failure(NegativeAmount)
    else if decimals < 0 || decimals > 30 || maximumDecimals < 0 || maximumDecimals > 30 then Failure(InvalidDecimals)
    else
      var step := Pow10(if decimals > maximumDecimals then decimals - maximumDecimals else 0);
      Success(Quantized(step, CeilDiv(value, step) * step))
  }

  /** The least number of output units not below amount times rate. */
  function ConvertedUnits(amount: nat, amountDecimals: nat, rate: nat, rateDecimals: nat, outputDecimals: nat): nat {
    ProductOfNats(amount, rate);
    ProductOfNats(amount * rate, Pow10(outputDecimals));
    CeilDiv(amount * rate * Pow10(outputDecimals), Pow10(amountDecimals + rateDecimals))
  }

  function ConvertByRate(amount: string, amountDecimals: int, rate: string, rateDecimals: int, outputDecimals: int)
    : Result<string, MoneyError>
  {
    match DecimalToUnits(amount, amountDecimals, Reject)
    case Failure(e) => Failure(e)
    case Success(amountUnits) =>
      match DecimalToUnits(rate, rateDecimals, Reject)
      case Failure(e) => Failure(e)
      case Success(rateUnits) =>
        if outputDecimals < 0 then Failure(InvalidExponent)
        else
          UnitsToDecimal(
            ConvertedUnits(amountUnits, amountDecimals, rateUnits, rateDecimals, outputDecimals), outputDecimals)
  }

  /** The least number of output units not below amount divided by rate; `exponent` is the rate's decimals
      plus the output's. */
  function DividedUnits(amount: nat, amountDecimals: nat, rate: nat, exponent: nat): nat
    requires rate >= 1
  {
    ProductOfNats(amount, Pow10(exponent));
    MulGap(0, rate, Pow10(amountDecimals));
    CeilDiv(amount * Pow10(exponent), rate * Pow10(amountDecimals))
  }

  function DivideByRate(amount: string, amountDecimals: int, rate: string, rateDecimals: int, outputDecimals: int)
    : Result<string, MoneyError>
  {
    match DecimalToUnits(amount, amountDecimals, Reject)
    case Failure(e) => Failure(e)
    case Success(amountUnits) =>
      match DecimalToUnits(rate, rateDecimals, Reject)
      case Failure(e) => Failure(e)
      case Success(rateUnits) =>
        if rateUnits <= 0 then Failure(RateNotPositive)
        else if rateDecimals + outputDecimals < 0 then Failure(InvalidExponent)
        else
          UnitsToDecimal(
            DividedUnits(amountUnits, amountDecimals, rateUnits, rateDecimals + outputDecimals), outputDecimals)
  }

  // ---------- reading a decimal string ----------

  lemma {:induction false} NonZeroValue(s: string)
    requires AllDigits(s)
    ensures HasNonZero(s) <==> Value(s) > 0
  {
    if s != "" {
      var n := |s| - 1;
      NonZeroValue(s[..n]);
      if HasNonZero(s[..n]) {
        var i :| 0 <= i < n && '1' <= s[..n][i] <= '9';
        assert '1' <= s[i] <= '9';
      }
      if HasNonZero(s) {
        var i :| 0 <= i < |s| && '1' <= s[i] <= '9';
        assert i < n ==> '1' <= s[..n][i] <= '9';
      }
      if DigitValue(s[n]) > 0 {
        assert '1' <= s[n] <= '9';
      }
    }
  }

  /** The quotient and remainder that floor and ceiling come from. */
  lemma FloorAndCeil(n: nat, d: nat, q: nat, r: nat)
    requires d >= 1 && n == q * d + r && r < d
    ensures n / d == q && n % d == r
    ensures CeilDiv(n, d) == if r > 0 then q + 1 else q
  {
    QuotientUnique(n, d, q, r);
    if r > 0 {
      assert n + d - 1 == (q + 1) * d + (r - 1) by {
        NextMultiple(q, d);
      }
      QuotientUnique(n + d - 1, d, q + 1, r - 1);
    } else {
      QuotientUnique(n + d - 1, d, q, d - 1);
    }
  }

  lemma ScaleQuotient(n: nat, d: nat, k: nat)
    requires d >= 1 && k >= 1
    ensures d * k >= 1 && n * k / (d * k) == n / d && n * k % (d * k) == n % d * k
    ensures CeilDiv(n * k, d * k) == CeilDiv(n, d)
  {
    var q, r := n / d, n % d;
    MulGap(0, d, k);
    MulGap(r, d, k);
    ProductOfNats(r, k);
    Distribute(q, d, r, k);
    FloorAndCeil(n, d, q, r);
    FloorAndCeil(n * k, d * k, q, r * k);
    if r > 0 {
      MulGap(0, r, k);
    }
  }

  lemma Distribute(q: int, d: int, r: int, k: int)
    ensures (q * d + r) * k == q * (d * k) + r * k
  {
  }

  /** What the three rounding modes mean for the number that the text denotes. `Digits * 10^decimals` over
      `10^places` is the exact number of units: "down" is its floor, "up" its ceiling, and "reject"
      succeeds exactly when they agree. */
  lemma RoundingModes(value: string, decimals: int)
    requires 0 <= decimals <= 30 && IsDecimal(value)
    ensures var n := Digits(value) * Pow10(decimals);
            var d := Pow10(DecimalPlaces(value));
            && n >= 0
            && DecimalToUnits(value, decimals, Down) == Success(n / d)
            && DecimalToUnits(value, decimals, Up) == Success(CeilDiv(n, d))
            && DecimalToUnits(value, decimals, Reject) == (if n % d == 0 then Success(n / d) else Failure(TooPrecise))
  {
    var whole, fraction := Whole(value), Fraction(value);
    hide Value, Pow10, PadEnd, Whole, Fraction;
    ProductOfNats(Digits(value), Pow10(decimals));
    if |fraction| <= decimals {
      PaddedUnits(whole, fraction, decimals);
    } else {
      TruncatedUnits(whole, fraction, decimals);
    }
  }

  lemma PaddedUnits(whole: string, fraction: string, decimals: nat)
    requires AllDigits(whole) && AllDigits(fraction) && |fraction| <= decimals
    ensures var n := Value(whole + fraction) * Pow10(decimals);
            var d := Pow10(|fraction|);
            var u := Value(whole + PadEnd(fraction, decimals, '0'));
            n >= 0 && n / d == u && n % d == 0 && CeilDiv(n, d) == u
  {
    var k := decimals - |fraction|;
    var x := Value(whole + fraction);
    ValueOfPadded(whole + fraction, k);
    assert whole + PadEnd(fraction, decimals, '0') == whole + fraction + Repeat('0', k);
    Pow10Add(k, |fraction|);
    TimesTimes(x, Pow10(k), Pow10(|fraction|));
    ProductOfNats(x, Pow10(decimals));
    FloorAndCeil(x * Pow10(decimals), Pow10(|fraction|), x * Pow10(k), 0);
  }

  lemma TimesTimes(x: int, y: int, z: int)
    ensures x * (y * z) == x * y * z
  {
  }

  lemma TruncatedUnits(whole: string, fraction: string, decimals: nat)
    requires AllDigits(whole) && AllDigits(fraction) && |fraction| > decimals
    ensures var n := Value(whole + fraction) * Pow10(decimals);
            var d := Pow10(|fraction|);
            var base := Value(whole + fraction[..decimals]);
            var more := HasNonZero(fraction[decimals..]);
            n >= 0 && n / d == base && (n % d == 0 <==> !more) && CeilDiv(n, d) == if more then base + 1 else base
  {
    var kept, discarded := fraction[..decimals], fraction[decimals..];
    assert whole + fraction == whole + kept + discarded;
    ValueConcat(whole + kept, discarded);
    ValueBound(discarded);
    NonZeroValue(discarded);
    hide Value, Pow10, CeilDiv, HasNonZero;
    CutUnits(Value(whole + fraction), Value(whole + kept), Value(discarded), |discarded|, decimals);
  }

  lemma CutUnits(x: nat, base: nat, rest: nat, k: nat, decimals: nat)
    requires x == base * Pow10(k) + rest && rest < Pow10(k)
    ensures var n := x * Pow10(decimals);
            var d := Pow10(k + decimals);
            n >= 0 && n / d == base && (n % d == 0 <==> rest == 0)
            && CeilDiv(n, d) == if rest > 0 then base + 1 else base
  {
    hide Pow10, CeilDiv;
    FloorAndCeil(x, Pow10(k), base, rest);
    Pow10Add(k, decimals);
    ScaleQuotient(x, Pow10(k), Pow10(decimals));
    MulGap(0, rest, Pow10(decimals));
    ProductOfNats(x, Pow10(decimals));
    if rest == 0 {
      assert 0 * Pow10(decimals) == 0;
    }
  }

  // ---------- printing and reading back ----------

  lemma {:induction false} StripZerosSplit(s: string)
    ensures |StripZeros(s)| <= |s| && s == StripZeros(s) + Repeat('0', |s| - |StripZeros(s)|)
    ensures StripZeros(s) != "" ==> StripZeros(s)[|StripZeros(s)| - 1] != '0'
  {
    if s != "" && s[|s| - 1] == '0' {
      var n := |s| - 1;
      StripZerosSplit(s[..n]);
      var k := n - |StripZeros(s[..n])|;
      assert Repeat('0', k + 1) == Repeat('0', k) + "0";
      assert s == s[..n] + "0";
    }
  }

  /** The two parts of the padded numeral. */
  lemma PaddedParts(value: nat, decimals: nat)
    ensures var padded := PadStart(Print(value), decimals + 1, '0');
            && |padded| >= decimals + 1 && AllDigits(padded) && Value(padded) == value
            && IsCanonical(padded[..|padded| - decimals])
  {
    var text := Print(value);
    ValueOfPrint(value);
    PrintIsCanonical(value);
    if |text| < decimals + 1 {
      ValueOfPadded(text, decimals + 1 - |text|);
    }
  }

  /** A canonical decimal of at most `decimals` places without a trailing zero, whose digits filled up
      to `decimals` places have the given value. */
  predicate IsUnitsText(s: string, value: nat, decimals: nat) {
    && IsDecimal(s)
    && DecimalPlaces(s) <= decimals
    && Value(Whole(s) + PadEnd(Fraction(s), decimals, '0')) == value
    && (Fraction(s) != "" ==> Fraction(s)[|Fraction(s)| - 1] != '0')
  }

  lemma PartsMakeUnitsText(whole: string, fraction: string, value: nat, decimals: nat)
    requires IsCanonical(whole) && AllDigits(fraction) && |fraction| <= decimals
    requires AllDigits(whole + PadEnd(fraction, decimals, '0'))
    requires Value(whole + PadEnd(fraction, decimals, '0')) == value
    requires fraction != "" ==> fraction[|fraction| - 1] != '0'
    ensures IsUnitsText(if fraction != "" then whole + "." + fraction else whole, value, decimals)
  {
    SplitAtPoint(whole, fraction);
    hide Split, Value;
  }

  /** Cutting a padded numeral before its last `decimals` digits. */
  lemma PaddedMakesUnitsText(padded: string, value: nat, decimals: nat)
    requires |padded| >= decimals && AllDigits(padded) && Value(padded) == value
    requires IsCanonical(padded[..|padded| - decimals])
    ensures var whole, tail := padded[..|padded| - decimals], padded[|padded| - decimals..];
            var fraction := StripZeros(tail);
            IsUnitsText(if fraction != "" then whole + "." + fraction else whole, value, decimals)
  {
    hide IsUnitsText, Value, IsCanonical, AllDigits, StripZeros;
    var whole, tail := padded[..|padded| - decimals], padded[|padded| - decimals..];
    StripZerosSplit(tail);
    var fraction := StripZeros(tail);
    var zeros := Repeat('0', |tail| - |fraction|);
    assert padded == whole + tail;
    DigitsOfPart(padded, whole, tail);
    DigitsOfPart(tail, fraction, zeros);
    PadEndIs(fraction, decimals);
    hide PadEnd;
    PartsMakeUnitsText(whole, fraction, value, decimals);
  }

  lemma PadEndIs(s: string, width: nat)
    requires |s| <= width
    ensures PadEnd(s, width, '0') == s + Repeat('0', width - |s|)
  {
    assert |s| == width ==> s + Repeat('0', 0) == s;
  }

  lemma DigitsOfPart(s: string, a: string, b: string)
    requires s == a + b && AllDigits(s)
    ensures AllDigits(a) && AllDigits(b)
  {
    forall i | 0 <= i < |a|
      ensures IsDigit(a[i])
    {
      assert s[i] == a[i];
    }
    forall i | 0 <= i < |b|
      ensures IsDigit(b[i])
    {
      assert s[|a| + i] == b[i];
    }
  }

  lemma PrintedUnits(value: nat, decimals: nat)
    ensures IsUnitsText(PrintUnits(value, decimals), value, decimals)
  {
    hide IsUnitsText, Value, Print, IsCanonical, StripZeros;
    if decimals == 0 {
      ValueOfPrint(value);
      PrintIsCanonical(value);
      assert Print(value) + PadEnd("", 0, '0') == Print(value);
      PartsMakeUnitsText(Print(value), "", value, 0);
    } else {
      PaddedParts(value, decimals);
      hide PadStart;
      PaddedMakesUnitsText(PadStart(Print(value), decimals + 1, '0'), value, decimals);
    }
  }

  /** Reading a printed number of units gives it back, in every rounding mode. */
  lemma DecimalRoundTrip(value: nat, decimals: nat, rounding: Rounding)
    requires decimals <= 30
    ensures DecimalToUnits(PrintUnits(value, decimals), decimals, rounding) == Success(value)
  {
    PrintedUnits(value, decimals);
    hide PrintUnits, IsDecimal, Value;
  }

  // ---------- quantising ----------

  lemma {:induction false} ZeroValueIsZeros(s: string)
    requires AllDigits(s) && Value(s) == 0
    ensures s == Repeat('0', |s|)
  {
    if s != "" {
      var n := |s| - 1;
      ZeroValueIsZeros(s[..n]);
      assert s == s[..n] + [s[n]];
      assert s[n] == '0';
    }
  }

  lemma {:induction false} StripZerosShortens(s: string, k: nat)
    ensures |StripZeros(s + Repeat('0', k))| <= |s|
  {
    var t := s + Repeat('0', k);
    if k == 0 {
      assert t == s;
      StripZerosSplit(s);
    } else {
      assert t[..|t| - 1] == s + Repeat('0', k - 1);
      StripZerosShortens(s, k - 1);
    }
  }

  /** A multiple of 10^k ends in k zeros. */
  lemma MultipleEndsInZeros(s: string, k: nat, m: nat)
    requires AllDigits(s) && k <= |s| && Value(s) == m * Pow10(k)
    ensures s[|s| - k..] == Repeat('0', k)
  {
    var a, b := s[..|s| - k], s[|s| - k..];
    assert s == a + b;
    ValueConcat(a, b);
    ValueBound(b);
    QuotientUnique(Value(s), Pow10(k), Value(a), Value(b));
    QuotientUnique(Value(s), Pow10(k), m, 0);
    ZeroValueIsZeros(b);
  }

  lemma FewFractionDigits(padded: string, decimals: nat, k: nat, m: nat)
    requires k <= decimals <= |padded| && AllDigits(padded) && Value(padded) == m * Pow10(k)
    ensures |StripZeros(padded[|padded| - decimals..])| <= decimals - k
  {
    hide Value, StripZeros, Pow10;
    var tail := padded[|padded| - decimals..];
    MultipleEndsInZeros(padded, k, m);
    assert tail[decimals - k..] == padded[|padded| - k..];
    assert tail == tail[..decimals - k] + Repeat('0', k);
    StripZerosShortens(tail[..decimals - k], k);
  }

  lemma FewPlaces(value: nat, decimals: nat, k: nat, m: nat)
    requires k <= decimals && value == m * Pow10(k)
    ensures DecimalPlaces(PrintUnits(value, decimals)) <= decimals - k
  {
    hide Print, Value, Split, StripZeros;
    if decimals > 0 {
      var padded := PadStart(Print(value), decimals + 1, '0');
      PaddedParts(value, decimals);
      hide PadStart;
      FewFractionDigits(padded, decimals, k, m);
      var whole, tail := padded[..|padded| - decimals], padded[|padded| - decimals..];
      assert padded == whole + tail;
      DigitsOfPart(padded, whole, tail);
      StripZerosSplit(tail);
      DigitsOfPart(tail, StripZeros(tail), Repeat('0', |tail| - |StripZeros(tail)|));
      SplitAtPoint(whole, StripZeros(tail));
    } else {
      PrintedUnits(value, 0);
    }
  }

  /** The step is one unit of the last place kept, or one unit when no place is dropped. The quantised amount is the
      least multiple of the step that is not below the value, and its printed form
      has at most `maximumDecimals` places. */
  lemma QuantizeIsLeastMultiple(value: nat, decimals: nat, maximumDecimals: nat)
    requires decimals <= 30 && maximumDecimals <= 30
    ensures var q := QuantizeUnitsUp(value, decimals, maximumDecimals);
            && q.Success?
            && var Quantized(step, amount) := q.value;
            && step == Pow10(Max(0, decimals - maximumDecimals))
            && value <= amount < value + step
            && amount % step == 0
            && (forall k: nat :: Covers(k, step, value) ==> Covers(k, step, amount))
            && DecimalPlaces(PrintUnits(amount, decimals)) <= maximumDecimals
  {
    var k := if decimals > maximumDecimals then decimals - maximumDecimals else 0;
    var c := CeilDiv(value, Pow10(k));
    LeastMultiple(value, Pow10(k));
    hide Pow10, CeilDiv, Covers, PrintUnits, DecimalPlaces;
    FewPlaces(c * Pow10(k), decimals, k, c);
  }

  lemma LeastMultiple(value: nat, step: nat)
    requires step >= 1
    ensures var amount := CeilDiv(value, step) * step;
            && value <= amount < value + step && amount % step == 0
            && forall k: nat :: Covers(k, step, value) ==> Covers(k, step, amount)
  {
    var c := CeilDiv(value, step);
    CeilIsLeast(value, step);
    assert Covers(c, step, value);
    QuotientUnique(c * step, step, c, 0);
    forall j: nat | Covers(j, step, value)
      ensures Covers(j, step, c * step)
    {
      MulMonotone(c, j, step);
    }
  }

  // ---------- conversion ----------

  lemma DivisionEquation(n: nat, d: nat)
    requires d >= 1
    ensures n == n / d * d + n % d
  {
  }

  /** The exact number behind units read without rounding. */
  lemma ExactUnits(value: string, decimals: int, units: nat)
    requires DecimalToUnits(value, decimals, Reject) == Success(units)
    ensures IsDecimal(value) && 0 <= decimals
    ensures units * Pow10(DecimalPlaces(value)) == Digits(value) * Pow10(decimals)
  {
    RoundingModes(value, decimals);
    DivisionEquation(Digits(value) * Pow10(decimals), Pow10(DecimalPlaces(value)));
    hide Pow10, Digits, DecimalPlaces;
  }

  /** A comparison may be scaled on both sides. */
  lemma SameCover(k: nat, d1: nat, n1: nat, s1: nat, d2: nat, n2: nat, s2: nat)
    requires s1 >= 1 && s2 >= 1 && d1 * s1 == d2 * s2 && n1 * s1 == n2 * s2
    ensures Covers(k, d1, n1) <==> Covers(k, d2, n2)
  {
    CancelFactor(k * d1, n1, s1);
    CancelFactor(k * d2, n2, s2);
    TimesTimes(k, d1, s1);
    TimesTimes(k, d2, s2);
  }

  lemma FourFactors(a: int, b: int, c: int, d: int)
    ensures a * c * (b * d) == (a * b) * (c * d)
  {
    assert a * c * (b * d) == a * (c * b) * d;
  }

  lemma ProductScales(xu: nat, xp: nat, xd: nat, xa: nat, yu: nat, yp: nat, yd: nat, ya: nat, o: nat)
    requires xu * xp == xd * xa && yu * yp == yd * ya
    ensures xu * yu * o * (xp * yp) == xd * yd * o * (xa * ya)
  {
    FourFactors(xu, xp, yu, yp);
    FourFactors(xd, xa, yd, ya);
    MoveLast(xu * yu, o, xp * yp);
    MoveLast(xd * yd, o, xa * ya);
  }

  lemma MoveLast(x: int, o: int, y: int)
    ensures x * o * y == x * y * o
  {
  }

  /** `convertByRate` prints the least number of output units that is not below the exact product of the two
      decimal numbers; the decimals the arguments were read with play no part. */
  lemma ConvertIsLeast(amount: string, amountDecimals: int, rate: string, rateDecimals: int, outputDecimals: int)
    returns (units: nat)
    requires ConvertByRate(amount, amountDecimals, rate, rateDecimals, outputDecimals).Success?
    ensures outputDecimals >= 0 && IsDecimal(amount) && IsDecimal(rate)
    ensures ConvertByRate(amount, amountDecimals, rate, rateDecimals, outputDecimals)
         == Success(PrintUnits(units, outputDecimals))
    ensures var scale := Pow10(DecimalPlaces(amount) + DecimalPlaces(rate));
            var product := Digits(amount) * Digits(rate) * Pow10(outputDecimals);
            product >= 0 && IsLeastCover(units, scale, product)
  {
    var a := DecimalToUnits(amount, amountDecimals, Reject).value;
    var r := DecimalToUnits(rate, rateDecimals, Reject).value;
    units := ConvertedUnits(a, amountDecimals, r, rateDecimals, outputDecimals);
    ExactUnits(amount, amountDecimals, a);
    ExactUnits(rate, rateDecimals, r);
    hide DecimalToUnits, IsDecimal, Digits, DecimalPlaces, PrintUnits, Pow10, CeilDiv;
    var pa, pr, o := Pow10(DecimalPlaces(amount)), Pow10(DecimalPlaces(rate)), Pow10(outputDecimals);
    var da, dr := Pow10(amountDecimals), Pow10(rateDecimals);
    Pow10Add(amountDecimals, rateDecimals);
    Pow10Add(DecimalPlaces(amount), DecimalPlaces(rate));
    ProductScales(a, pa, Digits(amount), da, r, pr, Digits(rate), dr, o);
    ProductOfNats(a, r);
    ProductOfNats(Digits(amount), Digits(rate));
    ProductOfNats(a * r, o);
    ProductOfNats(Digits(amount) * Digits(rate), o);
    CeilIsLeast(a * r * o, da * dr);
    var product := Digits(amount) * Digits(rate) * o;
    var scale := pa * pr;
    forall k: nat
      ensures Covers(k, scale, product) <==> k >= units
    {
      assert Covers(k, da * dr, a * r * o) <==> k >= units;
      SameCover(k, da * dr, a * r * o, scale, scale, product, da * dr);
    }
  }

  lemma QuotientScales(xu: nat, xp: nat, xd: nat, xa: nat, yu: nat, yp: nat, yd: nat, ya: nat, o: nat)
    requires xu * xp == xd * xa && yu * yp == yd * ya
    ensures yu * xa * (yp * xp) == yd * xp * (ya * xa)
    ensures xu * (ya * o) * (yp * xp) == xd * (yp * o) * (ya * xa)
  {
    FourFactors(yu, yp, xa, xp);
    assert yd * ya * (xa * xp) == yd * xp * (ya * xa) by {
      FourFactors(yd, ya, xp, xa);
      assert xa * xp == xp * xa;
    }
    FactorsOfSix(xu, xp, ya, o, yp);
    FactorsOfSix(xd, xa, yp, o, ya);
    assert (xu * xp) * (ya * o * yp) == (xd * xa) * (yp * o * ya) by {
      assert ya * o * yp == yp * o * ya;
    }
  }

  lemma FactorsOfSix(x: int, p: int, y: int, o: int, q: int)
    ensures x * (y * o) * (q * p) == (x * p) * (y * o * q)
  {
    var z := y * o;
    assert x * z * (q * p) == (x * p) * (z * q);
  }

  lemma DividedCover(a: nat, pa: nat, na: nat, da: nat, r: nat, pr: nat, nr: nat, dr: nat, o: nat)
    requires a * pa == na * da && r * pr == nr * dr
    requires pa >= 1 && da >= 1 && pr >= 1 && dr >= 1 && o >= 1 && r >= 1
    ensures nr >= 1 && nr * pa >= 0 && na * (pr * o) >= 0 && a * (dr * o) >= 0 && r * da >= 1
    ensures IsLeastCover(CeilDiv(a * (dr * o), r * da), nr * pa, na * (pr * o))
  {
    QuotientScales(a, pa, na, da, r, pr, nr, dr, o);
    ProductOfNats(dr, o);
    ProductOfNats(pr, o);
    ProductOfNats(a, dr * o);
    ProductOfNats(na, pr * o);
    ProductOfNats(nr, pa);
    MulGap(0, r, da);
    MulGap(0, r, pr);
    MulGap(0, pr, pa);
    MulGap(0, dr, da);
    PositiveFactor(nr, dr);
    CeilIsLeast(a * (dr * o), r * da);
    var units := CeilDiv(a * (dr * o), r * da);
    var divisor, dividend := nr * pa, na * (pr * o);
    forall k: nat
      ensures Covers(k, divisor, dividend) <==> k >= units
    {
      assert Covers(k, r * da, a * (dr * o)) <==> k >= units;
      SameCover(k, r * da, a * (dr * o), pr * pa, divisor, dividend, dr * da);
    }
  }

  /** `divideByRate` prints the least number of output units that is not below the exact quotient. */
  lemma DivideIsLeast(amount: string, amountDecimals: int, rate: string, rateDecimals: int, outputDecimals: nat)
    returns (units: nat)
    requires DivideByRate(amount, amountDecimals, rate, rateDecimals, outputDecimals).Success?
    ensures IsDecimal(amount) && IsDecimal(rate) && Digits(rate) > 0
    ensures DivideByRate(amount, amountDecimals, rate, rateDecimals, outputDecimals)
         == Success(PrintUnits(units, outputDecimals))
    ensures var divisor := Digits(rate) * Pow10(DecimalPlaces(amount));
            var dividend := Digits(amount) * Pow10(DecimalPlaces(rate) + outputDecimals);
            divisor >= 0 && dividend >= 0 && IsLeastCover(units, divisor, dividend)
  {
    var a := DecimalToUnits(amount, amountDecimals, Reject).value;
    var r := DecimalToUnits(rate, rateDecimals, Reject).value;
    units := DividedUnits(a, amountDecimals, r, rateDecimals + outputDecimals);
    ExactUnits(amount, amountDecimals, a);
    ExactUnits(rate, rateDecimals, r);
    hide DecimalToUnits, IsDecimal, Digits, DecimalPlaces, PrintUnits, Pow10, CeilDiv;
    Pow10Add(rateDecimals, outputDecimals);
    Pow10Add(DecimalPlaces(rate), outputDecimals);
    DividedCover(a, Pow10(DecimalPlaces(amount)), Digits(amount), Pow10(amountDecimals),
                 r, Pow10(DecimalPlaces(rate)), Digits(rate), Pow10(rateDecimals), Pow10(outputDecimals));
  }

  lemma ThereAndBack(a: nat, r: nat, o: nat, s: nat, c: nat, back: nat)
    requires r >= 1 && o >= 1 && s >= 1 && r * o >= 1 && a * (r * o) >= 0 && c * s >= 0
    requires c == CeilDiv(a * (r * o), s) && back == CeilDiv(c * s, r * o)
    ensures a <= back && (back - a - 1) * (r * o) < s
  {
    var d := r * o;
    CeilIsLeast(a * d, s);
    CeilIsLeast(c * s, d);
    assert Covers(c, s, a * d) && Covers(back, d, c * s);
    CancelFactor(back, a, d);
    DistributeGap(back, a, d);
  }

  /** `back` is at least a, and exceeds it by less than one amount unit and one output unit divided by the rate:
      on the common scale, back - a - 1 < 10^scale / (r * 10^outputDecimals). */
  predicate CloseAbove(back: nat, a: nat, r: nat, outputDecimals: nat, scale: nat) {
    a <= back && (back - a - 1) * (r * Pow10(outputDecimals)) < Pow10(scale)
  }

  /** Converting an amount by a positive rate and dividing back never gives less, and gives more by less than
      one output unit divided by the rate plus one amount unit. */
  lemma ConvertThereAndBack(amount: string, amountDecimals: int, rate: string, rateDecimals: int, outputDecimals: int)
    returns (a: nat, r: nat, back: nat)
    requires ConvertByRate(amount, amountDecimals, rate, rateDecimals, outputDecimals).Success?
    requires outputDecimals <= 30 && DecimalToUnits(rate, rateDecimals, Reject) != Success(0)
    ensures DecimalToUnits(amount, amountDecimals, Reject) == Success(a)
    ensures DecimalToUnits(rate, rateDecimals, Reject) == Success(r) && r > 0
    ensures 0 <= outputDecimals && 0 <= amountDecimals && 0 <= rateDecimals
    ensures var there := ConvertByRate(amount, amountDecimals, rate, rateDecimals, outputDecimals).value;
            var again := DivideByRate(there, outputDecimals, rate, rateDecimals, amountDecimals);
            again.Success? && DecimalToUnits(again.value, amountDecimals, Reject) == Success(back)
    ensures CloseAbove(back, a, r, outputDecimals, amountDecimals + rateDecimals)
  {
    a := DecimalToUnits(amount, amountDecimals, Reject).value;
    r := DecimalToUnits(rate, rateDecimals, Reject).value;
    AcceptedDecimals(amount, amountDecimals);
    AcceptedDecimals(rate, rateDecimals);
    hide DecimalToUnits, PrintUnits, Pow10, ConvertedUnits, DividedUnits, CloseAbove;
    var c := ConvertedUnits(a, amountDecimals, r, rateDecimals, outputDecimals);
    back := DividedUnits(c, outputDecimals, r, rateDecimals + amountDecimals);
    DecimalRoundTrip(c, outputDecimals, Reject);
    DecimalRoundTrip(back, amountDecimals, Reject);
    UnitsThereAndBack(a, amountDecimals, r, rateDecimals, outputDecimals);
    var there := PrintUnits(c, outputDecimals);
    assert ConvertByRate(amount, amountDecimals, rate, rateDecimals, outputDecimals) == Success(there);
    assert DivideByRate(there, outputDecimals, rate, rateDecimals, amountDecimals)
        == Success(PrintUnits(back, amountDecimals));
  }

  lemma AcceptedDecimals(value: string, decimals: int)
    requires DecimalToUnits(value, decimals, Reject).Success?
    ensures 0 <= decimals <= 30
  {
  }

  lemma UnitsThereAndBack(a: nat, amountDecimals: nat, r: nat, rateDecimals: nat, outputDecimals: nat)
    requires r >= 1
    ensures var c := ConvertedUnits(a, amountDecimals, r, rateDecimals, outputDecimals);
            var back := DividedUnits(c, outputDecimals, r, rateDecimals + amountDecimals);
            CloseAbove(back, a, r, outputDecimals, amountDecimals + rateDecimals)
  {
    hide Pow10, CeilDiv;
    var c := ConvertedUnits(a, amountDecimals, r, rateDecimals, outputDecimals);
    var back := DividedUnits(c, outputDecimals, r, rateDecimals + amountDecimals);
    var o, s := Pow10(outputDecimals), Pow10(amountDecimals + rateDecimals);
    MulGap(0, r, o);
    TimesTimes(a, r, o);
    ProductOfNats(a, r);
    ProductOfNats(a * r, o);
    ProductOfNats(c, s);
    ThereAndBack(a, r, o, s, c, back);
  }

  // ---------- exactly what is accepted ----------

  /** A whole number without leading zeros, and a fraction of any digits behind a point or none. */
  predicate WritesDecimal(s: string, whole: string, fraction: string) {
    && IsCanonical(whole) && AllDigits(fraction)
    && s == if fraction == "" then whole else whole + "." + fraction
  }

  lemma DecimalExactly(s: string)
    ensures IsDecimal(s) <==> exists whole, fraction :: WritesDecimal(s, whole, fraction)
    ensures IsDecimal(s) ==> WritesDecimal(s, Whole(s), Fraction(s))
  {
    hide IsDecimal, WritesDecimal;
    if IsDecimal(s) {
      DecimalParts(s);
    }
    forall whole, fraction | WritesDecimal(s, whole, fraction)
      ensures IsDecimal(s)
    {
      WrittenIsDecimal(s, whole, fraction);
    }
  }

  lemma WrittenIsDecimal(s: string, whole: string, fraction: string)
    requires WritesDecimal(s, whole, fraction)
    ensures IsDecimal(s) && Whole(s) == whole && Fraction(s) == fraction
  {
    DigitsOfCanonical(whole);
    hide IsCanonical, Split;
    SplitAtPoint(whole, fraction);
  }

  lemma DigitsOfCanonical(s: string)
    requires IsCanonical(s)
    ensures AllDigits(s)
  {
  }

  lemma DecimalParts(s: string)
    requires IsDecimal(s)
    ensures WritesDecimal(s, Whole(s), Fraction(s))
  {
    var parts := Split(s, '.');
    JoinSplit(s, '.');
    hide Split;
    if |parts| == 2 {
      assert parts == [parts[0], parts[1]] && parts[1..] == [parts[1]];
      assert Join([parts[1]], '.') == parts[1];
    } else {
      assert parts == [parts[0]];
    }
  }

  /** Which amounts are refused, and why; how precise ones are rounded is said above. */
  lemma RefusedExactly(value: string, decimals: int, rounding: Rounding)
    ensures DecimalToUnits(value, decimals, rounding) == Failure(InvalidDecimals) <==> !(0 <= decimals <= 30)
    ensures DecimalToUnits(value, decimals, rounding) == Failure(NotDecimal) <==>
              0 <= decimals <= 30 && !exists whole, fraction :: WritesDecimal(value, whole, fraction)
    ensures DecimalToUnits(value, decimals, rounding).Failure? ==>
              DecimalToUnits(value, decimals, rounding).error in {InvalidDecimals, NotDecimal, TooPrecise}
  {
    DecimalExactly(value);
    hide IsDecimal, WritesDecimal, Whole, Fraction, Value, PadEnd;
  }

  /** A conversion succeeds exactly when both texts are read exactly and the output has no negative precision. */
  lemma ConvertSucceedsExactly(amount: string, amountDecimals: int, rate: string, rateDecimals: int,
                               outputDecimals: int)
    ensures ConvertByRate(amount, amountDecimals, rate, rateDecimals, outputDecimals).Success? <==>
              && DecimalToUnits(amount, amountDecimals, Reject).Success?
              && DecimalToUnits(rate, rateDecimals, Reject).Success? && outputDecimals >= 0
  {
    hide DecimalToUnits, ConvertedUnits, PrintUnits;
  }

  /** A division succeeds exactly when both texts are read exactly, the rate is not zero, and the precisions of rate and
      output do not add up to less than zero. */
  lemma DivideSucceedsExactly(amount: string, amountDecimals: int, rate: string, rateDecimals: int,
                              outputDecimals: int)
    ensures DivideByRate(amount, amountDecimals, rate, rateDecimals, outputDecimals).Success? <==>
              && DecimalToUnits(amount, amountDecimals, Reject).Success?
              && DecimalToUnits(rate, rateDecimals, Reject).Success?
              && DecimalToUnits(rate, rateDecimals, Reject) != Success(0) && rateDecimals + outputDecimals >= 0
  {
    hide DecimalToUnits, DividedUnits, PrintUnits, StripZeros;
  }

  /** Quantising refuses negative amounts first, then precisions outside 0 to 30. */
  lemma QuantizeRefusedExactly(value: int, decimals: int, maximumDecimals: int)
    ensures QuantizeUnitsUp(value, decimals, maximumDecimals) == Failure(NegativeAmount) <==> value < 0
    ensures QuantizeUnitsUp(value, decimals, maximumDecimals) == Failure(InvalidDecimals) <==>
              value >= 0 && !(0 <= decimals <= 30 && 0 <= maximumDecimals <= 30)
    ensures QuantizeUnitsUp(value, decimals, maximumDecimals).Failure? ==>
              value < 0 || !(0 <= decimals <= 30 && 0 <= maximumDecimals <= 30)
  {
    hide Pow10, CeilDiv;
  }

  /** With a negative precision -k the point stands behind the first k digits, and zeros at the end are dropped. */
  lemma NegativePrecision(value: nat, k: int)
    requires k > 0
    ensures exists whole, fraction, zeros: nat ::
              && Print(value) == whole + fraction + Repeat('0', zeros) && |whole| == Min(k, |Print(value)|)
              && (fraction != "" ==> fraction[|fraction| - 1] != '0')
              && UnitsToDecimal(value, -k) == Success(if fraction != "" then whole + "." + fraction else whole)
  {
    var text := Print(value);
    hide Print, PrintUnits;
    var cut := Min(k, |text|);
    StripZerosSplit(text[cut..]);
    var whole, fraction := text[..cut], StripZeros(text[cut..]);
    var zeros := |text[cut..]| - |fraction|;
    assert text == whole + fraction + Repeat('0', zeros);
  }

  lemma UnitsRefusedExactly(value: int, decimals: int)
    ensures UnitsToDecimal(value, decimals) == Failure(NegativeAmount) <==> value < 0
    ensures UnitsToDecimal(value, decimals).Failure? ==> value < 0
    ensures value >= 0 && decimals >= 0 ==> UnitsToDecimal(value, decimals) == Success(PrintUnits(value, decimals))
  {
    hide Print, PrintUnits, StripZeros;
  }
}
