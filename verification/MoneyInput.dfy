/** Amounts as the admin forms show and read them: minor units as digits, major units with a
    point, blanks and leading zeros dropped. */
module MoneyInput {
  import opened Arithmetic
  import opened Wrappers
  import opened Text

  /** Leading zeros go as long as a digit follows. */
  function DropLeadingZeros(s: string): string {
    if |s| >= 2 && s[0] == '0' && IsDigit(s[1]) then DropLeadingZeros(s[1..]) else s
  }

  function FormatMinorInput(minor: Option<string>, decimals: nat): string {
    if minor.None? || minor.value == "" then ""
    else
      var normalized := DropLeadingZeros(minor.value);
      if decimals == 0 then normalized
      else
        var padded := PadStart(normalized, decimals + 1, '0');
        padded[..|padded| - decimals] + "." + padded[|padded| - decimals..]
  }

  /** The white space that `trim` removes. */
  predicate IsBlank(c: char) {
    || 9 as char <= c <= 13 as char
    || c in {32 as char, 0xa0 as char, 0x1680 as char, 0x2028 as char, 0x2029 as char, 0x202f as char, 0x205f as char,
             0x3000 as char, 0xfeff as char}
    || 0x2000 as char <= c <= 0x200a as char
  }

  function Trim(s: string): string
    decreases |s|
  {
    if s == "" then s
    else if IsBlank(s[0]) then Trim(s[1..])
    else if IsBlank(s[|s| - 1]) then Trim(s[..|s| - 1])
    else s
  }

  /** No entry, an entry that is not a number of this precision, or minor units as digits. */
  datatype Entry = NoEntry | Invalid | Minor(digits: string)

  /** ^\d+$ without decimals, and otherwise ^\d+(?:\.\d{0,decimals})?$ */
  predicate Matches(s: string, decimals: nat) {
    var parts := Split(s, '.');
    && parts[0] != "" && AllDigits(parts[0])
    && (|parts| == 1 || (decimals > 0 && |parts| == 2 && AllDigits(parts[1]) && |parts[1]| <= decimals))
  }

  /** The whole part scaled, plus the fraction filled up with zeros. */
  function MinorUnits(whole: string, fraction: string, decimals: nat): nat
    requires AllDigits(whole) && AllDigits(fraction)
  {
    ProductOfNats(Value(whole), Pow10(decimals));
    PaddedDigits(fraction, decimals);
    Value(whole) * Pow10(decimals) + Value(PadEnd(fraction, decimals, '0'))
  }

  lemma PaddedDigits(fraction: string, decimals: nat)
    requires AllDigits(fraction)
    ensures AllDigits(PadEnd(fraction, decimals, '0'))
  {
  }

  function ParseMajorInput(value: string, decimals: nat): Entry {
    var normalized := Trim(value);
    if normalized == "" then NoEntry
    else if !Matches(normalized, decimals) then Invalid
    else
      var parts := Split(normalized, '.');
      var fraction := if |parts| == 2 then parts[1] else "";
      Minor(Print(MinorUnits(parts[0], fraction, decimals)))
  }

  // ---------- showing and reading back ----------

  lemma {:induction false} DropKeepsValue(s: string)
    requires AllDigits(s) && s != ""
    ensures var r := DropLeadingZeros(s); AllDigits(r) && r != "" && Value(r) == Value(s)
    ensures IsCanonical(DropLeadingZeros(s))
  {
    if |s| >= 2 && s[0] == '0' {
      DropKeepsValue(s[1..]);
      assert s == Repeat('0', 1) + s[1..];
      ValueOfPadded(s[1..], 1);
    }
  }

  lemma NothingToTrim(s: string)
    requires s != "" && forall i :: 0 <= i < |s| ==> IsDigit(s[i]) || s[i] == '.'
    ensures Trim(s) == s
  {
    assert IsDigit(s[0]) || s[0] == '.';
    assert IsDigit(s[|s| - 1]) || s[|s| - 1] == '.';
  }

  lemma DigitsOrPoint(whole: string, fraction: string)
    requires AllDigits(whole) && AllDigits(fraction)
    ensures forall i :: 0 <= i < |whole + "." + fraction| ==>
              IsDigit((whole + "." + fraction)[i]) || (whole + "." + fraction)[i] == '.'
  {
  }

  /** How digits with a point are read. */
  lemma ReadParts(whole: string, fraction: string, decimals: nat)
    requires AllDigits(whole) && whole != "" && AllDigits(fraction) && |fraction| == decimals > 0
    ensures ParseMajorInput(whole + "." + fraction, decimals)
         == Minor(Print(MinorUnits(whole, fraction, decimals)))
  {
    hide Print, MinorUnits, Trim, Split;
    DigitsOrPoint(whole, fraction);
    NothingToTrim(whole + "." + fraction);
    SplitAtPoint(whole, fraction);
  }

  /** Without filling up, the minor units are the digits read together. */
  lemma MinorUnitsOfFull(whole: string, fraction: string)
    requires AllDigits(whole) && AllDigits(fraction)
    ensures MinorUnits(whole, fraction, |fraction|) == Value(whole + fraction)
  {
    ValueConcat(whole, fraction);
  }

  lemma ReadWhole(whole: string)
    requires AllDigits(whole) && whole != ""
    ensures ParseMajorInput(whole, 0) == Minor(Print(Value(whole)))
  {
    hide Print, Trim, Split, MinorUnits, Value;
    NothingToTrim(whole);
    SplitAtPoint(whole, "");
    MinorUnitsOfFull(whole, "");
    assert whole + "" == whole;
  }

  lemma ShownParts(n: string, decimals: nat)
    requires AllDigits(n) && n != "" && decimals > 0
    ensures var padded := PadStart(n, decimals + 1, '0');
            ParseMajorInput(padded[..|padded| - decimals] + "." + padded[|padded| - decimals..], decimals)
            == Minor(Print(Value(n)))
  {
    hide Print, Value, ParseMajorInput;
    var padded := PadStart(n, decimals + 1, '0');
    if |n| < decimals + 1 {
      ValueOfPadded(n, decimals + 1 - |n|);
    }
    var whole, fraction := padded[..|padded| - decimals], padded[|padded| - decimals..];
    assert padded == whole + fraction;
    hide PadStart, MinorUnits;
    MinorUnitsOfFull(whole, fraction);
    ReadParts(whole, fraction, decimals);
  }

  /** Reading what is shown for any digits gives the same number of minor units, without leading zeros. */
  lemma MinorRoundTrip(minor: string, decimals: nat)
    requires AllDigits(minor) && minor != ""
    ensures ParseMajorInput(FormatMinorInput(Some(minor), decimals), decimals) == Minor(Print(Value(minor)))
  {
    hide DropLeadingZeros, Print, Value, ParseMajorInput, IsCanonical;
    DropKeepsValue(minor);
    if decimals == 0 {
      ReadWhole(DropLeadingZeros(minor));
    } else {
      ShownParts(DropLeadingZeros(minor), decimals);
    }
  }

  lemma ScaledValue(whole: string, fraction: string, decimals: nat)
    requires AllDigits(whole) && AllDigits(fraction) && |fraction| <= decimals
    ensures MinorUnits(whole, fraction, decimals) == Value(whole + fraction) * Pow10(decimals - |fraction|)
  {
    hide Value, Pow10;
    var k := decimals - |fraction|;
    var padded := PadEnd(fraction, decimals, '0');
    ValueOfPadded(whole + fraction, k);
    assert whole + padded == whole + fraction + Repeat('0', k);
    ValueOfPadded(fraction, k);
    assert padded == fraction + Repeat('0', k);
    ValueConcat(whole, padded);
  }

  /** The entry is read exactly: the digits of the major amount, with its point moved `decimals` places. */
  lemma MajorIsExact(value: string, decimals: nat)
    requires ParseMajorInput(value, decimals).Minor?
    ensures var parts := Split(Trim(value), '.');
            var fraction := if |parts| == 2 then parts[1] else "";
            && AllDigits(parts[0]) && AllDigits(fraction) && |fraction| <= decimals
            && IsCanonical(ParseMajorInput(value, decimals).digits)
            && Value(ParseMajorInput(value, decimals).digits)
               == Value(parts[0] + fraction) * Pow10(decimals - |fraction|)
  {
    hide Value, Print, Trim, Split, Pow10, MinorUnits, IsCanonical;
    var parts := Split(Trim(value), '.');
    var fraction := if |parts| == 2 then parts[1] else "";
    ScaledValue(parts[0], fraction, decimals);
    var total := MinorUnits(parts[0], fraction, decimals);
    ValueOfPrint(total);
    PrintIsCanonical(total);
  }

  /** What was read is shown and read back unchanged. */
  lemma MajorStable(value: string, decimals: nat)
    requires ParseMajorInput(value, decimals).Minor?
    ensures ParseMajorInput(FormatMinorInput(Some(ParseMajorInput(value, decimals).digits), decimals), decimals)
         == ParseMajorInput(value, decimals)
  {
    MajorIsExact(value, decimals);
    var digits := ParseMajorInput(value, decimals).digits;
    hide ParseMajorInput, FormatMinorInput;
    PrintOfValue(digits);
    MinorRoundTrip(digits, decimals);
  }

  // ---------- exactly what is read ----------

  /** The blanks are the white space and line ends of sections 12.2 and 12.3 of ECMA-262. */
  lemma BlanksListed(c: char)
    ensures IsBlank(c) <==>
              c as int in {0x9, 0xa, 0xb, 0xc, 0xd, 0x20, 0xa0, 0x1680, 0x2000, 0x2001, 0x2002, 0x2003, 0x2004, 0x2005,
                           0x2006, 0x2007, 0x2008, 0x2009, 0x200a, 0x2028, 0x2029, 0x202f, 0x205f, 0x3000, 0xfeff}
  {
  }

  /** Zeros in front go as long as a digit follows, whatever the text is. */
  lemma {:induction false} ZerosDropped(s: string) returns (k: nat)
    ensures k <= |s| && s[..k] == Repeat('0', k) && DropLeadingZeros(s) == s[k..]
    ensures k > 0 ==> k < |s| && IsDigit(s[k])
    ensures |s[k..]| >= 2 && s[k] == '0' ==> !IsDigit(s[k + 1])
  {
    if |s| >= 2 && s[0] == '0' && IsDigit(s[1]) {
      k := ZerosDropped(s[1..]);
      assert s[..k + 1] == ['0'] + s[1..][..k];
      k := k + 1;
    } else {
      k := 0;
    }
  }

  /** Nothing is shown as nothing, and read back as no entry. */
  lemma NothingShown(decimals: nat)
    ensures FormatMinorInput(None, decimals) == "" && FormatMinorInput(Some(""), decimals) == ""
    ensures ParseMajorInput(FormatMinorInput(None, decimals), decimals) == NoEntry
  {
  }

  /** What is left of the entry without the blanks around it. */
  lemma {:induction false} TrimIsInside(s: string) returns (before: string, after: string)
    ensures s == before + Trim(s) + after
    ensures (forall c :: c in before ==> IsBlank(c)) && (forall c :: c in after ==> IsBlank(c))
    ensures Trim(s) != "" ==> !IsBlank(Trim(s)[0]) && !IsBlank(Trim(s)[|Trim(s)| - 1])
    decreases |s|
  {
    before, after := "", "";
    hide IsBlank;
    if s != "" && IsBlank(s[0]) {
      before, after := TrimIsInside(s[1..]);
      before := [s[0]] + before;
      assert s == [s[0]] + s[1..];
    } else if s != "" && IsBlank(s[|s| - 1]) {
      before, after := TrimIsInside(s[..|s| - 1]);
      after := after + [s[|s| - 1]];
      assert s == s[..|s| - 1] + [s[|s| - 1]];
    }
  }

  /** Digits, or digits with a point and at most so many digits behind it; without decimals there is no point. */
  predicate Writes(t: string, whole: string, fraction: string, decimals: nat) {
    && whole != "" && AllDigits(whole) && AllDigits(fraction) && |fraction| <= decimals
    && ((t == whole && fraction == "") || (t == whole + "." + fraction && decimals > 0))
  }

  lemma WritesMatches(t: string, whole: string, fraction: string, decimals: nat)
    requires Writes(t, whole, fraction, decimals)
    ensures Matches(t, decimals)
    ensures var parts := Split(t, '.');
            parts[0] == whole && (if |parts| == 2 then parts[1] else "") == fraction
  {
    hide Split;
    SplitAtPoint(whole, fraction);
  }

  lemma MatchesWrites(t: string, decimals: nat)
    requires Matches(t, decimals)
    ensures var parts := Split(t, '.');
            Writes(t, parts[0], if |parts| == 2 then parts[1] else "", decimals)
  {
    var parts := Split(t, '.');
    JoinSplit(t, '.');
    hide Split;
    if |parts| == 2 {
      assert parts == [parts[0], parts[1]] && parts[1..] == [parts[1]];
      assert Join([parts[1]], '.') == parts[1];
    } else {
      assert parts == [parts[0]];
    }
  }

  /** An entry of blanks is none. Any other is read as digits exactly when it is written as an amount of this precision
      between its blanks, and then as the amount with its point moved by that many places. */
  lemma EntryReadExactly(value: string, decimals: nat, digits: string)
    ensures ParseMajorInput(value, decimals) == NoEntry <==> forall c :: c in value ==> IsBlank(c)
    ensures ParseMajorInput(value, decimals) == Minor(digits) <==>
              exists whole, fraction ::
                && Writes(Trim(value), whole, fraction, decimals)
                && digits == Print(Value(whole + fraction) * Pow10(decimals - |fraction|))
  {
    hide Value, Print, Trim, Split, Pow10, MinorUnits, Matches, Writes;
    var t := Trim(value);
    BlankEntry(value);
    if Matches(t, decimals) && t != "" {
      var parts := Split(t, '.');
      var w, f := parts[0], if |parts| == 2 then parts[1] else "";
      MatchesWrites(t, decimals);
      WrittenParts(t, w, f, decimals);
      ScaledValue(w, f, decimals);
      forall whole, fraction | Writes(t, whole, fraction, decimals)
        ensures whole == w && fraction == f
      {
        WritesMatches(t, whole, fraction, decimals);
      }
    }
    forall whole, fraction | Writes(t, whole, fraction, decimals)
      ensures Matches(t, decimals) && t != ""
    {
      WritesMatches(t, whole, fraction, decimals);
      WrittenParts(t, whole, fraction, decimals);
    }
  }

  lemma WrittenParts(t: string, whole: string, fraction: string, decimals: nat)
    requires Writes(t, whole, fraction, decimals)
    ensures AllDigits(whole) && AllDigits(fraction) && |fraction| <= decimals && t != ""
  {
  }

  lemma BlankEntry(value: string)
    ensures Trim(value) == "" <==> forall c :: c in value ==> IsBlank(c)
  {
    var before, after := TrimIsInside(value);
    hide Trim;
    if Trim(value) != "" {
      assert value[|before|] == Trim(value)[0];
    }
  }
}
